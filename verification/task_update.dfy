/** Image update and task start (`update_task_definition_image`, `run_task`,
    `get_task_definition_families` and the per-family loop of the update-and-run
    script; the end-to-end driver's copy of the functions is identical). */
module TaskUpdate {
  import opened Wrappers
  import opened Exceptions
  import opened Strings
  import opened Seqs
  import opened Ecs

  /** The only container whose image is replaced. */
  const TargetContainer: string := "MyContainer"

  /** `f"{repository_uri}:{tag}"`. */
  function ImageUri(repositoryUri: string, tag: string): string {
    repositoryUri + ":" + tag
  }

  function WithImage(c: Container, image: string): Container {
    if c.name == TargetContainer then c.(image := image) else c
  }

  /** The in-place loop over `containerDefinitions`: a container named exactly
      `MyContainer` gets the new image; count, order and every other field stay. */
  function UpdateContainerImages(cs: seq<Container>, image: string): (r: seq<Container>)
    ensures |r| == |cs|
    ensures forall i :: 0 <= i < |cs| ==>
      && r[i].name == cs[i].name
      && r[i].credentialSpecs == cs[i].credentialSpecs
      && r[i].settings == cs[i].settings
    ensures forall i :: 0 <= i < |cs| ==>
      r[i].image == (if cs[i].name == TargetContainer then image else cs[i].image)
  {
    seq(|cs|, i requires 0 <= i < |cs| => WithImage(cs[i], image))
  }

  /** Replacing the image twice with the same URI is replacing it once. */
  lemma UpdateContainerImagesIdempotent(cs: seq<Container>, image: string)
    ensures UpdateContainerImages(UpdateContainerImages(cs, image), image) == UpdateContainerImages(cs, image)
  {
  }

  /** The image update leaves the credential metadata both gates look at untouched. */
  lemma UpdateKeepsCredentials(cs: seq<Container>, image: string)
    ensures AnyHasCredentialSpecs(UpdateContainerImages(cs, image)) <==> AnyHasCredentialSpecs(cs)
    ensures CountIf(UpdateContainerImages(cs, image), HasCredentialSpecsKey) == CountIf(cs, HasCredentialSpecsKey)
  {
    var r := UpdateContainerImages(cs, image);
    if AnyHasCredentialSpecs(cs) {
      var i :| 0 <= i < |cs| && HasCredentialSpecs(cs[i]);
      assert HasCredentialSpecs(r[i]);
    }
    if AnyHasCredentialSpecs(r) {
      var i :| 0 <= i < |r| && HasCredentialSpecs(r[i]);
      assert HasCredentialSpecs(cs[i]);
    }
    SameKeysSameCount(r, cs);
  }

  lemma {:induction false} SameKeysSameCount(a: seq<Container>, b: seq<Container>)
    requires |a| == |b|
    requires forall i :: 0 <= i < |a| ==> a[i].credentialSpecs == b[i].credentialSpecs
    ensures CountIf(a, HasCredentialSpecsKey) == CountIf(b, HasCredentialSpecsKey)
    decreases |a|
  {
    if |a| > 0 {
      SameKeysSameCount(a[1..], b[1..]);
    }
  }

  /** The keys `update_task_definition_image` subscripts in the described definition
      when it builds the registration arguments. */
  predicate HasUpdateKeys(td: TaskDef) {
    && td.taskRoleArn.Some? && td.executionRoleArn.Some? && td.networkMode.Some?
    && td.requiresCompatibilities.Some? && td.cpu.Some? && td.memory.Some?
  }

  /** `update_task_definition_image` up to the registration call: the arguments it
      passes to `register_task_definition`. `repositoryUris` are the URIs in the
      `describe_repositories` reply; `described` is the current definition of the
      family, None when describing it raised. A definition without one of the keys the
      arguments subscript raises KeyError. */
  function UpdateTaskDefinitionImage(repositoryUris: seq<string>, tag: string, described: Option<TaskDef>)
    : (r: Result<RegisterRequest, Exception>)
    ensures r.Success? <==> |repositoryUris| > 0 && described.Some? && HasUpdateKeys(described.value)
    ensures |repositoryUris| == 0 ==> r == Failure(IndexError)
    ensures |repositoryUris| > 0 && described.None? ==> r == Failure(ClientError)
    ensures |repositoryUris| > 0 && described.Some? && !HasUpdateKeys(described.value) ==> r == Failure(KeyError)
    ensures r.Success? ==>
      var td, q := described.value, r.value;
      && q.family == td.family
      && Some(q.taskRoleArn) == td.taskRoleArn && Some(q.executionRoleArn) == td.executionRoleArn
      && Some(q.networkMode) == td.networkMode
      && q.containers == UpdateContainerImages(td.containers, ImageUri(repositoryUris[0], tag))
      && q.volumes == Some(td.volumes.GetOr([]))
      && q.placementConstraints == Some(td.placementConstraints.GetOr([]))
      && Some(q.requiresCompatibilities) == td.requiresCompatibilities
      && Some(q.cpu) == td.cpu && Some(q.memory) == td.memory
      && q.runtimePlatform.None?
      && (q.tags.Some? <==> td.tags.Some? && |td.tags.value| > 0)
      && (q.tags.Some? ==> q.tags == td.tags)
  {
    if |repositoryUris| == 0 then Failure(IndexError)
    else
      match described
      case None => Failure(ClientError)
      case Some(td) =>
        if !HasUpdateKeys(td) then Failure(KeyError)
        else
          var image := ImageUri(repositoryUris[0], tag);
          Success(RegisterRequest(
            td.family, td.taskRoleArn.value, td.executionRoleArn.value, td.networkMode.value,
            UpdateContainerImages(td.containers, image),
            Some(td.volumes.GetOr([])), Some(td.placementConstraints.GetOr([])),
            td.requiresCompatibilities.value, None, td.cpu.value, td.memory.value,
            if td.tags.Some? && |td.tags.value| > 0 then td.tags else None))
  }

  /** How one `run_task` invocation ends. */
  datatype RunOutcome = TaskStarted(taskArn: string) | NotStarted | Raised(error: Exception)

  /** The `run_task` call issued, if any, and how the invocation ended. */
  datatype RunAttempt = RunAttempt(request: Option<RunRequest>, outcome: RunOutcome)

  /** `run_task`: describes the definition (a ClientException there gives None), refuses
      it unless some container has a non-empty `credentialSpecs` list, and otherwise
      starts one EC2 task in the given subnets with the one security group. A reply with
      no task raises IndexError (not caught here); a rejected call gives None. */
  function RunTask(cluster: string, taskDefinition: string, subnets: seq<string>, securityGroup: string,
                   described: Option<seq<Container>>, reply: RunRequest -> RunReply): (r: RunAttempt)
    ensures r.request.Some? <==> described.Some? && AnyHasCredentialSpecs(described.value)
    ensures r.request.None? ==> r.outcome == NotStarted
    ensures r.request.Some? ==>
      var q := r.request.value;
      && q.cluster == cluster && q.taskDefinition == taskDefinition
      && q.count == 1 && q.launchType == "EC2"
      && q.subnets == subnets && q.securityGroups == [securityGroup]
    ensures r.outcome.TaskStarted? <==>
      r.request.Some? && reply(r.request.value).Tasks? && |reply(r.request.value).taskArns| > 0
    ensures r.outcome.TaskStarted? ==> r.outcome.taskArn == reply(r.request.value).taskArns[0]
  {
    match described
    case None => RunAttempt(None, NotStarted)
    case Some(cs) =>
      if !AnyHasCredentialSpecs(cs) then RunAttempt(None, NotStarted)
      else
        var q := RunRequest(cluster, taskDefinition, 1, "EC2", subnets, [securityGroup]);
        match reply(q)
        case RunRejected => RunAttempt(Some(q), NotStarted)
        case Tasks(arns) =>
          if |arns| == 0 then RunAttempt(Some(q), Raised(IndexError))
          else RunAttempt(Some(q), TaskStarted(arns[0]))
  }

  /** `arn.split('/')[1].split(':')[0]`: the text between the first and the second '/',
      cut at its first ':'. */
  function FamilyOf(arn: string): (f: string)
    requires '/' in arn
    ensures '/' !in f && ':' !in f
  {
    ContainsChar(arn, '/');
    var segment := Split(arn, "/")[1];
    SegmentHasNoSeparator(arn, "/");
    ContainsChar(segment, '/');
    var f := Split(segment, ":")[0];
    SplitHead(segment, ":");
    ContainsChar(f, ':');
    f
  }

  /** A task-definition ARN "<prefix>/<family>:<revision>" yields its family, whatever
      the revision holds. */
  lemma FamilyOfInverse(prefix: string, family: string, revision: string)
    requires '/' !in prefix && '/' !in family && ':' !in family
    ensures '/' in prefix + "/" + family + ":" + revision
    ensures FamilyOf(prefix + "/" + family + ":" + revision) == family
  {
    var tail := family + ":" + revision;
    assert prefix + "/" + family + ":" + revision == prefix + "/" + tail;
    FamilyAfterPrefix(prefix, tail);
    RevisionSegment(family, revision);
  }

  /** An ARN "<prefix>/<family>" without a revision yields the family too. */
  lemma BareFamilyOf(prefix: string, family: string)
    requires '/' !in prefix && '/' !in family && ':' !in family
    ensures '/' in prefix + "/" + family
    ensures FamilyOf(prefix + "/" + family) == family
  {
    FamilyAfterPrefix(prefix, family);
    SplitFirstPiece(family, "", "/");
    SplitFirstPiece(family, "", ":");
  }

  /** What follows the first '/' decides the family. */
  lemma FamilyAfterPrefix(prefix: string, tail: string)
    requires '/' !in prefix
    ensures '/' in prefix + "/" + tail
    ensures FamilyOf(prefix + "/" + tail) == Split(Split(tail, "/")[0], ":")[0]
  {
    var arn := prefix + "/" + tail;
    assert arn == prefix + ['/'] + tail;
    assert arn[|prefix|] == '/';
    SplitAfterFirst(prefix, tail, '/');
  }

  /** The segment before the next '/' of "<family>:<revision>" still starts with
      "<family>:", so its first ':'-piece is the family. */
  lemma RevisionSegment(family: string, rev: string)
    requires '/' !in family && ':' !in family
    ensures Split(Split(family + ":" + rev, "/")[0], ":")[0] == family
  {
    var tail := family + ":" + rev;
    match Find(rev, "/")
    case None =>
      ContainsChar(rev, '/');
      assert '/' !in tail;
      SplitFirstPiece(tail, "", "/");
      SplitFirstPiece(family, rev, ":");
    case Some(k) =>
      FindCharAt(rev, '/', k);
      var before := rev[..k];
      assert tail == (family + ":" + before) + "/" + rev[k + 1..];
      SplitFirstPiece(family + ":" + before, rev[k + 1..], "/");
      SplitFirstPiece(family, before, ":");
  }

  /** The second piece of a split holds no separator. */
  lemma SegmentHasNoSeparator(s: string, sep: string)
    requires |sep| > 0 && Contains(s, sep)
    ensures !Contains(Split(s, sep)[1], sep)
  {
    var k := Find(s, sep).value;
    SplitSecond(s, sep, k);
    SplitHead(s[k + |sep|..], sep);
  }

  /** `get_task_definition_families`: over every ARN of every page, the families of
      the ARNs containing `pattern`, each once (here in order of first appearance; the
      script's `list(set)` fixes no order). An ARN containing the pattern but no '/'
      raises IndexError. */
  method TaskDefinitionFamilies(pages: seq<seq<string>>, pattern: string) returns (r: Result<seq<string>, Exception>)
    ensures r.Failure? <==> exists a :: a in Flatten(pages) && Unsplittable(a, pattern)
    ensures r.Failure? ==> r.error == IndexError
    ensures r.Success? ==> NoDuplicates(r.value)
    ensures r.Success? ==> forall f :: f in r.value <==>
      exists a :: a in Flatten(pages) && Selected(a, pattern) && f == FamilyOf(a)
  {
    var arns := Flatten(pages);
    r := FamiliesOf(arns, pattern);
    if r.Failure? {
      var j :| 0 <= j < |arns| && Unsplittable(arns[j], pattern);
      assert arns[j] in arns;
    } else {
      forall f
        ensures f in r.value <==> exists a :: a in arns && Selected(a, pattern) && f == FamilyOf(a)
      {
        PickedMember(arns, pattern, f);
      }
    }
  }

  /** The loop of `get_task_definition_families` over the flattened ARN list. */
  method FamiliesOf(arns: seq<string>, pattern: string) returns (r: Result<seq<string>, Exception>)
    ensures r.Failure? <==> exists j :: 0 <= j < |arns| && Unsplittable(arns[j], pattern)
    ensures r.Failure? ==> r.error == IndexError
    ensures r.Success? ==> NoDuplicates(r.value)
    ensures r.Success? ==> forall f :: f in r.value <==> exists j :: Picked(arns, j, pattern, f)
  {
    var families: seq<string> := [];
    var i := 0;
    while i < |arns|
      invariant 0 <= i <= |arns|
      invariant SplittableBefore(arns, i, pattern)
      invariant Collected(families, arns, i, pattern)
    {
      if Unsplittable(arns[i], pattern) {
        return Failure(IndexError);
      }
      var next := Visit(families, arns[i], pattern);
      FamiliesStep(arns, i, pattern, families, next);
      families := next;
      i := i + 1;
    }
    AllPicked(families, arns, pattern);
    return Success(families);
  }

  /** No ARN before `i` makes the listing fail. */
  predicate SplittableBefore(arns: seq<string>, i: int, pattern: string) {
    forall j :: 0 <= j < i && j < |arns| ==> !Unsplittable(arns[j], pattern)
  }

  /** The loop's family list after `i` ARNs: no duplicates, and exactly the families
      picked among them. */
  ghost predicate Collected(families: seq<string>, arns: seq<string>, i: int, pattern: string) {
    NoDuplicates(families) && ListsPicked(families, arns, i, pattern)
  }

  /** One pass of the loop: the family of a selected ARN joins the list unless it is
      already there. */
  function Visit(families: seq<string>, a: string, pattern: string): seq<string>
    requires !Unsplittable(a, pattern)
  {
    if Contains(a, pattern) && FamilyOf(a) !in families then families + [FamilyOf(a)] else families
  }

  /** Once the loop has seen every ARN, the list holds exactly the picked families. */
  lemma AllPicked(families: seq<string>, arns: seq<string>, pattern: string)
    requires Collected(families, arns, |arns|, pattern)
    ensures NoDuplicates(families)
    ensures forall f :: f in families <==> exists j :: Picked(arns, j, pattern, f)
  {
    forall f ensures f in families <==> exists j :: Picked(arns, j, pattern, f) {
      if exists j :: Picked(arns, j, pattern, f) {
        var j :| Picked(arns, j, pattern, f);
        assert 0 <= j < |arns|;
      }
    }
  }

  /** One pass of the loop keeps its invariant: the family list stays free of
      duplicates and holds exactly the families picked so far. */
  lemma FamiliesStep(arns: seq<string>, i: nat, pattern: string, families: seq<string>, next: seq<string>)
    requires i < |arns| && !Unsplittable(arns[i], pattern)
    requires Collected(families, arns, i, pattern)
    requires next == Visit(families, arns[i], pattern)
    ensures Collected(next, arns, i + 1, pattern)
  {
    forall g ensures g in next <==> exists j :: 0 <= j < i + 1 && Picked(arns, j, pattern, g) {
      PickedStep(arns, i, pattern, g);
    }
  }

  /** Selection among the first i + 1 ARNs is selection among the first i plus the
      ARN at i. */
  lemma PickedStep(arns: seq<string>, i: nat, pattern: string, f: string)
    requires i < |arns|
    ensures (exists j :: 0 <= j < i + 1 && Picked(arns, j, pattern, f)) <==>
      (exists j :: 0 <= j < i && Picked(arns, j, pattern, f)) || Picked(arns, i, pattern, f)
  {
  }

  /** Index-wise and membership-wise selection agree. */
  lemma PickedMember(arns: seq<string>, pattern: string, f: string)
    ensures (exists j :: Picked(arns, j, pattern, f)) <==>
      exists a :: a in arns && Selected(a, pattern) && f == FamilyOf(a)
  {
    if exists a :: a in arns && Selected(a, pattern) && f == FamilyOf(a) {
      var a :| a in arns && Selected(a, pattern) && f == FamilyOf(a);
      var j :| 0 <= j < |arns| && arns[j] == a;
      assert Picked(arns, j, pattern, f);
    }
    if exists j :: Picked(arns, j, pattern, f) {
      var j :| Picked(arns, j, pattern, f);
      assert arns[j] in arns;
    }
  }

  /** The ARNs the listing fails on: they contain the pattern but no '/'. */
  predicate Unsplittable(a: string, pattern: string) {
    Contains(a, pattern) && '/' !in a
  }

  /** The ARNs whose family the listing reports: those containing the pattern and a '/'. */
  predicate Selected(a: string, pattern: string) {
    Contains(a, pattern) && '/' in a
  }

  /** `families` holds exactly the families of the ARNs picked among the first `i`. */
  ghost predicate ListsPicked(families: seq<string>, arns: seq<string>, i: int, pattern: string) {
    forall f :: f in families <==> exists j :: 0 <= j < i && Picked(arns, j, pattern, f)
  }

  /** The ARN at position `j` is selected and has family `f`. */
  predicate Picked(arns: seq<string>, j: int, pattern: string, f: string) {
    0 <= j < |arns| && Selected(arns[j], pattern) && f == FamilyOf(arns[j])
  }

  /** The services the per-family loop talks to. `describe` answers for a family name
      or a revision ARN (None: the call raised); `register` gives the new revision ARN
      (None: the call raised); `run` answers `run_task`. */
  datatype Platform = Platform(
    repositoryUris: seq<string>,
    describe: string -> Option<TaskDef>,
    register: RegisterRequest -> Option<string>,
    run: RunRequest -> RunReply)

  /** The containers `run_task` sees when it describes `arn`. */
  function DescribedContainers(p: Platform, arn: string): Option<seq<Container>> {
    match p.describe(arn)
    case None => None
    case Some(td) => Some(td.containers)
  }

  /** What happened to one family: the registration request sent, the run request sent,
      and how processing ended. */
  datatype FamilyReport = FamilyReport(
    family: string,
    registered: Option<RegisterRequest>,
    runRequest: Option<RunRequest>,
    outcome: RunOutcome)

  /** One iteration of the per-family loop: update the image, register the revision,
      try to run it. Any exception ends this family only. */
  function ProcessFamily(family: string, tag: string, cluster: string, subnets: seq<string>,
                         securityGroup: string, p: Platform): (r: FamilyReport)
    ensures r.family == family
    ensures r.runRequest.Some? ==> r.registered.Some?
  {
    match UpdateTaskDefinitionImage(p.repositoryUris, tag, p.describe(family))
    case Failure(e) => FamilyReport(family, None, None, Raised(e))
    case Success(q) =>
      match p.register(q)
      case None => FamilyReport(family, Some(q), None, Raised(ClientError))
      case Some(arn) =>
        var attempt := RunTask(cluster, arn, subnets, securityGroup, DescribedContainers(p, arn), p.run);
        FamilyReport(family, Some(q), attempt.request, attempt.outcome)
  }

  /** The update-and-run script body: no VPC, no subnet, no security group, a failed
      family listing or an empty one aborts before any family is touched; otherwise
      every family is processed in turn, with the VPC's first security group. */
  datatype ScriptOutcome = Aborted(error: Exception) | Processed(reports: seq<FamilyReport>)

  function UpdateAndRunScript(vpcIds: seq<string>, subnets: seq<string>, securityGroups: seq<string>,
                              families: Result<seq<string>, Exception>, tag: string, cluster: string,
                              p: Platform): (r: ScriptOutcome)
    ensures r.Aborted? <==>
      |vpcIds| == 0 || |subnets| == 0 || |securityGroups| == 0 || families.Failure? || |families.value| == 0
    ensures r.Processed? ==> |r.reports| == |families.value|
    ensures r.Processed? ==> forall i :: 0 <= i < |r.reports| ==>
      r.reports[i] == ProcessFamily(families.value[i], tag, cluster, subnets, securityGroups[0], p)
  {
    if |vpcIds| == 0 then Aborted(ValueError("No VPC found"))
    else if |subnets| == 0 then Aborted(ValueError("No subnets found"))
    else if |securityGroups| == 0 then Aborted(ValueError("No security groups found"))
    else
      match families
      case Failure(e) => Aborted(e)
      case Success(fs) =>
        if |fs| == 0 then Aborted(ValueError("No task definition families found"))
        else Processed(seq(|fs|, i requires 0 <= i < |fs| => ProcessFamily(fs[i], tag, cluster, subnets, securityGroups[0], p)))
  }

  /** The platform describes a registered revision with the containers it was given. */
  ghost predicate Faithful(p: Platform) {
    forall q :: p.register(q).Some? ==>
      p.describe(p.register(q).value).Some? && p.describe(p.register(q).value).value.containers == q.containers
  }

  /** On a faithful platform, after a successful registration, a run request is sent
      exactly when the family's current definition carries a non-empty credentialSpecs list
      in some container: the image update neither adds nor removes credentials. */
  lemma RunOnlyWithCredentials(family: string, tag: string, cluster: string, subnets: seq<string>,
                               securityGroup: string, p: Platform)
    requires Faithful(p)
    requires UpdateTaskDefinitionImage(p.repositoryUris, tag, p.describe(family)).Success?
    requires p.register(UpdateTaskDefinitionImage(p.repositoryUris, tag, p.describe(family)).value).Some?
    ensures ProcessFamily(family, tag, cluster, subnets, securityGroup, p).runRequest.Some?
        <==> AnyHasCredentialSpecs(p.describe(family).value.containers)
  {
    var td := p.describe(family).value;
    var q := UpdateTaskDefinitionImage(p.repositoryUris, tag, p.describe(family)).value;
    UpdateKeepsCredentials(td.containers, ImageUri(p.repositoryUris[0], tag));
  }
}
