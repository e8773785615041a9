/** The stand-alone copy script of the domainless-mode deployment: it builds one
    credential spec per gMSA account from a shared template, uploads them, and registers
    `max_tasks_per_instance` task definitions, each with ten containers pointing at the
    first ten uploaded specs. Every remote call is replaced by its reply, given in
    `CopyInputs`; the run is the accounts whose objects were stored, the registration
    calls issued, and the exception (if any) that ended the script. */
module CopyScript {
  import opened Wrappers
  import opened Exceptions
  import opened Strings
  import opened Seqs
  import opened Ecs
  import opened Credspec
  import opened TaskDefs

  /** The number of containers every registered definition gets. */
  const ContainersPerDefinition := 10

  /** What became of one account's upload: `put_object` raised; `get_bucket_location`
      raised after the object was stored; or both returned. Both exceptions are caught. */
  datatype UploadOutcome = PutFailed | LocationFailed | Uploaded

  /** An object `put_object` stored in the bucket. */
  datatype StoredObject = StoredObject(key: string, body: CredSpec)

  /** The object key of account i's spec. */
  function AccountKey(i: nat): string {
    AccountName(i) + KeySuffix
  }

  /** The object the script puts for account i: the shared spec with the account's name
      substituted, under the account's key. */
  function AccountObject(shared: CredSpec, i: nat): StoredObject {
    StoredObject(AccountKey(i), AccountCredspec(shared, i))
  }

  /** The accounts among 1..n whose `put_object` returned, in increasing order: the
      objects the run leaves in the bucket are their `AccountObject`s. */
  function StoredAccounts(n: nat, outcome: nat -> UploadOutcome): (r: seq<nat>)
    ensures forall i :: i in r <==> 1 <= i <= n && !outcome(i).PutFailed?
    ensures forall a, b :: 0 <= a < b < |r| ==> r[a] < r[b]
    decreases n
  {
    if n == 0 then []
    else
      var prev := StoredAccounts(n - 1, outcome);
      assert forall a :: 0 <= a < |prev| ==> prev[a] in prev;
      if outcome(n).PutFailed? then prev else prev + [n]
  }

  /** Distinct accounts are stored under distinct keys, so no upload overwrites another. */
  lemma AccountKeysDistinct(i: nat, j: nat)
    requires AccountKey(i) == AccountKey(j)
    ensures i == j
  {
    assert AccountName(i) == AccountKey(i)[..|AccountKey(i)| - |KeySuffix|];
    assert AccountName(j) == AccountKey(j)[..|AccountKey(j)| - |KeySuffix|];
    PrefixedNatInjective("WebApp0", i, j);
  }

  /** With plain configuration values, the object stored for an account holds exactly
      the spec `create_credspec` would build for it. */
  lemma StoredAreIntended(directoryName: string, netbiosName: string, secretArn: string, i: nat)
    requires Plain(directoryName) && Plain(netbiosName) && Plain(secretArn)
    ensures AccountObject(SharedTemplate(directoryName, netbiosName, secretArn), i).body
         == Intended(directoryName, netbiosName, AccountName(i), secretArn)
  {
    BatchOrderAgrees(directoryName, netbiosName, secretArn, i);
  }

  /** The accounts among 1..n whose upload fully succeeded, in increasing order. */
  function UploadedAccounts(n: nat, outcome: nat -> UploadOutcome): (r: seq<nat>)
    ensures forall i :: i in r <==> 1 <= i <= n && outcome(i).Uploaded?
    ensures forall a, b :: 0 <= a < b < |r| ==> r[a] < r[b]
    decreases n
  {
    if n == 0 then []
    else
      var prev := UploadedAccounts(n - 1, outcome);
      assert forall a :: 0 <= a < |prev| ==> prev[a] in prev;
      if outcome(n).Uploaded? then prev + [n] else prev
  }

  /** The `credspecs` list: the reference to each account's spec whose upload fully
      succeeded, in account order, so that a failed upload shifts the later references
      down by one. */
  function CredspecReferences(bucket: string, n: nat, outcome: nat -> UploadOutcome): (r: seq<string>)
    ensures |r| <= n
    ensures forall ref :: ref in r <==>
      exists i :: 1 <= i <= n && outcome(i).Uploaded? && ref == AccountReference(bucket, i)
    ensures NoDuplicates(r)
    ensures |r| == |UploadedAccounts(n, outcome)|
    ensures forall k :: 0 <= k < |r| ==> r[k] == AccountReference(bucket, UploadedAccounts(n, outcome)[k])
    decreases n
  {
    if n == 0 then []
    else
      var prev := CredspecReferences(bucket, n - 1, outcome);
      if outcome(n).Uploaded? then
        assert AccountReference(bucket, n) !in prev by {
          if AccountReference(bucket, n) in prev {
            var i :| 1 <= i <= n - 1 && outcome(i).Uploaded? && AccountReference(bucket, n) == AccountReference(bucket, i);
            AccountReferencesDistinct(bucket, n, i);
          }
        }
        prev + [AccountReference(bucket, n)]
      else prev
  }

  /** When every upload succeeds, the uploaded accounts are 1..n in order. */
  lemma {:induction false} AllUploadedAccounts(n: nat, outcome: nat -> UploadOutcome)
    requires forall i :: 1 <= i <= n ==> outcome(i).Uploaded?
    ensures |UploadedAccounts(n, outcome)| == n
    ensures forall k :: 0 <= k < n ==> UploadedAccounts(n, outcome)[k] == k + 1
    decreases n
  {
    if n > 0 {
      AllUploadedAccounts(n - 1, outcome);
      var prev := UploadedAccounts(n - 1, outcome);
      assert UploadedAccounts(n, outcome) == prev + [n];
    }
  }

  /** When every upload succeeds, the k-th reference is account k's. */
  lemma AllUploadedReferences(bucket: string, n: nat, outcome: nat -> UploadOutcome)
    requires forall i :: 1 <= i <= n ==> outcome(i).Uploaded?
    ensures |CredspecReferences(bucket, n, outcome)| == n
    ensures forall k :: 1 <= k <= n ==> CredspecReferences(bucket, n, outcome)[k - 1] == AccountReference(bucket, k)
  {
    AllUploadedAccounts(n, outcome);
  }

  /** The name of the j-th container of a batch definition. */
  function ContainerName(j: nat): string {
    "MyContainer" + NatToString(j)
  }

  /** The ten containers of every batch definition: copies of the template's first
      container, the j-th named `MyContainer<j>` and pointing at the j-th reference. */
  function BatchContainers(first: Container, refs: seq<string>): (r: seq<Container>)
    requires |refs| >= ContainersPerDefinition
    ensures |r| == ContainersPerDefinition
    ensures forall j :: 1 <= j <= ContainersPerDefinition ==>
      r[j - 1] == first.(name := ContainerName(j), credentialSpecs := Some([refs[j - 1]]))
  {
    seq(ContainersPerDefinition, k requires 0 <= k < ContainersPerDefinition =>
      first.(name := ContainerName(k + 1), credentialSpecs := Some([refs[k]])))
  }

  /** The containers of a batch definition have distinct names, all pass the run gate,
      and keep the image and settings of the template's first container. */
  lemma BatchContainersWellFormed(first: Container, refs: seq<string>)
    requires |refs| >= ContainersPerDefinition
    ensures NoDuplicates(seq(ContainersPerDefinition, k requires 0 <= k < ContainersPerDefinition =>
      BatchContainers(first, refs)[k].name))
    ensures forall k :: 0 <= k < ContainersPerDefinition ==>
      HasCredentialSpecs(BatchContainers(first, refs)[k])
      && BatchContainers(first, refs)[k].image == first.image
      && BatchContainers(first, refs)[k].settings == first.settings
  {
    var cs := BatchContainers(first, refs);
    forall a, b | 0 <= a < b < ContainersPerDefinition ensures cs[a].name != cs[b].name {
      if cs[a].name == cs[b].name {
        PrefixedNatInjective("MyContainer", a + 1, b + 1);
      }
    }
  }

  /** When every upload succeeded for at least ten accounts, container j of every batch
      definition points at account j's spec. */
  lemma ContainersMatchAccounts(bucket: string, n: nat, outcome: nat -> UploadOutcome, first: Container)
    requires n >= ContainersPerDefinition
    requires forall i :: 1 <= i <= n ==> outcome(i).Uploaded?
    ensures |CredspecReferences(bucket, n, outcome)| >= ContainersPerDefinition
    ensures forall j :: 1 <= j <= ContainersPerDefinition ==>
      BatchContainers(first, CredspecReferences(bucket, n, outcome))[j - 1].credentialSpecs
        == Some([AccountReference(bucket, j)])
  {
    AllUploadedReferences(bucket, n, outcome);
    var refs := CredspecReferences(bucket, n, outcome);
    var cs := BatchContainers(first, refs);
    forall j | 1 <= j <= ContainersPerDefinition ensures cs[j - 1].credentialSpecs == Some([AccountReference(bucket, j)]) {
      assert cs[j - 1] == first.(name := ContainerName(j), credentialSpecs := Some([refs[j - 1]]));
    }
  }

  /** The family of the i-th batch definition. */
  function BatchFamily(base: string, i: nat): string {
    base + "-" + NatToString(i)
  }

  /** The registration request of every batch iteration, whatever the loop has appended
      to the shared template by then: it reads only the template's first container,
      network mode, cpu and memory, which the loop never changes. */
  function BatchRequest(td: TaskDef, refs: seq<string>, roleArn: string, i: nat): RegisterRequest
    requires |td.containers| > 0 && |refs| >= ContainersPerDefinition && HasRegisterKeys(td)
  {
    RegisterNewTaskDefinition(td.(containers := BatchContainers(td.containers[0], refs)),
                              BatchFamily(td.family, i), roleArn).value
  }

  /** The loop's effect: the registration calls issued (the last one possibly raising),
      the exception that ended it, and the template as the loop left it. */
  datatype BatchRun = BatchRun(requests: seq<RegisterRequest>, error: Option<Exception>, template: TaskDef)

  /** `count` iterations of the registration loop, the first numbered `first`. Each one
      appends FARGATE to the template's compatibilities, builds the ten containers
      (IndexError without a first container or with fewer than ten references), appends
      the domainless capability attribute, and registers the definition. The call's
      arguments are read in order: the role ARN is None when no role matched, which
      raises NameError, and then a template without a network mode, cpu or memory raises
      KeyError. The template is the one dictionary every iteration mutates. */
  function BatchLoop(td: TaskDef, refs: seq<string>, role: Option<string>, clusterArn: string,
                     first: nat, count: nat, registers: RegisterRequest -> bool): (r: BatchRun)
    ensures |r.requests| <= count
    ensures r.error.None? ==> |r.requests| == count
    ensures |r.requests| > 0 ==>
      |td.containers| > 0 && |refs| >= ContainersPerDefinition && role.Some? && HasRegisterKeys(td)
    ensures |r.requests| > 0 ==> forall k :: 0 <= k < |r.requests| ==>
      r.requests[k] == BatchRequest(td, refs, role.value, first + k)
    ensures forall k :: 0 <= k < |r.requests| - 1 ==> registers(r.requests[k])
    ensures r.error.None? ==> forall k :: 0 <= k < |r.requests| ==> registers(r.requests[k])
    ensures r.error.Some? ==> count > 0
    ensures r.error == Some(ClientError) ==> |r.requests| > 0 && !registers(r.requests[|r.requests| - 1])
    ensures count > 0 && (|td.containers| == 0 || |refs| < ContainersPerDefinition) ==>
      r.requests == [] && r.error == Some(IndexError)
    ensures count > 0 && |td.containers| > 0 && |refs| >= ContainersPerDefinition && role.None? ==>
      r.requests == [] && r.error == Some(NameError)
    ensures count > 0 && |td.containers| > 0 && |refs| >= ContainersPerDefinition && role.Some?
            && !HasRegisterKeys(td) ==>
      r.requests == [] && r.error == Some(KeyError)
    ensures r.error.Some? ==> r.error.value in {IndexError, NameError, KeyError, ClientError}
    ensures r.template.(compatibilities := td.compatibilities, requiresAttributes := td.requiresAttributes) == td
    decreases count
  {
    if count == 0 then BatchRun([], None, td)
    else
      var td1 := td.(compatibilities := td.compatibilities + ["FARGATE"]);
      if |td1.containers| == 0 || |refs| < ContainersPerDefinition then BatchRun([], Some(IndexError), td1)
      else
        var td2 := td1.(requiresAttributes := td1.requiresAttributes + [Attribute(DomainlessCapability, clusterArn)]);
        if role.None? then BatchRun([], Some(NameError), td2)
        else if !HasRegisterKeys(td2) then BatchRun([], Some(KeyError), td2)
        else
          var req := BatchRequest(td2, refs, role.value, first);
          assert req == BatchRequest(td, refs, role.value, first);
          if !registers(req) then BatchRun([req], Some(ClientError), td2)
          else
            var rest := BatchLoop(td2, refs, role, clusterArn, first + 1, count - 1, registers);
            assert forall k :: 0 <= k < |rest.requests| ==>
              rest.requests[k] == BatchRequest(td, refs, role.value, first + 1 + k);
            BatchRun([req] + rest.requests, rest.error, rest.template)
  }

  /** The families of one batch are pairwise distinct. */
  lemma BatchFamiliesDistinct(base: string, i: nat, j: nat)
    requires BatchFamily(base, i) == BatchFamily(base, j)
    ensures i == j
  {
    PrefixedNatInjective(base + "-", i, j);
  }

  /** No two registrations of one loop share a family. */
  lemma LoopFamiliesDistinct(td: TaskDef, refs: seq<string>, role: Option<string>, clusterArn: string,
                             first: nat, count: nat, registers: RegisterRequest -> bool)
    ensures forall k, l :: 0 <= k < l < |BatchLoop(td, refs, role, clusterArn, first, count, registers).requests| ==>
      BatchLoop(td, refs, role, clusterArn, first, count, registers).requests[k].family
        != BatchLoop(td, refs, role, clusterArn, first, count, registers).requests[l].family
  {
    var r := BatchLoop(td, refs, role, clusterArn, first, count, registers);
    forall k, l | 0 <= k < l < |r.requests| ensures r.requests[k].family != r.requests[l].family {
      assert r.requests[k].family == BatchFamily(td.family, first + k);
      assert r.requests[l].family == BatchFamily(td.family, first + l);
      if r.requests[k].family == r.requests[l].family {
        BatchFamiliesDistinct(td.family, first + k, first + l);
      }
    }
  }

  /** `count` copies of `x`. */
  function Repeat<T>(x: T, count: nat): (r: seq<T>)
    ensures |r| == count && forall k :: 0 <= k < count ==> r[k] == x
  {
    seq(count, k => x)
  }

  /** A loop that completes leaves one FARGATE and one capability attribute per iteration
      in the shared template: the template grows, but no request carries the growth. */
  lemma {:induction false} BatchTemplateGrows(td: TaskDef, refs: seq<string>, role: Option<string>, clusterArn: string,
                                              first: nat, count: nat, registers: RegisterRequest -> bool)
    requires BatchLoop(td, refs, role, clusterArn, first, count, registers).error.None?
    ensures BatchLoop(td, refs, role, clusterArn, first, count, registers).template.compatibilities
         == td.compatibilities + Repeat("FARGATE", count)
    ensures BatchLoop(td, refs, role, clusterArn, first, count, registers).template.requiresAttributes
         == td.requiresAttributes + Repeat(Attribute(DomainlessCapability, clusterArn), count)
    decreases count
  {
    if count > 0 {
      var td2 := td.(compatibilities := td.compatibilities + ["FARGATE"],
                     requiresAttributes := td.requiresAttributes + [Attribute(DomainlessCapability, clusterArn)]);
      BatchTemplateGrows(td2, refs, role, clusterArn, first + 1, count - 1, registers);
      assert td.compatibilities + ["FARGATE"] + Repeat("FARGATE", count - 1)
          == td.compatibilities + Repeat("FARGATE", count);
      assert td.requiresAttributes + [Attribute(DomainlessCapability, clusterArn)]
             + Repeat(Attribute(DomainlessCapability, clusterArn), count - 1)
          == td.requiresAttributes + Repeat(Attribute(DomainlessCapability, clusterArn), count);
    }
  }

  /** Replies of every remote call the script makes, and its configuration. */
  datatype CopyInputs = CopyInputs(
    directoryName: string,
    netbiosName: string,
    bucket: string,
    accounts: nat,                            // number_of_gmsa_accounts
    templateName: string,                     // task_definition_template_name
    maxTasks: nat,                            // max_tasks_per_instance
    secretArn: Option<string>,                // get_secret_value; None when it raises
    roles: seq<Role>,                         // list_roles
    listing: Option<seq<string>>,             // list_task_definitions; None without the key
    describe: string -> Option<TaskDef>,      // describe_task_definition; None when it raises
    clusterArns: seq<string>,                 // list_clusters
    instances: string -> seq<string>,         // list_container_instances
    upload: nat -> UploadOutcome,             // the upload of account i
    registers: RegisterRequest -> bool)       // register_task_definition returns

  /** What one run of the script did. `stored` lists the accounts whose object was put:
      account i's is `AccountObject(SharedTemplate(directoryName, netbiosName, secret), i)`
      for the secret ARN the lookup returned. */
  datatype CopyRun = CopyRun(stored: seq<nat>, requests: seq<RegisterRequest>, error: Option<Exception>)

  /** The script after its lookups: the uploads, then the registration loop over the
      template found (None when no listed ARN matched its name). */
  function UploadAndRegister(in_: CopyInputs, template: Option<TaskDef>, clusterArn: string)
    : (r: CopyRun)
    ensures forall i :: i in r.stored <==> 1 <= i <= in_.accounts && !in_.upload(i).PutFailed?
    ensures r.error == Some(TypeError) <==> in_.maxTasks > 0 && template.None?
    ensures r.requests != [] ==> in_.maxTasks > 0 && template.Some? && ExecutionRoleArn(in_.roles).Some?
    ensures r.error.None? ==> |r.requests| == in_.maxTasks
    ensures forall k, l :: 0 <= k < l < |r.requests| ==> r.requests[k].family != r.requests[l].family
    ensures forall k :: 0 <= k < |r.requests| ==>
      && |r.requests[k].containers| == ContainersPerDefinition
      && r.requests[k].taskRoleArn == ExecutionRoleArn(in_.roles).value
    ensures r.requests != [] ==>
      && |UploadedAccounts(in_.accounts, in_.upload)| >= ContainersPerDefinition
      && forall k, j :: 0 <= k < |r.requests| && 0 <= j < ContainersPerDefinition ==>
           r.requests[k].containers[j].credentialSpecs
             == Some([AccountReference(in_.bucket, UploadedAccounts(in_.accounts, in_.upload)[j])])
    ensures in_.maxTasks > 0 && template.Some?
            && (|template.value.containers| == 0
                || |UploadedAccounts(in_.accounts, in_.upload)| < ContainersPerDefinition) ==>
      r.requests == [] && r.error == Some(IndexError)
    ensures in_.maxTasks > 0 && template.Some? && |template.value.containers| > 0
            && |UploadedAccounts(in_.accounts, in_.upload)| >= ContainersPerDefinition
            && ExecutionRoleArn(in_.roles).None? ==>
      r.requests == [] && r.error == Some(NameError)
    ensures in_.maxTasks > 0 && template.Some? && |template.value.containers| > 0
            && |UploadedAccounts(in_.accounts, in_.upload)| >= ContainersPerDefinition
            && ExecutionRoleArn(in_.roles).Some? && !HasRegisterKeys(template.value) ==>
      r.requests == [] && r.error == Some(KeyError)
    ensures r.error == Some(ClientError) ==> |r.requests| > 0 && !in_.registers(r.requests[|r.requests| - 1])
  {
    var stored := StoredAccounts(in_.accounts, in_.upload);
    var refs := CredspecReferences(in_.bucket, in_.accounts, in_.upload);
    if in_.maxTasks == 0 then CopyRun(stored, [], None)
    else if template.None? then CopyRun(stored, [], Some(TypeError))
    else
      var run := BatchLoop(template.value, refs, ExecutionRoleArn(in_.roles), clusterArn,
                           1, in_.maxTasks, in_.registers);
      LoopFamiliesDistinct(template.value, refs, ExecutionRoleArn(in_.roles), clusterArn,
                           1, in_.maxTasks, in_.registers);
      CopyRun(stored, run.requests, run.error)
  }

  /** The cluster ARN the script passes on: the empty string when no cluster matched. */
  function ClusterArnOrEmpty(cluster: Option<(string, string)>): string {
    if cluster.Some? then cluster.value.0 else ""
  }

  /** The whole script, top to bottom. An uncaught ClientError from the secret lookup or
      the template's description, a bare `exit()` when the definition listing is empty
      or lacks its key, and an IndexError from the cluster search each end it before any
      upload; a template that matched nothing stays the empty string, and subscripting
      it raises TypeError in the first loop iteration. */
  function CopyCredspecsAndCreateTaskDefs(in_: CopyInputs): (r: CopyRun)
    ensures in_.secretArn.None? ==> r == CopyRun([], [], Some(ClientError))
    ensures in_.secretArn.Some? && (in_.listing.None? || in_.listing == Some([])) ==>
      r == CopyRun([], [], Some(SystemExit))
    ensures r.stored != [] || r.requests != [] ==>
      && in_.secretArn.Some?
      && TemplateDefinition(in_.listing, in_.templateName, in_.describe).Success?
      && ClusterInfo(in_.clusterArns, TestClusterName, in_.instances).Success?
    ensures r.error == Some(TypeError) ==>
      in_.maxTasks > 0 && in_.listing.Some?
      && forall k :: 0 <= k < |in_.listing.value| ==> !Contains(in_.listing.value[k], in_.templateName)
    ensures r.error.None? ==> forall i :: i in r.stored <==> 1 <= i <= in_.accounts && !in_.upload(i).PutFailed?
    ensures r.error.None? ==> |r.requests| == in_.maxTasks
    ensures && in_.secretArn.Some? && in_.listing.Some? && in_.listing != Some([])
            && TemplateDefinition(in_.listing, in_.templateName, in_.describe).Success?
            && ClusterInfo(in_.clusterArns, TestClusterName, in_.instances).Success?
            ==> r == UploadAndRegister(in_, TemplateDefinition(in_.listing, in_.templateName, in_.describe).value,
                                       ClusterArnOrEmpty(ClusterInfo(in_.clusterArns, TestClusterName, in_.instances).value))
  {
    match in_.secretArn
    case None => CopyRun([], [], Some(ClientError))
    case Some(secret) =>
      if in_.listing.None? || in_.listing == Some([]) then CopyRun([], [], Some(SystemExit))
      else
        match TemplateDefinition(in_.listing, in_.templateName, in_.describe)
        case Failure(e) => CopyRun([], [], Some(e))
        case Success(template) =>
          match ClusterInfo(in_.clusterArns, TestClusterName, in_.instances)
          case Failure(e) => CopyRun([], [], Some(e))
          case Success(cluster) =>
            UploadAndRegister(in_, template, ClusterArnOrEmpty(cluster))
  }
}
