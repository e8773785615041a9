/** The end-to-end driver's own decisions: whether the bucket exists and is empty, the
    gate that prepares it, and `create_and_register_tasks`, which registers one task
    definition per gMSA account from the shared template. The clean-up pass is in
    module Reconciler. */
module EndToEnd {
  import opened Wrappers
  import opened Exceptions
  import opened Strings
  import opened Seqs
  import opened Ecs
  import opened Credspec
  import opened TaskDefs
  import opened CopyScript
  import opened PyInt
  import TaskUpdate

  /** What `head_bucket` did: returned, or raised a ClientError with an error code. */
  datatype HeadReply = HeadOk | HeadError(code: string)

  /** `check_s3_bucket_exists`. The error code is read with `int()`, which raises
      ValueError (uncaught) on a code that is not a number. */
  function BucketExists(reply: HeadReply): (r: Result<bool, Exception>)
    ensures reply.HeadOk? ==> r == Success(true)
    ensures reply.HeadError? ==> (r.Failure? <==> ParseInt(reply.code).None?)
    ensures r.Failure? ==> r.error.ValueError?
    ensures reply.HeadError? && r.Success? ==> (r.value <==> ParseInt(reply.code) == Some(403))
  {
    match reply
    case HeadOk => Success(true)
    case HeadError(code) =>
      match ParseInt(code)
      case None => Failure(ValueError(code))
      case Some(n) => Success(n == 403)
  }

  /** A numeric code: 403 counts as existing, 404 and every other number as absent. */
  lemma BucketExistsNumber(n: int)
    ensures BucketExists(HeadError(IntToString(n))) == Success(n == 403)
  {
    ParseIntRoundTrip(n);
  }

  /** A code that starts with a letter, such as "NoSuchBucket", makes the check raise. */
  lemma BucketExistsWord(word: string)
    requires |word| > 0 && !IsSpace(word[0]) && !IsSign(word[0]) && !IsDigit(word[0])
    ensures BucketExists(HeadError(word)) == Failure(ValueError(word))
  {
    ParseIntRejects(word, 0);
  }

  /** What `list_objects_v2(MaxKeys=1)` did: returned a key count, or raised a
      ClientError with an error code. */
  datatype ListReply = KeyCount(count: nat) | ListError(code: string)

  /** `is_s3_bucket_empty`: true, false, or None when the listing raised, whatever the
      error code (the code only chooses the message). */
  function BucketIsEmpty(reply: ListReply): (r: Option<bool>)
    ensures r.None? <==> reply.ListError?
    ensures r == Some(true) <==> reply == KeyCount(0)
  {
    match reply
    case KeyCount(n) => Some(n == 0)
    case ListError(_) => None
  }

  /** The bucket after the gate of `run_e2e_test`: the run stops, or goes on, having
      created and/or emptied the bucket on the way. */
  datatype BucketGate = Stopped | Ready(created: bool, emptied: bool)

  /** The first lines of `run_e2e_test`: create the bucket when it does not exist (stop
      when that fails), then empty it unless it is known to be empty. */
  function PrepareBucket(head: HeadReply, createSucceeds: bool, listing: ListReply): (r: Result<BucketGate, Exception>)
    ensures r.Failure? <==> BucketExists(head).Failure?
    ensures r == Success(Stopped) <==> BucketExists(head) == Success(false) && !createSucceeds
    ensures r.Success? && r.value.Ready? ==> (r.value.created <==> BucketExists(head) == Success(false))
    ensures r.Success? && r.value.Ready? ==> (r.value.emptied <==> BucketIsEmpty(listing) != Some(true))
  {
    match BucketExists(head)
    case Failure(e) => Failure(e)
    case Success(exists_) =>
      if !exists_ && !createSucceeds then Success(Stopped)
      else Success(Ready(!exists_, BucketIsEmpty(listing) != Some(true)))
  }

  /** A listing that raised leaves the emptiness unknown, and the gate empties the bucket
      all the same, because `not None` holds. */
  lemma UnknownEmptinessEmpties(head: HeadReply, createSucceeds: bool, code: string)
    requires PrepareBucket(head, createSucceeds, ListError(code)).Success?
    requires PrepareBucket(head, createSucceeds, ListError(code)).value.Ready?
    ensures PrepareBucket(head, createSucceeds, ListError(code)).value.emptied
  {
  }

  /** The stages `run_e2e_test` runs after the bucket gate, in order. */
  datatype Stage = CreateSecrets | CreateAndRegister | AddSecurityGroup | UpdateAndRunTasks | SqlTest

  const StageOrder: seq<Stage> := [CreateSecrets, CreateAndRegister, AddSecurityGroup, UpdateAndRunTasks, SqlTest]

  /** How each stage ended. `create_secrets` and `run_sql_test` are given as the exception
      they raised, if any. `create_and_register_tasks` is its Registration. The
      update-and-run stage has the same body as the stand-alone update script without
      its outer `try`, so an Aborted outcome raises. `add_security_group_to_instance`
      catches every exception itself and never raises. */
  datatype StageOutcomes = StageOutcomes(
    secrets: Option<Exception>,
    registration: Registration,
    update: TaskUpdate.ScriptOutcome,
    sql: Option<Exception>)

  /** The exception a stage lets escape, if any. */
  function Raised(s: Stage, o: StageOutcomes): Option<Exception> {
    match s
    case CreateSecrets => o.secrets
    case CreateAndRegister => o.registration.error
    case AddSecurityGroup => None
    case UpdateAndRunTasks => if o.update.Aborted? then Some(o.update.error) else None
    case SqlTest => o.sql
  }

  /** Runs `stages` in order with no `try` around them: the stages started, and the
      exception that ended the run, raised by the last stage started. */
  function RunStages(stages: seq<Stage>, o: StageOutcomes): (r: (seq<Stage>, Option<Exception>))
    ensures r.0 <= stages
    ensures r.1.None? <==> forall k :: 0 <= k < |stages| ==> Raised(stages[k], o).None?
    ensures r.1.None? ==> r.0 == stages
    ensures r.1.Some? ==> |r.0| > 0 && r.1 == Raised(r.0[|r.0| - 1], o)
    ensures forall k :: 0 <= k < |r.0| - 1 ==> Raised(r.0[k], o).None?
    decreases |stages|
  {
    if |stages| == 0 then ([], None)
    else match Raised(stages[0], o)
      case Some(e) => ([stages[0]], Some(e))
      case None =>
        var rest := RunStages(stages[1..], o);
        assert forall k :: 1 <= k < |stages| ==> stages[k] == stages[1..][k - 1];
        ([stages[0]] + rest.0, rest.1)
  }

  /** The end-to-end run: the stages started, the exception that escaped
      `run_e2e_test`, and whether the module-level clean-up that follows the call ran. */
  datatype E2eRun = E2eRun(started: seq<Stage>, error: Option<Exception>, cleanedUp: bool)

  /** `run_e2e_test` followed by `cleanup_after_test_complete`. `gate` is the outcome of
      the bucket checks: an exception there (a non-numeric error code) escapes before
      any stage; a Stopped gate returns normally. There is no `try` around the stages,
      and none around the call, so an escaping exception skips every later stage and
      the clean-up. */
  function RunE2eTest(gate: Result<BucketGate, Exception>, o: StageOutcomes): (r: E2eRun)
    ensures r.cleanedUp <==> r.error.None?
    ensures r.started <= StageOrder
    ensures gate.Failure? ==> r == E2eRun([], Some(gate.error), false)
    ensures gate == Success(Stopped) ==> r == E2eRun([], None, true)
    ensures gate.Success? && gate.value.Ready? ==>
      (r.error.None? <==> forall k :: 0 <= k < |StageOrder| ==> Raised(StageOrder[k], o).None?)
    ensures gate.Success? && gate.value.Ready? && r.error.None? ==> r.started == StageOrder
    ensures r.error.Some? && |r.started| > 0 ==> r.error == Raised(r.started[|r.started| - 1], o)
    ensures forall k :: 0 <= k < |r.started| - 1 ==> Raised(r.started[k], o).None?
  {
    match gate
    case Failure(e) => E2eRun([], Some(e), false)
    case Success(Stopped) => E2eRun([], None, true)
    case Success(Ready(_, _)) =>
      var run := RunStages(StageOrder, o);
      E2eRun(run.0, run.1, run.1.None?)
  }

  /** A bucket check that raises ends the run before any stage, and the clean-up does
      not run. */
  lemma BucketCheckRaiseSkipsAll(head: HeadReply, createSucceeds: bool, listing: ListReply, o: StageOutcomes)
    requires BucketExists(head).Failure?
    ensures RunE2eTest(PrepareBucket(head, createSucceeds, listing), o).started == []
    ensures !RunE2eTest(PrepareBucket(head, createSucceeds, listing), o).cleanedUp
  {
  }

  /** An absent bucket that cannot be created ends the run before any later stage; the
      run returns normally, so the clean-up still runs. */
  lemma AbsentBucketStops(code: string, listing: ListReply, o: StageOutcomes)
    requires ParseInt(code).Some? && ParseInt(code) != Some(403)
    ensures PrepareBucket(HeadError(code), false, listing) == Success(Stopped)
    ensures RunE2eTest(PrepareBucket(HeadError(code), false, listing), o) == E2eRun([], None, true)
  {
  }

  /** A stage that raises nothing hands the run on to the stages after it. */
  lemma RunStagesStep(s: Stage, rest: seq<Stage>, o: StageOutcomes)
    requires Raised(s, o).None?
    ensures RunStages([s] + rest, o) == ([s] + RunStages(rest, o).0, RunStages(rest, o).1)
  {
    assert ([s] + rest)[1..] == rest;
  }

  /** A `create_and_register_tasks` that raises ends the run: the security-group,
      update-and-run and SQL stages and the clean-up are skipped. */
  lemma {:induction false} RegistrationFailureEndsRun(gate: BucketGate, o: StageOutcomes)
    requires gate.Ready? && o.secrets.None? && o.registration.error.Some?
    ensures RunE2eTest(Success(gate), o) == E2eRun([CreateSecrets, CreateAndRegister], o.registration.error, false)
  {
    var tail := [AddSecurityGroup, UpdateAndRunTasks, SqlTest];
    assert StageOrder == [CreateSecrets] + ([CreateAndRegister] + tail);
    assert RunStages([CreateAndRegister] + tail, o) == ([CreateAndRegister], o.registration.error);
    RunStagesStep(CreateSecrets, [CreateAndRegister] + tail, o);
  }

  /** The same, for the registration `CreateAndRegisterTasks` computes: a ClientError,
      IndexError or KeyError escaping it means no later stage runs. */
  lemma RegistrationErrorEndsRun(in_: RegistrationInputs, gate: BucketGate, update: TaskUpdate.ScriptOutcome,
                                 sql: Option<Exception>)
    requires gate.Ready? && CreateAndRegisterTasks(in_).error.Some?
    ensures var run := RunE2eTest(Success(gate), StageOutcomes(None, CreateAndRegisterTasks(in_), update, sql));
      && run.started == [CreateSecrets, CreateAndRegister]
      && run.error.value in {ClientError, IndexError, KeyError}
      && !run.cleanedUp
  {
    RegistrationFailureEndsRun(gate, StageOutcomes(None, CreateAndRegisterTasks(in_), update, sql));
  }

  /** An update-and-run stage that aborts (no VPC, subnet or security group, or no
      family) ends the run: the SQL test and the clean-up are skipped. */
  lemma {:induction false} UpdateAbortSkipsSqlTest(gate: BucketGate, o: StageOutcomes)
    requires gate.Ready? && o.secrets.None? && o.registration.error.None? && o.update.Aborted?
    ensures RunE2eTest(Success(gate), o)
         == E2eRun([CreateSecrets, CreateAndRegister, AddSecurityGroup, UpdateAndRunTasks],
                   Some(o.update.error), false)
  {
    var tail := [UpdateAndRunTasks, SqlTest];
    assert RunStages(tail, o) == ([UpdateAndRunTasks], Some(o.update.error));
    RunStagesStep(AddSecurityGroup, tail, o);
    RunStagesStep(CreateAndRegister, [AddSecurityGroup] + tail, o);
    RunStagesStep(CreateSecrets, [CreateAndRegister] + ([AddSecurityGroup] + tail), o);
    assert StageOrder == [CreateSecrets] + ([CreateAndRegister] + ([AddSecurityGroup] + tail));
  }

  /** When no stage raises, all five run in order and the clean-up follows. */
  lemma {:induction false} CleanRunRunsEverything(gate: BucketGate, o: StageOutcomes)
    requires gate.Ready? && o.secrets.None? && o.registration.error.None? && o.update.Processed? && o.sql.None?
    ensures RunE2eTest(Success(gate), o) == E2eRun(StageOrder, None, true)
  {
    forall s: Stage ensures Raised(s, o).None? {
    }
  }

  /** Where account i's spec lands in `bucket` after a successful upload. */
  function AccountLocation(bucket: string, i: nat): (r: S3Location)
    ensures UploadCredspec(bucket, AccountName(i), true) == Some(r)
    ensures CredentialReference(r) == AccountReference(bucket, i)
  {
    S3Location(S3ArnPrefix + bucket, AccountKey(i))
  }

  /** The registration request for account i, made from the template as first
      described; the modification keeps the keys the request reads, so it is KeyError
      exactly when the template lacks one. */
  function AccountRequest(td: TaskDef, clusterArn: string, roleArn: string, bucket: string, i: nat)
    : (r: Result<RegisterRequest, Exception>)
    ensures r.Success? <==> HasRegisterKeys(td)
  {
    RegisterNewTaskDefinition(ModifyTaskDefinition(td, clusterArn, AccountLocation(bucket, i)),
                              BatchFamily(td.family, i), roleArn)
  }

  /** A modification on top of an earlier one yields the same request as on the original
      template: the containers' `credentialSpecs` are overwritten, and the appended
      compatibilities and attributes are not passed to the call. */
  lemma RequestIgnoresEarlierModification(td: TaskDef, clusterArn: string, roleArn: string, bucket: string,
                                          prev: S3Location, i: nat)
    ensures RegisterNewTaskDefinition(ModifyTaskDefinition(ModifyTaskDefinition(td, clusterArn, prev), clusterArn,
                                                           AccountLocation(bucket, i)),
                                      BatchFamily(td.family, i), roleArn)
         == AccountRequest(td, clusterArn, roleArn, bucket, i)
  {
    var loc := AccountLocation(bucket, i);
    var once := ModifyTaskDefinition(td, clusterArn, loc);
    var twice := ModifyTaskDefinition(ModifyTaskDefinition(td, clusterArn, prev), clusterArn, loc);
    assert twice.containers == once.containers;
  }

  /** The registration requests for the given accounts, in order, as the loop makes them:
      each one modifies, in place, the template the previous ones modified. Each equals
      the request made from the template as first described. */
  function ThreadedRequests(td: TaskDef, clusterArn: string, roleArn: string, bucket: string, accounts: seq<nat>)
    : (r: seq<RegisterRequest>)
    requires HasRegisterKeys(td)
    ensures |r| == |accounts|
    ensures forall k :: 0 <= k < |r| ==> r[k] == AccountRequest(td, clusterArn, roleArn, bucket, accounts[k]).value
    decreases |accounts|
  {
    if |accounts| == 0 then []
    else
      var loc := AccountLocation(bucket, accounts[0]);
      var modified := ModifyTaskDefinition(td, clusterArn, loc);
      var rest := ThreadedRequests(modified, clusterArn, roleArn, bucket, accounts[1..]);
      forall k | 0 <= k < |rest|
        ensures rest[k] == AccountRequest(td, clusterArn, roleArn, bucket, accounts[1..][k]).value
      {
        RequestIgnoresEarlierModification(td, clusterArn, roleArn, bucket, loc, accounts[1..][k]);
      }
      [RegisterNewTaskDefinition(modified, BatchFamily(td.family, accounts[0]), roleArn).value] + rest
  }

  /** The control flow of the loop of `create_and_register_tasks` over accounts
      first..first+count-1: the accounts it registers, and the exception that ends it.
      A failed secret lookup raises; a failed upload skips the account; a template
      without the keys the request reads (`keyed` false) raises KeyError before the first
      call is issued; a failed registration (`registers(i)` false) raises after its call
      was issued. */
  function RegisterLoop(first: nat, count: nat, secret: nat -> Option<string>,
                        upload: nat -> UploadOutcome, registers: nat -> bool, keyed: bool)
    : (r: (seq<nat>, Option<Exception>))
    ensures forall k :: 0 <= k < |r.0| ==>
      first <= r.0[k] < first + count && upload(r.0[k]).Uploaded? && secret(r.0[k]).Some?
    ensures forall a, b :: 0 <= a < b < |r.0| ==> r.0[a] < r.0[b]
    ensures forall k :: 0 <= k < |r.0| - 1 ==> registers(r.0[k])
    ensures r.1.None? ==> forall k :: 0 <= k < |r.0| ==> registers(r.0[k])
    ensures r.1.None? ==> forall i :: first <= i < first + count ==>
      secret(i).Some? && (upload(i).Uploaded? ==> i in r.0)
    ensures r.1.Some? ==> r.1.value in {ClientError, KeyError}
    ensures !keyed ==> r.0 == []
    ensures r.1 == Some(KeyError) ==> !keyed
    decreases count
  {
    if count == 0 then ([], None)
    else if secret(first).None? then ([], Some(ClientError))
    else if !upload(first).Uploaded? then RegisterLoop(first + 1, count - 1, secret, upload, registers, keyed)
    else if !keyed then ([], Some(KeyError))
    else if !registers(first) then ([first], Some(ClientError))
    else
      var rest := RegisterLoop(first + 1, count - 1, secret, upload, registers, keyed);
      ([first] + rest.0, rest.1)
  }

  /** A failed secret lookup for account i ends the loop with an exception, and no
      account from i on is registered; with a template that has its keys, the exception
      is that lookup's ClientError. */
  lemma {:induction false} SecretFailureAborts(first: nat, count: nat, secret: nat -> Option<string>,
                                               upload: nat -> UploadOutcome, registers: nat -> bool,
                                               keyed: bool, i: nat)
    requires first <= i < first + count && secret(i).None?
    ensures RegisterLoop(first, count, secret, upload, registers, keyed).1.Some?
    ensures keyed ==> RegisterLoop(first, count, secret, upload, registers, keyed).1 == Some(ClientError)
    ensures forall a :: a in RegisterLoop(first, count, secret, upload, registers, keyed).0 ==> a < i
    decreases count
  {
    if i > first && secret(first).Some? && (!upload(first).Uploaded? || (keyed && registers(first))) {
      SecretFailureAborts(first + 1, count - 1, secret, upload, registers, keyed, i);
    }
  }

  /** With a template that lacks a key the request reads, the first account whose secret
      lookups up to it succeeded and whose upload succeeded ends the loop with KeyError,
      before any registration call. */
  lemma {:induction false} MissingKeyAborts(first: nat, count: nat, secret: nat -> Option<string>,
                                            upload: nat -> UploadOutcome, registers: nat -> bool, i: nat)
    requires first <= i < first + count && upload(i).Uploaded?
    requires forall j :: first <= j <= i ==> secret(j).Some?
    ensures RegisterLoop(first, count, secret, upload, registers, false) == ([], Some(KeyError))
    decreases count
  {
    if i > first && !upload(first).Uploaded? {
      MissingKeyAborts(first + 1, count - 1, secret, upload, registers, i);
    }
  }

  /** Replies of the remote calls `create_and_register_tasks` makes, and its
      configuration. */
  datatype RegistrationInputs = RegistrationInputs(
    roles: seq<Role>,                         // list_roles
    listing: Option<seq<string>>,             // list_task_definitions; None without the key
    describe: string -> Option<TaskDef>,      // describe_task_definition; None when it raises
    templateName: string,
    clusterArns: seq<string>,                 // list_clusters
    instances: string -> seq<string>,         // list_container_instances
    accounts: nat,                            // number_of_gmsa_accounts
    bucket: string,
    secret: nat -> Option<string>,            // get_secret_value for account i; None when it raises
    upload: nat -> UploadOutcome,             // the upload of account i
    registers: nat -> bool)                   // register_task_definition returns for account i

  /** Python truthiness of the three lookups checked by `all([...])`: an empty role ARN
      or cluster ARN counts as missing. */
  predicate LookupsPresent(role: Option<string>, template: Option<TaskDef>,
                           cluster: Option<(string, string)>) {
    role.Some? && role.value != "" && template.Some? && cluster.Some? && cluster.value.0 != ""
  }

  /** What `create_and_register_tasks` did: the accounts registered, their requests
      (the last possibly raising), and the exception that ended it, if any. */
  datatype Registration = Registration(accounts: seq<nat>, requests: seq<RegisterRequest>, error: Option<Exception>)

  /** No two requests for distinct accounts share a family. */
  lemma AccountFamiliesDistinct(td: TaskDef, clusterArn: string, roleArn: string, bucket: string, i: nat, j: nat)
    requires i != j
    ensures HasRegisterKeys(td) ==>
      AccountRequest(td, clusterArn, roleArn, bucket, i).value.family
        != AccountRequest(td, clusterArn, roleArn, bucket, j).value.family
  {
    if BatchFamily(td.family, i) == BatchFamily(td.family, j) {
      BatchFamiliesDistinct(td.family, i, j);
    }
  }

  /** `create_and_register_tasks`: the three lookups (an uncaught ClientError from the
      template's description or IndexError from the cluster search propagates), the
      presence gate, then the loop over accounts 1..N. */
  function CreateAndRegisterTasks(in_: RegistrationInputs): (r: Registration)
    ensures r.requests != [] ==>
      && TemplateDefinition(in_.listing, in_.templateName, in_.describe).Success?
      && ClusterInfo(in_.clusterArns, TestClusterName, in_.instances).Success?
      && LookupsPresent(ExecutionRoleArn(in_.roles),
                        TemplateDefinition(in_.listing, in_.templateName, in_.describe).value,
                        ClusterInfo(in_.clusterArns, TestClusterName, in_.instances).value)
    ensures |r.accounts| == |r.requests|
    ensures forall k :: 0 <= k < |r.accounts| ==>
      1 <= r.accounts[k] <= in_.accounts && in_.upload(r.accounts[k]).Uploaded?
    ensures forall k, l :: 0 <= k < l < |r.requests| ==> r.requests[k].family != r.requests[l].family
    ensures forall k, c :: 0 <= k < |r.requests| && 0 <= c < |r.requests[k].containers| ==>
      r.requests[k].containers[c].credentialSpecs == Some([AccountReference(in_.bucket, r.accounts[k])])
    ensures r.error.Some? ==> r.error.value in {ClientError, IndexError, KeyError}
    ensures && TemplateDefinition(in_.listing, in_.templateName, in_.describe).Success?
            && ClusterInfo(in_.clusterArns, TestClusterName, in_.instances).Success?
            && LookupsPresent(ExecutionRoleArn(in_.roles),
                              TemplateDefinition(in_.listing, in_.templateName, in_.describe).value,
                              ClusterInfo(in_.clusterArns, TestClusterName, in_.instances).value)
            ==> r == RegisterAccounts(TemplateDefinition(in_.listing, in_.templateName, in_.describe).value.value,
                                      ClusterInfo(in_.clusterArns, TestClusterName, in_.instances).value.value.0,
                                      ExecutionRoleArn(in_.roles).value, in_)
  {
    var role := ExecutionRoleArn(in_.roles);
    match TemplateDefinition(in_.listing, in_.templateName, in_.describe)
    case Failure(e) => Registration([], [], Some(e))
    case Success(template) =>
      match ClusterInfo(in_.clusterArns, TestClusterName, in_.instances)
      case Failure(e) => Registration([], [], Some(e))
      case Success(cluster) =>
        if !LookupsPresent(role, template, cluster) then Registration([], [], None)
        else
          RegisterAccounts(template.value, cluster.value.0, role.value, in_)
  }

  /** The loop of `create_and_register_tasks` once the lookups are present: one request
      per registered account, built from the template; a template without the keys
      the request reads registers nothing. */
  function RegisterAccounts(td: TaskDef, clusterArn: string, roleArn: string, in_: RegistrationInputs)
    : (r: Registration)
    ensures |r.accounts| == |r.requests|
    ensures forall k :: 0 <= k < |r.accounts| ==>
      1 <= r.accounts[k] <= in_.accounts && in_.upload(r.accounts[k]).Uploaded?
    ensures forall k, l :: 0 <= k < l < |r.requests| ==> r.requests[k].family != r.requests[l].family
    ensures forall k, c :: 0 <= k < |r.requests| && 0 <= c < |r.requests[k].containers| ==>
      r.requests[k].containers[c].credentialSpecs == Some([AccountReference(in_.bucket, r.accounts[k])])
    ensures r.error.Some? ==> r.error.value in {ClientError, KeyError}
    ensures r.error == Some(KeyError) ==> !HasRegisterKeys(td) && r.requests == []
    ensures r.error.None? ==> forall i :: 1 <= i <= in_.accounts && in_.upload(i).Uploaded? ==> i in r.accounts
    ensures r.accounts == RegisterLoop(1, in_.accounts, in_.secret, in_.upload, in_.registers, HasRegisterKeys(td)).0
    ensures r.error == RegisterLoop(1, in_.accounts, in_.secret, in_.upload, in_.registers, HasRegisterKeys(td)).1
    ensures forall k :: 0 <= k < |r.requests| ==>
      && AccountRequest(td, clusterArn, roleArn, in_.bucket, r.accounts[k]).Success?
      && r.requests[k] == AccountRequest(td, clusterArn, roleArn, in_.bucket, r.accounts[k]).value
  {
    var run := RegisterLoop(1, in_.accounts, in_.secret, in_.upload, in_.registers, HasRegisterKeys(td));
    var requests := if HasRegisterKeys(td) then ThreadedRequests(td, clusterArn, roleArn, in_.bucket, run.0) else [];
    forall k, l | 0 <= k < l < |requests| ensures requests[k].family != requests[l].family {
      AccountFamiliesDistinct(td, clusterArn, roleArn, in_.bucket, run.0[k], run.0[l]);
    }
    Registration(run.0, requests, run.1)
  }
}
