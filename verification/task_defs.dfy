/** The task-definition helpers of the end-to-end copy script: the lookups of the
    execution role, the template definition and the test cluster, the credential-spec
    injection into a definition, and the arguments of the registration call. */
module TaskDefs {
  import opened Wrappers
  import opened Exceptions
  import opened Strings
  import opened Seqs
  import opened Ecs
  import opened Credspec

  /** The only role name the lookups accept. */
  const ExecutionRoleName := "CredentialsFetcher-ECSTaskExecutionRolegMSA"

  /** The name of the cluster the scripts look for. */
  const TestClusterName := "Credentials-fetcher-ecs-load-test"

  /** The attribute a definition must require to use domainless gMSA. */
  const DomainlessCapability := "ecs.capability.gmsa-domainless"

  /** One entry of the `list_roles` reply. */
  datatype Role = Role(roleName: string, arn: string)

  predicate IsExecutionRole(r: Role) {
    r.roleName == ExecutionRoleName
  }

  /** `get_ecs_task_execution_role_arn`: the ARN of the first role whose name is exactly
      the execution role's name, or None. */
  function ExecutionRoleArn(roles: seq<Role>): (r: Option<string>)
    ensures r.None? <==> forall k :: 0 <= k < |roles| ==> roles[k].roleName != ExecutionRoleName
    ensures r.Some? ==>
      exists k :: 0 <= k < |roles| && roles[k].roleName == ExecutionRoleName
        && r.value == roles[k].arn && forall j :: 0 <= j < k ==> roles[j].roleName != ExecutionRoleName
  {
    match FirstIndex(roles, IsExecutionRole)
    case None => None
    case Some(k) => Some(roles[k].arn)
  }

  /** `get_task_definition_template`: the description of the first listed ARN that
      contains `name`. `listing` is None when the reply has no `taskDefinitionArns` key;
      `describe` answers None when `describe_task_definition` raises, which the function
      does not catch. */
  function TemplateDefinition(listing: Option<seq<string>>, name: string,
                              describe: string -> Option<TaskDef>): (r: Result<Option<TaskDef>, Exception>)
    ensures r == Success(None) <==>
      listing.None? || forall k :: 0 <= k < |listing.value| ==> !Contains(listing.value[k], name)
    ensures r.Success? && r.value.Some? ==>
      exists k :: 0 <= k < |listing.value|
        && Contains(listing.value[k], name) && describe(listing.value[k]) == r.value
        && forall j :: 0 <= j < k ==> !Contains(listing.value[j], name)
    ensures r.Failure? ==> r.error == ClientError
  {
    match listing
    case None => Success(None)
    case Some(arns) =>
      match FirstIndex(arns, a => Contains(a, name))
      case None => Success(None)
      case Some(k) =>
        match describe(arns[k])
        case None => Failure(ClientError)
        case Some(td) => Success(Some(td))
  }

  /** Python's `arn.split('/')[1]`: the text between the first and the second '/'. */
  function ClusterName(arn: string): string
    requires '/' in arn
  {
    ContainsChar(arn, '/');
    Split(arn, "/")[1]
  }

  /** A cluster ARN "<prefix>/<name>" without further '/' yields its name. */
  lemma ClusterNameOf(prefix: string, name: string)
    requires '/' !in prefix && '/' !in name
    ensures ClusterName(prefix + "/" + name) == name
  {
    assert prefix + "/" + name == prefix + ['/'] + name;
    SplitAfterFirst(prefix, name, '/');
    ContainsChar(name, '/');
  }

  /** A listed cluster the search passes over: its ARN has a '/' and names another cluster. */
  predicate OtherCluster(arn: string, name: string) {
    '/' in arn && ClusterName(arn) != name
  }

  /** `get_ecs_cluster_info`, over the listed cluster ARNs in order: the first whose name
      is `name`, with the first of its container instances. An ARN without '/' reached
      before the match, or a matching cluster without instances, raises IndexError. */
  function ClusterInfo(arns: seq<string>, name: string, instances: string -> seq<string>)
    : (r: Result<Option<(string, string)>, Exception>)
    ensures r == Success(None) <==> forall k :: 0 <= k < |arns| ==> OtherCluster(arns[k], name)
    ensures r.Success? && r.value.Some? ==>
      exists k :: 0 <= k < |arns|
        && arns[k] == r.value.value.0 && '/' in arns[k] && ClusterName(arns[k]) == name
        && |instances(arns[k])| > 0 && r.value.value.1 == instances(arns[k])[0]
        && forall j :: 0 <= j < k ==> OtherCluster(arns[j], name)
    ensures r.Failure? ==> r.error == IndexError
    ensures r.Failure? ==>
      exists k :: 0 <= k < |arns| && !OtherCluster(arns[k], name)
        && ('/' !in arns[k] || |instances(arns[k])| == 0)
  {
    match FirstIndex(arns, a => !OtherCluster(a, name))
    case None => Success(None)
    case Some(k) =>
      var a := arns[k];
      if '/' !in a || |instances(a)| == 0 then Failure(IndexError)
      else Success(Some((a, instances(a)[0])))
  }

  /** `modify_task_definition`: appends FARGATE to the compatibilities and the domainless
      capability for the cluster to the required attributes, and makes every container's
      `credentialSpecs` exactly the one reference to the uploaded spec. */
  function ModifyTaskDefinition(td: TaskDef, clusterArn: string, loc: S3Location): (r: TaskDef)
    ensures r.compatibilities == td.compatibilities + ["FARGATE"]
    ensures r.requiresAttributes == td.requiresAttributes + [Attribute(DomainlessCapability, clusterArn)]
    ensures |r.containers| == |td.containers|
    ensures forall k :: 0 <= k < |r.containers| ==>
      r.containers[k] == td.containers[k].(credentialSpecs := Some([CredentialReference(loc)]))
    ensures r.(containers := td.containers, compatibilities := td.compatibilities,
               requiresAttributes := td.requiresAttributes) == td
  {
    var ref := CredentialReference(loc);
    td.(compatibilities := td.compatibilities + ["FARGATE"],
        containers := seq(|td.containers|, k requires 0 <= k < |td.containers| =>
          td.containers[k].(credentialSpecs := Some([ref]))),
        requiresAttributes := td.requiresAttributes + [Attribute(DomainlessCapability, clusterArn)])
  }

  /** Applying the modification again does not give the same definition: each call
      appends one more FARGATE and one more capability attribute. */
  lemma ModifyNotIdempotent(td: TaskDef, clusterArn: string, loc: S3Location)
    ensures ModifyTaskDefinition(ModifyTaskDefinition(td, clusterArn, loc), clusterArn, loc)
         != ModifyTaskDefinition(td, clusterArn, loc)
    ensures ModifyTaskDefinition(ModifyTaskDefinition(td, clusterArn, loc), clusterArn, loc).compatibilities
         == td.compatibilities + ["FARGATE", "FARGATE"]
  {
    var once := ModifyTaskDefinition(td, clusterArn, loc);
    var twice := ModifyTaskDefinition(once, clusterArn, loc);
    assert |twice.compatibilities| == |once.compatibilities| + 1;
  }

  /** A modified definition with at least one container passes the run gate, and every
      one of its containers is one the reconciler would deregister for. Whatever
      `credentialSpecs` held before is gone. */
  lemma ModifiedIsCredentialed(td: TaskDef, clusterArn: string, loc: S3Location)
    ensures AnyHasCredentialSpecs(ModifyTaskDefinition(td, clusterArn, loc).containers) <==> |td.containers| > 0
    ensures CountIf(ModifyTaskDefinition(td, clusterArn, loc).containers, HasCredentialSpecsKey) == |td.containers|
  {
    var cs := ModifyTaskDefinition(td, clusterArn, loc).containers;
    if |td.containers| > 0 {
      assert HasCredentialSpecs(cs[0]);
    }
    CountIfAll(cs, HasCredentialSpecsKey);
  }

  /** The keys `register_new_task_definition` subscripts in the described definition. */
  predicate HasRegisterKeys(td: TaskDef) {
    td.networkMode.Some? && td.cpu.Some? && td.memory.Some?
  }

  /** `register_new_task_definition`: the arguments of the registration call, or the
      KeyError of subscripting a definition without a network mode, cpu or memory. */
  function RegisterNewTaskDefinition(td: TaskDef, family: string, roleArn: string)
    : (r: Result<RegisterRequest, Exception>)
    ensures r.Failure? <==> !HasRegisterKeys(td)
    ensures r.Failure? ==> r.error == KeyError
    ensures r.Success? ==>
      var q := r.value;
      && q.family == family
      && q.taskRoleArn == roleArn && q.executionRoleArn == roleArn
      && q.requiresCompatibilities == ["EC2", "FARGATE"]
      && q.runtimePlatform == Some(RuntimePlatform("X86_64", "LINUX"))
      && Some(q.networkMode) == td.networkMode && q.containers == td.containers
      && Some(q.cpu) == td.cpu && Some(q.memory) == td.memory
      && q.volumes.None? && q.placementConstraints.None? && q.tags.None?
  {
    if !HasRegisterKeys(td) then Failure(KeyError)
    else
      Success(RegisterRequest(family, roleArn, roleArn, td.networkMode.value, td.containers, None, None,
                              ["EC2", "FARGATE"], Some(RuntimePlatform("X86_64", "LINUX")),
                              td.cpu.value, td.memory.value, None))
  }
}
