/** The records the scripts exchange with the container orchestration service (ECS):
    task definitions, their container definitions, and the arguments of the
    `register_task_definition` and `run_task` calls. Each is a JSON dictionary in the
    scripts; here each is an immutable record, with an optional key as an Option. */
module Ecs {
  import opened Wrappers

  /** One entry of `containerDefinitions`. `credentialSpecs` is None when the key is
      absent; `settings` stands for every other key, carried along unchanged. */
  datatype Container = Container(
    name: string,
    image: string,
    credentialSpecs: Option<seq<string>>,
    settings: map<string, string>)

  /** The reconciler's test: the `credentialSpecs` key is present, whatever its list holds. */
  predicate HasCredentialSpecsKey(c: Container) {
    c.credentialSpecs.Some?
  }

  /** The run gate's test: the key is present and its list is non-empty (Python truthiness). */
  predicate HasCredentialSpecs(c: Container) {
    c.credentialSpecs.Some? && |c.credentialSpecs.value| > 0
  }

  /** Some container of the definition carries a non-empty `credentialSpecs` list. */
  predicate AnyHasCredentialSpecs(cs: seq<Container>) {
    exists i :: 0 <= i < |cs| && HasCredentialSpecs(cs[i])
  }

  /** An entry of `requiresAttributes`. */
  datatype Attribute = Attribute(name: string, targetId: string)

  datatype Tag = Tag(key: string, value: string)

  /** The `taskDefinition` part of a `describe_task_definition` reply. A key the service
      leaves out of the reply when it was never set (the task and execution roles, the
      network mode, the required compatibilities, task-level cpu and memory, volumes,
      placement constraints, tags) is an Option, None when absent; the elements of
      volumes and placement constraints are opaque. */
  datatype TaskDef = TaskDef(
    family: string,
    taskRoleArn: Option<string>,
    executionRoleArn: Option<string>,
    networkMode: Option<string>,
    containers: seq<Container>,
    volumes: Option<seq<string>>,
    placementConstraints: Option<seq<string>>,
    requiresCompatibilities: Option<seq<string>>,
    compatibilities: seq<string>,
    requiresAttributes: seq<Attribute>,
    cpu: Option<string>,
    memory: Option<string>,
    tags: Option<seq<Tag>>)

  datatype RuntimePlatform = RuntimePlatform(cpuArchitecture: string, operatingSystemFamily: string)

  /** Keyword arguments of one `register_task_definition` call; an Option argument is
      None when the call does not pass it. */
  datatype RegisterRequest = RegisterRequest(
    family: string,
    taskRoleArn: string,
    executionRoleArn: string,
    networkMode: string,
    containers: seq<Container>,
    volumes: Option<seq<string>>,
    placementConstraints: Option<seq<string>>,
    requiresCompatibilities: seq<string>,
    runtimePlatform: Option<RuntimePlatform>,
    cpu: string,
    memory: string,
    tags: Option<seq<Tag>>)

  /** Keyword arguments of one `run_task` call (the network configuration flattened). */
  datatype RunRequest = RunRequest(
    cluster: string,
    taskDefinition: string,
    count: nat,
    launchType: string,
    subnets: seq<string>,
    securityGroups: seq<string>)

  /** What a `run_task` call gives back: the ARNs in its `tasks` list, or a ClientException. */
  datatype RunReply = Tasks(taskArns: seq<string>) | RunRejected
}
