/** Clean-up of task definitions after an end-to-end run (`get_running_task_definitions`
    and `delete_unused_task_definitions` of the end-to-end driver). The remote calls are
    replaced by their replies: the per-cluster running-task listing, the one page of
    `list_task_definitions`, a `describe` function, and a `succeeds` function scripting
    the outcome of each `deregister_task_definition` call. */
module Reconciler {
  import opened Wrappers
  import opened Seqs
  import opened Ecs

  /** Replies of `list_clusters`, then `list_tasks(desiredStatus='RUNNING')` and
      `describe_tasks` per cluster: the `taskDefinitionArn` of every running task,
      cluster by cluster; or a ClientError somewhere on the way. */
  datatype ClusterListing = ListingFailed | Clusters(running: seq<seq<string>>)

  /** Reference definition of the running set: every task-definition ARN backing a
      running task in any cluster, or None when the listing failed. */
  function RunningSet(listing: ClusterListing): Option<set<string>> {
    match listing
    case ListingFailed => None
    case Clusters(running) => Some(set c, a | 0 <= c < |running| && a in running[c] :: a)
  }

  /** `get_running_task_definitions`: walks every cluster and every running task and
      collects the task-definition ARNs into a set. */
  method RunningTaskDefinitions(listing: ClusterListing) returns (r: Option<set<string>>)
    ensures r.None? <==> listing.ListingFailed?
    ensures r.Some? ==> forall a :: a in r.value <==>
      exists c :: 0 <= c < |listing.running| && a in listing.running[c]
    ensures r == RunningSet(listing)
  {
    if listing.ListingFailed? {
      return None;
    }
    var clusters := listing.running;
    var defs: set<string> := {};
    var c := 0;
    while c < |clusters|
      invariant 0 <= c <= |clusters|
      invariant forall a :: a in defs <==> exists d :: 0 <= d < c && a in clusters[d]
    {
      var tasks := clusters[c];
      var t := 0;
      while t < |tasks|
        invariant 0 <= t <= |tasks|
        invariant forall a :: a in defs <==>
          (exists d :: 0 <= d < c && a in clusters[d]) || a in tasks[..t]
      {
        defs := defs + {tasks[t]};
        t := t + 1;
      }
      assert tasks[..t] == tasks;
      c := c + 1;
    }
    assert defs == RunningSet(listing).value;
    return Some(defs);
  }

  /** The single `list_task_definitions` reply the reconciler reads: a ClientError
      (from it or from `list_task_definition_families` before it), a reply without the
      `taskDefinitionArns` key, or the listed ARNs. Later pages are never requested. */
  datatype DefinitionListing = ListingError | NoArnsKey | Arns(arns: seq<string>)

  /** One `deregister_task_definition` call and whether it succeeded. */
  datatype Deregistration = Deregistration(arn: string, succeeded: bool)

  /** The effect of one reconciliation pass: the deregistration calls issued, in order,
      the two counters, and whether the pass reached its summary (it does not when a
      ClientError ends it early). */
  datatype Reconciliation = Reconciliation(
    calls: seq<Deregistration>,
    deleted: nat,
    skipped: nat,
    summarized: bool)

  function Succeeded(d: Deregistration): bool {
    d.succeeded
  }

  /** Number of calls that succeeded. */
  function SucceededCount(calls: seq<Deregistration>): nat {
    CountIf(calls, Succeeded)
  }

  /** Number of calls that name `arn`. */
  function CallsFor(calls: seq<Deregistration>, arn: string): nat {
    CountIf(calls, (d: Deregistration) => d.arn == arn)
  }

  /** The inner loop over one definition's containers, the first at position `pos`:
      one deregistration call per container that has a `credentialSpecs` key, one skip
      per container that lacks it; a failed call counts as neither. */
  function ContainerPass(arn: string, cs: seq<Container>, pos: nat, succeeds: (string, nat) -> bool)
    : (r: Reconciliation)
    ensures r.summarized
    ensures |r.calls| == CountIf(cs, HasCredentialSpecsKey)
    ensures forall k :: 0 <= k < |r.calls| ==> r.calls[k].arn == arn
    ensures r.deleted == SucceededCount(r.calls)
    ensures r.skipped + |r.calls| == |cs|
    decreases |cs|
  {
    if |cs| == 0 then Reconciliation([], 0, 0, true)
    else
      var rest := ContainerPass(arn, cs[1..], pos + 1, succeeds);
      if HasCredentialSpecsKey(cs[0]) then
        var ok := succeeds(arn, pos);
        Reconciliation([Deregistration(arn, ok)] + rest.calls,
                       (if ok then 1 else 0) + rest.deleted, rest.skipped, true)
      else
        Reconciliation(rest.calls, rest.deleted, rest.skipped + 1, true)
  }

  /** Number of listed definitions that back a running task. */
  function RunningListed(arns: seq<string>, running: set<string>): nat
    decreases |arns|
  {
    if |arns| == 0 then 0
    else (if arns[0] in running then 1 else 0) + RunningListed(arns[1..], running)
  }

  /** Number of containers a complete pass inspects: all containers of every listed
      definition that is not running. */
  function InspectedContainers(arns: seq<string>, running: set<string>,
                               describe: string -> Option<seq<Container>>): nat
    decreases |arns|
  {
    if |arns| == 0 then 0
    else if arns[0] in running then InspectedContainers(arns[1..], running, describe)
    else |describe(arns[0]).GetOr([])| + InspectedContainers(arns[1..], running, describe)
  }

  /** The outer loop over the listed ARNs. A running ARN is skipped and counted; any
      other is described (a ClientError there ends the whole pass) and its containers
      are passed to the inner loop. */
  function DefinitionPass(arns: seq<string>, running: set<string>,
                          describe: string -> Option<seq<Container>>,
                          succeeds: (string, nat) -> bool): (r: Reconciliation)
    ensures forall k :: 0 <= k < |r.calls| ==> r.calls[k].arn in arns && r.calls[k].arn !in running
    ensures forall k :: 0 <= k < |r.calls| ==>
      describe(r.calls[k].arn).Some? && CountIf(describe(r.calls[k].arn).value, HasCredentialSpecsKey) > 0
    ensures r.deleted == SucceededCount(r.calls)
    decreases |arns|
  {
    if |arns| == 0 then Reconciliation([], 0, 0, true)
    else
      var rest := DefinitionPass(arns[1..], running, describe, succeeds);
      if arns[0] in running then
        Reconciliation(rest.calls, rest.deleted, rest.skipped + 1, rest.summarized)
      else
        match describe(arns[0])
        case None => Reconciliation([], 0, 0, false)
        case Some(cs) =>
          var here := ContainerPass(arns[0], cs, 0, succeeds);
          CountIfAppend(here.calls, rest.calls, Succeeded);
          Reconciliation(here.calls + rest.calls, here.deleted + rest.deleted,
                         here.skipped + rest.skipped, rest.summarized)
  }

  /** The pass reaches its summary exactly when every non-running listed definition can
      be described, and then every inspected container was counted once: skipped,
      or deregistered whether or not the call succeeded. */
  lemma {:induction false} DefinitionPassSummary(arns: seq<string>, running: set<string>,
                                                 describe: string -> Option<seq<Container>>,
                                                 succeeds: (string, nat) -> bool)
    ensures var r := DefinitionPass(arns, running, describe, succeeds);
      && (r.summarized <==> forall i :: 0 <= i < |arns| && arns[i] !in running ==> describe(arns[i]).Some?)
      && (r.summarized ==>
            r.skipped + |r.calls| == RunningListed(arns, running) + InspectedContainers(arns, running, describe))
    decreases |arns|
  {
    if |arns| > 0 {
      DefinitionPassSummary(arns[1..], running, describe, succeeds);
      assert forall i :: 1 <= i < |arns| ==> arns[i] == arns[1..][i - 1];
    }
  }

  /** `delete_unused_task_definitions`, given the running set it computes first. */
  function DeleteUnusedTaskDefinitions(running: Option<set<string>>, listing: DefinitionListing,
                                       describe: string -> Option<seq<Container>>,
                                       succeeds: (string, nat) -> bool): (r: Reconciliation)
    ensures running.None? || listing.ListingError? ==> r.calls == [] && !r.summarized
    ensures running.Some? && listing.NoArnsKey? ==> r == Reconciliation([], 0, 0, true)
    ensures forall k :: 0 <= k < |r.calls| ==>
      && running.Some? && listing.Arns?
      && r.calls[k].arn in listing.arns
      && r.calls[k].arn !in running.value
      && describe(r.calls[k].arn).Some?
      && CountIf(describe(r.calls[k].arn).value, HasCredentialSpecsKey) > 0
    ensures r.deleted == SucceededCount(r.calls)
    ensures running.Some? && listing.Arns? ==> r == DefinitionPass(listing.arns, running.value, describe, succeeds)
  {
    match (running, listing)
    case (None, _) => Reconciliation([], 0, 0, false)
    case (_, ListingError) => Reconciliation([], 0, 0, false)
    case (Some(live), NoArnsKey) => Reconciliation([], 0, 0, true)
    case (Some(live), Arns(arns)) => DefinitionPass(arns, live, describe, succeeds)
  }

  /** A task definition backing a running task in any cluster is never deregistered,
      whatever else the pass sees. */
  lemma RunningDefinitionSurvives(clusters: ClusterListing, listing: DefinitionListing,
                                  describe: string -> Option<seq<Container>>,
                                  succeeds: (string, nat) -> bool, c: nat, t: nat)
    requires clusters.Clusters? && c < |clusters.running| && t < |clusters.running[c]|
    ensures forall k :: 0 <= k < |DeleteUnusedTaskDefinitions(RunningSet(clusters), listing, describe, succeeds).calls| ==>
      DeleteUnusedTaskDefinitions(RunningSet(clusters), listing, describe, succeeds).calls[k].arn
        != clusters.running[c][t]
  {
    var a := clusters.running[c][t];
    assert a in clusters.running[c];
    assert a in RunningSet(clusters).value;
  }

  /** A definition none of whose containers has a `credentialSpecs` key is never
      deregistered. */
  lemma UnmanagedDefinitionSurvives(running: Option<set<string>>, listing: DefinitionListing,
                                    describe: string -> Option<seq<Container>>,
                                    succeeds: (string, nat) -> bool, arn: string)
    requires describe(arn).Some?
    requires forall i :: 0 <= i < |describe(arn).value| ==> !HasCredentialSpecsKey(describe(arn).value[i])
    ensures CallsFor(DeleteUnusedTaskDefinitions(running, listing, describe, succeeds).calls, arn) == 0
  {
    var calls := DeleteUnusedTaskDefinitions(running, listing, describe, succeeds).calls;
    CountIfNone(describe(arn).value, HasCredentialSpecsKey);
    CountIfNone(calls, (d: Deregistration) => d.arn == arn);
  }

  /** On a listing without repeated ARNs, a managed definition that is not running gets
      exactly one deregistration call per container carrying the `credentialSpecs` key,
      even when that key holds an empty list. */
  lemma {:induction false} CallsPerDefinition(arns: seq<string>, running: set<string>,
                                              describe: string -> Option<seq<Container>>,
                                              succeeds: (string, nat) -> bool, i: nat)
    requires NoDuplicates(arns) && i < |arns| && arns[i] !in running
    requires forall j :: 0 <= j <= i && arns[j] !in running ==> describe(arns[j]).Some?
    ensures CallsFor(DefinitionPass(arns, running, describe, succeeds).calls, arns[i])
         == CountIf(describe(arns[i]).value, HasCredentialSpecsKey)
    decreases |arns|
  {
    var arn := arns[i];
    var p := (d: Deregistration) => d.arn == arn;
    var rest := DefinitionPass(arns[1..], running, describe, succeeds);
    if i == 0 {
      assert forall k :: 0 <= k < |rest.calls| ==> rest.calls[k].arn != arn by {
        forall k | 0 <= k < |rest.calls| ensures rest.calls[k].arn != arn {
          var j :| 0 <= j < |arns[1..]| && arns[1..][j] == rest.calls[k].arn;
          assert arns[j + 1] == rest.calls[k].arn;
        }
      }
      var here := ContainerPass(arn, describe(arn).value, 0, succeeds);
      CountIfAll(here.calls, p);
      CountIfNone(rest.calls, p);
      CountIfAppend(here.calls, rest.calls, p);
    } else {
      assert arns[1..][i - 1] == arn;
      CallsPerDefinition(arns[1..], running, describe, succeeds, i - 1);
      if arns[0] !in running {
        var here := ContainerPass(arns[0], describe(arns[0]).value, 0, succeeds);
        CountIfNone(here.calls, p);
        CountIfAppend(here.calls, rest.calls, p);
      }
    }
  }
}
