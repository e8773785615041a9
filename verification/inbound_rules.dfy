/** `add_security_group_to_instance`: the ingress rule that lets the directory's
    security group reach the test instance, added only when it is not there yet.
    The Directory Service and EC2 replies are inputs; any exception ends the function
    with False. */
module InboundRules {
  import opened Wrappers
  import opened Seqs

  /** One entry of `describe_directories()['DirectoryDescriptions']`. */
  datatype Directory = Directory(name: string, directoryId: string)

  /** One instance of a reservation: its security group ids, None when the instance
      has no `SecurityGroups` key. */
  datatype Instance = Instance(securityGroups: Option<seq<string>>)

  /** One entry of `describe_security_group_rules`: `referencedGroup` is the group id
      under `ReferencedGroupInfo`, None when either key is absent. */
  datatype Rule = Rule(ipProtocol: string, fromPort: int, toPort: int, referencedGroup: Option<string>)

  /** One entry of `IpPermissions`, with the group ids of its `UserIdGroupPairs`. */
  datatype Permission = Permission(ipProtocol: string, fromPort: int, toPort: int, groupPairs: seq<string>)

  /** The arguments of one `authorize_security_group_ingress` call. */
  datatype IngressCall = IngressCall(groupId: string, permissions: seq<Permission>)

  /** What the service calls answer.
      - `directories`: the unfiltered description list;
      - `directoryGroup(id)`: the `VpcSettings.SecurityGroupId` of the directory's own
        description, None when that lookup raises;
      - `reservations`: the instances of each reservation of the name-and-state query;
      - `rulesOf(group)`: the rules of a security group, None when the query raises;
      - `authorizes`: whether the ingress call returns normally.
      A raising `describe_directories()` or `describe_instances` is given as an empty
      list: the function's answer is then False with no call, the same as for a
      directory or instance that is not found. */
  datatype Services = Services(
    directories: seq<Directory>,
    directoryGroup: string -> Option<string>,
    reservations: seq<seq<Instance>>,
    rulesOf: string -> Option<seq<Rule>>,
    authorizes: bool)

  /** The function's return value and the ingress calls it made. */
  datatype Outcome = Outcome(result: bool, calls: seq<IngressCall>)

  /** The generator expression inside `next(...)`. */
  function DirectoryNamed(directories: seq<Directory>, name: string): (r: Option<Directory>)
    ensures r.None? <==> forall k :: 0 <= k < |directories| ==> directories[k].name != name
    ensures r.Some? ==>
      exists k :: 0 <= k < |directories| && directories[k] == r.value && r.value.name == name
        && forall j :: 0 <= j < k ==> directories[j].name != name
  {
    match FirstIndex(directories, (d: Directory) => d.name == name)
    case None => None
    case Some(k) => Some(directories[k])
  }

  /** The instance security group the rule goes to: the first group of the first
      instance of the first reservation; None when any of these is missing (the
      function raises ValueError there). Later reservations and instances are never
      consulted. */
  function InstanceGroup(reservations: seq<seq<Instance>>): (r: Option<string>)
    ensures r.Some? <==>
      |reservations| > 0 && |reservations[0]| > 0 && reservations[0][0].securityGroups.Some?
      && |reservations[0][0].securityGroups.value| > 0
    ensures r.Some? ==> r.value == reservations[0][0].securityGroups.value[0]
  {
    if |reservations| == 0 || |reservations[0]| == 0 then None
    else
      match reservations[0][0].securityGroups
      case None => None
      case Some(groups) => if |groups| == 0 then None else Some(groups[0])
  }

  /** A rule letting all traffic in from `group`. */
  predicate AllowsAllFrom(rule: Rule, group: string) {
    rule.ipProtocol == "-1" && rule.fromPort == -1 && rule.toPort == -1
    && rule.referencedGroup == Some(group)
  }

  /** `rule_exists`: some rule already lets all traffic in from `group`. */
  function RuleExists(rules: seq<Rule>, group: string): (r: bool)
    ensures r <==> exists k :: 0 <= k < |rules| && AllowsAllFrom(rules[k], group)
  {
    FirstIndex(rules, (rule: Rule) => AllowsAllFrom(rule, group)).Some?
  }

  /** The permission the function asks for: all protocols, all ports, from `group`. */
  function AllTrafficFrom(group: string): (p: Permission)
    ensures p.ipProtocol == "-1" && p.fromPort == -1 && p.toPort == -1
    ensures p.groupPairs == [group]
  {
    Permission("-1", -1, -1, [group])
  }

  /** The rule a granted permission shows up as in the group's rule list. */
  function RuleOf(p: Permission): Rule
    requires |p.groupPairs| == 1
  {
    Rule(p.ipProtocol, p.fromPort, p.toPort, Some(p.groupPairs[0]))
  }

  /** Every lookup `add_security_group_to_instance` makes before deciding succeeded:
      the directory, its security group, the instance group and that group's rules. */
  predicate Found(svc: Services, directoryName: string) {
    && DirectoryNamed(svc.directories, directoryName).Some?
    && svc.directoryGroup(DirectoryNamed(svc.directories, directoryName).value.directoryId).Some?
    && InstanceGroup(svc.reservations).Some?
    && svc.rulesOf(InstanceGroup(svc.reservations).value).Some?
  }

  /** `add_security_group_to_instance`. */
  function AddSecurityGroupToInstance(svc: Services, directoryName: string): (r: Outcome)
    ensures |r.calls| <= 1
    ensures !Found(svc, directoryName) ==> r == Outcome(false, [])
    ensures Found(svc, directoryName) ==>
      var dirGroup := svc.directoryGroup(DirectoryNamed(svc.directories, directoryName).value.directoryId).value;
      var group := InstanceGroup(svc.reservations).value;
      if RuleExists(svc.rulesOf(group).value, dirGroup) then r == Outcome(true, [])
      else r == Outcome(svc.authorizes, [IngressCall(group, [AllTrafficFrom(dirGroup)])])
    ensures DirectoryNamed(svc.directories, directoryName).None? ==> r == Outcome(false, [])
    ensures InstanceGroup(svc.reservations).None? ==> r == Outcome(false, [])
    ensures r.result ==>
      exists d :: DirectoryNamed(svc.directories, directoryName) == Some(d) && svc.directoryGroup(d.directoryId).Some?
    ensures |r.calls| == 1 ==>
      DirectoryNamed(svc.directories, directoryName).Some?
      && var dirGroup := svc.directoryGroup(DirectoryNamed(svc.directories, directoryName).value.directoryId);
      && dirGroup.Some? && InstanceGroup(svc.reservations).Some?
      && svc.rulesOf(InstanceGroup(svc.reservations).value).Some?
      && !RuleExists(svc.rulesOf(InstanceGroup(svc.reservations).value).value, dirGroup.value)
      && r.calls[0] == IngressCall(InstanceGroup(svc.reservations).value, [AllTrafficFrom(dirGroup.value)])
      && r.result == svc.authorizes
    ensures |r.calls| == 0 && r.result ==>
      var dirGroup := svc.directoryGroup(DirectoryNamed(svc.directories, directoryName).value.directoryId);
      InstanceGroup(svc.reservations).Some? && svc.rulesOf(InstanceGroup(svc.reservations).value).Some?
      && RuleExists(svc.rulesOf(InstanceGroup(svc.reservations).value).value, dirGroup.value)
  {
    match DirectoryNamed(svc.directories, directoryName)
    case None => Outcome(false, [])
    case Some(d) =>
      match svc.directoryGroup(d.directoryId)
      case None => Outcome(false, [])
      case Some(dirGroup) =>
        match InstanceGroup(svc.reservations)
        case None => Outcome(false, [])
        case Some(instanceGroup) =>
          match svc.rulesOf(instanceGroup)
          case None => Outcome(false, [])
          case Some(rules) =>
            if RuleExists(rules, dirGroup) then Outcome(true, [])
            else Outcome(svc.authorizes, [IngressCall(instanceGroup, [AllTrafficFrom(dirGroup)])])
  }

  /** Rerunning after a successful first run changes nothing: once the rule the first
      run granted is in the instance group's rule list, the second run makes no call
      and answers True. */
  lemma {:induction false} RerunIsIdempotent(svc: Services, directoryName: string, svc2: Services)
    requires AddSecurityGroupToInstance(svc, directoryName).calls != []
    requires svc2.directories == svc.directories && svc2.directoryGroup == svc.directoryGroup
    requires svc2.reservations == svc.reservations
    requires var call := AddSecurityGroupToInstance(svc, directoryName).calls[0];
      forall g :: svc2.rulesOf(g) ==
        if g == call.groupId then Some(svc.rulesOf(g).GetOr([]) + [RuleOf(call.permissions[0])])
        else svc.rulesOf(g)
    ensures AddSecurityGroupToInstance(svc2, directoryName) == Outcome(true, [])
  {
    var first := AddSecurityGroupToInstance(svc, directoryName);
    var call := first.calls[0];
    var d := DirectoryNamed(svc.directories, directoryName).value;
    var dirGroup := svc.directoryGroup(d.directoryId).value;
    var group := InstanceGroup(svc.reservations).value;
    var rules2 := svc.rulesOf(group).value + [RuleOf(call.permissions[0])];
    assert svc2.rulesOf(group) == Some(rules2);
    assert AllowsAllFrom(rules2[|rules2| - 1], dirGroup);
  }

  /** With the rule already present nothing is authorised, whatever the ingress call
      would have done. */
  lemma ExistingRuleMeansNoCall(svc: Services, directoryName: string, d: Directory, group: string, k: nat)
    requires DirectoryNamed(svc.directories, directoryName) == Some(d)
    requires svc.directoryGroup(d.directoryId).Some?
    requires InstanceGroup(svc.reservations) == Some(group)
    requires svc.rulesOf(group).Some? && k < |svc.rulesOf(group).value|
    requires AllowsAllFrom(svc.rulesOf(group).value[k], svc.directoryGroup(d.directoryId).value)
    ensures AddSecurityGroupToInstance(svc, directoryName) == Outcome(true, [])
    ensures AddSecurityGroupToInstance(svc.(authorizes := !svc.authorizes), directoryName) == Outcome(true, [])
  {
  }
}
