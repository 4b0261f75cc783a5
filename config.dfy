/**
 The policy store of docker-leash: the groups and the ordered policy rules read
 from configuration, and the resolution of a request to the ordered list of
 checks that must pass for it.

 The functions below are the specification; the class `Config` holds the
 mutable state and carries the loops of the source, each proved equal to its
 specification function.
 */
module LeashConfig {
  import opened Wrappers
  import opened ActionMapper
  import opened ChecksList
  import opened Payloads

  /** `re.match(pattern, subject)`: true when the pattern matches at the start of the subject. */
  type Matcher = (string, string) -> bool

  /** Group name to the identifiers of its members. */
  type Groups = map<string, seq<string>>

  /** The checks of one tier of an action-rules mapping (check name and arguments),
      in the order the mapping yields them. */
  type TierChecks = seq<(string, Args)>

  /** Action name, namespace name or "any", to the checks of that tier. */
  type ActionRules = map<string, TierChecks>

  /** A policy binds member groups to action rules. */
  datatype Policy = Policy(members: seq<string>, rules: ActionRules)

  /** A top-level rule: signed host patterns, an optional list of policies (the
      `policies` key may be absent) and the default check entry. */
  datatype Rule = Rule(hosts: seq<string>, policies: Option<seq<Policy>>, default: Entry)

  /** What resolution can raise: `ConfigurationException` for a host pattern without
      its `+` or `-` sign, and the `TypeError` of testing a member group against
      groups that were never set (`group in None`). */
  datatype ConfigError = MissingSign(entry: string) | GroupsUnset

  // ---------------------------------------------------------------------------
  // Host matching

  /** Every host pattern has a first character to read. */
  predicate Indexable(hosts: seq<string>)
  {
    forall i :: 0 <= i < |hosts| ==> |hosts[i]| > 0
  }

  /** Every rule's host patterns have a first character to read. */
  predicate WellFormedHosts(rules: seq<Rule>)
  {
    forall i :: 0 <= i < |rules| ==> Indexable(rules[i].hosts)
  }

  predicate Signed(entry: string)
  {
    |entry| > 0 && (entry[0] == '+' || entry[0] == '-')
  }

  /** The regular expression of a pattern (everything after the sign) matches the host name. */
  predicate EntryMatches(entry: string, hostname: string, re: Matcher)
    requires |entry| > 0
  {
    re(entry[1..], hostname)
  }

  /** The match state reached from `state` after the patterns of `hosts`, or the
      error for the first unsigned pattern. */
  function ScanHosts(hostname: string, hosts: seq<string>, state: bool, re: Matcher): Result<bool, ConfigError>
    requires Indexable(hosts)
    decreases |hosts|
  {
    if hosts == [] then Ok(state)
    else
      var entry := hosts[0];
      if entry[0] == '+' then
        ScanHosts(hostname, hosts[1..], if EntryMatches(entry, hostname, re) then true else state, re)
      else if entry[0] == '-' then
        ScanHosts(hostname, hosts[1..], if EntryMatches(entry, hostname, re) then false else state, re)
      else
        Err(MissingSign(entry))
  }

  /** `_match_host`: the scan starts from "not matched". */
  function HostMatch(hostname: string, hosts: seq<string>, re: Matcher): Result<bool, ConfigError>
    requires Indexable(hosts)
  {
    ScanHosts(hostname, hosts, false, re)
  }

  // ---------------------------------------------------------------------------
  // Group-based policy selection

  /** A group's member list lets the caller in: by name, through "*", or through
      "Anonymous" when the caller has no identity. */
  predicate Admits(members: seq<string>, username: Option<string>)
  {
    || (username.Some? && username.value in members)
    || "*" in members
    || (username.None? && "Anonymous" in members)
  }

  /** Some member group of the policy is a known group that admits the caller;
      member groups missing from `groups` are skipped. */
  predicate PolicyAdmits(groups: Groups, username: Option<string>, policy: Policy)
  {
    exists g :: g in policy.members && g in groups && Admits(groups[g], username)
  }

  /** The rules of the first policy that admits the caller, against known groups. */
  function PolicyByMember(groups: Groups, username: Option<string>, policies: seq<Policy>): (r: Option<ActionRules>)
    ensures r.None? <==> forall i :: 0 <= i < |policies| ==> !PolicyAdmits(groups, username, policies[i])
    ensures r.Some? ==>
      exists i :: 0 <= i < |policies| && PolicyAdmits(groups, username, policies[i]) &&
        r.value == policies[i].rules &&
        forall j :: 0 <= j < i ==> !PolicyAdmits(groups, username, policies[j])
  {
    if policies == [] then None
    else if PolicyAdmits(groups, username, policies[0]) then
      Some(policies[0].rules)
    else
      var r := PolicyByMember(groups, username, policies[1..]);
      assert forall i :: 1 <= i < |policies| ==> policies[i] == policies[1..][i - 1];
      assert r.Some? ==>
        exists i :: 0 <= i < |policies| && PolicyAdmits(groups, username, policies[i]) &&
          r.value == policies[i].rules &&
          forall j :: 0 <= j < i ==> !PolicyAdmits(groups, username, policies[j])
      by {
        if r.Some? {
          var k :| 0 <= k < |policies[1..]| && PolicyAdmits(groups, username, policies[1..][k]) &&
            r.value == policies[1..][k].rules &&
            forall j :: 0 <= j < k ==> !PolicyAdmits(groups, username, policies[1..][j]);
          assert policies[k + 1] == policies[1..][k];
        }
      }
      r
  }

  /** `_get_policy_by_member` against the stored groups, which may be unset: the
      policies and their member groups are scanned in order, and while no groups
      are set the first member-group test raises. */
  function SelectPolicy(groups: Option<Groups>, username: Option<string>, policies: seq<Policy>): (r: Result<Option<ActionRules>, ConfigError>)
    ensures groups.Some? ==> r == Ok(PolicyByMember(groups.value, username, policies))
    ensures groups.None? ==>
      r == if exists i :: 0 <= i < |policies| && |policies[i].members| > 0 then Err(GroupsUnset) else Ok(None)
  {
    if policies == [] then Ok(None)
    else if groups.None? && |policies[0].members| > 0 then Err(GroupsUnset)
    else if groups.Some? && PolicyAdmits(groups.value, username, policies[0]) then Ok(Some(policies[0].rules))
    else
      assert forall i :: 1 <= i < |policies| ==> policies[i] == policies[1..][i - 1];
      SelectPolicy(groups, username, policies[1..])
  }

  // ---------------------------------------------------------------------------
  // Action-based check resolution

  /** The tier `_match_rules` reads: the action's own name, else its namespace, else "any". */
  function ChosenTier(action: Action, actions: ActionRules): (r: Option<string>)
    ensures r.Some? ==> r.value in actions
    ensures r.None? <==> (action.name !in actions && action.namespaceName !in actions && "any" !in actions)
  {
    if action.name in actions then Some(action.name)
    else if action.namespaceName in actions then Some(action.namespaceName)
    else if "any" in actions then Some("any")
    else None
  }

  /** Each (check, args) pair of a tier as a one-check entry, in tier order. */
  function Singletons(tier: TierChecks): seq<Entry>
  {
    seq(|tier|, i requires 0 <= i < |tier| => map[tier[i].0 := tier[i].1])
  }

  /** The checks `_match_rules` returns: the chosen tier's entries, or none at all. */
  function MatchedChecks(action: Action, actions: ActionRules): seq<Entry>
  {
    match ChosenTier(action, actions)
    case None => []
    case Some(key) => Singletons(actions[key])
  }

  // ---------------------------------------------------------------------------
  // The resolution cascade

  /** The checks a selected rule yields: the matched checks of the first admitting
      policy, or the rule's default whenever a stage finds nothing. */
  function WithinRule(groups: Option<Groups>, rule: Rule, username: Option<string>, action: Action): (r: Result<seq<Entry>, ConfigError>)
    ensures r.Ok? ==> |r.value| > 0
    ensures r.Err? ==> r.error == GroupsUnset && groups.None?
  {
    if rule.policies.None? then Ok([rule.default])
    else
      match SelectPolicy(groups, username, rule.policies.value)
      case Err(e) => Err(e)
      case Ok(None) => Ok([rule.default])
      case Ok(Some(actions)) =>
        var checks := MatchedChecks(action, actions);
        if |checks| == 0 then Ok([rule.default]) else Ok(checks)
  }

  /** `get_rules`: the checks of the first rule whose hosts match, `None` when no rule's
      hosts match, or the error of an unsigned pattern met on the way. */
  function Resolve(groups: Option<Groups>, rules: seq<Rule>, username: Option<string>, action: Action,
                   hostname: string, re: Matcher): Result<Option<seq<Entry>>, ConfigError>
    requires WellFormedHosts(rules)
    decreases |rules|
  {
    if rules == [] then Ok(None)
    else
      match HostMatch(hostname, rules[0].hosts, re)
      case Err(e) => Err(e)
      case Ok(matched) =>
        if matched then
          match WithinRule(groups, rules[0], username, action)
          case Err(e) => Err(e)
          case Ok(checks) => Ok(Some(checks))
        else Resolve(groups, rules[1..], username, action, hostname, re)
  }

  /** What a caller sees of `get_rules`' answer: the entries of the returned check list. */
  function Observe(r: Result<Option<Checks>, ConfigError>): Result<Option<seq<Entry>>, ConfigError>
    reads if r.Ok? && r.value.Some? then {r.value.value} else {}
  {
    match r
    case Err(e) => Err(e)
    case Ok(None) => Ok(None)
    case Ok(Some(checks)) => Ok(Some(checks.entries))
  }

  // ---------------------------------------------------------------------------
  // Configuration updates

  /** The groups after `update`: incoming groups (when there are any) are merged
      into the current ones, or replace them when there are none yet. */
  function MergeGroups(current: Option<Groups>, incoming: Option<Groups>): (r: Option<Groups>)
    ensures incoming.None? || |incoming.value| == 0 ==> r == current
    ensures incoming.Some? && |incoming.value| > 0 ==>
      && r.Some?
      && r.value.Keys == incoming.value.Keys + (if current.Some? then current.value.Keys else {})
      && (forall k :: k in incoming.value ==> r.value[k] == incoming.value[k])
      && (current.Some? ==> forall k :: k in current.value && k !in incoming.value ==> r.value[k] == current.value[k])
  {
    if incoming.Some? && |incoming.value| > 0 then
      if current.Some? && |current.value| > 0 then Some(current.value + incoming.value)
      else incoming
    else current
  }

  class Config {
    /** The groups; `None` until some are given. */
    var groups: Option<Groups>
    /** The ordered top-level rules; `None` until some are given. */
    var policies: Option<seq<Rule>>

    constructor (groups: Option<Groups>, policies: Option<seq<Rule>>)
      ensures this.groups == MergeGroups(None, groups)
      ensures this.policies == if policies.Some? && |policies.value| > 0 then policies else None
    {
      this.groups := None;
      this.policies := None;
      new;
      Update(groups, policies);
    }

    /** `update`: merges non-empty groups in, replaces the rules when non-empty ones are given. */
    method Update(groups: Option<Groups>, policies: Option<seq<Rule>>)
      modifies this
      ensures this.groups == MergeGroups(old(this.groups), groups)
      ensures this.policies == if policies.Some? && |policies.value| > 0 then policies else old(this.policies)
    {
      if groups.Some? && |groups.value| > 0 {
        if this.groups.Some? && |this.groups.value| > 0 {
          this.groups := Some(this.groups.value + groups.value);
        } else {
          this.groups := groups;
        }
      }
      if policies.Some? && |policies.value| > 0 {
        this.policies := policies;
      }
    }

    /** `get_rules`: scans the rules in order and resolves the request within the
        first one whose hosts match. */
    method GetRules(payload: Payload, resolve: Resolver, re: Matcher) returns (r: Result<Option<Checks>, ConfigError>)
      requires policies.Some? && WellFormedHosts(policies.value)
      ensures r.Ok? && r.value.Some? ==> fresh(r.value.value)
      ensures Observe(r) ==
        Resolve(groups, policies.value, payload.user, resolve(payload.requestMethod, payload.uri), payload.host, re)
    {
      var username := payload.user;
      var action := resolve(payload.requestMethod, payload.uri);
      var hostname := payload.host;
      var rules := policies.value;
      var known := groups;

      var i := 0;
      while i < |rules|
        invariant 0 <= i <= |rules|
        invariant Resolve(known, rules[i..], username, action, hostname, re) ==
                  Resolve(known, rules, username, action, hostname, re)
      {
        var rule := rules[i];
        assert rules[i..][0] == rule && rules[i..][1..] == rules[i + 1..];
        var matched := MatchHost(hostname, rule.hosts, re);
        if matched.Err? {
          return Err(matched.error);
        }
        if !matched.value {
          i := i + 1;
          continue;
        }

        if rule.policies.None? {
          var checks := DefaultRule(rule);
          return Ok(Some(checks));
        }

        var selected := SelectPolicy(known, username, rule.policies.value);
        if selected.Err? {
          return Err(selected.error);
        }
        if selected.value.None? {
          var checks := DefaultRule(rule);
          return Ok(Some(checks));
        }

        var checks := MatchRules(action, selected.value.value);
        if |checks.entries| == 0 {
          checks := DefaultRule(rule);
          return Ok(Some(checks));
        }
        return Ok(Some(checks));
      }
      return Ok(None);
    }

    /** `_default_rule`: a check list holding the rule's default entry and nothing else. */
    static method DefaultRule(rule: Rule) returns (checks: Checks)
      ensures fresh(checks)
      ensures checks.entries == [rule.default]
    {
      checks := new Checks();
      checks.Add(rule.default);
    }

    /** `_match_host`: the sign of the last pattern that matched, with every pattern
        read whether or not an earlier one matched. */
    static method MatchHost(hostname: string, hostRules: seq<string>, re: Matcher) returns (r: Result<bool, ConfigError>)
      requires Indexable(hostRules)
      ensures r == HostMatch(hostname, hostRules, re)
    {
      var matched := false;
      for i := 0 to |hostRules|
        invariant ScanHosts(hostname, hostRules[i..], matched, re) == HostMatch(hostname, hostRules, re)
      {
        var hostsReg := hostRules[i];
        assert hostRules[i..][0] == hostsReg && hostRules[i..][1..] == hostRules[i + 1..];
        var mode := hostsReg[0];
        var regex := hostsReg[1..];
        if mode == '+' {
          if re(regex, hostname) {
            matched := true;
          }
        } else if mode == '-' {
          if re(regex, hostname) {
            matched := false;
          }
        } else {
          return Err(MissingSign(hostsReg));
        }
      }
      return Ok(matched);
    }

    /** `_match_rules`: appends, once each and in order, the checks of the first
        tier present among the action name, its namespace and "any". */
    static method MatchRules(action: Action, actions: ActionRules) returns (checks: Checks)
      ensures fresh(checks)
      ensures checks.entries == MatchedChecks(action, actions)
    {
      checks := new Checks();
      var actionName := action.name;
      var parentAction := action.namespaceName;

      var tier: TierChecks := [];
      if actionName in actions {
        tier := actions[actionName];
      } else if parentAction in actions {
        tier := actions[parentAction];
      } else if "any" in actions {
        tier := actions["any"];
      }

      for i := 0 to |tier|
        invariant checks.entries == Singletons(tier[..i])
      {
        var (check, args) := tier[i];
        assert Singletons(tier[..i + 1]) == Singletons(tier[..i]) + [map[check := args]];
        checks.Add(map[check := args]);
      }
      assert tier[..|tier|] == tier;
    }
  }
}
