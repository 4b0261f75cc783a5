/**
 What the policy engine promises, stated over the specification functions of
 `LeashConfig`: the host override chain, first-match policy selection, the
 three action tiers, the single-rule cascade and the merge of groups.
 */
module ConfigProperties {
  import opened Wrappers
  import opened ActionMapper
  import opened ChecksList
  import opened LeashConfig

  // ---------------------------------------------------------------------------
  // Host matching: an allow/deny override chain where the last match wins

  predicate AllSigned(hosts: seq<string>)
  {
    forall i :: 0 <= i < |hosts| ==> Signed(hosts[i])
  }

  lemma {:induction false} ScanNoMatch(hostname: string, hosts: seq<string>, state: bool, re: Matcher)
    requires AllSigned(hosts)
    requires forall j :: 0 <= j < |hosts| ==> !EntryMatches(hosts[j], hostname, re)
    ensures ScanHosts(hostname, hosts, state, re) == Ok(state)
    decreases |hosts|
  {
    if hosts != [] {
      assert forall j :: 0 <= j < |hosts| - 1 ==> hosts[1..][j] == hosts[j + 1];
      ScanNoMatch(hostname, hosts[1..], state, re);
    }
  }

  lemma {:induction false} ScanLastMatch(hostname: string, hosts: seq<string>, state: bool, re: Matcher, i: nat)
    requires AllSigned(hosts)
    requires i < |hosts| && EntryMatches(hosts[i], hostname, re)
    requires forall j :: i < j < |hosts| ==> !EntryMatches(hosts[j], hostname, re)
    ensures ScanHosts(hostname, hosts, state, re) == Ok(hosts[i][0] == '+')
    decreases |hosts|
  {
    assert forall j :: 0 <= j < |hosts| - 1 ==> hosts[1..][j] == hosts[j + 1];
    if i == 0 {
      ScanNoMatch(hostname, hosts[1..], hosts[0][0] == '+', re);
    } else {
      var next := if EntryMatches(hosts[0], hostname, re) then hosts[0][0] == '+' else state;
      ScanLastMatch(hostname, hosts[1..], next, re, i - 1);
    }
  }

  /** With every pattern signed, the answer is the sign of the last pattern that
      matched, and "not matched" when none did. */
  lemma HostMatchLastMatchWins(hostname: string, hosts: seq<string>, re: Matcher)
    requires AllSigned(hosts)
    ensures (forall j :: 0 <= j < |hosts| ==> !EntryMatches(hosts[j], hostname, re)) ==>
      HostMatch(hostname, hosts, re) == Ok(false)
    ensures forall i ::
      (0 <= i < |hosts| && EntryMatches(hosts[i], hostname, re) &&
       forall j :: i < j < |hosts| ==> !EntryMatches(hosts[j], hostname, re)) ==>
      HostMatch(hostname, hosts, re) == Ok(hosts[i][0] == '+')
  {
    if forall j :: 0 <= j < |hosts| ==> !EntryMatches(hosts[j], hostname, re) {
      ScanNoMatch(hostname, hosts, false, re);
    }
    forall i | 0 <= i < |hosts| && EntryMatches(hosts[i], hostname, re) &&
      (forall j :: i < j < |hosts| ==> !EntryMatches(hosts[j], hostname, re))
      ensures HostMatch(hostname, hosts, re) == Ok(hosts[i][0] == '+')
    {
      ScanLastMatch(hostname, hosts, false, re, i);
    }
  }

  lemma {:induction false} ScanSignedOk(hostname: string, hosts: seq<string>, state: bool, re: Matcher)
    requires AllSigned(hosts)
    ensures ScanHosts(hostname, hosts, state, re).Ok?
    decreases |hosts|
  {
    if hosts != [] {
      assert forall j :: 0 <= j < |hosts| - 1 ==> hosts[1..][j] == hosts[j + 1];
      var entry := hosts[0];
      ScanSignedOk(hostname, hosts[1..], if EntryMatches(entry, hostname, re) then entry[0] == '+' else state, re);
    }
  }

  lemma {:induction false} ScanFirstUnsigned(hostname: string, hosts: seq<string>, state: bool, re: Matcher, i: nat)
    requires Indexable(hosts)
    requires i < |hosts| && !Signed(hosts[i])
    requires forall j :: 0 <= j < i ==> Signed(hosts[j])
    ensures ScanHosts(hostname, hosts, state, re) == Err(MissingSign(hosts[i]))
    decreases |hosts|
  {
    if i > 0 {
      assert forall j :: 0 <= j < |hosts| - 1 ==> hosts[1..][j] == hosts[j + 1];
      var entry := hosts[0];
      ScanFirstUnsigned(hostname, hosts[1..], if EntryMatches(entry, hostname, re) then entry[0] == '+' else state, re, i - 1);
    }
  }

  /** An unsigned pattern anywhere in the list makes host matching fail, whatever
      matched before it; the error names the first unsigned pattern. */
  lemma {:induction false} HostMatchUnsignedFails(hostname: string, hosts: seq<string>, re: Matcher, i: nat)
    requires Indexable(hosts)
    requires i < |hosts| && !Signed(hosts[i])
    ensures HostMatch(hostname, hosts, re).Err?
    ensures exists k ::
      && 0 <= k <= i && !Signed(hosts[k])
      && (forall j :: 0 <= j < k ==> Signed(hosts[j]))
      && HostMatch(hostname, hosts, re) == Err(MissingSign(hosts[k]))
    decreases i
  {
    if forall j :: 0 <= j < i ==> Signed(hosts[j]) {
      ScanFirstUnsigned(hostname, hosts, false, re, i);
    } else {
      var k :| 0 <= k < i && !Signed(hosts[k]);
      HostMatchUnsignedFails(hostname, hosts, re, k);
    }
  }

  /** Host matching fails exactly when some pattern is unsigned. */
  lemma HostMatchFailsIff(hostname: string, hosts: seq<string>, re: Matcher)
    requires Indexable(hosts)
    ensures HostMatch(hostname, hosts, re).Err? <==> !AllSigned(hosts)
  {
    if AllSigned(hosts) {
      ScanSignedOk(hostname, hosts, false, re);
    } else {
      var i :| 0 <= i < |hosts| && !Signed(hosts[i]);
      HostMatchUnsignedFails(hostname, hosts, re, i);
    }
  }

  // ---------------------------------------------------------------------------
  // Policy selection: the first admitting policy wins

  /** The rules of the first policy that admits the caller are the ones selected,
      whatever the later policies say. */
  lemma PolicyByMemberFirst(groups: Groups, username: Option<string>, policies: seq<Policy>, i: nat)
    requires i < |policies| && PolicyAdmits(groups, username, policies[i])
    requires forall j :: 0 <= j < i ==> !PolicyAdmits(groups, username, policies[j])
    ensures PolicyByMember(groups, username, policies) == Some(policies[i].rules)
  {
  }

  /** A group listing "*" admits every caller, with or without an identity; a group
      admits the anonymous caller only through "*" or "Anonymous". */
  lemma AdmitsWildcardAndAnonymous(members: seq<string>, username: Option<string>)
    ensures "*" in members ==> Admits(members, username)
    ensures Admits(members, None) <==> ("*" in members || "Anonymous" in members)
    ensures username.Some? ==> (Admits(members, username) <==> (username.value in members || "*" in members))
  {
  }

  // ---------------------------------------------------------------------------
  // Action tiers: exactly one tier supplies the checks

  /** The exact action name is tried first, then the namespace, then "any"; if none
      is a key, there are no checks. */
  lemma MatchedChecksTiers(action: Action, actions: ActionRules)
    ensures action.name in actions ==> MatchedChecks(action, actions) == Singletons(actions[action.name])
    ensures action.name !in actions && action.namespaceName in actions ==>
      MatchedChecks(action, actions) == Singletons(actions[action.namespaceName])
    ensures action.name !in actions && action.namespaceName !in actions && "any" in actions ==>
      MatchedChecks(action, actions) == Singletons(actions["any"])
    ensures action.name !in actions && action.namespaceName !in actions && "any" !in actions ==>
      MatchedChecks(action, actions) == []
  {
  }

  /** Tiers are never merged: once the exact name is a key, changing or adding any
      other tier leaves the checks as they were. */
  lemma ExactTierShadows(action: Action, actions: ActionRules, key: string, tier: TierChecks)
    requires action.name in actions && key != action.name
    ensures MatchedChecks(action, actions[key := tier]) == MatchedChecks(action, actions)
  {
  }

  /** Once the namespace supplies the checks, the "any" tier (or any other tier
      apart from the exact name) is never consulted. */
  lemma NamespaceTierShadows(action: Action, actions: ActionRules, key: string, tier: TierChecks)
    requires action.name !in actions && action.namespaceName in actions
    requires key != action.name && key != action.namespaceName
    ensures MatchedChecks(action, actions[key := tier]) == MatchedChecks(action, actions)
  {
  }

  /** No checks come back exactly when no tier key is present or the chosen tier is empty. */
  lemma MatchedChecksEmptyIff(action: Action, actions: ActionRules)
    ensures |MatchedChecks(action, actions)| == 0 <==>
      ChosenTier(action, actions).None? || |actions[ChosenTier(action, actions).value]| == 0
  {
  }

  // ---------------------------------------------------------------------------
  // The cascade: one rule is selected and resolved on its own

  /** The first rule whose hosts match decides the answer: its resolution, or the
      error that resolution raises. */
  lemma {:induction false} ResolveFirstHostMatch(groups: Option<Groups>, rules: seq<Rule>, username: Option<string>,
                                                 action: Action, hostname: string, re: Matcher, i: nat)
    requires WellFormedHosts(rules)
    requires i < |rules| && HostMatch(hostname, rules[i].hosts, re) == Ok(true)
    requires forall j :: 0 <= j < i ==> HostMatch(hostname, rules[j].hosts, re) == Ok(false)
    ensures WithinRule(groups, rules[i], username, action).Ok? ==>
      Resolve(groups, rules, username, action, hostname, re) == Ok(Some(WithinRule(groups, rules[i], username, action).value))
    ensures WithinRule(groups, rules[i], username, action).Err? ==>
      Resolve(groups, rules, username, action, hostname, re) == Err(WithinRule(groups, rules[i], username, action).error)
    decreases i
  {
    if i > 0 {
      assert forall j :: 0 <= j < |rules| - 1 ==> rules[1..][j] == rules[j + 1];
      ResolveFirstHostMatch(groups, rules[1..], username, action, hostname, re, i - 1);
    }
  }

  /** Rules after the first host match are never consulted: replacing them by
      anything leaves the answer as it was, even when that rule falls back to its default. */
  lemma ResolveIgnoresLaterRules(groups: Option<Groups>, rules: seq<Rule>, username: Option<string>,
                                 action: Action, hostname: string, re: Matcher, i: nat, later: seq<Rule>)
    requires WellFormedHosts(rules) && WellFormedHosts(later)
    requires i < |rules| && HostMatch(hostname, rules[i].hosts, re) == Ok(true)
    requires forall j :: 0 <= j < i ==> HostMatch(hostname, rules[j].hosts, re) == Ok(false)
    ensures WellFormedHosts(rules[..i + 1] + later)
    ensures Resolve(groups, rules[..i + 1] + later, username, action, hostname, re) ==
            Resolve(groups, rules, username, action, hostname, re)
  {
    var changed := rules[..i + 1] + later;
    assert forall j :: 0 <= j <= i ==> changed[j] == rules[j];
    assert forall j :: 0 <= j < |later| ==> changed[i + 1 + j] == later[j];
    ResolveFirstHostMatch(groups, rules, username, action, hostname, re, i);
    ResolveFirstHostMatch(groups, changed, username, action, hostname, re, i);
  }

  /** There is no answer exactly when no rule's hosts match (and none fails). */
  lemma {:induction false} ResolveNoRuleIff(groups: Option<Groups>, rules: seq<Rule>, username: Option<string>,
                                            action: Action, hostname: string, re: Matcher)
    requires WellFormedHosts(rules)
    ensures Resolve(groups, rules, username, action, hostname, re) == Ok(None) <==>
      forall j :: 0 <= j < |rules| ==> HostMatch(hostname, rules[j].hosts, re) == Ok(false)
    decreases |rules|
  {
    if rules != [] {
      assert forall j :: 0 <= j < |rules| - 1 ==> rules[1..][j] == rules[j + 1];
      ResolveNoRuleIff(groups, rules[1..], username, action, hostname, re);
    }
  }

  /** An unsigned pattern in a rule reached before any host match aborts resolution with its error. */
  lemma {:induction false} ResolveFails(groups: Option<Groups>, rules: seq<Rule>, username: Option<string>,
                                        action: Action, hostname: string, re: Matcher, i: nat)
    requires WellFormedHosts(rules)
    requires i < |rules| && HostMatch(hostname, rules[i].hosts, re).Err?
    requires forall j :: 0 <= j < i ==> HostMatch(hostname, rules[j].hosts, re) == Ok(false)
    ensures Resolve(groups, rules, username, action, hostname, re) == Err(HostMatch(hostname, rules[i].hosts, re).error)
    decreases i
  {
    if i > 0 {
      assert forall j :: 0 <= j < |rules| - 1 ==> rules[1..][j] == rules[j + 1];
      ResolveFails(groups, rules[1..], username, action, hostname, re, i - 1);
    }
  }

  /** Every answer comes from one rule, the first whose hosts match, and is never empty. */
  lemma {:induction false} ResolveAnswerFromOneRule(groups: Option<Groups>, rules: seq<Rule>, username: Option<string>,
                                                    action: Action, hostname: string, re: Matcher)
    requires WellFormedHosts(rules)
    requires Resolve(groups, rules, username, action, hostname, re).Ok?
    requires Resolve(groups, rules, username, action, hostname, re).value.Some?
    ensures |Resolve(groups, rules, username, action, hostname, re).value.value| > 0
    ensures exists i ::
      && 0 <= i < |rules| && HostMatch(hostname, rules[i].hosts, re) == Ok(true)
      && (forall j :: 0 <= j < i ==> HostMatch(hostname, rules[j].hosts, re) == Ok(false))
      && WithinRule(groups, rules[i], username, action) == Ok(Resolve(groups, rules, username, action, hostname, re).value.value)
    decreases |rules|
  {
    assert forall j :: 0 <= j < |rules| - 1 ==> rules[1..][j] == rules[j + 1];
    if HostMatch(hostname, rules[0].hosts, re) == Ok(false) {
      ResolveAnswerFromOneRule(groups, rules[1..], username, action, hostname, re);
      var i :| 0 <= i < |rules[1..]| && HostMatch(hostname, rules[1..][i].hosts, re) == Ok(true) &&
        (forall j :: 0 <= j < i ==> HostMatch(hostname, rules[1..][j].hosts, re) == Ok(false)) &&
        WithinRule(groups, rules[1..][i], username, action) == Ok(Resolve(groups, rules[1..], username, action, hostname, re).value.value);
      assert rules[i + 1] == rules[1..][i];
    }
  }

  /** When the first host-matching rule has no policies, its default is the answer,
      whether or not any groups are set. */
  lemma ResolveWithoutPolicies(groups: Option<Groups>, rules: seq<Rule>, username: Option<string>,
                               action: Action, hostname: string, re: Matcher, i: nat)
    requires WellFormedHosts(rules)
    requires i < |rules| && HostMatch(hostname, rules[i].hosts, re) == Ok(true)
    requires forall j :: 0 <= j < i ==> HostMatch(hostname, rules[j].hosts, re) == Ok(false)
    requires rules[i].policies.None?
    ensures Resolve(groups, rules, username, action, hostname, re) == Ok(Some([rules[i].default]))
  {
    ResolveFirstHostMatch(groups, rules, username, action, hostname, re, i);
  }

  /** When no policy of the first host-matching rule admits the caller, its default is the answer. */
  lemma ResolveNoPolicyAdmits(groups: Option<Groups>, rules: seq<Rule>, username: Option<string>,
                              action: Action, hostname: string, re: Matcher, i: nat)
    requires WellFormedHosts(rules)
    requires i < |rules| && HostMatch(hostname, rules[i].hosts, re) == Ok(true)
    requires forall j :: 0 <= j < i ==> HostMatch(hostname, rules[j].hosts, re) == Ok(false)
    requires groups.Some? && rules[i].policies.Some?
    requires forall j :: 0 <= j < |rules[i].policies.value| ==> !PolicyAdmits(groups.value, username, rules[i].policies.value[j])
    ensures Resolve(groups, rules, username, action, hostname, re) == Ok(Some([rules[i].default]))
  {
    ResolveFirstHostMatch(groups, rules, username, action, hostname, re, i);
  }

  /** When the first admitting policy has no tier for the action, or an empty one,
      the rule's default is the answer; no later policy or rule is tried. */
  lemma ResolveNoMatchingTier(groups: Option<Groups>, rules: seq<Rule>, username: Option<string>,
                              action: Action, hostname: string, re: Matcher, i: nat, k: nat)
    requires WellFormedHosts(rules)
    requires i < |rules| && HostMatch(hostname, rules[i].hosts, re) == Ok(true)
    requires forall j :: 0 <= j < i ==> HostMatch(hostname, rules[j].hosts, re) == Ok(false)
    requires groups.Some? && rules[i].policies.Some? && k < |rules[i].policies.value|
    requires PolicyAdmits(groups.value, username, rules[i].policies.value[k])
    requires forall j :: 0 <= j < k ==> !PolicyAdmits(groups.value, username, rules[i].policies.value[j])
    requires var tier := ChosenTier(action, rules[i].policies.value[k].rules);
      tier.None? || |rules[i].policies.value[k].rules[tier.value]| == 0
    ensures Resolve(groups, rules, username, action, hostname, re) == Ok(Some([rules[i].default]))
  {
    ResolveFirstHostMatch(groups, rules, username, action, hostname, re, i);
    PolicyByMemberFirst(groups.value, username, rules[i].policies.value, k);
  }

  /** End to end: when the first host-matching rule has policies, a policy admits the
      caller and its chosen tier is non-empty, the answer is that tier's checks. */
  lemma ResolveSelectsTier(groups: Option<Groups>, rules: seq<Rule>, username: Option<string>,
                           action: Action, hostname: string, re: Matcher, i: nat, k: nat)
    requires WellFormedHosts(rules)
    requires i < |rules| && HostMatch(hostname, rules[i].hosts, re) == Ok(true)
    requires forall j :: 0 <= j < i ==> HostMatch(hostname, rules[j].hosts, re) == Ok(false)
    requires groups.Some? && rules[i].policies.Some? && k < |rules[i].policies.value|
    requires PolicyAdmits(groups.value, username, rules[i].policies.value[k])
    requires forall j :: 0 <= j < k ==> !PolicyAdmits(groups.value, username, rules[i].policies.value[j])
    requires |MatchedChecks(action, rules[i].policies.value[k].rules)| > 0
    ensures Resolve(groups, rules, username, action, hostname, re) ==
            Ok(Some(MatchedChecks(action, rules[i].policies.value[k].rules)))
  {
    ResolveFirstHostMatch(groups, rules, username, action, hostname, re, i);
    PolicyByMemberFirst(groups.value, username, rules[i].policies.value, k);
  }

  /** With no groups set, the first host-matching rule with policies raises as soon as
      one of its policies lists a member group, and falls back to its default otherwise. */
  lemma ResolveGroupsUnset(rules: seq<Rule>, username: Option<string>,
                           action: Action, hostname: string, re: Matcher, i: nat)
    requires WellFormedHosts(rules)
    requires i < |rules| && HostMatch(hostname, rules[i].hosts, re) == Ok(true)
    requires forall j :: 0 <= j < i ==> HostMatch(hostname, rules[j].hosts, re) == Ok(false)
    requires rules[i].policies.Some?
    ensures (exists k :: 0 <= k < |rules[i].policies.value| && |rules[i].policies.value[k].members| > 0) ==>
      Resolve(None, rules, username, action, hostname, re) == Err(GroupsUnset)
    ensures (forall k :: 0 <= k < |rules[i].policies.value| ==> |rules[i].policies.value[k].members| == 0) ==>
      Resolve(None, rules, username, action, hostname, re) == Ok(Some([rules[i].default]))
  {
    ResolveFirstHostMatch(None, rules, username, action, hostname, re, i);
  }

  // ---------------------------------------------------------------------------
  // Groups update

  /** Merging the same groups twice changes nothing the second time. */
  lemma MergeGroupsIdempotent(current: Option<Groups>, incoming: Option<Groups>)
    ensures MergeGroups(MergeGroups(current, incoming), incoming) == MergeGroups(current, incoming)
  {
    if incoming.Some? && |incoming.value| > 0 {
      var once := MergeGroups(current, incoming).value;
      assert |once| > 0 by {
        var k :| k in incoming.value;
        assert k in once;
      }
      assert once + incoming.value == once;
    }
  }
}
