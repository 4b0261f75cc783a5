# docker-leash policy resolution, modelled in Dafny

docker-leash is an authorization plugin that sits in front of the Docker API.
For each request it picks the ordered list of checks that must pass. This
project models the class `Config` of `docker_leash/config.py`, which stores the
groups and the ordered top-level rules and makes that choice:

- **host matching** (`_match_host`): a list of `+regex` / `-regex` patterns read
  left to right. A pattern that matches sets the state to allowed (`+`) or denied
  (`-`), so the last pattern that matches wins. A pattern with no sign raises
  `ConfigurationException`.
- **policy selection** (`_get_policy_by_member`): the rules of the first policy
  with a member group that admits the caller. A group admits the caller by name,
  through `"*"`, or through `"Anonymous"` when the caller has no identity.
- **action tiers** (`_match_rules`): the checks come from the exact action name,
  else from its namespace, else from `"any"`. Exactly one tier is used.
- **the cascade** (`get_rules`): only the first rule whose hosts match is used.
  That rule's default is returned whenever an inner stage finds nothing.
- **`update`**: new groups are merged into the stored ones; a new rule list
  replaces the stored one.

Files:

- `wrappers.dfy`: `Option` and `Result`.
- `action_mapper.dfy`: the `Action` record and the resolver interface.
- `payload.dfy`: the request fields the engine reads.
- `checks_list.dfy`: the append-only `Checks` list.
- `config.dfy` (module `LeashConfig`): the data model, the specification
  functions, and the class `Config` with the loops of the source.
- `config_properties.dfy` (module `ConfigProperties`): lemmas about the
  specification.

Each method of `Config` is proved equal to a specification function.
`MatchHost` equals `HostMatch`, `MatchRules` equals `MatchedChecks`,
`GetRules` equals `Resolve`, and `Update` equals `MergeGroups` plus the
replacement of the rules. The lemmas about host matching, policy selection
and the cascade state the promised behaviour with quantifiers over indices:
"the last matching pattern", "the first admitting policy", "the first rule
whose hosts match". The lemmas about the action tiers state the tier order
and that changing an unused tier has no effect.

Groups may be unset: `update` stores them only when a non-empty mapping is
given (docker_leash/config.py:53). `get_rules` reads the groups only when it
tests a member group (docker_leash/config.py:147). The model therefore
resolves requests with unset groups too. A rule without policies, or whose
policies list no member groups, falls back to its default. The first
member-group test while no groups are set raises a `TypeError`, which the
model returns as the error `GroupsUnset`.

Collaborators the model does not contain are parameters:

- `re.match(pattern, hostname)` is a function `re: (string, string) -> bool`.
- The action catalog `Action(method=..., query=...)` is a function
  `resolve: (string, string) -> Action`.

The model follows the code where its comments disagree. The docstring of
`_match_rules` (docker_leash/config.py:158-159) gives the order exact name,
`"any"`, parent. The code (docker_leash/config.py:172-184) tries the namespace
before `"any"`, and the model does the same.

## Model

| member | source | states |
|---|---|---|
| `LeashConfig.Config.MatchHost` | docker_leash/config.py:102-129 | The loop's result is the left-to-right scan of the patterns starting from "not matched", or the error for the first unsigned pattern. |
| `ConfigProperties.HostMatchLastMatchWins` | docker_leash/config.py:112-129 | When every pattern is signed, the result is the sign of the last pattern whose regex matched the host name, and false when none matched. |
| `ConfigProperties.HostMatchUnsignedFails` | docker_leash/config.py:113-128 | An unsigned pattern at any position makes host matching raise, whatever matched before it. The error names the first unsigned pattern. |
| `ConfigProperties.HostMatchFailsIff` | docker_leash/config.py:113-128 | Host matching raises exactly when some pattern is unsigned. |
| `LeashConfig.PolicyByMember` | docker_leash/config.py:131-152 | The result is `None` exactly when no policy has a known member group that admits the caller. Otherwise it is the rules of the first policy, in list order, that has one. |
| `LeashConfig.SelectPolicy` | docker_leash/config.py:144-152 | With groups set, the selection is that of `PolicyByMember`. With no groups set, it raises exactly when some policy lists a member group, and otherwise finds no policy. |
| `ConfigProperties.PolicyByMemberFirst` | docker_leash/config.py:144-152 | If policy i is the first that admits the caller, its rules are returned, whatever the later policies say. |
| `ConfigProperties.AdmitsWildcardAndAnonymous` | docker_leash/config.py:147-150 | A group with `"*"` admits everyone. A caller with no identity is admitted only through `"*"` or `"Anonymous"`. A named caller is admitted only through its name or `"*"`. |
| `LeashConfig.ChosenTier` | docker_leash/config.py:168-184 | The chosen tier is always a key of the action rules. There is no tier exactly when the action name, its namespace and `"any"` are all missing. |
| `LeashConfig.Config.MatchRules` | docker_leash/config.py:154-186 | Returns a fresh check list whose entries are the chosen tier's checks, one entry per check. |
| `ConfigProperties.MatchedChecksTiers` | docker_leash/config.py:171-186 | The exact name is tried first, then the namespace, then `"any"`. With none of the three present the result is empty. |
| `ConfigProperties.ExactTierShadows` | docker_leash/config.py:172-174 | Tiers are not merged. Once the exact name is a key, changing or adding any other tier leaves the result unchanged. |
| `ConfigProperties.NamespaceTierShadows` | docker_leash/config.py:177-184 | When the namespace tier is used, changing the `"any"` tier or any tier other than the exact name has no effect. |
| `ConfigProperties.MatchedChecksEmptyIff` | docker_leash/config.py:167-186 | The result is empty exactly when no tier key is present or the chosen tier is empty. |
| `LeashConfig.Config.DefaultRule` | docker_leash/config.py:90-100 | Returns a fresh check list that holds exactly one entry, the rule's default. |
| `LeashConfig.WithinRule` | docker_leash/config.py:77-88 | The checks chosen within a selected rule are never empty. The only error is `GroupsUnset`, and it arises only when no groups are set. |
| `LeashConfig.Config.GetRules` | docker_leash/config.py:62-88 | The loop over the rules returns what `Resolve` specifies, whether or not groups are set: an error, no answer, or a fresh check list with the specified entries. |
| `ConfigProperties.ResolveFirstHostMatch` | docker_leash/config.py:73-88 | If rule i is the first whose hosts match, the answer is that rule's resolution, or the error that resolution raises. |
| `ConfigProperties.ResolveIgnoresLaterRules` | docker_leash/config.py:73-88 | Replacing every rule after the first host match, by anything, does not change the answer, even when that rule falls back to its default. |
| `ConfigProperties.ResolveNoRuleIff` | docker_leash/config.py:73-88 | There is no answer (`None`) exactly when no rule's hosts match. |
| `ConfigProperties.ResolveFails` | docker_leash/config.py:73-75 | If an unsigned pattern sits in a rule before any host match, resolution raises that rule's error. |
| `ConfigProperties.ResolveAnswerFromOneRule` | docker_leash/config.py:73-88 | Every answer is non-empty and is the resolution of the first rule whose hosts match. |
| `ConfigProperties.ResolveSelectsTier` | docker_leash/config.py:73-88 | Suppose the first host-matching rule has policies, policy k is the first to admit the caller, and its chosen tier is non-empty. Then the answer is that tier's checks. |
| `ConfigProperties.ResolveWithoutPolicies` | docker_leash/config.py:73-78 | If the first host-matching rule has no policies, the answer is its default alone, whether or not groups are set. |
| `ConfigProperties.ResolveNoPolicyAdmits` | docker_leash/config.py:80-82 | If no policy of the first host-matching rule admits the caller, the answer is that rule's default alone. |
| `ConfigProperties.ResolveNoMatchingTier` | docker_leash/config.py:84-86 | Suppose policy k is the first to admit the caller, and it has no tier for the action or an empty one. Then the answer is the rule's default alone. |
| `ConfigProperties.ResolveGroupsUnset` | docker_leash/config.py:144-150 | With no groups set, the first host-matching rule with policies raises when one of its policies lists a member group. Otherwise the answer is its default. |
| `LeashConfig.MergeGroups` | docker_leash/config.py:53-57 | When the incoming groups are non-empty, every incoming key takes its new value. Keys that are not incoming keep their old value, and no other key appears. Missing or empty incoming groups leave the groups unchanged, and groups not yet set are simply replaced. |
| `LeashConfig.Config.Update` | docker_leash/config.py:45-60 | The new groups are the merge of the old groups and the argument. The rules are replaced when a non-empty list is given and are otherwise left unchanged. |
| `LeashConfig.Config.constructor` | docker_leash/config.py:42-43 | Starts from no groups and no rules and applies `update` to the arguments. |
| `ConfigProperties.MergeGroupsIdempotent` | docker_leash/config.py:53-57 | Merging the same groups a second time changes nothing. |

## Left out

- `LeashConfig.Config.GetRules`: requires that the rules have been set. In the source, iterating a `None` rule list raises a Python `TypeError`, and that runtime failure is not modelled.
- `LeashConfig.Config.MatchHost`: requires every host pattern to be non-empty. In the source, an empty pattern fails on `hosts_reg[0]` with an `IndexError`, and that runtime failure is not modelled. `Resolve` and `GetRules` require the same of every rule's patterns.
- Regular-expression semantics: `re.match` is an uninterpreted parameter, because the regex engine is a foreign library.
- The action catalog (`docker_leash/action_mapper.py`) is not part of this model. An action is a name and a namespace name given by a resolver parameter.
- `docker_leash/checks_list.py` is not part of this model. `Checks` is an append-only list of entries that map check names to arguments. Anything `add` might do to normalise a bare default value is not captured. The rule's default is taken to be one entry, and a check list counts as empty (`not rules`) when it has no entries.
- Check arguments are an abstract type, because the engine never reads them.
- Python version: `iteritems()` (docker_leash/config.py:173, 178, 183) exists only in Python 2. Under Python 3, every tier hit would raise `AttributeError`. The model assumes Python 2 dictionary semantics.
- Mapping order: `iteritems()` yields a tier's checks in an order the source leaves to the dictionary. The model takes a tier as an explicit ordered list of (check, args) pairs.
- `Update`: Python's `dict.update` changes the stored groups dictionary in place. That dictionary may be the caller's object, so the change can show through aliasing. The model stores groups as a value.
- The `assert isinstance(action, Action)` in `_match_rules` is not modelled, because the types rule it out.
- Concurrency, atomic replacement on reload, loading configuration from files, and running the check plugins are not part of `config.py`.
- The container-name check plugin (`docker_leash/checks/container_name.py`) is not part of this model. Its tests in `tests/checks/test_container_name.py` exercise a file whose source is not available.
