# Strix identity core: model and proofs

Strix is an S3-compatible object server. This project models the part of it that decides who may do
what: the policy engine, the identity store with its cascading deletes and temporary credentials, the
request check that composes them, the two login limiters, single sign-on, the stored secrets, webhook
delivery and tenant slugs. Everything is proved with Dafny 4.11: `dafny verify dfyconfig.toml`.

Where the source changes things step by step, the model does too: a class with the source's tables or
maps as fields (`IamStore`, `Limiter`, `RateLimiter`, `OidcState`, `ConfigStore`, `Worker`), or a
method with the source's loops over a table (`MatchesWildcard`, `Evaluate`, `DeliverWebhook`,
`MakeSlug`). Each such method is tied to a specification function, and the results below are about
those functions over all inputs, all runs or all reachable states. Random identifiers, clock readings,
HTTP answers and digests are arguments.

| file | part of the system |
|---|---|
| `Wildcard.dfy` | pattern meaning, table-filling matcher, subsumption |
| `Policy.dfy`, `ActionNames.dfy` | statements, matching, deny-overrides evaluation, bucket policies; operation names |
| `Arn.dfy`, `Cidr.dfy` | resource names, address ranges |
| `IamTables.dfy`, `IamStore.dfy` | tables, provider calls, the two authorization checks |
| `IamInvariant.dfy`, `IamProvenance.dfy`, `IamOutcomes.dfy` | what every call keeps; which rows every run leaves and how every call is answered |
| `Requests.dfy`, `Decisions.dfy` | authentication, request check, monotonicity, documented rule |
| `LoginLimiter.dfy`, `MemoryLimiter.dfy` | persistent and in-memory limiter |
| `OidcFlow.dfy` | single sign-on flows |
| `Timestamps.dfy` | text order of stored instants |
| `ConfigSecrets.dfy`, `Dispatcher.dfy`, `Tenant.dfy` | write-only secrets, webhooks, slugs |

## Where the code and its documentation differ

The model follows the code.

- `docs/guides/iam-policies.md:381` and `docs/internals/architecture.md:223-231` say that a denial in
  either the identity policies or the bucket policy refuses the request. The code accepts as soon as one
  side allows without a denial of its own. `DenialIsOverruled` gives an input, `DocumentedRuleIff` the exact
  condition under which the code meets the documented rule.
- The comment at `crates/strix-iam/src/store.rs:2032` says cleanup keeps rows with recent attempts; the
  query looks at the lockout alone. `CleanupInvisibleIff` shows that this is unobservable exactly when
  the lockout is at least as long as the window, as in the defaults.
- The S3 request limiter is configured with a 60 second window and a 30 second lockout
  (`strix/src/main.rs:655-661`), outside the conditions of `PruningInvisibleIff` and `LimitBoundIff`. No effect
  shows there as things stand: its middleware (`strix/src/main.rs:83-110`) asks and never records a failure,
  so that limiter holds no entries and limits nobody, although its comment announces a limit on requests.
- A failure recorded after the window and inside the lockout restarts the in-memory count and thereby lifts the
  lockout (`crates/strix-admin/src/auth.rs:160-175`); `StaysLimitedIff` says exactly when that happens.
- A limit of 0 or 1 attempts does not lock at the first failure, because the first failure only inserts a
  row; hence `Threshold`, which is 2 in that case. A limit of 2^31 or more turns negative in the signed cast and behaves
  like one below two (`FreshKeyLocks`).

## Model

| member | source | states |
|---|---|---|
| `Wildcard.MatchesWildcard` | crates/strix-iam/src/policy.rs:247-283 | the table-filling loop answers true exactly when the value can be cut into pieces, one per pattern character, each fitting its character |
| `Wildcard.ConcatDenotes` | crates/strix-iam/src/policy.rs:244-246 | texts of two patterns concatenate to a text of the concatenated pattern |
| `Wildcard.SplitDenotes` | crates/strix-iam/src/policy.rs:244-246 | every text of a concatenated pattern splits into a text of each part |
| `Wildcard.CellStep` | crates/strix-iam/src/policy.rs:270-280 | the recurrence filled in by the inner loop is the meaning of the cell |
| `Wildcard.LiteralDenotes` | crates/strix-iam/src/policy.rs:275-278 | a pattern without wildcards denotes itself and nothing else |
| `Wildcard.Subsumption` | crates/strix-iam/src/policy.rs:247-283 | a `?`-free pattern that matches another pattern's text matches everything that pattern matches |
| `Wildcard.SubsumptionExact` | crates/strix-iam/src/policy.rs:247-283 | this test for coverage is sound for exactly the patterns without `?` |
| `Policies.MatchesAction` | crates/strix-iam/src/policy.rs:78-89 | the loop with its two shortcuts answers whether some action pattern denotes the action's text |
| `Policies.MatchesResource` | crates/strix-iam/src/policy.rs:91-102 | likewise for resource patterns |
| `Policies.MatchesStatement` | crates/strix-iam/src/policy.rs:74-76 | a statement applies when both its actions and its resources match |
| `Policies.PrincipalMatches` | crates/strix-iam/src/policy.rs:746-775 | the principal loop answers whether some entry names the caller by wildcard, name, user suffix or pattern |
| `Policies.PrincipalMeaning` | crates/strix-iam/src/policy.rs:746-775 | an ARN caller is named by exactly the patterns that denote it, an anonymous one by `*` alone |
| `Policies.MatchesBucketStatement` | crates/strix-iam/src/policy.rs:726-744 | a bucket statement applies when principal, action, resource and condition all do |
| `Policies.Evaluate` | crates/strix-iam/src/policy.rs:42-55 | the loop with early exit computes the deny-overrides verdict of the whole statement list |
| `Policies.VerdictMeaning` | crates/strix-iam/src/policy.rs:42-55 | Deny exactly if an applying statement denies; Allow exactly if one allows and none denies; order and repetition are irrelevant |
| `Policies.EvaluateBucket` | crates/strix-iam/src/policy.rs:674-693 | the bucket loop computes the deny-overrides verdict |
| `Policies.BucketVerdictMeaning` | crates/strix-iam/src/policy.rs:674-693 | the same meaning for bucket statements |
| `Policies.MergedVerdict` | crates/strix-iam/src/store.rs:962-982 | evaluating policies one by one equals evaluating one merged statement list |
| `Policies.AdminAllows` | crates/strix-iam/src/policy.rs:328-338 | the administrator policy allows every action on every resource |
| `Policies.FallbackActionCoversAll` | crates/strix-s3/src/service.rs:255 | a statement with a `?`-free pattern for the fallback action applies to every action, whatever its other patterns |
| `Policies.FallbackResourceCoversAll` | crates/strix-iam/src/policy.rs:234-242 | a statement with a `?`-free pattern for all buckets applies to every resource, whatever its other patterns |
| `Policies.QuestionMarkIsNoCover` | crates/strix-iam/src/policy.rs:174-199 | `s3:?` applies to the fallback action and to no named action |
| `ActionNames.OperationNames` | crates/strix-iam/src/policy.rs:146-170 | an operation is checked as the action of its name, but for six aliases; every other text is unknown |
| `ActionNames.CheckedActionExact` | crates/strix-s3/src/service.rs:255 | operations that no action answers to are checked as all actions |
| `ActionNames.ActionNamesDiffer` | crates/strix-iam/src/policy.rs:174-199 | no two actions are printed alike |
| `Arns.SplitThenJoin` | crates/strix-iam/src/policy.rs:304 | rejoining the split parts gives the text back, and all parts but the last are colon-free |
| `Arns.JoinThenSplit` | crates/strix-iam/src/policy.rs:304 | splitting joined colon-free parts gives the parts back |
| `Arns.ParseExact` | crates/strix-iam/src/policy.rs:299-316 | parsing yields a name exactly on that name's printed form with colon-free header components |
| `Arns.ResourceParses` | crates/strix-iam/src/policy.rs:234-242 | every printed resource parses back with its colons kept |
| `Arns.MatchesArn` | crates/strix-iam/src/policy.rs:319-325 | the five comparisons decide the component-wise match |
| `Arns.ComponentsImplyText` | crates/strix-iam/src/policy.rs:319-325 | a component-wise match implies a whole-text match |
| `Arns.TextIsLooser` | crates/strix-iam/src/policy.rs:319-325 | the converse fails when `*` crosses a colon |
| `Arns.PlainHeaderAgrees` | crates/strix-iam/src/policy.rs:319-325 | with a wildcard-free header the two ways of matching agree |
| `Cidr.MaskValue` | crates/strix-iam/src/policy.rs:593-597 | the shifted all-ones word is `2^w - 2^(w-p)` |
| `Cidr.AndWithMask` | crates/strix-iam/src/policy.rs:600 | masking keeps the quotient by the block size |
| `Cidr.NetworkIsQuotient` | crates/strix-iam/src/policy.rs:588-616 | an address is in `net/p` exactly when both have the same quotient by `2^(w-p)`, for every width |
| `Cidr.NetworkIsBlock` | crates/strix-iam/src/policy.rs:588-616 | the matched set is one aligned block of `2^(w-p)` consecutive addresses |
| `Cidr.NestedOrDisjoint` | crates/strix-iam/src/policy.rs:588-616 | all addresses of a longer prefix agree on membership in a shorter one |
| `Cidr.CidrMeaning` | crates/strix-iam/src/policy.rs:588-616 | families never mix and over-long prefixes match nothing (section 3.1 of RFC 4632, section 2.3 of RFC 4291) |
| `IamStores.IamStore.constructor` | crates/strix-iam/src/store.rs:27-64 | a new store is empty and satisfies the invariant |
| `IamStores.IamStore.CreateUser` | crates/strix-iam/src/store.rs:340-372 | new tables and outcome, root names and existing names refused |
| `IamStores.IamStore.DeleteUser` | crates/strix-iam/src/store.rs:374-397 | the user row and all rows that refer to it go; root refused, missing reported |
| `IamStores.IamStore.UpdateUserStatus` | crates/strix-iam/src/store.rs:513-538 | new tables and outcome |
| `IamStores.IamStore.CreateAccessKey` | crates/strix-iam/src/store.rs:540-588 | new tables and outcome, with the cap of two and the primary key |
| `IamStores.IamStore.DeleteAccessKey` | crates/strix-iam/src/store.rs:590-614 | new tables and outcome |
| `IamStores.IamStore.UpdateAccessKeyStatus` | crates/strix-iam/src/store.rs:718-747 | new tables and outcome |
| `IamStores.IamStore.AttachUserPolicy` | crates/strix-iam/src/store.rs:878-902 | inserts or replaces under the policy's name; nothing is stored for root |
| `IamStores.IamStore.DetachUserPolicy` | crates/strix-iam/src/store.rs:904-925 | new tables and outcome |
| `IamStores.IamStore.CreateGroup` | crates/strix-iam/src/store.rs:1163-1189 | new tables and outcome |
| `IamStores.IamStore.DeleteGroup` | crates/strix-iam/src/store.rs:1191-1208 | the group, its memberships and its policies go |
| `IamStores.IamStore.AddUserToGroup` | crates/strix-iam/src/store.rs:1325-1345 | new tables and outcome; a root name breaks the foreign key |
| `IamStores.IamStore.RemoveUserFromGroup` | crates/strix-iam/src/store.rs:1347-1362 | new tables; succeeds whether or not there was a row |
| `IamStores.IamStore.AttachGroupPolicy` | crates/strix-iam/src/store.rs:1364-1384 | new tables and outcome |
| `IamStores.IamStore.DetachGroupPolicy` | crates/strix-iam/src/store.rs:1386-1407 | new tables and outcome |
| `IamStores.IamStore.SetBucketPolicy` | crates/strix-iam/src/store.rs:1073-1091 | new tables |
| `IamStores.IamStore.DeleteBucketPolicy` | crates/strix-iam/src/store.rs:1121-1144 | new tables and outcome |
| `IamStores.IamStore.AssumeRole` | crates/strix-iam/src/store.rs:1604-1665 | new tables and outcome, with clamped expiry, active user and unique key and token hash |
| `IamTables.SessionLength` | crates/strix-iam/src/store.rs:1624-1625 | a session lasts the length closest to the one asked for between 900 and 43200 seconds, 3600 if none is named |
| `IamStores.RowsOf` | crates/strix-iam/src/store.rs:927-949 | a listing has each row of the owner exactly once, in any order |
| `IamStores.IamStore.ListUserPolicies` | crates/strix-iam/src/store.rs:927-949 | exactly the policies attached to the user; the administrator policy for root |
| `IamStores.IamStore.ListGroupPolicies` | crates/strix-iam/src/store.rs:1409-1429 | exactly the policies attached to the group |
| `IamStores.IamStore.ListUserGroups` | crates/strix-iam/src/store.rs:1431-1485 | exactly the groups the user is a member of |
| `IamStores.IamStore.CollectPolicies` | crates/strix-iam/src/store.rs:962-970 | exactly the policies that speak for the user directly or through a group |
| `IamStores.IamStore.IsAuthorized` | crates/strix-iam/src/store.rs:951-983 | the one-pass check decides: root, or some policy allows and none denies, for every listing order |
| `IamStores.IamStore.FindPolicy` | crates/strix-iam/src/store.rs:1003-1064 | one pass of the simulator finds an attached policy with the wanted verdict or proves there is none |
| `IamStores.IamStore.IsAuthorizedDetailed` | crates/strix-iam/src/store.rs:985-1071 | the simulator's effect, policy name and source are all true of the tables |
| `IamStores.FormsAgree` | crates/strix-iam/src/store.rs:951-1071 | every explained simulator answer equals the boolean check |
| `IamStores.CitedRow` | crates/strix-iam/src/store.rs:1003-1064 | in valid states the cited name is the key of the attached row |
| `IamStores.IamStore.BucketPolicyEffect` | crates/strix-iam/src/store.rs:1146-1159 | the verdict of the bucket's policy, or none without a policy |
| `IamInvariant.StepKeepsCap` | crates/strix-iam/src/store.rs:549-552 | no call leaves a user with more than two keys |
| `IamInvariant.StepKeepsInv` | crates/strix-iam/src/store.rs:118-281 | every call keeps root names out of the users, all references intact, policies under their names, token hashes unique and the cap |
| `IamInvariant.ReachableInv` | crates/strix-iam/src/store.rs:118-281 | the invariant holds after every run of calls |
| `IamProvenance.StepExact` | crates/strix-iam/src/store.rs:340-1806 | after any call the tables hold exactly the row it issued and the earlier rows it did not revoke |
| `IamProvenance.Provenance` | crates/strix-iam/src/store.rs:340-1806 | every account, key, policy, membership and session traces back to the call that issued it, not revoked and no owner deleted since |
| `IamProvenance.HoldsExactly` | crates/strix-iam/src/store.rs:340-1806 | the rows of all tables after any run, bucket policies and key statuses included, are exactly those issued and not revoked since |
| `IamOutcomes.AnswerExact` | crates/strix-iam/src/store.rs:340-1665 | after any run each call is carried out exactly if the earlier calls left what it refers to and not what it adds, and is otherwise refused for the first reason that applies; opening a session takes an active user |
| `IamProvenance.SpeaksForTraces` | crates/strix-iam/src/store.rs:962-970 | a policy speaks for a user exactly if its attachment, and the membership it comes through, was issued and not revoked since |
| `IamProvenance.AuthorityTraces` | crates/strix-iam/src/store.rs:951-983 | told by the calls alone: a non-root user is authorized exactly if some policy that traces to it allows and none that traces to it denies |
| `IamProvenance.NewUserHasNothing` | crates/strix-iam/src/store.rs:340-397 | after any run, a user just created holds no key, policy, membership or session and is allowed nothing |
| `IamProvenance.GrantsPostdateUser` | crates/strix-iam/src/store.rs:340-397 | whatever a recreated user holds was issued after its latest creation |
| `Requests.OnlyRootKeyIsRoot` | crates/strix-s3/src/service.rs:118-170 | in reachable states the root key and no other is taken for root |
| `Requests.SecretExact` | crates/strix-s3/src/iam_auth.rs:39-128 | told by the calls alone: a key authenticates with a secret exactly if it is the root key with the root secret, a temporary key with the secret of a live session of an active user, or an active key with the secret issued with it to an active user |
| `Requests.RefusalExact` | crates/strix-s3/src/iam_auth.rs:93-128 | a refused key is reported as expired exactly if its session ends between the two clock readings, else as unknown |
| `Requests.UsernameExact` | crates/strix-s3/src/service.rs:118-170 | told by the calls alone: who a request with a given key is charged to |
| `Requests.TokenAccepted` | crates/strix-iam/src/store.rs:1776-1806 | the token a live session was opened with is accepted for its key, and no other |
| `Requests.RequestRule` | crates/strix-s3/src/service.rs:223-332 | told by the calls alone: a temporary key needs the token of its live session, and then the root key passes, or the user the key is charged to must be let through by the policies |
| `Requests.RequestRefusal` | crates/strix-s3/src/service.rs:223-332 | which refused requests are malformed and which are denied |
| `Requests.OpenedByActive` | crates/strix-iam/src/store.rs:1604-1612 | only a user active at the time opens a session |
| `Requests.WithoutStore` | crates/strix-s3/src/service.rs:131-134 | without an identity store only the root key is served |
| `Requests.SessionTraces` | crates/strix-s3/src/service.rs:174-234 | a passing temporary-key request was opened by a role assumption with this key and token for this user, within its clamped 900 to 43200 seconds, user not deleted since |
| `Requests.TemporaryRequestTraces` | crates/strix-s3/src/iam_auth.rs:39-128 | if generated identifiers do not repeat, authentication and check trace back to one role assumption that also issued the signing secret to a then active user |
| `Requests.PermanentKeyTraces` | crates/strix-s3/src/iam_auth.rs:39-91 | a permanent-key request uses the secret issued with the key to a user not deleted since; key and user are active now |
| `Decisions.AuthorizedByStatements` | crates/strix-iam/src/store.rs:962-982 | only which statements are in force matters, not their grouping |
| `Decisions.AuthorizedIsMergedVerdict` | crates/strix-iam/src/store.rs:962-982 | the check is the verdict on any one list of the statements in force |
| `Decisions.DecisionMonotone` | crates/strix-s3/src/service.rs:223-332 | more allowing and fewer denying statements, in any source, never turn an accepted request away |
| `Decisions.AttachShifts` | crates/strix-iam/src/store.rs:878-902 | attaching an all-allow policy under a new name loosens, an all-deny policy tightens every decision |
| `Decisions.DecisionRule` | crates/strix-s3/src/service.rs:244-314 | accepted exactly when the identity statements or the bucket statements that name the user allow without a denial of their own; who is named is spelled out |
| `Decisions.BearsExact` | crates/strix-s3/src/service.rs:276-301 | a bucket statement bears on a request exactly if an entry names the user, patterns denote action and resource, and its condition holds of an empty context |
| `Decisions.NamedByBucket` | crates/strix-iam/src/policy.rs:746-775 | a bucket policy of one allowance lets in exactly the users its entry names by `*`, by name or by a `user/` suffix |
| `Decisions.DocumentedRuleIff` | docs/internals/architecture.md:214-245 | the code meets the documented rule exactly where no side overrules the other's denial, and is never stricter |
| `Decisions.DenialIsOverruled` | crates/strix-s3/src/service.rs:276-301 | in a reachable state, a user denied everything passes the request check for a bucket whose policy allows everybody |
| `LoginLimiter.Limiter.RecordLoginFailure` | crates/strix-iam/src/store.rs:1845-1944 | the new row and the report, other keys untouched |
| `LoginLimiter.Limiter.ClearLoginAttempts` | crates/strix-iam/src/store.rs:1947-1956 | only the key's row goes |
| `LoginLimiter.Limiter.IsRateLimited` | crates/strix-iam/src/store.rs:1959-2025 | the report for the key's row |
| `LoginLimiter.Limiter.CleanupRateLimits` | crates/strix-iam/src/store.rs:2028-2041 | exactly the rows with a past lockout go, and their number is returned |
| `LoginLimiter.KeysIndependent` | crates/strix-iam/src/store.rs:1862-1868 | a key's row depends on its own events and the cleanups alone |
| `LoginLimiter.FreshKeyLocks` | crates/strix-iam/src/store.rs:1845-2025 | failures at one instant on a fresh key: the configured limit's one is the first to lock; a limit below two, or negative after the cast, locks at the second and answers queries with locked from the first |
| `LoginLimiter.LockoutSound` | crates/strix-iam/src/store.rs:1901-1912 | in every run a lockout was set by at least the configured number of failures within one window, two for improper limits |
| `LoginLimiter.LockoutExact` | crates/strix-iam/src/store.rs:1959-2025 | the query says locked exactly from the locking failure until the lockout length later, whatever happens in between short of a clear |
| `LoginLimiter.LockoutExactIff` | crates/strix-iam/src/store.rs:2004-2010 | this holds for every run exactly when the configured limit lies in 2 to 2^31 - 1 and the lockout exceeds the window |
| `LoginLimiter.QuerySeconds` | crates/strix-iam/src/store.rs:1959-2025 | a query gives remaining seconds exactly while a lockout runs, and they are the whole seconds to its end |
| `LoginLimiter.RecordSeconds` | crates/strix-iam/src/store.rs:1845-1944 | a failure that reports locked gives the whole seconds to the lockout's end, any other none |
| `LoginLimiter.ClearForgets` | crates/strix-iam/src/store.rs:1947-1956 | after a clear a key fares as if nothing had come before |
| `LoginLimiter.LockoutBound` | crates/strix-iam/src/store.rs:1845-1944 | of `2 * limit - 2` failures within one window length at least one reports locked, from any row and across two fixed windows |
| `LoginLimiter.LockoutBoundRun` | crates/strix-iam/src/store.rs:1845-1944 | the same after any history with the exact bound, which for a window of zero seconds is the limit |
| `LoginLimiter.LockoutBoundTight` | crates/strix-iam/src/store.rs:1845-1944 | one failure fewer within one window length can pass without a lockout, for every setting |
| `LoginLimiter.CleanupInvisibleIff` | crates/strix-iam/src/store.rs:2028-2041 | cleanups anywhere in any run change no answer exactly when the lockout is at least the window |
| `MemoryLimiter.RateLimiter.CleanupIfNeeded` | crates/strix-admin/src/auth.rs:210-220 | prunes when due and leaves the rest alone |
| `MemoryLimiter.RateLimiter.IsLimited` | crates/strix-admin/src/auth.rs:140-157 | the answer is that of the entry before pruning |
| `MemoryLimiter.RateLimiter.RecordFailure` | crates/strix-admin/src/auth.rs:160-175 | the new entry, others untouched |
| `MemoryLimiter.RateLimiter.ClearAttempts` | crates/strix-admin/src/auth.rs:178-180 | only the address's entry goes |
| `MemoryLimiter.PruningInvisibleIff` | crates/strix-admin/src/auth.rs:140-220 | pruning changes no answer of any run exactly when the lockout exceeds the window or both limits are zero |
| `MemoryLimiter.LimitedSound` | crates/strix-admin/src/auth.rs:140-175 | a limited address had at least the limit's failures in one window that began less than a lockout ago |
| `MemoryLimiter.LimitBound` | crates/strix-admin/src/auth.rs:140-175 | after any history of the pruning limiter, of `2 * limit - 2` failures within one window length (the limit for a zero window, one for a limit below two) at least one leaves the address limited |
| `MemoryLimiter.LimitBoundTight` | crates/strix-admin/src/auth.rs:140-175 | one failure fewer within one window length can leave the address unlimited throughout, for every setting |
| `MemoryLimiter.LimitBoundIff` | crates/strix-admin/src/auth.rs:140-175 | this bound holds for every run exactly when the lockout exceeds the window |
| `MemoryLimiter.StaysLimitedIff` | crates/strix-admin/src/auth.rs:140-220 | a limited address stays limited until the lockout length after its first failure exactly when no failure comes after the window and before that end, or one failure is enough to limit |
| `MemoryLimiter.LockoutEnds` | crates/strix-admin/src/auth.rs:140-157 | from that end on an address left alone is not limited |
| `MemoryLimiter.ClearForgets` | crates/strix-admin/src/auth.rs:178-180 | after a clear an address fares as if nothing had come before |
| `MemoryLimiter.RemainingMeaning` | crates/strix-admin/src/auth.rs:183-193 | the remaining attempts are the failures at once that it takes to limit the address |
| `MemoryLimiter.LockoutRemainingMeaning` | crates/strix-admin/src/auth.rs:196-207 | remaining seconds are told exactly while limited and are the whole seconds to the end |
| `MemoryLimiter.PruningMeaning` | crates/strix-admin/src/auth.rs:210-220 | a question drops an entry exactly if the last pruning is over 300 seconds ago and the entry's lockout is over |
| `OidcFlow.OidcState.SweepExpired` | crates/strix-admin/src/oidc.rs:66-68 | exactly the expired flows go |
| `OidcFlow.OidcState.LoginOidc` | crates/strix-admin/src/oidc.rs:142-178 | a sweep and, for an available provider, a flow stored under its state |
| `OidcFlow.OidcState.AuthCallback` | crates/strix-admin/src/oidc.rs:192-286 | the result, and the flow is consumed whatever the outcome |
| `OidcFlow.MintedExactly` | crates/strix-admin/src/oidc.rs:192-286 | a session is minted exactly for an unused login start under 600 seconds old whose provider answers, carries its nonce and a user name whose account exists or is created, and whose token can be signed |
| `OidcFlow.SessionAgrees` | crates/strix-iam/src/oidc_client.rs:156-161 | each session has an earlier login start with its state and provider whose nonce the token carried (section 3.1.3.7 of OpenID Connect Core 1.0) |
| `OidcFlow.SessionsInjective` | crates/strix-admin/src/oidc.rs:208-211 | two sessions never share a login start (section 10.12 of RFC 6749) |
| `OidcFlow.SweepingInvisible` | crates/strix-admin/src/oidc.rs:66-68 | sweeping changes no callback's success |
| `OidcFlow.SweepMeaning` | crates/strix-admin/src/oidc.rs:66-68 | a sweep leaves exactly the flows younger than 600 seconds |
| `Timestamps.FractionOrder` | crates/strix-iam/src/store.rs:1672 | fractions of 0, 3, 6 or 9 digits followed by the offset sort as numbers |
| `Timestamps.TextFromOrder` | crates/strix-iam/src/store.rs:1790-1798 | the printed text sorts as its fields do |
| `Timestamps.TextOrderIsInstantOrder` | crates/strix-iam/src/store.rs:2029-2036 | comparing the texts equals comparing the instants for UTC and the years 0 to 9999, beyond the equal-digits case of section 5.1 of RFC 3339 |
| `Timestamps.DayNumberClosed` | crates/strix-iam/src/store.rs:1790-1798 | the day number is the Gregorian calendar's in closed form |
| `Timestamps.UnixEpoch` | crates/strix-iam/src/store.rs:1790-1798 | the Unix epoch lies 719528 days after the start of year 0, in nanoseconds |
| `Timestamps.TextReadsBack` | crates/strix-iam/src/store.rs:1672 | every field reads back from its place in the text (section 5.6 of RFC 3339) |
| `ConfigSecrets.ConfigStore.SetSmtpConfig` | crates/strix-iam/src/store.rs:2287-2363 | settings replaced, stored password kept unless a new one is supplied |
| `ConfigSecrets.ConfigStore.CreateOidcProvider` | crates/strix-iam/src/store.rs:2101-2142 | inserted unless the identifier exists |
| `ConfigSecrets.ConfigStore.UpdateOidcProvider` | crates/strix-iam/src/store.rs:2146-2211 | replaced, secret kept when none is supplied |
| `ConfigSecrets.ConfigStore.DeleteOidcProvider` | crates/strix-iam/src/store.rs:2214-2230 | removed, absence reported |
| `ConfigSecrets.ScopesRoundTripIff` | crates/strix-iam/src/store.rs:2366-2420 | scopes survive storage exactly when each is non-empty and free of whitespace |
| `ConfigSecrets.WhitespaceIs` | crates/strix-iam/src/store.rs:2400 | whitespace is the 25 code points with that property in Unicode |
| `ConfigSecrets.SmtpSecretSurvives` | crates/strix-iam/src/store.rs:2255-2363 | after any updates the password read is the last non-empty one supplied |
| `ConfigSecrets.ProvidersRefine` | crates/strix-iam/src/store.rs:2101-2211 | over all runs the sealed store refines a plain one that remembers the last non-empty secret since creation |
| `ConfigSecrets.ProviderRoundTrip` | crates/strix-iam/src/store.rs:2366-2420 | with proper scopes every field of a provider reads back as written |
| `Dispatcher.DeliverWebhook` | crates/strix-s3/src/dispatcher.rs:271-336 | the retry loop's outcome and its pauses |
| `Dispatcher.DeliveryMeaning` | crates/strix-s3/src/dispatcher.rs:271-336 | stops at the first success or after `max_retries + 1` attempts; a failed record keeps the last status code seen and the last attempt's error |
| `Dispatcher.CoversExact` | crates/strix-s3/src/dispatcher.rs:197-224 | a rule's event type covers exactly the events that its text denotes as a pattern |
| `Dispatcher.BackoffTotal` | crates/strix-s3/src/dispatcher.rs:318-321 | up to 32 pauses add up to the base times `2^n - 1` |
| `Dispatcher.BackoffExact` | crates/strix-s3/src/dispatcher.rs:318-321 | the 32-bit power does not wrap exactly for at most 32 retries |
| `Dispatcher.Worker.Dispatch` | crates/strix-s3/src/dispatcher.rs:95-190 | the log grows by the event's records in rule order, and the unsuccessful ones raise alerts |
| `Dispatcher.Worker.HandleRule` | crates/strix-s3/src/dispatcher.rs:110-190 | a rule adds its record, if it matches, and an alert unless delivery succeeded |
| `Dispatcher.RecordsMeaning` | crates/strix-s3/src/dispatcher.rs:110-190 | exactly one record per rule that asks for the event, in rule order, telling rule, event, target and how delivery went; only webhooks are delivered to |
| `Dispatcher.AlertsMeaning` | crates/strix-s3/src/dispatcher.rs:170-188 | the alerts are exactly the records of unsuccessful deliveries, in order |
| `Tenants.MakeSlug` | crates/strix-gui/src/tenant.rs:26-47 | the loop computes the slug |
| `Tenants.SlugNormal` | crates/strix-gui/src/tenant.rs:26-47 | a slug is non-empty, of lowercase letters, digits and single inner dashes |
| `Tenants.SlugFixed` | crates/strix-gui/src/tenant.rs:26-47 | the texts left alone are exactly the well-formed slugs; slugging is idempotent |
| `Tenants.SlugIsWords` | crates/strix-gui/src/tenant.rs:26-47 | the slug is the name's words, split at blanks, dashes, underscores and dots, lower-cased and joined by dashes; other characters are dropped |
| `Tenants.SlugKeepsLetters` | crates/strix-gui/src/tenant.rs:26-47 | letters and digits are kept in order, lower-cased; only a name without any gets the default |
| `Tenants.TenantFromBucketName` | crates/strix-gui/src/tenant.rs:53-57 | the first tenant whose slug and a dash begin the name |
| `Tenants.LookupsFaithfulIff` | crates/strix-gui/src/tenant.rs:49-57 | every made bucket is found to be its maker's exactly when no slug with its dash begins another's |

## Left out

- SQLite itself, connections, migrations and database failures: tables are maps and sets, and each provider call is one atomic step. The key cap is checked and inserted in two database calls, so it is a property of calls that do not interleave.
- Encryption, hashing, password checks, JWT and base64: digests and ciphers are arguments with only injectivity or a round trip assumed; access key secrets are stored in the clear in the model.
- Policies.MatchesBucketStatement: a condition block is an arbitrary predicate on the request's context in place of `evaluate_condition` (`crates/strix-iam/src/policy.rs:454-577`), so the results hold for every condition; its JSON form, its string and floating-point operators and the parsing of addresses are library behaviour and not modelled.
- User passwords, last-used times, creation times, ARNs of users and groups, standalone managed policies and `validate_policy`: they take no part in a decision.
- JSON forms of policies, recipients and provider mappings: they are stored as values.
- Listing order of SQL queries: listings are in arbitrary order, which the proofs show not to matter.
- IamStores.RowsOf: does not model the `ORDER BY` of the group query.
- Requests: the session token, the user name and the policies are read in one state; the source reads them in consecutive calls. The audit log write and error message texts are not modelled.
- OidcFlow: the user store is represented by its answers; attaching the default policy to a new user, which cannot fail the login, is not modelled.
- 32-bit overflow of the attempt counters of both limiters, which takes two billion failures in one window.
- Dispatcher: overflow of the pause beyond the range of a duration, the event payload, and failures to persist a record.
- HTTP handlers, console, command line, mail transport, metrics and the object storage backend.
