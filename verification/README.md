# Araxys: verified models of the in-memory security engines

Araxys is a security library for FastAPI. This project models the engines whose guarantees span
many calls, and proves those guarantees for all inputs, all runs and all reachable states. Where a
promise turns out to hold only under a condition, the condition is proved exact, and a concrete
input shows the failure.

Each component has specification functions on plain values, classes whose methods change state the
way the source does and are proved against those functions, and lemmas about whole runs of them.

| file | component | main results |
|---|---|---|
| `Rbac.dfy` | role inheritance and its permission cache | the walk equals reachability on cyclic graphs; removal always repairs the cache; when addition keeps it right, exactly |
| `GraphQL.dfy`, `GraphQLCycles.dfy`, `GraphQLMeasures.dfy` | query depth, breadth, cost, introspection | the verdict on every document, read off its longest chain of nested selection sets, its largest one and the fields it asks for; the recursion ends if and only if no cycle of fragments is reached; fragment inlining preserves all measures; the limits bound query size; when the cost is exact |
| `AuditChain.dfy` | audit hash chain and its verifier | the last digest determines the log; which lines are reported, in any file; tampering is reported at exactly one line; restarts are reported, exactly |
| `LogRotation.dfy` | log file rotation | what is on disk is a suffix of what was written, with a lower bound on its size |
| `RotatedAudit.dfy` | one logger on a rotating file | what the verifier, reading the current file, reports |
| `RateLimit.dfy`, `RateLimitAdmission.dfy`, `RateLimitBounds.dfy` | request counting | who is admitted, exactly, by the times of the requests counted before; admissions per interval and per window, for every address, user and API key, over any trace |
| `RateLimitStrikes.dfy`, `RateLimitBans.dfy` | escalating bans | who is banned, exactly, and for how long, by the rejections before; running bans are not moved; their records survive, if and only if no path sweeps before the longest ban is over |
| `JwtRotation.dfy`, `JwtAcceptance.dfy`, `JwtRotationBounds.dfy` | refresh-token rotation | which tokens rotate, exactly; single use if and only if the clock is in whole seconds and there is no leeway; otherwise a tight bound on rotations; one usable token per login |
| `BruteForce.dfy` | login lockout | who is turned away, exactly, by the failures before; a bound on the failures that fit into any span |
| `Sessions.dfy`, `SessionLifetimes.dfy`, `SessionBackend.dfy` | capped sessions with lazy expiry | how long a session is found, exactly, by its touches and refreshes; lazy deletion is invisible to lookups, listings, counts, creations and revocations, and exactly when it shows elsewhere; the cap holds in every run; eviction keeps the newest |
| `WebhookDlq.dfy`, `DlqSchedule.dfy`, `DlqBudget.dfy`, `DlqBackend.dfy` | webhook dead-letter queue | hash and sorted sets agree in every run; which poll tries a failed event again; exact retry count and spacing; exact conservation of events and retries over a poll; polling terminates if deliveries leave the queue alone, and as wired need not |
| `ThreatIntel.dfy` | threat-feed tracking and blocklist | what is tracked, and until when, exactly; containment in every run; when the blocklist is exact, and when static entries survive |

`Prelude.dfy` holds the shared `Option` and integer helpers. `dafny verify dfyconfig.toml` checks
everything.

## Reading the model

- Every public operation is one atomic step. Clocks are parameters and, over a run, never go back.
  An operation reads the clock once, except where two readings can differ in effect: a brute-force
  request reads it when the lock is checked and when the response is known, a feed refresh when it
  records and when it evicts, and a dead-letter poll when it selects and after each delivery.
- Fresh identifiers (uuids) are counters.
- GraphQL costs are counted in halves; every weight in the source is a multiple of one half. The
  measures are defined where following spreads ends, which is their only precondition: otherwise the
  source recurses until Python stops it. `GraphQLCycles.EndsIffNoCycle` says when that is: a cycle
  that no operation reaches does no harm. An undefined spread is inlined as an inline fragment without
  a selection set: with an empty one the depth would grow.
- Nothing is assumed about the hash in the audit chain beyond the length of digests. The theorems
  that need a good hash say so about the very strings hashed in the logs they speak of, so a failure
  of the conclusion would exhibit a collision or a preimage of the genesis value.
- A token's signature is modelled as the token having been issued. JWT time is counted in ticks, a
  configurable number to the second, because expiries and blacklist lifetimes are in whole seconds.
- A poll of the dead-letter queue is given, for every event, what its delivery comes to and when it is
  over: delivered, failed, or failed after enqueuing a copy of the event. `DlqBackend.DLQConsumer.PollOnce`
  is over any such outcomes; `DlqBackend.DLQConsumer.PollWired` is over the delivery the library hands to
  its consumer, and the answers to that delivery's posts.
- Ban durations and weighted counts are computed over the reals where the source uses floats. The
  results on bans apply while
  `ban_duration_seconds * escalation_multiplier ** (violations - 1)` stays in the range of a float (up to
  about 1.8e308); beyond it the source raises `OverflowError` inside the check and sets no ban. With a
  multiplier of 2.0 that is at violation 1025 at the latest, with 100.0 at 156.
- Rate-limit keys and threat-intel keys are structured values where the source concatenates
  strings.

## Where the code and its documentation differ

- `src/araxys/graphql/cost.py`: the depth multiplier has no effect, because operations are costed
  at depth 0 (lines 52-59, 82-98): `GraphQL.CalculateCost` is proved for every multiplier. The six
  specially weighted field names ignore their arguments (lines 165-170). The cost of an operation
  only sees fragments defined before it, unlike depth and breadth:
  `GraphQL.CostMissesLaterFragment`, with the exact condition in `GraphQL.CostExactIff` for documents
  that do not define a fragment again after an operation has seen it. Section 5.5.1.1 of the GraphQL
  specification (fragment name uniqueness) forbids that, but the parser accepts it, and the cost can
  then also be too high: `GraphQL.CostChargesReplacedFragment`. What the cost always is, for every
  order of definitions, is in `GraphQL.CostInTurn`.
- `src/araxys/rbac/engine.py`: adding a role refreshes no other cache entry:
  `Rbac.AddParentLateIsStale`, with the exact condition in `Rbac.AddRoleCoherentIff`.
- `src/araxys/audit/logger.py`: the chain restarts at the genesis value with every logger, and
  rotation cuts the file the verifier reads, so both make an untampered log report lines:
  `AuditChain.LifetimesVerifyIff` and `RotatedAudit.CurrentFileReport`.
- `src/araxys/audit/writer.py`: a backup count of 0 behaves like 1.
- `src/araxys/rate_limit/limiter.py`: the age at which violation records are swept comes from the
  path's own configuration, so escalation can be forgotten while a ban runs:
  `RateLimitBans.OverrideSweepsActiveRecord`, with the exact condition on the configurations of all
  paths in `RateLimitBans.RecordsKeptIff`. With one configuration it cannot happen.
- `src/araxys/jwt_auth/tokens.py`: family revocation is meant to stop a stolen chain, but each
  rotation starts a new family, so it reaches no other token:
  `JwtRotationBounds.ReuseRevokesOnlyItself`. Truncated lifetimes and leeway let a consumed token
  rotate again: `JwtRotation.SingleUseIffExact`, and as often as `JwtRotationBounds.RotationsBound`
  and `JwtRotationBounds.RotationsReached` say.
- `src/araxys/sessions/storage.py`: refreshing an expired record that is still stored revives it,
  which a pruned one cannot be: `Sessions.RefreshIsPureIff`. Touch and refresh also report success for
  an expired record that is still stored, and cleanup counts it, so these three can tell two stores
  with the same live sessions apart: `Sessions.AnswersDiffer`, with the exact conditions in
  `Sessions.TouchAnswersIff`, `Sessions.RefreshAnswersIff` and `Sessions.CleanupAnswersIff`. Cleanup
  spares records that expire at that very instant, unlike all readers.
- `src/araxys/shield.py` (lines 190-202) hands the consumer of the dead-letter queue a delivery that,
  when all its posts fail, enqueues the event anew before it reports the failure. So a failing event
  is both rescheduled and copied, and a delivery that keeps failing is not given up after
  `dlq_max_retries`. A poll shrinks the queue by its successes if and only if no delivery did that
  (`DlqBudget.PollShrinksIff`, with the exact counts in `WebhookDlq.PollConserves` and
  `DlqBudget.PollBudget`), and `DlqBudget.PollingTerminates` is for deliveries that leave the queue
  alone. A poll that leaves nothing pending had only such deliveries (`DlqBudget.EmptiedLeftAlone`);
  while every delivery fails that way the queue only grows (`DlqBudget.NeverEmpties`,
  `DlqBudget.BudgetInVain`), and from any queue with something pending it can go on so without end
  (`DlqBudget.DownForever`). One poll of one event: `DlqBudget.FirstFailureDoubles`.
- `src/araxys/webhooks/delivery.py`: the list of delays has three entries (line 34), so with a
  `retry_max` above 3 the fourth failed post raises `IndexError` (lines 262-264) and the event is not
  enqueued; the consumer counts that as a failure like any other.
- `src/araxys/threat_intel/scheduler.py`: every evicted entry unblocks its address, even while
  another feed still lists it: `ThreatIntel.TwoFeedsLoseAnAddress`, with the exact condition in
  `ThreatIntel.RefreshExactIff`. A static entry that a feed has listed too is unblocked the same way,
  and by a purge: `ThreatIntel.PurgeKeepsStaticIff`.

## Model

| member | source | states |
|---|---|---|
| `Rbac.ExpandIsReachability` | src/araxys/rbac/engine.py:133-146 | On every inheritance graph, cycles included, the depth-first walk with copied visited sets yields a permission if and only if some role reachable outside the visited set grants it directly |
| `Rbac.ExpandComplete` | src/araxys/rbac/engine.py:139-146 | The walk misses nothing: the end of every path that avoids the visited set contributes its direct permissions, although each branch only walks simple paths |
| `Rbac.ExpandSound` | src/araxys/rbac/engine.py:139-146 | The walk invents nothing: each permission it returns comes with a path to a role that grants it |
| `Rbac.ExpandDropped` | src/araxys/rbac/engine.py:72-81 | However many edges to a removed role remain, a role expands to what it reached in the old graph without passing through the removed one; so the order of re-expansion in `remove_role` is irrelevant |
| `Rbac.PrunedDrops` | src/araxys/rbac/engine.py:78-80 | At every moment of the removal loop the graph is the old one minus the removed role, up to leftover edges to it |
| `Rbac.RemoveFirstKeeps` | src/araxys/rbac/engine.py:80 | `list.remove` on a parents list never loses another parent |
| `Rbac.AddRoleCoherentIff` | src/araxys/rbac/engine.py:60-70 | Recomputing only the entry of the added role leaves the whole cache right if and only if every role that already reached the name was cached with the permissions the name now brings |
| `Rbac.AddFreshRoleCoherentIff` | src/araxys/rbac/engine.py:60-70 | For a new name: the cache stays right if and only if no role already reaching the name lacks a permission it brings |
| `Rbac.AddParentLateIsStale` | src/araxys/rbac/engine.py:60-70 | A role defined before its parent keeps a stale cache entry: a concrete coherent engine that one `add_role` makes incoherent |
| `Rbac.LaterRoleHasNoHeir` | src/araxys/rbac/engine.py:52-56 | When definitions list parents first, no earlier role reaches a later one, so each definition is safe |
| `Rbac.ExpandRedefined` | src/araxys/rbac/engine.py:60-70 | Redefining a role changes another one exactly by replacing what it got through that role with what the new definition brings |
| `Rbac.MatchExpansion` | src/araxys/rbac/engine.py:148-162 | Matching against an expanded set succeeds if and only if one reachable role alone directly grants `*`, the permission itself, or `res:*` for the `res` without a colon that the permission equals or continues after a colon |
| `Rbac.MatchIffCovered` | src/araxys/rbac/engine.py:148-162 | The three lookups in a granted set succeed if and only if some granted permission covers the required one in that sense |
| `Rbac.ResourceOf` | src/araxys/rbac/engine.py:160 | A string without a colon that the permission equals, or continues after a colon, is its resource and no other string is |
| `Rbac.Resource` | src/araxys/rbac/engine.py:160 | The resource is the prefix before the first colon, or the whole string when there is none |
| `Rbac.CacheAnswersReachability` | src/araxys/rbac/engine.py:106-110 | In a coherent engine a cached lookup answers reachability in the role graph |
| `Rbac.RBACEngine.constructor` | src/araxys/rbac/engine.py:45-56 | The engine holds the definitions, later ones replacing earlier ones, and is coherent whenever parents are defined first |
| `Rbac.RBACEngine.AddRole` | src/araxys/rbac/engine.py:60-70 | The graph gains the definition, exactly one cache entry is recomputed, and coherence survives if and only if there is no stale heir |
| `Rbac.RBACEngine.RemoveRole` | src/araxys/rbac/engine.py:72-81 | From any state, coherent or not, removal leaves every remaining entry equal to the closure over the final graph, which is what the role reached before without the removed one |
| `Rbac.RBACEngine.ReexpandWithout` | src/araxys/rbac/engine.py:78-81 | One turn of the removal loop already gives its role the final permissions although other roles still list the removed parent |
| `Rbac.RBACEngine.GetRolePermissions` | src/araxys/rbac/engine.py:83-85 | In a coherent engine the set holds exactly the permissions of reachable roles; unknown roles have none |
| `Rbac.RBACEngine.HasPermission` | src/araxys/rbac/engine.py:89-110 | True if and only if some listed role reaches a role that directly grants `*`, the permission itself or the wildcard of its resource |
| `Rbac.RBACEngine.HasAnyPermission` | src/araxys/rbac/engine.py:112-121 | True if and only if some listed permission is granted that way by some listed role |
| `Rbac.RBACEngine.HasAllPermissions` | src/araxys/rbac/engine.py:123-129 | True if and only if every listed permission is granted that way, possibly by different roles |
| `Rbac.RBACEngine.ExpandRole` | src/araxys/rbac/engine.py:133-146 | The recursive method terminates on cyclic graphs and computes the expansion |
| `GraphQL.Descends` | src/araxys/graphql/middleware.py:234-265 | Following a fragment spread lowers the nesting height of spreads; entering a field or inline fragment does not raise it and lowers the size: where spreads nest to a bounded depth the analyzers terminate |
| `GraphQLCycles.EndsIffNoCycle` | src/araxys/graphql/middleware.py:253-257 | Following spreads from a selection set ends if and only if no chain of spreads from it returns to a fragment it has been to; spreads then nest no deeper than there are fragments |
| `GraphQLCycles.SpreadLower` | src/araxys/graphql/middleware.py:253-257 | A fragment spread anywhere in a selection set nests less deep than the set itself |
| `GraphQLCycles.ShortChainsEnd` | src/araxys/graphql/middleware.py:253-257 | If no chain of spreads has more than k fragments, no more than k spreads nest |
| `GraphQL.CalcDepth` | src/araxys/graphql/middleware.py:234-265 | The loop over selections computes the nesting depth measure |
| `GraphQL.ChildDepth` | src/araxys/graphql/middleware.py:246-264 | The depth one selection leads to, with spreads followed |
| `GraphQL.CalcBreadth` | src/araxys/graphql/middleware.py:289-314 | The loop over selections computes the widest selection set |
| `GraphQL.CostForSelectionSet` | src/araxys/graphql/cost.py:101-157 | The loop over selections accumulates the cost measure |
| `GraphQL.CostForOperation` | src/araxys/graphql/cost.py:74-98 | The cost scaled by the multiplier to the power of the depth, so the plain cost at depth 0 |
| `GraphQL.FieldCost` | src/araxys/graphql/cost.py:160-170 | Every field costs at least one unit |
| `GraphQL.QueryDepth` | src/araxys/graphql/middleware.py:211-231 | Wherever following the spreads of the operations ends, depth is the maximum over operations, with all fragments of the document in force |
| `GraphQL.QueryBreadth` | src/araxys/graphql/middleware.py:268-286 | Breadth likewise |
| `GraphQL.CalculateCost` | src/araxys/graphql/cost.py:45-61 | Cost is the sum over operations, each with only the fragments defined before it, and is the same for every depth multiplier |
| `GraphQL.CostInTurn` | src/araxys/graphql/cost.py:45-61 | However definitions are ordered, repeated or replaced, the cost is that of the operations with every spread inlined as it stands where the operation is written |
| `GraphQL.CollectFragments` | src/araxys/graphql/middleware.py:218-221 | The fragments dict; a later definition of a name wins |
| `GraphQL.InlinedHasNoSpreads` | src/araxys/graphql/middleware.py:253-264 | Inlining removes every spread, at every level, and keeps the number of selections |
| `GraphQL.InliningPreservesDepth` | src/araxys/graphql/middleware.py:234-265 | Replacing every spread by an inline fragment with its expanded body leaves the depth as it is |
| `GraphQL.InliningPreservesBreadth` | src/araxys/graphql/middleware.py:289-314 | The same for breadth |
| `GraphQL.InliningPreservesCost` | src/araxys/graphql/cost.py:101-157 | The same for cost, and for the number of fields, when all fragments are in force |
| `GraphQL.InlinedDocPreserves` | src/araxys/graphql/middleware.py:211-286 | A document and its inlined form have equal depth and breadth, however the document is ordered |
| `GraphQL.CostWithPart` | src/araxys/graphql/cost.py:133-144 | With only some fragments known the cost is at most the full cost, and equal if and only if every unknown spread stands for no field |
| `GraphQL.CostExactIff` | src/araxys/graphql/cost.py:45-61 | If no fragment is replaced after an operation has seen it, the cost loop never charges more than the inlined document, and charges exactly that if and only if no operation spreads a later-defined fragment that has fields |
| `GraphQL.NoneReplaced` | src/araxys/graphql/cost.py:48-50 | Distinct names, or fragments defined first, rule such a replacement out |
| `GraphQL.CostChargesReplacedFragment` | src/araxys/graphql/cost.py:48-59 | With a replacement an operation can be charged for a field nobody asks for |
| `GraphQL.CostExactFragmentsFirst` | src/araxys/graphql/cost.py:45-61 | With fragments defined first, even twice, the cost is that of the inlined document |
| `GraphQL.CostMissesLaterFragment` | src/araxys/graphql/cost.py:48-59 | An operation written before the fragment it spreads is charged nothing for a field it asks for |
| `GraphQL.CostCountsFields` | src/araxys/graphql/cost.py:160-170 | Cost is at least the number of fields, and zero if and only if there are none |
| `GraphQL.SizeBound` | src/araxys/graphql/middleware.py:116-133 | Depth at most d and breadth at most b leave at most b + b^2 + ... + b^d selections |
| `GraphQL.IsIntrospection` | src/araxys/graphql/middleware.py:317-326 | Found if and only if some definition, fragments included, contains a field starting with two underscores |
| `GraphQL.InlinedMeta` | src/araxys/graphql/middleware.py:329-342 | A meta field of an inlined selection set is written in it or in some fragment, although the scan follows no spread |
| `GraphQL.IntrospectionSeesInlined` | src/araxys/graphql/middleware.py:317-342 | No inlined operation asks for introspection unless the scan finds it |
| `GraphQL.Validate` | src/araxys/graphql/middleware.py:114-151 | Forwarded if and only if depth, breadth and cost are within their limits and introspection is enabled or not asked for; otherwise the first violation in that order, with the measured value |
| `GraphQLMeasures.VerdictMeans` | src/araxys/graphql/middleware.py:114-151 | The verdict without the measures: too deep if a chain of selection sets, from an operation's body on and each led to by a selection of the one before, has more sets than the limit; else too broad if a set so reached has more selections than the limit; else too costly if the fields asked for weigh more than the limit; else refused if introspection is disabled and some definition writes a meta field; the value reported is the largest there is |
| `GraphQLMeasures.DocDepthAttained` | src/araxys/graphql/middleware.py:224-231 | Some chain is as long as the depth |
| `GraphQLMeasures.DocBreadthAttained` | src/araxys/graphql/middleware.py:279-286 | Some selection set that an operation reaches is as large as the breadth |
| `GraphQLMeasures.DepthBreadthBound` | src/araxys/graphql/middleware.py:211-286 | No chain is longer than the depth, and no selection set that an operation reaches larger than the breadth |
| `GraphQLMeasures.CostIsWeight` | src/araxys/graphql/cost.py:45-170 | The cost is five units for each edges, nodes, items or results field asked for, two for each node or data field, one for any other field and half a unit for each of its arguments |
| `GraphQLMeasures.IntrospectsIff` | src/araxys/graphql/middleware.py:317-342 | The scan finds introspection if and only if some definition writes, at any level, a field whose name starts with two underscores |
| `GraphQL.ForwardedSize` | src/araxys/graphql/middleware.py:116-151 | A forwarded query has at most b + ... + b^d selections per inlined operation, and no introspection when that is disabled |
| `GraphQL.ForwardedFields` | src/araxys/graphql/middleware.py:135-141 | A forwarded query whose spreads are defined in time asks for at most cost-limit many fields |
| `GraphQL.ForwardedFieldsInTurn` | src/araxys/graphql/middleware.py:135-141 | Every forwarded query asks for at most cost-limit many fields, counting for each operation the fragments in force where it is written |
| `AuditChain.NoViolationsIffChained` | src/araxys/audit/logger.py:151-174 | The verifier reports nothing if and only if every entry links to its predecessor and carries its own digest |
| `AuditChain.ViolationsAppend` | src/araxys/audit/logger.py:155-174 | Verification can be resumed in the middle of a log with the digest carried so far |
| `AuditChain.WrittenChained` | src/araxys/audit/logger.py:130-140 | What one logger writes verifies, entry for entry, whatever it is told to log |
| `AuditChain.WrittenAppend` | src/araxys/audit/logger.py:136-140 | Logging one more entry appends the link to the last digest |
| `AuditChain.ChainDeterminesLog` | src/araxys/audit/logger.py:130-180 | Two logs that verify and end in the same digest are equal, unless the strings they hash contain a collision or a preimage of the genesis value |
| `AuditChain.DigestsDistinct` | src/araxys/audit/logger.py:151-174 | In a log that verifies all digests differ from one another and from the genesis value |
| `AuditChain.ModificationLocalised` | src/araxys/audit/logger.py:163-174 | Changing only the data of entry i of a valid log is reported at line i + 1 and nowhere else |
| `AuditChain.DeletionLocalised` | src/araxys/audit/logger.py:161-174 | Deleting entry i of a valid log is reported at line i + 1 and nowhere else; deleting the last entry is not reported |
| `AuditChain.TailReported` | src/araxys/audit/logger.py:153-162 | A proper tail of a valid log, which is what rotation leaves in the current file, is reported at its first line only |
| `AuditChain.InsertionLocalised` | src/araxys/audit/logger.py:158-160 | A line without a digest put anywhere into a log that verifies is reported at that line alone |
| `AuditChain.ReportedIff` | src/araxys/audit/logger.py:155-174 | In any file each line is reported exactly as often as its entry has faults: no digest; otherwise a link to anything but the last digest before it, and a digest that does not fit its data |
| `AuditChain.LifetimesReported` | src/araxys/audit/logger.py:73-76 | A file shared by several logger lifetimes is reported exactly at the first line of each later nonempty lifetime |
| `AuditChain.LifetimesVerifyIff` | src/araxys/audit/logger.py:73-76 | Untampered entries of several lifetimes verify if and only if at most one lifetime wrote anything |
| `AuditChain.AuditLogger.constructor` | src/araxys/audit/logger.py:73-76 | A fresh logger with an empty log is valid |
| `AuditChain.AuditLogger.Log` | src/araxys/audit/logger.py:110-140 | Each call extends the history by the entry and leaves a log that verifies |
| `AuditChain.CheckEntries` | src/araxys/audit/logger.py:151-174 | The loop reports, in order, a bad link and a bad digest of each line separately, and lines without a digest |
| `AuditChain.AuditLogger.VerifyIntegrity` | src/araxys/audit/logger.py:142-180 | On whatever the file holds: valid if and only if the log verifies; the count, and the violations in order, a bad link and a bad digest separately |
| `AuditChain.AuditLogger.ReadEntries` | src/araxys/audit/logger.py:182-190 | The data without chain metadata; for a log written by this logger exactly what was logged |
| `LogRotation.RotationConsistent` | src/araxys/audit/writer.py:95-110 | One rotation keeps backups contiguous and within the limit, everything written still equals dropped + backups oldest first + current, and only a full set loses its oldest backup |
| `LogRotation.RetentionBound` | src/araxys/audit/writer.py:73-114 | What is on disk is a suffix of everything written, of at least min(total, backups times threshold) bytes |
| `LogRotation.AppendConsistent` | src/araxys/audit/writer.py:76-77 | Appending a line keeps all of that |
| `LogRotation.JoinedShifts` | src/araxys/audit/writer.py:101-110 | After a rotation the backups read oldest first are the old backups followed by the old current file |
| `LogRotation.SizeIsBytes` | src/araxys/audit/writer.py:93 | The size compared with the threshold is the number of bytes in the file |
| `LogRotation.LogWriter.constructor` | src/araxys/audit/writer.py:39-52 | A fresh writer is consistent |
| `LogRotation.LogWriter.Write` | src/araxys/audit/writer.py:73-77 | Exactly one line is added to the history, it is the last line on disk, consistency holds over any sequence of writes, and the current file starts anew exactly when it had reached the threshold in bytes |
| `LogRotation.LogWriter.RotateIfNeeded` | src/araxys/audit/writer.py:87-110 | Rotates if and only if rotation is enabled and the file has reached the threshold; otherwise nothing changes |
| `LogRotation.LogWriter.RotateFiles` | src/araxys/audit/writer.py:95-110 | The descending loop of renames moves each backup by one place and overwrites none |
| `RotatedAudit.RotatedOut` | src/araxys/audit/writer.py:73-110 | The current file is a suffix of everything written, and a proper one if and only if there is a backup |
| `RotatedAudit.CurrentFileReport` | src/araxys/audit/logger.py:142-180 | The verifier, which reads the current file only, reports line 1 of an untampered log if something was rotated out and the file is not empty, and nothing otherwise |
| `RotatedAudit.RotatingLogger.constructor` | src/araxys/audit/logger.py:55-76 | A fresh logger over a fresh writer is consistent |
| `RotatedAudit.RotatingLogger.Log` | src/araxys/audit/logger.py:110-124 | Each entry is chained and written as one line |
| `RotatedAudit.RotatingLogger.VerifyIntegrity` | src/araxys/audit/logger.py:142-180 | Valid if and only if nothing was rotated out or the current file is empty; the only violation is line 1 |
| `RateLimit.InMemoryBackend.IncrementKey` | src/araxys/rate_limit/backends.py:74-90 | New state and returned count |
| `RateLimit.InMemoryBackend.GetCount` | src/araxys/rate_limit/backends.py:92-101 | Reading drops an expired counter but remembers its count |
| `RateLimit.InMemoryBackend.GetSlidingCount` | src/araxys/rate_limit/backends.py:103-120 | Current count plus the previous one weighted by the rest of the window; zero after expiry |
| `RateLimit.InMemoryBackend.Ban` | src/araxys/rate_limit/backends.py:122-123 | Only the ban of this client changes |
| `RateLimit.InMemoryBackend.CheckBanned` | src/araxys/rate_limit/backends.py:125-131 | Whether an unexpired ban exists; an expired one is forgotten |
| `RateLimit.InMemoryBackend.GetBanExpiry` | src/araxys/rate_limit/backends.py:133-140 | Whole seconds left, zero without an active ban |
| `RateLimit.InMemoryBackend.IncrementViolations` | src/araxys/rate_limit/backends.py:148-156 | One more violation, dated now |
| `RateLimit.InMemoryBackend.CleanupViolations` | src/araxys/rate_limit/backends.py:158-166 | Exactly the records of at least the given age go |
| `RateLimit.CountedIsFresh` | src/araxys/rate_limit/limiter.py:104-118 | After counting, every counter of the request exists and its window is open, so reading it changes nothing |
| `RateLimit.RateLimiter.CountRequest` | src/araxys/rate_limit/limiter.py:104-118 | Counts the request on every dimension in use and on no other |
| `RateLimit.RateLimiter.EffectiveCount` | src/araxys/rate_limit/limiter.py:120-136 | The count the limit is compared with, in both algorithms, with no side effect right after counting |
| `RateLimit.RateLimiter.Judge` | src/araxys/rate_limit/limiter.py:138-156 | Admitted if and only if every dimension in use is within the limit; remaining is the lowest allowance over them; the backend is left alone |
| `RateLimit.RateLimiter.Escalate` | src/araxys/rate_limit/limiter.py:156-182 | Record, sweep, compute the capped duration, ban from the threshold on |
| `RateLimit.RateLimiter.Check` | src/araxys/rate_limit/limiter.py:96-209 | The whole decision and the whole new backend state |
| `RateLimitAdmission.AdmittedIff` | src/araxys/rate_limit/limiter.py:104-156 | After any trace a check that no ban stops is admitted if and only if on every dimension in use, with n requests counted before it in the current window, p in the previous one and e of W seconds elapsed, (n + 1) * W + p * (W - e) is at most limit * W in sliding mode, and n + 1 at most the limit in fixed mode |
| `RateLimitAdmission.RemainingIsLeft` | src/araxys/rate_limit/limiter.py:138-149 | The allowance an admitted check reports is, in whole requests, what its scarcest dimension has left |
| `RateLimitAdmission.TracksRun` | src/araxys/rate_limit/backends.py:74-90 | After any trace counter, previous count and window start of a key are those read off the times at which it was counted |
| `RateLimitStrikes.BannedIff` | src/araxys/rate_limit/limiter.py:98-182 | After any ordered trace a check is stopped by a ban if and only if the last rejection of its address was at least the threshold-th strike and the ban it imposed is not over; it is told the whole seconds left |
| `RateLimitStrikes.RejectedIsTold` | src/araxys/rate_limit/limiter.py:167-207 | A rejected check is told the duration of the ban its strike would impose |
| `RateLimitStrikes.DurationIsRaw` | src/araxys/rate_limit/limiter.py:167-173 | A ban has the configured length, multiplied once for each strike before, in whole seconds and capped |
| `RateLimitBounds.KeyStep` | src/araxys/rate_limit/limiter.py:96-156 | A check counts each of its keys once, leaves every other key alone, and admits only within the limit of each |
| `RateLimitBounds.WeightedAdmits` | src/araxys/rate_limit/backends.py:103-120 | Inside a window a weighted count within the limit bounds the plain count, strictly if the previous window was not empty |
| `RateLimitBounds.IntervalBound` | src/araxys/rate_limit/limiter.py:104-156 | Over any trace and for every address, user or API key in use, each half-open interval of one window length holds at most twice the limit of admitted checks in fixed mode, and strictly fewer in sliding mode |
| `RateLimitBounds.WindowBound` | src/araxys/rate_limit/limiter.py:104-156 | For every such key each window admits at most the limit; in sliding mode, after a previous count of at least the limit, at most limit * e / W checks in its first e seconds |
| `RateLimitBans.BanDurationMonotone` | src/araxys/rate_limit/limiter.py:167-173 | Ban durations never decrease with the violation count, are at least one second and never exceed the cap |
| `RateLimitBans.FirstBanDuration` | src/araxys/rate_limit/limiter.py:167-173 | The first ban has the configured length, cap permitting |
| `RateLimitBans.LongestReached` | src/araxys/rate_limit/limiter.py:167-173 | Escalating bans reach the cap: from some violation count on every ban is the longest the configuration can impose |
| `RateLimitBans.WithinLongest` | src/araxys/rate_limit/limiter.py:167-173 | No ban is ever longer than that |
| `RateLimitBans.BanHonoured` | src/araxys/rate_limit/limiter.py:98-106 | Under any configuration: while a ban runs no trace moves it, and every check of that client is rejected and changes nothing |
| `RateLimitBans.RecordSurvives` | src/araxys/rate_limit/limiter.py:156-165 | While its ban runs, a violation record young enough for every sweep survives any trace, so escalation continues where it was |
| `RateLimitBans.BansStayBacked` | src/araxys/rate_limit/limiter.py:156-176 | If no path sweeps before the longest ban of any path is over, one check keeps a young enough record behind every running ban |
| `RateLimitBans.RunKeepsBansBacked` | src/araxys/rate_limit/limiter.py:156-176 | So does every trace from an empty backend |
| `RateLimitBans.OneConfigSweepsInTime` | src/araxys/rate_limit/limiter.py:161-173 | One configuration always meets that condition |
| `RateLimitBans.Escalated` | src/araxys/rate_limit/limiter.py:156-176 | A client that comes back each time its ban is over reaches any number of violations |
| `RateLimitBans.RecordsKeptIff` | src/araxys/rate_limit/limiter.py:156-182 | For every assignment of configurations to paths: in all ordered traces from an empty backend each running ban keeps its violation record, if and only if the longest ban of every path is over before any path sweeps |
| `RateLimitBans.SweptTooSoon` | src/araxys/rate_limit/limiter.py:160-165 | Otherwise a trace of two clients, on the two offending paths, leaves a running ban without its record |
| `RateLimitBans.OverrideSweepsActiveRecord` | src/araxys/rate_limit/limiter.py:160-165 | A concrete trace: a violation on a path with one-minute bans sweeps the record behind another client's hour-long ban |
| `JwtRotation.InMemoryTokenStorage.BlacklistJti` | src/araxys/jwt_auth/storage.py:69-70 | The record is set to run out after the given seconds |
| `JwtRotation.InMemoryTokenStorage.IsBlacklisted` | src/araxys/jwt_auth/storage.py:72-78 | Blocked if and only if an unexpired record exists; an expired one is dropped |
| `JwtRotation.InMemoryTokenStorage.TryBlacklistJti` | src/araxys/jwt_auth/storage.py:80-85 | Adds if and only if not blocked, and otherwise leaves the record alone |
| `JwtRotation.InMemoryTokenStorage.Cleanup` | src/araxys/jwt_auth/storage.py:87-92 | Exactly the expired records go |
| `JwtRotation.InMemoryTokenStorage.BlacklistFamily` | src/araxys/jwt_auth/storage.py:94-96 | The family is added |
| `JwtRotation.JWTManager.Decode` | src/araxys/jwt_auth/tokens.py:287-303 | A refresh token is accepted if and only if it was issued as one and the leeway after its expiry is not over; an issued token past that is reported as expired whatever its type |
| `JwtRotation.JWTManager.CreateTokenPair` | src/araxys/jwt_auth/tokens.py:228-255 | Both tokens are issued to the subject with new ids, the refresh token in a family of its own, each with the lifetime of its kind |
| `JwtRotation.JWTManager.LogIn` | src/araxys/jwt_auth/tokens.py:228-255 | A login issues a pair that starts a new lineage |
| `JwtRotation.JWTManager.RotateTokens` | src/araxys/jwt_auth/tokens.py:323-377 | Result and whole new state of a rotation: every refusal, the family mark on reuse, or a consumed token and a new pair of its lineage |
| `JwtRotation.JWTManager.RevokeRefreshToken` | src/araxys/jwt_auth/tokens.py:379-383 | An accepted token is blacklisted for its remaining whole seconds, at least one |
| `JwtRotation.RunKeeps` | src/araxys/jwt_auth/tokens.py:323-377 | Invariant of every run of logins, rotations, revocations, lookups and cleanups: in each lineage every refresh token but the newest is dead, and revoked families hold only dead tokens |
| `JwtRotation.ConsumedStaysDead` | src/araxys/jwt_auth/tokens.py:323-383 | A rotated or revoked token is dead at every later point of the run |
| `JwtRotation.SingleUseIffExact` | src/araxys/jwt_auth/tokens.py:336-338 | Refresh tokens are single-use in every run if and only if time is in whole seconds and the leeway is zero |
| `JwtRotation.ExactIsSingleUse` | src/araxys/jwt_auth/tokens.py:323-377 | The positive half |
| `JwtRotation.ReplaySucceeds` | src/araxys/jwt_auth/tokens.py:337-338 | The other half: a blacklist record that runs out before its token lets the token rotate again |
| `JwtRotation.InexactReplays` | src/araxys/jwt_auth/tokens.py:337 | With any finer clock or any leeway there is a moment from which this happens |
| `JwtRotation.UsableWithinLogins` | src/araxys/jwt_auth/tokens.py:323-377 | The usable refresh tokens never outnumber the logins; there is at most one per lineage |
| `JwtAcceptance.UnusedRotatesIff` | src/araxys/jwt_auth/tokens.py:323-377 | Under any configuration: a token that was handed out and neither rotated nor revoked since rotates if and only if the leeway after its lifetime is not over |
| `JwtAcceptance.RotatesIff` | src/araxys/jwt_auth/tokens.py:323-377 | In whole seconds without leeway: in every run a token rotates if and only if it was handed out less than a refresh lifetime before and neither rotated nor revoked since |
| `JwtAcceptance.IssuedIffHandedOut` | src/araxys/jwt_auth/tokens.py:228-255 | The refresh tokens that are accepted as signed are exactly those that a login or a rotation handed out |
| `JwtAcceptance.OnlyUsedMarked` | src/araxys/jwt_auth/tokens.py:325-377 | A token is blacklisted, itself or by its family, only after it was rotated or revoked |
| `JwtRotation.UsableRotates` | src/araxys/jwt_auth/tokens.py:323-341 | A token is usable at a moment if and only if presenting it then rotates it |
| `JwtRotationBounds.ReuseRevokesOnlyItself` | src/araxys/jwt_auth/tokens.py:243-247 | Under any configuration: because each rotation starts a new family, presenting a token, reused or not, changes the usability of no other token |
| `JwtRotationBounds.FamilyStaysRevoked` | src/araxys/jwt_auth/storage.py:94-99 | Under any configuration: once a token is refused as revoked, no token of its family ever rotates again |
| `JwtRotationBounds.RotationsBound` | src/araxys/jwt_auth/tokens.py:336-341 | Under any configuration and in every run, one token rotates at most leeway + 1 times on a whole-second clock, and at most leeway + 2 times on a finer one |
| `JwtRotationBounds.RotationsReached` | src/araxys/jwt_auth/tokens.py:336-341 | Some run reaches that bound exactly |
| `JwtRotationBounds.BlockedAtLeast` | src/araxys/jwt_auth/tokens.py:337-338 | A blacklist record lasts at least a second, and into the last second of its token |
| `BruteForce.InMemoryBruteForceBackend.constructor` | src/araxys/brute_force/limiter.py:74-78 | Nothing counted, nobody locked |
| `BruteForce.InMemoryBruteForceBackend.RecordAttempt` | src/araxys/brute_force/limiter.py:80-91 | One more than the live count; an expired count starts over |
| `BruteForce.InMemoryBruteForceBackend.IsLocked` | src/araxys/brute_force/limiter.py:93-100 | Whether an unexpired lock exists; an expired one is forgotten |
| `BruteForce.InMemoryBruteForceBackend.SetLockout` | src/araxys/brute_force/limiter.py:102-103 | The lock runs for the given time from now |
| `BruteForce.InMemoryBruteForceBackend.ResetAttempts` | src/araxys/brute_force/limiter.py:105-107 | Count and lock of the identifier go |
| `BruteForce.InMemoryBruteForceBackend.GetAttempts` | src/araxys/brute_force/limiter.py:109-117 | The live count; an expired one is forgotten |
| `BruteForce.InMemoryBruteForceBackend.DispatchRequest` | src/araxys/brute_force/limiter.py:208-242 | The outcome, the whole new state and the progressive delay of one request |
| `BruteForce.Delay` | src/araxys/brute_force/limiter.py:219-226 | The delay never exceeds thirty seconds |
| `BruteForce.KeepAccount` | src/araxys/brute_force/limiter.py:230-238 | Failures so far are at most maxAttempts per long gap plus the current burst, and the two tables still show that burst |
| `BruteForce.LockedIff` | src/araxys/brute_force/limiter.py:208-240 | After any sequence of requests one is turned away if and only if the failures of its identifier since the last success end in a streak of at least maxAttempts, each less than the attempt ttl after the one before, and the lockout time since the last of them is not over; otherwise it is answered |
| `BruteForce.DelayTable` | src/araxys/brute_force/limiter.py:218-226 | With progressive delay it waits 1, 2, 4, 8, 16 seconds after 1 to 5 failures of a live streak, 30 after more, and not at all after none |
| `BruteForce.RunTables` | src/araxys/brute_force/limiter.py:71-117 | After any sequence of requests the two tables hold the streak and the lock read off the times of the failures |
| `BruteForce.FailureBound` | src/araxys/brute_force/limiter.py:208-240 | In any span of length T without a success at most maxAttempts * (1 + floor(T / min(lockout, ttl))) failures of an identifier get past the lock |
| `BruteForce.LockIsEarned` | src/araxys/brute_force/limiter.py:232-237 | A lock exists only after maxAttempts failures since the last success, and the counter never overstates them |
| `BruteForce.LockIsHonoured` | src/araxys/brute_force/limiter.py:208-216 | Until it expires a lock rejects every request of its identifier and neither the lock nor the counter moves |
| `Sessions.StepIsPure` | src/araxys/sessions/storage.py:158-262 | Every operation acts on the live sessions alone, as if stale ones vanished at once; a refresh, provided it does not revive an expired record |
| `Sessions.RefreshIsPureIff` | src/araxys/sessions/storage.py:231-237 | A refresh does so if and only if it cannot bring an expired record back to life |
| `Sessions.SameMeaningRuns` | src/araxys/sessions/storage.py:158-262 | Stores with the same live sessions keep the same live sessions through every run of safe refreshes |
| `Sessions.AnswersFromLive` | src/araxys/sessions/storage.py:164-229 | Lookups, listings, counts, creations and revocations answer from the live sessions alone |
| `Sessions.SameAnswers` | src/araxys/sessions/storage.py:164-229 | So after any run two stores with the same live sessions give all these callers the same answers |
| `Sessions.TouchAnswersIff` | src/araxys/sessions/storage.py:239-250 | Touching answers as on the live sessions if and only if no expired record that is not idle is stored under that id |
| `Sessions.RefreshAnswersIff` | src/araxys/sessions/storage.py:231-237 | Refreshing answers as on the live sessions if and only if no stale record is stored under that id |
| `Sessions.CleanupAnswersIff` | src/araxys/sessions/storage.py:252-262 | Cleanup answers as on the live sessions, with zero, if and only if there is nothing to sweep |
| `Sessions.AnswersDiffer` | src/araxys/sessions/storage.py:231-262 | Two concrete stores with the same live sessions that all three tell apart |
| `Sessions.ReadsInvisible` | src/araxys/sessions/storage.py:164-211 | A lookup, listing, count or cleanup inserted before any run whose refreshes are safe leaves them safe and changes no later set of live sessions |
| `Sessions.ThinnerRuns` | src/araxys/sessions/storage.py:158-262 | Of two stores with the same live sessions the one with fewer records keeps fewer through every run, so what is safe to refresh in the other is safe in it |
| `SessionLifetimes.FoundIff` | src/araxys/sessions/storage.py:30-250 | In every run a session neither revoked nor evicted, touched only while not idle and refreshed only before it has expired, is found and listed if and only if less than its lifetime has passed since its creation or last refresh and no more than the idle timeout since its creation or last touch; until it has expired a touch succeeds exactly then |
| `SessionLifetimes.FoundIffKeptUp` | src/araxys/sessions/manager.py:59-95 | The same read off the run alone: instead of not being evicted, the user creates fewer sessions after it than the maximum |
| `SessionLifetimes.FewCreationsSpare` | src/araxys/sessions/manager.py:68-70 | Fewer later creations of the user than the maximum never evict the session |
| `Sessions.CapHolds` | src/araxys/sessions/manager.py:59-95 | In every run, refreshes of expired records included, no user has more stored records than the maximum |
| `Sessions.EvictionIsOldest` | src/araxys/sessions/manager.py:68-70 | Creation evicts if and only if exactly the maximum are live, and then the one created first |
| `Sessions.CreatesKeepNewest` | src/araxys/sessions/manager.py:59-95 | A run of creations, for any users, with nothing going stale leaves each user exactly the newest sessions, in order |
| `Sessions.OldestIndex` | src/araxys/sessions/storage.py:227 | The first of the records created earliest |
| `SessionBackend.InMemorySessionBackend.CreateSession` | src/araxys/sessions/storage.py:143-156 | Appends one record with an unused id |
| `SessionBackend.InMemorySessionBackend.GetSession` | src/araxys/sessions/storage.py:164-177 | Finds the session if and only if it is live, and deletes it if it is stale |
| `SessionBackend.InMemorySessionBackend.ListSessions` | src/araxys/sessions/storage.py:179-191 | Exactly the live sessions of the user, in order |
| `SessionBackend.InMemorySessionBackend.RevokeSession` | src/araxys/sessions/storage.py:193-197 | Removes the record, and says whether there was one |
| `SessionBackend.InMemorySessionBackend.CountSessions` | src/araxys/sessions/storage.py:199-211 | The number of live sessions of the user |
| `SessionBackend.InMemorySessionBackend.RevokeOldest` | src/araxys/sessions/storage.py:213-229 | Removes stale records of the user and the live one created first |
| `SessionBackend.InMemorySessionBackend.RefreshSession` | src/araxys/sessions/storage.py:231-237 | Extends the record, stale or not |
| `SessionBackend.InMemorySessionBackend.TouchSession` | src/araxys/sessions/storage.py:239-250 | Succeeds if and only if the record exists and is not idle, even when it has expired |
| `SessionBackend.InMemorySessionBackend.CleanupExpired` | src/araxys/sessions/storage.py:252-262 | Removes stale records except those expiring at this very instant, and counts them |
| `SessionBackend.SessionManager.CreateFor` | src/araxys/sessions/manager.py:59-95 | Count, evict if needed, store |
| `SessionBackend.SessionManager.MakeRoom` | src/araxys/sessions/manager.py:68-70 | The count and the eviction, which rescans, together act as one pruning and one eviction |
| `SessionBackend.SessionManager.RevokeById` | src/araxys/sessions/manager.py:97-136 | Revokes if and only if the session is live and blacklisting its token does not fail; the token is blacklisted for the session's remaining time |
| `WebhookDlq.RunConsistent` | src/araxys/webhooks/dlq.py:80-182 | In every state of every run pending and dead are disjoint, together the stored ids, statuses match membership and pending scores match next_retry_at |
| `WebhookDlq.DoConsistent` | src/araxys/webhooks/dlq.py:80-182 | Each single operation keeps that |
| `WebhookDlq.PollConserves` | src/araxys/webhooks/dlq.py:487-503 | A poll keeps it too; the number of events falls by exactly the successful deliveries and rises by exactly the ones that enqueued a copy |
| `WebhookDlq.FailingStep` | src/araxys/webhooks/dlq.py:487-540 | A step touches an event left alone only by dispatching it, when it is due, and then as one reschedule |
| `WebhookDlq.RetriesExact` | src/araxys/webhooks/dlq.py:505-540 | An event with a attempts that always fails is dispatched exactly max(1, maxRetries - a) times before it is dead, and is pending until then |
| `WebhookDlq.DispatchesSpaced` | src/araxys/webhooks/dlq.py:534-540 | Any two dispatches of such an event are at least the retry interval apart |
| `WebhookDlq.NotDueTooSoon` | src/araxys/webhooks/dlq.py:535-536 | After a dispatch a pending event is not due before a full interval has passed |
| `DlqSchedule.FailuresRescheduled` | src/araxys/webhooks/dlq.py:487-540 | After a poll every event whose delivery failed has one attempt more and is due exactly one interval after the delivery was over, or is dead with its attempts used up |
| `DlqSchedule.BatchTakes` | src/araxys/webhooks/dlq.py:118-135 | A batch takes no event before it is due, and every due event with fewer than ten others as low |
| `DlqSchedule.WaitsExactly` | src/araxys/webhooks/dlq.py:534-540 | In every run the event stays as that failure left it until it is dispatched again |
| `DlqSchedule.NextDispatch` | src/araxys/webhooks/dlq.py:487-540 | An event that keeps failing and has retries left is dispatched by no poll less than an interval after its last delivery was over, and by the first poll from then on that finds fewer than ten others as low |
| `DlqBudget.PollBudget` | src/araxys/webhooks/dlq.py:487-540 | The retries left over all pending events change by exactly what the deliveries spend (all its retries for a success, one for a failure) and what their copies bring |
| `DlqBudget.PollShrinksIff` | src/araxys/shield.py:190-202 | A poll shrinks the queue by its successes if and only if no delivery in it enqueued anything |
| `DlqBudget.PollingTerminates` | src/araxys/webhooks/dlq.py:487-540 | With deliveries that leave the queue alone, the dispatches of any polling run plus the retries left never exceed the retries the queue began with |
| `DlqBudget.RequeuedStaysPending` | src/araxys/webhooks/delivery.py:266-274 | Every copy enqueued during a poll is pending after it |
| `DlqBudget.EmptiedLeftAlone` | src/araxys/shield.py:190-202 | A poll that leaves nothing pending had no delivery that enqueued anything |
| `DlqBudget.NeverEmpties` | src/araxys/shield.py:190-202 | In every run of polls whose deliveries all fail and enqueue, something is always pending and every dispatch leaves one event more |
| `DlqBudget.BudgetInVain` | src/araxys/shield.py:190-202 | Such a poll changes the retries left by its dispatches times the retries of a copy less one, so they never fall |
| `DlqBudget.DownForever` | src/araxys/shield.py:190-202 | From every consistent queue with something pending there is such a run of any number of polls, each dispatching something |
| `DlqBudget.FirstFailureDoubles` | src/araxys/shield.py:190-202 | With the default limits: after one poll the one event is dead and its copy is pending with as many failures |
| `DlqBackend.WebhookDLQBackend.EnqueueEvent` | src/araxys/webhooks/dlq.py:94-116 | A new id, due at once |
| `DlqBackend.WebhookDLQBackend.DequeueEligible` | src/araxys/webhooks/dlq.py:118-135 | Up to ten due events, lowest scores first, none passed over for a later one, and the queue untouched |
| `DlqBackend.WebhookDLQBackend.MarkEventDead` | src/araxys/webhooks/dlq.py:137-144 | Moves an event from pending to dead; an unknown id becomes a dead event of which nothing else is known |
| `DlqBackend.WebhookDLQBackend.ReplayEvent` | src/araxys/webhooks/dlq.py:146-165 | Moves a dead event back with no attempts; otherwise nothing changes |
| `DlqBackend.WebhookDLQBackend.RemoveEvent` | src/araxys/webhooks/dlq.py:167-182 | Removes all traces of the event, and says whether it existed |
| `DlqBackend.WebhookDLQBackend.PurgeAll` | src/araxys/webhooks/dlq.py:207-223 | Empties the queue; counts keys, so a nonempty sorted set counts as one |
| `DlqBackend.WebhookDLQBackend.PurgeByUrl` | src/araxys/webhooks/dlq.py:225-250 | Removes exactly the events of this url, and counts them |
| `DlqBackend.WebhookDLQBackend.PurgeExpired` | src/araxys/webhooks/dlq.py:252-299 | Removes exactly the events strictly older than the maximum age, and counts them |
| `DlqBackend.DLQConsumer.RescheduleOrMarkDead` | src/araxys/webhooks/dlq.py:505-540 | One more attempt; the pending score becomes exactly one interval from now, or the event moves from pending to dead when the attempts reach the maximum; nothing else changes |
| `DlqBackend.DLQConsumer.DispatchOne` | src/araxys/webhooks/dlq.py:500-503 | Removed on success; on failure rescheduled, after what the delivery itself enqueued |
| `DlqBackend.DLQConsumer.PollOnce` | src/araxys/webhooks/dlq.py:487-503 | Dispatches one proper batch in order; the queue stays consistent, shrinks by the successes and grows by the copies; each failed event is due exactly one interval after its delivery was over, or dead |
| `DlqBackend.WebhookDelivery.DeliverWithRetry` | src/araxys/webhooks/delivery.py:214-280 | True if and only if one of the first min(retry_max, 3) + 1 posts succeeds, and then the queue is untouched; otherwise it enqueues the event with retry_max + 1 attempts and answers false, or raises when retry_max exceeds 3 |
| `DlqBackend.WiredLeavesAloneIff` | src/araxys/webhooks/delivery.py:240-280 | Deliveries of that kind leave the queue alone if and only if each had a post that succeeded, or retry_max exceeds 3 |
| `DlqBackend.WiredInVain` | src/araxys/shield.py:190-202 | While no post succeeds, a poll with that delivery is one whose deliveries all enqueue a copy with retry_max + 1 attempts |
| `DlqBackend.DLQConsumer.DispatchWired` | src/araxys/shield.py:190-202 | With that delivery a dispatch is the dispatch of the queue under the outcome it comes to |
| `DlqBackend.DLQConsumer.PollWired` | src/araxys/shield.py:190-202 | With that delivery a poll of a proper batch is the poll of the queue under those outcomes, and keeps the queue consistent |
| `ThreatIntel.RefreshContains` | src/araxys/threat_intel/scheduler.py:219-303 | A refresh keeps the seen set equal to the tracked addresses and the blocklist within static entries plus seen ones, and adds no excluded address |
| `ThreatIntel.RunContains` | src/araxys/threat_intel/scheduler.py:202-303 | So does every run of refreshes and purges |
| `ThreatIntel.RefreshExactIff` | src/araxys/threat_intel/scheduler.py:263-278 | A blocklist that is exactly the static plus the tracked addresses stays exact if and only if no evicted entry belongs to a static address or to one another entry still tracks |
| `ThreatIntel.TrackedIff` | src/araxys/threat_intel/resolver.py:59-136 | After every run an address is tracked for a feed until a time if and only if the last fetch of the feed to list it set that time, and since then there was no purge and no eviction at or after it |
| `ThreatIntel.SingleFeedRun` | src/araxys/threat_intel/scheduler.py:202-278 | With one feed and no static entries the blocklist is exactly what is tracked, in every run of refreshes and purges |
| `ThreatIntel.SingleFeedExact` | src/araxys/threat_intel/scheduler.py:263-278 | One refresh keeps it so |
| `ThreatIntel.TwoFeedsLoseAnAddress` | src/araxys/threat_intel/scheduler.py:272-278 | With two feeds an address can be unblocked while one of them still tracks it |
| `ThreatIntel.MixedEntriesUnblock` | src/araxys/threat_intel/scheduler.py:272-278 | This happens to every address with an expired and a live entry |
| `ThreatIntel.LostThroughout` | src/araxys/threat_intel/resolver.py:103-106 | Such an address is not blocked again in any run throughout which it stays tracked |
| `ThreatIntel.PurgeKeepsStaticIff` | src/araxys/threat_intel/scheduler.py:202-217 | A purge leaves the static entries blocked if and only if no feed has listed one of them |
| `ThreatIntel.IPResolver.constructor` | src/araxys/threat_intel/resolver.py:33-48 | Nothing tracked, nothing seen |
| `ThreatIntel.IPResolver.Deduplicate` | src/araxys/threat_intel/resolver.py:59-108 | Every wanted address gets or extends its entry; the result lists the ones not seen before, each once; the seen set stays exact at every turn |
| `ThreatIntel.IPResolver.EvictExpired` | src/araxys/threat_intel/resolver.py:112-136 | Exactly the expired entries go, and an address leaves the seen set with its last entry, at every turn of the loop |
| `ThreatIntel.ThreatIntelScheduler.RefreshOne` | src/araxys/threat_intel/scheduler.py:219-303 | The whole new state of a refresh and both counts; a failed fetch changes nothing |
| `ThreatIntel.ThreatIntelScheduler.TrackAndBlock` | src/araxys/threat_intel/scheduler.py:263-270 | New addresses are tracked and blocked |
| `ThreatIntel.ThreatIntelScheduler.EvictAndUnblock` | src/araxys/threat_intel/scheduler.py:272-278 | Every evicted entry unblocks its address, tracked by another feed or not |
| `ThreatIntel.ThreatIntelScheduler.PurgeEverything` | src/araxys/threat_intel/scheduler.py:202-217 | Unblocks every tracked address, forgets everything, and counts entries rather than addresses |

## Left out

- Rbac.RBACEngine.AddRole: takes the parents list as a value; the source keeps the caller's list, so a caller that changes it afterwards, or `remove_role` changing it under the caller, is not captured.
- Rbac.RBACEngine.GetRolePermissions: returns a value; the source returns the cached set itself, which a caller could change.
- GraphQL.CostExactIff: excludes documents that define a fragment again after an operation has seen it, because there the charges of several operations can be too high and too low at once and cancel out; `GraphQL.CostChargesReplacedFragment` shows a charge that is too high.
- GraphQL.Validate: starts from a parsed document and ends with the verdict; syntax errors, HTTP bodies, error texts and emitted events are not captured. Limits on cost are multiples of one half.
- AuditChain.AuditLogger.Log: entries are data already serialized field by field; a caller's own `_chain` or `_prev` field, PII masking, encryption, shipping and reading the file back as JSON are not captured.
- RotatedAudit.RotatingLogger.VerifyIntegrity: the line format is a pair of functions that round-trip; encryption and malformed lines are not captured.
- LogRotation.LogWriter.Write: files are sequences of byte lines; failed file operations and negative backup counts are not captured.
- RateLimitBans.BanDurationMonotone: computes over the reals; from the violation count at which the float product overflows, the source raises and sets no ban.
- RateLimitBans.LongestReached: likewise; it describes the source where the cap is reached before the product overflows.
- RateLimit.RateLimiter.Check: the key strings, header formatting and the choice of a path override are not captured; the configuration per endpoint is a function.
- JwtRotation.JWTManager.CreateTokenPair: token binding, scopes, extra claims, audience, issuer and key selection are not captured; the wall clock and the monotonic clock are one clock.
- BruteForce.FailureBound: requests are handled one after another; interleaved requests of one identifier are not captured.
- SessionBackend.InMemorySessionBackend.GetSession: records are values; the source hands out the stored record itself. Metadata and events are not captured.
- DlqBackend.WebhookDLQBackend.DequeueEligible: ties between equal scores may be ordered either way; the source follows the sorted set's member order.
- DlqBackend.WebhookDLQBackend.PurgeByUrl: deletes over a snapshot of the keys; a cursor scan that repeats or misses keys, undecoded byte strings and malformed dates are not captured.
- DlqBackend.WebhookDelivery.DeliverWithRetry: building and signing the payload, the waits between posts and an enqueue that itself fails are not captured; to the consumer the last is a plain failure.
- ThreatIntel.IPResolver.EvictExpired: keys are pairs; the prefix test on concatenated strings, which can confuse IPv6 addresses, is not captured, and the exclusion test is a function.
- ThreatIntel.ThreatIntelScheduler.RefreshOne: feed lookup and fetching are reduced to a fetched list or a failure.
- GraphQL documents whose operations reach a cycle of fragments, on which the source's recursion does not end, and Python's limit on nesting.
- Redis, Sentinel and Cluster backends, and interleaving inside awaits.
- ASGI plumbing, routers, dependencies, the CLI, telemetry and the rest of the shield wiring: input, output or glue.
- Cryptography (JWT signatures, AES-GCM, SHA-256, certificate pins) beyond the stated assumptions.
- Regex and SQL detectors (sanitize, prompt injection, XXE, malware): pattern tables over libraries.
- CSRF, CORS, CSP, TOTP, WebAuthn counters, password strength and the WAF strike windows: they would only add easy members.
