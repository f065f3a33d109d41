# Verified model of the back end's stateful components

This project models, in Dafny 4.11, six parts of the Go back end whose promises span whole
runs rather than single calls, and proves those promises for every run.

| component | files | what is proved |
|---|---|---|
| Revision store | `Delta`, `Revisions`, `Chains`, `Retention`, `Classify`, `Pruning`, `MemoryStore`, `Pruner`, `DryRun`, `DryOrder`, `Skipped`, `History`, `PrunerRuns`, `SaveRules`, `KindRules`, `ListRules` | After any mix of saves and prunes over any posts, each surviving revision reads back as the document it was saved with, exactly when the snapshot it hangs from is fewer than 1024 deltas away; exactly when a save stores a full snapshot, and exactly which rows each field of a policy takes; prunes delete exactly the unneeded marked rows, and are idempotent; when both stores, or a dry run and a real one, select alike, and when the worker's skipped number is right, is stated exactly. |
| Hook bus | `Order`, `Bus`, `BatchFilters`, `SingleFilters`, `Dispatcher`, `DispatcherRuns` | Kahn's sort returns the least order of all, or fails exactly on a cycle; chains hold exactly the live registrations, independent of history; batched filters are the per-item runs side by side, with exact results when one stops; the keyed dispatcher loses, repeats and reorders nothing while its reaper is considerate, can always work off what it holds, and breaks from every state otherwise. |
| Rate limits | `TokenBucket`, `RedisBucket`, `MemoryLimiter`, `Lockout`, `LoginCheck`, `Allowances` | A call is denied exactly when some window would go over its allowance; the Lua script decides alike; expiry is never observed, and pruning exactly when it comes too soon; lockouts start and end exactly where the history of calls says; exactly when a registered email shows. |
| Redirects | `RedirectStore`, `RedirectEngine` | A lookup answers as a scan of the rules last loaded; hits are conserved across buffering and flushing; merged and one-by-one crediting are the same. |
| Audit chain | `AuditChain`, `AuditEncoding`, `AuditLog`, `AuditVerdicts`, `AuditTamper`, `AuditRange` | Exactly which events their canonical bytes determine; exactly which logs, with or without failed fetches, and which ranges of ids of one, pass verification; exactly which rewritings of a log pass. |
| Escaping | `XmlEscape` | Five whole-string passes are one map over the characters, and decoding undoes them. |

`Listings` (stable newest-first sorting and filtering) and `Permutations` are shared.

## How the model is built

Objects that the Go code updates in place are classes here, and each method is tied to a
specification function on values; the theorems about runs are lemmas about those functions.
The dispatcher, which is goroutines and channels, is a transition system whose steps are the
points at which goroutines can interleave. Locks make each store method one atomic step.

- Times are integers counted from Go's zero time. `Sub` saturates and `Seconds` wraps as 64-bit
  durations do. Tokens are reals. Counters and depths are unbounded integers.
- Clocks, fresh identifiers and the moment a Redis key is dropped are parameters.
- Libraries are parameters with explicit hypotheses: the diff/patch pair must round-trip
  (`Delta.Codec.RoundTrips`, which `JsonPatchRoundTrips` shows can be met by JSON Patch, section 4
  of RFC 6902), the MAC must be collision free, time stamps must be faithful, and regular
  expressions are three arbitrary functions.
- Where a function of the model serves both the code and its theorems, a law beside it says what it computes in the fields and
  numbers of the source alone (`SaveRules`, `KindRules`, `ListRules`, `SingleFilters`, `AuditRange`, `Allowances`,
  `HookOrder.Obeyed`).
- Metadata values of audit events are their rendered strings, so the number 1 and the text "1" are one value here,
  as they are one to the encoding.

## Where the code and its comments differ, and what is false

- `SnapshotEveryN` may be set above `maxChainDepth` (packages/go/revisions/store.go:34,65-70). Save
  then accepts a revision that Materialize refuses. `DeepSaveIsLost` is such a run and
  `ReadsBackExactlyWhen` the exact condition.
- `MaxSnapshotAge` is said to force a snapshot once that many seconds have passed since the last
  (packages/go/revisions/store.go:45-48). From 9223372037 seconds on its nanoseconds wrap
  (packages/go/revisions/memory.go:167), and then it does not: `AgeCapWorksExactlyWhen`.
- `RetentionPolicy.normalize` says it fills in defaults (packages/go/revisions/revision.go:203-206);
  it only clamps negative values. `NormalizeFillsExactlyWhen`: the two agree when no field with a
  default is zero, and only then.
- `MinKeepAll` is glossed as keeping everything from the last week (packages/go/revisions/revision.go:184-187);
  it lifts the count caps only (packages/go/revisions/memory.go:337-382). `RecentRowsKeptExactlyWhen`: a
  policy keeps every recent row if and only if its age rule is off or reaches no less far back;
  `DefaultPolicyDropsRecentAutosaves`: the default policy does not.
- `classifyForPrune` calls itself shared with the memory path (packages/go/revisions/postgres.go:585-586);
  the logic is written twice, and both copies are proved against one specification. But the in-memory store gives it
  the rows in insertion order and the Postgres store by time (packages/go/revisions/postgres.go:492-504). The two mark
  the same rows, under every policy, exactly when the unpinned rows of each group were inserted in listing order
  (`StoresMarkAlikeExactlyWhen`), and then delete the same rows (`StoresDeleteAlike`).
- `Stats.Skipped` is documented to count the rows past the keep window and the cap that stay all the same, because
  they are pinned or because the reachability sweep holds them back (packages/go/revisions/pruner.go:74-76,87-90); the
  code counts every pinned row and no other. It misses a row held back (`SnapshotIsHeldBack`) and counts a pinned
  row that is still inside the window (`PinnedInsideIsCounted`). `SkippedIsRightExactlyWhen`: it counts the documented
  rows exactly when every pinned row is outside the window and no marked row is the parent of an unmarked delta.
- A dry run says it reports the number a real run would delete (packages/go/revisions/pruner.go:343-346). It looks at
  the newest 1000 rows only, and takes them by time even when the store takes them in insertion order.
  When these orders agree, `DryRunAgainstReal` says exactly what it leaves out and `DryRunRightExactlyWhen` for which
  posts it is right under every policy; `OlderRowsAreMissed` is a post for which it is not. When they do not agree,
  even two rows suffice (`EarlierDeltaIsReported`); up to 1000 rows both mark the same rows, under every policy, exactly
  when the rows of each group that are not pinned were inserted in listing order (`DryRunMarksAlikeExactlyWhen`), and
  then the number is right (`DryRunOfOrderedGroups`).
- The reaper is described as conservative (packages/go/hooks/ordered.go:206-211), but a job longer than
  the idle timeout with nothing queued looks idle to it (`LongJobIsReaped`), and so does a worker whose
  producer has yet to send, which loses the job (`HeldWorkerIsReaped`).
- `ApplyBatch` says its short-circuit mirrors `ApplyFilters` (packages/go/hooks/bus.go:868-871); one item's
  short-circuit ends the run of every item (`FirstStopEndsAll`, `ZeroHoldsBackOne`). The two still agree exactly when
  the rest of the chain would have left the other items alone (`ShortCircuitAgreesExactlyWhen`).
- `ApplyBatch` also says an error gives back the last accepted slice, and that a result of the wrong length leaves the
  slice as it was (packages/go/hooks/bus.go:863-871). Writes show through both: `IgnoredWriteShows` is a batch where an
  ignored handler's write is given back although only the input was ever accepted. Whatever the chain, an error
  gives back the last accepted slice exactly when the writes made since, by ignored handlers and the failing one, leave
  it as it was (`ErrorShowsWritesExactlyWhen`).
- The login check is said to give registered and unregistered emails the same answers
  (packages/go/ratelimit/auth.go:30-34,147-153). Under every policy one attempt more than the email bucket
  holds, each from its own address, tells them apart (`RegistrationCanShow`); a run shows it exactly when an
  attempt its address admits finds the email's bucket empty (`RegistrationShowsExactlyWhen`).
- The canonical encoding is called injection-proof (packages/go/audit/chain.go:71-73). The rendered metadata
  determines the map, up to the rendering of its values, if and only if it has at most one entry and no `=`
  (`MetadataReadsBackExactlyWhen`), and a
  separator in any of the eight fields lets text move to a neighbour (`SeparatorCollides`); together, for metadata
  without separators, `EncodingReadsBackExactlyWhen`.
- The chain is said to detect any tampering with a prior row's content (packages/go/audit/chain.go:80-84). Of
  rewritings that blank no row it notices exactly those that change what the bytes show of a row other than the
  last, or the listing order (`TamperingIsNoticed`); so metadata can be forged unnoticed exactly when it is not
  plain (`MetadataForgedExactlyWhen`). With blank rows allowed, `TamperingPassesExactlyWhen` is exact and
  `BlankedLogPasses` is such a log. A row's stored hash is not covered by the next row's, so a row can vanish into
  the row before it (`MergedRowsPass`), while rows left as they were pass exactly when they are a contiguous stretch
  (`RowsPassExactlyWhenContiguous`).
- Audit ids are compared as text. An honest log of distinct events fails if its ninth and tenth rows share an instant
  (`TiedRowsRaiseAlarm`; exact condition in `HonestLogPassesExactlyWhen`), and so does the range from mem-1 to mem-2
  of one with ten rows (`NumberedRangeRaisesAlarm`; exact condition in `RangePassesExactlyWhen`).
- An event whose predecessor could not be fetched is stored without a hash, which the verifier is said to flag
  (packages/go/audit/emitter.go:243-250). It does so except at the first row it looks at: a log passes exactly when it
  is in listing order and every fetch but the first succeeded (`ChainedLogPassesExactlyWhen`; of longer logs and of
  ranges, `OrderedLogPassesExactlyWhen` and `ChainedRangePassesExactlyWhen`).
- Rows written before the chain was switched on are said not to fail the check by themselves
  (packages/go/audit/verify.go:20-25); the check fails as soon as there are two of them (`PreChainRowsPassExactlyWhen`).
- A Redis key is said to live at least twice the time of a full refill (packages/go/ratelimit/redis.go:138-140); rounding makes it
  up to two milliseconds less (`TtlIsTwiceRefill`), and `TtlCoversTwiceExactlyWhen` says when not. One refill is always covered
  (`TtlCoversRefill`).
- `ErrInvalidRule` is documented to cover patterns that do not compile (packages/go/redirects/store.go:30-33);
  Create and Update store such a rule (`UnclosedGroupIsStored`, `CreateRefusesExactlyWhen`, `UpdateRefusesExactlyWhen`),
  and it never answers (`BrokenRuleIsSilent`);
  `SkippingShowsExactlyWhen` says when a lookup still gives the answer of a scan that takes every pattern as sound.

## Model

| member | source | states |
|---|---|---|
| Delta.JsonPatchRoundTrips | packages/go/revisions/delta.go:18-82 | The law asked of the libraries, that applying a computed delta to the first document gives the second, is met by a concrete JSON Patch codec over nested objects. |
| Delta.DiffApplies | packages/go/revisions/delta.go:18-50 | The computed patch exists and takes any document to any other, member by member through nested objects. |
| Delta.ApplyUnder | packages/go/revisions/delta.go:58-82 | A patch aimed below one member changes that member as the patch would change it alone, and nothing else. |
| Chains.MaterializeExact | packages/go/revisions/memory.go:279-301 | Reading a row k deltas from its snapshot gives the saved document exactly while the walk stays under depth 1024, and ErrCorruptChain from there on. |
| Chains.LastSnapshotMeaning | packages/go/revisions/memory.go:137-146 | The backward search ends at a snapshot with no snapshot after it, or finds that there is none. |
| Chains.NewestHops | packages/go/revisions/memory.go:152-155 | A post always has a snapshot, and the row i places after the last one is exactly i deltas from it. |
| Chains.PersistedRow | packages/go/revisions/memory.go:117-193 | The row a save stores holds its document in full, or is a delta that takes the newest row's document to it, at the depth the caps allow; an unreadable parent makes it a snapshot. |
| Chains.SaveKeepsSound | packages/go/revisions/memory.go:77-112 | A valid save always succeeds and keeps the invariant: first row a snapshot, every delta's parent the row just before it, every row faithful to its document and steady in depth. |
| Chains.SaveStep | packages/go/revisions/memory.go:77-112 | A save that fails leaves the store as it was. |
| SaveRules.SaveRefusesExactlyWhen | packages/go/revisions/store.go:148-165 | A save is refused exactly for a missing post, a kind other than the three, or content that is absent or not JSON; else it gives the row's id. |
| SaveRules.StoredRow | packages/go/revisions/memory.go:77-112 | What it stores, field by field: the revision, the id and time filled in, its document in full or as a delta against the newest row of the post, no other row touched. |
| SaveRules.SnapshotExactlyWhen | packages/go/revisions/memory.go:117-193 | The row is a full snapshot exactly when it is forced, the post is new, SnapshotEveryN rows (20 by default) stand since the newest snapshot, MaxSnapshotAge (a day by default) has passed since it, or the newest row is too deep to be read. |
| SaveRules.AgeCapWorksExactlyWhen | packages/go/revisions/store.go:45-48 | The age cap is that of the documentation, for every difference of times, exactly when it is below 2^63 nanoseconds. |
| SaveRules.PgSnapshotExactlyWhen | packages/go/revisions/postgres.go:253-287 | The Postgres store decides by the same rules, from the latest snapshot time and the rows since then. |
| SaveRules.DeltasAreYoung | packages/go/revisions/memory.go:160-171 | In every run each surviving delta was made less than the MaxSnapshotAge of its own save after the snapshot it hangs from. |
| Retention.ReachesMeansRun | packages/go/revisions/memory.go:387-402 | Following DeltaFrom h times leads from row j to row i exactly when i is h places before j with only deltas between. |
| Retention.DeletesExactlyTheUnreached | packages/go/revisions/memory.go:322-402 | A row is deleted if and only if the caps or the age rule mark it and no unmarked row reaches it through DeltaFrom. |
| Retention.ParentSurvives | packages/go/revisions/memory.go:384-402 | Survivors are closed under DeltaFrom. |
| Retention.PermanentSurvives | packages/go/revisions/memory.go:331-336 | Permanent rows survive every policy. |
| Retention.SurvivorsFormChain | packages/go/revisions/memory.go:404-417 | Among the survivors each delta's parent is again the row just before it, and the first row is a snapshot. |
| Retention.StaysUnmarked | packages/go/revisions/memory.go:350-363 | A row the caps spared is spared again among the survivors. |
| Retention.StaysNeeded | packages/go/revisions/memory.go:384-402 | A row rescued for a descendant is still needed among the survivors, though it counts towards the caps. |
| Retention.PruneIdempotent | packages/go/revisions/memory.go:324-402 | A second prune with the same policy and clock selects nothing. No assumption on creation times is needed. |
| Retention.PolicyIsSafe | packages/go/revisions/pruner.go:288-303 | Whatever a Policy deletes is not permanent, is at least KeepWithin old, and has at least KeepLast newer rows. |
| Retention.RecentRowGoesExactlyWhen | packages/go/revisions/memory.go:337-382 | A row younger than MinKeepAll is deleted exactly when the age rule takes it and no unmarked row needs it. |
| Retention.RecentRowsKeptExactlyWhen | packages/go/revisions/memory.go:337-382 | A policy keeps every recent row of every post at every instant exactly when its age rule is off or MinKeepAll is no longer than MaxAgeAutosave. |
| Retention.DefaultPolicyDropsRecentAutosaves | packages/go/revisions/revision.go:193-201 | The default policy does not: a lone day-old autosave goes within the week. |
| Retention.NormalizeFillsExactlyWhen | packages/go/revisions/revision.go:203-225 | Normalizing gives the documented defaults exactly when no field that has one is zero. |
| Retention.DoomedInSuffix | packages/go/revisions/postgres.go:590-667 | Whether a row is deleted depends on no older row. |
| Retention.NewestDoomedIds | packages/go/revisions/pruner.go:305-312 | Classifying only the newest rows finds exactly the deletions among them, in the same order. |
| KindRules.MarkedIsSurplus | packages/go/revisions/memory.go:324-382 | The caps and the age rule mark, by kind and field: an unpinned manual row outside MinKeepAll exactly with MaxManual such newer ones, a publish row with MaxPublish, an autosave with MaxAutosavesPerAuthor of its author or at age MaxAgeAutosave; zero and negative fields are off. |
| KindRules.PruneDeletesExactlyWhen | packages/go/revisions/memory.go:306-419 | A prune deletes a row of the post exactly when it and every later row rebuilt through it are such rows. |
| KindRules.ZeroCapSparesKind | packages/go/revisions/revision.go:165-178 | With MaxPublish 0 no publish row is ever deleted, with MaxManual 0 no manual row, with both autosave fields 0 no autosave. |
| KindRules.ChosenIsSurplus | packages/go/revisions/postgres.go:590-678 | The classifier selects, of rows in any order, exactly such rows that no other row is rebuilt through. |
| KindRules.DefaultPolicyTakes | packages/go/revisions/revision.go:193-201 | The default policy in numbers: week-old manual rows with 20 newer, week-old autosaves with 5 newer or day-old ones, no publish row. |
| Classify.MarkOldestForDrop | packages/go/revisions/postgres.go:683-691 | Adds all but the newest `keep` ids to the marks. |
| Classify.OldestAreOverCap | packages/go/revisions/postgres.go:620-630 | Dropping the oldest of a group drops exactly the rows with at least the cap's number of counted, newer rows of the same group. |
| Classify.GroupCandidates | packages/go/revisions/postgres.go:593-618 | The counted rows of each author, the manual and the publish rows, oldest first; exempt rows in none. |
| Classify.DropOverCaps | packages/go/revisions/postgres.go:620-630 | Marks exactly the rows over the cap of their group. |
| Classify.MarkTooOld | packages/go/revisions/postgres.go:632-644 | Adds exactly the autosaves past the age limit that are not permanent. |
| Classify.RescueAncestors | packages/go/revisions/postgres.go:646-667 | For any candidates with distinct ids and no cycle of parents, in any order: removes from the marks exactly what lies above some unmarked row, one walk per row over a changing mark set. |
| Classify.WalkUp | packages/go/revisions/postgres.go:656-666 | One walk up the DeltaFrom pointers, which may leave the listing, unmarks everything above a row. |
| Classify.AboveReaches | packages/go/revisions/postgres.go:656-666 | What a walk meets is exactly what the row reaches through DeltaFrom in one hop or more. |
| Classify.SweptIsChosen | packages/go/revisions/postgres.go:646-667 | After the sweep exactly the marked rows that no unmarked row reaches are still marked, whatever the order of the candidates. |
| Classify.ChosenIsDoomed | packages/go/revisions/postgres.go:585-590 | On a chain, or the newest part of one, those are the rows the row-by-row specification deletes. |
| Classify.ClassifyForPrune | packages/go/revisions/postgres.go:590-678 | Returns exactly the ids of the marked rows no unmarked row reaches, oldest first. |
| Pruning.PruneSplitsRows | packages/go/revisions/memory.go:404-417 | A row leaves the store exactly when it is doomed, and leaves the post's list exactly then. |
| Pruning.PruneKeepsLinked | packages/go/revisions/memory.go:306-419 | A prune of one post keeps the chain invariant of every post. |
| Pruning.PruneKeepsSound | packages/go/revisions/memory.go:384-417 | A prune leaves every survivor's document and its distance from its snapshot as they were. |
| Pruning.PruneTwice | packages/go/revisions/memory.go:306-419 | Pruning a store twice is pruning it once. |
| MemoryStores.SortNewestSorts | packages/go/revisions/memory.go:220-228 | A listing is a permutation of the rows, newest first, ids descending among equals. |
| MemoryStores.ListingReversesInsertion | packages/go/revisions/memory.go:206-238 | With strictly increasing creation times a listing is the insertion order reversed. |
| ListRules.ListMeaning | packages/go/revisions/memory.go:206-238 | A listing shows only rows of the post in the time range, by the author and of the kind asked for, newest first, as many as there are up to the limit (100 by default), and leaves out none newer than one shown. |
| MemoryStores.MemoryStore.Save | packages/go/revisions/memory.go:77-112 | Rejects invalid input unchanged; otherwise stores the row of SaveStep and remembers the document, keeping the invariant. |
| MemoryStores.MemoryStore.FindLastSnapshot | packages/go/revisions/memory.go:137-146 | Finds the newest snapshot of a post's list. |
| MemoryStores.MemoryStore.DecideDelta | packages/go/revisions/memory.go:120-171 | Says delta exactly when nothing forces a snapshot: the flag, an empty list, the count cap or the age cap. |
| MemoryStores.MemoryStore.PersistedFromInput | packages/go/revisions/memory.go:117-193 | Produces the persisted row of the specification, errors and fallbacks included. |
| MemoryStores.MemoryStore.Materialize | packages/go/revisions/memory.go:269-301 | Gives the document the save was given while the row is fewer than 1024 deltas deep; otherwise, or for an unknown id, ErrCorruptChain. |
| MemoryStores.MemoryStore.ListNewest | packages/go/revisions/memory.go:206-238 | The rows that match the filter, newest first, up to the limit, 100 when none is given; filtering the whole listing afterwards gives the same. |
| MemoryStores.MemoryStore.GroupRows | packages/go/revisions/memory.go:324-348 | The second copy of the grouping loop fills the same groups. |
| MemoryStores.MemoryStore.MarkOverCaps | packages/go/revisions/memory.go:350-363 | Marks exactly the rows over their cap, as the Postgres copy does. |
| MemoryStores.MemoryStore.MarkTooOld | packages/go/revisions/memory.go:365-382 | Adds exactly the autosaves past the age limit. |
| MemoryStores.MemoryStore.KeepAncestors | packages/go/revisions/memory.go:384-402 | The second copy of the sweep, over stored rows, removes the same ids from the marks. |
| MemoryStores.MemoryStore.Apply | packages/go/revisions/memory.go:404-417 | Removes the marked rows from map and list, keeps the others in order, and counts them. |
| MemoryStores.MemoryStore.Prune | packages/go/revisions/memory.go:306-419 | Deletes what the specification deletes and returns its number, keeping the invariant and every document. |
| Pruners.DryRunClassify | packages/go/revisions/pruner.go:350-374 | From a newest-first listing, selects the marked rows no unmarked row reaches. |
| Pruners.PrunePost | packages/go/revisions/pruner.go:288-341 | Real runs prune the store; dry runs leave it and report the number the classifier selects from the 1000 rows shown, whatever the creation times; Skipped is the number of pinned rows shown. |
| DryRuns.ListingReversesExactlyWhen | packages/go/revisions/pruner.go:348-366 | Flipping the listing gives back the insertion order exactly when each row is later than those before it, or as late with a greater id. |
| DryRuns.DryRunAgainstReal | packages/go/revisions/pruner.go:305-333 | On such a post a real run deletes what the dry run reports and the doomed rows past the newest 1000, and the two numbers agree exactly when there are none. |
| DryRuns.ExpendableExactlyWhen | packages/go/revisions/pruner.go:288-303 | Some policy at some instant deletes a row exactly when it and every row rebuilt through it have a newer row in their group, none of them pinned. |
| DryRuns.DryRunRightExactlyWhen | packages/go/revisions/pruner.go:343-346 | On such a post the dry run is right, under every policy at every instant, exactly when no row it is not shown is one of those. |
| DryOrders.MarksAgreeExactlyWhen | packages/go/revisions/postgres.go:593-644 | Two orders of the same rows, one with each group oldest first, mark the same ids under every policy at every instant exactly when the other has each group oldest first too. |
| DryOrders.StoresMarkAlikeExactlyWhen | packages/go/revisions/postgres.go:492-504 | On any post the in-memory store and the Postgres store mark the same rows, whatever the policy and the instant, exactly when the unpinned rows of each group were inserted in listing order. |
| DryOrders.StoresDeleteAlike | packages/go/revisions/postgres.go:516-519 | And then both delete the same rows, whatever else is out of order. |
| DryOrders.DryRunMarksAlikeExactlyWhen | packages/go/revisions/pruner.go:348-366 | Up to 1000 rows a dry run marks what a real run marks, whatever the policy and the instant, exactly when the unpinned rows of each group were inserted in listing order. |
| DryOrders.DryRunOfOrderedGroups | packages/go/revisions/pruner.go:343-346 | And then it reports exactly the number a real run deletes. |
| SkippedRows.RetainedMeaning | packages/go/revisions/pruner.go:74-76 | The rows Skipped is documented to count are the pinned ones without those inside the window, and the ones held back; the numbers add up. |
| SkippedRows.HeldBackExactlyWhen | packages/go/revisions/pruner.go:74-76 | Some marked row is held back by the sweep exactly when some marked row is the parent of an unmarked delta. |
| SkippedRows.SkippedIsRightExactlyWhen | packages/go/revisions/pruner.go:87-90 | Of the rows the worker is shown, Skipped counts the documented ones exactly when every pinned row is outside the window and no marked row is the parent of an unmarked delta; it is short by the rows held back and over by the pinned rows inside the window. |
| SkippedRows.RealSkippedIsRightExactlyWhen | packages/go/revisions/pruner.go:314-322 | Up to 1000 rows the same is true of the rows as a real run takes them, in insertion order. |
| PrunerRuns.SnapshotIsHeldBack | packages/go/revisions/pruner.go:314-322 | Two saves after which a held-back snapshot goes uncounted. |
| PrunerRuns.PinnedInsideIsCounted | packages/go/revisions/pruner.go:314-322 | One save after which Skipped is 1 and the documented number 0. |
| PrunerRuns.EarlierDeltaIsReported | packages/go/revisions/pruner.go:348-366 | Two saves after which a dry run reports one row and a real run deletes none. |
| PrunerRuns.OlderRowsAreMissed | packages/go/revisions/pruner.go:305-312 | After any number of saves above 1000 a dry run reports fewer rows than a real run deletes. |
| Pruners.DecideSnapshot | packages/go/revisions/postgres.go:253-293 | The Postgres decision from its two queries, and the parent it would diff against. |
| Pruners.DecisionsAgree | packages/go/revisions/postgres.go:253-293 | With strictly increasing creation times the Postgres decision is a snapshot exactly when the in-memory one is, with the same parent. |
| Pruners.ReadersAgree | packages/go/revisions/postgres.go:459-485 | Both readers return the same result; they differ only in the error for an unknown id. |
| History.RunIsSound | packages/go/revisions/memory.go:77-193 | The chain invariant holds after every run of saves and prunes from an empty store. |
| History.HistoryTheorem | packages/go/revisions/memory.go:77-419 | After any run each surviving revision is as deep as its save put it, less than its SnapshotEveryN, and reads back as its document below depth 1024. |
| History.EveryRevisionReadsBack | packages/go/revisions/store.go:28-34 | With SnapshotEveryN at most 1024, every surviving revision of every run reads back as the document given to its save. |
| History.ReadsBackExactlyWhen | packages/go/revisions/store.go:65-70 | With no bound on SnapshotEveryN, a survivor reads back if and only if its save was not a delta exactly 1024 rows after the last snapshot. |
| History.DeepSaveIsLost | packages/go/revisions/store.go:28-34 | A run with SnapshotEveryN 1025 whose last save is accepted and can never be read. |
| HookOrder.BuildGraph | packages/go/hooks/order.go:87-127 | The adjacency sets hold exactly the before/after constraints between distinct subscribers, without double counting in the in-degrees. |
| HookOrder.AddEdge | packages/go/hooks/order.go:103-112 | Adds one edge once, keeping every in-degree the number of distinct predecessors. |
| HookOrder.Release | packages/go/hooks/order.go:166-170 | Taking a node lowers the in-degree of exactly its successors, so counts stay the number of untaken predecessors. |
| HookOrder.TopoSort | packages/go/hooks/order.go:74-173 | Succeeds with the first arrangement by input position in which every subscriber comes before those whose source its `before` names and after those its `after` names, or fails exactly when there is none, as on a cycle; then every leftover has a leftover that must precede it. |
| HookOrder.GreedyIsTopological | packages/go/hooks/order.go:138-171 | The picks form a permutation that meets every constraint. |
| HookOrder.GreedyIsLeast | packages/go/hooks/order.go:129-137 | Of all orders that meet the constraints it is the least by input position. |
| HookOrder.TopologicalIsObeyed | packages/go/hooks/order.go:114-126 | An order meets the constraint graph exactly when it meets the `before` and `after` lists of its subscribers. |
| HookOrder.CycleObeysNothing | packages/go/hooks/order.go:69-73 | With a cycle no arrangement meets the lists. |
| HookOrder.StuckMeansCycle | packages/go/hooks/order.go:149-165 | When nothing can be picked, the leftovers contain a cycle. |
| HookOrder.LeftoverHasLeftoverPredecessor | packages/go/hooks/order.go:69-73 | Every leftover of a failed sort waits for another leftover. |
| HookOrder.CycleMeansNoOrder | packages/go/hooks/order.go:69-73 | A cycle leaves no order that meets the constraints. |
| HookOrder.ForwardIsIdentity | packages/go/hooks/order.go:60-65 | When every constraint already points forward the sort cannot fail and returns the input. |
| HookBus.PrioritySortSorts | packages/go/hooks/bus.go:459-467 | The pre-sort is a permutation, lower priority numbers first, then lower tokens. |
| HookBus.OrderChain | packages/go/hooks/bus.go:546-564 | With or without the fast path: the first arrangement that meets every `before` and `after`, or an error exactly when there is none. |
| HookBus.ForwardOrder | packages/go/hooks/bus.go:553-558 | On a list whose constraints all point forward, as one without constraints, ordering changes nothing, so the fast path agrees with the slow one. |
| HookBus.OrderableExactlyWhen | packages/go/hooks/bus.go:546-564 | A chain can be ordered exactly when some arrangement meets its lists. |
| HookBus.CandidatesMeaning | packages/go/hooks/bus.go:448-467 | A registration is ordered from exactly the live registrations and itself, in priority order. |
| HookBus.RegisterOutcome | packages/go/hooks/bus.go:439-492 | A registration is refused exactly for naming its own source or when no arrangement of the live ones and itself meets the lists, and then changes nothing; otherwise the chain is the live registrations and the newcomer. |
| HookBus.OrderForgetsHistory | packages/go/hooks/bus.go:446-491 | Slots with the same live registrations accept the same newcomer and publish the same chain, whatever their history. |
| HookBus.RebuildKeepsOrder | packages/go/hooks/bus.go:509-534 | An unsubscribe's re-sort cannot fail and keeps the survivors' relative order. |
| HookBus.ChainIsWhatIsSubscribed | packages/go/hooks/bus.go:415-536 | Over every run of registrations and split unsubscribes, the live part of the chain is exactly the accepted, still active registrations, in an order that meets every `before` and `after` among them. |
| HookBus.HookSlot.Register | packages/go/hooks/bus.go:439-492 | Accepts exactly the acceptable and publishes the specified chain. |
| HookBus.HookSlot.Unsubscribe | packages/go/hooks/bus.go:509-534 | Deactivates, prunes the tombstones and re-sorts. |
| BatchFilters.ApplyFilters | packages/go/hooks/bus.go:766-823 | Threads the value through the active handlers; errors give the last accepted value, a short-circuit its own. |
| SingleFilters.FilterOutcome | packages/go/hooks/bus.go:780-823 | A rejected value comes back untouched; otherwise each handler accepts what the one before made, to the end or to the first that ends the chain: an error or panic gives back the last accepted value, a short-circuit its own value and no error. |
| SingleFilters.FirstStopEndsOne | packages/go/hooks/bus.go:804-821 | The first handler to stop a value with a fault gives back what went through before it, with that fault; a short-circuit its own value without one. |
| SingleFilters.BatchRejected | packages/go/hooks/bus.go:884-900 | A batch is rejected whole, unchanged, for its first item that the schema rejects. |
| BatchFilters.InvokeBatch | packages/go/hooks/bus.go:1014-1072 | One handler over the slice, which it may write: batch call or loop, with the panic, error and short-circuit returns of each, and what the slice holds afterwards. |
| BatchFilters.ApplyBatch | packages/go/hooks/bus.go:872-947 | The chain over a copy of the slice, a result of another length being ignored; the caller's array is never written, whatever the handlers write into theirs. |
| BatchFilters.BatchIsItemwise | packages/go/hooks/bus.go:917-946 | If each item's own run goes through and batch handlers act item by item, ApplyBatch is ApplyFilters on each item. |
| BatchFilters.FirstStopEndsAll | packages/go/hooks/bus.go:1051-1071 | The first handler to stop any item, at its first such item, fixes the whole result, whether a batch handler or a per-item one: what every item becomes and what error is returned. |
| BatchFilters.StopsSomewhere | packages/go/hooks/bus.go:917-946 | A batch that does not go through has such a first handler and item. |
| BatchFilters.BatchFailsExactlyWhen | packages/go/hooks/bus.go:917-946 | Without short-circuits the batch returns an error exactly when some item alone would. |
| BatchFilters.ShortCircuitAgreesExactlyWhen | packages/go/hooks/bus.go:868-871 | A batch stopped by a short-circuit agrees with the per-item runs exactly when the rest of the chain would have left the other items as they are. |
| BatchFilters.ZeroHoldsBackOne | packages/go/hooks/bus.go:1053-1066 | A chain and two items on which the batch and the per-item runs differ. |
| BatchFilters.ErrsExactlyWhen | packages/go/hooks/bus.go:917-933 | A batch returns an error exactly when some handler that is reached fails or panics. |
| BatchFilters.ErrorShowsWritesExactlyWhen | packages/go/hooks/bus.go:868-871 | Then it gives back the last accepted slice with the writes made since put over it, which is the last accepted slice exactly when those writes leave it as it was. |
| BatchFilters.IgnoredWriteShows | packages/go/hooks/bus.go:935-944 | A chain and a batch on which they do not: a handler whose result was ignored shows in what the caller gets. |
| Dispatcher.StepKeeps | packages/go/hooks/ordered.go:226-392 | Each atomic step of producers, workers and a considerate reaper keeps the invariant: one live worker per key, order, accounting, wait-group balance. |
| Dispatcher.DispatcherIsSafe | packages/go/hooks/ordered.go:257-392 | In every run with a considerate reaper, same-key jobs run one at a time in send order, none is lost or repeated, and the wait group counts pending, queued and running jobs, timeouts included. |
| Dispatcher.WaitMeansDone | packages/go/hooks/ordered.go:286-291 | At wait-group zero nothing is pending and every job sent has finished, in send order. |
| DispatcherRuns.ReapedExactlyWhen | packages/go/hooks/ordered.go:226-252 | In every run a worker can be reaped exactly when it is the one of its key, its channel is empty, and the idle timeout it was made with (30 seconds by default) has passed since it was made, last sent to or last done with a job. |
| DispatcherRuns.BufferIsKept | packages/go/hooks/ordered.go:273-276 | No channel ever holds more than the buffer its worker was made with, 64 by default. |
| DispatcherRuns.GivenUpWhenFull | packages/go/hooks/ordered.go:302-325 | A job is given up only after its producer found the channel full. |
| DispatcherRuns.OneAfterTheOther | packages/go/hooks/ordered.go:347-356 | When a job has started, all jobs of its key sent before it have finished. |
| DispatcherRuns.LeavingDrainsFirst | packages/go/hooks/ordered.go:378-392 | In every run, considerate or not, a job is left with a worker that is gone only when it was sent after the worker had left. |
| DispatcherRuns.NothingAfterExit | packages/go/hooks/ordered.go:358-392 | A worker that has left takes no job. |
| DispatcherRuns.CanDrain | packages/go/hooks/ordered.go:357-392 | From every sound state the workers can work everything off, without reaps and without giving up. |
| DispatcherRuns.WaitCanEnd | packages/go/hooks/ordered.go:286-291 | So in every considerate run waiting can end, with every job finished that was not given up. |
| Dispatcher.UnquietReapBreaks | packages/go/hooks/ordered.go:226-252 | The condition is exact: from any sound state, reaping a worker that runs a job or is held by a producer can lead to two same-key jobs at once or to a lost job. |
| Dispatcher.LongJobIsReaped | packages/go/hooks/ordered.go:230-246 | Such a reap is reachable: a long job with an empty queue looks idle. |
| Dispatcher.HeldWorkerIsReaped | packages/go/hooks/ordered.go:293-311 | So is the other kind: a worker whose producer has yet to send is reaped, and its job is then sent to nobody. |
| TokenBucket.AvailableBelowEveryWindow | packages/go/ratelimit/memory.go:67-94 | The tokens found never exceed what any window leaves over. |
| TokenBucket.SomeWindowIsTight | packages/go/ratelimit/memory.go:67-94 | And equal what some window, starting at a call or now, leaves over. |
| TokenBucket.DeniedExactlyWhenOverAllowance | packages/go/ratelimit/memory.go:67-94 | A call is denied exactly when admitting it would put more than Capacity + RefillRate * (now - s) admissions into the window from some call time s. |
| Allowances.AllowedExactlyWhen | packages/go/ratelimit/memory.go:67-94 | In every run a call is let through exactly when, from each call up to it, those let through since then and it are at most Capacity and RefillRate per second of the time between. |
| TokenBucket.NoWindowExceedsAllowance | packages/go/ratelimit/memory.go:67-94 | No window, wherever it starts and ends, holds more admissions than its allowance. |
| TokenBucket.DeniedCallsAreFree | packages/go/ratelimit/memory.go:72-94 | Removing any set of denied calls from a run changes no other decision. |
| TokenBucket.HintIsTight | packages/go/ratelimit/memory.go:87-94 | Waiting the hint admits the next call; waiting two nanoseconds less never does. |
| TokenBucket.HintIsKept | packages/go/ratelimit/memory.go:87-94 | The hint stays good however many denied calls come in between. |
| RedisBucket.TokenBucketScript | packages/go/ratelimit/redis.go:58-95 | The script's new hash, decision, expiry and millisecond hint. |
| RedisBucket.TtlCoversRefill | packages/go/ratelimit/redis.go:138-145 | The computed TTL is at least the time of a full refill. |
| RedisBucket.ExpiredIsFull | packages/go/ratelimit/redis.go:138-145 | A key past its TTL would have been found full anyway. |
| RedisBucket.LimitersAgree | packages/go/ratelimit/redis.go:58-95 | On nondecreasing millisecond times, whenever Redis drops expired keys, the script and the in-memory limiter make the same decisions. |
| RedisBucket.RedisHintSuffices | packages/go/ratelimit/redis.go:86-89 | Waiting the script's hint admits the call. |
| RedisBucket.RedisHintIsLeast | packages/go/ratelimit/redis.go:80-92 | Waiting any fewer milliseconds than the hint does not. |
| RedisBucket.SetBackAgreesExactlyWhen | packages/go/ratelimit/redis.go:75-79 | On a clock set back the script adds nothing while the in-memory bucket takes tokens back, and they decide the next call alike exactly when that leaves a token or there was none. |
| Allowances.TtlIsTwiceRefill | packages/go/ratelimit/redis.go:136-146 | The key lives twice the time of a full refill, to the even millisecond below, and at least a minute. |
| Allowances.TtlCoversTwiceExactlyWhen | packages/go/ratelimit/redis.go:138-140 | That is at least twice the time exactly when the minute decides or a full refill takes whole milliseconds. |
| MemoryLimiters.PruningIsUnobservable | packages/go/ratelimit/memory.go:109-124 | Over runs with many keys, resets included, prunes that leave a nanosecond more than `idle` for a full refill change no decision. |
| MemoryLimiters.PrunesShowExactlyWhen | packages/go/ratelimit/memory.go:109-124 | Prunes with a given idle are unobservable in every run if and only if that much time refills a bucket. |
| Allowances.KeyDecidesAlone | packages/go/ratelimit/memory.go:67-94 | A call on a key is decided as if there were only the calls on that key since its last reset. |
| Allowances.PruneForgetsExactlyWhen | packages/go/ratelimit/memory.go:102-124 | A prune forgets a key exactly when its last call is more than the idle time back. |
| MemoryLimiters.MemBucket.Take | packages/go/ratelimit/memory.go:67-94 | Refill, cap and take as specified; the hint on denial. |
| MemoryLimiters.MemoryLimiter.Allow | packages/go/ratelimit/memory.go:58-95 | Decides from the key's own bucket and changes no other key. |
| MemoryLimiters.MemoryLimiter.PruneIdle | packages/go/ratelimit/memory.go:109-124 | Removes exactly the keys untouched since the cutoff and counts them; a nonpositive idle removes nothing. |
| Lockout.RowMeaning | packages/go/ratelimit/failure_store.go:77-110 | A user's counter is the failures since their last success, and the row is locked exactly while a lock not ended by a success is unexpired. |
| Lockout.EventsExactlyWhen | packages/go/ratelimit/auth.go:224-272 | A call emits a lock event exactly when it is a failure that finds the streak at the threshold and no lock open, and an unlock event exactly when it is a success that finds one open. |
| Lockout.LockedSinceThreshold | packages/go/ratelimit/auth.go:240-250 | A user was locked since their last success exactly when the streak reached the threshold. |
| Lockout.FirstLockAtThreshold | packages/go/ratelimit/auth.go:240-250 | The first lock after a success or the start comes at exactly the threshold-th failure, and always comes there. |
| Lockout.LocksAreSpaced | packages/go/ratelimit/auth.go:232-239 | Lock events with no success between them are at least the window apart. |
| Lockout.ExpiredLockRelocks | packages/go/ratelimit/auth.go:240-247 | After a lock expires without a success, the very next failure locks again. |
| Lockout.Settings.Defaulted | packages/go/ratelimit/auth.go:92-99 | The settings in use are always positive, and are the given ones when those are. |
| Lockout.LoginAttempts.RecordFailure | packages/go/ratelimit/auth.go:224-250 | Returns true and emits a lock event exactly when the history of calls calls for it; an empty user changes nothing. |
| Lockout.LoginAttempts.RecordSuccess | packages/go/ratelimit/auth.go:254-272 | Clears the row and emits an unlock event exactly when a lock was open. |
| Lockout.LoginAttempts.IsLocked | packages/go/ratelimit/auth.go:282-294 | True exactly while a lock of the call history is open, with its expiry. |
| LoginCheck.LoginThrottle.Check | packages/go/ratelimit/auth.go:154-194 | Address bucket first, email bucket only for known emails; verdict, buckets and audit events as specified; a failing limiter lets the attempt through with an error. |
| Allowances.VerdictTells | packages/go/ratelimit/auth.go:154-194 | The verdict on the next attempt of any run: refused for the address by the calls from it, else for a given and registered email by the attempts on it that addresses let through, with that bucket's wait, else let through. |
| LoginCheck.RegistrationShowsExactlyWhen | packages/go/ratelimit/auth.go:147-176 | The verdicts of a run change if an email turns out unregistered exactly when some attempt on it, admitted by its address, finds the email bucket empty. |
| LoginCheck.RegistrationCanShow | packages/go/ratelimit/auth.go:30-34 | Under every valid policy capacity + 1 attempts at one instant from distinct addresses end in a refusal if the email is registered and in a pass if it is not. |
| LoginCheck.UnknownEmailsAreInvisible | packages/go/ratelimit/auth.go:142-145 | Two runs that differ only in which unregistered addresses they name give the same verdicts and leave the same buckets. |
| LoginCheck.NoWindowPassesMore | packages/go/ratelimit/auth.go:154-194 | Whatever other addresses do and whatever emails are tried, no window passes one address more attempts than its policy allows. |
| RedirectStore.EditsKeepRules | packages/go/redirects/store.go:511-578 | Create, Update and Delete keep rules valid, stored under their id, and unique by source and kind. |
| RedirectStore.CreateWrites | packages/go/redirects/store.go:511-529 | Create field by field: the four statuses, nonempty source and destination, no second rule of the source and kind, a new rule with no hits; errors change nothing. |
| RedirectStore.UpdateWrites | packages/go/redirects/store.go:541-571 | Update field by field: source, destination, status and kind change, hits, times and author stay; errors change nothing. |
| RedirectStore.MergingChangesNothing | packages/go/redirects/store.go:373-418 | Merging deltas per rule and crediting once equals crediting one by one, for every list, repeats, nonpositive counts and missing rules included. |
| RedirectStore.CreditMeaning | packages/go/redirects/store.go:615-640 | Crediting changes only counters of existing rules: each count grows by the positive total for it, the last hit becomes the latest time seen. |
| RedirectStore.SnapshotIsUnique | packages/go/redirects/store.go:602-613 | With distinct creation times there is one listing, whatever the map order. |
| RedirectStore.InMemoryStore.Create | packages/go/redirects/store.go:511-529 | Invalid, then duplicate, then a fresh rule with zero counters; errors change nothing. |
| RedirectStore.InMemoryStore.Update | packages/go/redirects/store.go:541-571 | Invalid, then missing, then duplicate of another rule; otherwise the editable fields change and counters and provenance stay. |
| RedirectStore.InMemoryStore.Snapshot | packages/go/redirects/store.go:602-613 | Every rule once, oldest first. |
| RedirectStore.InMemoryStore.BulkIncrementHits | packages/go/redirects/store.go:615-640 | Credits the deltas one after another. |
| RedirectStore.PgxStore.BulkIncrementHits | packages/go/redirects/store.go:373-418 | Merge, early exits and one update leave what the one-by-one pass leaves. |
| RedirectEngine.LookupIsScan | packages/go/redirects/engine.go:157-230 | The index of a listing answers as a scan of the rules: the literal rule if any, else the oldest matching pattern that compiles, else nothing. |
| RedirectEngine.AnswerIsUnique | packages/go/redirects/engine.go:190-193 | With distinct creation times a scan has only one answer. |
| RedirectEngine.CreateRefusesExactlyWhen | packages/go/redirects/store.go:30-33 | Create refuses as invalid what is documented, except exactly the otherwise valid rules whose pattern does not compile. |
| RedirectEngine.UpdateRefusesExactlyWhen | packages/go/redirects/store.go:541-571 | So does Update, except exactly the otherwise valid rules under an id whose pattern does not compile; those that exist and are not duplicates it stores. |
| RedirectEngine.BrokenRuleIsSilent | packages/go/redirects/engine.go:170-177 | Such a rule is stored and listed, and answers no lookup. |
| RedirectEngine.UnclosedGroupIsStored | packages/go/redirects/store.go:511-529 | A rule with an unclosed group is one. |
| RedirectEngine.SkippingShowsExactlyWhen | packages/go/redirects/engine.go:160-163 | A lookup gives the answer of a scan that takes every pattern as sound exactly when it found a rule that comes before every broken one the path would match. |
| RedirectEngine.LookupsAnswerFromLastLoad | packages/go/redirects/engine.go:151-156 | In every run of edits, reloads, lookups and flushes a lookup answers as a scan of the rules as last loaded. |
| RedirectEngine.AnswerTells | packages/go/redirects/engine.go:194-230 | What the caller is told in any run: the id, status and kind of the rule, its destination, into which a pattern expands the path; and no rule of the last load that fires comes before it. |
| RedirectEngine.HitsAreConserved | packages/go/redirects/engine.go:236-330 | In every run, stored plus pending hits of a live rule are the lookups it answered. |
| RedirectEngine.LastHitIsLatest | packages/go/redirects/engine.go:236-258 | On a clock that never runs back, stored and pending times give the rule's latest hit. |
| RedirectEngine.FlushedCountsAreExact | packages/go/redirects/engine.go:298-330 | After a flush the store alone has every count and time. |
| RedirectEngine.Engine.Reload | packages/go/redirects/engine.go:157-185 | Indexes a snapshot of the store, skipping patterns that do not compile; the stable sort leaves ties as listed. |
| RedirectEngine.Engine.Match | packages/go/redirects/engine.go:194-230 | Answers from the index with the rule's id, status, kind and destination, expanding patterns, and counts exactly the answered rule. |
| RedirectEngine.Engine.Drain | packages/go/redirects/engine.go:298-326 | Empties the pending map into deltas that merge back to it, whatever the order. |
| RedirectEngine.Engine.Flush | packages/go/redirects/engine.go:298-330 | Adds every pending tally to its rule and leaves nothing pending. |
| AuditChain.CanonicalMetadata | packages/go/audit/chain.go:119-136 | The rendering depends on the map only, keys in ascending order. |
| AuditChain.CanonicalBytes | packages/go/audit/chain.go:85-110 | The nine separated fields, an empty stamp for the zero time, then the metadata. |
| AuditRange.CanonicalLayout | packages/go/audit/chain.go:85-110 | Event type, actor, plugin, resource type and id, address, user agent, severity and stamp, each ended by the character 1F, then the metadata. |
| AuditChain.ChainHash | packages/go/audit/chain.go:144-155 | Empty for a zero event, otherwise the MAC of the canonical bytes. |
| AuditChain.JoinedInjective | packages/go/audit/chain.go:71-73 | Separator-free fields are recovered from the joined bytes. |
| AuditChain.PairsInjective | packages/go/audit/chain.go:128-135 | Keys without `=` and values without `;` are recovered from the rendered pairs. |
| AuditChain.CanonicalInjective | packages/go/audit/chain.go:85-136 | Two events whose fields hold no separator, keys no `=` and values no `;` have equal canonical bytes only if they agree on every hashed field. |
| AuditEncoding.BytesTellHashed | packages/go/audit/chain.go:85-110 | If one event holds no separator, equal bytes mean equal fields, times and rendered metadata, whatever the other event holds; and conversely. |
| AuditEncoding.MetadataReadsBackExactlyWhen | packages/go/audit/chain.go:119-136 | A metadata map is, up to the rendering of its values, the only one with its rendering if and only if it has at most one entry and no `=` in its key or value. |
| AuditEncoding.NotPlainCollides | packages/go/audit/chain.go:128-135 | Every other map shares its rendering with another map, of one entry. |
| AuditEncoding.SeparatorCollides | packages/go/audit/chain.go:71-73 | Any event with a separator in one of its eight fields shares its bytes with an event of other fields. |
| AuditEncoding.EncodingReadsBackExactlyWhen | packages/go/audit/chain.go:62-84 | For metadata without separators, the bytes determine every hashed field, up to the rendering of metadata values, if and only if the eight fields hold no separator and the metadata is a single plain pair or empty. |
| AuditLog.MemoryStore.Emit | packages/go/audit/memory.go:66-79 | Refuses an invalid event and changes nothing; otherwise appends one normalized row under its own id, or under the next number, never an empty one. |
| AuditLog.Emitter.Emit | packages/go/audit/emitter.go:220-253 | After any run of emits, failed fetches included: refuses an invalid event, otherwise appends it with the hash of the row before it, or with none when that row cannot be fetched, and every row keeps the hash its emit gave it. |
| AuditRange.EmitWrites | packages/go/audit/memory.go:66-79 | The stored row field by field: time, severity info, user agent of at most 1024 and number filled in, the hash of the row before it; refused exactly for a missing type or unknown severity. |
| Listings.SortArranges | packages/go/audit/memory.go:97-106 | A stable listing by any strict order rearranges its input without loss or repetition, newer first, ties in input order. |
| Listings.FilterThenSort | packages/go/revisions/memory.go:207-228 | Filtering before or after sorting gives the same listing. |
| AuditLog.ReverseEvents | packages/go/audit/verify.go:107-111 | Reverses the array in place. |
| AuditLog.VerifyChain | packages/go/audit/verify.go:36-94 | Passes exactly when every consecutive pair of the rows in range, among the newest thousand, links; an empty key is an error. |
| AuditRange.WindowMeaning | packages/go/audit/verify.go:36-54 | The rows checked are the newest thousand, by time and then id, oldest first. |
| AuditRange.PassesExactlyWhen | packages/go/audit/verify.go:56-92 | The check passes exactly when, of those, each row with an id from fromID to toID, both included, carries the hash of the one before it in the range; "" and, below, "0" are no bound. |
| AuditRange.OrderedRangePassesExactlyWhen | packages/go/audit/verify.go:16-29 | With increasing ids: exactly when every two consecutive rows in the range link, those bearing the bounds among them. |
| AuditVerdicts.LinkExactlyWhen | packages/go/audit/verify.go:75-92 | Exactly which rows the hash stored in a row of an honest log accepts before it: a blank one before the first, otherwise those with the hashed content of the row that was there. |
| AuditVerdicts.ListPassesExactlyWhen | packages/go/audit/verify.go:75-92 | Any list of rows whose stored hashes come from an honest log passes exactly when each row but the last has the content its successor's hash was computed from. |
| AuditVerdicts.RowsPassExactlyWhenContiguous | packages/go/audit/verify.go:75-92 | Rows of an honest log of distinct events, in any order, pass exactly when they are a contiguous stretch of it. |
| AuditVerdicts.ChainedLinkExactlyWhen | packages/go/audit/verify.go:75-92 | Exactly which rows the hash stored in a row accepts before it, when fetches may have failed. |
| AuditVerdicts.ChainedRowsPassExactlyWhen | packages/go/audit/verify.go:75-92 | Rows of an emitter's log, in any order, pass exactly when they are a contiguous stretch of it whose rows after the first all had their predecessor fetched. |
| AuditVerdicts.ChainedLogPassesExactlyWhen | packages/go/audit/verify.go:36-94 | A log of at most a thousand distinct events passes exactly when it is in listing order and every fetch but the first succeeded. |
| AuditVerdicts.OrderedLogPassesExactlyWhen | packages/go/audit/verify.go:36-94 | A log in listing order, however long, passes exactly when every row of its newest thousand but the first had its predecessor fetched. |
| AuditVerdicts.ChainedRangePassesExactlyWhen | packages/go/audit/verify.go:56-65 | A range check passes exactly when no row between two rows of the range is left out of it and every row of it but the first had its predecessor fetched. |
| AuditVerdicts.UnchainedRowIsNoticed | packages/go/audit/emitter.go:247-249 | A row stored without a hash after a row that is not blank is always noticed. |
| AuditRange.PreChainRowsPassExactlyWhen | packages/go/audit/verify.go:20-25 | An untampered log whose first rows carry no hash passes exactly when there is at most one of them. |
| AuditVerdicts.HonestLogPassesExactlyWhen | packages/go/audit/verify.go:75-92 | An honest log of at most a thousand distinct events passes exactly when each row is later than those before it, or as late with a greater id. |
| AuditVerdicts.RangePassesExactlyWhen | packages/go/audit/verify.go:56-65 | A range check of an honest log passes exactly when no row between two rows of the range is left out of it. |
| AuditVerdicts.NumberedRangeRaisesAlarm | packages/go/audit/verify.go:58-63 | In every log of ten rows or more numbered by the store the range from mem-1 to mem-2 fails. |
| AuditVerdicts.HonestLogPasses | packages/go/audit/verify.go:75-92 | An honest log in listing order, as any strictly increasing clock gives, passes, however long. |
| AuditVerdicts.TiedRowsRaiseAlarm | packages/go/audit/memory.go:101-106 | Whatever distinct events an emitter stores, if the ninth and tenth emits read the same clock the untouched log fails. |
| AuditTamper.TamperingIsNoticed | packages/go/audit/verify.go:75-92 | Of rewritings that blank no row, and write anything else, the check passes exactly those that keep the listing order and, in every row but the last, the fields, the time and the rendered metadata. |
| AuditTamper.TamperingPassesExactlyWhen | packages/go/audit/verify.go:75-92 | With any rewriting at all: those, and the ones where a row was blanked, slipped to the front, and the row before it took over its content. |
| AuditTamper.BlankedLogPasses | packages/go/audit/chain.go:145-151 | Every log of two rows or more has such a rewriting that passes and changes a row other than the last. |
| AuditTamper.MetadataForgedExactlyWhen | packages/go/audit/chain.go:80-84 | The metadata of a row other than the last can be replaced unnoticed if and only if it is not a single plain pair or empty. |
| AuditTamper.MergedRowsPass | packages/go/audit/chain.go:80-84 | Any row but the first can vanish into the row before it unnoticed: a passing list need not be a contiguous stretch of the log. |
| XmlEscape.IndexOf | tools/migrate-corpus/wxr.go:329-340 | The first position where the substring occurs, -1 exactly when it occurs nowhere. |
| XmlEscape.ReplaceAll | tools/migrate-corpus/wxr.go:313-327 | Replaces the leftmost occurrences that do not overlap; an empty pattern changes nothing. |
| XmlEscape.ReplacedMeaning | tools/migrate-corpus/wxr.go:313-327 | The first occurrence is replaced and what follows it treated the same way; without one nothing changes. |
| XmlEscape.ReplacingOneCharacter | tools/migrate-corpus/wxr.go:313-327 | For a one-character pattern that is a map over the characters. |
| XmlEscape.FivePassesAreOne | tools/migrate-corpus/wxr.go:294-309 | The five passes in their order are one map over the characters: none touches what an earlier one inserted. |
| XmlEscape.Escape | tools/migrate-corpus/wxr.go:294-309 | The loop over the replacement table computes that map. |
| XmlEscape.EscapedAt | tools/migrate-corpus/wxr.go:294-309 | Escaping goes character by character: `&amp;`, `&lt;`, `&gt;`, `&quot;` and `&apos;` for the five, every other character itself. |
| XmlEscape.DecodeUndoesEscape | tools/migrate-corpus/wxr.go:294-309 | Decoding the five predefined entities (section 4.6 of XML 1.0) gives back every string. |
| XmlEscape.EscapedIsInert | tools/migrate-corpus/wxr.go:294-309 | No angle bracket or quote is left in the output. |
| XmlEscape.EscapeIsInjective | tools/migrate-corpus/wxr.go:294-309 | Two inputs never share an output. |

## Left out

- Pruners.PrunePost: the store is the in-memory one; the duration of the run, the posts visited and the notes are not modelled.
- Pruners.DecideSnapshot: the queries are functions of the post's rows; SQL execution, transactions and row locks are not modelled, nor is PruneLocked, whose candidate list omits permanent rows.
- MemoryStores.MemoryStore.ListNewest: Latest and Get, which are lookups, have no members of their own.
- MemoryStores.MemoryStore.Save: callers use new identifiers and leave the persisted slots empty, as the interface asks (packages/go/revisions/store.go:79-84); title, excerpt, comment and content hash are carried along and never read.
- Delta.JsonPatchRoundTrips: the concrete codec uses add, remove and replace on object members and replaces arrays whole; the libraries' own move, copy and test operations and the encoding of JSON text are abstract.
- Delta.DiffApplies: a diff of this project's own stands for the library behind ComputeDelta, to show that the round trip asked of it can be met.
- Delta.ApplyUnder: covers the three operations of that codec.
- RedirectEngine.HitsAreConserved: steps are atomic and writes succeed; the races between a hit and a flush inside their sub-steps, and deltas discarded by a failed write, are not modelled.
- RedirectStore.InMemoryStore.Create: the identifier is a parameter that was never used before; Get and List are lookups.
- Dispatcher.DispatcherIsSafe: a send and its timestamp are one step, the handlers a job runs and context cancellation beyond giving up are not modelled, and reaps must be of workers neither running nor held, which UnquietReapBreaks shows is needed.
- HookBus.RebuildKeepsOrder: claims the survivors' relative order only; the closure does not restore priority order.
- BatchFilters.ApplyBatch: the batch adapter belongs to its own registration; the table keyed on the current sequence number is not modelled. Handlers write only the slice they are given, and only before they return.
- TokenBucket.DeniedExactlyWhenOverAllowance: exact arithmetic; floating-point rounding and 64-bit overflow of the retry duration are not modelled.
- LoginCheck.LoginThrottle.Check: the email normalization is a parameter, and that a limiter fails is one too.
- LoginCheck.UnknownEmailsAreInvisible: compares unregistered emails with each other; that registered ones can be told apart is RegistrationCanShow.
- Lockout.LoginAttempts.RecordFailure: the store is the in-memory one; PostgresFailureStore is SQL.
- AuditEncoding.MetadataReadsBackExactlyWhen: metadata values are their renderings; that values of different types share one is not modelled.
- AuditEncoding.EncodingReadsBackExactlyWhen: metadata that holds separators is left out, since what it can be mistaken for depends on which texts are time stamps.
- AuditTamper.TamperingPassesExactlyWhen: logs of at most 1000 rows with times after the zero time, whose stored ids and hashes stay; longer logs are checked in their newest part only.
- AuditLog.Emitter.Emit: the fields taken from the request are not modelled; HMAC-SHA256 and the RFC 3339 stamp are parameters.
- Metrics, logging, HTTP middleware, SMTP, configuration, migrations, the administration UI, menus, custom fields and translations: plumbing and easy members.
