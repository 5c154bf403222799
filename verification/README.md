# Verified model of the kine store

kine serves the etcd API from a log kept in an SQL table. This project models the parts of it
whose correctness is not local to one function, and proves what they promise.

* **The SQL log as a concurrent protocol.** Any number of nodes share one table. A write is a read,
  a decision, the load of the cached revision, the reservation of an id, an insert that the primary
  key and the unique index on (name, prev_revision) may refuse, and a compare-and-swap on the cached
  revision. Each of these is a step of its own, and so are the steps of every poll loop, gap fills and
  compaction transactions. A history variable keeps every row ever committed, so that statements can
  compare the compacted table with the log it came from (`Kine`, `Compaction`, `Compactor`,
  `LogMachine`, `LogInvariant`, `Poll`). The results come in three layers, each with no more
  assumptions than it needs:
  * every run, whatever the compactions do (`LogAnyRun`);
  * runs whose compactions are safe for the writes pending at that moment, for lists, compare-and-swap
    and the chains of rows (`LogInsert`, `LogCompact`, `LogSteps`, `LogTheorems`); `LogAtomic` proves
    that compare-and-swap needs the condition;
  * runs whose steps are safe for one poller, for what that poller sends (`LogPoll`).

  What clients are told is in `LogAnswers` (replies and lists), `LogEvents` (the event of every
  operation, and who is sent it) and `LogCache` (the cached revision); `LogPass` ties the poll loop to
  the steps. What goes wrong outside these conditions is in `LogHazards`, and `LogHazardRuns`
  reaches it from the initial state, with runs built in `LogRuns`.
* **Watches over that log**: the historical query spliced with live batches (`WatchSplice`, `LogWatch`).
* **The in-memory store**, a class that trims its histories in place, and the requests that run on
  it: lists, counts, watches and paged range requests (`MemoryHistory`, `MemoryListing`, `Memory`,
  `MemoryWatch`, `PagedList`).
* **Lease expiry** as a protocol between clients, event loop and handler, and the paging seed of
  the expiry queue (`Ttl`, `TtlSeed`).
* **The broadcaster**, which fans one stream out to buffered subscriber channels (`Broadcaster`).
* **Two translators**: label and field selectors to SQL, and the NATS key codec (`SelectorText`,
  `SelectorRows`, `SelectorMeaning`, `Numerals`, `KeyCodec`).

`Options` and `Text` hold what the other modules share.

## Where the code does less than one might expect

Several laws hold only under a condition. Each condition is a predicate on the state before the step
or the call, and is proved exact where the list says so.

* **Compare-and-swap.** A compaction between a writer's read and its insert can let a stale insert
  through. `SafeForWrites` says which compactions do not, by looking at the table and the pending
  writes. `SafeIff` proves it exact: a compaction meets it if and only if every commit of every
  continuation whose own compactions meet it is an atomic compare-and-swap. After any other, a pending write can commit although its
  condition is false or without its effect, at once or after the same operation has been issued again.
  `DoubleCreate` is the case of two creates of one key, and `DoubleCreateHappens` a run of it from the
  initial state. Nothing else is asked of a run: compactions may overtake pollers, delete fills,
  or delete the highest row.
* **Polling.** A poller sends every change exactly once as long as no compaction deletes a change it has
  yet to read or reopens an id it has passed to a write, and as it started while no committed row lay
  above the highest visible one. `ExactIff` proves the condition exact, step by step; deleting a
  fill ahead of the poller is harmless. `MissedForever` shows that a change once missed is never
  sent. From the initial state: `UnreadHappens` (a compaction overtakes the poller), `TopGoneHappens`
  (with nothing retained, the highest row is deleted before the poller starts) and
  `FilledIdReusedHappens` (a compacted fill lets a write commit behind the poller).
* **Watches.** The splice is exact if and only if no wanted row up to its edge is hidden from the
  historical query (`SpliceExact`, `WatchExact`). `CompleteIff` says when that is so, seen at the moment
  of the query: if and only if no pending write may still commit, under a name of the range, at an id up
  to the edge (as long as nothing is compacted meanwhile; with rows visible in id order nothing is
  hidden in any case). `WatchMissHappens` is a run from the initial state, without
  compaction or fill, in which a watch never delivers a change. A watch of revision 0 is accepted on
  a compacted table and misses at most what was compacted before. The query returns gap fills and the
  live stream does not, so both are compared fills aside. The live range test and the query disagree
  exactly on inverted ranges (`RangesAgree`).
* **Lists.** A list that finds nothing falls back on the cached revision of its node. If that lags behind,
  a list of an empty range at a revision that exists fails as if it did not (`ListFails`, exact;
  `ListLagsHappens`, from the initial state).
* **The in-memory log.** Each compaction cuts one log entry fewer than the comment on `logIndexAfter`
  assumes; the model follows the code. `PassExact` says exactly when a watch pass re-reads entries. A
  whole watch skips nothing that is still in the log, and delivers nothing from further back than there
  were compactions (`Watch`).
* **Leases.** The handler forgets a key without looking again, so a renewal recorded between its
  delete and that moment is lost (`LostLease`, `LostLeaseHappens`); and the seed lists only the
  range from "/" to "0", so a lease on any other key present at start-up is lost
  (`UnlistedLeaseHappens`). `RememberedIff` proves that nothing else loses a lease.
* **Selectors.** `FoundExactly` says which objects of Kubernetes's answer the query misses: those
  of selectors that repeat a key, objects without the key of a negative requirement, objects of
  selectors that ask for an absence (unless they have as many labels as there are requirements), and
  values that order differently as texts and as integers. `ExtraExactly` says which objects it selects
  beyond that answer. `MeetsExact` and `OrderExact` are the exact conditions for one requirement and for
  two values, `NineAboveTen` the simplest failing value.
* **Keys.** A key survives the codec if and only if no segment encodes to the marker of unrooted keys
  (`RoundTrip`); otherwise two keys can share an encoding (`Collision`). The subject of a range
  matches the right clean keys if and only if the prefix is not one that reads as unrooted (`EncodeRange`).

## Model

| member | source | states |
|---|---|---|
| `Kine.CompactRev` | pkg/drivers/generic/generic.go:43 | the largest prev_revision of the reserved rows, 0 if there is none |
| `Kine.Latest` | pkg/drivers/generic/generic.go:45 | the highest id of a name, 0 exactly if the name has no row |
| `Kine.SpanExact` | pkg/logstructured/sqllog/sql.go:680-729 | the events of an id interval are its non-fill rows, each once, in increasing order |
| `Compaction.VictimsBelow` | pkg/drivers/sqlite/sqlite.go:143-158 | with links pointing backwards, every deleted row exists and lies at or below the target |
| `Compaction.VictimsCompose` | pkg/drivers/sqlite/sqlite.go:143-158 | the victims of a target are those of any lower target plus those still found after compacting to it |
| `Compaction.CompactCompose` | pkg/drivers/sqlite/sqlite.go:143-158 | compacting to r1 and then to r2 >= r1 leaves the table that compacting to r2 leaves |
| `Compactor.MaxIdKept` | pkg/logstructured/sqllog/sql.go:247-270 | compacting strictly below the highest id keeps it |
| `Compactor.RecordsKept` | pkg/logstructured/sqllog/sql.go:247-285 | the reserved row survives every compaction and records its target |
| `Compactor.Database.Compact` | pkg/logstructured/sqllog/sql.go:231-285 | commits exactly when the caller's compact revision is the stored one and lies below both the target and current minus retained; then the table is compacted to the smaller of the two, the stored revision has risen, and the highest id is kept when something is retained; otherwise nothing changes |
| `Compactor.Database.Batch` | pkg/logstructured/sqllog/sql.go:168-199 | after a committed batch the table is one compaction of the starting table to the safe revision for that batch; a refused batch stands where every later one would |
| `Compactor.Database.CompactIter` | pkg/logstructured/sqllog/sql.go:144-218 | terminates, and without rivals ends in the table and compact revision of one compaction to the smaller of the target and current minus retained, if the stored revision lies below both, and else in the old table; a stale argument compacts nothing and comes back as the stored revision; the next target is the current revision as the last transaction saw it, which is still current if anything is retained, or the old target while no compact revision is stored |
| `Compactor.CompactStep` | pkg/logstructured/sqllog/sql.go:144-218 | one more batch on a compacted table equals compacting the starting table to the new revision |
| `LogInvariant.InitInv` | pkg/logstructured/sqllog/sql.go:64-126 | the invariant holds of a fresh database with its reserved row |
| `LogInvariant.TipInLog` | pkg/drivers/sqlite/sqlite.go:143-158 | the latest visible row of a key is its latest committed row, and a key without visible rows ends in a tombstone |
| `LogAnyRun.VictimFacts` | pkg/drivers/sqlite/sqlite.go:143-158 | a deleted row has a newer row of its key, or is a tombstone, at or below the target; the reserved row is never deleted |
| `LogAnyRun.CoreCompact` | pkg/drivers/sqlite/sqlite.go:143-158 | compacting and setting the gap fills aside commute |
| `LogAnyRun.CompactSound` | pkg/drivers/sqlite/sqlite.go:143-158 | every compaction, whatever it deletes, leaves only committed rows, removes only superseded rows and tombstones at or below its target, and records that target |
| `LogAnyRun.FillLoose` | pkg/drivers/generic/generic.go:590-597 | a gap fill keeps the bounds of every run and changes nothing but fills |
| `LogAnyRun.LooseStep` | pkg/logstructured/sqllog/sql.go:231-676 | every step of every run keeps the bounds on ids, cached revisions and the stored compact revision, and keeps the table a part of the committed log that lacks only superseded rows and tombstones |
| `LogAnyRun.LooseRun` | pkg/logstructured/sqllog/sql.go:231-676 | so does every run |
| `LogAnyRun.LogGrows` | pkg/logstructured/sqllog/sql.go:642-676 | in every run, committed rows are never changed or replaced |
| `LogAnyRun.AfterInvisible` | pkg/logstructured/sqllog/sql.go:315-340 | in every run, reading on from any revision at or above the compact revision misses no row |
| `LogAnyRun.HousedRun` | pkg/logstructured/sqllog/sql.go:64-126 | in every run, every write was issued at a node that has joined |
| `LogAnyRun.AbortedIsGone` | pkg/logstructured/sqllog/sql.go:642-676 | a refused write leaves nothing behind but the id it may have reserved |
| `LogAnyRun.CachedRevRises` | pkg/logstructured/sqllog/sql.go:296-309 | over every run a node's cached revision never falls and never exceeds the ids handed out |
| `LogAnyRun.CachedRevStep` | pkg/logstructured/sqllog/sql.go:642-676 | nor does one step lower it |
| `LogCache.CachedAfter` | pkg/logstructured/sqllog/sql.go:296-309 | what every step leaves in the cached revision: the commit, the poll and the lazy read store theirs exactly if it still holds what they loaded, and nothing else changes it |
| `LogCache.PublishesOwn` | pkg/logstructured/sqllog/sql.go:642-676 | over any run from its load to its commit, a write publishes its revision if and only if nothing else has moved the cached revision meanwhile |
| `LogCache.LazyStores` | pkg/logstructured/sqllog/sql.go:296-309 | a lazy initialisation stores the highest id at its read |
| `LogCache.PublishesPolled` | pkg/logstructured/sqllog/sql.go:506-511 | a poller publishes how far it has sent |
| `LogAnyRun.CompactStepRaises` | pkg/logstructured/sqllog/sql.go:231-285 | a committed compaction strictly raises the stored revision, to the smaller of its target and current minus retained, and keeps the highest id if at least one revision is retained |
| `LogAnyRun.CompactCommits` | pkg/logstructured/sqllog/sql.go:231-285 | a compaction transaction commits exactly if its caller knows the stored revision and it lies below the target and below current minus retained |
| `LogAnyRun.OtherStepsKeepCompactRev` | pkg/logstructured/sqllog/sql.go:231-285 | no other step touches the stored compact revision |
| `LogAnyRun.CompactRevRises` | pkg/logstructured/sqllog/sql.go:231-285 | over every run, however stale the nodes' arguments, the stored compact revision never falls |
| `LogInsert.CommitFacts` | pkg/drivers/generic/generic.go:590-700 | an insert that neither the primary key nor the index refuses has an unused id, links to the latest row of its key and lies above all older rows of it |
| `LogInsert.CommitTable` | pkg/drivers/generic/generic.go:590-700 | such an insert keeps the chain, suffix and removal invariants of the table against the full log |
| `LogInsert.CommitOther` | pkg/drivers/sqlite/sqlite.go:47 | every other pending write on that version is from then on refused by the unique index |
| `LogCompact.VictimsDownward` | pkg/drivers/sqlite/sqlite.go:143-158 | when a row is deleted so is every older visible row of its key |
| `LogCompact.CompactTable` | pkg/drivers/sqlite/sqlite.go:143-158 | any compaction keeps the chain and suffix invariants of the table against the full log |
| `LogCompact.SafeForExact` | pkg/drivers/sqlite/sqlite.go:143-158 | a compaction leaves a pending write guarded (refused by the index, or linked to the latest row) if and only if its refusing row or its previous row is spared, or the whole key goes and it started from an absent key |
| `LogCompact.RefusedIsStale` | pkg/drivers/sqlite/sqlite.go:47 | the index refuses a write only when a newer row of the key exists |
| `LogSteps.StepInv` | pkg/logstructured/sqllog/sql.go:144-676 | every step of every writer, node, poller, fill and compaction keeps the invariant, compactions being safe for the pending writes |
| `LogSteps.RunInv` | pkg/logstructured/sqllog/sql.go:144-676 | so does every such run |
| `LogTheorems.ListInvisible` | pkg/drivers/generic/generic.go:35-51 | in every reachable state a list at any revision from the compact revision on equals the list on the never compacted log |
| `LogAnswers.ListExact` | pkg/drivers/generic/generic.go:35-51 | a row is listed at r exactly if its name lies in the range, no row of its name lies between it and r, and it is no tombstone or those are asked for; and which fields of the row the list shows |
| `LogAnswers.ListedOnce` | pkg/drivers/generic/generic.go:35-51 | no name is listed twice |
| `LogAnswers.ListIsView` | pkg/drivers/generic/generic.go:35-51 | the list at the highest revision is the current state restricted to the range |
| `LogAnswers.ListIsStore` | pkg/logstructured/sqllog/sql.go:342-390 | on the compacted table it is that of the store the full log stands for |
| `LogAnswers.ListedIsTrue` | pkg/logstructured/sqllog/sql.go:342-390 | what a list request answers, at a revision or now, is what it would answer had nothing ever been compacted |
| `LogAnswers.ListFails` | pkg/logstructured/sqllog/sql.go:342-390 | a request for a revision that exists fails exactly if it has been compacted, or the range is empty there and the cached revision of the node lags behind |
| `LogTheorems.ViewInvisible` | pkg/drivers/generic/generic.go:35-51 | the current listing of the table is the current state of the full log |
| `LogTheorems.CommitIsAtomic` | pkg/logstructured/logstructured.go:84-221 | committing a Create, Update or Delete is one atomic compare-and-swap: its condition holds of the store at that moment and its effect on the store is exactly the operation's, at a new revision |
| `LogTheorems.CommitAllowed` | pkg/logstructured/logstructured.go:84-221 | at commit the row a write links to is the live version its operation names |
| `LogTheorems.UpdatedEvent` | pkg/logstructured/logstructured.go:175-221 | an update that commits writes an event equal to its effect on the store: create revision kept, replaced value reported |
| `LogEvents.CommittedEvent` | pkg/logstructured/sqllog/sql.go:676-728 | the row of a committed operation converts to its event, in terms of the operation and the store before it: a delete carries the delete flag, the version it ends and that version's value |
| `LogEvents.CommitIsSent` | pkg/logstructured/sqllog/sql.go:480-616 | whatever happens after a commit, once an exact poller has passed its revision it has sent that event, and no other at that revision |
| `LogTheorems.OtherStepsKeepView` | pkg/logstructured/sqllog/sql.go:144-676 | no step but a commit changes the store, fills and compactions included |
| `LogTheorems.AnswersAreTrue` | pkg/logstructured/logstructured.go:84-221 | each answer at the read, as an if-and-only-if on the store: an operation goes on to append exactly when its condition holds; key-exists, not-found and conflict exactly when the store says so, a conflict with the live version; of a delete, absent exactly if no row of the key is visible, and already deleted exactly if the latest visible one is a tombstone |
| `LogAnswers.RefusedReplies` | pkg/logstructured/logstructured.go:84-221 | what the caller of a refused operation gets: the key-exists error for a create, otherwise the live version if there is one; only a delete of a key without a visible row is reported as done |
| `LogTheorems.RefusalsAreTrue` | pkg/logstructured/logstructured.go:84-221 | a write is refused only if the key has moved on since its read |
| `LogTheorems.OneChain` | pkg/logstructured/logstructured.go:84-221 | the rows of a key form one chain, broken only where a create follows a tombstone that was compacted away; create revisions and old values are passed along it |
| `LogTheorems.CompactLeaves` | pkg/drivers/sqlite/sqlite.go:143-158 | the table after a compaction to r, fills aside, is determined by the log alone: up to r the versions live at r, and every row after it |
| `LogAtomic.SafeIff` | pkg/drivers/sqlite/sqlite.go:143-158 | a compaction is safe for the pending writes if and only if every commit of every write-safe continuation is an atomic compare-and-swap |
| `LogAtomic.UnsafeBreaks` | pkg/drivers/sqlite/sqlite.go:143-158 | after a compaction that is not safe for a pending write, that write can still commit and not be atomic |
| `LogAtomic.Rival` | pkg/logstructured/logstructured.go:84-221 | a pending write that does not replace the latest row: the same operation, issued again, commits first, and the write is accepted although its condition is now false |
| `LogAtomic.CommitBelow` | pkg/drivers/generic/generic.go:676-700 | a commit at an id below a newer row of its key is not atomic: its effect on the store is lost |
| `LogAtomic.HeldBelow` | pkg/drivers/sqlite/sqlite.go:143-158 | a write left unguarded although it would replace the latest row holds an id below a newer row of its key, which the compaction deletes |
| `LogPoll.StartIff` | pkg/logstructured/sqllog/sql.go:454-478 | a poller starts out exact if and only if no committed row lies above the highest visible one |
| `LogPoll.CompactIff` | pkg/logstructured/sqllog/sql.go:231-285 | a compaction leaves a poller exact if and only if it deletes no change the poller has yet to read, and no fill that keeps a write from an id it has passed |
| `LogPoll.ExactIff` | pkg/logstructured/sqllog/sql.go:480-616 | one step of any kind keeps a poller exact if and only if it is safe for it |
| `LogPoll.PollerExact` | pkg/logstructured/sqllog/sql.go:480-616 | in every run of such steps, what a poller has sent is exactly the changes after its start up to its position, in order and without gap |
| `LogPoll.PassedIsFinal` | pkg/logstructured/sqllog/sql.go:540-606 | no row later appears at, or changes at, an id a poller has passed |
| `LogPoll.CommitsAreFresh` | pkg/drivers/generic/generic.go:676-700 | a write commits only at an id never used, and at none that an exact poller has passed |
| `LogPoll.WaitForSync` | pkg/logstructured/sqllog/sql.go:764-770 | once the polled revision has reached r every change up to r has been handed over, and none can appear there later |
| `LogPoll.SentBetween` | pkg/logstructured/sqllog/sql.go:480-616 | what a poller sends between two states is the changes between its two positions |
| `LogPoll.UnsafeStep` | pkg/logstructured/sqllog/sql.go:480-616 | a step that is not safe for an exact poller makes it miss a change, or leaves a write free to commit at an id it has passed |
| `LogPoll.CommitBehind` | pkg/drivers/generic/generic.go:676-700 | a write that commits there is missed |
| `LogPoll.MissedForever` | pkg/logstructured/sqllog/sql.go:480-616 | a missed change is never sent, in any continuation; once the poller has passed it, what it sent is not what was committed |
| `LogHazards.UnsafeIsAccepted` | pkg/drivers/sqlite/sqlite.go:143-158 | a compaction that is not safe for a pending write opens the index to it, though its previous row is not the latest of the key or a newer row of the key has a higher id |
| `LogHazards.DoubleCreate` | pkg/logstructured/logstructured.go:84-112 | whenever a pending create, at any stage up to its insert, has read a tombstone and the tombstone is compacted, a second create can commit and the first still be accepted while the key is live |
| `LogHazardRuns.DoubleCreateHappens` | pkg/logstructured/logstructured.go:84-112 | such a run from the initial state |
| `LogHazards.CreateRuns` | pkg/logstructured/logstructured.go:84-112 | a create of an absent key runs to its commit and adds exactly its row |
| `LogHazards.FilledIdReused` | pkg/drivers/generic/generic.go:676-700 | once a fill is compacted away the write it blocked can commit at an id the poller has passed, and is never sent |
| `LogHazardRuns.FilledIdReusedHappens` | pkg/drivers/generic/generic.go:676-700 | such a run from the initial state |
| `LogHazardRuns.UnreadHappens` | pkg/logstructured/sqllog/sql.go:231-285 | a run from the initial state in which a compaction overtakes a poller, which then passes two changes without sending them; no write was pending |
| `LogHazardRuns.TopGoneHappens` | pkg/logstructured/sqllog/sql.go:231-285 | a run from the initial state in which the highest row is compacted before a poller starts, and never sent by it |
| `LogHazardRuns.WatchMissHappens` | pkg/logstructured/logstructured.go:223-283 | a run from the initial state, without compaction or fill, in which a watch queries between two commits that become visible out of order and never delivers the earlier one |
| `LogHazardRuns.ListLagsHappens` | pkg/logstructured/sqllog/sql.go:342-390 | a run from the initial state in which a list of an empty range fails at a revision that exists |
| `LogRuns.Commits` | pkg/logstructured/sqllog/sql.go:642-676 | a write that neither its read nor the index refuses can run to its commit and adds exactly its row |
| `Poll.IdsAfterExact` | pkg/drivers/generic/generic.go:567-588 | the polled query returns the ids above a revision, each once, ascending |
| `Poll.BatchExact` | pkg/drivers/generic/generic.go:567-588 | a query returns the lowest ids above the revision, ascending: all of them, or as many as the limit says |
| `Poll.ScanBatch` | pkg/logstructured/sqllog/sql.go:529-606 | one pass notes exactly the non-fill rows up to its new position, which is the last id queried, or the one before the first gap; the gap is remembered first and filled next; only the gap that starts at the remembered revision may be passed, once overdue |
| `LogPass.Pass` | pkg/logstructured/sqllog/sql.go:529-616 | unless the skip fallback is due, a pass is a query step of the machine with the batch that step hands over, its fill is the fill step, and with rows left it moves on or finds a gap |
| `WatchSplice.RangesAgree` | pkg/server/types.go:105-107 | the live range test and the query select the same names if and only if the range is not inverted |
| `WatchSplice.LiveIsExpected` | pkg/logstructured/sqllog/sql.go:433-452 | live events kept to the range are the expected changes of the interval |
| `WatchSplice.ExpectedRows` | pkg/drivers/generic/generic.go:567-588 | the expected changes are the wanted rows of the interval and no others |
| `WatchSplice.SpliceExact` | pkg/logstructured/logstructured.go:237-272 | history plus trimmed live batches is what the query saw up to the edge followed by every later change; that is exactly the changes after the start, each once in order, if and only if no wanted row up to the edge is hidden from the query |
| `WatchSplice.StartExact` | pkg/logstructured/logstructured.go:234-239 | a watch of revision 2 or later promises the changes from that revision on and nothing older, one of 0 or 1 the changes after it |
| `WatchSplice.FilterBatch` | pkg/logstructured/sqllog/sql.go:433-452 | the live filter keeps the non-nil events of the range, and reports whether any is left |
| `WatchSplice.Trim` | pkg/logstructured/logstructured.go:277-283 | on ascending events, dropping leading events drops all those at or below the revision |
| `WatchSplice.Forward` | pkg/logstructured/logstructured.go:256-272 | the forwarding loop delivers the history followed by the newer live events of the range |
| `WatchSplice.ForwardDelivers` | pkg/logstructured/logstructured.go:256-272 | fed with the rows of the query and the poller's batches, that is what a watch delivers |
| `LogWatch.RunNewIds` | pkg/drivers/generic/generic.go:676-700 | a row that appears later has an id not handed out before, is a fill, or belongs to a write that already held its id |
| `LogWatch.InOrderIsComplete` | pkg/logstructured/logstructured.go:242-260 | when no write holds an id below the highest row, the query hides no change above the compact revision |
| `LogWatch.AcceptedExact` | pkg/logstructured/sqllog/sql.go:334-337 | a watch is refused exactly if it asks for a compacted revision, and never for revision 0 |
| `LogWatch.CompleteIff` | pkg/logstructured/logstructured.go:242-260 | at the moment of the query: it hides no wanted change up to the edge in any continuation without compaction if and only if no pending write may still commit there under a name of the range |
| `LogWatch.HiddenRow` | pkg/logstructured/logstructured.go:242-260 | once such a write has committed, the query has missed its row |
| `LogWatch.WatchExact` | pkg/logstructured/logstructured.go:223-283 | in every run that keeps the poller exact, subscribing, querying and following the poller delivers exactly the in-range changes after the start revision if and only if the query hid none of them; with in-order visibility it hides none above the compact revision, wherever the poller stood, so only a watch of revision 0 can miss any |
| `MemoryHistory.LifetimeCorrect` | pkg/drivers/memory/memory.go:200-278 | create revision and version count from the create that started the current lifetime |
| `MemoryHistory.DropInvisible` | pkg/drivers/memory/memory.go:427-491 | dropping entries as compaction does changes no read from the compact revision on |
| `Memory.Memory.constructor` | pkg/drivers/memory/memory.go:20-38 | an empty store is valid |
| `Memory.Memory.AppendEntry` | pkg/drivers/memory/memory.go:110-118 | appends the entry to log, key history and full history, linked to its predecessor |
| `Memory.Memory.Create` | pkg/drivers/memory/memory.go:200-226 | fails exactly if the key is live; else adds version 1 of a new lifetime |
| `Memory.Memory.Update` | pkg/drivers/memory/memory.go:228-252 | succeeds exactly if the named revision is the live one; else returns the live version |
| `Memory.Memory.Delete` | pkg/drivers/memory/memory.go:254-278 | deletes the live version if it is the named one or none is named, keeping its value in the tombstone |
| `Memory.Memory.AtRevision` | pkg/drivers/memory/memory.go:155-169 | finds the live version of the uncompacted history at every revision from the compact revision on |
| `Memory.Memory.Compact` | pkg/drivers/memory/memory.go:427-491 | the two errors exactly when due; else every key is trimmed to its floor, the full history is untouched, and the log starts at compact revision + 1 - compactions and is never empty |
| `Memory.Memory.TrimKeys` | pkg/drivers/memory/memory.go:438-477 | every key keeps its history from its floor on, or from after a tombstone, and empty keys go |
| `Memory.CutLog` | pkg/drivers/memory/memory.go:479-489 | the cut is in bounds, leaves an entry, and keeps the log dense |
| `Memory.Memory.ReadsCorrect` | pkg/drivers/memory/memory.go:155-169 | for every key and legal revision the kept entries give the live version of the full history, with create revision and version right for its lifetime |
| `Memory.Memory.List` | pkg/drivers/memory/memory.go:280-331 | the sorted, limited listing of the uncompacted history at the revision, and the errors exactly when due |
| `Memory.Memory.Count` | pkg/drivers/memory/memory.go:333-339 | the size of that listing |
| `Memory.Memory.WatchPass` | pkg/drivers/memory/memory.go:370-391 | delivers the matching entries from the start index on, in order, each with its previous version in full; only a previous version at or below the compact revision may be reduced to its revision |
| `Memory.MatchesRange` | pkg/drivers/memory/memory.go:377 | a watch of a range sees exactly the keys a list of it lists, unless the range is inverted |
| `Memory.Memory.PassExact` | pkg/drivers/memory/memory.go:171-186 | a pass reads exactly the entries newer than what was seen if and only if nothing was compacted, or the watcher is too far behind or ahead for it to matter; it never skips a kept entry and re-reads at most one per compaction |
| `MemoryListing.ListingCorrect` | pkg/drivers/memory/memory.go:280-331 | a listing holds the live version of each key of the range, and nothing else, sorted |
| `MemoryListing.ListingUnique` | pkg/drivers/memory/memory.go:280-331 | there is only one such listing |
| `MemoryWatch.Watch` | pkg/drivers/memory/memory.go:341-418 | whatever other clients do between the passes, compactions included: every matching entry after the start that is still in the log at the end has been delivered, nothing from further back than there were compactions has, no pass repeats more entries than that, and previous versions above the compact revision are given in full; with no compaction each matching entry after the start is delivered exactly once in order; a compacted start delivers nothing |
| `MemoryWatch.NothingSkipped` | pkg/drivers/memory/memory.go:341-418 | passes that start where the one before ended, over logs that start no later than a given revision, read every entry after it and after the start |
| `MemoryWatch.NothingOlder` | pkg/drivers/memory/memory.go:171-186 | and none from further back than there were compactions |
| `MemoryWatch.ExactlyOnce` | pkg/drivers/memory/memory.go:341-418 | passes over a store that is not compacted read everything after the start once, in order |
| `PagedList.ListingStable` | pkg/drivers/memory/memory.go:280-331 | later writes and compactions do not change an earlier snapshot |
| `PagedList.List` | pkg/server/list.go:11-61 | an answer describes the one snapshot its header names: the first keys up to the limit, the total, and whether there are more; it fails exactly when the revision is out of bounds or a compaction passed the snapshot before the count |
| `Ttl.StepInv` | pkg/ttl/ttl.go:42-178 | every step of clients, seed, event loop and handler keeps recorded deadlines no earlier than the leases they stand for |
| `Ttl.NoEarlyRemoval` | pkg/ttl/ttl.go:125-156 | in every interleaving the handler removes a version only after that version's own lease has elapsed |
| `Ttl.DeadlineBounds` | pkg/ttl/ttl.go:164-178 | in every interleaving a recorded deadline lies between the end of the version's lease and a whole lease from now |
| `Ttl.ExpiresWhenDue` | pkg/ttl/ttl.go:125-156 | a lease later, the handler can remove a version that is on record and still live |
| `Ttl.FailedIsRetried` | pkg/ttl/ttl.go:145-150 | after a delete that fails the version is still on record and due |
| `Ttl.ChangesTakeRevisions` | pkg/ttl/ttl.go:73-91 | every change of the store takes the next revision, and nothing else does |
| `Ttl.LaterVersionsSurvive` | pkg/ttl/ttl.go:125-156 | a delete leaves every version but an expired one alone, in particular any version written later |
| `Ttl.RememberedIff` | pkg/ttl/ttl.go:80-178 | a step keeps every seen lease on record if and only if it does not forget a key whose recorded version is live, and does not anchor the seed over a leased key outside the listed range |
| `Ttl.LeasesRemembered` | pkg/ttl/ttl.go:80-178 | in every run of such steps every leased version the loop has seen stays on record while it is live |
| `Ttl.LostLease` | pkg/ttl/ttl.go:125-156 | a renewal recorded between the handler's delete and its forgetting is lost |
| `Ttl.LostLeaseHappens` | pkg/ttl/ttl.go:125-156 | a run from the initial state in which that happens to any listed key |
| `Ttl.UnlistedLeaseHappens` | pkg/ttl/ttl.go:99-121 | a run from the initial state in which a lease on any key outside the listed range is lost at start-up |
| `Ttl.ListedIsRooted` | pkg/ttl/ttl.go:100 | the range of the seed is the keys that begin with a slash |
| `TtlSeed.Restart` | pkg/ttl/ttl.go:99-121 | listing again from a listed key gives the rest of the listing, that key included |
| `TtlSeed.SeedLists` | pkg/ttl/ttl.go:99-103 | the seed lists exactly the live keys that begin with a slash |
| `TtlSeed.RecordExact` | pkg/ttl/ttl.go:158-178 | the record holds the leased keys of the listing with their revisions, and nothing else |
| `TtlSeed.Turn` | pkg/ttl/ttl.go:99-121 | each page either completes the record or moves strictly forward |
| `TtlSeed.Seed` | pkg/ttl/ttl.go:99-121 | terminates for any store, and on success has recorded exactly the leased keys at the anchored revision, whether or not the backend honours the limit and whatever others write between pages; it fails only if a compaction passed that revision |
| `Broadcaster.Chan.TrySend` | pkg/broadcaster/broadcaster.go:69-74 | a send to an open channel; the item is buffered unless the buffer is full, in which case the first loss is noted |
| `Broadcaster.Chan.Close` | pkg/broadcaster/broadcaster.go:41-52 | closes an open channel, once |
| `Broadcaster.Chan.Receive` | pkg/broadcaster/broadcaster.go:28-38 | the reader takes items in order, and what was sent does not change |
| `Broadcaster.Broadcaster.Subscribe` | pkg/broadcaster/broadcaster.go:18-39 | fails exactly if no stream runs and connecting fails; else hands out a new open channel that has missed nothing from now on |
| `Broadcaster.Broadcaster.Unsub` | pkg/broadcaster/broadcaster.go:41-52 | closes and removes the channel if it is still there, at any time and any number of times |
| `Broadcaster.Broadcaster.Stream` | pkg/broadcaster/broadcaster.go:65-77 | every open subscriber has the item at the end of its buffer or, the buffer being full, an unchanged buffer and the loss noted; nothing is sent to a closed one |
| `Broadcaster.Broadcaster.StreamEnd` | pkg/broadcaster/broadcaster.go:79-84 | every subscriber is closed, with its buffer left to read |
| `Broadcaster.Interleave` | pkg/broadcaster/broadcaster.go:18-85 | after any interleaving a channel is in the map exactly while open, was closed at most once, and, if it never overflowed and is open, was sent exactly the input since its subscription; which channels are open is what the operations leave open |
| `SelectorText.ReplaceParamsToNumbers` | pkg/drivers/generic/helpers.go:197-203 | the k-th question mark becomes number n + k and nothing else changes |
| `SelectorText.NumbersParams` | pkg/drivers/generic/helpers.go:197-203 | numbering a rendered text numbers its placeholders in argument order |
| `SelectorText.RenderClause` | pkg/drivers/generic/helpers.go:105-139 | each operator's condition and the arguments appended for it agree, in order |
| `SelectorText.RenderClauses` | pkg/drivers/generic/helpers.go:104-143 | so do the conditions of all requirements, joined by OR |
| `SelectorMeaning.ClauseMeans` | pkg/drivers/generic/helpers.go:105-139 | the condition rendered for a requirement, read token by token as SQL, decides for a label row what the requirement means for it |
| `SelectorMeaning.ConditionMeans` | pkg/drivers/generic/helpers.go:104-143 | the whole rendered condition decides whether some requirement holds of the row |
| `SelectorText.RenderLabels` | pkg/drivers/generic/helpers.go:81-149 | text, plain or numbered, and arguments are those of one query; nothing is rendered for an empty or unselectable selector, and a malformed one fails |
| `SelectorText.RenderField` | pkg/drivers/generic/helpers.go:168-186 | the lookup of one field requirement and the arguments appended for it agree, whether the dialect puts the field into the text, binds it, or ignores it |
| `SelectorText.UnderscoredExact` | pkg/drivers/generic/helpers.go:170 | every dot of a field name has become an underscore, and nothing else has changed |
| `SelectorText.RenderFieldClauses` | pkg/drivers/generic/helpers.go:168-188 | so do the lookups of all field requirements, joined by AND |
| `SelectorText.RenderFields` | pkg/drivers/generic/helpers.go:151-195 | text, plain or numbered, and arguments are those of one query; nothing is rendered for an empty selector, and a malformed one fails |
| `SelectorText.CleanFields` | pkg/drivers/generic/helpers.go:151-195 | the placeholders are the only question marks if and only if no field name put into the text holds one |
| `SelectorText.AnyFieldNames` | pkg/drivers/generic/helpers.go:165-187 | where the dialect binds or ignores the field name, as the one that numbers its placeholders does, no field name can add a question mark |
| `SelectorText.MarksExact` | pkg/drivers/generic/helpers.go:197-203 | a text has as many question marks as arguments if and only if no literal part holds one |
| `SelectorText.RenderSelectors` | pkg/drivers/generic/helpers.go:59-79 | fails exactly if either selector is malformed; otherwise label and field condition together are one query with its arguments behind the given ones, numbered exactly when the base query is |
| `SelectorText.PlainBinding` | pkg/drivers/generic/helpers.go:81-149 | behind a base query with as many placeholders as arguments, each question mark binds the argument it is meant for |
| `SelectorText.NumberedBinding` | pkg/drivers/generic/helpers.go:197-203 | each numbered placeholder names the position of its argument |
| `SelectorRows.InsertLabels` | pkg/drivers/generic/tx.go:227-235 | the label rows of an object are its labels, one row each |
| `SelectorRows.PrefixIsLike` | pkg/drivers/generic/helpers.go:64-66 | every name with the prefix passes the pattern, wildcards in the prefix included, under any reflexive collation |
| `SelectorRows.LikeIsPrefix` | pkg/drivers/generic/helpers.go:64-66 | without wildcards in the prefix, and under exact collation, no other name does |
| `SelectorRows.CountIsNames` | pkg/drivers/generic/helpers.go:30-37 | the count of a group is the number of labels that meet some requirement |
| `SelectorRows.SelectsExactly` | pkg/drivers/generic/helpers.go:81-149 | for every well-formed selector: an object is selected if and only if its name passes the pattern and either a requested absence is met and it has as many labels as there are requirements, or there is a requirement, none asks for an absence, none repeats a key, and all are met |
| `SelectorRows.MeetsExact` | pkg/drivers/generic/helpers.go:105-139 | the condition of one requirement means what Kubernetes means by it if and only if the key is present for a negative one, and the two values order alike as texts and as integers for > and < |
| `SelectorRows.OrderExact` | pkg/drivers/generic/helpers.go:132-137 | the text order of two values is the order Kubernetes gives them if and only if: one is no integer and the texts are not in order; or both are plain numerals and the beginning of the longer is not below the shorter; or, with signs or leading zeros, the texts are in the order of their padded digits |
| `Numerals.OrdersAgree` | pkg/drivers/generic/helpers.go:132-137 | that condition, for every two plain numerals |
| `Numerals.ParsesPrinted` | pkg/drivers/generic/helpers.go:132-137 | parsing undoes printing, with either sign and leading zeros, for exactly the integers of 64 bits |
| `Numerals.NumeralLessIs` | pkg/drivers/generic/helpers.go:132-137 | the order of any two integers can be read off their texts: signs, and digits padded to one length |
| `SelectorRows.NineAboveTen` | pkg/drivers/generic/helpers.go:132-134 | the value 9 passes > 10 in the query and not in Kubernetes |
| `SelectorRows.SelectorCorrect` | pkg/drivers/generic/helpers.go:81-149 | a non-empty selector with distinct keys, whose requirements are read alike, selects exactly the objects of the range that Kubernetes selects |
| `SelectorRows.FoundExactly` | pkg/drivers/generic/helpers.go:81-149 | an object that Kubernetes selects is selected by the query if and only if the selector is non-empty, repeats no key and is read alike on it, or asks for an absence and has as many requirements as the object has labels |
| `SelectorRows.ExtraExactly` | pkg/drivers/generic/helpers.go:81-149 | an object that Kubernetes does not select is selected by the query if and only if a requested absence is met and it has as many labels as there are requirements, or no key repeats, no absence is requested, and exactly the requirements that Kubernetes rejects are read differently |
| `SelectorRows.NothingElse` | pkg/drivers/generic/helpers.go:81-149 | without orders and absences the query selects nothing that Kubernetes does not |
| `SelectorRows.PositiveSelectors` | pkg/drivers/generic/helpers.go:81-149 | for Equals, In and Exists on distinct keys the query selects exactly what Kubernetes selects |
| `KeyCodec.Encode` | pkg/drivers/nats/codec.go:49-83 | computes the encoding the round trip is about, or fails on the two keys that have none |
| `KeyCodec.Decode` | pkg/drivers/nats/codec.go:85-120 | computes the decoding the round trip is about, with its failures |
| `KeyCodec.RoundTrip` | pkg/drivers/nats/codec.go:49-120 | decoding an encoded key gives it back if and only if no segment encodes to the marker and a rooted key's encoding does not begin like it; only "" and "/" have no encoding |
| `KeyCodec.NoCollision` | pkg/drivers/nats/codec.go:49-120 | no two such keys share an encoding |
| `KeyCodec.Collision` | pkg/drivers/nats/codec.go:49-120 | a rooted key whose first segment encodes to the marker shares its encoding with an unrooted key |
| `KeyCodec.PartsBelow` | pkg/drivers/nats/codec.go:49-83 | the encoding of a clean key extends that of a prefix exactly if the key lies below it |
| `KeyCodec.EncodeRange` | pkg/drivers/nats/codec.go:32-47 | fails exactly for "" and "//"; the subject matches exactly the clean keys in range (all for "/", the unrooted ones for "meta", else those below the prefix) if and only if the prefix is not one that reads as unrooted |

## Left out

- SQL text, connection pools, schema, migrations, dialect error codes and metrics: queries are functions on the table.
- Client keys that collide with the reserved row or start with the fill prefix: operations are modelled for other names only.
- Object metadata, owner references, the rows behind field selectors and garbage collection inside `Insert`, and transactions across several operations: they depend on foreign decoders.
- The duplicate-row repair of `compactStart`, and start-up on a non-empty database: runs begin from a fresh database with its reserved row.
- Errors of the database itself: a write may abort at any point before its commit, but a read does not fail. After a refused Update or Delete, the second read that only fetches the answer is not a step.
- LogPoll.PollerExact: for runs in which the skip fallback of the poll loop does not fire; `Poll.ScanBatch` covers the pass in which it does.
- LogTheorems.CommitIsAtomic: for runs whose compactions are safe for the writes pending at that moment; `SafeIff` proves that no weaker condition would do.
- LogWatch.WatchExact: for a subscriber the broadcaster has not dropped and a watch with empty selectors.
- LogWatch.CompleteIff: for continuations without compactions; a compaction can free a write that the index refused at the time of the query.
- Ttl.NoEarlyRemoval: time is a counter, and the handler's expiry check and its read of the recorded revision are one step.
- Ttl.StepInv: an entry of the expiry record is a value, so the update in place that a concurrent handler could observe half-done is not captured; nor is the delay queue's retry schedule.
- SelectorText.RenderClause: the fixed SQL around the conditions and of the subquery is a parameter without question marks, and so are numerals.
- LogAnswers.ListedIsTrue: the query and, for an empty result, the two reads after it are one step; LIMIT, keys-only lists and selectors are not part of it.
- SelectorText.RenderField: the three forms of a dialect's lookup text are given taken apart; the test for `%s` and for a second question mark that tells them apart is not modelled. Putting the field into a numbered text is modelled and used by no dialect.
- SelectorRows.SelectsExactly: LIKE escape characters are not part of it.
- KeyCodec.RoundTrip: base58 is a parameter, any injective map with an inverse that never writes a dot; the value codec is not modelled.
- The order in which goroutines deliver progress notifications, and everything outside the store: gRPC, TLS, the CLI, Kafka, the t4 and JetStream clients.
