# Minder: event aggregation, evaluation history and access

A Dafny model of the parts of the Minder server in which state is shared between processes or tables, with proofs about
every run of them. `dafny verify dfyconfig.toml` checks everything.

**The Event Execution Aggregator.** Evaluate messages for an entity compete for a lock row with a fresh owner id and a
time. The winner renews its lease after each rule, releases the row and publishes a flush message; a loser leaves one
cached row, which the flush handler turns back into an evaluate message. `ExecutionLock` holds the tables and their
statements, `Aggregator` the handlers run without interruption, `AggregatorProtocol` all interleavings of their
statements with any number of messages and executions, `HandlerSteps` the steps of a handler that is not interrupted,
`ExecutorHandler` the registry of cancel functions and shutdown.

**The evaluation history.** Every evaluation is appended, with a remediation event and an alert event, and a pointer per
pair of rule and entity moves to it. `HistoryTables` holds the tables and their invariant, `HistoryStore` the statements,
the transaction and the purge, `OverlappingStores` transactions that run in between each other, alone and under the lock
of the aggregator, `StatusView` the join that reads the current status, over all runs of stores, rule upserts,
stale listings and purges, against a plain map from pairs to their last outcome.

**The listing of that history.** `HistoryFilter` takes filter options to SQL parameters, `FilterMeaning` says what
they accept and keep, `HistoryPaging` makes pages and
walks over them, `Cursor` prints and parses cursors, `HistoryWalk` joins the tables to the rows of the listing and puts
walks and runs of the history together.

**Projects and messages.** `ProjectHierarchy` has provisioning with all its failures and the traversal that lists what a
user can access; `FlaggedDriver` the publisher and subscriber over two message drivers.

A state machine is a `State`, a `Step`, `Enabled`, `Next` and `IsRun`; its theorems speak of a run and a position in it.
Classes have the state the source's objects or tables have, and their methods are tied to the functions that the
theorems are about. Clock readings, generated ids, failures of foreign calls and the order in which a database returns
rows are parameters or left undetermined.

## What the proofs brought out

- Whether a list of filter options is accepted depends on its order when it has several `from` or `to` bounds: each
  replaces the one before, and only the last two are compared. `AcceptanceAndOrder` gives the exact condition,
  `OrderMatters` an example.
- The insert into `flush_cache` is outside the transaction that was refused the lock. If the winner flushes in between,
  the row waits for the next event or for `FlushAll`: `StrandedWhen` says exactly when, `LostWakeup` is such a run.
  Coverage of events is not affected, as the row is there.
- The bounds of a page are strict. A row with the same time as the last row of a page, but not on it, is skipped by the
  walk. For a table that changes, `LastingRowsAreReturned` says exactly which rows are; for a fixed one,
  `AllReturnedUnlessStraddling` says exactly which tables and page sizes do this, and `TiesAreLost` is such a walk.
- Without any cursor the listing comes oldest first; with the default cursor it comes newest first.
- On conflict the pointer keeps the profile it was created with, so the view goes by the profile of the first store.
- Nothing but the lookup keeps a pair from having two rows in `evaluation_rule_entities`: since the columns of the unique
  constraints were dropped, no index does, and the lookup locks only rows that it finds. `TwoRowsByOverlap` says exactly
  when a pair gets two rows. `StoresAreSequential` shows that the lock of the aggregator prevents it as long as no lease
  is overrun, and `CommittedViewIsLast` that the status view is then right.
- A batch size of 0 makes the purge run for ever as soon as there is a record to delete: `PurgeEnds`.
- The time range of the code is `from <= time < to`, and a range with `from == to` is accepted.
- A creation of a project whose commit fails leaves its tuple behind, and the project is listed although it does not
  exist: `LeftoversAreListed` says exactly when, `LeftoverIsListed` is such a run.

## Model

| member | source | states |
|---|---|---|
| ExecutionLock.LockStore.LockIfThresholdNotExceeded | internal/db/entity_execution_lock.sql.go:99-150 | the insert or the conditional update of one statement: a row with the fresh owner and the current time comes back exactly when there was no row or it was strictly older than the interval; otherwise nothing changes |
| ExecutionLock.LockStore.UpdateLease | internal/db/entity_execution_lock.sql.go:171-184 | the row gets a new time only if this execution owns it; anything else stays |
| ExecutionLock.LockStore.ReleaseLock | internal/db/entity_execution_lock.sql.go:152-169 | the row goes away only if this execution owns it |
| ExecutionLock.LockStore.EnqueueFlush | internal/db/entity_execution_lock.sql.go:14-45 | one row per entity; no row is returned when there is one already |
| ExecutionLock.LockStore.FlushCache | internal/db/entity_execution_lock.sql.go:47-64 | deletes the entity's row and reports whether there was one |
| ExecutionLock.LockStore.ListFlushCache | internal/db/entity_execution_lock.sql.go:66-97 | every cached row once, in some order |
| Aggregator.EEA.Aggregate | internal/eea/eea.go:77-162 | a message is passed on with an execution id exactly when its entity exists and has no row or one older than the interval; a refused one leaves one cached row and no trace in the lock table; without entity nothing changes |
| Aggregator.EEA.FlushMessageHandler | internal/eea/eea.go:167-209 | a cached row turns into one evaluate message; without a row nothing is published |
| Aggregator.EEA.FlushAll | internal/eea/eea.go:212-242 | every removed row is published exactly once, rows of missing entities stay, and it fails exactly when some cached entity cannot be loaded |
| Aggregator.Executor.EvaluateRule | internal/engine/executor.go:161-217 | one lease renewal per rule once its set-up succeeded, also when the evaluation fails |
| Aggregator.RuleCountIsNumberOfPlaces | internal/engine/executor.go:146-155 | the number of rules that the nested loops go through is the number of places in all profiles |
| Aggregator.Executor.EvaluateAll | internal/engine/executor.go:140-158 | success exactly if every rule of every profile was stored; then one renewal for each of them, else one for each before the first failing one and one for that if it was set up; the lock table afterwards is what the last renewal alone leaves: its row stamped if still owned, no other row touched |
| Aggregator.Executor.EvalEntityEvent | internal/engine/executor.go:83-159 | from the moment the provider is there, the lock is given up on every way out, and only if it is still this execution's; before, the row is left to expire; how many leases were renewed is fixed on every way out |
| Aggregator.Executor.HandleMessage | internal/engine/handler.go:147-189 | a message without execution id does nothing; with one, the rules are evaluated, and a flush message follows however that ends |
| AggregatorProtocol.WorkIsConserved | internal/eea/eea.go:137-206 | in every reachable state outside events = acquisitions + messages in flight or carried + cached rows + merged + dropped; so executions never outnumber events |
| AggregatorProtocol.TalliesCountSteps | internal/eea/eea.go:121-162 | the tallies of that balance are the numbers of steps taken: events, acquisitions and dropped messages |
| AggregatorProtocol.CoalescingLosesNothing | internal/eea/eea.go:77-209 | for every interleaving: as long as no execution has started after an event of an existing entity, a message for it is in flight, carried between two statements, or cached |
| AggregatorProtocol.HoldsUntilTakenOver | internal/db/entity_execution_lock.sql.go:99-184 | a running execution owns its row, stamped with its last renewal, until another takes it over while its lease has run out |
| AggregatorProtocol.OverlapMeansOverrun | internal/eea/eea.go:121-162 | if a younger execution acquires an entity while an older one is running, the older overran its lease before an acquisition no later than that one |
| AggregatorProtocol.AcquisitionOf | internal/eea/eea.go:121-162 | every running execution acquired its entity at some earlier step of the run |
| AggregatorProtocol.MutualExclusion | internal/eea/eea.go:121-162 | over whole runs: two running executions of which neither overran its lease before are for different entities |
| AggregatorProtocol.AcquiredWhen | internal/db/entity_execution_lock.sql.go:99-130 | an entity with a message in flight can be acquired exactly if it has no row or one older than the interval, and is refused exactly otherwise |
| AggregatorProtocol.AbandonedLockExpires | internal/engine/executor.go:98-116 | in any reachable state, an execution that ends without releasing keeps its entity locked for no longer than the interval |
| AggregatorProtocol.TakeoverDisplaces | internal/db/entity_execution_lock.sql.go:99-130 | whoever acquires an entity displaces every execution of it that came before |
| AggregatorProtocol.FencedForever | internal/db/entity_execution_lock.sql.go:152-184 | a displaced execution never owns a row again, and its later renewals and releases change nothing, through any number of takeovers |
| AggregatorProtocol.WorkRunsOut | internal/engine/handler.go:157-189 | without arrivals from outside, a run has no more working steps than the weight of its first state: acquire, enqueue, flush and republish cannot go on for ever |
| AggregatorProtocol.AtMostThirteenStepsEach | internal/engine/handler.go:157-189 | in plain numbers: at most thirteen steps for each message, cached row and execution under way |
| AggregatorProtocol.StrandedWhen | internal/eea/eea.go:129-155 | a cached row is left without any flush to come exactly when it is inserted after its entity's last execution has flushed (the insert is outside the transaction) or when that execution is skipped at shutdown |
| AggregatorProtocol.NeverStranded | internal/eea/eea.go:129-155 | over whole runs: no row of an entity is left behind up to some state if and only if no step before it inserts one without a flush to come or skips the last execution it waits for |
| AggregatorProtocol.LostWakeup | internal/eea/eea.go:129-155 | a concrete run of two events that ends with a cached row and nothing under way |
| HandlerSteps.AggregateFollows | internal/eea/eea.go:77-162 | run without interruption, the handler does to the tables what the protocol steps Ignore, Acquire, or Lose and Enqueue do |
| HandlerSteps.FlushFollows | internal/eea/eea.go:167-209 | the same for Flush, and Republish if a row was cached |
| HandlerSteps.RuleFollows | internal/engine/executor.go:161-217 | the same for Renew, one for each rule that is set up |
| HandlerSteps.MessageFollows | internal/engine/handler.go:147-189 | the same for Release, or Abandon without a provider, and PublishFlush |
| OverlappingStores.TwoRowsByOverlap | internal/history/service.go:99-131 | for every interleaving of storing transactions: a pair has two rows if and only if two transactions overlapped that both found no row for it |
| OverlappingStores.InsertsRow | internal/history/service.go:107-117 | a transaction whose lookup found no row inserts one at its commit, whatever happened in between |
| OverlappingStores.FirstBeforeSecond | internal/history/service.go:99-131 | of two that each inserted a row for the pair, the second looked before the first committed |
| OverlappingStores.TwoRowsHappen | internal/history/service.go:99-131 | from any tables in which a pair was never stored there is such a run |
| OverlappingStores.OneTransactionPerEntity | internal/eea/eea.go:121-162 | in a joint run with the aggregator in which no lease is overrun, no two open transactions are for one entity |
| OverlappingStores.StoresAreSequential | internal/engine/eval_status.go:122-165 | in such a run every commit is the store that lookup and writes in one would make, no lookup is ever out of date, the invariant of the tables holds and no pair has two rows |
| OverlappingStores.TablesRefineCommitted | internal/history/service.go:83-182 | in such a run, from tables without rows, the tables refine the plain map of the stores committed so far |
| OverlappingStores.CommittedViewIsLast | internal/db/profile_status.sql.go:231-271 | so the status view shows each pair as its last committed store left it, once, in the profile of the first |
| ExecutorHandler.ClosedMeansCancelled | internal/engine/handler.go:61-118 | in every reachable state of a closed handler all executions under way have been cancelled; no handle has two entries |
| ExecutorHandler.NothingNewAfterShutdown | internal/engine/handler.go:102-109 | after shutdown nothing is registered any more, and what still starts was registered before |
| ExecutorHandler.CompletionRemovesOwnEntry | internal/engine/handler.go:133-139 | in every run, an execution that completes cuts out its one entry and leaves the others in order |
| ExecutorHandler.WithoutOne | internal/engine/handler.go:135-137 | deleting by handle takes out its single entry |
| ExecutorHandler.ExecutorEventHandler.Shutdown | internal/engine/handler.go:61-71 | closes the handler and calls every registered cancel function |
| ExecutorHandler.ExecutorEventHandler.Admit | internal/engine/handler.go:102-109 | registers a message, or cancels and rejects it when the handler is closed |
| ExecutorHandler.ExecutorEventHandler.Begin | internal/engine/handler.go:111-120 | a message that does not parse leaves its entry behind; otherwise its goroutine starts |
| ExecutorHandler.ExecutorEventHandler.Finish | internal/engine/handler.go:133-139 | the loop deletes every entry equal to the handle and keeps the order of the others |
| FlaggedDriver.Driver.Publish | internal/events/flagged_driver.go:38-58 | messages go out in order, each to the driver its flag names, up to the first that is refused |
| FlaggedDriver.Subscribe | internal/events/flagged_driver.go:63-98 | what is emitted interleaves a prefix of each stream, and both whole streams unless the context ended at a turn of the loop; every turn before that one forwarded a message or found a channel closed |
| FlaggedDriver.InterleavingKeepsOrder | internal/events/flagged_driver.go:75-98 | both streams appear in their order at disjoint positions that fill the output |
| FlaggedDriver.RoutedPositions | internal/events/flagged_driver.go:38-58 | what goes to one driver are the messages whose flag names it, each once, in order |
| FlaggedDriver.RoutingSplits | internal/events/flagged_driver.go:38-58 | whatever the flags, the two drivers together get every message once |
| FlaggedDriver.DeliversExactlyOnce | internal/events/flagged_driver.go:38-98 | after both streams close, each published message was emitted exactly as often as it was published |
| ProjectHierarchy.DescendsByFirstStep | internal/authz/authz.go:456-486 | a descendant is a child or a descendant of a child: the step the traversal makes is the closure's |
| ProjectHierarchy.AuthzClient.TraverseProjectsForParent | internal/authz/authz.go:456-486 | returns exactly the descendants of a project, and terminates, on every hierarchy without a cycle |
| ProjectHierarchy.AuthzClient.ProjectsForUser | internal/authz/authz.go:400-454 | returns exactly the projects the user has a role on and all their descendants |
| ProjectHierarchy.TwoLevels | internal/projects/creator.go:158-214 | in every reachable hierarchy no subproject has a child, which bounds the recursion |
| ProjectHierarchy.TuplesAgreeWithTable | internal/db/projects.sql.go:132-147 | for committed projects the tuples and the recursive query over `parent_id` give the same ancestors, in every reachable state |
| ProjectHierarchy.AccessIsRoleOnProjectOrParent | internal/authz/authz.go:400-486 | in every reachable state a committed project is listed exactly for the users with a role on it or on its parent |
| ProjectHierarchy.LeftoversAreListed | internal/projects/creator.go:86-214 | in every reachable state a project that was never committed is listed for a user if and only if an earlier creation of it failed after its tuple was written, made by that user or under a project on which the user has a role |
| ProjectHierarchy.LeftoverIsListed | internal/projects/creator.go:158-276 | a concrete run after which a project is listed that does not exist |
| ProjectHierarchy.ProjectCreator.ProvisionChildProject | internal/projects/creator.go:158-292 | for every outcome of its calls, which rows and tuples there are afterwards: nothing before the parent tuple is written, the tuple alone if only the commit fails |
| ProjectHierarchy.ProjectCreator.ProvisionSelfEnrolledProject | internal/projects/creator.go:86-156 | for every outcome of its calls, which rows and tuples there are afterwards: the role is deleted again on a later failure, if that deletion succeeds, but not on a failed commit |
| Base64.RoundTrip | internal/history/models.go:91-97 | standard base64, section 4 of RFC 4648: decoding undoes encoding for every byte string, with padding and skipped line breaks |
| Base64.AlphabetIsStandard | internal/history/models.go:91-97 | the alphabet of table 1 of RFC 4648 |
| Base64.SextetsAreBits | internal/history/models.go:91-97 | the sextets are the bits of the bytes from the highest to the lowest, filled up with zeros |
| Base64.StandardVectors | internal/history/models.go:91-97 | quanta of the test vectors of section 10 of RFC 4648, with their padding |
| Base64.OnlyQuantaAreDecoded | internal/history/models.go:91-97 | what is decoded consists of whole quanta of the alphabet, with padding at the very end at most |
| Base64.LineBreaksAreSkipped | internal/history/models.go:91-97 | a line break changes nothing wherever it stands |
| Decimal.RoundTrip | internal/history/models.go:99-127 | parsing undoes printing for every 64-bit value, and with a plus sign in front for those that are not negative |
| Decimal.OutOfRange | internal/history/models.go:119-122 | a number that does not fit into 64 bits is not read |
| Cursor.EmptyPayloadAsksForTheNewest | internal/history/models.go:70-99 | without a payload the cursor is the next page before microsecond 999999999999999999 |
| Cursor.ThreeForms | internal/history/models.go:78-127 | the three documented forms, as base64 text: with a plus sign, with a minus sign and without a sign |
| Cursor.GarbageIsMalformed | internal/history/models.go:91-122 | what is not base64, or has anything but digits behind the signs, is malformed |
| Cursor.CursorRoundTrip | internal/controlplane/handlers_evalstatus.go:303-308 | for every 64-bit time and both directions, parsing an emitted cursor gives that time and direction |
| Cursor.UnsignedMeansNext | internal/history/models.go:105-127 | the unsigned form reads as a cursor for the next page if and only if the time is not negative; for the others the sign is taken for the direction, and the least 64-bit value is malformed |
| HistoryFilter.ListEvaluationFilter.Add | internal/history/models.go:313-483 | one value is appended to the included or excluded list of its field, also when the call then fails; fails for a value that is not allowed or a field both included and excluded |
| HistoryFilter.ListEvaluationFilter.AddProjectID | internal/history/models.go:302-308 | sets the project unless the id is nil |
| HistoryFilter.ListEvaluationFilter.Apply | internal/history/models.go:505-667 | one option brings the filter from the meaning of the list so far to that of the longer list, or fails for an exact reason |
| HistoryFilter.NewListEvaluationFilter | internal/history/models.go:670-692 | accepts exactly the option lists that are sound, name a project, conflict in no field, and whose last bounds are in order; the filter then is what the list says |
| HistoryFilter.ListsHold | internal/history/models.go:313-483 | in terms of the options as given: the included values are those without an exclamation mark, the excluded ones the texts behind one, up to the next |
| HistoryFilter.AllowedTexts | internal/history/models.go:41-51 | the texts that each field allows |
| FilterMeaning.AcceptedExactly | internal/history/models.go:302-692 | in terms of the options as given: which lists are accepted |
| HistoryFilter.NeverRecovers | internal/history/models.go:670-692 | a list that failed at one option is not acceptable whatever follows |
| HistoryFilter.AcceptanceAndOrder | internal/history/models.go:670-692 | acceptance depends on the order of the options if and only if several bounds are given of which one pair is in order and another is reversed |
| HistoryFilter.OrderMatters | internal/history/models.go:670-692 | a concrete list that is accepted and a reordering of it that is not |
| HistoryFilter.OrderIsFree | internal/controlplane/handlers_evalstatus.go:155-165 | with at most one `from` and one `to`, which is all the handler builds, acceptance does not depend on the order |
| HistoryFilter.Convert | internal/history/service.go:510-528 | the whole list is converted, or it fails exactly when some value has no counterpart |
| HistoryFilter.TranslationKeepsMeaning | internal/history/service.go:301-508 | for every accepted option list the translation succeeds and the SQL predicate, in three-valued logic, keeps exactly the rows that the list means |
| FilterMeaning.KeptRowsPass | internal/db/eval_history.sql.go:301-328 | in terms of the options as given and the columns of the row: the rows kept are those whose text is one of the given values, if there are any, and none behind an exclamation mark, with labels, project and times likewise |
| FilterMeaning.GivenNameIsAskedFor | internal/history/models.go:339-354 | a name that is given is asked for, and one behind an exclamation mark is hidden |
| FilterMeaning.TextsOfColumns | internal/history/service.go:530-610 | the texts of the enumerated columns |
| HistoryFilter.EntitiesInvert | internal/history/service.go:530-545 | on allowed values the mapping inverts the text of the entity type |
| HistoryFilter.RemediationsInvert | internal/history/service.go:547-568 | the same for remediation statuses |
| HistoryFilter.AlertsInvert | internal/history/service.go:570-589 | the same for alert statuses |
| HistoryFilter.StatusesInvert | internal/history/service.go:591-610 | the same for evaluation statuses |
| HistoryPaging.ListEvaluationHistory | internal/history/service.go:199-270 | from any answer the query may give, the page is newest first, holds the rows nearest to the cursor, and its cursors are its ends; without a cursor it holds the oldest rows, oldest first, and its next cursor lies at the newest of them |
| HistoryPaging.FirstPageHoldsTheNewest | internal/controlplane/handlers_evalstatus.go:115-148 | the request without a cursor gets the newest rows, as many as the size or all |
| HistoryPaging.WalkIsSortedWithoutDuplicates | internal/db/eval_history.sql.go:267-333 | however the table changes between pages, a forward walk returns no row twice and is sorted |
| HistoryPaging.LastingRowsAreReturned | internal/history/service.go:199-270 | a row that is there during the whole walk is returned if and only if no page ends at its time without it |
| HistoryPaging.AllReturnedUnlessStraddling | internal/db/eval_history.sql.go:267-333 | for a fixed table: a complete walk returns every row if and only if no rows of one time straddle a multiple of the page size in the order of the listing, a condition on the table and the size alone |
| HistoryPaging.CutStraddles | internal/db/eval_history.sql.go:301-333 | the first row that is cut off belongs to such a group, at the end of its page |
| HistoryPaging.OwnTimeLosesNothing | internal/history/service.go:199-270 | a lasting row that shares its time with no other kept row is returned exactly once, with stores and purges in between |
| HistoryPaging.TiesAreLost | internal/db/eval_history.sql.go:301-333 | a concrete walk over two rows of the same time that never returns the second |
| HistoryPaging.PagesAreTheSortedTable | internal/db/eval_history.sql.go:267-333 | on a fixed table with distinct times the pages joined together are the one listing of the kept rows newest first |
| HistoryPaging.ConcatDescends | internal/db/eval_history.sql.go:301-333 | also with equal times and a changing table the pages joined together are sorted and free of duplicates |
| HistoryPaging.WalksEnd | internal/history/service.go:199-270 | a walk has no more non-empty pages than rows were ahead of it, if stores are not older than the cursor |
| HistoryPaging.PrevUndoesNext | internal/history/service.go:219-267 | the page before the page after a page is the page itself: rows, order and cursors |
| HistoryTables.OneHistoryRowPerEvaluation | internal/db/eval_history.sql.go:298-299 | the left joins with the events give one row per evaluation, neither repeated nor with NULL |
| HistoryWalk.OneRowEach | internal/db/eval_history.sql.go:268-300 | every evaluation is listed, as one row that shows the status of its own events |
| HistoryWalk.StepKeepsRows | internal/db/eval_history.sql.go:268-300 | stores, rule changes and purges leave the listed row of every other evaluation as it is |
| HistoryWalk.GoneForGood | internal/db/eval_history.sql.go:19-30 | an evaluation that was purged does not come back |
| HistoryWalk.LastingEvaluationReturnedOnce | internal/history/service.go:199-270 | over a whole run of stores, rule changes and purges between the pages: an evaluation that exists from the first page to the last and that the filter keeps is returned exactly once, provided no other kept row has its time |
| HistoryWalk.ReturnedRowsAreAskedFor | internal/history/service.go:199-270 | every row that a walk returns is a row of the listing at that moment and passes every option |
| HistoryTables.LookupFindsThePair | internal/history/service.go:100-131 | the lookup finds nothing exactly when the pair has no row, and else its only row |
| HistoryTables.StoreKeepsInv | internal/engine/eval_status.go:122-165 | one stored evaluation keeps: one row per pair, one pointer per row to an evaluation of that row, one remediation and one alert event per evaluation, fresh ids, foreign keys |
| HistoryTables.DeleteKeepsInv | internal/db/eval_history.sql.go:19-30 | so does deleting evaluations that no pointer refers to |
| HistoryTables.LowerIgnoresCase | internal/db/rule_instances.sql.go:181 | names in lower case are equal exactly if the names are the same letters up to case |
| HistoryStore.DeletedByMembers | internal/db/eval_history.sql.go:19-30 | record by record, what a deletion takes, what it leaves and when it is refused |
| HistoryStore.UpsertedByKey | internal/db/rule_instances.sql.go:154-188 | which rule an upsert changes, and when it adds one |
| HistoryTables.UpsertKeepsInv | internal/db/rule_instances.sql.go:154-188 | so does a rule upsert, which keeps the key of every rule |
| HistoryTables.EventsDeleted | internal/db/eval_history.sql.go:19-30 | the cascade removes the events of the deleted evaluations and leaves each other one its single event |
| StatusView.GetRuleEvaluationByProfileIdAndRuleType | internal/db/store.go:104-133 | nothing if no row of the profile has this entity, rule type and rule name; the one row that has; or an error that tells how many there were |
| StatusView.RestrictionByColumns | internal/db/profile_status.sql.go:267-271 | a restriction keeps exactly the rows of which each column that it gives has that value, the rule's name up to case |
| StatusView.LatestStoreIsLast | internal/history/service.go:148-182 | the last outcome of the plain map is that of the latest store of the pair |
| StatusView.EarliestStoreIsFirst | internal/history/service.go:148-182 | the first one is that of its earliest |
| StatusView.StoreRefines | internal/history/service.go:83-182 | one store moves the pointer tables from the plain map of the outcomes so far to the map with the new one |
| StatusView.SystemInvHolds | internal/history/service.go:83-182 | over every run the tables refine the map of last outcomes, and what is listed for purging stays superseded |
| StatusView.StatusViewIsLastStore | internal/db/profile_status.sql.go:231-271 | after any run of stores, upserts and purges, the view of a profile has exactly one row for each pair first stored for it that meets the restriction, and it shows the last outcome with its own two events |
| StatusView.PointerIsLastInserted | internal/history/service.go:83-182 | over every run: no pointer before the first store of a pair, then one row whose pointer is to its newest evaluation |
| StatusView.SupersededForever | internal/db/eval_history.sql.go:442-461 | a superseded record never becomes the latest again |
| StatusView.ListedIsSuperseded | internal/db/eval_history.sql.go:442-461 | no pointer refers to a record listed as stale |
| StatusView.PurgeKeepsView | cmd/server/app/history_purge.go:134-169 | a purge from a list however old, with any steps in between, is never refused and changes no profile's view under any restriction |
| StatusView.AtMostOneRow | internal/db/store.go:104-133 | if every store names the rule's own profile and an entity of the rule's type, the lookup by rule name never meets two rows |
| HistoryStore.HistoryStore.GetLatestEvalStateForRuleEntity | internal/db/eval_history.sql.go:115-143 | some row of the join, or none if it is empty |
| HistoryStore.HistoryStore.InsertEvaluationRuleEntity | internal/db/eval_history.sql.go:176-200 | a new row with a new id, unless the rule or the entity is missing |
| HistoryStore.HistoryStore.InsertEvaluationStatus | internal/db/eval_history.sql.go:202-234 | a new evaluation with a new id |
| HistoryStore.HistoryStore.UpsertLatestEvaluationStatus | internal/db/eval_history.sql.go:505-529 | one pointer per row; on conflict only the evaluation is replaced, the first profile stays |
| HistoryStore.HistoryStore.InsertRemediationEvent | internal/db/eval_history.sql.go:236-265 | a new event of an existing evaluation |
| HistoryStore.HistoryStore.InsertAlertEvent | internal/db/eval_history.sql.go:145-174 | a new event of an existing evaluation |
| HistoryStore.HistoryStore.UpsertRuleInstance | internal/db/rule_instances.sql.go:154-210 | the rule with the key (profile, entity type, lower-case name) gets the new type, or a new one is inserted; names stay unique |
| HistoryStore.HistoryStore.DeleteEvaluationHistoryByIDs | internal/db/eval_history.sql.go:19-30 | refused as a whole exactly if a pointer refers to one of the evaluations; counts what existed |
| HistoryStore.HistoryStore.StoreEvaluationStatus | internal/history/service.go:83-146 | finds or inserts the row, inserts the evaluation and moves the pointer; fails exactly when a statement on its way does |
| HistoryStore.HistoryStore.CreateNewStatus | internal/history/service.go:148-182 | a new evaluation of the row, and the pointer to it |
| HistoryStore.HistoryStore.CreateOrUpdateEvalStatus | internal/engine/eval_status.go:87-167 | all five writes or none: whichever statement fails, including the commit, the tables are as before; a silent skip writes nothing; the invariant holds after every way out |
| HistoryStore.StoreFailsWhen | internal/engine/eval_status.go:122-165 | storing fails exactly if a statement that is sent is refused or a new pair lacks its rule or entity |
| HistoryStore.ListedRecords | internal/db/eval_history.sql.go:442-461 | what is listed is older than the threshold and not a latest record; after its purge, unless the listing was cut, everything older that is left is a latest record |
| HistoryStore.HistoryStore.DeleteEvaluationHistory | cmd/server/app/history_purge.go:134-169 | the loop over batches does what the batch-wise deletion `Purged` says |
| HistoryStore.PurgeIsWhole | cmd/server/app/history_purge.go:134-169 | whatever the batch size, everything is deleted and counted once exactly if no pointer refers to any of the records |
| HistoryStore.PurgeStopsAtPointer | cmd/server/app/history_purge.go:134-169 | a purge that fails has deleted whole batches of the given size, up to the first that a pointer refers to, and nothing else |
| HistoryStore.TurnsReachPurged | cmd/server/app/history_purge.go:134-169 | turn by turn, with a positive batch size, the loop ends with the tables, the count and the refusal that the batch-wise deletion has |
| HistoryStore.PurgeEnds | cmd/server/app/history_purge.go:134-169 | the loop ends if and only if the batch size is positive or there is nothing to delete |
| HistoryStore.HistoryStore.PurgeLoop | cmd/server/app/history_purge.go:86-132 | deletes exactly what was listed, never fails on a pointer, leaves no stale record unless the listing was cut, spares every record that is not older than the threshold and every latest one, and deletes nothing on a dry run |

## Left out

- AggregatorProtocol.Next: publishing always succeeds here. In `FlushMessageHandler` the cached row is deleted before the
  publish, so after a failed publish the event is not covered. Redelivery, retries and the poison queue are not modelled.
- AggregatorProtocol.WorkRunsOut: bounds the steps that are made; that a lock is released, or a step is made at all, is
  not claimed. An evaluation that stops before its deferred release is the step `Abandon`, and its row expires.
- AggregatorProtocol.CoalescingLosesNothing: entities exist for the whole run; deleting entities is not modelled.
- AggregatorProtocol.FencedForever: database errors of the two statements are not modelled; they change nothing either.
- Aggregator.EEA.Aggregate: errors of the database and of decoding, which fail the message, are not modelled.
- ExecutorHandler.ClosedMeansCancelled: covers executions that were registered; a panic in a goroutine is not modelled.
- FlaggedDriver.Subscribe: an error of the base subscription and the closing of channels are not modelled.
- ProjectHierarchy.AuthzClient.TraverseProjectsForParent: takes a rank as a ghost argument, which says that the
  tuples have no cycle; `TwoLevels` gives one for every reachable state. Paging and errors of the tuple store are not
  modelled.
- ProjectHierarchy.AuthzClient.ProjectsForUser: states which projects are in the list, not their order
  or how often a project that is reached twice appears. Ids that do not parse are not modelled.
- ProjectHierarchy.LeftoversAreListed: roles are assigned and removed on committed projects only; changing a role on a
  project that was left behind, and deleting users, are not modelled. A role is any role.
- ProjectHierarchy.TuplesAgreeWithTable: deleting and orphaning projects are not modelled.
- HistoryFilter.TranslationKeepsMeaning: values behind an inner exclamation mark are lost when an option is read; the
  meaning is that of the stored lists. The parameters, which the source fills in field by field, are one expression.
- HistoryPaging.OwnTimeLosesNothing: rows at or after the default cursor's time, microsecond 999999999999999999 in the year
  33658, are excluded.
- HistoryPaging.ListEvaluationHistory: takes the answer of the query as an argument; loading entity properties for each
  row and the cap on the page size in the handler are not modelled.
- HistoryStore.HistoryStore.DeleteEvaluationHistory: needs a positive batch size unless there is nothing to delete,
  because otherwise the method does not end; what the loop then does is the subject of `PurgeEnds`.
- HistoryStore.HistoryStore.PurgeLoop: needs the same, except on a dry run; takes the answer of the listing as an
  argument; a failing listing is not modelled.
- HistoryStore.HistoryStore.CreateOrUpdateEvalStatus: checkpoints, event metadata and evaluation outputs are not stored.
- StatusView.StatusViewIsLastStore: deleting rules, profiles or entities is not modelled; evaluation outputs, severity and
  provider columns are left out of the row.
- StatusView.AtMostOneRow: `lower` is modelled for the letters of ASCII.
- OverlappingStores.StoresAreSequential: purges and rule upserts between the steps of a transaction are not modelled; the
  runs of `StatusView` have them between whole stores.
- HandlerSteps.MessageFollows: the renewals between acquisition and release are steps of their own and are not repeated;
  after the release they have left nothing in the tables.
- Ids are drawn from a counter instead of at random: they never collide.
- Rule evaluation, ingestion, actions, selectors and the mapping of their errors to statuses: a result is any outcome.
- Reading filter strings from the request, permission checks, SQL text, JSON, telemetry and logging.
