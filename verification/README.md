# Verified model of the network-inspection server

The server inspects network devices, servers and weak-current equipment, raises alerts on what it
finds, runs write operations against a company directory, collects door access records and shows the
results in paged tables. This project models the parts of it where a mistake is expensive and hard to
see, and proves what they promise for every input and every run.

Five areas are covered.

- **Alert pipeline.** Device evidence is judged (`DeviceEvidence`), findings are grouped and move one
  state per key (`AlertStates`), finished targets are reconciled fairly and once each
  (`AlertReconciliation`), summary texts are bounded (`SummaryBody`), and deliveries are sent under
  lease tokens with bounded retries (`DeliveryOutbox`).
- **Lease-fenced execution.** Workers begin and publish targets in separate transactions while leases
  expire and tasks are requeued, reclaimed or cancelled around them (`TaskFencing`).
- **Directory protocol.** Mutual exclusion of directory work (`DirectoryQueue`), the staged creation
  of a user (`CreateUser`), the compare-and-swap on userAccountControl (`UacFlags`), ranged reading of
  group members (`GroupMembers`), decoding of escaped names (`DnValue`), and access record collection
  with its cursor (`AccessSync`).
- **Merged paging.** The rank-and-offset table of analyses and placeholders against one plain list
  (`MergedPaging`).
- **Template inheritance.** Deep merge, parent chains, provenance and version choice
  (`CollectionTemplates`).

Where the program updates rows, tables or connections step by step, the model is a class whose methods
change its fields, one method per database transaction. Each method is proved equal to a function of
the old state, and the lemmas about runs are about those functions. What such a function means is stated
once more beside it, without naming its parts: in positions, numbers, words and flags. Everything outside a transaction is
an adversary: clocks, tokens, directory and platform answers, lost connections, other writers, lease
expiry, requeueing and cancellation are free parameters, restricted only by what the lemma says.

`dafny verify dfyconfig.toml` checks the project.

## What the code does not do

These are properties one could expect and that are false of the code. Each is stated with a concrete
counterexample and with the exact condition under which the code does meet the property.

- Deep merge is not associative: an object replaced by a plain value and then turned into an object again
  depends on the grouping (`CollectionTemplates.MergeIsNotAssociative`, exact condition in
  `CollectionTemplates.AssociativeExactly`).
- An attempt to recover a created user that cannot connect reports no stage, so the retry after it sends
  an add request again (`CreateUser.LostConnectionForgetsThePendingStage`, exact condition in
  `CreateUser.AddAfterPendingExactly`).
- The compatible userAccountControl path can report a checked success although it overwrote a flag that
  another administrator changed between the read and the write (`UacFlags.CheckedBackLosesAChange`, exact
  condition in `UacFlags.CheckedBackIsRightExactly`).
- Cutting a summary for the wire can push it to 12001 bytes, one above the limit
  (`SummaryBody.OneByteTooMany`, with the footer of a task without an address; exact condition in
  `SummaryBody.TextOverrunsExactly`).
- The final state of an alert key does not depend on the order of processing, but the recoveries recorded
  on the way do (`AlertStates.RecoveriesDependOnOrder`, exact condition in
  `AlertStates.SameRecoveriesExactly`).

## What some properties rest on

- Inspection results compare no attempt numbers when they are published. They are fresh because a worker
  waits for its threads before it claims again (net/inspections/worker.py:262-303):
  `TaskFencing.InspectionIsFresh`. `TaskFencing.OldDataExactly` says what that wait is needed for.
- Every item lands in one list because template validation refuses to select `inspection_collection`
  (net/devices/collection_profiles.py:139-175); `DeviceEvidence.SelectedCollectionLandsTwice` says why it
  has to. The same validation refuses a threshold on the service or log list of a Linux server, which the
  evaluation would not look at (`DeviceEvidence.NormalMetricHasEvidence`).
- Among duplicate findings of one key none of which is abnormal, the first decides between normal and
  unknown (`AlertStates.GroupedStateIsExact`).

## Model

| member | source | states |
|---|---|---|
| MergedPaging.PeopleResultRows.Count | index/inspections/people_result_query.py:62-70 | The reported count is the length of the plain merged list |
| MergedPaging.PeopleResultRows.Positions | index/inspections/people_result_query.py:72-106 | Fetching ranks once per distinct value, in batches of one hundred, locates the placeholders as if each had been ranked on its own |
| MergedPaging.PeopleResultRows.GetIndex | index/inspections/people_result_query.py:108-114 | An index from the front or from the end names the entry of the plain list at that place, and any other is an IndexError |
| MergedPaging.PeopleResultRows.GetSlice | index/inspections/people_result_query.py:108-127 | Whatever the database counts for a value, a slice holds the entries at exactly the positions within its bounds, from the first one step at a time; `[a:b]` is the page from a to b, cut at the end; a zero step is an error |
| MergedPaging.ListSliceIsExact | index/inspections/people_result_query.py:117 | The clamped bounds of a slice pick exactly the positions that lie within the given ones, for every start, stop and step |
| MergedPaging.SliceFromTo | index/inspections/people_result_query.py:117 | `[a:b]` is the list from a to b, or to the end if that comes first |
| MergedPaging.SliceOpen | index/inspections/people_result_query.py:117 | A missing bound means from the beginning, or to the end |
| MergedPaging.SliceFromEnd | index/inspections/people_result_query.py:117 | A negative bound counts from the end |
| MergedPaging.PeopleResultRows.GetStrided | index/inspections/people_result_query.py:115-119 | A step other than one picks the entries that a range over the plain list picks |
| MergedPaging.PeopleResultRows.Iterate | index/inspections/people_result_query.py:129-140 | The streaming iterator yields the plain list |
| MergedPaging.PageOf | index/inspections/people_result_query.py:119-127 | For any ranks within the row count, one offset slice of the rows plus the placeholders on the page give the page of the plain list |
| MergedPaging.Stream | index/inspections/people_result_query.py:129-140 | The same for the iterator's loops, for any ranks within the row count |
| MergedPaging.EntryAtPosition | index/inspections/people_result_query.py:119-127 | Position p of the list is the placeholder whose position is p, or else the real row p minus the number of placeholders below p |
| MergedPaging.DropIsCursor | index/inspections/people_result_query.py:119-127 | Dropping i + j entries is moving a cursor past i rows and j placeholders |
| MergedPaging.PlaceholderPosition | index/inspections/people_result_query.py:100-106 | Placeholder j stands at its rank plus j |
| MergedPaging.MergedKeepsBoth | index/inspections/people_result_query.py:129-140 | Real rows keep their order and each placeholder occurs exactly once, in rank order |
| MergedPaging.PagesCoverTheList | index/inspections/people_result_query.py:108-127 | The consecutive slices a paginator asks for, of any size, concatenate to the whole list |
| MergedPaging.RankIsACut | index/inspections/people_result_query.py:82-99 | In a table in database order, exactly the rows in front of the rank of a value are not behind that value, nulls included |
| MergedPaging.SortIsStable | index/inspections/people_result_query.py:72-81 | Sorting by key leaves ties in roster order in both directions |
| MergedPaging.LocatedIsGood | index/inspections/people_result_query.py:100-106 | For any collation of the database, the located placeholders are in rank order, within the row count, and each is there with its rank |
| MergedPaging.SecondSortIsStable | index/inspections/people_result_query.py:100-104 | The second sort keeps placeholders of one rank in the order of the first |
| MergedPaging.LocatedIsSortedByValue | index/inspections/people_result_query.py:72-106 | When the database compares as the model does, the second sort has nothing left to do |
| MergedPaging.MergedListIsSorted | index/inspections/people_result_query.py:72-106 | With counts and rows in the model's order, the merged list is sorted in the requested direction; on equal keys real rows precede placeholders, and ties keep primary key and roster order |
| MergedPaging.InOrderReads | index/inspections/people_result_query.py:72-106 | In such a list values run in the requested direction, rows without a value come last ascending and first descending, and ties put real rows first |
| MergedPaging.OrderReads | index/inspections/people_result_query.py:88-98 | The order of two optional keys in both directions |
| MergedPaging.RosterIsCovered | index/inspections/people_result_query.py:29-41 | Every roster seat either has an analysis in the task or is exactly one placeholder |
| MergedPaging.RecordTableKeepsTies | index/common/table_query.py:328-368 | Filtering and sorting placeholders keeps tied ones in roster order and keeps exactly the wanted ones |
| MergedPaging.FilteringNeverAddsAPlaceholder | index/inspections/people_result_query.py:29-60 | A filtered and sorted table satisfies all of the above, and its placeholders are exactly the wanted seats without an analysis in the task |
| MergedPaging.RealRowsAreQueried | index/inspections/people_result_query.py:29-60 | The real rows of a filtered table are those of the wanted analyses whose person is on the roster |
| DeliveryOutbox.Outbox.ClaimDeliveries | net/alerts/service.py:334-366 | A claim transaction is the claim step, and returns exactly the claimed rows, each with its token, and no more than the batch |
| DeliveryOutbox.ClaimMeans | net/alerts/service.py:334-366 | A row that a claim changes was new, due for its retry, or past its lease; it is then sending for 30 seconds with one more attempt, or failed when its attempts were used up |
| DeliveryOutbox.ClaimReaches | net/alerts/service.py:334-352 | Every such row is taken, unless older ones fill the batch |
| DeliveryOutbox.Outbox.EventStatus | net/alerts/service.py:369-382 | The stored event status becomes the aggregate of its deliveries |
| DeliveryOutbox.AggregateReads | net/alerts/service.py:369-382 | When that aggregate is delivered, partial, failed or sending, by the statuses of the deliveries |
| DeliveryOutbox.Outbox.FinishDelivery | net/alerts/service.py:385-412 | The finish transaction is the finish step, whose meaning the next rows state |
| DeliveryOutbox.FinishMeans | net/alerts/service.py:394-406 | Under the current token a delivery becomes sent if and only if the message was accepted, waits 30 seconds for a retry if it may be tried again, and fails otherwise |
| DeliveryOutbox.FinishIsFenced | net/alerts/service.py:385-393 | Under any other token nothing changes, and never another row |
| DeliveryOutbox.SentExactly | net/alerts/service.py:385-412 | Over every run a delivery ends sent if and only if some finish under its then current token reported success |
| DeliveryOutbox.DeliveredMeansSuccess | net/alerts/service.py:369-382 | An event is delivered if and only if each of its deliveries had such a success |
| DeliveryOutbox.Outbox.PublishSummary | net/alerts/task_summaries.py:104-119 | A summary adds one event and one pending delivery per channel, and fails without channels |
| DeliveryOutbox.PublishMeans | net/alerts/task_summaries.py:104-119 | The rows a summary adds, and those it leaves as they were |
| DeliveryOutbox.ClaimTakesOldest | net/alerts/service.py:334-352 | A claim touches exactly the oldest due rows, as many as the batch allows |
| DeliveryOutbox.ReachableTablesAreSound | net/alerts/service.py:334-412 | In every reachable table a row is sending exactly when it holds a token and a lease, attempts never exceed the maximum, and stored event statuses may lag only as pending behind sending |
| DeliveryOutbox.RunKeepsInv | net/alerts/service.py:334-412 | Every interleaving of claims, expiries, late finishes and new summaries keeps that invariant |
| DeliveryOutbox.RowStep | net/alerts/service.py:345-366 | A row changes only by a due claim or by a finish under its current token |
| DeliveryOutbox.EffectiveStepsDecrease | net/alerts/service.py:345-412 | Sent and failed are final; every other effective step decreases 2 * (max_attempts - attempt_count) + (1 if sending) |
| DeliveryOutbox.AttemptsAreBounded | net/alerts/service.py:345-366 | Over any run a delivery is claimed at most max_attempts times |
| DeliveryOutbox.StaleTokensStayDead | net/alerts/service.py:385-392 | A token that was replaced never changes the row again, however the run continues |
| DeliveryOutbox.SettledStatusesAreExact | net/alerts/service.py:369-382 | Delivered, partial and failed are stored exactly when the deliveries say so |
| AlertStates.AbnormalEvidenceWins | net/alerts/service.py:64-78 | A key is abnormal exactly when some valid finding for it is abnormal, with the highest severity among those |
| AlertStates.FindingReads | net/alerts/service.py:43-61 | When a value is a finding at all, its state, and how far its texts are kept |
| AlertStates.HighestSeverityIsKept | net/alerts/service.py:71-77 | Among the findings in the state that won, critical goes before warning, and warning before the rest |
| AlertStates.GroupedStateIsExact | net/alerts/service.py:64-78 | The grouped state is abnormal if any finding is, and otherwise that of the first valid finding |
| AlertStates.NormalisedAscends | net/alerts/service.py:78 | The normalised list goes by strictly ascending key |
| AlertStates.TextLessReads | net/alerts/service.py:78 | The order of keys: a prefix first, and otherwise by the first character that differs |
| AlertStates.NormalisedIsExact | net/alerts/service.py:64-78 | It holds exactly the strongest finding of every key mentioned |
| AlertStates.NormalisedFindings | net/alerts/service.py:64-78 | The grouping loop computes the normalised list |
| AlertStates.AlertStore.ProcessTargetFindings | net/alerts/service.py:170-236 | One result moves the state of each key and records at most one event of each type; an exception leaves exactly what was written before it |
| AlertStates.EventsAreFinal | net/alerts/service.py:214-235 | An event once stored is never replaced or changed by later results |
| AlertStates.EventIsExact | net/alerts/service.py:191-235 | A result leaves an event of a kind exactly if some finding had that effect, and the event holds just those findings, their keys and their time |
| AlertStates.StoredExactly | net/alerts/service.py:191-235 | A stored event names a key exactly if the result had that effect on the key |
| AlertStates.AbnormalEventBetweenRecoveries | net/alerts/service.py:170-236 | Between two stored recovery events of a key there is a stored abnormal event of that key, by processing and by time |
| AlertStates.ResultActsPerKey | net/alerts/service.py:182-204 | A result moves every key on its own and leaves all other keys alone |
| AlertStates.HistoryIsPerKey | net/alerts/service.py:170-204 | After any history a key's state is the replay of its own known observations; unknown ones change nothing |
| AlertStates.NewestObservationDecides | net/alerts/service.py:182-204 | In any order of arrival the newest known observation decides status, time and snapshot |
| AlertStates.ProcessingOrderIsIrrelevant | net/alerts/service.py:170-204 | Two orders of processing the same observations with distinct times end in the same status, time and snapshot |
| AlertStates.LastSeenOnlyIncreases | net/alerts/service.py:186-190 | The time a key was last seen never moves back |
| AlertStates.AbnormalBetweenRecoveries | net/alerts/service.py:182-204 | In the replay of one key from any state, between two observations that recover there is one that records abnormal |
| AlertStates.RecoveryIsExact | net/alerts/service.py:184-205 | An observation recovers exactly if it is normal, newer than all processed before it, and the newest of those was abnormal |
| AlertStates.AbnormalIsExact | net/alerts/service.py:184-200 | An abnormal record is left exactly by an abnormal observation newer than all processed before it |
| AlertStates.ChronologicalRecoveries | net/alerts/service.py:184-205 | In the order of times these are the normal observations right after an abnormal one |
| AlertStates.SameRecoveriesExactly | net/alerts/service.py:184-205 | Two orders of the same observations record the same recoveries if and only if no observation meets that condition in one order only |
| AlertStates.RecoveriesDependOnOrder | net/alerts/service.py:184-205 | Two orders of two observations, one with and one without a recovery |
| DeviceEvidence.MetricValuesAreReadings | net/inspections/device_issues.py:7-30 | The values used for a verdict are exactly the plausible readings in the evidence: in any nested row, the temperatures, the first named usage, or for memory the used share of bytes |
| DeviceEvidence.FailureReads | net/inspections/device_issues.py:33-41 | An object shows a failure exactly by being offline or by one of six words in three fields |
| DeviceEvidence.DefaultLimitsRead | net/inspections/device_issues.py:44-46 | The limits are 85 degrees and 90 percent |
| DeviceEvidence.LimitsRead | net/inspections/device_issues.py:44-46 | A threshold of one's own replaces the default of its item and no other |
| DeviceEvidence.SeverityReads | net/devices/pc/severity.py:7-30 | The level of an issue: an override of its rule, else info for missing data, critical for the collection and warning for the rest |
| DeviceEvidence.LinuxReads | net/inspections/device_issues.py:64 | When a server is taken for Linux |
| DeviceEvidence.AbsentEvidenceIsUnknown | net/inspections/device_issues.py:70-96 | What was not collected is unknown, neither a fault nor normal |
| DeviceEvidence.FaultsAndGapsRead | net/inspections/device_issues.py:94-118 | A shown failure or a value above the limit is a fault, a metric without a reading is unknown |
| DeviceEvidence.VerdictIsExclusive | net/inspections/device_issues.py:60-137 | Every branch of the item loop raises an issue or reports the item normal, and never both |
| DeviceEvidence.NormalTrafficIsComplete | net/inspections/device_issues.py:64-80 | Traffic is normal only with a known reading for every interface, none above the limit |
| DeviceEvidence.NormalMetricHasEvidence | net/inspections/device_issues.py:97-118 | A metric item is normal only with at least one value and all values within the limit; the one exception is exact |
| DeviceEvidence.EvaluateDeviceIssues | net/inspections/device_issues.py:44-146 | The evaluation loop computes the issues and normal items of the per-item verdicts, whose meaning the rows around this one state |
| DeviceEvidence.CollectionReads | net/inspections/device_issues.py:59-146 | What is said of the collection: failed alone for an unreachable device, flagged after a run without success and without other issue, normal after a success |
| DeviceEvidence.EachSelectedItemLandsOnce | net/inspections/device_issues.py:44-146 | Every selected item of a reachable device is flagged or normal, and never both |
| DeviceEvidence.SelectedCollectionLandsTwice | net/inspections/device_issues.py:44-146 | The collection item, if it could be selected, would be both |
| DeviceEvidence.FindingsForTarget | net/alerts/service.py:276-331 | The findings of a persisted snapshot, for itemised, older and missing results |
| DeviceEvidence.NormalFindingNeedsACleanItem | net/alerts/service.py:276-323 | A normal finding names an item that was reported normal and has no issue, or a successful run |
| DeviceEvidence.FailedRunNeverClearsCollection | net/alerts/service.py:298-323 | A run that did not succeed never yields a normal collection finding |
| DeviceEvidence.NormalItemsAreJudgedClean | net/inspections/device_issues.py:44-146 | An unreachable device yields no normal item, and every normal item was judged clean |
| DeviceEvidence.CleanExactly | net/inspections/device_issues.py:60-142 | An item is clean if and only if its evidence is in order, condition by condition: present, no failure, readings and none above the limit, complete records, healthy access points, no interface down |
| DeviceEvidence.NoRecoveryWithoutEvidence | net/inspections/executor.py:347-362 | Evaluated, filtered by the enabled alert items, persisted and grouped: if the key of an item comes out normal, the device was reachable, the item enabled, and there is evidence |
| DeviceEvidence.FlaggedItemsAlert | net/alerts/service.py:289-294 | An issue above info of a watched item makes its key abnormal |
| DeviceEvidence.NormalKeyExactly | net/alerts/service.py:276-323 | The whole way, both directions: the key of a watched item of a reachable device comes out normal if and only if its evidence is in order |
| DeviceEvidence.OlderResultRead | net/alerts/service.py:317-323 | The finding of an older result without issues |
| DeviceEvidence.OlderIssuesRead | net/alerts/service.py:310-316 | The finding of an older result with issues is about the worst of them |
| DeviceEvidence.NoResultRead | net/alerts/service.py:324-331 | The finding of a failed or partial target without a result |
| DeviceEvidence.RecoveriesHaveEvidence | net/alerts/service.py:170-205 | End to end: whatever the alert tables hold, an item recovers only under those conditions |
| AlertReconciliation.Reconciler.ProcessPersistedTarget | net/alerts/service.py:436-483 | Findings reach the alert tables in the step that marks the target processed; an exception after any number of writes undoes them all and only audits the attempt |
| AlertReconciliation.Reconciler.ReconcileTerminalTargets | net/alerts/service.py:486-495 | A cycle attempts the batch, and the alert tables hold exactly the findings of the attempts that succeeded |
| AlertReconciliation.BatchIsOldest | net/alerts/service.py:486-494 | The batch holds distinct eligible targets, and each precedes every eligible target left out |
| AlertReconciliation.BatchReads | net/alerts/service.py:486-494 | Never attempted goes before attempted, longer ago before later, and then by finish time and key |
| AlertReconciliation.CycleServesWaiting | net/alerts/service.py:486-495 | A cycle serves as many waiting targets as the limit allows, or all |
| AlertReconciliation.BacklogShrinks | net/alerts/service.py:436-495 | Every cycle takes its full share of the backlog until nothing of it is left |
| AlertReconciliation.BacklogIsAttempted | net/alerts/service.py:436-495 | With a clock that advances between cycles, a backlog of n is attempted within ceil(n / limit) cycles whatever fails |
| AlertReconciliation.FindingsApplyOnce | net/alerts/service.py:455-470 | Over any run of attempts the findings are applied exactly once if the target ends up processed, and never otherwise |
| AlertReconciliation.SummaryDesk.ProcessTaskSummary | net/alerts/task_summaries.py:75-126 | A summary is made only for a finished task whose targets are finished and processed; a failure only moves the attempt time |
| AlertReconciliation.OneSummaryPerTask | net/alerts/task_summaries.py:75-126 | However often it is retried, a task gets at most one summary, and none before its evidence settled |
| TaskFencing.TaskTable.BeginTarget | net/inspections/executor.py:80-101 | A target is started only when queued, under the worker's live lease and, if given, the expected task attempt |
| TaskFencing.TaskTable.Publish | net/inspections/executor.py:390-478 | A publication commits exactly under its guards; a lease lost before the end rolls the record back |
| TaskFencing.PublicationIsMadeExactly | net/inspections/executor.py:63-70 | All the guards of a publication of each kind |
| TaskFencing.CommittedInspectionHasARecord | net/inspections/executor.py:418-462 | A committed inspection leaves exactly one record, and the status it was published with |
| TaskFencing.OtherPublicationsLeaveNoRecord | net/domain/executor.py:215-261 | The other publications leave their status and data and no record |
| TaskFencing.RecordsExactly | net/inspections/executor.py:390-478 | Over every run a target has as many records as inspections of it were published, at most one, and ends with the status of that publication |
| TaskFencing.RunKeepsInv | net/inspections/executor.py:63-101 | Every run of workers, lease recovery, renewal and cancellation keeps targets, jobs and claims consistent |
| TaskFencing.AtMostOneRecord | net/inspections/executor.py:390-478 | However executions and failure handlers interleave, a target gets at most one inspection record |
| TaskFencing.TerminalTargetsNeverChange | net/inspections/executor.py:390-478 | A finished target keeps its status, result and record for the rest of any run |
| TaskFencing.WorkerWritesAreFenced | net/inspections/executor.py:63-101 | Every change a worker makes happens under its live lease, on a queued target when it begins and a running one when it publishes |
| TaskFencing.OneClaimThroughout | net/inspections/queue.py:423-505 | While running with an unchanged attempt number, one claim held the task all along |
| TaskFencing.SynchronisationIsFresh | net/domain/sync_tasks.py:41-74 | A directory or access synchronisation publishes data fetched under the task and target attempts current at commit, within one claim |
| TaskFencing.InspectionIsFresh | net/inspections/worker.py:262-303 | Over every run in which workers join their threads before claiming, inspection results carry the attempts current at commit |
| TaskFencing.OldDataExactly | net/inspections/executor.py:390-478 | A claim lets data of an earlier attempt be published if and only if a job of the same worker id is in flight on an unfinished target |
| TaskFencing.LeaseLostWhileCollecting | net/inspections/queue.py:423-466 | A run that leaves a task queued again while a thread of its last worker still collects |
| DirectoryQueue.ExecutionScopeKeys | net/domain/tasks.py:97-115 | The loop gives every target its name's base key or the numbered sibling key |
| DirectoryQueue.KeyIsInjective | net/domain/tasks.py:90-115 | A scope key stands for one name and one ordinal |
| DirectoryQueue.ScopeKeysAreDistinct | net/domain/tasks.py:97-115 | The scope keys of one task are pairwise distinct |
| DirectoryQueue.FirstTargetHoldsTheBaseKey | net/domain/tasks.py:97-104 | A target holds the base key of its name exactly when it is the first one with that name |
| DirectoryQueue.TaskTable.RejectOverlap | net/domain/tasks.py:118-145 | The first clashing active target decides the refusal |
| DirectoryQueue.TaskTable.EnqueueOperation | net/domain/tasks.py:183-324 | An operation is queued exactly when no synchronisation is active and nothing overlaps |
| DirectoryQueue.TaskTable.EnqueueSync | net/domain/sync_tasks.py:12-38 | A synchronisation is queued exactly when no operation and no other synchronisation is active |
| DirectoryQueue.OperationIsRefusedExactly | net/domain/tasks.py:118-145 | An operation is refused if and only if a synchronisation is active or a target of an active operation is the same object or has the same name |
| DirectoryQueue.SyncIsRefusedExactly | net/domain/sync_tasks.py:12-38 | A synchronisation is refused if and only if any task is active |
| DirectoryQueue.NewTargetsRead | net/domain/tasks.py:244-283 | The targets of an accepted request, row by row, and that of a new user |
| DirectoryQueue.AcceptedRequestIsDisjoint | net/domain/tasks.py:118-145 | An accepted request shares no name and no object with any active operation |
| DirectoryQueue.ReachableTablesAreExclusive | net/domain/tasks.py:183-324 | In every reachable table at most one synchronisation is active, never with an operation, and active operations are disjoint |
| DirectoryQueue.ActiveKeysAreUnique | net/domain/tasks.py:90-115 | No two active targets ever share a scope key |
| CreateUser.ExecuteCreateUser | net/domain/client.py:138-198 | The entry left behind, the adds sent and the reported stage of one attempt, for every behaviour of the connection |
| CreateUser.StagesAreTruthful | net/domain/client.py:138-198 | Success means the object exists with this attempt's password, pending means it exists, no stage means nothing was created |
| CreateUser.StagesAreExact | net/domain/client.py:138-198 | Which stage is reported, by the answers alone: acknowledged requests always end in success, and a definite refusal in no stage |
| CreateUser.RetriesRead | net/domain/tasks.py:344-394 | Which failures start over, recover or are refused |
| CreateUser.PendingIsRecovered | net/domain/tasks.py:344-394 | The retry right after a pending outcome sends no add, and the manual stage is refused |
| CreateUser.StartedOverSendsAdds | net/domain/tasks.py:344-394 | Once a chain starts over, an add is sent exactly when some retry connects |
| CreateUser.AddAfterPendingExactly | net/domain/client.py:110-136 | After a pending outcome an add is sent if and only if some retry connects after an earlier one could not |
| CreateUser.LostConnectionForgetsThePendingStage | net/domain/client.py:110-119 | The shortest chain that does so, with an honest server |
| CreateUser.CreatedAtMostOnce | net/domain/client.py:138-198 | Over any chain of retries the object is created at most once, by one of its own attempts |
| UacFlags.SetBitIsExact | net/domain/client.py:404-410 | Setting or clearing a flag changes that bit and no other |
| UacFlags.UacValueMeans | net/domain/client.py:404-410 | Enable clears 0x0002, disable sets it, the password action sets or clears 0x10000, and every other flag stays |
| UacFlags.DisableInNumbers | net/domain/client.py:404-410 | Disabling adds 2 if it was missing, enabling takes it away |
| UacFlags.PasswordInNumbers | net/domain/client.py:404-410 | The password action adds or takes away 65536 |
| UacFlags.NormalAccount | net/domain/client.py:404-410 | 512 is disabled as 514 and enabled again as 512 |
| UacFlags.ModifyUac | net/domain/client.py:362-382 | The outcome for every behaviour of server and other writers; every reported success leaves what the action is for; if assertions are honoured, an acknowledged write changes only the intended flag of the value present at that very write, within three writes |
| UacFlags.AssertedExactly | net/domain/client.py:362-382 | Success comes exactly from a round that is acknowledged, or sent to the compatible path, after rounds that only lost their assertion |
| UacFlags.ModifyUacCompatible | net/domain/client.py:412-429 | Success means no change was needed or the read-back returned the computed value; either way the action is achieved and every other flag is as it was read |
| UacFlags.NothingToDoExactly | net/domain/client.py:416-421 | There is nothing to write exactly if the value read already has what the action is for |
| UacFlags.UacValueChangesOnlyTheFlag | net/domain/client.py:404-410 | The computed value differs from the one read in the action's flag only |
| UacFlags.CheckedBackIsRightExactly | net/domain/client.py:412-429 | A success of the compatible path changed only the intended flag of the value present at its write exactly when no other flag changed since the read |
| UacFlags.CheckedBackLosesAChange | net/domain/client.py:412-429 | A success of that path that loses the flag another administrator set |
| CollectionTemplates.MergeInto | net/devices/collection_profiles.py:89-96 | The recursive loop over the override computes the deep merge, in any order of its keys |
| CollectionTemplates.SubsumedExactly | net/devices/collection_profiles.py:89-96 | Merging underneath has no effect exactly when the override settles everything the base defines |
| CollectionTemplates.AssociativeExactly | net/devices/collection_profiles.py:89-96 | Three layers may be regrouped if and only if no object is lost behind a plain value |
| CollectionTemplates.MergeIsNotAssociative | net/devices/collection_profiles.py:89-96 | Three layers that may not |
| CollectionTemplates.LookupMerged | net/devices/collection_profiles.py:89-96 | The value at a leaf path after one merge |
| CollectionTemplates.NearestDefinerWins | net/devices/collection_profiles.py:266-286 | The effective value at a leaf path is that of the most derived layer that speaks about the path |
| CollectionTemplates.RuleSources | net/devices/collection_profiles.py:277-286 | A rule has a source exactly if some layer defines it, and it names the last such layer |
| CollectionTemplates.SourceNamesTheEffectiveLayer | net/devices/collection_profiles.py:277-310 | The recorded source is the very layer the effective value came from |
| CollectionTemplates.TemplateChain | net/devices/collection_profiles.py:266-276 | The parent walk terminates and raises exactly when it comes back to a template |
| CollectionTemplates.WalkReads | net/devices/collection_profiles.py:270-276 | Each step of the walk goes to the stored template the parent field names |
| CollectionTemplates.CyclesNeverEnd | net/devices/collection_profiles.py:266-276 | For stored templates that is exactly a walk that never ends |
| CollectionTemplates.ResolveSettings | net/devices/collection_profiles.py:266-310 | The resolved settings merge root to leaf to device, with the sources of that very chain; a device without a template has the empty chain |
| CollectionTemplates.VersionTemplate | net/devices/collection_profiles.py:66-86 | The loop computes the version choice |
| CollectionTemplates.ChoiceIsTheUniqueLongest | net/devices/collection_profiles.py:66-86 | A version template is chosen if and only if it is the one match with the longest keyword |
| CollectionTemplates.OtherwiseTheLeafStands | net/devices/collection_profiles.py:79-86 | Without a single best match the leaf stands, and the status says whether several matched, none did, or the version is unknown |
| CollectionTemplates.CandidateReads | net/devices/collection_profiles.py:69-78 | What makes a template a candidate |
| CollectionTemplates.OccursExactly | net/devices/collection_profiles.py:74-77 | A keyword matches where it stands in the text and no digit continues a digit at either end of it |
| CollectionTemplates.NormalizeReads | net/devices/collection_profiles.py:62-63 | Normalising keeps every character that is no blank, in lower case, and leaves a normal text as it is |
| CollectionTemplates.VersionChoiceIgnoresOrder | net/devices/collection_profiles.py:66-86 | The choice does not depend on the order of the templates |
| AccessSync.FetchEvents | net/access/adapters.py:123-156 | At most eleven requests; a result is all pages up to the first one shorter than 1000 and at most 10000 events, and an error means there is no such result |
| AccessSync.AccessDesk.Enqueue | net/access/tasks.py:34-64 | A task without explicit start begins at the cursor, or the lookback before its end when there is none yet; it is accepted exactly on a free source for more than nothing and at most seven days |
| AccessSync.AccessDesk.Publish | net/access/executor.py:30-63 | A publication stores every new event and advances the cursor, or fails and changes neither |
| AccessSync.WindowsJoin | net/access/executor.py:42-56 | The windows published by any run join without gap up to the cursor |
| AccessSync.CursorOnlyAdvances | net/access/executor.py:51-56 | From any point of a run on the cursor never moves back |
| AccessSync.EveryInstantIsCovered | net/access/adapters.py:123-140 | Every instant from the first published start to the cursor was requested, to the second |
| AccessSync.RequestedReads | net/access/adapters.py:123-140 | A window is asked for from the second it begins in to the second it ends in |
| AccessSync.StoredIsExact | net/access/executor.py:43-51 | A record is stored exactly for the ids known before or returned, and known records stay as they are |
| AccessSync.FirstEventIsStored | net/access/executor.py:43-51 | Of several returned events with one id the first is stored |
| AccessSync.ReturnedEventsAreStoredOnce | net/access/executor.py:30-63 | Over any run the records are exactly the events returned for published windows, once per id |
| SummaryBody.CharBytesRead | net/alerts/templates.py:57-62 | The size of a character is the number of bytes of its UTF-8 encoding |
| SummaryBody.CharJsonReads | net/alerts/templates.py:74-76 | Its size on the wire is the length of its escape in ASCII-only JSON |
| SummaryBody.ClipFits | net/alerts/templates.py:57-62 | A clipped text with its ellipsis stays within its byte limit |
| SummaryBody.ClipReads | net/alerts/templates.py:57-62 | A text that fits is left alone, and any other is cut as late as the ellipsis allows |
| SummaryBody.TakeBytes | net/alerts/templates.py:57-62 | What is kept is the longest run of whole characters that fits |
| SummaryBody.BinarySearch | net/alerts/templates.py:85-94 | The search finds the longest cut that fits on the wire |
| SummaryBody.BoundedBody | net/alerts/templates.py:79-94 | The whole footer survives, the escaped size is at most 16000, the body is the clipped text or its longest cut that fits, a text that fits with its footer is kept, and 12000 bytes are exceeded exactly as said below |
| SummaryBody.CutStaysWithinBytes | net/alerts/templates.py:85-94 | Cutting for the wire adds at most one byte, and none without bare control characters |
| SummaryBody.TextStaysWithinBytes | net/alerts/templates.py:79-94 | At most 12001 bytes always, and at most 12000 for texts without bare control characters |
| SummaryBody.TextOverrunsExactly | net/alerts/templates.py:79-94 | 12000 bytes are exceeded if and only if clipping used up the byte limit and the wire cut then drops exactly two bytes |
| SummaryBody.OneByteTooMany | net/alerts/templates.py:79-94 | A text that comes out at 12001 bytes with the footer of a task without an address |
| GroupMembers.CompleteGroupMembers | net/domain/sync.py:163-196 | The result is exactly the concatenation of consecutive ranges from 0 up to the open one, and every other transcript raises |
| GroupMembers.ExpectedIncreases | net/domain/sync.py:163-196 | The index asked for next strictly increases |
| GroupMembers.ServerListIsReturned | net/domain/sync.py:163-196 | Against a server that answers for a fixed list (section 3.1.1.3.1.3.3 of MS-ADTS) the result is that list |
| GroupMembers.HandoutIsReturned | net/domain/sync.py:163-196 | A list handed out in pieces of any sizes comes back whole |
| DnValue.UnescapeDnValue | net/domain/client.py:329-350 | The index loop decodes the bytes the escaped value stands for, as strict UTF-8 |
| DnValue.DecodeUndoesEncode | net/domain/client.py:346-350 | UTF-8 decoding undoes encoding for every text |
| DnValue.EncodingReads | net/domain/client.py:346-350 | The bytes of a character of every width |
| DnValue.HexDigitsRead | net/domain/client.py:339-344 | Hexadecimal digits of both cases count from 0 to 15 |
| DnValue.UnescapeUndoesEveryEscaping | net/domain/client.py:329-350 | Whatever escaping sections 2.4 and 3 of RFC 4514 allow for each character, decoding returns the text |
| DnValue.DanglingBackslashIsRefused | net/domain/client.py:335-338 | A trailing backslash that escapes nothing is refused |

## Left out

- HTTP, SSH, SNMP, LDAP, SMTP and ping transport, and the parsers of vendor replies: their answers are free inputs.
- Django views, forms, admin pages, table rendering, settings, migrations and deployment.
- SQL collations: slices, indices and iteration hold for any; the sortedness of the merged list is about a database that compares as the model's order on optional keys.
- Hashing, encryption, secret masking and sanitisation: hashing is an injective function that prints hexadecimal digits, and serialised names are distinct JSON arrays.
- Case folding, blank stripping and digit classes beyond ASCII.
- The queue's own claim, renewal, recovery and cancellation code: environment steps of `TaskFencing`, with the guards found in net/inspections/queue.py:423-694.
- Rollback of the summary transaction: an exception there is one choice that strikes before its first write.
- Policy, routing, message texts and severity fields of alert events, the pointer from a state to its last event, and alert keys of computer analyses.
- Issue titles and details, the optional-item texts of devices, and inputs whose interface or record rows are not lists, which the source would raise a TypeError on.
- AlertReconciliation.SummaryDesk.ProcessTaskSummary: counts the summary event of a task and leaves its contents to `DeliveryOutbox.PublishSummary` and `SummaryBody.BoundedBody`.
- SummaryBody.BoundedBody: is about one template part; the other fields of a rendered summary, its item lists and its title are not modelled.
- SummaryBody.TakeBytes: cuts between characters; cutting the encoded bytes and ignoring the broken last character is modelled as that.
- CollectionTemplates.ResolveSettings: leaves out the template id list, the credential identity, the derived item selection and the choice of the type template by vendor and subtype.
- CreateUser.AddAfterPendingExactly: is about outcomes that the client reports; a task that is aborted without an outcome stores no stage and is not part of the chains.
- CreateUser.ExecuteCreateUser: parameter validation and name parsing come before it and are not modelled.
- DirectoryQueue.TaskTable.EnqueueOperation: names are taken parsed and case-folded; the duplicate check on action and scope, which overlap rejection already covers, a missing configuration row, and snapshots that cannot be parsed are not modelled.
- GroupMembers.CompleteGroupMembers: the transcript of answers is finite, and its end counts as an answer that never came.
- AccessSync.AccessDesk.Enqueue: tasks with an explicit start are not modelled; for them windows need not join.
- AccessSync.AccessDesk.Publish: the truncation of text columns of a record is not modelled.
- Group membership and move operations of the directory client, the local mirror, the application of a directory snapshot, one-time secrets, configuration backups, name validation and spreadsheet files: they would add mainly easier members.
