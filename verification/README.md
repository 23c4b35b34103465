# Workforce monitoring: a verified model

A Dafny model of the state machines and transformations at the centre of the
workforce-monitoring system, with proofs about whole runs of them. `dafny verify
dfyconfig.toml` checks everything.

| Module | What it models |
|---|---|
| `Aggregation`, `AggregationProperties`, `InputAccounting` | the agent's `ActivityAggregator`: a class with its fields, proved against a two-stage function (cut samples into raw intervals, glue short ones), what one epoch of calls guarantees, and where its counted inputs go |
| `ActivityBatches`, `Timeline` | interval and batch validation on the server; a device's timeline with six running totals |
| `AgentToServer`, `EpochBoundaries` | the two together: what one epoch emits is accepted and delivered, and what may be refused after a Flush |
| `ActivityDelivery`, `ActivityUpload` | the SQLite queue, the idempotent ingest, the protocol between them over every interleaving, and the upload loop as one schedule of that protocol |
| `QueueLifetime`, `UploadProgress`, `UploadBlocking` | how long an enqueued event stays, by the times of the steps; how far the upload loop gets under any outcomes, that queued rows leave while others arrive, and which rows block the queue |
| `WildcardTranslation`, `Classification` | wildcard rules and their translation to SQL LIKE; first-match classification and the paged reclassification job |
| `Base64Url`, `Tokens`, `RefreshSessions`, `RefreshHistory` | signed tokens in JWS compact form (section 7.1 of RFC 7515) over base64url (section 5 of RFC 4648) with `exp` and `nbf` (sections 4.1.4 and 4.1.5 of RFC 7519); refresh rotation with reuse detection, and when a refresh succeeds, told from the calls before it |
| `WorkSchedules`, `ScheduleAssignments`, `StreamPolicy` | overnight windows with a one-day look-back and the agent's own gate; dated schedule assignments; stream sessions under requests, stops and the recording policy |
| `Screenshots`, `RepeatedPurge`, `Eviction` | duplicates that point at roots under one purge and under repeated ones; the two oldest-first eviction loops |
| `Cron` | the report scheduler's minute-by-minute search, with the Gregorian calendar and the field syntax |
| `Common`, `StableOrder`, `Strings` | shared datatypes, Python's stable sort, splitting and joining |

A class keeps the source's fields; each of its methods is proved equal to a function of
the old state, and the lemmas are about those functions and about runs of them. A table
is a sequence or map with the constraints the code relies on, and a handler is one
atomic step.

## What the proofs found

Where the code does not do what its context suggests, the code is kept, and the exact
condition is proved.

- The agent's counters add in unchecked 32-bit arithmetic, so `Math.Min(int.MaxValue, a + b)`
  never saturates: a sum that does not fit comes out negative (`ClampNeverSaturates`), and an event's
  counter is right exactly if what was credited to that event fits (`EventCounterIsRightExactly`). A
  negative one fails the server's `ge=0`: a batch of one epoch is accepted exactly if each credit in it is
  below 2^31 modulo 2^32 (`EpochBatchIsAcceptedExactly`, with the run of `OverflowIsRefused`).
- `Flush` may hand out an event shorter than a second (`FlushCanBeRefused`). A batch with the flushed
  event is accepted exactly if, besides its counters, the time from the pending or open start to the end of
  the Flush is zero or at least a second on the wire (`FlushBatchIsAcceptedExactly`).
- The valid events of two epochs in one batch are accepted exactly if on the wire one epoch starts no earlier
  than the other ends (`TwoEpochsAreAcceptedExactly`). They can overlap: an Idle first sample after a Flush
  reaches back over it, or a sample captured before the Flush is added after it (`EpochsCanOverlap`).
- The queue sends oldest first and never skips. Some outcomes empty it exactly if, cut into batches, it consists
  of acceptable ones (`EmptiesExactly`); in general n answered attempts deliver n batches, but nothing from the
  first unacceptable batch on (`QueueDrains`). The two epochs above block it for good, though each of their
  events is valid (`OverlappingEpochsBlockQueue`). Queued rows are refused in whatever company exactly if they are
  refused by themselves (`RefusedExactly`); once such rows are among those every batch takes, nothing arrives any
  more except requests already under way, until the agent itself evicts one of them (`RefusedRowsStopDelivery`).
- The rule preview writes `ESCAPE` with two backslashes. With standard-conforming strings that
  is a two-character escape, and the statement fails for every wildcard pattern; only without them
  does the preview agree with the rule engine (`PreviewAgreesExactly`).
- The two-day look-back is complete exactly if the grace does not exceed the start and the shifted
  end plus grace stays below 48 hours (`LookBackExactly`); the agent's gate agrees with the server's
  exactly on daytime schedules whose grace ends before midnight (`GatesAgreeExactly`).
- Polling marks the sessions of delivered start commands as starting even if they have ended, so two
  requests before one poll leave two active sessions (`PollRevivesEndedSession`). A poll is harmless exactly
  if no session it announces has another announced or active one of its employee beside it (`PollMayDeliver`).
- With several devices of one employee repeated policy runs settle exactly if a manual session is left alone
  or the devices agree (`SettlesExactly`); a locked device beside an unlocked one makes them start and end
  sessions forever (`LockedAndUnlocked`). A manual session that timed out needs two runs to be replaced
  (`OneRunConverges`).
- The policy sends its stop to the device under evaluation instead of the one that records. A step keeps every
  stop on the right device exactly if it stops nothing or the active session is on that device
  (`StepStopsExactly`, over a run `RunStopsExactly`); the two devices of `TwoDevicesNeverSettle` are told wrongly,
  and where each employee uses one device all stops go to the right one (`StopsGoHome`).
- A dated end of an assignment does not bring the earlier schedule back (`NothingResumes`).
- A screenshot is compared with its predecessor but stored as a duplicate of that one's root, so duplicates may
  differ from the image they show by more than three bits (`DuplicatesDrift`).
- The screenshot purge limits its query before it looks at age. An expired root whose duplicates have all
  expired is removed by every run exactly if fewer than 2000 rows are listed ahead of it
  (`RootIsPurgedExactly`); repeated runs are sure to remove it exactly if fewer than 2000 of those rows never go
  (`EventuallyPurgedExactly`). And 2000 duplicates of any age keep every root from being reached
  (`RootsAreReachedExactly`, with the table of `OldRootStarves`).
- The storage-pressure loop tests its target only after a deletion, so one recording goes even where nothing
  needs to be freed (`NoNeedStillEvictsOne`). That happens exactly if no space is reserved and the free space
  is the target rounded down from a fraction (`NoNeedExactly`, for example `PressureWithoutNeed`).
- Trimming the screenshot queue never removes files without metadata (`LimitIsMetExactly`).
- In the cron syntax `base/step` means the multiples of the step from the base on (`StepsAreCronSteps`). A base
  that is neither `*` nor a number raises: an expression does at a minute exactly if such a part, with a positive
  step, is reached before the field is decided (`ExpressionRaisesExactly`), and "a/5 * * * *" always does
  (`BadBaseRaises`). The 370-day horizon is shorter than the gap between leap days: the exact dates from which a
  schedule for 29 February raises are those of `LeapDaySchedulesRaise`.

## Model

| member | source | states |
|---|---|---|
| `Aggregation.ActivityAggregator.constructor` | agent/Workforce.Agent.Shared/ActivityAggregator.cs:15-19 | a new aggregator is empty, with 60 s and 5 s where no durations are given |
| `Aggregation.ActivityAggregator.Add` | agent/Workforce.Agent.Shared/ActivityAggregator.cs:21-60 | state and result are one step of the cut-then-glue machine the epoch theorems are about |
| `Aggregation.ActivityAggregator.UpdateMaxEventDuration` | agent/Workforce.Agent.Shared/ActivityAggregator.cs:62-66 | values between 5 s and 5 min are taken, all others ignored |
| `Aggregation.ActivityAggregator.Flush` | agent/Workforce.Agent.Shared/ActivityAggregator.cs:68-80 | the open interval is fed to the glue stage and whatever is then pending is handed out |
| `Aggregation.ActivityAggregator.Start` | agent/Workforce.Agent.Shared/ActivityAggregator.cs:82-90 | exactly the open interval is replaced, with the sample's own counters |
| `Aggregation.ActivityAggregator.Complete` | agent/Workforce.Agent.Shared/ActivityAggregator.cs:92-112 | the event of the open interval, with a new identifier |
| `Aggregation.ActivityAggregator.AddInput` | agent/Workforce.Agent.Shared/ActivityAggregator.cs:114-119 | the three counters grow by the positive part, wrapping as 32-bit integers |
| `Aggregation.ActivityAggregator.AddCompleted` | agent/Workforce.Agent.Shared/ActivityAggregator.cs:129-146 | the pending event and the list after one raw interval went through the glue stage |
| `AggregationProperties.GroupGreedilyIsGreedy` | agent/Workforce.Agent.Shared/ActivityAggregator.cs:129-146 | the coalesce function splits the raw intervals into shortest prefixes that last the minimum, and a rest all of whose prefixes are shorter |
| `AggregationProperties.GreedyGroupingIsUnique` | agent/Workforce.Agent.Shared/ActivityAggregator.cs:129-146 | there is only one such grouping, so greedy grouping is a specification |
| `AggregationProperties.CoalescingRefinement` | agent/Workforce.Agent.Shared/ActivityAggregator.cs:21-60 | over any calls of an epoch the emitted stream is the greedy grouping of all raw intervals with the empty ones dropped, each group merged, and the pending event is the merged rest |
| `AggregationProperties.EmittedEventsAreGroups` | agent/Workforce.Agent.Shared/ActivityAggregator.cs:129-146 | the i-th event from Add is the merge of the i-th greedy group |
| `AggregationProperties.MergedGroupShape` | agent/Workforce.Agent.Shared/ActivityAggregator.cs:132-145 | a merged event lasts at least the minimum, carries the label of its last raw interval, and what was glued in front is shorter than the minimum |
| `AggregationProperties.CutExactly` | agent/Workforce.Agent.Shared/ActivityAggregator.cs:34-59 | a sample closes the open interval iff it is not late and turns it to idle, or differs in state, path, or, up to letter case, process name or domain, or finds that it has lasted the maximum; where the closed interval ends and the next begins |
| `AggregationProperties.UncutExactly` | agent/Workforce.Agent.Shared/ActivityAggregator.cs:34-59 | over any run, exactly the other samples complete no interval |
| `AggregationProperties.FlushRefines` | agent/Workforce.Agent.Shared/ActivityAggregator.cs:68-80 | emitted and flushed events together are the grouping of all raw intervals including the last, plus the merged rest |
| `AggregationProperties.EmittedEventsTile` | agent/Workforce.Agent.Shared/ActivityAggregator.cs:21-60 | with non-negative idle durations emitted events, pending event and open interval are contiguous from the first sample's effective start, and the latest capture time is remembered |
| `AggregationProperties.LateSamplesChangeNothing` | agent/Workforce.Agent.Shared/ActivityAggregator.cs:34-35 | a run without the samples captured before an earlier one ends in the same state with the same events |
| `AggregationProperties.FlushCompletesTiling` | agent/Workforce.Agent.Shared/ActivityAggregator.cs:68-80 | after Flush the events cover the epoch without gap or overlap, and Flush itself hands out at most one |
| `AggregationProperties.TilesExactly` | agent/Workforce.Agent.Shared/ActivityAggregator.cs:34-57 | whatever the idle durations, an epoch is contiguous after every call iff no sample closes, by another activity or a rollover, an interval that starts after it |
| `AggregationProperties.IdleTimeGoesForward` | agent/Workforce.SessionAgent/NativeActivityReader.cs:123-129 | with the non-negative idle durations the agent measures no sample does |
| `AggregationProperties.NegativeIdleBreaksTiling` | agent/Workforce.Agent.Shared/ActivityAggregator.cs:24-26 | with a negative one a sample can |
| `AggregationProperties.EmittedLengthsAreBounded` | agent/Workforce.Agent.Shared/ActivityAggregator.cs:37-59 | every event from Add lasts at least the minimum and at most the longest open interval plus one sampling gap plus one pending event |
| `AggregationProperties.EmittedUuidsAreDistinct` | agent/Workforce.Agent.Shared/ActivityAggregator.cs:92-112 | emitted and pending events of an epoch never share an identifier |
| `InputAccounting.InputLedger` | agent/Workforce.Agent.Shared/ActivityAggregator.cs:52-58 | emitted, pending, open and discarded counters add up to the credited inputs, a rollover sample twice: modulo 2^32 always, exactly while the credit fits 31 bits |
| `InputAccounting.ClampNeverSaturates` | agent/Workforce.Agent.Shared/ActivityAggregator.cs:116-118 | the clamped sum of non-negative counters is right iff it fits and negative iff it does not |
| `InputAccounting.EventCountersExactly` | agent/Workforce.Agent.Shared/ActivityAggregator.cs:114-141 | after any run each emitted, pending and open counter is, in 32 bits, the sum of the inputs credited to that very event |
| `InputAccounting.EventCounterIsRightExactly` | agent/Workforce.Agent.Shared/ActivityAggregator.cs:114-141 | an emitted event's counter equals its credit iff that credit fits 31 bits |
| `InputAccounting.AccountsAddUp` | agent/Workforce.Agent.Shared/ActivityAggregator.cs:52-58 | the events' credits, with the discarded ones, add up to the inputs of the accepted samples, a rollover sample counted twice |
| `InputAccounting.EmittedCountersAreNonnegative` | agent/Workforce.Agent.Shared/ActivityAggregator.cs:114-119 | in particular no emitted counter is negative while the credit of the whole epoch fits |
| `AggregationProperties.LabelsComeFromSamples` | agent/Workforce.Agent.Shared/ActivityAggregator.cs:92-112 | whatever holds of every sample's label holds of every event's |
| `AggregationProperties.IntervalsShowSampledActivity` | agent/Workforce.Agent.Shared/ActivityAggregator.cs:34-57 | the open interval shows the state, path, process name and domain of the latest sample that was not late, and an interval closed by a sample those seen just before it, names and domains up to letter case |
| `ActivityBatches.ValidIntervalExactly` | backend/app/activity.py:18-26 | an interval is accepted iff zones and state are known and it lasts from one second to just under a day and a second |
| `Common.WholeSecondsExactly` | backend/app/activity.py:21 | durations lose their fraction of a second toward zero, negative ones too |
| `ActivityBatches.NormalizeStateExactly` | backend/app/presence.py:22-28 | a text reads as a state iff, apart from white space around it, it is the name of one of the six in any case |
| `ActivityBatches.GroupBySession` | backend/app/schemas.py:83-88 | each session's list holds the first occurrences of its UUIDs in order of arrival |
| `ActivityBatches.GroupMembers` | backend/app/schemas.py:85-88 | a group has exactly the UUID-first events of its session, each UUID once |
| `ActivityBatches.GroupsDecide` | backend/app/schemas.py:83-92 | the batch is free of overlaps within sessions iff every group is pairwise disjoint |
| `ActivityBatches.SortedNeighboursDecide` | backend/app/schemas.py:89-92 | comparing neighbours after sorting decides disjointness of all pairs |
| `ActivityBatches.AllGroupsDisjoint` | backend/app/schemas.py:89-92 | the loop over groups says yes iff all are pairwise disjoint |
| `ActivityBatches.ValidateBatch` | backend/app/schemas.py:75-93 | a batch is accepted iff size, zone and every event are valid and the UUID-distinct events of each session are pairwise disjoint |
| `ActivityBatches.SessionTotalFits` | backend/app/activity.py:29-32 | the clipped seconds of one session of an accepted batch never exceed the range |
| `Timeline.DeviceTimeline` | backend/app/main.py:651-689 | each event yields its clipped segment in order, each total is the time of its state, and the six add up to all segments |
| `Timeline.TimelineFits` | backend/app/main.py:662-689 | events in order without overlap add up to at most the range |
| `AgentToServer.WireIsFaithful` | agent/Workforce.Agent.Shared/ActivityContracts.cs:49-65 | identifier, state, session and counters arrive as sent, times without the seventh digit |
| `AgentToServer.EmittedEventIsValidExactly` | backend/app/schemas.py:63-72 | given minimum >= 1 s, the 24 h budget and known states, an event from Add is valid iff each of its three credits is below 2^31 modulo 2^32 |
| `AgentToServer.EpochBatchIsAcceptedExactly` | backend/app/schemas.py:75-93 | any batch drawn from the Add output of one epoch, in any order and with repetitions, passes interval and batch validation iff the credits of all its events are such |
| `AgentToServer.OverflowIsRefused` | agent/Workforce.Agent.Shared/ActivityAggregator.cs:114-119 | INT_MAX keystrokes and one more in one event give a negative counter, and every batch of that event is refused |
| `AgentToServer.QueuedRunsAreAcceptable` | agent/Workforce.Agent/ActivityUploadWorker.cs:34-41 | every run of consecutive queued events of one epoch is acceptable if each of them is valid |
| `AgentToServer.EpochIsDelivered` | agent/Workforce.Agent/ActivityUploadWorker.cs:25-60 | as soon as enough attempts are answered, at whatever times and however many fail or lose their answer in between, the queue is empty iff every queued event of the epoch is valid, and then each is stored once |
| `AgentToServer.ShortEventIsRefused` | backend/app/activity.py:21-23 | a batch with an event of less than a second on the wire is refused |
| `EpochBoundaries.FlushBatchIsAcceptedExactly` | agent/Workforce.Agent.Shared/ActivityAggregator.cs:68-80 | any batch drawn from an epoch's output, the flushed event included, is accepted iff its counters did not turn negative and the flushed event is not in it or the span known before the call, from the pending or open start to the Flush, lasts from a second to a day on the wire |
| `EpochBoundaries.FlushCanBeRefused` | agent/Workforce.Agent.Shared/ActivityAggregator.cs:68-80 | one sample and a Flush half a second later give an event the server refuses |
| `EpochBoundaries.TwoEpochsAreAcceptedExactly` | agent/Workforce.Agent.Shared/ActivityAggregator.cs:24-32 | the output of two consecutive epochs of one session is acceptable in one batch iff each event is valid and on the wire one epoch's effective start is not before the end of the other |
| `EpochBoundaries.EpochsCanOverlap` | agent/Workforce.Agent.Shared/ActivityAggregator.cs:24-32 | two sane epochs with valid events, the second begun by an Idle sample or by one captured before the Flush, whose joint batch is refused |
| `EpochBoundaries.OverlappingEpochsBlockQueue` | agent/Workforce.Agent/ActivityUploadWorker.cs:34-48 | queued together they block the queue: no outcomes of any attempts move or store anything |
| `ActivityDelivery.ActivityQueue.Initialize` | agent/Workforce.Agent/ActivityQueue.cs:33-60 | initializing leaves the rows alone and sets the flag |
| `ActivityDelivery.ActivityQueue.Enqueue` | agent/Workforce.Agent/ActivityQueue.cs:62-75 | a new UUID is appended under a new id, a known one ignored, then the limits are enforced |
| `ActivityDelivery.ActivityQueue.Take` | agent/Workforce.Agent/ActivityQueue.cs:77-91 | the oldest rows up to the limit |
| `ActivityDelivery.ActivityQueue.Delete` | agent/Workforce.Agent/ActivityQueue.cs:93-106 | exactly the rows with the given ids are gone |
| `ActivityDelivery.EnqueuedIsValid` | agent/Workforce.Agent/ActivityQueue.cs:115-136 | enqueueing and trimming keep ids increasing and UUIDs unique and only ever lose rows |
| `QueueLifetime.NewRowIsLast` | agent/Workforce.Agent/ActivityQueue.cs:62-75 | an event whose UUID is not queued becomes the last row, with the current time, if the file is not over 500 MB |
| `QueueLifetime.EvictedExactly` | agent/Workforce.Agent/ActivityQueue.cs:115-136 | an enqueue evicts a row iff it is over seven days old or, with more than 500 MB, fewer than 5000 younger-than-that rows are ahead of it |
| `QueueLifetime.QueuedStems` | agent/Workforce.Agent/ActivityQueue.cs:62-75 | over every interleaving each queued row stems from one step, with its event and its time, and no enqueue since came more than seven days later |
| `QueueLifetime.EnqueuedArrives` | agent/Workforce.Agent/ActivityQueue.cs:62-136 | an event that was new to the queue is queued or stored as long as no enqueue since came more than seven days later or found more than 500 MB |
| `QueueLifetime.OldRowsAreGone` | agent/Workforce.Agent/ActivityQueue.cs:115-136 | once an enqueue came more than seven days later, the row is gone for good |
| `ActivityDelivery.ActivityStore.Receive` | backend/app/main.py:465-552 | the table after ingest, `accepted` as its growth, `duplicates` as the remainder |
| `ActivityDelivery.IngestIsExact` | backend/app/main.py:502-541 | stored rows stay in place, every UUID of the batch is stored once, and new rows come from the batch |
| `ActivityDelivery.IngestIsIdempotent` | backend/app/main.py:502-541 | sending stored events again changes nothing |
| `ActivityDelivery.DeleteIsSafe` | agent/Workforce.Agent/ActivityUploadWorker.cs:38-42 | a delete removes exactly the rows of the confirmed batch, all of them stored on the server, and none enqueued later |
| `ActivityDelivery.StepKeepsInvariant` | agent/Workforce.Agent/ActivityUploadWorker.cs:29-58 | enqueue, take, handle, answer, give up and delete each keep the delivery invariant |
| `ActivityDelivery.ExactlyOnce` | agent/Workforce.Agent/ActivityUploadWorker.cs:29-58 | over every interleaving each enqueued event is queued, stored or evicted, the server holds each UUID once and only enqueued ones, and all accepted counts sum to the number stored |
| `ActivityUpload.ActivityUploadWorker.TryOnce` | agent/Workforce.Agent/ActivityUploadWorker.cs:33-48 | one attempt against queue and server, and whether an exception leaves it |
| `ActivityUpload.ActivityUploadWorker.Execute` | agent/Workforce.Agent/ActivityUploadWorker.cs:25-60 | the loop over any outcomes equals the folded attempts the progress theorems are about |
| `ActivityUpload.AttemptIsSchedule` | agent/Workforce.Agent/ActivityUploadWorker.cs:31-58 | each loop iteration is a schedule of protocol steps with the same effect on queue and table |
| `ActivityUpload.ExecuteFromKeepsInvariant` | agent/Workforce.Agent/ActivityUploadWorker.cs:31-58 | any schedule keeps the delivery invariant |
| `ActivityUpload.BackoffDoubles` | agent/Workforce.Agent/ActivityUploadWorker.cs:52-58 | after n failures, since the start or since the last attempt that did not fail, the delay is min(2^n, 300) seconds |
| `UploadProgress.AttemptDelivers` | agent/Workforce.Agent/ActivityUploadWorker.cs:34-48 | one answered attempt moves exactly the oldest batch to the server and resets the delay |
| `UploadProgress.QueueDrains` | agent/Workforce.Agent/ActivityUploadWorker.cs:29-58 | after any attempts of which n are answered, the n*limit oldest rows are stored and removed, except that nothing from the first unacceptable batch on is ever stored or removed |
| `UploadProgress.EmptiesExactly` | agent/Workforce.Agent/ActivityUploadWorker.cs:29-58 | some outcomes empty the queue iff, cut into batches of the limit, it consists of acceptable ones |
| `UploadProgress.RefusedBatchStays` | agent/Workforce.Agent/ActivityUploadWorker.cs:34-48 | with an unacceptable batch in front no outcomes of any attempts move or store anything |
| `UploadProgress.RowLeaves` | agent/Workforce.Agent/ActivityUploadWorker.cs:29-58 | over every interleaving with enqueues, evictions, lost and repeated requests, a queued row with i rows ahead has left the queue, stored or evicted, once n batches of at least the limit were deleted and n*limit > i |
| `UploadBlocking.RefusedExactly` | backend/app/schemas.py:78-93 | queued rows are refused in every request that holds them iff they are refused by themselves |
| `UploadBlocking.StuckRowsBlockQueue` | agent/Workforce.Agent/ActivityUploadWorker.cs:34-42 | from any state of the protocol, rows that are refused together stay among the oldest until one is evicted, and the server stores nothing that was not in a request under way |
| `UploadBlocking.RefusedRowsStopDelivery` | agent/Workforce.Agent/ActivityUploadWorker.cs:34-42 | in every reachable state in which the worker's own request has all of the rows or none the same holds, and if each request under way holds them all or has been answered, no steps whatever change the server's table |
| `WildcardTranslation.TranslateIsPerCharacter` | backend/app/admin.py:649 | the five chained replacements act as one map of characters |
| `WildcardTranslation.TranslationPreservesMeaning` | backend/app/admin.py:649-650 | LIKE with one backslash as escape on the translation is wildcard matching on the pattern, for every value |
| `WildcardTranslation.TranslationIsWellEscaped` | backend/app/admin.py:649-650 | a translation never ends in a lone escape |
| `WildcardTranslation.DoublingIsUndone` | backend/app/admin.py:650 | a text with doubled backslashes is read back from a string literal unless strings are standard-conforming, when every text is read as it is |
| `WildcardTranslation.FoldTranslate` | backend/app/admin.py:650 | lowering the translated pattern is translating the lowered one |
| `WildcardTranslation.PreviewAgreesExactly` | backend/app/admin.py:649-650 | the preview as written answers like the rule engine iff the server reads the doubled backslash as one, and otherwise fails |
| `Classification.ContainsExactly` | backend/app/rules_engine.py:53-54 | a value contains a pattern iff the pattern occurs at some position |
| `Classification.AppliesExactly` | backend/app/rules_engine.py:34-66 | a rule hits iff the text of its field, up to letter case, is the pattern, holds it or fits it as a wildcard, or a regular expression of at most 500 characters finds it |
| `Classification.WinnerDecides` | backend/app/rules_engine.py:75-78 | the outcome is that of the matching rule with the least priority and, among equals, the first listed; without one NEUTRAL |
| `Classification.PreservedIsKept` | backend/app/rules_engine.py:74-75 | a state that is IDLE, LOCKED or BREAK in some case is kept in upper case, without a category |
| `Classification.ClassifyExactly` | backend/app/rules_engine.py:76-79 | an event in any other state gets what the hitting rule with the least priority, and among equals the first listed, says, and without one NEUTRAL |
| `Classification.ClassifiedState` | backend/app/rules_engine.py:71-78 | a preserved state is kept in upper case without category, any other becomes one of the three productivities |
| `Classification.ReclassificationForgets` | backend/app/rules_engine.py:71-78 | classifying with one set of rules and then another gives what the second alone gives |
| `Classification.LaterJobDecides` | backend/app/reclassification_jobs.py:40-44 | a job that picks the rows an earlier job picked leaves what it alone leaves; with the same rules and rows it changes nothing |
| `Classification.PageAdvances` | backend/app/reclassification_jobs.py:33-45 | moving the cursor to a page's last id leaves exactly the rows after the page |
| `Classification.PageExactly` | backend/app/reclassification_jobs.py:33-39 | a page holds a row iff it is in the period past the cursor and fewer than 5000 of those rows have a smaller id |
| `Classification.PickedBelong` | backend/app/reclassification_jobs.py:33-45 | while the period moves with the clock, each picked row belonged to it at some query, and rows that belong to it at all of them are picked |
| `Classification.PickedOnce` | backend/app/reclassification_jobs.py:33-45 | no row is picked twice, whatever the clock does |
| `Classification.FixedPeriodIsPicked` | backend/app/reclassification_jobs.py:33-45 | with a clock that stands still exactly the rows of the period are picked, in id order |
| `Classification.ReclassificationJob.UpdatePage` | backend/app/reclassification_jobs.py:40-44 | a page's rows, and only those, become what the rules say |
| `Classification.ReclassificationJob.NextPage` | backend/app/reclassification_jobs.py:34-46 | one round selects the next page of the unchanged rows, updates it and counts it |
| `Classification.ReclassificationJob.Run` | backend/app/reclassification_jobs.py:32-46 | the job ends, reclassifies exactly the picked rows, each once and in id order, and counts them |
| `Base64Url.EncodeIsText` | backend/app/security.py:51-56 | stripping the padding leaves the symbols alone, and `-len % 4` gives the stripped padding back |
| `Base64Url.DecodeInvertsEncode` | backend/app/security.py:51-60 | decoding an encoding returns the bytes, for all bytes |
| `Base64Url.EncodeIsInjective` | backend/app/security.py:51-52 | different bytes have different encodings |
| `Base64Url.EncodeHasNoDot` | backend/app/security.py:51-52 | an encoding contains no separator |
| `Base64Url.SymbolExactly` | backend/app/security.py:51-52 | the symbols are A to Z, a to z, 0 to 9, minus and underscore |
| `Base64Url.ValueExactly` | backend/app/security.py:55-58 | a symbol reads as its place in that alphabet, `+` and `/` as the last two, and nothing else is a symbol |
| `Base64Url.DecodeExactly` | backend/app/security.py:55-60 | any text: refused unless ASCII; with the padding put back, the bytes of the symbols before the first `=` that completes a group, or of all of them in complete groups of four, and refused otherwise |
| `Strings.SplitInvertsJoin` | backend/app/security.py:98 | splitting joined parts returns the parts if none contains the separator |
| `Strings.JoinInvertsSplit` | backend/app/security.py:98 | joining what was split returns the text |
| `Tokens.TokenRoundTrip` | backend/app/security.py:63-131 | a token is accepted iff the keyed hashes of what was signed, the issuer and the type agree and the time is from nbf to just before exp; then it holds exactly the given claims and the five standard fields with their values |
| `Tokens.AcceptedTokenIsSigned` | backend/app/security.py:100-131 | any accepted text is the one header and a payload, followed by the one signature of the secret over both, with claims that are in force |
| `Tokens.ClaimsInForceExactly` | backend/app/security.py:124-131 | claims pass iff issuer and type are the expected ones and the time lies from nbf to just before exp, both whole numbers |
| `RefreshSessions.RefreshSessionStore.CreateSession` | backend/app/auth.py:212-258 | the new session is inserted and the replaced one revoked and linked to it |
| `RefreshSessions.RefreshSessionStore.Login` | backend/app/auth.py:359-360 | a login opens a family of one |
| `RefreshSessions.RefreshSessionStore.Refresh` | backend/app/auth.py:363-404 | rotation, or revocation of the whole family on reuse, or no change, with the error that decides |
| `RefreshSessions.RefreshSessionStore.Logout` | backend/app/auth.py:413-426 | exactly the presented session is revoked, an earlier time kept |
| `RefreshSessions.RefreshSessionStore.DisableUser` | backend/app/auth.py:617-618 | all sessions of the user are revoked, earlier times kept |
| `RefreshSessions.AtMostOneLive` | backend/app/auth.py:246-251 | in a chained table the live session of a family is the last of its chain |
| `RefreshSessions.StepKeepsChains` | backend/app/auth.py:212-258 | each of the four steps keeps every family one simple replaced_by path |
| `RefreshSessions.FamiliesAreChains` | backend/app/auth.py:363-404 | in every reachable state each family is one simple path and has at most one live session |
| `RefreshSessions.RevocationIsFinal` | backend/app/auth.py:385-388 | a revoked session never changes again |
| `RefreshSessions.ReuseKillsFamily` | backend/app/auth.py:385-388 | presenting a revoked token, or another text for a live session, leaves no live session in the family |
| `RefreshSessions.DeadForever` | backend/app/auth.py:363-404 | over any run a family without live sessions never gets one again |
| `RefreshSessions.ReuseStopsFamily` | backend/app/auth.py:385-404 | after a reuse no refresh of the family ever succeeds |
| `RefreshSessions.RedeemedOnce` | backend/app/auth.py:363-404 | each session is exchanged at most once in any run |
| `RefreshHistory.EndIsMarked` | backend/app/auth.py:246-251 | a session that a step ends is marked with the time of that step and keeps that mark |
| `RefreshHistory.RefreshSucceedsExactly` | backend/app/auth.py:362-409 | over any run a refresh is accepted iff it names a session that a login or an accepted refresh opened for that user and family, shows its text within its lifetime, the user is active, and no step in between exchanged it, logged it out, disabled the user or reused a token of the family; and which of the refusals it gets otherwise |
| `WorkSchedules.ScheduledNow` | backend/app/stream_policy_jobs.py:22-36 | true iff some occurrence of a readable window, on any calendar day, covers the instant |
| `WorkSchedules.WeekdaysFollow` | backend/app/stream_policy_jobs.py:22-36 | weekdays are counted from a Monday on day 1, each day one more, and Sunday, the seventh, is followed by Monday |
| `WorkSchedules.CoversExactly` | backend/app/stream_policy_jobs.py:47-53 | an occurrence runs from the start on its day to the end on the same day or, if that is not later, on the next, widened by the grace |
| `WorkSchedules.LookBackIsEnough` | backend/app/stream_policy_jobs.py:47-53 | testing today and yesterday sees every widened occurrence if it stays within its 48 hours |
| `WorkSchedules.LookBackExactly` | backend/app/stream_policy_jobs.py:39-55 | it does so for all weekday sets and instants iff grace <= start and shifted end + grace < 48 h |
| `WorkSchedules.WithinWorkScheduleExactly` | backend/app/stream_policy_jobs.py:39-55 | under that condition work is admitted iff there is no schedule, or it is no holiday and the schedule is unreadable or covers the instant |
| `WorkSchedules.GateExactly` | agent/Workforce.Agent.Shared/AgentRuntimeConfig.cs:70-87 | the agent's gate admits, on scheduled weekdays that are no holidays, the times of day from start to end with the grace, across midnight where they cross, or the whole day if they are unreadable |
| `WorkSchedules.GatesAgreeExactly` | agent/Workforce.Agent.Shared/AgentRuntimeConfig.cs:70-87 | agent and server agree on all weekday sets, holidays and instants iff start < end and end + grace < 24 h |
| `ScheduleAssignments.ScheduleTable.AssignSchedule` | backend/app/absences.py:422-440 | each listed employee gets the assignment once with earlier overlapping ones cut off, nobody else changes, and inconsistent dates change nothing |
| `ScheduleAssignments.EffectiveAfter` | backend/app/absences.py:429-438 | which rows the lookup may return after an assignment, day by day |
| `ScheduleAssignments.HistoryIsKept` | backend/app/absences.py:429-433 | every day before the new start keeps its effective schedules |
| `ScheduleAssignments.TakesEffect` | backend/app/discipline.py:78-82 | on its interval the new assignment is returned iff no later start covers the day, and is the only candidate iff no equal one does either |
| `ScheduleAssignments.NothingResumes` | backend/app/absences.py:429-438 | after a dated end some schedule is effective iff an assignment that starts no earlier covers the day |
| `ScheduleAssignments.DisjointExactly` | backend/app/absences.py:429-438 | an assignment keeps an employee's intervals disjoint iff it meets none that starts at or after it |
| `ScheduleAssignments.OverlapMeansSharedDay` | backend/app/discipline.py:78-82 | two dated assignments overlap iff some day is looked up in both |
| `ScheduleAssignments.IncreasingStartsStayDisjoint` | backend/app/absences.py:429-438 | any series of assignments with increasing starts leaves pairwise disjoint intervals |
| `StreamPolicy.StreamStore.RequestStream` | backend/app/streams.py:100-161 | the request succeeds iff the latest seen approved device was seen in the last 90 s, is neither paused nor outside working hours, and names the failing condition otherwise; on success the employee's active sessions end and one starts on that device, and otherwise nothing changes |
| `StreamPolicy.LatestSeen` | backend/app/streams.py:110-123 | the chosen device is one that no other was seen after, never-seen devices coming last |
| `StreamPolicy.Decide` | backend/app/stream_policy_jobs.py:84-99 | the decision for one device from its mode, schedule, holiday, state, windows and recent unproductive events |
| `StreamPolicy.StreamStore.StopStream` | backend/app/streams.py:164-185 | the latest active session is ended and its device told, or nothing is found |
| `StreamPolicy.StopEndsSession` | backend/app/streams.py:172-183 | a stop ends the employee's one active session at the time and tells the device it runs on |
| `StreamPolicy.NothingToStop` | backend/app/streams.py:172-177 | without an active session a stop changes nothing |
| `StreamPolicy.RequestExactly` | backend/app/streams.py:134-152 | a request ends the employee's running sessions, leaves all others as they are, and starts and announces one on the device |
| `StreamPolicy.FoundIsLatest` | backend/app/streams.py:172-175 | the session a stop or the policy finds is running and none of the employee's that runs started later |
| `StreamPolicy.StreamStore.RunStreamPolicyOnce` | backend/app/stream_policy_jobs.py:82-118 | the loop over devices equals the folded policy steps the theorems are about |
| `StreamPolicy.OneActivePerEmployee` | backend/app/streams.py:134-144 | requests, stops and policy runs in any order keep at most one active session per employee |
| `StreamPolicy.CommandsMatchSessions` | backend/app/stream_policy_jobs.py:104-117 | over any such run each session was announced exactly once, to its own device, and a stop was only sent for a session that has ended |
| `StreamPolicy.PollIsHarmlessExactly` | backend/app/streams.py:348-352 | a poll keeps one active session per employee iff no employee has two sessions that are active or about to be marked |
| `StreamPolicy.PollMayDeliver` | backend/app/streams.py:348-352 | in every reachable state that is: iff each announced session has no other announced or active one of its employee |
| `StreamPolicy.PollRevivesEndedSession` | backend/app/streams.py:348-352 | two requests and one poll leave two active sessions |
| `StreamPolicy.SettledExactly` | backend/app/stream_policy_jobs.py:90-117 | a policy step does nothing iff the device's employee is settled |
| `StreamPolicy.StepView` | backend/app/stream_policy_jobs.py:86-117 | a step changes what the policy sees of its own employee as specified and of nobody else |
| `StreamPolicy.ManualIsLeft` | backend/app/stream_policy_jobs.py:100-103 | before its timeout a manual session keeps the policy from doing anything for its employee |
| `StreamPolicy.ManualIsEnded` | backend/app/stream_policy_jobs.py:100-107 | from its timeout on a step ends it, says so, and leaves the employee no active manual session |
| `StreamPolicy.ManualEndsAtTimeout` | backend/app/stream_policy_jobs.py:82-118 | over any policy runs a manual session is untouched iff no device of its employee was evaluated at its timeout or later, and otherwise the employee has none |
| `StreamPolicy.PolicyConverges` | backend/app/stream_policy_jobs.py:82-118 | with one device per employee and frozen inputs the third run changes nothing |
| `StreamPolicy.OneRunConverges` | backend/app/stream_policy_jobs.py:100-103 | one run settles everybody iff no timed-out manual session has to make room for a wanted one |
| `StreamPolicy.FixedExactly` | backend/app/stream_policy_jobs.py:82-118 | a whole run changes nothing iff every listed device is settled |
| `StreamPolicy.SettlesExactly` | backend/app/stream_policy_jobs.py:82-118 | with frozen inputs and any devices that share mode and timeout per employee, some later run is a fixed point iff each employee has a manual session that is left alone or devices that agree, and then the third run is one |
| `StreamPolicy.LockedAndUnlocked` | backend/app/stream_policy_jobs.py:90-91 | an unlocked and a locked device of one employee never reach a fixed point |
| `StreamPolicy.TwoDevicesNeverSettle` | backend/app/stream_policy_jobs.py:104-117 | one device that wants recording and one that forbids it start and end a session in a run, the stop going to the wrong device |
| `StreamPolicy.TwoDevicesPileUp` | backend/app/stream_policy_jobs.py:104-117 | n such runs leave n ended sessions and 2n commands behind |
| `StreamPolicy.StepStopsExactly` | backend/app/stream_policy_jobs.py:104-105 | a policy step keeps every stop on its session's device iff it stops nothing or the active session is on the device under evaluation |
| `StreamPolicy.RunStopsExactly` | backend/app/stream_policy_jobs.py:82-118 | a run that lists each employee once does so iff this can be seen for each listed device before the run |
| `StreamPolicy.StopsGoHome` | backend/app/stream_policy_jobs.py:104-105 | over requests, stops and policy runs in which each employee uses one device, every stop goes to the device that records |
| `StreamPolicy.ShouldStartExactly` | backend/app/stream_policy_jobs.py:90-99 | the policy wants a session iff the device works within its schedule, neither locked nor on a break, and its mode is always on, or scheduled with the time inside a window on any day, or trigger with an unproductive event that began long enough ago and lasted into the last ten minutes |
| `StreamPolicy.RecordsExactly` | backend/app/stream_policy_jobs.py:82-118 | what a run leaves an employee with one device: a manual session until its timeout, then none; otherwise a session of the device's mode, kept or new, iff it may record |
| `StreamPolicy.RecordsOnlyInHours` | backend/app/stream_policy_jobs.py:85-117 | so an automatic session is only active on a device that may record, on no holiday, and inside some occurrence, on any day, of the work schedule |
| `Screenshots.DistanceIsMetricLike` | backend/app/screenshots.py:33-36 | the hash distance is symmetric and zero iff the hashes are equal |
| `Screenshots.DistanceTriangle` | backend/app/screenshots.py:33-36 | the hash distance satisfies the triangle inequality |
| `Screenshots.DistanceCountsBits` | backend/app/screenshots.py:33-36 | the hash distance is the number of places where the bits differ |
| `Screenshots.DuplicatesDrift` | backend/app/screenshots.py:131-142 | three hashes, each within three bits of the one before, of which the last is further from the first |
| `Screenshots.LatestHashedExactly` | backend/app/screenshots.py:131-142 | there is a latest hashed row of a monitor and device iff there is any hashed one, and all of them have the same time |
| `Screenshots.ScreenshotStore.Upload` | backend/app/screenshots.py:131-179 | a row is added that is a duplicate iff the latest hashed row of that monitor and device is within three bits, then of that row's root and without objects, and otherwise a root with its own objects |
| `Screenshots.KeyAlwaysResolves` | backend/app/screenshots.py:263-281 | in every valid table a request resolves to the image or the thumbnail, as asked, of the row itself or of the root it duplicates, which is of the same monitor and device, and that object is stored |
| `Screenshots.ScreenshotStore.Purge` | backend/app/retention_jobs.py:22-41 | exactly the removable rows of the page go: expired duplicates, and expired roots no remaining row refers to; the rest is unchanged, counted and valid |
| `Screenshots.ScreenshotStore.ExpiredRows` | backend/app/retention_jobs.py:27-32 | the expired rows of the page, split into duplicates and roots |
| `Screenshots.ScreenshotStore.PurgeRoot` | backend/app/retention_jobs.py:35-40 | a root goes with its objects iff nothing refers to it |
| `Screenshots.RemoveRootKeepsValid` | backend/app/retention_jobs.py:35-40 | removing an unreferenced root and its objects leaves every other row's key stored |
| `Screenshots.RootIsPurgedExactly` | backend/app/retention_jobs.py:22-41 | every run removes a root iff the root and all its duplicates have expired and the duplicates and other roots not later than it are fewer than a page |
| `RepeatedPurge.EventuallyPurgedExactly` | backend/app/retention_jobs.py:22-41 | with standing cutoffs and no uploads, as many runs as there are rows always remove a root iff it and its duplicates have expired and fewer than a page of the rows ahead of it never go |
| `RepeatedPurge.FreshRowsStay` | backend/app/retention_jobs.py:28-31 | no runs remove or change a row taken at or after the cutoff of its employee |
| `RepeatedPurge.OldRowsGo` | backend/app/retention_jobs.py:32-40 | an older row on the page goes in that run if all that duplicate it are older too |
| `Screenshots.RootsAreReachedExactly` | backend/app/retention_jobs.py:23-26 | a page holds a root iff the duplicates of any age do not fill it |
| `Screenshots.DuplicatesStarveRoots` | backend/app/retention_jobs.py:23-26 | with a page's worth of duplicates no root is ever removable |
| `Screenshots.OldRootStarves` | backend/app/retention_jobs.py:23-26 | a valid table with 2000 fresh duplicates and an expired root of its own that no run removes |
| `Eviction.ShortestPrefixIsUnique` | backend/app/retention_jobs.py:108-122 | "the shortest non-empty prefix that meets the target, or all" names one number of removals |
| `Eviction.QueueIsMetadata` | agent/Workforce.Agent/ScreenshotQueue.cs:121 | the loop visits exactly the files whose names end in .json, in name order |
| `Eviction.EvictsOneEntry` | agent/Workforce.Agent/ScreenshotQueue.cs:124-127 | deleting a screenshot removes its own metadata file and no other, so each round takes one entry off the queue |
| `Eviction.LeftExactly` | agent/Workforce.Agent/ScreenshotQueue.cs:134-141 | deleting screenshots takes the metadata file, the image and the thumbnail of each and no other file |
| `Eviction.BytesSplit` | agent/Workforce.Agent/ScreenshotQueue.cs:119-128 | deleting files frees exactly their bytes |
| `Eviction.ScreenshotQueue.Trim` | agent/Workforce.Agent/ScreenshotQueue.cs:116-132 | nothing happens within the limit; over it the shortest name-ordered prefix of screenshots that meets it goes, or all, and the running total is the bytes really left |
| `Eviction.ScreenshotQueue.TrimQueue` | agent/Workforce.Agent/ScreenshotQueue.cs:121-131 | the same for the loop alone, the total equal to the bytes left in every iteration |
| `Eviction.ScreenshotQueue.Reclaimable` | agent/Workforce.Agent/ScreenshotQueue.cs:125-126 | the amount subtracted is what deleting the three files frees, whichever of them exist or are shared |
| `Eviction.ScreenshotQueue.DeleteFiles` | agent/Workforce.Agent/ScreenshotQueue.cs:134-141 | exactly the three files of the id are gone |
| `Eviction.LimitIsMetExactly` | agent/Workforce.Agent/ScreenshotQueue.cs:116-132 | trimming meets the limit iff the files of no queued screenshot fit by themselves |
| `Eviction.OldestExactly` | backend/app/retention_jobs.py:101-112 | the recordings considered are the evictable ones, each as often as it is listed, none before an older one |
| `Eviction.VideoStore.PurgeUnderPressure` | backend/app/retention_jobs.py:94-122 | under the watermark nothing happens; over it the shortest oldest-first prefix of evictable recordings that frees enough goes, or all, and whatever disappears was unpinned and below the root |
| `Eviction.VideoStore.DeleteUnlessPinned` | backend/app/retention_jobs.py:109-121 | a file goes iff it is unpinned, inside and deletable, its object first |
| `Eviction.TargetIsMetExactly` | backend/app/retention_jobs.py:100-122 | a run meets its target iff all evictable recordings together would |
| `Eviction.NoNeedExactly` | backend/app/retention_jobs.py:97-100 | usage is over the watermark with nothing to free iff no space is reserved and the free space is the target, rounded down from a fraction |
| `Eviction.NeedFreeIsLeast` | backend/app/retention_jobs.py:100 | the need is the least number of bytes that brings the free space to the target, rounded down |
| `Eviction.ThresholdExactly` | backend/app/retention_jobs.py:97 | a watermark between 50 and 95 percent is taken as it is, any other as the nearer bound |
| `Eviction.NoNeedStillEvictsOne` | backend/app/retention_jobs.py:121-122 | with nothing to free exactly one recording goes |
| `Eviction.TargetReachesWatermark` | backend/app/retention_jobs.py:97-100 | without reserved space a met target brings usage to the watermark within a byte |
| `Cron.LeapYearsCounted` | backend/app/report_jobs.py:38-41 | summing year lengths is the closed Gregorian formula |
| `Cron.MonthLengths` | backend/app/report_jobs.py:38-41 | the twelve months have their Gregorian lengths |
| `Cron.DateOfIsGregorian` | backend/app/report_jobs.py:38-41 | stepping from day to day yields valid dates and counts days |
| `Cron.DateOfInvertsDayNumber` | backend/app/report_jobs.py:38-41 | every valid date is reached, at its day number |
| `Cron.ValuesExactly` | backend/app/report_jobs.py:37-41 | a minute of a day has its own minute, hour, date and weekday as the five values, in this order |
| `Cron.NextCronAfter` | backend/app/report_jobs.py:44-49 | the least matching whole minute after the instant within 370 days; or none there matches; or a field raises before any does |
| `Cron.NumeralIsRead` | backend/app/report_jobs.py:20-29 | digits with single underscores between them are the number the digits write, with a sign or without one |
| `Cron.OnlyNumeralsAreRead` | backend/app/report_jobs.py:20-29 | a text is a number iff it is such digits, behind at most one sign |
| `Cron.WordsExactly` | backend/app/report_jobs.py:35 | white space of any kind and length separates the fields and counts for nothing around them |
| `Cron.NeedsFiveFields` | backend/app/report_jobs.py:36 | an expression with more or fewer than five fields never runs |
| `Cron.ShownNatParses` | backend/app/report_jobs.py:20-29 | a printed number parses back |
| `Cron.TermMatchesExactly` | backend/app/report_jobs.py:18-30 | a printed value, range or step matches exactly the values it means |
| `Cron.FieldMatchesExactly` | backend/app/report_jobs.py:15-31 | a printed field matches exactly the values one of its terms means, and never raises |
| `Cron.ExpressionMatchesExactly` | backend/app/report_jobs.py:34-41 | a printed schedule matches exactly the minutes whose minute, hour, day, month and weekday its fields mean, weekdays counted from a Monday on day 0 |
| `Cron.SearchIsExact` | backend/app/report_jobs.py:44-49 | for well-formed schedules the search returns the least later run by day, hour and minute, and raises iff there is none in the next 370 days |
| `Cron.AnyPartRaisesExactly` | backend/app/report_jobs.py:17-22 | the parts of a field raise iff some part with a slash, a positive step and a base that is neither `*` nor a number follows only parts that do not match |
| `Cron.ExpressionRaisesExactly` | backend/app/report_jobs.py:34-41 | an expression raises at a minute iff some field has such a part and all fields before it match |
| `Cron.BadBaseRaises` | backend/app/report_jobs.py:44-49 | every search for "a/5 * * * *" ends in the error |
| `Cron.StepsAreCronSteps` | backend/app/report_jobs.py:22 | `base/step` is every step-th value from the base iff the base is a multiple of the step |
| `Cron.LeapDayFields` | backend/app/report_jobs.py:34-41 | the schedule "0 0 29 2 *" runs exactly at the midnights of 29 February |
| `Cron.LeapDaySchedulesRaise` | backend/app/report_jobs.py:46-49 | from any instant a schedule for 29 February raises iff none comes within 370 days: neither this year's still ahead nor, from 24 February on, the next year's |

## Left out

- HTTP, named pipes, SQLite, PostgreSQL, MinIO, files and clocks: tables, queues and file sets are sequences, maps and sets; times, oracles for deletions and the order of a directory listing are parameters.
- Cryptography and JSON are functions given as parameters; JSON is only assumed to read back what it wrote. JSON numbers with fractions are not modelled.
- Passing validated times between agent and server assumes that the server drops the seventh digit of the agent's 100 ns time stamps; parsing of time stamps is not modelled.
- Regular expressions are an uninterpreted search; bracket sets of fnmatch, Unicode case mapping beyond ASCII, non-ASCII digits and white space, and the `file_path` field are not modelled.
- Time zones and daylight saving: schedules are in wall-clock time. Datetime overflow past year 9999 is not modelled.
- Concurrency finer than one handler: two refreshes of one session at the same time, or an enqueue between the two deletions of one limit check.
- Events stored while the reclassification job or repeated purges run.
- Windows accounts, quarantine, clock skew, the device's last state and audit rows written by the ingest; job status and counters other than processed events.
- Unreadable queue rows that `TakeAsync` skips, cancellation inside loops, and the jitter of the retry delay.
- `ActivityUpload.ActivityUploadWorker.Execute`: keeps one batch size, while the source reads it from its configuration in every iteration; in the protocol the size may change with every take.
- Object keys that fail to be removed in the screenshot purge stay behind as orphans in the source; the model removes them. Failed object deletions under storage pressure are modelled.
- Streams: the device rows, schedules and settings are what the queries return; profiles, stream keys and URLs are left out, and so are acknowledgements of commands, their expiry and their order.
- The screenshot purge page is any page the query may return; ties in its order and in `ORDER BY ... LIMIT 1` are left open.
- The storage-pressure percentages are exact fractions instead of floating point.
- `Screenshots.PhashDistance`: takes hashes as numbers; their 16-digit hexadecimal text is not parsed.
- `purge_events`, `purge_video_files`, `delete_employee_data`, report rendering, e-mail, the report queue around the cron search, CRUD handlers, permission checks and field limits: each is settled by reading one branch.
- Windows interop, capture, tray interface, React code, metrics, installers and infrastructure.
