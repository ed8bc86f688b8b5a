# A verified model of the planning, scheduling and ledger core

This Dafny project models four parts of the system and proves properties of them.

* **Work calendars** (`Calendar`, `CalendarWalk`, `CalendarShift`, `CalendarLimits`, `Rounding`). Instants
  are integer milliseconds, a local day is the floor of the shifted instant, the weekday is the day modulo 7.
  `next_available` and `add_working_hours` are loops; they are compared with an independent reading that
  looks at one millisecond at a time: an instant is available when it lies on a working day, inside the
  daily window and outside every active time-off block. Further laws move calendars by their UTC offset.
* **The scheduler and the local planner** (`Graph`, `Kahn`, `Estimates`, `EstimateMeaning`, `Scheduler`,
  `SchedulingLaws`, `Planner`, `ChangePreview`, `Rescheduling`). The queue over in-degrees is
  compared with "the dependency relation has no cycle", the pass over the maps with a recursive,
  order-free definition of an estimate, and that with what an estimate says in hours, percent and instants.
* **The Flow Ledger** (`Domain`, `ExternalWrites`, `Leases`, `Notifications`, `Messages`, `FlowRevisions`,
  `Ledger`, `LedgerLaws`, `WriteHistories`, `FlowHistories`, `LedgerHistories`, `Store`, `Replicas`).
  `OrganizationState` is a class with the maps of the source; `ApplyEvent` is the value-level meaning of its
  `Apply`. Runs are sequences of events. The three modules of histories say what the events of a stream tell
  of each record and exactly which event is accepted next. Replicas are a state machine whose steps interleave.
* **The rate limiter** (`RateLimit`): a bounded map with eviction against an unbounded one.

Modelling decisions that a reader should know:

* `schedule` and `reschedule` are two copies of one algorithm in the source. Here they share `Kahn` and
  `Propagate`; a `Plan` carries what differs (key or id as a task's name, terminal tasks, the clamp to now).
* The Office and GitLab arms share one record and one set of actions in `ExternalWrites`; the methods
  `ApplyOffice` and `ApplyGitLab` are written arm by arm from the source and proved to agree with it.
  `Done` stands for Released and Written. The three real differences are kept: the hash check of a
  request, which failures a human may retry, and what an expired dispatch becomes.
* A commit is split into `Prepare` and `Commit`, because other replicas can append between
  `prepare_batch` and `append_prepared`. A database transaction is one atomic step.
* `now`, new ids, dispatch ids and answers of the outside world are parameters.
* Error texts are constructors of `Reason`.

Where the code does not do what one might expect, the model follows the code:

* `add_working_hours` miscounts at an available instant whose next block ends before it starts (a reversed
  block). `TimeOffAdded` (`src/core/state.rs:309-328`) does not exclude such blocks, the command in front of
  it does (`src/application/app/calendars.rs:86-90`). `ReversedBlockMiscounts` shows a calendar,
  `ExactIffReversedBlocksHidden` says block by block when every finish is exact.
* P50 hours exceed P80 hours for negative efforts (`NegativeEffortReversesHours`), exactly when the unrounded
  hours are at most -0.015 (`P80NotBelowP50`). Commands refuse efforts that are not positive
  (`src/application/planner.rs:459-460`, `src/application/app/mod.rs:840`), and for those the order holds
  (`P50HoursNotAboveP80`).
* The new task of a local revision need not start last when its flow is rescheduled: a task at work whose
  dependents were all rejected, cancelled or completed can outlast it (`RejectedTaskStrands`).
  `NewTaskStartsLastIffNoneStranded` gives the exact condition.
* Four kinds of event write before they can be refused: schedule revisions, applied changes, the acceptance
  of a task (which activates its flow first) and message acknowledgements. `RefusalIsAtomicIffHarmless` says
  exactly when a refusal leaves the ledger as it was, `RefusedRevisionLeavesChanges` shows one that does not.
* `import_sqlite_snapshot` takes a tenant for migrated when counts and artifacts agree, whatever its
  events say (`ImportAcceptsOtherStream`). That is right for every snapshot only for a tenant without events
  and credentials (`AlreadyImportedIffNothingToCompare`).
* The limiter's constant is called a limit per minute, but a minute that straddles two windows admits up
  to 599 requests of a key (`AnyMinute`, `AnyMinuteIsTight`). A minute that no window of the key starts
  inside, and a minute that follows one without its calls, admit at most 300 (`MinuteWithinWindow`,
  `MinuteAfterSilence`).

## Model

| member | source | states |
|---|---|---|
| Calendar.FindNextAvailable | src/core/calendar.rs:29-67 | the loop returns the least available instant at or after the start, and agrees with the recursive search in every error |
| Calendar.SearchFindsNext | src/core/calendar.rs:33-63 | no available instant is skipped by a jump to a block's end or to the next midnight |
| Calendar.SearchReaches | src/core/calendar.rs:33-63 | an available instant with fewer local days and block ends before it than iterations left is found |
| Calendar.NextAvailableExact | src/core/calendar.rs:29-67 | success is the least available instant; giving up means every available instant is at least the limit in days plus block ends away |
| Calendar.CoveringEnd | src/core/calendar.rs:44-50 | among the active blocks that cover an instant, the least end; none iff no active block covers it |
| Calendar.DayBounds | src/core/calendar.rs:40-41 | the daily window of a valid calendar lies inside its local day |
| CalendarShift.ValidIff | src/core/calendar.rs:10-27 | a calendar is valid iff its offset is at most 14 hours either way, some day is worked, and the window is not empty and ends by minute 1440; each error says which fails |
| CalendarShift.WeekdaysFollow | src/core/calendar.rs:33-37 | 1970-01-01 is a Thursday, and every day is followed by the next weekday |
| CalendarShift.AvailableOnTheClock | src/core/calendar.rs:31-50 | on a clock that shows the instant plus the offset in minutes: a working minute of a working day, and no active block over the instant |
| CalendarShift.NextAvailableMoves | src/core/calendar.rs:29-67 | start, blocks and answer moved by the UTC offset are those of the same calendar at offset zero, for every calendar, start and limit |
| CalendarShift.OpensAtEightUtc | src/core/calendar.rs:29-67 | a calendar at +01:00 that opens at 09:00 opens at 08:00 UTC |
| CalendarLimits.TenYears | src/core/calendar.rs:33-66 | the search gets over 3,659 blocks in a row and over no more |
| CalendarWalk.ComputeWorkingHours | src/core/calendar.rs:69-121 | without reachable reversed blocks the loop returns the instant at which exactly the rounded milliseconds of available time are used up; negative hours are refused |
| CalendarWalk.NextBlock | src/core/calendar.rs:89-94 | among the active blocks that end after the cursor and start before the window's end, one that starts first |
| CalendarWalk.FinishIsLeast | src/core/calendar.rs:69-121 | the finish is the least instant by which that many available milliseconds have passed |
| CalendarWalk.SegmentAvailable | src/core/calendar.rs:89-108 | at an available instant the segment is non-empty and wholly available, so the branch for a block that starts at or before the cursor is never taken |
| CalendarWalk.WalkExact | src/core/calendar.rs:86-117 | consuming whole segments equals counting one millisecond at a time |
| CalendarWalk.AddWorkingMsExact | src/core/calendar.rs:69-121 | every success is the exact finish, if no next block is reversed |
| CalendarWalk.ReversedNextMiscounts | src/core/calendar.rs:101-116 | at any instant whose next block is reversed, one more millisecond than the segment holds ends too early |
| CalendarWalk.ExactIffNeverReversed | src/core/calendar.rs:69-121 | all successes are exact iff no available instant's next block is reversed |
| CalendarWalk.NeverReversedIffHidden | src/core/calendar.rs:89-94 | it is enough to look just before the end of each reversed block, a check of finitely many instants |
| CalendarWalk.ExactIffReversedBlocksHidden | src/core/calendar.rs:69-121 | all successes are exact iff no reversed block is the next one just before its end |
| CalendarWalk.ReversedBlockMiscounts | src/core/calendar.rs:101-116 | a calendar and a duration for which, under the limit of the code, the finish is too early |
| CalendarWalk.OrderedBlocksNeverReversed | src/application/app/calendars.rs:86-90 | the order of start and end that the command checks is enough for exactness |
| CalendarWalk.FinishUnique | src/core/calendar.rs:69-121 | a duration has at most one finish |
| CalendarWalk.AddWorkingMsComposes | src/core/calendar.rs:69-121 | adding a and then b > 0 is adding a + b |
| CalendarWalk.AddWorkingMsMonotone | src/core/calendar.rs:69-121 | a later start or a longer duration never finishes earlier |
| CalendarWalk.TimeOffNotEarlier | src/core/calendar.rs:69-121 | one more time-off block never makes a finish earlier |
| CalendarWalk.AddWorkingMsNotBefore | src/core/calendar.rs:69-121 | a finish never lies before the start, whatever the blocks |
| CalendarWalk.SearchCrossesGap | src/core/calendar.rs:33-63 | one search succeeds across any gap with fewer days plus block ends than its iterations |
| CalendarWalk.WalkCompletes | src/core/calendar.rs:86-120 | the walk reaches the finish if the whole distance has fewer days plus block ends than the walk has iterations, and each gap fewer than one search has |
| CalendarWalk.AddWorkingMsCompletes | src/core/calendar.rs:69-121 | with the whole distance below four times the limit and each gap below the limit, the exact finish is returned |
| CalendarWalk.NearbyFinishCompletes | src/core/calendar.rs:69-121 | in particular with the whole distance below the limit |
| CalendarWalk.FinishExists | src/core/calendar.rs:69-121 | on a valid calendar every duration has a finish, whatever the time off |
| CalendarWalk.AddWorkingMsErrorMeans | src/core/calendar.rs:64-66 | on a valid calendar without reachable reversed blocks an error means that a gap before the finish, or the whole distance to it, reaches its limit |
| CalendarShift.AddWorkingMsMoves | src/core/calendar.rs:69-121 | moving start, blocks and finish by the UTC offset gives the same calendar at offset zero |
| CalendarLimits.RoundTheClockAddsIff | src/core/calendar.rs:86-120 | around the clock a duration is added iff it ends within four times the limit of local days, the first one included |
| CalendarLimits.FortyYears | src/core/calendar.rs:86-120 | from a midnight the default limit adds 14,640 days around the clock and not a millisecond more |
| CalendarWalk.RoundTheClockIsPlainTime | src/core/domain.rs:389-409 | on an always-available calendar working time is plain time |
| Rounding.RoundHoursMonotone | src/application/scheduler.rs:414-416 | rounding hours to hundredths keeps order |
| Rounding.HoursMsMonotone | src/application/scheduler.rs:410-412 | the conversion to milliseconds keeps order |
| Rounding.P80NotBelowP50 | src/application/scheduler.rs:105-106 | P80 hours reach P50 hours iff the unrounded hours are above -0.015 |
| Rounding.P80BelowP50 | src/application/scheduler.rs:105-106 | at -0.02 hours they do not |
| Rounding.P80NotShorter | src/application/scheduler.rs:105-106 | in milliseconds P80 is never the shorter duration |
| EstimateMeaning.RoundIsNearest | src/application/scheduler.rs:410-416 | rounding gives the nearest integer, halves away from zero, the same either side of zero |
| EstimateMeaning.RoundHoursIsNear | src/application/scheduler.rs:414-416 | rounded hours are within half a hundredth |
| EstimateMeaning.HoursMsIsNearest | src/application/scheduler.rs:410-412 | hours become the nearest number of milliseconds, negative ones none |
| Graph.TrappedSetHasCycle | src/application/scheduler.rs:82-86 | a non-empty set of tasks each depending on one of them contains a cycle |
| Graph.OrderedIsAcyclic | src/application/scheduler.rs:82-86 | a complete processing order rules out a cycle |
| Graph.StuckHasCycle | src/application/scheduler.rs:82-86 | where no task is ready and some are left, there is a cycle |
| Kahn.IndexByName | src/application/scheduler.rs:35-39 | the map holds exactly the names, each with an index that carries it |
| Kahn.LastIndexCounts | src/application/scheduler.rs:35-39 | of several equal names the last index counts |
| Kahn.LinkTask | src/application/scheduler.rs:48-65 | one task's in-degree becomes its number of dependencies with repetitions, its dependents lists are inverted rows, and it fails iff a name is unknown or its own |
| Kahn.BuildGraph | src/application/scheduler.rs:46-65 | the first phase accepts iff all names are known and no task names itself, and leaves in-degrees and the exact inversion of the graph |
| Kahn.DecrementKeepsQueueState | src/application/scheduler.rs:75-80 | a decrement never underflows and enqueues an index exactly when its last open dependency is done |
| Kahn.PopKeepsQueueState | src/application/scheduler.rs:73-75 | a popped index was never popped before and is behind its dependencies |
| Kahn.WorkOffQueue | src/application/scheduler.rs:67-81 | the order holds every index at most once, dependencies first; it is complete iff the graph is acyclic |
| Kahn.TopologicalOrder | src/application/scheduler.rs:46-86 | the graph phase succeeds iff all dependency names are known and the relation is acyclic; each error says which |
| Estimates.Latest | src/application/scheduler.rs:107-113 | the greatest finish, or now without any |
| Estimates.LastMax | src/application/scheduler.rs:127-129 | the last of several latest candidates |
| EstimateMeaning.RawHoursAre | src/application/scheduler.rs:101-105 | hours are effort times 100, 108, 110 or 118 percent over the capacity in percent, which is a whole for teams and unknown owners and at least a tenth |
| EstimateMeaning.FinishIsRight | src/application/scheduler.rs:383-393 | a finish is the start plus the hours to the nearest millisecond, on the clock, or counted on the owner's calendar if no reversed block can mislead it |
| EstimateMeaning.JobEstimateIsRight | src/application/scheduler.rs:101-140 | the estimate of a task: its own effort, P50 hours to the hundredth of effort by factor over capacity, P80 hours 1.4 times those, the start the next moment its owner can work, each finish that many hours later |
| EstimateMeaning.EstimateIsRight | src/application/scheduler.rs:107-116 | and the work can begin at the latest P80 finish of its dependencies, at now without any |
| EstimateMeaning.EstimatedIff | src/application/scheduler.rs:98-116 | there is an estimate iff the task is assigned and its owner's calendar, if any, takes the work; without an assignment the error names the task |
| EstimateMeaning.EstimatedIffAssigned | src/application/scheduler.rs:98-116 | without calendars everything can be estimated iff every task with work left is assigned |
| Scheduler.DependencyDone | src/application/scheduler.rs:107-113 | every dependency was estimated before, so `filter_map` drops none |
| Scheduler.LookupsAgree | src/application/scheduler.rs:107-129 | the finishes and paths looked up are those of the order-free definition |
| Scheduler.Propagate | src/application/scheduler.rs:96-151 | whatever the order, the maps end with the order-free estimate and the critical chain of every task; it fails iff some task has no estimate, with that task's error |
| Scheduler.ComputeSchedule | src/application/scheduler.rs:24-199 | succeeds iff the drafts are non-empty, with unique keys, known acyclic dependencies and an estimate each; every error names its cause. The result carries the order-free estimates and a critical path, and by drafts and staff alone: each task has its draft's effort, the right hours and finishes for its assignee, and starts from the latest P80 finish of the drafts it names; the schedule's finishes are the latest of its tasks' |
| Scheduler.LatestByName | src/application/scheduler.rs:107-113 | the dependencies of a task are the tasks whose names it lists |
| Scheduler.DraftIsEstimated | src/application/scheduler.rs:96-140 | a draft is assigned and rightly estimated, in terms of drafts, assignments and staff |
| Scheduler.ScheduleIsFit | src/application/scheduler.rs:153-199 | so is a whole schedule, and it ends with its last task |
| Scheduler.BuildTasks | src/application/scheduler.rs:153-176 | the tasks are the drafts in order, with ids in place of keys and their estimates |
| Scheduler.ComputeReschedule | src/application/scheduler.rs:201-358 | for unique ids it succeeds iff the flow has tasks, known acyclic dependencies and an estimate each; estimates for exactly its task ids, the order-free ones, with finishes and path over open tasks; every error names its cause |
| Scheduler.TaskIsEstimated | src/application/scheduler.rs:263-304 | a task with work left is rightly estimated from its own effort, owner and named dependencies, not before now; a terminal one keeps its hours and ends at its last heartbeat or now, the earlier |
| Scheduler.RevisionEndsWithWork | src/application/scheduler.rs:332-343 | both finishes of a revision are the latest of the tasks with work left, now if there are none |
| Scheduler.RevisionPathIsCritical | src/application/scheduler.rs:344-351 | its path is the critical chain to the last of the latest of them, empty if there are none |
| SchedulingLaws.JobEstimateLaws | src/application/scheduler.rs:101-116 | a task starts no earlier than its dependencies' latest finish and ends after it starts; P50 finish not after P80 finish; P50 hours within P80 hours iff the unrounded hours are above -0.015, hence for every effort that is not negative |
| SchedulingLaws.NegativeEffortReversesHours | src/application/scheduler.rs:101-106 | a negative effort for which P50 hours exceed P80 hours |
| SchedulingLaws.P50HoursNotAboveP80 | src/application/scheduler.rs:296-298 | every scheduled or rescheduled task with an effort that is not negative has P50 hours at most P80 hours |
| SchedulingLaws.StartsAfterDependencies | src/application/scheduler.rs:107-114 | every open task starts at or after each dependency's P80 finish |
| SchedulingLaws.StartsAfterNow | src/application/scheduler.rs:107-114 | no task with work left starts before now |
| SchedulingLaws.P50NotAfterP80 | src/application/scheduler.rs:115-116 | P50 finish not after P80 finish, terminal tasks included |
| SchedulingLaws.ScheduleFinishes | src/application/scheduler.rs:177-186 | the flow's P50 finish is not after its P80 finish, which is not before any task's |
| SchedulingLaws.CriticalChainIsCritical | src/application/scheduler.rs:118-131 | the path of a task runs along dependencies from a task without any, each link the dependency that set the start |
| SchedulingLaws.CriticalPathIsCritical | src/application/scheduler.rs:187-191 | the reported path is such a chain and ends at a task whose finish is the schedule's |
| SchedulingLaws.RevisedPathIsCritical | src/application/scheduler.rs:344-351 | the path of a revision is such a chain and ends at an open task whose finish is the revision's |
| SchedulingLaws.ChainNotLonger | src/application/scheduler.rs:96-151 | with continuous calendars no dependency chain is longer than its last task's finish |
| SchedulingLaws.CriticalChainAttains | src/application/scheduler.rs:118-131 | with continuous calendars the critical chain attains that finish |
| SchedulingLaws.ScheduleIsLongestChain | src/application/scheduler.rs:182-191 | with continuous calendars the P80 finish is now plus the longest dependency chain, and the critical path is such a chain |
| SchedulingLaws.TerminalNotAfterNow | src/application/scheduler.rs:271-286 | a terminal task keeps its hours and ends at or before now |
| SchedulingLaws.OpenTaskLaws | src/application/scheduler.rs:263-304 | an open task starts at or after now and every dependency's P80 finish and ends within the flow's |
| SchedulingLaws.RescheduleFinishes | src/application/scheduler.rs:332-343 | a revision's P50 finish is not after its P80 finish |
| SchedulingLaws.ScheduledGraphIsKept | src/application/scheduler.rs:153-176 | the tasks of a schedule have, by id, the same graph as the drafts by key, so the graph phase of `reschedule` accepts them |
| Rescheduling.RescheduleFlow | src/application/app/calendars.rs:203-239 | computing a revision from the ledger and applying it succeeds, for unique ids, iff the graph is accepted and all tasks can be estimated; then every task carries its right estimate, the flow ends with the latest open task, P50 not after P80 for sound calendars, has the critical path to it and is otherwise as before; a failure changes nothing |
| Rescheduling.ReviseExtended | src/application/app/mod.rs:1373-1406 | rescheduling the extended flow and applying the change succeeds, for unique ids and keys, iff the tasks can be added, the extended graph is accepted and all tasks can be estimated; then the extended flow is rescheduled in the same sense, with id and status kept, and the request is applied, by its approver and now |
| Rescheduling.ApproveChange | src/application/app/mod.rs:1332-1408 | approving a request does so exactly for open requests, on a copy that leaves the ledger as it was; the new tasks come behind the old ones, assigned |
| Planner.DecimalInjective | src/application/planner.rs:208 | different suffixes give different keys |
| Planner.ChangeKeyIs | src/application/planner.rs:208 | a fresh key is "change-" and the decimal digits of its number |
| Planner.TakenSuffixes | src/application/planner.rs:201-213 | if the first n tries are taken there are at least n keys |
| Planner.LocalRevision | src/application/planner.rs:201-252 | within tasks + 1 tries the least fresh key is found; the plan is the flow's with one task that depends on exactly the leaves |
| Planner.FlowToPlanIsKnown | src/application/planner.rs:265-271 | a plan taken from a flow never names an unknown task |
| Planner.RevisionCycles | src/application/planner.rs:214-252 | the revised graph has a cycle iff the old one has, and no task depends on the new one |
| Planner.RevisionAccepted | src/application/planner.rs:201-252 | the graph phase accepts the revision iff it accepts the flow's own plan, or the flow is empty |
| Planner.NewTaskIsOnlySink | src/application/planner.rs:219-252 | every old task has a dependent in the revised plan |
| Planner.ReachesNewTask | src/application/planner.rs:219-252 | a chain of dependents leads from every old task to the new one |
| Planner.NewTaskStartsLast | src/application/planner.rs:219-252 | scheduled anew, the revised plan starts the new task no earlier than every old task's P80 finish |
| ChangePreview.LocalRevisionIsAppendOnly | src/application/app/mod.rs:2451-2520 | a local revision passes as the addition of exactly its new task iff the flow's keys are unique |
| ChangePreview.AppendOnlyIff | src/application/app/mod.rs:2451-2520 | any plan passes iff its keys are unique, it holds every draft of the flow unchanged, and what is new depends on keys of the plan only; what is new is the answer |
| ChangePreview.PreviewDependsOnLeaves | src/application/app/mod.rs:1164-1186 | in the extended flow the new task depends on exactly the ids of the leaves |
| ChangePreview.LeafIffNoDependent | src/application/planner.rs:214-224 | a task is a leaf iff no task of the flow depends on it |
| ChangePreview.FeedingStartsEarlier | src/application/scheduler.rs:263-304 | if every other open task has an open dependent, each ends before the one task that need not have any starts |
| ChangePreview.StrandedOutlasts | src/application/scheduler.rs:263-304 | an open task without open dependents can end after a given other has started, with positive efforts throughout |
| ChangePreview.StartsLastIffAllFeed | src/application/scheduler.rs:201-358 | a task starts last in all reschedules of a flow, for all positive efforts of the others, owners, calendars and times, iff every other open task has an open dependent |
| ChangePreview.NewTaskStartsLastIffNoneStranded | src/application/app/mod.rs:1212-1215 | in the previewed flow, whose new task has its eight hours, that task starts last in all such reschedules iff no open task has only terminal dependents |
| ChangePreview.RejectedTaskStrands | src/application/app/mod.rs:1212-1215 | the preview of a local revision of a flow with a rejected task, in which the new task starts while an old one is at work |
| ExternalWrites.ReachableIsCoherent | src/core/state.rs:986-1302 | after any run the dispatch id is set iff dispatching, done, failed or in doubt, the result iff done, the reviewer iff reviewed |
| ExternalWrites.DispatchAccounting | src/core/state.rs:1008-1302 | claims plus one if approved equal approvals plus human retries plus retry-safe expiries |
| ExternalWrites.OutcomeAccounting | src/core/state.rs:1640-1662 | per dispatch id, accepted outcomes plus the claim in flight equal the claims |
| ExternalWrites.StaleOutcomeRejected | src/core/state.rs:1640-1662 | given a fresh id, a claim has one outcome once a later claim was accepted, and any further outcome for it is rejected |
| ExternalWrites.EffectAccounting | src/core/state.rs:1047-1147 | dispatches that may have taken effect, in flight included, exceed one exactly by the retries that a human approved in doubt, of which Office has none |
| ExternalWrites.AtMostOneEffect | src/core/state.rs:1121-1147 | an Office release that is not retry-safe has at most one dispatch that was applied, is in doubt or in flight |
| ExternalWrites.NothingAcceptedIffFrozen | src/core/state.rs:1008-1302 | a record accepts no action at all iff it is done, rejected, or an Office release in doubt |
| WriteHistories.ActTells | src/core/state.rs:1008-1302 | an action is accepted iff it may follow the last action of the history; the record then tells the longer history, and each refusal its cause |
| WriteHistories.RunsAreLegalHistories | src/core/state.rs:1008-1302 | the runs of a request are exactly the sequences in which each action may follow the one before; status, dispatch and result are those of the last action, the reviewer that of the last review |
| WriteHistories.Courses | src/core/state.rs:1008-1302 | for every request: approved, claimed and succeeded ends done with that reviewer, dispatch and result; so for rejection, certain and unclear failure, and both expiries |
| WriteHistories.RetryCourse | src/core/state.rs:1097-1117 | after a failure that a human may retry, a retry makes the write ready for its next dispatch, with the new reviewer |
| Leases.AcquireKeepsExclusive | src/core/state.rs:888-913 | acquiring keeps contending active leases disjoint in time |
| Leases.ReleaseKeepsExclusive | src/core/state.rs:914-941 | so does releasing |
| Leases.NoTwoHolders | src/core/domain.rs:944-952 | no instant has two active holders of a resource that either holds exclusively |
| Leases.AcquireOkIff | src/core/state.rs:888-913 | a lease is acquired iff its flight is of that task and principal, and no other active, unexpired lease of the resource excludes it |
| Notifications.StepKeepsConsistent | src/core/state.rs:358-458 | every delivery has a registered endpoint, and behind a disabled one it is delivered or cancelled |
| Notifications.DeliveryHistory | src/core/state.rs:415-458 | along any run attempts grow by exactly the accepted attempts, and a delivered or cancelled delivery keeps its status |
| Notifications.RunKeepsConsistent | src/core/state.rs:358-458 | every run keeps the outbox consistent |
| FlowRevisions.ReviseTasksMeaning | src/core/state.rs:1613-1627 | ids and keys stay; the loop succeeds iff every task has an estimate, and then every task carries its own |
| FlowRevisions.RescheduleAcceptedIffUniqueIds | src/core/state.rs:1613-1637 | a revision with estimates for exactly the flow's ids is accepted iff the ids are unique |
| FlowRevisions.AcceptedRevision | src/core/state.rs:1613-1637 | an accepted revision brings its own two finishes and critical path, and beside them changes only tasks |
| FlowRevisions.PushTasksOkIffAddable | src/core/state.rs:644-653 | adding tasks succeeds iff each brings a new id and key |
| FlowRevisions.PushTasksKeepsUnique | src/core/state.rs:644-653 | ids and keys stay unique, even when adding stops half-way |
| FlowRevisions.ChangeAppliesIffAddable | src/core/state.rs:622-661 | a proposed change with a revision for the extended flow applies iff its tasks can be added |
| FlowRevisions.StepKeepsUnique | src/core/state.rs:484-661 | accepted or refused, an event keeps task ids and keys of every flow unique |
| FlowRevisions.ReviseTasksKeepsIffHarmless | src/core/state.rs:1618-1627 | the loop leaves the tasks as they were iff every estimate it writes before it stops already stood there |
| FlowRevisions.RefusalChangesNothingIffHarmless | src/core/state.rs:566-685 | exactly when a refused revision, change or acceptance leaves flows and requests as they were; the other modelled arms always do |
| FlowRevisions.RefusedRevisionLeavesChanges | src/core/state.rs:1618-1627 | a refused revision can leave estimates it already wrote |
| FlowHistories.UpdateTaskMeaning | src/core/state.rs:566-588 | a report on a task changes exactly the first task of that id or key, in what was reported |
| FlowHistories.TaskEventTouchesOneTask | src/core/state.rs:566-588 | so does every accepted task event; accepting a task also makes its flow active |
| FlowHistories.BookIsTold | src/core/state.rs:484-685 | after any run each flow is what the last events say: status, requirements, finishes and path from the last event that sets them, tasks as planned, added, reported and estimated; each request as proposed or as resolved since |
| FlowHistories.StepAcceptedIff | src/core/state.rs:484-685 | exactly which action is accepted, and what each refusal says |
| FlowHistories.LedgerTellsItsHistory | src/core/state.rs:484-685 | so are flows and requests of every reachable ledger |
| FlowHistories.FlowEventAcceptedIff | src/core/state.rs:484-685 | the next event of a stream is accepted as a flow event iff its flow, task or open request is there, its tasks can be added and its estimates fit; with the error of each refusal |
| Messages.RecordAllStands | src/core/state.rs:544-564 | after the loop the last recorded acknowledgement of each recipient stands, or the one that stood before |
| Messages.RecordAllExtends | src/core/state.rs:544-564 | only standing acknowledgements are replaced and new recipients added; it succeeds iff every recipient is known |
| Messages.AcknowledgingKeepsIffHarmless | src/core/state.rs:544-564 | accepted or refused, acknowledging leaves a message as it was iff the last recorded acknowledgement of each recipient already stood |
| Ledger.OrganizationState.constructor | src/core/state.rs:20-21 | the empty ledger |
| Ledger.OrganizationState.DisableEndpoint | src/core/state.rs:368-397 | the endpoint is disabled and exactly its undelivered deliveries are cancelled |
| Ledger.OrganizationState.ApplyNotification | src/core/state.rs:358-458 | the outbox maps change as the step function says; refusals change nothing |
| Ledger.OrganizationState.ApplyScheduleRevision | src/core/state.rs:1613-1637 | the in-place loop leaves exactly the revised flow, also when it stops half-way |
| Ledger.OrganizationState.ApplyFlowChange | src/core/state.rs:622-661 | tasks are added, the schedule is revised and the request resolved, with the exact state left by each refusal |
| Ledger.OrganizationState.ApplyFlow | src/core/state.rs:484-685 | the modelled flow events change the flow maps as the step function says; acceptance activates the flow before it looks for the task |
| Ledger.OrganizationState.AcknowledgeMessage | src/core/state.rs:524-565 | the in-place loop leaves exactly the recorded acknowledgements, also when it stops half-way |
| Ledger.OrganizationState.RecordOffice | src/core/state.rs:986-1007 | a release is recorded iff its task exists, it is in its initial state and its id is new |
| Ledger.OrganizationState.RecordGitLab | src/core/state.rs:1149-1174 | the same for a GitLab write, with its hash check |
| Ledger.OrganizationState.AcquireLease | src/core/state.rs:888-913 | a lease is recorded iff it matches its flight and no other lease conflicts |
| Ledger.OrganizationState.ReleaseLease | src/core/state.rs:914-941 | only an active lease of the right scope is released |
| Ledger.OrganizationState.ApplyOffice | src/core/state.rs:1008-1148 | each Office arm is the shared action on the record; refusals change nothing |
| Ledger.OrganizationState.ApplyGitLab | src/core/state.rs:1175-1302 | each GitLab arm is the shared action on the record; refusals change nothing |
| Ledger.OrganizationState.Dispatch | src/core/state.rs:73-1356 | each modelled arm takes the ledger to its value-level successor, refusals included |
| Ledger.OrganizationState.Apply | src/core/state.rs:59-72 | one event of the next sequence takes the ledger to the value-level successor, another is refused unchanged |
| Ledger.OrganizationState.ApplyEach | src/application/app/mod.rs:170-180 | applying a batch in order equals the value-level run, up to the first refusal |
| Ledger.OrganizationState.Replay | src/core/state.rs:52-58 | replay of a stream succeeds iff each event applies after those before it, and yields that state |
| LedgerLaws.StreamIsNumbered | src/core/state.rs:60-71 | an accepted stream is numbered without gaps and the ledger's sequence is its length |
| LedgerLaws.OutOfSequenceRefused | src/core/state.rs:60-71 | an event with another sequence than the next, or after the last 64-bit one, is refused whatever it is |
| LedgerLaws.ApplyAllComposes | src/core/state.rs:52-58 | replaying a stream is replaying a prefix and applying the rest |
| LedgerLaws.WriteIsARun | src/core/state.rs:986-1302 | the record of a write in any reachable ledger is the run of its events from a valid request of its kind |
| LedgerLaws.ReachableWrites | src/core/state.rs:986-1302 | in every reachable ledger the record is coherent and the accounts of claims, outcomes and effects balance |
| LedgerLaws.ReachableOfficeEffects | src/core/state.rs:986-1148 | in every reachable ledger a release that is not retry-safe has at most one effective dispatch |
| LedgerLaws.StaleOutcomeRefused | src/core/state.rs:1640-1662 | after any replay an outcome with an older claim's fresh id is refused, and that claim had exactly one outcome |
| LedgerLaws.FrozenForever | src/core/state.rs:986-1302 | released, written, rejected and Office-in-doubt records stay as they are in every continuation |
| WriteHistories.RecordTellsItsHistory | src/core/state.rs:986-1302 | in every reachable ledger the record of a write is what its events tell, the reviewer of the last review and the result of its success included |
| WriteHistories.ActionAcceptedIff | src/core/state.rs:1008-1302 | the next event may act on a write iff it was requested, for that flow and task, and the action may follow its last one; with the error of each refusal |
| WriteHistories.RequestAcceptedIff | src/core/state.rs:986-1007 | the next event may request a write iff the flow has the task, nothing has happened to the write, its hash has 64 characters, lower-case hexadecimal for GitLab, and its id is new |
| LedgerLaws.EventKeepsSafe | src/core/state.rs:60-1302 | every event, refused or not, keeps leases exclusive and the outbox consistent |
| LedgerLaws.ReplayIsSafe | src/core/state.rs:52-58 | every reachable ledger has exclusive leases and a consistent outbox |
| LedgerLaws.NoTwoHoldersEver | src/core/state.rs:888-941 | in no reachable ledger has an instant two conflicting holders |
| LedgerHistories.LeasesAreTold | src/core/state.rs:877-941 | in every reachable ledger a flight is what last authorized it, a lease what last acquired it, released iff that happened since |
| LedgerHistories.AcquireAcceptedIff | src/core/state.rs:888-913 | the next event may acquire a lease iff its flight is of that task and principal and no lease of the stream blocks it; released and expired ones never do |
| LedgerHistories.ReleaseAcceptedIff | src/core/state.rs:914-941 | the next event may release a lease iff it was acquired for that task and not released since |
| LedgerHistories.FlightAcceptedIff | src/core/state.rs:877-887 | the next event may authorize a flight iff its flow has the task |
| LedgerLaws.DeliveryLaws | src/core/state.rs:358-458 | from any ledger on, a delivery's attempts grow by exactly the accepted attempt events, a settled one keeps its status, and a consistent outbox stays consistent |
| LedgerHistories.OutboxIsTold | src/core/state.rs:358-458 | after any run an endpoint is as registered or disabled since, a delivery as queued, with the outcome of its last attempt, or cancelled with its own endpoint if it was not delivered |
| LedgerHistories.OutboxTellsItsHistory | src/core/state.rs:358-458 | so are endpoints and deliveries of every reachable ledger |
| LedgerHistories.NotificationAcceptedIff | src/core/state.rs:358-458 | exactly which notification event is accepted next, and what each refusal says |
| LedgerHistories.PostAcceptedIff | src/core/state.rs:501-523 | the next event may post a message iff its flow is there, and its task if it names one |
| LedgerHistories.AcknowledgementAcceptedIff | src/core/state.rs:524-565 | the next event may acknowledge a message iff it is of that flow and all who acknowledge are recipients; a refusal names the first who is not |
| LedgerHistories.AcknowledgementStands | src/core/state.rs:544-564 | then the last acknowledgement of each recipient stands, and no other changes |
| LedgerLaws.ReplayKeepsUnique | src/core/state.rs:484-661 | if flows are planned with unique ids and keys, every reachable ledger has them unique |
| LedgerLaws.RescheduleIsAccepted | src/core/state.rs:613-615 | in every such ledger a revision with estimates for exactly the flow's ids, as `reschedule` returns, is accepted and gives every task its estimate |
| LedgerLaws.RefusalIsAtomicIffHarmless | src/core/state.rs:59-1302 | over the modelled arms, exactly when a refused event leaves the ledger as it was |
| LedgerLaws.RefusalTouchesFlowsAndMessagesOnly | src/core/state.rs:524-661 | whatever modelled event is refused, nothing but flows and messages can have changed |
| Store.PrepareBatch | src/adapters/store.rs:438-472 | succeeds iff the last sequence fits 64 bits; the envelopes continue the head one by one with current version and matching kind |
| Store.PreparedAccepted | src/adapters/store.rs:438-545 | a batch prepared at the head is accepted there |
| Store.AcceptedIffPrepared | src/adapters/store.rs:474-545 | a log takes a non-empty batch iff it was prepared at its head, with current version and matching kinds, and its last sequence fits 64 bits |
| Store.PreparedKindTells | src/core/event.rs:478-583 | the kind of an envelope names the group of its event |
| Store.MaxSequence | src/adapters/store.rs:486-489 | the greatest sequence of the rows, or 0 |
| Store.HeadIsLength | src/adapters/store.rs:486-489 | for a gapless log the greatest sequence is its length |
| Store.SelectAfter | src/adapters/store.rs:561-567 | the rows after a sequence are the rest of the log |
| Store.SqliteStore.AppendPrepared | src/adapters/store.rs:474-548 | accepts iff the batch is empty or was prepared for the current head and fits; appends all of it or nothing; a moved head is a conflict |
| Store.SqliteStore.LoadAfter | src/adapters/store.rs:561-567 | the rest of the log |
| Store.PostgresStore.AppendPrepared | src/adapters/postgres_store.rs:404-476 | the same contract with a stored head, which stays the last sequence |
| Store.PostgresStore.LoadAfter | src/adapters/postgres_store.rs:486-500 | the rest of the log |
| Store.PostgresStore.ImportSnapshot | src/adapters/postgres_store.rs:200-352 | fills an empty tenant with the whole snapshot, otherwise changes nothing; the head stays the last sequence |
| Store.ImportFillsOrCompares | src/adapters/postgres_store.rs:229-340 | an empty tenant takes credentials, artifacts and events as they are, with payload version 2, and replays them alike; any other keeps its content and is compared by artifacts and two counts |
| Store.ImportTwice | src/adapters/postgres_store.rs:229-288 | importing again changes nothing and answers false, or true for an empty snapshot |
| Store.UpgradeKeepsReplay | src/adapters/postgres_store.rs:290-294 | an imported stream replays to the same ledger although its payload version is rewritten |
| Store.ImportAcceptsOtherStream | src/adapters/postgres_store.rs:276-284 | a tenant with another stream of the same length is taken for migrated |
| Store.AlreadyImportedIffNothingToCompare | src/adapters/postgres_store.rs:276-284 | the answer "already migrated" is right for every numbered snapshot iff the tenant has neither events nor credentials |
| Replicas.AppendedIsReplayed | src/application/app/commit.rs:27-40 | a log extended by an accepted batch replays to the state its writer projected |
| Replicas.CatchUp | src/application/app/mod.rs:170-180 | refreshing from any prefix gives the replay of the whole log |
| Replicas.StepKeepsSound | src/application/app/commit.rs:16-42 | every step of every replica keeps the log replayable, the head its length, and each replica the replay of a prefix |
| Replicas.EveryRunIsSound | src/application/app/commit.rs:16-42 | so does every interleaving of opens, prepares, commits, lost answers, reloads and refreshes |
| Replicas.EveryReplicaIsSafe | src/application/app/commit.rs:16-42 | every replica's ledger has exclusive leases and a consistent outbox |
| Replicas.LogIsAppendOnly | src/adapters/postgres_store.rs:404-476 | no step of any run rewrites or drops an event |
| Replicas.StepTouchesOne | src/application/app/commit.rs:16-42 | a step leaves every other replica as it was, and only commits write the log |
| Replicas.RefusedIsNotPrepared | src/application/app/commit.rs:16-33 | a batch is prepared iff the replica's own ledger accepts it and its sequences fit 64 bits |
| Replicas.UndisturbedCommit | src/application/app/commit.rs:16-42 | a replica that is up to date and left alone commits whatever its ledger accepts: the log grows by exactly those events, numbered on |
| Replicas.CatchesUp | src/application/app/mod.rs:163-182 | an idle replica that refreshes or reloads holds the replay of the whole log |
| Replicas.OpensUpToDate | src/application/app/mod.rs:163-166 | so does a new replica |
| Replicas.CommitIsReplayed | src/application/app/commit.rs:34-40 | after a commit the writer holds the replay of the whole log |
| Replicas.ConflictReloads | src/application/app/commit.rs:34-39 | a refused writer changes nothing in the log and ends with the replay of all of it |
| Replicas.AtMostOneCommits | src/adapters/postgres_store.rs:423-428 | of two non-empty batches prepared at one head at most one is ever appended, even if its writer never learns of it |
| Replicas.LostAnswerIsRecovered | src/application/app/mod.rs:170-182 | a writer that never learns of its commit and refreshes ends exactly as if it had learned |
| RateLimit.RateLimitState.Allow | src/interfaces/server.rs:89-114 | one call's effect and answer, with never more than 10,000 keys |
| RateLimit.SimulationStep | src/interfaces/server.rs:89-114 | a call with room is answered as by the unbounded limiter; evicted buckets had expired |
| RateLimit.RunSimulates | src/interfaces/server.rs:85-114 | for calls in order of time the bounded map simulates the unbounded one and keeps its size |
| RateLimit.AnswersAsUnbounded | src/interfaces/server.rs:85-114 | every call that finds room is answered as by an unbounded limiter run on the calls that found room |
| RateLimit.RunSameWindow | src/interfaces/server.rs:85-114 | the live bucket of a key is the window that its admitted calls tell, with the same start |
| RateLimit.RefusedForRoomIff | src/interfaces/server.rs:91-98 | a call is refused for lack of room iff its key is in no window and 10,000 keys are |
| RateLimit.AnswerExact | src/interfaces/server.rs:89-114 | every answer from the admitted calls alone: within a window of its key admitted iff that had fewer than 300, outside one iff fewer than 10,000 keys are in a window |
| RateLimit.RefusedForRoomMeansCrowd | src/interfaces/server.rs:91-98 | who is refused for lack of room meets 10,000 other keys, each with a call admitted in the last minute |
| RateLimit.AnyMinute | src/interfaces/server.rs:85-114 | any half-open minute admits fewer than 600 requests of a key |
| RateLimit.AnyMinuteIsTight | src/interfaces/server.rs:85-114 | some minute admits 599, so no smaller bound holds |
| RateLimit.MinuteWithinWindow | src/interfaces/server.rs:103-113 | a minute admits at most 300 requests of a key unless a window of the key starts strictly inside it |
| RateLimit.MinuteAfterSilence | src/interfaces/server.rs:103-113 | a minute that follows a minute without calls of the key admits at most 300 of its requests |
| RateLimit.AdmittedWhenFew | src/interfaces/server.rs:104-113 | a call with room is admitted if its key had fewer than 300 requests in the last minute |

## Left out

- Floating point: hours are exact reals and times integer milliseconds; `f64` rounding error, non-finite hours, chrono's date range and sub-millisecond instants are not modelled.
- The `attempts` of a delivery are unbounded here, a `u32` in the source.
- Events that are not modelled are `Other`, which is always accepted and changes nothing; in the source some of them can be refused, all of those before they write, and some write other parts of a flow's tasks.
- Principal and team look-ups in `apply` (as in `RemoteFlightAuthorized`, `FlowChangeProposed` and the message events) are not modelled; they precede every write of their arm.
- Task events that only set a status and a heartbeat are one action, `Progress`, and flow events that only set the flow's status another, `SetStatus`; reassignment, negotiated estimates, evidence and artifacts are not modelled.
- ChangePreview.NewTaskStartsLastIffNoneStranded: assumes that ids and keys are unique and that no key is another task's id; ids are fresh and keys come from plans, but nothing in the ledger compares the two for planned flows.
- Plans of other planners, the checks on who may propose or approve a change, the check that the flow is as it was previewed, and the limit of twenty new tasks are not modelled.
- Later changes to a flight lease's status are not modelled; no modelled event reads it.
- Review times, reasons, last errors and dispatch start times of external writes are not kept; no branch reads them.
- ExternalWrites.AtMostOneEffect: counts as effects a success, a failure reported as in doubt, and an expiry without safe retry; that a failure reported as certain was not applied is an assumption on the bridges (`src/adapters/office.rs:612-630`).
- ExternalWrites.StaleOutcomeRejected: assumes that the dispatch id was claimed once, as ids are fresh in the source (`src/application/app/office.rs:174`).
- LedgerLaws.ReplayKeepsUnique: assumes that planned flows come with unique ids and keys, as `schedule` builds them; `PlanGenerated` does not check it.
- Event kinds are one per group of events; envelope ids, actors, tenants, organizations and times are not modelled, nor is the uniqueness of envelope ids in the tables.
- Store.PostgresStore.ImportSnapshot: takes numbered events, as the one caller replays them first (`src/adapters/migration.rs:44-45`); rows, credentials and artifacts are opaque and given in query order.
- Store.PrepareBatch: that a batch can be too long to index is not modelled.
- `queue_events`, which adds notification events to a batch before it is prepared, only makes the batch longer and is not modelled.
- Rationales, confidences, descriptions, capabilities, requirement texts and the wording of titles are not modelled.
- HTTP, sign-in and SCIM surfaces, executors, sandboxes, bridges, cryptography, serialization and SQL are not modelled.
- Matching of assignees, dashboards, tracking, `validate_plan` and the front end are not modelled.
