/**
 * Rescheduling a flow of the ledger: `reschedule` computes a revision from the ledger, and the
 * ledger applies the event that carries it, as `src/application/app/calendars.rs` does for
 * every flow that a calendar change touches, and `approve_flow_change` of
 * `src/application/app/mod.rs` for the flow that a change extends.
 */
module Rescheduling {
  import opened Wrappers
  import opened Errors
  import opened Domain
  import opened Graph
  import opened Estimates
  import opened Scheduler
  import opened SchedulingLaws
  import opened FlowRevisions
  import opened Ledger
  import Store

  /**
   * Every task of the flow got its order-free estimate, which is the right one, the flow ends with
   * the work that is left, and nothing else about it changed.
   */
  ghost predicate IsRescheduled(before: Flow, after: Flow, staff: Staff, now: int) {
    && GraphAccepted(TaskJobs(before.tasks, now)) && AllEstimated(FlowPlan(before.tasks, staff, now))
    && after == before.(tasks := after.tasks, p50Finish := after.p50Finish, p80Finish := after.p80Finish,
                        criticalPath := after.criticalPath)
    && |after.tasks| == |before.tasks|
    && (forall i | 0 <= i < |before.tasks| ::
         && after.tasks[i] == before.tasks[i].(estimate := EstimateOf(FlowPlan(before.tasks, staff, now), i).value)
         && TaskEstimated(before.tasks, staff, now, TaskEstimates(after.tasks), i))
    && EndsWithWork(before.tasks, TaskEstimates(after.tasks), now, after.p50Finish, after.p80Finish)
    && IsCriticalPath(FlowPlan(before.tasks, staff, now), before.tasks, after.p80Finish, after.criticalPath)
    && (SoundCalendars(staff) ==> after.p50Finish <= after.p80Finish)
  }

  /**
   * With unique task ids and sequences left this succeeds iff the graph phase accepts the flow
   * and every task can be estimated; then exactly this flow is rescheduled. A failure changes nothing.
   */
  method RescheduleFlow(ledger: OrganizationState, flowId: string, staff: Staff, now: int)
    returns (r: Result<(), RelayError>)
    modifies ledger
    ensures flowId !in old(ledger.flows) ==> r == Err(NotFound(flowId))
    ensures flowId in old(ledger.flows) && Distinct(TaskIds(old(ledger.flows)[flowId].tasks)) ==>
      var flow := old(ledger.flows)[flowId];
      && (old(ledger.lastSequence) < MAX_SEQUENCE ==>
           (r.Ok? <==> flow.tasks != [] && GraphAccepted(TaskJobs(flow.tasks, now))
                       && AllEstimated(FlowPlan(flow.tasks, staff, now))))
      && (r.Ok? ==> flowId in ledger.flows && IsRescheduled(flow, ledger.flows[flowId], staff, now))
      && (r.Err? ==> ledger.Value() == old(ledger.Value()))
    ensures r.Ok? ==>
      var before, after := old(ledger.Value()), ledger.Value();
      && flowId in after.book.flows
      && after == before.(book := before.book.(flows := before.book.flows[flowId := after.book.flows[flowId]]),
                          lastSequence := before.lastSequence + 1)
  {
    hide GraphAccepted, FlowPlan, EstimateOf, AllEstimated, Revises, RescheduleRefused, ReviseFlow, Distinct, Handle,
      FlowRevisions.Step;
    if flowId !in ledger.flows {
      return Err(NotFound(flowId));
    }
    var flow := ledger.flows[flowId];
    var revision := ComputeReschedule(flow, staff, now);
    if revision.Err? {
      return Err(revision.error);
    }
    var a := Revise(flowId, revision.value);
    var sequence := ledger.lastSequence + 1;
    RevisionApplies(ledger.Value(), a, sequence);
    r := ledger.Apply(Envelope(Store.CURRENT_EVENT_VERSION, sequence, FlowKind, FlowEvent(a)));
    if Distinct(TaskIds(flow.tasks)) {
      RevisionReschedules(flow, revision.value, staff, now);
    }
  }

  /** What the ledger makes of a revision with estimates for exactly a flow's ids. */
  lemma RevisionApplies(s: State, a: FlowRevisions.Action, sequence: int)
    requires a.Revise? && a.flowId in s.book.flows && sequence == s.lastSequence + 1
    requires a.revision.taskEstimates.Keys == Elements(TaskIds(s.book.flows[a.flowId].tasks))
    ensures var flow := s.book.flows[a.flowId];
      var r := ApplyEvent(s, Envelope(Store.CURRENT_EVENT_VERSION, sequence, FlowKind, FlowEvent(a)));
      && (r.result.Ok? ==>
           r.state == s.(book := s.book.(flows := s.book.flows[a.flowId := ReviseFlow(flow, a.revision).state]),
                         lastSequence := sequence))
      && (r.result.Ok? <==> s.lastSequence < MAX_SEQUENCE && Distinct(TaskIds(flow.tasks)))
      && (r.result.Err? && Distinct(TaskIds(flow.tasks)) ==> r.state == s)
  {
    hide Handle, ReviseFlow, Distinct;
    FlowStep(s, a);
    RescheduleAcceptedIffUniqueIds(s.book.flows[a.flowId], a.revision);
  }

  lemma RevisionReschedules(flow: Flow, r: Reschedule, staff: Staff, now: int)
    requires Distinct(TaskIds(flow.tasks)) && r.taskEstimates.Keys == Elements(TaskIds(flow.tasks))
    requires GraphAccepted(TaskJobs(flow.tasks, now)) && AllEstimated(FlowPlan(flow.tasks, staff, now))
    requires Revises(FlowPlan(flow.tasks, staff, now), flow.tasks, r)
    ensures IsRescheduled(flow, ReviseFlow(flow, r).state, staff, now)
  {
    hide EstimateOf, ReviseFlow, Acyclic, EndsWithWork, IsCriticalPath, TaskEstimated, SoundCalendars, Latest, LastMax,
      CriticalKeys, Distinct, Elements, OpenIndices, OpenIds;
    RescheduleAcceptedIffUniqueIds(flow, r);
    AcceptedRevision(flow, r);
    var p, after := FlowPlan(flow.tasks, staff, now), ReviseFlow(flow, r).state;
    assert TaskEstimates(after.tasks) == AllEstimates(p);
    forall i | 0 <= i < |flow.tasks| ensures TaskEstimated(flow.tasks, staff, now, TaskEstimates(after.tasks), i) {
      TaskIsEstimated(flow.tasks, staff, now, i);
    }
    RevisionEndsWithWork(p, flow.tasks, r);
    RevisionPathIsCritical(p, flow.tasks, r);
    if SoundCalendars(staff) {
      RescheduleFinishes(flow.tasks, staff, now, r);
    }
  }

  // ------------------------------------------------------------------
  // Approved changes
  // ------------------------------------------------------------------

  /** New tasks enter the flow as assigned. */
  function AsAssigned(tasks: seq<Task>): (r: seq<Task>)
    ensures |r| == |tasks| && forall i | 0 <= i < |r| :: r[i] == tasks[i].(status := Assigned)
  {
    seq(|tasks|, i requires 0 <= i < |tasks| => tasks[i].(status := Assigned))
  }

  function Extended(flow: Flow, prd: string, newTasks: seq<Task>): Flow {
    flow.(tasks := flow.tasks + AsAssigned(newTasks), prd := prd)
  }

  /** The request is there, open, and its flow too. */
  predicate IsOpenRequest(b: Book, requestId: string) {
    && requestId in b.changes && b.changes[requestId].flowId in b.flows
    && b.changes[requestId].status == ChangeProposed
  }

  /** The tasks of the flow and behind them the new ones, assigned; they differ in estimates only. */
  ghost predicate IsExtended(tasks: seq<Task>, newTasks: seq<Task>, after: seq<Task>) {
    && |after| == |tasks| + |newTasks|
    && (forall i | 0 <= i < |tasks| :: after[i] == tasks[i].(estimate := after[i].estimate))
    && forall k | 0 <= k < |newTasks| ::
      var t := after[|tasks| + k];
      t == newTasks[k].(status := TaskStatus.Assigned, estimate := t.estimate)
  }

  lemma RescheduledIsExtended(flow: Flow, prd: string, newTasks: seq<Task>, after: Flow, staff: Staff, now: int)
    requires IsRescheduled(Extended(flow, prd, newTasks), after, staff, now)
    ensures IsExtended(flow.tasks, newTasks, after.tasks)
  {
    hide EstimateOf, FlowPlan, TaskEstimated, EndsWithWork, IsCriticalPath, AllEstimated, GraphAccepted;
    var extended := Extended(flow, prd, newTasks);
    forall i | 0 <= i < |extended.tasks|
      ensures after.tasks[i] == extended.tasks[i].(estimate := after.tasks[i].estimate)
    {
    }
  }

  /** What approving a request makes of the ledger: its flow extended and rescheduled, the request resolved. */
  ghost predicate IsApproved(before: State, after: State, requestId: string, prd: string, newTasks: seq<Task>,
                             approver: string, staff: Staff, now: int)
    requires IsOpenRequest(before.book, requestId)
  {
    var flowId := before.book.changes[requestId].flowId;
    && flowId in after.book.flows
    && IsRescheduled(Extended(before.book.flows[flowId], prd, newTasks), after.book.flows[flowId], staff, now)
    && after.book.flows[flowId].prd == prd
    && IsExtended(before.book.flows[flowId].tasks, newTasks, after.book.flows[flowId].tasks)
    && after == before.(
         book := Book(before.book.flows[flowId := after.book.flows[flowId]],
                      before.book.changes[requestId := before.book.changes[requestId].(
                        status := ChangeApplied, resolvedBy := Some(approver), resolvedAt := Some(now))]),
         lastSequence := before.lastSequence + 1)
  }

  /** When an open request of a flow with unique ids and keys is approved, given sequences left. */
  ghost predicate IsApprovable(flow: Flow, prd: string, newTasks: seq<Task>, staff: Staff, now: int) {
    var tasks := Extended(flow, prd, newTasks).tasks;
    && Addable(flow.tasks, AsAssigned(newTasks)) && tasks != []
    && GraphAccepted(TaskJobs(tasks, now)) && AllEstimated(FlowPlan(tasks, staff, now))
  }

  /** The end of an approval, on the copy of the ledger that a commit projects on. */
  method ReviseExtended(projected: OrganizationState, requestId: string, prd: string, newTasks: seq<Task>,
                        approver: string, staff: Staff, now: int)
    returns (r: Result<(), RelayError>)
    requires IsOpenRequest(projected.Value().book, requestId)
    modifies projected
    ensures var flow := old(projected.flows)[old(projected.flowChanges)[requestId].flowId];
      UniqueTasks(flow.tasks) ==>
        && (old(projected.lastSequence) < MAX_SEQUENCE ==>
             (r.Ok? <==> IsApprovable(flow, prd, newTasks, staff, now)))
        && (r.Ok? ==> IsApproved(old(projected.Value()), projected.Value(), requestId, prd, newTasks,
                                  approver, staff, now))
  {
    hide GraphAccepted, FlowPlan, EstimateOf, AllEstimated, Revises, RescheduleRefused, ReviseFlow, Distinct, Handle,
      FlowRevisions.Step, Addable, UniqueTasks, IsRescheduled, ApplyEvent, AsAssigned, TaskJobs, TaskIds, Elements,
      IsExtended;
    var flowId := projected.flowChanges[requestId].flowId;
    var flow := projected.flows[flowId];
    var updated := Extended(flow, prd, newTasks);
    var revision := ComputeReschedule(updated, staff, now);
    if UniqueTasks(flow.tasks) && Addable(flow.tasks, AsAssigned(newTasks)) {
      ExtensionIsUnique(flow, prd, newTasks);
    }
    if revision.Err? {
      return Err(revision.error);
    }
    var a := FlowRevisions.Apply(flowId, requestId, prd, AsAssigned(newTasks), approver, now, revision.value);
    var sequence := projected.lastSequence + 1;
    if UniqueTasks(flow.tasks) {
      ChangeApplies(projected.Value(), a, sequence);
    }
    r := projected.Apply(Envelope(Store.CURRENT_EVENT_VERSION, sequence, FlowKind, FlowEvent(a)));
    if UniqueTasks(flow.tasks) && r.Ok? {
      RevisionReschedules(updated, revision.value, staff, now);
      RescheduledIsExtended(flow, prd, newTasks, projected.flows[flowId], staff, now);
    }
  }

  /**
   * Works on a copy of the ledger, as a commit does. For a flow with unique ids and keys and
   * with sequences left, this succeeds iff the request is open, its tasks can be added, and the
   * extended flow can be rescheduled.
   */
  method ApproveChange(ledger: OrganizationState, requestId: string, prd: string, newTasks: seq<Task>,
                       approver: string, staff: Staff, now: int)
    returns (r: Result<(), RelayError>, projected: OrganizationState)
    ensures fresh(projected)
    ensures r.Ok? ==> IsOpenRequest(ledger.Value().book, requestId)
    ensures IsOpenRequest(ledger.Value().book, requestId) ==>
      var flow := ledger.flows[ledger.flowChanges[requestId].flowId];
      UniqueTasks(flow.tasks) ==>
        && (ledger.lastSequence < MAX_SEQUENCE ==> (r.Ok? <==> IsApprovable(flow, prd, newTasks, staff, now)))
        && (r.Ok? ==> IsApproved(ledger.Value(), projected.Value(), requestId, prd, newTasks, approver, staff, now))
  {
    hide IsApproved, IsApprovable, UniqueTasks;
    projected := new OrganizationState.Clone(ledger);
    if requestId !in ledger.flowChanges {
      return Err(NotFound(requestId)), projected;
    }
    var flowId := ledger.flowChanges[requestId].flowId;
    if flowId !in ledger.flows {
      return Err(NotFound(flowId)), projected;
    }
    if ledger.flowChanges[requestId].status != ChangeProposed {
      return Err(InvalidTransition(requestId)), projected;
    }
    r := ReviseExtended(projected, requestId, prd, newTasks, approver, staff, now);
  }

  lemma ExtensionIsUnique(flow: Flow, prd: string, newTasks: seq<Task>)
    requires UniqueTasks(flow.tasks) && Addable(flow.tasks, AsAssigned(newTasks))
    ensures Distinct(TaskIds(Extended(flow, prd, newTasks).tasks))
  {
    hide Distinct, Addable;
    PushTasksOkIffAddable(flow.tasks, AsAssigned(newTasks));
    PushTasksKeepsUnique(flow.tasks, AsAssigned(newTasks));
  }

  /** What the ledger makes of a change whose revision has estimates for exactly the extended flow's ids. */
  lemma ChangeApplies(s: State, a: FlowRevisions.Action, sequence: int)
    requires a.Apply? && IsOpenRequest(s.book, a.requestId) && a.flowId == s.book.changes[a.requestId].flowId
    requires UniqueTasks(s.book.flows[a.flowId].tasks) && sequence == s.lastSequence + 1
    requires a.revision.taskEstimates.Keys == Elements(TaskIds(s.book.flows[a.flowId].tasks + a.newTasks))
    ensures var flow := s.book.flows[a.flowId];
      var extended := flow.(tasks := flow.tasks + a.newTasks, prd := a.prd);
      var r := ApplyEvent(s, Envelope(Store.CURRENT_EVENT_VERSION, sequence, FlowKind, FlowEvent(a)));
      && (r.result.Ok? <==> s.lastSequence < MAX_SEQUENCE && Addable(flow.tasks, a.newTasks))
      && (r.result.Ok? ==>
           && Distinct(TaskIds(extended.tasks)) && ReviseFlow(extended, a.revision).state.prd == a.prd
           && r.state == s.(
                book := Book(s.book.flows[a.flowId := ReviseFlow(extended, a.revision).state],
                             s.book.changes[a.requestId := s.book.changes[a.requestId].(
                               status := ChangeApplied, resolvedBy := Some(a.appliedBy),
                               resolvedAt := Some(a.appliedAt))]),
                lastSequence := sequence))
  {
    hide Handle, Distinct, ReviseTasks, PushTasks, Addable, Elements;
    FlowStep(s, a);
    ChangeAppliesIffAddable(s.book, a);
    PushTasksOkIffAddable(s.book.flows[a.flowId].tasks, a.newTasks);
    PushTasksKeepsUnique(s.book.flows[a.flowId].tasks, a.newTasks);
  }
}
