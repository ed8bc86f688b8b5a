/**
 * Flows in the ledger: schedule revisions and change requests, `src/core/state.rs`
 * lines 484-494, 566-580, 613-685, 1351-1355 and 1613-1637. A failing step leaves what it already wrote.
 */
module FlowRevisions {
  import opened Wrappers
  import opened Errors
  import opened Domain
  import opened Graph
  import opened Scheduler

  /** What `reschedule` returns is what an event carries. */
  type Revision = Reschedule

  datatype ChangeStatus = ChangeProposed | ChangeApplied | ChangeRejected

  datatype ChangeRequest = ChangeRequest(
    id: string,
    flowId: string,
    status: ChangeStatus,
    resolvedBy: Option<string>,
    resolvedAt: Option<int>,
    rejectionReason: Option<string>
  )

  datatype Book = Book(flows: map<string, Flow>, changes: map<string, ChangeRequest>)

  datatype Action =
    | Plan(flow: Flow)
    | SetStatus(flowId: string, flowStatus: FlowStatus)
    | AcceptTask(flowId: string, taskId: string, acceptedAt: int)
    | Progress(flowId: string, taskId: string, status: Option<TaskStatus>, heartbeat: Option<int>)
    | Revise(flowId: string, revision: Revision)
    | Propose(request: ChangeRequest)
    | Apply(flowId: string, requestId: string, prd: string, newTasks: seq<Task>,
            appliedBy: string, appliedAt: int, revision: Revision)
    | Refuse(flowId: string, requestId: string, rejectedBy: string, reason: string, rejectedAt: int)

  // ------------------------------------------------------------------
  // Schedule revisions
  // ------------------------------------------------------------------

  /** Overwrites estimates task by task and stops at the first task without one. */
  function ReviseTasks(tasks: seq<Task>, estimates: map<string, Estimate>): Outcome<seq<Task>> {
    if tasks == [] then Accept([])
    else
      var first := tasks[0];
      if first.id !in estimates then Deny(tasks, Validation(RevisionWithoutEstimate(first.id)))
      else
        var rest := ReviseTasks(tasks[1..], estimates);
        Outcome([first.(estimate := estimates[first.id])] + rest.state, rest.result)
  }

  function ReviseFlow(flow: Flow, r: Revision): Outcome<Flow> {
    var tasks := ReviseTasks(flow.tasks, r.taskEstimates);
    if tasks.result.Err? then Outcome(flow.(tasks := tasks.state), tasks.result)
    else if |r.taskEstimates| != |flow.tasks| then
      Deny(flow.(tasks := tasks.state), Validation(RevisionWithUnexpectedTasks(flow.id)))
    else
      Accept(flow.(tasks := tasks.state, criticalPath := r.criticalPath,
                   p50Finish := r.p50Finish, p80Finish := r.p80Finish))
  }

  lemma {:induction false} ReviseTasksMeaning(tasks: seq<Task>, estimates: map<string, Estimate>)
    ensures var r := ReviseTasks(tasks, estimates);
      && |r.state| == |tasks| && TaskIds(r.state) == TaskIds(tasks) && TaskKeys(r.state) == TaskKeys(tasks)
      && (r.result.Ok? <==> forall t | t in tasks :: t.id in estimates)
      && (r.result.Ok? ==> forall i | 0 <= i < |tasks| ::
           tasks[i].id in estimates && r.state[i] == tasks[i].(estimate := estimates[tasks[i].id]))
  {
    if tasks != [] {
      ReviseTasksMeaning(tasks[1..], estimates);
      assert tasks == [tasks[0]] + tasks[1..];
      var r := ReviseTasks(tasks, estimates);
      forall i | 0 <= i < |tasks| ensures r.state[i].id == tasks[i].id && r.state[i].key == tasks[i].key {
        if i > 0 && tasks[0].id in estimates {
          var rest := ReviseTasks(tasks[1..], estimates).state;
          assert TaskIds(rest)[i - 1] == TaskIds(tasks[1..])[i - 1];
          assert TaskKeys(rest)[i - 1] == TaskKeys(tasks[1..])[i - 1];
        }
      }
    }
  }

  /** The first `done` tasks carry their new estimates, the others are as they were. */
  ghost predicate RevisedUpTo(tasks: seq<Task>, estimates: map<string, Estimate>, done: nat, revised: seq<Task>) {
    && done <= |tasks| == |revised|
    && (forall k | 0 <= k < done ::
         tasks[k].id in estimates && revised[k] == tasks[k].(estimate := estimates[tasks[k].id]))
    && forall k | done <= k < |tasks| :: revised[k] == tasks[k]
  }

  /** Where an overwriting loop stops, and what it leaves. */
  lemma {:induction false} RevisedIsReviseTasks(tasks: seq<Task>, estimates: map<string, Estimate>, done: nat,
                                                revised: seq<Task>)
    requires RevisedUpTo(tasks, estimates, done, revised) && (done < |tasks| ==> tasks[done].id !in estimates)
    ensures ReviseTasks(tasks, estimates) ==
      Outcome(revised, if done == |tasks| then Ok(()) else Err(Validation(RevisionWithoutEstimate(tasks[done].id))))
  {
    if done > 0 {
      RevisedIsReviseTasks(tasks[1..], estimates, done - 1, revised[1..]);
      assert revised == [revised[0]] + revised[1..];
    } else {
      assert revised == tasks;
    }
  }

  /**
   * A revision whose estimates carry exactly the flow's task ids, as `reschedule` returns,
   * is accepted iff those ids are unique.
   */
  lemma RescheduleAcceptedIffUniqueIds(flow: Flow, r: Revision)
    requires r.taskEstimates.Keys == Elements(TaskIds(flow.tasks))
    ensures ReviseFlow(flow, r).result.Ok? <==> Distinct(TaskIds(flow.tasks))
    ensures |ReviseFlow(flow, r).state.tasks| == |flow.tasks|
    ensures ReviseFlow(flow, r).result.Ok? ==>
      forall i | 0 <= i < |flow.tasks| ::
        && flow.tasks[i].id in r.taskEstimates
        && ReviseFlow(flow, r).state.tasks[i] == flow.tasks[i].(estimate := r.taskEstimates[flow.tasks[i].id])
  {
    ReviseTasksMeaning(flow.tasks, r.taskEstimates);
    forall t | t in flow.tasks ensures t.id in r.taskEstimates {
      var i :| 0 <= i < |flow.tasks| && flow.tasks[i] == t;
      assert TaskIds(flow.tasks)[i] == t.id;
    }
    DistinctCardinality(TaskIds(flow.tasks));
  }

  /** An accepted revision brings the flow's finishes and critical path, and nothing but estimates beside them. */
  lemma AcceptedRevision(flow: Flow, r: Revision)
    requires ReviseFlow(flow, r).result.Ok?
    ensures var after := ReviseFlow(flow, r).state;
      && after.p50Finish == r.p50Finish && after.p80Finish == r.p80Finish && after.criticalPath == r.criticalPath
      && after == flow.(tasks := after.tasks, p50Finish := after.p50Finish, p80Finish := after.p80Finish,
                        criticalPath := after.criticalPath)
  {
  }

  // ------------------------------------------------------------------
  // Change requests
  // ------------------------------------------------------------------

  /** A task that a flow does not take: its id names one of the flow's tasks, or its key is theirs. */
  predicate Taken(tasks: seq<Task>, t: Task) {
    FindTask(tasks, t.id).Some? || exists e :: e in tasks && e.key == t.key
  }

  /** Pushes new tasks one by one and stops at the first duplicate. */
  function PushTasks(tasks: seq<Task>, newTasks: seq<Task>): Outcome<seq<Task>>
    decreases |newTasks|
  {
    if newTasks == [] then Accept(tasks)
    else
      var t := newTasks[0];
      if Taken(tasks, t) then
        Deny(tasks, Validation(DuplicateTask(t.key)))
      else PushTasks(tasks + [t], newTasks[1..])
  }

  ghost predicate UniqueTasks(tasks: seq<Task>) {
    Distinct(TaskIds(tasks)) && Distinct(TaskKeys(tasks))
  }

  lemma {:induction false} PushTasksKeepsUnique(tasks: seq<Task>, newTasks: seq<Task>)
    requires UniqueTasks(tasks)
    ensures UniqueTasks(PushTasks(tasks, newTasks).state)
    ensures PushTasks(tasks, newTasks).result.Ok? ==> PushTasks(tasks, newTasks).state == tasks + newTasks
    decreases |newTasks|
  {
    if newTasks == [] {
      assert tasks + newTasks == tasks;
    } else {
      var t := newTasks[0];
      if !Taken(tasks, t) {
        forall i | 0 <= i < |tasks| ensures tasks[i].id != t.id && tasks[i].key != t.key {
          assert tasks[i] in tasks;
        }
        PushTasksKeepsUnique(tasks + [t], newTasks[1..]);
        assert (tasks + [t]) + newTasks[1..] == tasks + newTasks;
      }
    }
  }

  /** Each new task brings an id that no task before it has as id or key, and a key that none has. */
  ghost predicate Addable(tasks: seq<Task>, newTasks: seq<Task>) {
    var all := tasks + newTasks;
    forall i, j | |tasks| <= i < |all| && 0 <= j < i ::
      all[j].id != all[i].id && all[j].key != all[i].id && all[j].key != all[i].key
  }

  lemma {:induction false} PushTasksOkIffAddable(tasks: seq<Task>, newTasks: seq<Task>)
    ensures PushTasks(tasks, newTasks).result.Ok? <==> Addable(tasks, newTasks)
    decreases |newTasks|
  {
    var all := tasks + newTasks;
    if newTasks != [] {
      var t := newTasks[0];
      assert all[|tasks|] == t;
      assert (tasks + [t]) + newTasks[1..] == all;
      if Taken(tasks, t) {
        var e :| e in tasks && (e.id == t.id || e.key == t.id || e.key == t.key);
        var j :| 0 <= j < |tasks| && tasks[j] == e;
        assert all[j] == e;
      } else {
        forall j | 0 <= j < |tasks| ensures all[j].id != t.id && all[j].key != t.id && all[j].key != t.key {
          assert all[j] in tasks;
        }
        PushTasksOkIffAddable(tasks + [t], newTasks[1..]);
      }
    }
  }

  /** A proposed change with a revision computed for the extended flow applies iff its tasks can be added. */
  lemma ChangeAppliesIffAddable(b: Book, a: Action)
    requires a.Apply? && a.requestId in b.changes && a.flowId in b.flows && UniqueTasks(b.flows[a.flowId].tasks)
    requires a.revision.taskEstimates.Keys == Elements(TaskIds(b.flows[a.flowId].tasks + a.newTasks))
    requires b.changes[a.requestId].flowId == a.flowId && b.changes[a.requestId].status == ChangeProposed
    ensures Step(b, a).result.Ok? <==> Addable(b.flows[a.flowId].tasks, a.newTasks)
    ensures Step(b, a).result.Ok? ==>
      && Step(b, a).state.changes == b.changes[a.requestId := b.changes[a.requestId].(
           status := ChangeApplied, resolvedBy := Some(a.appliedBy), resolvedAt := Some(a.appliedAt))]
      && TaskIds(Step(b, a).state.flows[a.flowId].tasks) == TaskIds(b.flows[a.flowId].tasks + a.newTasks)
  {
    hide ReviseFlow, PushTasks, Distinct, Elements;
    var flow := b.flows[a.flowId];
    PushTasksOkIffAddable(flow.tasks, a.newTasks);
    PushTasksKeepsUnique(flow.tasks, a.newTasks);
    var extended := flow.(tasks := PushTasks(flow.tasks, a.newTasks).state, prd := a.prd);
    if Addable(flow.tasks, a.newTasks) {
      RescheduleAcceptedIffUniqueIds(extended, a.revision);
      ReviseFlowKeepsIds(extended, a.revision);
    }
  }

  lemma ReviseFlowKeepsIds(flow: Flow, r: Revision)
    ensures TaskIds(ReviseFlow(flow, r).state.tasks) == TaskIds(flow.tasks)
    ensures TaskKeys(ReviseFlow(flow, r).state.tasks) == TaskKeys(flow.tasks)
  {
    ReviseTasksMeaning(flow.tasks, r.taskEstimates);
  }

  /** Reports on the first task of a name, its id or key. */
  function UpdateTask(tasks: seq<Task>, name: string, status: Option<TaskStatus>, heartbeat: Option<int>): seq<Task> {
    if tasks == [] then []
    else if tasks[0].id == name || tasks[0].key == name then
      var t := tasks[0];
      [t.(status := if status.Some? then status.value else t.status,
          lastHeartbeat := if heartbeat.Some? then heartbeat else t.lastHeartbeat)] + tasks[1..]
    else [tasks[0]] + UpdateTask(tasks[1..], name, status, heartbeat)
  }

  lemma {:induction false} UpdateTaskKeepsIds(tasks: seq<Task>, name: string, status: Option<TaskStatus>,
                                              heartbeat: Option<int>)
    ensures var r := UpdateTask(tasks, name, status, heartbeat);
      && |r| == |tasks| && (forall i | 0 <= i < |tasks| :: r[i].id == tasks[i].id && r[i].key == tasks[i].key)
      && TaskIds(r) == TaskIds(tasks) && TaskKeys(r) == TaskKeys(tasks)
  {
    if tasks != [] {
      UpdateTaskKeepsIds(tasks[1..], name, status, heartbeat);
    }
  }

  function Step(b: Book, a: Action): Outcome<Book> {
    match a
    case Plan(flow) => Accept(b.(flows := b.flows[flow.id := flow]))
    case SetStatus(flowId, status) =>
      if flowId !in b.flows then Deny(b, NotFound(flowId))
      else Accept(b.(flows := b.flows[flowId := b.flows[flowId].(status := status)]))
    case AcceptTask(flowId, taskId, at) =>
      if flowId !in b.flows then Deny(b, NotFound(flowId))
      else
        var flow := b.flows[flowId].(status := ActiveFlow);
        if FindTask(flow.tasks, taskId).None? then Deny(b.(flows := b.flows[flowId := flow]), NotFound(taskId))
        else
          var tasks := UpdateTask(flow.tasks, taskId, Some(Accepted), Some(at));
          Accept(b.(flows := b.flows[flowId := flow.(tasks := tasks)]))
    case Progress(flowId, taskId, status, heartbeat) =>
      if flowId !in b.flows then Deny(b, NotFound(flowId))
      else if FindTask(b.flows[flowId].tasks, taskId).None? then Deny(b, NotFound(taskId))
      else
        var flow := b.flows[flowId];
        Accept(b.(flows := b.flows[flowId := flow.(tasks := UpdateTask(flow.tasks, taskId, status, heartbeat))]))
    case Revise(flowId, revision) =>
      if flowId !in b.flows then Deny(b, NotFound(flowId))
      else
        var r := ReviseFlow(b.flows[flowId], revision);
        Outcome(b.(flows := b.flows[flowId := r.state]), r.result)
    case Propose(request) =>
      if request.flowId !in b.flows then Deny(b, NotFound(request.flowId))
      else Accept(b.(changes := b.changes[request.id := request]))
    case Apply(flowId, requestId, prd, newTasks, appliedBy, appliedAt, revision) =>
      if requestId !in b.changes then Deny(b, NotFound(requestId))
      else if b.changes[requestId].flowId != flowId || b.changes[requestId].status != ChangeProposed then
        Deny(b, InvalidTransition(requestId))
      else if flowId !in b.flows then Deny(b, NotFound(flowId))
      else
        var flow := b.flows[flowId];
        var pushed := PushTasks(flow.tasks, newTasks);
        if pushed.result.Err? then
          Outcome(b.(flows := b.flows[flowId := flow.(tasks := pushed.state)]), pushed.result)
        else
          var r := ReviseFlow(flow.(tasks := pushed.state, prd := prd), revision);
          var b' := b.(flows := b.flows[flowId := r.state]);
          if r.result.Err? then Outcome(b', r.result)
          else
            Accept(b'.(changes := b.changes[requestId := b.changes[requestId].(
              status := ChangeApplied, resolvedAt := Some(appliedAt), resolvedBy := Some(appliedBy))]))
    case Refuse(flowId, requestId, rejectedBy, reason, rejectedAt) =>
      if requestId !in b.changes then Deny(b, NotFound(requestId))
      else if b.changes[requestId].flowId != flowId || b.changes[requestId].status != ChangeProposed then
        Deny(b, InvalidTransition(requestId))
      else
        Accept(b.(changes := b.changes[requestId := b.changes[requestId].(
          status := ChangeRejected, resolvedAt := Some(rejectedAt), resolvedBy := Some(rejectedBy),
          rejectionReason := Some(reason))]))
  }

  // ------------------------------------------------------------------
  // What every step keeps
  // ------------------------------------------------------------------

  ghost predicate AllUnique(b: Book) {
    forall id | id in b.flows :: UniqueTasks(b.flows[id].tasks)
  }

  /** Even a refused step keeps ids and keys unique, as long as planned flows come in unique. */
  lemma StepKeepsUnique(b: Book, a: Action)
    requires AllUnique(b) && (a.Plan? ==> UniqueTasks(a.flow.tasks))
    ensures AllUnique(Step(b, a).state)
  {
    hide Distinct, FindTask, ReviseFlow, PushTasks, UpdateTask;
    match a
    case AcceptTask(flowId, taskId, at) =>
      if flowId in b.flows {
        UpdateTaskKeepsIds(b.flows[flowId].tasks, taskId, Some(Accepted), Some(at));
      }
    case Progress(flowId, taskId, status, heartbeat) =>
      if flowId in b.flows {
        UpdateTaskKeepsIds(b.flows[flowId].tasks, taskId, status, heartbeat);
      }
    case Revise(flowId, revision) =>
      if flowId in b.flows {
        ReviseFlowKeepsIds(b.flows[flowId], revision);
      }
    case Apply(flowId, requestId, prd, newTasks, _, _, revision) =>
      if flowId in b.flows {
        var flow := b.flows[flowId];
        PushTasksKeepsUnique(flow.tasks, newTasks);
        ReviseFlowKeepsIds(flow.(tasks := PushTasks(flow.tasks, newTasks).state, prd := prd), revision);
      }
    case _ =>
  }

  // ------------------------------------------------------------------
  // What a refused step leaves behind
  // ------------------------------------------------------------------

  /** The loop over the tasks gets as far as task i. */
  ghost predicate Reached(tasks: seq<Task>, estimates: map<string, Estimate>, i: nat): (r: bool)
    requires i < |tasks|
    ensures r ==> tasks[i].id in estimates
  {
    forall k | 0 <= k <= i :: tasks[k].id in estimates
  }

  /** Every estimate that the loop writes before it stops is the one that stood there. */
  ghost predicate HarmlessRevision(tasks: seq<Task>, estimates: map<string, Estimate>) {
    forall i | 0 <= i < |tasks| && Reached(tasks, estimates, i) :: tasks[i].estimate == estimates[tasks[i].id]
  }

  lemma {:induction false} ReviseTasksKeepsIffHarmless(tasks: seq<Task>, estimates: map<string, Estimate>)
    ensures ReviseTasks(tasks, estimates).state == tasks <==> HarmlessRevision(tasks, estimates)
  {
    if tasks != [] && tasks[0].id in estimates {
      var first, rest := tasks[0], tasks[1..];
      ReviseTasksKeepsIffHarmless(rest, estimates);
      HarmlessTail(tasks, estimates);
      var revised := ReviseTasks(tasks, estimates).state;
      assert revised[0] == first.(estimate := estimates[first.id]);
      assert revised[1..] == ReviseTasks(rest, estimates).state;
      assert tasks == [first] + rest && revised == [revised[0]] + revised[1..];
    }
  }

  lemma ReachedTail(tasks: seq<Task>, estimates: map<string, Estimate>, i: nat)
    requires i + 1 < |tasks| && tasks[0].id in estimates
    ensures Reached(tasks[1..], estimates, i) <==> Reached(tasks, estimates, i + 1)
  {
    assert forall k | 0 <= k <= i :: tasks[1..][k] == tasks[k + 1];
    assert forall k | 1 <= k <= i + 1 :: tasks[k] == tasks[1..][k - 1];
  }

  lemma HarmlessTail(tasks: seq<Task>, estimates: map<string, Estimate>)
    requires tasks != [] && tasks[0].id in estimates
    ensures HarmlessRevision(tasks, estimates) <==>
      tasks[0].estimate == estimates[tasks[0].id] && HarmlessRevision(tasks[1..], estimates)
  {
    hide Reached;
    var rest := tasks[1..];
    assert Reached(tasks, estimates, 0) by {
      FirstReached(tasks, estimates);
    }
    forall i | 0 <= i < |rest|
      ensures rest[i] == tasks[i + 1] && (Reached(rest, estimates, i) <==> Reached(tasks, estimates, i + 1))
    {
      ReachedTail(tasks, estimates, i);
    }
    if tasks[0].estimate == estimates[tasks[0].id] && HarmlessRevision(rest, estimates) {
      forall i | 0 <= i < |tasks| && Reached(tasks, estimates, i) ensures tasks[i].estimate == estimates[tasks[i].id] {
        assert i > 0 ==> Reached(rest, estimates, i - 1);
      }
    }
  }

  lemma FirstReached(tasks: seq<Task>, estimates: map<string, Estimate>)
    requires tasks != [] && tasks[0].id in estimates
    ensures Reached(tasks, estimates, 0)
  {
  }

  lemma {:induction false} PushTasksGrows(tasks: seq<Task>, newTasks: seq<Task>)
    ensures |tasks| <= |PushTasks(tasks, newTasks).state|
    ensures newTasks != [] ==> (PushTasks(tasks, newTasks).state == tasks <==> Taken(tasks, newTasks[0]))
    decreases |newTasks|
  {
    if newTasks != [] && !Taken(tasks, newTasks[0]) {
      PushTasksGrows(tasks + [newTasks[0]], newTasks[1..]);
    }
  }

  /**
   * Exactly when a refused step leaves the book as it was. Only three kinds of step can
   * write before they fail: revisions, applied changes, and the acceptance of a task.
   */
  ghost predicate Harmless(b: Book, a: Action) {
    match a
    case AcceptTask(flowId, _, _) => flowId in b.flows ==> b.flows[flowId].status == ActiveFlow
    case Revise(flowId, r) => flowId in b.flows ==> HarmlessRevision(b.flows[flowId].tasks, r.taskEstimates)
    case Apply(flowId, requestId, prd, newTasks, _, _, r) =>
      requestId in b.changes && b.changes[requestId].flowId == flowId
      && b.changes[requestId].status == ChangeProposed && flowId in b.flows ==>
        var flow := b.flows[flowId];
        if newTasks == [] then prd == flow.prd && HarmlessRevision(flow.tasks, r.taskEstimates)
        else Taken(flow.tasks, newTasks[0])
    case _ => true
  }

  lemma RefusalChangesNothingIffHarmless(b: Book, a: Action)
    requires Step(b, a).result.Err?
    ensures Step(b, a).state == b <==> Harmless(b, a)
  {
    hide PushTasks, HarmlessRevision, ReviseTasks, Taken;
    match a
    case AcceptTask(flowId, _, _) =>
      if flowId in b.flows {
        assert Step(b, a).state.flows[flowId] == b.flows[flowId].(status := ActiveFlow);
        SameFlows(b, flowId, Step(b, a).state.flows[flowId]);
      }
    case Revise(flowId, r) =>
      if flowId in b.flows {
        ReviseTasksKeepsIffHarmless(b.flows[flowId].tasks, r.taskEstimates);
        SameFlows(b, flowId, ReviseFlow(b.flows[flowId], r).state);
      }
    case Apply(flowId, requestId, prd, newTasks, _, _, r) =>
      if requestId in b.changes && b.changes[requestId].flowId == flowId
         && b.changes[requestId].status == ChangeProposed && flowId in b.flows
      {
        ChangeKeepsIffHarmless(b, a);
      }
    case _ =>
  }

  lemma SameFlows(b: Book, flowId: string, flow: Flow)
    requires flowId in b.flows
    ensures b.(flows := b.flows[flowId := flow]) == b <==> flow == b.flows[flowId]
  {
    assert b.flows[flowId := flow][flowId] == flow;
  }

  lemma ChangeKeepsIffHarmless(b: Book, a: Action)
    requires a.Apply? && Step(b, a).result.Err?
    requires a.requestId in b.changes && a.flowId in b.flows
    requires b.changes[a.requestId].flowId == a.flowId && b.changes[a.requestId].status == ChangeProposed
    ensures Step(b, a).state == b <==> Harmless(b, a)
  {
    hide HarmlessRevision, ReviseTasks, Taken;
    var flow := b.flows[a.flowId];
    PushTasksGrows(flow.tasks, a.newTasks);
    var pushed := PushTasks(flow.tasks, a.newTasks);
    if pushed.result.Err? {
      SameFlows(b, a.flowId, flow.(tasks := pushed.state));
    } else {
      var extended := flow.(tasks := pushed.state, prd := a.prd);
      SameFlows(b, a.flowId, ReviseFlow(extended, a.revision).state);
      ReviseFlowKeepsIds(extended, a.revision);
      assert |ReviseFlow(extended, a.revision).state.tasks| == |pushed.state|;
      ReviseTasksKeepsIffHarmless(flow.tasks, a.revision.taskEstimates);
      if a.newTasks != [] {
        PushedIsNotTaken(flow.tasks, a.newTasks);
      }
    }
  }

  lemma PushedIsNotTaken(tasks: seq<Task>, newTasks: seq<Task>)
    requires newTasks != [] && PushTasks(tasks, newTasks).result.Ok?
    ensures !Taken(tasks, newTasks[0]) && |tasks| < |PushTasks(tasks, newTasks).state|
  {
    PushTasksGrows(tasks + [newTasks[0]], newTasks[1..]);
  }

  /** A revision that misses an estimate has already overwritten the estimates before it. */
  lemma RefusedRevisionLeavesChanges()
    ensures exists b: Book, a: Action :: a.Revise? && Step(b, a).result.Err? && Step(b, a).state != b
  {
    var e0 := Estimate(0.0, 0.0, 0.0, 0, 0, 0);
    var e1 := e0.(p80Finish := 1);
    var t1 := Task("1", "a", "", [], false, None, e0, Proposed, None);
    var t2 := t1.(id := "2", key := "b");
    var flow := Flow("f", ActiveFlow, "", [t1, t2], 0, 0, []);
    var b := Book(map["f" := flow], map[]);
    var a := Revise("f", Reschedule(map["1" := e1], 0, 0, []));
    assert flow.tasks[1].id !in a.revision.taskEstimates;
    ReviseTasksMeaning(flow.tasks, a.revision.taskEstimates);
    assert Step(b, a).result.Err? by {
      assert t2 in flow.tasks;
    }
    assert flow.tasks[0].estimate != a.revision.taskEstimates[flow.tasks[0].id];
    RefusalChangesNothingIffHarmless(b, a);
  }
}
