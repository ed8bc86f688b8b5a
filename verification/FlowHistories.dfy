/**
 * Flows and change requests read off the events alone: which of the last events decides what,
 * and exactly when `apply` of `src/core/state.rs` accepts the next one.
 */
module FlowHistories {
  import opened Wrappers
  import opened Errors
  import opened Domain
  import opened Graph
  import opened Scheduler
  import opened FlowRevisions
  import opened Ledger
  import opened LedgerLaws

  // ------------------------------------------------------------------
  // One task
  // ------------------------------------------------------------------

  /** Task i is the first that goes by the name, as its id or its key. */
  ghost predicate FirstNamed(tasks: seq<Task>, name: string, i: nat) {
    && i < |tasks| && (tasks[i].id == name || tasks[i].key == name)
    && forall j | 0 <= j < i :: tasks[j].id != name && tasks[j].key != name
  }

  predicate HasNamed(tasks: seq<Task>, name: string) {
    exists t :: t in tasks && (t.id == name || t.key == name)
  }

  lemma {:induction false} FirstExists(tasks: seq<Task>, name: string) returns (i: nat)
    requires HasNamed(tasks, name)
    ensures FirstNamed(tasks, name, i)
  {
    if tasks[0].id == name || tasks[0].key == name {
      i := 0;
    } else {
      var rest := tasks[1..];
      assert HasNamed(rest, name) by {
        var t :| t in tasks && (t.id == name || t.key == name);
        assert tasks == [tasks[0]] + rest && t in rest;
      }
      i := FirstExists(rest, name);
      i := i + 1;
      assert forall j | 0 < j < i :: tasks[j] == rest[j - 1];
    }
  }

  /** A task with what an event reports of it. */
  function Reported(t: Task, status: Option<TaskStatus>, heartbeat: Option<int>): Task {
    t.(status := if status == None then t.status else status.value,
       lastHeartbeat := if heartbeat == None then t.lastHeartbeat else heartbeat)
  }

  lemma UpdateUnfolds(tasks: seq<Task>, name: string, status: Option<TaskStatus>, heartbeat: Option<int>)
    requires tasks != []
    ensures UpdateTask(tasks, name, status, heartbeat) ==
      if tasks[0].id == name || tasks[0].key == name then [Reported(tasks[0], status, heartbeat)] + tasks[1..]
      else [tasks[0]] + UpdateTask(tasks[1..], name, status, heartbeat)
  {
  }

  /** Exactly the first task of that name changes, and exactly in what was reported. */
  lemma {:induction false} UpdateTaskMeaning(tasks: seq<Task>, name: string, status: Option<TaskStatus>,
                                             heartbeat: Option<int>, i: nat)
    requires FirstNamed(tasks, name, i)
    ensures UpdateTask(tasks, name, status, heartbeat) == tasks[i := Reported(tasks[i], status, heartbeat)]
  {
    hide UpdateTask, Reported;
    UpdateUnfolds(tasks, name, status, heartbeat);
    if i > 0 {
      var rest, t := tasks[1..], Reported(tasks[i], status, heartbeat);
      assert forall j | 0 <= j < i :: rest[j] == tasks[j + 1];
      UpdateTaskMeaning(rest, name, status, heartbeat, i - 1);
      assert tasks[i := t] == [tasks[0]] + rest[i - 1 := t];
    } else {
      assert tasks[0 := Reported(tasks[0], status, heartbeat)] == [Reported(tasks[0], status, heartbeat)] + tasks[1..];
    }
  }

  /** A task that is accepted, or reported on, is the only one that changes; accepting it activates its flow. */
  lemma TaskEventTouchesOneTask(b: Book, a: Action) returns (i: nat)
    requires (a.AcceptTask? || a.Progress?) && Step(b, a).result.Ok?
    ensures a.flowId in b.flows && FirstNamed(b.flows[a.flowId].tasks, a.taskId, i)
    ensures var flow := b.flows[a.flowId];
      var t := flow.tasks[i];
      var t' := if a.AcceptTask? then t.(status := Accepted, lastHeartbeat := Some(a.acceptedAt))
                else t.(status := if a.status == None then t.status else a.status.value,
                        lastHeartbeat := if a.heartbeat == None then t.lastHeartbeat else a.heartbeat);
      Step(b, a).state == b.(flows := b.flows[a.flowId := flow.(
        tasks := flow.tasks[i := t'], status := if a.AcceptTask? then ActiveFlow else flow.status)])
  {
    hide UpdateTask;
    i := FirstExists(b.flows[a.flowId].tasks, a.taskId);
    if a.AcceptTask? {
      UpdateTaskMeaning(b.flows[a.flowId].tasks, a.taskId, Some(Accepted), Some(a.acceptedAt), i);
    } else {
      UpdateTaskMeaning(b.flows[a.flowId].tasks, a.taskId, a.status, a.heartbeat, i);
    }
  }

  // ------------------------------------------------------------------
  // What a history tells
  // ------------------------------------------------------------------

  ghost function Run(b: Book, h: seq<Action>): Result<Book, RelayError> {
    if h == [] then Ok(b)
    else
      var before := Run(b, h[..|h| - 1]);
      if before.Err? then before
      else
        var last := Step(before.value, h[|h| - 1]);
        if last.result.Err? then Err(last.result.error) else Ok(last.state)
  }

  /** The status of a flow is that of the last event that sets it; accepting a task makes its flow active. */
  ghost function StatusTold(h: seq<Action>, id: string): Option<FlowStatus> {
    if h == [] then None
    else
      match h[|h| - 1]
      case Plan(flow) => if flow.id == id then Some(flow.status) else StatusTold(h[..|h| - 1], id)
      case SetStatus(flowId, status) => if flowId == id then Some(status) else StatusTold(h[..|h| - 1], id)
      case AcceptTask(flowId, _, _) => if flowId == id then Some(ActiveFlow) else StatusTold(h[..|h| - 1], id)
      case _ => StatusTold(h[..|h| - 1], id)
  }

  /** Requirements come from the plan or the last change that was applied. */
  ghost function PrdTold(h: seq<Action>, id: string): Option<string> {
    if h == [] then None
    else
      match h[|h| - 1]
      case Plan(flow) => if flow.id == id then Some(flow.prd) else PrdTold(h[..|h| - 1], id)
      case Apply(flowId, _, prd, _, _, _, _) => if flowId == id then Some(prd) else PrdTold(h[..|h| - 1], id)
      case _ => PrdTold(h[..|h| - 1], id)
  }

  datatype Ends = Ends(p50Finish: int, p80Finish: int, criticalPath: seq<string>)

  /** Finishes and critical path come from the plan or the last revision, an applied change's included. */
  ghost function EndsTold(h: seq<Action>, id: string): Option<Ends> {
    if h == [] then None
    else
      match h[|h| - 1]
      case Plan(flow) =>
        if flow.id == id then Some(Ends(flow.p50Finish, flow.p80Finish, flow.criticalPath))
        else EndsTold(h[..|h| - 1], id)
      case Revise(flowId, r) =>
        if flowId == id then Some(Ends(r.p50Finish, r.p80Finish, r.criticalPath)) else EndsTold(h[..|h| - 1], id)
      case Apply(flowId, _, _, _, _, _, r) =>
        if flowId == id then Some(Ends(r.p50Finish, r.p80Finish, r.criticalPath)) else EndsTold(h[..|h| - 1], id)
      case _ => EndsTold(h[..|h| - 1], id)
  }

  /** The first task of that name with the report on it, the others as they were. */
  ghost function WithReport(tasks: seq<Task>, name: string, status: Option<TaskStatus>, heartbeat: Option<int>):
    seq<Task>
  {
    seq(|tasks|, i requires 0 <= i < |tasks| =>
      if FirstNamed(tasks, name, i) then Reported(tasks[i], status, heartbeat) else tasks[i])
  }

  /** Every task with the estimate that the revision has for its id. */
  ghost function WithEstimates(tasks: seq<Task>, estimates: map<string, Estimate>): seq<Task> {
    seq(|tasks|, i requires 0 <= i < |tasks| =>
      if tasks[i].id in estimates then tasks[i].(estimate := estimates[tasks[i].id]) else tasks[i])
  }

  /** The tasks of a flow: as planned, with what was added, reported and estimated since. */
  ghost function TasksTold(h: seq<Action>, id: string): seq<Task> {
    if h == [] then []
    else
      var before := TasksTold(h[..|h| - 1], id);
      match h[|h| - 1]
      case Plan(flow) => if flow.id == id then flow.tasks else before
      case AcceptTask(flowId, name, at) =>
        if flowId == id then WithReport(before, name, Some(Accepted), Some(at)) else before
      case Progress(flowId, name, status, heartbeat) =>
        if flowId == id then WithReport(before, name, status, heartbeat) else before
      case Revise(flowId, r) => if flowId == id then WithEstimates(before, r.taskEstimates) else before
      case Apply(flowId, _, _, newTasks, _, _, r) =>
        if flowId == id then WithEstimates(before + newTasks, r.taskEstimates) else before
      case _ => before
  }

  /** A request stands as it was proposed, or as the one event after that resolved it. */
  ghost function RequestTold(h: seq<Action>, id: string): Option<ChangeRequest> {
    if h == [] then None
    else
      var before := RequestTold(h[..|h| - 1], id);
      match h[|h| - 1]
      case Propose(request) => if request.id == id then Some(request) else before
      case Apply(_, requestId, _, _, resolver, at, _) =>
        if requestId != id || before.None? then before
        else Some(before.value.(status := ChangeApplied, resolvedBy := Some(resolver), resolvedAt := Some(at)))
      case Refuse(_, requestId, resolver, reason, at) =>
        if requestId != id || before.None? then before
        else Some(before.value.(status := ChangeRejected, resolvedBy := Some(resolver), resolvedAt := Some(at),
                                rejectionReason := Some(reason)))
      case _ => before
  }

  /** The book holds the flows and requests that the history tells. */
  ghost predicate TellsFlow(h: seq<Action>, b: Book, id: string) {
    if id !in b.flows then StatusTold(h, id).None?
    else
      && StatusTold(h, id).Some? && PrdTold(h, id).Some? && EndsTold(h, id).Some?
      && b.flows[id] == Flow(id, StatusTold(h, id).value, PrdTold(h, id).value, TasksTold(h, id),
                             EndsTold(h, id).value.p50Finish, EndsTold(h, id).value.p80Finish,
                             EndsTold(h, id).value.criticalPath)
  }

  ghost predicate TellsRequest(h: seq<Action>, b: Book, id: string) {
    && (id in b.changes <==> RequestTold(h, id).Some?)
    && (id in b.changes ==> RequestTold(h, id) == Some(b.changes[id]))
  }

  lemma ReportTold(tasks: seq<Task>, name: string, status: Option<TaskStatus>, heartbeat: Option<int>)
    requires FindTask(tasks, name).Some?
    ensures UpdateTask(tasks, name, status, heartbeat) == WithReport(tasks, name, status, heartbeat)
  {
    hide UpdateTask, Reported;
    var i := FirstExists(tasks, name);
    UpdateTaskMeaning(tasks, name, status, heartbeat, i);
  }

  lemma RevisionTold(flow: Flow, r: Revision)
    requires ReviseFlow(flow, r).result.Ok?
    ensures ReviseFlow(flow, r).state == flow.(
      tasks := WithEstimates(flow.tasks, r.taskEstimates), p50Finish := r.p50Finish, p80Finish := r.p80Finish,
      criticalPath := r.criticalPath)
  {
    hide ReviseTasks;
    ReviseTasksMeaning(flow.tasks, r.taskEstimates);
    assert ReviseFlow(flow, r).state.tasks == WithEstimates(flow.tasks, r.taskEstimates);
  }

  lemma FlowToldStep(h: seq<Action>, b: Book, a: Action, id: string)
    requires TellsFlow(h, b, id) && Step(b, a).result.Ok?
    ensures TellsFlow(h + [a], Step(b, a).state, id)
  {
    hide ReviseFlow, PushTasks, UpdateTask, WithReport, WithEstimates, FindTask;
    assert (h + [a])[..|h|] == h;
    match a
    case AcceptTask(flowId, name, at) =>
      ReportTold(b.flows[flowId].tasks, name, Some(Accepted), Some(at));
    case Progress(flowId, name, status, heartbeat) =>
      ReportTold(b.flows[flowId].tasks, name, status, heartbeat);
    case Revise(flowId, revision) =>
      RevisionTold(b.flows[flowId], revision);
    case Apply(flowId, requestId, prd, newTasks, _, _, revision) =>
      var flow := b.flows[flowId];
      PushedTasks(flow.tasks, newTasks);
      RevisionTold(flow.(tasks := flow.tasks + newTasks, prd := prd), revision);
    case _ =>
  }

  lemma RequestToldStep(h: seq<Action>, b: Book, a: Action, id: string)
    requires TellsRequest(h, b, id) && Step(b, a).result.Ok?
    ensures TellsRequest(h + [a], Step(b, a).state, id)
  {
    hide ReviseFlow, PushTasks, UpdateTask, FindTask;
    assert (h + [a])[..|h|] == h;
  }

  /** After every run, flows and requests are what the history tells. */
  lemma {:induction false} BookIsTold(h: seq<Action>, id: string)
    requires Run(EMPTY.book, h).Ok?
    ensures TellsFlow(h, Run(EMPTY.book, h).value, id) && TellsRequest(h, Run(EMPTY.book, h).value, id)
  {
    hide Step;
    if h != [] {
      var init, last := h[..|h| - 1], h[|h| - 1];
      BookIsTold(init, id);
      FlowToldStep(init, Run(EMPTY.book, init).value, last, id);
      RequestToldStep(init, Run(EMPTY.book, init).value, last, id);
      assert h == init + [last];
    }
  }

  // ------------------------------------------------------------------
  // Exactly which step is accepted
  // ------------------------------------------------------------------

  /** A revision gives an estimate to every task, and to nothing else. */
  predicate FitsTasks(r: Revision, tasks: seq<Task>) {
    (forall t | t in tasks :: t.id in r.taskEstimates) && |r.taskEstimates| == |tasks|
  }

  predicate IsOpen(request: Option<ChangeRequest>, flowId: string) {
    request.Some? && request.value.flowId == flowId && request.value.status == ChangeProposed
  }

  /** What the next action needs, from the requests and the tasks of the flows so far. */
  ghost predicate Acceptable(h: seq<Action>, flows: map<string, Flow>, a: Action) {
    match a
    case Plan(_) => true
    case SetStatus(flowId, _) => flowId in flows
    case AcceptTask(flowId, taskId, _) => flowId in flows && HasNamed(flows[flowId].tasks, taskId)
    case Progress(flowId, taskId, _, _) => flowId in flows && HasNamed(flows[flowId].tasks, taskId)
    case Revise(flowId, r) => flowId in flows && FitsTasks(r, flows[flowId].tasks)
    case Propose(request) => request.flowId in flows
    case Apply(flowId, requestId, _, newTasks, _, _, r) =>
      && IsOpen(RequestTold(h, requestId), flowId) && flowId in flows
      && Addable(flows[flowId].tasks, newTasks) && FitsTasks(r, flows[flowId].tasks + newTasks)
    case Refuse(flowId, requestId, _, _, _) => IsOpen(RequestTold(h, requestId), flowId)
  }

  /** A revision is refused for the first task without an estimate, or for estimates of no task. */
  ghost predicate RevisionRefusedFor(flowId: string, tasks: seq<Task>, r: Revision, error: RelayError) {
    if forall t | t in tasks :: t.id in r.taskEstimates then error == Validation(RevisionWithUnexpectedTasks(flowId))
    else exists i | 0 <= i < |tasks| ::
      && tasks[i].id !in r.taskEstimates && error == Validation(RevisionWithoutEstimate(tasks[i].id))
      && forall j | 0 <= j < i :: tasks[j].id in r.taskEstimates
  }

  /** Added one by one, new task k is the first that cannot be. */
  ghost predicate FirstNotAddable(tasks: seq<Task>, newTasks: seq<Task>, k: nat) {
    k < |newTasks| && Addable(tasks, newTasks[..k]) && !Addable(tasks, newTasks[..k + 1])
  }

  /** What a refusal says. */
  ghost predicate RefusedFor(h: seq<Action>, flows: map<string, Flow>, a: Action, error: RelayError) {
    match a
    case Plan(_) => false
    case SetStatus(flowId, _) => error == NotFound(flowId)
    case AcceptTask(flowId, taskId, _) => error == NotFound(if flowId in flows then taskId else flowId)
    case Progress(flowId, taskId, _, _) => error == NotFound(if flowId in flows then taskId else flowId)
    case Revise(flowId, r) =>
      if flowId !in flows then error == NotFound(flowId)
      else RevisionRefusedFor(flows[flowId].id, flows[flowId].tasks, r, error)
    case Propose(request) => error == NotFound(request.flowId)
    case Apply(flowId, requestId, _, newTasks, _, _, r) =>
      if RequestTold(h, requestId).None? then error == NotFound(requestId)
      else if !IsOpen(RequestTold(h, requestId), flowId) then error == InvalidTransition(requestId)
      else if flowId !in flows then error == NotFound(flowId)
      else if Addable(flows[flowId].tasks, newTasks) then
        RevisionRefusedFor(flows[flowId].id, flows[flowId].tasks + newTasks, r, error)
      else exists k: nat ::
        FirstNotAddable(flows[flowId].tasks, newTasks, k) && error == Validation(DuplicateTask(newTasks[k].key))
    case Refuse(_, requestId, _, _, _) =>
      error == if RequestTold(h, requestId).None? then NotFound(requestId) else InvalidTransition(requestId)
  }

  lemma {:induction false} PushedTasks(tasks: seq<Task>, newTasks: seq<Task>)
    ensures PushTasks(tasks, newTasks).result.Ok? ==> PushTasks(tasks, newTasks).state == tasks + newTasks
    decreases |newTasks|
  {
    if newTasks == [] {
      assert tasks + newTasks == tasks;
    } else {
      PushedTasks(tasks + [newTasks[0]], newTasks[1..]);
      assert (tasks + [newTasks[0]]) + newTasks[1..] == tasks + newTasks;
    }
  }

  lemma {:induction false} PushRefusedForFirst(tasks: seq<Task>, newTasks: seq<Task>) returns (k: nat)
    requires PushTasks(tasks, newTasks).result.Err?
    ensures FirstNotAddable(tasks, newTasks, k)
    ensures PushTasks(tasks, newTasks).result == Err(Validation(DuplicateTask(newTasks[k].key)))
    decreases |newTasks|
  {
    hide Addable, Taken;
    var t := newTasks[0];
    assert newTasks[..0] == [] && newTasks[..1] == [t];
    if Taken(tasks, t) {
      k := 0;
      PushTasksOkIffAddable(tasks, []);
      PushTasksOkIffAddable(tasks, [t]);
    } else {
      k := PushRefusedForFirst(tasks + [t], newTasks[1..]);
      AddableShifts(tasks, newTasks, k);
      AddableShifts(tasks, newTasks, k + 1);
      k := k + 1;
    }
  }

  lemma AddableShifts(tasks: seq<Task>, newTasks: seq<Task>, k: nat)
    requires k < |newTasks| && !Taken(tasks, newTasks[0])
    ensures Addable(tasks, newTasks[..k + 1]) <==> Addable(tasks + [newTasks[0]], newTasks[1..][..k])
  {
    hide Addable, Taken;
    PushTasksOkIffAddable(tasks, newTasks[..k + 1]);
    PushTasksOkIffAddable(tasks + [newTasks[0]], newTasks[1..][..k]);
    assert newTasks[..k + 1][0] == newTasks[0] && newTasks[..k + 1][1..] == newTasks[1..][..k];
  }

  lemma {:induction false} RevisionStopsAtFirst(tasks: seq<Task>, estimates: map<string, Estimate>) returns (i: nat)
    requires ReviseTasks(tasks, estimates).result.Err?
    ensures i < |tasks| && tasks[i].id !in estimates && forall j | 0 <= j < i :: tasks[j].id in estimates
    ensures ReviseTasks(tasks, estimates).result == Err(Validation(RevisionWithoutEstimate(tasks[i].id)))
  {
    if tasks[0].id !in estimates {
      i := 0;
    } else {
      i := RevisionStopsAtFirst(tasks[1..], estimates);
      assert forall j | 0 < j <= i :: tasks[j] == tasks[1..][j - 1];
      i := i + 1;
    }
  }

  lemma RevisionAcceptedIff(flow: Flow, r: Revision)
    ensures ReviseFlow(flow, r).result.Ok? <==> FitsTasks(r, flow.tasks)
    ensures ReviseFlow(flow, r).result.Err? ==>
      RevisionRefusedFor(flow.id, flow.tasks, r, ReviseFlow(flow, r).result.error)
  {
    hide ReviseTasks;
    ReviseTasksMeaning(flow.tasks, r.taskEstimates);
    if ReviseTasks(flow.tasks, r.taskEstimates).result.Err? {
      var i := RevisionStopsAtFirst(flow.tasks, r.taskEstimates);
      assert flow.tasks[i] in flow.tasks;
    }
  }

  lemma StepAcceptedIff(h: seq<Action>, b: Book, a: Action)
    requires forall id :: TellsRequest(h, b, id)
    ensures Step(b, a).result.Ok? <==> Acceptable(h, b.flows, a)
    ensures Step(b, a).result.Err? ==> RefusedFor(h, b.flows, a, Step(b, a).result.error)
  {
    hide ReviseFlow, PushTasks, UpdateTask, RequestTold, Addable, FitsTasks, RevisionRefusedFor, FirstNotAddable;
    match a
    case Revise(flowId, revision) =>
      if flowId in b.flows {
        RevisionAcceptedIff(b.flows[flowId], revision);
      }
    case Apply(flowId, requestId, prd, newTasks, _, _, revision) =>
      assert TellsRequest(h, b, requestId);
      if flowId in b.flows {
        var flow := b.flows[flowId];
        PushTasksOkIffAddable(flow.tasks, newTasks);
        PushedTasks(flow.tasks, newTasks);
        if PushTasks(flow.tasks, newTasks).result.Err? {
          var k := PushRefusedForFirst(flow.tasks, newTasks);
        } else {
          RevisionAcceptedIff(flow.(tasks := flow.tasks + newTasks, prd := prd), revision);
        }
      }
    case Refuse(flowId, requestId, _, _, _) =>
      assert TellsRequest(h, b, requestId);
    case _ =>
  }

  // ------------------------------------------------------------------
  // In every reachable ledger
  // ------------------------------------------------------------------

  ghost function BookActions(events: seq<Envelope>): seq<Action> {
    if events == [] then []
    else
      var e := events[|events| - 1].event;
      BookActions(events[..|events| - 1]) + if e.FlowEvent? then [e.change] else []
  }

  lemma {:induction false} BookIsARun(events: seq<Envelope>)
    requires ReplayOf(events).Ok?
    ensures Run(EMPTY.book, BookActions(events)) == Ok(ReplayOf(events).value.book)
  {
    hide ApplyEvent, Step;
    if events != [] {
      var init, last := events[..|events| - 1], events[|events| - 1];
      BookIsARun(init);
      PartStep(ReplayOf(init).value, last);
      var h := BookActions(events);
      if last.event.FlowEvent? {
        assert h[..|h| - 1] == BookActions(init);
      } else {
        assert h == BookActions(init);
      }
    }
  }

  /** Every flow, with all its tasks, and every request are what the stream says of them. */
  lemma LedgerTellsItsHistory(events: seq<Envelope>, id: string)
    requires ReplayOf(events).Ok?
    ensures TellsFlow(BookActions(events), ReplayOf(events).value.book, id)
    ensures TellsRequest(BookActions(events), ReplayOf(events).value.book, id)
  {
    BookIsARun(events);
    BookIsTold(BookActions(events), id);
  }

  /** The next event of a stream is accepted as a flow event iff it is acceptable. */
  lemma FlowEventAcceptedIff(events: seq<Envelope>, e: Envelope)
    requires ReplayOf(events).Ok? && |events| < MAX_SEQUENCE && e.sequence == |events| + 1 && e.event.FlowEvent?
    ensures ReplayOf(events + [e]).Ok? <==>
      Acceptable(BookActions(events), ReplayOf(events).value.book.flows, e.event.change)
    ensures ReplayOf(events + [e]).Err? ==>
      RefusedFor(BookActions(events), ReplayOf(events).value.book.flows, e.event.change, ReplayOf(events + [e]).error)
  {
    hide Handle, ApplyAll, Step, Acceptable, RefusedFor, TellsRequest;
    NextEvent(events, e);
    var s := ReplayOf(events).value;
    FlowStep(s, e.event.change);
    forall id ensures TellsRequest(BookActions(events), s.book, id) {
      LedgerTellsItsHistory(events, id);
    }
    StepAcceptedIff(BookActions(events), s.book, e.event.change);
  }
}
