/**
 * The Flow Ledger: `OrganizationState` of `src/core/state.rs`, with its `apply` and `replay`.
 *
 * `State` is the value of the object; `ApplyEvent` says what one call does to it. Events
 * that are not modelled are `Other`.
 */
module Ledger {
  import opened Wrappers
  import opened Errors
  import opened Domain
  import opened Leases
  import opened FlowRevisions
  import Notifications
  import Messages
  import ExternalWrites

  type Write = ExternalWrites.Write

  type OfficeRelease = w: Write | w.target.Office?
    witness ExternalWrites.Write("", "", "",
                                 ExternalWrites.Office(ExternalWrites.Microsoft365, ExternalWrites.SendEmail("")), "",
                                 ExternalWrites.Requested, None, None, None)

  type GitLabWrite = w: Write | w.target.GitLab?
    witness ExternalWrites.Write("", "", "", ExternalWrites.GitLab, "", ExternalWrites.Requested, None, None, None)

  datatype DomainEvent =
    | Notification(notification: Notifications.Action)
    | FlowEvent(change: FlowRevisions.Action)
    | MessagePosted(message: Messages.Message)
    | MessageAcknowledged(flowId: string, messageId: string, acknowledgements: seq<Messages.Acknowledgement>)
    | FlightAuthorized(flight: FlightLease)
    | LeaseAcquired(lease: ResourceLease)
    | LeaseReleased(flowId: string, taskId: string, leaseId: string, releasedAt: int)
    | OfficeRequested(release: OfficeRelease)
    | OfficeActed(flowId: string, taskId: string, releaseId: string, action: ExternalWrites.Action)
    | GitLabRequested(write: GitLabWrite)
    | GitLabActed(flowId: string, taskId: string, writeId: string, action: ExternalWrites.Action)
    | Other

  datatype EventKind =
    | NotificationKind | FlowKind | MessageKind | FlightKind | LeaseKind | OfficeKind | GitLabKind | OtherKind

  function KindOf(e: DomainEvent): EventKind {
    match e
    case Notification(_) => NotificationKind
    case FlowEvent(_) => FlowKind
    case MessagePosted(_) => MessageKind
    case MessageAcknowledged(_, _, _) => MessageKind
    case FlightAuthorized(_) => FlightKind
    case LeaseAcquired(_) => LeaseKind
    case LeaseReleased(_, _, _, _) => LeaseKind
    case OfficeRequested(_) => OfficeKind
    case OfficeActed(_, _, _, _) => OfficeKind
    case GitLabRequested(_) => GitLabKind
    case GitLabActed(_, _, _, _) => GitLabKind
    case Other => OtherKind
  }

  datatype Envelope = Envelope(version: nat, sequence: int, kind: EventKind, event: DomainEvent)

  const MAX_SEQUENCE: int := 0x7fff_ffff_ffff_ffff

  datatype State = State(
    outbox: Notifications.Outbox,
    book: Book,
    messages: map<string, Messages.Message>,
    flights: map<string, FlightLease>,
    leases: map<string, ResourceLease>,
    office: map<string, Write>,
    gitlab: map<string, Write>,
    lastSequence: int
  )

  const EMPTY := State(Notifications.Outbox(map[], map[]), Book(map[], map[]), map[], map[], map[], map[], map[], 0)

  /** `task_mut` finds the task of an event. */
  function FindFlowTask(b: Book, flowId: string, taskId: string): Result<Task, RelayError> {
    if flowId !in b.flows then Err(NotFound(flowId))
    else
      var t := FindTask(b.flows[flowId].tasks, taskId);
      if t.None? then Err(NotFound(taskId)) else Ok(t.value)
  }

  /** The flow of a message, and its task if it names one. */
  function FindAddressee(b: Book, m: Messages.Message): Result<(), RelayError> {
    if m.flowId !in b.flows then Err(NotFound(m.flowId))
    else if m.taskId.Some? && FindTask(b.flows[m.flowId].tasks, m.taskId.value).None? then Err(NotFound(m.taskId.value))
    else Ok(())
  }

  /** Each of these replaces one part of the state, or refuses without a change. */
  function WithOutbox(s: State, r: Result<Notifications.Outbox, RelayError>): Outcome<State> {
    if r.Err? then Deny(s, r.error) else Accept(s.(outbox := r.value))
  }

  function WithLeases(s: State, r: Result<map<string, ResourceLease>, RelayError>): Outcome<State> {
    if r.Err? then Deny(s, r.error) else Accept(s.(leases := r.value))
  }

  function WithOffice(s: State, r: Result<map<string, Write>, RelayError>): Outcome<State> {
    if r.Err? then Deny(s, r.error) else Accept(s.(office := r.value))
  }

  function WithGitLab(s: State, r: Result<map<string, Write>, RelayError>): Outcome<State> {
    if r.Err? then Deny(s, r.error) else Accept(s.(gitlab := r.value))
  }

  function Handle(s: State, e: DomainEvent): (r: Outcome<State>)
    ensures r.state.lastSequence == s.lastSequence
    ensures !e.Notification? ==> r.state.outbox == s.outbox
    ensures !e.FlowEvent? ==> r.state.book == s.book
    ensures !e.MessagePosted? && !e.MessageAcknowledged? ==> r.state.messages == s.messages
    ensures !e.FlightAuthorized? ==> r.state.flights == s.flights
    ensures !e.LeaseAcquired? && !e.LeaseReleased? ==> r.state.leases == s.leases
    ensures !e.OfficeRequested? && !e.OfficeActed? ==> r.state.office == s.office
    ensures !e.GitLabRequested? && !e.GitLabActed? ==> r.state.gitlab == s.gitlab
  {
    match e
    case Notification(a) => WithOutbox(s, Notifications.Step(s.outbox, a))
    case FlowEvent(a) =>
      var r := FlowRevisions.Step(s.book, a);
      Outcome(s.(book := r.state), r.result)
    case MessagePosted(m) =>
      var addressee := FindAddressee(s.book, m);
      if addressee.Err? then Deny(s, addressee.error) else Accept(s.(messages := s.messages[m.id := m]))
    case MessageAcknowledged(flowId, id, acknowledgements) =>
      var r := Messages.Acknowledge(s.messages, flowId, id, acknowledgements);
      Outcome(s.(messages := r.state), r.result)
    case FlightAuthorized(flight) =>
      var task := FindFlowTask(s.book, flight.flowId, flight.taskId);
      if task.Err? then Deny(s, task.error) else Accept(s.(flights := s.flights[flight.id := flight]))
    case LeaseAcquired(lease) => WithLeases(s, Acquire(s.flights, s.leases, lease))
    case LeaseReleased(flowId, taskId, id, at) => WithLeases(s, Release(s.leases, id, flowId, taskId, at))
    case OfficeRequested(release) =>
      var task := FindFlowTask(s.book, release.flowId, release.taskId);
      if task.Err? then Deny(s, task.error) else WithOffice(s, ExternalWrites.Record(s.office, release))
    case OfficeActed(flowId, taskId, id, a) => WithOffice(s, ExternalWrites.ActOn(s.office, id, flowId, taskId, a))
    case GitLabRequested(write) =>
      var task := FindFlowTask(s.book, write.flowId, write.taskId);
      if task.Err? then Deny(s, task.error) else WithGitLab(s, ExternalWrites.Record(s.gitlab, write))
    case GitLabActed(flowId, taskId, id, a) => WithGitLab(s, ExternalWrites.ActOn(s.gitlab, id, flowId, taskId, a))
    case Other => Accept(s)
  }

  // One lemma for each arm, so that proofs need not open all of them.

  lemma NotificationStep(s: State, a: Notifications.Action)
    ensures Handle(s, Notification(a)) == WithOutbox(s, Notifications.Step(s.outbox, a))
  {
  }

  lemma FlowStep(s: State, a: FlowRevisions.Action)
    ensures var r := FlowRevisions.Step(s.book, a); Handle(s, FlowEvent(a)) == Outcome(s.(book := r.state), r.result)
  {
    hide FlowRevisions.Step;
  }

  lemma PostStep(s: State, m: Messages.Message)
    ensures var addressee := FindAddressee(s.book, m);
      Handle(s, MessagePosted(m)) ==
      if addressee.Err? then Deny(s, addressee.error) else Accept(s.(messages := s.messages[m.id := m]))
  {
  }

  lemma AcknowledgeStep(s: State, flowId: string, id: string, acknowledgements: seq<Messages.Acknowledgement>)
    ensures var r := Messages.Acknowledge(s.messages, flowId, id, acknowledgements);
      Handle(s, MessageAcknowledged(flowId, id, acknowledgements)) == Outcome(s.(messages := r.state), r.result)
  {
  }

  lemma FlightStep(s: State, flight: FlightLease)
    ensures var task := FindFlowTask(s.book, flight.flowId, flight.taskId);
      Handle(s, FlightAuthorized(flight)) ==
      if task.Err? then Deny(s, task.error) else Accept(s.(flights := s.flights[flight.id := flight]))
  {
  }

  lemma LeaseStep(s: State, e: DomainEvent)
    ensures e.LeaseAcquired? ==> Handle(s, e) == WithLeases(s, Acquire(s.flights, s.leases, e.lease))
    ensures e.LeaseReleased? ==>
      Handle(s, e) == WithLeases(s, Release(s.leases, e.leaseId, e.flowId, e.taskId, e.releasedAt))
  {
  }

  lemma OfficeStep(s: State, e: DomainEvent)
    ensures e.OfficeRequested? ==>
      var task := FindFlowTask(s.book, e.release.flowId, e.release.taskId);
      Handle(s, e) ==
      if task.Err? then Deny(s, task.error) else WithOffice(s, ExternalWrites.Record(s.office, e.release))
    ensures e.OfficeActed? ==>
      Handle(s, e) == WithOffice(s, ExternalWrites.ActOn(s.office, e.releaseId, e.flowId, e.taskId, e.action))
  {
    hide ExternalWrites.Record, ExternalWrites.ActOn, FindFlowTask;
  }

  lemma GitLabStep(s: State, e: DomainEvent)
    ensures e.GitLabRequested? ==>
      var task := FindFlowTask(s.book, e.write.flowId, e.write.taskId);
      Handle(s, e) ==
      if task.Err? then Deny(s, task.error) else WithGitLab(s, ExternalWrites.Record(s.gitlab, e.write))
    ensures e.GitLabActed? ==>
      Handle(s, e) == WithGitLab(s, ExternalWrites.ActOn(s.gitlab, e.writeId, e.flowId, e.taskId, e.action))
  {
    hide ExternalWrites.Record, ExternalWrites.ActOn, FindFlowTask;
  }

  lemma OtherStep(s: State)
    ensures Handle(s, Other) == Accept(s)
  {
  }

  function ApplyEvent(s: State, e: Envelope): Outcome<State> {
    if s.lastSequence >= MAX_SEQUENCE then Deny(s, Validation(SequenceOverflow))
    else if e.sequence != s.lastSequence + 1 then
      Deny(s, Validation(SequenceGap(e.sequence, s.lastSequence + 1)))
    else
      var r := Handle(s, e.event);
      if r.result.Err? then r else Accept(r.state.(lastSequence := e.sequence))
  }

  /** Applies events one after the other and stops at the first refusal. */
  function ApplyAll(s: State, events: seq<Envelope>): Result<State, RelayError> {
    if events == [] then Ok(s)
    else
      var before := ApplyAll(s, events[..|events| - 1]);
      if before.Err? then before
      else
        var last := ApplyEvent(before.value, events[|events| - 1]);
        if last.result.Err? then Err(last.result.error) else Ok(last.state)
  }

  function ReplayOf(events: seq<Envelope>): Result<State, RelayError> {
    ApplyAll(EMPTY, events)
  }

  /** What is left of `before` once a step answered `r`: refusals change nothing. */
  function Settled<V>(before: V, r: Result<V, RelayError>): V {
    if r.Ok? then r.value else before
  }

  function Answer<V>(r: Result<V, RelayError>): Result<(), RelayError> {
    if r.Ok? then Ok(()) else Err(r.error)
  }

  lemma {:induction false} RefusalStops(s: State, events: seq<Envelope>, n: nat)
    requires n <= |events| && ApplyAll(s, events[..n]).Err?
    ensures ApplyAll(s, events) == ApplyAll(s, events[..n])
  {
    hide ApplyEvent;
    if n < |events| {
      var init := events[..|events| - 1];
      assert init[..n] == events[..n];
      RefusalStops(s, init, n);
    } else {
      assert events[..n] == events;
    }
  }

  // ------------------------------------------------------------------
  // The object
  // ------------------------------------------------------------------

  class OrganizationState {
    var endpoints: map<string, Notifications.Endpoint>
    var deliveries: map<string, Notifications.Delivery>
    var flows: map<string, Flow>
    var flowChanges: map<string, ChangeRequest>
    var messages: map<string, Messages.Message>
    var flightLeases: map<string, FlightLease>
    var resourceLeases: map<string, ResourceLease>
    var officeReleases: map<string, OfficeRelease>
    var gitlabWrites: map<string, GitLabWrite>
    var lastSequence: int

    ghost function Value(): State
      reads this
    {
      State(Notifications.Outbox(endpoints, deliveries), Book(flows, flowChanges), messages,
            flightLeases, resourceLeases, officeReleases, gitlabWrites, lastSequence)
    }

    /** A copy, as a commit projects its events on. */
    constructor Clone(other: OrganizationState)
      ensures Value() == other.Value()
    {
      endpoints, deliveries := other.endpoints, other.deliveries;
      flows, flowChanges, messages := other.flows, other.flowChanges, other.messages;
      flightLeases, resourceLeases := other.flightLeases, other.resourceLeases;
      officeReleases, gitlabWrites := other.officeReleases, other.gitlabWrites;
      lastSequence := other.lastSequence;
    }

    constructor ()
      ensures Value() == EMPTY
    {
      endpoints, deliveries := map[], map[];
      flows, flowChanges, messages := map[], map[], map[];
      flightLeases, resourceLeases := map[], map[];
      officeReleases, gitlabWrites := map[], map[];
      lastSequence := 0;
    }

    /** Disables an endpoint and cancels what it has not delivered. */
    method DisableEndpoint(id: string, at: int) returns (r: Result<(), RelayError>)
      modifies this`endpoints, this`deliveries
      ensures var before := Notifications.Outbox(old(endpoints), old(deliveries));
        var expected := Notifications.Step(before, Notifications.Disable(id, at));
        Notifications.Outbox(endpoints, deliveries) == Settled(before, expected) && r == Answer(expected)
    {
      if id !in endpoints {
        return Err(NotFound(id));
      }
      if !endpoints[id].active {
        return Err(InvalidTransition(id));
      }
      endpoints := endpoints[id := endpoints[id].(active := false, disabledAt := Some(at))];
      var todo := deliveries.Keys;
      while todo != {}
        invariant endpoints == old(endpoints)[id := old(endpoints)[id].(active := false, disabledAt := Some(at))]
        invariant todo <= deliveries.Keys == old(deliveries).Keys
        invariant forall d | d in deliveries ::
          deliveries[d] == if d in todo then old(deliveries)[d] else Notifications.Cancel(old(deliveries)[d], id)
        decreases todo
      {
        var d :| d in todo;
        if deliveries[d].endpointId == id && deliveries[d].status != Notifications.Delivered {
          deliveries := deliveries[d := deliveries[d].(
            status := Notifications.Cancelled, lastError := Some(Notifications.DISABLED))];
        }
        todo := todo - {d};
      }
      ghost var before := Notifications.Outbox(old(endpoints), old(deliveries));
      assert deliveries == Notifications.Step(before, Notifications.Disable(id, at)).value.deliveries;
      return Ok(());
    }

    method ApplyNotification(a: Notifications.Action) returns (r: Result<(), RelayError>)
      modifies this`endpoints, this`deliveries
      ensures var before := Notifications.Outbox(old(endpoints), old(deliveries));
        Notifications.Outbox(endpoints, deliveries) == Settled(before, Notifications.Step(before, a))
        && r == Answer(Notifications.Step(before, a))
    {
      match a {
        case Register(endpoint) =>
          if endpoint.id in endpoints {
            return Err(Validation(AlreadyExists(endpoint.id)));
          }
          endpoints := endpoints[endpoint.id := endpoint];
        case Disable(id, at) =>
          r := DisableEndpoint(id, at);
          return;
        case Queue(delivery) =>
          if delivery.endpointId !in endpoints {
            return Err(NotFound(delivery.endpointId));
          }
          if !endpoints[delivery.endpointId].active || delivery.id in deliveries {
            return Err(Validation(AlreadyExists(delivery.id)));
          }
          deliveries := deliveries[delivery.id := delivery];
        case Deliver(id, response, at) =>
          if id !in deliveries {
            return Err(NotFound(id));
          }
          var d := deliveries[id];
          if d.status == Notifications.Delivered || d.status == Notifications.Cancelled {
            return Err(InvalidTransition(id));
          }
          deliveries := deliveries[id := d.(status := Notifications.Delivered, attempts := d.attempts + 1,
            lastAttemptAt := Some(at), deliveredAt := Some(at), responseStatus := Some(response), lastError := None)];
        case Fail(id, response, error, at) =>
          if id !in deliveries {
            return Err(NotFound(id));
          }
          var d := deliveries[id];
          if d.status == Notifications.Delivered || d.status == Notifications.Cancelled {
            return Err(InvalidTransition(id));
          }
          deliveries := deliveries[id := d.(status := Notifications.Failed, attempts := d.attempts + 1,
            lastAttemptAt := Some(at), responseStatus := response, lastError := Some(error))];
      }
      return Ok(());
    }

    /** Overwrites the estimates of a flow in place; a refusal leaves what was written before it. */
    method ApplyScheduleRevision(flowId: string, revision: Revision) returns (r: Result<(), RelayError>)
      modifies this`flows
      ensures flowId !in old(flows) ==> r == Err(NotFound(flowId)) && flows == old(flows)
      ensures flowId in old(flows) ==>
        var expected := ReviseFlow(old(flows)[flowId], revision);
        r == expected.result && flows == old(flows)[flowId := expected.state]
    {
      hide ReviseTasks;
      if flowId !in flows {
        return Err(NotFound(flowId));
      }
      var flow := flows[flowId];
      ghost var tasks := flow.tasks;
      for i := 0 to |flow.tasks|
        invariant flow == old(flows)[flowId].(tasks := flow.tasks)
        invariant RevisedUpTo(tasks, revision.taskEstimates, i, flow.tasks)
        invariant flows == old(flows)[flowId := flow]
      {
        var task := flow.tasks[i];
        if task.id !in revision.taskEstimates {
          RevisedIsReviseTasks(tasks, revision.taskEstimates, i, flow.tasks);
          return Err(Validation(RevisionWithoutEstimate(task.id)));
        }
        flow := flow.(tasks := flow.tasks[i := task.(estimate := revision.taskEstimates[task.id])]);
        flows := flows[flowId := flow];
      }
      RevisedIsReviseTasks(tasks, revision.taskEstimates, |tasks|, flow.tasks);
      if |revision.taskEstimates| != |flow.tasks| {
        return Err(Validation(RevisionWithUnexpectedTasks(flow.id)));
      }
      flow := flow.(criticalPath := revision.criticalPath,
                    p50Finish := revision.p50Finish, p80Finish := revision.p80Finish);
      flows := flows[flowId := flow];
      return Ok(());
    }

    /** Adds the tasks of a change request, revises the schedule, and only then resolves the request. */
    method ApplyFlowChange(flowId: string, requestId: string, prd: string, newTasks: seq<Task>,
                           appliedBy: string, appliedAt: int, revision: Revision) returns (r: Result<(), RelayError>)
      modifies this`flows, this`flowChanges
      ensures Outcome(Book(flows, flowChanges), r) ==
        FlowRevisions.Step(Book(old(flows), old(flowChanges)),
                           FlowRevisions.Apply(flowId, requestId, prd, newTasks, appliedBy, appliedAt, revision))
    {
      hide ReviseFlow;
      if requestId !in flowChanges {
        return Err(NotFound(requestId));
      }
      if flowChanges[requestId].flowId != flowId || flowChanges[requestId].status != ChangeProposed {
        return Err(InvalidTransition(requestId));
      }
      if flowId !in flows {
        return Err(NotFound(flowId));
      }
      var flow := flows[flowId];
      assert newTasks[0..] == newTasks;
      for i := 0 to |newTasks|
        invariant flow == old(flows)[flowId].(tasks := flow.tasks)
        invariant PushTasks(flow.tasks, newTasks[i..]) == PushTasks(old(flows)[flowId].tasks, newTasks)
        invariant flows == old(flows)[flowId := flow] && flowChanges == old(flowChanges)
      {
        var task := newTasks[i];
        assert newTasks[i..][0] == task && newTasks[i..][1..] == newTasks[i + 1..];
        if Taken(flow.tasks, task) {
          return Err(Validation(DuplicateTask(task.key)));
        }
        flow := flow.(tasks := flow.tasks + [task]);
        flows := flows[flowId := flow];
      }
      flow := flow.(prd := prd);
      flows := flows[flowId := flow];
      r := ApplyScheduleRevision(flowId, revision);
      assert flows == old(flows)[flowId := flows[flowId]];
      if r.Err? {
        return;
      }
      var request := flowChanges[requestId];
      flowChanges := flowChanges[requestId := request.(
        status := ChangeApplied, resolvedAt := Some(appliedAt), resolvedBy := Some(appliedBy))];
      return Ok(());
    }

    method ApplyFlow(a: FlowRevisions.Action) returns (r: Result<(), RelayError>)
      modifies this`flows, this`flowChanges
      ensures Outcome(Book(flows, flowChanges), r) == FlowRevisions.Step(Book(old(flows), old(flowChanges)), a)
    {
      hide ReviseFlow, PushTasks, UpdateTask, FindTask;
      match a {
        case Plan(flow) =>
          flows := flows[flow.id := flow];
        case SetStatus(flowId, status) =>
          if flowId !in flows {
            return Err(NotFound(flowId));
          }
          flows := flows[flowId := flows[flowId].(status := status)];
        case AcceptTask(flowId, taskId, at) =>
          if flowId !in flows {
            return Err(NotFound(flowId));
          }
          flows := flows[flowId := flows[flowId].(status := ActiveFlow)];
          var flow := flows[flowId];
          if FindTask(flow.tasks, taskId).None? {
            return Err(NotFound(taskId));
          }
          flow := flow.(tasks := UpdateTask(flow.tasks, taskId, Some(Accepted), Some(at)));
          assert flows[flowId := flow] == old(flows)[flowId := flow];
          flows := flows[flowId := flow];
        case Progress(flowId, taskId, status, heartbeat) =>
          if flowId !in flows {
            return Err(NotFound(flowId));
          }
          var flow := flows[flowId];
          if FindTask(flow.tasks, taskId).None? {
            return Err(NotFound(taskId));
          }
          flows := flows[flowId := flow.(tasks := UpdateTask(flow.tasks, taskId, status, heartbeat))];
        case Revise(flowId, revision) =>
          r := ApplyScheduleRevision(flowId, revision);
          return;
        case Propose(request) =>
          if request.flowId !in flows {
            return Err(NotFound(request.flowId));
          }
          flowChanges := flowChanges[request.id := request];
        case Apply(flowId, requestId, prd, newTasks, appliedBy, appliedAt, revision) =>
          r := ApplyFlowChange(flowId, requestId, prd, newTasks, appliedBy, appliedAt, revision);
          return;
        case Refuse(flowId, requestId, rejectedBy, reason, rejectedAt) =>
          if requestId !in flowChanges {
            return Err(NotFound(requestId));
          }
          var request := flowChanges[requestId];
          if request.flowId != flowId || request.status != ChangeProposed {
            return Err(InvalidTransition(requestId));
          }
          flowChanges := flowChanges[requestId := request.(status := ChangeRejected, resolvedAt := Some(rejectedAt),
            resolvedBy := Some(rejectedBy), rejectionReason := Some(reason))];
      }
      return Ok(());
    }

    /** Records acknowledgements in place; a refusal leaves what was recorded before it. */
    method AcknowledgeMessage(flowId: string, id: string, incoming: seq<Messages.Acknowledgement>)
      returns (r: Result<(), RelayError>)
      modifies this`messages
      ensures Outcome(messages, r) == Messages.Acknowledge(old(messages), flowId, id, incoming)
    {
      if id !in messages {
        return Err(NotFound(id));
      }
      if messages[id].flowId != flowId {
        return Err(Validation(FlowMismatch(id, flowId)));
      }
      var message := messages[id];
      assert incoming[0..] == incoming;
      for i := 0 to |incoming|
        invariant Messages.RecordAll(message, incoming[i..]) == Messages.RecordAll(old(messages)[id], incoming)
        invariant message.id == old(messages)[id].id && messages == old(messages)[id := message]
      {
        var acknowledgement := incoming[i];
        assert incoming[i..][0] == acknowledgement && incoming[i..][1..] == incoming[i + 1..];
        if acknowledgement.recipientId !in message.recipients {
          return Err(Validation(UnknownRecipient(message.id, acknowledgement.recipientId)));
        }
        message := message.(acknowledgements := Messages.Record(message.acknowledgements, acknowledgement));
        messages := messages[id := message];
      }
      return Ok(());
    }

    method AcquireLease(lease: ResourceLease) returns (r: Result<(), RelayError>)
      modifies this`resourceLeases
      ensures var expected := Acquire(flightLeases, old(resourceLeases), lease);
        resourceLeases == Settled(old(resourceLeases), expected) && r == Answer(expected)
    {
      if lease.flightLeaseId !in flightLeases {
        return Err(NotFound(lease.flightLeaseId));
      }
      var flight := flightLeases[lease.flightLeaseId];
      if flight.flowId != lease.flowId || flight.taskId != lease.taskId || flight.principalId != lease.principalId {
        return Err(Validation(ScopeMismatch(lease.id)));
      }
      var todo := resourceLeases.Keys;
      while todo != {}
        invariant todo <= resourceLeases.Keys
        invariant forall id | id in resourceLeases && id !in todo ::
          !(resourceLeases[id].id != lease.id && resourceLeases[id].ConflictsWith(lease.claim, lease.issuedAt))
        decreases todo
      {
        var id :| id in todo;
        if resourceLeases[id].id != lease.id && resourceLeases[id].ConflictsWith(lease.claim, lease.issuedAt) {
          return Err(InvalidTransition(lease.id));
        }
        todo := todo - {id};
      }
      resourceLeases := resourceLeases[lease.id := lease];
      return Ok(());
    }

    method ReleaseLease(id: string, flowId: string, taskId: string, at: int) returns (r: Result<(), RelayError>)
      modifies this`resourceLeases
      ensures var expected := Release(old(resourceLeases), id, flowId, taskId, at);
        resourceLeases == Settled(old(resourceLeases), expected) && r == Answer(expected)
    {
      if id !in resourceLeases {
        return Err(NotFound(id));
      }
      var lease := resourceLeases[id];
      if lease.flowId != flowId || lease.taskId != taskId {
        return Err(Validation(ScopeMismatch(id)));
      }
      if lease.status != Active {
        return Err(InvalidTransition(id));
      }
      resourceLeases := resourceLeases[id := lease.(status := Leases.Released, releasedAt := Some(at))];
      return Ok(());
    }

    /** The Office arms, which agree with the shared record of external writes. */
    method ApplyOffice(id: string, flowId: string, taskId: string, a: ExternalWrites.Action)
      returns (r: Result<(), RelayError>)
      modifies this`officeReleases
      ensures var expected := ExternalWrites.ActOn(old(officeReleases), id, flowId, taskId, a);
        officeReleases == Settled(old(officeReleases), expected) && r == Answer(expected)
    {
      if id !in officeReleases {
        return Err(NotFound(id));
      }
      var release: OfficeRelease := officeReleases[id];
      if release.flowId != flowId || release.taskId != taskId {
        return Err(Validation(ScopeMismatch(id)));
      }
      var refusal := Err(InvalidTransition(release.id));
      match a {
        case Approve(reviewer) =>
          if release.status != ExternalWrites.Requested { return refusal; }
          release := release.(status := ExternalWrites.Approved, reviewedBy := Some(reviewer));
        case Reject(reviewer) =>
          if release.status != ExternalWrites.Requested { return refusal; }
          release := release.(status := ExternalWrites.Rejected, reviewedBy := Some(reviewer));
        case Claim(dispatchId) =>
          if release.status != ExternalWrites.Approved { return refusal; }
          release := release.(status := ExternalWrites.Dispatching, dispatchId := Some(dispatchId));
        case Succeed(dispatchId, result) =>
          if release.status != ExternalWrites.Dispatching || release.dispatchId != Some(dispatchId) { return refusal; }
          release := release.(status := ExternalWrites.Done, result := Some(result));
        case Fail(dispatchId, indeterminate) =>
          if release.status != ExternalWrites.Dispatching || release.dispatchId != Some(dispatchId) { return refusal; }
          release := release.(status := if indeterminate then ExternalWrites.Indeterminate else ExternalWrites.Failed);
        case ApproveRetry(reviewer) =>
          if release.status != ExternalWrites.Failed { return refusal; }
          release := release.(status := ExternalWrites.Approved, reviewedBy := Some(reviewer), dispatchId := None);
        case Expire(dispatchId, retrySafe) =>
          if release.status != ExternalWrites.Dispatching || release.dispatchId != Some(dispatchId) { return refusal; }
          if release.target.payload.RetrySafe(release.target.provider) != retrySafe {
            return Err(Validation(RecoverySafetyMismatch(release.id)));
          }
          release := release.(status := if retrySafe then ExternalWrites.Approved else ExternalWrites.Indeterminate);
          if retrySafe {
            release := release.(dispatchId := None);
          }
      }
      officeReleases := officeReleases[id := release];
      return Ok(());
    }

    /** The GitLab arms, which agree with the same record. */
    method ApplyGitLab(id: string, flowId: string, taskId: string, a: ExternalWrites.Action)
      returns (r: Result<(), RelayError>)
      modifies this`gitlabWrites
      ensures var expected := ExternalWrites.ActOn(old(gitlabWrites), id, flowId, taskId, a);
        gitlabWrites == Settled(old(gitlabWrites), expected) && r == Answer(expected)
    {
      if id !in gitlabWrites {
        return Err(NotFound(id));
      }
      var write: GitLabWrite := gitlabWrites[id];
      if write.flowId != flowId || write.taskId != taskId {
        return Err(Validation(ScopeMismatch(id)));
      }
      var refusal := Err(InvalidTransition(write.id));
      match a {
        case Approve(reviewer) =>
          if write.status != ExternalWrites.Requested { return refusal; }
          write := write.(status := ExternalWrites.Approved, reviewedBy := Some(reviewer));
        case Reject(reviewer) =>
          if write.status != ExternalWrites.Requested { return refusal; }
          write := write.(status := ExternalWrites.Rejected, reviewedBy := Some(reviewer));
        case Claim(dispatchId) =>
          if write.status != ExternalWrites.Approved { return refusal; }
          write := write.(status := ExternalWrites.Dispatching, dispatchId := Some(dispatchId));
        case Succeed(dispatchId, result) =>
          if write.status != ExternalWrites.Dispatching || write.dispatchId != Some(dispatchId) { return refusal; }
          write := write.(status := ExternalWrites.Done, result := Some(result));
        case Fail(dispatchId, indeterminate) =>
          if write.status != ExternalWrites.Dispatching || write.dispatchId != Some(dispatchId) { return refusal; }
          write := write.(status := if indeterminate then ExternalWrites.Indeterminate else ExternalWrites.Failed);
        case ApproveRetry(reviewer) =>
          if write.status != ExternalWrites.Failed && write.status != ExternalWrites.Indeterminate { return refusal; }
          write := write.(status := ExternalWrites.Approved, reviewedBy := Some(reviewer), dispatchId := None);
        case Expire(dispatchId, _) =>
          if write.status != ExternalWrites.Dispatching || write.dispatchId != Some(dispatchId) { return refusal; }
          write := write.(status := ExternalWrites.Indeterminate);
      }
      gitlabWrites := gitlabWrites[id := write];
      return Ok(());
    }

    method RecordOffice(release: OfficeRelease) returns (r: Result<(), RelayError>)
      modifies this`officeReleases
      ensures var task := FindFlowTask(Book(flows, flowChanges), release.flowId, release.taskId);
        if task.Err? then r == Err(task.error) && officeReleases == old(officeReleases)
        else
          var expected := ExternalWrites.Record(old(officeReleases), release);
          officeReleases == Settled(old(officeReleases), expected) && r == Answer(expected)
    {
      hide FindFlowTask;
      var task := FindFlowTask(Book(flows, flowChanges), release.flowId, release.taskId);
      if task.Err? {
        return Err(task.error);
      }
      if !ExternalWrites.IsInitial(release) {
        return Err(Validation(InvalidInitialState(release.id)));
      }
      if release.id in officeReleases {
        return Err(Validation(AlreadyExists(release.id)));
      }
      officeReleases := officeReleases[release.id := release];
      return Ok(());
    }

    method RecordGitLab(write: GitLabWrite) returns (r: Result<(), RelayError>)
      modifies this`gitlabWrites
      ensures var task := FindFlowTask(Book(flows, flowChanges), write.flowId, write.taskId);
        if task.Err? then r == Err(task.error) && gitlabWrites == old(gitlabWrites)
        else
          var expected := ExternalWrites.Record(old(gitlabWrites), write);
          gitlabWrites == Settled(old(gitlabWrites), expected) && r == Answer(expected)
    {
      hide FindFlowTask;
      var task := FindFlowTask(Book(flows, flowChanges), write.flowId, write.taskId);
      if task.Err? {
        return Err(task.error);
      }
      if !ExternalWrites.IsInitial(write) {
        return Err(Validation(InvalidInitialState(write.id)));
      }
      if write.id in gitlabWrites {
        return Err(Validation(AlreadyExists(write.id)));
      }
      gitlabWrites := gitlabWrites[write.id := write];
      return Ok(());
    }

    /** Finds the arm of an event. */
    method Dispatch(event: DomainEvent) returns (r: Result<(), RelayError>)
      modifies this
      ensures Outcome(Value(), r) == Handle(old(Value()), event)
    {
      hide FlowRevisions.Step, Notifications.Step, Messages.Acknowledge, Acquire, Release, ExternalWrites.Record,
        ExternalWrites.ActOn, FindFlowTask, FindAddressee, Handle;
      ghost var before := Value();
      match event {
        case Notification(a) =>
          NotificationStep(before, a);
          r := ApplyNotification(a);
        case FlowEvent(a) =>
          FlowStep(before, a);
          r := ApplyFlow(a);
        case MessagePosted(m) =>
          PostStep(before, m);
          var addressee := FindAddressee(Book(flows, flowChanges), m);
          if addressee.Err? {
            return Err(addressee.error);
          }
          messages := messages[m.id := m];
          r := Ok(());
        case MessageAcknowledged(flowId, id, acknowledgements) =>
          AcknowledgeStep(before, flowId, id, acknowledgements);
          r := AcknowledgeMessage(flowId, id, acknowledgements);
        case FlightAuthorized(flight) =>
          FlightStep(before, flight);
          var task := FindFlowTask(Book(flows, flowChanges), flight.flowId, flight.taskId);
          if task.Err? {
            return Err(task.error);
          }
          flightLeases := flightLeases[flight.id := flight];
          r := Ok(());
        case LeaseAcquired(lease) =>
          LeaseStep(before, event);
          r := AcquireLease(lease);
        case LeaseReleased(flowId, taskId, id, at) =>
          LeaseStep(before, event);
          r := ReleaseLease(id, flowId, taskId, at);
        case OfficeRequested(release) =>
          OfficeStep(before, event);
          r := RecordOffice(release);
        case OfficeActed(flowId, taskId, id, a) =>
          OfficeStep(before, event);
          r := ApplyOffice(id, flowId, taskId, a);
        case GitLabRequested(write) =>
          GitLabStep(before, event);
          r := RecordGitLab(write);
        case GitLabActed(flowId, taskId, id, a) =>
          GitLabStep(before, event);
          r := ApplyGitLab(id, flowId, taskId, a);
        case Other =>
          OtherStep(before);
          r := Ok(());
      }
    }

    /** Takes the next event of the stream; a refusal does not advance the sequence number. */
    method Apply(envelope: Envelope) returns (r: Result<(), RelayError>)
      modifies this
      ensures Outcome(Value(), r) == ApplyEvent(old(Value()), envelope)
    {
      hide Handle;
      if lastSequence >= MAX_SEQUENCE {
        return Err(Validation(SequenceOverflow));
      }
      if envelope.sequence != lastSequence + 1 {
        return Err(Validation(SequenceGap(envelope.sequence, lastSequence + 1)));
      }
      r := Dispatch(envelope.event);
      if r.Err? {
        return;
      }
      lastSequence := envelope.sequence;
      return Ok(());
    }

    /** Applies events one after the other; stops at the first refusal. */
    method ApplyEach(events: seq<Envelope>) returns (r: Result<(), RelayError>)
      modifies this
      ensures r == Answer(ApplyAll(old(Value()), events))
      ensures r.Ok? ==> Value() == ApplyAll(old(Value()), events).value
    {
      hide ApplyEvent;
      for i := 0 to |events|
        invariant ApplyAll(old(Value()), events[..i]) == Ok(Value())
      {
        assert events[..i + 1][..i] == events[..i];
        r := Apply(events[i]);
        if r.Err? {
          RefusalStops(old(Value()), events, i + 1);
          return;
        }
      }
      assert events[..|events|] == events;
      return Ok(());
    }

    static method Replay(events: seq<Envelope>) returns (s: OrganizationState, r: Result<(), RelayError>)
      ensures fresh(s)
      ensures r == Answer(ReplayOf(events))
      ensures r.Ok? ==> s.Value() == ReplayOf(events).value
    {
      s := new OrganizationState();
      r := s.ApplyEach(events);
    }
  }
}
