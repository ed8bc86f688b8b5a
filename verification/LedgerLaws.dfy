/** What holds along every run of the Flow Ledger. */
module LedgerLaws {
  import opened Wrappers
  import opened Errors
  import opened Domain
  import opened Graph
  import opened Leases
  import opened FlowRevisions
  import opened Ledger
  import Notifications
  import Messages
  import opened ExternalWrites

  // ------------------------------------------------------------------
  // The stream
  // ------------------------------------------------------------------

  /** An accepted stream is numbered without gaps from the state it is applied to. */
  lemma {:induction false} StreamIsNumbered(s: State, events: seq<Envelope>)
    requires ApplyAll(s, events).Ok?
    ensures ApplyAll(s, events).value.lastSequence == s.lastSequence + |events|
    ensures forall i | 0 <= i < |events| :: events[i].sequence == s.lastSequence + 1 + i
  {
    hide Handle;
    if events != [] {
      var init := events[..|events| - 1];
      StreamIsNumbered(s, init);
      assert forall i | 0 <= i < |init| :: events[i] == init[i];
    }
  }

  /** Replaying a stream is replaying a prefix and then applying the rest. */
  lemma {:induction false} ApplyAllComposes(s: State, before: seq<Envelope>, after: seq<Envelope>)
    ensures ApplyAll(s, before).Err? ==> ApplyAll(s, before + after) == ApplyAll(s, before)
    ensures ApplyAll(s, before).Ok? ==> ApplyAll(s, before + after) == ApplyAll(ApplyAll(s, before).value, after)
    decreases |after|
  {
    hide ApplyEvent;
    if after == [] {
      assert before + after == before;
    } else {
      var init := after[..|after| - 1];
      ApplyAllComposes(s, before, init);
      assert (before + after)[..|before + after| - 1] == before + init;
    }
  }

  /** The next event of a stream is accepted iff its arm accepts it. */
  lemma NextEvent(events: seq<Envelope>, e: Envelope)
    requires ReplayOf(events).Ok? && |events| < MAX_SEQUENCE && e.sequence == |events| + 1
    ensures ReplayOf(events + [e]) ==
      var r := Handle(ReplayOf(events).value, e.event);
      if r.result.Err? then Err(r.result.error) else Ok(r.state.(lastSequence := e.sequence))
  {
    hide Handle;
    StreamIsNumbered(EMPTY, events);
    assert (events + [e])[..|events|] == events;
  }

  /** An event out of sequence is refused, whatever it is, and so is any event after the last i64. */
  lemma OutOfSequenceRefused(events: seq<Envelope>, e: Envelope)
    requires ReplayOf(events).Ok?
    ensures |events| >= 9_223_372_036_854_775_807 ==> ReplayOf(events + [e]) == Err(Validation(SequenceOverflow))
    ensures |events| < 9_223_372_036_854_775_807 && e.sequence != |events| + 1 ==>
      ReplayOf(events + [e]) == Err(Validation(SequenceGap(e.sequence, |events| + 1)))
  {
    hide Handle;
    StreamIsNumbered(EMPTY, events);
    assert (events + [e])[..|events|] == events;
  }

  // ------------------------------------------------------------------
  // External writes
  // ------------------------------------------------------------------

  datatype Desk = OfficeDesk | GitLabDesk

  function Writes(s: State, desk: Desk): map<string, Write> {
    if desk.OfficeDesk? then s.office else s.gitlab
  }

  function RequestIn(e: DomainEvent, desk: Desk): Option<Write> {
    match e
    case OfficeRequested(w) => if desk.OfficeDesk? then Some(w) else None
    case GitLabRequested(w) => if desk.GitLabDesk? then Some(w) else None
    case _ => None
  }

  function ActionIn(e: DomainEvent, desk: Desk, id: string): Option<ExternalWrites.Action> {
    match e
    case OfficeActed(_, _, release, a) => if desk.OfficeDesk? && release == id then Some(a) else None
    case GitLabActed(_, _, write, a) => if desk.GitLabDesk? && write == id then Some(a) else None
    case _ => None
  }

  /** The first request of a write in a stream. */
  ghost function Requested(events: seq<Envelope>, desk: Desk, id: string): Option<Write> {
    if events == [] then None
    else
      var before := Requested(events[..|events| - 1], desk, id);
      var request := RequestIn(events[|events| - 1].event, desk);
      if before.Some? then before
      else if request.Some? && request.value.id == id then request else None
  }

  /** The actions on a write in a stream. */
  ghost function History(events: seq<Envelope>, desk: Desk, id: string): seq<ExternalWrites.Action> {
    if events == [] then []
    else
      var a := ActionIn(events[|events| - 1].event, desk, id);
      History(events[..|events| - 1], desk, id) + if a.Some? then [a.value] else []
  }

  /** An accepted event takes each table of writes through its own step, or leaves it alone. */
  lemma TableStep(s: State, e: Envelope)
    requires ApplyEvent(s, e).result.Ok?
    ensures var before, after := s.office, ApplyEvent(s, e).state.office;
      match e.event
      case OfficeRequested(release) => Record(before, release) == Ok(after)
      case OfficeActed(flowId, taskId, id, a) => ActOn(before, id, flowId, taskId, a) == Ok(after)
      case _ => after == before
    ensures var before, after := s.gitlab, ApplyEvent(s, e).state.gitlab;
      match e.event
      case GitLabRequested(write) => Record(before, write) == Ok(after)
      case GitLabActed(flowId, taskId, id, a) => ActOn(before, id, flowId, taskId, a) == Ok(after)
      case _ => after == before
  {
    hide Record, ActOn, FindFlowTask, Handle;
    OfficeStep(s, e.event);
    GitLabStep(s, e.event);
  }

  /** An accepted event records a new write, acts on a recorded one, or leaves it alone. */
  lemma WriteStep(s: State, e: Envelope, desk: Desk, id: string)
    requires ApplyEvent(s, e).result.Ok?
    ensures var before, after := Writes(s, desk), Writes(ApplyEvent(s, e).state, desk);
      var request, action := RequestIn(e.event, desk), ActionIn(e.event, desk, id);
      && (request.Some? ==> action.None?)
      && (request.Some? && request.value.id == id ==>
           id !in before && id in after && after[id] == request.value && IsInitial(after[id]))
      && (action.Some? ==> id in before && id in after && Act(before[id], action.value) == Ok(after[id]))
      && (action.None? && !(request.Some? && request.value.id == id) ==>
           (id in after <==> id in before) && (id in before ==> after[id] == before[id]))
  {
    hide ApplyEvent, Act, IsInitial;
    TableStep(s, e);
  }

  /** An accepted event takes the outbox and the flows through their own steps, or leaves them alone. */
  lemma PartStep(s: State, e: Envelope)
    requires ApplyEvent(s, e).result.Ok?
    ensures var after := ApplyEvent(s, e).state;
      && (if e.event.Notification? then Notifications.Step(s.outbox, e.event.notification) == Ok(after.outbox)
          else after.outbox == s.outbox)
      && (if e.event.FlowEvent? then (FlowRevisions.Step(s.book, e.event.change).state == after.book
            && FlowRevisions.Step(s.book, e.event.change).result.Ok?)
          else after.book == s.book)
  {
    hide Notifications.Step, FlowRevisions.Step, Handle;
    match e.event
    case Notification(a) => NotificationStep(s, a);
    case FlowEvent(a) => FlowStep(s, a);
    case _ =>
  }

  /** The record of a write is the run of its actions from its request. */
  lemma {:induction false} WriteIsARun(events: seq<Envelope>, desk: Desk, id: string)
    requires ReplayOf(events).Ok?
    ensures var writes, request := Writes(ReplayOf(events).value, desk), Requested(events, desk, id);
      && (request.Some? <==> id in writes)
      && (request.None? ==> History(events, desk, id) == [])
      && (request.Some? ==>
           && request.value.id == id && IsInitial(request.value) && (request.value.target.Office? <==> desk.OfficeDesk?)
           && Run(request.value, History(events, desk, id)) == Ok(writes[id]))
  {
    hide ApplyEvent, Act, IsInitial;
    if events != [] {
      var init, last := events[..|events| - 1], events[|events| - 1];
      WriteIsARun(init, desk, id);
      WriteStep(ReplayOf(init).value, last, desk, id);
      var h, before := History(events, desk, id), History(init, desk, id);
      if h != before {
        assert h[..|h| - 1] == before;
      }
    }
  }

  /**
   * In every reachable ledger: the record is coherent, every claim was paid for, accepted
   * outcomes never outnumber claims, and effects exceed one only by blind human retries.
   */
  lemma ReachableWrites(events: seq<Envelope>, desk: Desk, id: string)
    requires ReplayOf(events).Ok? && id in Writes(ReplayOf(events).value, desk)
    ensures Requested(events, desk, id).Some?
    ensures var w, h := Writes(ReplayOf(events).value, desk)[id], History(events, desk, id);
      var request := Requested(events, desk, id).value;
      && Coherent(w)
      && Count(h, Claims, w.target) + One(w.status == Approved)
         == Count(h, Approvals, w.target) + Count(h, Retries, w.target) + Count(h, SafeExpiries, w.target)
      && (forall d :: Count(h, OutcomesOf(d), w.target) + One(Owns(w, d)) == Count(h, ClaimsOf(d), w.target))
      && Count(h, MayHaveApplied, w.target) + One(w.status == Dispatching)
         == BlindRetries(request, h) + One(InFlightOrApplied(w.status))
      && (desk.OfficeDesk? ==> BlindRetries(request, h) == 0)
    ensures var w := Writes(ReplayOf(events).value, desk)[id];
      desk.GitLabDesk? ==> Count(History(events, desk, id), SafeExpiries, w.target) == 0
  {
    hide Coherent, IsInitial, InFlightOrApplied;
    WriteIsARun(events, desk, id);
    var h, request := History(events, desk, id), Requested(events, desk, id).value;
    RunKeepsIdentity(request, h);
    ReachableIsCoherent(request, h);
    DispatchAccounting(request, h);
    EffectAccounting(request, h);
    var target := request.target;
    forall d
      ensures Count(h, OutcomesOf(d), target) + One(Owns(Run(request, h).value, d)) == Count(h, ClaimsOf(d), target)
    {
      OutcomeAccounting(request, h, d);
    }
    if desk.GitLabDesk? {
      NoSafeExpiries(h, request.target);
    }
  }

  lemma {:induction false} NoSafeExpiries(h: seq<ExternalWrites.Action>, target: Target)
    requires target.GitLab?
    ensures Count(h, SafeExpiries, target) == 0
  {
    if h != [] {
      NoSafeExpiries(h[..|h| - 1], target);
    }
  }

  /**
   * After any replay an outcome that carries an older claim's id is refused, if that id was
   * claimed once; that claim had exactly one outcome.
   */
  lemma StaleOutcomeRefused(events: seq<Envelope>, desk: Desk, id: string, i: nat, j: nat, e: Envelope)
    requires ReplayOf(events).Ok? && id in Writes(ReplayOf(events).value, desk)
    requires var h := History(events, desk, id);
      && i < j < |h| && h[i].Claim? && h[j].Claim?
      && Count(h, ClaimsOf(h[i].dispatchId), Writes(ReplayOf(events).value, desk)[id].target) == 1
    requires var outcome := ActionIn(e.event, desk, id);
      outcome.Some? && IsOutcomeOf(outcome.value, History(events, desk, id)[i].dispatchId)
    ensures ApplyEvent(ReplayOf(events).value, e).result.Err?
    ensures var h := History(events, desk, id);
      Count(h, OutcomesOf(h[i].dispatchId), Writes(ReplayOf(events).value, desk)[id].target) == 1
  {
    hide ApplyEvent, IsInitial, Act;
    WriteIsARun(events, desk, id);
    var h, request := History(events, desk, id), Requested(events, desk, id).value;
    RunKeepsIdentity(request, h);
    StaleOutcomeRejected(request, h, i, j, ActionIn(e.event, desk, id).value);
    if ApplyEvent(ReplayOf(events).value, e).result.Ok? {
      WriteStep(ReplayOf(events).value, e, desk, id);
    }
  }

  /** In every reachable ledger, an Office release that is not safe to retry was dispatched to effect at most once. */
  lemma ReachableOfficeEffects(events: seq<Envelope>, id: string)
    requires ReplayOf(events).Ok? && id in ReplayOf(events).value.office
    ensures var w, h := ReplayOf(events).value.office[id], History(events, OfficeDesk, id);
      w.target.Office? && (!w.target.payload.RetrySafe(w.target.provider) ==>
        Count(h, MayHaveApplied, w.target) + One(w.status == Dispatching) <= 1)
  {
    hide IsInitial;
    WriteIsARun(events, OfficeDesk, id);
    var h, request := History(events, OfficeDesk, id), Requested(events, OfficeDesk, id).value;
    RunKeepsIdentity(request, h);
    if !request.target.payload.RetrySafe(request.target.provider) {
      AtMostOneEffect(request, h);
    }
  }

  /** A write that is done, rejected, or an Office release in doubt, stays as it is whatever follows. */
  lemma {:induction false} FrozenForever(s: State, events: seq<Envelope>, desk: Desk, id: string)
    requires id in Writes(s, desk) && Frozen(Writes(s, desk)[id]) && ApplyAll(s, events).Ok?
    ensures id in Writes(ApplyAll(s, events).value, desk)
    ensures Writes(ApplyAll(s, events).value, desk)[id] == Writes(s, desk)[id]
  {
    hide ApplyEvent;
    if events != [] {
      var init := events[..|events| - 1];
      FrozenForever(s, init, desk, id);
      WriteStep(ApplyAll(s, init).value, events[|events| - 1], desk, id);
    }
  }

  // ------------------------------------------------------------------
  // Leases and the outbox
  // ------------------------------------------------------------------

  ghost predicate Safe(s: State) {
    Exclusive(s.leases) && Notifications.Consistent(s.outbox)
  }

  /** Accepted or refused, an event keeps leases exclusive and the outbox consistent. */
  lemma EventKeepsSafe(s: State, e: Envelope)
    requires Safe(s)
    ensures Safe(ApplyEvent(s, e).state)
  {
    hide Exclusive, Notifications.Consistent, Notifications.Step, Acquire, Release, Handle;
    match e.event
    case Notification(a) =>
      NotificationStep(s, a);
      if Notifications.Step(s.outbox, a).Ok? {
        Notifications.StepKeepsConsistent(s.outbox, a);
      }
    case LeaseAcquired(lease) =>
      LeaseStep(s, e.event);
      AcquireKeepsExclusive(s.flights, s.leases, lease);
    case LeaseReleased(flowId, taskId, id, at) =>
      LeaseStep(s, e.event);
      ReleaseKeepsExclusive(s.leases, id, flowId, taskId, at);
    case _ =>
  }

  lemma {:induction false} ReplayIsSafe(events: seq<Envelope>)
    requires ReplayOf(events).Ok?
    ensures Safe(ReplayOf(events).value)
  {
    hide ApplyEvent;
    if events != [] {
      ReplayIsSafe(events[..|events| - 1]);
      EventKeepsSafe(ReplayOf(events[..|events| - 1]).value, events[|events| - 1]);
    }
  }

  /** In every reachable ledger no instant has two holders of a resource that either wants alone. */
  lemma NoTwoHoldersEver(events: seq<Envelope>, i: string, j: string, t: int)
    requires ReplayOf(events).Ok?
    requires var leases := ReplayOf(events).value.leases;
      i in leases && j in leases && i != j && Contend(leases[i], leases[j])
    ensures var leases := ReplayOf(events).value.leases; !(leases[i].Holds(t) && leases[j].Holds(t))
  {
    ReplayIsSafe(events);
    NoTwoHolders(ReplayOf(events).value.leases, i, j, t);
  }

  ghost function OutboxActions(events: seq<Envelope>): seq<Notifications.Action> {
    if events == [] then []
    else
      var e := events[|events| - 1].event;
      OutboxActions(events[..|events| - 1]) + if e.Notification? then [e.notification] else []
  }

  /** The outbox only sees the notification events. */
  lemma {:induction false} OutboxIsARun(s: State, events: seq<Envelope>)
    requires ApplyAll(s, events).Ok?
    ensures Notifications.Run(s.outbox, OutboxActions(events)) == Ok(ApplyAll(s, events).value.outbox)
  {
    hide ApplyEvent, Notifications.Step;
    if events != [] {
      var init, last := events[..|events| - 1], events[|events| - 1];
      OutboxIsARun(s, init);
      PartStep(ApplyAll(s, init).value, last);
      var h := OutboxActions(events);
      if last.event.Notification? {
        assert h[..|h| - 1] == OutboxActions(init);
      } else {
        assert h == OutboxActions(init);
      }
    }
  }

  /**
   * From any ledger on: a delivery stays, counts exactly its accepted attempts, and a settled
   * one keeps its status; a consistent outbox stays consistent.
   */
  lemma DeliveryLaws(s: State, events: seq<Envelope>, id: string)
    requires ApplyAll(s, events).Ok? && id in s.outbox.deliveries
    ensures id in ApplyAll(s, events).value.outbox.deliveries
    ensures var d, d' := s.outbox.deliveries[id], ApplyAll(s, events).value.outbox.deliveries[id];
      && d'.attempts == d.attempts + Notifications.Attempts(OutboxActions(events), id)
      && (d.IsSettled() ==> d'.status == d.status)
    ensures Notifications.Consistent(s.outbox) ==> Notifications.Consistent(ApplyAll(s, events).value.outbox)
  {
    hide Notifications.Consistent, ApplyEvent;
    OutboxIsARun(s, events);
    Notifications.DeliveryHistory(s.outbox, OutboxActions(events), id);
    if Notifications.Consistent(s.outbox) {
      Notifications.RunKeepsConsistent(s.outbox, OutboxActions(events));
    }
  }

  // ------------------------------------------------------------------
  // Flows
  // ------------------------------------------------------------------

  /** Every flow enters the stream with unique task ids and keys, as `schedule` builds them. */
  ghost predicate PlansUnique(events: seq<Envelope>) {
    forall e | e in events :: e.event.FlowEvent? && e.event.change.Plan? ==> UniqueTasks(e.event.change.flow.tasks)
  }

  lemma {:induction false} ReplayKeepsUnique(events: seq<Envelope>)
    requires ReplayOf(events).Ok? && PlansUnique(events)
    ensures AllUnique(ReplayOf(events).value.book)
  {
    hide AllUnique, UniqueTasks, ApplyEvent, FlowRevisions.Step;
    if events != [] {
      var init, last := events[..|events| - 1], events[|events| - 1];
      ReplayKeepsUnique(init);
      PartStep(ReplayOf(init).value, last);
      assert last in events;
      if last.event.FlowEvent? {
        StepKeepsUnique(ReplayOf(init).value.book, last.event.change);
      }
    } else {
      EmptyBookIsUnique();
    }
  }

  lemma EmptyBookIsUnique()
    ensures AllUnique(EMPTY.book)
  {
  }

  /**
   * In every reachable ledger the revision that `reschedule` computes for a flow is accepted, and
   * every task gets its estimate.
   */
  lemma RescheduleIsAccepted(events: seq<Envelope>, e: Envelope)
    requires ReplayOf(events).Ok? && PlansUnique(events) && |events| < MAX_SEQUENCE
    requires e.sequence == |events| + 1 && e.event.FlowEvent? && e.event.change.Revise?
    requires var a, flows := e.event.change, ReplayOf(events).value.book.flows;
      a.flowId in flows && a.revision.taskEstimates.Keys == Elements(TaskIds(flows[a.flowId].tasks))
    ensures ReplayOf(events + [e]).Ok?
    ensures var a := e.event.change;
      var before := ReplayOf(events).value.book.flows[a.flowId];
      var after := ReplayOf(events + [e]).value.book.flows[a.flowId];
      |after.tasks| == |before.tasks| && forall i | 0 <= i < |before.tasks| ::
        && before.tasks[i].id in a.revision.taskEstimates
        && after.tasks[i] == before.tasks[i].(estimate := a.revision.taskEstimates[before.tasks[i].id])
  {
    hide ReviseFlow, Elements, Distinct;
    StreamIsNumbered(EMPTY, events);
    ReplayKeepsUnique(events);
    var a := e.event.change;
    RescheduleAcceptedIffUniqueIds(ReplayOf(events).value.book.flows[a.flowId], a.revision);
    assert (events + [e])[..|events|] == events;
  }

  // ------------------------------------------------------------------
  // Refusals
  // ------------------------------------------------------------------

  /**
   * Exactly when a refused event leaves the ledger as it was; only flows and messages are ever
   * written before a refusal.
   */
  ghost predicate Harmless(s: State, e: Envelope) {
    s.lastSequence < MAX_SEQUENCE && e.sequence == s.lastSequence + 1 ==>
      match e.event
      case FlowEvent(a) => FlowRevisions.Harmless(s.book, a)
      case MessageAcknowledged(flowId, id, acknowledgements) =>
        id in s.messages && s.messages[id].flowId == flowId ==>
          Messages.HarmlessAcknowledgements(s.messages[id], acknowledgements)
      case _ => true
  }

  /** The arms that check everything before they write. */
  lemma OtherRefusals(s: State, e: DomainEvent)
    requires Handle(s, e).result.Err? && !e.FlowEvent? && !e.MessageAcknowledged?
    ensures Handle(s, e).state == s
  {
    hide Notifications.Step, Acquire, Release, Record, ActOn, FindFlowTask, FindAddressee;
  }

  /** A refused event is atomic iff it is harmless. */
  lemma RefusalIsAtomicIffHarmless(s: State, e: Envelope)
    requires ApplyEvent(s, e).result.Err?
    ensures ApplyEvent(s, e).state == s <==> Harmless(s, e)
  {
    hide FlowRevisions.Step, FlowRevisions.Harmless, Messages.RecordAll, Messages.HarmlessAcknowledgements, Handle;
    if s.lastSequence < MAX_SEQUENCE && e.sequence == s.lastSequence + 1 {
      match e.event
      case FlowEvent(a) =>
        FlowStep(s, a);
        RefusalChangesNothingIffHarmless(s.book, a);
      case MessageAcknowledged(flowId, id, acknowledgements) =>
        AcknowledgeStep(s, flowId, id, acknowledgements);
        if id in s.messages && s.messages[id].flowId == flowId {
          Messages.AcknowledgingKeepsIffHarmless(s.messages[id], acknowledgements);
          var after := Messages.RecordAll(s.messages[id], acknowledgements).state;
          assert s.messages[id := after][id] == after;
        }
      case _ => OtherRefusals(s, e.event);
    }
  }

  /** Whatever was refused, only flows and messages can have changed. */
  lemma RefusalTouchesFlowsAndMessagesOnly(s: State, e: Envelope)
    requires ApplyEvent(s, e).result.Err?
    ensures var after := ApplyEvent(s, e).state;
      after.(book := s.book, messages := s.messages) == s && after.book.changes == s.book.changes
  {
    hide FlowRevisions.Step, Messages.Acknowledge, Handle;
    if s.lastSequence < MAX_SEQUENCE && e.sequence == s.lastSequence + 1 {
      match e.event
      case FlowEvent(a) =>
        FlowStep(s, a);
        RefusalKeepsRequests(s.book, a);
      case MessageAcknowledged(flowId, id, acknowledgements) => AcknowledgeStep(s, flowId, id, acknowledgements);
      case _ => OtherRefusals(s, e.event);
    }
  }

  lemma RefusalKeepsRequests(b: Book, a: FlowRevisions.Action)
    requires FlowRevisions.Step(b, a).result.Err?
    ensures FlowRevisions.Step(b, a).state.changes == b.changes
  {
    hide ReviseFlow, PushTasks;
  }
}
