/**
 * Flights, leases, endpoints, deliveries and messages read off the stream alone: what the last
 * events say of each record, and exactly which next event `apply` of `src/core/state.rs` accepts.
 */
module LedgerHistories {
  import opened Wrappers
  import opened Errors
  import opened Domain
  import opened Leases
  import opened Ledger
  import opened LedgerLaws
  import opened FlowHistories
  import Notifications
  import Messages

  function Lookup<V>(m: map<string, V>, id: string): Option<V> {
    if id in m then Some(m[id]) else None
  }

  // ------------------------------------------------------------------
  // Flights and leases
  // ------------------------------------------------------------------

  /** A flight is what last authorized it. */
  ghost function FlightTold(events: seq<Envelope>, id: string): Option<FlightLease> {
    if events == [] then None
    else
      var init, e := events[..|events| - 1], events[|events| - 1].event;
      if e.FlightAuthorized? && e.flight.id == id then Some(e.flight) else FlightTold(init, id)
  }

  /** A lease is what last acquired it, released once that happened after. */
  ghost function LeaseTold(events: seq<Envelope>, id: string): Option<ResourceLease> {
    if events == [] then None
    else
      var before, e := LeaseTold(events[..|events| - 1], id), events[|events| - 1].event;
      if e.LeaseAcquired? && e.lease.id == id then Some(e.lease)
      else if e.LeaseReleased? && e.leaseId == id && before.Some? then
        Some(before.value.(status := Released, releasedAt := Some(e.releasedAt)))
      else before
  }

  lemma LeasePartStep(s: State, e: Envelope)
    requires ApplyEvent(s, e).result.Ok?
    ensures var before, after := s.leases, ApplyEvent(s, e).state.leases;
      match e.event
      case LeaseAcquired(lease) => Acquire(s.flights, before, lease) == Ok(after)
      case LeaseReleased(flowId, taskId, id, at) => Release(before, id, flowId, taskId, at) == Ok(after)
      case _ => after == before
    ensures ApplyEvent(s, e).state.flights ==
      if e.event.FlightAuthorized? then s.flights[e.event.flight.id := e.event.flight] else s.flights
  {
    hide Acquire, Release, Handle, FindFlowTask;
    LeaseStep(s, e.event);
    if e.event.FlightAuthorized? {
      FlightStep(s, e.event.flight);
    }
  }

  lemma {:induction false} LeasesAreTold(events: seq<Envelope>, id: string)
    requires ReplayOf(events).Ok?
    ensures Lookup(ReplayOf(events).value.flights, id) == FlightTold(events, id)
    ensures Lookup(ReplayOf(events).value.leases, id) == LeaseTold(events, id)
    ensures LeaseTold(events, id).Some? ==> LeaseTold(events, id).value.id == id
  {
    hide ApplyEvent;
    if events != [] {
      var init, last := events[..|events| - 1], events[|events| - 1];
      LeasesAreTold(init, id);
      LeasePartStep(ReplayOf(init).value, last);
    }
  }

  /** What the stream tells of this id blocks the lease. */
  ghost predicate BlockedBy(events: seq<Envelope>, id: string, lease: ResourceLease) {
    LeaseTold(events, id).Some? && Blocks(LeaseTold(events, id).value, lease)
  }

  /** The next event may acquire a lease iff its flight is of that task and principal, and no lease blocks it. */
  lemma AcquireAcceptedIff(events: seq<Envelope>, e: Envelope)
    requires ReplayOf(events).Ok? && |events| < MAX_SEQUENCE && e.sequence == |events| + 1 && e.event.LeaseAcquired?
    ensures ReplayOf(events + [e]).Ok? <==>
      var lease := e.event.lease;
      var flight := FlightTold(events, lease.flightLeaseId);
      && flight.Some? && flight.value.flowId == lease.flowId && flight.value.taskId == lease.taskId
      && flight.value.principalId == lease.principalId
      && forall id :: !BlockedBy(events, id, lease)
    ensures ReplayOf(events + [e]).Err? ==>
      var lease := e.event.lease;
      var flight := FlightTold(events, lease.flightLeaseId);
      ReplayOf(events + [e]).error ==
      if flight.None? then NotFound(lease.flightLeaseId)
      else if flight.value.flowId != lease.flowId || flight.value.taskId != lease.taskId
              || flight.value.principalId != lease.principalId then Validation(ScopeMismatch(lease.id))
      else InvalidTransition(lease.id)
  {
    hide Handle, ApplyAll, FlightTold, LeaseTold, Acquire, Blocks, BlockedBy;
    NextEvent(events, e);
    var s, lease := ReplayOf(events).value, e.event.lease;
    LeaseStep(s, e.event);
    LeasesAreTold(events, lease.flightLeaseId);
    AcquireOkIff(s.flights, s.leases, lease);
    forall id ensures Lookup(s.leases, id) == LeaseTold(events, id) {
      LeasesAreTold(events, id);
    }
    NothingBlocks(events, s.leases, lease);
  }

  lemma NothingBlocks(events: seq<Envelope>, leases: map<string, ResourceLease>, lease: ResourceLease)
    requires forall id :: Lookup(leases, id) == LeaseTold(events, id)
    ensures (forall id | id in leases :: !Blocks(leases[id], lease)) <==> forall id :: !BlockedBy(events, id, lease)
  {
    hide Blocks;
    forall id ensures BlockedBy(events, id, lease) <==> id in leases && Blocks(leases[id], lease) {
      assert Lookup(leases, id) == LeaseTold(events, id);
    }
  }

  /** The next event may release a lease iff it was acquired for that task and not released since. */
  lemma ReleaseAcceptedIff(events: seq<Envelope>, e: Envelope)
    requires ReplayOf(events).Ok? && |events| < MAX_SEQUENCE && e.sequence == |events| + 1 && e.event.LeaseReleased?
    ensures ReplayOf(events + [e]).Ok? <==>
      var lease := LeaseTold(events, e.event.leaseId);
      && lease.Some? && lease.value.flowId == e.event.flowId && lease.value.taskId == e.event.taskId
      && lease.value.status != Released
    ensures ReplayOf(events + [e]).Err? ==>
      var id := e.event.leaseId;
      var lease := LeaseTold(events, id);
      ReplayOf(events + [e]).error ==
      if lease.None? then NotFound(id)
      else if lease.value.flowId != e.event.flowId || lease.value.taskId != e.event.taskId then
        Validation(ScopeMismatch(id))
      else InvalidTransition(id)
  {
    hide Handle, ApplyAll, LeaseTold;
    NextEvent(events, e);
    LeaseStep(ReplayOf(events).value, e.event);
    LeasesAreTold(events, e.event.leaseId);
  }

  /** The next event may authorize a flight iff its flow has the task. */
  lemma FlightAcceptedIff(events: seq<Envelope>, e: Envelope)
    requires ReplayOf(events).Ok? && |events| < MAX_SEQUENCE && e.sequence == |events| + 1 && e.event.FlightAuthorized?
    ensures ReplayOf(events + [e]).Ok? <==>
      var flight, flows := e.event.flight, ReplayOf(events).value.book.flows;
      flight.flowId in flows && HasNamed(flows[flight.flowId].tasks, flight.taskId)
    ensures ReplayOf(events + [e]).Err? ==>
      var flight := e.event.flight;
      ReplayOf(events + [e]).error ==
      NotFound(if flight.flowId in ReplayOf(events).value.book.flows then flight.taskId else flight.flowId)
  {
    hide Handle, ApplyAll;
    NextEvent(events, e);
    FlightStep(ReplayOf(events).value, e.event.flight);
  }

  // ------------------------------------------------------------------
  // Endpoints and deliveries
  // ------------------------------------------------------------------

  ghost function EndpointTold(h: seq<Notifications.Action>, id: string): Option<Notifications.Endpoint> {
    if h == [] then None
    else
      var before := EndpointTold(h[..|h| - 1], id);
      match h[|h| - 1]
      case Register(endpoint) => if endpoint.id == id then Some(endpoint) else before
      case Disable(endpointId, at) =>
        if endpointId != id || before.None? then before
        else Some(before.value.(active := false, disabledAt := Some(at)))
      case _ => before
  }

  /** A delivery as it was queued, with the outcome of its last attempt, or cancelled with its endpoint. */
  ghost function DeliveryTold(h: seq<Notifications.Action>, id: string): Option<Notifications.Delivery> {
    if h == [] then None
    else
      var before := DeliveryTold(h[..|h| - 1], id);
      match h[|h| - 1]
      case Queue(delivery) => if delivery.id == id then Some(delivery) else before
      case Deliver(deliveryId, response, at) =>
        if deliveryId != id || before.None? then before
        else Some(before.value.(
          status := Notifications.Delivered, attempts := before.value.attempts + 1, lastAttemptAt := Some(at),
          deliveredAt := Some(at), responseStatus := Some(response), lastError := None))
      case Fail(deliveryId, response, error, at) =>
        if deliveryId != id || before.None? then before
        else Some(before.value.(
          status := Notifications.Failed, attempts := before.value.attempts + 1, lastAttemptAt := Some(at),
          responseStatus := response, lastError := Some(error)))
      case Disable(endpointId, _) =>
        if before.None? || before.value.endpointId != endpointId || before.value.status == Notifications.Delivered then
          before
        else Some(before.value.(
          status := Notifications.Cancelled, lastError := Some("notification endpoint disabled")))
      case _ => before
  }

  lemma {:induction false} OutboxIsTold(h: seq<Notifications.Action>, id: string)
    requires Notifications.Run(EMPTY.outbox, h).Ok?
    ensures Lookup(Notifications.Run(EMPTY.outbox, h).value.endpoints, id) == EndpointTold(h, id)
    ensures Lookup(Notifications.Run(EMPTY.outbox, h).value.deliveries, id) == DeliveryTold(h, id)
  {
    if h != [] {
      OutboxIsTold(h[..|h| - 1], id);
    }
  }

  /** What the next action on the outbox needs. */
  ghost predicate OutboxTakes(h: seq<Notifications.Action>, a: Notifications.Action) {
    match a
    case Register(endpoint) => EndpointTold(h, endpoint.id).None?
    case Disable(id, _) => EndpointTold(h, id).Some? && EndpointTold(h, id).value.active
    case Queue(delivery) =>
      && EndpointTold(h, delivery.endpointId).Some? && EndpointTold(h, delivery.endpointId).value.active
      && DeliveryTold(h, delivery.id).None?
    case Deliver(id, _, _) => Undelivered(DeliveryTold(h, id))
    case Fail(id, _, _, _) => Undelivered(DeliveryTold(h, id))
  }

  predicate Undelivered(d: Option<Notifications.Delivery>) {
    d.Some? && (d.value.status == Notifications.Pending || d.value.status == Notifications.Failed)
  }

  /** And what a refusal says. */
  ghost function OutboxRefusal(h: seq<Notifications.Action>, a: Notifications.Action): RelayError {
    match a
    case Register(endpoint) => Validation(AlreadyExists(endpoint.id))
    case Disable(id, _) => if EndpointTold(h, id).None? then NotFound(id) else InvalidTransition(id)
    case Queue(delivery) =>
      if EndpointTold(h, delivery.endpointId).None? then NotFound(delivery.endpointId)
      else Validation(AlreadyExists(delivery.id))
    case Deliver(id, _, _) => if DeliveryTold(h, id).None? then NotFound(id) else InvalidTransition(id)
    case Fail(id, _, _, _) => if DeliveryTold(h, id).None? then NotFound(id) else InvalidTransition(id)
  }

  /** Endpoints and deliveries are what the stream last said of them. */
  lemma OutboxTellsItsHistory(events: seq<Envelope>, id: string)
    requires ReplayOf(events).Ok?
    ensures Lookup(ReplayOf(events).value.outbox.endpoints, id) == EndpointTold(OutboxActions(events), id)
    ensures Lookup(ReplayOf(events).value.outbox.deliveries, id) == DeliveryTold(OutboxActions(events), id)
  {
    OutboxIsARun(EMPTY, events);
    OutboxIsTold(OutboxActions(events), id);
  }

  /** The next event is accepted as a notification event iff the outbox takes it. */
  lemma NotificationAcceptedIff(events: seq<Envelope>, e: Envelope)
    requires ReplayOf(events).Ok? && |events| < MAX_SEQUENCE && e.sequence == |events| + 1 && e.event.Notification?
    ensures ReplayOf(events + [e]).Ok? <==> OutboxTakes(OutboxActions(events), e.event.notification)
    ensures ReplayOf(events + [e]).Err? ==>
      ReplayOf(events + [e]).error == OutboxRefusal(OutboxActions(events), e.event.notification)
  {
    hide Handle, ApplyAll, EndpointTold, DeliveryTold, OutboxActions;
    NextEvent(events, e);
    NotificationStep(ReplayOf(events).value, e.event.notification);
    match e.event.notification
    case Register(endpoint) => OutboxTellsItsHistory(events, endpoint.id);
    case Disable(id, _) => OutboxTellsItsHistory(events, id);
    case Queue(delivery) =>
      OutboxTellsItsHistory(events, delivery.endpointId);
      OutboxTellsItsHistory(events, delivery.id);
    case Deliver(id, _, _) => OutboxTellsItsHistory(events, id);
    case Fail(id, _, _, _) => OutboxTellsItsHistory(events, id);
  }

  // ------------------------------------------------------------------
  // Messages
  // ------------------------------------------------------------------

  /** The next event may post a message iff its flow is there, and its task if it names one. */
  lemma PostAcceptedIff(events: seq<Envelope>, e: Envelope)
    requires ReplayOf(events).Ok? && |events| < MAX_SEQUENCE && e.sequence == |events| + 1 && e.event.MessagePosted?
    ensures ReplayOf(events + [e]).Ok? <==>
      var m, flows := e.event.message, ReplayOf(events).value.book.flows;
      && m.flowId in flows
      && (m.taskId.Some? ==> HasNamed(flows[m.flowId].tasks, m.taskId.value))
    ensures ReplayOf(events + [e]).Ok? ==>
      ReplayOf(events + [e]).value.messages
      == ReplayOf(events).value.messages[e.event.message.id := e.event.message]
    ensures ReplayOf(events + [e]).Err? ==>
      var m := e.event.message;
      if m.flowId !in ReplayOf(events).value.book.flows then ReplayOf(events + [e]).error == NotFound(m.flowId)
      else m.taskId.Some? && ReplayOf(events + [e]).error == NotFound(m.taskId.value)
  {
    hide Handle, ApplyAll;
    NextEvent(events, e);
    PostStep(ReplayOf(events).value, e.event.message);
  }

  /** The next event may acknowledge a message iff it is of that flow and all who acknowledge are recipients. */
  lemma AcknowledgementAcceptedIff(events: seq<Envelope>, e: Envelope)
    requires ReplayOf(events).Ok? && |events| < MAX_SEQUENCE && e.sequence == |events| + 1
    requires e.event.MessageAcknowledged?
    ensures var id, messages := e.event.messageId, ReplayOf(events).value.messages;
      ReplayOf(events + [e]).Ok? <==>
      && id in messages && messages[id].flowId == e.event.flowId
      && forall a | a in e.event.acknowledgements :: a.recipientId in messages[id].recipients
    ensures ReplayOf(events + [e]).Err? ==>
      var id, incoming, messages := e.event.messageId, e.event.acknowledgements, ReplayOf(events).value.messages;
      if id !in messages then ReplayOf(events + [e]).error == NotFound(id)
      else if messages[id].flowId != e.event.flowId then
        ReplayOf(events + [e]).error == Validation(FlowMismatch(id, e.event.flowId))
      else exists i | 0 <= i < |incoming| ::
        && ReplayOf(events + [e]).error == Validation(UnknownRecipient(messages[id].id, incoming[i].recipientId))
        && incoming[i].recipientId !in messages[id].recipients
        && forall j | 0 <= j < i :: incoming[j].recipientId in messages[id].recipients
  {
    hide Handle, ApplyAll, Messages.RecordAll, Messages.Extends;
    NextEvent(events, e);
    var id, incoming, messages := e.event.messageId, e.event.acknowledgements, ReplayOf(events).value.messages;
    AcknowledgeStep(ReplayOf(events).value, e.event.flowId, id, incoming);
    if id in messages {
      Messages.RecordAllExtends(messages[id], incoming);
      AllOweIff(messages[id].recipients, incoming);
      FirstUnknownRefused(messages[id], incoming);
    }
  }

  lemma {:induction false} FirstUnknownRefused(m: Messages.Message, incoming: seq<Messages.Acknowledgement>)
    ensures Messages.RecordAll(m, incoming).result.Err? ==> exists i | 0 <= i < |incoming| ::
      && Messages.RecordAll(m, incoming).result == Err(Validation(UnknownRecipient(m.id, incoming[i].recipientId)))
      && incoming[i].recipientId !in m.recipients
      && forall j | 0 <= j < i :: incoming[j].recipientId in m.recipients
    decreases |incoming|
  {
    if incoming != [] && incoming[0].recipientId in m.recipients && Messages.RecordAll(m, incoming).result.Err? {
      var rest := incoming[1..];
      var m' := m.(acknowledgements := Messages.Record(m.acknowledgements, incoming[0]));
      FirstUnknownRefused(m', rest);
      var k :| 0 <= k < |rest| && rest[k].recipientId !in m.recipients
        && Messages.RecordAll(m', rest).result == Err(Validation(UnknownRecipient(m.id, rest[k].recipientId)))
        && forall j | 0 <= j < k :: rest[j].recipientId in m.recipients;
      assert incoming[k + 1] == rest[k];
      assert forall j | 0 < j < k + 1 :: incoming[j] == rest[j - 1];
    }
  }

  /** Then, for each recipient r, the last acknowledgement stands, and nothing else about messages changes. */
  lemma AcknowledgementStands(events: seq<Envelope>, e: Envelope, r: string)
    requires ReplayOf(events).Ok? && ReplayOf(events + [e]).Ok? && e.event.MessageAcknowledged?
    ensures var id, incoming, before := e.event.messageId, e.event.acknowledgements, ReplayOf(events).value.messages;
      var after := ReplayOf(events + [e]).value.messages;
      && id in before && id in after && after == before[id := after[id]]
      && after[id] == before[id].(acknowledgements := after[id].acknowledgements)
      && (forall i | 0 <= i < |incoming| && Messages.LastOf(incoming, |incoming|, i) && incoming[i].recipientId == r ::
           Messages.Standing(after[id].acknowledgements, r) == Some(incoming[i]))
      && ((forall i | 0 <= i < |incoming| :: incoming[i].recipientId != r) ==>
           Messages.Standing(after[id].acknowledgements, r) == Messages.Standing(before[id].acknowledgements, r))
  {
    hide Handle, Messages.RecordAll, Messages.Standing, Messages.LastOf, Messages.Extends;
    assert (events + [e])[..|events|] == events;
    var id, incoming, messages := e.event.messageId, e.event.acknowledgements, ReplayOf(events).value.messages;
    AcknowledgeStep(ReplayOf(events).value, e.event.flowId, id, incoming);
    if id in messages {
      Messages.RecordAllExtends(messages[id], incoming);
      Messages.RecordAllStands(messages[id], incoming, r);
    }
  }

  lemma {:induction false} AllOweIff(recipients: seq<string>, incoming: seq<Messages.Acknowledgement>)
    ensures Messages.Leading(recipients, incoming) == |incoming| <==>
      forall a | a in incoming :: a.recipientId in recipients
  {
    if incoming != [] {
      assert incoming == [incoming[0]] + incoming[1..];
      AllOweIff(recipients, incoming[1..]);
    }
  }
}
