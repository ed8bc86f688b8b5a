/** The notification outbox: `src/core/state.rs` lines 358-458. */
module Notifications {
  import opened Wrappers
  import opened Errors

  datatype DeliveryStatus = Pending | Delivered | Failed | Cancelled

  datatype Endpoint = Endpoint(id: string, active: bool, disabledAt: Option<int>)

  /** `attempts` is a `u32` in the source; it is unbounded here. */
  datatype Delivery = Delivery(
    id: string,
    endpointId: string,
    status: DeliveryStatus,
    attempts: nat,
    lastAttemptAt: Option<int>,
    deliveredAt: Option<int>,
    responseStatus: Option<nat>,
    lastError: Option<string>
  ) {
    predicate IsSettled() { status == Delivered || status == Cancelled }
  }

  datatype Outbox = Outbox(endpoints: map<string, Endpoint>, deliveries: map<string, Delivery>)

  datatype Action =
    | Register(endpoint: Endpoint)
    | Disable(endpointId: string, at: int)
    | Queue(delivery: Delivery)
    | Deliver(deliveryId: string, response: nat, at: int)
    | Fail(deliveryId: string, failureResponse: Option<nat>, error: string, at: int)

  const DISABLED := "notification endpoint disabled"

  /** What disabling an endpoint does to one delivery. */
  function Cancel(d: Delivery, endpointId: string): Delivery {
    if d.endpointId == endpointId && d.status != Delivered
    then d.(status := Cancelled, lastError := Some(DISABLED))
    else d
  }

  function Step(o: Outbox, a: Action): Result<Outbox, RelayError> {
    match a
    case Register(endpoint) =>
      if endpoint.id in o.endpoints then Err(Validation(AlreadyExists(endpoint.id)))
      else Ok(o.(endpoints := o.endpoints[endpoint.id := endpoint]))
    case Disable(id, at) =>
      if id !in o.endpoints then Err(NotFound(id))
      else if !o.endpoints[id].active then Err(InvalidTransition(id))
      else Ok(Outbox(
        o.endpoints[id := o.endpoints[id].(active := false, disabledAt := Some(at))],
        map d | d in o.deliveries :: Cancel(o.deliveries[d], id)))
    case Queue(delivery) =>
      if delivery.endpointId !in o.endpoints then Err(NotFound(delivery.endpointId))
      else if !o.endpoints[delivery.endpointId].active || delivery.id in o.deliveries then
        Err(Validation(AlreadyExists(delivery.id)))
      else Ok(o.(deliveries := o.deliveries[delivery.id := delivery]))
    case Deliver(id, response, at) =>
      if id !in o.deliveries then Err(NotFound(id))
      else if o.deliveries[id].IsSettled() then Err(InvalidTransition(id))
      else
        var d := o.deliveries[id];
        Ok(o.(deliveries := o.deliveries[id := d.(status := Delivered, attempts := d.attempts + 1,
          lastAttemptAt := Some(at), deliveredAt := Some(at), responseStatus := Some(response), lastError := None)]))
    case Fail(id, response, error, at) =>
      if id !in o.deliveries then Err(NotFound(id))
      else if o.deliveries[id].IsSettled() then Err(InvalidTransition(id))
      else
        var d := o.deliveries[id];
        Ok(o.(deliveries := o.deliveries[id := d.(status := Failed, attempts := d.attempts + 1,
          lastAttemptAt := Some(at), responseStatus := response, lastError := Some(error))]))
  }

  // ------------------------------------------------------------------
  // Runs
  // ------------------------------------------------------------------

  ghost function Run(o: Outbox, h: seq<Action>): Result<Outbox, RelayError> {
    if h == [] then Ok(o)
    else
      var before := Run(o, h[..|h| - 1]);
      if before.Err? then before else Step(before.value, h[|h| - 1])
  }

  /** Every delivery has a registered endpoint, and behind a disabled endpoint nothing is left to deliver. */
  ghost predicate Consistent(o: Outbox) {
    forall id | id in o.deliveries ::
      var d := o.deliveries[id];
      d.endpointId in o.endpoints && (!o.endpoints[d.endpointId].active ==> d.IsSettled())
  }

  lemma StepKeepsConsistent(o: Outbox, a: Action)
    requires Consistent(o) && Step(o, a).Ok?
    ensures Consistent(Step(o, a).value)
  {
  }

  predicate IsAttempt(a: Action, id: string) {
    (a.Deliver? || a.Fail?) && a.deliveryId == id
  }

  ghost function Attempts(h: seq<Action>, id: string): nat {
    if h == [] then 0 else Attempts(h[..|h| - 1], id) + if IsAttempt(h[|h| - 1], id) then 1 else 0
  }

  /**
   * From any outbox: deliveries stay, settled ones keep their status, endpoints are never
   * re-enabled, and `attempts` grows by exactly the accepted attempts.
   */
  lemma {:induction false} DeliveryHistory(o: Outbox, h: seq<Action>, id: string)
    requires id in o.deliveries && Run(o, h).Ok?
    ensures id in Run(o, h).value.deliveries
    ensures var d, d' := o.deliveries[id], Run(o, h).value.deliveries[id];
      && d'.endpointId == d.endpointId
      && d'.attempts == d.attempts + Attempts(h, id)
      && (d.IsSettled() ==> d'.status == d.status && Attempts(h, id) == 0)
  {
    if h != [] {
      DeliveryHistory(o, h[..|h| - 1], id);
    }
  }

  lemma {:induction false} RunKeepsConsistent(o: Outbox, h: seq<Action>)
    requires Consistent(o) && Run(o, h).Ok?
    ensures Consistent(Run(o, h).value)
  {
    if h != [] {
      RunKeepsConsistent(o, h[..|h| - 1]);
      StepKeepsConsistent(Run(o, h[..|h| - 1]).value, h[|h| - 1]);
    }
  }
}
