/**
 * Human-gated writes to external systems: the Office release and GitLab write arms of
 * `apply` in `src/core/state.rs` (lines 986-1302, 1529-1569, 1640-1662).
 *
 * The two protocols share one record and one set of actions here. They differ in three
 * places, all kept: the initial hash check, which failures a human may retry, and what
 * an expired dispatch becomes.
 */
module ExternalWrites {
  import opened Wrappers
  import opened Errors

  datatype OfficeProvider = Microsoft365 | GoogleWorkspace

  datatype OfficePayload =
    | DriveUpload(artifactId: string, fileId: Option<string>)
    | SendEmail(subject: string)
    | CreateCalendarEvent(calendarId: string)
  {
    predicate RetrySafe(provider: OfficeProvider) {
      match this
      case DriveUpload(_, fileId) => provider == Microsoft365 || fileId.Some?
      case CreateCalendarEvent(_) => true
      case SendEmail(_) => false
    }
  }

  datatype Target = Office(provider: OfficeProvider, payload: OfficePayload) | GitLab

  /** `Done` is Released for Office and Written for GitLab. */
  datatype Status = Requested | Approved | Dispatching | Done | Failed | Indeterminate | Rejected

  datatype Write = Write(
    id: string,
    flowId: string,
    taskId: string,
    target: Target,
    payloadSha256: string,
    status: Status,
    reviewedBy: Option<string>,
    dispatchId: Option<string>,
    result: Option<string>
  )

  /** `retrySafe` is what an Office expiry event claims; a GitLab expiry carries no such claim. */
  datatype Action =
    | Approve(reviewer: string)
    | Reject(reviewer: string)
    | Claim(dispatchId: string)
    | Succeed(dispatchId: string, result: string)
    | Fail(dispatchId: string, indeterminate: bool)
    | ApproveRetry(reviewer: string)
    | Expire(dispatchId: string, retrySafe: bool)

  predicate IsLowerHex(s: string) {
    forall i | 0 <= i < |s| :: '0' <= s[i] <= '9' || 'a' <= s[i] <= 'f'
  }

  /** The state a request must be recorded in. */
  predicate IsInitial(w: Write) {
    && w.status == Requested && |w.payloadSha256| == 64 && (w.target.GitLab? ==> IsLowerHex(w.payloadSha256))
    && w.reviewedBy.None? && w.dispatchId.None? && w.result.None?
  }

  predicate Owns(w: Write, dispatchId: string) {
    w.status == Dispatching && w.dispatchId == Some(dispatchId)
  }

  predicate Retryable(w: Write) {
    w.status == Failed || (w.target.GitLab? && w.status == Indeterminate)
  }

  function Act(w: Write, a: Action): Result<Write, RelayError> {
    match a
    case Approve(reviewer) =>
      if w.status != Requested then Err(InvalidTransition(w.id))
      else Ok(w.(status := Approved, reviewedBy := Some(reviewer)))
    case Reject(reviewer) =>
      if w.status != Requested then Err(InvalidTransition(w.id))
      else Ok(w.(status := Rejected, reviewedBy := Some(reviewer)))
    case Claim(dispatchId) =>
      if w.status != Approved then Err(InvalidTransition(w.id))
      else Ok(w.(status := Dispatching, dispatchId := Some(dispatchId)))
    case Succeed(dispatchId, result) =>
      if !Owns(w, dispatchId) then Err(InvalidTransition(w.id))
      else Ok(w.(status := Done, result := Some(result)))
    case Fail(dispatchId, indeterminate) =>
      if !Owns(w, dispatchId) then Err(InvalidTransition(w.id))
      else Ok(w.(status := if indeterminate then Indeterminate else Failed))
    case ApproveRetry(reviewer) =>
      if !Retryable(w) then Err(InvalidTransition(w.id))
      else Ok(w.(status := Approved, reviewedBy := Some(reviewer), dispatchId := None))
    case Expire(dispatchId, retrySafe) =>
      if !Owns(w, dispatchId) then Err(InvalidTransition(w.id))
      else if w.target.GitLab? then Ok(w.(status := Indeterminate))
      else if w.target.payload.RetrySafe(w.target.provider) != retrySafe then
        Err(Validation(RecoverySafetyMismatch(w.id)))
      else if retrySafe then Ok(w.(status := Approved, dispatchId := None))
      else Ok(w.(status := Indeterminate))
  }

  // ------------------------------------------------------------------
  // Runs of one write
  // ------------------------------------------------------------------

  ghost function Run(w: Write, h: seq<Action>): Result<Write, RelayError> {
    if h == [] then Ok(w)
    else
      var before := Run(w, h[..|h| - 1]);
      if before.Err? then before else Act(before.value, h[|h| - 1])
  }

  /** What is counted along a run. */
  datatype Kind =
    | Approvals | Retries | SafeExpiries | Claims | MayHaveApplied
    | ClaimsOf(d: string) | OutcomesOf(d: string)

  predicate IsOutcomeOf(a: Action, d: string) {
    (a.Succeed? || a.Fail? || a.Expire?) && a.dispatchId == d
  }

  /** A success, an unclear failure, or an expiry that is not a declared safe retry. */
  predicate IsEffect(a: Action, target: Target) {
    a.Succeed? || (a.Fail? && a.indeterminate) || (a.Expire? && (target.GitLab? || !a.retrySafe))
  }

  predicate Counts(a: Action, k: Kind, target: Target) {
    match k
    case Approvals => a.Approve?
    case Retries => a.ApproveRetry?
    case SafeExpiries => a.Expire? && target.Office? && a.retrySafe
    case Claims => a.Claim?
    case MayHaveApplied => IsEffect(a, target)
    case ClaimsOf(d) => a.Claim? && a.dispatchId == d
    case OutcomesOf(d) => IsOutcomeOf(a, d)
  }

  ghost function Count(h: seq<Action>, k: Kind, target: Target): nat {
    if h == [] then 0
    else Count(h[..|h| - 1], k, target) + if Counts(h[|h| - 1], k, target) then 1 else 0
  }

  function One(b: bool): nat { if b then 1 else 0 }

  predicate InFlightOrApplied(s: Status) {
    s == Dispatching || s == Done || s == Indeterminate
  }

  /** A dispatch id is set exactly while and after dispatching, a result exactly when done, a reviewer once reviewed. */
  predicate Coherent(w: Write) {
    && (w.dispatchId.Some? <==> w.status in {Dispatching, Done, Failed, Indeterminate})
    && (w.result.Some? <==> w.status == Done)
    && (w.reviewedBy.Some? <==> w.status != Requested)
  }

  lemma {:induction false} RunKeepsIdentity(w: Write, h: seq<Action>)
    ensures var r := Run(w, h); r.Ok? ==>
      r.value.id == w.id && r.value.flowId == w.flowId && r.value.taskId == w.taskId
      && r.value.target == w.target && r.value.payloadSha256 == w.payloadSha256
  {
    if h != [] {
      RunKeepsIdentity(w, h[..|h| - 1]);
    }
  }

  lemma {:induction false} ReachableIsCoherent(w: Write, h: seq<Action>)
    requires IsInitial(w) && Run(w, h).Ok?
    ensures Coherent(Run(w, h).value)
  {
    if h != [] {
      ReachableIsCoherent(w, h[..|h| - 1]);
    }
  }

  /** Every claim was paid for: by an approval, a human retry, or a declared safe expiry. */
  lemma {:induction false} DispatchAccounting(w: Write, h: seq<Action>)
    requires IsInitial(w) && Run(w, h).Ok?
    ensures Count(h, Claims, w.target) + One(Run(w, h).value.status == Approved)
      == Count(h, Approvals, w.target) + Count(h, Retries, w.target) + Count(h, SafeExpiries, w.target)
  {
    if h != [] {
      RunKeepsIdentity(w, h[..|h| - 1]);
      DispatchAccounting(w, h[..|h| - 1]);
    }
  }

  /** Per dispatch id, accepted outcomes and the claim in flight add up to the claims. */
  lemma {:induction false} OutcomeAccounting(w: Write, h: seq<Action>, d: string)
    requires IsInitial(w) && Run(w, h).Ok?
    ensures Count(h, OutcomesOf(d), w.target) + One(Owns(Run(w, h).value, d)) == Count(h, ClaimsOf(d), w.target)
  {
    if h != [] {
      OutcomeAccounting(w, h[..|h| - 1], d);
    }
  }

  lemma {:induction false} CountPrefix(h: seq<Action>, n: nat, k: Kind, target: Target)
    requires n <= |h|
    ensures Count(h[..n], k, target) <= Count(h, k, target)
    ensures n < |h| && Counts(h[n], k, target) ==> Count(h[..n], k, target) < Count(h, k, target)
  {
    if n < |h| {
      var init := h[..|h| - 1];
      assert init[..n] == h[..n];
      assert n < |init| ==> init[n] == h[n];
      CountPrefix(init, n, k, target);
    } else {
      assert h[..n] == h;
    }
  }

  lemma {:induction false} RunPrefix(w: Write, h: seq<Action>, n: nat)
    requires n <= |h| && Run(w, h).Ok?
    ensures Run(w, h[..n]).Ok?
    ensures n < |h| ==> Act(Run(w, h[..n]).value, h[n]).Ok?
  {
    if n < |h| {
      var init := h[..|h| - 1];
      assert init[..n] == h[..n];
      assert n < |init| ==> init[n] == h[n];
      RunPrefix(w, init, n);
    } else {
      assert h[..n] == h;
    }
  }

  /** Given fresh dispatch ids, a claim has at most one accepted outcome, and none once a later claim was accepted. */
  lemma StaleOutcomeRejected(w: Write, h: seq<Action>, i: nat, j: nat, outcome: Action)
    requires IsInitial(w) && Run(w, h).Ok?
    requires i < j < |h| && h[i].Claim? && h[j].Claim? && Count(h, ClaimsOf(h[i].dispatchId), w.target) == 1
    requires IsOutcomeOf(outcome, h[i].dispatchId)
    ensures Count(h, OutcomesOf(h[i].dispatchId), w.target) == 1
    ensures Act(Run(w, h).value, outcome).Err?
  {
    var d := h[i].dispatchId;
    RunPrefix(w, h, j);
    OutcomeAccounting(w, h[..j], d);
    OutcomeAccounting(w, h, d);
    assert h[..j][..i] == h[..i] && h[..j][i] == h[i];
    CountPrefix(h[..j], i, ClaimsOf(d), w.target);
    CountPrefix(h, j, OutcomesOf(d), w.target);
  }

  /** Retries that a human approved although the previous dispatch may have been applied. */
  ghost function BlindRetries(w: Write, h: seq<Action>): nat {
    if h == [] then 0
    else
      var before := Run(w, h[..|h| - 1]);
      BlindRetries(w, h[..|h| - 1])
      + One(before.Ok? && before.value.status == Indeterminate && h[|h| - 1].ApproveRetry?)
  }

  /** Dispatches that may have been applied, in flight included, exceed one only by blind human retries. */
  lemma {:induction false} EffectAccounting(w: Write, h: seq<Action>)
    requires IsInitial(w) && Run(w, h).Ok?
    ensures Count(h, MayHaveApplied, w.target) + One(Run(w, h).value.status == Dispatching)
      == BlindRetries(w, h) + One(InFlightOrApplied(Run(w, h).value.status))
    ensures w.target.Office? ==> BlindRetries(w, h) == 0
  {
    if h != [] {
      RunKeepsIdentity(w, h[..|h| - 1]);
      EffectAccounting(w, h[..|h| - 1]);
    }
  }

  /** Without a safe retry, at most one dispatch of an Office release was applied, is in doubt or in flight. */
  lemma {:induction false} AtMostOneEffect(w: Write, h: seq<Action>)
    requires IsInitial(w) && Run(w, h).Ok?
    requires w.target.Office? && !w.target.payload.RetrySafe(w.target.provider)
    ensures Count(h, SafeExpiries, w.target) == 0
    ensures Count(h, MayHaveApplied, w.target) + One(Run(w, h).value.status == Dispatching) <= 1
  {
    EffectAccounting(w, h);
    if h != [] {
      RunKeepsIdentity(w, h[..|h| - 1]);
      AtMostOneEffect(w, h[..|h| - 1]);
    }
  }

  predicate Frozen(w: Write) {
    w.status == Done || w.status == Rejected || (w.target.Office? && w.status == Indeterminate)
  }

  /** A record that no action can change is exactly one that is done, rejected, or an Office release in doubt. */
  lemma NothingAcceptedIffFrozen(w: Write)
    requires Coherent(w)
    ensures (forall a :: Act(w, a).Err?) <==> Frozen(w)
  {
    match w.status
    case Requested => assert Act(w, Approve("")).Ok?;
    case Approved => assert Act(w, Claim("")).Ok?;
    case Dispatching => assert Act(w, Fail(w.dispatchId.value, true)).Ok?;
    case Failed => assert Act(w, ApproveRetry("")).Ok?;
    case Indeterminate =>
      if w.target.GitLab? {
        assert Act(w, ApproveRetry("")).Ok?;
      }
    case _ =>
  }

  // ------------------------------------------------------------------
  // A table of writes
  // ------------------------------------------------------------------

  /** Recording a request, once its task was found. */
  function Record(writes: map<string, Write>, request: Write): Result<map<string, Write>, RelayError> {
    if !IsInitial(request) then Err(Validation(InvalidInitialState(request.id)))
    else if request.id in writes then Err(Validation(AlreadyExists(request.id)))
    else Ok(writes[request.id := request])
  }

  /** An action on a recorded write of a given flow and task. */
  function ActOn(writes: map<string, Write>, id: string, flowId: string, taskId: string,
                 a: Action): Result<map<string, Write>, RelayError> {
    if id !in writes then Err(NotFound(id))
    else if writes[id].flowId != flowId || writes[id].taskId != taskId then Err(Validation(ScopeMismatch(id)))
    else
      var r := Act(writes[id], a);
      if r.Err? then Err(r.error) else Ok(writes[id := r.value])
  }
}
