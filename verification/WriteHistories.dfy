/**
 * External writes read off their history alone: which action may follow which, and what the
 * record then holds. `ExternalWrites.Act` decides by the status of a record; nothing here does.
 */
module WriteHistories {
  import opened Wrappers
  import opened Errors
  import opened Domain
  import FlowRevisions
  import opened Ledger
  import opened LedgerLaws
  import opened ExternalWrites

  /** Repeating the effect does no harm: an event with its id, or an upload that overwrites. Never an e-mail. */
  predicate SafeToRepeat(target: Target) {
    && target.Office?
    && !target.payload.SendEmail?
    && (target.payload.DriveUpload? && target.provider == GoogleWorkspace ==> target.payload.fileId.Some?)
  }

  /** Which action may come next, given the last one. */
  predicate MayFollow(target: Target, last: Option<ExternalWrites.Action>, a: ExternalWrites.Action) {
    match a
    case Approve(_) => last.None?
    case Reject(_) => last.None?
    case Claim(_) =>
      last.Some? && (last.value.Approve? || last.value.ApproveRetry? || (last.value.Expire? && SafeToRepeat(target)))
    case Succeed(d, _) => last == Some(Claim(d))
    case Fail(d, _) => last == Some(Claim(d))
    case Expire(d, retrySafe) => last == Some(Claim(d)) && (target.Office? ==> (retrySafe <==> SafeToRepeat(target)))
    case ApproveRetry(_) =>
      last.Some? && ((last.value.Fail? && (last.value.indeterminate ==> target.GitLab?))
                     || (last.value.Expire? && target.GitLab?))
  }

  function LastOf(h: seq<ExternalWrites.Action>): Option<ExternalWrites.Action> {
    if h == [] then None else Some(h[|h| - 1])
  }

  /** Every action of the history may follow the one before it. */
  ghost predicate Legal(target: Target, h: seq<ExternalWrites.Action>) {
    forall i | 0 <= i < |h| :: MayFollow(target, LastOf(h[..i]), h[i])
  }

  predicate IsReview(a: ExternalWrites.Action) { a.Approve? || a.Reject? || a.ApproveRetry? }

  /** The last review of the history is by p; without a review there is no reviewer. */
  ghost predicate ReviewedBy(h: seq<ExternalWrites.Action>, p: Option<string>) {
    if forall a | a in h :: !IsReview(a) then p == None
    else exists i | 0 <= i < |h| ::
      && IsReview(h[i]) && p == Some(h[i].reviewer)
      && forall j | i < j < |h| :: !IsReview(h[j])
  }

  /** What the last action makes of the status. */
  function StatusAfter(target: Target, last: Option<ExternalWrites.Action>): Status {
    match last
    case None => Requested
    case Some(Approve(_)) => Approved
    case Some(ApproveRetry(_)) => Approved
    case Some(Reject(_)) => ExternalWrites.Rejected
    case Some(Claim(_)) => Dispatching
    case Some(Succeed(_, _)) => ExternalWrites.Done
    case Some(Fail(_, indeterminate)) => if indeterminate then Indeterminate else Failed
    case Some(Expire(_, _)) => if SafeToRepeat(target) then Approved else Indeterminate
  }

  /** The dispatch that is in flight, has ended, or is in doubt. */
  function DispatchAfter(target: Target, last: Option<ExternalWrites.Action>): Option<string> {
    match last
    case Some(Claim(d)) => Some(d)
    case Some(Succeed(d, _)) => Some(d)
    case Some(Fail(d, _)) => Some(d)
    case Some(Expire(d, _)) => if SafeToRepeat(target) then None else Some(d)
    case _ => None
  }

  function ResultAfter(last: Option<ExternalWrites.Action>): Option<string> {
    if last.Some? && last.value.Succeed? then Some(last.value.result) else None
  }

  /** The record that a history tells: everything but the reviewer from its last action. */
  ghost predicate Tells(request: Write, h: seq<ExternalWrites.Action>, w: Write) {
    && ReviewedBy(h, w.reviewedBy)
    && w == request.(status := StatusAfter(request.target, LastOf(h)), reviewedBy := w.reviewedBy,
                     dispatchId := DispatchAfter(request.target, LastOf(h)), result := ResultAfter(LastOf(h)))
  }

  lemma ReviewedByGrows(h: seq<ExternalWrites.Action>, p: Option<string>, a: ExternalWrites.Action)
    requires ReviewedBy(h, p)
    ensures ReviewedBy(h + [a], if IsReview(a) then Some(a.reviewer) else p)
  {
    var grown := h + [a];
    assert grown[|h|] == a;
    if !IsReview(a) && p.Some? {
      var i :| 0 <= i < |h| && IsReview(h[i]) && p == Some(h[i].reviewer) && forall j | i < j < |h| :: !IsReview(h[j]);
      assert grown[i] == h[i];
    }
  }

  lemma LegalGrows(target: Target, h: seq<ExternalWrites.Action>, a: ExternalWrites.Action)
    ensures Legal(target, h + [a]) <==> Legal(target, h) && MayFollow(target, LastOf(h), a)
  {
    hide MayFollow;
    var grown := h + [a];
    assert grown[..|h|] == h && grown[|h|] == a;
    assert forall i | 0 <= i < |h| :: grown[..i] == h[..i] && grown[i] == h[i];
  }

  /** One action is accepted iff it may follow, and the record tells the longer history. */
  lemma ActTells(request: Write, h: seq<ExternalWrites.Action>, w: Write, a: ExternalWrites.Action)
    requires IsInitial(request) && Tells(request, h, w)
    ensures Act(w, a).Ok? <==> MayFollow(request.target, LastOf(h), a)
    ensures Act(w, a).Ok? ==> Tells(request, h + [a], Act(w, a).value)
    ensures Act(w, a).Err? ==>
      Act(w, a) == Err(if a.Expire? && LastOf(h) == Some(Claim(a.dispatchId))
                       then Validation(RecoverySafetyMismatch(request.id)) else InvalidTransition(request.id))
  {
    hide ReviewedBy;
    ReviewedByGrows(h, w.reviewedBy, a);
    assert LastOf(h + [a]) == Some(a);
  }

  /** The runs of a request are exactly its legal histories, and each ends in the record that its history tells. */
  lemma {:induction false} RunsAreLegalHistories(request: Write, h: seq<ExternalWrites.Action>)
    requires IsInitial(request)
    ensures Run(request, h).Ok? <==> Legal(request.target, h)
    ensures Run(request, h).Ok? ==> Tells(request, h, Run(request, h).value)
  {
    hide Act, MayFollow, Tells, Legal;
    if h == [] {
      NothingHappened(request);
    } else {
      var before, last := h[..|h| - 1], h[|h| - 1];
      RunsAreLegalHistories(request, before);
      assert h == before + [last];
      LegalGrows(request.target, before, last);
      if Run(request, before).Ok? {
        ActTells(request, before, Run(request, before).value, last);
      }
    }
  }

  lemma NothingHappened(request: Write)
    requires IsInitial(request)
    ensures Legal(request.target, []) && ReviewedBy([], None) && Tells(request, [], request)
  {
  }

  // ------------------------------------------------------------------
  // The courses a write can take
  // ------------------------------------------------------------------

  /** Reviewed once, dispatched once: rejected, done, failed, in doubt, or ready for the next dispatch. */
  lemma Courses(request: Write, p: string, d: string, r: string)
    requires IsInitial(request)
    ensures Run(request, [Reject(p)])
      == Ok(request.(status := ExternalWrites.Rejected, reviewedBy := Some(p)))
    ensures Run(request, [Approve(p), Claim(d), Succeed(d, r)])
      == Ok(request.(status := ExternalWrites.Done, reviewedBy := Some(p), dispatchId := Some(d), result := Some(r)))
    ensures Run(request, [Approve(p), Claim(d), Fail(d, false)])
      == Ok(request.(status := Failed, reviewedBy := Some(p), dispatchId := Some(d)))
    ensures Run(request, [Approve(p), Claim(d), Fail(d, true)])
      == Ok(request.(status := Indeterminate, reviewedBy := Some(p), dispatchId := Some(d)))
    ensures SafeToRepeat(request.target) ==>
      Run(request, [Approve(p), Claim(d), Expire(d, true)])
      == Ok(request.(status := Approved, reviewedBy := Some(p)))
    ensures !SafeToRepeat(request.target) ==>
      Run(request, [Approve(p), Claim(d), Expire(d, false)])
      == Ok(request.(status := Indeterminate, reviewedBy := Some(p), dispatchId := Some(d)))
  {
    hide Act, Run, Legal, ReviewedBy;
    RejectedCourse(request, p);
    DispatchedCourse(request, p, d, Succeed(d, r));
    DispatchedCourse(request, p, d, Fail(d, false));
    DispatchedCourse(request, p, d, Fail(d, true));
    DispatchedCourse(request, p, d, Expire(d, SafeToRepeat(request.target)));
  }

  lemma RejectedCourse(request: Write, p: string)
    requires IsInitial(request)
    ensures Run(request, [Reject(p)]) == Ok(request.(status := ExternalWrites.Rejected, reviewedBy := Some(p)))
  {
    hide Act, Run, Legal, ReviewedBy;
    assert [] + [Reject(p)] == [Reject(p)];
    NothingHappened(request);
    LegalGrows(request.target, [], Reject(p));
    ReviewedByGrows([], None, Reject(p));
    CourseEnds(request, p, [Reject(p)]);
  }

  /** Whatever may follow its claim ends the first dispatch of an approved write. */
  lemma DispatchedCourse(request: Write, p: string, d: string, outcome: ExternalWrites.Action)
    requires IsInitial(request) && MayFollow(request.target, Some(Claim(d)), outcome)
    ensures var last, target := Some(outcome), request.target;
      Run(request, [Approve(p), Claim(d), outcome]) == Ok(request.(
        status := StatusAfter(target, last), reviewedBy := Some(p), dispatchId := DispatchAfter(target, last),
        result := ResultAfter(last)))
  {
    hide Act, Run, IsInitial, StatusAfter, DispatchAfter, ResultAfter, Legal, ReviewedBy;
    var h := [Approve(p), Claim(d), outcome];
    assert [] + [Approve(p)] == [Approve(p)] && [Approve(p)] + [Claim(d)] == [Approve(p), Claim(d)];
    assert [Approve(p), Claim(d)] + [outcome] == h;
    NothingHappened(request);
    LegalGrows(request.target, [], Approve(p));
    LegalGrows(request.target, [Approve(p)], Claim(d));
    LegalGrows(request.target, [Approve(p), Claim(d)], outcome);
    ReviewedByGrows([], None, Approve(p));
    ReviewedByGrows([Approve(p)], Some(p), Claim(d));
    ReviewedByGrows([Approve(p), Claim(d)], Some(p), outcome);
    CourseEnds(request, p, h);
  }

  /** A retry puts the write before its next dispatch, with the reviewer who approved it. */
  lemma RetryCourse(request: Write, p: string, d: string, q: string, indeterminate: bool)
    requires IsInitial(request) && (indeterminate ==> request.target.GitLab?)
    ensures Run(request, [Approve(p), Claim(d), Fail(d, indeterminate), ApproveRetry(q)])
      == Ok(request.(status := Approved, reviewedBy := Some(q)))
  {
    hide Act, Run, Legal, ReviewedBy;
    var h := [Approve(p), Claim(d), Fail(d, indeterminate)];
    DispatchedCourse(request, p, d, Fail(d, indeterminate));
    RunsAreLegalHistories(request, h);
    LegalGrows(request.target, h, ApproveRetry(q));
    ReviewedByGrows(h, Run(request, h).value.reviewedBy, ApproveRetry(q));
    assert h + [ApproveRetry(q)] == [Approve(p), Claim(d), Fail(d, indeterminate), ApproveRetry(q)];
    CourseEnds(request, q, h + [ApproveRetry(q)]);
  }

  lemma CourseEnds(request: Write, p: string, h: seq<ExternalWrites.Action>)
    requires IsInitial(request) && Legal(request.target, h) && ReviewedBy(h, Some(p))
    ensures Run(request, h) == Ok(request.(
      status := StatusAfter(request.target, LastOf(h)), reviewedBy := Some(p),
      dispatchId := DispatchAfter(request.target, LastOf(h)), result := ResultAfter(LastOf(h))))
  {
    hide Act, Legal, Run, StatusAfter, DispatchAfter, ResultAfter, IsInitial;
    RunsAreLegalHistories(request, h);
    OneReviewer(h, Some(p), Run(request, h).value.reviewedBy);
  }

  lemma OneReviewer(h: seq<ExternalWrites.Action>, p: Option<string>, q: Option<string>)
    requires ReviewedBy(h, p) && ReviewedBy(h, q)
    ensures p == q
  {
  }

  // ------------------------------------------------------------------
  // In every reachable ledger
  // ------------------------------------------------------------------

  /** The record of a write is what its history in the stream tells, and that history is legal. */
  lemma RecordTellsItsHistory(events: seq<Envelope>, desk: Desk, id: string)
    requires ReplayOf(events).Ok? && id in Writes(ReplayOf(events).value, desk)
    ensures LedgerLaws.Requested(events, desk, id).Some?
    ensures var request, h := LedgerLaws.Requested(events, desk, id).value, History(events, desk, id);
      Legal(request.target, h) && Tells(request, h, Writes(ReplayOf(events).value, desk)[id])
  {
    hide ApplyEvent, Act, IsInitial, Legal, Tells, Run;
    WriteIsARun(events, desk, id);
    RunsAreLegalHistories(LedgerLaws.Requested(events, desk, id).value, History(events, desk, id));
  }

  /** The flow and task that an acting event names. */
  function ScopeOf(e: DomainEvent): Option<(string, string)> {
    match e
    case OfficeActed(flowId, taskId, _, _) => Some((flowId, taskId))
    case GitLabActed(flowId, taskId, _, _) => Some((flowId, taskId))
    case _ => None
  }

  /** The next event of a stream may act on a write iff it was requested, for that task, and the action may follow. */
  lemma ActionAcceptedIff(events: seq<Envelope>, desk: Desk, id: string, e: Envelope)
    requires ReplayOf(events).Ok? && |events| < MAX_SEQUENCE && e.sequence == |events| + 1
    requires ActionIn(e.event, desk, id).Some?
    ensures ReplayOf(events + [e]).Ok? <==>
      var request, h := LedgerLaws.Requested(events, desk, id), History(events, desk, id);
      && request.Some?
      && ScopeOf(e.event) == Some((request.value.flowId, request.value.taskId))
      && MayFollow(request.value.target, LastOf(h), ActionIn(e.event, desk, id).value)
    ensures ReplayOf(events + [e]).Err? ==>
      var request, h := LedgerLaws.Requested(events, desk, id), History(events, desk, id);
      var a := ActionIn(e.event, desk, id).value;
      ReplayOf(events + [e]).error ==
      if request.None? then NotFound(id)
      else if ScopeOf(e.event) != Some((request.value.flowId, request.value.taskId)) then Validation(ScopeMismatch(id))
      else if a.Expire? && LastOf(h) == Some(Claim(a.dispatchId)) then Validation(RecoverySafetyMismatch(id))
      else InvalidTransition(id)
  {
    hide Act, IsInitial, Legal, Tells, Run, MayFollow, Handle, ApplyAll;
    NextEvent(events, e);
    var s, a := ReplayOf(events).value, ActionIn(e.event, desk, id).value;
    WriteIsARun(events, desk, id);
    OfficeStep(s, e.event);
    GitLabStep(s, e.event);
    if id in Writes(s, desk) {
      RecordTellsItsHistory(events, desk, id);
      var request, h := LedgerLaws.Requested(events, desk, id).value, History(events, desk, id);
      RunKeepsIdentity(request, h);
      ActTells(request, h, Writes(s, desk)[id], a);
    }
  }

  ghost predicate NamesTask(b: FlowRevisions.Book, flowId: string, taskId: string) {
    flowId in b.flows && exists t :: t in b.flows[flowId].tasks && (t.id == taskId || t.key == taskId)
  }

  /** Nothing has happened to the write yet, and it has a hash of 64 characters, for GitLab lower-case hexadecimal. */
  predicate IsUntouched(w: Write) {
    && w.status == Requested && w.reviewedBy == None && w.dispatchId == None && w.result == None
    && |w.payloadSha256| == 64
    && (w.target.GitLab? ==> forall c | c in w.payloadSha256 :: c in "0123456789abcdef")
  }

  lemma UntouchedIsInitial(w: Write)
    ensures IsInitial(w) <==> IsUntouched(w)
  {
    if IsInitial(w) && w.target.GitLab? {
      forall c | c in w.payloadSha256 ensures c in "0123456789abcdef" {
        var i :| 0 <= i < |w.payloadSha256| && w.payloadSha256[i] == c;
        HexDigit(c);
      }
    }
    if IsUntouched(w) && w.target.GitLab? {
      forall i | 0 <= i < |w.payloadSha256|
        ensures '0' <= w.payloadSha256[i] <= '9' || 'a' <= w.payloadSha256[i] <= 'f'
      {
        HexDigit(w.payloadSha256[i]);
      }
    }
  }

  lemma HexDigit(c: char)
    ensures ('0' <= c <= '9' || 'a' <= c <= 'f') <==> c in "0123456789abcdef"
  {
  }

  /** The next event of a stream may request a write iff its task is there, it is untouched, and its id is new. */
  lemma RequestAcceptedIff(events: seq<Envelope>, desk: Desk, e: Envelope)
    requires ReplayOf(events).Ok? && |events| < MAX_SEQUENCE && e.sequence == |events| + 1
    requires RequestIn(e.event, desk).Some?
    ensures ReplayOf(events + [e]).Ok? <==>
      var w := RequestIn(e.event, desk).value;
      && NamesTask(ReplayOf(events).value.book, w.flowId, w.taskId)
      && IsUntouched(w) && LedgerLaws.Requested(events, desk, w.id).None?
    ensures ReplayOf(events + [e]).Err? ==>
      var w, flows := RequestIn(e.event, desk).value, ReplayOf(events).value.book.flows;
      ReplayOf(events + [e]).error ==
      if w.flowId !in flows then NotFound(w.flowId)
      else if !NamesTask(ReplayOf(events).value.book, w.flowId, w.taskId) then NotFound(w.taskId)
      else Validation(if IsUntouched(w) then AlreadyExists(w.id) else InvalidInitialState(w.id))
  {
    hide IsInitial, IsUntouched, Handle, ApplyAll;
    NextEvent(events, e);
    var s, w := ReplayOf(events).value, RequestIn(e.event, desk).value;
    UntouchedIsInitial(w);
    WriteIsARun(events, desk, w.id);
    OfficeStep(s, e.event);
    GitLabStep(s, e.event);
  }
}
