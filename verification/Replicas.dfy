/**
 * Replicas of one ledger over a shared log: `commit_as` of `src/application/app/commit.rs`,
 * `reload` and `refresh_shared_state` of `src/application/app/mod.rs`, over either store.
 *
 * A commit is two steps, `Prepare` and `Commit`, so that other replicas can act in between.
 */
module Replicas {
  import opened Wrappers
  import opened Errors
  import opened Ledger
  import opened LedgerLaws
  import opened Store

  /** A batch between `prepare_batch` and `append_prepared`, with the state it leads to. */
  datatype Pending = Pending(expected: int, batch: seq<Envelope>, projected: State)

  datatype Replica = Replica(state: State, pending: Option<Pending>)

  /** `head` is what PostgreSQL stores and SQLite reads from the rows. */
  datatype System = System(log: seq<Envelope>, head: int, replicas: seq<Replica>)

  /** `Lose` is a commit whose answer never reaches the replica; `Drop` an append that never reached the store. */
  datatype Step =
    | Open
    | Prepare(replica: nat, events: seq<DomainEvent>)
    | Commit(replica: nat)
    | Lose(replica: nat)
    | Drop(replica: nat)
    | Reload(replica: nat)
    | Refresh(replica: nat)

  const START := System([], 0, [])

  function WithState(r: Replica, state: Result<State, RelayError>): Replica {
    Replica(if state.Ok? then state.value else r.state, None)
  }

  /** What a replica makes of a batch: it projects the events onto a copy of its state. */
  function Propose(r: Replica, events: seq<DomainEvent>): Replica {
    var expected := r.state.lastSequence;
    var batch := Prepared(expected, events);
    var projected := ApplyAll(r.state, batch);
    if r.pending.Some? || expected + |events| > MAX_SEQUENCE || projected.Err? then r
    else r.(pending := Some(Pending(expected, batch, projected.value)))
  }

  /** The log after a batch was handed to the store. */
  function Appended(sys: System, p: Pending): System {
    if p.batch == [] || !Accepts(sys.head, p.expected, p.batch) then sys
    else sys.(log := sys.log + p.batch, head := p.batch[|p.batch| - 1].sequence)
  }

  /** The answer that `append_prepared` gives the replica: the projected state, or a reload after a conflict. */
  function Answered(sys: System, r: Replica, p: Pending): Replica {
    if Accepts(sys.head, p.expected, p.batch) then Replica(p.projected, None)
    else if p.expected != sys.head then WithState(r, ReplayOf(sys.log))
    else r.(pending := None)
  }

  function Next(sys: System, step: Step): System {
    match step
    case Open =>
      var state := ReplayOf(sys.log);
      if state.Err? then sys else sys.(replicas := sys.replicas + [Replica(state.value, None)])
    case Prepare(i, events) =>
      if i >= |sys.replicas| then sys
      else sys.(replicas := sys.replicas[i := Propose(sys.replicas[i], events)])
    case Commit(i) =>
      if i >= |sys.replicas| || sys.replicas[i].pending.None? then sys
      else
        var r := sys.replicas[i];
        Appended(sys, r.pending.value).(replicas := sys.replicas[i := Answered(sys, r, r.pending.value)])
    case Lose(i) =>
      if i >= |sys.replicas| || sys.replicas[i].pending.None? then sys
      else
        var r := sys.replicas[i];
        Appended(sys, r.pending.value).(replicas := sys.replicas[i := r.(pending := None)])
    case Drop(i) =>
      if i >= |sys.replicas| then sys
      else sys.(replicas := sys.replicas[i := sys.replicas[i].(pending := None)])
    case Reload(i) =>
      if i >= |sys.replicas| || sys.replicas[i].pending.Some? then sys
      else sys.(replicas := sys.replicas[i := WithState(sys.replicas[i], ReplayOf(sys.log))])
    case Refresh(i) =>
      if i >= |sys.replicas| || sys.replicas[i].pending.Some? then sys
      else
        var r := sys.replicas[i];
        var later := sys.log[Max(0, Min(r.state.lastSequence, |sys.log|))..];
        sys.(replicas := sys.replicas[i := WithState(r, ApplyAll(r.state, later))])
  }

  ghost function RunFrom(sys: System, steps: seq<Step>): System {
    if steps == [] then sys else Next(RunFrom(sys, steps[..|steps| - 1]), steps[|steps| - 1])
  }

  // ------------------------------------------------------------------
  // What every step keeps
  // ------------------------------------------------------------------

  /** The state is the replay of the prefix it has seen. */
  ghost predicate Follows(log: seq<Envelope>, s: State) {
    0 <= s.lastSequence <= |log| && ReplayOf(log[..s.lastSequence]) == Ok(s)
  }

  /** The batch was prepared for the state, which accepts it. */
  ghost predicate Prepares(r: Replica) {
    r.pending.Some? ==>
      var p := r.pending.value;
      && p.expected == r.state.lastSequence
      && (forall k | 0 <= k < |p.batch| :: Fits(p.batch[k], p.expected + 1 + k))
      && ApplyAll(r.state, p.batch) == Ok(p.projected)
  }

  ghost predicate Sound(sys: System) {
    && ReplayOf(sys.log).Ok? && sys.head == |sys.log|
    && forall r | r in sys.replicas :: Follows(sys.log, r.state) && Prepares(r)
  }

  /** A sound log is numbered, replays as a whole, and the stored head is its last sequence. */
  lemma SoundLog(sys: System)
    requires Sound(sys)
    ensures Numbered(sys.log) && sys.head == |sys.log| == ReplayOf(sys.log).value.lastSequence
    ensures Follows(sys.log, ReplayOf(sys.log).value)
  {
    hide ApplyAll, Prepares;
    StreamIsNumbered(EMPTY, sys.log);
    assert sys.log[..|sys.log|] == sys.log;
  }

  lemma FollowsLonger(log: seq<Envelope>, batch: seq<Envelope>, s: State)
    requires Follows(log, s)
    ensures Follows(log + batch, s)
  {
    hide ApplyAll;
    assert (log + batch)[..s.lastSequence] == log[..s.lastSequence];
  }

  /** An accepted batch extends the log to one that its writer's projection replays. */
  lemma AppendedIsReplayed(log: seq<Envelope>, r: Replica)
    requires ReplayOf(log).Ok? && Follows(log, r.state) && r.pending.Some? && Prepares(r)
    requires r.pending.value.expected == |log|
    ensures ReplayOf(log + r.pending.value.batch) == Ok(r.pending.value.projected)
    ensures Follows(log + r.pending.value.batch, r.pending.value.projected)
  {
    hide ApplyAll;
    var p := r.pending.value;
    assert log[..|log|] == log;
    ApplyAllComposes(EMPTY, log, p.batch);
    StreamIsNumbered(EMPTY, log + p.batch);
    assert (log + p.batch)[..|log + p.batch|] == log + p.batch;
  }

  /** Catching up from a prefix gives the replay of the whole log. */
  lemma CatchUp(log: seq<Envelope>, s: State)
    requires ReplayOf(log).Ok? && Follows(log, s)
    ensures ApplyAll(s, log[s.lastSequence..]) == ReplayOf(log)
  {
    hide ApplyAll;
    assert log[..s.lastSequence] + log[s.lastSequence..] == log;
    ApplyAllComposes(EMPTY, log[..s.lastSequence], log[s.lastSequence..]);
  }

  lemma AppendKeepsSound(sys: System, i: nat)
    requires Sound(sys) && i < |sys.replicas| && sys.replicas[i].pending.Some?
    ensures Sound(Appended(sys, sys.replicas[i].pending.value))
    ensures var after, r := Appended(sys, sys.replicas[i].pending.value), sys.replicas[i];
      Follows(after.log, Answered(sys, r, r.pending.value).state)
  {
    hide ApplyAll, Follows, Prepares;
    var r := sys.replicas[i];
    var p := r.pending.value;
    SoundLog(sys);
    assert r in sys.replicas;
    PreparedBatch(r);
    var after := Appended(sys, p);
    if p.batch == [] {
      assert ApplyAll(r.state, []) == Ok(p.projected);
      EmptyBatch(r.state);
    } else if Accepts(sys.head, p.expected, p.batch) {
      AppendedIsReplayed(sys.log, r);
      forall other | other in sys.replicas ensures Follows(after.log, other.state) {
        FollowsLonger(sys.log, p.batch, other.state);
      }
      assert Fits(p.batch[|p.batch| - 1], p.expected + 1 + (|p.batch| - 1));
    }
  }

  lemma PreparedBatch(r: Replica)
    requires Prepares(r) && r.pending.Some?
    ensures var p := r.pending.value;
      ApplyAll(r.state, p.batch) == Ok(p.projected) && p.expected == r.state.lastSequence
  {
  }

  lemma EmptyBatch(s: State)
    ensures ApplyAll(s, []) == Ok(s)
  {
  }

  lemma ProposeKeepsSound(log: seq<Envelope>, r: Replica, events: seq<DomainEvent>)
    requires Follows(log, r.state) && Prepares(r)
    ensures Follows(log, Propose(r, events).state) && Prepares(Propose(r, events))
  {
    hide ApplyAll;
  }

  /** Every step of every replica keeps the system sound. */
  lemma StepKeepsSound(sys: System, step: Step)
    requires Sound(sys)
    ensures Sound(Next(sys, step))
  {
    hide ApplyAll, Follows, Prepares, Propose, Appended, Answered;
    SoundLog(sys);
    match step
    case Open =>
      Idle(ReplayOf(sys.log).value);
    case Prepare(i, events) =>
      if i < |sys.replicas| {
        assert sys.replicas[i] in sys.replicas;
        ProposeKeepsSound(sys.log, sys.replicas[i], events);
      }
    case Commit(i) =>
      if i < |sys.replicas| && sys.replicas[i].pending.Some? {
        AppendKeepsSound(sys, i);
        AnsweredIsIdle(sys, sys.replicas[i]);
        AppendedReplicas(sys, sys.replicas[i].pending.value);
      }
    case Lose(i) =>
      if i < |sys.replicas| && sys.replicas[i].pending.Some? {
        AppendKeepsSound(sys, i);
        AppendedReplicas(sys, sys.replicas[i].pending.value);
        assert sys.replicas[i] in Appended(sys, sys.replicas[i].pending.value).replicas;
        Idle(sys.replicas[i].state);
      }
    case Drop(i) =>
      if i < |sys.replicas| {
        assert sys.replicas[i] in sys.replicas;
        Idle(sys.replicas[i].state);
      }
    case Reload(i) =>
      Idle(ReplayOf(sys.log).value);
    case Refresh(i) =>
      if i < |sys.replicas| && sys.replicas[i].pending.None? {
        var r := sys.replicas[i];
        assert r in sys.replicas;
        Idle(ReplayOf(sys.log).value);
        Bounds(sys.log, r.state);
        CatchUp(sys.log, r.state);
      }
  }

  lemma Bounds(log: seq<Envelope>, s: State)
    requires Follows(log, s)
    ensures 0 <= s.lastSequence <= |log|
  {
  }

  lemma Idle(s: State)
    ensures Prepares(Replica(s, None))
  {
  }

  lemma AnsweredIsIdle(sys: System, r: Replica)
    requires r.pending.Some?
    ensures Answered(sys, r, r.pending.value).pending.None? && Prepares(Answered(sys, r, r.pending.value))
  {
  }

  lemma AppendedReplicas(sys: System, p: Pending)
    ensures Appended(sys, p).replicas == sys.replicas
  {
  }

  // ------------------------------------------------------------------
  // Every run
  // ------------------------------------------------------------------

  lemma {:induction false} RunKeepsSound(sys: System, steps: seq<Step>)
    requires Sound(sys)
    ensures Sound(RunFrom(sys, steps))
  {
    if steps != [] {
      RunKeepsSound(sys, steps[..|steps| - 1]);
      StepKeepsSound(RunFrom(sys, steps[..|steps| - 1]), steps[|steps| - 1]);
    }
  }

  /**
   * Whatever the replicas do, the log replays, is numbered 1..n under its head, and every replica
   * holds the replay of a prefix.
   */
  lemma EveryRunIsSound(steps: seq<Step>)
    ensures var sys := RunFrom(START, steps);
      && ReplayOf(sys.log).Ok? && Numbered(sys.log) && sys.head == |sys.log|
      && forall r | r in sys.replicas :: Follows(sys.log, r.state)
  {
    assert ReplayOf([]) == Ok(EMPTY);
    RunKeepsSound(START, steps);
    SoundLog(RunFrom(START, steps));
  }

  /** So whatever holds in every replayed ledger holds in the ledger of every replica. */
  lemma EveryReplicaIsSafe(steps: seq<Step>, i: nat)
    requires i < |RunFrom(START, steps).replicas|
    ensures Safe(RunFrom(START, steps).replicas[i].state)
  {
    hide Safe;
    var sys := RunFrom(START, steps);
    EveryRunIsSound(steps);
    assert sys.replicas[i] in sys.replicas;
    ReplayIsSafe(sys.log[..sys.replicas[i].state.lastSequence]);
  }

  /** The log is append-only. */
  lemma {:induction false} LogIsAppendOnly(sys: System, steps: seq<Step>)
    ensures sys.log <= RunFrom(sys, steps).log
  {
    hide ApplyAll, Accepts, Propose, Answered;
    if steps != [] {
      LogIsAppendOnly(sys, steps[..|steps| - 1]);
    }
  }

  /** A writer whose commit the store took holds the replay of the whole log. */
  lemma CommitIsReplayed(sys: System, i: nat)
    requires Sound(sys) && i < |sys.replicas| && sys.replicas[i].pending.Some?
    requires sys.replicas[i].pending.value.expected == sys.head
    ensures var p, after := sys.replicas[i].pending.value, Next(sys, Commit(i));
      && after.log == sys.log + p.batch
      && ReplayOf(after.log) == Ok(after.replicas[i].state) && after.replicas[i].state == p.projected
  {
    hide ApplyAll;
    var r := sys.replicas[i];
    assert r in sys.replicas;
    AppendedIsReplayed(sys.log, r);
    if r.pending.value.batch == [] {
      assert sys.log + [] == sys.log;
    }
  }

  /** A refused writer is brought up to date with the whole log. */
  lemma ConflictReloads(sys: System, i: nat)
    requires Sound(sys) && i < |sys.replicas| && sys.replicas[i].pending.Some?
    requires var p := sys.replicas[i].pending.value; p.batch != [] && p.expected != sys.head
    ensures var after := Next(sys, Commit(i));
      after.log == sys.log && after.replicas[i] == Replica(ReplayOf(sys.log).value, None)
  {
    hide ApplyAll;
  }

  /** An idle replica that refreshes or reloads holds the replay of the whole log, and nothing else changes. */
  lemma CatchesUp(sys: System, i: nat, step: Step)
    requires Sound(sys) && i < |sys.replicas| && sys.replicas[i].pending.None?
    requires step == Refresh(i) || step == Reload(i)
    ensures Next(sys, step) == sys.(replicas := sys.replicas[i := Replica(ReplayOf(sys.log).value, None)])
  {
    hide ApplyAll;
    var r := sys.replicas[i];
    assert r in sys.replicas;
    CatchUp(sys.log, r.state);
  }

  /** A new replica starts with the replay of the whole log. */
  lemma OpensUpToDate(sys: System)
    requires Sound(sys)
    ensures Next(sys, Open) == sys.(replicas := sys.replicas + [Replica(ReplayOf(sys.log).value, None)])
  {
  }

  /**
   * A replica that is up to date and left alone commits any events that its ledger accepts: the
   * log grows by exactly them, numbered on, and the replica holds the replay of it all.
   */
  lemma UndisturbedCommit(sys: System, i: nat, events: seq<DomainEvent>)
    requires Sound(sys) && i < |sys.replicas| && sys.replicas[i] == Replica(ReplayOf(sys.log).value, None)
    requires |sys.log| + |events| <= MAX_SEQUENCE
    requires ReplayOf(sys.log + Prepared(|sys.log|, events)).Ok?
    ensures var after := Next(Next(sys, Prepare(i, events)), Commit(i));
      && |after.log| == |sys.log| + |events| && after.log[..|sys.log|] == sys.log
      && (forall k | 0 <= k < |events| ::
           after.log[|sys.log| + k].event == events[k] && after.log[|sys.log| + k].sequence == |sys.log| + k + 1)
      && |after.replicas| == |sys.replicas| && after.replicas[i] == Replica(ReplayOf(after.log).value, None)
  {
    hide ApplyAll, Follows, Prepares;
    SoundLog(sys);
    var batch := Prepared(|sys.log|, events);
    ApplyAllComposes(EMPTY, sys.log, batch);
    PreparedAccepted(sys.head, events);
    if events == [] {
      assert batch == [] && sys.log + batch == sys.log;
    }
  }

  /** A batch that the ledger refuses is never prepared, and one too long for the sequence neither. */
  lemma RefusedIsNotPrepared(sys: System, i: nat, events: seq<DomainEvent>)
    requires Sound(sys) && i < |sys.replicas| && sys.replicas[i].pending.None?
    ensures var r := sys.replicas[i];
      Next(sys, Prepare(i, events)).replicas[i].pending.Some? <==>
      && r.state.lastSequence + |events| <= MAX_SEQUENCE
      && ApplyAll(r.state, Prepared(r.state.lastSequence, events)).Ok?
  {
    hide ApplyAll;
  }

  /** A writer that never learns of its commit and refreshes ends exactly as if it had learned. */
  lemma LostAnswerIsRecovered(sys: System, i: nat)
    requires Sound(sys) && i < |sys.replicas| && sys.replicas[i].pending.Some?
    requires sys.replicas[i].pending.value.expected == sys.head
    ensures Next(sys, Lose(i)).log == sys.log + sys.replicas[i].pending.value.batch
    ensures Next(Next(sys, Lose(i)), Refresh(i)) == Next(sys, Commit(i))
  {
    hide ApplyAll, Prepares, Follows, Accepts, Answered;
    var lost := Next(sys, Lose(i));
    StepKeepsSound(sys, Lose(i));
    CommitIsReplayed(sys, i);
    AppendedReplicas(sys, sys.replicas[i].pending.value);
    CatchesUp(lost, i, Refresh(i));
    assert sys.replicas[i] in sys.replicas;
    AnsweredIsIdle(sys, sys.replicas[i]);
  }

  /** A writer whose append never reached the store can go on: it is idle, and nothing else changed. */
  lemma DroppedIsIdle(sys: System, i: nat)
    requires i < |sys.replicas|
    ensures Next(sys, Drop(i)) == sys.(replicas := sys.replicas[i := Replica(sys.replicas[i].state, None)])
  {
  }

  /** Which replica acts. */
  function Actor(step: Step): Option<nat> {
    match step
    case Open => None
    case Prepare(i, _) => Some(i)
    case Commit(i) => Some(i)
    case Lose(i) => Some(i)
    case Drop(i) => Some(i)
    case Reload(i) => Some(i)
    case Refresh(i) => Some(i)
  }

  /** A step leaves every other replica as it was, and only a commit, with or without its answer, writes the log. */
  lemma StepTouchesOne(sys: System, step: Step, j: nat)
    requires j < |sys.replicas| && Actor(step) != Some(j)
    ensures j < |Next(sys, step).replicas| && Next(sys, step).replicas[j] == sys.replicas[j]
    ensures !step.Commit? && !step.Lose? ==> Next(sys, step).log == sys.log && Next(sys, step).head == sys.head
  {
    hide ApplyAll, Accepts, Propose, Answered;
  }

  /**
   * Of two non-empty batches prepared at one head at most one is ever appended: once the
   * first is in the log, whether or not its writer learned of it, the second is refused
   * after whatever else happens.
   */
  lemma AtMostOneCommits(sys: System, i: nat, j: nat, first: Step, between: seq<Step>)
    requires Sound(sys) && i < |sys.replicas| && j < |sys.replicas| && i != j
    requires first == Commit(i) || first == Lose(i)
    requires sys.replicas[i].pending.Some? && sys.replicas[j].pending.Some?
    requires var p, q := sys.replicas[i].pending.value, sys.replicas[j].pending.value;
      p.expected == q.expected && p.batch != [] && q.batch != []
    requires Next(sys, first).log != sys.log
    requires var later := RunFrom(Next(sys, first), between);
      j < |later.replicas| && later.replicas[j].pending == sys.replicas[j].pending
    ensures var later := RunFrom(Next(sys, first), between);
      Next(later, Commit(j)).log == later.log && Next(later, Lose(j)).log == later.log
  {
    hide ApplyAll, Prepares, Follows;
    var after := Next(sys, first);
    StepKeepsSound(sys, first);
    RunKeepsSound(after, between);
    LogIsAppendOnly(after, between);
  }
}
