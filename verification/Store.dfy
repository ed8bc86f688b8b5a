/**
 * The event logs: `src/adapters/store.rs` (SQLite, head read as the greatest sequence) and
 * `src/adapters/postgres_store.rs` (head stored beside the rows). A transaction works on a
 * copy of the rows that only a commit stores.
 */
module Store {
  import opened Wrappers
  import opened Errors
  import opened Ledger

  const CURRENT_EVENT_VERSION: nat := 2

  /** Sequences run from 1 without a gap. */
  ghost predicate Numbered(log: seq<Envelope>) {
    forall i | 0 <= i < |log| :: log[i].sequence == i + 1
  }

  /** The envelopes that continue a log with the given head. */
  function Prepared(expected: int, events: seq<DomainEvent>): (r: seq<Envelope>)
    ensures |r| == |events|
    ensures forall i | 0 <= i < |r| ::
      r[i] == Envelope(CURRENT_EVENT_VERSION, expected + 1 + i, KindOf(events[i]), events[i])
  {
    seq(|events|, i requires 0 <= i < |events| =>
      Envelope(CURRENT_EVENT_VERSION, expected + 1 + i, KindOf(events[i]), events[i]))
  }

  method PrepareBatch(expected: int, events: seq<DomainEvent>) returns (r: Result<seq<Envelope>, RelayError>)
    ensures r.Ok? <==> events == [] || expected + |events| <= MAX_SEQUENCE
    ensures r == if r.Ok? then Ok(Prepared(expected, events)) else Err(Validation(SequenceOverflow))
  {
    var envelopes := [];
    for i := 0 to |events|
      invariant envelopes == Prepared(expected, events)[..i]
      invariant i > 0 ==> expected + i <= MAX_SEQUENCE
    {
      var sequence := expected + i + 1;
      if sequence > MAX_SEQUENCE {
        return Err(Validation(SequenceOverflow));
      }
      envelopes := envelopes + [Envelope(CURRENT_EVENT_VERSION, sequence, KindOf(events[i]), events[i])];
    }
    assert Prepared(expected, events)[..|events|] == Prepared(expected, events);
    return Ok(envelopes);
  }

  /** What one prepared envelope must satisfy. */
  predicate Fits(e: Envelope, sequence: int) {
    && sequence <= MAX_SEQUENCE && e.sequence == sequence
    && e.version == CURRENT_EVENT_VERSION && e.kind == KindOf(e.event)
  }

  /** When a log with the given head takes a batch. */
  predicate Accepts(head: int, expected: int, envelopes: seq<Envelope>) {
    envelopes == [] || (expected == head && forall i | 0 <= i < |envelopes| :: Fits(envelopes[i], expected + 1 + i))
  }

  /** A batch prepared at the head is always accepted there. */
  lemma PreparedAccepted(head: int, events: seq<DomainEvent>)
    requires head + |events| <= MAX_SEQUENCE
    ensures Accepts(head, head, Prepared(head, events))
  {
    var batch := Prepared(head, events);
    assert forall i | 0 <= i < |batch| :: Fits(batch[i], head + 1 + i);
  }

  /** A log takes exactly what a batch prepared at its head can be, and never a last sequence beyond 64 bits. */
  lemma AcceptedIffPrepared(head: int, expected: int, batch: seq<Envelope>)
    requires batch != []
    ensures Accepts(head, expected, batch) <==>
      && expected == head && head + |batch| <= 9_223_372_036_854_775_807
      && batch == Prepared(head, EventsOf(batch))
  {
    if Accepts(head, expected, batch) {
      assert forall i | 0 <= i < |batch| :: Fits(batch[i], expected + 1 + i);
      assert Fits(batch[|batch| - 1], expected + 1 + (|batch| - 1));
      assert batch == Prepared(head, EventsOf(batch));
    }
    if expected == head && head + |batch| <= MAX_SEQUENCE && batch == Prepared(head, EventsOf(batch)) {
      PreparedAccepted(head, EventsOf(batch));
    }
  }

  function EventsOf(batch: seq<Envelope>): (events: seq<DomainEvent>)
    ensures |events| == |batch| && forall i | 0 <= i < |batch| :: events[i] == batch[i].event
  {
    seq(|batch|, i requires 0 <= i < |batch| => batch[i].event)
  }

  /** The prepared kind names the group of its event. */
  lemma PreparedKindTells(expected: int, events: seq<DomainEvent>, i: nat)
    requires i < |events|
    ensures var kind, e := Prepared(expected, events)[i].kind, events[i];
      && (kind == NotificationKind <==> e.Notification?) && (kind == FlowKind <==> e.FlowEvent?)
      && (kind == MessageKind <==> e.MessagePosted? || e.MessageAcknowledged?)
      && (kind == FlightKind <==> e.FlightAuthorized?)
      && (kind == LeaseKind <==> e.LeaseAcquired? || e.LeaseReleased?)
      && (kind == OfficeKind <==> e.OfficeRequested? || e.OfficeActed?)
      && (kind == GitLabKind <==> e.GitLabRequested? || e.GitLabActed?)
  {
    assert Prepared(expected, events)[i].kind == KindOf(events[i]);
  }

  // ------------------------------------------------------------------
  // Queries over the rows, which are in the order of their primary key
  // ------------------------------------------------------------------

  /** `SELECT COALESCE(MAX(sequence), 0)`. */
  method MaxSequence(rows: seq<Envelope>) returns (head: int)
    ensures rows == [] ==> head == 0
    ensures rows != [] ==> (exists e | e in rows :: e.sequence == head) && forall e | e in rows :: e.sequence <= head
  {
    head := 0;
    for i := 0 to |rows|
      invariant i == 0 ==> head == 0
      invariant i > 0 ==> exists e | e in rows[..i] :: e.sequence == head
      invariant i > 0 ==> forall e | e in rows[..i] :: e.sequence <= head
    {
      if i == 0 || rows[i].sequence > head {
        head := rows[i].sequence;
      }
      assert rows[..i + 1] == rows[..i] + [rows[i]];
    }
    assert rows[..|rows|] == rows;
  }

  /** The greatest sequence of a stream is its length. */
  lemma HeadIsLength(rows: seq<Envelope>, head: int)
    requires Numbered(rows) && (rows == [] ==> head == 0)
    requires rows != [] ==> (exists e | e in rows :: e.sequence == head) && forall e | e in rows :: e.sequence <= head
    ensures head == |rows|
  {
    if rows != [] {
      assert rows[|rows| - 1] in rows;
    }
  }

  /** `SELECT ... WHERE sequence > s ORDER BY sequence`. */
  method SelectAfter(rows: seq<Envelope>, sequence: int) returns (events: seq<Envelope>)
    requires Numbered(rows)
    ensures events == rows[Max(0, Min(sequence, |rows|))..]
  {
    events := [];
    for i := 0 to |rows|
      invariant events == rows[Min(Max(0, sequence), i)..i]
    {
      if rows[i].sequence > sequence {
        events := events + [rows[i]];
      }
    }
  }

  // ------------------------------------------------------------------
  // SQLite
  // ------------------------------------------------------------------

  class SqliteStore {
    var rows: seq<Envelope>

    ghost predicate Valid()
      reads this
    {
      Numbered(rows)
    }

    constructor ()
      ensures Valid() && rows == []
    {
      rows := [];
    }

    method AppendPrepared(expected: int, envelopes: seq<Envelope>) returns (r: Result<(), RelayError>)
      requires Valid()
      modifies this
      ensures Valid()
      ensures r.Ok? <==> Accepts(|old(rows)|, expected, envelopes)
      ensures rows == if r.Ok? then old(rows) + envelopes else old(rows)
      ensures envelopes != [] && expected != |old(rows)| ==> r == Err(ConcurrentModification(expected, |old(rows)|))
      ensures r.Err? && expected == |old(rows)| ==> r.error.Validation?
    {
      if envelopes == [] {
        return Ok(());
      }
      var actual := MaxSequence(rows);
      HeadIsLength(rows, actual);
      if actual != expected {
        return Err(ConcurrentModification(expected, actual));
      }
      var transaction := rows;
      for i := 0 to |envelopes|
        invariant unchanged(this) && transaction == rows + envelopes[..i]
        invariant forall k | 0 <= k < i :: Fits(envelopes[k], expected + 1 + k)
      {
        var envelope := envelopes[i];
        var required := expected + i + 1;
        if required > MAX_SEQUENCE {
          return Err(Validation(SequenceOverflow));
        }
        if envelope.sequence != required {
          return Err(Validation(PreparedEventMismatch));
        }
        if envelope.version != CURRENT_EVENT_VERSION {
          return Err(Validation(PreparedEventMismatch));
        }
        if envelope.kind != KindOf(envelope.event) {
          return Err(Validation(PreparedEventMismatch));
        }
        transaction := transaction + [envelope];
      }
      rows := transaction;
      return Ok(());
    }

    method LoadAfter(sequence: int) returns (events: seq<Envelope>)
      requires Valid()
      ensures events == rows[Max(0, Min(sequence, |rows|))..]
    {
      events := SelectAfter(rows, sequence);
    }
  }

  // ------------------------------------------------------------------
  // PostgreSQL
  // ------------------------------------------------------------------

  /** What importing stores: the payload version is always the current one. */
  function Upgraded(events: seq<Envelope>): (r: seq<Envelope>)
    ensures |r| == |events| && forall i | 0 <= i < |r| :: r[i] == events[i].(version := CURRENT_EVENT_VERSION)
  {
    seq(|events|, i requires 0 <= i < |events| => events[i].(version := CURRENT_EVENT_VERSION))
  }

  /** A tenant's content; credentials and artifacts are opaque. */
  datatype Snapshot = Snapshot(events: seq<Envelope>, credentials: seq<string>, artifacts: seq<string>)

  class PostgresStore {
    var rows: seq<Envelope>
    var currentSequence: int
    var credentials: seq<string>
    var artifacts: seq<string>

    /** The stored head is the last sequence. */
    ghost predicate Valid()
      reads this
    {
      Numbered(rows) && currentSequence == |rows|
    }

    constructor ()
      ensures Valid() && rows == [] && credentials == [] && artifacts == []
    {
      rows, currentSequence, credentials, artifacts := [], 0, [], [];
    }

    method AppendPrepared(expected: int, envelopes: seq<Envelope>) returns (r: Result<(), RelayError>)
      requires Valid()
      modifies this`rows, this`currentSequence
      ensures Valid()
      ensures r.Ok? <==> Accepts(|old(rows)|, expected, envelopes)
      ensures rows == if r.Ok? then old(rows) + envelopes else old(rows)
      ensures envelopes != [] && expected != |old(rows)| ==> r == Err(ConcurrentModification(expected, |old(rows)|))
      ensures r.Err? && expected == |old(rows)| ==> r.error.Validation?
    {
      if envelopes == [] {
        return Ok(());
      }
      var actual := currentSequence;
      if actual != expected {
        return Err(ConcurrentModification(expected, actual));
      }
      var transaction := rows;
      for i := 0 to |envelopes|
        invariant unchanged(this) && transaction == rows + envelopes[..i]
        invariant forall k | 0 <= k < i :: Fits(envelopes[k], expected + 1 + k)
      {
        var envelope := envelopes[i];
        var required := expected + i + 1;
        if required > MAX_SEQUENCE {
          return Err(Validation(SequenceOverflow));
        }
        if envelope.sequence != required || envelope.version != CURRENT_EVENT_VERSION
           || envelope.kind != KindOf(envelope.event)
        {
          return Err(Validation(PreparedEventMismatch));
        }
        transaction := transaction + [envelope];
      }
      rows, currentSequence := transaction, envelopes[|envelopes| - 1].sequence;
      return Ok(());
    }

    method LoadAfter(sequence: int) returns (events: seq<Envelope>)
      requires Valid()
      ensures events == rows[Max(0, Min(sequence, |rows|))..]
    {
      events := SelectAfter(rows, sequence);
    }

    /**
     * Fills an empty tenant. On a tenant with content it only compares the counts of events
     * and credentials, the last sequence, and the artifacts. The one caller replays the
     * events first, so they are numbered.
     */
    method ImportSnapshot(s: Snapshot) returns (r: Result<bool, RelayError>)
      requires Valid() && Numbered(s.events)
      modifies this
      ensures Valid()
      ensures (Snapshot(rows, credentials, artifacts), r) == Imported(old(Snapshot(rows, credentials, artifacts)), s)
    {
      var final := if s.events == [] then 0 else s.events[|s.events| - 1].sequence;
      if currentSequence != 0 || |credentials| != 0 || |artifacts| != 0 {
        if currentSequence == final && |rows| == |s.events| && |credentials| == |s.credentials|
           && |artifacts| == |s.artifacts| && artifacts == s.artifacts {
          return Ok(false);
        }
        return Err(Validation(DifferentSnapshot));
      }
      var transaction := rows;
      for i := 0 to |s.events|
        invariant unchanged(this) && transaction == Upgraded(s.events)[..i]
      {
        transaction := transaction + [s.events[i].(version := CURRENT_EVENT_VERSION)];
      }
      assert Upgraded(s.events)[..|s.events|] == Upgraded(s.events);
      rows, currentSequence := transaction, final;
      credentials, artifacts := s.credentials, s.artifacts;
      return Ok(true);
    }
  }

  /** The content of a tenant after an import, and the answer. */
  function Imported(target: Snapshot, s: Snapshot): (Snapshot, Result<bool, RelayError>) {
    if target == Snapshot([], [], []) then (s.(events := Upgraded(s.events)), Ok(true))
    else if |target.events| == |s.events| && |target.credentials| == |s.credentials|
            && target.artifacts == s.artifacts then
      (target, Ok(false))
    else (target, Err(Validation(DifferentSnapshot)))
  }

  /**
   * Into an empty tenant a snapshot goes whole, but for the payload version, and replays as before.
   * A tenant with content keeps it; the answer compares the artifacts and two counts.
   */
  lemma ImportFillsOrCompares(target: Snapshot, s: Snapshot)
    ensures target.events == [] && target.credentials == [] && target.artifacts == [] ==>
      var (after, answer) := Imported(target, s);
      && answer == Ok(true) && after.credentials == s.credentials && after.artifacts == s.artifacts
      && |after.events| == |s.events|
      && (forall i | 0 <= i < |s.events| ::
           after.events[i] == Envelope(2, s.events[i].sequence, s.events[i].kind, s.events[i].event))
      && ReplayOf(after.events) == ReplayOf(s.events)
    ensures target.events != [] || target.credentials != [] || target.artifacts != [] ==>
      var (after, answer) := Imported(target, s);
      && after == target
      && answer == if |target.events| == |s.events| && |target.credentials| == |s.credentials|
                      && target.artifacts == s.artifacts then Ok(false) else Err(Validation(DifferentSnapshot))
  {
    UpgradeKeepsReplay(EMPTY, s.events);
  }

  /** Importing again changes nothing, and answers `false` unless there was nothing to import. */
  lemma ImportTwice(target: Snapshot, s: Snapshot)
    requires Imported(target, s).1.Ok?
    ensures Imported(Imported(target, s).0, s).0 == Imported(target, s).0
    ensures Imported(Imported(target, s).0, s).1 == Ok(s == Snapshot([], [], []))
  {
    if s.events == [] {
      assert Upgraded(s.events) == [];
    }
  }

  /** An imported stream replays to the same ledger: the payload version plays no part in it. */
  lemma {:induction false} UpgradeKeepsReplay(s: State, events: seq<Envelope>)
    ensures ApplyAll(s, Upgraded(events)) == ApplyAll(s, events)
  {
    hide Handle;
    if events != [] {
      UpgradeKeepsReplay(s, events[..|events| - 1]);
      assert Upgraded(events)[..|events| - 1] == Upgraded(events[..|events| - 1]);
    }
  }

  /**
   * `Ok(false)` is taken for "the tenant holds this snapshot". For a given tenant that is
   * right for every numbered snapshot iff the tenant has neither events nor credentials.
   */
  lemma AlreadyImportedIffNothingToCompare(target: Snapshot)
    requires Numbered(target.events)
    ensures (forall s: Snapshot | Numbered(s.events) && Imported(target, s).1 == Ok(false) ::
              target == s.(events := Upgraded(s.events)))
      <==> target.events == [] && target.credentials == []
  {
    if target.events == [] && target.credentials == [] {
      forall s: Snapshot | Numbered(s.events) && Imported(target, s).1 == Ok(false)
        ensures target == s.(events := Upgraded(s.events))
      {
        assert s.events == [] && s.credentials == [];
        assert Upgraded(s.events) == [];
      }
    } else if target.events != [] {
      var other := if target.events[0].event == Other then Notification(Notifications.Disable("", 0)) else Other;
      var s := target.(events := target.events[0 := target.events[0].(event := other)]);
      assert Numbered(s.events) && Imported(target, s).1 == Ok(false);
      assert Upgraded(s.events)[0].event != target.events[0].event;
    } else {
      var other := if target.credentials[0] == "" then "x" else "";
      var s := target.(credentials := target.credentials[0 := other]);
      assert Numbered(s.events) && Imported(target, s).1 == Ok(false);
      assert s.credentials[0] != target.credentials[0];
    }
  }

  /** `Ok(false)` does not mean that the tenant already holds the snapshot: another stream of the same length passes. */
  lemma ImportAcceptsOtherStream()
    ensures exists target: Snapshot, s: Snapshot ::
      && Numbered(target.events) && Numbered(s.events) && Imported(target, s).1 == Ok(false)
      && ReplayOf(target.events).Ok? && ReplayOf(s.events).Ok? && ReplayOf(target.events) != ReplayOf(s.events)
  {
    var quiet := Envelope(CURRENT_EVENT_VERSION, 1, OtherKind, Other);
    var endpoint := Notifications.Endpoint("e", true, None);
    var loud := Envelope(CURRENT_EVENT_VERSION, 1, NotificationKind, Notification(Notifications.Register(endpoint)));
    var target, s := Snapshot([quiet], [], []), Snapshot([loud], [], []);
    assert [quiet][..0] == [] && [loud][..0] == [];
    assert ApplyAll(EMPTY, [quiet]) == Ok(EMPTY.(lastSequence := 1));
    assert "e" in ReplayOf([loud]).value.outbox.endpoints;
    assert Imported(target, s).1 == Ok(false);
  }
}
