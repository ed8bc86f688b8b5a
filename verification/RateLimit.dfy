/** The fixed-window rate limiter of `src/interfaces/server.rs` lines 74-115. Instants are milliseconds. */
module RateLimit {
  import opened Wrappers

  type Key = string

  datatype Bucket = Bucket(windowStarted: int, requests: nat)

  const LIMIT_PER_MINUTE: nat := 300
  const MAX_BUCKETS: nat := 10_000
  const WINDOW_MS: int := 60_000

  predicate Live(b: Bucket, now: int) { now - b.windowStarted < WINDOW_MS }

  /** The buckets that `retain` keeps. */
  function Retained(buckets: map<Key, Bucket>, now: int): map<Key, Bucket> {
    map k | k in buckets && Live(buckets[k], now) :: buckets[k]
  }

  /** Entering the bucket of a key: a missing or expired one starts anew. */
  function Entered(buckets: map<Key, Bucket>, key: Key, now: int): Bucket {
    if key in buckets && Live(buckets[key], now) then buckets[key] else Bucket(now, 0)
  }

  /** An unbounded limiter: the buckets after a call, and its answer. */
  function Unbounded(buckets: map<Key, Bucket>, key: Key, now: int): (map<Key, Bucket>, bool) {
    var b := Entered(buckets, key, now);
    if b.requests >= LIMIT_PER_MINUTE then (buckets[key := b], false)
    else (buckets[key := b.(requests := b.requests + 1)], true)
  }

  /** What full buckets lose before a new key may enter. */
  function Room(buckets: map<Key, Bucket>, key: Key, now: int): map<Key, Bucket> {
    if |buckets| >= MAX_BUCKETS && key !in buckets then Retained(buckets, now) else buckets
  }

  /** A new key is refused when even then there is no room. */
  predicate NoRoom(buckets: map<Key, Bucket>, key: Key, now: int) {
    |Room(buckets, key, now)| >= MAX_BUCKETS && key !in buckets
  }

  function Bounded(buckets: map<Key, Bucket>, key: Key, now: int): (map<Key, Bucket>, bool) {
    if NoRoom(buckets, key, now) then (Room(buckets, key, now), false)
    else Unbounded(Room(buckets, key, now), key, now)
  }

  class RateLimitState {
    var buckets: map<Key, Bucket>

    constructor ()
      ensures buckets == map[]
    {
      buckets := map[];
    }

    method Allow(key: Key, now: int) returns (allowed: bool)
      modifies this
      ensures (buckets, allowed) == Bounded(old(buckets), key, now)
      ensures |old(buckets)| <= MAX_BUCKETS ==> |buckets| <= MAX_BUCKETS
    {
      if |buckets| <= MAX_BUCKETS {
        SizeStep(buckets, key, now);
      }
      if |buckets| >= MAX_BUCKETS && key !in buckets {
        buckets := map k | k in buckets && now - buckets[k].windowStarted < WINDOW_MS :: buckets[k];
        assert buckets == Retained(old(buckets), now);
        if |buckets| >= MAX_BUCKETS {
          return false;
        }
      }
      if key !in buckets {
        buckets := buckets[key := Bucket(now, 0)];
      }
      if now - buckets[key].windowStarted >= WINDOW_MS {
        buckets := buckets[key := Bucket(now, 0)];
      }
      if buckets[key].requests >= LIMIT_PER_MINUTE {
        assert buckets == Bounded(old(buckets), key, now).0;
        return false;
      }
      buckets := buckets[key := buckets[key].(requests := buckets[key].requests + 1)];
      assert buckets == Bounded(old(buckets), key, now).0;
      return true;
    }
  }

  lemma RetainedNotMore(buckets: map<Key, Bucket>, now: int)
    ensures |Retained(buckets, now)| <= |buckets|
  {
    assert Retained(buckets, now).Keys <= buckets.Keys;
    SubsetCardinality(Retained(buckets, now).Keys, buckets.Keys);
  }

  // ------------------------------------------------------------------
  // Runs
  // ------------------------------------------------------------------

  datatype Call = Call(key: Key, now: int)

  ghost predicate Ordered(calls: seq<Call>) {
    forall i, j | 0 <= i < j < |calls| :: calls[i].now <= calls[j].now
  }

  /** The bounded limiter after a run, from the empty one. */
  ghost function After(calls: seq<Call>): map<Key, Bucket> {
    if calls == [] then map[]
    else Bounded(After(calls[..|calls| - 1]), calls[|calls| - 1].key, calls[|calls| - 1].now).0
  }

  ghost predicate Admitted(calls: seq<Call>, i: nat)
    requires i < |calls|
  {
    Bounded(After(calls[..i]), calls[i].key, calls[i].now).1
  }

  ghost predicate RefusedForRoom(calls: seq<Call>, i: nat)
    requires i < |calls|
  {
    NoRoom(After(calls[..i]), calls[i].key, calls[i].now)
  }

  /** The calls that were not refused for lack of room. */
  ghost function Entering(calls: seq<Call>): seq<Call> {
    if calls == [] then []
    else
      var last := |calls| - 1;
      Entering(calls[..last]) + if RefusedForRoom(calls, last) then [] else [calls[last]]
  }

  ghost function AfterUnbounded(calls: seq<Call>): map<Key, Bucket> {
    if calls == [] then map[]
    else Unbounded(AfterUnbounded(calls[..|calls| - 1]), calls[|calls| - 1].key, calls[|calls| - 1].now).0
  }

  /** The bounded map holds buckets of the unbounded one, and what it misses has expired. */
  ghost predicate Simulates(bounded: map<Key, Bucket>, unbounded: map<Key, Bucket>, now: int) {
    && (forall k | k in bounded :: k in unbounded && bounded[k] == unbounded[k])
    && forall k | k in unbounded && k !in bounded :: !Live(unbounded[k], now)
  }

  lemma SimulationStep(bounded: map<Key, Bucket>, unbounded: map<Key, Bucket>, before: int, key: Key, now: int)
    requires Simulates(bounded, unbounded, before) && before <= now
    ensures NoRoom(bounded, key, now) ==> Simulates(Bounded(bounded, key, now).0, unbounded, now)
    ensures !NoRoom(bounded, key, now) ==>
      && Bounded(bounded, key, now).1 == Unbounded(unbounded, key, now).1
      && Simulates(Bounded(bounded, key, now).0, Unbounded(unbounded, key, now).0, now)
  {
    assert Simulates(Room(bounded, key, now), unbounded, now);
  }

  /** For calls in order of time, the limiter stays within its size and simulates the unbounded one. */
  lemma {:induction false} RunSimulates(calls: seq<Call>, now: int)
    requires Ordered(calls) && (calls != [] ==> calls[|calls| - 1].now <= now)
    ensures Simulates(After(calls), AfterUnbounded(Entering(calls)), now)
    ensures |After(calls)| <= MAX_BUCKETS
  {
    if calls != [] {
      var last := |calls| - 1;
      var init, c := calls[..last], calls[last];
      RunSimulates(init, c.now);
      SimulationStep(After(init), AfterUnbounded(Entering(init)), c.now, c.key, c.now);
      SizeStep(After(init), c.key, c.now);
      var entering := Entering(calls);
      if RefusedForRoom(calls, last) {
        assert entering == Entering(init);
      } else {
        assert entering[..|entering| - 1] == Entering(init);
      }
    }
  }

  lemma SizeStep(buckets: map<Key, Bucket>, key: Key, now: int)
    requires |buckets| <= MAX_BUCKETS
    ensures |Bounded(buckets, key, now).0| <= MAX_BUCKETS
  {
    RetainedNotMore(buckets, now);
  }

  /** A call that finds room is answered exactly as by an unbounded limiter that saw the calls that found room. */
  lemma AnswersAsUnbounded(calls: seq<Call>, i: nat)
    requires Ordered(calls) && i < |calls| && !RefusedForRoom(calls, i)
    ensures Admitted(calls, i) == Unbounded(AfterUnbounded(Entering(calls[..i])), calls[i].key, calls[i].now).1
  {
    RunSimulates(calls[..i], calls[i].now);
    SimulationStep(After(calls[..i]), AfterUnbounded(Entering(calls[..i])), calls[i].now, calls[i].key, calls[i].now);
  }

  // ------------------------------------------------------------------
  // How many requests a key gets
  // ------------------------------------------------------------------

  /** Admitted calls of a key from an instant on. */
  ghost function AdmittedSince(calls: seq<Call>, key: Key, from: int): nat {
    if calls == [] then 0
    else
      var last := |calls| - 1;
      AdmittedSince(calls[..last], key, from)
      + if calls[last].key == key && from <= calls[last].now && Admitted(calls, last) then 1 else 0
  }

  /** Admitted calls of a key in [from, until). */
  ghost function AdmittedIn(calls: seq<Call>, key: Key, from: int, until: int): nat {
    if calls == [] then 0
    else
      var last := |calls| - 1;
      AdmittedIn(calls[..last], key, from, until)
      + if calls[last].key == key && from <= calls[last].now < until && Admitted(calls, last) then 1 else 0
  }

  lemma {:induction false} LaterAdmitsNotMore(calls: seq<Call>, key: Key, from: int, later: int)
    requires from <= later
    ensures AdmittedSince(calls, key, later) <= AdmittedSince(calls, key, from)
  {
    if calls != [] {
      LaterAdmitsNotMore(calls[..|calls| - 1], key, from, later);
    }
  }

  /**
   * What the bucket of a key knows about its past: the requests of its window, the first one
   * at its start and all before it expired, and less than one full window in the minute before it.
   */
  ghost predicate Accounts(calls: seq<Call>, key: Key, now: int) {
    var buckets := After(calls);
    if key in buckets then
      var b := buckets[key];
      && b.windowStarted <= now && b.requests <= LIMIT_PER_MINUTE
      && AdmittedSince(calls, key, b.windowStarted) == b.requests
      && AdmittedSince(calls, key, b.windowStarted + 1) < b.requests
      && AdmittedSince(calls, key, b.windowStarted + WINDOW_MS) == 0
      && forall t | b.windowStarted - WINDOW_MS < t <= b.windowStarted ::
           AdmittedSince(calls, key, t) < LIMIT_PER_MINUTE + b.requests
    else
      && AdmittedSince(calls, key, now) == 0
      && forall t | now - WINDOW_MS < t :: AdmittedSince(calls, key, t) < LIMIT_PER_MINUTE
  }

  /** Expired or evicted buckets leave less than one full window behind. */
  lemma PastWindow(calls: seq<Call>, key: Key, before: int, now: int)
    requires Accounts(calls, key, before) && before <= now
    requires key in After(calls) ==> !Live(After(calls)[key], now)
    ensures AdmittedSince(calls, key, now) == 0
    ensures forall t | now - WINDOW_MS < t :: AdmittedSince(calls, key, t) < LIMIT_PER_MINUTE
  {
    if key in After(calls) {
      var w := After(calls)[key].windowStarted;
      LaterAdmitsNotMore(calls, key, w + WINDOW_MS, now);
      forall t | now - WINDOW_MS < t ensures AdmittedSince(calls, key, t) < LIMIT_PER_MINUTE {
        LaterAdmitsNotMore(calls, key, w + 1, t);
      }
    } else {
      LaterAdmitsNotMore(calls, key, before, now);
    }
  }

  lemma {:induction false} RunAccounts(calls: seq<Call>, key: Key, now: int)
    requires Ordered(calls) && (calls != [] ==> calls[|calls| - 1].now <= now)
    ensures Accounts(calls, key, now)
  {
    if calls != [] {
      var last := |calls| - 1;
      var init, c := calls[..last], calls[last];
      RunAccounts(init, key, c.now);
      assert forall i | 0 <= i < last :: calls[i].now <= c.now;
      AccountStep(init, c, key);
      assert calls == init + [c];
      if key !in After(calls) {
        PastWindow(calls, key, c.now, now);
      }
    }
  }

  lemma AdmittedSinceAppend(init: seq<Call>, c: Call, key: Key, t: int)
    ensures AdmittedSince(init + [c], key, t) == AdmittedSince(init, key, t)
      + if c.key == key && t <= c.now && Bounded(After(init), c.key, c.now).1 then 1 else 0
    ensures After(init + [c]) == Bounded(After(init), c.key, c.now).0
  {
    assert (init + [c])[..|init|] == init;
  }

  lemma AccountStep(init: seq<Call>, c: Call, key: Key)
    requires Accounts(init, key, c.now)
    ensures Accounts(init + [c], key, c.now)
  {
    if c.key != key {
      OtherKeyAccounts(init, c, key);
    } else if key in After(init) && Live(After(init)[key], c.now) {
      SameWindowAccounts(init, c);
    } else {
      NewWindowAccounts(init, c);
    }
  }

  lemma OtherKeyAccounts(init: seq<Call>, c: Call, key: Key)
    requires Accounts(init, key, c.now) && c.key != key
    ensures Accounts(init + [c], key, c.now)
  {
    hide After, AdmittedSince;
    forall t ensures AdmittedSince(init + [c], key, t) == AdmittedSince(init, key, t) {
      AdmittedSinceAppend(init, c, key, t);
    }
    AdmittedSinceAppend(init, c, key, 0);
    if key !in After(init) || !Live(After(init)[key], c.now) {
      PastWindow(init, key, c.now, c.now);
    }
  }

  lemma SameWindowAccounts(init: seq<Call>, c: Call)
    requires Accounts(init, c.key, c.now) && c.key in After(init) && Live(After(init)[c.key], c.now)
    ensures Accounts(init + [c], c.key, c.now)
  {
    hide After, AdmittedSince;
    var b := After(init)[c.key];
    forall t ensures AdmittedSince(init + [c], c.key, t)
      == AdmittedSince(init, c.key, t) + if t <= c.now && b.requests < LIMIT_PER_MINUTE then 1 else 0
    {
      AdmittedSinceAppend(init, c, c.key, t);
    }
    AdmittedSinceAppend(init, c, c.key, 0);
  }

  lemma NewWindowAccounts(init: seq<Call>, c: Call)
    requires Accounts(init, c.key, c.now) && (c.key in After(init) ==> !Live(After(init)[c.key], c.now))
    ensures Accounts(init + [c], c.key, c.now)
  {
    hide After, AdmittedSince;
    PastWindow(init, c.key, c.now, c.now);
    LaterAdmitsNotMore(init, c.key, c.now, c.now + 1);
    LaterAdmitsNotMore(init, c.key, c.now, c.now + WINDOW_MS);
    var admitted := !NoRoom(After(init), c.key, c.now);
    forall t ensures AdmittedSince(init + [c], c.key, t)
      == AdmittedSince(init, c.key, t) + if t <= c.now && admitted then 1 else 0
    {
      AdmittedSinceAppend(init, c, c.key, t);
    }
    AdmittedSinceAppend(init, c, c.key, 0);
  }

  /** Any minute, wherever it starts, admits fewer requests of a key than two full windows. */
  lemma {:induction false} AnyMinute(calls: seq<Call>, key: Key, from: int)
    requires Ordered(calls)
    ensures AdmittedIn(calls, key, from, from + WINDOW_MS) < 2 * LIMIT_PER_MINUTE
  {
    if calls != [] {
      var last := |calls| - 1;
      if calls[last].now >= from + WINDOW_MS {
        AnyMinute(calls[..last], key, from);
      } else {
        AllWithin(calls, key, from, from + WINDOW_MS);
        RunAccounts(calls, key, calls[last].now);
        if key in After(calls) {
          var w := After(calls)[key].windowStarted;
          if w < from {
            LaterAdmitsNotMore(calls, key, w, from);
          }
        }
      }
    }
  }

  /** A window of the key starts strictly inside the minute, at some point of the run. */
  ghost predicate WindowStartsInside(calls: seq<Call>, key: Key, from: int) {
    exists n: nat ::
      n <= |calls| && key in After(calls[..n]) && from < After(calls[..n])[key].windowStarted < from + WINDOW_MS
  }

  /** A minute admits at most a full window of a key unless a window of the key starts strictly inside it. */
  lemma {:induction false} MinuteWithinWindow(calls: seq<Call>, key: Key, from: int)
    requires Ordered(calls) && !WindowStartsInside(calls, key, from)
    ensures AdmittedIn(calls, key, from, from + WINDOW_MS) <= LIMIT_PER_MINUTE
  {
    if calls != [] {
      var last := |calls| - 1;
      if calls[last].now >= from + WINDOW_MS {
        forall n: nat | n <= last ensures calls[..last][..n] == calls[..n] {
        }
        MinuteWithinWindow(calls[..last], key, from);
      } else {
        AllWithin(calls, key, from, from + WINDOW_MS);
        RunAccounts(calls, key, calls[last].now);
        assert calls[..|calls|] == calls;
        if key in After(calls) {
          LaterAdmitsNotMore(calls, key, After(calls)[key].windowStarted, from);
        }
      }
    }
  }

  /** The key makes no call in the minute before `from`. */
  ghost predicate SilentBefore(calls: seq<Call>, key: Key, from: int) {
    forall i | 0 <= i < |calls| && calls[i].key == key :: !(from - WINDOW_MS < calls[i].now < from)
  }

  /** After a silent minute all admitted requests of the next minute share one window. */
  ghost predicate OneWindow(calls: seq<Call>, key: Key, from: int) {
    var buckets, admitted := After(calls), AdmittedSince(calls, key, from);
    if key in buckets && from <= buckets[key].windowStarted then admitted == buckets[key].requests <= LIMIT_PER_MINUTE
    else admitted == 0 && (key in buckets ==> buckets[key].windowStarted <= from - WINDOW_MS)
  }

  lemma {:induction false} SilenceGivesOneWindow(calls: seq<Call>, key: Key, from: int)
    requires Ordered(calls) && SilentBefore(calls, key, from)
    requires forall i | 0 <= i < |calls| :: calls[i].now < from + WINDOW_MS
    ensures OneWindow(calls, key, from)
  {
    if calls != [] {
      var init, c := calls[..|calls| - 1], calls[|calls| - 1];
      SilenceGivesOneWindow(init, key, from);
      RunAccounts(init, key, c.now);
      assert calls == init + [c];
      OneWindowStep(init, c, key, from);
    }
  }

  lemma OneWindowStep(init: seq<Call>, c: Call, key: Key, from: int)
    requires OneWindow(init, key, from) && Accounts(init, key, c.now) && c.now < from + WINDOW_MS
    requires c.key == key ==> !(from - WINDOW_MS < c.now < from)
    ensures OneWindow(init + [c], key, from)
  {
    hide After, AdmittedSince;
    AdmittedSinceAppend(init, c, key, from);
  }

  /** A minute that follows a minute without calls of the key admits at most one full window of it. */
  lemma {:induction false} MinuteAfterSilence(calls: seq<Call>, key: Key, from: int)
    requires Ordered(calls) && SilentBefore(calls, key, from)
    ensures AdmittedIn(calls, key, from, from + WINDOW_MS) <= LIMIT_PER_MINUTE
  {
    if calls != [] {
      var last := |calls| - 1;
      if calls[last].now >= from + WINDOW_MS {
        MinuteAfterSilence(calls[..last], key, from);
      } else {
        AllWithin(calls, key, from, from + WINDOW_MS);
        SilenceGivesOneWindow(calls, key, from);
      }
    }
  }

  lemma {:induction false} AllWithin(calls: seq<Call>, key: Key, from: int, until: int)
    requires forall i | 0 <= i < |calls| :: calls[i].now < until
    ensures AdmittedIn(calls, key, from, until) == AdmittedSince(calls, key, from)
  {
    if calls != [] {
      AllWithin(calls[..|calls| - 1], key, from, until);
    }
  }

  /** A call that finds room is admitted whenever its key had less than a full window in the last minute. */
  lemma AdmittedWhenFew(calls: seq<Call>, i: nat)
    requires Ordered(calls) && i < |calls| && !RefusedForRoom(calls, i)
    requires AdmittedSince(calls[..i], calls[i].key, calls[i].now - WINDOW_MS + 1) < LIMIT_PER_MINUTE
    ensures Admitted(calls, i)
  {
    var before, c := calls[..i], calls[i];
    RunAccounts(before, c.key, c.now);
    if c.key in After(before) && Live(After(before)[c.key], c.now) {
      LaterAdmitsNotMore(before, c.key, c.now - WINDOW_MS + 1, After(before)[c.key].windowStarted);
    }
  }

  function Burst(key: Key, now: int, n: nat): (r: seq<Call>)
    ensures |r| == n && forall i | 0 <= i < n :: r[i] == Call(key, now)
  {
    seq(n, _ => Call(key, now))
  }

  /** One more call of a key with room and requests left. */
  lemma CallAdmitted(calls: seq<Call>, key: Key, now: int, from: int, until: int)
    requires key in After(calls) || After(calls) == map[]
    requires Entered(After(calls), key, now).requests < LIMIT_PER_MINUTE
    ensures var after, b := After(calls + [Call(key, now)]), Entered(After(calls), key, now);
      key in after && after[key] == b.(requests := b.requests + 1)
    ensures AdmittedIn(calls + [Call(key, now)], key, from, until)
      == AdmittedIn(calls, key, from, until) + if from <= now < until then 1 else 0
  {
    var all := calls + [Call(key, now)];
    assert all[..|calls|] == calls;
  }

  /** A burst of a known key is admitted up to the limit. */
  lemma {:induction false} BurstAdmitted(calls: seq<Call>, key: Key, now: int, n: nat, from: int, until: int)
    requires key in After(calls) && Entered(After(calls), key, now).requests + n <= LIMIT_PER_MINUTE && n > 0
    requires from <= now < until
    ensures var after, b := After(calls + Burst(key, now, n)), Entered(After(calls), key, now);
      key in after && after[key] == b.(requests := b.requests + n)
    ensures AdmittedIn(calls + Burst(key, now, n), key, from, until) == AdmittedIn(calls, key, from, until) + n
  {
    hide After, AdmittedIn, Burst;
    var init := calls + Burst(key, now, n - 1);
    assert calls + Burst(key, now, n) == init + [Call(key, now)];
    if n == 1 {
      assert init == calls;
    } else {
      BurstAdmitted(calls, key, now, n - 1, from, until);
    }
    CallAdmitted(init, key, now, from, until);
  }

  lemma FirstCall(key: Key)
    ensures After([Call(key, 0)]) == map[key := Bucket(0, 1)] && AdmittedIn([Call(key, 0)], key, 1, 1 + WINDOW_MS) == 0
  {
    CallAdmitted([], key, 0, 1, 1 + WINDOW_MS);
    assert [] + [Call(key, 0)] == [Call(key, 0)];
    assert [Call(key, 0)][..0] == [];
  }

  /** No smaller bound holds: 299 requests at the end of one window and 300 at the start of the next fit in a minute. */
  lemma AnyMinuteIsTight(key: Key)
    ensures exists calls: seq<Call> ::
      Ordered(calls) && AdmittedIn(calls, key, 1, 1 + WINDOW_MS) == 2 * LIMIT_PER_MINUTE - 1
  {
    hide Burst, After, AdmittedIn, Ordered;
    var one := [Call(key, 0)];
    FirstCall(key);
    var late := one + Burst(key, WINDOW_MS - 1, LIMIT_PER_MINUTE - 1);
    var calls := late + Burst(key, WINDOW_MS, LIMIT_PER_MINUTE);
    BurstAdmitted(one, key, WINDOW_MS - 1, LIMIT_PER_MINUTE - 1, 1, 1 + WINDOW_MS);
    BurstAdmitted(late, key, WINDOW_MS, LIMIT_PER_MINUTE, 1, 1 + WINDOW_MS);
    BurstsAreOrdered(key);
  }

  lemma BurstsAreOrdered(key: Key)
    ensures var late := [Call(key, 0)] + Burst(key, WINDOW_MS - 1, LIMIT_PER_MINUTE - 1);
      Ordered(late + Burst(key, WINDOW_MS, LIMIT_PER_MINUTE))
  {
    hide Burst;
  }

  // ------------------------------------------------------------------
  // Every answer, from the admitted calls alone
  // ------------------------------------------------------------------

  /** When the last window of a key began: with an admitted call a minute or more after the window before. */
  ghost function WindowOf(calls: seq<Call>, key: Key): Option<int> {
    if calls == [] then None
    else
      var last := |calls| - 1;
      var before := WindowOf(calls[..last], key);
      if calls[last].key != key || !Admitted(calls, last) then before
      else if before.Some? && calls[last].now < before.value + 60_000 then before
      else Some(calls[last].now)
  }

  ghost predicate InWindow(calls: seq<Call>, key: Key, now: int) {
    var w := WindowOf(calls, key);
    w.Some? && now < w.value + 60_000
  }

  ghost function LiveKeys(calls: seq<Call>, now: int): set<Key> {
    set c | c in calls && InWindow(calls, c.key, now) :: c.key
  }

  /** What buckets and admitted calls say about a key is the same as long as its window lasts. */
  ghost predicate SameWindow(calls: seq<Call>, key: Key, now: int) {
    && (InWindow(calls, key, now) <==> key in After(calls) && Live(After(calls)[key], now))
    && (InWindow(calls, key, now) ==> WindowOf(calls, key) == Some(After(calls)[key].windowStarted))
  }

  lemma WindowAppend(init: seq<Call>, c: Call, key: Key)
    ensures var before := WindowOf(init, key);
      WindowOf(init + [c], key) ==
      if c.key != key || !Bounded(After(init), c.key, c.now).1 then before
      else if before.Some? && c.now < before.value + 60_000 then before
      else Some(c.now)
    ensures After(init + [c]) == Bounded(After(init), c.key, c.now).0
  {
    assert (init + [c])[..|init|] == init;
  }

  lemma SameWindowStep(init: seq<Call>, c: Call, key: Key, now: int)
    requires SameWindow(init, key, c.now) && c.now <= now && |After(init)| <= MAX_BUCKETS
    requires key in After(init) ==> After(init)[key].requests <= LIMIT_PER_MINUTE
    ensures SameWindow(init + [c], key, now)
  {
    hide After, WindowOf;
    WindowAppend(init, c, key);
  }

  lemma {:induction false} RunSameWindow(calls: seq<Call>, key: Key, now: int)
    requires Ordered(calls) && (calls != [] ==> calls[|calls| - 1].now <= now)
    ensures SameWindow(calls, key, now)
  {
    if calls != [] {
      hide After, SameWindow, Accounts;
      var init, c := calls[..|calls| - 1], calls[|calls| - 1];
      RunSameWindow(init, key, c.now);
      RunSimulates(init, c.now);
      RunAccounts(init, key, c.now);
      assert key in After(init) ==> After(init)[key].requests <= LIMIT_PER_MINUTE by {
        assert Accounts(init, key, c.now);
      }
      assert calls == init + [c];
      SameWindowStep(init, c, key, now);
    } else {
      assert SameWindow(calls, key, now);
    }
  }

  /** A window begins with an admitted call of its key. */
  lemma {:induction false} WindowBeginsWithCall(calls: seq<Call>, key: Key) returns (i: nat)
    requires WindowOf(calls, key).Some?
    ensures i < |calls| && calls[i] == Call(key, WindowOf(calls, key).value) && Admitted(calls, i)
  {
    var last := |calls| - 1;
    if WindowOf(calls, key) == WindowOf(calls[..last], key) {
      i := WindowBeginsWithCall(calls[..last], key);
      assert calls[..last][..i] == calls[..i];
    } else {
      i := last;
    }
  }

  /** The keys whose buckets `retain` would keep are those in a window. */
  lemma LiveKeysAreRetained(calls: seq<Call>, now: int)
    requires Ordered(calls) && (calls != [] ==> calls[|calls| - 1].now <= now)
    ensures LiveKeys(calls, now) == Retained(After(calls), now).Keys
  {
    hide After, WindowOf;
    forall key ensures key in LiveKeys(calls, now) <==> key in Retained(After(calls), now) {
      RunSameWindow(calls, key, now);
      if InWindow(calls, key, now) {
        var i := WindowBeginsWithCall(calls, key);
        assert calls[i] in calls;
      }
    }
  }

  /** A call is refused for lack of room iff its key is in no window and 10,000 keys are. */
  lemma RefusedForRoomIff(calls: seq<Call>, i: nat)
    requires Ordered(calls) && i < |calls|
    ensures var before, c := calls[..i], calls[i];
      RefusedForRoom(calls, i) <==> !InWindow(before, c.key, c.now) && |LiveKeys(before, c.now)| >= 10_000
  {
    hide After, LiveKeys, InWindow;
    var before, c := calls[..i], calls[i];
    RunSimulates(before, c.now);
    RunSameWindow(before, c.key, c.now);
    LiveKeysAreRetained(before, c.now);
    var buckets := After(before);
    var retained := Retained(buckets, c.now);
    assert |retained| == |retained.Keys| && |buckets| == |buckets.Keys|;
    RetainedNotMore(buckets, c.now);
    if c.key in buckets && !Live(buckets[c.key], c.now) {
      assert retained.Keys <= buckets.Keys - {c.key};
      SubsetCardinality(retained.Keys, buckets.Keys - {c.key});
    }
  }

  /**
   * Every answer of an ordered run: within a window of its key a call is admitted iff the window
   * had fewer than 300, and outside one iff fewer than 10,000 keys are in a window.
   */
  lemma AnswerExact(calls: seq<Call>, i: nat)
    requires Ordered(calls) && i < |calls|
    ensures var before, c := calls[..i], calls[i];
      Admitted(calls, i) <==>
      if InWindow(before, c.key, c.now) then AdmittedSince(before, c.key, WindowOf(before, c.key).value) < 300
      else |LiveKeys(before, c.now)| < 10_000
  {
    hide After, LiveKeys, WindowOf, AdmittedSince;
    var before, c := calls[..i], calls[i];
    RunSameWindow(before, c.key, c.now);
    RefusedForRoomIff(calls, i);
    RunAccounts(before, c.key, c.now);
  }

  /** Who is refused for lack of room shares the last minute with 10,000 other keys that had calls admitted in it. */
  lemma RefusedForRoomMeansCrowd(calls: seq<Call>, i: nat)
    requires Ordered(calls) && i < |calls| && RefusedForRoom(calls, i)
    ensures var c, others := calls[i], LiveKeys(calls[..i], calls[i].now);
      && |others| >= 10_000 && c.key !in others
      && forall key | key in others :: exists j | 0 <= j < i ::
        calls[j].key == key && Admitted(calls, j) && c.now - 60_000 < calls[j].now <= c.now
  {
    hide After, WindowOf, RefusedForRoom, Admitted;
    RefusedForRoomIff(calls, i);
    var before, c := calls[..i], calls[i];
    forall key | key in LiveKeys(before, c.now)
      ensures exists j | 0 <= j < i ::
        calls[j].key == key && Admitted(calls, j) && c.now - 60_000 < calls[j].now <= c.now
    {
      var j := WindowBeginsWithCall(before, key);
      AdmittedInPrefix(calls, i, j);
      assert calls[j] == before[j];
    }
  }

  lemma AdmittedInPrefix(calls: seq<Call>, i: nat, j: nat)
    requires j < i <= |calls|
    ensures Admitted(calls[..i], j) == Admitted(calls, j)
  {
    assert calls[..i][..j] == calls[..j];
  }
}
