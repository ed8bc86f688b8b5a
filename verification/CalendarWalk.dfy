/**
 * Adding working time: `add_working_hours` of `src/core/calendar.rs`.
 *
 * The walk consumes whole free segments. It is compared with counting available
 * milliseconds one at a time.
 */
module CalendarWalk {
  import opened Wrappers
  import opened Errors
  import opened Calendar
  import opened Rounding

  /** The active block meeting (cursor, workEnd) that starts first; the first one listed on a tie. */
  function NextBlock(blocks: seq<AvailabilityBlock>, cursor: int, workEnd: int): (r: Option<AvailabilityBlock>)
    ensures r.None? ==> forall b | b in blocks && b.IsActive() :: b.startsAt < workEnd ==> b.endsAt <= cursor
    ensures r.Some? ==> r.value in blocks && r.value.IsActive()
    ensures r.Some? ==> r.value.startsAt < workEnd && cursor < r.value.endsAt
    ensures r.Some? ==> forall b | b in blocks && b.IsActive() ::
      b.startsAt < workEnd && cursor < b.endsAt ==> r.value.startsAt <= b.startsAt
  {
    if blocks == [] then None
    else
      var first, rest := blocks[0], NextBlock(blocks[1..], cursor, workEnd);
      if first.IsActive() && first.startsAt < workEnd && cursor < first.endsAt
         && (rest.None? || first.startsAt <= rest.value.startsAt)
      then Some(first)
      else rest
  }

  /** The loop of `add_working_hours`, with the number of iterations left. */
  function Walk(c: WorkCalendar, cursor: int, remaining: int, steps: nat, limit: nat): Result<int, RelayError>
    decreases steps
  {
    if steps == 0 then Err(Validation(CalendarSearchLimit))
    else
      var workEnd := WorkEnd(c, LocalDay(c, cursor));
      var block := NextBlock(c.timeOff, cursor, workEnd);
      if block.Some? && block.value.startsAt <= cursor then
        var next := NextAvailable(c, block.value.endsAt, limit);
        if next.Err? then next else Walk(c, next.value, remaining, steps - 1, limit)
      else
        var until := if block.Some? then Min(block.value.startsAt, workEnd) else workEnd;
        var availableMs := Max(until - cursor, 0);
        if remaining <= availableMs then Ok(cursor + remaining)
        else
          var next := NextAvailable(c, if block.Some? then block.value.endsAt else workEnd, limit);
          if next.Err? then next else Walk(c, next.value, remaining - availableMs, steps - 1, limit)
  }

  function AddWorkingMs(c: WorkCalendar, start: int, ms: nat, limit: nat := MAX_SEARCH_DAYS): Result<int, RelayError> {
    var first := NextAvailable(c, start, limit);
    if first.Err? || ms == 0 then first else Walk(c, first.value, ms, limit * 4, limit)
  }

  function AddWorkingHours(c: WorkCalendar, start: int, hours: real,
                           limit: nat := MAX_SEARCH_DAYS): Result<int, RelayError> {
    if hours < 0.0 then Err(Validation(NegativeWorkingHours))
    else AddWorkingMs(c, start, HoursMs(hours), limit)
  }

  method ComputeWorkingHours(c: WorkCalendar, start: int, hours: real, limit: nat := MAX_SEARCH_DAYS)
    returns (r: Result<int, RelayError>)
    ensures r == AddWorkingHours(c, start, hours, limit)
    ensures hours < 0.0 ==> r == Err(Validation(NegativeWorkingHours))
    ensures r.Ok? && NeverReversed(c) ==> hours >= 0.0 && IsFinish(c, start, HoursMs(hours), r.value)
  {
    hide Search, NextBlock, LocalMinuteToUtc, LocalDay, Validate, IsFinish, NeverReversed;
    AddWorkingMsExact(c, start, HoursMs(hours), limit);
    if hours < 0.0 {
      return Err(Validation(NegativeWorkingHours));
    }
    var remaining := HoursMs(hours);
    var next := FindNextAvailable(c, start, limit);
    if next.Err? || remaining == 0 {
      return next;
    }
    var cursor := next.value;
    ghost var spec := AddWorkingHours(c, start, hours, limit);
    for i := 0 to limit * 4
      invariant spec == Walk(c, cursor, remaining, limit * 4 - i, limit)
    {
      var workEnd := WorkEnd(c, LocalDay(c, cursor));
      var block := NextBlock(c.timeOff, cursor, workEnd);
      if block.Some? && block.value.startsAt <= cursor {
        next := FindNextAvailable(c, block.value.endsAt, limit);
        if next.Err? {
          return next;
        }
        cursor := next.value;
        continue;
      }
      var until := if block.Some? then Min(block.value.startsAt, workEnd) else workEnd;
      var availableMs := Max(until - cursor, 0);
      if remaining <= availableMs {
        return Ok(cursor + remaining);
      }
      remaining := remaining - availableMs;
      next := FindNextAvailable(c, if block.Some? then block.value.endsAt else workEnd, limit);
      if next.Err? {
        return next;
      }
      cursor := next.value;
    }
    return Err(Validation(CalendarSearchLimit));
  }

  // ------------------------------------------------------------------
  // The independent reading: counting milliseconds
  // ------------------------------------------------------------------

  /** Available milliseconds of [lo, hi). */
  ghost function Count(c: WorkCalendar, lo: int, hi: int): nat
    decreases hi - lo
  {
    if hi <= lo then 0 else Count(c, lo, hi - 1) + if Available(c, hi - 1) then 1 else 0
  }

  /** r is where ms available milliseconds counted from start are used up. */
  ghost predicate IsFinish(c: WorkCalendar, start: int, ms: nat, r: int) {
    if ms == 0 then IsNext(c, start, r)
    else start < r && Count(c, start, r) == ms && Available(c, r - 1)
  }

  lemma {:induction false} CountSplits(c: WorkCalendar, lo: int, mid: int, hi: int)
    requires lo <= mid <= hi
    ensures Count(c, lo, hi) == Count(c, lo, mid) + Count(c, mid, hi)
    decreases hi - mid
  {
    if mid < hi {
      CountSplits(c, lo, mid, hi - 1);
    }
  }

  lemma {:induction false} CountFull(c: WorkCalendar, lo: int, hi: int)
    requires lo <= hi
    requires forall t | lo <= t < hi :: Available(c, t)
    ensures Count(c, lo, hi) == hi - lo
    decreases hi - lo
  {
    if lo < hi {
      CountFull(c, lo, hi - 1);
    }
  }

  lemma {:induction false} CountEmpty(c: WorkCalendar, lo: int, hi: int)
    requires NoneAvailable(c, lo, hi)
    ensures Count(c, lo, hi) == 0
    decreases hi - lo
  {
    if lo < hi {
      CountEmpty(c, lo, hi - 1);
    }
  }

  /** For a positive duration the finish is the least instant with exactly ms available milliseconds before it. */
  lemma FinishIsLeast(c: WorkCalendar, start: int, ms: nat, r: int)
    requires ms > 0
    ensures IsFinish(c, start, ms, r) <==>
      start <= r && Count(c, start, r) == ms && forall q | start <= q < r :: Count(c, start, q) < ms
  {
    if start < r {
      CountSplits(c, start, r - 1, r);
      if Available(c, r - 1) && Count(c, start, r) == ms {
        forall q | start <= q < r ensures Count(c, start, q) < ms {
          CountSplits(c, start, q, r - 1);
        }
      } else {
        assert start <= r - 1 < r;
      }
    }
  }

  // ------------------------------------------------------------------
  // The walk computes the count
  // ------------------------------------------------------------------

  /** At an available instant the walk would pick a block that ends before it starts. */
  ghost predicate ReversedNext(c: WorkCalendar, t: int) {
    var block := NextBlock(c.timeOff, t, WorkEnd(c, LocalDay(c, t)));
    Available(c, t) && block.Some? && block.value.endsAt < block.value.startsAt
  }

  ghost predicate NeverReversed(c: WorkCalendar) {
    forall t :: !ReversedNext(c, t)
  }

  /** End of the free segment that starts at an available cursor. */
  function SegmentEnd(c: WorkCalendar, cursor: int): int {
    var workEnd := WorkEnd(c, LocalDay(c, cursor));
    var block := NextBlock(c.timeOff, cursor, workEnd);
    if block.Some? then Min(block.value.startsAt, workEnd) else workEnd
  }

  /** Where the walk resumes after that segment. */
  function Resume(c: WorkCalendar, cursor: int): int {
    var workEnd := WorkEnd(c, LocalDay(c, cursor));
    var block := NextBlock(c.timeOff, cursor, workEnd);
    if block.Some? then block.value.endsAt else workEnd
  }

  /** The segment is not empty (so the `starts_at <= cursor` branch is never taken) and wholly available. */
  lemma SegmentAvailable(c: WorkCalendar, cursor: int)
    requires Validate(c).Ok? && Available(c, cursor)
    ensures cursor < SegmentEnd(c, cursor)
    ensures forall t | cursor <= t < SegmentEnd(c, cursor) :: Available(c, t)
    ensures Count(c, cursor, SegmentEnd(c, cursor)) == SegmentEnd(c, cursor) - cursor
  {
    var day := LocalDay(c, cursor);
    DayBounds(c, day);
    InDay(c, cursor, day);
    var block := NextBlock(c.timeOff, cursor, WorkEnd(c, day));
    assert block.Some? ==> !block.value.Covers(cursor);
    forall t | cursor <= t < SegmentEnd(c, cursor) ensures Available(c, t) {
      InDay(c, t, day);
    }
    CountFull(c, cursor, SegmentEnd(c, cursor));
  }

  lemma SkipsToResume(c: WorkCalendar, cursor: int)
    requires Validate(c).Ok? && Available(c, cursor) && !ReversedNext(c, cursor)
    ensures cursor < SegmentEnd(c, cursor) <= Resume(c, cursor)
    ensures NoneAvailable(c, SegmentEnd(c, cursor), Resume(c, cursor))
  {
    SegmentAvailable(c, cursor);
    var block := NextBlock(c.timeOff, cursor, WorkEnd(c, LocalDay(c, cursor)));
    forall t | SegmentEnd(c, cursor) <= t < Resume(c, cursor) ensures !Available(c, t) {
      assert block.value.Covers(t);
    }
  }

  /** Nothing is available between the segment and the instant from which the walk goes on. */
  lemma ResumeSkipsNothing(c: WorkCalendar, cursor: int, next: int)
    requires Validate(c).Ok? && Available(c, cursor) && !ReversedNext(c, cursor)
    requires IsNext(c, Resume(c, cursor), next)
    ensures cursor < SegmentEnd(c, cursor) <= Resume(c, cursor) <= next
    ensures Count(c, cursor, next) == SegmentEnd(c, cursor) - cursor
  {
    SegmentAvailable(c, cursor);
    SkipsToResume(c, cursor);
    CountEmpty(c, SegmentEnd(c, cursor), next);
    CountSplits(c, cursor, SegmentEnd(c, cursor), next);
  }

  /** One iteration of the walk at an available cursor. */
  lemma WalkStep(c: WorkCalendar, cursor: int, remaining: nat, steps: nat, limit: nat)
    requires Validate(c).Ok? && Available(c, cursor) && steps > 0
    ensures var segment := SegmentEnd(c, cursor) - cursor;
      Walk(c, cursor, remaining, steps, limit) ==
      if remaining <= segment then Ok(cursor + remaining)
      else
        var next := NextAvailable(c, Resume(c, cursor), limit);
        if next.Err? then next else Walk(c, next.value, remaining - segment, steps - 1, limit)
  {
    SegmentAvailable(c, cursor);
  }

  lemma {:induction false} WalkExact(c: WorkCalendar, cursor: int, remaining: nat, steps: nat, limit: nat)
    requires Validate(c).Ok? && NeverReversed(c)
    requires Available(c, cursor) && remaining > 0
    ensures var r := Walk(c, cursor, remaining, steps, limit); r.Ok? ==> IsFinish(c, cursor, remaining, r.value)
    decreases steps
  {
    hide Search, NextBlock, LocalMinuteToUtc, LocalDay, SegmentEnd, Resume;
    var r := Walk(c, cursor, remaining, steps, limit);
    if r.Ok? {
      WalkStep(c, cursor, remaining, steps, limit);
      SegmentAvailable(c, cursor);
      var segment := SegmentEnd(c, cursor) - cursor;
      if remaining <= segment {
        CountFull(c, cursor, cursor + remaining);
      } else {
        var next := NextAvailable(c, Resume(c, cursor), limit).value;
        SearchFindsNext(c, Resume(c, cursor), limit);
        assert !ReversedNext(c, cursor);
        ResumeSkipsNothing(c, cursor, next);
        WalkExact(c, next, remaining - segment, steps - 1, limit);
        CountSplits(c, cursor, next, r.value);
      }
    }
  }

  lemma AddWorkingMsExact(c: WorkCalendar, start: int, ms: nat, limit: nat)
    ensures var r := AddWorkingMs(c, start, ms, limit);
      r.Ok? && NeverReversed(c) ==> IsFinish(c, start, ms, r.value)
  {
    hide Search, Walk;
    var r := AddWorkingMs(c, start, ms, limit);
    if r.Ok? && NeverReversed(c) {
      SearchFindsNext(c, start, limit);
      if ms > 0 {
        var first := NextAvailable(c, start, limit).value;
        WalkExact(c, first, ms, limit * 4, limit);
        CountEmpty(c, start, first);
        CountSplits(c, start, first, r.value);
      }
    }
  }

  // ------------------------------------------------------------------
  // Exactly when the walk is exact
  // ------------------------------------------------------------------

  /** At a reversed next block the walk counts [ends_at, starts_at) twice and stops too early. */
  lemma ReversedNextMiscounts(c: WorkCalendar, t: int, limit: nat)
    requires Validate(c).Ok? && ReversedNext(c, t) && limit > 0
    ensures var ms := SegmentEnd(c, t) - t + 1;
      && AddWorkingMs(c, t, ms, limit) == Ok(Resume(c, t) + 1)
      && !IsFinish(c, t, ms, Resume(c, t) + 1)
  {
    hide Search, Walk, NextBlock, LocalMinuteToUtc, LocalDay;
    var ms, back := SegmentEnd(c, t) - t + 1, Resume(c, t);
    SegmentAvailable(c, t);
    AvailableIsNext(c, t, limit);
    AvailableIsNext(c, back, limit);
    SegmentAvailable(c, back);
    WalkStep(c, t, ms, limit * 4, limit);
    WalkStep(c, back, 1, limit * 4 - 1, limit);
    CountSplits(c, t, back + 1, SegmentEnd(c, t));
  }

  lemma AvailableIsNext(c: WorkCalendar, t: int, limit: nat)
    requires Validate(c).Ok? && Available(c, t) && limit > 0
    ensures NextAvailable(c, t, limit) == Ok(t)
  {
    EndingInShrinks(c.timeOff, t, t, t);
    EndingInNothing(c.timeOff, t);
    SearchReaches(c, t, t, limit);
    SearchFindsNext(c, t, limit);
  }

  lemma {:induction false} EndingInNothing(blocks: seq<AvailabilityBlock>, t: int)
    ensures EndingIn(blocks, t, t) == 0
  {
    if blocks != [] {
      EndingInNothing(blocks[1..], t);
    }
  }

  /** Every finish of `add_working_hours` is the exact one iff no available instant's next block is reversed. */
  lemma ExactIffNeverReversed(c: WorkCalendar, limit: nat)
    requires Validate(c).Ok? && limit > 0
    ensures NeverReversed(c) <==>
      forall start, ms: nat :: var r := AddWorkingMs(c, start, ms, limit); r.Ok? ==> IsFinish(c, start, ms, r.value)
  {
    forall t | ReversedNext(c, t)
      ensures exists start, ms: nat ::
        var r := AddWorkingMs(c, start, ms, limit); r.Ok? && !IsFinish(c, start, ms, r.value)
    {
      ReversedNextMiscounts(c, t, limit);
      SegmentAvailable(c, t);
      var ms: nat := SegmentEnd(c, t) - t + 1;
      assert AddWorkingMs(c, t, ms, limit).Ok?;
    }
    forall start, ms: nat
      ensures var r := AddWorkingMs(c, start, ms, limit); r.Ok? && NeverReversed(c) ==> IsFinish(c, start, ms, r.value)
    {
      AddWorkingMsExact(c, start, ms, limit);
    }
  }

  lemma {:induction false} NextBlockStays(blocks: seq<AvailabilityBlock>, t: int, t': int, workEnd: int)
    requires NextBlock(blocks, t, workEnd).Some? && t <= t' < NextBlock(blocks, t, workEnd).value.endsAt
    ensures NextBlock(blocks, t', workEnd) == NextBlock(blocks, t, workEnd)
  {
    var rest := blocks[1..];
    if NextBlock(rest, t, workEnd).Some? && NextBlock(rest, t, workEnd) == NextBlock(blocks, t, workEnd) {
      NextBlockStays(rest, t, t', workEnd);
    }
  }

  /** What can be checked block by block: no block that ends before it starts is the next one just before its end. */
  ghost predicate ReversedBlocksHidden(c: WorkCalendar) {
    forall b | b in c.timeOff && b.IsActive() && b.endsAt < b.startsAt :: !ReversedNext(c, b.endsAt - 1)
  }

  lemma NeverReversedIffHidden(c: WorkCalendar)
    requires Validate(c).Ok?
    ensures NeverReversed(c) <==> ReversedBlocksHidden(c)
  {
    hide NextBlock, LocalMinuteToUtc, LocalDay;
    forall t | ReversedNext(c, t) ensures !ReversedBlocksHidden(c) {
      var day := LocalDay(c, t);
      var b := NextBlock(c.timeOff, t, WorkEnd(c, day)).value;
      SegmentAvailable(c, t);
      DayBounds(c, day);
      InDay(c, t, day);
      InDay(c, b.endsAt - 1, day);
      NextBlockStays(c.timeOff, t, b.endsAt - 1, WorkEnd(c, day));
      assert ReversedNext(c, b.endsAt - 1);
    }
  }

  /** All finishes are exact iff no block of the calendar is reversed where the walk can meet it. */
  lemma ExactIffReversedBlocksHidden(c: WorkCalendar, limit: nat)
    requires Validate(c).Ok? && limit > 0
    ensures ReversedBlocksHidden(c) <==>
      forall start, ms: nat ::
        var r := AddWorkingMs(c, start, ms, limit); r.Ok? ==> IsFinish(c, start, ms, r.value)
  {
    hide AddWorkingMs, IsFinish, NeverReversed, ReversedBlocksHidden;
    NeverReversedIffHidden(c);
    ExactIffNeverReversed(c, limit);
  }

  /**
   * Thursday 1970-01-01, 09:00-18:00: time off from 11:00 back to 10:00 makes two hours and a
   * millisecond from 09:00 end just after 10:00.
   */
  lemma ReversedBlockMiscounts()
    ensures var block := AvailabilityBlock("b", 39_600_000, 36_000_000, None);
      var c := WorkCalendar(0, [Thursday], 540, 1080, [block]);
      && Validate(c).Ok? && ReversedNext(c, 32_400_000)
      && AddWorkingMs(c, 32_400_000, 7_200_001) == Ok(36_000_001)
      && !IsFinish(c, 32_400_000, 7_200_001, 36_000_001)
  {
    hide Search, Walk, IsFinish;
    var block := AvailabilityBlock("b", 39_600_000, 36_000_000, None);
    var c := WorkCalendar(0, [Thursday], 540, 1080, [block]);
    assert c.timeOff == [block];
    assert NextBlock([], 32_400_000, WorkEnd(c, 0)).None?;
    assert NextBlock(c.timeOff, 32_400_000, WorkEnd(c, 0)) == Some(block);
    ReversedNextMiscounts(c, 32_400_000, MAX_SEARCH_DAYS);
  }

  /** The order of ends that the caller checks on every new block is enough. */
  lemma OrderedBlocksNeverReversed(c: WorkCalendar)
    requires forall b | b in c.timeOff && b.IsActive() :: b.startsAt <= b.endsAt
    ensures NeverReversed(c)
  {
  }

  // ------------------------------------------------------------------
  // Composition and monotonicity
  // ------------------------------------------------------------------

  lemma FinishUnique(c: WorkCalendar, start: int, ms: nat, r: int, r': int)
    requires IsFinish(c, start, ms, r) && IsFinish(c, start, ms, r')
    ensures r == r'
  {
    if r < r' {
      FinishNotLater(c, c, start, start, ms, ms, r', r);
    } else {
      FinishNotLater(c, c, start, start, ms, ms, r, r');
    }
  }

  lemma {:induction false} CountFewer(c: WorkCalendar, c': WorkCalendar, lo: int, hi: int)
    requires forall t | Available(c', t) :: Available(c, t)
    ensures Count(c', lo, hi) <= Count(c, lo, hi)
    decreases hi - lo
  {
    if lo < hi {
      CountFewer(c, c', lo, hi - 1);
    }
  }

  /** A later start, a longer duration and fewer available instants never finish earlier. */
  lemma FinishNotLater(c: WorkCalendar, c': WorkCalendar, s: int, s': int, ms: nat, ms': nat, r: int, r': int)
    requires forall t | Available(c', t) :: Available(c, t)
    requires s <= s' && ms <= ms'
    requires IsFinish(c, s, ms, r) && IsFinish(c', s', ms', r')
    ensures r <= r'
  {
    assert ms == 0 ==> Available(c, if ms' == 0 then r' else r' - 1);
    if r' < r {
      CountFewer(c, c', s', r');
      CountSplits(c, s, s', r');
      if ms > 0 {
        FinishIsLeast(c, s, ms, r);
      }
    }
  }

  /** Adding a and then b > 0 is adding a + b. */
  lemma AddWorkingMsComposes(c: WorkCalendar, start: int, a: nat, b: nat, limit: nat)
    requires NeverReversed(c) && b > 0
    ensures var mid, sum := AddWorkingMs(c, start, a, limit), AddWorkingMs(c, start, a + b, limit);
      mid.Ok? && sum.Ok? ==>
        var end := AddWorkingMs(c, mid.value, b, limit); end.Ok? ==> end.value == sum.value
  {
    hide AddWorkingMs, NeverReversed;
    var mid, sum := AddWorkingMs(c, start, a, limit), AddWorkingMs(c, start, a + b, limit);
    AddWorkingMsExact(c, start, a, limit);
    AddWorkingMsExact(c, start, a + b, limit);
    if mid.Ok? && sum.Ok? && AddWorkingMs(c, mid.value, b, limit).Ok? {
      var end := AddWorkingMs(c, mid.value, b, limit).value;
      AddWorkingMsExact(c, mid.value, b, limit);
      if a == 0 {
        CountEmpty(c, start, mid.value);
      }
      CountSplits(c, start, mid.value, end);
      FinishUnique(c, start, a + b, end, sum.value);
    }
  }

  lemma AddWorkingMsMonotone(c: WorkCalendar, s: int, s': int, ms: nat, ms': nat, limit: nat)
    requires NeverReversed(c) && s <= s' && ms <= ms'
    ensures var r, r' := AddWorkingMs(c, s, ms, limit), AddWorkingMs(c, s', ms', limit);
      r.Ok? && r'.Ok? ==> r.value <= r'.value
  {
    hide AddWorkingMs, NeverReversed;
    var r, r' := AddWorkingMs(c, s, ms, limit), AddWorkingMs(c, s', ms', limit);
    if r.Ok? && r'.Ok? {
      AddWorkingMsExact(c, s, ms, limit);
      AddWorkingMsExact(c, s', ms', limit);
      FinishNotLater(c, c, s, s', ms, ms', r.value, r'.value);
    }
  }

  /** One more time-off block never makes a finish earlier. */
  lemma TimeOffNotEarlier(c: WorkCalendar, block: AvailabilityBlock, start: int, ms: nat, limit: nat)
    requires NeverReversed(c) && NeverReversed(c.(timeOff := c.timeOff + [block]))
    ensures var c' := c.(timeOff := c.timeOff + [block]);
      var r, r' := AddWorkingMs(c, start, ms, limit), AddWorkingMs(c', start, ms, limit);
      r.Ok? && r'.Ok? ==> r.value <= r'.value
  {
    hide AddWorkingMs, NeverReversed;
    var c' := c.(timeOff := c.timeOff + [block]);
    var r, r' := AddWorkingMs(c, start, ms, limit), AddWorkingMs(c', start, ms, limit);
    if r.Ok? && r'.Ok? {
      AddWorkingMsExact(c, start, ms, limit);
      AddWorkingMsExact(c', start, ms, limit);
      forall t | Available(c', t) ensures Available(c, t) {
        assert forall b | b in c.timeOff :: b in c'.timeOff;
      }
      FinishNotLater(c, c', start, start, ms, ms, r.value, r'.value);
    }
  }

  /** Whatever the blocks, a finish never lies before the start. */
  lemma {:induction false} WalkNotBefore(c: WorkCalendar, cursor: int, remaining: nat, steps: nat, limit: nat)
    requires Validate(c).Ok? && Available(c, cursor)
    ensures var r := Walk(c, cursor, remaining, steps, limit); r.Ok? ==> cursor <= r.value
    decreases steps
  {
    hide Search, NextBlock, LocalMinuteToUtc, LocalDay;
    if steps > 0 {
      SegmentAvailable(c, cursor);
      WalkStep(c, cursor, remaining, steps, limit);
      SearchFindsNext(c, Resume(c, cursor), limit);
      var next := NextAvailable(c, Resume(c, cursor), limit);
      if next.Ok? && remaining > SegmentEnd(c, cursor) - cursor {
        WalkNotBefore(c, next.value, remaining - (SegmentEnd(c, cursor) - cursor), steps - 1, limit);
      }
    }
  }

  lemma AddWorkingMsNotBefore(c: WorkCalendar, start: int, ms: nat, limit: nat)
    ensures var r := AddWorkingMs(c, start, ms, limit); r.Ok? ==> start <= r.value
  {
    hide Search, Walk;
    if NextAvailable(c, start, limit).Ok? {
      SearchFindsNext(c, start, limit);
      WalkNotBefore(c, NextAvailable(c, start, limit).value, ms, limit * 4, limit);
    }
  }

  // ------------------------------------------------------------------
  // The limits are hit only when they must be
  // ------------------------------------------------------------------

  /** Each round of the walk that goes on leaves a day or the end of a block behind. */
  lemma ResumePasses(c: WorkCalendar, cursor: int, next: int, r: int)
    requires Validate(c).Ok? && Available(c, cursor) && !ReversedNext(c, cursor)
    requires IsNext(c, Resume(c, cursor), next) && next < r
    ensures Obstacles(c, next, r) < Obstacles(c, cursor, r)
    ensures Obstacles(c, Resume(c, cursor), r) <= Obstacles(c, cursor, r)
  {
    ResumeSkipsNothing(c, cursor, next);
    var resume, day := Resume(c, cursor), LocalDay(c, cursor);
    LocalDayMonotone(c, cursor, resume);
    LocalDayMonotone(c, resume, next);
    EndingInShrinks(c.timeOff, cursor, resume, r);
    EndingInShrinks(c.timeOff, resume, next, r);
  }

  /** Every stretch without availability that ends by `last` has fewer obstacles than one search has iterations. */
  ghost predicate GapsBelow(c: WorkCalendar, lo: int, last: int, limit: nat) {
    forall s, t | lo <= s <= t <= last && NoneAvailable(c, s, t) && Available(c, t) :: Obstacles(c, s, t) < limit
  }

  lemma {:induction false} LeastAvailable(c: WorkCalendar, s: int, t: int) returns (n: int)
    requires s <= t && Available(c, t)
    ensures IsNext(c, s, n) && n <= t
    decreases t - s
  {
    if Available(c, s) {
      n := s;
    } else {
      n := LeastAvailable(c, s + 1, t);
    }
  }

  /** A search across a gap below the limit succeeds. */
  lemma SearchCrossesGap(c: WorkCalendar, lo: int, s: int, last: int, limit: nat)
    requires Validate(c).Ok? && GapsBelow(c, lo, last, limit) && lo <= s <= last && Available(c, last)
    ensures NextAvailable(c, s, limit).Ok? && IsNext(c, s, NextAvailable(c, s, limit).value)
    ensures NextAvailable(c, s, limit).value <= last
  {
    hide Search, Available;
    var n := LeastAvailable(c, s, last);
    SearchReaches(c, s, n, limit);
    SearchFindsNext(c, s, limit);
  }

  lemma {:induction false} WalkCompletes(c: WorkCalendar, cursor: int, remaining: nat, r: int, steps: nat, limit: nat)
    requires Validate(c).Ok? && NeverReversed(c) && Available(c, cursor)
    requires remaining > 0 && IsFinish(c, cursor, remaining, r)
    requires Obstacles(c, cursor, r) < steps && GapsBelow(c, cursor, r - 1, limit)
    ensures Walk(c, cursor, remaining, steps, limit) == Ok(r)
    decreases steps
  {
    hide Walk, Search, SegmentEnd, Resume, LocalDay;
    SegmentAvailable(c, cursor);
    LocalDayMonotone(c, cursor, r);
    WalkStep(c, cursor, remaining, steps, limit);
    var segment := SegmentEnd(c, cursor) - cursor;
    if remaining <= segment {
      WalkExact(c, cursor, remaining, steps, limit);
      FinishUnique(c, cursor, remaining, r, cursor + remaining);
    } else {
      assert !ReversedNext(c, cursor);
      ResumeReaches(c, cursor, remaining, r, limit);
      var next := NextAvailable(c, Resume(c, cursor), limit).value;
      ResumePasses(c, cursor, next, r);
      WalkCompletes(c, next, remaining - segment, r, steps - 1, limit);
    }
  }

  /** If the segment does not suffice, the finish lies behind the next available instant, which is found. */
  lemma ResumeReaches(c: WorkCalendar, cursor: int, remaining: nat, r: int, limit: nat)
    requires Validate(c).Ok? && Available(c, cursor) && !ReversedNext(c, cursor)
    requires remaining > SegmentEnd(c, cursor) - cursor && IsFinish(c, cursor, remaining, r)
    requires GapsBelow(c, cursor, r - 1, limit)
    ensures cursor < Resume(c, cursor)
    ensures var next := NextAvailable(c, Resume(c, cursor), limit);
      && next.Ok? && IsNext(c, Resume(c, cursor), next.value) && next.value < r
      && IsFinish(c, next.value, remaining - (SegmentEnd(c, cursor) - cursor), r)
  {
    hide CoveringEnd, GapsBelow, Search;
    var segment, resume := SegmentEnd(c, cursor), Resume(c, cursor);
    SegmentAvailable(c, cursor);
    SkipsToResume(c, cursor);
    if r <= segment {
      CountFull(c, cursor, r);
    }
    SearchCrossesGap(c, cursor, resume, r - 1, limit);
    var next := NextAvailable(c, resume, limit).value;
    ResumeSkipsNothing(c, cursor, next);
    CountSplits(c, cursor, next, r);
  }

  lemma {:induction false} EndingInGrows(blocks: seq<AvailabilityBlock>, lo: int, hi: int, hi': int)
    requires hi <= hi'
    ensures EndingIn(blocks, lo, hi) <= EndingIn(blocks, lo, hi')
  {
    if blocks != [] {
      EndingInGrows(blocks[1..], lo, hi, hi');
    }
  }

  /** The last instant that a duration needs: its last millisecond, or the next available instant for none. */
  function LastNeeded(ms: nat, r: int): int { if ms == 0 then r else r - 1 }

  /**
   * `add_working_hours` returns the exact finish if each gap before it has fewer obstacles
   * than one search has iterations, and the whole distance fewer than the walk has.
   */
  lemma AddWorkingMsCompletes(c: WorkCalendar, start: int, ms: nat, r: int, limit: nat)
    requires Validate(c).Ok? && NeverReversed(c) && IsFinish(c, start, ms, r)
    requires GapsBelow(c, start, LastNeeded(ms, r), limit) && (ms > 0 ==> Obstacles(c, start, r) < limit * 4)
    ensures AddWorkingMs(c, start, ms, limit) == Ok(r)
  {
    hide Search, Walk, GapsBelow, NeverReversed;
    SearchCrossesGap(c, start, start, LastNeeded(ms, r), limit);
    var first := NextAvailable(c, start, limit).value;
    if ms > 0 {
      CountEmpty(c, start, first);
      CountSplits(c, start, first, r);
      EndingInShrinks(c.timeOff, start, first, r);
      LocalDayMonotone(c, start, first);
      GapsWithin(c, start, first, r - 1, limit);
      WalkCompletes(c, first, ms, r, limit * 4, limit);
    }
  }

  lemma GapsWithin(c: WorkCalendar, lo: int, lo': int, last: int, limit: nat)
    requires GapsBelow(c, lo, last, limit) && lo <= lo'
    ensures GapsBelow(c, lo', last, limit)
  {
  }

  /** In particular when the whole distance has fewer obstacles than one search has iterations. */
  lemma NearbyFinishCompletes(c: WorkCalendar, start: int, ms: nat, r: int, limit: nat)
    requires Validate(c).Ok? && NeverReversed(c)
    requires IsFinish(c, start, ms, r) && Obstacles(c, start, r) < limit
    ensures AddWorkingMs(c, start, ms, limit) == Ok(r)
  {
    forall s, t | start <= s <= t <= LastNeeded(ms, r) ensures Obstacles(c, s, t) < limit {
      LocalDayMonotone(c, start, s);
      LocalDayMonotone(c, t, r);
      EndingInShrinks(c.timeOff, start, s, t);
      EndingInGrows(c.timeOff, start, t, r);
    }
    LocalDayMonotone(c, start, r);
    AddWorkingMsCompletes(c, start, ms, r, limit);
  }

  // ------------------------------------------------------------------
  // Every duration has a finish, so errors mean that a limit was too small
  // ------------------------------------------------------------------

  /** No active block ends after the horizon. */
  function Horizon(blocks: seq<AvailabilityBlock>, t: int): (h: int)
    ensures t <= h && forall b | b in blocks && b.IsActive() :: b.endsAt <= h
  {
    if blocks == [] then t
    else
      var rest := Horizon(blocks[1..], t);
      assert blocks == [blocks[0]] + blocks[1..];
      if blocks[0].IsActive() then Max(blocks[0].endsAt, rest) else rest
  }

  /** Every weekday comes up within seven days. */
  lemma WeekdayComes(day: int, w: Workday) returns (d: int)
    ensures day <= d < day + 7 && WeekdayOf(d) == w
  {
    var number := match w
      case Monday => 0 case Tuesday => 1 case Wednesday => 2 case Thursday => 3
      case Friday => 4 case Saturday => 5 case Sunday => 6;
    d := day + (number - (day + 3) % 7 + 7) % 7;
    assert (d + 3) % 7 == number;
  }

  lemma AvailableLater(c: WorkCalendar, t: int) returns (n: int)
    requires Validate(c).Ok?
    ensures IsNext(c, t, n)
  {
    hide LocalMinuteToUtc, LocalDay, WeekdayOf;
    var h := Horizon(c.timeOff, t);
    var after := LocalDay(c, h) + 1;
    var day := WeekdayComes(after, c.workingDays[0]);
    var opening := WorkStart(c, day);
    InDay(c, h, LocalDay(c, h));
    DayBounds(c, day);
    InDay(c, opening, day);
    assert after * DAY <= day * DAY;
    assert h < opening;
    assert Available(c, opening);
    n := LeastAvailable(c, t, opening);
  }

  /** On a valid calendar every duration has a finish. */
  lemma {:induction false} FinishExists(c: WorkCalendar, start: int, ms: nat) returns (r: int)
    requires Validate(c).Ok?
    ensures IsFinish(c, start, ms, r)
    decreases ms
  {
    hide Available;
    if ms == 0 {
      r := AvailableLater(c, start);
    } else {
      var used := start;
      if ms > 1 {
        used := FinishExists(c, start, ms - 1);
      }
      var n := AvailableLater(c, used);
      CountEmpty(c, used, n);
      CountSplits(c, start, used, n);
      r := n + 1;
    }
  }

  /**
   * On a valid calendar without reachable reversed blocks an error of `add_working_hours` means
   * that some gap before the finish, or the whole distance to it, reaches its limit.
   */
  lemma AddWorkingMsErrorMeans(c: WorkCalendar, start: int, ms: nat, limit: nat)
    requires Validate(c).Ok? && NeverReversed(c) && AddWorkingMs(c, start, ms, limit).Err?
    ensures exists r ::
      && IsFinish(c, start, ms, r)
      && (!GapsBelow(c, start, LastNeeded(ms, r), limit) || (ms > 0 && Obstacles(c, start, r) >= limit * 4))
  {
    hide AddWorkingMs, NeverReversed, IsFinish, GapsBelow, Obstacles;
    var r := FinishExists(c, start, ms);
    if GapsBelow(c, start, LastNeeded(ms, r), limit) && (ms > 0 ==> Obstacles(c, start, r) < limit * 4) {
      AddWorkingMsCompletes(c, start, ms, r, limit);
    }
  }

  // ------------------------------------------------------------------
  // Calendars without a pause
  // ------------------------------------------------------------------

  /** Every day from midnight to midnight, as `WorkCalendar::always_available`, and no active time off. */
  ghost predicate RoundTheClock(c: WorkCalendar) {
    && Validate(c).Ok? && c.dayStartMinute == 0 && c.dayEndMinute == 24 * 60
    && (forall d: Workday :: d in c.workingDays)
    && forall b | b in c.timeOff :: !b.IsActive()
  }

  /** Without a pause working time is plain time. */
  lemma RoundTheClockIsPlainTime(c: WorkCalendar, start: int, ms: nat, limit: nat)
    requires RoundTheClock(c)
    ensures NextAvailable(c, start, limit).Ok? ==> NextAvailable(c, start, limit).value == start
    ensures AddWorkingMs(c, start, ms, limit).Ok? ==> AddWorkingMs(c, start, ms, limit).value == start + ms
  {
    hide Search, Walk, LocalMinuteToUtc, LocalDay;
    forall t ensures Available(c, t) {
      DayBounds(c, LocalDay(c, t));
      InDay(c, t, LocalDay(c, t));
    }
    OrderedBlocksNeverReversed(c);
    NextAvailableExact(c, start, limit);
    AddWorkingMsExact(c, start, ms, limit);
    var r := AddWorkingMs(c, start, ms, limit);
    assert Available(c, start);
    if r.Ok? && ms > 0 {
      CountFull(c, start, r.value);
    }
  }
}
