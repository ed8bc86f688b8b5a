/**
 * What a calendar means on the clock on the wall, and what its UTC offset does: laws of
 * `src/core/calendar.rs` that speak of minutes, days and instants alone.
 */
module CalendarShift {
  import opened Wrappers
  import opened Errors
  import opened Calendar
  import opened CalendarWalk

  /** The day after a weekday. */
  function DayAfter(w: Workday): Workday {
    match w
    case Monday => Tuesday
    case Tuesday => Wednesday
    case Wednesday => Thursday
    case Thursday => Friday
    case Friday => Saturday
    case Saturday => Sunday
    case Sunday => Monday
  }

  /** 1970-01-01 was a Thursday, and the weekdays follow each other. */
  lemma WeekdaysFollow(day: int)
    ensures WeekdayOf(0) == Thursday && WeekdayOf(day + 1) == DayAfter(WeekdayOf(day))
  {
    assert (day + 4) % 7 == if (day + 3) % 7 == 6 then 0 else (day + 3) % 7 + 1;
  }

  /** Valid means an offset of at most 14 hours either way, a day that is worked, and a window that fits a day. */
  lemma ValidIff(c: WorkCalendar)
    ensures Validate(c).Ok? <==>
      && -840 <= c.utcOffsetMinutes <= 840 && c.workingDays != []
      && c.dayStartMinute < c.dayEndMinute <= 1440
    ensures Validate(c).Err? ==> Validate(c) == Err(Validation(
      if !(-840 <= c.utcOffsetMinutes <= 840) then CalendarOffset
      else if c.workingDays == [] then CalendarWithoutWorkingDay else CalendarWindow))
  {
  }

  /** Available means a working minute of a working day on the local clock, and no active block over it. */
  lemma AvailableOnTheClock(c: WorkCalendar, t: int)
    requires Validate(c).Ok?
    ensures var clock := t + c.utcOffsetMinutes * 60_000;
      Available(c, t) <==>
        && WeekdayOf(clock / 86_400_000) in c.workingDays
        && c.dayStartMinute * 60_000 <= clock % 86_400_000 < c.dayEndMinute * 60_000
        && forall b | b in c.timeOff && b.cancelledAt.None? :: !(b.startsAt <= t < b.endsAt)
  {
    hide WeekdayOf;
    DayBounds(c, LocalDay(c, t));
    InDay(c, t, LocalDay(c, t));
    assert forall b | b in c.timeOff :: b.Covers(t) <==> b.cancelledAt.None? && b.startsAt <= t < b.endsAt;
  }

  // ------------------------------------------------------------------
  // Moving the clock
  // ------------------------------------------------------------------

  function MovedBlock(b: AvailabilityBlock, ms: int): AvailabilityBlock {
    b.(startsAt := b.startsAt + ms, endsAt := b.endsAt + ms)
  }

  function MovedBlocks(blocks: seq<AvailabilityBlock>, ms: int): seq<AvailabilityBlock> {
    if blocks == [] then [] else [MovedBlock(blocks[0], ms)] + MovedBlocks(blocks[1..], ms)
  }

  lemma MovedParts(blocks: seq<AvailabilityBlock>, ms: int)
    ensures var moved := MovedBlocks(blocks, ms);
      if blocks == [] then moved == []
      else moved != [] && moved[0] == MovedBlock(blocks[0], ms) && moved[1..] == MovedBlocks(blocks[1..], ms)
  {
  }

  function Shift(c: WorkCalendar): int { c.utcOffsetMinutes * 60_000 }

  /** The calendar read at offset zero: what was local time becomes the time itself. */
  function AtZero(c: WorkCalendar): WorkCalendar {
    c.(utcOffsetMinutes := 0, timeOff := MovedBlocks(c.timeOff, Shift(c)))
  }

  function Later(r: Result<int, RelayError>, ms: int): Result<int, RelayError> {
    if r.Ok? then Ok(r.value + ms) else r
  }

  lemma DaysMove(c: WorkCalendar, t: int, day: int)
    requires Validate(c).Ok?
    ensures Validate(AtZero(c)).Ok? && LocalDay(AtZero(c), t + Shift(c)) == LocalDay(c, t)
    ensures WorkStart(AtZero(c), day) == WorkStart(c, day) + Shift(c)
    ensures WorkEnd(AtZero(c), day) == WorkEnd(c, day) + Shift(c)
    ensures LocalMinuteToUtc(AtZero(c), day, 0) == LocalMinuteToUtc(c, day, 0) + Shift(c)
  {
    DayBounds(c, day);
    DayBounds(AtZero(c), day);
  }

  // The choices of `CoveringEnd` and `NextBlock` under names without contracts, which keeps proofs about two
  // calendars at once apart from what the choices mean.

  function Covering(blocks: seq<AvailabilityBlock>, t: int): Option<int> { CoveringEnd(blocks, t) }

  function Ahead(blocks: seq<AvailabilityBlock>, cursor: int, workEnd: int): Option<AvailabilityBlock> {
    NextBlock(blocks, cursor, workEnd)
  }

  lemma CoveringStep(blocks: seq<AvailabilityBlock>, t: int)
    ensures Covering([], t) == None
    ensures blocks != [] ==>
      var rest := Covering(blocks[1..], t);
      Covering(blocks, t) ==
      if blocks[0].Covers(t) && (rest.None? || blocks[0].endsAt <= rest.value) then Some(blocks[0].endsAt) else rest
  {
  }

  lemma AheadStep(blocks: seq<AvailabilityBlock>, cursor: int, workEnd: int)
    ensures Ahead([], cursor, workEnd) == None
    ensures blocks != [] ==>
      var first, rest := blocks[0], Ahead(blocks[1..], cursor, workEnd);
      Ahead(blocks, cursor, workEnd) ==
      if first.IsActive() && first.startsAt < workEnd && cursor < first.endsAt
         && (rest.None? || first.startsAt <= rest.value.startsAt)
      then Some(first) else rest
  {
  }

  lemma {:induction false} CoveringMoves(blocks: seq<AvailabilityBlock>, t: int, ms: int)
    ensures var end, end' := Covering(blocks, t), Covering(MovedBlocks(blocks, ms), t + ms);
      end' == if end.Some? then Some(end.value + ms) else None
  {
    hide Covering, MovedBlocks;
    CoveringStep(blocks, t);
    CoveringStep(MovedBlocks(blocks, ms), t + ms);
    MovedParts(blocks, ms);
    if blocks != [] {
      CoveringMoves(blocks[1..], t, ms);
    }
  }

  lemma {:induction false} AheadMoves(blocks: seq<AvailabilityBlock>, cursor: int, workEnd: int, ms: int)
    ensures var b, b' := Ahead(blocks, cursor, workEnd), Ahead(MovedBlocks(blocks, ms), cursor + ms, workEnd + ms);
      b' == if b.Some? then Some(MovedBlock(b.value, ms)) else None
  {
    hide Ahead, MovedBlocks;
    AheadStep(blocks, cursor, workEnd);
    AheadStep(MovedBlocks(blocks, ms), cursor + ms, workEnd + ms);
    MovedParts(blocks, ms);
    if blocks != [] {
      AheadMoves(blocks[1..], cursor, workEnd, ms);
    }
  }

  /** One iteration of the search. */
  lemma SearchRound(c: WorkCalendar, cursor: int, steps: nat)
    ensures Search(c, cursor, 0) == Err(Validation(CalendarWithoutAvailability))
    ensures steps > 0 ==>
      var day := LocalDay(c, cursor);
      var candidate := Max(cursor, WorkStart(c, day));
      Search(c, cursor, steps) ==
      if WeekdayOf(day) in c.workingDays && candidate < WorkEnd(c, day) then
        var end := Covering(c.timeOff, candidate);
        if end.Some? then Search(c, end.value, steps - 1) else Ok(candidate)
      else Search(c, LocalMinuteToUtc(c, day + 1, 0), steps - 1)
  {
  }

  lemma {:induction false} SearchMoves(c: WorkCalendar, cursor: int, steps: nat)
    requires Validate(c).Ok?
    ensures Search(AtZero(c), cursor + Shift(c), steps) == Later(Search(c, cursor, steps), Shift(c))
    decreases steps
  {
    hide Search, LocalMinuteToUtc, LocalDay, WeekdayOf, WorkStart, WorkEnd, Covering, MovedBlocks;
    SearchRound(c, cursor, steps);
    SearchRound(AtZero(c), cursor + Shift(c), steps);
    if steps > 0 {
      var day := LocalDay(c, cursor);
      DaysMove(c, cursor, day);
      DaysMove(c, cursor, day + 1);
      var candidate := Max(cursor, WorkStart(c, day));
      CoveringMoves(c.timeOff, candidate, Shift(c));
      var end := Covering(c.timeOff, candidate);
      if end.Some? {
        SearchMoves(c, end.value, steps - 1);
      }
      SearchMoves(c, LocalMinuteToUtc(c, day + 1, 0), steps - 1);
    }
  }

  /** `next_available` on local time: start, blocks and answer moved by the offset are those of offset zero. */
  lemma NextAvailableMoves(c: WorkCalendar, start: int, limit: nat)
    requires Validate(c).Ok?
    ensures NextAvailable(AtZero(c), start + c.utcOffsetMinutes * 60_000, limit)
      == Later(NextAvailable(c, start, limit), c.utcOffsetMinutes * 60_000)
  {
    hide Search;
    SearchMoves(c, start, limit);
    DaysMove(c, start, 0);
  }

  /** One iteration of the walk. */
  lemma WalkRound(c: WorkCalendar, cursor: int, remaining: int, steps: nat, limit: nat)
    ensures Walk(c, cursor, remaining, 0, limit) == Err(Validation(CalendarSearchLimit))
    ensures steps > 0 ==>
      var workEnd := WorkEnd(c, LocalDay(c, cursor));
      var block := Ahead(c.timeOff, cursor, workEnd);
      var next := NextAvailable(c, if block.Some? then block.value.endsAt else workEnd, limit);
      var blocked := block.Some? && block.value.startsAt <= cursor;
      var until := if block.Some? then Min(block.value.startsAt, workEnd) else workEnd;
      var availableMs := if blocked then 0 else Max(until - cursor, 0);
      Walk(c, cursor, remaining, steps, limit) ==
      if !blocked && remaining <= availableMs then Ok(cursor + remaining)
      else if next.Err? then next
      else Walk(c, next.value, remaining - availableMs, steps - 1, limit)
  {
    hide NextAvailable, LocalDay, WorkEnd;
  }

  lemma {:induction false} WalkMoves(c: WorkCalendar, cursor: int, remaining: int, steps: nat, limit: nat)
    requires Validate(c).Ok?
    ensures Walk(AtZero(c), cursor + Shift(c), remaining, steps, limit)
      == Later(Walk(c, cursor, remaining, steps, limit), Shift(c))
    decreases steps
  {
    hide Walk, LocalMinuteToUtc, LocalDay, WorkEnd, Ahead, NextAvailable, MovedBlocks;
    WalkRound(c, cursor, remaining, steps, limit);
    WalkRound(AtZero(c), cursor + Shift(c), remaining, steps, limit);
    if steps > 0 {
      var workEnd := WorkEnd(c, LocalDay(c, cursor));
      DaysMove(c, cursor, LocalDay(c, cursor));
      AheadMoves(c.timeOff, cursor, workEnd, Shift(c));
      var block := Ahead(c.timeOff, cursor, workEnd);
      var resume := if block.Some? then block.value.endsAt else workEnd;
      NextAvailableMoves(c, resume, limit);
      var next := NextAvailable(c, resume, limit);
      if next.Ok? {
        var until := if block.Some? then Min(block.value.startsAt, workEnd) else workEnd;
        var blocked := block.Some? && block.value.startsAt <= cursor;
        WalkMoves(c, next.value, remaining - (if blocked then 0 else Max(until - cursor, 0)), steps - 1, limit);
      }
    }
  }

  /** So does `add_working_hours`. */
  lemma AddWorkingMsMoves(c: WorkCalendar, start: int, ms: nat, limit: nat)
    requires Validate(c).Ok?
    ensures AddWorkingMs(AtZero(c), start + c.utcOffsetMinutes * 60_000, ms, limit)
      == Later(AddWorkingMs(c, start, ms, limit), c.utcOffsetMinutes * 60_000)
  {
    hide Walk, NextAvailable;
    NextAvailableMoves(c, start, limit);
    if NextAvailable(c, start, limit).Ok? {
      WalkMoves(c, NextAvailable(c, start, limit).value, ms, limit * 4, limit);
    }
  }

  /** One hour east of Greenwich a Thursday that opens at 09:00 opens at 08:00 UTC. */
  lemma OpensAtEightUtc()
    ensures NextAvailable(WorkCalendar(60, [Thursday], 540, 1080, []), 0) == Ok(28_800_000)
  {
    hide Search;
    var c := WorkCalendar(60, [Thursday], 540, 1080, []);
    AvailableOnTheClock(c, 28_800_000);
    forall t | 0 <= t < 28_800_000 ensures !Available(c, t) {
      AvailableOnTheClock(c, t);
    }
    SearchReaches(c, 0, 28_800_000, MAX_SEARCH_DAYS);
    SearchFindsNext(c, 0, MAX_SEARCH_DAYS);
  }
}
