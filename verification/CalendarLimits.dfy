/** How far the loops of `src/core/calendar.rs` look, exactly: 3,660 iterations for a search, 14,640 for the walk. */
module CalendarLimits {
  import opened Wrappers
  import opened Errors
  import opened Calendar
  import opened CalendarWalk

  // ------------------------------------------------------------------
  // The walk
  // ------------------------------------------------------------------

  /** The midnight that ends the local day of t. */
  function DayEnd(c: WorkCalendar, t: int): int { (LocalDay(c, t) + 1) * 86_400_000 - c.utcOffsetMinutes * 60_000 }

  /** Around the clock every instant is available, the day is one segment, and one iteration finds the next. */
  lemma ClockStep(c: WorkCalendar, cursor: int, limit: nat)
    requires RoundTheClock(c) && limit > 0
    ensures NextBlock(c.timeOff, cursor, WorkEnd(c, LocalDay(c, cursor))).None?
    ensures cursor < WorkEnd(c, LocalDay(c, cursor)) == DayEnd(c, cursor)
    ensures NextAvailable(c, cursor, limit) == Ok(cursor)
    ensures DayEnd(c, DayEnd(c, cursor)) == DayEnd(c, cursor) + 86_400_000
  {
    hide LocalMinuteToUtc, LocalDay;
    var day := LocalDay(c, cursor);
    DayBounds(c, day);
    InDay(c, cursor, day);
    InDay(c, DayEnd(c, cursor), day + 1);
  }

  lemma {:induction false} ClockWalk(c: WorkCalendar, cursor: int, remaining: int, steps: nat, limit: nat)
    requires RoundTheClock(c) && limit > 0 && remaining > 0
    ensures Walk(c, cursor, remaining, steps, limit).Ok? <==>
      steps > 0 && remaining <= DayEnd(c, cursor) - cursor + (steps - 1) * 86_400_000
    decreases steps
  {
    hide NextBlock, NextAvailable, LocalMinuteToUtc, LocalDay, RoundTheClock, DayEnd;
    if steps > 0 {
      ClockStep(c, cursor, limit);
      var end := DayEnd(c, cursor);
      if remaining > end - cursor {
        ClockStep(c, end, limit);
        ClockWalk(c, end, remaining - (end - cursor), steps - 1, limit);
      }
    }
  }

  /**
   * Around the clock every iteration of the walk takes one local day, so a duration is added iff
   * it ends within four times the limit of days, the day of the start included.
   */
  lemma RoundTheClockAddsIff(c: WorkCalendar, start: int, ms: nat, limit: nat)
    requires RoundTheClock(c) && limit > 0
    ensures AddWorkingMs(c, start, ms, limit).Ok? <==>
      ms <= DayEnd(c, start) - start + (4 * limit - 1) * 86_400_000
    ensures AddWorkingMs(c, start, ms, limit).Err? ==>
      AddWorkingMs(c, start, ms, limit) == Err(Validation(CalendarSearchLimit))
  {
    hide NextBlock, NextAvailable, LocalMinuteToUtc, LocalDay, RoundTheClock, DayEnd;
    ClockStep(c, start, limit);
    if ms > 0 {
      ClockWalk(c, start, ms, limit * 4, limit);
      if Walk(c, start, ms, limit * 4, limit).Err? {
        ClockWalkError(c, start, ms, limit * 4, limit);
      }
    }
  }

  lemma {:induction false} ClockWalkError(c: WorkCalendar, cursor: int, remaining: int, steps: nat, limit: nat)
    requires RoundTheClock(c) && limit > 0 && Walk(c, cursor, remaining, steps, limit).Err?
    ensures Walk(c, cursor, remaining, steps, limit) == Err(Validation(CalendarSearchLimit))
    decreases steps
  {
    hide NextBlock, NextAvailable, LocalMinuteToUtc, LocalDay, RoundTheClock, DayEnd;
    if steps > 0 {
      ClockStep(c, cursor, limit);
      var end := DayEnd(c, cursor);
      ClockStep(c, end, limit);
      ClockWalkError(c, end, remaining - (end - cursor), steps - 1, limit);
    }
  }

  /** From the first midnight of the epoch the command adds 14,640 days around the clock, and not a millisecond more. */
  lemma FortyYears(ms: nat)
    ensures AddWorkingMs(ALWAYS, 0, ms).Ok? <==> ms <= 14_640 * 86_400_000
  {
    hide AddWorkingMs;
    AlwaysIsRoundTheClock();
    RoundTheClockAddsIff(ALWAYS, 0, ms, MAX_SEARCH_DAYS);
  }

  lemma AlwaysIsRoundTheClock()
    ensures RoundTheClock(ALWAYS)
  {
    forall d: Workday ensures d in ALWAYS.workingDays {
      match d
      case Monday => assert ALWAYS.workingDays[0] == d;
      case Tuesday => assert ALWAYS.workingDays[1] == d;
      case Wednesday => assert ALWAYS.workingDays[2] == d;
      case Thursday => assert ALWAYS.workingDays[3] == d;
      case Friday => assert ALWAYS.workingDays[4] == d;
      case Saturday => assert ALWAYS.workingDays[5] == d;
      case Sunday => assert ALWAYS.workingDays[6] == d;
    }
  }

  const ALWAYS := WorkCalendar(0, [Monday, Tuesday, Wednesday, Thursday, Friday, Saturday, Sunday], 0, 1440, [])

  // ------------------------------------------------------------------
  // The search
  // ------------------------------------------------------------------

  /** Time off on each of the first n days of the epoch, as one block a day. */
  function DaysOff(n: nat): (r: seq<AvailabilityBlock>)
    ensures |r| == n
    ensures forall i | 0 <= i < n :: r[i] == AvailabilityBlock("", i * 86_400_000, (i + 1) * 86_400_000, None)
  {
    seq(n, i => AvailabilityBlock("", i * 86_400_000, (i + 1) * 86_400_000, None))
  }

  function Away(n: nat): WorkCalendar { ALWAYS.(timeOff := DaysOff(n)) }

  /** On a day off one iteration goes to the end of its block; on any other the search ends. */
  lemma DayOffStep(n: nat, day: nat, steps: nat)
    requires steps > 0
    ensures day < n ==> Search(Away(n), day * 86_400_000, steps) == Search(Away(n), (day + 1) * 86_400_000, steps - 1)
    ensures day >= n ==> Search(Away(n), day * 86_400_000, steps) == Ok(day * 86_400_000)
  {
    hide LocalMinuteToUtc, LocalDay, DaysOff;
    var c, cursor := Away(n), day * 86_400_000;
    DayBounds(c, day);
    InDay(c, cursor, day);
    if day < n {
      assert c.timeOff[day] in c.timeOff && c.timeOff[day].Covers(cursor);
    }
    var end := CoveringEnd(c.timeOff, cursor);
    if end.Some? {
      var b :| b in c.timeOff && b.Covers(cursor) && b.endsAt == end.value;
      var i :| 0 <= i < n && c.timeOff[i] == b;
      assert i == day;
    }
  }

  lemma {:induction false} AwaySearch(n: nat, day: nat, steps: nat)
    requires day <= n
    ensures Search(Away(n), day * 86_400_000, steps).Ok? <==> steps > n - day
    decreases steps
  {
    hide Search, Away;
    if steps > 0 {
      DayOffStep(n, day, steps);
      if day < n {
        AwaySearch(n, day + 1, steps - 1);
      }
    } else {
      NoSteps(Away(n), day * 86_400_000);
    }
  }

  lemma NoSteps(c: WorkCalendar, cursor: int)
    ensures Search(c, cursor, 0) == Err(Validation(CalendarWithoutAvailability))
  {
  }

  /** The search gets over 3,659 blocks that follow each other, and not over one more. */
  lemma TenYears(n: nat)
    ensures NextAvailable(Away(n), 0).Ok? <==> n < 3_660
    ensures n >= 3_660 ==> NextAvailable(Away(n), 0) == Err(Validation(CalendarWithoutAvailability))
  {
    AwaySearch(n, 0, MAX_SEARCH_DAYS);
    SearchError(Away(n), 0, MAX_SEARCH_DAYS);
  }

  lemma {:induction false} SearchError(c: WorkCalendar, cursor: int, steps: nat)
    ensures Search(c, cursor, steps).Err? ==>
      Search(c, cursor, steps) == Err(Validation(CalendarWithoutAvailability))
    decreases steps
  {
    hide LocalMinuteToUtc, LocalDay, CoveringEnd, WeekdayOf;
    if steps > 0 {
      var day := LocalDay(c, cursor);
      var candidate := Max(cursor, WorkStart(c, day));
      var end := CoveringEnd(c.timeOff, candidate);
      if end.Some? {
        SearchError(c, end.value, steps - 1);
      }
      SearchError(c, LocalMinuteToUtc(c, day + 1, 0), steps - 1);
    }
  }
}
