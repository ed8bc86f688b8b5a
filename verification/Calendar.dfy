/**
 * Work calendars: `src/core/calendar.rs`.
 *
 * Instants are integer milliseconds since the epoch. A local day is the floor
 * of the shifted instant divided by a day; day 0 (1970-01-01) is a Thursday.
 */
module Calendar {
  import opened Wrappers
  import opened Errors

  datatype Workday = Monday | Tuesday | Wednesday | Thursday | Friday | Saturday | Sunday

  datatype AvailabilityBlock = AvailabilityBlock(id: string, startsAt: int, endsAt: int, cancelledAt: Option<int>) {
    predicate IsActive() { cancelledAt.None? }

    predicate Covers(t: int) { IsActive() && startsAt <= t < endsAt }
  }

  datatype WorkCalendar = WorkCalendar(
    utcOffsetMinutes: int,
    workingDays: seq<Workday>,
    dayStartMinute: nat,
    dayEndMinute: nat,
    timeOff: seq<AvailabilityBlock>
  )

  const MINUTE := 60_000
  const DAY := 86_400_000
  const MAX_SEARCH_DAYS: nat := 3_660

  function Validate(c: WorkCalendar): Result<(), RelayError> {
    if !(-14 * 60 <= c.utcOffsetMinutes <= 14 * 60) then Err(Validation(CalendarOffset))
    else if c.workingDays == [] then Err(Validation(CalendarWithoutWorkingDay))
    else if c.dayStartMinute >= c.dayEndMinute || c.dayEndMinute > 24 * 60 then Err(Validation(CalendarWindow))
    else Ok(())
  }

  function Offset(c: WorkCalendar): int { c.utcOffsetMinutes * MINUTE }

  function LocalDay(c: WorkCalendar, t: int): int { (t + Offset(c)) / DAY }

  function WeekdayOf(day: int): Workday {
    match (day + 3) % 7
    case 0 => Monday
    case 1 => Tuesday
    case 2 => Wednesday
    case 3 => Thursday
    case 4 => Friday
    case 5 => Saturday
    case _ => Sunday
  }

  /** The instant of a minute of a local day; minute 1440 is the next day's midnight. */
  function LocalMinuteToUtc(c: WorkCalendar, day: int, minute: nat): int {
    if minute == 24 * 60 then (day + 1) * DAY - Offset(c)
    else day * DAY + (minute / 60) * 60 * MINUTE + (minute % 60) * MINUTE - Offset(c)
  }

  function WorkStart(c: WorkCalendar, day: int): int { LocalMinuteToUtc(c, day, c.dayStartMinute) }

  function WorkEnd(c: WorkCalendar, day: int): int { LocalMinuteToUtc(c, day, c.dayEndMinute) }

  // ------------------------------------------------------------------
  // The independent reading: one millisecond at a time
  // ------------------------------------------------------------------

  /** t lies on a working day, inside the daily window and outside every active block. */
  ghost predicate Available(c: WorkCalendar, t: int) {
    var day := LocalDay(c, t);
    && WeekdayOf(day) in c.workingDays
    && WorkStart(c, day) <= t < WorkEnd(c, day)
    && forall b | b in c.timeOff :: !b.Covers(t)
  }

  ghost predicate NoneAvailable(c: WorkCalendar, lo: int, hi: int) {
    forall t | lo <= t < hi :: !Available(c, t)
  }

  /** The least available instant at or after start. */
  ghost predicate IsNext(c: WorkCalendar, start: int, r: int) {
    start <= r && Available(c, r) && NoneAvailable(c, start, r)
  }

  // ------------------------------------------------------------------
  // The search of the source
  // ------------------------------------------------------------------

  /** End of the active block covering t that ends first. */
  function CoveringEnd(blocks: seq<AvailabilityBlock>, t: int): (r: Option<int>)
    ensures r.None? ==> forall b | b in blocks :: !b.Covers(t)
    ensures r.Some? ==> exists b :: b in blocks && b.Covers(t) && b.endsAt == r.value
    ensures r.Some? ==> forall b | b in blocks && b.Covers(t) :: r.value <= b.endsAt
  {
    if blocks == [] then None
    else
      var rest := CoveringEnd(blocks[1..], t);
      if blocks[0].Covers(t) && (rest.None? || blocks[0].endsAt <= rest.value) then Some(blocks[0].endsAt)
      else rest
  }

  /** The loop of `next_available`, with the number of iterations left. */
  function Search(c: WorkCalendar, cursor: int, steps: nat): Result<int, RelayError>
    decreases steps
  {
    if steps == 0 then Err(Validation(CalendarWithoutAvailability))
    else
      var day := LocalDay(c, cursor);
      var candidate := Max(cursor, WorkStart(c, day));
      if WeekdayOf(day) in c.workingDays && candidate < WorkEnd(c, day) then
        match CoveringEnd(c.timeOff, candidate)
        case Some(end) => Search(c, end, steps - 1)
        case None => Ok(candidate)
      else
        Search(c, LocalMinuteToUtc(c, day + 1, 0), steps - 1)
  }

  function NextAvailable(c: WorkCalendar, start: int, limit: nat := MAX_SEARCH_DAYS): Result<int, RelayError> {
    if Validate(c).Err? then Err(Validate(c).error) else Search(c, start, limit)
  }

  method FindNextAvailable(c: WorkCalendar, start: int, limit: nat := MAX_SEARCH_DAYS)
    returns (r: Result<int, RelayError>)
    ensures r == NextAvailable(c, start, limit)
    ensures r.Ok? ==> IsNext(c, start, r.value)
  {
    hide LocalMinuteToUtc, LocalDay, WeekdayOf;
    var checked := Validate(c);
    if checked.Err? {
      return Err(checked.error);
    }
    var cursor := start;
    for i := 0 to limit
      invariant Search(c, start, limit) == Search(c, cursor, limit - i)
    {
      var day := LocalDay(c, cursor);
      if WeekdayOf(day) in c.workingDays {
        var workStart, workEnd := WorkStart(c, day), WorkEnd(c, day);
        var candidate := Max(cursor, workStart);
        if candidate < workEnd {
          var block := CoveringEnd(c.timeOff, candidate);
          if block.Some? {
            cursor := block.value;
            continue;
          }
          SearchFindsNext(c, start, limit);
          return Ok(candidate);
        }
      }
      cursor := LocalMinuteToUtc(c, day + 1, 0);
    }
    return Err(Validation(CalendarWithoutAvailability));
  }

  // ------------------------------------------------------------------
  // Soundness
  // ------------------------------------------------------------------

  lemma DayBounds(c: WorkCalendar, day: int)
    requires Validate(c).Ok?
    ensures LocalMinuteToUtc(c, day, 0) == day * DAY - Offset(c)
    ensures WorkStart(c, day) == day * DAY + c.dayStartMinute * MINUTE - Offset(c)
    ensures WorkEnd(c, day) == day * DAY + c.dayEndMinute * MINUTE - Offset(c)
    ensures day * DAY - Offset(c) <= WorkStart(c, day) < WorkEnd(c, day) <= (day + 1) * DAY - Offset(c)
  {
  }

  /** A local day is the half-open day of milliseconds that starts at its midnight. */
  lemma InDay(c: WorkCalendar, t: int, day: int)
    ensures LocalDay(c, t) == day <==> day * DAY - Offset(c) <= t < (day + 1) * DAY - Offset(c)
  {
  }

  lemma {:induction false} SearchFindsNext(c: WorkCalendar, cursor: int, steps: nat)
    requires Validate(c).Ok?
    ensures Search(c, cursor, steps).Ok? ==> IsNext(c, cursor, Search(c, cursor, steps).value)
    decreases steps
  {
    hide LocalMinuteToUtc, LocalDay, WeekdayOf;
    if steps > 0 {
      var day := LocalDay(c, cursor);
      var candidate := Max(cursor, WorkStart(c, day));
      InDay(c, cursor, day);
      DayBounds(c, day);
      forall t | cursor <= t < candidate ensures !Available(c, t) {
        InDay(c, t, day);
      }
      if WeekdayOf(day) in c.workingDays && candidate < WorkEnd(c, day) {
        InDay(c, candidate, day);
        var end := CoveringEnd(c.timeOff, candidate);
        if end.Some? {
          SearchFindsNext(c, end.value, steps - 1);
        }
      } else {
        var midnight := LocalMinuteToUtc(c, day + 1, 0);
        DayBounds(c, day + 1);
        forall t | cursor <= t < midnight ensures !Available(c, t) {
          InDay(c, t, day);
        }
        SearchFindsNext(c, midnight, steps - 1);
      }
    }
  }

  // ------------------------------------------------------------------
  // The iteration limit is hit only when it must be
  // ------------------------------------------------------------------

  /** How many active blocks end in (lo, hi]. */
  ghost function EndingIn(blocks: seq<AvailabilityBlock>, lo: int, hi: int): nat {
    if blocks == [] then 0
    else
      (if blocks[0].IsActive() && lo < blocks[0].endsAt <= hi then 1 else 0) + EndingIn(blocks[1..], lo, hi)
  }

  lemma {:induction false} EndingInShrinks(blocks: seq<AvailabilityBlock>, lo: int, lo': int, hi: int)
    requires lo <= lo'
    ensures EndingIn(blocks, lo', hi) <= EndingIn(blocks, lo, hi)
    ensures (exists b :: b in blocks && b.IsActive() && lo < b.endsAt <= lo' && b.endsAt <= hi)
      ==> EndingIn(blocks, lo', hi) < EndingIn(blocks, lo, hi)
  {
    if blocks != [] {
      EndingInShrinks(blocks[1..], lo, lo', hi);
    }
  }

  /** Local days from `lo` to `hi`, plus the active blocks that end in between. */
  ghost function Obstacles(c: WorkCalendar, lo: int, hi: int): int {
    LocalDay(c, hi) - LocalDay(c, lo) + EndingIn(c.timeOff, lo, hi)
  }

  lemma LocalDayMonotone(c: WorkCalendar, s: int, t: int)
    requires s <= t
    ensures LocalDay(c, s) <= LocalDay(c, t)
  {
  }

  /** An available instant with fewer obstacles before it than iterations left is not missed. */
  lemma {:induction false} SearchReaches(c: WorkCalendar, cursor: int, t: int, steps: nat)
    requires Validate(c).Ok? && cursor <= t && Available(c, t)
    requires Obstacles(c, cursor, t) < steps
    ensures Search(c, cursor, steps).Ok?
    decreases steps
  {
    hide LocalMinuteToUtc, LocalDay, WeekdayOf;
    var day := LocalDay(c, cursor);
    var candidate := Max(cursor, WorkStart(c, day));
    LocalDayMonotone(c, cursor, t);
    DayBounds(c, day);
    InDay(c, cursor, day);
    if WeekdayOf(day) in c.workingDays && candidate < WorkEnd(c, day) {
      var end := CoveringEnd(c.timeOff, candidate);
      if end.Some? {
        if LocalDay(c, t) > day {
          InDay(c, t, LocalDay(c, t));
          DayBounds(c, LocalDay(c, t));
        }
        assert candidate <= t;
        LocalDayMonotone(c, cursor, end.value);
        EndingInShrinks(c.timeOff, cursor, end.value, t);
        SearchReaches(c, end.value, t, steps - 1);
      }
    } else {
      var midnight := LocalMinuteToUtc(c, day + 1, 0);
      DayBounds(c, day + 1);
      InDay(c, midnight, day + 1);
      InDay(c, t, day);
      EndingInShrinks(c.timeOff, cursor, midnight, t);
      SearchReaches(c, midnight, t, steps - 1);
    }
  }

  /**
   * `next_available` returns the least available instant, and whenever it gives up,
   * every available instant is at least as many obstacles away as the limit.
   */
  lemma NextAvailableExact(c: WorkCalendar, start: int, limit: nat)
    ensures NextAvailable(c, start, limit).Ok? ==> IsNext(c, start, NextAvailable(c, start, limit).value)
    ensures NextAvailable(c, start, limit).Err? && Validate(c).Ok? ==>
      forall t :: start <= t && Available(c, t) ==> Obstacles(c, start, t) >= limit
  {
    if Validate(c).Ok? {
      SearchFindsNext(c, start, limit);
      forall t | start <= t && Available(c, t) && Obstacles(c, start, t) < limit
        ensures NextAvailable(c, start, limit).Ok?
      {
        SearchReaches(c, start, t, limit);
      }
    }
  }
}
