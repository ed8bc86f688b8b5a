/**
 * What an estimate says, in hours, percent and instants: the arithmetic of
 * `src/application/scheduler.rs` lines 101-116, 292-304 and 360-416 stated without its code.
 */
module EstimateMeaning {
  import opened Wrappers
  import opened Errors
  import opened Domain
  import opened Rounding
  import opened Calendar
  import opened CalendarWalk
  import opened Graph
  import opened Estimates

  /** The capacity that counts: a team's or an unknown owner's is whole, a person's is at least a tenth. */
  function Percent(a: Assignment, staff: Staff): (r: int)
    ensures r >= 10
  {
    if a.ownerKind == Team || a.ownerId !in staff.capacityPercent then 100
    else Max(10, staff.capacityPercent[a.ownerId])
  }

  /** What an hour of effort costs in percent: ten more with several dependencies, eight more with a human. */
  function Factor(dependencies: nat, requiresHuman: bool): (r: int)
    ensures 100 <= r <= 118
  {
    100 + (if dependencies > 1 then 10 else 0) + (if requiresHuman then 8 else 0)
  }

  /** x lies within half a hundredth of y. */
  predicate Near(x: real, y: real) { -0.005 <= x - y <= 0.005 }

  /** P50 hours times capacity are effort times factor, and P80 hours 1.4 times P50 hours, both to the hundredth. */
  ghost predicate RightHours(percent: int, factor: int, effortHours: real, p50Hours: real, p80Hours: real)
    requires percent > 0
  {
    Near(p50Hours, effortHours * factor as real / percent as real) && Near(p80Hours, p50Hours * 1.4)
  }

  predicate HasCalendar(a: Assignment, staff: Staff) {
    a.ownerKind != Team && a.ownerId in staff.calendars
  }

  /** ms milliseconds are the given hours to the nearest millisecond, none for negative hours. */
  ghost predicate IsMsOf(ms: nat, hours: real) {
    if hours < 0.0 then ms == 0 else -0.5 <= ms as real - hours * 3_600_000.0 <= 0.5
  }

  /** Work starts at once, or when the owner's calendar next allows it. */
  ghost predicate RightStart(a: Assignment, staff: Staff, base: int, start: int) {
    if HasCalendar(a, staff) then IsNext(staff.calendars[a.ownerId], base, start) else start == base
  }

  /** The hours have passed since the start, on the clock or on a calendar without reversed blocks in the way. */
  ghost predicate RightFinish(a: Assignment, staff: Staff, start: int, hours: real, finish: int) {
    if HasCalendar(a, staff) then
      hours >= 0.0 && (NeverReversed(staff.calendars[a.ownerId]) ==>
        exists ms: nat :: IsMsOf(ms, hours) && IsFinish(staff.calendars[a.ownerId], start, ms, finish))
    else start <= finish && IsMsOf(finish - start, hours)
  }

  /** A right estimate of a task with work left, whose dependencies have ended at base. */
  ghost predicate IsRight(a: Assignment, staff: Staff, effortHours: real, dependencies: nat, requiresHuman: bool,
                          base: int, e: Estimate)
  {
    && e.effortHours == effortHours
    && RightHours(Percent(a, staff), Factor(dependencies, requiresHuman), effortHours, e.p50Hours, e.p80Hours)
    && RightStart(a, staff, base, e.earliestStart)
    && RightFinish(a, staff, e.earliestStart, e.p50Hours, e.p50Finish)
    && RightFinish(a, staff, e.earliestStart, e.p80Hours, e.p80Finish)
  }

  // ------------------------------------------------------------------
  // The code computes right estimates
  // ------------------------------------------------------------------

  lemma RoundIsNearest(x: real)
    ensures -0.5 <= Round(x) as real - x <= 0.5 && Round(-x) == -Round(x)
    ensures x >= 0.0 ==> -0.5 < Round(x) as real - x
  {
  }

  lemma RoundHoursIsNear(hours: real)
    ensures Near(RoundHours(hours), hours)
  {
    RoundIsNearest(hours * 100.0);
  }

  lemma HoursMsIsNearest(hours: real)
    ensures IsMsOf(HoursMs(hours), hours)
  {
    RoundIsNearest(hours * 3_600_000.0);
  }

  lemma RawHoursAre(a: Assignment, staff: Staff, effortHours: real, dependencies: nat, requiresHuman: bool)
    ensures RawHours(a, staff, effortHours, dependencies, requiresHuman)
      == effortHours * Factor(dependencies, requiresHuman) as real / Percent(a, staff) as real
  {
    var percent, factor := Percent(a, staff) as real, Factor(dependencies, requiresHuman) as real;
    var capacity := if AssignmentCapacity(a, staff) < 0.1 then 0.1 else AssignmentCapacity(a, staff);
    var coordination := 1.0 + (if dependencies > 1 then 0.1 else 0.0) + (if requiresHuman then 0.08 else 0.0);
    assert capacity == percent / 100.0;
    assert coordination == factor / 100.0;
    Quotient(effortHours, percent, factor);
  }

  lemma Quotient(effort: real, percent: real, factor: real)
    requires percent > 0.0
    ensures effort / (percent / 100.0) * (factor / 100.0) == effort * factor / percent
  {
    var q := effort / (percent / 100.0);
    assert q * percent == effort * 100.0;
    var r := q * (factor / 100.0);
    assert r * percent == q * percent * factor / 100.0;
  }

  lemma FinishIsRight(a: Assignment, staff: Staff, start: int, hours: real)
    requires AssignmentFinish(a, staff, start, hours).Ok?
    ensures RightFinish(a, staff, start, hours, AssignmentFinish(a, staff, start, hours).value)
  {
    hide AddWorkingMs, NeverReversed, IsFinish;
    HoursMsIsNearest(hours);
    if HasCalendar(a, staff) {
      AddWorkingMsExact(staff.calendars[a.ownerId], start, HoursMs(hours), MAX_SEARCH_DAYS);
    }
  }

  lemma JobEstimateIsRight(staff: Staff, job: Job, base: int)
    requires job.work.Todo? && JobEstimate(staff, job, base).Ok?
    ensures job.work.assignment.Some?
    ensures IsRight(job.work.assignment.value, staff, job.work.effortHours, |job.dependsOn|, job.work.requiresHuman,
                    base, JobEstimate(staff, job, base).value)
  {
    hide AssignmentFinish, NextAvailable, RawHours, RoundHours, RightFinish, IsNext;
    var a, work, e := job.work.assignment.value, job.work, JobEstimate(staff, job, base).value;
    var raw := RawHours(a, staff, work.effortHours, |job.dependsOn|, work.requiresHuman);
    RawHoursAre(a, staff, work.effortHours, |job.dependsOn|, work.requiresHuman);
    RoundHoursIsNear(raw);
    RoundHoursIsNear(e.p50Hours * 1.4);
    FinishIsRight(a, staff, e.earliestStart, e.p50Hours);
    FinishIsRight(a, staff, e.earliestStart, e.p80Hours);
    if HasCalendar(a, staff) {
      NextAvailableExact(staff.calendars[a.ownerId], base, MAX_SEARCH_DAYS);
    }
  }

  // ------------------------------------------------------------------
  // Along the dependencies
  // ------------------------------------------------------------------

  /** The latest P80 finish among the dependencies of task i, or now if there are none. */
  ghost predicate IsLatestBefore(p: Plan, i: nat, latest: int)
    requires Sound(p) && i < |p.jobs|
  {
    && (p.graph[i] == [] ==> latest == p.now)
    && (forall d | Edge(p.graph, i, d) :: EstimateOf(p, d).Ok? && EstimateOf(p, d).value.p80Finish <= latest)
    && (p.graph[i] != [] ==> exists d :: Edge(p.graph, i, d) && EstimateOf(p, d).value.p80Finish == latest)
  }

  /** Where the work on task i can begin; with the clamp never before now. */
  function Base(p: Plan, latest: int): int {
    if p.clampToNow && latest < p.now then p.now else latest
  }

  lemma EstimateIsRight(p: Plan, i: nat) returns (latest: int)
    requires Sound(p) && i < |p.jobs| && EstimateOf(p, i).Ok?
    ensures IsLatestBefore(p, i, latest)
    ensures match p.jobs[i].work
      case Todo(_, assignment, effortHours, requiresHuman) =>
        assignment.Some? && IsRight(assignment.value, p.staff, effortHours, |p.jobs[i].dependsOn|, requiresHuman,
                                    Base(p, latest), EstimateOf(p, i).value)
      case Done(at, previous) =>
        EstimateOf(p, i).value == previous.(earliestStart := at, p50Finish := at, p80Finish := at)
  {
    hide EstimateOf, Finishes, Acyclic, IsRight, Latest;
    EstimateUnfolds(p, i);
    FinishesAre(p, i, |p.graph[i]|);
    var finishes := Finishes(p, i, |p.graph[i]|).value;
    latest := Latest(finishes, p.now);
    forall d | Edge(p.graph, i, d) ensures EstimateOf(p, d).Ok? && EstimateOf(p, d).value.p80Finish <= latest {
      var k :| 0 <= k < |p.graph[i]| && p.graph[i][k] == d;
      assert finishes[k] in finishes;
    }
    if p.graph[i] != [] {
      assert latest in finishes;
      var k :| 0 <= k < |finishes| && finishes[k] == latest;
      assert Edge(p.graph, i, p.graph[i][k]);
    }
    if p.jobs[i].work.Todo? {
      JobEstimateIsRight(p.staff, p.jobs[i], Base(p, latest));
    }
  }

  /** Every task name of `names` that occurs among `dependsOn` has ended by `latest`, and the last of them just then. */
  ghost predicate IsLatestNamed(names: seq<string>, dependsOn: seq<string>, estimates: seq<Estimate>, now: int,
                                latest: int)
    requires |names| == |estimates|
  {
    && (dependsOn == [] ==> latest == now)
    && (forall j | 0 <= j < |names| && names[j] in dependsOn :: estimates[j].p80Finish <= latest)
    && (dependsOn != [] ==> exists j | 0 <= j < |names| :: names[j] in dependsOn && estimates[j].p80Finish == latest)
  }

  // ------------------------------------------------------------------
  // When there is an estimate
  // ------------------------------------------------------------------

  /** The owner's calendar takes the work: both searches succeed, and no hours are negative. */
  predicate CalendarAllows(c: WorkCalendar, base: int, p50Hours: real, p80Hours: real) {
    var start := NextAvailable(c, base);
    && start.Ok? && p50Hours >= 0.0 && p80Hours >= 0.0
    && AddWorkingMs(c, start.value, HoursMs(p50Hours), MAX_SEARCH_DAYS).Ok?
    && AddWorkingMs(c, start.value, HoursMs(p80Hours), MAX_SEARCH_DAYS).Ok?
  }

  /** A task with work left can be estimated iff it is assigned and its owner's calendar, if any, takes the work. */
  lemma EstimatedIff(staff: Staff, job: Job, base: int)
    requires job.work.Todo?
    ensures JobEstimate(staff, job, base).Ok? <==>
      && job.work.assignment.Some?
      && var a, work := job.work.assignment.value, job.work;
         var p50Hours := P50Hours(a, staff, work.effortHours, |job.dependsOn|, work.requiresHuman);
         HasCalendar(a, staff) ==>
           CalendarAllows(staff.calendars[a.ownerId], base, p50Hours, RoundHours(p50Hours * 1.4))
    ensures job.work.assignment.None? ==> JobEstimate(staff, job, base) == Err(NoEligibleAssignee(job.work.title))
  {
    hide AddWorkingMs, NextAvailable, P50Hours, RoundHours, HoursMs;
  }

  /** No calendar is in the way of any task with work left. */
  ghost predicate WithoutCalendars(p: Plan) {
    forall i | 0 <= i < |p.jobs| ::
      var work := p.jobs[i].work;
      work.Todo? && work.assignment.Some? ==> !HasCalendar(work.assignment.value, p.staff)
  }

  lemma {:induction false} AssignedIsEstimated(p: Plan, i: nat)
    requires Sound(p) && WithoutCalendars(p) && i < |p.jobs|
    requires forall j | 0 <= j < |p.jobs| :: p.jobs[j].work.Todo? ==> p.jobs[j].work.assignment.Some?
    ensures EstimateOf(p, i).Ok?
    decreases Rank(p.graph, i)
  {
    hide Acyclic, Finishes, AssignmentStart, AssignmentFinish, P50Hours, RoundHours;
    forall k | 0 <= k < |p.graph[i]| ensures p.graph[i][k] < |p.jobs| && EstimateOf(p, p.graph[i][k]).Ok? {
      assert Edge(p.graph, i, p.graph[i][k]);
      RankFalls(p.graph, i, p.graph[i][k]);
      AssignedIsEstimated(p, p.graph[i][k]);
    }
    FinishesAre(p, i, |p.graph[i]|);
    if p.jobs[i].work.Todo? {
      EstimatedIff(p.staff, p.jobs[i], DependencyStart(Finishes(p, i, |p.graph[i]|).value, p.now, p.clampToNow));
    }
  }

  /** Without calendars, everything can be estimated iff every task with work left is assigned. */
  lemma EstimatedIffAssigned(p: Plan)
    requires Sound(p) && WithoutCalendars(p)
    ensures AllEstimated(p) <==>
      forall j | 0 <= j < |p.jobs| :: p.jobs[j].work.Todo? ==> p.jobs[j].work.assignment.Some?
  {
    hide EstimateOf, Acyclic;
    if forall j | 0 <= j < |p.jobs| :: p.jobs[j].work.Todo? ==> p.jobs[j].work.assignment.Some? {
      forall i | 0 <= i < |p.jobs| ensures EstimateOf(p, i).Ok? {
        AssignedIsEstimated(p, i);
      }
    }
    if AllEstimated(p) {
      forall i | 0 <= i < |p.jobs| && p.jobs[i].work.Todo? ensures p.jobs[i].work.assignment.Some? {
        var latest := EstimateIsRight(p, i);
      }
    }
  }
}
