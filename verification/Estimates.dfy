/**
 * What `schedule` and `reschedule` of `src/application/scheduler.rs` compute, free of any
 * processing order: an estimate per task, by recursion along dependencies.
 */
module Estimates {
  import opened Wrappers
  import opened Errors
  import opened Domain
  import opened Rounding
  import opened Calendar
  import opened CalendarWalk
  import opened Graph

  /** The part of the organization state that scheduling reads: capacities in percent, and calendars. */
  datatype Staff = Staff(capacityPercent: map<string, nat>, calendars: map<string, WorkCalendar>)

  /** A task with work left, or a terminal one that keeps its hours and is pinned to an instant. */
  datatype Work =
    | Todo(title: string, assignment: Option<Assignment>, effortHours: real, requiresHuman: bool)
    | Done(at: int, previous: Estimate)

  datatype Job = Job(name: string, key: string, dependsOn: seq<string>, work: Work)

  /** `clampToNow` is the `.max(now)` that only `reschedule` applies to a dependency start. */
  datatype Plan = Plan(jobs: seq<Job>, graph: Dependencies, staff: Staff, now: int, clampToNow: bool)

  function AssignmentCapacity(a: Assignment, staff: Staff): real {
    if a.ownerKind == Team || a.ownerId !in staff.capacityPercent then 1.0
    else staff.capacityPercent[a.ownerId] as real / 100.0
  }

  function AssignmentCalendar(a: Assignment, staff: Staff): Option<WorkCalendar> {
    if a.ownerKind != Team && a.ownerId in staff.calendars then Some(staff.calendars[a.ownerId]) else None
  }

  function AssignmentStart(a: Assignment, staff: Staff, start: int): Result<int, RelayError> {
    match AssignmentCalendar(a, staff)
    case Some(calendar) => NextAvailable(calendar, start)
    case None => Ok(start)
  }

  function AssignmentFinish(a: Assignment, staff: Staff, start: int, hours: real): Result<int, RelayError> {
    match AssignmentCalendar(a, staff)
    case Some(calendar) => AddWorkingHours(calendar, start, hours)
    case None => Ok(start + HoursMs(hours))
  }

  /** Effort over capacity, with what coordination adds, before rounding. */
  function RawHours(a: Assignment, staff: Staff, effortHours: real, dependencies: nat, requiresHuman: bool): (r: real)
    ensures effortHours >= 0.0 ==> r >= 0.0
  {
    var capacity := if AssignmentCapacity(a, staff) < 0.1 then 0.1 else AssignmentCapacity(a, staff);
    var coordination := 1.0 + (if dependencies > 1 then 0.1 else 0.0) + (if requiresHuman then 0.08 else 0.0);
    effortHours / capacity * coordination
  }

  function P50Hours(a: Assignment, staff: Staff, effortHours: real, dependencies: nat, requiresHuman: bool): real {
    RoundHours(RawHours(a, staff, effortHours, dependencies, requiresHuman))
  }

  /** The latest of the finishes, or now if there are none. */
  function Latest(finishes: seq<int>, now: int): (r: int)
    ensures finishes == [] ==> r == now
    ensures finishes != [] ==> r in finishes
    ensures forall f | f in finishes :: f <= r
  {
    if finishes == [] then now
    else if |finishes| == 1 then finishes[0]
    else
      assert finishes == [finishes[0]] + finishes[1..];
      Max(finishes[0], Latest(finishes[1..], now))
  }

  function DependencyStart(finishes: seq<int>, now: int, clampToNow: bool): int {
    if clampToNow then Max(Latest(finishes, now), now) else Latest(finishes, now)
  }

  /** The estimate of one task once the finishes of its dependencies are known. */
  function JobEstimate(staff: Staff, job: Job, dependencyStart: int): Result<Estimate, RelayError> {
    match job.work
    case Done(at, previous) =>
      Ok(previous.(earliestStart := at, p50Finish := at, p80Finish := at))
    case Todo(title, assignment, effortHours, requiresHuman) =>
      if assignment.None? then Err(NoEligibleAssignee(title))
      else
        var a := assignment.value;
        var p50Hours := P50Hours(a, staff, effortHours, |job.dependsOn|, requiresHuman);
        var p80Hours := RoundHours(p50Hours * 1.4);
        var start := AssignmentStart(a, staff, dependencyStart);
        if start.Err? then Err(start.error)
        else
          var p50 := AssignmentFinish(a, staff, start.value, p50Hours);
          if p50.Err? then Err(p50.error)
          else
            var p80 := AssignmentFinish(a, staff, start.value, p80Hours);
            if p80.Err? then Err(p80.error)
            else Ok(Estimate(effortHours, p50Hours, p80Hours, start.value, p50.value, p80.value))
  }

  // ------------------------------------------------------------------
  // The order-free definition
  // ------------------------------------------------------------------

  ghost predicate Sound(p: Plan) {
    |p.graph| == |p.jobs| && Closed(p.graph) && Acyclic(p.graph)
  }

  ghost function EstimateOf(p: Plan, i: nat): Result<Estimate, RelayError>
    requires Sound(p) && i < |p.jobs|
    decreases Rank(p.graph, i), |p.graph[i]| + 1
  {
    var finishes := Finishes(p, i, |p.graph[i]|);
    if finishes.Err? then Err(finishes.error)
    else JobEstimate(p.staff, p.jobs[i], DependencyStart(finishes.value, p.now, p.clampToNow))
  }

  /** The P80 finishes of the first k dependencies of task i. */
  ghost function Finishes(p: Plan, i: nat, k: nat): (r: Result<seq<int>, RelayError>)
    requires Sound(p) && i < |p.jobs| && k <= |p.graph[i]|
    ensures r.Ok? ==> |r.value| == k
    decreases Rank(p.graph, i), k
  {
    if k == 0 then Ok([])
    else
      var d := p.graph[i][k - 1];
      assert Edge(p.graph, i, d);
      RankFalls(p.graph, i, d);
      var before, last := Finishes(p, i, k - 1), EstimateOf(p, d);
      if before.Err? then before
      else if last.Err? then Err(last.error)
      else Ok(before.value + [last.value.p80Finish])
  }

  lemma {:induction false} FinishesAre(p: Plan, i: nat, k: nat)
    requires Sound(p) && i < |p.jobs| && k <= |p.graph[i]|
    ensures forall j | 0 <= j < k :: p.graph[i][j] < |p.jobs|
    ensures var r := Finishes(p, i, k); r.Ok? <==> forall j | 0 <= j < k :: EstimateOf(p, p.graph[i][j]).Ok?
    ensures var r := Finishes(p, i, k); r.Ok? ==>
      forall j | 0 <= j < k :: r.value[j] == EstimateOf(p, p.graph[i][j]).value.p80Finish
    decreases k
  {
    if k > 0 {
      assert Edge(p.graph, i, p.graph[i][k - 1]);
      FinishesAre(p, i, k - 1);
    }
  }

  lemma EstimateUnfolds(p: Plan, i: nat)
    requires Sound(p) && i < |p.jobs| && EstimateOf(p, i).Ok?
    ensures var finishes := Finishes(p, i, |p.graph[i]|);
      && finishes.Ok?
      && EstimateOf(p, i) == JobEstimate(p.staff, p.jobs[i], DependencyStart(finishes.value, p.now, p.clampToNow))
  {
    hide JobEstimate, Finishes;
  }

  ghost predicate AllEstimated(p: Plan)
    requires Sound(p)
  {
    forall i | 0 <= i < |p.jobs| :: EstimateOf(p, i).Ok?
  }

  /** `max_by_key` returns the last of several maxima. */
  function LastMax(finishes: seq<int>): (k: nat)
    requires finishes != []
    ensures k < |finishes|
    ensures forall j | 0 <= j < |finishes| :: finishes[j] <= finishes[k] && (j > k ==> finishes[j] < finishes[k])
  {
    var last := |finishes| - 1;
    if last == 0 then 0
    else
      var before := LastMax(finishes[..last]);
      if finishes[last] >= finishes[before] then last else before
  }

  /** The dependency chain that ends at task i and always goes through the latest-finishing dependency. */
  ghost function CriticalChain(p: Plan, i: nat): (chain: seq<nat>)
    requires Sound(p) && i < |p.jobs| && EstimateOf(p, i).Ok?
    ensures chain != [] && chain[|chain| - 1] == i
    decreases Rank(p.graph, i)
  {
    if p.graph[i] == [] then [i]
    else
      var finishes := Finishes(p, i, |p.graph[i]|).value;
      var d := p.graph[i][LastMax(finishes)];
      assert Edge(p.graph, i, d);
      RankFalls(p.graph, i, d);
      FinishesAre(p, i, |p.graph[i]|);
      CriticalChain(p, d) + [i]
  }
}
