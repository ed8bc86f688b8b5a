/** Laws of the schedules that `src/application/scheduler.rs` computes. */
module SchedulingLaws {
  import opened Wrappers
  import opened Domain
  import opened Rounding
  import opened Calendar
  import opened CalendarWalk
  import opened Graph
  import opened Kahn
  import opened Estimates
  import opened Scheduler

  /** No calendar of the staff can make the working-time walk recount (see `CalendarWalk.NeverReversed`). */
  ghost predicate SoundCalendars(staff: Staff) {
    forall id | id in staff.calendars :: NeverReversed(staff.calendars[id])
  }

  // ------------------------------------------------------------------
  // One task
  // ------------------------------------------------------------------

  lemma FinishNotBeforeStart(a: Assignment, staff: Staff, start: int, hours: real)
    ensures var r := AssignmentFinish(a, staff, start, hours); r.Ok? ==> start <= r.value
  {
    var calendar := AssignmentCalendar(a, staff);
    if calendar.Some? && hours >= 0.0 {
      AddWorkingMsNotBefore(calendar.value, start, HoursMs(hours), MAX_SEARCH_DAYS);
    }
  }

  lemma StartNotBeforeDependencies(a: Assignment, staff: Staff, start: int)
    ensures var r := AssignmentStart(a, staff, start); r.Ok? ==> start <= r.value
  {
    var calendar := AssignmentCalendar(a, staff);
    if calendar.Some? {
      NextAvailableExact(calendar.value, start, MAX_SEARCH_DAYS);
    }
  }

  lemma P80FinishNotEarlier(a: Assignment, staff: Staff, start: int, hours: real)
    requires SoundCalendars(staff)
    ensures var p50Hours := RoundHours(hours);
      var p50 := AssignmentFinish(a, staff, start, p50Hours);
      var p80 := AssignmentFinish(a, staff, start, RoundHours(p50Hours * 1.4));
      p50.Ok? && p80.Ok? ==> p50.value <= p80.value
  {
    hide AddWorkingMs;
    P80NotShorter(hours);
    var calendar := AssignmentCalendar(a, staff);
    var p50Hours := RoundHours(hours);
    var p80Hours := RoundHours(p50Hours * 1.4);
    if calendar.Some? && p50Hours >= 0.0 && p80Hours >= 0.0
       && AssignmentFinish(a, staff, start, p50Hours).Ok? && AssignmentFinish(a, staff, start, p80Hours).Ok?
    {
      AddWorkingMsMonotone(calendar.value, start, start, HoursMs(p50Hours), HoursMs(p80Hours), MAX_SEARCH_DAYS);
    }
  }

  /** What holds of every estimate of a task with work left, whatever its calendar. */
  lemma JobEstimateLaws(staff: Staff, job: Job, dependencyStart: int)
    requires job.work.Todo? && JobEstimate(staff, job, dependencyStart).Ok?
    ensures var e := JobEstimate(staff, job, dependencyStart).value;
      && dependencyStart <= e.earliestStart <= e.p50Finish && e.earliestStart <= e.p80Finish
      && (SoundCalendars(staff) ==> e.p50Finish <= e.p80Finish)
    ensures var e, work := JobEstimate(staff, job, dependencyStart).value, job.work;
      && (e.p50Hours <= e.p80Hours <==>
          RawHours(work.assignment.value, staff, work.effortHours, |job.dependsOn|, work.requiresHuman) > -0.015)
      && (work.effortHours >= 0.0 ==> e.p50Hours <= e.p80Hours)
  {
    hide AssignmentStart, AssignmentFinish, RoundHours, RawHours;
    var e := JobEstimate(staff, job, dependencyStart).value;
    var a := job.work.assignment.value;
    StartNotBeforeDependencies(a, staff, dependencyStart);
    FinishNotBeforeStart(a, staff, e.earliestStart, e.p50Hours);
    FinishNotBeforeStart(a, staff, e.earliestStart, e.p80Hours);
    var hours := RawHours(a, staff, job.work.effortHours, |job.dependsOn|, job.work.requiresHuman);
    P80NotBelowP50(hours);
    if SoundCalendars(staff) {
      P80FinishNotEarlier(a, staff, e.earliestStart, hours);
    }
  }

  /** A team with an effort of minus 0.02 hours is estimated with P50 hours above P80 hours. */
  lemma NegativeEffortReversesHours()
    ensures exists staff: Staff, job: Job | job.work.Todo? && JobEstimate(staff, job, 0).Ok? ::
      JobEstimate(staff, job, 0).value.p50Hours > JobEstimate(staff, job, 0).value.p80Hours
  {
    var staff, a := Staff(map[], map[]), Assignment(Team, "");
    var job := Job("", "", [], Todo("", Some(a), -0.02, false));
    assert RawHours(a, staff, -0.02, 0, false) == -0.02;
    P80BelowP50();
    assert JobEstimate(staff, job, 0).Ok?;
  }

  // ------------------------------------------------------------------
  // Dependencies and finishes
  // ------------------------------------------------------------------

  /** A task with work left starts at or after the P80 finish of each of its dependencies. */
  lemma StartsAfterDependencies(p: Plan, i: nat, d: nat)
    requires Sound(p) && i < |p.jobs| && EstimateOf(p, i).Ok? && p.jobs[i].work.Todo?
    requires Edge(p.graph, i, d)
    ensures d < |p.jobs| && EstimateOf(p, d).Ok?
    ensures EstimateOf(p, d).value.p80Finish <= EstimateOf(p, i).value.earliestStart
  {
    hide EstimateOf, Finishes, JobEstimate, Acyclic;
    EstimateUnfolds(p, i);
    FinishesAre(p, i, |p.graph[i]|);
    var finishes := Finishes(p, i, |p.graph[i]|).value;
    var k :| 0 <= k < |p.graph[i]| && p.graph[i][k] == d;
    assert finishes[k] in finishes;
    JobEstimateLaws(p.staff, p.jobs[i], DependencyStart(finishes, p.now, p.clampToNow));
  }

  /** Nothing with work left starts before now. */
  lemma {:induction false} StartsAfterNow(p: Plan, i: nat)
    requires Sound(p) && i < |p.jobs| && EstimateOf(p, i).Ok? && p.jobs[i].work.Todo?
    requires p.clampToNow || forall j | 0 <= j < |p.jobs| :: p.jobs[j].work.Todo?
    ensures p.now <= EstimateOf(p, i).value.earliestStart
    decreases Rank(p.graph, i)
  {
    hide EstimateOf, Finishes, JobEstimate, Acyclic;
    EstimateUnfolds(p, i);
    FinishesAre(p, i, |p.graph[i]|);
    var finishes := Finishes(p, i, |p.graph[i]|).value;
    JobEstimateLaws(p.staff, p.jobs[i], DependencyStart(finishes, p.now, p.clampToNow));
    if !p.clampToNow && finishes != [] {
      var d := p.graph[i][0];
      assert Edge(p.graph, i, d);
      RankFalls(p.graph, i, d);
      StartsAfterNow(p, d);
      StartsAfterDependencies(p, i, d);
      EstimateUnfolds(p, d);
      JobEstimateLaws(p.staff, p.jobs[d], DependencyStart(Finishes(p, d, |p.graph[d]|).value, p.now, p.clampToNow));
    }
  }

  lemma P50NotAfterP80(p: Plan, i: nat)
    requires Sound(p) && i < |p.jobs| && EstimateOf(p, i).Ok? && SoundCalendars(p.staff)
    ensures EstimateOf(p, i).value.p50Finish <= EstimateOf(p, i).value.p80Finish
  {
    hide EstimateOf, Finishes, Acyclic;
    EstimateUnfolds(p, i);
    if p.jobs[i].work.Todo? {
      JobEstimateLaws(p.staff, p.jobs[i], DependencyStart(Finishes(p, i, |p.graph[i]|).value, p.now, p.clampToNow));
    }
  }

  /** P50 hours never exceed P80 hours for efforts that are not negative; terminal tasks keep their order. */
  lemma P50HoursNotAboveP80(p: Plan, i: nat)
    requires Sound(p) && i < |p.jobs| && EstimateOf(p, i).Ok?
    requires match p.jobs[i].work
      case Todo(_, _, effortHours, _) => effortHours >= 0.0
      case Done(_, previous) => previous.p50Hours <= previous.p80Hours
    ensures EstimateOf(p, i).value.p50Hours <= EstimateOf(p, i).value.p80Hours
  {
    hide EstimateOf, Finishes, Acyclic;
    EstimateUnfolds(p, i);
    if p.jobs[i].work.Todo? {
      JobEstimateLaws(p.staff, p.jobs[i], DependencyStart(Finishes(p, i, |p.graph[i]|).value, p.now, p.clampToNow));
    }
  }

  lemma {:induction false} LatestMonotone(xs: seq<int>, ys: seq<int>, now: int)
    requires |xs| == |ys| && forall k | 0 <= k < |xs| :: xs[k] <= ys[k]
    ensures Latest(xs, now) <= Latest(ys, now)
  {
    if |xs| > 1 {
      LatestMonotone(xs[1..], ys[1..], now);
    }
  }

  /** The P50 finish of a schedule never lies after its P80 finish, and its P80 finish not before any task's. */
  lemma ScheduleFinishes(p: Plan, s: Schedule)
    requires Sound(p) && AllEstimated(p) && Carries(p, s)
    ensures SoundCalendars(p.staff) ==> s.p50Finish <= s.p80Finish
    ensures forall i | 0 <= i < |p.jobs| :: EstimateOf(p, i).value.p80Finish <= s.p80Finish
  {
    hide EstimateOf, Acyclic, LastMax;
    var estimates := AllEstimates(p);
    if SoundCalendars(p.staff) {
      forall i | 0 <= i < |p.jobs| ensures estimates[i].p50Finish <= estimates[i].p80Finish {
        P50NotAfterP80(p, i);
      }
      LatestMonotone(P50Finishes(estimates), P80Finishes(estimates), p.now);
    }
    forall i | 0 <= i < |p.jobs| ensures EstimateOf(p, i).value.p80Finish <= s.p80Finish {
      assert P80Finishes(estimates)[i] in P80Finishes(estimates);
    }
  }

  // ------------------------------------------------------------------
  // The critical path
  // ------------------------------------------------------------------

  /** Consecutive tasks of a chain depend on each other, the later on the earlier. */
  ghost predicate IsChain(p: Plan, chain: seq<nat>) {
    && chain != []
    && (forall k | 0 <= k < |chain| :: chain[k] < |p.jobs|)
    && forall k | 0 < k < |chain| :: Edge(p.graph, chain[k], chain[k - 1])
  }

  /** The P80 finish of d is the latest among the dependencies of i, so it alone sets the start of i. */
  ghost predicate SetsStart(p: Plan, i: nat, d: nat)
    requires Sound(p)
  {
    && Edge(p.graph, i, d) && EstimateOf(p, d).Ok?
    && forall e | Edge(p.graph, i, e) ::
      EstimateOf(p, e).Ok? && EstimateOf(p, e).value.p80Finish <= EstimateOf(p, d).value.p80Finish
  }

  lemma {:induction false} CriticalChainIsCritical(p: Plan, i: nat)
    requires Sound(p) && i < |p.jobs| && EstimateOf(p, i).Ok?
    ensures var chain := CriticalChain(p, i);
      && IsChain(p, chain) && chain[|chain| - 1] == i && p.graph[chain[0]] == []
      && forall k | 0 < k < |chain| :: SetsStart(p, chain[k], chain[k - 1])
    decreases Rank(p.graph, i)
  {
    hide EstimateOf, Finishes, Acyclic;
    if p.graph[i] != [] {
      var d := CriticalDependency(p, i);
      RankFalls(p.graph, i, d);
      CriticalChainIsCritical(p, d);
      var chain, before := CriticalChain(p, i), CriticalChain(p, d);
      forall k | 0 < k < |chain| ensures SetsStart(p, chain[k], chain[k - 1]) {
        assert k < |before| ==> SetsStart(p, before[k], before[k - 1]);
      }
    }
  }

  /** Along a chain of tasks with work left, the first finishes before the last starts. */
  lemma {:induction false} ChainOrdersFinishes(p: Plan, chain: seq<nat>)
    requires Sound(p) && AllEstimated(p) && IsChain(p, chain) && |chain| >= 2
    requires forall i | 0 <= i < |p.jobs| :: p.jobs[i].work.Todo?
    ensures EstimateOf(p, chain[0]).value.p80Finish <= EstimateOf(p, chain[|chain| - 1]).value.earliestStart
  {
    hide EstimateOf, Finishes, JobEstimate, Acyclic;
    var last := |chain| - 1;
    var d := chain[last - 1];
    StartsAfterDependencies(p, chain[last], d);
    if last > 1 {
      ChainOrdersFinishes(p, chain[..last]);
      EstimateUnfolds(p, d);
      JobEstimateLaws(p.staff, p.jobs[d], DependencyStart(Finishes(p, d, |p.graph[d]|).value, p.now, p.clampToNow));
    }
  }

  lemma CriticalDependency(p: Plan, i: nat) returns (d: nat)
    requires Sound(p) && i < |p.jobs| && EstimateOf(p, i).Ok? && p.graph[i] != []
    ensures d < |p.jobs| && SetsStart(p, i, d)
    ensures CriticalChain(p, i) == CriticalChain(p, d) + [i]
    ensures Finishes(p, i, |p.graph[i]|).Ok?
    ensures Latest(Finishes(p, i, |p.graph[i]|).value, p.now) == EstimateOf(p, d).value.p80Finish
  {
    hide EstimateOf, Finishes, Acyclic;
    EstimateUnfolds(p, i);
    FinishesAre(p, i, |p.graph[i]|);
    var finishes := Finishes(p, i, |p.graph[i]|).value;
    d := p.graph[i][LastMax(finishes)];
    assert finishes[LastMax(finishes)] in finishes;
    forall e | Edge(p.graph, i, e)
      ensures EstimateOf(p, e).Ok? && EstimateOf(p, e).value.p80Finish <= EstimateOf(p, d).value.p80Finish
    {
      var k :| 0 <= k < |p.graph[i]| && p.graph[i][k] == e;
      assert finishes[k] <= finishes[LastMax(finishes)];
    }
  }

  // ------------------------------------------------------------------
  // Continuous availability: the critical path is the longest chain
  // ------------------------------------------------------------------

  /** Every owner works around the clock: no calendar applies, as for teams, or one without a pause. */
  ghost predicate Continuous(p: Plan) {
    && !p.clampToNow
    && forall i | 0 <= i < |p.jobs| ::
      var work := p.jobs[i].work;
      && work.Todo? && work.assignment.Some?
      && var calendar := AssignmentCalendar(work.assignment.value, p.staff);
         calendar.Some? ==> RoundTheClock(calendar.value)
  }

  ghost function P80Ms(p: Plan, i: nat): nat
    requires Continuous(p) && i < |p.jobs|
  {
    var work, dependencies := p.jobs[i].work, |p.jobs[i].dependsOn|;
    var p50Hours := P50Hours(work.assignment.value, p.staff, work.effortHours, dependencies, work.requiresHuman);
    HoursMs(RoundHours(p50Hours * 1.4))
  }

  ghost function ChainMs(p: Plan, chain: seq<nat>): nat
    requires Continuous(p) && forall k | 0 <= k < |chain| :: chain[k] < |p.jobs|
  {
    if chain == [] then 0 else ChainMs(p, chain[..|chain| - 1]) + P80Ms(p, chain[|chain| - 1])
  }

  lemma ContinuousFinish(a: Assignment, staff: Staff, start: int, hours: real)
    requires var calendar := AssignmentCalendar(a, staff); calendar.Some? ==> RoundTheClock(calendar.value)
    ensures AssignmentStart(a, staff, start).Ok? ==> AssignmentStart(a, staff, start) == Ok(start)
    ensures AssignmentFinish(a, staff, start, hours).Ok? ==>
      AssignmentFinish(a, staff, start, hours) == Ok(start + HoursMs(hours))
  {
    hide AddWorkingMs, NextAvailable, RoundTheClock;
    var calendar := AssignmentCalendar(a, staff);
    if calendar.Some? {
      RoundTheClockIsPlainTime(calendar.value, start, HoursMs(hours), MAX_SEARCH_DAYS);
    }
  }

  lemma ContinuousEstimate(p: Plan, i: nat)
    requires Sound(p) && Continuous(p) && i < |p.jobs| && EstimateOf(p, i).Ok?
    ensures Finishes(p, i, |p.graph[i]|).Ok?
    ensures EstimateOf(p, i).value.p80Finish == Latest(Finishes(p, i, |p.graph[i]|).value, p.now) + P80Ms(p, i)
  {
    hide EstimateOf, Finishes, Acyclic, P50Hours, RoundHours, HoursMs, AssignmentStart, AssignmentFinish, RoundTheClock;
    EstimateUnfolds(p, i);
    var work, start := p.jobs[i].work, Latest(Finishes(p, i, |p.graph[i]|).value, p.now);
    var dependencies := |p.jobs[i].dependsOn|;
    var p50Hours := P50Hours(work.assignment.value, p.staff, work.effortHours, dependencies, work.requiresHuman);
    ContinuousFinish(work.assignment.value, p.staff, start, RoundHours(p50Hours * 1.4));
  }

  lemma {:induction false} ChainNotLonger(p: Plan, chain: seq<nat>)
    requires Sound(p) && Continuous(p) && AllEstimated(p) && IsChain(p, chain)
    ensures p.now + ChainMs(p, chain) <= EstimateOf(p, chain[|chain| - 1]).value.p80Finish
  {
    hide EstimateOf, Finishes, Acyclic, P80Ms;
    var last := |chain| - 1;
    ContinuousEstimate(p, chain[last]);
    if last == 0 {
      StartsAfterNow(p, chain[0]);
      NowNotAfterLatest(p, chain[0]);
    } else {
      ChainNotLonger(p, chain[..last]);
      DependencyNotAfterLatest(p, chain[last], chain[last - 1]);
    }
  }

  lemma DependencyNotAfterLatest(p: Plan, i: nat, d: nat)
    requires Sound(p) && i < |p.jobs| && Edge(p.graph, i, d) && EstimateOf(p, i).Ok?
    ensures d < |p.jobs| && EstimateOf(p, d).Ok? && Finishes(p, i, |p.graph[i]|).Ok?
    ensures EstimateOf(p, d).value.p80Finish <= Latest(Finishes(p, i, |p.graph[i]|).value, p.now)
  {
    hide EstimateOf, Finishes, Acyclic;
    EstimateUnfolds(p, i);
    FinishesAre(p, i, |p.graph[i]|);
    var finishes := Finishes(p, i, |p.graph[i]|).value;
    var k :| 0 <= k < |p.graph[i]| && p.graph[i][k] == d;
    assert finishes[k] in finishes;
  }

  lemma NowNotAfterLatest(p: Plan, i: nat)
    requires Sound(p) && Continuous(p) && i < |p.jobs| && EstimateOf(p, i).Ok?
    ensures Finishes(p, i, |p.graph[i]|).Ok? && p.now <= Latest(Finishes(p, i, |p.graph[i]|).value, p.now)
  {
    hide EstimateOf, Finishes, Acyclic, P80Ms;
    EstimateUnfolds(p, i);
    if p.graph[i] != [] {
      var d := p.graph[i][0];
      assert Edge(p.graph, i, d);
      DependencyNotAfterLatest(p, i, d);
      StartsAfterNow(p, d);
      EstimateUnfolds(p, d);
      JobEstimateLaws(p.staff, p.jobs[d], DependencyStart(Finishes(p, d, |p.graph[d]|).value, p.now, p.clampToNow));
    }
  }

  lemma {:induction false} CriticalChainAttains(p: Plan, i: nat)
    requires Sound(p) && Continuous(p) && i < |p.jobs| && EstimateOf(p, i).Ok?
    ensures IsChain(p, CriticalChain(p, i))
    ensures p.now + ChainMs(p, CriticalChain(p, i)) == EstimateOf(p, i).value.p80Finish
    decreases Rank(p.graph, i)
  {
    hide EstimateOf, Acyclic, P80Ms;
    CriticalChainIsCritical(p, i);
    ContinuousEstimate(p, i);
    var chain := CriticalChain(p, i);
    if p.graph[i] != [] {
      var d := CriticalDependency(p, i);
      RankFalls(p.graph, i, d);
      CriticalChainAttains(p, d);
      assert chain[..|chain| - 1] == CriticalChain(p, d);
    } else {
      assert chain[..0] == [];
    }
  }

  /**
   * With continuous availability the schedule ends exactly one longest dependency chain after
   * now, and the reported critical path is such a chain.
   */
  lemma ScheduleIsLongestChain(p: Plan, s: Schedule)
    requires Sound(p) && Continuous(p) && AllEstimated(p) && Carries(p, s)
    ensures forall chain | IsChain(p, chain) :: p.now + ChainMs(p, chain) <= s.p80Finish
    ensures exists chain | IsChain(p, chain) ::
      s.criticalPath == ChainKeys(p, chain) && p.now + ChainMs(p, chain) == s.p80Finish
  {
    hide EstimateOf, Acyclic, P80Ms;
    forall chain | IsChain(p, chain) ensures p.now + ChainMs(p, chain) <= s.p80Finish {
      ChainNotLonger(p, chain);
      ScheduleFinishes(p, s);
    }
    var last := LastMax(P80Finishes(AllEstimates(p)));
    CriticalChainAttains(p, last);
    LastMaxIsLatest(P80Finishes(AllEstimates(p)), p.now);
    assert s.criticalPath == ChainKeys(p, CriticalChain(p, last));
  }

  lemma LastMaxIsLatest(finishes: seq<int>, now: int)
    requires finishes != []
    ensures finishes[LastMax(finishes)] == Latest(finishes, now)
  {
    assert finishes[LastMax(finishes)] in finishes;
  }

  /** The critical path of any schedule: a chain from a source, link by link the dependency that set the start. */
  lemma CriticalPathIsCritical(p: Plan, s: Schedule)
    requires Sound(p) && AllEstimated(p) && Carries(p, s)
    ensures exists chain | IsChain(p, chain) ::
      && s.criticalPath == ChainKeys(p, chain)
      && p.graph[chain[0]] == []
      && (forall k | 0 < k < |chain| :: SetsStart(p, chain[k], chain[k - 1]))
      && EstimateOf(p, chain[|chain| - 1]).value.p80Finish == s.p80Finish
  {
    hide EstimateOf, Acyclic;
    var last := LastMax(P80Finishes(AllEstimates(p)));
    CriticalChainIsCritical(p, last);
    LastMaxIsLatest(P80Finishes(AllEstimates(p)), p.now);
    assert s.criticalPath == ChainKeys(p, CriticalChain(p, last));
  }

  // ------------------------------------------------------------------
  // Rescheduling a flow
  // ------------------------------------------------------------------

  /** A terminal task is pinned to one instant that is not after now. */
  lemma TerminalNotAfterNow(tasks: seq<Task>, staff: Staff, now: int, i: nat)
    requires GraphAccepted(TaskJobs(tasks, now)) && i < |tasks| && tasks[i].status.IsTerminal()
    requires EstimateOf(FlowPlan(tasks, staff, now), i).Ok?
    ensures var e := EstimateOf(FlowPlan(tasks, staff, now), i).value;
      && e.earliestStart == e.p50Finish == e.p80Finish <= now
      && e.p50Hours == tasks[i].estimate.p50Hours && e.p80Hours == tasks[i].estimate.p80Hours
  {
    hide EstimateOf, Finishes, Acyclic, Resolve;
    EstimateUnfolds(FlowPlan(tasks, staff, now), i);
  }

  /** The critical path of a revision: such a chain, from any source to an open task that finishes last. */
  lemma RevisedPathIsCritical(p: Plan, tasks: seq<Task>, r: Reschedule)
    requires Sound(p) && AllEstimated(p) && |tasks| == |p.jobs| && Revises(p, tasks, r) && OpenIndices(tasks) != []
    ensures exists chain | IsChain(p, chain) ::
      && r.criticalPath == ChainKeys(p, chain)
      && p.graph[chain[0]] == []
      && (forall k | 0 < k < |chain| :: SetsStart(p, chain[k], chain[k - 1]))
      && !tasks[chain[|chain| - 1]].status.IsTerminal()
      && EstimateOf(p, chain[|chain| - 1]).value.p80Finish == r.p80Finish
  {
    hide EstimateOf, Acyclic;
    var finishes := P80Finishes(OpenEstimates(p, tasks));
    var last := OpenIndices(tasks)[LastMax(finishes)];
    CriticalChainIsCritical(p, last);
    LastMaxIsLatest(finishes, p.now);
    assert r.criticalPath == ChainKeys(p, CriticalChain(p, last));
  }

  /** A task with work left starts at or after now and after every dependency, and ends within the flow's finish. */
  lemma OpenTaskLaws(tasks: seq<Task>, staff: Staff, now: int, r: Reschedule, i: nat)
    requires GraphAccepted(TaskJobs(tasks, now)) && AllEstimated(FlowPlan(tasks, staff, now))
    requires Revises(FlowPlan(tasks, staff, now), tasks, r)
    requires i < |tasks| && !tasks[i].status.IsTerminal()
    ensures var p := FlowPlan(tasks, staff, now);
      var e := EstimateOf(p, i).value;
      && now <= e.earliestStart
      && e.p80Finish <= r.p80Finish
      && forall d | Edge(p.graph, i, d) :: EstimateOf(p, d).Ok? && EstimateOf(p, d).value.p80Finish <= e.earliestStart
  {
    hide EstimateOf, Finishes, Acyclic, Resolve, JobEstimate, OpenIndices;
    var p := FlowPlan(tasks, staff, now);
    StartsAfterNow(p, i);
    forall d | Edge(p.graph, i, d)
      ensures EstimateOf(p, d).Ok? && EstimateOf(p, d).value.p80Finish <= EstimateOf(p, i).value.earliestStart
    {
      StartsAfterDependencies(p, i, d);
    }
    OpenIndicesComplete(tasks, i);
    var k :| 0 <= k < |OpenIndices(tasks)| && OpenIndices(tasks)[k] == i;
    assert P80Finishes(OpenEstimates(p, tasks))[k] in P80Finishes(OpenEstimates(p, tasks));
  }

  lemma RescheduleFinishes(tasks: seq<Task>, staff: Staff, now: int, r: Reschedule)
    requires GraphAccepted(TaskJobs(tasks, now)) && AllEstimated(FlowPlan(tasks, staff, now))
    requires Revises(FlowPlan(tasks, staff, now), tasks, r) && SoundCalendars(staff)
    ensures r.p50Finish <= r.p80Finish
  {
    hide EstimateOf, Acyclic, Resolve, OpenIndices;
    var p := FlowPlan(tasks, staff, now);
    var open := OpenEstimates(p, tasks);
    forall k | 0 <= k < |open| ensures open[k].p50Finish <= open[k].p80Finish {
      P50NotAfterP80(p, OpenIndices(tasks)[k]);
    }
    LatestMonotone(P50Finishes(open), P80Finishes(open), now);
  }

  // ------------------------------------------------------------------
  // From a schedule to a reschedule
  // ------------------------------------------------------------------

  /** With fresh distinct ids, the tasks of a schedule carry over the dependency graph of their drafts. */
  lemma ScheduledGraphIsKept(drafts: seq<TaskDraft>, assignments: map<string, Assignment>, ids: seq<string>,
                             tasks: seq<Task>, now: int)
    requires TasksOf(drafts, assignments, ids, tasks) && Distinct(ids)
    requires var jobs := DraftJobs(drafts, assignments); Distinct(Names(jobs)) && GraphAccepted(jobs)
    ensures GraphAccepted(TaskJobs(tasks, now))
    ensures var before, after := DraftJobs(drafts, assignments), TaskJobs(tasks, now);
      Resolve(Names(after), DependencyNames(after)) == Resolve(Names(before), DependencyNames(before))
  {
    hide Acyclic, IndexByName, TasksOf, DraftJobs, TaskJobs, Names, DependencyNames, TaskJob, Distinct;
    var before, after := DraftJobs(drafts, assignments), TaskJobs(tasks, now);
    TaskShapes(drafts, assignments, ids, tasks, now);
    forall i, k | 0 <= i < |tasks| && 0 <= k < |tasks[i].dependsOn|
      ensures tasks[i].dependsOn[k] in ids
      ensures IndexByName(ids)[tasks[i].dependsOn[k]] == IndexByName(Names(before))[drafts[i].dependsOn[k]]
    {
      DependencyRenamed(drafts, assignments, ids, tasks, i, k);
    }
    assert Known(ids, DependencyNames(after));
    var g, g' := Resolve(Names(before), DependencyNames(before)), Resolve(ids, DependencyNames(after));
    forall i | 0 <= i < |g| ensures g'[i] == g[i] {
      assert |g'[i]| == |g[i]|;
    }
    assert g' == g;
  }

  lemma TaskShapes(drafts: seq<TaskDraft>, assignments: map<string, Assignment>, ids: seq<string>, tasks: seq<Task>,
                   now: int)
    requires TasksOf(drafts, assignments, ids, tasks)
    ensures |tasks| == |drafts| == |ids| && forall i | 0 <= i < |tasks| :: |tasks[i].dependsOn| == |drafts[i].dependsOn|
    ensures Names(TaskJobs(tasks, now)) == ids
    ensures forall i | 0 <= i < |tasks| :: DependencyNames(TaskJobs(tasks, now))[i] == tasks[i].dependsOn
  {
  }

  lemma DependencyRenamed(drafts: seq<TaskDraft>, assignments: map<string, Assignment>, ids: seq<string>,
                          tasks: seq<Task>, i: nat, k: nat)
    requires TasksOf(drafts, assignments, ids, tasks) && Distinct(ids)
    requires Distinct(Names(DraftJobs(drafts, assignments)))
    requires i < |tasks| && k < |tasks[i].dependsOn|
    ensures var names := Names(DraftJobs(drafts, assignments));
      && tasks[i].dependsOn[k] in ids && drafts[i].dependsOn[k] in names
      && IndexByName(ids)[tasks[i].dependsOn[k]] == IndexByName(names)[drafts[i].dependsOn[k]]
  {
    hide IndexByName, Distinct;
    var names := Names(DraftJobs(drafts, assignments));
    var j :| 0 <= j < |drafts| && drafts[j].key == drafts[i].dependsOn[k] && tasks[i].dependsOn[k] == ids[j];
    assert names[j] == drafts[i].dependsOn[k];
    IndexOfDistinct(ids, j);
    IndexOfDistinct(names, j);
  }

  lemma IndexOfDistinct(names: seq<string>, j: nat)
    requires Distinct(names) && j < |names|
    ensures names[j] in IndexByName(names) && IndexByName(names)[names[j]] == j
  {
    var found := IndexByName(names)[names[j]];
    assert names[found] == names[j];
  }
}
