/**
 * How a change request is previewed: `validate_append_only_revision` and the part of
 * `propose_flow_change` that extends the flow and reschedules it, `src/application/app/mod.rs`
 * lines 1144-1215 and 2451-2520. The graph of a flow does not depend on the time, so it is
 * taken at instant 0.
 */
module ChangePreview {
  import opened Wrappers
  import opened Errors
  import opened Domain
  import opened Rounding
  import opened Graph
  import opened Kahn
  import opened Estimates
  import opened Scheduler
  import opened SchedulingLaws
  import opened Planner

  // ------------------------------------------------------------------
  // Append-only revisions
  // ------------------------------------------------------------------

  function FindDraft(drafts: seq<TaskDraft>, key: string): (r: Option<TaskDraft>)
    ensures r.Some? ==> r.value in drafts && r.value.key == key
    ensures r.None? <==> forall d | d in drafts :: d.key != key
  {
    if drafts == [] then None
    else
      assert drafts == [drafts[0]] + drafts[1..];
      if drafts[0].key == key then Some(drafts[0]) else FindDraft(drafts[1..], key)
  }

  /** Every draft of the flow must be found unchanged. */
  function CheckKept(expected: seq<TaskDraft>, drafts: seq<TaskDraft>): Result<(), RelayError> {
    if expected == [] then Ok(())
    else
      var proposed := FindDraft(drafts, expected[0].key);
      if proposed.None? then Err(Validation(RemovedTask(expected[0].key)))
      else if proposed.value != expected[0] then Err(Validation(ModifiedTask(expected[0].key)))
      else CheckKept(expected[1..], drafts)
  }

  function Additions(drafts: seq<TaskDraft>, existing: seq<string>): seq<TaskDraft> {
    if drafts == [] then []
    else (if drafts[0].key in existing then [] else [drafts[0]]) + Additions(drafts[1..], existing)
  }

  function FirstUnknown(names: seq<string>, keys: seq<string>): (r: Option<string>)
    ensures r.None? <==> forall name | name in names :: name in keys
  {
    if names == [] then None
    else if names[0] !in keys then Some(names[0])
    else FirstUnknown(names[1..], keys)
  }

  function CheckDependencies(additions: seq<TaskDraft>, keys: seq<string>): Result<(), RelayError> {
    if additions == [] then Ok(())
    else
      var unknown := FirstUnknown(additions[0].dependsOn, keys);
      if unknown.Some? then Err(Validation(UnknownDependency(additions[0].key, unknown.value)))
      else CheckDependencies(additions[1..], keys)
  }

  function ValidateAppendOnly(tasks: seq<Task>, drafts: seq<TaskDraft>): Result<seq<TaskDraft>, RelayError> {
    if !Distinct(DraftKeys(drafts)) then Err(Validation(DuplicateKeys))
    else
      var kept := CheckKept(FlowToPlan(tasks), drafts);
      if kept.Err? then Err(kept.error)
      else
        var additions := Additions(drafts, TaskKeys(tasks));
        var known := CheckDependencies(additions, DraftKeys(drafts));
        if known.Err? then Err(known.error) else Ok(additions)
  }

  lemma {:induction false} KeptIsKept(expected: seq<TaskDraft>, drafts: seq<TaskDraft>)
    requires Distinct(DraftKeys(drafts)) && forall d | d in expected :: d in drafts
    ensures CheckKept(expected, drafts).Ok?
  {
    if expected != [] {
      var d := expected[0];
      assert d in drafts;
      var found := FindDraft(drafts, d.key).value;
      var i, j :| 0 <= i < |drafts| && 0 <= j < |drafts| && drafts[i] == d && drafts[j] == found;
      assert DraftKeys(drafts)[i] == DraftKeys(drafts)[j];
      KeptIsKept(expected[1..], drafts);
    }
  }

  lemma {:induction false} NothingAdded(drafts: seq<TaskDraft>, existing: seq<string>)
    requires forall d | d in drafts :: d.key in existing
    ensures Additions(drafts, existing) == []
  {
    if drafts != [] {
      NothingAdded(drafts[1..], existing);
    }
  }

  lemma {:induction false} AdditionsAppend(drafts: seq<TaskDraft>, d: TaskDraft, existing: seq<string>)
    ensures Additions(drafts + [d], existing) == Additions(drafts, existing) + if d.key in existing then [] else [d]
  {
    if drafts != [] {
      AdditionsAppend(drafts[1..], d, existing);
      assert (drafts + [d])[1..] == drafts[1..] + [d];
    } else {
      assert drafts + [d] == [d] && [d][1..] == [];
    }
  }

  lemma {:induction false} KeptIff(expected: seq<TaskDraft>, drafts: seq<TaskDraft>)
    requires Distinct(DraftKeys(drafts))
    ensures CheckKept(expected, drafts).Ok? <==> forall d | d in expected :: d in drafts
  {
    if forall d | d in expected :: d in drafts {
      KeptIsKept(expected, drafts);
    } else if CheckKept(expected, drafts).Ok? {
      assert expected == [expected[0]] + expected[1..];
      KeptIff(expected[1..], drafts);
    }
  }

  /** A refusal names the first draft of the flow that is missing or changed. */
  lemma {:induction false} FirstNotKept(expected: seq<TaskDraft>, drafts: seq<TaskDraft>) returns (i: nat)
    requires Distinct(DraftKeys(drafts)) && CheckKept(expected, drafts).Err?
    ensures i < |expected| && expected[i] !in drafts && forall j | 0 <= j < i :: expected[j] in drafts
    ensures var key := expected[i].key;
      CheckKept(expected, drafts)
      == Err(Validation(if key in DraftKeys(drafts) then ModifiedTask(key) else RemovedTask(key)))
  {
    var key := expected[0].key;
    KeptIff([expected[0]], drafts);
    assert [expected[0]][1..] == [];
    assert key in DraftKeys(drafts) <==> exists d :: d in drafts && d.key == key by {
      KeyOfDraft(drafts, key);
    }
    if expected[0] !in drafts {
      assert expected[0] in [expected[0]];
      i := 0;
    } else {
      assert forall d | d in [expected[0]] :: d in drafts;
      i := FirstNotKept(expected[1..], drafts);
      assert forall j | 0 < j <= i :: expected[j] == expected[1..][j - 1];
      i := i + 1;
    }
  }

  lemma KeyOfDraft(drafts: seq<TaskDraft>, key: string)
    ensures key in DraftKeys(drafts) <==> exists d :: d in drafts && d.key == key
  {
    if key in DraftKeys(drafts) {
      var i :| 0 <= i < |drafts| && DraftKeys(drafts)[i] == key;
      assert drafts[i] in drafts;
    }
    if d :| d in drafts && d.key == key {
      var i :| 0 <= i < |drafts| && drafts[i] == d;
      assert DraftKeys(drafts)[i] == key;
    }
  }

  /** A refusal names an addition and a dependency of it that the plan does not know. */
  lemma {:induction false} UnknownRefused(additions: seq<TaskDraft>, keys: seq<string>)
    ensures CheckDependencies(additions, keys).Err? ==> exists d, name |
      d in additions && name in d.dependsOn && name !in keys ::
      CheckDependencies(additions, keys) == Err(Validation(UnknownDependency(d.key, name)))
  {
    if additions != [] {
      assert additions == [additions[0]] + additions[1..];
      var unknown := FirstUnknown(additions[0].dependsOn, keys);
      if unknown.Some? {
        assert unknown.value in additions[0].dependsOn && unknown.value !in keys by {
          UnknownIsUnknown(additions[0].dependsOn, keys);
        }
      } else {
        UnknownRefused(additions[1..], keys);
      }
    }
  }

  lemma {:induction false} UnknownIsUnknown(names: seq<string>, keys: seq<string>)
    ensures var r := FirstUnknown(names, keys); r.Some? ==> r.value in names && r.value !in keys
  {
    if names != [] && names[0] in keys {
      UnknownIsUnknown(names[1..], keys);
    }
  }

  lemma {:induction false} KnownIff(additions: seq<TaskDraft>, keys: seq<string>)
    ensures CheckDependencies(additions, keys).Ok? <==>
      forall d, name | d in additions && name in d.dependsOn :: name in keys
  {
    if additions != [] {
      assert additions == [additions[0]] + additions[1..];
      KnownIff(additions[1..], keys);
    }
  }

  /** The additions are exactly the drafts with new keys. */
  lemma {:induction false} AdditionsAreNewKeys(drafts: seq<TaskDraft>, existing: seq<string>)
    ensures forall d :: d in Additions(drafts, existing) <==> d in drafts && d.key !in existing
    ensures multiset(Additions(drafts, existing)) <= multiset(drafts)
  {
    if drafts != [] {
      assert drafts == [drafts[0]] + drafts[1..];
      AdditionsAreNewKeys(drafts[1..], existing);
    }
  }

  /** What the refusal of a plan says. */
  ghost predicate AppendRefusedFor(tasks: seq<Task>, drafts: seq<TaskDraft>, error: RelayError) {
    var base, keys := FlowToPlan(tasks), DraftKeys(drafts);
    if !Distinct(keys) then error == Validation(DuplicateKeys)
    else if forall d | d in base :: d in drafts then
      exists d, name | d in drafts && d.key !in TaskKeys(tasks) && name in d.dependsOn && name !in keys ::
        error == Validation(UnknownDependency(d.key, name))
    else
      exists i | 0 <= i < |base| ::
        && base[i] !in drafts && (forall j | 0 <= j < i :: base[j] in drafts)
        && error == Validation(if base[i].key in keys then ModifiedTask(base[i].key) else RemovedTask(base[i].key))
  }

  /**
   * A plan appends to a flow iff its keys are unique, every draft of the flow is in it unchanged,
   * and what is new depends on keys of the plan only. The answer is what is new.
   */
  lemma AppendOnlyIff(tasks: seq<Task>, drafts: seq<TaskDraft>)
    ensures ValidateAppendOnly(tasks, drafts).Ok? <==>
      && Distinct(DraftKeys(drafts))
      && (forall d | d in FlowToPlan(tasks) :: d in drafts)
      && forall d, name | d in drafts && d.key !in TaskKeys(tasks) && name in d.dependsOn :: name in DraftKeys(drafts)
    ensures ValidateAppendOnly(tasks, drafts).Ok? ==>
      forall d :: d in ValidateAppendOnly(tasks, drafts).value <==> d in drafts && d.key !in TaskKeys(tasks)
    ensures ValidateAppendOnly(tasks, drafts).Err? ==>
      AppendRefusedFor(tasks, drafts, ValidateAppendOnly(tasks, drafts).error)
  {
    hide Distinct, CheckKept, CheckDependencies, Additions, FlowToPlan;
    AdditionsAreNewKeys(drafts, TaskKeys(tasks));
    KnownIff(Additions(drafts, TaskKeys(tasks)), DraftKeys(drafts));
    UnknownRefused(Additions(drafts, TaskKeys(tasks)), DraftKeys(drafts));
    if Distinct(DraftKeys(drafts)) {
      KeptIff(FlowToPlan(tasks), drafts);
      if CheckKept(FlowToPlan(tasks), drafts).Err? {
        var i := FirstNotKept(FlowToPlan(tasks), drafts);
        assert FlowToPlan(tasks)[i] in FlowToPlan(tasks);
      }
    }
  }

  lemma RevisionParts(tasks: seq<Task>, plan: seq<TaskDraft>, suffix: nat)
    requires IsRevision(FlowToPlan(tasks), plan, suffix)
    ensures var base, last := FlowToPlan(tasks), plan[|tasks|];
      && plan == base + [last] && DraftKeys(base) == TaskKeys(tasks) && DraftKeys(plan) == TaskKeys(tasks) + [last.key]
      && last.key !in TaskKeys(tasks)
      && (forall d | d in base :: d.key in TaskKeys(tasks))
      && forall name | name in last.dependsOn :: name in DraftKeys(plan)
  {
    hide Leaves, DependedOn, ChangeKey, FlowToPlan;
    var base, last := FlowToPlan(tasks), plan[|tasks|];
    assert plan == base + [last];
    assert DraftKeys(base) == TaskKeys(tasks);
    assert DraftKeys(plan) == TaskKeys(tasks) + [last.key];
    forall d | d in base ensures d.key in TaskKeys(tasks) {
      var i :| 0 <= i < |base| && base[i] == d;
      assert TaskKeys(tasks)[i] == d.key;
    }
    LeavesAreKeys(base);
    forall name | name in last.dependsOn ensures name in DraftKeys(plan) {
      var k :| 0 <= k < |last.dependsOn| && last.dependsOn[k] == name;
      assert name in DraftKeys(base);
    }
  }

  /** The local planner's revision passes as an addition of one task iff the flow's keys are unique. */
  lemma LocalRevisionIsAppendOnly(tasks: seq<Task>, plan: seq<TaskDraft>, suffix: nat)
    requires IsRevision(FlowToPlan(tasks), plan, suffix)
    ensures ValidateAppendOnly(tasks, plan) ==
      if Distinct(TaskKeys(tasks)) then Ok([plan[|tasks|]]) else Err(Validation(DuplicateKeys))
  {
    hide Distinct, IsRevision, FlowToPlan, CheckKept, Additions, DraftKeys, TaskKeys;
    RevisionParts(tasks, plan, suffix);
    var base, last := FlowToPlan(tasks), plan[|tasks|];
    DistinctAppended(TaskKeys(tasks), last.key);
    if Distinct(TaskKeys(tasks)) {
      KeptIsKept(base, plan);
      NothingAdded(base, TaskKeys(tasks));
      AdditionsAppend(base, last, TaskKeys(tasks));
      assert Additions(plan, TaskKeys(tasks)) == [last];
      OneChecks(last, DraftKeys(plan));
    }
  }

  lemma OneChecks(d: TaskDraft, keys: seq<string>)
    requires forall name | name in d.dependsOn :: name in keys
    ensures CheckDependencies([d], keys).Ok?
  {
    assert [d][1..] == [];
  }

  // ------------------------------------------------------------------
  // When one task starts after all others, whatever the reschedule
  // ------------------------------------------------------------------

  ghost predicate IsOpen(tasks: seq<Task>, i: nat) {
    i < |tasks| && !tasks[i].status.IsTerminal()
  }

  /** Some task with work left depends on i. */
  ghost predicate HasOpenDependent(tasks: seq<Task>, g: Dependencies, i: nat) {
    exists j: nat :: IsOpen(tasks, j) && Edge(g, j, i)
  }

  /** Every other task with work left has a dependent with work left. */
  ghost predicate AllFeed(tasks: seq<Task>, g: Dependencies, n: nat) {
    forall i: nat | IsOpen(tasks, i) && i != n :: HasOpenDependent(tasks, g, i)
  }

  /** The same tasks and statuses with other efforts, owners, estimates or heartbeats. */
  ghost predicate SameShape(tasks: seq<Task>, tasks': seq<Task>) {
    && |tasks'| == |tasks|
    && forall i | 0 <= i < |tasks| ::
      tasks'[i].id == tasks[i].id && tasks'[i].dependsOn == tasks[i].dependsOn && tasks'[i].status == tasks[i].status
  }

  /** A flow of that shape as commands admit it: every effort is positive, and task n keeps its own. */
  ghost predicate IsVariant(tasks: seq<Task>, tasks': seq<Task>, n: nat) {
    && SameShape(tasks, tasks')
    && (forall i | 0 <= i < |tasks'| :: tasks'[i].estimate.effortHours > 0.0)
    && (n < |tasks| ==> tasks'[n].estimate.effortHours == tasks[n].estimate.effortHours)
  }

  /** If the reschedule succeeds, it starts task n no earlier than any other task's P80 finish. */
  ghost predicate StartsLast(tasks: seq<Task>, n: nat, staff: Staff, now: int) {
    GraphAccepted(TaskJobs(tasks, now)) && n < |tasks| && AllEstimated(FlowPlan(tasks, staff, now)) ==>
      var p := FlowPlan(tasks, staff, now);
      forall i: nat | i < |tasks| && i != n ::
        EstimateOf(p, i).value.p80Finish <= EstimateOf(p, n).value.earliestStart
  }

  ghost function GraphOf(tasks: seq<Task>): Dependencies
    requires GraphAccepted(TaskJobs(tasks, 0))
  {
    Resolve(Names(TaskJobs(tasks, 0)), DependencyNames(TaskJobs(tasks, 0)))
  }

  lemma ShapeKeepsGraph(tasks: seq<Task>, tasks': seq<Task>, staff: Staff, now: int)
    requires GraphAccepted(TaskJobs(tasks, 0)) && SameShape(tasks, tasks')
    ensures GraphAccepted(TaskJobs(tasks', now)) && FlowPlan(tasks', staff, now).graph == GraphOf(tasks)
    ensures Sound(FlowPlan(tasks', staff, now)) && |GraphOf(tasks)| == |tasks|
  {
    hide Acyclic, Resolve, Known;
    assert Names(TaskJobs(tasks', now)) == Names(TaskJobs(tasks, 0));
    assert DependencyNames(TaskJobs(tasks', now)) == DependencyNames(TaskJobs(tasks, 0));
  }

  lemma {:induction false} FeedingStartsEarlier(tasks: seq<Task>, n: nat, staff: Staff, now: int, i: nat)
    requires GraphAccepted(TaskJobs(tasks, now)) && AllEstimated(FlowPlan(tasks, staff, now))
    requires AllFeed(tasks, FlowPlan(tasks, staff, now).graph, n) && IsOpen(tasks, n) && i < |tasks| && i != n
    ensures var p := FlowPlan(tasks, staff, now);
      EstimateOf(p, i).value.p80Finish <= EstimateOf(p, n).value.earliestStart
    decreases |tasks| - Rank(FlowPlan(tasks, staff, now).graph, i)
  {
    hide EstimateOf, Finishes, Acyclic, Resolve, JobEstimate, Rank;
    var p := FlowPlan(tasks, staff, now);
    if tasks[i].status.IsTerminal() {
      TerminalNotAfterNow(tasks, staff, now, i);
      StartsAfterNow(p, n);
    } else {
      assert IsOpen(tasks, i);
      var j: nat :| IsOpen(tasks, j) && Edge(p.graph, j, i);
      StartsAfterDependencies(p, j, i);
      if j != n {
        RankFalls(p.graph, j, i);
        RankBounded(p.graph, j);
        FeedingStartsEarlier(tasks, n, staff, now, j);
        EstimateUnfolds(p, j);
        JobEstimateLaws(p.staff, p.jobs[j], DependencyStart(Finishes(p, j, |p.graph[j]|).value, p.now, p.clampToNow));
      }
    }
  }

  // ------------------------------------------------------------------
  // A stranded task outlasts the start of task n
  // ------------------------------------------------------------------

  const NOBODY := Staff(map[], map[])

  /** Four seconds of work, which round to none. */
  const LIGHT: real := 0.001

  /** Owned by teams, with an hour of effort for task i and four seconds for the others but n. */
  function Loaded(tasks: seq<Task>, i: nat, n: nat): (r: seq<Task>)
    ensures |r| == |tasks|
    ensures forall k | 0 <= k < |r| ::
      r[k] == OwnedByTeam(tasks[k], if k == n then tasks[k].estimate.effortHours else if k == i then 1.0 else LIGHT)
  {
    seq(|tasks|, k requires 0 <= k < |tasks| =>
      OwnedByTeam(tasks[k], if k == n then tasks[k].estimate.effortHours else if k == i then 1.0 else LIGHT))
  }

  function OwnedByTeam(t: Task, effortHours: real): Task {
    t.(assignment := Some(Assignment(Team, "")), estimate := t.estimate.(effortHours := effortHours))
  }

  /** Estimates of team tasks always succeed; a light task ends where it starts, one with an hour's effort later. */
  lemma TeamEstimate(job: Job, start: int)
    requires job.work.Todo? && job.work.assignment == Some(Assignment(Team, ""))
    ensures JobEstimate(NOBODY, job, start).Ok? && JobEstimate(NOBODY, job, start).value.earliestStart == start
    ensures job.work.effortHours == LIGHT ==> JobEstimate(NOBODY, job, start).value.p80Finish == start
    ensures job.work.effortHours == 1.0 ==> JobEstimate(NOBODY, job, start).value.p80Finish > start
  {
    var a, work := Assignment(Team, ""), job.work;
    var raw := RawHours(a, NOBODY, work.effortHours, |job.dependsOn|, work.requiresHuman);
    var p50Hours := RoundHours(raw);
    if work.effortHours == LIGHT {
      assert 0.0 <= raw < 0.002;
      assert p50Hours == 0.0;
    } else if work.effortHours == 1.0 {
      assert raw >= 1.0;
      RoundHoursMonotone(1.0, raw);
      RoundHoursMonotone(1.0, p50Hours * 1.4);
      HoursMsMonotone(1.0, RoundHours(p50Hours * 1.4));
    }
  }

  /** Team tasks from now on, all but i and n light. */
  ghost predicate IsLoaded(p: Plan, i: nat, n: nat) {
    && Sound(p) && p.staff == NOBODY && p.now == 0 && p.clampToNow
    && forall k | 0 <= k < |p.jobs| ::
      match p.jobs[k].work
      case Todo(_, assignment, effortHours, _) =>
        assignment == Some(Assignment(Team, "")) && (k != n ==> effortHours == if k == i then 1.0 else LIGHT)
      case Done(at, _) => at <= 0
  }

  lemma {:induction false} LoadedSucceeds(p: Plan, i: nat, n: nat, k: nat)
    requires IsLoaded(p, i, n) && k < |p.jobs|
    ensures EstimateOf(p, k).Ok? && Finishes(p, k, |p.graph[k]|).Ok?
    decreases Rank(p.graph, k)
  {
    hide Finishes, Acyclic, JobEstimate;
    forall j | 0 <= j < |p.graph[k]| ensures p.graph[k][j] < |p.jobs| && EstimateOf(p, p.graph[k][j]).Ok? {
      assert Edge(p.graph, k, p.graph[k][j]);
      RankFalls(p.graph, k, p.graph[k][j]);
      LoadedSucceeds(p, i, n, p.graph[k][j]);
    }
    FinishesAre(p, k, |p.graph[k]|);
    var start := DependencyStart(Finishes(p, k, |p.graph[k]|).value, p.now, p.clampToNow);
    if p.jobs[k].work.Todo? {
      TeamEstimate(p.jobs[k], start);
    } else {
      DoneSucceeds(p.jobs[k], start);
    }
  }

  lemma DoneSucceeds(job: Job, start: int)
    requires job.work.Done?
    ensures JobEstimate(NOBODY, job, start).Ok? && JobEstimate(NOBODY, job, start).value.p80Finish == job.work.at
  {
  }

  /** No task with work left depends on i. */
  ghost predicate IsStranded(p: Plan, i: nat) {
    i < |p.jobs| && p.jobs[i].work.Todo? && forall j: nat | j < |p.jobs| && p.jobs[j].work.Todo? :: !Edge(p.graph, j, i)
  }

  /** Task n and whatever stands before it starts now, and the latter also ends now. */
  lemma {:induction false} LightStartsNow(p: Plan, i: nat, n: nat, k: nat)
    requires IsLoaded(p, i, n) && IsStranded(p, i) && k < |p.jobs| && k != i
    requires k == n || (n < |p.jobs| && Rank(p.graph, k) < Rank(p.graph, n))
    ensures EstimateOf(p, k).Ok?
    ensures k != n ==> EstimateOf(p, k).value.p80Finish <= 0
    ensures p.jobs[k].work.Todo? ==> EstimateOf(p, k).value.earliestStart == 0
    decreases Rank(p.graph, k)
  {
    hide EstimateOf, Finishes, Acyclic, JobEstimate, Rank;
    LoadedSucceeds(p, i, n, k);
    EstimateUnfolds(p, k);
    var finishes := Finishes(p, k, |p.graph[k]|).value;
    var start := DependencyStart(finishes, p.now, p.clampToNow);
    if p.jobs[k].work.Todo? {
      FinishesAre(p, k, |p.graph[k]|);
      forall j | 0 <= j < |finishes| ensures finishes[j] <= 0 {
        assert Edge(p.graph, k, p.graph[k][j]);
        RankFalls(p.graph, k, p.graph[k][j]);
        LightStartsNow(p, i, n, p.graph[k][j]);
      }
      TeamEstimate(p.jobs[k], start);
    } else {
      DoneSucceeds(p.jobs[k], start);
    }
  }

  /** A stranded task ends after task n has started. */
  lemma StrandedOutlasts(p: Plan, i: nat, n: nat)
    requires IsLoaded(p, i, n) && IsStranded(p, i) && n < |p.jobs| && n != i && p.jobs[n].work.Todo?
    ensures EstimateOf(p, n).Ok? && EstimateOf(p, i).Ok?
    ensures EstimateOf(p, n).value.earliestStart < EstimateOf(p, i).value.p80Finish
  {
    hide EstimateOf, Finishes, Acyclic, JobEstimate;
    LightStartsNow(p, i, n, n);
    LoadedSucceeds(p, i, n, i);
    EstimateUnfolds(p, i);
    TeamEstimate(p.jobs[i], DependencyStart(Finishes(p, i, |p.graph[i]|).value, p.now, p.clampToNow));
  }

  lemma LoadedPlan(tasks: seq<Task>, i: nat, n: nat)
    requires GraphAccepted(TaskJobs(tasks, 0)) && IsOpen(tasks, i) && IsOpen(tasks, n)
    requires tasks[n].estimate.effortHours > 0.0
    ensures IsVariant(tasks, Loaded(tasks, i, n), n) && GraphAccepted(TaskJobs(Loaded(tasks, i, n), 0))
    ensures var p := FlowPlan(Loaded(tasks, i, n), NOBODY, 0);
      && IsLoaded(p, i, n) && p.graph == GraphOf(tasks) && |p.jobs| == |tasks|
      && forall k | 0 <= k < |tasks| :: p.jobs[k].work.Todo? <==> IsOpen(tasks, k)
  {
    hide Acyclic, Resolve, Known;
    ShapeKeepsGraph(tasks, Loaded(tasks, i, n), NOBODY, 0);
  }

  /**
   * Task n starts after all others in every reschedule of these tasks, whatever the positive
   * efforts of the others, the owners, calendars and time, iff every other task with work left
   * has a dependent with work left.
   */
  lemma StartsLastIffAllFeed(tasks: seq<Task>, n: nat)
    requires GraphAccepted(TaskJobs(tasks, 0)) && IsOpen(tasks, n) && tasks[n].estimate.effortHours > 0.0
    ensures AllFeed(tasks, GraphOf(tasks), n) <==>
      forall tasks', staff, now | IsVariant(tasks, tasks', n) :: StartsLast(tasks', n, staff, now)
  {
    hide AllEstimated, GraphAccepted, FlowPlan, GraphOf, EstimateOf, TaskJobs;
    if AllFeed(tasks, GraphOf(tasks), n) {
      forall tasks', staff, now | IsVariant(tasks, tasks', n) ensures StartsLast(tasks', n, staff, now) {
        FeedingStartsLast(tasks, tasks', n, staff, now);
      }
    } else {
      var i: nat :| IsOpen(tasks, i) && i != n && !HasOpenDependent(tasks, GraphOf(tasks), i);
      StrandedBreaks(tasks, n, i);
    }
  }

  lemma FeedingStartsLast(tasks: seq<Task>, tasks': seq<Task>, n: nat, staff: Staff, now: int)
    requires GraphAccepted(TaskJobs(tasks, 0)) && IsOpen(tasks, n)
    requires AllFeed(tasks, GraphOf(tasks), n) && SameShape(tasks, tasks')
    ensures StartsLast(tasks', n, staff, now)
  {
    hide EstimateOf, GraphOf, Resolve, Acyclic;
    ShapeKeepsGraph(tasks, tasks', staff, now);
    var p := FlowPlan(tasks', staff, now);
    if AllEstimated(p) {
      forall i: nat | IsOpen(tasks', i) && i != n ensures HasOpenDependent(tasks', p.graph, i) {
        assert IsOpen(tasks, i) && HasOpenDependent(tasks, GraphOf(tasks), i);
        var j: nat :| IsOpen(tasks, j) && Edge(GraphOf(tasks), j, i);
        assert IsOpen(tasks', j) && Edge(p.graph, j, i);
      }
      forall i: nat | i < |tasks'| && i != n
        ensures EstimateOf(p, i).value.p80Finish <= EstimateOf(p, n).value.earliestStart
      {
        FeedingStartsEarlier(tasks', n, staff, now, i);
      }
    }
  }

  lemma StrandedBreaks(tasks: seq<Task>, n: nat, i: nat)
    requires GraphAccepted(TaskJobs(tasks, 0)) && IsOpen(tasks, n) && IsOpen(tasks, i) && i != n
    requires !HasOpenDependent(tasks, GraphOf(tasks), i) && tasks[n].estimate.effortHours > 0.0
    ensures IsVariant(tasks, Loaded(tasks, i, n), n) && !StartsLast(Loaded(tasks, i, n), n, NOBODY, 0)
  {
    hide EstimateOf, GraphOf, Resolve, Acyclic, IsLoaded;
    LoadedPlan(tasks, i, n);
    var p := FlowPlan(Loaded(tasks, i, n), NOBODY, 0);
    forall j: nat | j < |p.jobs| && p.jobs[j].work.Todo? ensures !Edge(p.graph, j, i) {
      assert IsOpen(tasks, j);
    }
    forall k | 0 <= k < |p.jobs| ensures EstimateOf(p, k).Ok? {
      LoadedSucceeds(p, i, n, k);
    }
    StrandedOutlasts(p, i, n);
  }

  // ------------------------------------------------------------------
  // The previewed flow
  // ------------------------------------------------------------------

  /** The flow's tasks and the new one, its dependencies turned from keys into ids. */
  function Preview(tasks: seq<Task>, draft: TaskDraft, id: string, assignment: Assignment, now: int): (r: seq<Task>)
    requires forall k | 0 <= k < |draft.dependsOn| :: draft.dependsOn[k] in TaskKeys(tasks)
    ensures |r| == |tasks| + 1 && r[..|tasks|] == tasks
    ensures var t := r[|tasks|];
      && t.id == id && t.key == draft.key && t.title == draft.title && t.requiresHuman == draft.requiresHuman
      && t.status == Proposed && t.lastHeartbeat == None && |t.dependsOn| == |draft.dependsOn|
      && t.assignment == Some(assignment) && t.estimate.effortHours == draft.effortHours
      && forall k | 0 <= k < |t.dependsOn| ::
        t.dependsOn[k] == tasks[IndexByName(TaskKeys(tasks))[draft.dependsOn[k]]].id
  {
    var ids := IndexByName(TaskKeys(tasks));
    var dependsOn := seq(|draft.dependsOn|, k requires 0 <= k < |draft.dependsOn| => tasks[ids[draft.dependsOn[k]]].id);
    var estimate := Estimate(draft.effortHours, draft.effortHours, draft.effortHours * 1.4, now, now, now);
    var owner := Some(assignment);
    tasks + [Task(id, draft.key, draft.title, dependsOn, draft.requiresHuman, owner, estimate, Proposed, None)]
  }

  /** Ids and keys never name each other's tasks, as ids are fresh and keys are words of the plan. */
  ghost predicate IdsApart(tasks: seq<Task>) {
    forall i, j | 0 <= i < |tasks| && 0 <= j < |tasks| && tasks[i].id == tasks[j].key :: i == j
  }

  /** No task with work left has only terminal dependents. */
  ghost predicate NoneStranded(tasks: seq<Task>, g: Dependencies) {
    forall i: nat | IsOpen(tasks, i) && (exists j: nat :: Edge(g, j, i)) :: HasOpenDependent(tasks, g, i)
  }

  lemma {:induction false} FoundById(tasks: seq<Task>, i: nat)
    requires i < |tasks| && Distinct(TaskIds(tasks)) && IdsApart(tasks)
    ensures FindTask(tasks, tasks[i].id) == Some(tasks[i])
  {
    if i > 0 {
      assert TaskIds(tasks)[0] != TaskIds(tasks)[i];
      var rest := tasks[1..];
      assert TaskIds(rest) == TaskIds(tasks)[1..];
      assert forall k | 0 <= k < |rest| :: rest[k] == tasks[k + 1];
      FoundById(rest, i - 1);
    }
  }

  /** A name list turned into keys holds a task's key iff it held the task's id. */
  lemma {:induction false} KeysOfIds(tasks: seq<Task>, names: seq<string>, i: nat)
    requires UniqueIdsAndKeys(tasks) && i < |tasks| && forall name | name in names :: name in TaskIds(tasks)
    ensures tasks[i].key in DependencyKeys(tasks, names) <==> tasks[i].id in names
  {
    if names != [] {
      var rest := names[1..];
      assert names == [names[0]] + rest;
      assert names[0] in TaskIds(tasks);
      var j :| 0 <= j < |tasks| && TaskIds(tasks)[j] == names[0];
      FoundById(tasks, j);
      KeysOfIds(tasks, rest, i);
      assert TaskKeys(tasks)[i] == TaskKeys(tasks)[j] <==> i == j;
      assert TaskIds(tasks)[i] == TaskIds(tasks)[j] <==> i == j;
    }
  }

  ghost predicate UniqueIdsAndKeys(tasks: seq<Task>) {
    Distinct(TaskIds(tasks)) && Distinct(TaskKeys(tasks)) && IdsApart(tasks)
  }

  lemma EdgeIsName(tasks: seq<Task>, j: nat, i: nat)
    requires GraphAccepted(TaskJobs(tasks, 0)) && Distinct(TaskIds(tasks)) && i < |tasks| && j < |tasks|
    ensures |GraphOf(tasks)| == |tasks| && (Edge(GraphOf(tasks), j, i) <==> tasks[i].id in tasks[j].dependsOn)
  {
    hide Acyclic;
    var names, row := Names(TaskJobs(tasks, 0)), GraphOf(tasks)[j];
    assert names == TaskIds(tasks);
    assert DependencyNames(TaskJobs(tasks, 0))[j] == tasks[j].dependsOn;
    IndexOfDistinct(names, i);
    if tasks[i].id in tasks[j].dependsOn {
      var k :| 0 <= k < |tasks[j].dependsOn| && tasks[j].dependsOn[k] == tasks[i].id;
      assert row[k] == i;
    }
    if i in row {
      var k :| 0 <= k < |row| && row[k] == i;
      assert names[i] == tasks[j].dependsOn[k];
    }
  }

  /** A task is a leaf of the plan iff no task of the flow depends on it. */
  lemma LeafIffNoDependent(tasks: seq<Task>, i: nat)
    requires GraphAccepted(TaskJobs(tasks, 0)) && UniqueIdsAndKeys(tasks) && i < |tasks|
    ensures tasks[i].key in Leaves(FlowToPlan(tasks), DependedOn(FlowToPlan(tasks))) <==>
      forall j: nat :: !Edge(GraphOf(tasks), j, i)
  {
    hide Acyclic, GraphOf, Leaves, DependencyKeys;
    var base, g, key := FlowToPlan(tasks), GraphOf(tasks), tasks[i].key;
    forall j: nat | j < |tasks| ensures Edge(g, j, i) <==> key in base[j].dependsOn {
      EdgeIsName(tasks, j, i);
      forall name | name in tasks[j].dependsOn ensures name in TaskIds(tasks) {
        var k :| 0 <= k < |tasks[j].dependsOn| && tasks[j].dependsOn[k] == name;
        assert DependencyNames(TaskJobs(tasks, 0))[j][k] in Names(TaskJobs(tasks, 0));
        assert Names(TaskJobs(tasks, 0)) == TaskIds(tasks);
      }
      KeysOfIds(tasks, tasks[j].dependsOn, i);
    }
    if j: nat :| Edge(g, j, i) {
      EdgeIsName(tasks, i, i);
      assert Edge(g, j, i) && j < |tasks| && key in base[j].dependsOn;
      var k :| 0 <= k < |base[j].dependsOn| && base[j].dependsOn[k] == key;
      assert key in DependedOn(base);
    } else {
      assert key !in DependedOn(base);
      assert base[i].key == key;
    }
  }

  lemma PreviewNames(tasks: seq<Task>, preview: seq<Task>)
    requires |preview| == |tasks| + 1 && preview[..|tasks|] == tasks
    ensures Names(TaskJobs(tasks, 0)) == TaskIds(tasks)
    ensures Names(TaskJobs(preview, 0)) == TaskIds(tasks) + [preview[|tasks|].id]
    ensures DependencyNames(TaskJobs(preview, 0)) == DependencyNames(TaskJobs(tasks, 0)) + [preview[|tasks|].dependsOn]
  {
    hide TaskJobs, Names, DependencyNames, TaskIds;
    assert preview == tasks + [preview[|tasks|]];
  }

  lemma PreviewGraph(tasks: seq<Task>, preview: seq<Task>)
    requires GraphAccepted(TaskJobs(tasks, 0)) && Distinct(TaskIds(tasks))
    requires |preview| == |tasks| + 1 && preview[..|tasks|] == tasks && preview[|tasks|].id !in TaskIds(tasks)
    requires forall name | name in preview[|tasks|].dependsOn :: name in TaskIds(tasks)
    ensures GraphAccepted(TaskJobs(preview, 0)) && |GraphOf(preview)| == |tasks| + 1
    ensures forall i | 0 <= i < |tasks| :: GraphOf(preview)[i] == GraphOf(tasks)[i]
    ensures forall i: nat | i < |tasks| ::
      Edge(GraphOf(preview), |tasks|, i) <==> tasks[i].id in preview[|tasks|].dependsOn
    ensures forall j: nat :: !Edge(GraphOf(preview), j, |tasks|)
  {
    hide Acyclic, IndexByName, Resolve, ResolveOne, TaskJobs, Names, DependencyNames, TaskIds, Distinct, Known, Closed;
    var n, t := |tasks|, preview[|tasks|];
    var ids, dependsOn := TaskIds(tasks), DependencyNames(TaskJobs(tasks, 0));
    PreviewNames(tasks, preview);
    forall k | 0 <= k < |t.dependsOn| ensures t.dependsOn[k] in ids {
      assert t.dependsOn[k] in t.dependsOn;
    }
    ResolveAppended(ids, dependsOn, t.id, t.dependsOn);
    var g, g' := GraphOf(tasks), Resolve(ids + [t.id], dependsOn + [t.dependsOn]);
    AppendedEdges(g, g');
    SameCycles(g, g');
    forall i: nat | i < n ensures Edge(g', n, i) <==> ids[i] in t.dependsOn {
      RowNames(ids, t.dependsOn, g'[n], i);
    }
  }

  lemma AppendedEdges(g: Dependencies, g': Dependencies)
    requires Closed(g) && |g'| == |g| + 1 && forall i | 0 <= i < |g| :: g'[i] == g[i]
    requires forall k | 0 <= k < |g'[|g|]| :: g'[|g|][k] < |g|
    ensures forall i: nat, d: nat | Edge(g', i, d) :: d < |g|
  {
    forall i: nat, d: nat | Edge(g', i, d) ensures d < |g| {
      assert i < |g| ==> Edge(g, i, d);
    }
  }

  lemma RowNames(ids: seq<string>, names: seq<string>, row: seq<nat>, i: nat)
    requires Distinct(ids) && i < |ids| && |row| == |names|
    requires forall k | 0 <= k < |row| :: row[k] < |ids| && ids[row[k]] == names[k]
    ensures i in row <==> ids[i] in names
  {
    if ids[i] in names {
      var k :| 0 <= k < |names| && names[k] == ids[i];
      assert row[k] == i;
    }
  }

  /** The preview of a local revision, as a flow for `reschedule`. */
  ghost predicate IsPreview(tasks: seq<Task>, plan: seq<TaskDraft>, suffix: nat, preview: seq<Task>) {
    && IsRevision(FlowToPlan(tasks), plan, suffix)
    && (forall k | 0 <= k < |plan[|tasks|].dependsOn| :: plan[|tasks|].dependsOn[k] in TaskKeys(tasks))
    && exists id, assignment, now ::
      id !in TaskIds(tasks) && preview == Preview(tasks, plan[|tasks|], id, assignment, now)
  }

  lemma PreviewDependsOnLeaves(tasks: seq<Task>, plan: seq<TaskDraft>, suffix: nat, preview: seq<Task>)
    requires UniqueIdsAndKeys(tasks) && IsPreview(tasks, plan, suffix, preview)
    ensures |preview| == |tasks| + 1 && preview[..|tasks|] == tasks && preview[|tasks|].id !in TaskIds(tasks)
    ensures IsOpen(preview, |tasks|) && preview[|tasks|].estimate.effortHours == 8.0
    ensures forall name | name in preview[|tasks|].dependsOn :: name in TaskIds(tasks)
    ensures forall i | 0 <= i < |tasks| ::
      tasks[i].id in preview[|tasks|].dependsOn <==>
      tasks[i].key in Leaves(FlowToPlan(tasks), DependedOn(FlowToPlan(tasks)))
  {
    hide Leaves, DependedOn, FlowToPlan, ChangeKey, IdsApart, Preview, IndexByName, TaskIds, TaskKeys,
      DraftKeys, Distinct;
    IdsOfKeys(tasks, plan[|tasks|].dependsOn, preview[|tasks|].dependsOn);
  }

  /** Turning keys into ids and back loses nothing. */
  lemma IdsOfKeys(tasks: seq<Task>, keys: seq<string>, ids: seq<string>)
    requires Distinct(TaskIds(tasks)) && Distinct(TaskKeys(tasks)) && |ids| == |keys|
    requires forall k | 0 <= k < |keys| ::
      keys[k] in TaskKeys(tasks) && ids[k] == tasks[IndexByName(TaskKeys(tasks))[keys[k]]].id
    ensures forall name | name in ids :: name in TaskIds(tasks)
    ensures forall i | 0 <= i < |tasks| :: tasks[i].id in ids <==> tasks[i].key in keys
  {
    hide IndexByName, TaskIds, TaskKeys, Distinct;
    var byKey := IndexByName(TaskKeys(tasks));
    forall name | name in ids ensures name in TaskIds(tasks) {
      var k :| 0 <= k < |ids| && ids[k] == name;
      assert TaskIds(tasks)[byKey[keys[k]]] == name;
    }
    forall i | 0 <= i < |tasks| ensures tasks[i].id in ids <==> tasks[i].key in keys {
      IndexOfDistinct(TaskKeys(tasks), i);
      if tasks[i].key in keys {
        var k :| 0 <= k < |keys| && keys[k] == tasks[i].key;
        assert ids[k] == tasks[i].id;
      }
      if tasks[i].id in ids {
        var k :| 0 <= k < |ids| && ids[k] == tasks[i].id;
        SameIndex(TaskIds(tasks), byKey[keys[k]], i);
      }
    }
  }

  lemma SameIndex(s: seq<string>, i: nat, j: nat)
    requires Distinct(s) && i < |s| && j < |s| && s[i] == s[j]
    ensures i == j
  {
  }

  lemma FeedsIffNoneStranded(tasks: seq<Task>, plan: seq<TaskDraft>, suffix: nat, preview: seq<Task>)
    requires GraphAccepted(TaskJobs(tasks, 0)) && UniqueIdsAndKeys(tasks) && IsPreview(tasks, plan, suffix, preview)
    ensures GraphAccepted(TaskJobs(preview, 0)) && IsOpen(preview, |tasks|)
    ensures AllFeed(preview, GraphOf(preview), |tasks|) <==> NoneStranded(tasks, GraphOf(tasks))
  {
    hide GraphAccepted, GraphOf, UniqueIdsAndKeys, IsPreview, Leaves, DependedOn, FlowToPlan, TaskJobs, TaskIds,
      Edge, IsOpen, Distinct, Known, Resolve, Names, DependencyNames;
    var n := |tasks|;
    DistinctIdsOf(tasks);
    GraphLength(tasks);
    PreviewDependsOnLeaves(tasks, plan, suffix, preview);
    PreviewGraph(tasks, preview);
    var g, g' := GraphOf(tasks), GraphOf(preview);
    forall i: nat | i < n ensures Edge(g', n, i) <==> forall j: nat :: !Edge(g, j, i) {
      LeafIffNoDependent(tasks, i);
    }
    PreviewFeeds(tasks, preview, g, g');
  }

  lemma PreviewFeeds(tasks: seq<Task>, preview: seq<Task>, g: Dependencies, g': Dependencies)
    requires |g| == |tasks| && |g'| == |preview| == |tasks| + 1
    requires preview[..|tasks|] == tasks && IsOpen(preview, |tasks|)
    requires forall i | 0 <= i < |tasks| :: g'[i] == g[i]
    requires forall i: nat | i < |tasks| :: Edge(g', |tasks|, i) <==> forall j: nat :: !Edge(g, j, i)
    ensures AllFeed(preview, g', |tasks|) <==> NoneStranded(tasks, g)
  {
    var n := |tasks|;
    forall j: nat | j < n ensures IsOpen(preview, j) <==> IsOpen(tasks, j) {
      assert preview[j] == preview[..n][j];
    }
    forall i: nat | i < n
      ensures HasOpenDependent(preview, g', i) <==>
        HasOpenDependent(tasks, g, i) || forall j: nat :: !Edge(g, j, i)
    {
      forall j: nat | j < n ensures Edge(g', j, i) <==> Edge(g, j, i) {
      }
      if HasOpenDependent(tasks, g, i) {
        var j: nat :| IsOpen(tasks, j) && Edge(g, j, i);
        assert IsOpen(preview, j) && Edge(g', j, i);
      }
      if forall j: nat :: !Edge(g, j, i) {
        assert IsOpen(preview, n) && Edge(g', n, i);
      }
    }
  }

  lemma DistinctIdsOf(tasks: seq<Task>)
    requires UniqueIdsAndKeys(tasks)
    ensures Distinct(TaskIds(tasks))
  {
  }

  lemma GraphLength(tasks: seq<Task>)
    requires GraphAccepted(TaskJobs(tasks, 0))
    ensures |GraphOf(tasks)| == |tasks|
  {
    hide Acyclic;
  }

  /**
   * The new task of a local revision starts after every old task in all reschedules of the
   * previewed flow, whatever the positive efforts of the old tasks, the owners, calendars and
   * time, iff no old task with work left has only terminal dependents.
   */
  lemma NewTaskStartsLastIffNoneStranded(tasks: seq<Task>, plan: seq<TaskDraft>, suffix: nat, preview: seq<Task>)
    requires GraphAccepted(TaskJobs(tasks, 0)) && UniqueIdsAndKeys(tasks) && IsPreview(tasks, plan, suffix, preview)
    ensures NoneStranded(tasks, GraphOf(tasks)) <==>
      forall tasks', staff, now | IsVariant(preview, tasks', |tasks|) :: StartsLast(tasks', |tasks|, staff, now)
  {
    hide GraphAccepted, GraphOf, UniqueIdsAndKeys, IsPreview, AllFeed, NoneStranded, IsVariant, StartsLast, Leaves,
      DependedOn, FlowToPlan;
    PreviewDependsOnLeaves(tasks, plan, suffix, preview);
    FeedsIffNoneStranded(tasks, plan, suffix, preview);
    StartsLastIffAllFeed(preview, |tasks|);
  }

  // ------------------------------------------------------------------
  // A flow that fails
  // ------------------------------------------------------------------

  /** The local revision of a plan without a task called change-1. */
  function FirstRevision(base: seq<TaskDraft>): seq<TaskDraft> {
    base + [TaskDraft(ChangeKey(1), "", Leaves(base, DependedOn(base)), 8.0, false)]
  }

  /** Task a is at work for an hour; task b depends on it and was rejected. */
  function RejectedFlow(): seq<Task> {
    var team := Some(Assignment(Team, ""));
    var estimate := Estimate(1.0, 1.0, 1.4, 0, 0, 0);
    [Task("1", "a", "", [], false, team, estimate, InProgress, None),
     Task("2", "b", "", ["1"], false, team, estimate.(effortHours := LIGHT), TaskStatus.Rejected, None)]
  }

  /** The preview of a change to that flow starts the new task while the old one is at work. */
  lemma RejectedTaskStrands()
    ensures var tasks, plan := RejectedFlow(), FirstRevision(FlowToPlan(RejectedFlow()));
      exists preview: seq<Task> :: IsPreview(tasks, plan, 1, preview) && !StartsLast(preview, 2, NOBODY, 0)
  {
    hide GraphAccepted, GraphOf, StartsLast, TaskJobs, IsPreview, NoneStranded, UniqueIdsAndKeys, FlowToPlan, Leaves,
      DependedOn, Preview, FirstRevision, IsVariant;
    var tasks, plan := RejectedFlow(), FirstRevision(FlowToPlan(RejectedFlow()));
    var preview := RejectedPreview();
    RejectedGraph();
    FeedsIffNoneStranded(tasks, plan, 1, preview);
    PreviewDependsOnLeaves(tasks, plan, 1, preview);
    var i: nat :| IsOpen(preview, i) && i != 2 && !HasOpenDependent(preview, GraphOf(preview), i);
    assert preview[i] == preview[..2][i];
    StrandedBreaks(preview, 2, i);
    assert Loaded(preview, 0, 2) == preview by {
      assert preview[0] == preview[..2][0] && preview[1] == preview[..2][1];
    }
  }

  /** The preview itself, with the new task owned by a team. */
  lemma RejectedPreview() returns (preview: seq<Task>)
    ensures IsPreview(RejectedFlow(), FirstRevision(FlowToPlan(RejectedFlow())), 1, preview)
    ensures |preview| == 3 && preview[2].assignment == Some(Assignment(Team, ""))
  {
    hide FlowToPlan, Leaves, DependedOn, Preview, TaskIds, TaskKeys, DraftKeys;
    var tasks, base := RejectedFlow(), FlowToPlan(RejectedFlow());
    var plan := FirstRevision(base);
    assert |base| == 2 && base[0].key == "a" && base[1].key == "b";
    assert |ChangeKey(1)| > 1;
    assert DraftKeys(base)[0] == "a" && DraftKeys(base)[1] == "b";
    assert IsRevision(base, plan, 1);
    LeavesAreKeys(base);
    assert DraftKeys(base) == TaskKeys(tasks);
    assert plan[2].dependsOn == Leaves(base, DependedOn(base));
    assert "3" !in TaskIds(tasks) by {
      assert TaskIds(tasks)[0] == "1" && TaskIds(tasks)[1] == "2";
    }
    preview := Preview(tasks, plan[2], "3", Assignment(Team, ""), 0);
  }

  lemma RejectedGraph()
    ensures GraphAccepted(TaskJobs(RejectedFlow(), 0)) && UniqueIdsAndKeys(RejectedFlow())
    ensures !NoneStranded(RejectedFlow(), GraphOf(RejectedFlow()))
  {
    hide Resolve, Acyclic, IndexByName;
    var tasks := RejectedFlow();
    var names, dependsOn := Names(TaskJobs(tasks, 0)), DependencyNames(TaskJobs(tasks, 0));
    assert names == ["1", "2"] && dependsOn == [[], ["1"]];
    TwoNamesGraph();
    assert UniqueIdsAndKeys(tasks) by {
      assert TaskIds(tasks) == ["1", "2"] && TaskKeys(tasks) == ["a", "b"];
    }
    var g := GraphOf(tasks);
    assert g == [[], [0]];
    assert Edge(g, 1, 0) && IsOpen(tasks, 0);
    forall j: nat | Edge(g, j, 0) ensures j == 1 {
      assert g[0] == [];
    }
    assert !HasOpenDependent(tasks, g, 0);
  }

  lemma TwoNamesGraph()
    ensures var names, dependsOn: seq<seq<string>> := ["1", "2"], [[], ["1"]];
      Known(names, dependsOn) && Resolve(names, dependsOn) == [[], [0]] && Acyclic(Resolve(names, dependsOn))
  {
    hide Acyclic, IndexByName, Resolve;
    var names, dependsOn: seq<seq<string>> := ["1", "2"], [[], ["1"]];
    assert names[0] == "1" && names[1] == "2";
    IndexOfDistinct(names, 0);
    var g := Resolve(names, dependsOn);
    assert g[0] == [] && g[1] == [0];
    var order: seq<nat> := [0, 1];
    assert order[..0] == [] && order[..1] == [0];
    assert IsOrder(g, order);
    OrderedIsAcyclic(g, order);
  }
}
