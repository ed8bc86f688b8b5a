/**
 * `schedule` and `reschedule` of `src/application/scheduler.rs`: the graph phase, then one
 * pass in processing order over maps keyed by task name. Both passes are the same code in
 * the source; they differ in what names a task (key or id), in terminal tasks and in the
 * clamp to now, which the `Plan` carries.
 */
module Scheduler {
  import opened Wrappers
  import opened Errors
  import opened Domain
  import opened Graph
  import opened Kahn
  import opened Estimates
  import opened EstimateMeaning

  function Names(jobs: seq<Job>): (names: seq<string>)
    ensures |names| == |jobs| && forall i | 0 <= i < |jobs| :: names[i] == jobs[i].name
  {
    seq(|jobs|, i requires 0 <= i < |jobs| => jobs[i].name)
  }

  function Keys(jobs: seq<Job>): (keys: seq<string>)
    ensures |keys| == |jobs| && forall i | 0 <= i < |jobs| :: keys[i] == jobs[i].key
  {
    seq(|jobs|, i requires 0 <= i < |jobs| => jobs[i].key)
  }

  function DependencyNames(jobs: seq<Job>): (names: seq<seq<string>>)
    ensures |names| == |jobs| && forall i | 0 <= i < |jobs| :: names[i] == jobs[i].dependsOn
  {
    seq(|jobs|, i requires 0 <= i < |jobs| => jobs[i].dependsOn)
  }

  /** Every dependency names a task, and the graph is the resolution of those names. */
  ghost predicate Resolved(p: Plan) {
    && Known(Names(p.jobs), DependencyNames(p.jobs))
    && p.graph == Resolve(Names(p.jobs), DependencyNames(p.jobs))
  }

  // ------------------------------------------------------------------
  // The pass over the maps
  // ------------------------------------------------------------------

  /** The estimates found for the given names; names without an estimate are dropped. */
  function Collect(estimates: map<string, Estimate>, names: seq<string>): seq<Estimate> {
    if names == [] then []
    else (if names[0] in estimates then [estimates[names[0]]] else []) + Collect(estimates, names[1..])
  }

  function P50Finishes(estimates: seq<Estimate>): (r: seq<int>)
    ensures |r| == |estimates| && forall i | 0 <= i < |r| :: r[i] == estimates[i].p50Finish
  {
    seq(|estimates|, i requires 0 <= i < |estimates| => estimates[i].p50Finish)
  }

  function P80Finishes(estimates: seq<Estimate>): (r: seq<int>)
    ensures |r| == |estimates| && forall i | 0 <= i < |r| :: r[i] == estimates[i].p80Finish
  {
    seq(|estimates|, i requires 0 <= i < |estimates| => estimates[i].p80Finish)
  }

  /** The critical paths found for the given names. */
  function CollectPaths(estimates: map<string, Estimate>, paths: map<string, seq<string>>,
                        names: seq<string>): seq<(int, seq<string>)> {
    if names == [] then []
    else
      (if names[0] in estimates && names[0] in paths then [(estimates[names[0]].p80Finish, paths[names[0]])] else [])
      + CollectPaths(estimates, paths, names[1..])
  }

  function Firsts<A, B>(pairs: seq<(A, B)>): (r: seq<A>)
    ensures |r| == |pairs| && forall i | 0 <= i < |r| :: r[i] == pairs[i].0
  {
    seq(|pairs|, i requires 0 <= i < |pairs| => pairs[i].0)
  }

  /** The path of the last latest candidate, or the empty path. */
  function LatestPath(candidates: seq<(int, seq<string>)>): seq<string> {
    if candidates == [] then [] else candidates[LastMax(Firsts(candidates))].1
  }

  lemma {:induction false} NothingDropped(estimates: map<string, Estimate>, paths: map<string, seq<string>>,
                                          names: seq<string>)
    requires forall name | name in names :: name in estimates && name in paths
    ensures |Collect(estimates, names)| == |CollectPaths(estimates, paths, names)| == |names|
    ensures forall k | 0 <= k < |names| :: Collect(estimates, names)[k] == estimates[names[k]]
    ensures forall k | 0 <= k < |names| ::
      CollectPaths(estimates, paths, names)[k] == (estimates[names[k]].p80Finish, paths[names[k]])
  {
    if names != [] {
      assert names == [names[0]] + names[1..];
      NothingDropped(estimates, paths, names[1..]);
    }
  }

  ghost function ChainKeys(p: Plan, chain: seq<nat>): (keys: seq<string>)
    requires forall k | 0 <= k < |chain| :: chain[k] < |p.jobs|
    ensures |keys| == |chain| && forall k | 0 <= k < |chain| :: keys[k] == p.jobs[chain[k]].key
  {
    seq(|chain|, k requires 0 <= k < |chain| => p.jobs[chain[k]].key)
  }

  ghost function CriticalKeys(p: Plan, i: nat): seq<string>
    requires Sound(p) && i < |p.jobs| && EstimateOf(p, i).Ok?
  {
    CriticalChainInside(p, i);
    ChainKeys(p, CriticalChain(p, i))
  }

  lemma {:induction false} CriticalChainInside(p: Plan, i: nat)
    requires Sound(p) && i < |p.jobs| && EstimateOf(p, i).Ok?
    ensures forall k | 0 <= k < |CriticalChain(p, i)| :: CriticalChain(p, i)[k] < |p.jobs|
    decreases Rank(p.graph, i)
  {
    if p.graph[i] != [] {
      FinishesAre(p, i, |p.graph[i]|);
      var d := p.graph[i][LastMax(Finishes(p, i, |p.graph[i]|).value)];
      assert Edge(p.graph, i, d);
      RankFalls(p.graph, i, d);
      CriticalChainInside(p, d);
    }
  }

  /** The maps hold exactly what the order-free definition says of the tasks done so far. */
  ghost predicate Agrees(p: Plan, done: seq<nat>, estimates: map<string, Estimate>, paths: map<string, seq<string>>)
    requires Sound(p) && forall i | i in done :: i < |p.jobs|
  {
    forall i | i in done ::
      && p.jobs[i].name in estimates && p.jobs[i].name in paths
      && EstimateOf(p, i) == Ok(estimates[p.jobs[i].name])
      && paths[p.jobs[i].name] == CriticalKeys(p, i)
  }

  /** The maps hold the order-free estimate and the critical path of every task. */
  ghost predicate AllAgree(p: Plan, estimates: map<string, Estimate>, paths: map<string, seq<string>>)
    requires Sound(p)
  {
    && AllEstimated(p)
    && forall i | 0 <= i < |p.jobs| ::
      && p.jobs[i].name in estimates && estimates[p.jobs[i].name] == EstimateOf(p, i).value
      && p.jobs[i].name in paths && paths[p.jobs[i].name] == CriticalKeys(p, i)
  }

  ghost predicate Covers(p: Plan, done: seq<nat>, names: set<string>)
    requires forall i | i in done :: i < |p.jobs|
  {
    forall name :: name in names <==> exists i :: i in done && p.jobs[i].name == name
  }

  lemma NothingDone(p: Plan)
    requires Sound(p)
    ensures Covers(p, [], {}) && Agrees(p, [], map[], map[])
  {
  }

  /** Every dependency of the task at hand was estimated before, so no map lookup is dropped. */
  lemma DependencyDone(p: Plan, order: seq<nat>, k: nat, j: nat)
    requires Sound(p) && Resolved(p) && IsOrder(p.graph, order) && k < |order|
    requires j < |p.jobs[order[k]].dependsOn|
    ensures |p.graph[order[k]]| == |p.jobs[order[k]].dependsOn|
    ensures var d := p.graph[order[k]][j];
      d < |p.jobs| && d in order[..k] && p.jobs[d].name == p.jobs[order[k]].dependsOn[j]
  {
    var d := p.graph[order[k]][j];
    assert Edge(p.graph, order[k], d);
    DependenciesPrecede(p.graph, order, k, d);
    assert order[..k][IndexOf(order, d)] == d;
    assert Names(p.jobs)[d] == DependencyNames(p.jobs)[order[k]][j];
  }

  /** The finishes and paths looked up for a task are those of the order-free definition. */
  lemma LookupsAgree(p: Plan, order: seq<nat>, k: nat, estimates: map<string, Estimate>,
                     paths: map<string, seq<string>>)
    requires Sound(p) && Resolved(p) && IsOrder(p.graph, order) && k < |order|
    requires Agrees(p, order[..k], estimates, paths)
    ensures var i, names := order[k], p.jobs[order[k]].dependsOn;
      && Finishes(p, i, |p.graph[i]|) == Ok(P80Finishes(Collect(estimates, names)))
      && |CollectPaths(estimates, paths, names)| == |names| == |p.graph[i]|
      && forall j | 0 <= j < |names| ::
        var d := p.graph[i][j];
        && d < |p.jobs| && EstimateOf(p, d).Ok?
        && CollectPaths(estimates, paths, names)[j] == (EstimateOf(p, d).value.p80Finish, CriticalKeys(p, d))
  {
    hide EstimateOf, CriticalKeys, Finishes, Resolved, Acyclic, Closed;
    var i, names := order[k], p.jobs[order[k]].dependsOn;
    assert |p.graph[i]| == |names| by {
      assert Resolved(p);
      ResolvedLength(p, i);
    }
    forall j | 0 <= j < |names|
      ensures var d := p.graph[i][j];
        && d < |p.jobs| && p.jobs[d].name == names[j]
        && names[j] in estimates && names[j] in paths
        && EstimateOf(p, d) == Ok(estimates[names[j]]) && paths[names[j]] == CriticalKeys(p, d)
    {
      DependencyDone(p, order, k, j);
    }
    FinishesAre(p, i, |p.graph[i]|);
    NothingDropped(estimates, paths, names);
    assert P80Finishes(Collect(estimates, names)) == Finishes(p, i, |p.graph[i]|).value;
  }

  lemma ResolvedLength(p: Plan, i: nat)
    requires Resolved(p) && i < |p.jobs|
    ensures |p.graph| == |p.jobs| && |p.graph[i]| == |p.jobs[i].dependsOn|
  {
  }

  lemma CriticalKeysGrow(p: Plan, i: nat)
    requires Sound(p) && i < |p.jobs| && EstimateOf(p, i).Ok?
    ensures p.graph[i] == [] ==> CriticalKeys(p, i) == [p.jobs[i].key]
    ensures p.graph[i] != [] ==>
      var d := p.graph[i][LastMax(Finishes(p, i, |p.graph[i]|).value)];
      && d < |p.jobs| && EstimateOf(p, d).Ok?
      && CriticalKeys(p, i) == CriticalKeys(p, d) + [p.jobs[i].key]
  {
    hide EstimateOf, Finishes, Acyclic;
    EstimateUnfolds(p, i);
    CriticalChainInside(p, i);
    FinishesAre(p, i, |p.graph[i]|);
    if p.graph[i] != [] {
      var d := p.graph[i][LastMax(Finishes(p, i, |p.graph[i]|).value)];
      CriticalChainInside(p, d);
      assert ChainKeys(p, CriticalChain(p, d) + [i]) == ChainKeys(p, CriticalChain(p, d)) + [p.jobs[i].key];
    }
  }

  lemma TaskAgrees(p: Plan, order: seq<nat>, k: nat, estimates: map<string, Estimate>, paths: map<string, seq<string>>)
    requires Sound(p) && Resolved(p) && IsOrder(p.graph, order) && k < |order|
    requires Agrees(p, order[..k], estimates, paths)
    ensures var job := p.jobs[order[k]];
      && JobEstimate(p.staff, job,
                     DependencyStart(P80Finishes(Collect(estimates, job.dependsOn)), p.now, p.clampToNow))
         == EstimateOf(p, order[k])
      && (EstimateOf(p, order[k]).Ok? ==>
           LatestPath(CollectPaths(estimates, paths, job.dependsOn)) + [job.key] == CriticalKeys(p, order[k]))
  {
    hide JobEstimate, Finishes, Collect, CollectPaths, EstimateOf, CriticalKeys, LatestPath, Resolved, Agrees,
      Acyclic, Closed;
    LookupsAgree(p, order, k, estimates, paths);
    EstimateFollows(p, order[k], P80Finishes(Collect(estimates, p.jobs[order[k]].dependsOn)));
    if EstimateOf(p, order[k]).Ok? {
      PathFollows(p, order[k], CollectPaths(estimates, paths, p.jobs[order[k]].dependsOn));
    }
  }

  lemma EstimateFollows(p: Plan, i: nat, finishes: seq<int>)
    requires Sound(p) && i < |p.jobs| && Finishes(p, i, |p.graph[i]|) == Ok(finishes)
    ensures JobEstimate(p.staff, p.jobs[i], DependencyStart(finishes, p.now, p.clampToNow)) == EstimateOf(p, i)
  {
    hide JobEstimate, Finishes;
  }

  lemma PathFollows(p: Plan, i: nat, candidates: seq<(int, seq<string>)>)
    requires Sound(p) && i < |p.jobs| && EstimateOf(p, i).Ok?
    requires |candidates| == |p.graph[i]|
    requires forall j | 0 <= j < |candidates| ::
      var d := p.graph[i][j];
      d < |p.jobs| && EstimateOf(p, d).Ok? && candidates[j] == (EstimateOf(p, d).value.p80Finish, CriticalKeys(p, d))
    ensures LatestPath(candidates) + [p.jobs[i].key] == CriticalKeys(p, i)
  {
    hide EstimateOf, Finishes, CriticalKeys, Acyclic;
    EstimateUnfolds(p, i);
    CriticalKeysGrow(p, i);
    FinishesAre(p, i, |p.graph[i]|);
    if candidates != [] {
      assert Firsts(candidates) == Finishes(p, i, |p.graph[i]|).value;
    }
  }

  lemma TaskDone(p: Plan, order: seq<nat>, k: nat, estimates: map<string, Estimate>, paths: map<string, seq<string>>,
                 estimate: Estimate, path: seq<string>)
    requires Sound(p) && Distinct(Names(p.jobs)) && IsOrder(p.graph, order) && k < |order|
    requires Agrees(p, order[..k], estimates, paths)
    requires EstimateOf(p, order[k]) == Ok(estimate) && path == CriticalKeys(p, order[k])
    ensures var name := p.jobs[order[k]].name;
      Agrees(p, order[..k + 1], estimates[name := estimate], paths[name := path])
  {
    hide EstimateOf, CriticalKeys;
    forall i | i in order[..k + 1] && i != order[k] ensures i in order[..k] && p.jobs[i].name != p.jobs[order[k]].name {
      assert Names(p.jobs)[i] != Names(p.jobs)[order[k]];
    }
  }

  lemma CoversOneMore(p: Plan, order: seq<nat>, k: nat, names: set<string>)
    requires Sound(p) && IsOrder(p.graph, order) && k < |order|
    requires Covers(p, order[..k], names)
    ensures Covers(p, order[..k + 1], names + {p.jobs[order[k]].name})
  {
    assert order[..k + 1] == order[..k] + [order[k]];
  }

  lemma AllDone(p: Plan, order: seq<nat>, estimates: map<string, Estimate>, paths: map<string, seq<string>>)
    requires Sound(p) && IsOrder(p.graph, order)
    requires Covers(p, order, estimates.Keys)
    ensures estimates.Keys == Elements(Names(p.jobs))
    ensures Agrees(p, order, estimates, paths) ==> AllAgree(p, estimates, paths)
  {
    hide EstimateOf, CriticalKeys;
    DistinctIndices(order, |p.graph|);
    forall name | name in Elements(Names(p.jobs)) ensures name in estimates {
      var i: nat :| i < |p.jobs| && Names(p.jobs)[i] == name;
      assert i in order && p.jobs[i].name == name;
    }
    forall name | name in estimates ensures name in Elements(Names(p.jobs)) {
      var i :| i in order && p.jobs[i].name == name;
      assert Names(p.jobs)[i] == name;
    }
  }

  /** Some task cannot be estimated, from some start. */
  ghost predicate SomeJobFails(jobs: seq<Job>, staff: Staff, error: RelayError) {
    exists i: nat, start :: i < |jobs| && JobEstimate(staff, jobs[i], start) == Err(error)
  }

  method Propagate(p: Plan, order: seq<nat>)
    returns (r: Result<map<string, Estimate>, RelayError>, paths: map<string, seq<string>>)
    requires Sound(p) && Resolved(p) && IsOrder(p.graph, order)
    ensures r.Ok? ==> r.value.Keys == paths.Keys == Elements(Names(p.jobs))
    ensures Distinct(Names(p.jobs)) ==>
      (r.Ok? <==> AllEstimated(p)) && (r.Ok? ==> AllAgree(p, r.value, paths))
    ensures Distinct(Names(p.jobs)) && r.Err? ==> exists i | 0 <= i < |p.jobs| :: EstimateOf(p, i) == Err(r.error)
    ensures r.Err? ==> SomeJobFails(p.jobs, p.staff, r.error)
  {
    hide Agrees, Covers, EstimateOf, CriticalKeys, JobEstimate, Acyclic, Closed, Resolved, LatestPath, Collect,
      CollectPaths, Distinct;
    var estimates: map<string, Estimate> := map[];
    paths := map[];
    NothingDone(p);
    assert order[..0] == [] && estimates.Keys == {};
    for k := 0 to |order|
      invariant Covers(p, order[..k], estimates.Keys) && paths.Keys == estimates.Keys
      invariant Distinct(Names(p.jobs)) ==> Agrees(p, order[..k], estimates, paths)
    {
      var index := order[k];
      var job := p.jobs[index];
      var start := DependencyStart(P80Finishes(Collect(estimates, job.dependsOn)), p.now, p.clampToNow);
      var estimate := JobEstimate(p.staff, job, start);
      if Distinct(Names(p.jobs)) {
        TaskAgrees(p, order, k, estimates, paths);
      }
      if estimate.Err? {
        assert SomeJobFails(p.jobs, p.staff, estimate.error);
        return Err(estimate.error), paths;
      }
      var path := LatestPath(CollectPaths(estimates, paths, job.dependsOn)) + [job.key];
      if Distinct(Names(p.jobs)) {
        TaskDone(p, order, k, estimates, paths, estimate.value, path);
      }
      CoversOneMore(p, order, k, estimates.Keys);
      assert estimates[job.name := estimate.value].Keys == estimates.Keys + {job.name};
      paths := paths[job.name := path];
      estimates := estimates[job.name := estimate.value];
    }
    assert order[..|order|] == order;
    AllDone(p, order, estimates, paths);
    return Ok(estimates), paths;
  }

  // ------------------------------------------------------------------
  // schedule
  // ------------------------------------------------------------------

  datatype Schedule = Schedule(tasks: seq<Task>, p50Finish: int, p80Finish: int, criticalPath: seq<string>)

  function DraftJobs(drafts: seq<TaskDraft>, assignments: map<string, Assignment>): (jobs: seq<Job>)
    ensures |jobs| == |drafts|
    ensures forall i | 0 <= i < |jobs| :: jobs[i].name == jobs[i].key == drafts[i].key
    ensures forall i | 0 <= i < |jobs| :: jobs[i].dependsOn == drafts[i].dependsOn && jobs[i].work.Todo?
  {
    seq(|drafts|, i requires 0 <= i < |drafts| =>
      var d := drafts[i];
      var assignment := if d.key in assignments then Some(assignments[d.key]) else None;
      Job(d.key, d.key, d.dependsOn, Todo(d.title, assignment, d.effortHours, d.requiresHuman)))
  }

  function PlanOf(jobs: seq<Job>, staff: Staff, now: int, clampToNow: bool): Plan
    requires Known(Names(jobs), DependencyNames(jobs))
  {
    Plan(jobs, Resolve(Names(jobs), DependencyNames(jobs)), staff, now, clampToNow)
  }

  /** The graph of the jobs passes the graph phase. */
  ghost predicate GraphAccepted(jobs: seq<Job>) {
    Known(Names(jobs), DependencyNames(jobs)) && Acyclic(Resolve(Names(jobs), DependencyNames(jobs)))
  }

  function DraftPlan(drafts: seq<TaskDraft>, assignments: map<string, Assignment>, staff: Staff, now: int): Plan
    requires Known(Names(DraftJobs(drafts, assignments)), DependencyNames(DraftJobs(drafts, assignments)))
  {
    PlanOf(DraftJobs(drafts, assignments), staff, now, false)
  }

  /** The estimates of all tasks, by index. */
  ghost function AllEstimates(p: Plan): (r: seq<Estimate>)
    requires Sound(p) && AllEstimated(p)
    ensures |r| == |p.jobs| && forall i | 0 <= i < |r| :: r[i] == EstimateOf(p, i).value
  {
    seq(|p.jobs|, i requires 0 <= i < |p.jobs| => EstimateOf(p, i).value)
  }

  function TaskEstimates(tasks: seq<Task>): (r: seq<Estimate>)
    ensures |r| == |tasks| && forall i | 0 <= i < |r| :: r[i] == tasks[i].estimate
  {
    seq(|tasks|, i requires 0 <= i < |tasks| => tasks[i].estimate)
  }

  /** The tasks of a schedule: the drafts in their order, with fresh ids for keys. */
  ghost predicate TasksOf(drafts: seq<TaskDraft>, assignments: map<string, Assignment>, ids: seq<string>,
                          tasks: seq<Task>) {
    && |tasks| == |drafts| == |ids|
    && forall i | 0 <= i < |drafts| ::
      var t, d := tasks[i], drafts[i];
      && t.id == ids[i] && t.key == d.key && t.title == d.title && t.requiresHuman == d.requiresHuman
      && t.status == Proposed && t.lastHeartbeat == None
      && t.assignment == (if d.key in assignments then Some(assignments[d.key]) else None)
      && |t.dependsOn| == |d.dependsOn|
      && forall k | 0 <= k < |d.dependsOn| ::
        exists j | 0 <= j < |drafts| :: drafts[j].key == d.dependsOn[k] && t.dependsOn[k] == ids[j]
  }

  /** A schedule that holds the order-free estimates, their latest finishes and the critical path to the last latest. */
  ghost predicate Carries(p: Plan, s: Schedule)
    requires Sound(p) && AllEstimated(p)
  {
    && p.jobs != []
    && TaskEstimates(s.tasks) == AllEstimates(p)
    && s.p50Finish == Latest(P50Finishes(AllEstimates(p)), p.now)
    && s.p80Finish == Latest(P80Finishes(AllEstimates(p)), p.now)
    && s.criticalPath == CriticalKeys(p, LastMax(P80Finishes(AllEstimates(p))))
  }

  lemma PassCarries(p: Plan, tasks: seq<Task>, estimates: map<string, Estimate>, paths: map<string, seq<string>>)
    requires Sound(p) && |tasks| == |p.jobs| > 0 && AllAgree(p, estimates, paths)
    requires forall i | 0 <= i < |p.jobs| ::
      tasks[i].key == p.jobs[i].name && tasks[i].estimate == estimates[tasks[i].key]
    ensures var found := TaskEstimates(tasks);
      var key := tasks[LastMax(P80Finishes(found))].key;
      && key in paths
      && Carries(p, Schedule(tasks, Latest(P50Finishes(found), p.now), Latest(P80Finishes(found), p.now), paths[key]))
  {
    hide EstimateOf, CriticalKeys, LastMax, Latest;
    assert TaskEstimates(tasks) == AllEstimates(p);
    var last := LastMax(P80Finishes(TaskEstimates(tasks)));
    assert tasks[last].key == p.jobs[last].name;
  }

  // ------------------------------------------------------------------
  // What a schedule says, in terms of its drafts
  // ------------------------------------------------------------------

  /** Dependency k of task i is the task of that name. */
  lemma DependencyByName(p: Plan, i: nat, k: nat)
    requires Sound(p) && Resolved(p) && i < |p.jobs| && k < |p.jobs[i].dependsOn|
    ensures |p.graph[i]| == |p.jobs[i].dependsOn|
    ensures var d := p.graph[i][k]; d < |p.jobs| && Edge(p.graph, i, d) && p.jobs[d].name == p.jobs[i].dependsOn[k]
  {
    hide Acyclic;
    assert DependencyNames(p.jobs)[i] == p.jobs[i].dependsOn;
    var d := p.graph[i][k];
    assert Edge(p.graph, i, d);
    assert Names(p.jobs)[d] == p.jobs[i].dependsOn[k];
  }

  lemma LatestByName(p: Plan, i: nat, latest: int)
    requires Sound(p) && AllEstimated(p) && Resolved(p) && Distinct(Names(p.jobs)) && i < |p.jobs|
    requires IsLatestBefore(p, i, latest)
    ensures IsLatestNamed(Names(p.jobs), p.jobs[i].dependsOn, AllEstimates(p), p.now, latest)
  {
    hide EstimateOf, Acyclic, Resolved;
    var names, dependsOn := Names(p.jobs), p.jobs[i].dependsOn;
    ResolvedLength(p, i);
    forall j | 0 <= j < |names| && names[j] in dependsOn ensures AllEstimates(p)[j].p80Finish <= latest {
      var k :| 0 <= k < |dependsOn| && dependsOn[k] == names[j];
      DependencyByName(p, i, k);
      assert names[p.graph[i][k]] == names[j];
    }
    if dependsOn != [] {
      var d: nat :| Edge(p.graph, i, d) && EstimateOf(p, d).value.p80Finish == latest;
      var k :| 0 <= k < |p.graph[i]| && p.graph[i][k] == d;
      DependencyByName(p, i, k);
      assert AllEstimates(p)[d].p80Finish == latest && names[d] in dependsOn;
    }
  }

  /** Draft i is assigned, and its task is rightly estimated from when the drafts it names have ended. */
  ghost predicate DraftEstimated(drafts: seq<TaskDraft>, assignments: map<string, Assignment>, staff: Staff, now: int,
                                 tasks: seq<Task>, i: nat)
    requires i < |drafts| == |tasks|
  {
    var d := drafts[i];
    && d.key in assignments
    && exists base ::
      && IsLatestNamed(TaskKeys(tasks), d.dependsOn, TaskEstimates(tasks), now, base)
      && IsRight(assignments[d.key], staff, d.effortHours, |d.dependsOn|, d.requiresHuman, base, tasks[i].estimate)
  }

  /** The schedule estimates every draft rightly, and it ends with its last task. */
  ghost predicate ScheduleFits(drafts: seq<TaskDraft>, assignments: map<string, Assignment>, staff: Staff, now: int,
                               s: Schedule) {
    && |s.tasks| == |drafts|
    && (forall i | 0 <= i < |drafts| :: DraftEstimated(drafts, assignments, staff, now, s.tasks, i))
    && (forall t | t in s.tasks :: t.estimate.p50Finish <= s.p50Finish && t.estimate.p80Finish <= s.p80Finish)
    && (exists t :: t in s.tasks && t.estimate.p50Finish == s.p50Finish)
    && (exists t :: t in s.tasks && t.estimate.p80Finish == s.p80Finish)
  }

  lemma DraftIsEstimated(drafts: seq<TaskDraft>, assignments: map<string, Assignment>, staff: Staff, now: int,
                         ids: seq<string>, tasks: seq<Task>, i: nat)
    requires TasksOf(drafts, assignments, ids, tasks) && i < |drafts|
    requires var jobs := DraftJobs(drafts, assignments); Distinct(Names(jobs)) && GraphAccepted(jobs)
    requires var p := DraftPlan(drafts, assignments, staff, now);
      AllEstimated(p) && TaskEstimates(tasks) == AllEstimates(p)
    ensures DraftEstimated(drafts, assignments, staff, now, tasks, i)
  {
    hide EstimateOf, Acyclic, IsRight, IsLatestBefore, IsLatestNamed, Distinct, Resolve;
    var p := DraftPlan(drafts, assignments, staff, now);
    var base := EstimateIsRight(p, i);
    LatestByName(p, i, base);
    assert Names(p.jobs) == TaskKeys(tasks);
    assert TaskEstimates(tasks)[i] == EstimateOf(p, i).value;
    assert p.jobs[i].dependsOn == drafts[i].dependsOn;
    assert IsLatestNamed(TaskKeys(tasks), drafts[i].dependsOn, TaskEstimates(tasks), now, base);
  }

  lemma ScheduleIsFit(drafts: seq<TaskDraft>, assignments: map<string, Assignment>, staff: Staff, now: int,
                      ids: seq<string>, s: Schedule)
    requires TasksOf(drafts, assignments, ids, s.tasks)
    requires var jobs := DraftJobs(drafts, assignments); Distinct(Names(jobs)) && GraphAccepted(jobs)
    requires var p := DraftPlan(drafts, assignments, staff, now); AllEstimated(p) && Carries(p, s)
    ensures ScheduleFits(drafts, assignments, staff, now, s)
  {
    hide EstimateOf, Acyclic, Resolve, DraftEstimated, TasksOf, CriticalKeys, Distinct, DraftJobs;
    assert |s.tasks| == |drafts| by {
      assert TasksOf(drafts, assignments, ids, s.tasks);
    }
    forall i | 0 <= i < |drafts| ensures DraftEstimated(drafts, assignments, staff, now, s.tasks, i) {
      DraftIsEstimated(drafts, assignments, staff, now, ids, s.tasks, i);
    }
    LatestOfTasks(s.tasks, now);
  }

  /** The latest finishes of some tasks are finishes of theirs, and none is later. */
  lemma LatestOfTasks(tasks: seq<Task>, now: int)
    requires tasks != []
    ensures var p50Finish := Latest(P50Finishes(TaskEstimates(tasks)), now);
      (forall t | t in tasks :: t.estimate.p50Finish <= p50Finish)
      && exists t :: t in tasks && t.estimate.p50Finish == p50Finish
    ensures var p80Finish := Latest(P80Finishes(TaskEstimates(tasks)), now);
      (forall t | t in tasks :: t.estimate.p80Finish <= p80Finish)
      && exists t :: t in tasks && t.estimate.p80Finish == p80Finish
  {
    hide Latest;
    var p50, p80 := P50Finishes(TaskEstimates(tasks)), P80Finishes(TaskEstimates(tasks));
    forall t | t in tasks
      ensures t.estimate.p50Finish <= Latest(p50, now) && t.estimate.p80Finish <= Latest(p80, now)
    {
      var i :| 0 <= i < |tasks| && tasks[i] == t;
      assert p50[i] in p50 && p80[i] in p80;
    }
    var i :| 0 <= i < |p50| && p50[i] == Latest(p50, now);
    var j :| 0 <= j < |p80| && p80[j] == Latest(p80, now);
    assert tasks[i] in tasks && tasks[j] in tasks;
  }

  /** What the pass leaves, put together. */
  lemma PassFits(drafts: seq<TaskDraft>, assignments: map<string, Assignment>, staff: Staff, now: int,
                 ids: seq<string>, tasks: seq<Task>, estimates: map<string, Estimate>, paths: map<string, seq<string>>)
    requires drafts != [] && |tasks| == |drafts| && TasksOf(drafts, assignments, ids, tasks)
    requires var jobs := DraftJobs(drafts, assignments); Distinct(Names(jobs)) && GraphAccepted(jobs)
    requires AllAgree(DraftPlan(drafts, assignments, staff, now), estimates, paths)
    requires forall i | 0 <= i < |drafts| ::
      tasks[i].key == drafts[i].key && drafts[i].key in estimates && tasks[i].estimate == estimates[drafts[i].key]
    ensures var finishes := P80Finishes(TaskEstimates(tasks));
      && tasks != [] && tasks[LastMax(finishes)].key in paths
      && var s := Schedule(tasks, Latest(P50Finishes(TaskEstimates(tasks)), now), Latest(finishes, now),
                           paths[tasks[LastMax(finishes)].key]);
         Carries(DraftPlan(drafts, assignments, staff, now), s) && ScheduleFits(drafts, assignments, staff, now, s)
  {
    hide EstimateOf, CriticalKeys, LastMax, Latest, Acyclic, Resolve, TasksOf, Distinct, DraftJobs, Carries,
      ScheduleFits, TaskEstimates, P50Finishes, P80Finishes;
    var p := DraftPlan(drafts, assignments, staff, now);
    PassCarries(p, tasks, estimates, paths);
    var finishes := P80Finishes(TaskEstimates(tasks));
    ScheduleIsFit(drafts, assignments, staff, now, ids,
                  Schedule(tasks, Latest(P50Finishes(TaskEstimates(tasks)), now), Latest(finishes, now),
                           paths[tasks[LastMax(finishes)].key]));
  }

  method ComputeSchedule(drafts: seq<TaskDraft>, assignments: map<string, Assignment>, staff: Staff, now: int,
                         ids: seq<string>)
    returns (r: Result<Schedule, RelayError>)
    requires |ids| == |drafts|
    ensures var jobs := DraftJobs(drafts, assignments);
      r.Ok? <==>
      && drafts != [] && Distinct(Names(jobs)) && GraphAccepted(jobs)
      && AllEstimated(DraftPlan(drafts, assignments, staff, now))
    ensures r.Ok? ==>
      && TasksOf(drafts, assignments, ids, r.value.tasks)
      && Carries(DraftPlan(drafts, assignments, staff, now), r.value)
    ensures r.Ok? ==> ScheduleFits(drafts, assignments, staff, now, r.value)
    ensures r.Err? ==> ScheduleRefused(drafts, assignments, staff, now, r.error)
  {
    hide Carries, EstimateOf, CriticalKeys, Acyclic, IsOrder, LastMax, Latest, IndexByName, Resolve,
      BuildTasks, TasksOf, Distinct, Refused, AllEstimates, Closed, ResolveOne, Buildable, Known, Names, Keys,
      DependencyNames, DraftJobs, TaskEstimates, P50Finishes, P80Finishes, ScheduleFits, AllAgree;
    if drafts == [] {
      return Err(Validation(EmptyPlan));
    }
    var jobs := DraftJobs(drafts, assignments);
    var byKey := IndexByName(Names(jobs));
    DistinctCardinality(Names(jobs));
    assert byKey.Keys == Elements(Names(jobs));
    if |byKey| != |drafts| {
      return Err(Validation(DuplicateKeys));
    }
    var ordered := TopologicalOrder(Names(jobs), Keys(jobs), DependencyNames(jobs));
    if ordered.Err? {
      return Err(ordered.error);
    }
    var p := DraftPlan(drafts, assignments, staff, now);
    var estimates, paths := Propagate(p, ordered.value);
    if estimates.Err? {
      return Err(estimates.error);
    }
    AcceptedIsBuildable(drafts, assignments, estimates.value.Keys);
    var tasks := BuildTasks(drafts, assignments, ids, byKey, estimates.value);
    PassFits(drafts, assignments, staff, now, ids, tasks, estimates.value, paths);
    var finishes := P80Finishes(TaskEstimates(tasks));
    var critical := paths[tasks[LastMax(finishes)].key];
    return Ok(Schedule(tasks, Latest(P50Finishes(TaskEstimates(tasks)), now), Latest(finishes, now), critical));
  }

  /** Every lookup that building the tasks makes succeeds. */
  ghost predicate Buildable(drafts: seq<TaskDraft>, byKey: map<string, nat>, estimated: set<string>) {
    && (forall i | 0 <= i < |drafts| :: drafts[i].key in estimated)
    && (forall i, k | 0 <= i < |drafts| && 0 <= k < |drafts[i].dependsOn| :: drafts[i].dependsOn[k] in byKey)
    && (forall name | name in byKey :: byKey[name] < |drafts| && drafts[byKey[name]].key == name)
  }

  lemma AcceptedIsBuildable(drafts: seq<TaskDraft>, assignments: map<string, Assignment>, estimated: set<string>)
    requires var jobs := DraftJobs(drafts, assignments);
      Known(Names(jobs), DependencyNames(jobs)) && estimated == Elements(Names(jobs))
    ensures Buildable(drafts, IndexByName(Names(DraftJobs(drafts, assignments))), estimated)
  {
    var jobs := DraftJobs(drafts, assignments);
    forall i | 0 <= i < |drafts| ensures drafts[i].key in estimated {
      assert Names(jobs)[i] in Names(jobs);
    }
    forall i, k | 0 <= i < |drafts| && 0 <= k < |drafts[i].dependsOn|
      ensures drafts[i].dependsOn[k] in IndexByName(Names(jobs))
    {
      assert DependencyNames(jobs)[i][k] in Names(jobs);
    }
  }

  function BuildTasks(drafts: seq<TaskDraft>, assignments: map<string, Assignment>, ids: seq<string>,
                      byKey: map<string, nat>, estimates: map<string, Estimate>): (tasks: seq<Task>)
    requires |ids| == |drafts|
    requires Buildable(drafts, byKey, estimates.Keys)
    ensures |tasks| == |drafts| && TasksOf(drafts, assignments, ids, tasks)
    ensures forall i | 0 <= i < |drafts| ::
      tasks[i].key == drafts[i].key && tasks[i].estimate == estimates[drafts[i].key]
  {
    seq(|drafts|, i requires 0 <= i < |drafts| =>
      var d := drafts[i];
      var dependsOn := seq(|d.dependsOn|, k requires 0 <= k < |d.dependsOn| => ids[byKey[d.dependsOn[k]]]);
      var assignment := if d.key in assignments then Some(assignments[d.key]) else None;
      Task(ids[i], d.key, d.title, dependsOn, d.requiresHuman, assignment, estimates[d.key], Proposed, None))
  }

  /** What each refusal of `schedule` says. */
  ghost predicate ScheduleRefused(drafts: seq<TaskDraft>, assignments: map<string, Assignment>, staff: Staff,
                                  now: int, error: RelayError) {
    var jobs := DraftJobs(drafts, assignments);
    if drafts == [] then error == Validation(EmptyPlan)
    else if !Distinct(Names(jobs)) then error == Validation(DuplicateKeys)
    else if !GraphAccepted(jobs) then
      error.Validation? && Refused(Names(jobs), Keys(jobs), DependencyNames(jobs), error)
    else
      var p := DraftPlan(drafts, assignments, staff, now);
      exists i | 0 <= i < |p.jobs| :: EstimateOf(p, i) == Err(error)
  }

  // ------------------------------------------------------------------
  // reschedule
  // ------------------------------------------------------------------

  datatype Reschedule = Reschedule(
    taskEstimates: map<string, Estimate>,
    p50Finish: int,
    p80Finish: int,
    criticalPath: seq<string>
  )

  function TaskJob(t: Task, now: int): Job {
    var work :=
      if t.status.IsTerminal() then
        Done(Min(if t.lastHeartbeat.Some? then t.lastHeartbeat.value else now, now), t.estimate)
      else
        Todo(t.title, t.assignment, t.estimate.effortHours, t.requiresHuman);
    Job(t.id, t.key, t.dependsOn, work)
  }

  function TaskJobs(tasks: seq<Task>, now: int): (jobs: seq<Job>)
    ensures |jobs| == |tasks| && forall i | 0 <= i < |jobs| :: jobs[i] == TaskJob(tasks[i], now)
  {
    seq(|tasks|, i requires 0 <= i < |tasks| => TaskJob(tasks[i], now))
  }

  function FlowPlan(tasks: seq<Task>, staff: Staff, now: int): Plan
    requires Known(Names(TaskJobs(tasks, now)), DependencyNames(TaskJobs(tasks, now)))
  {
    PlanOf(TaskJobs(tasks, now), staff, now, true)
  }

  /** The ids of the tasks with work left, in order. */
  function OpenIds(tasks: seq<Task>): seq<string> {
    if tasks == [] then []
    else
      var last := |tasks| - 1;
      OpenIds(tasks[..last]) + if tasks[last].status.IsTerminal() then [] else [tasks[last].id]
  }

  /** What each refusal of `reschedule` says; with repeated ids the failing start is not the order-free one. */
  ghost predicate RescheduleRefused(tasks: seq<Task>, staff: Staff, now: int, error: RelayError) {
    var jobs := TaskJobs(tasks, now);
    if tasks == [] then error == Validation(EmptyPlan)
    else if !GraphAccepted(jobs) then
      error.Validation? && Refused(Names(jobs), Keys(jobs), DependencyNames(jobs), error)
    else
      && SomeJobFails(jobs, staff, error)
      && (Distinct(TaskIds(tasks)) ==>
           exists i | 0 <= i < |tasks| :: EstimateOf(FlowPlan(tasks, staff, now), i) == Err(error))
  }

  method ComputeReschedule(flow: Flow, staff: Staff, now: int) returns (r: Result<Reschedule, RelayError>)
    ensures r.Ok? ==> flow.tasks != [] && GraphAccepted(TaskJobs(flow.tasks, now))
    ensures r.Ok? ==> r.value.taskEstimates.Keys == Elements(TaskIds(flow.tasks))
    ensures Distinct(TaskIds(flow.tasks)) ==>
      (r.Ok? <==> flow.tasks != [] && GraphAccepted(TaskJobs(flow.tasks, now))
                  && AllEstimated(FlowPlan(flow.tasks, staff, now)))
    ensures Distinct(TaskIds(flow.tasks)) && r.Ok? ==>
      Revises(FlowPlan(flow.tasks, staff, now), flow.tasks, r.value)
    ensures r.Err? ==> RescheduleRefused(flow.tasks, staff, now, r.error)
  {
    hide Revises, EstimateOf, CriticalKeys, Acyclic, IsOrder, LastMax, Latest, Resolve, Distinct, Refused, Closed,
      SomeJobFails;
    if flow.tasks == [] {
      return Err(Validation(EmptyPlan));
    }
    var jobs := TaskJobs(flow.tasks, now);
    assert Names(jobs) == TaskIds(flow.tasks);
    var ordered := TopologicalOrder(Names(jobs), Keys(jobs), DependencyNames(jobs));
    if ordered.Err? {
      return Err(ordered.error);
    }
    var p := FlowPlan(flow.tasks, staff, now);
    var estimates, paths := Propagate(p, ordered.value);
    if estimates.Err? {
      return Err(estimates.error);
    }
    var open := OpenIds(flow.tasks);
    var found := Collect(estimates.value, open);
    if Distinct(Names(jobs)) {
      PassRevises(p, flow.tasks, estimates.value, paths);
    }
    return Ok(Reschedule(estimates.value, Latest(P50Finishes(found), now), Latest(P80Finishes(found), now),
                         LatestPath(CollectPaths(estimates.value, paths, open))));
  }

  /** Where the open tasks stand in the list. */
  ghost function OpenIndices(tasks: seq<Task>): (r: seq<nat>)
    ensures |r| == |OpenIds(tasks)|
    ensures forall k | 0 <= k < |r| ::
      r[k] < |tasks| && !tasks[r[k]].status.IsTerminal() && tasks[r[k]].id == OpenIds(tasks)[k]
  {
    if tasks == [] then []
    else
      var last := |tasks| - 1;
      OpenIndices(tasks[..last]) + if tasks[last].status.IsTerminal() then [] else [last]
  }

  lemma {:induction false} OpenIndicesComplete(tasks: seq<Task>, i: nat)
    requires i < |tasks| && !tasks[i].status.IsTerminal()
    ensures i in OpenIndices(tasks)
  {
    if i < |tasks| - 1 {
      OpenIndicesComplete(tasks[..|tasks| - 1], i);
    }
  }

  /** The order-free estimates of the open tasks. */
  ghost function OpenEstimates(p: Plan, tasks: seq<Task>): (r: seq<Estimate>)
    requires Sound(p) && AllEstimated(p) && |tasks| == |p.jobs|
    ensures |r| == |OpenIndices(tasks)|
    ensures forall k | 0 <= k < |r| :: r[k] == EstimateOf(p, OpenIndices(tasks)[k]).value
  {
    var open := OpenIndices(tasks);
    seq(|open|, k requires 0 <= k < |open| => EstimateOf(p, open[k]).value)
  }

  /** A revision with the order-free estimates under the task ids; finishes and path look at open tasks only. */
  ghost predicate Revises(p: Plan, tasks: seq<Task>, r: Reschedule)
    requires Sound(p) && AllEstimated(p) && |tasks| == |p.jobs|
  {
    && (forall i | 0 <= i < |tasks| ::
         tasks[i].id in r.taskEstimates && r.taskEstimates[tasks[i].id] == EstimateOf(p, i).value)
    && r.p50Finish == Latest(P50Finishes(OpenEstimates(p, tasks)), p.now)
    && r.p80Finish == Latest(P80Finishes(OpenEstimates(p, tasks)), p.now)
    && r.criticalPath ==
       if OpenIndices(tasks) == [] then []
       else CriticalKeys(p, OpenIndices(tasks)[LastMax(P80Finishes(OpenEstimates(p, tasks)))])
  }

  lemma PassRevises(p: Plan, tasks: seq<Task>, estimates: map<string, Estimate>, paths: map<string, seq<string>>)
    requires Sound(p) && p.jobs == TaskJobs(tasks, p.now) && AllAgree(p, estimates, paths)
    ensures var open := OpenIds(tasks);
      var found := Collect(estimates, open);
      Revises(p, tasks, Reschedule(estimates, Latest(P50Finishes(found), p.now), Latest(P80Finishes(found), p.now),
                                   LatestPath(CollectPaths(estimates, paths, open))))
  {
    hide EstimateOf, CriticalKeys, LastMax, Latest, OpenIds, Collect, CollectPaths, Acyclic;
    var open, indices := OpenIds(tasks), OpenIndices(tasks);
    forall k | 0 <= k < |open| ensures open[k] in estimates && open[k] in paths {
      assert p.jobs[indices[k]].name == open[k];
    }
    NothingDropped(estimates, paths, open);
    forall k | 0 <= k < |open|
      ensures Collect(estimates, open)[k] == EstimateOf(p, indices[k]).value
      ensures CollectPaths(estimates, paths, open)[k]
        == (EstimateOf(p, indices[k]).value.p80Finish, CriticalKeys(p, indices[k]))
    {
      assert p.jobs[indices[k]].name == open[k];
    }
    assert Collect(estimates, open) == OpenEstimates(p, tasks);
    assert Firsts(CollectPaths(estimates, paths, open)) == P80Finishes(OpenEstimates(p, tasks));
  }

  // ------------------------------------------------------------------
  // What a revision says, in terms of the flow's tasks
  // ------------------------------------------------------------------

  predicate HasWorkLeft(t: Task) {
    t.status !in {Completed, Rejected, Cancelled}
  }

  /**
   * Task i is rightly estimated. With work left, from when the tasks it names have ended, but not
   * before now; otherwise its hours stay, and it ended at its last heartbeat or now, the earlier.
   */
  ghost predicate TaskEstimated(tasks: seq<Task>, staff: Staff, now: int, estimates: seq<Estimate>, i: nat)
    requires i < |tasks| == |estimates|
  {
    var t, e := tasks[i], estimates[i];
    if HasWorkLeft(t) then
      && t.assignment.Some?
      && exists latest ::
        && IsLatestNamed(TaskIds(tasks), t.dependsOn, estimates, now, latest)
        && IsRight(t.assignment.value, staff, t.estimate.effortHours, |t.dependsOn|, t.requiresHuman,
                   if latest < now then now else latest, e)
    else
      var at := if t.lastHeartbeat.Some? && t.lastHeartbeat.value < now then t.lastHeartbeat.value else now;
      e == t.estimate.(earliestStart := at, p50Finish := at, p80Finish := at)
  }

  /** The work that is left ends with its last task, now if there is none. */
  ghost predicate EndsWithWork(tasks: seq<Task>, estimates: seq<Estimate>, now: int, p50Finish: int, p80Finish: int)
    requires |tasks| == |estimates|
  {
    && (forall i | 0 <= i < |tasks| && HasWorkLeft(tasks[i]) ::
         estimates[i].p50Finish <= p50Finish && estimates[i].p80Finish <= p80Finish)
    && ((exists i | 0 <= i < |tasks| :: HasWorkLeft(tasks[i]) && estimates[i].p50Finish == p50Finish)
        || (p50Finish == now && forall t | t in tasks :: !HasWorkLeft(t)))
    && ((exists i | 0 <= i < |tasks| :: HasWorkLeft(tasks[i]) && estimates[i].p80Finish == p80Finish)
        || (p80Finish == now && forall t | t in tasks :: !HasWorkLeft(t)))
  }

  /** The critical chain to the last of the tasks with work left that end at p80Finish; empty if there are none. */
  ghost predicate IsCriticalPath(p: Plan, tasks: seq<Task>, p80Finish: int, path: seq<string>)
    requires Sound(p) && AllEstimated(p) && |tasks| == |p.jobs|
  {
    if forall t | t in tasks :: !HasWorkLeft(t) then path == []
    else exists i: nat :: EndsWork(p, tasks, p80Finish, i) && path == CriticalKeys(p, i)
  }

  ghost predicate EndsWork(p: Plan, tasks: seq<Task>, p80Finish: int, i: nat)
    requires Sound(p) && AllEstimated(p) && |tasks| == |p.jobs|
  {
    && i < |tasks| && HasWorkLeft(tasks[i]) && EstimateOf(p, i).value.p80Finish == p80Finish
    && forall j | i < j < |tasks| && HasWorkLeft(tasks[j]) :: EstimateOf(p, j).value.p80Finish < p80Finish
  }

  lemma TaskIsEstimated(tasks: seq<Task>, staff: Staff, now: int, i: nat)
    requires GraphAccepted(TaskJobs(tasks, now)) && AllEstimated(FlowPlan(tasks, staff, now))
    requires Distinct(TaskIds(tasks)) && i < |tasks|
    ensures TaskEstimated(tasks, staff, now, AllEstimates(FlowPlan(tasks, staff, now)), i)
  {
    hide EstimateOf, Acyclic, IsRight, IsLatestBefore, IsLatestNamed, Distinct, Resolve;
    var p := FlowPlan(tasks, staff, now);
    var latest := EstimateIsRight(p, i);
    assert Names(p.jobs) == TaskIds(tasks);
    LatestByName(p, i, latest);
    assert p.jobs[i].dependsOn == tasks[i].dependsOn;
    assert IsLatestNamed(TaskIds(tasks), tasks[i].dependsOn, AllEstimates(p), now, latest);
  }

  lemma OpenIffWorkLeft(tasks: seq<Task>, i: nat)
    requires i < |tasks|
    ensures i in OpenIndices(tasks) <==> HasWorkLeft(tasks[i])
  {
    if HasWorkLeft(tasks[i]) {
      OpenIndicesComplete(tasks, i);
    }
  }

  lemma NothingOpen(tasks: seq<Task>)
    requires OpenIndices(tasks) == []
    ensures forall t | t in tasks :: !HasWorkLeft(t)
  {
    forall t | t in tasks ensures !HasWorkLeft(t) {
      var i :| 0 <= i < |tasks| && tasks[i] == t;
      OpenIffWorkLeft(tasks, i);
    }
  }

  lemma RevisionEndsWithWork(p: Plan, tasks: seq<Task>, r: Reschedule)
    requires Sound(p) && AllEstimated(p) && |tasks| == |p.jobs| && Revises(p, tasks, r)
    ensures EndsWithWork(tasks, AllEstimates(p), p.now, r.p50Finish, r.p80Finish)
  {
    hide EstimateOf, Acyclic, OpenIndices, OpenIds, Latest, LastMax, CriticalKeys;
    var open := OpenIndices(tasks);
    var p50, p80 := P50Finishes(OpenEstimates(p, tasks)), P80Finishes(OpenEstimates(p, tasks));
    forall i | 0 <= i < |tasks| && HasWorkLeft(tasks[i])
      ensures i in open
      ensures AllEstimates(p)[i].p50Finish <= r.p50Finish && AllEstimates(p)[i].p80Finish <= r.p80Finish
    {
      OpenIffWorkLeft(tasks, i);
      var k :| 0 <= k < |open| && open[k] == i;
      assert p50[k] in p50 && p80[k] in p80;
    }
    if open == [] {
      NothingOpen(tasks);
    } else {
      var j :| 0 <= j < |p50| && p50[j] == r.p50Finish;
      var k :| 0 <= k < |p80| && p80[k] == r.p80Finish;
      assert AllEstimates(p)[open[j]].p50Finish == r.p50Finish && AllEstimates(p)[open[k]].p80Finish == r.p80Finish;
    }
  }

  lemma {:induction false} OpenIndicesGrow(tasks: seq<Task>, j: nat, k: nat)
    requires j < k < |OpenIndices(tasks)|
    ensures OpenIndices(tasks)[j] < OpenIndices(tasks)[k]
  {
    var init := tasks[..|tasks| - 1];
    if k < |OpenIndices(init)| {
      OpenIndicesGrow(init, j, k);
    }
  }

  /** The open task that `max_by_key` picks is the last of the latest. */
  lemma LaterOpenEndsEarlier(p: Plan, tasks: seq<Task>, j: nat)
    requires Sound(p) && AllEstimated(p) && |tasks| == |p.jobs| && OpenIndices(tasks) != []
    requires var p80 := P80Finishes(OpenEstimates(p, tasks));
      OpenIndices(tasks)[LastMax(p80)] < j < |tasks| && HasWorkLeft(tasks[j])
    ensures var p80 := P80Finishes(OpenEstimates(p, tasks)); EstimateOf(p, j).value.p80Finish < p80[LastMax(p80)]
  {
    hide EstimateOf, Acyclic, OpenIndices, OpenIds, LastMax;
    var open, p80 := OpenIndices(tasks), P80Finishes(OpenEstimates(p, tasks));
    OpenIffWorkLeft(tasks, j);
    var m :| 0 <= m < |open| && open[m] == j;
    if m < LastMax(p80) {
      OpenIndicesGrow(tasks, m, LastMax(p80));
    }
  }

  lemma RevisionPathIsCritical(p: Plan, tasks: seq<Task>, r: Reschedule)
    requires Sound(p) && AllEstimated(p) && |tasks| == |p.jobs| && Revises(p, tasks, r)
    ensures IsCriticalPath(p, tasks, r.p80Finish, r.criticalPath)
  {
    hide EstimateOf, Acyclic, OpenIndices, OpenIds, LastMax, CriticalKeys, Latest;
    var open, p80 := OpenIndices(tasks), P80Finishes(OpenEstimates(p, tasks));
    if open == [] {
      NothingOpen(tasks);
    } else {
      var k := LastMax(p80);
      assert p80[k] == r.p80Finish by {
        assert p80[k] in p80;
      }
      forall j | open[k] < j < |tasks| && HasWorkLeft(tasks[j])
        ensures EstimateOf(p, j).value.p80Finish < r.p80Finish
      {
        LaterOpenEndsEarlier(p, tasks, j);
      }
      assert tasks[open[k]] in tasks;
      assert EndsWork(p, tasks, r.p80Finish, open[k]);
    }
  }
}
