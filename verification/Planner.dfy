/**
 * The local planner's change revision: `local_revision` and `flow_to_plan` of
 * `src/application/planner.rs`. Requirement texts and capability labels are not modelled.
 */
module Planner {
  import opened Domain
  import opened Graph
  import opened Kahn
  import opened Estimates
  import opened Scheduler
  import opened SchedulingLaws

  // ------------------------------------------------------------------
  // From a flow back to drafts
  // ------------------------------------------------------------------

  /** Dependency names become the keys of the tasks they find; a name that finds no task is dropped. */
  function DependencyKeys(tasks: seq<Task>, names: seq<string>): (keys: seq<string>)
    ensures forall key | key in keys :: key in TaskKeys(tasks)
  {
    if names == [] then []
    else
      var found := FindTask(tasks, names[0]);
      var rest := DependencyKeys(tasks, names[1..]);
      if found.None? then rest
      else
        assert found.value.key in TaskKeys(tasks) by {
          var i :| 0 <= i < |tasks| && tasks[i] == found.value;
          assert TaskKeys(tasks)[i] == found.value.key;
        }
        [found.value.key] + rest
  }

  function FlowToPlan(tasks: seq<Task>): (drafts: seq<TaskDraft>)
    ensures |drafts| == |tasks|
    ensures forall i | 0 <= i < |tasks| ::
      && drafts[i].key == tasks[i].key && drafts[i].title == tasks[i].title
      && drafts[i].dependsOn == DependencyKeys(tasks, tasks[i].dependsOn)
      && drafts[i].effortHours == tasks[i].estimate.effortHours && drafts[i].requiresHuman == tasks[i].requiresHuman
  {
    seq(|tasks|, i requires 0 <= i < |tasks| =>
      var t := tasks[i];
      TaskDraft(t.key, t.title, DependencyKeys(tasks, t.dependsOn), t.estimate.effortHours, t.requiresHuman))
  }

  function DraftKeys(drafts: seq<TaskDraft>): (keys: seq<string>)
    ensures |keys| == |drafts| && forall i | 0 <= i < |drafts| :: keys[i] == drafts[i].key
  {
    seq(|drafts|, i requires 0 <= i < |drafts| => drafts[i].key)
  }

  // ------------------------------------------------------------------
  // The fresh key
  // ------------------------------------------------------------------

  function Decimal(n: nat): (s: string)
    ensures s != []
  {
    if n < 10 then [('0' as int + n) as char] else Decimal(n / 10) + [('0' as int + n % 10) as char]
  }

  lemma {:induction false} DecimalInjective(a: nat, b: nat)
    requires Decimal(a) == Decimal(b)
    ensures a == b
  {
    var s := Decimal(a);
    assert s[|s| - 1] == ('0' as int + a % 10) as char;
    assert s[|s| - 1] == ('0' as int + b % 10) as char;
    if a >= 10 && b >= 10 {
      assert Decimal(a / 10) == s[..|s| - 1] == Decimal(b / 10);
      DecimalInjective(a / 10, b / 10);
    }
  }

  function ChangeKey(suffix: nat): string {
    "change-" + Decimal(suffix)
  }

  lemma ChangeKeyInjective(a: nat, b: nat)
    requires ChangeKey(a) == ChangeKey(b)
    ensures a == b
  {
    assert Decimal(a) == ChangeKey(a)[7..];
    assert Decimal(b) == ChangeKey(b)[7..];
    DecimalInjective(a, b);
  }

  /** What a decimal numeral stands for. */
  function Value(s: string): int {
    if s == [] then 0 else Value(s[..|s| - 1]) * 10 + (s[|s| - 1] as int - '0' as int)
  }

  predicate AreDigits(s: string) { forall c | c in s :: '0' <= c <= '9' }

  lemma {:induction false} DecimalValue(n: nat)
    ensures Value(Decimal(n)) == n && AreDigits(Decimal(n))
  {
    var s := Decimal(n);
    if n >= 10 {
      DecimalValue(n / 10);
      assert s[..|s| - 1] == Decimal(n / 10);
    } else {
      assert s[..0] == [];
    }
  }

  /** A fresh key is the word of the planner and the number, in digits. */
  lemma ChangeKeyIs(suffix: nat)
    ensures var key := ChangeKey(suffix);
      |key| > 7 && key[..7] == "change-" && AreDigits(key[7..]) && Value(key[7..]) == suffix
  {
    DecimalValue(suffix);
    assert ChangeKey(suffix)[7..] == Decimal(suffix);
  }

  /** If the first tries are all taken, there are at least as many keys as tries. */
  lemma {:induction false} TakenSuffixes(keys: set<string>, tries: nat)
    requires forall s | 1 <= s <= tries :: ChangeKey(s) in keys
    ensures tries <= |keys|
  {
    if tries > 0 {
      var rest := keys - {ChangeKey(tries)};
      forall s | 1 <= s <= tries - 1 ensures ChangeKey(s) in rest {
        if ChangeKey(s) == ChangeKey(tries) {
          ChangeKeyInjective(s, tries);
        }
      }
      TakenSuffixes(rest, tries - 1);
    }
  }

  // ------------------------------------------------------------------
  // The revision
  // ------------------------------------------------------------------

  function DependedOn(drafts: seq<TaskDraft>): set<string> {
    set i, k | 0 <= i < |drafts| && 0 <= k < |drafts[i].dependsOn| :: drafts[i].dependsOn[k]
  }

  function Leaves(drafts: seq<TaskDraft>, dependedOn: set<string>): (keys: seq<string>)
    ensures forall key :: key in keys <==> exists i | 0 <= i < |drafts| :: drafts[i].key == key && key !in dependedOn
  {
    if drafts == [] then []
    else
      assert forall key :: (exists i | 0 <= i < |drafts| :: drafts[i].key == key && key !in dependedOn) <==>
        (drafts[0].key == key && key !in dependedOn)
        || (exists i | 0 <= i < |drafts[1..]| :: drafts[1..][i].key == key && key !in dependedOn) by {
        assert drafts == [drafts[0]] + drafts[1..];
      }
      (if drafts[0].key in dependedOn then [] else [drafts[0].key]) + Leaves(drafts[1..], dependedOn)
  }

  /** The revised plan: the flow's drafts and one task with a fresh key that depends on all leaves. */
  ghost predicate IsRevision(base: seq<TaskDraft>, plan: seq<TaskDraft>, suffix: nat) {
    && |plan| == |base| + 1 && plan[..|base|] == base
    && plan[|base|].key == ChangeKey(suffix) && ChangeKey(suffix) !in DraftKeys(base)
    && plan[|base|].dependsOn == Leaves(base, DependedOn(base))
    && plan[|base|].effortHours == 8.0 && !plan[|base|].requiresHuman
  }

  method LocalRevision(flow: Flow, title: string) returns (plan: seq<TaskDraft>, suffix: nat)
    ensures IsRevision(FlowToPlan(flow.tasks), plan, suffix) && plan[|flow.tasks|].title == title
    ensures 1 <= suffix <= |flow.tasks| + 1
    ensures forall s | 1 <= s < suffix :: ChangeKey(s) in TaskKeys(flow.tasks)
  {
    plan := FlowToPlan(flow.tasks);
    var keys := set key | key in DraftKeys(plan);
    assert DraftKeys(plan) == TaskKeys(flow.tasks);
    DistinctCardinality(DraftKeys(plan));
    assert keys == Elements(DraftKeys(plan));
    suffix := 1;
    var key := ChangeKey(suffix);
    TakenSuffixes(keys, 0);
    while key in keys
      invariant suffix >= 1 && key == ChangeKey(suffix)
      invariant forall s | 1 <= s < suffix :: ChangeKey(s) in keys
      invariant suffix - 1 <= |keys| <= |flow.tasks|
      decreases |keys| - suffix
    {
      TakenSuffixes(keys, suffix);
      suffix := suffix + 1;
      key := ChangeKey(suffix);
    }
    var dependedOn := DependedOn(plan);
    var leaves := Leaves(plan, dependedOn);
    plan := plan + [TaskDraft(key, title, leaves, 8.0, false)];
  }

  // ------------------------------------------------------------------
  // What the revision keeps and adds
  // ------------------------------------------------------------------

  ghost function DraftGraph(drafts: seq<TaskDraft>): Dependencies
    requires KnownDrafts(drafts)
  {
    Resolve(Names(DraftJobs(drafts, map[])), DependencyNames(DraftJobs(drafts, map[])))
  }

  ghost predicate KnownDrafts(drafts: seq<TaskDraft>) {
    Known(Names(DraftJobs(drafts, map[])), DependencyNames(DraftJobs(drafts, map[])))
  }

  /** What the graph phase of `schedule` accepts; assignments play no part in it. */
  ghost predicate AcceptedDrafts(drafts: seq<TaskDraft>) {
    drafts != [] && Distinct(DraftKeys(drafts)) && KnownDrafts(drafts) && Acyclic(DraftGraph(drafts))
  }

  lemma AcceptedWhateverAssigned(drafts: seq<TaskDraft>, assignments: map<string, Assignment>)
    ensures var jobs := DraftJobs(drafts, assignments);
      AcceptedDrafts(drafts) <==> drafts != [] && Distinct(Names(jobs)) && GraphAccepted(jobs)
    ensures var jobs := DraftJobs(drafts, assignments);
      KnownDrafts(drafts) ==>
        Known(Names(jobs), DependencyNames(jobs)) && DraftGraph(drafts) == Resolve(Names(jobs), DependencyNames(jobs))
  {
    assert Names(DraftJobs(drafts, assignments)) == Names(DraftJobs(drafts, map[])) == DraftKeys(drafts);
    assert DependencyNames(DraftJobs(drafts, assignments)) == DependencyNames(DraftJobs(drafts, map[]));
  }

  /** A plan taken from a flow never names an unknown task, whatever the flow's tasks name. */
  lemma FlowToPlanIsKnown(tasks: seq<Task>)
    ensures KnownDrafts(FlowToPlan(tasks))
  {
    var drafts := FlowToPlan(tasks);
    assert Names(DraftJobs(drafts, map[])) == TaskKeys(tasks);
    forall i, k | 0 <= i < |drafts| && 0 <= k < |drafts[i].dependsOn|
      ensures drafts[i].dependsOn[k] in TaskKeys(tasks)
    {
      assert drafts[i].dependsOn[k] in drafts[i].dependsOn;
    }
  }

  lemma IndexAppended(names: seq<string>, name: string)
    ensures IndexByName(names + [name]) == IndexByName(names)[name := |names|]
  {
    assert (names + [name])[..|names|] == names;
  }

  /** Adding a name to the end leaves the resolution of the other names alone. */
  lemma ResolveAppended(names: seq<string>, dependsOn: seq<seq<string>>, name: string, leaves: seq<string>)
    requires |names| == |dependsOn| && Known(names, dependsOn)
    requires name !in names && forall k | 0 <= k < |leaves| :: leaves[k] in names
    ensures Known(names + [name], dependsOn + [leaves])
    ensures var g, g' := Resolve(names, dependsOn), Resolve(names + [name], dependsOn + [leaves]);
      && |g'| == |g| + 1
      && (forall i | 0 <= i < |g| :: g'[i] == g[i])
      && |g'[|g|]| == |leaves|
      && forall k | 0 <= k < |leaves| :: g'[|g|][k] < |g| && names[g'[|g|][k]] == leaves[k]
  {
    hide IndexByName;
    IndexAppended(names, name);
    var names', dependsOn' := names + [name], dependsOn + [leaves];
    forall i, k | 0 <= i < |dependsOn'| && 0 <= k < |dependsOn'[i]|
      ensures dependsOn'[i][k] in names && dependsOn'[i][k] in names'
    {
      assert i < |names| ==> dependsOn'[i] == dependsOn[i];
    }
    var g, g' := Resolve(names, dependsOn), Resolve(names', dependsOn');
    forall i | 0 <= i < |g| ensures g'[i] == g[i] {
      assert dependsOn'[i] == dependsOn[i];
    }
  }

  lemma LeavesAreKeys(drafts: seq<TaskDraft>)
    ensures var leaves := Leaves(drafts, DependedOn(drafts));
      forall k | 0 <= k < |leaves| :: leaves[k] in DraftKeys(drafts)
  {
    hide DependedOn;
    var leaves := Leaves(drafts, DependedOn(drafts));
    forall k | 0 <= k < |leaves| ensures leaves[k] in DraftKeys(drafts) {
      assert leaves[k] in leaves;
      var i :| 0 <= i < |drafts| && drafts[i].key == leaves[k];
      assert DraftKeys(drafts)[i] == leaves[k];
    }
  }

  lemma JobsAppended(base: seq<TaskDraft>, plan: seq<TaskDraft>)
    requires |plan| == |base| + 1 && plan[..|base|] == base
    ensures Names(DraftJobs(plan, map[])) == Names(DraftJobs(base, map[])) + [plan[|base|].key]
    ensures DependencyNames(DraftJobs(plan, map[]))
      == DependencyNames(DraftJobs(base, map[])) + [plan[|base|].dependsOn]
  {
    assert plan == base + [plan[|base|]];
  }

  /** The old tasks keep their dependencies; the new one depends on exactly the leaves. */
  lemma RevisionGraph(base: seq<TaskDraft>, plan: seq<TaskDraft>, suffix: nat)
    requires IsRevision(base, plan, suffix) && KnownDrafts(base)
    ensures KnownDrafts(plan)
    ensures |DraftGraph(plan)| == |base| + 1
    ensures forall i | 0 <= i < |base| :: DraftGraph(plan)[i] == DraftGraph(base)[i]
    ensures |DraftGraph(plan)[|base|]| == |plan[|base|].dependsOn|
    ensures forall k | 0 <= k < |plan[|base|].dependsOn| ::
      var d := DraftGraph(plan)[|base|][k];
      d < |base| && base[d].key == plan[|base|].dependsOn[k]
  {
    hide IndexByName, Resolve, ResolveOne, Leaves, DependedOn, ChangeKey, Known;
    var n, leaves := |base|, plan[|base|].dependsOn;
    var names, dependsOn := Names(DraftJobs(base, map[])), DependencyNames(DraftJobs(base, map[]));
    assert names == DraftKeys(base);
    JobsAppended(base, plan);
    LeavesAreKeys(base);
    assert leaves == Leaves(base, DependedOn(base));
    ResolveAppended(names, dependsOn, plan[n].key, leaves);
  }

  /** Where g' extends g by one index that nobody depends on, the two have the same cycles. */
  lemma SameCycles(g: Dependencies, g': Dependencies)
    requires |g'| == |g| + 1 && forall i | 0 <= i < |g| :: g'[i] == g[i]
    requires forall i: nat, d: nat | Edge(g', i, d) :: d < |g|
    ensures Acyclic(g') <==> Acyclic(g)
  {
    forall p | IsCycle(g, p) ensures IsCycle(g', p) {
    }
    forall p | IsCycle(g', p) ensures IsCycle(g, p) {
      assert Edge(g', p[|p| - 2], p[|p| - 1]);
      forall k | 0 <= k < |p| - 1 ensures Edge(g, p[k], p[k + 1]) {
        assert Edge(g', p[k], p[k + 1]);
        assert k > 0 ==> Edge(g', p[k - 1], p[k]);
      }
    }
  }

  /** The new task is no one's dependency, so the revised graph has the cycles of the old graph. */
  lemma RevisionCycles(base: seq<TaskDraft>, plan: seq<TaskDraft>, suffix: nat)
    requires IsRevision(base, plan, suffix) && KnownDrafts(base)
    ensures KnownDrafts(plan) && (Acyclic(DraftGraph(plan)) <==> Acyclic(DraftGraph(base)))
    ensures forall i: nat, d: nat | Edge(DraftGraph(plan), i, d) :: d < |base|
  {
    hide IndexByName, Resolve, ResolveOne, Leaves, DependedOn, ChangeKey, Acyclic, IsRevision, Known;
    RevisionGraph(base, plan, suffix);
    var g, g', n := DraftGraph(base), DraftGraph(plan), |base|;
    forall i: nat, d: nat | Edge(g', i, d) ensures d < n {
      assert i < n ==> Edge(g, i, d);
    }
    SameCycles(g, g');
  }

  lemma DistinctAppended(s: seq<string>, x: string)
    requires x !in s
    ensures Distinct(s + [x]) <==> Distinct(s)
  {
    if Distinct(s + [x]) {
      forall i, j | 0 <= i < j < |s| ensures s[i] != s[j] {
        assert (s + [x])[i] == s[i] && (s + [x])[j] == s[j];
      }
    }
  }

  lemma NoTaskNoCycle(drafts: seq<TaskDraft>)
    requires drafts == [] && KnownDrafts(drafts)
    ensures Acyclic(DraftGraph(drafts))
  {
    forall p ensures !IsCycle(DraftGraph(drafts), p) {
      assert |p| > 1 ==> !Edge(DraftGraph(drafts), p[0], p[1]);
    }
  }

  /** The graph phase accepts the revision exactly when it accepts the flow's own plan, or the flow is empty. */
  lemma RevisionAccepted(tasks: seq<Task>, plan: seq<TaskDraft>, suffix: nat)
    requires IsRevision(FlowToPlan(tasks), plan, suffix)
    ensures AcceptedDrafts(plan) <==> tasks == [] || AcceptedDrafts(FlowToPlan(tasks))
  {
    hide KnownDrafts, Acyclic, DraftGraph, FlowToPlan;
    var base := FlowToPlan(tasks);
    FlowToPlanIsKnown(tasks);
    RevisionCycles(base, plan, suffix);
    assert DraftKeys(plan) == DraftKeys(base) + [ChangeKey(suffix)];
    DistinctAppended(DraftKeys(base), ChangeKey(suffix));
    if tasks == [] {
      NoTaskNoCycle(base);
    }
  }

  lemma DependencyResolved(drafts: seq<TaskDraft>, j: nat, k: nat, i: nat)
    requires KnownDrafts(drafts) && Distinct(DraftKeys(drafts))
    requires j < |drafts| && k < |drafts[j].dependsOn| && i < |drafts| && drafts[j].dependsOn[k] == drafts[i].key
    ensures k < |DraftGraph(drafts)[j]| && DraftGraph(drafts)[j][k] == i
  {
    var names := Names(DraftJobs(drafts, map[]));
    var found := IndexByName(names)[drafts[i].key];
    assert DraftGraph(drafts)[j][k] == found;
    assert DraftKeys(drafts)[found] == DraftKeys(drafts)[i];
  }

  /** Every old task is depended on in the revision: by an old task, or as a leaf by the new one. */
  lemma NewTaskIsOnlySink(base: seq<TaskDraft>, plan: seq<TaskDraft>, suffix: nat, i: nat)
    requires IsRevision(base, plan, suffix) && AcceptedDrafts(base) && i < |base|
    ensures KnownDrafts(plan) && exists j: nat :: Edge(DraftGraph(plan), j, i)
  {
    hide IndexByName, Resolve, ResolveOne, Leaves, ChangeKey, Acyclic, DraftJobs, DraftKeys, Names, DependencyNames;
    RevisionGraph(base, plan, suffix);
    var g', n, key := DraftGraph(plan), |base|, base[i].key;
    assert DraftKeys(base)[i] == key;
    if key in DependedOn(base) {
      var j, k :| 0 <= j < n && 0 <= k < |base[j].dependsOn| && base[j].dependsOn[k] == key;
      DependencyResolved(base, j, k, i);
      assert Edge(g', j, i);
    } else {
      assert key in Leaves(base, DependedOn(base));
      var k :| 0 <= k < |plan[n].dependsOn| && plan[n].dependsOn[k] == key;
      assert DraftKeys(base)[g'[n][k]] == key;
      assert g'[n][k] == i;
      assert Edge(g', n, i);
    }
  }

  lemma AcceptedGraph(drafts: seq<TaskDraft>)
    requires AcceptedDrafts(drafts)
    ensures KnownDrafts(drafts) && |DraftGraph(drafts)| == |drafts|
    ensures Closed(DraftGraph(drafts)) && Acyclic(DraftGraph(drafts))
  {
    hide Acyclic;
  }

  /** From every old task some chain of dependents leads to the new one. */
  lemma {:induction false} ReachesNewTask(base: seq<TaskDraft>, plan: seq<TaskDraft>, suffix: nat, i: nat)
    returns (chain: seq<nat>)
    requires IsRevision(base, plan, suffix) && AcceptedDrafts(base) && AcceptedDrafts(plan) && i <= |base|
    ensures chain != [] && chain[0] == i && chain[|chain| - 1] == |base|
    ensures forall k | 0 <= k < |chain| :: chain[k] <= |base|
    ensures forall k | 0 < k < |chain| :: Edge(DraftGraph(plan), chain[k], chain[k - 1])
    decreases |DraftGraph(plan)| - Rank(DraftGraph(plan), i)
  {
    hide Acyclic, IsRevision, AcceptedDrafts, DraftGraph, KnownDrafts, Rank;
    AcceptedGraph(base);
    AcceptedGraph(plan);
    var g' := DraftGraph(plan);
    RevisionGraph(base, plan, suffix);
    if i == |base| {
      chain := [i];
    } else {
      NewTaskIsOnlySink(base, plan, suffix, i);
      var j: nat :| Edge(g', j, i);
      RankFalls(g', j, i);
      RankBounded(g', j);
      var rest := ReachesNewTask(base, plan, suffix, j);
      chain := [i] + rest;
    }
  }

  /** Whatever the assignments, `schedule` starts the new task no earlier than every old task's P80 finish. */
  lemma NewTaskStartsLast(base: seq<TaskDraft>, plan: seq<TaskDraft>, suffix: nat, i: nat,
                          assignments: map<string, Assignment>, staff: Staff, now: int)
    requires IsRevision(base, plan, suffix) && AcceptedDrafts(base) && AcceptedDrafts(plan) && i < |base|
    requires GraphAccepted(DraftJobs(plan, assignments)) && AllEstimated(DraftPlan(plan, assignments, staff, now))
    ensures var p := DraftPlan(plan, assignments, staff, now);
      EstimateOf(p, i).value.p80Finish <= EstimateOf(p, |base|).value.earliestStart
  {
    hide Acyclic, EstimateOf, AcceptedDrafts, KnownDrafts, DraftGraph, Resolve, Known, Leaves, DependedOn, ChangeKey;
    var p := DraftPlan(plan, assignments, staff, now);
    AcceptedGraph(plan);
    AcceptedWhateverAssigned(plan, assignments);
    var chain := ReachesNewTask(base, plan, suffix, i);
    assert p.graph == DraftGraph(plan);
    assert IsChain(p, chain);
    ChainOrdersFinishes(p, chain);
  }
}
