/**
 * The graph phase that `schedule` and `reschedule` of `src/application/scheduler.rs`
 * share: name resolution, in-degrees and Kahn's queue.
 */
module Graph {
  import opened Wrappers

  /** For every task index, the indices it depends on, repetitions included. */
  type Dependencies = seq<seq<nat>>

  ghost predicate Edge(g: Dependencies, task: nat, dependency: nat) {
    task < |g| && dependency in g[task]
  }

  ghost predicate IsCycle(g: Dependencies, p: seq<nat>) {
    && |p| >= 2 && p[0] == p[|p| - 1]
    && forall k | 0 <= k < |p| - 1 :: Edge(g, p[k], p[k + 1])
  }

  ghost predicate Acyclic(g: Dependencies) {
    forall p :: !IsCycle(g, p)
  }

  ghost predicate Closed(g: Dependencies) {
    forall i: nat, d: nat | Edge(g, i, d) :: d < |g|
  }

  predicate Distinct<T(==)>(s: seq<T>) {
    forall i, j | 0 <= i < j < |s| :: s[i] != s[j]
  }

  /** Distinct indices, each behind all of its dependencies. */
  ghost predicate IsPartialOrder(g: Dependencies, order: seq<nat>) {
    && Distinct(order)
    && (forall k | 0 <= k < |order| :: order[k] < |g|)
    && forall k | 0 <= k < |order| :: Ready(g, order[..k], order[k])
  }

  ghost predicate IsOrder(g: Dependencies, order: seq<nat>) {
    IsPartialOrder(g, order) && |order| == |g|
  }

  // ------------------------------------------------------------------
  // Counting
  // ------------------------------------------------------------------

  ghost function Elements<T>(s: seq<T>): set<T> {
    set x | x in s
  }

  lemma {:induction false} DistinctCardinality<T>(s: seq<T>)
    ensures |Elements(s)| <= |s|
    ensures Distinct(s) <==> |Elements(s)| == |s|
  {
    if s != [] {
      var init, last := s[..|s| - 1], s[|s| - 1];
      DistinctCardinality(init);
      assert s == init + [last];
      assert Elements(s) == Elements(init) + {last};
      if last !in init {
        assert Distinct(s) <==> Distinct(init);
      }
    }
  }

  lemma {:induction false} RangeCardinality(s: set<nat>, n: nat)
    requires forall x | x in s :: x < n
    ensures |s| <= n
    ensures |s| == n ==> forall x: nat | x < n :: x in s
  {
    if n > 0 {
      RangeCardinality(s - {n - 1}, n - 1);
    }
  }

  /** Distinct indices below n are at most n; n of them are all of them. */
  lemma DistinctIndices(s: seq<nat>, n: nat)
    requires Distinct(s) && forall k | 0 <= k < |s| :: s[k] < n
    ensures |s| <= n
    ensures |s| == n <==> forall x: nat | x < n :: x in s
  {
    DistinctCardinality(s);
    RangeCardinality(Elements(s), n);
    assert forall x :: x in Elements(s) <==> x in s;
    if forall x: nat | x < n :: x in s {
      RangeIsFull(Elements(s), n);
    }
  }

  lemma {:induction false} RangeIsFull(s: set<nat>, n: nat)
    requires forall x: nat | x < n :: x in s
    ensures |s| >= n
  {
    if n > 0 {
      assert n - 1 in s;
      RangeIsFull(s - {n - 1}, n - 1);
    }
  }

  // ------------------------------------------------------------------
  // Orders and cycles
  // ------------------------------------------------------------------

  ghost predicate DependsInto(g: Dependencies, i: nat, s: set<nat>) {
    exists d | d in s :: Edge(g, i, d)
  }

  /** Every dependency of i stands in the order. */
  ghost predicate Ready(g: Dependencies, order: seq<nat>, i: nat) {
    forall d | Edge(g, i, d) :: d in order
  }

  /** In a non-empty set whose members all have a dependency in the set, some chain closes. */
  lemma TrappedSetHasCycle(g: Dependencies, trapped: set<nat>)
    requires trapped != {}
    requires forall i | i in trapped :: DependsInto(g, i, trapped)
    ensures !Acyclic(g)
  {
    hide DependsInto;
    var start :| start in trapped;
    var walk := TrappedWalk(g, trapped, start, |trapped|);
    if Distinct(walk) {
      DistinctCardinality(walk);
      SubsetCardinality(Elements(walk), trapped);
      assert false;
    }
    var i, j :| 0 <= i < j < |walk| && walk[i] == walk[j];
    assert IsCycle(g, walk[i..j + 1]);
  }

  lemma PickDependency(g: Dependencies, i: nat, s: set<nat>) returns (d: nat)
    requires DependsInto(g, i, s)
    ensures d in s && Edge(g, i, d)
  {
    d :| d in s && Edge(g, i, d);
  }

  lemma {:induction false} TrappedWalk(g: Dependencies, trapped: set<nat>, start: nat, steps: nat)
    returns (walk: seq<nat>)
    requires start in trapped
    requires forall i | i in trapped :: DependsInto(g, i, trapped)
    ensures |walk| == steps + 1 && walk[0] == start
    ensures forall k | 0 <= k <= steps :: walk[k] in trapped
    ensures forall k | 0 <= k < steps :: Edge(g, walk[k], walk[k + 1])
    decreases steps
  {
    hide DependsInto;
    if steps == 0 {
      walk := [start];
    } else {
      var next := PickDependency(g, start, trapped);
      var rest := TrappedWalk(g, trapped, next, steps - 1);
      walk := [start] + rest;
    }
  }

  function IndexOf(s: seq<nat>, x: nat): (k: nat)
    requires x in s
    ensures k < |s| && s[k] == x
  {
    if s[0] == x then 0 else 1 + IndexOf(s[1..], x)
  }

  /** Along a dependency the position in an order falls. */
  lemma OrderFalls(g: Dependencies, order: seq<nat>, i: nat, d: nat)
    requires IsOrder(g, order) && Edge(g, i, d)
    ensures i in order && d in order && IndexOf(order, d) < IndexOf(order, i)
  {
    DistinctIndices(order, |g|);
    DependenciesPrecede(g, order, IndexOf(order, i), d);
  }

  lemma DependenciesPrecede(g: Dependencies, order: seq<nat>, k: nat, d: nat)
    requires IsPartialOrder(g, order) && k < |order| && Edge(g, order[k], d)
    ensures d in order && IndexOf(order, d) < k
  {
    assert Ready(g, order[..k], order[k]);
    var j :| 0 <= j < k && order[..k][j] == d;
    assert order[j] == d;
  }

  lemma {:induction false} ChainFalls(g: Dependencies, order: seq<nat>, p: seq<nat>)
    requires IsOrder(g, order) && |p| >= 2
    requires forall k | 0 <= k < |p| - 1 :: Edge(g, p[k], p[k + 1])
    ensures p[0] in order && p[|p| - 1] in order && IndexOf(order, p[|p| - 1]) < IndexOf(order, p[0])
  {
    OrderFalls(g, order, p[0], p[1]);
    if |p| > 2 {
      ChainFalls(g, order, p[1..]);
    }
  }

  lemma OrderedIsAcyclic(g: Dependencies, order: seq<nat>)
    requires IsOrder(g, order)
    ensures Acyclic(g)
  {
    forall p | IsCycle(g, p) ensures false {
      ChainFalls(g, order, p);
    }
  }

  lemma NotReadyIsTrapped(g: Dependencies, order: seq<nat>, i: nat, trapped: set<nat>)
    requires Closed(g) && !Ready(g, order, i)
    requires trapped == set j: nat | j < |g| && j !in order
    ensures DependsInto(g, i, trapped)
  {
    var d :| Edge(g, i, d) && d !in order;
    assert d in trapped;
  }

  /** Where no index is ready, the indices outside the order are trapped. */
  lemma StuckHasCycle(g: Dependencies, order: seq<nat>)
    requires Closed(g) && IsPartialOrder(g, order) && |order| < |g|
    requires forall i: nat | i < |g| && i !in order :: !Ready(g, order, i)
    ensures !Acyclic(g)
  {
    hide Ready, DependsInto;
    DistinctIndices(order, |g|);
    var trapped := set i: nat | i < |g| && i !in order;
    forall i | i in trapped ensures DependsInto(g, i, trapped) {
      NotReadyIsTrapped(g, order, i, trapped);
    }
    var i: nat :| i < |g| && i !in order;
    assert i in trapped;
    TrappedSetHasCycle(g, trapped);
  }

  lemma ReadyExtends(g: Dependencies, order: seq<nat>, i: nat)
    requires IsPartialOrder(g, order) && i < |g| && i !in order && Ready(g, order, i)
    ensures IsPartialOrder(g, order + [i])
  {
    forall k | 0 <= k <= |order| ensures Ready(g, (order + [i])[..k], (order + [i])[k]) {
      assert (order + [i])[..k] == order[..k];
    }
  }

  lemma {:induction false} AcyclicExtends(g: Dependencies, start: seq<nat>) returns (order: seq<nat>)
    requires Closed(g) && Acyclic(g) && IsPartialOrder(g, start)
    ensures IsOrder(g, order)
    decreases |g| - |start|
  {
    DistinctIndices(start, |g|);
    if |start| == |g| {
      order := start;
    } else {
      if forall i: nat | i < |g| && i !in start :: !Ready(g, start, i) {
        StuckHasCycle(g, start);
      }
      var ready: nat :| ready < |g| && ready !in start && Ready(g, start, ready);
      ReadyExtends(g, start, ready);
      order := AcyclicExtends(g, start + [ready]);
    }
  }

  /** Some order of an acyclic graph; only used to measure recursion along dependencies. */
  ghost function SomeOrder(g: Dependencies): (order: seq<nat>)
    requires Closed(g) && Acyclic(g)
    ensures IsOrder(g, order)
  {
    assert exists order :: IsOrder(g, order) by {
      var order := AcyclicExtends(g, []);
    }
    var order :| IsOrder(g, order);
    order
  }

  /** A position that falls along every dependency. */
  ghost function Rank(g: Dependencies, i: nat): nat
    requires Closed(g) && Acyclic(g)
  {
    if i in SomeOrder(g) then IndexOf(SomeOrder(g), i) else 0
  }

  lemma RankBounded(g: Dependencies, i: nat)
    requires Closed(g) && Acyclic(g) && i < |g|
    ensures Rank(g, i) < |g|
  {
    DistinctIndices(SomeOrder(g), |g|);
  }

  lemma RankFalls(g: Dependencies, i: nat, d: nat)
    requires Closed(g) && Acyclic(g) && Edge(g, i, d)
    ensures Rank(g, d) < Rank(g, i)
  {
    OrderFalls(g, SomeOrder(g), i, d);
  }
}
