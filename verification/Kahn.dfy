/**
 * Kahn's algorithm as `src/application/scheduler.rs` writes it (lines 35-86 and 211-256):
 * names are resolved against a map in which the last equal name wins, in-degrees and
 * dependents are counted with repetitions, and a queue is worked off front to back.
 */
module Kahn {
  import opened Wrappers
  import opened Errors
  import opened Graph

  /** Collecting (name, index) pairs into a map: the last index of a name stays. */
  function IndexByName(names: seq<string>): (m: map<string, nat>)
    ensures m.Keys == set name | name in names
    ensures forall name | name in m :: m[name] < |names| && names[m[name]] == name
  {
    if names == [] then map[]
    else
      var last := |names| - 1;
      assert names == names[..last] + [names[last]];
      IndexByName(names[..last])[names[last] := last]
  }

  /** Of several equal names the last one counts. */
  lemma {:induction false} LastIndexCounts(names: seq<string>, j: nat)
    requires j < |names|
    ensures names[j] in IndexByName(names) && j <= IndexByName(names)[names[j]]
  {
    if j < |names| - 1 {
      LastIndexCounts(names[..|names| - 1], j);
    }
  }

  predicate Known(names: seq<string>, dependsOn: seq<seq<string>>) {
    forall i, k | 0 <= i < |dependsOn| && 0 <= k < |dependsOn[i]| :: dependsOn[i][k] in names
  }

  function ResolveOne(index: map<string, nat>, dependencies: seq<string>): (r: seq<nat>)
    requires forall k | 0 <= k < |dependencies| :: dependencies[k] in index
    ensures |r| == |dependencies|
    ensures forall k | 0 <= k < |r| :: r[k] == index[dependencies[k]]
  {
    seq(|dependencies|, k requires 0 <= k < |dependencies| => index[dependencies[k]])
  }

  function Resolve(names: seq<string>, dependsOn: seq<seq<string>>): (g: Dependencies)
    requires |names| == |dependsOn| && Known(names, dependsOn)
    ensures |g| == |names| && Closed(g)
    ensures forall i | 0 <= i < |g| :: g[i] == ResolveOne(IndexByName(names), dependsOn[i])
  {
    seq(|names|, i requires 0 <= i < |names| => ResolveOne(IndexByName(names), dependsOn[i]))
  }

  ghost function Times(s: seq<nat>, x: nat): nat { multiset(s)[x] }

  lemma TimesPush(s: seq<nat>, x: nat, y: nat)
    ensures Times(s + [x], y) == Times(s, y) + if x == y then 1 else 0
  {
  }

  /** How many dependencies, with repetitions, are not done yet. */
  ghost function Open(dependencies: seq<nat>, done: set<nat>): nat {
    if dependencies == [] then 0
    else (if dependencies[0] in done then 0 else 1) + Open(dependencies[1..], done)
  }

  lemma {:induction false} OpenAfter(dependencies: seq<nat>, done: set<nat>, d: nat)
    requires d !in done
    ensures Open(dependencies, done) == Open(dependencies, done + {d}) + Times(dependencies, d)
  {
    if dependencies != [] {
      OpenAfter(dependencies[1..], done, d);
      assert dependencies == [dependencies[0]] + dependencies[1..];
    }
  }

  lemma {:induction false} OpenZero(dependencies: seq<nat>, done: set<nat>)
    ensures Open(dependencies, done) == 0 <==> forall d | d in dependencies :: d in done
    ensures done == {} ==> Open(dependencies, done) == |dependencies|
  {
    if dependencies != [] {
      OpenZero(dependencies[1..], done);
      assert dependencies == [dependencies[0]] + dependencies[1..];
    }
  }

  /** dependents[d] lists task i as often as row i names d, and no other task. */
  ghost predicate Inverted(rows: seq<seq<nat>>, dependents: seq<seq<nat>>) {
    forall d: nat, i: nat {:trigger Times(dependents[d], i)} | d < |dependents| ::
      Times(dependents[d], i) == if i < |rows| then Times(rows[i], d) else 0
  }

  lemma InvertedPush(rows: seq<seq<nat>>, dependents: seq<seq<nat>>, x: nat)
    requires Inverted(rows, dependents) && |rows| > 0 && x < |dependents|
    ensures var i := |rows| - 1;
      Inverted(rows[i := rows[i] + [x]], dependents[x := dependents[x] + [i]])
  {
    var i := |rows| - 1;
    var rows', dependents' := rows[i := rows[i] + [x]], dependents[x := dependents[x] + [i]];
    forall d: nat, j: nat | d < |dependents|
      ensures Times(dependents'[d], j) == if j < |rows'| then Times(rows'[j], d) else 0
    {
      assert Times(dependents[d], j) == if j < |rows| then Times(rows[j], d) else 0;
      TimesPush(dependents[x], i, j);
      TimesPush(rows[i], x, d);
      assert dependents'[d] == if d == x then dependents[x] + [i] else dependents[d];
      assert j < |rows| ==> rows'[j] == if j == i then rows[i] + [x] else rows[j];
    }
    assert Inverted(rows', dependents');
  }

  lemma NothingInverted(dependents: seq<seq<nat>>)
    requires forall d | 0 <= d < |dependents| :: dependents[d] == []
    ensures Inverted([], dependents)
  {
  }

  lemma InvertedRow(rows: seq<seq<nat>>, dependents: seq<seq<nat>>)
    requires Inverted(rows, dependents)
    ensures Inverted(rows + [[]], dependents)
  {
    forall d: nat, j: nat | d < |dependents|
      ensures Times(dependents[d], j) == if j <= |rows| then Times((rows + [[]])[j], d) else 0
    {
      assert Times(dependents[d], j) == if j < |rows| then Times(rows[j], d) else 0;
    }
  }

  /** The inner loop of the first phase: links one task to the tasks it depends on. */
  method LinkTask(byName: map<string, nat>, i: nat, taskKey: string, dependencies: seq<string>,
                  indegree: array<nat>, dependents: array<seq<nat>>, ghost rows: seq<seq<nat>>)
    returns (r: Result<(), RelayError>)
    requires indegree.Length == dependents.Length && i == |rows| < indegree.Length
    requires forall name | name in byName :: byName[name] < indegree.Length
    requires Inverted(rows, dependents[..]) && indegree[i] == 0
    modifies indegree, dependents
    ensures forall j | 0 <= j < indegree.Length && j != i :: indegree[j] == old(indegree[j])
    ensures r.Ok? ==> indegree[i] == |dependencies|
    ensures r.Ok? <==> forall name | name in dependencies :: name in byName && byName[name] != i
    ensures r.Ok? ==> Inverted(rows + [ResolveOne(byName, dependencies)], dependents[..])
    ensures r.Err? ==> exists name | name in dependencies ::
      || (name !in byName && r == Err(Validation(UnknownDependency(taskKey, name))))
      || (name in byName && byName[name] == i && r == Err(Validation(SelfDependency(taskKey))))
  {
    hide Inverted;
    ghost var row: seq<nat> := [];
    InvertedRow(rows, dependents[..]);
    for k := 0 to |dependencies|
      invariant forall j | 0 <= j < indegree.Length && j != i :: indegree[j] == old(indegree[j])
      invariant indegree[i] == k
      invariant forall l | 0 <= l < k :: dependencies[l] in byName && byName[dependencies[l]] != i
      invariant row == ResolveOne(byName, dependencies[..k])
      invariant Inverted(rows + [row], dependents[..])
    {
      var dependency := dependencies[k];
      if dependency !in byName {
        return Err(Validation(UnknownDependency(taskKey, dependency)));
      }
      var d := byName[dependency];
      if d == i {
        return Err(Validation(SelfDependency(taskKey)));
      }
      InvertedPush(rows + [row], dependents[..], d);
      indegree[i] := indegree[i] + 1;
      dependents[d] := dependents[d] + [i];
      assert (rows + [row])[i := row + [d]] == rows + [row + [d]];
      row := row + [d];
    }
    assert dependencies[..|dependencies|] == dependencies;
    return Ok(());
  }

  /** First phase: resolves every dependency, counts in-degrees and collects dependents. */
  method BuildGraph(names: seq<string>, labels: seq<string>, dependsOn: seq<seq<string>>)
    returns (r: Result<(), RelayError>, indegree: array<nat>, dependents: array<seq<nat>>)
    requires |names| == |labels| == |dependsOn|
    ensures fresh(indegree) && fresh(dependents)
    ensures r.Ok? <==> Known(names, dependsOn) && forall i | 0 <= i < |names| :: i !in Resolve(names, dependsOn)[i]
    ensures r.Ok? ==> indegree.Length == dependents.Length == |names|
    ensures r.Ok? ==> Inverted(Resolve(names, dependsOn), dependents[..])
    ensures r.Ok? ==> forall i | 0 <= i < |names| :: indegree[i] == |dependsOn[i]|
    ensures r.Err? ==> Refused(names, labels, dependsOn, r.error)
  {
    hide Inverted, Acyclic, Resolve, ResolveOne, IndexByName;
    var n := |names|;
    var byName := IndexByName(names);
    indegree := new nat[n](_ => 0);
    dependents := new seq<nat>[n](_ => []);
    ghost var rows: seq<seq<nat>> := [];
    NothingInverted(dependents[..]);
    for i := 0 to n
      invariant |rows| == i && Inverted(rows, dependents[..])
      invariant forall j | 0 <= j < n :: indegree[j] == if j < i then |dependsOn[j]| else 0
      invariant forall j, name | 0 <= j < i && name in dependsOn[j] :: name in byName && byName[name] != j
      invariant forall j | 0 <= j < i :: rows[j] == ResolveOne(byName, dependsOn[j])
    {
      r := LinkTask(byName, i, labels[i], dependsOn[i], indegree, dependents, rows);
      if r.Err? {
        LinkFailed(names, dependsOn, i);
        return r, indegree, dependents;
      }
      rows := rows + [ResolveOne(byName, dependsOn[i])];
    }
    assert rows == Resolve(names, dependsOn);
    r := Ok(());
  }

  lemma LinkFailed(names: seq<string>, dependsOn: seq<seq<string>>, i: nat)
    requires |names| == |dependsOn| && i < |names|
    requires exists name | name in dependsOn[i] :: name !in IndexByName(names) || IndexByName(names)[name] == i
    ensures Known(names, dependsOn) ==> i in Resolve(names, dependsOn)[i]
  {
    if Known(names, dependsOn) {
      var k :| 0 <= k < |dependsOn[i]| && IndexByName(names)[dependsOn[i][k]] == i;
      assert Resolve(names, dependsOn)[i][k] == i;
    }
  }

  /** What each graph error says. */
  ghost predicate Refused(names: seq<string>, labels: seq<string>, dependsOn: seq<seq<string>>, error: RelayError)
    requires |names| == |labels| == |dependsOn|
  {
    match error
    case Validation(UnknownDependency(task, dependency)) =>
      exists i | 0 <= i < |names| :: labels[i] == task && dependency in dependsOn[i] && dependency !in names
    case Validation(SelfDependency(task)) =>
      exists i | 0 <= i < |names| :: labels[i] == task && names[i] in dependsOn[i]
    case Validation(CyclicDependencies) =>
      Known(names, dependsOn) && !Acyclic(Resolve(names, dependsOn))
    case _ => false
  }

  function Zeros(indegree: seq<nat>): (r: seq<nat>)
    ensures Distinct(r)
    ensures forall i: nat :: i in r <==> i < |indegree| && indegree[i] == 0
  {
    if indegree == [] then []
    else
      var last := |indegree| - 1;
      assert indegree == indegree[..last] + [indegree[last]];
      var init := Zeros(indegree[..last]);
      assert last !in init;
      init + if indegree[last] == 0 then [last] else []
  }

  /** What the queue loop keeps: in-degrees are open dependencies, the zeros are exactly the seen indices. */
  ghost predicate QueueState(g: Dependencies, indegree: seq<nat>, order: seq<nat>, queue: seq<nat>, pending: seq<nat>) {
    && |indegree| == |g|
    && Distinct(order + queue)
    && IsPartialOrder(g, order)
    && (forall i | i in pending :: i < |g|)
    && (forall i: nat :: i in order + queue <==> i < |g| && indegree[i] == 0)
    && (forall i: nat | i < |g| :: indegree[i] == Open(g[i], Elements(order)) + Times(pending, i))
  }

  lemma InvertedBounds(rows: seq<seq<nat>>, dependents: seq<seq<nat>>, d: nat)
    requires Inverted(rows, dependents) && d < |dependents|
    ensures forall i | i in dependents[d] :: i < |rows|
  {
    forall i | i in dependents[d] ensures i < |rows| {
      assert Times(dependents[d], i) > 0;
    }
  }

  /** Taking index off the queue turns its open dependencies into pending decrements. */
  lemma PopCounts(g: Dependencies, indegree: seq<nat>, order: seq<nat>, index: nat, dependents: seq<seq<nat>>)
    requires |indegree| == |dependents| == |g| && index < |g| && index !in order
    requires Inverted(g, dependents)
    requires forall i: nat | i < |g| :: indegree[i] == Open(g[i], Elements(order)) + Times([], i)
    ensures forall i: nat | i < |g| ::
      indegree[i] == Open(g[i], Elements(order + [index])) + Times(dependents[index], i)
  {
    assert Elements(order + [index]) == Elements(order) + {index};
    forall i: nat | i < |g|
      ensures indegree[i] == Open(g[i], Elements(order + [index])) + Times(dependents[index], i)
    {
      OpenAfter(g[i], Elements(order), index);
    }
  }

  lemma PopKeepsQueueState(g: Dependencies, indegree: seq<nat>, order: seq<nat>, queue: seq<nat>,
                           dependents: seq<seq<nat>>)
    requires QueueState(g, indegree, order, queue, []) && queue != []
    requires |dependents| == |g| && Inverted(g, dependents)
    ensures queue[0] < |g| && |order| < |g|
    ensures QueueState(g, indegree, order + [queue[0]], queue[1..], dependents[queue[0]])
  {
    hide Open, Times;
    var index := queue[0];
    assert order + queue == order + [index] + queue[1..];
    assert index in order + queue;
    OpenZero(g[index], Elements(order));
    forall k | 0 <= k < |order| ensures order[k] != index {
      assert (order + queue)[k] == order[k] && (order + queue)[|order|] == index;
    }
    InvertedBounds(g, dependents, index);
    assert Ready(g, order, index);
    ReadyExtends(g, order, index);
    DistinctIndices(order + [index], |g|);
    PopCounts(g, indegree, order, index, dependents);
  }

  lemma DecrementKeepsQueueState(g: Dependencies, indegree: seq<nat>, order: seq<nat>, queue: seq<nat>,
                                 pending: seq<nat>)
    requires QueueState(g, indegree, order, queue, pending) && pending != []
    ensures var x := pending[0];
      && x < |g| && indegree[x] > 0
      && QueueState(g, indegree[x := indegree[x] - 1], order,
                    if indegree[x] == 1 then queue + [x] else queue, pending[1..])
  {
    hide Open;
    var x := pending[0];
    assert x in pending;
    assert pending == [x] + pending[1..];
    var queue' := if indegree[x] == 1 then queue + [x] else queue;
    assert order + (queue + [x]) == (order + queue) + [x];
    assert indegree[x] == Open(g[x], Elements(order)) + Times(pending, x);
    assert Distinct(order + queue') by {
      assert x !in order + queue;
    }
    assert forall i | i in pending[1..] :: i in pending;
    var indegree' := indegree[x := indegree[x] - 1];
    forall i: nat ensures i in order + queue' <==> i < |g| && indegree'[i] == 0 {
      assert i in order + queue <==> i < |g| && indegree[i] == 0;
      assert queue' != queue ==> (order + queue')[|order + queue|] == x;
    }
    forall i: nat | i < |g| ensures indegree'[i] == Open(g[i], Elements(order)) + Times(pending[1..], i) {
      assert indegree[i] == Open(g[i], Elements(order)) + Times(pending, i);
      TimesPush(pending[1..], x, i);
    }
  }

  /** Second phase: works the queue off; every index is enqueued at most once and no in-degree underflows. */
  method WorkOffQueue(ghost g: Dependencies, indegree: array<nat>, dependents: array<seq<nat>>)
    returns (order: seq<nat>)
    requires Closed(g) && indegree.Length == dependents.Length == |g|
    requires Inverted(g, dependents[..])
    requires forall i | 0 <= i < |g| :: indegree[i] == |g[i]|
    modifies indegree
    ensures IsPartialOrder(g, order)
    ensures |order| == |g| <==> Acyclic(g)
  {
    hide QueueState, Inverted, Acyclic, IsPartialOrder, Closed;
    var queue := Zeros(indegree[..]);
    order := [];
    InitialQueueState(g, indegree[..]);
    while queue != []
      invariant QueueState(g, indegree[..], order, queue, [])
      decreases |g| - |order|
    {
      PopKeepsQueueState(g, indegree[..], order, queue, dependents[..]);
      var index := queue[0];
      queue := queue[1..];
      order := order + [index];
      var pending := dependents[index];
      for k := 0 to |pending|
        invariant QueueState(g, indegree[..], order, queue, pending[k..])
      {
        DecrementKeepsQueueState(g, indegree[..], order, queue, pending[k..]);
        var dependent := pending[k];
        indegree[dependent] := indegree[dependent] - 1;
        if indegree[dependent] == 0 {
          queue := queue + [dependent];
        }
      }
      assert pending[|pending|..] == [];
    }
    EmptyQueueDecides(g, indegree[..], order);
  }

  lemma InitialQueueState(g: Dependencies, indegree: seq<nat>)
    requires |indegree| == |g| && forall i | 0 <= i < |g| :: indegree[i] == |g[i]|
    ensures QueueState(g, indegree, [], Zeros(indegree), [])
  {
    forall i: nat | i < |g| ensures indegree[i] == Open(g[i], Elements([])) + Times([], i) {
      OpenZero(g[i], Elements([]));
    }
    assert [] + Zeros(indegree) == Zeros(indegree);
  }

  /** When the queue is empty, the indices outside the order are exactly those that never became ready. */
  lemma EmptyQueueDecides(g: Dependencies, indegree: seq<nat>, order: seq<nat>)
    requires Closed(g) && QueueState(g, indegree, order, [], [])
    ensures IsPartialOrder(g, order)
    ensures |order| == |g| <==> Acyclic(g)
  {
    DistinctIndices(order, |g|);
    if |order| == |g| {
      OrderedIsAcyclic(g, order);
    } else {
      forall i: nat | i < |g| && i !in order ensures !Ready(g, order, i) {
        OpenZero(g[i], Elements(order));
        assert order + [] == order;
      }
      StuckHasCycle(g, order);
    }
  }

  method TopologicalOrder(names: seq<string>, labels: seq<string>, dependsOn: seq<seq<string>>)
    returns (r: Result<seq<nat>, RelayError>)
    requires |names| == |labels| == |dependsOn|
    ensures r.Ok? <==> Known(names, dependsOn) && Acyclic(Resolve(names, dependsOn))
    ensures r.Ok? ==> IsOrder(Resolve(names, dependsOn), r.value)
    ensures r.Err? ==> Refused(names, labels, dependsOn, r.error)
  {
    var built, indegree, dependents := BuildGraph(names, labels, dependsOn);
    if built.Err? {
      if Known(names, dependsOn) {
        SelfLoopIsCycle(names, dependsOn);
      }
      return Err(built.error);
    }
    ghost var g := Resolve(names, dependsOn);
    var order := WorkOffQueue(g, indegree, dependents);
    if |order| != |names| {
      return Err(Validation(CyclicDependencies));
    }
    return Ok(order);
  }

  lemma SelfLoopIsCycle(names: seq<string>, dependsOn: seq<seq<string>>)
    requires |names| == |dependsOn| && Known(names, dependsOn)
    ensures Acyclic(Resolve(names, dependsOn)) ==> forall i | 0 <= i < |names| :: i !in Resolve(names, dependsOn)[i]
  {
    var g := Resolve(names, dependsOn);
    forall i: nat | i < |names| && i in g[i] ensures !Acyclic(g) {
      assert IsCycle(g, [i, i]);
    }
  }
}
