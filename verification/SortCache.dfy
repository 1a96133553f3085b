/** The sort that a `DependencyGraph` caches: when it outlives the graph it was made for. */
module SortCache {
  import opened Collections
  import opened Digraph
  import opened TaskGraphs
  import opened TaskRemoval
  import Kahn

  /** All tasks, once each, every task after all its dependencies. */
  ghost predicate TopologicalOrderOf(g: TaskGraph, order: seq<Id>) {
    && Distinct(order)
    && (forall v :: v in order <==> v in g.tasks.keys)
    && FinishOrder(g.pred, order)
  }

  // ---- one addition --------------------------------------------------------------------------

  /** The task is in the order, behind all its dependencies. */
  ghost predicate Stands(order: seq<Id>, t: GenerationTask) {
    exists k :: 0 <= k < |order| && order[k] == t.id && forall d :: d in t.dependencies ==> d in order[..k]
  }

  lemma {:induction false} AddedKeys(g: TaskGraph, t: GenerationTask)
    requires g.tasks.Valid()
    ensures Add(g, t).tasks.Valid()
    ensures forall v :: v in Add(g, t).tasks.keys <==> v in g.tasks.keys || v == t.id
  {
    AddTables(g, t);
    PutValid(g.tasks, t.id, t);
  }

  lemma {:induction false} AddedDependencies(g: TaskGraph, t: GenerationTask, v: Id, d: Id)
    ensures Edge(Add(g, t).pred, v, d) <==> Edge(g.pred, v, d) || (v == t.id && d in t.dependencies)
  {
    AddTables(g, t);
  }

  lemma {:induction false} AddKeepsFinishOrder(g: TaskGraph, t: GenerationTask, order: seq<Id>)
    requires FinishOrder(g.pred, order) && Distinct(order) && Stands(order, t)
    ensures FinishOrder(Add(g, t).pred, order)
  {
    var k :| 0 <= k < |order| && order[k] == t.id && forall d :: d in t.dependencies ==> d in order[..k];
    forall i, d | 0 <= i < |order| && Edge(Add(g, t).pred, order[i], d) ensures d in order[..i] {
      AddedDependencies(g, t, order[i], d);
    }
  }

  lemma {:induction false} FinishOrderStands(g: TaskGraph, t: GenerationTask, order: seq<Id>)
    requires FinishOrder(Add(g, t).pred, order) && t.id in order
    ensures Stands(order, t)
  {
    var k :| 0 <= k < |order| && order[k] == t.id;
    forall d | d in t.dependencies ensures d in order[..k] {
      AddedDependencies(g, t, t.id, d);
      assert Edge(Add(g, t).pred, order[k], d);
    }
  }

  /** A cached order survives the addition of a task exactly when the task was in the graph already
      and stands behind all its new dependencies. */
  lemma {:induction false} AddKeepsOrder(g: TaskGraph, t: GenerationTask, order: seq<Id>)
    requires g.tasks.Valid() && TopologicalOrderOf(g, order)
    ensures TopologicalOrderOf(Add(g, t), order) <==> Stands(order, t)
    ensures Stands(order, t) ==> t.id in g.tasks.keys
  {
    AddedKeys(g, t);
    if Stands(order, t) {
      AddKeepsFinishOrder(g, t, order);
    } else if TopologicalOrderOf(Add(g, t), order) {
      FinishOrderStands(g, t, order);
    }
  }

  /** Adding never repairs an order that lists only tasks. */
  lemma {:induction false} AddOnlyBreaks(g: TaskGraph, t: GenerationTask, order: seq<Id>)
    requires g.tasks.Valid() && (forall v :: v in order ==> v in g.tasks.keys)
    requires TopologicalOrderOf(Add(g, t), order)
    ensures TopologicalOrderOf(g, order)
  {
    AddedKeys(g, t);
    forall i, d | 0 <= i < |order| && Edge(g.pred, order[i], d) ensures d in order[..i] {
      AddedDependencies(g, t, order[i], d);
    }
  }

  // ---- cycles closed by additions ----------------------------------------------------------------

  lemma {:induction false} EdgesStay(g: TaskGraph, t: GenerationTask, p: seq<Id>)
    requires Walk(g.succ, p)
    ensures Walk(Add(g, t).succ, p)
  {
    forall i, j | 0 <= i && j == i + 1 && j < |p| ensures Edge(Add(g, t).succ, p[i], p[j]) {
      AddedEdges(g, t, p[i], p[j]);
    }
  }

  /** Some dependency of the task can be reached from it: adding it would close a cycle. */
  ghost predicate ClosesCycle(g: TaskGraph, t: GenerationTask) {
    exists d :: d in t.dependencies && Reaches(g.succ, t.id, d)
  }

  /** A walk from the new task in the larger graph stays in the old one, or passes a dependency
      that the task reached before. */
  lemma {:induction false} WalkFromNew(g: TaskGraph, t: GenerationTask, p: seq<Id>)
    requires Walk(Add(g, t).succ, p) && p[0] == t.id
    ensures Reaches(g.succ, t.id, p[|p| - 1]) || ClosesCycle(g, t)
  {
    if |p| == 1 {
      ReachesSelf(g.succ, t.id);
    } else {
      var init := p[0..|p| - 1];
      WalkSlice(Add(g, t).succ, p, 0, |p| - 1);
      WalkFromNew(g, t, init);
      LastEdge(Add(g, t).succ, p);
      var x, y := p[|p| - 2], p[|p| - 1];
      AddedEdges(g, t, x, y);
      if Reaches(g.succ, t.id, x) {
        if Edge(g.succ, x, y) {
          ReachesStep(g.succ, t.id, x, y);
        }
      }
    }
  }

  lemma {:induction false} MissingEdge(adj: Adjacency, p: seq<Id>) returns (i: nat)
    requires |p| > 0 && !Walk(adj, p)
    ensures i + 1 < |p| && !Edge(adj, p[i], p[i + 1])
  {
    var k, j :| 0 <= k && j == k + 1 && j < |p| && !Edge(adj, p[k], p[j]);
    i := k;
  }

  lemma {:induction false} NewEdgeOnCycle(g: TaskGraph, t: GenerationTask, p: seq<Id>) returns (i: nat)
    requires Cycle(Add(g, t).succ, p) && !Cyclic(g.succ)
    ensures i + 1 < |p| && p[i + 1] == t.id && p[i] in t.dependencies
  {
    assert !Cycle(g.succ, p);
    i := MissingEdge(g.succ, p);
    EdgeAt(Add(g, t).succ, p, i);
    AddedEdges(g, t, p[i], p[i + 1]);
  }

  lemma {:induction false} EdgeAt(adj: Adjacency, p: seq<Id>, i: nat)
    requires Walk(adj, p) && i + 1 < |p|
    ensures Edge(adj, p[i], p[i + 1])
  {
  }

  lemma {:induction false} ReachedClosesCycle(g: TaskGraph, t: GenerationTask)
    requires ClosesCycle(g, t)
    ensures Cyclic(Add(g, t).succ)
  {
    var d :| d in t.dependencies && Reaches(g.succ, t.id, d);
    var p :| WalkBetween(g.succ, p, t.id, d);
    EdgesStay(g, t, p);
    AddedEdges(g, t, d, t.id);
    WalkSnoc(Add(g, t).succ, p, t.id);
    assert Cycle(Add(g, t).succ, p + [t.id]);
  }

  /** A cycle can be walked from any of its nodes on to the one before. */
  lemma {:induction false} TurnCycle(adj: Adjacency, c: seq<Id>, i: nat) returns (q: seq<Id>)
    requires Cycle(adj, c) && i + 1 < |c|
    ensures WalkBetween(adj, q, c[i + 1], c[i])
  {
    var p, r := c[i + 1..|c|], c[0..i + 1];
    WalkSlice(adj, c, i + 1, |c|);
    WalkSlice(adj, c, 0, i + 1);
    WalkConcat(adj, p, r);
    q := p + r[1..];
  }

  /** An acyclic graph becomes cyclic exactly when the added task reaches one of its dependencies
      already (itself included). */
  lemma {:induction false} AddClosesCycle(g: TaskGraph, t: GenerationTask)
    requires !Cyclic(g.succ)
    ensures Cyclic(Add(g, t).succ) <==> ClosesCycle(g, t)
  {
    if ClosesCycle(g, t) {
      ReachedClosesCycle(g, t);
    } else if Cyclic(Add(g, t).succ) {
      var c :| Cycle(Add(g, t).succ, c);
      var i := NewEdgeOnCycle(g, t, c);
      var q := TurnCycle(Add(g, t).succ, c, i);
      WalkFromNew(g, t, q);
    }
  }

  lemma {:induction false} AddStaysCyclic(g: TaskGraph, t: GenerationTask)
    requires Cyclic(g.succ)
    ensures Cyclic(Add(g, t).succ)
  {
    var p :| Cycle(g.succ, p);
    EdgesStay(g, t, p);
    assert Cycle(Add(g, t).succ, p);
  }

  // ---- runs ----------------------------------------------------------------------------------

  /** The tables and the cached order. */
  datatype CacheState = CacheState(g: TaskGraph, order: Option<seq<Id>>)

  datatype GraphOp = AddOp(task: GenerationTask) | RemoveOp(id: Id) | SortOp

  /** Whether sorting the graph, uncached, succeeds. */
  ghost predicate Sorts(g: TaskGraph) {
    !Cyclic(g.succ) && |Kahn.Order(g)| == |g.tasks.keys|
  }

  lemma {:induction false} EmptySorts()
    ensures Sorts(EMPTY_GRAPH)
  {
    assert forall u, v :: !Edge(EMPTY_GRAPH.succ, u, v);
    if Cyclic(EMPTY_GRAPH.succ) {
      var p :| Cycle(EMPTY_GRAPH.succ, p);
      LastEdge(EMPTY_GRAPH.succ, p);
    }
    assert Kahn.Initial(EMPTY_GRAPH).queue == [];
  }

  ghost function StepOp(s: CacheState, op: GraphOp): CacheState {
    match op
    case AddOp(t) => s.(g := Add(s.g, t))
    case RemoveOp(id) =>
      if id !in s.g.tasks.items then s
      else if CanDelete(s.g, id) then CacheState(Removed(s.g, id), None)
      else s.(g := HalfRemoved(s.g, id))
    case SortOp => if s.order.None? && Sorts(s.g) then s.(order := Some(Kahn.Order(s.g))) else s
  }

  /** The operations of a graph that starts empty, and the states before and after each of them. */
  datatype Run = Run(ops: seq<GraphOp>, states: seq<CacheState>) {
    ghost predicate Valid() {
      && |states| == |ops| + 1 && states[0] == CacheState(EMPTY_GRAPH, None)
      && forall i :: 0 <= i < |ops| ==> StepAt(i)
    }

    ghost predicate StepAt(i: nat) {
      i < |ops| < |states| && states[i + 1] == StepOp(states[i], ops[i])
    }

    /** Operation j takes a task out without failing; only that clears a cached order. */
    ghost predicate RemovesAt(j: nat) {
      j < |ops| < |states| && ops[j].RemoveOp? && Removes(states[j].g, ops[j].id)
    }

    /** Operation k is a sort that finds nothing cached and succeeds. */
    ghost predicate CachesAt(k: nat) {
      k < |ops| < |states| && ops[k].SortOp? && states[k].order.None? && Sorts(states[k].g)
    }

    /** Operation k made an order that nothing has cleared before operation n. */
    ghost predicate CachedBy(k: nat, n: nat) {
      CachesAt(k) && forall j :: k < j < n ==> !RemovesAt(j)
    }

    ghost predicate SomeCached(n: nat) {
      exists k :: 0 <= k < n && CachedBy(k, n)
    }
  }

  predicate Removes(g: TaskGraph, id: Id) {
    id in g.tasks.items && CanDelete(g, id)
  }

  /** What `has_cycle` answers: nothing is searched while an order is cached. */
  ghost predicate Answer(s: CacheState) {
    s.order.None? && Cyclic(s.g.succ)
  }

  lemma {:induction false} StepKeepsUsable(s: CacheState, op: GraphOp)
    requires Usable(s.g)
    ensures Usable(StepOp(s, op).g)
  {
    match op {
      case AddOp(t) => AddKeepsUsable(s.g, t);
      case RemoveOp(id) => RemovalKeepsUsable(s.g, id);
      case SortOp =>
    }
  }

  lemma {:induction false} NextUsable(r: Run, i: nat)
    requires r.StepAt(i) && Usable(r.states[i].g)
    ensures Usable(r.states[i + 1].g)
  {
    StepKeepsUsable(r.states[i], r.ops[i]);
  }

  lemma {:induction false} AlwaysUsable(r: Run, n: nat)
    requires r.Valid() && n <= |r.ops|
    ensures Usable(r.states[n].g)
  {
    if n > 0 {
      AlwaysUsable(r, n - 1);
      NextUsable(r, n - 1);
    }
  }

  lemma {:induction false} SomeCachedNext(r: Run, n: nat)
    ensures r.SomeCached(n + 1) <==> r.CachesAt(n) || (r.SomeCached(n) && !r.RemovesAt(n))
  {
    assert r.CachedBy(n, n + 1) <==> r.CachesAt(n);
    if r.SomeCached(n) && !r.RemovesAt(n) {
      var k :| 0 <= k < n && r.CachedBy(k, n);
      assert r.CachedBy(k, n + 1);
    }
    if r.SomeCached(n + 1) {
      var k :| 0 <= k < n + 1 && r.CachedBy(k, n + 1);
      assert k < n ==> r.CachedBy(k, n) && !r.RemovesAt(n);
    }
  }

  /** One operation makes an order when it sorts, drops the order when it removes, and otherwise
      leaves it as it is. */
  lemma {:induction false} StepCache(r: Run, n: nat)
    requires r.Valid() && n < |r.ops|
    ensures r.states[n + 1].order ==
      if r.CachesAt(n) then Some(Kahn.Order(r.states[n].g)) else if r.RemovesAt(n) then None else r.states[n].order
  {
    assert r.StepAt(n);
  }

  /** The order that is cached is that of the graph as it was at the sort. */
  lemma {:induction false} CachedOrder(r: Run, k: nat, n: nat)
    requires r.Valid() && k < n <= |r.ops| && r.CachedBy(k, n)
    ensures r.states[n].order == Some(Kahn.Order(r.states[k].g))
  {
    StepCache(r, n - 1);
    if k < n - 1 {
      assert r.CachedBy(k, n - 1) && !r.RemovesAt(n - 1);
      CachedOrder(r, k, n - 1);
    }
  }

  /** In every run an order is cached exactly when some sort succeeded and no removal has succeeded
      since. */
  lemma {:induction false} CacheStands(r: Run, n: nat)
    requires r.Valid() && n <= |r.ops|
    ensures r.states[n].order.Some? <==> r.SomeCached(n)
  {
    if n > 0 {
      CacheStands(r, n - 1);
      StepCache(r, n - 1);
      SomeCachedNext(r, n - 1);
    }
  }

  /** `has_cycle` answers wrongly after a run exactly when an order is cached, as above, and the
      graph has a cycle by now; its only wrong answer is no. */
  lemma {:induction false} WrongAnswerExactly(r: Run, n: nat)
    requires r.Valid() && n <= |r.ops|
    ensures var s := r.states[n];
      && (Answer(s) != Cyclic(s.g.succ) <==> r.SomeCached(n) && Cyclic(s.g.succ))
      && (Answer(s) ==> Cyclic(s.g.succ))
  {
    CacheStands(r, n);
  }

  // ---- from a sort on ------------------------------------------------------------------------

  /** From operation k to operation n no removal finds its task. */
  ghost predicate NoneFound(r: Run, k: nat, n: nat) {
    forall i :: k <= i < n ==> NoneFoundAt(r, i)
  }

  ghost predicate NoneFoundAt(r: Run, i: nat) {
    i < |r.ops| < |r.states| && !(r.ops[i].RemoveOp? && r.ops[i].id in r.states[i].g.tasks.items)
  }

  /** Operation i adds a task that is not in the order behind its dependencies. */
  ghost predicate Misplaced(r: Run, order: seq<Id>, i: nat) {
    i < |r.ops| && r.ops[i].AddOp? && !Stands(order, r.ops[i].task)
  }

  /** Operation i adds a task that reaches one of its dependencies already. */
  ghost predicate ClosesCycleAt(r: Run, i: nat) {
    i < |r.ops| < |r.states| && r.ops[i].AddOp? && ClosesCycle(r.states[i].g, r.ops[i].task)
  }

  /** What the next state keeps of the order that is cached. */
  lemma {:induction false} StepKeepsOrder(s: CacheState, op: GraphOp, order: seq<Id>)
    requires s.order == Some(order) && s.g.tasks.Valid()
    requires forall v :: v in order ==> v in s.g.tasks.keys
    requires !(op.RemoveOp? && op.id in s.g.tasks.items)
    ensures var t := StepOp(s, op);
      && t.order == Some(order) && t.g.tasks.Valid() && (forall v :: v in order ==> v in t.g.tasks.keys)
      && (TopologicalOrderOf(t.g, order) <==>
            TopologicalOrderOf(s.g, order) && (op.AddOp? ==> Stands(order, op.task)))
  {
    if op.AddOp? {
      AddedKeys(s.g, op.task);
      if TopologicalOrderOf(s.g, order) {
        AddKeepsOrder(s.g, op.task, order);
      } else if TopologicalOrderOf(Add(s.g, op.task), order) {
        AddOnlyBreaks(s.g, op.task, order);
      }
    }
  }

  lemma {:induction false} StepClosesCycle(s: CacheState, op: GraphOp)
    requires s.order.Some? && !(op.RemoveOp? && op.id in s.g.tasks.items)
    ensures Cyclic(StepOp(s, op).g.succ) <==> Cyclic(s.g.succ) || (op.AddOp? && ClosesCycle(s.g, op.task))
  {
    if op.AddOp? {
      if Cyclic(s.g.succ) {
        AddStaysCyclic(s.g, op.task);
      } else {
        AddClosesCycle(s.g, op.task);
      }
    }
  }

  lemma {:induction false} NextKeepsOrder(r: Run, i: nat, order: seq<Id>)
    requires r.Valid() && i < |r.ops| && NoneFoundAt(r, i)
    requires r.states[i].order == Some(order)
    requires forall v :: v in order ==> v in r.states[i].g.tasks.keys
    ensures var t := r.states[i + 1];
      && t.order == Some(order) && (forall v :: v in order ==> v in t.g.tasks.keys)
      && (TopologicalOrderOf(t.g, order) <==> TopologicalOrderOf(r.states[i].g, order) && !Misplaced(r, order, i))
  {
    AlwaysUsable(r, i);
    assert r.StepAt(i);
    StepKeepsOrder(r.states[i], r.ops[i], order);
  }

  ghost predicate NoneMisplaced(r: Run, order: seq<Id>, k: nat, n: nat) {
    forall i :: k <= i < n ==> !Misplaced(r, order, i)
  }

  lemma {:induction false} NoneMisplacedNext(r: Run, order: seq<Id>, k: nat, n: nat)
    requires k <= n
    ensures NoneMisplaced(r, order, k, n + 1) <==> NoneMisplaced(r, order, k, n) && !Misplaced(r, order, n)
  {
  }

  /** While no removal finds its task, the order cached at operation k stays cached, and it remains
      a topological order exactly when no task was added that does not stand in it behind its
      dependencies. */
  lemma {:induction false} OrderAfterSort(r: Run, k: nat, n: nat, order: seq<Id>)
    requires r.Valid() && k <= n <= |r.ops| && NoneFound(r, k, n)
    requires r.states[k].order == Some(order) && TopologicalOrderOf(r.states[k].g, order)
    ensures r.states[n].order == Some(order)
    ensures forall v :: v in order ==> v in r.states[n].g.tasks.keys
    ensures TopologicalOrderOf(r.states[n].g, order) <==> NoneMisplaced(r, order, k, n)
  {
    if n > k {
      OrderAfterSort(r, k, n - 1, order);
      NextKeepsOrder(r, n - 1, order);
      NoneMisplacedNext(r, order, k, n - 1);
    }
  }

  /** While no removal finds its task after a sort that cached its order, `has_cycle` comes to
      answer wrongly exactly when a task is added that reaches one of its dependencies. */
  lemma {:induction false} CycleAfterSort(r: Run, k: nat, n: nat)
    requires r.Valid() && k <= n <= |r.ops| && NoneFound(r, k, n)
    requires r.states[k].order.Some? && !Cyclic(r.states[k].g.succ)
    ensures r.states[n].order.Some?
    ensures Answer(r.states[n]) != Cyclic(r.states[n].g.succ) <==> exists i :: k <= i < n && ClosesCycleAt(r, i)
  {
    if n > k {
      CycleAfterSort(r, k, n - 1);
      assert NoneFoundAt(r, n - 1);
      assert r.StepAt(n - 1);
      StepClosesCycle(r.states[n - 1], r.ops[n - 1]);
      assert ClosesCycleAt(r, n - 1) <==> r.ops[n - 1].AddOp? && ClosesCycle(r.states[n - 1].g, r.ops[n - 1].task);
    }
  }
}
