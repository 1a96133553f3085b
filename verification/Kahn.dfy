/** Kahn's algorithm, run by both sorts and the planner, and what it computes on consistent tables. */
module Kahn {
  import opened Collections
  import opened Digraph
  import opened TaskGraphs

  datatype State = State(degree: map<Id, int>, queue: seq<Id>, order: seq<Id>)

  function Decrement(degree: map<Id, int>, v: Id): map<Id, int> {
    degree[v := Degree(degree, v) - 1]
  }

  /** The inner loop: decrement each neighbour's in-degree and enqueue it on reaching zero. */
  function Relax(degree: map<Id, int>, queue: seq<Id>, neighbours: seq<Id>): (map<Id, int>, seq<Id>)
    decreases |neighbours|
  {
    if neighbours == [] then (degree, queue)
    else
      var d := Decrement(degree, neighbours[0]);
      Relax(d, if d[neighbours[0]] == 0 then queue + [neighbours[0]] else queue, neighbours[1..])
  }

  /** The inner loop as the source runs it, in all three places. */
  method RelaxNeighbours(degree: map<Id, int>, queue: seq<Id>, neighbours: seq<Id>)
    returns (degree': map<Id, int>, queue': seq<Id>)
    ensures (degree', queue') == Relax(degree, queue, neighbours)
  {
    degree', queue' := degree, queue;
    for i := 0 to |neighbours|
      invariant Relax(degree', queue', neighbours[i..]) == Relax(degree, queue, neighbours)
    {
      assert neighbours[i..][1..] == neighbours[i + 1..];
      degree' := Decrement(degree', neighbours[i]);
      if degree'[neighbours[i]] == 0 {
        queue' := queue' + [neighbours[i]];
      }
    }
  }

  /** One round of the outer loop. */
  function Step(adj: Adjacency, s: State): State
    requires s.queue != []
  {
    var (d, q) := Relax(s.degree, s.queue[1..], Succ(adj, s.queue[0]));
    State(d, q, s.order + [s.queue[0]])
  }

  function Positive(degree: map<Id, int>): set<Id> {
    set k | k in degree && degree[k] > 0
  }

  /** Every round shrinks this, whatever the tables hold: a key is enqueued only as it turns
      from positive to zero. */
  function Work(s: State): nat {
    |s.queue| + |Positive(s.degree)|
  }

  lemma {:induction false} RelaxKeepsWork(degree: map<Id, int>, queue: seq<Id>, neighbours: seq<Id>)
    ensures var (d, q) := Relax(degree, queue, neighbours);
      |q| + |Positive(d)| == |queue| + |Positive(degree)|
    decreases |neighbours|
  {
    if neighbours != [] {
      var v := neighbours[0];
      var d := Decrement(degree, v);
      if Degree(degree, v) == 1 {
        assert Positive(d) == Positive(degree) - {v};
      } else {
        assert Positive(d) == Positive(degree);
      }
      RelaxKeepsWork(d, if d[v] == 0 then queue + [v] else queue, neighbours[1..]);
    }
  }

  /** The whole loop, run until the queue is empty. */
  function Finish(adj: Adjacency, s: State): State
    decreases Work(s)
  {
    if s.queue == [] then s
    else
      RelaxKeepsWork(s.degree, s.queue[1..], Succ(adj, s.queue[0]));
      Finish(adj, Step(adj, s))
  }

  /** The loop as `topological_sort` and the planner run it. */
  method Drain(adj: Adjacency, degree: map<Id, int>, queue: seq<Id>) returns (order: seq<Id>)
    ensures order == Finish(adj, State(degree, queue, [])).order
  {
    var d, q := degree, queue;
    order := [];
    while q != []
      invariant Finish(adj, State(d, q, order)) == Finish(adj, State(degree, queue, []))
      decreases Work(State(d, q, order))
    {
      ghost var state := State(d, q, order);
      var current := q[0];
      RelaxKeepsWork(d, q[1..], Succ(adj, current));
      d, q := RelaxNeighbours(d, q[1..], Succ(adj, current));
      order := order + [current];
      assert State(d, q, order) == Step(adj, state);
    }
  }

  /** `[id for id, degree in in_degree.items() if degree == 0]` */
  function Ready(degree: Dict<Id, int>): seq<Id> {
    Filter(degree.keys, k => Degree(degree.items, k) == 0)
  }

  /** The first tasks are those of in-degree zero, in the order of their keys. */
  lemma {:induction false} ReadyInOrder(degree: Dict<Id, int>)
    ensures InOrderOf(Ready(degree), degree.keys)
    ensures forall k :: k in Ready(degree) <==> k in degree.keys && (k in degree.items ==> degree.items[k] == 0)
  {
    FilterInOrder(degree.keys, k => Degree(degree.items, k) == 0);
  }

  /** What the inner loop enqueues comes behind the queue, in the order of the neighbours. */
  lemma {:induction false} RelaxInOrder(degree: map<Id, int>, queue: seq<Id>, neighbours: seq<Id>)
    ensures var q := Relax(degree, queue, neighbours).1;
      && queue <= q && InOrderOf(q[|queue|..], neighbours)
      && forall k :: k in q[|queue|..] ==> k in neighbours
    decreases |neighbours|
  {
    if neighbours != [] {
      var v, rest := neighbours[0], neighbours[1..];
      var d := Decrement(degree, v);
      var next := if d[v] == 0 then queue + [v] else queue;
      RelaxInOrder(d, next, rest);
      var q := Relax(d, next, rest).1;
      InOrderCons(v, d[v] == 0, q[|next|..], rest);
      assert [v] + rest == neighbours;
      assert q[|queue|..] == (if d[v] == 0 then [v] else []) + q[|next|..];
    }
  }

  function Initial(g: TaskGraph): State {
    State(g.degree.items, Ready(g.degree), [])
  }

  /** The order in which Kahn's algorithm takes the tasks of g. */
  function Order(g: TaskGraph): seq<Id> {
    Finish(g.succ, Initial(g)).order
  }

  /** Edge lists alone decide the run. */
  lemma {:induction false} FinishCongruent(a: Adjacency, b: Adjacency, s: State)
    requires SameEdges(a, b)
    ensures Finish(a, s) == Finish(b, s)
    decreases Work(s)
  {
    if s.queue != [] {
      RelaxKeepsWork(s.degree, s.queue[1..], Succ(a, s.queue[0]));
      FinishCongruent(a, b, Step(a, s));
    }
  }

  /** Relax subtracts occurrences and appends, once each, the keys that reached zero. */
  lemma {:induction false} RelaxEffect(degree: map<Id, int>, queue: seq<Id>, neighbours: seq<Id>)
    ensures var (d, q) := Relax(degree, queue, neighbours);
      && queue <= q
      && d.Keys == degree.Keys + (set v | v in neighbours)
      && Distinct(q[|queue|..])
      && (forall v :: Degree(d, v) == Degree(degree, v) - Count(neighbours, v))
      && (forall v :: v in q[|queue|..] <==> 1 <= Degree(degree, v) <= Count(neighbours, v))
    decreases |neighbours|
  {
    if neighbours != [] {
      var v := neighbours[0];
      var d1 := Decrement(degree, v);
      var q1 := if d1[v] == 0 then queue + [v] else queue;
      RelaxEffect(d1, q1, neighbours[1..]);
      var (d, q) := Relax(degree, queue, neighbours);
      var rest := q[|q1|..];
      assert q[|queue|..] == (if d1[v] == 0 then [v] else []) + rest;
      assert v in rest ==> 1 <= Degree(d1, v);
    }
  }

  /** How many positions of deps are not yet in done. */
  function Pending(deps: seq<Id>, done: seq<Id>): nat {
    if deps == [] then 0
    else (if deps[0] in done then 0 else 1) + Pending(deps[1..], done)
  }

  lemma PendingAfter(deps: seq<Id>, done: seq<Id>, u: Id)
    requires u !in done
    ensures Pending(deps, done + [u]) == Pending(deps, done) - Count(deps, u)
  {
  }

  lemma PendingZero(deps: seq<Id>, done: seq<Id>)
    ensures Pending(deps, done) == 0 <==> forall d :: d in deps ==> d in done
  {
  }

  lemma PendingNone(deps: seq<Id>)
    ensures Pending(deps, []) == |deps|
  {
  }

  /** What holds before every round. */
  ghost predicate Inv(g: TaskGraph, s: State) {
    && Distinct(s.order) && Distinct(s.queue)
    && (forall v :: v in s.order ==> v !in s.queue)
    && (forall v :: v in s.order || v in s.queue ==> v in g.tasks.keys)
    && (forall v :: v in g.tasks.keys ==>
          && Degree(s.degree, v) == Pending(Succ(g.pred, v), s.order)
          && (Degree(s.degree, v) == 0 <==> v in s.order || v in s.queue))
    && FinishOrder(g.pred, s.order)
  }

  lemma {:induction false} InitialInv(g: TaskGraph)
    requires Consistent(g)
    ensures Inv(g, Initial(g))
  {
    FilterDistinct(g.degree.keys, k => Degree(g.degree.items, k) == 0);
    forall v | v in g.tasks.keys
      ensures Degree(g.degree.items, v) == Pending(Succ(g.pred, v), [])
    {
      PendingNone(Succ(g.pred, v));
    }
  }

  /** What one round enqueues. */
  function Added(adj: Adjacency, s: State): (added: seq<Id>)
    requires s.queue != []
    ensures Step(adj, s).queue == s.queue[1..] + added
  {
    RelaxEffect(s.degree, s.queue[1..], Succ(adj, s.queue[0]));
    Step(adj, s).queue[|s.queue| - 1..]
  }

  /** A round counts the taken task off its dependents and enqueues those left with nothing pending. */
  lemma {:induction false} StepEffect(g: TaskGraph, s: State)
    requires Consistent(g) && Inv(g, s) && s.queue != []
    ensures var t := Step(g.succ, s);
      && Distinct(Added(g.succ, s))
      && (forall v :: v in Added(g.succ, s) ==> v in g.tasks.keys)
      && (forall v :: v in g.tasks.keys ==>
            && Degree(s.degree, v) >= Degree(t.degree, v) == Pending(Succ(g.pred, v), t.order)
            && (v in Added(g.succ, s) <==> Degree(s.degree, v) > 0 && Degree(t.degree, v) == 0))
  {
    var u := s.queue[0];
    var t := Step(g.succ, s);
    RelaxEffect(s.degree, s.queue[1..], Succ(g.succ, u));
    forall v | v in g.tasks.keys
      ensures Degree(s.degree, v) >= Degree(t.degree, v) == Pending(Succ(g.pred, v), t.order)
      ensures v in Added(g.succ, s) <==> Degree(s.degree, v) > 0 && Degree(t.degree, v) == 0
    {
      PendingAfter(Succ(g.pred, v), s.order, u);
      assert EdgeCount(g.succ, u, v) == EdgeCount(g.pred, v, u);
    }
    ConsistentEdges(g);
    forall v | v in Added(g.succ, s)
      ensures v in g.tasks.keys
    {
      CountPositive(Succ(g.succ, u), v);
      assert Edge(g.succ, u, v);
    }
  }

  lemma {:induction false} StepKeepsInv(g: TaskGraph, s: State)
    requires Consistent(g) && Inv(g, s) && s.queue != []
    ensures Inv(g, Step(g.succ, s))
  {
    var u := s.queue[0];
    var t := Step(g.succ, s);
    StepEffect(g, s);
    assert u !in s.queue[1..];
    DistinctConcat(s.queue[1..], Added(g.succ, s));
    assert FinishOrder(g.pred, t.order) by {
      PendingZero(Succ(g.pred, u), s.order);
      FinishOrderSnoc(g.pred, s.order, u);
    }
  }

  lemma {:induction false} FinishKeepsInv(g: TaskGraph, s: State)
    requires Consistent(g) && Inv(g, s)
    ensures Inv(g, Finish(g.succ, s)) && Finish(g.succ, s).queue == []
    decreases Work(s)
  {
    if s.queue != [] {
      RelaxKeepsWork(s.degree, s.queue[1..], Succ(g.succ, s.queue[0]));
      StepKeepsInv(g, s);
      FinishKeepsInv(g, Step(g.succ, s));
    }
  }

  ghost predicate DependenciesIn(g: TaskGraph, order: seq<Id>, v: Id) {
    forall d :: d in Succ(g.pred, v) ==> d in order
  }

  /** On consistent tables the order lists tasks once each, dependencies first, and takes a
      task exactly when it takes all its dependencies. */
  lemma {:induction false} OrderSound(g: TaskGraph)
    requires Consistent(g)
    ensures Distinct(Order(g)) && forall v :: v in Order(g) ==> v in g.tasks.keys
    ensures FinishOrder(g.pred, Order(g))
    ensures forall v {:trigger DependenciesIn(g, Order(g), v)} :: v in g.tasks.keys ==>
              (v in Order(g) <==> DependenciesIn(g, Order(g), v))
  {
    InitialInv(g);
    FinishKeepsInv(g, Initial(g));
    var s := Finish(g.succ, Initial(g));
    forall v {:trigger DependenciesIn(g, Order(g), v)} | v in g.tasks.keys
      ensures v in Order(g) <==> DependenciesIn(g, Order(g), v)
    {
      PendingZero(Succ(g.pred, v), s.order);
    }
  }

  lemma {:induction false} CompleteMeansAll(g: TaskGraph)
    requires Consistent(g)
    ensures |Order(g)| == |g.tasks.keys| <==> forall v :: v in g.tasks.keys ==> v in Order(g)
  {
    OrderSound(g);
    SameLength(Order(g), g.tasks.keys);
  }

  lemma {:induction false} NoCycleAmongOrdered(g: TaskGraph)
    requires Consistent(g) && |Order(g)| == |g.tasks.keys|
    ensures !Cyclic(g.succ)
  {
    OrderSound(g);
    ConsistentEdges(g);
    CompleteMeansAll(g);
    if Cyclic(g.succ) {
      var p :| Cycle(g.succ, p);
      LastEdge(g.succ, p);
      ReverseWalk(g.succ, g.pred, p);
      FinishedNotOnCycle(g.pred, Order(g), Reverse(p));
    }
  }

  lemma {:induction false} StuckMeansCycle(g: TaskGraph)
    requires Consistent(g) && Closed(g) && |Order(g)| != |g.tasks.keys|
    ensures Cyclic(g.succ)
  {
    OrderSound(g);
    ConsistentEdges(g);
    CompleteMeansAll(g);
    var rest := set v | v in g.tasks.keys && v !in Order(g);
    forall v | v in rest
      ensures HasPredecessorIn(g.succ, rest, v)
    {
      assert !DependenciesIn(g, Order(g), v);
      var d :| d in Succ(g.pred, v) && d !in Order(g);
      assert Edge(g.pred, v, d);
      assert Edge(g.succ, d, v);
    }
    var w :| w in g.tasks.keys && w !in Order(g);
    assert w in rest;
    NoSourceMeansCycle(g.succ, rest);
  }

  /** The order is complete exactly when no dependency is missing and there is no cycle. */
  lemma {:induction false} OrderComplete(g: TaskGraph)
    requires Consistent(g)
    ensures |Order(g)| == |g.tasks.keys| <==> Closed(g) && !Cyclic(g.succ)
  {
    if |Order(g)| == |g.tasks.keys| {
      NoCycleAmongOrdered(g);
      OrderSound(g);
      CompleteMeansAll(g);
      forall v, d | v in g.tasks.keys && Edge(g.pred, v, d)
        ensures d in g.tasks.keys
      {
        assert DependenciesIn(g, Order(g), v);
      }
    } else if Closed(g) {
      StuckMeansCycle(g);
    }
  }

  /** n rounds, one for each of the first n queued tasks. */
  function StepN(adj: Adjacency, s: State, n: nat): (t: State)
    requires n <= |s.queue|
    ensures |t.queue| >= |s.queue| - n
  {
    if n == 0 then s
    else
      var t := StepN(adj, s, n - 1);
      assert Step(adj, t).queue == t.queue[1..] + Added(adj, t);
      Step(adj, t)
  }

  lemma {:induction false} StepNEffect(adj: Adjacency, s: State, n: nat)
    requires n <= |s.queue|
    ensures var t := StepN(adj, s, n);
      && t.order == s.order + s.queue[..n]
      && s.queue[n..] <= t.queue
      && Work(t) == Work(s) - n
  {
    if n > 0 {
      StepNEffect(adj, s, n - 1);
      var t := StepN(adj, s, n - 1);
      RelaxKeepsWork(t.degree, t.queue[1..], Succ(adj, t.queue[0]));
      PrefixTail(s.queue[n - 1..], t.queue);
      assert s.queue[n - 1..][1..] == s.queue[n..];
      assert t.queue != [] && Step(adj, t).queue == t.queue[1..] + Added(adj, t);
      assert s.queue[..n] == s.queue[..n - 1] + [s.queue[n - 1]];
    }
  }

  lemma {:induction false} StepNFinish(adj: Adjacency, s: State, n: nat)
    requires n <= |s.queue|
    ensures Finish(adj, StepN(adj, s, n)) == Finish(adj, s)
  {
    if n > 0 {
      StepNFinish(adj, s, n - 1);
      StepNEffect(adj, s, n - 1);
    }
  }

  lemma {:induction false} StepNKeepsInv(g: TaskGraph, s: State, n: nat)
    requires Consistent(g) && Inv(g, s) && n <= |s.queue|
    ensures Inv(g, StepN(g.succ, s, n))
  {
    if n > 0 {
      StepNKeepsInv(g, s, n - 1);
      StepKeepsInv(g, StepN(g.succ, s, n - 1));
    }
  }

  /** The queue at the start of each pass over a whole layer. */
  function Layers(adj: Adjacency, s: State): seq<seq<Id>>
    decreases Work(s)
  {
    if s.queue == [] then []
    else
      StepNEffect(adj, s, |s.queue|);
      [s.queue] + Layers(adj, StepN(adj, s, |s.queue|))
  }

  function Levels(g: TaskGraph): seq<seq<Id>> {
    Layers(g.succ, Initial(g))
  }

  /** The longest walk ending in v has k edges. */
  ghost predicate AtLevel(adj: Adjacency, k: int, v: Id) {
    && (exists p :: WalkTo(adj, p, v) && |p| == k + 1)
    && (forall p :: WalkTo(adj, p, v) ==> |p| <= k + 1)
  }

  ghost predicate WalkTo(adj: Adjacency, p: seq<Id>, v: Id) {
    Walk(adj, p) && p[|p| - 1] == v
  }

  /** If v's predecessors all have levels up to k, and one has level k, then v has level k + 1. */
  lemma {:induction false} NextLevel(adj: Adjacency, k: nat, u: Id, v: Id)
    requires AtLevel(adj, k, u) && Edge(adj, u, v)
    requires forall d {:trigger Edge(adj, d, v)} :: Edge(adj, d, v) ==> exists j :: 0 <= j <= k && AtLevel(adj, j, d)
    ensures AtLevel(adj, k + 1, v)
  {
    var p :| WalkTo(adj, p, u) && |p| == k + 1;
    WalkSnoc(adj, p, v);
    assert WalkTo(adj, p + [v], v);
    forall q | WalkTo(adj, q, v)
      ensures |q| <= k + 2
    {
      if |q| >= 2 {
        WalkSlice(adj, q, 0, |q| - 1);
        LastEdge(adj, q);
        var j :| 0 <= j <= k && AtLevel(adj, j, q[|q| - 2]);
        assert WalkTo(adj, q[0..|q| - 1], q[|q| - 2]);
      }
    }
  }

  lemma {:induction false} FirstLevel(adj: Adjacency, v: Id)
    requires forall d :: !Edge(adj, d, v)
    ensures AtLevel(adj, 0, v)
  {
    assert WalkTo(adj, [v], v);
    forall q | WalkTo(adj, q, v)
      ensures |q| <= 1
    {
      if |q| >= 2 { LastEdge(adj, q); }
    }
  }

  /** The layers, flattened, continue the order that the plain loop produces. */
  lemma {:induction false} LayersFlatten(adj: Adjacency, s: State)
    ensures Finish(adj, s).order == s.order + Flatten(Layers(adj, s))
    decreases Work(s)
  {
    if s.queue != [] {
      var n := |s.queue|;
      var t := StepN(adj, s, n);
      StepNEffect(adj, s, n);
      StepNFinish(adj, s, n);
      LayersFlatten(adj, t);
      assert s.queue[..n] == s.queue;
    }
  }

  ghost predicate LevelsExact(adj: Adjacency, levels: seq<seq<Id>>) {
    forall k, v :: 0 <= k < |levels| && v in levels[k] ==> AtLevel(adj, k, v)
  }

  lemma {:induction false} LevelBoundsWalks(adj: Adjacency, levels: seq<seq<Id>>, k: nat, p: seq<Id>)
    requires LevelsExact(adj, levels) && k < |levels|
    requires Walk(adj, p) && p[|p| - 1] in levels[k]
    ensures |p| <= k + 1
  {
    assert AtLevel(adj, k, p[|p| - 1]);
    assert WalkTo(adj, p, p[|p| - 1]);
  }

  /** Every placed task sits at its longest incoming walk, and the queue is the next layer. */
  ghost predicate Layered(g: TaskGraph, levels: seq<seq<Id>>, s: State) {
    && Inv(g, s)
    && s.order == Flatten(levels)
    && LevelsExact(g.succ, levels)
    && (forall v :: v in s.queue ==> AtLevel(g.succ, |levels|, v))
  }

  lemma {:induction false} InitialLayered(g: TaskGraph)
    requires Consistent(g)
    ensures Layered(g, [], Initial(g))
  {
    InitialInv(g);
    ConsistentEdges(g);
    forall v | v in Initial(g).queue
      ensures AtLevel(g.succ, 0, v)
    {
      assert Succ(g.pred, v) == [];
      assert forall d :: Edge(g.succ, d, v) ==> d in Succ(g.pred, v);
      FirstLevel(g.succ, v);
    }
  }

  lemma FlattenMember(ss: seq<seq<Id>>, x: Id)
    ensures x in Flatten(ss) <==> exists k :: 0 <= k < |ss| && x in ss[k]
  {
    if ss != [] {
      FlattenMember(ss[1..], x);
      if x in Flatten(ss[1..]) {
        var k :| 0 <= k < |ss[1..]| && x in ss[1..][k];
        assert x in ss[k + 1];
      }
    }
  }

  /** A task that becomes ready during a pass has all its dependencies placed by the end of the
      pass, and at least one of them in that pass. */
  lemma {:induction false} NewlyReady(g: TaskGraph, s: State, v: Id)
    requires Consistent(g) && Inv(g, s) && s.queue != []
    requires v in StepN(g.succ, s, |s.queue|).queue
    ensures forall d :: d in Succ(g.pred, v) ==> d in s.order || d in s.queue
    ensures exists d :: d in Succ(g.pred, v) && d in s.queue
  {
    var n := |s.queue|;
    var t := StepN(g.succ, s, n);
    StepNEffect(g.succ, s, n);
    StepNKeepsInv(g, s, n);
    assert s.queue[..n] == s.queue;
    PendingZero(Succ(g.pred, v), t.order);
    PendingZero(Succ(g.pred, v), s.order);
    assert v !in t.order;
  }

  lemma {:induction false} LevelsExactSnoc(adj: Adjacency, levels: seq<seq<Id>>, layer: seq<Id>)
    requires LevelsExact(adj, levels)
    requires forall v :: v in layer ==> AtLevel(adj, |levels|, v)
    ensures LevelsExact(adj, levels + [layer])
  {
    var all := levels + [layer];
    forall k, v | 0 <= k < |all| && v in all[k]
      ensures AtLevel(adj, k, v)
    {
      if k < |levels| { assert v in levels[k]; }
    }
  }

  /** A dependency of a task that becomes ready has a level up to the pass's. */
  lemma {:induction false} DependencyPlaced(g: TaskGraph, levels: seq<seq<Id>>, s: State, d: Id)
    requires Layered(g, levels, s) && (d in s.order || d in s.queue)
    ensures exists j :: 0 <= j <= |levels| && AtLevel(g.succ, j, d)
  {
    FlattenMember(levels, d);
    if d in s.queue {
      assert AtLevel(g.succ, |levels|, d);
    } else {
      var k :| 0 <= k < |levels| && d in levels[k];
      assert AtLevel(g.succ, k, d);
    }
  }

  /** A task that becomes ready during a pass belongs to the next layer. */
  lemma {:induction false} NextLayer(g: TaskGraph, levels: seq<seq<Id>>, s: State, v: Id)
    requires Consistent(g) && Layered(g, levels, s) && s.queue != []
    requires v in StepN(g.succ, s, |s.queue|).queue
    ensures AtLevel(g.succ, |levels| + 1, v)
  {
    NewlyReady(g, s, v);
    ConsistentEdges(g);
    var u :| u in Succ(g.pred, v) && u in s.queue;
    forall d {:trigger Edge(g.succ, d, v)} | Edge(g.succ, d, v)
      ensures exists j :: 0 <= j <= |levels| && AtLevel(g.succ, j, d)
    {
      DependencyPlaced(g, levels, s, d);
    }
    NextLevel(g.succ, |levels|, u, v);
  }

  lemma {:induction false} PassKeepsLayered(g: TaskGraph, levels: seq<seq<Id>>, s: State)
    requires Consistent(g) && Layered(g, levels, s) && s.queue != []
    ensures Layered(g, levels + [s.queue], StepN(g.succ, s, |s.queue|))
  {
    var n := |s.queue|;
    StepNEffect(g.succ, s, n);
    StepNKeepsInv(g, s, n);
    TakeAll(s.queue);
    FlattenSnoc(levels, s.queue);
    LevelsExactSnoc(g.succ, levels, s.queue);
    forall v | v in StepN(g.succ, s, n).queue ensures AtLevel(g.succ, |levels| + 1, v) {
      NextLayer(g, levels, s, v);
    }
  }

  lemma {:induction false} LayersSound(g: TaskGraph, done: seq<seq<Id>>, s: State)
    requires Consistent(g) && Layered(g, done, s)
    ensures LevelsExact(g.succ, done + Layers(g.succ, s))
    decreases Work(s)
  {
    if s.queue == [] {
      assert done + [] == done;
    } else {
      var t := StepN(g.succ, s, |s.queue|);
      StepNEffect(g.succ, s, |s.queue|);
      PassKeepsLayered(g, done, s);
      LayersSound(g, done + [s.queue], t);
      ConcatAssociative(done, [s.queue], Layers(g.succ, t));
    }
  }

  lemma {:induction false} LayersNonEmpty(adj: Adjacency, s: State, k: nat)
    requires k < |Layers(adj, s)|
    ensures Layers(adj, s)[k] != []
    decreases k
  {
    if k > 0 { LayersNonEmpty(adj, StepN(adj, s, |s.queue|), k - 1); }
  }

  /** The levels list the same tasks in the same order as the sort, and a task's level is the
      length of the longest path of dependencies leading to it. */
  lemma {:induction false} LevelsAreLongestPaths(g: TaskGraph)
    requires Consistent(g)
    ensures Flatten(Levels(g)) == Order(g)
    ensures LevelsExact(g.succ, Levels(g))
    ensures forall k :: 0 <= k < |Levels(g)| ==> Levels(g)[k] != []
  {
    LayersFlatten(g.succ, Initial(g));
    InitialLayered(g);
    LayersSound(g, [], Initial(g));
    assert [] + Levels(g) == Levels(g);
    forall k | 0 <= k < |Levels(g)| ensures Levels(g)[k] != [] {
      LayersNonEmpty(g.succ, Initial(g), k);
    }
  }
}
