/** `generator/dependency.py`: the resolver, which combines the tasks of several graphs into one.
    What it promises, it promises for requests that add every task to the combined graph once. */
module Resolver {
  import opened Collections
  import opened Digraph
  import opened TaskGraphs
  import opened SortCache
  import opened DependencyGraphs
  import Kahn

  /** The task tables of the resolver's graphs, in the order the graphs were made. */
  type Registry = seq<Dict<Id, GenerationTask>>

  /** What every run of the graphs keeps of their task tables. */
  ghost predicate WellFormed(graphs: Registry) {
    forall i :: 0 <= i < |graphs| ==> graphs[i].Valid() && WellKeyed(graphs[i])
  }

  /** The task that the first graph having the id holds under it. */
  function Find(graphs: Registry, id: Id): Option<GenerationTask> {
    if graphs == [] then None
    else if id in graphs[0].items then Some(graphs[0].items[id])
    else Find(graphs[1..], id)
  }

  /** `_get_all_task_ids` */
  function AllTaskIds(graphs: Registry): seq<Id> {
    if graphs == [] then [] else graphs[0].keys + AllTaskIds(graphs[1..])
  }

  /** `_get_task_type(id) == type` */
  predicate HasType(graphs: Registry, id: Id, taskType: Id) {
    Find(graphs, id).Some? && Find(graphs, id).value.taskType == taskType
  }

  /** Whether a type filter selects the task; the empty string filters nothing. */
  predicate Selected(graphs: Registry, filter: Option<Id>, id: Id) {
    filter.Some? && filter.value.text != "" ==> HasType(graphs, id, filter.value)
  }

  /** `_get_tasks_to_include`: the known ones of those asked for; without any, all selected tasks. */
  function Included(graphs: Registry, ids: seq<Id>, filter: Option<Id>): seq<Id> {
    var all := AllTaskIds(graphs);
    if ids != [] then Keep(ids, Elements(all)) else Filter(all, id => Selected(graphs, filter, id))
  }

  /** The tasks of the included ids. */
  function Collected(graphs: Registry, ids: seq<Id>): seq<GenerationTask> {
    if ids == [] then []
    else
      var earlier := Collected(graphs, ids[..|ids| - 1]);
      var found := Find(graphs, ids[|ids| - 1]);
      if found.None? then earlier else earlier + [found.value]
  }

  lemma {:induction false} BuildSnoc(ts: seq<GenerationTask>, t: GenerationTask)
    ensures Build(ts + [t]) == Add(Build(ts), t)
  {
    assert (ts + [t])[..|ts|] == ts;
  }

  // ---- which tasks are included --------------------------------------------------------------

  /** The k-th graph is the first to hold the id. */
  ghost predicate HeldFirst(graphs: Registry, id: Id, k: nat) {
    && k < |graphs| && id in graphs[k].items
    && forall j :: 0 <= j < k ==> id !in graphs[j].items
  }

  lemma {:induction false} FindsFirst(graphs: Registry, id: Id)
    ensures Find(graphs, id).Some? <==> exists k: nat :: HeldFirst(graphs, id, k)
    ensures forall k: nat :: HeldFirst(graphs, id, k) ==> Find(graphs, id) == Some(graphs[k].items[id])
  {
    if graphs == [] {
    } else if id in graphs[0].items {
      assert HeldFirst(graphs, id, 0);
    } else {
      FindsFirst(graphs[1..], id);
      forall k: nat ensures HeldFirst(graphs, id, k) <==> k > 0 && HeldFirst(graphs[1..], id, k - 1) {
        HeldFirstTail(graphs, id, k);
      }
      if k: nat :| HeldFirst(graphs[1..], id, k) {
        assert HeldFirst(graphs, id, k + 1);
      }
    }
  }

  lemma {:induction false} HeldFirstTail(graphs: Registry, id: Id, k: nat)
    requires graphs != [] && id !in graphs[0].items
    ensures HeldFirst(graphs, id, k) <==> k > 0 && HeldFirst(graphs[1..], id, k - 1)
  {
    if HeldFirst(graphs, id, k) {
      assert k > 0 && HeldFirst(graphs[1..], id, k - 1);
    } else if k > 0 && HeldFirst(graphs[1..], id, k - 1) {
      forall j | 0 <= j < k ensures id !in graphs[j].items {
        assert j > 0 ==> graphs[j] == graphs[1..][j - 1];
      }
    }
  }

  /** Of the ids asked for those are included that some graph holds; without any, of all ids those whose
      task, in the first graph that holds it, is of the type that is asked for, if one is. */
  lemma {:induction false} IncludedExactly(graphs: Registry, ids: seq<Id>, filter: Option<Id>, id: Id)
    requires WellFormed(graphs)
    ensures id in Included(graphs, ids, filter) <==>
      if ids != [] then id in ids && exists k: nat :: HeldFirst(graphs, id, k)
      else exists k: nat :: HeldFirst(graphs, id, k)
                            && (filter.None? || filter.value.text == ""
                                || graphs[k].items[id].taskType == filter.value)
  {
    FindKnown(graphs, id);
    FindsFirst(graphs, id);
    assert id in Elements(AllTaskIds(graphs)) <==> id in AllTaskIds(graphs);
  }

  /** The order of the ids: graph by graph, each in the order its tasks were added. */
  lemma {:induction false} AllIdsInOrder(graphs: Registry, more: Registry)
    ensures AllTaskIds(graphs + more) == AllTaskIds(graphs) + AllTaskIds(more)
    ensures |more| == 1 ==> AllTaskIds(more) == more[0].keys
  {
    if graphs == [] {
      assert graphs + more == more;
    } else {
      assert (graphs + more)[1..] == graphs[1..] + more;
      AllIdsInOrder(graphs[1..], more);
    }
    if |more| == 1 {
      assert more[0].keys + [] == more[0].keys;
    }
  }

  /** Included ids keep their order: that of the request, or that of all ids. */
  lemma {:induction false} IncludedInOrder(graphs: Registry, ids: seq<Id>, filter: Option<Id>)
    ensures InOrderOf(Included(graphs, ids, filter), if ids != [] then ids else AllTaskIds(graphs))
  {
    if ids != [] {
      KeepInOrder(ids, Elements(AllTaskIds(graphs)));
    } else {
      FilterInOrder(AllTaskIds(graphs), id => Selected(graphs, filter, id));
    }
  }

  // ---- when every task is added once ---------------------------------------------------------

  /** How many graphs hold the id. */
  function Holders(graphs: Registry, id: Id): nat {
    if graphs == [] then 0 else (if id in graphs[0].items then 1 else 0) + Holders(graphs[1..], id)
  }

  /** How often an included id is added to the combined graph. */
  function Times(graphs: Registry, ids: seq<Id>, id: Id): nat {
    if ids != [] then Count(ids, id) else Holders(graphs, id)
  }

  /** No included id was asked for twice or, when all tasks are resolved, is held by two graphs. */
  ghost predicate Unambiguous(graphs: Registry, ids: seq<Id>, filter: Option<Id>) {
    forall id :: id in Included(graphs, ids, filter) ==> Times(graphs, ids, id) <= 1
  }

  lemma {:induction false} WellFormedTail(graphs: Registry)
    requires WellFormed(graphs) && graphs != []
    ensures WellFormed(graphs[1..]) && graphs[0].Valid() && WellKeyed(graphs[0])
  {
  }

  lemma {:induction false} FindKnown(graphs: Registry, id: Id)
    requires WellFormed(graphs)
    ensures Find(graphs, id).Some? <==> id in AllTaskIds(graphs)
    ensures Find(graphs, id).Some? ==> Find(graphs, id).value.id == id
  {
    if graphs != [] {
      WellFormedTail(graphs);
      FindKnown(graphs[1..], id);
    }
  }

  lemma {:induction false} HoldersCount(graphs: Registry, id: Id)
    requires WellFormed(graphs)
    ensures Count(AllTaskIds(graphs), id) == Holders(graphs, id)
  {
    if graphs != [] {
      WellFormedTail(graphs);
      HoldersCount(graphs[1..], id);
      CountAppend(graphs[0].keys, AllTaskIds(graphs[1..]), id);
      CountDistinct(graphs[0].keys, id);
    }
  }

  lemma {:induction false} IncludedCount(graphs: Registry, ids: seq<Id>, filter: Option<Id>, id: Id)
    requires WellFormed(graphs)
    ensures var included := Included(graphs, ids, filter);
      && Count(included, id) == (if id in included then Times(graphs, ids, id) else 0)
      && (id in included ==> Find(graphs, id).Some?)
  {
    var all := AllTaskIds(graphs);
    FindKnown(graphs, id);
    CountPositive(Included(graphs, ids, filter), id);
    if ids != [] {
      KeepCount(ids, Elements(all), id);
    } else {
      FilterCount(all, x => Selected(graphs, filter, x), id);
      HoldersCount(graphs, id);
    }
  }

  /** The included ids are distinct exactly when the request is unambiguous. */
  lemma {:induction false} IncludedDistinct(graphs: Registry, ids: seq<Id>, filter: Option<Id>)
    requires WellFormed(graphs)
    ensures Distinct(Included(graphs, ids, filter)) <==> Unambiguous(graphs, ids, filter)
    ensures forall id :: id in Included(graphs, ids, filter) ==> Find(graphs, id).Some?
  {
    var included := Included(graphs, ids, filter);
    forall id ensures id in included ==> Find(graphs, id).Some? && Count(included, id) == Times(graphs, ids, id) {
      IncludedCount(graphs, ids, filter, id);
    }
    DistinctByCount(included);
    if Unambiguous(graphs, ids, filter) {
      forall id ensures Count(included, id) <= 1 {
        CountPositive(included, id);
      }
    } else {
      var id :| id in included && Times(graphs, ids, id) > 1;
      assert Count(included, id) > 1;
    }
  }

  /** The tasks that are collected carry the included ids. */
  lemma {:induction false} CollectedIds(graphs: Registry, included: seq<Id>)
    requires WellFormed(graphs) && forall id :: id in included ==> Find(graphs, id).Some?
    ensures var ts := Collected(graphs, included);
      TaskIds(ts) == included && forall i :: 0 <= i < |included| ==> Find(graphs, included[i]) == Some(ts[i])
  {
    if included != [] {
      var n := |included| - 1;
      CollectedIds(graphs, included[..n]);
      FindKnown(graphs, included[n]);
      Snoc(included);
    }
  }

  // ---- what is resolved ----------------------------------------------------------------------

  /** The dependencies of the included tasks, as the registry holds them. */
  function Needs(graphs: Registry, included: seq<Id>): Adjacency {
    map id | id in included :: if Find(graphs, id).Some? then Find(graphs, id).value.dependencies else []
  }

  /** The included tasks, once each, every task after all its dependencies. */
  ghost predicate ResolvedOrder(graphs: Registry, included: seq<Id>, order: seq<Id>) {
    && Distinct(order)
    && (forall id :: id in order <==> id in included)
    && FinishOrder(Needs(graphs, included), order)
  }

  ghost predicate Resolvable(graphs: Registry, included: seq<Id>) {
    exists order :: ResolvedOrder(graphs, included, order)
  }

  /** No dependency of an included task is left out. */
  ghost predicate NeedsIncluded(graphs: Registry, included: seq<Id>) {
    forall id, d :: Edge(Needs(graphs, included), id, d) ==> d in included
  }

  /** The combined graph's tables, for distinct included ids. */
  lemma {:induction false} CombinedTables(graphs: Registry, included: seq<Id>)
    requires WellFormed(graphs) && Distinct(included) && forall id :: id in included ==> Find(graphs, id).Some?
    ensures var g := Build(Collected(graphs, included));
      Consistent(g) && g.tasks.keys == included && SameEdges(g.pred, Needs(graphs, included))
  {
    var ts := Collected(graphs, included);
    var g := Build(ts);
    CollectedIds(graphs, included);
    BuildConsistent(ts);
    forall v ensures Succ(g.pred, v) == Succ(Needs(graphs, included), v) {
      if v in included {
        var i :| 0 <= i < |included| && included[i] == v;
        BuildRecordsTasks(ts, i);
      }
    }
  }

  lemma {:induction false} SameFinishOrder(a: Adjacency, b: Adjacency, order: seq<Id>)
    requires SameEdges(a, b)
    ensures FinishOrder(a, order) <==> FinishOrder(b, order)
  {
    assert forall u, v :: Edge(a, u, v) <==> Edge(b, u, v);
  }

  lemma {:induction false} OrderedMeansAcyclic(g: TaskGraph, order: seq<Id>)
    requires Consistent(g) && TopologicalOrderOf(g, order)
    ensures Closed(g) && !Cyclic(g.succ)
  {
    ConsistentEdges(g);
    forall v, d | v in g.tasks.keys && Edge(g.pred, v, d) ensures d in g.tasks.keys {
      var i :| 0 <= i < |order| && order[i] == v;
      assert Edge(g.pred, order[i], d);
    }
    if Cyclic(g.succ) {
      var p :| Cycle(g.succ, p);
      ReverseWalk(g.succ, g.pred, p);
      LastEdge(g.succ, p);
      FinishedNotOnCycle(g.pred, order, Reverse(p));
    }
  }

  lemma {:induction false} SortsExactly(g: TaskGraph, needs: Adjacency)
    requires Consistent(g) && SameEdges(g.pred, needs)
    ensures Sorts(g) <==>
      (forall v, d :: v in g.tasks.keys && Edge(needs, v, d) ==> d in g.tasks.keys) && !Cyclic(g.succ)
    ensures Sorts(g) <==> TopologicalOrderOf(g, Kahn.Order(g))
  {
    SortSucceedsExactly(g);
    assert forall v, d :: Edge(g.pred, v, d) <==> Edge(needs, v, d);
  }

  lemma {:induction false} ResolvableSorts(graphs: Registry, included: seq<Id>, g: TaskGraph)
    requires Consistent(g) && g.tasks.keys == included && SameEdges(g.pred, Needs(graphs, included))
    ensures Sorts(g) <==> Resolvable(graphs, included)
    ensures Sorts(g) ==> ResolvedOrder(graphs, included, Kahn.Order(g))
  {
    SortSucceedsExactly(g);
    SameFinishOrder(g.pred, Needs(graphs, included), Kahn.Order(g));
    if Sorts(g) {
      assert ResolvedOrder(graphs, included, Kahn.Order(g));
    } else if Resolvable(graphs, included) {
      var order :| ResolvedOrder(graphs, included, order);
      SameFinishOrder(g.pred, Needs(graphs, included), order);
      OrderedMeansAcyclic(g, order);
    }
  }

  /** For distinct included ids the sort of the combined graph succeeds exactly when an order with
      dependencies first exists at all, which is when they include their dependencies and have no
      cycle; then its result is such an order. */
  lemma {:induction false} ResolvesExactly(graphs: Registry, included: seq<Id>)
    requires WellFormed(graphs) && Distinct(included) && forall id :: id in included ==> Find(graphs, id).Some?
    ensures var g := Build(Collected(graphs, included));
      && (Sorts(g) <==> Resolvable(graphs, included))
      && (Sorts(g) <==> NeedsIncluded(graphs, included) && !Cyclic(g.succ))
      && (Sorts(g) ==> ResolvedOrder(graphs, included, Kahn.Order(g)))
  {
    var g := Build(Collected(graphs, included));
    CombinedTables(graphs, included);
    ResolvableSorts(graphs, included, g);
    SortsExactly(g, Needs(graphs, included));
  }

  class DependencyResolver {
    const enableCycleDetection: bool
    const strictMode: bool
    var graphs: Registry

    constructor (enableCycleDetection: bool, strictMode: bool, graphs: Registry)
      ensures this.enableCycleDetection == enableCycleDetection && this.strictMode == strictMode
      ensures this.graphs == graphs
    {
      this.enableCycleDetection, this.strictMode, this.graphs := enableCycleDetection, strictMode, graphs;
    }

    method BuildCombinedGraph(ids: seq<Id>) returns (combined: DependencyGraph)
      ensures fresh(combined) && combined.Valid() && combined.topologicalOrder == None
      ensures combined.Tables() == Build(Collected(graphs, ids))
    {
      combined := new DependencyGraph();
      for i := 0 to |ids|
        invariant fresh(combined) && combined.Valid() && combined.topologicalOrder == None
        invariant combined.Tables() == Build(Collected(graphs, ids[..i]))
      {
        assert ids[..i + 1][..i] == ids[..i];
        var found := Find(graphs, ids[i]);
        if found.Some? {
          BuildSnoc(Collected(graphs, ids[..i]), found.value);
          combined.AddTask(found.value);
        }
      }
      TakeAll(ids);
    }

    /** `resolve_order`: Kahn's order of the combined graph; where there is none, an error in strict
        mode and otherwise the ids as they were included. */
    method ResolveOrder(ids: seq<Id>, filter: Option<Id>) returns (r: Result<seq<Id>, SortError>)
      ensures var included := Included(graphs, ids, filter);
        var g := Build(Collected(graphs, included));
        if Sorts(g) then r == Ok(Kahn.Order(g))
        else if strictMode then r.Err? && (r.error.CycleFound? <==> Cyclic(g.succ))
        else r == Ok(included)
      ensures WellFormed(graphs) && Unambiguous(graphs, ids, filter) ==>
                var included := Included(graphs, ids, filter);
                if Resolvable(graphs, included) then r.Ok? && ResolvedOrder(graphs, included, r.value)
                else if strictMode then r.Err?
                else r == Ok(included)
    {
      var included := Included(graphs, ids, filter);
      if WellFormed(graphs) && Unambiguous(graphs, ids, filter) {
        IncludedDistinct(graphs, ids, filter);
        ResolvesExactly(graphs, included);
      }
      var combined := BuildCombinedGraph(included);
      if enableCycleDetection {
        var cyclic := combined.HasCycle();
        if cyclic && strictMode {
          return Err(CycleFound(combined.cycleNodes));
        }
      }
      r := combined.TopologicalSort();
      if r.Err? && !strictMode {
        return Ok(included);
      }
    }
  }

  // ---- a repeated id -------------------------------------------------------------------------

  function Task(id: Id, dependencies: seq<Id>): GenerationTask {
    GenerationTask(id, dependencies, Id("specialist"))
  }

  /** One graph of three tasks: b depends on a, and t on both. */
  function Three(a: Id, b: Id, t: Id): Registry {
    [Dict([a, b, t], map[a := Task(a, []), b := Task(b, [a]), t := Task(t, [a, b])])]
  }

  lemma {:induction false} AddPair(g: TaskGraph, id: Id, d: Id, e: Id)
    ensures Add(g, Task(id, [])) == Register(g, Task(id, []))
    ensures Add(g, Task(id, [d])) == AddEdge(Register(g, Task(id, [d])), id, d)
    ensures Add(g, Task(id, [d, e])) == AddEdge(AddEdge(Register(g, Task(id, [d, e])), id, d), id, e)
  {
    AddEdgesNext(Register(g, Task(id, [d])), id, [d], 0);
    AddEdgesNext(Register(g, Task(id, [d, e])), id, [d, e], 0);
    AddEdgesNext(Register(g, Task(id, [d, e])), id, [d, e], 1);
    TakeAll([d]);
    TakeAll([d, e]);
  }

  lemma {:induction false} FirstTwo(a: Id, b: Id, t: Id)
    requires a != b && a != t && b != t
    ensures var g := Add(Add(EMPTY_GRAPH, Task(a, [])), Task(t, [a, b]));
      && g.tasks.keys == [a, t] && t in g.tasks.items && b !in g.tasks.items
      && g.succ == map[a := [t], b := [t]] && g.degree == Dict([a, t], map[a := 0, t := 2])
  {
    var g1 := Add(EMPTY_GRAPH, Task(a, []));
    AddPair(EMPTY_GRAPH, a, a, a);
    assert g1.tasks.keys == [a] && g1.succ == map[] && g1.degree == Dict([a], map[a := 0]);
    DependsOnBoth(g1, a, b, t);
    assert [] + [t] == [t];
  }

  lemma {:induction false} Again(g: TaskGraph, a: Id, b: Id, t: Id)
    requires a != b && a != t && b != t && g.tasks.keys == [a, t] && t in g.tasks.items && b !in g.tasks.items
    requires g.succ == map[a := [t], b := [t]] && g.degree == Dict([a, t], map[a := 0, t := 2])
    ensures var r := Add(g, Task(t, [a, b]));
      && r.tasks.keys == [a, t] && b !in r.tasks.items
      && r.succ == map[a := [t, t], b := [t, t]] && r.degree == Dict([a, t], map[a := 0, t := 2])
  {
    DependsOnBoth(g, a, b, t);
    assert [t] + [t] == [t, t];
  }

  /** The combined graph when t is asked for twice: its edges are doubled, its in-degree is not. */
  lemma {:induction false} RepeatedTables(a: Id, b: Id, t: Id)
    requires a != b && a != t && b != t
    ensures var g := Build([Task(a, []), Task(t, [a, b]), Task(t, [a, b]), Task(b, [a])]);
      && g.tasks.keys == [a, t, b]
      && g.succ == map[a := [t, t, b], b := [t, t]]
      && g.degree == Dict([a, t, b], map[a := 0, t := 2, b := 1])
  {
    var g1 := Add(EMPTY_GRAPH, Task(a, []));
    var g2 := Add(g1, Task(t, [a, b]));
    var g3 := Add(g2, Task(t, [a, b]));
    FirstTwo(a, b, t);
    Again(g2, a, b, t);
    LastTask(g3, a, b, t);
    BuildFour(Task(a, []), Task(t, [a, b]), Task(t, [a, b]), Task(b, [a]), g1, g2, g3);
  }

  lemma {:induction false} DependsOnBoth(g: TaskGraph, a: Id, b: Id, t: Id)
    ensures var r := Add(g, Task(t, [a, b]));
      && r.tasks == g.tasks.Put(t, Task(t, [a, b])) && r.degree == g.degree.Put(t, 2)
      && r.succ == Append(Append(g.succ, a, t), b, t)
  {
    AddTables(g, Task(t, [a, b]));
    AddPair(g, t, a, b);
  }

  lemma {:induction false} LastTask(g: TaskGraph, a: Id, b: Id, t: Id)
    requires a != b && a != t && b != t && g.tasks.keys == [a, t] && b !in g.tasks.items
    requires g.succ == map[a := [t, t], b := [t, t]] && g.degree == Dict([a, t], map[a := 0, t := 2])
    ensures var r := Add(g, Task(b, [a]));
      && r.tasks.keys == [a, t, b] && r.succ == map[a := [t, t, b], b := [t, t]]
      && r.degree == Dict([a, t, b], map[a := 0, t := 2, b := 1])
  {
    AddTables(g, Task(b, [a]));
    AddPair(g, b, a, a);
    assert [t, t] + [b] == [t, t, b];
  }

  lemma {:induction false} BuildNext(ts: seq<GenerationTask>, t: GenerationTask, all: seq<GenerationTask>, g: TaskGraph)
    requires Build(ts) == g && all == ts + [t]
    ensures Build(all) == Add(g, t)
  {
    BuildSnoc(ts, t);
  }

  lemma {:induction false} BuildFour(x: GenerationTask, y: GenerationTask, z: GenerationTask, w: GenerationTask,
                                     g1: TaskGraph, g2: TaskGraph, g3: TaskGraph)
    requires g1 == Add(EMPTY_GRAPH, x) && g2 == Add(g1, y) && g3 == Add(g2, z)
    ensures Build([x, y, z, w]) == Add(g3, w)
  {
    BuildNext([], x, [x], EMPTY_GRAPH);
    BuildNext([x], y, [x, y], g1);
    BuildNext([x, y], z, [x, y, z], g2);
    BuildNext([x, y, z], w, [x, y, z, w], g3);
  }

  lemma {:induction false} RelaxFirst(degree: map<Id, int>, queue: seq<Id>, v: Id, rest: seq<Id>)
    ensures Kahn.Relax(degree, queue, [v] + rest) ==
      var d := Kahn.Decrement(degree, v);
      Kahn.Relax(d, if d[v] == 0 then queue + [v] else queue, rest)
  {
    assert ([v] + rest)[1..] == rest;
  }

  function Degrees(a: Id, x: int, b: Id, y: int, t: Id, z: int): map<Id, int> {
    map[a := x, b := y, t := z]
  }

  lemma {:induction false} RepeatedRelaxed(a: Id, b: Id, t: Id)
    requires a != b && a != t && b != t
    ensures Kahn.Relax(Degrees(a, 0, b, 1, t, 2), [], [t, t, b]) == (Degrees(a, 0, b, 0, t, 0), [t, b])
    ensures Kahn.Relax(Degrees(a, 0, b, 0, t, 0), [], [t, t]) == (Degrees(a, 0, b, 0, t, -2), [])
  {
    assert [] + [t] == [t] && [t] + [t, b] == [t, t, b] && [t] + [b] == [t, b] && [b] + [] == [b];
    RelaxFirst(Degrees(a, 0, b, 1, t, 2), [], t, [t, b]);
    assert Kahn.Decrement(Degrees(a, 0, b, 1, t, 2), t) == Degrees(a, 0, b, 1, t, 1);
    RelaxFirst(Degrees(a, 0, b, 1, t, 1), [], t, [b]);
    assert Kahn.Decrement(Degrees(a, 0, b, 1, t, 1), t) == Degrees(a, 0, b, 1, t, 0);
    RelaxFirst(Degrees(a, 0, b, 1, t, 0), [t], b, []);
    assert Kahn.Decrement(Degrees(a, 0, b, 1, t, 0), b) == Degrees(a, 0, b, 0, t, 0);
    RelaxFirst(Degrees(a, 0, b, 0, t, 0), [], t, [t]);
    assert Kahn.Decrement(Degrees(a, 0, b, 0, t, 0), t) == Degrees(a, 0, b, 0, t, -1);
    RelaxFirst(Degrees(a, 0, b, 0, t, -1), [], t, []);
    assert Kahn.Decrement(Degrees(a, 0, b, 0, t, -1), t) == Degrees(a, 0, b, 0, t, -2);
    assert [t] + [t] == [t, t] && [t] + [] == [t];
  }

  lemma {:induction false} RepeatedRun(a: Id, b: Id, t: Id)
    requires a != b && a != t && b != t
    ensures var adj := map[a := [t, t, b], b := [t, t]];
      Kahn.Finish(adj, Kahn.State(Degrees(a, 0, b, 1, t, 2), [a], [])).order == [a, t, b]
  {
    var adj := map[a := [t, t, b], b := [t, t]];
    RepeatedRelaxed(a, b, t);
    var s0 := Kahn.State(Degrees(a, 0, b, 1, t, 2), [a], []);
    var s1 := Kahn.State(Degrees(a, 0, b, 0, t, 0), [t, b], [a]);
    var s2 := Kahn.State(Degrees(a, 0, b, 0, t, 0), [b], [a, t]);
    var s3 := Kahn.State(Degrees(a, 0, b, 0, t, -2), [], [a, t, b]);
    assert [a][1..] == [] && [t, b][1..] == [b] && [b][1..] == [];
    assert Kahn.Step(adj, s0) == s1;
    assert Kahn.Step(adj, s1) == s2;
    assert Kahn.Step(adj, s2) == s3;
    assert Kahn.Finish(adj, s2) == s3;
    assert Kahn.Finish(adj, s1) == s3;
  }

  lemma {:induction false} RepeatedCollected(a: Id, b: Id, t: Id)
    requires a != b && a != t && b != t
    ensures var graphs := Three(a, b, t);
      && Included(graphs, [a, t, t, b], None) == [a, t, t, b]
      && Collected(graphs, [a, t, t, b]) == [Task(a, []), Task(t, [a, b]), Task(t, [a, b]), Task(b, [a])]
  {
    var graphs := Three(a, b, t);
    assert graphs[0].keys == [a, b, t] && AllTaskIds(graphs) == [a, b, t] + AllTaskIds(graphs[1..]);
    KeepAll([a, t, t, b], Elements(AllTaskIds(graphs)));
    assert [a, t, t, b][..3] == [a, t, t] && [a, t, t][..2] == [a, t] && [a, t][..1] == [a] && [a][..0] == [];
    assert Collected(graphs, [a]) == [] + [Task(a, [])] == [Task(a, [])];
    assert Collected(graphs, [a, t]) == [Task(a, []), Task(t, [a, b])];
    assert Collected(graphs, [a, t, t]) == [Task(a, []), Task(t, [a, b]), Task(t, [a, b])];
  }

  lemma {:induction false} RepeatedAcyclic(a: Id, b: Id, t: Id)
    requires a != b && a != t && b != t
    ensures !Cyclic(map[a := [t, t, b], b := [t, t]])
  {
    var adj := map[a := [t, t, b], b := [t, t]];
    var back := [t, b, a];
    assert back[..0] == [] && back[..1] == [t] && back[..2] == [t, b];
    if Cyclic(adj) {
      var p :| Cycle(adj, p);
      assert Edge(adj, p[0], p[1]);
      FinishedNotOnCycle(adj, back, p);
    }
  }

  /** The sort starts from a, the only task without dependencies. */
  lemma {:induction false} RepeatedReady(a: Id, b: Id, t: Id)
    requires a != b && a != t && b != t
    ensures Kahn.Ready(Dict([a, t, b], map[a := 0, t := 2, b := 1])) == [a]
  {
    var degree := Dict([a, t, b], map[a := 0, t := 2, b := 1]);
    var ready := Kahn.Ready(degree);
    FilterDistinct(degree.keys, k => Degree(degree.items, k) == 0);
    assert forall x :: x in ready <==> x == a;
    SameLength(ready, [a]);
    assert a in ready && ready[0] in ready;
  }

  lemma {:induction false} AskedTwice(a: Id, b: Id, t: Id)
    ensures Count([a, t, t, b], t) >= 2
  {
    CountAppend([a], [t, t, b], t);
    CountAppend([t], [t, b], t);
    CountAppend([t], [b], t);
    assert [a] + [t, t, b] == [a, t, t, b] && [t] + [t, b] == [t, t, b] && [t] + [b] == [t, b];
    CountPositive([t], t);
  }

  lemma {:induction false} ThreeOrdered(a: Id, b: Id, t: Id, included: seq<Id>)
    requires a != b && a != t && b != t && forall x :: x in included <==> x in [a, b, t]
    ensures WellFormed(Three(a, b, t)) && ResolvedOrder(Three(a, b, t), included, [a, b, t])
    ensures Succ(Needs(Three(a, b, t), included), t) == [a, b]
  {
    var order := [a, b, t];
    assert order[..0] == [] && order[..1] == [a] && order[..2] == [a, b];
  }

  /** Asked for a task twice, `resolve_order` can put it before one of its dependencies, although
      the tasks could be ordered. */
  lemma {:induction false} RepeatedIdMisorders(a: Id, b: Id, t: Id)
    requires a != b && a != t && b != t
    ensures var graphs := Three(a, b, t);
      var included := Included(graphs, [a, t, t, b], None);
      var g := Build(Collected(graphs, included));
      && WellFormed(graphs) && !Unambiguous(graphs, [a, t, t, b], None)
      && Sorts(g) && Kahn.Order(g) == [a, t, b] && Edge(Needs(graphs, included), t, b)
      && ResolvedOrder(graphs, included, [a, b, t])
  {
    var graphs := Three(a, b, t);
    var g := Build(Collected(graphs, [a, t, t, b]));
    RepeatedCollected(a, b, t);
    RepeatedTables(a, b, t);
    RepeatedRun(a, b, t);
    assert g.degree.items == Degrees(a, 0, b, 1, t, 2);
    RepeatedReady(a, b, t);
    AskedTwice(a, b, t);
    RepeatedAcyclic(a, b, t);
    ThreeOrdered(a, b, t, [a, t, t, b]);
  }
}
