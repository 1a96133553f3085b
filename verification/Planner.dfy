/** `generator/planner.py`: the generation plan and its execution order. */
module Planner {
  import opened Collections
  import opened Digraph
  import opened TaskGraphs
  import opened SortCache
  import opened DependencyGraphs
  import Kahn

  /** t without the dependencies that are not known. */
  function Restrict(t: GenerationTask, known: set<Id>): GenerationTask {
    t.(dependencies := Keep(t.dependencies, known))
  }

  function RestrictAll(ts: seq<GenerationTask>, known: set<Id>): (r: seq<GenerationTask>)
    ensures |r| == |ts| && forall i :: 0 <= i < |ts| ==> r[i] == Restrict(ts[i], known)
  {
    if ts == [] then [] else RestrictAll(ts[..|ts| - 1], known) + [Restrict(ts[|ts| - 1], known)]
  }

  /** The dependency graph of the tasks present in the plan: missing dependencies are dropped. */
  function PresentGraph(ts: seq<GenerationTask>): TaskGraph {
    Build(RestrictAll(ts, Elements(TaskIds(ts))))
  }

  lemma {:induction false} RestrictKeepsIds(ts: seq<GenerationTask>, known: set<Id>)
    requires DistinctTasks(ts)
    ensures DistinctTasks(RestrictAll(ts, known)) && TaskIds(RestrictAll(ts, known)) == TaskIds(ts)
  {
  }

  lemma {:induction false} PredecessorsOf(ts: seq<GenerationTask>, i: nat)
    requires DistinctTasks(ts) && i < |ts|
    ensures Succ(Build(ts).pred, ts[i].id) == ts[i].dependencies
  {
    BuildConsistent(ts);
    BuildRecordsTasks(ts, i);
  }

  lemma {:induction false} PresentGraphFacts(ts: seq<GenerationTask>)
    requires DistinctTasks(ts)
    ensures Consistent(PresentGraph(ts)) && Closed(PresentGraph(ts))
    ensures PresentGraph(ts).tasks.keys == TaskIds(ts)
  {
    var known := Elements(TaskIds(ts));
    var rs := RestrictAll(ts, known);
    var g := PresentGraph(ts);
    RestrictKeepsIds(ts, known);
    assert Consistent(g) && g.tasks.keys == TaskIds(ts) by { BuildConsistent(rs); }
    forall v, d | v in g.tasks.keys && Edge(g.pred, v, d)
      ensures d in g.tasks.keys
    {
      var i :| 0 <= i < |ts| && TaskIds(ts)[i] == v;
      PredecessorsOf(rs, i);
    }
  }

  /** On a task list without missing dependencies the dependency graph's sort, its levels read
      one after the other, and the plan's order are the same sequence. */
  lemma {:induction false} ThreeOrdersAgree(ts: seq<GenerationTask>)
    requires DistinctTasks(ts) && Closed(Build(ts))
    ensures Kahn.Order(PresentGraph(ts)) == Kahn.Order(Build(ts)) == Flatten(Kahn.Levels(Build(ts)))
  {
    BuildConsistent(ts);
    Kahn.LevelsAreLongestPaths(Build(ts));
    var rs := RestrictAll(ts, Elements(TaskIds(ts)));
    forall i | 0 <= i < |ts|
      ensures rs[i] == ts[i]
    {
      var t := ts[i];
      PredecessorsOf(ts, i);
      assert t.id == TaskIds(ts)[i];
      forall d | d in t.dependencies ensures d in TaskIds(ts) {
        assert Edge(Build(ts).pred, t.id, d);
      }
      KeepAll(t.dependencies, Elements(TaskIds(ts)));
    }
    assert rs == ts;
  }

  /** Both graphs' edges are the declared dependencies, the plan's only those on present tasks. */
  lemma {:induction false} PresentEdges(ts: seq<GenerationTask>, u: Id, v: Id)
    requires DistinctTasks(ts)
    ensures Edge(PresentGraph(ts).succ, u, v) <==> Edge(Build(ts).succ, u, v) && u in TaskIds(ts)
  {
    var known := Elements(TaskIds(ts));
    RestrictKeepsIds(ts, known);
    if v in TaskIds(ts) {
      var i :| 0 <= i < |ts| && TaskIds(ts)[i] == v;
      EdgesInto(ts, i, u);
      EdgesInto(RestrictAll(ts, known), i, u);
    } else {
      NoEdgesInto(ts, u, v);
      NoEdgesInto(RestrictAll(ts, known), u, v);
    }
  }

  lemma {:induction false} EdgesInto(ts: seq<GenerationTask>, i: nat, u: Id)
    requires DistinctTasks(ts) && i < |ts|
    ensures Edge(Build(ts).succ, u, ts[i].id) <==> u in ts[i].dependencies
  {
    PredecessorsOf(ts, i);
    BuildConsistent(ts);
    ConsistentEdges(Build(ts));
  }

  lemma {:induction false} NoEdgesInto(ts: seq<GenerationTask>, u: Id, v: Id)
    requires DistinctTasks(ts) && v !in TaskIds(ts)
    ensures !Edge(Build(ts).succ, u, v)
  {
    BuildConsistent(ts);
    ConsistentEdges(Build(ts));
  }

  class GenerationPlan {
    var tasks: Dict<Id, GenerationTask>
    var executionOrder: seq<Id>

    ghost predicate Valid()
      reads this
    {
      tasks.Valid() && WellKeyed(tasks)
    }

    /** The tasks in the order of the dict. */
    function Listing(): seq<GenerationTask>
      requires Valid()
      reads this
    {
      Values(tasks)
    }

    lemma {:induction false} ListingFacts()
      requires Valid()
      ensures DistinctTasks(Listing()) && TaskIds(Listing()) == tasks.keys
    {
      forall i | 0 <= i < |tasks.keys| ensures Listing()[i].id == tasks.keys[i] {
        assert tasks.keys[i] in tasks.keys;
      }
    }

    constructor ()
      ensures Valid() && tasks == EmptyDict() && executionOrder == []
    {
      tasks, executionOrder := EmptyDict(), [];
    }

    method AddTask(id: Id, dependencies: seq<Id>, taskType: Id)
      requires Valid()
      modifies this`tasks
      ensures Valid() && tasks == old(tasks).Put(id, GenerationTask(id, dependencies, taskType))
    {
      PutValid(tasks, id, GenerationTask(id, dependencies, taskType));
      tasks := tasks.Put(id, GenerationTask(id, dependencies, taskType));
    }

    /** Record the present dependencies of one task. */
    method CountDependencies(adjList: Adjacency, inDegree: map<Id, int>, task: GenerationTask, ghost base: TaskGraph)
      returns (adjList': Adjacency, inDegree': map<Id, int>)
      requires task.id in inDegree
      requires Tracks(adjList, inDegree, base)
      ensures Tracks(adjList', inDegree', AddEdges(base, task.id, Keep(task.dependencies, tasks.items.Keys)))
      ensures inDegree'.Keys == inDegree.Keys
    {
      adjList', inDegree' := adjList, inDegree;
      var deps := task.dependencies;
      ghost var present := tasks.items.Keys;
      for j := 0 to |deps|
        invariant Tracks(adjList', inDegree', AddEdges(base, task.id, Keep(deps[..j], present)))
        invariant inDegree'.Keys == inDegree.Keys
      {
        TracksNext(adjList', inDegree', base, task.id, deps, j, present);
        if deps[j] in tasks.items {
          adjList' := Append(adjList', deps[j], task.id);
          inDegree' := Increment(inDegree', task.id);
        }
      }
      TakeAll(deps);
    }

    /** The present dependencies of the first i tasks are counted; rs lists the tasks with only
        those. */
    ghost predicate CountedTo(rs: seq<GenerationTask>, i: nat, adjList: Adjacency, inDegree: map<Id, int>)
      requires i <= |rs|
      reads this
    {
      Tracks(adjList, inDegree, Build(rs[..i])) && inDegree.Keys == tasks.items.Keys
    }

    /** One round of the outer loop: the present dependencies of the plan's task number i. */
    method CountTask(ghost rs: seq<GenerationTask>, i: nat, adjList: Adjacency, inDegree: map<Id, int>)
      returns (adjList': Adjacency, inDegree': map<Id, int>)
      requires Valid() && DistinctTasks(rs) && rs == RestrictAll(Listing(), tasks.items.Keys)
      requires i < |rs| && CountedTo(rs, i, adjList, inDegree)
      ensures CountedTo(rs, i + 1, adjList', inDegree')
    {
      ListedTask(rs, i);
      NotYetCounted(rs, i, adjList, inDegree);
      adjList', inDegree' := CountDependencies(adjList, inDegree, Listing()[i], Register(Build(rs[..i]), rs[i]));
      BuildNext(rs, i);
    }

    lemma {:induction false} ListedTask(rs: seq<GenerationTask>, i: nat)
      requires Valid() && i < |rs| && rs == RestrictAll(Listing(), tasks.items.Keys)
      ensures rs[i] == Restrict(Listing()[i], tasks.items.Keys) && Listing()[i].id in tasks.items.Keys
    {
      assert tasks.keys[i] in tasks.keys;
    }

    method StartCounts(ghost rs: seq<GenerationTask>) returns (adjList: Adjacency, inDegree: map<Id, int>)
      requires Valid() && DistinctTasks(rs) && rs == RestrictAll(Listing(), tasks.items.Keys)
      ensures CountedTo(rs, 0, adjList, inDegree)
    {
      adjList := map k | k in tasks.keys :: [];
      inDegree := map k | k in tasks.keys :: 0;
      NothingCounted(adjList, inDegree, rs);
    }

    /** The adjacency list and in-degrees over the present tasks; rs lists the tasks with only
        their present dependencies. */
    method CountPresentDependencies(ghost rs: seq<GenerationTask>)
      returns (adjList: Adjacency, inDegree: map<Id, int>)
      requires Valid() && DistinctTasks(rs)
      requires rs == RestrictAll(Listing(), tasks.items.Keys)
      ensures Tracks(adjList, inDegree, Build(rs)) && inDegree.Keys == tasks.items.Keys
    {
      adjList, inDegree := StartCounts(rs);
      for i := 0 to |tasks.keys|
        invariant CountedTo(rs, i, adjList, inDegree)
      {
        adjList, inDegree := CountTask(rs, i, adjList, inDegree);
      }
      TakeAll(rs);
    }

    /** Kahn's algorithm over the present tasks. */
    method RunKahn() returns (order: seq<Id>)
      requires Valid()
      ensures order == Kahn.Order(PresentGraph(Listing()))
    {
      ListingFacts();
      RestrictKeepsIds(Listing(), tasks.items.Keys);
      assert Elements(TaskIds(Listing())) == tasks.items.Keys;
      var adjList, inDegree := CountPresentDependencies(RestrictAll(Listing(), tasks.items.Keys));
      TracksAll(Listing(), adjList, inDegree);
      var queue := Kahn.Ready(Dict(tasks.keys, inDegree));
      order := Kahn.Drain(adjList, inDegree, queue);
    }

    /** It fails exactly when the present tasks have a cycle, and otherwise returns and stores
        the order, which PlanOrderMeaning shows is topological. */
    method GenerateExecutionOrder() returns (r: Result<seq<Id>, SortError>)
      requires Valid()
      modifies this`executionOrder
      ensures r.Ok? <==> !Cyclic(PresentGraph(Listing()).succ)
      ensures var order := Kahn.Order(PresentGraph(Listing()));
        r == if |order| == |tasks.keys| then Ok(order) else Err(NotAllReached(Elements(tasks.keys) - Elements(order)))
      ensures executionOrder == if r.Ok? && tasks.keys != [] then r.value else old(executionOrder)
    {
      ListingFacts();
      PlanOrderMeaning(Listing());
      if tasks.keys == [] {
        return Ok([]);
      }
      var order := RunKahn();
      if |order| != |tasks.keys| {
        return Err(NotAllReached(Elements(tasks.keys) - Elements(order)));
      }
      executionOrder := order;
      return Ok(order);
    }
  }

  lemma {:induction false} PlanOrderMeaning(ts: seq<GenerationTask>)
    requires DistinctTasks(ts)
    ensures var g := PresentGraph(ts);
      && (|Kahn.Order(g)| == |ts| <==> !Cyclic(g.succ))
      && (!Cyclic(g.succ) ==> TopologicalOrderOf(g, Kahn.Order(g)))
      && (ts == [] ==> Kahn.Order(g) == [])
  {
    PresentGraphFacts(ts);
    SortSucceedsExactly(PresentGraph(ts));
    Kahn.OrderComplete(PresentGraph(ts));
    Kahn.OrderSound(PresentGraph(ts));
    DistinctFits(Kahn.Order(PresentGraph(ts)), Elements(TaskIds(ts)));
    if ts == [] { assert Elements(TaskIds(ts)) == {}; }
  }

  lemma {:induction false} KeepNext(g: TaskGraph, id: Id, deps: seq<Id>, j: nat, known: set<Id>)
    requires j < |deps|
    ensures AddEdges(g, id, Keep(deps[..j + 1], known))
            == var h := AddEdges(g, id, Keep(deps[..j], known));
               if deps[j] in known then AddEdge(h, id, deps[j]) else h
  {
    var kept := Keep(deps[..j], known);
    assert deps[..j + 1][..j] == deps[..j];
    if deps[j] in known {
      assert (kept + [deps[j]])[..|kept|] == kept;
      assert Keep(deps[..j + 1], known) == kept + [deps[j]];
    } else {
      assert Keep(deps[..j + 1], known) == kept + [] == kept;
    }
  }

  lemma {:induction false} TracksNext(adj: Adjacency, degree: map<Id, int>, base: TaskGraph, id: Id,
                                      deps: seq<Id>, j: nat, known: set<Id>)
    requires j < |deps| && Tracks(adj, degree, AddEdges(base, id, Keep(deps[..j], known)))
    ensures var h := AddEdges(base, id, Keep(deps[..j + 1], known));
      if deps[j] in known then Tracks(Append(adj, deps[j], id), Increment(degree, id), h)
      else Tracks(adj, degree, h)
  {
    KeepNext(base, id, deps, j, known);
    if deps[j] in known {
      SameAfterEdge(adj, degree, AddEdges(base, id, Keep(deps[..j], known)), id, deps[j]);
    }
  }

  lemma {:induction false} SameAfterEdge(adj: Adjacency, degree: map<Id, int>, g: TaskGraph, id: Id, dep: Id)
    requires Tracks(adj, degree, g)
    ensures Tracks(Append(adj, dep, id), Increment(degree, id), AddEdge(g, id, dep))
  {
    assert Degree(degree, id) == Degree(g.degree.items, id);
    assert Succ(adj, dep) == Succ(g.succ, dep);
    forall u ensures Succ(Append(adj, dep, id), u) == Succ(AddEdge(g, id, dep).succ, u) {
      assert Succ(adj, u) == Succ(g.succ, u);
    }
    forall k ensures Degree(Increment(degree, id), k) == Degree(AddEdge(g, id, dep).degree.items, k) {
      assert Degree(degree, k) == Degree(g.degree.items, k);
    }
  }

  lemma {:induction false} BuildNext(ts: seq<GenerationTask>, n: nat)
    requires n < |ts|
    ensures Build(ts[..n + 1]) == AddEdges(Register(Build(ts[..n]), ts[n]), ts[n].id, ts[n].dependencies)
  {
    assert ts[..n + 1][..n] == ts[..n];
  }

  lemma {:induction false} NothingCounted(adj: Adjacency, degree: map<Id, int>, ts: seq<GenerationTask>)
    requires forall k :: k in adj ==> adj[k] == []
    requires forall k :: k in degree ==> degree[k] == 0
    ensures Tracks(adj, degree, Build(ts[..0]))
  {
  }

  lemma {:induction false} NotYetCounted(ts: seq<GenerationTask>, n: nat, adj: Adjacency, degree: map<Id, int>)
    requires DistinctTasks(ts) && n < |ts| && Tracks(adj, degree, Build(ts[..n]))
    ensures Tracks(adj, degree, Register(Build(ts[..n]), ts[n]))
  {
    NotYetAdded(ts, n);
    BuildConsistent(ts[..n]);
    var d := Build(ts[..n]).degree.items;
    forall k ensures Degree(degree, k) == Degree(d[ts[n].id := 0], k) {
      assert Degree(degree, k) == Degree(d, k);
    }
  }

  lemma {:induction false} TracksAll(ts: seq<GenerationTask>, adj: Adjacency, degree: map<Id, int>)
    requires DistinctTasks(ts) && Tracks(adj, degree, PresentGraph(ts))
    requires degree.Keys == Elements(TaskIds(ts))
    ensures Kahn.Finish(adj, Kahn.State(degree, Kahn.Ready(Dict(TaskIds(ts), degree)), [])).order
            == Kahn.Order(PresentGraph(ts))
  {
    var g := PresentGraph(ts);
    PresentGraphFacts(ts);
    MapsEqual(degree, g.degree.items);
    Kahn.FinishCongruent(adj, g.succ, Kahn.Initial(g));
  }

  lemma {:induction false} MapsEqual(a: map<Id, int>, b: map<Id, int>)
    requires a.Keys == b.Keys && SameDegrees(a, b)
    ensures a == b
  {
    forall k | k in a ensures a[k] == b[k] {
      assert Degree(a, k) == Degree(b, k);
    }
  }

  /** Plain tables that describe g's edges and in-degrees. */
  ghost predicate Tracks(adj: Adjacency, degree: map<Id, int>, g: TaskGraph) {
    SameEdges(adj, g.succ) && SameDegrees(degree, g.degree.items)
  }

  function Increment(degree: map<Id, int>, k: Id): map<Id, int> {
    degree[k := Degree(degree, k) + 1]
  }

  ghost predicate SameDegrees(a: map<Id, int>, b: map<Id, int>) {
    forall k :: Degree(a, k) == Degree(b, k)
  }
}
