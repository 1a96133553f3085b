/** The four tables of a `DependencyGraph`: what `add_task` does to them and when they agree. */
module TaskGraphs {
  import opened Collections
  import opened Digraph

  datatype GenerationTask = GenerationTask(id: Id, dependencies: seq<Id>, taskType: Id)

  /** succ is `adjacency_list` (dependency to dependents), pred is `reverse_adjacency_list`. */
  datatype TaskGraph = TaskGraph(
    tasks: Dict<Id, GenerationTask>,
    succ: Adjacency,
    pred: Adjacency,
    degree: Dict<Id, int>)

  const EMPTY_GRAPH := TaskGraph(EmptyDict(), map[], map[], EmptyDict())

  /** `defaultdict(int)[k]` */
  function Degree(degree: map<Id, int>, k: Id): int {
    if k in degree then degree[k] else 0
  }

  function AddEdge(g: TaskGraph, id: Id, dep: Id): TaskGraph {
    g.(succ := Append(g.succ, dep, id),
       pred := Append(g.pred, id, dep),
       degree := g.degree.Put(id, Degree(g.degree.items, id) + 1))
  }

  function AddEdges(g: TaskGraph, id: Id, deps: seq<Id>): TaskGraph {
    if deps == [] then g
    else AddEdge(AddEdges(g, id, deps[..|deps| - 1]), id, deps[|deps| - 1])
  }

  function Register(g: TaskGraph, t: GenerationTask): TaskGraph {
    g.(tasks := g.tasks.Put(t.id, t), degree := g.degree.Put(t.id, 0))
  }

  function Add(g: TaskGraph, t: GenerationTask): TaskGraph {
    AddEdges(Register(g, t), t.id, t.dependencies)
  }

  /** The graph after adding the tasks in order to an empty one. */
  function Build(ts: seq<GenerationTask>): TaskGraph {
    if ts == [] then EMPTY_GRAPH else Add(Build(ts[..|ts| - 1]), ts[|ts| - 1])
  }

  /** Every task is stored under its own id. */
  ghost predicate WellKeyed(tasks: Dict<Id, GenerationTask>) {
    forall k :: k in tasks.items ==> tasks.items[k].id == k
  }

  /** The tables describe the same edges, with multiplicity, and in-degrees count them. */
  ghost predicate Consistent(g: TaskGraph) {
    && g.tasks.Valid() && g.degree.Valid() && g.degree.keys == g.tasks.keys
    && DegreesCount(g)
    && MirrorImages(g.succ, g.pred)
  }

  /** Each edge is listed equally often in both adjacency tables. */
  ghost predicate MirrorImages(succ: Adjacency, pred: Adjacency) {
    forall u, v :: EdgeCount(succ, u, v) == EdgeCount(pred, v, u)
  }

  /** Every task's dependency list is what it was added with. */
  ghost predicate Declared(g: TaskGraph) {
    forall v :: v in g.tasks.items ==> Succ(g.pred, v) == g.tasks.items[v].dependencies
  }

  /** No dependency is missing from the task table. */
  ghost predicate Closed(g: TaskGraph) {
    forall v, d :: v in g.tasks.keys && Edge(g.pred, v, d) ==> d in g.tasks.keys
  }

  /** Dependents are always tasks; all that `has_cycle` needs. */
  ghost predicate DependentsAreTasks(g: TaskGraph) {
    forall u, v :: Edge(g.succ, u, v) ==> v in g.tasks.keys
  }

  ghost predicate DistinctTasks(ts: seq<GenerationTask>) {
    forall i, j :: 0 <= i < j < |ts| ==> ts[i].id != ts[j].id
  }

  lemma {:induction false} AddEdgesEffect(g: TaskGraph, id: Id, deps: seq<Id>)
    requires id in g.degree.items
    ensures var r := AddEdges(g, id, deps);
      && r.tasks == g.tasks
      && r.degree == Dict(g.degree.keys, g.degree.items[id := g.degree.items[id] + |deps|])
  {
    if deps == [] {
      assert g.degree.items[id := g.degree.items[id] + 0] == g.degree.items;
    } else {
      AddEdgesEffect(g, id, deps[..|deps| - 1]);
    }
  }

  lemma {:induction false} AddEdgesNext(g: TaskGraph, id: Id, deps: seq<Id>, i: nat)
    requires i < |deps|
    ensures AddEdges(g, id, deps[..i + 1]) == AddEdge(AddEdges(g, id, deps[..i]), id, deps[i])
  {
    assert deps[..i + 1][..i] == deps[..i];
  }

  lemma {:induction false} AddEdgesPredecessors(g: TaskGraph, id: Id, deps: seq<Id>, v: Id)
    ensures Succ(AddEdges(g, id, deps).pred, v) == Succ(g.pred, v) + if v == id then deps else []
  {
    if deps != [] {
      var n := |deps| - 1;
      var h := AddEdges(g, id, deps[..n]);
      AddEdgesPredecessors(g, id, deps[..n], v);
      assert Succ(AddEdge(h, id, deps[n]).pred, v) == if v == id then Succ(h.pred, id) + [deps[n]] else Succ(h.pred, v);
      if v == id {
        ConcatAssociative(Succ(g.pred, id), deps[..n], [deps[n]]);
        Snoc(deps);
      }
    }
  }

  lemma {:induction false} CountLast(s: seq<Id>, x: Id)
    requires s != []
    ensures Count(s, x) == Count(s[..|s| - 1], x) + if s[|s| - 1] == x then 1 else 0
  {
    Snoc(s);
    CountAppend(s[..|s| - 1], [s[|s| - 1]], x);
    assert [s[|s| - 1]][1..] == [];
  }

  lemma {:induction false} AddEdgesCount(g: TaskGraph, id: Id, deps: seq<Id>, u: Id, v: Id)
    ensures EdgeCount(AddEdges(g, id, deps).succ, u, v)
            == EdgeCount(g.succ, u, v) + if v == id then Count(deps, u) else 0
  {
    if deps != [] {
      var n := |deps| - 1;
      var h := AddEdges(g, id, deps[..n]);
      AddEdgesCount(g, id, deps[..n], u, v);
      AppendCount(h.succ, deps[n], id, u, v);
      CountLast(deps, u);
    }
  }

  lemma {:induction false} AddTables(g: TaskGraph, t: GenerationTask)
    ensures var r := Add(g, t);
      && r.tasks == g.tasks.Put(t.id, t)
      && r.degree == g.degree.Put(t.id, |t.dependencies|)
      && (forall v :: Succ(r.pred, v) == Succ(g.pred, v) + if v == t.id then t.dependencies else [])
  {
    AddEdgesEffect(Register(g, t), t.id, t.dependencies);
    forall v { AddEdgesPredecessors(Register(g, t), t.id, t.dependencies, v); }
    assert g.degree.items[t.id := 0][t.id := |t.dependencies|] == g.degree.items[t.id := |t.dependencies|];
  }

  lemma {:induction false} AddCounts(g: TaskGraph, t: GenerationTask)
    ensures forall u, v :: EdgeCount(Add(g, t).succ, u, v)
                           == EdgeCount(g.succ, u, v) + (if v == t.id then Count(t.dependencies, u) else 0)
  {
    forall u, v { AddEdgesCount(Register(g, t), t.id, t.dependencies, u, v); }
  }

  lemma {:induction false} AddKeepsMirrorImages(g: TaskGraph, t: GenerationTask)
    requires MirrorImages(g.succ, g.pred)
    ensures MirrorImages(Add(g, t).succ, Add(g, t).pred)
  {
    var r := Add(g, t);
    AddTables(g, t);
    AddCounts(g, t);
    forall u, v
      ensures EdgeCount(r.succ, u, v) == EdgeCount(r.pred, v, u)
    {
      CountAppend(Succ(g.pred, v), if v == t.id then t.dependencies else [], u);
    }
  }

  /** In-degrees are the lengths of the predecessor lists. */
  ghost predicate DegreesCount(g: TaskGraph) {
    && (forall v :: v in g.tasks.keys ==> v in g.degree.items && g.degree.items[v] == |Succ(g.pred, v)|)
    && (forall v :: v !in g.tasks.keys ==> Succ(g.pred, v) == [])
  }

  lemma {:induction false} AddKeepsDegrees(g: TaskGraph, t: GenerationTask)
    requires Consistent(g)
    ensures DegreesCount(Add(g, t)) <==> t.id !in g.tasks.keys || Succ(g.pred, t.id) == []
  {
    AddTables(g, t);
    PutValid(g.tasks, t.id, t);
    var r := Add(g, t);
    assert t.id in r.tasks.keys;
    assert |Succ(r.pred, t.id)| == |Succ(g.pred, t.id)| + |t.dependencies|;
    assert r.degree.items[t.id] == |t.dependencies|;
    if Succ(g.pred, t.id) == [] {
      forall v | v in r.tasks.keys ensures v in r.degree.items && r.degree.items[v] == |Succ(r.pred, v)| {
      }
    }
  }

  /** Adding a task keeps the tables consistent exactly when its id is new or had no
      dependencies recorded: re-adding resets the in-degree but keeps the old edges. */
  lemma {:induction false} AddKeepsConsistent(g: TaskGraph, t: GenerationTask)
    requires Consistent(g)
    ensures Consistent(Add(g, t)) <==> t.id !in g.tasks.keys || Succ(g.pred, t.id) == []
  {
    AddKeepsMirrorImages(g, t);
    AddKeepsDegrees(g, t);
    AddTables(g, t);
    PutValid(g.tasks, t.id, t);
    PutValid(g.degree, t.id, |t.dependencies|);
  }

  lemma {:induction false} AddKeepsDependentsTasks(g: TaskGraph, t: GenerationTask)
    requires DependentsAreTasks(g) && g.tasks.Valid()
    ensures DependentsAreTasks(Add(g, t)) && Add(g, t).tasks.Valid()
  {
    AddTables(g, t);
    AddCounts(g, t);
    PutValid(g.tasks, t.id, t);
    var r := Add(g, t);
    forall u, v | Edge(r.succ, u, v) ensures v in r.tasks.keys {
      CountPositive(Succ(r.succ, u), v);
      CountPositive(Succ(g.succ, u), v);
      assert EdgeCount(r.succ, u, v) > 0;
      assert Edge(g.succ, u, v) || v == t.id;
    }
  }

  lemma {:induction false} ConsistentEdges(g: TaskGraph)
    requires Consistent(g)
    ensures forall u, v :: Edge(g.succ, u, v) <==> u in Succ(g.pred, v)
    ensures DependentsAreTasks(g)
  {
    forall u, v
      ensures Edge(g.succ, u, v) <==> u in Succ(g.pred, v)
    {
      CountPositive(Succ(g.succ, u), v);
      CountPositive(Succ(g.pred, v), u);
      assert EdgeCount(g.succ, u, v) == EdgeCount(g.pred, v, u);
    }
  }

  function TaskIds(ts: seq<GenerationTask>): (ids: seq<Id>)
    ensures |ids| == |ts| && forall i :: 0 <= i < |ts| ==> ids[i] == ts[i].id
  {
    if ts == [] then [] else TaskIds(ts[..|ts| - 1]) + [ts[|ts| - 1].id]
  }

  lemma {:induction false} AddKeepsDeclared(g: TaskGraph, t: GenerationTask)
    requires g.tasks.Valid() && Declared(g)
    requires t.id !in g.tasks.keys && Succ(g.pred, t.id) == []
    ensures Declared(Add(g, t))
  {
    AddTables(g, t);
  }

  /** Tasks with distinct ids, added in any order, give consistent tables in that order. */
  lemma {:induction false} BuildConsistent(ts: seq<GenerationTask>)
    requires DistinctTasks(ts)
    ensures Consistent(Build(ts)) && Declared(Build(ts))
    ensures Build(ts).tasks.keys == TaskIds(ts)
  {
    if ts != [] {
      var n := |ts| - 1;
      var g := Build(ts[..n]);
      BuildConsistent(ts[..n]);
      NotYetAdded(ts, n);
      assert Consistent(Add(g, ts[n])) by { AddKeepsConsistent(g, ts[n]); }
      assert Declared(Add(g, ts[n])) by { AddKeepsDeclared(g, ts[n]); }
      assert Add(g, ts[n]).tasks.keys == TaskIds(ts) by { AddTables(g, ts[n]); }
    }
  }

  lemma {:induction false} NotYetAdded(ts: seq<GenerationTask>, n: nat)
    requires DistinctTasks(ts) && n < |ts|
    ensures ts[n].id !in TaskIds(ts[..n])
  {
  }

  lemma {:induction false} BuildRecordsTasks(ts: seq<GenerationTask>, i: nat)
    requires DistinctTasks(ts) && i < |ts|
    ensures ts[i].id in Build(ts).tasks.items && Build(ts).tasks.items[ts[i].id] == ts[i]
  {
    var n := |ts| - 1;
    AddTables(Build(ts[..n]), ts[n]);
    if i < n { BuildRecordsTasks(ts[..n], i); }
  }

  // ---- what every run keeps ------------------------------------------------------------------

  /** Every listed dependent is mirrored in the reverse lists; they may hold more, left behind by
      a removal that failed part way. */
  ghost predicate Covers(g: TaskGraph) {
    forall u, v :: EdgeCount(g.succ, u, v) <= EdgeCount(g.pred, v, u)
  }

  /** What additions and removals, also failing ones, keep of any graph. */
  ghost predicate Usable(g: TaskGraph) {
    && g.tasks.Valid() && WellKeyed(g.tasks) && DependentsAreTasks(g) && Covers(g)
    && forall k :: k in g.tasks.items ==> k in g.degree.items
  }

  lemma {:induction false} AddKeepsUsable(g: TaskGraph, t: GenerationTask)
    requires Usable(g)
    ensures Usable(Add(g, t))
  {
    AddKeepsDependentsTasks(g, t);
    AddTables(g, t);
    AddKeepsCovers(g, t);
  }

  lemma {:induction false} AddKeepsCovers(g: TaskGraph, t: GenerationTask)
    requires Covers(g)
    ensures Covers(Add(g, t))
  {
    var r := Add(g, t);
    AddTables(g, t);
    AddCounts(g, t);
    forall u, v ensures EdgeCount(r.succ, u, v) <= EdgeCount(r.pred, v, u) {
      assert EdgeCount(g.succ, u, v) <= EdgeCount(g.pred, v, u);
      CountAppend(Succ(g.pred, v), if v == t.id then t.dependencies else [], u);
    }
  }

  /** The edges after adding a task: the old ones and those from its dependencies to it. */
  lemma {:induction false} AddedEdges(g: TaskGraph, t: GenerationTask, u: Id, v: Id)
    ensures Edge(Add(g, t).succ, u, v) <==> Edge(g.succ, u, v) || (v == t.id && u in t.dependencies)
  {
    AddCounts(g, t);
    CountPositive(Succ(Add(g, t).succ, u), v);
    CountPositive(Succ(g.succ, u), v);
    CountPositive(t.dependencies, u);
    assert EdgeCount(Add(g, t).succ, u, v)
        == EdgeCount(g.succ, u, v) + if v == t.id then Count(t.dependencies, u) else 0;
  }
}
