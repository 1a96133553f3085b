/** What `remove_task` does to the tables of a `DependencyGraph`, also when it fails part way for
    want of an adjacency key. */
module TaskRemoval {
  import opened Collections
  import opened Digraph
  import opened TaskGraphs

  /** `list.remove(x)` on a list that may hold x: drops its first occurrence. */
  function DropFirst(s: seq<Id>, x: Id): seq<Id> {
    if s == [] then [] else if s[0] == x then s[1..] else [s[0]] + DropFirst(s[1..], x)
  }

  function DropEdge(adj: Adjacency, u: Id, v: Id): Adjacency {
    if v in Succ(adj, u) then adj[u := DropFirst(adj[u], v)] else adj
  }

  /** One dependent forgets the task and loses one from its in-degree. */
  function ForgetOne(g: TaskGraph, id: Id, v: Id): TaskGraph {
    if id !in Succ(g.pred, v) then g
    else g.(pred := DropEdge(g.pred, v, id), degree := g.degree.Put(v, Degree(g.degree.items, v) - 1))
  }

  /** The first loop, over the dependents. */
  function ForgetIn(g: TaskGraph, id: Id, dependents: seq<Id>): TaskGraph {
    if dependents == [] then g
    else ForgetOne(ForgetIn(g, id, dependents[..|dependents| - 1]), id, dependents[|dependents| - 1])
  }

  /** The second loop: each dependency's list of dependents loses the task. */
  function ForgetOut(g: TaskGraph, id: Id, dependencies: seq<Id>): TaskGraph {
    if dependencies == [] then g
    else
      var h := ForgetOut(g, id, dependencies[..|dependencies| - 1]);
      h.(succ := DropEdge(h.succ, dependencies[|dependencies| - 1], id))
  }

  function Unlinked(g: TaskGraph, id: Id): TaskGraph {
    var h := ForgetIn(g, id, Succ(g.succ, id));
    ForgetOut(h, id, Succ(h.pred, id))
  }

  /** `del` needs both adjacency keys; it fails part way through without them. */
  predicate CanDelete(g: TaskGraph, id: Id) {
    id in g.succ && id in g.pred
  }

  /** What a deletion that fails leaves: the task and perhaps one adjacency list are gone. */
  function HalfRemoved(g: TaskGraph, id: Id): TaskGraph {
    var h := Unlinked(g, id);
    h.(tasks := h.tasks.Delete(id), succ := h.succ - {id})
  }

  function Removed(g: TaskGraph, id: Id): TaskGraph {
    var h := Unlinked(g, id);
    TaskGraph(h.tasks.Delete(id), h.succ - {id}, h.pred - {id}, h.degree.Delete(id))
  }

  // ---- counting edges ------------------------------------------------------------------------

  lemma {:induction false} DropFirstCount(s: seq<Id>, x: Id, y: Id)
    requires x in s
    ensures Count(DropFirst(s, x), y) == Count(s, y) - if x == y then 1 else 0
    ensures |DropFirst(s, x)| == |s| - 1
  {
    if s[0] != x {
      DropFirstCount(s[1..], x, y);
      assert ([s[0]] + DropFirst(s[1..], x))[1..] == DropFirst(s[1..], x);
    }
  }

  lemma {:induction false} DropEdgeCount(adj: Adjacency, u: Id, v: Id, a: Id, b: Id)
    requires EdgeCount(adj, u, v) > 0
    ensures EdgeCount(DropEdge(adj, u, v), a, b) == EdgeCount(adj, a, b) - if a == u && b == v then 1 else 0
    ensures |Succ(DropEdge(adj, u, v), a)| == |Succ(adj, a)| - if a == u then 1 else 0
  {
    CountPositive(Succ(adj, u), v);
    DropFirstCount(Succ(adj, u), v, b);
  }

  /** Dependents named as often as they list the task lose every mention of it, and nothing else
      changes in the lists; in-degrees fall with the lists. */
  lemma {:induction false} ForgetInEffect(g: TaskGraph, id: Id, dependents: seq<Id>, v: Id, u: Id)
    requires forall w :: Count(dependents, w) <= EdgeCount(g.pred, w, id)
    ensures var h := ForgetIn(g, id, dependents);
      && h.tasks == g.tasks && h.succ == g.succ
      && EdgeCount(h.pred, v, u) == EdgeCount(g.pred, v, u) - (if u == id then Count(dependents, v) else 0)
      && |Succ(h.pred, v)| == |Succ(g.pred, v)| - Count(dependents, v)
      && Degree(h.degree.items, v) == Degree(g.degree.items, v) - Count(dependents, v)
  {
    if dependents != [] {
      var init, w := dependents[..|dependents| - 1], dependents[|dependents| - 1];
      forall x ensures Count(init, x) <= EdgeCount(g.pred, x, id) {
        CountLast(dependents, x);
      }
      ForgetInEffect(g, id, init, v, u);
      ForgetInEffect(g, id, init, w, id);
      CountLast(dependents, v);
      CountLast(dependents, w);
      var h := ForgetIn(g, id, init);
      CountPositive(Succ(h.pred, w), id);
      DropEdgeCount(h.pred, w, id, v, u);
    }
  }

  lemma {:induction false} ForgetInNext(g: TaskGraph, id: Id, dependents: seq<Id>, i: nat)
    requires i < |dependents|
    ensures ForgetIn(g, id, dependents[..i + 1]) == ForgetOne(ForgetIn(g, id, dependents[..i]), id, dependents[i])
  {
    assert dependents[..i + 1][..i] == dependents[..i];
  }

  lemma {:induction false} ForgetOutNext(g: TaskGraph, id: Id, dependencies: seq<Id>, i: nat)
    requires i < |dependencies|
    ensures var h := ForgetOut(g, id, dependencies[..i]);
      ForgetOut(g, id, dependencies[..i + 1]) == h.(succ := DropEdge(h.succ, dependencies[i], id))
  {
    assert dependencies[..i + 1][..i] == dependencies[..i];
  }

  lemma {:induction false} ForgetInKeys(g: TaskGraph, id: Id, dependents: seq<Id>)
    requires g.degree.Valid() && forall w :: w in dependents ==> w in g.degree.items
    ensures ForgetIn(g, id, dependents).degree.Valid()
    ensures ForgetIn(g, id, dependents).degree.keys == g.degree.keys
    ensures ForgetIn(g, id, dependents).pred.Keys == g.pred.Keys
  {
    if dependents != [] {
      var init, w := dependents[..|dependents| - 1], dependents[|dependents| - 1];
      ForgetInKeys(g, id, init);
      assert w in dependents;
      PutValid(ForgetIn(g, id, init).degree, w, Degree(ForgetIn(g, id, init).degree.items, w) - 1);
    }
  }

  function Minus(a: nat, b: nat): nat { if a < b then 0 else a - b }

  /** Each named dependency forgets the task as often as it is named, as far as it lists it. */
  lemma {:induction false} ForgetOutEffect(g: TaskGraph, id: Id, dependencies: seq<Id>, u: Id, v: Id)
    ensures var h := ForgetOut(g, id, dependencies);
      && h.tasks == g.tasks && h.pred == g.pred && h.degree == g.degree && h.succ.Keys == g.succ.Keys
      && EdgeCount(h.succ, u, v)
           == if v == id then Minus(EdgeCount(g.succ, u, v), Count(dependencies, u)) else EdgeCount(g.succ, u, v)
  {
    if dependencies != [] {
      var init, w := dependencies[..|dependencies| - 1], dependencies[|dependencies| - 1];
      ForgetOutEffect(g, id, init, u, v);
      CountLast(dependencies, u);
      var h := ForgetOut(g, id, init);
      CountPositive(Succ(h.succ, w), id);
      if id in Succ(h.succ, w) {
        DropEdgeCount(h.succ, w, id, u, v);
      }
    }
  }

  // ---- what removal leaves -----------------------------------------------------------------------

  /** Unlinking takes out every edge at the task, in both tables, and no other edge. */
  lemma {:induction false} UnlinkedEdges(g: TaskGraph, id: Id, u: Id, v: Id)
    requires Consistent(g)
    ensures var h := Unlinked(g, id);
      && h.tasks == g.tasks
      && EdgeCount(h.pred, v, u) == (if u == id then 0 else EdgeCount(g.pred, v, u))
      && (u != id ==> EdgeCount(h.succ, u, v) == if v == id then 0 else EdgeCount(g.succ, u, v))
      && |Succ(h.pred, v)| == |Succ(g.pred, v)| - EdgeCount(g.pred, v, id)
      && Degree(h.degree.items, v) == Degree(g.degree.items, v) - EdgeCount(g.pred, v, id)
      && h.succ.Keys == g.succ.Keys
  {
    var dependents := Succ(g.succ, id);
    forall w ensures Count(dependents, w) == EdgeCount(g.pred, w, id) {
      assert EdgeCount(g.succ, id, w) == EdgeCount(g.pred, w, id);
    }
    ForgetInEffect(g, id, dependents, v, u);
    var h := ForgetIn(g, id, dependents);
    forall w ensures Count(Succ(h.pred, id), w) == if w == id then 0 else EdgeCount(g.succ, w, id) {
      ForgetInEffect(g, id, dependents, id, w);
      assert EdgeCount(g.succ, w, id) == EdgeCount(g.pred, id, w);
    }
    ForgetOutEffect(h, id, Succ(h.pred, id), u, v);
  }

  lemma {:induction false} RemovedEdge(g: TaskGraph, id: Id, u: Id, v: Id)
    requires Consistent(g)
    ensures var r := Removed(g, id);
      EdgeCount(r.succ, u, v) == EdgeCount(r.pred, v, u) == if u == id || v == id then 0 else EdgeCount(g.succ, u, v)
  {
    UnlinkedEdges(g, id, u, v);
    assert EdgeCount(g.succ, u, v) == EdgeCount(g.pred, v, u);
  }

  lemma {:induction false} RemovedKeys(g: TaskGraph, id: Id)
    requires Consistent(g)
    ensures var r := Removed(g, id);
      r.tasks == g.tasks.Delete(id) && r.tasks.Valid() && r.degree.Valid() && r.degree.keys == r.tasks.keys
  {
    var mid := ForgetIn(g, id, Succ(g.succ, id));
    ConsistentEdges(g);
    forall w | w in Succ(g.succ, id) ensures w in g.degree.items {
      assert Edge(g.succ, id, w);
    }
    ForgetInKeys(g, id, Succ(g.succ, id));
    ForgetOutTables(mid, id, Succ(mid.pred, id));
    UnlinkedEdges(g, id, id, id);
    DeleteValid(g.tasks, id);
    DeleteValid(mid.degree, id);
    DeleteSameKeys(g.tasks, mid.degree, id);
  }

  lemma {:induction false} RemovedDegree(g: TaskGraph, id: Id, v: Id)
    requires Consistent(g)
    ensures var r := Removed(g, id);
      && (v in r.tasks.keys ==> v in r.degree.items && r.degree.items[v] == |Succ(r.pred, v)|)
      && (v !in r.tasks.keys ==> Succ(r.pred, v) == [])
  {
    RemovedKeys(g, id);
    UnlinkedEdges(g, id, v, v);
  }

  /** The edges that are left, whether the removal succeeds or fails part way. */
  ghost predicate EdgesLeft(g: TaskGraph, r: TaskGraph, id: Id) {
    forall u, v :: EdgeCount(r.succ, u, v) == if u == id || v == id then 0 else EdgeCount(g.succ, u, v)
  }

  /** Removal takes a task out with every edge at it and leaves consistent tables of the rest. */
  lemma {:induction false} RemovalConsistent(g: TaskGraph, id: Id)
    requires Consistent(g)
    ensures Consistent(Removed(g, id))
    ensures Removed(g, id).tasks == g.tasks.Delete(id)
    ensures EdgesLeft(g, Removed(g, id), id)
  {
    RemovedKeys(g, id);
    forall u, v { RemovedEdge(g, id, u, v); }
    forall v { RemovedDegree(g, id, v); }
  }

  /** The loops neither create nor drop adjacency keys, so whether deletion succeeds is decided by
      the tables before the call. */
  lemma {:induction false} UnlinkedKeys(g: TaskGraph, id: Id)
    ensures Unlinked(g, id).succ.Keys == g.succ.Keys && Unlinked(g, id).pred.Keys == g.pred.Keys
    ensures Unlinked(g, id).tasks == g.tasks
    ensures forall k :: k in g.degree.items ==> k in Unlinked(g, id).degree.items
  {
    var h := ForgetIn(g, id, Succ(g.succ, id));
    ForgetInTables(g, id, Succ(g.succ, id));
    ForgetOutTables(h, id, Succ(h.pred, id));
  }

  lemma {:induction false} ForgetInTables(g: TaskGraph, id: Id, dependents: seq<Id>)
    ensures var h := ForgetIn(g, id, dependents);
      && h.tasks == g.tasks && h.succ == g.succ && h.pred.Keys == g.pred.Keys
      && forall k :: k in g.degree.items ==> k in h.degree.items
  {
    if dependents != [] { ForgetInTables(g, id, dependents[..|dependents| - 1]); }
  }

  lemma {:induction false} ForgetOutTables(g: TaskGraph, id: Id, dependencies: seq<Id>)
    ensures var h := ForgetOut(g, id, dependencies);
      h.tasks == g.tasks && h.pred == g.pred && h.degree == g.degree && h.succ.Keys == g.succ.Keys
  {
    if dependencies != [] { ForgetOutTables(g, id, dependencies[..|dependencies| - 1]); }
  }

  /** A deletion that fails leaves an in-degree for a task that is gone. */
  lemma {:induction false} HalfRemovedInconsistent(g: TaskGraph, id: Id)
    requires Consistent(g) && id in g.tasks.keys
    ensures !Consistent(HalfRemoved(g, id))
  {
    UnlinkedKeys(g, id);
    var r := HalfRemoved(g, id);
    assert id in r.degree.items && id !in r.tasks.keys;
    assert !(r.degree.Valid() && r.degree.keys == r.tasks.keys);
  }

  lemma {:induction false} FilterAgree<T(!new)>(s: seq<T>, p: T -> bool, q: T -> bool)
    requires forall x :: x in s ==> p(x) == q(x)
    ensures Filter(s, p) == Filter(s, q)
  {
    if s != [] {
      assert s[0] in s;
      FilterAgree(s[1..], p, q);
    }
  }

  lemma {:induction false} DeleteSameKeys<V, W>(d: Dict<Id, V>, e: Dict<Id, W>, id: Id)
    requires d.keys == e.keys
    ensures d.Delete(id).keys == e.Delete(id).keys
  {
    FilterAgree(d.keys, x => x != id, x => x != id);
  }

  // ---- what every run keeps ------------------------------------------------------------------

  /** Also when the reverse lists hold more than the lists, unlinking leaves no edge into the task
      and touches no edge between others. */
  lemma {:induction false} UnlinkedCovers(g: TaskGraph, id: Id, u: Id, v: Id)
    requires Covers(g) && u != id
    ensures var h := Unlinked(g, id);
      && EdgeCount(h.succ, u, v) == (if v == id then 0 else EdgeCount(g.succ, u, v))
      && EdgeCount(h.pred, v, u) == EdgeCount(g.pred, v, u)
  {
    var dependents := Succ(g.succ, id);
    forall w ensures Count(dependents, w) <= EdgeCount(g.pred, w, id) {
      assert EdgeCount(g.succ, id, w) <= EdgeCount(g.pred, w, id);
    }
    ForgetInEffect(g, id, dependents, v, u);
    ForgetInEffect(g, id, dependents, id, u);
    var h := ForgetIn(g, id, dependents);
    ForgetOutEffect(h, id, Succ(h.pred, id), u, v);
    assert EdgeCount(g.succ, u, id) <= EdgeCount(g.pred, id, u) == Count(Succ(h.pred, id), u);
  }

  lemma {:induction false} RemovalEdgesLeft(g: TaskGraph, id: Id)
    requires Covers(g)
    ensures EdgesLeft(g, Removed(g, id), id) && EdgesLeft(g, HalfRemoved(g, id), id)
    ensures Covers(Removed(g, id)) && Covers(HalfRemoved(g, id))
  {
    forall u, v
      ensures EdgeCount(HalfRemoved(g, id).succ, u, v) == EdgeCount(Removed(g, id).succ, u, v)
        == if u == id || v == id then 0 else EdgeCount(g.succ, u, v)
      ensures EdgeCount(Removed(g, id).succ, u, v) <= EdgeCount(Removed(g, id).pred, v, u)
      ensures EdgeCount(HalfRemoved(g, id).succ, u, v) <= EdgeCount(HalfRemoved(g, id).pred, v, u)
    {
      if u != id {
        UnlinkedCovers(g, id, u, v);
        assert EdgeCount(g.succ, u, v) <= EdgeCount(g.pred, v, u);
      }
    }
  }

  /** A removal keeps a graph usable, also one that fails part way. */
  lemma {:induction false} RemovalKeepsUsable(g: TaskGraph, id: Id)
    requires Usable(g)
    ensures Usable(Removed(g, id)) && Usable(HalfRemoved(g, id))
  {
    RemovalEdgesLeft(g, id);
    UnlinkedKeys(g, id);
    DeleteValid(g.tasks, id);
    DependentsLeft(g, Removed(g, id), id);
    DependentsLeft(g, HalfRemoved(g, id), id);
  }

  lemma {:induction false} DependentsLeft(g: TaskGraph, r: TaskGraph, id: Id)
    requires DependentsAreTasks(g) && g.tasks.Valid()
    requires EdgesLeft(g, r, id) && r.tasks == g.tasks.Delete(id)
    ensures DependentsAreTasks(r)
  {
    forall u, v | Edge(r.succ, u, v) ensures v in r.tasks.keys {
      CountPositive(Succ(r.succ, u), v);
      CountPositive(Succ(g.succ, u), v);
      assert EdgeCount(r.succ, u, v) > 0;
      assert Edge(g.succ, u, v);
    }
  }

  /** A task without dependencies that nothing depends on cannot be removed: the call fails with the
      task gone and its in-degree left. */
  lemma {:induction false} LoneTaskNotRemoved(t: GenerationTask)
    requires t.dependencies == []
    ensures var g := Add(EMPTY_GRAPH, t);
      && t.id in g.tasks.items && (t.id !in g.succ || t.id !in g.pred) && !CanDelete(g, t.id)
      && t.id !in HalfRemoved(g, t.id).tasks.items && t.id in HalfRemoved(g, t.id).degree.items
  {
    AddTables(EMPTY_GRAPH, t);
    UnlinkedKeys(Add(EMPTY_GRAPH, t), t.id);
  }
}
