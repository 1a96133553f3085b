/** Walks, cycles and reachability over adjacency lists, which Python keeps in dicts of lists.
    Shared by the task graphs and the organisation graph, whose searches all rest on one fact: a
    node finished after everything it has edges to is on no cycle. */
module Digraph {
  import opened Collections

  type Adjacency = map<Id, seq<Id>>

  /** `adjacency.get(u, [])` */
  function Succ(adj: Adjacency, u: Id): seq<Id> {
    if u in adj then adj[u] else []
  }

  /** `adj[k].append(x)` on a defaultdict(list) */
  function Append(adj: Adjacency, k: Id, x: Id): Adjacency {
    adj[k := Succ(adj, k) + [x]]
  }

  predicate Edge(adj: Adjacency, u: Id, v: Id) {
    v in Succ(adj, u)
  }

  /** How often v occurs in the list at u. */
  function EdgeCount(adj: Adjacency, u: Id, v: Id): nat {
    Count(Succ(adj, u), v)
  }

  lemma {:induction false} AppendCount(adj: Adjacency, k: Id, x: Id, u: Id, v: Id)
    ensures EdgeCount(Append(adj, k, x), u, v)
            == EdgeCount(adj, u, v) + if u == k && v == x then 1 else 0
  {
    if u == k {
      CountAppend(Succ(adj, k), [x], v);
      assert [x][1..] == [];
    }
  }

  /** Edges of an index whose far end is an existing node: what children_of and parents_of see. */
  function Existing(adj: Adjacency, nodes: set<Id>): Adjacency {
    map u | u in adj :: Keep(adj[u], nodes)
  }

  lemma {:induction false} ExistingEdge(adj: Adjacency, nodes: set<Id>, u: Id, v: Id)
    ensures Edge(Existing(adj, nodes), u, v) <==> Edge(adj, u, v) && v in nodes
  {
  }

  /** Consecutive elements are joined by edges. */
  ghost predicate Walk(adj: Adjacency, p: seq<Id>) {
    |p| > 0 && forall i, j :: 0 <= i && j == i + 1 && j < |p| ==> Edge(adj, p[i], p[j])
  }

  ghost predicate WalkBetween(adj: Adjacency, p: seq<Id>, u: Id, v: Id) {
    Walk(adj, p) && p[0] == u && p[|p| - 1] == v
  }

  ghost predicate Reaches(adj: Adjacency, u: Id, v: Id) {
    exists p :: WalkBetween(adj, p, u, v)
  }

  /** Reachable by one or more edges. */
  ghost predicate ReachesByEdges(adj: Adjacency, u: Id, v: Id) {
    exists p :: WalkBetween(adj, p, u, v) && |p| >= 2
  }

  ghost predicate SimplePath(adj: Adjacency, p: seq<Id>) {
    Walk(adj, p) && Distinct(p)
  }

  ghost predicate Cycle(adj: Adjacency, p: seq<Id>) {
    Walk(adj, p) && |p| >= 2 && p[0] == p[|p| - 1]
  }

  ghost predicate Cyclic(adj: Adjacency) {
    exists p :: Cycle(adj, p)
  }

  /** Two adjacency maps with the same edge lists; absent keys count as empty lists. */
  ghost predicate SameEdges(a: Adjacency, b: Adjacency) {
    forall u :: Succ(a, u) == Succ(b, u)
  }

  lemma {:induction false} LastEdge(adj: Adjacency, p: seq<Id>)
    requires Walk(adj, p) && |p| >= 2
    ensures Edge(adj, p[|p| - 2], p[|p| - 1])
  {
  }

  lemma {:induction false} WalkSnoc(adj: Adjacency, p: seq<Id>, v: Id)
    requires Walk(adj, p) && Edge(adj, p[|p| - 1], v)
    ensures Walk(adj, p + [v])
  {
  }

  lemma {:induction false} WalkSlice(adj: Adjacency, p: seq<Id>, i: nat, j: nat)
    requires Walk(adj, p) && i < j <= |p|
    ensures Walk(adj, p[i..j])
  {
    forall k | 0 <= k < |p[i..j]| - 1
      ensures Edge(adj, p[i..j][k], p[i..j][k + 1])
    {
      assert Edge(adj, p[i + k], p[i + k + 1]);
    }
  }

  lemma {:induction false} WalkConcat(adj: Adjacency, p: seq<Id>, q: seq<Id>)
    requires Walk(adj, p) && Walk(adj, q) && p[|p| - 1] == q[0]
    ensures Walk(adj, p + q[1..])
  {
    var r := p + q[1..];
    forall i, j | 0 <= i && j == i + 1 && j < |r| ensures Edge(adj, r[i], r[j]) {
      if j < |p| {
        assert Edge(adj, p[i], p[j]);
      } else {
        assert Edge(adj, q[i - |p| + 1], q[j - |p| + 1]);
      }
    }
  }

  lemma {:induction false} ReachesSelf(adj: Adjacency, u: Id)
    ensures Reaches(adj, u, u)
  {
    assert WalkBetween(adj, [u], u, u);
  }

  lemma {:induction false} ReachesStep(adj: Adjacency, u: Id, v: Id, w: Id)
    requires Reaches(adj, u, v) && Edge(adj, v, w)
    ensures Reaches(adj, u, w)
  {
    var p :| WalkBetween(adj, p, u, v);
    WalkSnoc(adj, p, w);
    assert WalkBetween(adj, p + [w], u, w);
  }

  /** A set that contains u and is closed under edges contains everything u reaches. */
  lemma {:induction false} ClosedContainsWalk(adj: Adjacency, s: set<Id>, p: seq<Id>)
    requires Walk(adj, p) && p[0] in s
    requires forall x, y :: x in s && Edge(adj, x, y) ==> y in s
    ensures forall x :: x in p ==> x in s
  {
    if |p| > 1 {
      WalkSlice(adj, p, 0, |p| - 1);
      ClosedContainsWalk(adj, s, p[..|p| - 1]);
      assert Edge(adj, p[|p| - 2], p[|p| - 1]);
      assert p[|p| - 2] == p[..|p| - 1][|p| - 2];
      assert p == p[..|p| - 1] + [p[|p| - 1]];
    } else {
      assert p == [p[0]];
    }
  }

  /** done lists nodes so that every successor of a node comes strictly before it:
      the order in which a depth-first search without back edges finishes nodes. */
  ghost predicate FinishOrder(adj: Adjacency, done: seq<Id>) {
    forall i, y :: 0 <= i < |done| && Edge(adj, done[i], y) ==> y in done[..i]
  }

  lemma {:induction false} FinishOrderSnoc(adj: Adjacency, done: seq<Id>, u: Id)
    requires FinishOrder(adj, done)
    requires forall y :: Edge(adj, u, y) ==> y in done
    ensures FinishOrder(adj, done + [u])
  {
    forall i, y | 0 <= i < |done + [u]| && Edge(adj, (done + [u])[i], y)
      ensures y in (done + [u])[..i]
    {
      assert (done + [u])[..i] == done[..i];
    }
  }

  /** A walk from a finished node goes strictly down the finish order. */
  lemma {:induction false} WalkDescends(adj: Adjacency, done: seq<Id>, p: seq<Id>, i: nat)
    requires FinishOrder(adj, done) && i < |done|
    requires Walk(adj, p) && |p| >= 2 && p[0] == done[i]
    ensures p[|p| - 1] in done[..i]
    decreases |p|
  {
    assert Edge(adj, p[0], p[1]);
    if |p| > 2 {
      var j :| 0 <= j < i && done[j] == p[1];
      WalkSlice(adj, p, 1, |p|);
      WalkDescends(adj, done, p[1..], j);
      assert done[..j] <= done[..i];
    }
  }

  lemma {:induction false} FinishedNotOnCycle(adj: Adjacency, done: seq<Id>, p: seq<Id>)
    requires FinishOrder(adj, done) && Distinct(done)
    requires Cycle(adj, p)
    ensures p[0] !in done
  {
    if p[0] in done {
      var i :| 0 <= i < |done| && done[i] == p[0];
      WalkDescends(adj, done, p, i);
    }
  }

  ghost predicate HasPredecessorIn(adj: Adjacency, s: set<Id>, v: Id) {
    exists u :: u in s && Edge(adj, u, v)
  }

  /** If every node of a non-empty finite set has a predecessor in the set, there is a cycle. */
  lemma {:induction false} NoSourceMeansCycle(adj: Adjacency, s: set<Id>)
    requires s != {}
    requires forall v {:trigger HasPredecessorIn(adj, s, v)} :: v in s ==> HasPredecessorIn(adj, s, v)
    ensures Cyclic(adj)
  {
    var v :| v in s;
    ExtendBackwards(adj, s, [v]);
  }

  lemma {:induction false} ExtendBackwards(adj: Adjacency, s: set<Id>, p: seq<Id>)
    requires forall v {:trigger HasPredecessorIn(adj, s, v)} :: v in s ==> HasPredecessorIn(adj, s, v)
    requires Walk(adj, p) && Distinct(p) && forall x :: x in p ==> x in s
    ensures Cyclic(adj)
    decreases |s| - |p|
  {
    assert HasPredecessorIn(adj, s, p[0]);
    var u :| u in s && Edge(adj, u, p[0]);
    var q := [u] + p;
    forall i | 0 <= i < |q| - 1
      ensures Edge(adj, q[i], q[i + 1])
    {
      assert i > 0 ==> Edge(adj, p[i - 1], p[i - 1 + 1]);
    }
    if u in p {
      var k :| 0 <= k < |p| && p[k] == u;
      WalkSlice(adj, q, 0, k + 2);
      assert Cycle(adj, q[0..k + 2]);
    } else {
      DistinctFits(p, s);
      assert forall x :: x in q ==> x in s;
      DistinctFits(q, s);
      ExtendBackwards(adj, s, q);
    }
  }

  function Reverse(p: seq<Id>): (r: seq<Id>)
    ensures |r| == |p| && forall i :: 0 <= i < |p| ==> r[i] == p[|p| - 1 - i]
  {
    if p == [] then [] else Reverse(p[1..]) + [p[0]]
  }

  lemma ReverseSnoc(p: seq<Id>, x: Id)
    ensures Reverse([x] + p) == Reverse(p) + [x]
    ensures Reverse(p + [x]) == [x] + Reverse(p)
  {
    assert ([x] + p)[1..] == p;
    if p != [] { assert (p + [x])[1..] == p[1..] + [x]; }
  }

  lemma ReverseTwice(p: seq<Id>)
    ensures Reverse(Reverse(p)) == p
  {
  }

  lemma {:induction false} ReverseWalk(succ: Adjacency, pred: Adjacency, p: seq<Id>)
    requires Walk(succ, p)
    requires forall u, v :: Edge(succ, u, v) ==> Edge(pred, v, u)
    ensures Walk(pred, Reverse(p))
  {
    var r := Reverse(p);
    forall i, j | 0 <= i && j == i + 1 && j < |r|
      ensures Edge(pred, r[i], r[j])
    {
      assert Edge(succ, p[|p| - 1 - j], p[|p| - 1 - i]);
    }
  }
}
