/** Which cycles the search of `detect_cycles` lists, and when it lists all of them. */
module CycleListing {
  import opened Collections
  import opened Digraph
  import opened CycleSearch

  // ---- the stack at each node ----------------------------------------------------------------

  predicate From(cycle: seq<Id>, u: Id) {
    |cycle| >= 2 && cycle[|cycle| - 2] == u
  }

  /** The list closes a stretch of the path. */
  predicate ClosesPath(path: seq<Id>, cycle: seq<Id>) {
    path != [] && cycle != [] && cycle[|cycle| - 1] in path && cycle == Closing(path, cycle[|cycle| - 1])
  }

  /** path is the stack when u was visited: a simple path to u, on which root is the first node if it
      is there at all. The edges of u that close lists are those back to the path, each as often as it
      is listed, and their lists are the stretches of the path that they close. */
  ghost predicate Stacked(g: Adjacency, root: Id, cycles: seq<seq<Id>>, u: Id, path: seq<Id>) {
    && SimplePath(g, path) && path[|path| - 1] == u && (root in path ==> path[0] == root)
    && (forall c :: Closes(cycles, u, c) == if c in path then EdgeCount(g, u, c) else 0)
    && (forall l :: l in cycles && From(l, u) ==> ClosesPath(path, l))
  }

  ghost predicate HasStack(g: Adjacency, root: Id, cycles: seq<seq<Id>>, u: Id) {
    exists path :: Stacked(g, root, cycles, u, path)
  }

  /** What a step of the search adds: lists of nodes it visits, or closing the given path. */
  ghost predicate NewLists(s: Search, r: Search, path: seq<Id>) {
    forall l :: l in r.cycles ==>
      l in s.cycles || (|l| >= 2 && l[|l| - 2] in r.visited - s.visited) || ClosesPath(path, l)
  }

  lemma {:induction false} VisitAdds(adj: Adjacency, nodes: set<Id>, path: seq<Id>, node: Id, s: Search)
    requires node in nodes && node !in s.visited
    ensures NewLists(s, Visit(adj, nodes, path, node, s), [])
    decreases nodes - s.visited, 0
  {
    VisitEachAdds(adj, nodes, path + [node], Succ(adj, node), Search(s.visited + {node}, s.cycles));
  }

  lemma {:induction false} VisitEachAdds(adj: Adjacency, nodes: set<Id>, path: seq<Id>, neighbours: seq<Id>, s: Search)
    requires path != []
    ensures NewLists(s, VisitEach(adj, nodes, path, neighbours, s), path)
    decreases nodes - s.visited, |neighbours| + 1
  {
    if neighbours != [] {
      MeetAdds(adj, nodes, path, neighbours[0], s);
      VisitEachAdds(adj, nodes, path, neighbours[1..], Meet(adj, nodes, path, neighbours[0], s));
    }
  }

  lemma {:induction false} MeetAdds(adj: Adjacency, nodes: set<Id>, path: seq<Id>, child: Id, s: Search)
    requires path != []
    ensures NewLists(s, Meet(adj, nodes, path, child, s), path)
    decreases nodes - s.visited, 1
  {
    if child in nodes && child !in s.visited {
      VisitAdds(adj, nodes, path, child, s);
    }
  }

  ghost predicate SourcesVisited(s: Search) {
    forall l :: l in s.cycles ==> |l| >= 2 && l[|l| - 2] in s.visited
  }

  lemma {:induction false} NewListsSources(s: Search, r: Search, path: seq<Id>)
    requires SourcesVisited(s) && NewLists(s, r, path) && s.visited <= r.visited
    requires path != [] ==> path[|path| - 1] in s.visited
    ensures SourcesVisited(r)
  {
  }

  lemma {:induction false} NoSource(cycles: seq<seq<Id>>, u: Id, c: Id)
    requires forall l :: l in cycles ==> !From(l, u)
    ensures Closes(cycles, u, c) == 0
  {
    if cycles != [] {
      assert cycles[|cycles| - 1] in cycles;
      forall l | l in cycles[..|cycles| - 1] ensures l in cycles {
      }
      NoSource(cycles[..|cycles| - 1], u, c);
    }
  }

  /** A stack found for a node keeps explaining its lists while others are visited. */
  lemma {:induction false} StackStays(g: Adjacency, root: Id, s: Search, r: Search, path: seq<Id>, u: Id)
    requires HasStack(g, root, s.cycles, u) && u in s.visited
    requires NewLists(s, r, path) && (path != [] ==> path[|path| - 1] != u)
    requires forall c :: Closes(r.cycles, u, c) == Closes(s.cycles, u, c)
    ensures HasStack(g, root, r.cycles, u)
  {
    var stack :| Stacked(g, root, s.cycles, u, stack);
    assert Stacked(g, root, r.cycles, u, stack);
  }

  /** Every node between the two searches has a stack. */
  ghost predicate StacksFor(g: Adjacency, root: Id, s: Search, r: Search) {
    forall u :: u in r.visited && u !in s.visited ==> HasStack(g, root, r.cycles, u)
  }

  lemma {:induction false} VisitStacks(adj: Adjacency, nodes: set<Id>, root: Id, path: seq<Id>, node: Id, s: Search)
    requires node in nodes && node !in s.visited && SourcesVisited(s) && forall x :: x in path ==> x in s.visited
    requires SimplePath(Existing(adj, nodes), path + [node]) && root in s.visited + {node}
    requires root in path + [node] ==> (path + [node])[0] == root
    ensures StacksFor(Existing(adj, nodes), root, s, Visit(adj, nodes, path, node, s))
    decreases nodes - s.visited, 0
  {
    VisitEachStacks(adj, nodes, root, path + [node], Succ(adj, node), Search(s.visited + {node}, s.cycles));
    OwnStack(adj, nodes, root, path, node, s);
  }

  /** The stack of the node that a search starts from. */
  lemma {:induction false} OwnStack(adj: Adjacency, nodes: set<Id>, root: Id, path: seq<Id>, node: Id, s: Search)
    requires node in nodes && node !in s.visited && SourcesVisited(s) && forall x :: x in path ==> x in s.visited
    requires SimplePath(Existing(adj, nodes), path + [node])
    requires root in path + [node] ==> (path + [node])[0] == root
    ensures HasStack(Existing(adj, nodes), root, Visit(adj, nodes, path, node, s).cycles, node)
  {
    var g, here, r := Existing(adj, nodes), path + [node], Visit(adj, nodes, path, node, s);
    VisitEachAdds(adj, nodes, here, Succ(adj, node), Search(s.visited + {node}, s.cycles));
    forall c ensures Closes(r.cycles, node, c) == if c in here then EdgeCount(g, node, c) else 0 {
      VisitCounts(adj, nodes, path, node, s, node, c);
      NoSource(s.cycles, node, c);
    }
    assert Stacked(g, root, r.cycles, node, here);
  }

  lemma {:induction false} VisitEachStacks(adj: Adjacency, nodes: set<Id>, root: Id, path: seq<Id>,
                                           neighbours: seq<Id>, s: Search)
    requires path != [] && SourcesVisited(s) && (forall x :: x in path ==> x in s.visited)
    requires SimplePath(Existing(adj, nodes), path) && root in s.visited && (root in path ==> path[0] == root)
    requires forall y :: y in neighbours ==> Edge(adj, path[|path| - 1], y)
    ensures StacksFor(Existing(adj, nodes), root, s, VisitEach(adj, nodes, path, neighbours, s))
    decreases nodes - s.visited, |neighbours| + 1
  {
    if neighbours != [] {
      var child, rest := neighbours[0], neighbours[1..];
      var t := Meet(adj, nodes, path, child, s);
      assert child in neighbours;
      forall y | y in rest ensures Edge(adj, path[|path| - 1], y) {
        TailMember(neighbours, y);
      }
      MeetStacks(adj, nodes, root, path, child, s);
      MeetAdds(adj, nodes, path, child, s);
      NewListsSources(s, t, path);
      VisitEachStacks(adj, nodes, root, path, rest, t);
      StacksStay(adj, nodes, root, path, rest, s, t);
    }
  }

  /** The stacks found by meeting one child hold on while the rest is met. */
  lemma {:induction false} StacksStay(adj: Adjacency, nodes: set<Id>, root: Id, path: seq<Id>, rest: seq<Id>,
                                      s: Search, t: Search)
    requires path != [] && path[|path| - 1] in s.visited && s.visited <= t.visited
    requires forall x :: x in path ==> x in t.visited
    requires StacksFor(Existing(adj, nodes), root, s, t)
    requires StacksFor(Existing(adj, nodes), root, t, VisitEach(adj, nodes, path, rest, t))
    ensures StacksFor(Existing(adj, nodes), root, s, VisitEach(adj, nodes, path, rest, t))
  {
    var g, r := Existing(adj, nodes), VisitEach(adj, nodes, path, rest, t);
    VisitEachAdds(adj, nodes, path, rest, t);
    forall u | u in t.visited && u !in s.visited ensures HasStack(g, root, r.cycles, u) {
      forall c ensures Closes(r.cycles, u, c) == Closes(t.cycles, u, c) {
        VisitEachCounts(adj, nodes, path, rest, t, u, c);
      }
      StackStays(g, root, t, r, path, u);
    }
  }

  lemma {:induction false} MeetStacks(adj: Adjacency, nodes: set<Id>, root: Id, path: seq<Id>, child: Id, s: Search)
    requires path != [] && SourcesVisited(s) && (forall x :: x in path ==> x in s.visited)
    requires SimplePath(Existing(adj, nodes), path) && root in s.visited && (root in path ==> path[0] == root)
    requires Edge(adj, path[|path| - 1], child)
    ensures StacksFor(Existing(adj, nodes), root, s, Meet(adj, nodes, path, child, s))
    decreases nodes - s.visited, 1
  {
    if child in nodes && child !in s.visited {
      ExistingEdge(adj, nodes, path[|path| - 1], child);
      WalkSnoc(Existing(adj, nodes), path, child);
      DistinctSnoc(path, child);
      VisitStacks(adj, nodes, root, path, child, s);
    }
  }

  lemma {:induction false} VisitAllStacks(adj: Adjacency, nodes: set<Id>, root: Id, keys: seq<Id>, s: Search)
    requires SourcesVisited(s) && (forall x :: x in keys ==> x in nodes)
    requires keys != [] ==> root in s.visited + {keys[0]}
    requires forall u :: u in s.visited ==> HasStack(Existing(adj, nodes), root, s.cycles, u)
    ensures var r := VisitAll(adj, nodes, keys, s);
      && SourcesVisited(r) && r.visited >= s.visited + Elements(keys)
      && forall u :: u in r.visited ==> HasStack(Existing(adj, nodes), root, r.cycles, u)
    decreases |keys|
  {
    if keys != [] {
      var t := s;
      if keys[0] !in s.visited {
        t := Visit(adj, nodes, [], keys[0], s);
        RootStacks(adj, nodes, root, keys[0], s);
      }
      VisitAllStacks(adj, nodes, root, keys[1..], t);
    }
  }

  lemma {:induction false} RootStacks(adj: Adjacency, nodes: set<Id>, root: Id, key: Id, s: Search)
    requires SourcesVisited(s) && key in nodes && key !in s.visited && root in s.visited + {key}
    requires forall u :: u in s.visited ==> HasStack(Existing(adj, nodes), root, s.cycles, u)
    ensures var t := Visit(adj, nodes, [], key, s);
      SourcesVisited(t) && forall u :: u in t.visited ==> HasStack(Existing(adj, nodes), root, t.cycles, u)
  {
    var g, t := Existing(adj, nodes), Visit(adj, nodes, [], key, s);
    assert [] + [key] == [key];
    VisitStacks(adj, nodes, root, [], key, s);
    VisitAdds(adj, nodes, [], key, s);
    NewListsSources(s, t, []);
    forall u | u in s.visited ensures HasStack(g, root, t.cycles, u) {
      forall c ensures Closes(t.cycles, u, c) == Closes(s.cycles, u, c) {
        VisitCounts(adj, nodes, [], key, s, u, c);
      }
      StackStays(g, root, s, t, [], u);
    }
  }

  /** Exactly the edges back to a node's stack close lists: each as often as it is listed, and its
      list is the stretch of the stack that it closes. Every list comes from one of the nodes. */
  lemma {:induction false} StacksExplainLists(adj: Adjacency, nodes: set<Id>, keys: seq<Id>)
    requires keys != [] && forall x :: x in keys <==> x in nodes
    ensures var g, cycles := Existing(adj, nodes), Detected(adj, nodes, keys);
      && (forall u :: u in nodes ==> HasStack(g, keys[0], cycles, u))
      && (forall l :: l in cycles ==> |l| >= 2 && HasStack(g, keys[0], cycles, l[|l| - 2]))
  {
    VisitAllStacks(adj, nodes, keys[0], keys, Search({}, []));
    forall u | u in nodes ensures u in Elements(keys) {
    }
  }

  // ---- every cycle holds a closing edge ------------------------------------------------------

  /** An edge that closes no list. */
  predicate OpenEdge(g: Adjacency, cycles: seq<seq<Id>>, u: Id, y: Id) {
    Edge(g, u, y) && Closes(cycles, u, y) == 0
  }

  /** Nodes in the order they were finished: an edge that closes no list leads to an earlier one. */
  ghost predicate FinishedBut(g: Adjacency, cycles: seq<seq<Id>>, done: seq<Id>) {
    forall i, y :: 0 <= i < |done| && OpenEdge(g, cycles, done[i], y) ==> y in done[..i]
  }

  ghost predicate OnPath(s: Search, path: seq<Id>, done: seq<Id>) {
    Distinct(done) && (forall x :: x in path ==> x !in done) && s.visited == Elements(done) + Elements(path)
  }

  ghost predicate MoreLists(s: Search, r: Search) {
    forall u, c :: Closes(s.cycles, u, c) <= Closes(r.cycles, u, c)
  }

  lemma {:induction false} FinishedGrows(g: Adjacency, s: Search, r: Search, done: seq<Id>)
    requires FinishedBut(g, s.cycles, done) && MoreLists(s, r)
    ensures FinishedBut(g, r.cycles, done)
  {
    forall i, y | 0 <= i < |done| && OpenEdge(g, r.cycles, done[i], y) ensures y in done[..i] {
      assert OpenEdge(g, s.cycles, done[i], y);
    }
  }

  lemma {:induction false} FinishedSnoc(g: Adjacency, cycles: seq<seq<Id>>, done: seq<Id>, u: Id)
    requires FinishedBut(g, cycles, done) && forall y :: OpenEdge(g, cycles, u, y) ==> y in done
    ensures FinishedBut(g, cycles, done + [u])
  {
    forall i, y | 0 <= i < |done| + 1 && OpenEdge(g, cycles, (done + [u])[i], y) ensures y in (done + [u])[..i] {
      assert (done + [u])[..i] == done[..i];
    }
  }

  lemma {:induction false} EachMore(adj: Adjacency, nodes: set<Id>, path: seq<Id>, neighbours: seq<Id>, s: Search)
    requires path != [] && forall x :: x in path ==> x in s.visited
    ensures MoreLists(s, VisitEach(adj, nodes, path, neighbours, s))
  {
    forall u, c ensures Closes(s.cycles, u, c) <= Closes(VisitEach(adj, nodes, path, neighbours, s).cycles, u, c) {
      VisitEachCounts(adj, nodes, path, neighbours, s, u, c);
    }
  }

  lemma {:induction false} VisitFinishes(adj: Adjacency, nodes: set<Id>, path: seq<Id>, node: Id, s: Search,
                                         done: seq<Id>) returns (done': seq<Id>)
    requires node in nodes && node !in s.visited && OnPath(s, path, done)
    requires FinishedBut(Existing(adj, nodes), s.cycles, done)
    ensures var r := Visit(adj, nodes, path, node, s);
      && done <= done' && node in done' && OnPath(r, path, done')
      && FinishedBut(Existing(adj, nodes), r.cycles, done')
    decreases nodes - s.visited, 0
  {
    var g, here, r := Existing(adj, nodes), path + [node], Visit(adj, nodes, path, node, s);
    var inner := VisitEachFinishes(adj, nodes, here, Succ(adj, node), Search(s.visited + {node}, s.cycles), done);
    forall y | OpenEdge(g, r.cycles, node, y) ensures y in inner {
      ExistingEdge(adj, nodes, node, y);
      assert Settled(nodes, r, node, y, inner);
    }
    FinishedSnoc(g, r.cycles, inner, node);
    DistinctSnoc(inner, node);
    done' := inner + [node];
  }

  /** A neighbour is absent, finished, or closes a list. */
  predicate Settled(nodes: set<Id>, s: Search, u: Id, y: Id, done: seq<Id>) {
    y !in nodes || y in done || Closes(s.cycles, u, y) > 0
  }

  lemma {:induction false} VisitEachFinishes(adj: Adjacency, nodes: set<Id>, path: seq<Id>, neighbours: seq<Id>,
                                             s: Search, done: seq<Id>) returns (done': seq<Id>)
    requires path != [] && OnPath(s, path, done) && FinishedBut(Existing(adj, nodes), s.cycles, done)
    ensures var r := VisitEach(adj, nodes, path, neighbours, s);
      && done <= done' && OnPath(r, path, done') && FinishedBut(Existing(adj, nodes), r.cycles, done')
      && forall y :: y in neighbours ==> Settled(nodes, r, path[|path| - 1], y, done')
    decreases nodes - s.visited, |neighbours| + 1
  {
    done' := done;
    if neighbours != [] {
      var child, rest := neighbours[0], neighbours[1..];
      var t := Meet(adj, nodes, path, child, s);
      var mid := MeetFinishes(adj, nodes, path, child, s, done);
      done' := VisitEachFinishes(adj, nodes, path, rest, t, mid);
      EachMore(adj, nodes, path, rest, t);
      var u, r := path[|path| - 1], VisitEach(adj, nodes, path, rest, t);
      assert Closes(t.cycles, u, child) <= Closes(r.cycles, u, child);
      forall y | y in neighbours ensures Settled(nodes, r, u, y, done') {
        if y == child {
          assert Settled(nodes, t, u, y, mid);
        } else {
          assert y in rest;
        }
      }
    }
  }

  lemma {:induction false} MeetFinishes(adj: Adjacency, nodes: set<Id>, path: seq<Id>, child: Id, s: Search,
                                        done: seq<Id>) returns (done': seq<Id>)
    requires path != [] && OnPath(s, path, done) && FinishedBut(Existing(adj, nodes), s.cycles, done)
    ensures var r := Meet(adj, nodes, path, child, s);
      && done <= done' && OnPath(r, path, done') && FinishedBut(Existing(adj, nodes), r.cycles, done')
      && Settled(nodes, r, path[|path| - 1], child, done')
    decreases nodes - s.visited, 1
  {
    done' := done;
    if child in nodes {
      if child !in s.visited {
        done' := VisitFinishes(adj, nodes, path, child, s, done);
      } else if child in path {
        var r := Meet(adj, nodes, path, child, s);
        forall u, c ensures Closes(s.cycles, u, c) <= Closes(r.cycles, u, c) {
          ClosesSnoc(s.cycles, Closing(path, child), u, c);
        }
        ClosesSnoc(s.cycles, Closing(path, child), path[|path| - 1], child);
        FinishedGrows(Existing(adj, nodes), s, r, done);
      }
    }
  }

  lemma {:induction false} VisitAllFinishes(adj: Adjacency, nodes: set<Id>, keys: seq<Id>, s: Search, done: seq<Id>)
      returns (done': seq<Id>)
    requires OnPath(s, [], done) && FinishedBut(Existing(adj, nodes), s.cycles, done)
    requires forall x :: x in keys ==> x in nodes
    ensures var r := VisitAll(adj, nodes, keys, s);
      && done <= done' && Distinct(done') && FinishedBut(Existing(adj, nodes), r.cycles, done')
      && forall x :: x in keys ==> x in done'
    decreases |keys|
  {
    done' := done;
    if keys != [] {
      if keys[0] !in s.visited {
        var mid := VisitFinishes(adj, nodes, [], keys[0], s, done);
        done' := VisitAllFinishes(adj, nodes, keys[1..], Visit(adj, nodes, [], keys[0], s), mid);
      } else {
        done' := VisitAllFinishes(adj, nodes, keys[1..], s, done);
      }
    }
  }

  /** The edges that close no list. */
  function OpenEdges(g: Adjacency, cycles: seq<seq<Id>>): Adjacency {
    map u | u in g :: Filter(g[u], y => Closes(cycles, u, y) == 0)
  }

  ghost predicate ClosingStep(cycles: seq<seq<Id>>, p: seq<Id>, i: nat)
    requires i + 1 < |p|
  {
    Closes(cycles, p[i], p[i + 1]) > 0
  }

  lemma {:induction false} OpenWalk(g: Adjacency, cycles: seq<seq<Id>>, p: seq<Id>)
    requires Walk(g, p) && forall i :: 0 <= i < |p| - 1 ==> !ClosingStep(cycles, p, i)
    ensures Walk(OpenEdges(g, cycles), p)
  {
    forall i, j | 0 <= i && j == i + 1 && j < |p| ensures Edge(OpenEdges(g, cycles), p[i], p[j]) {
      assert Edge(g, p[i], p[j]) && !ClosingStep(cycles, p, i);
    }
  }

  /** Every cycle among the nodes contains an edge that closes a list. */
  lemma {:induction false} CycleHasClosingEdge(adj: Adjacency, nodes: set<Id>, keys: seq<Id>, p: seq<Id>)
      returns (i: nat)
    requires Cycle(Existing(adj, nodes), p) && forall x :: x in keys <==> x in nodes
    ensures i + 1 < |p| && ClosingStep(Detected(adj, nodes, keys), p, i)
  {
    var g, cycles := Existing(adj, nodes), Detected(adj, nodes, keys);
    if forall i :: 0 <= i < |p| - 1 ==> !ClosingStep(cycles, p, i) {
      var done := VisitAllFinishes(adj, nodes, keys, Search({}, []), []);
      OpenWalk(g, cycles, p);
      OpenFinish(g, cycles, done);
      FinishedNotOnCycle(OpenEdges(g, cycles), done, p);
      LastEdge(g, p);
      ExistingEdge(adj, nodes, p[|p| - 2], p[|p| - 1]);
    }
    i :| 0 <= i < |p| - 1 && ClosingStep(cycles, p, i);
  }

  lemma {:induction false} OpenFinish(g: Adjacency, cycles: seq<seq<Id>>, done: seq<Id>)
    requires FinishedBut(g, cycles, done)
    ensures FinishOrder(OpenEdges(g, cycles), done)
  {
    forall i, y | 0 <= i < |done| && Edge(OpenEdges(g, cycles), done[i], y) ensures y in done[..i] {
      assert OpenEdge(g, cycles, done[i], y);
    }
  }

  // ---- when every cycle is listed ------------------------------------------------------------

  /** A cycle that passes none of its nodes twice. */
  ghost predicate Elementary(g: Adjacency, p: seq<Id>) {
    Cycle(g, p) && Distinct(p[1..])
  }

  predicate StepAt(p: seq<Id>, i: nat, u: Id, v: Id) {
    i + 1 < |p| && p[i] == u && p[i + 1] == v
  }

  ghost predicate Uses(p: seq<Id>, u: Id, v: Id) {
    exists i: nat :: StepAt(p, i, u, v)
  }

  /** The same cycle, wherever it starts. */
  ghost predicate SameCycle(p: seq<Id>, q: seq<Id>) {
    forall u, v :: Uses(p, u, v) <==> Uses(q, u, v)
  }

  ghost predicate Listed(cycles: seq<seq<Id>>, p: seq<Id>) {
    exists l :: l in cycles && SameCycle(l, p)
  }

  ghost predicate ListsAll(g: Adjacency, cycles: seq<seq<Id>>) {
    forall p :: Elementary(g, p) ==> Listed(cycles, p)
  }

  /** No edge lies on two different elementary cycles. */
  ghost predicate CyclesShareNoEdge(g: Adjacency) {
    forall p, q, u, v :: Elementary(g, p) && Elementary(g, q) && Uses(p, u, v) && Uses(q, u, v) ==> SameCycle(p, q)
  }

  lemma {:induction false} CloserExists(cycles: seq<seq<Id>>, u: Id, c: Id)
    ensures Closes(cycles, u, c) > 0 <==> exists l :: l in cycles && ClosedBy(l, u, c)
  {
    if cycles != [] {
      var init, last := cycles[..|cycles| - 1], cycles[|cycles| - 1];
      CloserExists(init, u, c);
      Snoc(cycles);
      assert last in cycles && forall l :: l in cycles ==> l in init || l == last;
      if Closes(init, u, c) > 0 {
        var l :| l in init && ClosedBy(l, u, c);
        assert l in cycles;
      }
    }
  }

  lemma {:induction false} ClosedDistinct(path: seq<Id>, m: nat)
    requires Distinct(path) && m < |path|
    ensures Distinct((path[m..] + [path[m]])[1..])
  {
    var l := path[m..] + [path[m]];
    forall i, j | 0 <= i < j < |l| - 1 ensures l[1..][i] != l[1..][j] {
      assert l[1..][i] == path[m + 1 + i];
      assert l[1..][j] == if j < |l| - 2 then path[m + 1 + j] else path[m];
    }
  }

  lemma {:induction false} ClosedMeetsRoot(path: seq<Id>, m: nat, root: Id)
    requires Distinct(path) && m < |path| && (root in path ==> path[0] == root)
    ensures root in path[m..] + [path[m]] ==> m == 0 && path[m] == root
  {
    if root in path[m..] + [path[m]] {
      var k :| m <= k < |path| && path[k] == root;
      assert root in path && path[0] == path[k];
    }
  }

  lemma {:induction false} ClosingElementary(g: Adjacency, root: Id, path: seq<Id>, l: seq<Id>)
    requires SimplePath(g, path) && (root in path ==> path[0] == root) && ClosesPath(path, l)
    requires Edge(g, path[|path| - 1], l[|l| - 1])
    ensures Elementary(g, l) && (root in l ==> l[0] == root)
  {
    var m :| 0 <= m < |path| && path[m] == l[|l| - 1];
    ClosingFrom(path, m);
    ClosedDistinct(path, m);
    ClosedMeetsRoot(path, m, root);
    ClosedIsCycle(g, path, m);
  }

  /** Every list is an elementary cycle, and one that meets the first node starts there. */
  lemma {:induction false} ListsAreElementary(adj: Adjacency, nodes: set<Id>, keys: seq<Id>, l: seq<Id>)
    requires keys != [] && (forall x :: x in keys <==> x in nodes) && l in Detected(adj, nodes, keys)
    ensures Elementary(Existing(adj, nodes), l) && (keys[0] in l ==> l[0] == keys[0])
  {
    var g, cycles := Existing(adj, nodes), Detected(adj, nodes, keys);
    StacksExplainLists(adj, nodes, keys);
    var u, c := l[|l| - 2], l[|l| - 1];
    var path :| Stacked(g, keys[0], cycles, u, path);
    assert From(l, u) && ClosedBy(l, u, c);
    CloserExists(cycles, u, c);
    CountPositive(Succ(g, u), c);
    assert Edge(g, u, c);
    ClosingElementary(g, keys[0], path, l);
  }

  /** Where no edge lies on two different cycles every elementary cycle is listed. */
  lemma {:induction false} SeparateCyclesListed(adj: Adjacency, nodes: set<Id>, keys: seq<Id>)
    requires CyclesShareNoEdge(Existing(adj, nodes)) && forall x :: x in keys <==> x in nodes
    ensures ListsAll(Existing(adj, nodes), Detected(adj, nodes, keys))
  {
    var g, cycles := Existing(adj, nodes), Detected(adj, nodes, keys);
    forall p | Elementary(g, p) ensures Listed(cycles, p) {
      var i := CycleHasClosingEdge(adj, nodes, keys, p);
      CloserExists(cycles, p[i], p[i + 1]);
      var l :| l in cycles && ClosedBy(l, p[i], p[i + 1]);
      ListsAreElementary(adj, nodes, keys, l);
      assert StepAt(p, i, p[i], p[i + 1]) && StepAt(l, |l| - 2, p[i], p[i + 1]);
      assert Uses(p, p[i], p[i + 1]) && Uses(l, p[i], p[i + 1]);
    }
  }

  /** A list that uses an edge into the first node ends with it. */
  lemma {:induction false} RootEdgeCloses(g: Adjacency, root: Id, l: seq<Id>, u: Id)
    requires Elementary(g, l) && Uses(l, u, root) && (root in l ==> l[0] == root)
    ensures ClosedBy(l, u, root)
  {
    var i: nat :| StepAt(l, i, u, root);
    assert l[1..][i] == root && l[1..][|l| - 2] == l[|l| - 1];
  }

  /** Lists that end with the same edge are the same. */
  lemma {:induction false} SameClosingEdge(adj: Adjacency, nodes: set<Id>, keys: seq<Id>, l: seq<Id>, m: seq<Id>,
                                           u: Id, c: Id)
    requires keys != [] && (forall x :: x in keys <==> x in nodes)
    requires l in Detected(adj, nodes, keys) && ClosedBy(l, u, c)
    requires m in Detected(adj, nodes, keys) && ClosedBy(m, u, c)
    ensures l == m
  {
    StacksExplainLists(adj, nodes, keys);
    var path :| Stacked(Existing(adj, nodes), keys[0], Detected(adj, nodes, keys), u, path);
    assert From(l, u) && From(m, u);
  }

  /** Of two cycles that share an edge into the first node of the search at most one is listed. */
  lemma {:induction false} SharedRootEdge(adj: Adjacency, nodes: set<Id>, keys: seq<Id>, p: seq<Id>, q: seq<Id>, u: Id)
    requires keys != [] && (forall x :: x in keys <==> x in nodes)
    requires Uses(p, u, keys[0]) && Uses(q, u, keys[0])
    requires Listed(Detected(adj, nodes, keys), p) && Listed(Detected(adj, nodes, keys), q)
    ensures SameCycle(p, q)
  {
    var g, cycles := Existing(adj, nodes), Detected(adj, nodes, keys);
    var l :| l in cycles && SameCycle(l, p);
    var m :| m in cycles && SameCycle(m, q);
    ListsAreElementary(adj, nodes, keys, l);
    ListsAreElementary(adj, nodes, keys, m);
    RootEdgeCloses(g, keys[0], l, u);
    RootEdgeCloses(g, keys[0], m, u);
    SameClosingEdge(adj, nodes, keys, l, m, u, keys[0]);
  }

  /** An order in which the nodes can have been added. */
  ghost predicate OrderOf(nodes: set<Id>, keys: seq<Id>) {
    Distinct(keys) && forall x :: x in keys <==> x in nodes
  }

  lemma {:induction false} OrderFrom(nodes: set<Id>, keys: seq<Id>, v: Id) returns (order: seq<Id>)
    requires OrderOf(nodes, keys) && v in nodes
    ensures OrderOf(nodes, order) && order != [] && order[0] == v
  {
    var rest := Filter(keys, x => x != v);
    FilterDistinct(keys, x => x != v);
    DistinctConcat([v], rest);
    order := [v] + rest;
  }

  /** Whatever the order of the nodes, `detect_cycles` lists every elementary cycle if and only if no
      edge lies on two different ones. */
  lemma {:induction false} ListsAllExactly(adj: Adjacency, nodes: set<Id>, keys: seq<Id>)
    requires OrderOf(nodes, keys)
    ensures (forall order :: OrderOf(nodes, order) ==> ListsAll(Existing(adj, nodes), Detected(adj, nodes, order)))
      <==> CyclesShareNoEdge(Existing(adj, nodes))
  {
    var g := Existing(adj, nodes);
    if CyclesShareNoEdge(g) {
      forall order | OrderOf(nodes, order) ensures ListsAll(g, Detected(adj, nodes, order)) {
        SeparateCyclesListed(adj, nodes, order);
      }
    }
    if forall order :: OrderOf(nodes, order) ==> ListsAll(g, Detected(adj, nodes, order)) {
      forall p, q, u, v | Elementary(g, p) && Elementary(g, q) && Uses(p, u, v) && Uses(q, u, v)
        ensures SameCycle(p, q)
      {
        UsedEdge(adj, nodes, p, u, v);
        var order := OrderFrom(nodes, keys, v);
        SharedRootEdge(adj, nodes, order, p, q, u);
      }
    }
  }

  lemma {:induction false} UsedEdge(adj: Adjacency, nodes: set<Id>, p: seq<Id>, u: Id, v: Id)
    requires Cycle(Existing(adj, nodes), p) && Uses(p, u, v)
    ensures v in nodes
  {
    var i: nat :| StepAt(p, i, u, v);
    assert Edge(Existing(adj, nodes), p[i], p[i + 1]);
    ExistingEdge(adj, nodes, u, v);
  }

  // ---- the same cycle is a rotation ----------------------------------------------------------

  /** p read from its k-th node on. */
  function Rotated(p: seq<Id>, k: nat): (r: seq<Id>)
    requires k + 1 < |p|
    ensures |r| == |p|
  {
    p[k..] + p[1..k + 1]
  }

  lemma {:induction false} RotatedStep(p: seq<Id>, k: nat, i: nat) returns (j: nat)
    requires |p| >= 2 && p[0] == p[|p| - 1] && k + 1 < |p| && i + 1 < |p|
    ensures j == if k + i < |p| - 1 then k + i else k + i - (|p| - 1)
    ensures Rotated(p, k)[i] == p[j] && Rotated(p, k)[i + 1] == p[j + 1]
  {
    j := if k + i < |p| - 1 then k + i else k + i - (|p| - 1);
  }

  lemma {:induction false} NextUnique(g: Adjacency, p: seq<Id>, i: nat, j: nat)
    requires Elementary(g, p) && i + 1 < |p| && j + 1 < |p| && p[i] == p[j]
    ensures i == j
  {
    var a, b := if i == 0 then |p| - 2 else i - 1, if j == 0 then |p| - 2 else j - 1;
    assert p[1..][a] == p[i] && p[1..][b] == p[j];
  }

  lemma {:induction false} FollowsRotation(g: Adjacency, p: seq<Id>, q: seq<Id>, k: nat, i: nat)
    requires Elementary(g, p) && k + 1 < |p| && (forall u, v :: Uses(q, u, v) ==> Uses(p, u, v))
    requires i < |p| && i < |q| && q[0] == p[k]
    ensures q[i] == Rotated(p, k)[i]
  {
    if i > 0 {
      FollowsRotation(g, p, q, k, i - 1);
      assert StepAt(q, i - 1, q[i - 1], q[i]);
      assert Uses(p, q[i - 1], q[i]);
      var j: nat :| StepAt(p, j, q[i - 1], q[i]);
      var f := RotatedStep(p, k, i - 1);
      NextUnique(g, p, f, j);
    }
  }

  /** Elementary cycles with the same edges are rotations of each other. */
  lemma {:induction false} SameCycleRotates(g: Adjacency, p: seq<Id>, q: seq<Id>) returns (k: nat)
    requires Elementary(g, p) && Elementary(g, q) && SameCycle(p, q)
    ensures k + 1 < |p| && q == Rotated(p, k)
  {
    assert StepAt(q, 0, q[0], q[1]);
    assert Uses(p, q[0], q[1]);
    k :| StepAt(p, k, q[0], q[1]);
    var n, m := |p| - 1, |q| - 1;
    if m < n {
      FollowsRotation(g, p, q, k, m);
      var f := RotatedStep(p, k, m);
      NextUnique(g, p, f, k);
    } else if m > n {
      FollowsRotation(g, p, q, k, n);
      assert false;
    }
    forall i | 0 <= i < |q| ensures q[i] == Rotated(p, k)[i] {
      FollowsRotation(g, p, q, k, i);
    }
  }
}
