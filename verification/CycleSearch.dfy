/** The search of `detect_cycles` as a function: which lists it reports, and how often. */
module CycleSearch {
  import opened Collections
  import opened Digraph

  datatype Search = Search(visited: set<Id>, cycles: seq<seq<Id>>)

  /** The stretch of the path from child on, closed by child. */
  function Closing(path: seq<Id>, child: Id): (cycle: seq<Id>)
    requires child in path
    ensures |cycle| >= 2 && cycle[|cycle| - 2] == path[|path| - 1] && cycle[|cycle| - 1] == child
  {
    if path[0] == child then path + [child] else Closing(path[1..], child)
  }

  lemma {:induction false} ClosingFrom(path: seq<Id>, m: nat)
    requires Distinct(path) && m < |path|
    ensures Closing(path, path[m]) == path[m..] + [path[m]]
  {
    if m > 0 {
      ClosingFrom(path[1..], m - 1);
      assert path[1..][m - 1..] == path[m..];
    } else {
      assert path[0..] == path;
    }
  }

  lemma {:induction false} ClosedIsCycle(g: Adjacency, path: seq<Id>, m: nat)
    requires Walk(g, path) && m < |path| && Edge(g, path[|path| - 1], path[m])
    ensures Cycle(g, path[m..] + [path[m]])
  {
    WalkSlice(g, path, m, |path|);
    WalkSnoc(g, path[m..], path[m]);
  }

  /** A search from a node that is not visited yet; path is the recursion stack. */
  function Visit(adj: Adjacency, nodes: set<Id>, path: seq<Id>, node: Id, s: Search): (r: Search)
    requires node in nodes && node !in s.visited
    ensures s.visited + {node} <= r.visited
    decreases nodes - s.visited, 0
  {
    VisitEach(adj, nodes, path + [node], Succ(adj, node), Search(s.visited + {node}, s.cycles))
  }

  /** The loop over the neighbours of the node at the end of the path. */
  function VisitEach(adj: Adjacency, nodes: set<Id>, path: seq<Id>, neighbours: seq<Id>, s: Search): (r: Search)
    ensures s.visited <= r.visited
    decreases nodes - s.visited, |neighbours| + 1
  {
    if neighbours == [] then s
    else VisitEach(adj, nodes, path, neighbours[1..], Meet(adj, nodes, path, neighbours[0], s))
  }

  /** One neighbour: absent ones are passed over, new ones searched, those on the path closed. */
  function Meet(adj: Adjacency, nodes: set<Id>, path: seq<Id>, child: Id, s: Search): (r: Search)
    ensures s.visited <= r.visited
    decreases nodes - s.visited, 1
  {
    if child !in nodes then s
    else if child !in s.visited then Visit(adj, nodes, path, child, s)
    else if child in path then s.(cycles := s.cycles + [Closing(path, child)])
    else s
  }

  /** The whole search, from each node in turn. */
  function VisitAll(adj: Adjacency, nodes: set<Id>, keys: seq<Id>, s: Search): Search {
    if keys == [] then s else VisitAll(adj, nodes, keys[1..], MeetRoot(adj, nodes, keys[0], s))
  }

  function MeetRoot(adj: Adjacency, nodes: set<Id>, key: Id, s: Search): Search {
    if key in nodes && key !in s.visited then Visit(adj, nodes, [], key, s) else s
  }

  lemma {:induction false} VisitEachNext(adj: Adjacency, nodes: set<Id>, path: seq<Id>, neighbours: seq<Id>,
                                         i: nat, s: Search)
    requires i < |neighbours|
    ensures VisitEach(adj, nodes, path, neighbours[i..], s)
         == VisitEach(adj, nodes, path, neighbours[i + 1..], Meet(adj, nodes, path, neighbours[i], s))
  {
    assert neighbours[i..][1..] == neighbours[i + 1..];
  }

  lemma {:induction false} VisitAllNext(adj: Adjacency, nodes: set<Id>, keys: seq<Id>, i: nat, s: Search)
    requires i < |keys|
    ensures VisitAll(adj, nodes, keys[i..], s) == VisitAll(adj, nodes, keys[i + 1..], MeetRoot(adj, nodes, keys[i], s))
  {
    assert keys[i..][1..] == keys[i + 1..];
  }

  // ---- how often an edge closes a list -------------------------------------------------------

  predicate ClosedBy(cycle: seq<Id>, u: Id, c: Id) {
    |cycle| >= 2 && cycle[|cycle| - 2] == u && cycle[|cycle| - 1] == c
  }

  /** How many lists end with the edge from u to c. */
  function Closes(cycles: seq<seq<Id>>, u: Id, c: Id): nat {
    if cycles == [] then 0
    else Closes(cycles[..|cycles| - 1], u, c) + if ClosedBy(cycles[|cycles| - 1], u, c) then 1 else 0
  }

  lemma {:induction false} ClosesSnoc(cycles: seq<seq<Id>>, cycle: seq<Id>, u: Id, c: Id)
    ensures Closes(cycles + [cycle], u, c) == Closes(cycles, u, c) + if ClosedBy(cycle, u, c) then 1 else 0
  {
    assert (cycles + [cycle])[..|cycles|] == cycles;
  }

  /** The edge from u to c closes no further list, or one for each time it is listed. */
  predicate OncePerEdge(adj: Adjacency, nodes: set<Id>, s: Search, r: Search, u: Id, c: Id) {
    || Closes(r.cycles, u, c) == Closes(s.cycles, u, c)
    || Closes(r.cycles, u, c) == Closes(s.cycles, u, c) + EdgeCount(Existing(adj, nodes), u, c)
  }

  /** A step of the search adds lists only for nodes that it visits. */
  predicate Accounted(adj: Adjacency, nodes: set<Id>, s: Search, r: Search, u: Id, c: Id) {
    if u in r.visited && u !in s.visited then OncePerEdge(adj, nodes, s, r, u, c)
    else Closes(r.cycles, u, c) == Closes(s.cycles, u, c)
  }

  /** The lists that a node's neighbours close, when the path up to it is given. */
  function Back(nodes: set<Id>, path: seq<Id>, neighbours: seq<Id>, c: Id): nat {
    if c in path && c in nodes then Count(neighbours, c) else 0
  }

  lemma {:induction false} AccountedTwice(adj: Adjacency, nodes: set<Id>, s: Search, t: Search, r: Search, u: Id, c: Id)
    requires s.visited <= t.visited <= r.visited
    requires Accounted(adj, nodes, s, t, u, c) && Accounted(adj, nodes, t, r, u, c)
    ensures Accounted(adj, nodes, s, r, u, c)
  {
  }

  lemma {:induction false} VisitCounts(adj: Adjacency, nodes: set<Id>, path: seq<Id>, node: Id, s: Search, u: Id, c: Id)
    requires node in nodes && node !in s.visited && forall x :: x in path ==> x in s.visited
    ensures var r := Visit(adj, nodes, path, node, s);
      && Accounted(adj, nodes, s, r, u, c)
      && (u == node ==> Closes(r.cycles, u, c) == Closes(s.cycles, u, c)
                        + if c in path + [node] then EdgeCount(Existing(adj, nodes), u, c) else 0)
    decreases nodes - s.visited, 0
  {
    var t := Search(s.visited + {node}, s.cycles);
    VisitEachCounts(adj, nodes, path + [node], Succ(adj, node), t, u, c);
    KeepCount(Succ(adj, node), nodes, c);
  }

  lemma {:induction false} VisitEachCounts(adj: Adjacency, nodes: set<Id>, path: seq<Id>, neighbours: seq<Id>,
                                           s: Search, u: Id, c: Id)
    requires path != [] && forall x :: x in path ==> x in s.visited
    ensures var r := VisitEach(adj, nodes, path, neighbours, s);
      if u == path[|path| - 1] then Closes(r.cycles, u, c) == Closes(s.cycles, u, c) + Back(nodes, path, neighbours, c)
      else Accounted(adj, nodes, s, r, u, c)
    decreases nodes - s.visited, |neighbours| + 1
  {
    if neighbours != [] {
      var t := Meet(adj, nodes, path, neighbours[0], s);
      MeetCounts(adj, nodes, path, neighbours[0], s, u, c);
      VisitEachCounts(adj, nodes, path, neighbours[1..], t, u, c);
      if u != path[|path| - 1] {
        AccountedTwice(adj, nodes, s, t, VisitEach(adj, nodes, path, neighbours, s), u, c);
      }
    }
  }

  lemma {:induction false} MeetCounts(adj: Adjacency, nodes: set<Id>, path: seq<Id>, child: Id, s: Search, u: Id, c: Id)
    requires path != [] && forall x :: x in path ==> x in s.visited
    ensures var r := Meet(adj, nodes, path, child, s);
      if u == path[|path| - 1] then
        Closes(r.cycles, u, c) == Closes(s.cycles, u, c) + if c == child && c in path && c in nodes then 1 else 0
      else Accounted(adj, nodes, s, r, u, c)
    decreases nodes - s.visited, 1
  {
    if child in nodes {
      if child !in s.visited {
        VisitCounts(adj, nodes, path, child, s, u, c);
      } else if child in path {
        ClosesSnoc(s.cycles, Closing(path, child), u, c);
      }
    }
  }

  /** In the whole search each edge closes no list, or one list for each time it is listed. */
  lemma {:induction false} VisitAllCounts(adj: Adjacency, nodes: set<Id>, keys: seq<Id>, s: Search, u: Id, c: Id)
    ensures s.visited <= VisitAll(adj, nodes, keys, s).visited
    ensures Accounted(adj, nodes, s, VisitAll(adj, nodes, keys, s), u, c)
    decreases keys
  {
    if keys != [] {
      if keys[0] in nodes && keys[0] !in s.visited {
        var t := Visit(adj, nodes, [], keys[0], s);
        VisitCounts(adj, nodes, [], keys[0], s, u, c);
        VisitAllCounts(adj, nodes, keys[1..], t, u, c);
        AccountedTwice(adj, nodes, s, t, VisitAll(adj, nodes, keys, s), u, c);
      } else {
        VisitAllCounts(adj, nodes, keys[1..], s, u, c);
      }
    }
  }

  /** What `detect_cycles` returns. */
  function Detected(adj: Adjacency, nodes: set<Id>, keys: seq<Id>): seq<seq<Id>> {
    VisitAll(adj, nodes, keys, Search({}, [])).cycles
  }

  /** One list per back edge: the lists that end with the edge from u to c are none, or as many as
      the graph has edges from u to c. */
  lemma {:induction false} OneListPerBackEdge(adj: Adjacency, nodes: set<Id>, keys: seq<Id>, u: Id, c: Id)
    ensures Closes(Detected(adj, nodes, keys), u, c) == 0
         || Closes(Detected(adj, nodes, keys), u, c) == EdgeCount(Existing(adj, nodes), u, c)
  {
    VisitAllCounts(adj, nodes, keys, Search({}, []), u, c);
  }

  // ---- a cycle that is not listed ------------------------------------------------------------

  lemma {:induction false} SearchFromSecond(a: Id, b: Id, c: Id)
    requires a != b && a != c && b != c
    ensures Meet(map[a := [b, c], b := [c], c := [a]], {a, b, c}, [a], b, Search({a}, []))
      == Search({a, b, c}, [[a, b, c, a]])
  {
    var adj, nodes := map[a := [b, c], b := [c], c := [a]], {a, b, c};
    var found := Search({a, b, c}, [[a, b, c, a]]);
    assert Closing([a, b, c], a) == [a, b, c, a] && [] + [[a, b, c, a]] == [[a, b, c, a]];
    assert Meet(adj, nodes, [a, b, c], a, Search(nodes, [])) == found;
    assert VisitEach(adj, nodes, [a, b, c], [a], Search(nodes, [])) == found;
    assert [a, b] + [c] == [a, b, c] && {a, b} + {c} == nodes;
    assert Visit(adj, nodes, [a, b], c, Search({a, b}, [])) == found;
    assert VisitEach(adj, nodes, [a, b], [c], Search({a, b}, [])) == found;
    assert [a] + [b] == [a, b] && {a} + {b} == {a, b};
    assert Visit(adj, nodes, [a], b, Search({a}, [])) == found;
  }

  /** With edges a to b, a to c, b to c and c to a only the longer of the two cycles is listed. */
  lemma {:induction false} ShorterCycleMissed(a: Id, b: Id, c: Id)
    requires a != b && a != c && b != c
    ensures var adj := map[a := [b, c], b := [c], c := [a]];
      && Detected(adj, {a, b, c}, [a, b, c]) == [[a, b, c, a]]
      && Cycle(Existing(adj, {a, b, c}), [a, c, a])
  {
    var adj, nodes := map[a := [b, c], b := [c], c := [a]], {a, b, c};
    var s, found := Search({}, []), Search({a, b, c}, [[a, b, c, a]]);
    SearchFromSecond(a, b, c);
    assert [b, c][1..] == [c] && [c][1..] == [];
    assert VisitEach(adj, nodes, [a], [c], found) == found;
    assert VisitEach(adj, nodes, [a], [b, c], Search({a}, [])) == found;
    assert [] + [a] == [a] && {} + {a} == {a};
    assert Visit(adj, nodes, [], a, s) == found;
    assert VisitAll(adj, nodes, [c], found) == found;
    assert VisitAll(adj, nodes, [b, c], found) == found;
    assert [a, b, c][1..] == [b, c];
    assert VisitAll(adj, nodes, [a, b, c], s) == found;
  }
}
