/** `company/models.py`: the organization graph, an edge list with two derived indexes. */
module OrgGraphs {
  import opened Collections
  import opened Digraph
  import opened CycleSearch

  datatype OrgNode = OrgNode(
    id: Id, name: string, title: string, nodeType: string, level: int,
    department: string, parentId: Option<Id>, metadata: map<string, string>)

  datatype OrgEdge = OrgEdge(sourceId: Id, targetId: Id, edgeType: string, metadata: map<string, string>)

  /** What to_dict produces. */
  datatype GraphData = GraphData(nodes: seq<OrgNode>, edges: seq<OrgEdge>)

  /** `_adjacency` as a function of the edge list: source to targets, in edge order. */
  function Outgoing(edges: seq<OrgEdge>): Adjacency {
    if edges == [] then map[]
    else
      var e := edges[|edges| - 1];
      Append(Outgoing(edges[..|edges| - 1]), e.sourceId, e.targetId)
  }

  /** `_reverse_adj`: target to sources. */
  function Incoming(edges: seq<OrgEdge>): Adjacency {
    if edges == [] then map[]
    else
      var e := edges[|edges| - 1];
      Append(Incoming(edges[..|edges| - 1]), e.targetId, e.sourceId)
  }

  lemma {:induction false} IndexesSnoc(edges: seq<OrgEdge>, e: OrgEdge)
    ensures Outgoing(edges + [e]) == Append(Outgoing(edges), e.sourceId, e.targetId)
    ensures Incoming(edges + [e]) == Append(Incoming(edges), e.targetId, e.sourceId)
  {
    assert (edges + [e])[..|edges|] == edges;
  }

  /** How many edges of the list lead from u to v. */
  function Joining(edges: seq<OrgEdge>, u: Id, v: Id): nat {
    if edges == [] then 0
    else
      var e := edges[|edges| - 1];
      Joining(edges[..|edges| - 1], u, v) + if e.sourceId == u && e.targetId == v then 1 else 0
  }

  lemma {:induction false} JoiningPositive(edges: seq<OrgEdge>, u: Id, v: Id)
    ensures Joining(edges, u, v) > 0 <==> exists e :: e in edges && e.sourceId == u && e.targetId == v
  {
    if edges != [] {
      var front, last := edges[..|edges| - 1], edges[|edges| - 1];
      JoiningPositive(front, u, v);
      if exists e :: e in front && e.sourceId == u && e.targetId == v {
        var e :| e in front && e.sourceId == u && e.targetId == v;
        assert e in edges;
      }
      if last.sourceId == u && last.targetId == v {
        assert last in edges;
      }
      Snoc(edges);
      assert forall e :: e in edges ==> e in front || e == last;
    }
  }

  /** Both indexes list an edge as often as the edge list does, and so list the same edges. */
  lemma {:induction false} IndexesMatchEdges(edges: seq<OrgEdge>, u: Id, v: Id)
    ensures EdgeCount(Outgoing(edges), u, v) == Joining(edges, u, v) == EdgeCount(Incoming(edges), v, u)
    ensures Edge(Outgoing(edges), u, v) <==> exists e :: e in edges && e.sourceId == u && e.targetId == v
    ensures Edge(Incoming(edges), v, u) <==> exists e :: e in edges && e.sourceId == u && e.targetId == v
  {
    if edges != [] {
      var front, last := edges[..|edges| - 1], edges[|edges| - 1];
      IndexesMatchEdges(front, u, v);
      AppendCount(Outgoing(front), last.sourceId, last.targetId, u, v);
      AppendCount(Incoming(front), last.targetId, last.sourceId, v, u);
    }
    JoiningPositive(edges, u, v);
    CountPositive(Succ(Outgoing(edges), u), v);
    CountPositive(Succ(Incoming(edges), v), u);
  }

  /** Insert nodes one by one, as from_dict does. */
  function PutAll(d: Dict<Id, OrgNode>, ns: seq<OrgNode>): Dict<Id, OrgNode> {
    if ns == [] then d else PutAll(d, ns[..|ns| - 1]).Put(ns[|ns| - 1].id, ns[|ns| - 1])
  }

  lemma {:induction false} PutAllNext(ns: seq<OrgNode>, n: nat)
    requires n < |ns|
    ensures PutAll(EmptyDict(), ns[..n + 1]) == PutAll(EmptyDict(), ns[..n]).Put(ns[n].id, ns[n])
  {
    assert ns[..n + 1][..n] == ns[..n];
  }

  /** r holds the first n entries of d. */
  ghost predicate HoldsFirst(d: Dict<Id, OrgNode>, n: nat, r: Dict<Id, OrgNode>)
    requires n <= |d.keys|
  {
    r.Valid() && r.keys == d.keys[..n] && forall k :: k in r.items ==> k in d.items && r.items[k] == d.items[k]
  }

  lemma {:induction false} HoldsNext(d: Dict<Id, OrgNode>, n: nat, r: Dict<Id, OrgNode>)
    requires d.Valid() && n < |d.keys| && HoldsFirst(d, n, r) && d.keys[n] in d.items
    ensures HoldsFirst(d, n + 1, r.Put(d.keys[n], d.items[d.keys[n]]))
  {
    TakeNext(d.keys, n);
    assert d.keys[n] !in d.keys[..n];
    PutValid(r, d.keys[n], d.items[d.keys[n]]);
  }

  lemma {:induction false} PutAllValues(d: Dict<Id, OrgNode>, n: nat)
    requires d.Valid() && (forall k :: k in d.items ==> d.items[k].id == k) && n <= |d.keys|
    ensures HoldsFirst(d, n, PutAll(EmptyDict(), Values(d)[..n]))
  {
    if n > 0 {
      PutAllValues(d, n - 1);
      PutAllNext(Values(d), n - 1);
      assert d.keys[n - 1] in d.keys;
      HoldsNext(d, n - 1, PutAll(EmptyDict(), Values(d)[..n - 1]));
    }
  }

  /** Listing the nodes and inserting them again gives the same dict. */
  lemma {:induction false} ReinsertAll(d: Dict<Id, OrgNode>)
    requires d.Valid() && (forall k :: k in d.items ==> d.items[k].id == k)
    ensures PutAll(EmptyDict(), Values(d)) == d
  {
    PutAllValues(d, |d.keys|);
    TakeAll(Values(d));
    TakeAll(d.keys);
    var r := PutAll(EmptyDict(), Values(d));
    assert r.items.Keys == d.items.Keys;
    assert r.items == d.items;
  }

  /** Nodes reachable from nodeId along edges between existing nodes; none if it does not exist. */
  ghost function ReachableNodes(adj: Adjacency, nodes: set<Id>, nodeId: Id): set<Id> {
    set v | v in nodes && nodeId in nodes && Reaches(Existing(adj, nodes), nodeId, v)
  }

  /** How often e occurs among the edges that leave a node of the set. */
  ghost function LeavingCount(edges: seq<OrgEdge>, nodes: set<Id>, e: OrgEdge): nat {
    if e.sourceId in nodes then Count(edges, e) else 0
  }

  /** The edges that leave nid, in order. */
  function Leaving(edges: seq<OrgEdge>, nid: Id): seq<OrgEdge> {
    if edges == [] then []
    else
      var rest, e := Leaving(edges[..|edges| - 1], nid), edges[|edges| - 1];
      if e.sourceId == nid then rest + [e] else rest
  }

  /** The targets of those edges that are not visited yet. */
  function NewTargets(edges: seq<OrgEdge>, nid: Id, visited: set<Id>): seq<Id> {
    if edges == [] then []
    else
      var rest, e := NewTargets(edges[..|edges| - 1], nid, visited), edges[|edges| - 1];
      if e.sourceId == nid && e.targetId !in visited then rest + [e.targetId] else rest
  }

  lemma {:induction false} NewTargetsMeaning(edges: seq<OrgEdge>, nid: Id, visited: set<Id>, y: Id)
    ensures y in NewTargets(edges, nid, visited) <==> y !in visited && Edge(Outgoing(edges), nid, y)
  {
    if edges != [] { NewTargetsMeaning(edges[..|edges| - 1], nid, visited, y); }
  }

  lemma {:induction false} LeavingMeaning(edges: seq<OrgEdge>, nid: Id, e: OrgEdge)
    ensures Count(Leaving(edges, nid), e) == if e.sourceId == nid then Count(edges, e) else 0
  {
    if edges != [] {
      var n := |edges| - 1;
      LeavingMeaning(edges[..n], nid, e);
      Snoc(edges);
      CountAppend(edges[..n], [edges[n]], e);
      CountAppend(Leaving(edges[..n], nid), [edges[n]], e);
      assert [edges[n]][1..] == [];
    }
  }

  lemma {:induction false} LeavingCountNext(edges: seq<OrgEdge>, copied: seq<OrgEdge>, visited: set<Id>, nid: Id)
    requires nid !in visited && CopiedEdges(edges, copied, visited)
    ensures CopiedEdges(edges, copied + Leaving(edges, nid), visited + {nid})
  {
    forall e
      ensures Count(copied + Leaving(edges, nid), e) == LeavingCount(edges, visited + {nid}, e)
    {
      assert Count(copied, e) == LeavingCount(edges, visited, e);
      CountAppend(copied, Leaving(edges, nid), e);
      LeavingMeaning(edges, nid, e);
    }
  }

  /** copied holds exactly the edges that leave the visited nodes, with multiplicity. */
  ghost predicate CopiedEdges(edges: seq<OrgEdge>, copied: seq<OrgEdge>, visited: set<Id>) {
    forall e :: Count(copied, e) == LeavingCount(edges, visited, e)
  }

  class OrgGraph {
    var nodes: Dict<Id, OrgNode>
    var edges: seq<OrgEdge>
    var adjacency: Adjacency
    var reverseAdj: Adjacency

    ghost predicate Valid()
      reads this
    {
      && nodes.Valid()
      && (forall k :: k in nodes.items ==> nodes.items[k].id == k)
      && adjacency == Outgoing(edges)
      && reverseAdj == Incoming(edges)
    }

    constructor ()
      ensures Valid() && nodes == EmptyDict() && edges == []
    {
      nodes, edges, adjacency, reverseAdj := EmptyDict(), [], map[], map[];
    }

    method AddNode(node: OrgNode)
      requires Valid()
      modifies this`nodes
      ensures Valid() && nodes == old(nodes).Put(node.id, node)
    {
      PutValid(nodes, node.id, node);
      nodes := nodes.Put(node.id, node);
    }

    method AddEdge(edge: OrgEdge)
      requires Valid()
      modifies this`edges, this`adjacency, this`reverseAdj
      ensures Valid() && edges == old(edges) + [edge]
    {
      IndexesSnoc(edges, edge);
      edges := edges + [edge];
      adjacency := Append(adjacency, edge.sourceId, edge.targetId);
      reverseAdj := Append(reverseAdj, edge.targetId, edge.sourceId);
    }

    /** Ids of the nodes that report to nodeId, one per edge. */
    function ChildIds(nodeId: Id): seq<Id>
      reads this
    {
      Keep(Succ(reverseAdj, nodeId), nodes.items.Keys)
    }

    function ParentIds(nodeId: Id): seq<Id>
      reads this
    {
      Keep(Succ(adjacency, nodeId), nodes.items.Keys)
    }

    /** The child relation over existing nodes as a graph. */
    function ChildGraph(): Adjacency
      reads this
    {
      Existing(reverseAdj, nodes.items.Keys)
    }

    /** The edges of the graph between existing nodes, subordinate to manager. */
    function ManagerGraph(): Adjacency
      reads this
    {
      Existing(adjacency, nodes.items.Keys)
    }

    lemma {:induction false} ChildGraphEdges(u: Id, v: Id)
      ensures Edge(ChildGraph(), u, v) <==> v in ChildIds(u)
    {
    }

    method ToDict() returns (data: GraphData)
      requires Valid()
      ensures data == GraphData(Values(nodes), edges)
    {
      data := GraphData(Values(nodes), edges);
    }

    static method FromDict(data: GraphData) returns (graph: OrgGraph)
      ensures fresh(graph) && graph.Valid()
      ensures graph.nodes == PutAll(EmptyDict(), data.nodes) && graph.edges == data.edges
    {
      graph := new OrgGraph();
      for i := 0 to |data.nodes|
        invariant graph.Valid() && graph.edges == []
        invariant graph.nodes == PutAll(EmptyDict(), data.nodes[..i])
      {
        assert data.nodes[..i + 1][..i] == data.nodes[..i];
        graph.AddNode(data.nodes[i]);
      }
      TakeAll(data.nodes);
      for i := 0 to |data.edges|
        invariant graph.Valid() && graph.edges == data.edges[..i]
        invariant graph.nodes == PutAll(EmptyDict(), data.nodes)
      {
        assert data.edges[..i + 1] == data.edges[..i] + [data.edges[i]];
        graph.AddEdge(data.edges[i]);
      }
    }

    /** Serializing and loading again gives the same nodes in the same order, the same edges and
        the same indexes. */
    method RoundTrip() returns (copy: OrgGraph)
      requires Valid()
      ensures fresh(copy) && copy.Valid() && copy.nodes == nodes && copy.edges == edges
      ensures copy.adjacency == adjacency && copy.reverseAdj == reverseAdj
    {
      var data := ToDict();
      copy := FromDict(data);
      ReinsertAll(nodes);
    }

    /** Copy the edges leaving nid into sub and stack their unvisited targets. */
    method CopyLeaving(sub: OrgGraph, nid: Id, visited: set<Id>, stack: seq<Id>) returns (stack': seq<Id>)
      requires sub != this && sub.Valid()
      modifies sub`edges, sub`adjacency, sub`reverseAdj
      ensures sub.Valid() && sub.edges == old(sub.edges) + Leaving(edges, nid)
      ensures stack' == stack + NewTargets(edges, nid, visited)
    {
      stack' := stack;
      for i := 0 to |edges|
        invariant sub.Valid() && sub.edges == old(sub.edges) + Leaving(edges[..i], nid)
        invariant stack' == stack + NewTargets(edges[..i], nid, visited)
      {
        assert edges[..i + 1][..i] == edges[..i];
        if edges[i].sourceId == nid {
          ConcatAssociative(old(sub.edges), Leaving(edges[..i], nid), [edges[i]]);
          sub.AddEdge(edges[i]);
          if edges[i].targetId !in visited {
            ConcatAssociative(stack, NewTargets(edges[..i], nid, visited), [edges[i].targetId]);
            stack' := stack' + [edges[i].targetId];
          }
        }
      }
      TakeAll(edges);
    }

    /** sub holds the visited nodes and the edges leaving them. */
    ghost predicate PartialSubgraph(sub: OrgGraph, start: Id, visited: set<Id>, stack: seq<Id>)
      reads this, sub
    {
      && sub.Valid()
      && visited == sub.nodes.items.Keys <= nodes.items.Keys
      && (forall v :: v in visited ==> sub.nodes.items[v] == nodes.items[v])
      && CopiedEdges(edges, sub.edges, visited)
      && SearchState(Outgoing(edges), nodes.items.Keys, start, visited, stack)
    }

    method Absorb(sub: OrgGraph, ghost start: Id, nid: Id, visited: set<Id>, stack: seq<Id>) returns (stack': seq<Id>)
      requires Valid() && sub != this && PartialSubgraph(sub, start, visited, stack + [nid])
      requires nid in nodes.items && nid !in visited
      modifies sub
      ensures PartialSubgraph(sub, start, visited + {nid}, stack')
    {
      LeavingCountNext(edges, sub.edges, visited, nid);
      VisitKeepsSearch(edges, nodes.items.Keys, start, visited, stack, nid);
      sub.AddNode(nodes.items[nid]);
      stack' := CopyLeaving(sub, nid, visited + {nid}, stack);
    }

    /** The nodes reachable from nodeId by edges between existing nodes, with every edge that
        leaves one of them, as often as it occurs. */
    method Subgraph(nodeId: Id) returns (sub: OrgGraph)
      requires Valid()
      ensures fresh(sub) && sub.Valid()
      ensures sub.nodes.items.Keys == ReachableNodes(adjacency, nodes.items.Keys, nodeId)
      ensures forall v :: v in sub.nodes.items ==> v in nodes.items && sub.nodes.items[v] == nodes.items[v]
      ensures CopiedEdges(edges, sub.edges, sub.nodes.items.Keys)
    {
      sub := new OrgGraph();
      var stack := [nodeId];
      var visited: set<Id> := {};
      ReachesSelf(Existing(Outgoing(edges), nodes.items.Keys), nodeId);
      while stack != []
        invariant fresh(sub) && PartialSubgraph(sub, nodeId, visited, stack)
        decreases nodes.items.Keys - visited, |stack|
      {
        Snoc(stack);
        var nid := stack[|stack| - 1];
        stack := stack[..|stack| - 1];
        if nid in visited || nid !in nodes.items {
          SkipKeepsSearch(Outgoing(edges), nodes.items.Keys, nodeId, visited, stack, nid);
        } else {
          stack := Absorb(sub, nodeId, nid, visited, stack);
          visited := visited + {nid};
        }
      }
      SearchFinished(Outgoing(edges), nodes.items.Keys, nodeId, visited);
    }

    /** The closure `_dfs` of detect_cycles. path is the recursion stack in order; done the nodes
        taken off it again. */
    method SearchCycles(node: Id, visited: set<Id>, recStack: set<Id>, cycles: seq<seq<Id>>,
                        parent: map<Id, Option<Id>>, ghost path: seq<Id>, ghost done: seq<Id>)
      returns (visited': set<Id>, recStack': set<Id>, cycles': seq<seq<Id>>,
               parent': map<Id, Option<Id>>, ghost done': seq<Id>)
      requires node in nodes.items && node !in visited
      requires Searching(ManagerGraph(), nodes.items.Keys, visited, recStack, path, done, cycles)
      requires Walk(ManagerGraph(), path + [node]) && ParentsAlong(parent, path + [node])
      ensures done <= done' && node in done'
      ensures Searching(ManagerGraph(), nodes.items.Keys, visited', recStack', path, done', cycles')
      ensures cycles <= cycles'
      ensures visited + {node} <= visited' && SameParents(visited + {node}, parent, parent')
      ensures Search(visited', cycles') == Visit(adjacency, nodes.items.Keys, path, node, Search(visited, cycles))
      decreases nodes.items.Keys - visited, 0
    {
      visited', recStack', cycles', parent', done' := visited + {node}, recStack + {node}, cycles, parent, done;
      ghost var here := path + [node];
      PushNode(visited, recStack, path, node, done);
      var neighbours := Succ(adjacency, node);
      for i := 0 to |neighbours|
        invariant done <= done'
        invariant Searching(ManagerGraph(), nodes.items.Keys, visited', recStack', here, done', cycles')
        invariant cycles <= cycles'
        invariant FirstDone(neighbours, i, nodes.items.Keys, cycles', done')
        invariant visited + {node} <= visited' && SameParents(visited + {node}, parent, parent')
        invariant VisitEach(adjacency, nodes.items.Keys, here, neighbours[i..], Search(visited', cycles'))
               == Visit(adjacency, nodes.items.Keys, path, node, Search(visited, cycles))
      {
        var childId := neighbours[i];
        ghost var before := Search(visited', cycles');
        ghost var doneBefore, parentBefore := done', parent';
        VisitEachNext(adjacency, nodes.items.Keys, here, neighbours, i, before);
        if childId in nodes.items {
          ExistingEdge(adjacency, nodes.items.Keys, node, childId);
          SameParentsAlong(visited + {node}, parent, parent', here);
          visited', recStack', cycles', parent', done' :=
            MeetChild(node, childId, visited', recStack', cycles', parent', here, done');
          SameParentsTrans(visited + {node}, parent, parentBefore, before.visited, parent');
        }
        FirstDoneNext(neighbours, i, nodes.items.Keys, before.cycles, doneBefore, cycles', done');
      }
      PopNode(visited', recStack', path, node, done');
      NodeFinished(adjacency, nodes.items.Keys, node, cycles', done');
      recStack' := recStack' - {node};
      done' := done' + [node];
    }

    /** One neighbour that exists: search it, or list the cycle it closes, or pass over it. */
    method MeetChild(node: Id, childId: Id, visited: set<Id>, recStack: set<Id>, cycles: seq<seq<Id>>,
                     parent: map<Id, Option<Id>>, ghost path: seq<Id>, ghost done: seq<Id>)
      returns (visited': set<Id>, recStack': set<Id>, cycles': seq<seq<Id>>,
               parent': map<Id, Option<Id>>, ghost done': seq<Id>)
      requires childId in nodes.items && path != [] && path[|path| - 1] == node
      requires Searching(ManagerGraph(), nodes.items.Keys, visited, recStack, path, done, cycles)
      requires Walk(ManagerGraph(), path) && Edge(ManagerGraph(), node, childId) && ParentsAlong(parent, path)
      ensures Searching(ManagerGraph(), nodes.items.Keys, visited', recStack', path, done', cycles')
      ensures done <= done' && cycles <= cycles' && (cycles' == [] ==> childId in done')
      ensures visited <= visited' && SameParents(visited, parent, parent')
      ensures Search(visited', cycles') == Meet(adjacency, nodes.items.Keys, path, childId, Search(visited, cycles))
      decreases nodes.items.Keys - visited, 1
    {
      visited', recStack', cycles', parent', done' := visited, recStack, cycles, parent, done;
      if childId !in visited {
        parent' := parent[childId := Some(node)];
        WalkSnoc(ManagerGraph(), path, childId);
        ghost var mid := parent';
        PushParent(visited, parent, path, childId);
        visited', recStack', cycles', parent', done' :=
          SearchCycles(childId, visited, recStack, cycles, parent', path, done);
        SameParentsTrans(visited, parent, mid, visited + {childId}, parent');
      } else if childId in recStack {
        cycles' := ListCycle(childId, node, parent, cycles, path);
      }
    }

    /** Append the cycle that the back edge from node to child closes. */
    method ListCycle(child: Id, node: Id, parent: map<Id, Option<Id>>, cycles: seq<seq<Id>>, ghost path: seq<Id>)
      returns (cycles': seq<seq<Id>>)
      requires path != [] && path[|path| - 1] == node && child in path && Distinct(path)
      requires ParentsAlong(parent, path)
      requires Walk(ManagerGraph(), path) && Edge(ManagerGraph(), node, child) && AllCycles(ManagerGraph(), cycles)
      ensures cycles' == cycles + [Closing(path, child)] && AllCycles(ManagerGraph(), cycles')
    {
      ghost var m :| 0 <= m < |path| && path[m] == child;
      var cycle := TraceBack(child, node, parent, path, m);
      ClosedWalk(ManagerGraph(), path, m, cycles);
      ClosingFrom(path, m);
      cycles' := cycles + [cycle];
    }

    /** Follow parent pointers from node up to child, which the path passes once, at m, and return
        the cycle they close. */
    method TraceBack(child: Id, node: Id, parent: map<Id, Option<Id>>, ghost path: seq<Id>, ghost m: nat)
      returns (cycle: seq<Id>)
      requires m < |path| && path[|path| - 1] == node && path[m] == child && PassesOnce(path, m)
      requires ParentsAlong(parent, path)
      ensures cycle == path[m..] + [child]
    {
      ghost var k := |path| - 1;
      var backwards := [child, node];
      var cur := node;
      assert path[k..] == [node];
      while cur != child && cur in parent && parent[cur] != None
        invariant m <= k < |path| && cur == path[k]
        invariant backwards == [child] + Reverse(path[k..])
        decreases k
      {
        ParentOf(parent, path, k);
        ReverseTail(path, k, child);
        cur := parent[cur].value;
        backwards := backwards + [cur];
        k := k - 1;
      }
      if k > m { ParentOf(parent, path, k); }
      ReversedCloses(path, m);
      cycle := Reverse(backwards);
    }

    /** What holds before the i-th node is looked at. */
    ghost predicate SearchedTo(i: nat, visited: set<Id>, recStack: set<Id>, done: seq<Id>, cycles: seq<seq<Id>>)
      requires i <= |nodes.keys|
      reads this
    {
      && Searching(ManagerGraph(), nodes.items.Keys, visited, recStack, [], done, cycles)
      && FirstIn(nodes.keys, i, done)
      && VisitAll(adjacency, nodes.items.Keys, nodes.keys[i..], Search(visited, cycles)).cycles
           == Detected(adjacency, nodes.items.Keys, nodes.keys)
    }

    /** Start a search from the i-th node, which has no parent, unless it was visited before. */
    method SearchRoot(i: nat, visited: set<Id>, recStack: set<Id>, cycles: seq<seq<Id>>,
                      parent: map<Id, Option<Id>>, ghost done: seq<Id>)
      returns (visited': set<Id>, recStack': set<Id>, cycles': seq<seq<Id>>,
               parent': map<Id, Option<Id>>, ghost done': seq<Id>)
      requires nodes.Valid() && i < |nodes.keys| && SearchedTo(i, visited, recStack, done, cycles)
      ensures SearchedTo(i + 1, visited', recStack', done', cycles')
    {
      visited', recStack', cycles', parent', done' := visited, recStack, cycles, parent, done;
      var nid := nodes.keys[i];
      assert nid in nodes.keys;
      VisitAllNext(adjacency, nodes.items.Keys, nodes.keys, i, Search(visited, cycles));
      if nid !in visited {
        assert [] + [nid] == [nid];
        visited', recStack', cycles', parent', done' :=
          SearchCycles(nid, visited, recStack, cycles, parent[nid := None], [], done);
      }
      FirstInNext(nodes.keys, i, done, done');
    }

    /** Cycles closed by back edges of a depth-first search over the existing nodes: none exactly
        when the graph is acyclic, and every one listed is a real cycle. */
    method DetectCycles() returns (cycles: seq<seq<Id>>)
      requires nodes.Valid()
      ensures cycles == [] <==> !Cyclic(ManagerGraph())
      ensures AllCycles(ManagerGraph(), cycles)
      ensures cycles == Detected(adjacency, nodes.items.Keys, nodes.keys)
    {
      var visited: set<Id>, recStack: set<Id> := {}, {};
      var parent: map<Id, Option<Id>> := map[];
      ghost var done: seq<Id> := [];
      cycles := [];
      assert nodes.keys[0..] == nodes.keys;
      for i := 0 to |nodes.keys|
        invariant SearchedTo(i, visited, recStack, done, cycles)
      {
        visited, recStack, cycles, parent, done := SearchRoot(i, visited, recStack, cycles, parent, done);
      }
      CyclesDecide(adjacency, nodes.items.Keys, nodes.keys, cycles, done);
    }
  }

  ghost predicate FirstIn(keys: seq<Id>, i: nat, done: seq<Id>)
    requires i <= |keys|
  {
    forall j :: 0 <= j < i ==> keys[j] in done
  }

  lemma {:induction false} FirstInNext(keys: seq<Id>, i: nat, done: seq<Id>, done': seq<Id>)
    requires i < |keys| && FirstIn(keys, i, done) && done <= done' && keys[i] in done'
    ensures FirstIn(keys, i + 1, done')
  {
  }

  /** Once all nodes are finished, the lists decide whether there is a cycle. */
  lemma {:induction false} CyclesDecide(adj: Adjacency, nodes: set<Id>, keys: seq<Id>, cycles: seq<seq<Id>>,
                                        done: seq<Id>)
    requires Distinct(done) && (forall v :: v in nodes ==> v in keys) && FirstIn(keys, |keys|, done)
    requires FinishedUnlessCycles(Existing(adj, nodes), cycles, done) && AllCycles(Existing(adj, nodes), cycles)
    ensures cycles == [] <==> !Cyclic(Existing(adj, nodes))
  {
    if cycles != [] {
      assert cycles[0] in cycles;
    } else if Cyclic(Existing(adj, nodes)) {
      var p :| Cycle(Existing(adj, nodes), p);
      LastEdge(Existing(adj, nodes), p);
      ExistingEdge(adj, nodes, p[|p| - 2], p[|p| - 1]);
      FinishedNotOnCycle(Existing(adj, nodes), done, p);
    }
  }

  lemma {:induction false} ParentOf(parent: map<Id, Option<Id>>, path: seq<Id>, k: nat)
    requires ParentsAlong(parent, path) && 0 < k < |path|
    ensures path[k] in parent && parent[path[k]] == Some(path[k - 1])
  {
  }

  lemma {:induction false} ReversedCloses(path: seq<Id>, m: nat)
    requires m < |path|
    ensures Reverse([path[m]] + Reverse(path[m..])) == path[m..] + [path[m]]
  {
    ReverseTwice(path[m..]);
    ReverseSnoc(Reverse(path[m..]), path[m]);
  }

  lemma {:induction false} ReverseTail(path: seq<Id>, k: nat, c: Id)
    requires 0 < k < |path|
    ensures [c] + Reverse(path[k - 1..]) == [c] + Reverse(path[k..]) + [path[k - 1]]
  {
    assert path[k - 1..] == [path[k - 1]] + path[k..];
    ReverseSnoc(path[k..], path[k - 1]);
    ConcatAssociative([c], Reverse(path[k..]), [path[k - 1]]);
  }

  ghost predicate OnStack(visited: set<Id>, recStack: set<Id>, path: seq<Id>, done: seq<Id>) {
    && Distinct(done) && Distinct(path)
    && (forall x :: x in path ==> x !in done)
    && visited == Elements(done) + Elements(path)
    && recStack == Elements(path)
  }

  /** What holds between any two steps of the search. */
  ghost predicate Searching(adj: Adjacency, nodes: set<Id>, visited: set<Id>, recStack: set<Id>, path: seq<Id>,
                            done: seq<Id>, cycles: seq<seq<Id>>) {
    && OnStack(visited, recStack, path, done) && visited <= nodes
    && FinishedUnlessCycles(adj, cycles, done) && AllCycles(adj, cycles)
  }

  lemma {:induction false} PushNode(visited: set<Id>, recStack: set<Id>, path: seq<Id>, node: Id, done: seq<Id>)
    requires OnStack(visited, recStack, path, done) && node !in visited
    ensures OnStack(visited + {node}, recStack + {node}, path + [node], done)
  {
    DistinctSnoc(path, node);
  }

  lemma {:induction false} PopNode(visited: set<Id>, recStack: set<Id>, path: seq<Id>, node: Id, done: seq<Id>)
    requires OnStack(visited, recStack, path + [node], done)
    ensures OnStack(visited, recStack - {node}, path, done + [node])
  {
    assert (path + [node])[|path|] == node;
    forall i, j | 0 <= i < j < |path| ensures path[i] != path[j] {
      assert (path + [node])[i] != (path + [node])[j];
    }
    forall x | x in path ensures x != node {
      var k :| 0 <= k < |path| && path[k] == x;
      assert (path + [node])[k] == x;
    }
    DistinctSnoc(done, node);
  }

  lemma {:induction false} NodeFinished(adj: Adjacency, nodes: set<Id>, node: Id, cycles: seq<seq<Id>>, done: seq<Id>)
    requires FinishedUnlessCycles(Existing(adj, nodes), cycles, done)
    requires FirstDone(Succ(adj, node), |Succ(adj, node)|, nodes, cycles, done)
    ensures FinishedUnlessCycles(Existing(adj, nodes), cycles, done + [node])
  {
    TakeAll(Succ(adj, node));
    if cycles == [] {
      forall y | Edge(Existing(adj, nodes), node, y) ensures y in done {
        ExistingEdge(adj, nodes, node, y);
      }
      FinishOrderSnoc(Existing(adj, nodes), done, node);
    }
  }

  ghost predicate FinishedUnlessCycles(adj: Adjacency, cycles: seq<seq<Id>>, done: seq<Id>) {
    cycles == [] ==> FinishOrder(adj, done)
  }

  /** Every list starts and ends at the same node and follows real edges in between. */
  ghost predicate AllCycles(adj: Adjacency, cycles: seq<seq<Id>>) {
    forall c :: c in cycles ==> Cycle(adj, c)
  }

  ghost predicate SameParents(vs: set<Id>, parent: map<Id, Option<Id>>, parent': map<Id, Option<Id>>) {
    forall v :: v in vs && v in parent ==> v in parent' && parent'[v] == parent[v]
  }

  /** The node at m occurs nowhere else on the path. */
  ghost predicate PassesOnce(path: seq<Id>, m: nat)
    requires m < |path|
  {
    forall k :: 0 <= k < |path| && path[k] == path[m] ==> k == m
  }

  lemma {:induction false} ClosedWalk(adj: Adjacency, path: seq<Id>, m: nat, cycles: seq<seq<Id>>)
    requires Walk(adj, path) && m < |path|
    requires Edge(adj, path[|path| - 1], path[m]) && AllCycles(adj, cycles)
    ensures AllCycles(adj, cycles + [path[m..] + [path[m]]])
  {
    ClosedIsCycle(adj, path, m);
  }

  /** The first i neighbours, where they exist, are finished, unless a cycle has been found. */
  ghost predicate FirstDone(neighbours: seq<Id>, i: nat, nodes: set<Id>, cycles: seq<seq<Id>>, done: seq<Id>)
    requires i <= |neighbours|
  {
    cycles == [] ==> forall x :: x in neighbours[..i] && x in nodes ==> x in done
  }

  lemma {:induction false} FirstDoneNext(neighbours: seq<Id>, i: nat, nodes: set<Id>, cycles: seq<seq<Id>>,
                                         done: seq<Id>,
                                         cycles': seq<seq<Id>>, done': seq<Id>)
    requires i < |neighbours| && FirstDone(neighbours, i, nodes, cycles, done)
    requires cycles <= cycles' && done <= done'
    requires cycles' == [] && neighbours[i] in nodes ==> neighbours[i] in done'
    ensures FirstDone(neighbours, i + 1, nodes, cycles', done')
  {
    assert neighbours[..i + 1] == neighbours[..i] + [neighbours[i]];
    forall x | x in done ensures x in done' {
      var k :| 0 <= k < |done| && done[k] == x;
      assert done'[k] == x;
    }
  }

  lemma {:induction false} SameParentsTrans(vs: set<Id>, p0: map<Id, Option<Id>>, p1: map<Id, Option<Id>>,
                                            ws: set<Id>, p2: map<Id, Option<Id>>)
    requires SameParents(vs, p0, p1) && SameParents(ws, p1, p2) && vs <= ws
    ensures SameParents(vs, p0, p2)
  {
  }

  lemma {:induction false} SameParentsAlong(vs: set<Id>, parent: map<Id, Option<Id>>, parent': map<Id, Option<Id>>,
                                            path: seq<Id>)
    requires ParentsAlong(parent, path) && SameParents(vs, parent, parent') && Elements(path) <= vs
    ensures ParentsAlong(parent', path)
  {
    forall x | x in path ensures x in parent' && parent'[x] == parent[x] {
      assert x in Elements(path);
    }
  }

  /** A new node after the path gets its last node as parent. */
  lemma {:induction false} PushParent(vs: set<Id>, parent: map<Id, Option<Id>>, path: seq<Id>, child: Id)
    requires path != [] && ParentsAlong(parent, path) && child !in vs && Elements(path) <= vs
    ensures var parent' := parent[child := Some(path[|path| - 1])];
      ParentsAlong(parent', path + [child]) && SameParents(vs, parent, parent')
  {
    var parent' := parent[child := Some(path[|path| - 1])];
    forall x | x in path ensures x != child {
      assert x in Elements(path);
    }
    SameParentsAlong(vs, parent, parent', path);
  }

  /** parent points from each node of the path to the one before it, and from the first to none. */
  ghost predicate ParentsAlong(parent: map<Id, Option<Id>>, path: seq<Id>) {
    && (forall x :: x in path ==> x in parent)
    && (path != [] ==> parent[path[0]] == None)
    && (forall i, j :: 0 <= i && j == i + 1 && j < |path| ==> parent[path[j]] == Some(path[i]))
  }

  /** Everything met so far is reachable, and every edge of a visited node leads to a visited or
      stacked node. */
  ghost predicate SearchState(adj: Adjacency, nodes: set<Id>, start: Id, visited: set<Id>, stack: seq<Id>) {
    && visited <= nodes
    && (forall v :: v in visited || (v in stack && v in nodes) ==>
        start in nodes && Reaches(Existing(adj, nodes), start, v))
    && (forall u, v :: u in visited && Edge(adj, u, v) ==> v in visited || v in stack || v !in nodes)
    && (start in visited || start in stack || start !in nodes)
  }

  lemma {:induction false} SkipKeepsSearch(adj: Adjacency, nodes: set<Id>, start: Id, visited: set<Id>,
                                           stack: seq<Id>, nid: Id)
    requires SearchState(adj, nodes, start, visited, stack + [nid])
    requires nid in visited || nid !in nodes
    ensures SearchState(adj, nodes, start, visited, stack)
  {
  }

  lemma {:induction false} VisitKeepsSearch(edges: seq<OrgEdge>, nodes: set<Id>, start: Id, visited: set<Id>,
                                            stack: seq<Id>, nid: Id)
    requires SearchState(Outgoing(edges), nodes, start, visited, stack + [nid]) && nid in nodes
    ensures SearchState(Outgoing(edges), nodes, start, visited + {nid}, stack + NewTargets(edges, nid, visited + {nid}))
  {
    var adj := Outgoing(edges);
    forall y { NewTargetsMeaning(edges, nid, visited + {nid}, y); }
    assert nid in stack + [nid];
    forall v | v in NewTargets(edges, nid, visited + {nid}) && v in nodes
      ensures Reaches(Existing(adj, nodes), start, v)
    {
      ExistingEdge(adj, nodes, nid, v);
      ReachesStep(Existing(adj, nodes), start, nid, v);
    }
  }

  lemma {:induction false} SearchFinished(adj: Adjacency, nodes: set<Id>, start: Id, visited: set<Id>)
    requires SearchState(adj, nodes, start, visited, [])
    ensures visited == ReachableNodes(adj, nodes, start)
  {
    var a := Existing(adj, nodes);
    forall v | v in ReachableNodes(adj, nodes, start)
      ensures v in visited
    {
      var p :| WalkBetween(a, p, start, v);
      forall x, y | x in visited && Edge(a, x, y) ensures y in visited {
        ExistingEdge(adj, nodes, x, y);
      }
      ClosedContainsWalk(a, visited, p);
    }
  }
}
