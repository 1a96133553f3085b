/** `company/reporting.py`: team sizes and reporting chains. */
module Reporting {
  import opened Collections
  import opened Digraph
  import opened OrgGraphs

  /** Existing nodes reached from nodeId by one or more child steps. */
  ghost function Team(graph: OrgGraph, nodeId: Id): set<Id>
    reads graph
  {
    set v | v in graph.nodes.items && ReachesByEdges(graph.ChildGraph(), nodeId, v)
  }

  /** The nodes counted below nid so far: new ones are reached from nid, and their children are
      all counted too. */
  ghost predicate CountedBelow(adj: Adjacency, nid: Id, before: set<Id>, after: set<Id>) {
    && before <= after
    && (forall x {:trigger ReachesByEdges(adj, nid, x)} :: x in after - before ==> ReachesByEdges(adj, nid, x))
    && (forall x, y :: x in after - before && Edge(adj, x, y) ==> y in after)
  }

  lemma {:induction false} OneStep(adj: Adjacency, u: Id, v: Id)
    requires Edge(adj, u, v)
    ensures ReachesByEdges(adj, u, v)
  {
    assert WalkBetween(adj, [u, v], u, v);
  }

  lemma {:induction false} StepThenMore(adj: Adjacency, u: Id, v: Id, w: Id)
    requires Edge(adj, u, v) && ReachesByEdges(adj, v, w)
    ensures ReachesByEdges(adj, u, w)
  {
    var p :| WalkBetween(adj, p, v, w) && |p| >= 2;
    var q := [u] + p;
    forall i, j | 0 <= i && j == i + 1 && j < |q|
      ensures Edge(adj, q[i], q[j])
    {
      if i > 0 { assert Edge(adj, p[i - 1], p[j - 1]); }
    }
    assert WalkBetween(adj, q, u, w);
  }

  /** Counting below a new child keeps the count below nid complete. */
  lemma {:induction false} CountChild(adj: Adjacency, nid: Id, child: Id, before: set<Id>, mid: set<Id>, after: set<Id>)
    requires CountedBelow(adj, nid, before, mid) && Edge(adj, nid, child) && child !in mid
    requires CountedBelow(adj, child, mid + {child}, after)
    requires forall y :: Edge(adj, child, y) ==> y in after
    ensures CountedBelow(adj, nid, before, after)
  {
    forall x | x in after - before
      ensures ReachesByEdges(adj, nid, x)
      ensures forall y :: Edge(adj, x, y) ==> y in after
    {
      if x == child {
        OneStep(adj, nid, child);
      } else if x !in mid {
        StepThenMore(adj, nid, child, x);
      }
    }
  }

  lemma {:induction false} AddedSizes(before: set<Id>, mid: set<Id>, child: Id, after: set<Id>)
    requires before <= mid && child !in mid && mid + {child} <= after
    ensures |after - before| == |mid - before| + 1 + |after - (mid + {child})|
  {
    assert after - before == (mid - before) + {child} + (after - (mid + {child}));
  }

  lemma {:induction false} CountedIsTeam(adj: Adjacency, nid: Id, counted: set<Id>, v: Id)
    requires CountedBelow(adj, nid, {}, counted)
    requires forall y :: Edge(adj, nid, y) ==> y in counted
    ensures v in counted <==> ReachesByEdges(adj, nid, v)
  {
    if ReachesByEdges(adj, nid, v) {
      var p :| WalkBetween(adj, p, nid, v) && |p| >= 2;
      assert Edge(adj, p[0], p[1]);
      WalkSlice(adj, p, 1, |p|);
      ClosedContainsWalk(adj, counted, p[1..|p|]);
      assert p[1..|p|][|p| - 2] == v;
    }
  }

  lemma {:induction false} RepeatIsCycle(adj: Adjacency, p: seq<Id>, v: Id)
    requires Walk(adj, p + [v]) && v in p
    ensures Cyclic(adj)
  {
    var q := p + [v];
    var k :| 0 <= k < |p| && p[k] == v;
    WalkSlice(adj, q, k, |q|);
    assert q[k..|q|][0] == v && q[k..|q|][|q| - k - 1] == v;
    assert Cycle(adj, q[k..|q|]);
  }

  class ReportingStructure {
    const graph: OrgGraph

    constructor (graph: OrgGraph)
      ensures this.graph == graph
    {
      this.graph := graph;
    }

    /** The closure `_count`. */
    method CountBelow(nid: Id, visited: set<Id>) returns (total: nat, visited': set<Id>)
      requires graph.Valid() && visited <= graph.nodes.items.Keys
      ensures visited <= visited' <= graph.nodes.items.Keys && total == |visited' - visited|
      ensures CountedBelow(graph.ChildGraph(), nid, visited, visited')
      ensures forall y :: Edge(graph.ChildGraph(), nid, y) ==> y in visited'
      decreases graph.nodes.items.Keys - visited
    {
      total, visited' := 0, visited;
      var children := graph.ChildIds(nid);
      assert visited' - visited == {};
      for i := 0 to |children|
        invariant visited <= visited' <= graph.nodes.items.Keys && total == |visited' - visited|
        invariant CountedBelow(graph.ChildGraph(), nid, visited, visited')
        invariant Elements(children[..i]) <= visited'
      {
        var child := children[i];
        assert children[..i + 1] == children[..i] + [child];
        graph.ChildGraphEdges(nid, child);
        if child !in visited' {
          ghost var mid := visited';
          visited' := visited' + {child};
          var below;
          below, visited' := CountBelow(child, visited');
          AddedSizes(visited, mid, child, visited');
          total := total + 1 + below;
          CountChild(graph.ChildGraph(), nid, child, visited, mid, visited');
        }
      }
      TakeAll(children);
      forall y | Edge(graph.ChildGraph(), nid, y) ensures y in visited' {
        assert y in Elements(children) <==> y in children;
        graph.ChildGraphEdges(nid, y);
      }
    }

    /** The number of direct and indirect reports: existing nodes reached by child steps, each
        counted once. */
    method GetTotalSpanOfControl(nodeId: Id) returns (total: nat)
      requires graph.Valid()
      ensures total == |Team(graph, nodeId)|
    {
      var counted;
      total, counted := CountBelow(nodeId, {});
      forall v ensures v in counted <==> v in Team(graph, nodeId) {
        CountedIsTeam(graph.ChildGraph(), nodeId, counted, v);
      }
      assert counted - {} == counted == Team(graph, nodeId);
    }

    /** Whether current has a reports_to edge to manager. */
    predicate ReportsTo(current: Id, manager: Id)
      reads graph
    {
      exists e :: e in graph.edges && e.sourceId == current && e.targetId == manager && e.edgeType == "reports_to"
    }

    /** The manager the chain moves to: the first one with a reports_to edge, else the first. */
    function NextManager(current: Id, parents: seq<Id>): Id
      requires parents != []
      reads graph
    {
      var preferred := Preferred(current, parents);
      if preferred != [] then preferred[0] else parents[0]
    }

    function Preferred(current: Id, parents: seq<Id>): (r: seq<Id>)
      reads graph
      ensures forall p :: p in r <==> p in parents && ReportsTo(current, p)
    {
      if parents == [] then []
      else (if ReportsTo(current, parents[0]) then [parents[0]] else []) + Preferred(current, parents[1..])
    }

    /** v is the manager the chain moves to from u. */
    predicate Follows(u: Id, v: Id)
      reads graph
    {
      graph.ParentIds(u) != [] && v == NextManager(u, graph.ParentIds(u))
    }

    /** An edge by which u reports to p. */
    ghost predicate ReportsBy(u: Id, p: Id, k: int)
      reads graph
    {
      && 0 <= k < |graph.edges| && graph.edges[k].sourceId == u && graph.edges[k].targetId == p
      && graph.edges[k].edgeType == "reports_to"
    }

    /** The i-th manager of u is the first it reports to, or the first of all if it reports to none. */
    ghost predicate FirstChoice(u: Id, i: nat)
      reads graph
    {
      var parents := graph.ParentIds(u);
      && i < |parents|
      && (forall j, k :: 0 <= j < i ==> !ReportsBy(u, parents[j], k))
      && ((exists k :: ReportsBy(u, parents[i], k)) ||
          (i == 0 && forall j, k :: 0 <= j < |parents| ==> !ReportsBy(u, parents[j], k)))
    }

    lemma {:induction false} ReportsToExactly(u: Id, p: Id)
      ensures ReportsTo(u, p) <==> exists k :: ReportsBy(u, p, k)
    {
      if ReportsTo(u, p) {
        var e :| e in graph.edges && e.sourceId == u && e.targetId == p && e.edgeType == "reports_to";
        var k :| 0 <= k < |graph.edges| && graph.edges[k] == e;
        assert ReportsBy(u, p, k);
      }
      if k :| ReportsBy(u, p, k) {
        assert graph.edges[k] in graph.edges;
      }
    }

    lemma {:induction false} PreferredFirst(u: Id, parents: seq<Id>) returns (i: nat)
      requires Preferred(u, parents) != []
      ensures i < |parents| && parents[i] == Preferred(u, parents)[0] && ReportsTo(u, parents[i])
      ensures forall j :: 0 <= j < i ==> !ReportsTo(u, parents[j])
    {
      if ReportsTo(u, parents[0]) {
        i := 0;
      } else {
        i := PreferredFirst(u, parents[1..]);
        i := i + 1;
      }
    }

    /** The chain moves from u to the first of its managers that it has a reports_to edge to and, only
        if there is none, to the first of all; it stops exactly where there is no manager. */
    lemma {:induction false} FollowsExactly(u: Id, v: Id)
      ensures Follows(u, v) <==> exists i: nat :: FirstChoice(u, i) && graph.ParentIds(u)[i] == v
      ensures graph.ParentIds(u) == [] <==> forall w :: !Follows(u, w)
    {
      var parents := graph.ParentIds(u);
      forall p { ReportsToExactly(u, p); }
      if parents != [] {
        assert Follows(u, NextManager(u, parents));
        var i: nat := 0;
        if Preferred(u, parents) != [] {
          i := PreferredFirst(u, parents);
        } else {
          forall j | 0 <= j < |parents| ensures !ReportsTo(u, parents[j]) {
            assert parents[j] in parents;
          }
        }
        assert FirstChoice(u, i) && parents[i] == NextManager(u, parents);
        forall m: nat | FirstChoice(u, m) ensures m == i {
          OneChoice(u, i, m);
        }
      }
    }

    lemma {:induction false} OneChoice(u: Id, i: nat, m: nat)
      requires FirstChoice(u, i) && FirstChoice(u, m)
      ensures i == m
    {
    }

    ghost predicate IsChain(chain: seq<Id>)
      reads graph
    {
      chain != [] && forall i, j :: 0 <= i && j == i + 1 && j < |chain| ==> Follows(chain[i], chain[j])
    }

    lemma {:induction false} ChainSnoc(chain: seq<Id>, v: Id)
      requires IsChain(chain) && Follows(chain[|chain| - 1], v)
      ensures IsChain(chain + [v])
    {
      var all := chain + [v];
      forall i, j | 0 <= i && j == i + 1 && j < |all| ensures Follows(all[i], all[j]) {
        assert all[i] == chain[i];
      }
    }

    lemma {:induction false} ChainIsWalk(chain: seq<Id>)
      requires IsChain(chain)
      ensures Walk(graph.ManagerGraph(), chain)
    {
      forall i, j | 0 <= i && j == i + 1 && j < |chain|
        ensures Edge(graph.ManagerGraph(), chain[i], chain[j])
      {
        assert Follows(chain[i], chain[j]);
        ExistingEdge(graph.adjacency, graph.nodes.items.Keys, chain[i], chain[j]);
      }
    }

    /** A chain whose next manager was met before contains a cycle. */
    lemma {:induction false} RepeatMeansCycle(chain: seq<Id>, v: Id)
      requires IsChain(chain) && Follows(chain[|chain| - 1], v) && v in chain
      ensures Cyclic(graph.ManagerGraph())
    {
      ChainSnoc(chain, v);
      ChainIsWalk(chain + [v]);
      RepeatIsCycle(graph.ManagerGraph(), chain, v);
    }

    /** What GetReportingChain returns: a chain from an existing node that goes on nowhere. */
    ghost predicate Complete(chain: seq<Id>)
      reads graph
    {
      && IsChain(chain) && chain[0] in graph.nodes.items
      && forall v :: Follows(chain[|chain| - 1], v) ==> v in chain[1..]
    }

    predicate AtTop(v: Id)
      reads graph
    {
      v in graph.nodes.items && graph.nodes.items[v].level == 0
    }

    /** On an acyclic graph all chains end at level 0 exactly when every node without a manager has
        level 0. */
    lemma {:induction false} ChainsEndAtTopExactly()
      requires !Cyclic(graph.ManagerGraph())
      ensures (forall chain :: Complete(chain) ==> AtTop(chain[|chain| - 1])) <==>
        (forall v :: v in graph.nodes.items && graph.ParentIds(v) == [] ==> AtTop(v))
    {
      if forall v :: v in graph.nodes.items && graph.ParentIds(v) == [] ==> AtTop(v) {
        forall chain | Complete(chain) ensures AtTop(chain[|chain| - 1]) {
          CompleteEnds(chain);
        }
      }
      if forall chain :: Complete(chain) ==> AtTop(chain[|chain| - 1]) {
        forall v | v in graph.nodes.items && graph.ParentIds(v) == [] ensures AtTop(v) {
          assert Complete([v]);
        }
      }
    }

    lemma {:induction false} CompleteEnds(chain: seq<Id>)
      requires !Cyclic(graph.ManagerGraph()) && Complete(chain)
      ensures chain[|chain| - 1] in graph.nodes.items && graph.ParentIds(chain[|chain| - 1]) == []
    {
      var u := chain[|chain| - 1];
      if graph.ParentIds(u) != [] {
        var v := NextManager(u, graph.ParentIds(u));
        assert Follows(u, v) && v in chain[1..];
        TailMember(chain, v);
        RepeatMeansCycle(chain, v);
      }
      if |chain| > 1 {
        assert Follows(chain[|chain| - 2], u);
      }
    }

    lemma {:induction false} ChainGoesOn(chain: seq<Id>)
      requires IsChain(chain)
      ensures |chain| > 1 ==> graph.ParentIds(chain[0]) != []
    {
      assert |chain| > 1 ==> Follows(chain[0], chain[1]);
    }

    /** The chain so far and the managers met on it. */
    ghost predicate ClimbState(nodeId: Id, chain: seq<Id>, visited: set<Id>)
      reads graph
    {
      && IsChain(chain) && chain[0] == nodeId
      && Distinct(chain[1..]) && visited == Elements(chain[1..]) <= graph.nodes.items.Keys
    }

    lemma {:induction false} Climb(nodeId: Id, chain: seq<Id>, visited: set<Id>, v: Id)
      requires ClimbState(nodeId, chain, visited) && Follows(chain[|chain| - 1], v) && v !in visited
      ensures ClimbState(nodeId, chain + [v], visited + {v})
    {
      ChainSnoc(chain, v);
      ElementsSnoc(chain[1..], v);
      DistinctSnoc(chain[1..], v);
      assert (chain + [v])[1..] == chain[1..] + [v];
    }

    /** Why a climb can end: there is no manager, or the next one was met already. */
    lemma {:induction false} ClimbEnds(nodeId: Id, chain: seq<Id>, visited: set<Id>)
      requires ClimbState(nodeId, chain, visited)
      requires forall v :: Follows(chain[|chain| - 1], v) ==> v in visited
      ensures Walk(graph.ManagerGraph(), chain)
      ensures !Cyclic(graph.ManagerGraph()) ==> graph.ParentIds(chain[|chain| - 1]) == []
    {
      var last := chain[|chain| - 1];
      ChainIsWalk(chain);
      if graph.ParentIds(last) != [] {
        var v := NextManager(last, graph.ParentIds(last));
        assert Follows(last, v);
        assert v in Elements(chain[1..]);
        TailMember(chain, v);
        RepeatMeansCycle(chain, v);
      }
    }

    /** Follow managers upwards until there is none or the next was met before. The chain is a
        walk in the graph without repetitions after its start; on an acyclic graph it ends at a
        node without managers. */
    method GetReportingChain(nodeId: Id) returns (chain: seq<Id>)
      requires graph.Valid()
      ensures IsChain(chain) && chain[0] == nodeId && Distinct(chain[1..])
      ensures forall v :: Follows(chain[|chain| - 1], v) ==> v in chain[1..]
      ensures Walk(graph.ManagerGraph(), chain)
      ensures !Cyclic(graph.ManagerGraph()) ==> graph.ParentIds(chain[|chain| - 1]) == []
    {
      chain := [nodeId];
      var current := nodeId;
      var visited: set<Id> := {};
      var stop := false;
      while !stop
        invariant ClimbState(nodeId, chain, visited) && chain[|chain| - 1] == current
        invariant stop ==> forall v :: Follows(current, v) ==> v in visited
        decreases graph.nodes.items.Keys - visited, if stop then 0 else 1
      {
        var parents := graph.ParentIds(current);
        if parents == [] {
          stop := true;
        } else {
          var nextId := NextManager(current, parents);
          if nextId in visited {
            stop := true;
          } else {
            assert nextId in parents;
            Climb(nodeId, chain, visited, nextId);
            visited := visited + {nextId};
            chain := chain + [nextId];
            current := nextId;
          }
        }
      }
      ClimbEnds(nodeId, chain, visited);
    }
  }

  /** The chain of a lone node below the top level ends right there. */
  method ChainBelowTop(node: OrgNode) returns (structure: ReportingStructure, chain: seq<Id>)
    requires node.level > 0
    ensures fresh(structure.graph) && structure.graph.nodes.items == map[node.id := node]
    ensures chain == [node.id] && structure.graph.nodes.items[node.id].level != 0
  {
    var graph := new OrgGraph();
    graph.AddNode(node);
    structure := new ReportingStructure(graph);
    assert graph.ParentIds(node.id) == [];
    chain := structure.GetReportingChain(node.id);
    structure.ChainGoesOn(chain);
  }
}
