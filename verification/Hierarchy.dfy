/** `company/hierarchy.py`: level assignment by breadth-first search from the roots. The queue
    carries each node with its distance; at any time the distances on it span at most one step,
    which is why the first distance a node gets is its shortest. */
module Hierarchy {
  import opened Collections
  import opened Digraph
  import opened OrgGraphs

  /** v can be reached from some root by a walk of k child edges. */
  ghost predicate AtDistance(adj: Adjacency, roots: set<Id>, v: Id, k: nat) {
    exists p :: Walk(adj, p) && p[0] in roots && p[|p| - 1] == v && |p| == k + 1
  }

  /** k is the length of the shortest walk of child edges from the roots to v. */
  ghost predicate ShortestDistance(adj: Adjacency, roots: set<Id>, v: Id, k: nat) {
    AtDistance(adj, roots, v, k) && forall j: nat :: AtDistance(adj, roots, v, j) ==> k <= j
  }

  ghost predicate FromRoots(adj: Adjacency, roots: set<Id>, v: Id) {
    exists k: nat :: AtDistance(adj, roots, v, k)
  }

  /** Distances assigned so far; queued nodes have been met but not expanded. The queue's
      distances never fall and span at most one step. */
  ghost predicate Frontier(adj: Adjacency, roots: set<Id>, dist: map<Id, nat>, queue: seq<Id>) {
    && (forall v :: v in roots ==> v in dist && dist[v] == 0)
    && (forall v {:trigger AtDistance(adj, roots, v, dist[v])} :: v in dist ==> AtDistance(adj, roots, v, dist[v]))
    && Distinct(queue) && (forall v :: v in queue ==> v in dist)
    && (forall i, j :: 0 <= i < j < |queue| ==> dist[queue[i]] <= dist[queue[j]] <= dist[queue[i]] + 1)
    && (forall u, v :: u in dist && u !in queue && Edge(adj, u, v) ==> v in dist && dist[v] <= dist[u] + 1)
    && (forall v :: queue != [] && v in dist ==> dist[v] <= dist[queue[0]] + 1)
    && (forall v :: queue != [] && v in dist && v !in queue ==> dist[v] <= dist[queue[0]])
  }

  /** Distance 0 for the roots. */
  ghost function Zero(roots: set<Id>): (dist: map<Id, nat>)
    ensures dist.Keys == roots && forall v :: v in roots ==> dist[v] == 0
  {
    map v | v in roots :: 0
  }

  lemma {:induction false} RootsFrontier(adj: Adjacency, roots: seq<Id>)
    requires Distinct(roots)
    ensures Frontier(adj, Elements(roots), Zero(Elements(roots)), roots)
  {
    forall v | v in roots ensures AtDistance(adj, Elements(roots), v, 0) {
      assert Walk(adj, [v]);
    }
  }

  /** At the end of the search the assigned distances are shortest and nothing was missed. */
  lemma {:induction false} FinishedDistances(adj: Adjacency, roots: set<Id>, dist: map<Id, nat>, v: Id)
    requires Frontier(adj, roots, dist, [])
    ensures v in dist <==> FromRoots(adj, roots, v)
    ensures v in dist ==> ShortestDistance(adj, roots, v, dist[v])
  {
    forall k: nat | AtDistance(adj, roots, v, k)
      ensures v in dist && dist[v] <= k
    {
      var p :| Walk(adj, p) && p[0] in roots && p[|p| - 1] == v && |p| == k + 1;
      DistanceAlongWalk(adj, roots, dist, p);
    }
    if v in dist {
      assert AtDistance(adj, roots, v, dist[v]);
    }
  }

  lemma {:induction false} DistanceAlongWalk(adj: Adjacency, roots: set<Id>, dist: map<Id, nat>, p: seq<Id>)
    requires Frontier(adj, roots, dist, []) && Walk(adj, p) && p[0] in roots
    ensures p[|p| - 1] in dist && dist[p[|p| - 1]] <= |p| - 1
  {
    if |p| > 1 {
      WalkSlice(adj, p, 0, |p| - 1);
      DistanceAlongWalk(adj, roots, dist, p[0..|p| - 1]);
      LastEdge(adj, p);
    }
  }

  /** Expanding the first queued node u: its children without a distance get one more than u's. */
  ghost predicate Expanding(adj: Adjacency, roots: set<Id>, dist: map<Id, nat>, u: Id, queue: seq<Id>, seen: seq<Id>) {
    && u in dist && u !in queue
    && (forall v :: v in roots ==> v in dist && dist[v] == 0)
    && (forall v {:trigger AtDistance(adj, roots, v, dist[v])} :: v in dist ==> AtDistance(adj, roots, v, dist[v]))
    && Distinct(queue) && (forall v :: v in queue ==> v in dist && dist[u] <= dist[v])
    && (forall i, j :: 0 <= i < j < |queue| ==> dist[queue[i]] <= dist[queue[j]])
    && (forall x, v :: x in dist && x !in queue && x != u && Edge(adj, x, v) ==> v in dist && dist[v] <= dist[x] + 1)
    && (forall v :: v in dist ==> dist[v] <= dist[u] + 1)
    && (forall v :: v in dist && v !in queue ==> dist[v] <= dist[u])
    && (forall v :: v in seen ==> v in dist)
  }

  lemma {:induction false} TailIndexes(queue: seq<Id>)
    requires queue != [] && Distinct(queue)
    ensures queue[0] !in queue[1..] && Distinct(queue[1..])
    ensures forall v :: v in queue <==> v == queue[0] || v in queue[1..]
  {
    assert queue == [queue[0]] + queue[1..];
  }

  lemma {:induction false} TailAscends(queue: seq<Id>, dist: map<Id, nat>)
    requires queue != [] && forall v :: v in queue ==> v in dist
    requires forall i, j :: 0 <= i < j < |queue| ==> dist[queue[i]] <= dist[queue[j]]
    ensures forall v :: v in queue[1..] ==> dist[queue[0]] <= dist[v]
    ensures forall i, j :: 0 <= i < j < |queue[1..]| ==> dist[queue[1..][i]] <= dist[queue[1..][j]]
  {
    forall v | v in queue[1..] ensures dist[queue[0]] <= dist[v] {
      var k :| 0 <= k < |queue[1..]| && queue[1..][k] == v;
      assert queue[k + 1] == v;
    }
  }

  lemma {:induction false} StartExpanding(adj: Adjacency, roots: set<Id>, dist: map<Id, nat>, queue: seq<Id>)
    requires Frontier(adj, roots, dist, queue) && queue != []
    ensures Expanding(adj, roots, dist, queue[0], queue[1..], [])
  {
    TailIndexes(queue);
    TailAscends(queue, dist);
    assert queue[0] in queue;
  }

  lemma {:induction false} ExpandKnown(adj: Adjacency, roots: set<Id>, dist: map<Id, nat>, u: Id, queue: seq<Id>,
                                       seen: seq<Id>, child: Id)
    requires Expanding(adj, roots, dist, u, queue, seen) && child in dist
    ensures Expanding(adj, roots, dist, u, queue, seen + [child])
  {
  }

  lemma {:induction false} OneFurther(adj: Adjacency, roots: set<Id>, u: Id, k: nat, child: Id)
    requires AtDistance(adj, roots, u, k) && Edge(adj, u, child)
    ensures AtDistance(adj, roots, child, k + 1)
  {
    var p :| Walk(adj, p) && p[0] in roots && p[|p| - 1] == u && |p| == k + 1;
    WalkSnoc(adj, p, child);
    assert (p + [child])[0] in roots;
  }

  lemma {:induction false} AscendSnoc(dist: map<Id, nat>, queue: seq<Id>, child: Id, level: nat)
    requires child !in dist && forall v :: v in queue ==> v in dist && dist[v] <= level
    requires forall i, j :: 0 <= i < j < |queue| ==> dist[queue[i]] <= dist[queue[j]]
    ensures var dist', queue' := dist[child := level], queue + [child];
      && (forall v :: v in queue' ==> v in dist')
      && (forall i, j :: 0 <= i < j < |queue'| ==> dist'[queue'[i]] <= dist'[queue'[j]])
  {
  }

  lemma {:induction false} ExpandChild(adj: Adjacency, roots: set<Id>, dist: map<Id, nat>, u: Id, level: nat,
                                       queue: seq<Id>,
                                       seen: seq<Id>, child: Id, queue': seq<Id>)
    requires Expanding(adj, roots, dist, u, queue, seen) && Edge(adj, u, child)
    requires child !in dist && level == dist[u] && queue' == queue + [child]
    ensures Expanding(adj, roots, dist[child := level + 1], u, queue', seen + [child])
  {
    assert AtDistance(adj, roots, u, dist[u]);
    OneFurther(adj, roots, u, level, child);
    DistinctSnoc(queue, child);
    AscendSnoc(dist, queue, child, level + 1);
  }

  lemma {:induction false} EndExpanding(adj: Adjacency, roots: set<Id>, dist: map<Id, nat>, u: Id, queue: seq<Id>)
    requires Expanding(adj, roots, dist, u, queue, Succ(adj, u))
    ensures Frontier(adj, roots, dist, queue)
  {
    forall x, v | x in dist && x !in queue && Edge(adj, x, v)
      ensures v in dist && dist[v] <= dist[x] + 1
    {
      if x == u { assert v in Succ(adj, u); }
    }
    if queue != [] {
      assert queue[0] in queue;
    }
  }

  function Max(a: int, b: int): int { if a < b then b else a }

  /** The node with its level raised to at least the given one. */
  function Raised(node: OrgNode, level: int): OrgNode {
    node.(level := Max(node.level, level))
  }

  /** The level table agrees with the nodes. */
  ghost predicate LevelsAgree(nodes: Dict<Id, OrgNode>, levelMap: map<Id, int>) {
    levelMap.Keys == nodes.items.Keys && forall v :: v in levelMap ==> levelMap[v] == nodes.items[v].level
  }

  /** Nodes whose distance is settled have been raised to it; all others are as before. */
  ghost predicate RaisedSoFar(before: map<Id, OrgNode>, now: map<Id, OrgNode>, dist: map<Id, nat>, waiting: seq<Id>) {
    && now.Keys == before.Keys && dist.Keys <= before.Keys
    && (forall v :: v in before && v in dist && v !in waiting ==> now[v] == Raised(before[v], dist[v]))
    && (forall v :: v in before && (v !in dist || v in waiting) ==> now[v] == before[v])
  }

  /** The queue entries' first components. */
  function Queued(queue: seq<(Id, int)>): (ids: seq<Id>)
    ensures |ids| == |queue| && forall i :: 0 <= i < |queue| ==> ids[i] == queue[i].0
  {
    if queue == [] then [] else [queue[0].0] + Queued(queue[1..])
  }

  lemma QueuedSnoc(queue: seq<(Id, int)>, e: (Id, int))
    ensures Queued(queue + [e]) == Queued(queue) + [e.0]
  {
  }

  /** Queue entries carry the distance of their node. */
  ghost predicate Carries(queue: seq<(Id, int)>, dist: map<Id, nat>) {
    forall i :: 0 <= i < |queue| ==> queue[i].0 in dist && queue[i].1 == dist[queue[i].0]
  }

  lemma {:induction false} CarriesSnoc(queue: seq<(Id, int)>, dist: map<Id, nat>, v: Id, level: nat)
    requires Carries(queue, dist) && v !in dist
    ensures Carries(queue + [(v, level)], dist[v := level])
  {
  }

  /** Distances are only added, and exactly the nodes that got one are added to the queue. */
  ghost predicate Grown(dist: map<Id, nat>, queue: seq<Id>, dist': map<Id, nat>, queue': seq<Id>) {
    && dist.Keys <= dist'.Keys
    && (forall v :: v in dist ==> dist'[v] == dist[v])
    && (forall v :: v in queue' <==> v in queue || (v in dist' && v !in dist))
  }

  lemma {:induction false} GrownSnoc(start: map<Id, nat>, waiting: seq<Id>, dist: map<Id, nat>, queue: seq<Id>, v: Id,
                                     level: nat)
    requires Grown(start, waiting, dist, queue) && v !in dist
    ensures Grown(start, waiting, dist[v := level], queue + [v])
  {
  }

  /** What holds while the children of nid are queued: seen are those dealt with. */
  ghost predicate Queueing(adj: Adjacency, roots: set<Id>, nodes: set<Id>, start: map<Id, nat>, waiting: seq<Id>,
                           nid: Id, level: int, dist: map<Id, nat>, queue: seq<(Id, int)>, seen: seq<Id>) {
    && Expanding(adj, roots, dist, nid, Queued(queue), seen)
    && Tracked(nodes, start, waiting, nid, level, dist, queue)
  }

  /** The part of this that does not depend on the graph. */
  ghost predicate Tracked(nodes: set<Id>, start: map<Id, nat>, waiting: seq<Id>, nid: Id, level: int,
                          dist: map<Id, nat>, queue: seq<(Id, int)>) {
    && nid in dist && level == dist[nid] && Carries(queue, dist)
    && dist.Keys <= nodes && Grown(start, waiting, dist, Queued(queue))
  }

  lemma {:induction false} TrackedNext(nodes: set<Id>, start: map<Id, nat>, waiting: seq<Id>, nid: Id, level: nat,
                                       dist: map<Id, nat>, queue: seq<(Id, int)>, child: Id)
    requires Tracked(nodes, start, waiting, nid, level, dist, queue) && child !in dist && child in nodes
    ensures Tracked(nodes, start, waiting, nid, level, dist[child := level + 1], queue + [(child, level + 1)])
  {
    QueuedSnoc(queue, (child, level + 1));
    CarriesSnoc(queue, dist, child, level + 1);
    GrownSnoc(start, waiting, dist, Queued(queue), child, level + 1);
  }

  lemma {:induction false} ExpandQueued(adj: Adjacency, roots: set<Id>, nid: Id, level: nat, dist: map<Id, nat>,
                                        queue: seq<(Id, int)>, seen: seq<Id>, child: Id)
    requires Expanding(adj, roots, dist, nid, Queued(queue), seen) && Edge(adj, nid, child)
    requires child !in dist && level == dist[nid]
    ensures Expanding(adj, roots, dist[child := level + 1], nid, Queued(queue + [(child, level + 1)]), seen + [child])
  {
    QueuedSnoc(queue, (child, level + 1));
    ExpandChild(adj, roots, dist, nid, level, Queued(queue), seen, child, Queued(queue + [(child, level + 1)]));
  }

  lemma {:induction false} QueueingNext(adj: Adjacency, roots: set<Id>, nodes: set<Id>, start: map<Id, nat>,
                                        waiting: seq<Id>,
                                        nid: Id, level: int, dist: map<Id, nat>, queue: seq<(Id, int)>,
                                        seen: seq<Id>, child: Id)
    requires Queueing(adj, roots, nodes, start, waiting, nid, level, dist, queue, seen)
    requires Edge(adj, nid, child) && child in nodes
    ensures if child in dist then Queueing(adj, roots, nodes, start, waiting, nid, level, dist, queue, seen + [child])
            else level >= 0 && Queueing(adj, roots, nodes, start, waiting, nid, level,
                                        dist[child := level + 1], queue + [(child, level + 1)], seen + [child])
  {
    if child in dist {
      ExpandKnown(adj, roots, dist, nid, Queued(queue), seen, child);
    } else {
      ExpandQueued(adj, roots, nid, level, dist, queue, seen, child);
      TrackedNext(nodes, start, waiting, nid, level, dist, queue, child);
    }
  }

  /** Every node reached from the roots has its level raised to its shortest distance, if that is
      deeper than declared; every other node is as before. */
  ghost predicate LevelsResolved(adj: Adjacency, roots: set<Id>, before: map<Id, OrgNode>, after: map<Id, OrgNode>) {
    && after.Keys == before.Keys
    && (forall v, k: nat :: v in before && ShortestDistance(adj, roots, v, k) ==>
          after[v] == before[v].(level := if k > before[v].level then k else before[v].level))
    && (forall v :: v in before && !FromRoots(adj, roots, v) ==> after[v] == before[v])
  }

  /** The search is only ever for deeper levels: no level falls, nothing but levels changes, and
      every node that the roots reach ends at least as deep as its shortest distance from them. */
  lemma {:induction false} LevelsOnlyRise(adj: Adjacency, roots: set<Id>, before: map<Id, OrgNode>,
                                          after: map<Id, OrgNode>, v: Id)
    requires LevelsResolved(adj, roots, before, after) && v in before
    ensures after[v].level >= before[v].level && after[v] == before[v].(level := after[v].level)
    ensures forall k: nat :: ShortestDistance(adj, roots, v, k) ==> after[v].level >= k
    ensures after[v] != before[v] ==> after[v].level >= 0 && ShortestDistance(adj, roots, v, after[v].level)
  {
    if FromRoots(adj, roots, v) {
      var k: nat :| AtDistance(adj, roots, v, k);
      var least := LeastDistance(adj, roots, v, k);
    }
  }

  lemma {:induction false} LeastDistance(adj: Adjacency, roots: set<Id>, v: Id, k: nat) returns (least: nat)
    requires AtDistance(adj, roots, v, k)
    ensures ShortestDistance(adj, roots, v, least)
  {
    least := k;
    if j: nat :| j < k && AtDistance(adj, roots, v, j) {
      least := LeastDistance(adj, roots, v, j);
    }
  }

  lemma {:induction false} StartQueueing(adj: Adjacency, roots: set<Id>, nodes: set<Id>, dist: map<Id, nat>,
                                         queue: seq<(Id, int)>)
    requires queue != [] && Frontier(adj, roots, dist, Queued(queue)) && Carries(queue, dist) && dist.Keys <= nodes
    ensures Queued(queue[1..]) == Queued(queue)[1..]
    ensures Queueing(adj, roots, nodes, dist, Queued(queue[1..]), queue[0].0, queue[0].1, dist, queue[1..], [])
  {
    assert Queued(queue)[0] == queue[0].0;
    StartExpanding(adj, roots, dist, Queued(queue));
  }

  predicate IsRoot(nodes: map<Id, OrgNode>, adjacency: Adjacency, v: Id) {
    v in nodes && (nodes[v].level == 0 || Keep(Succ(adjacency, v), nodes.Keys) == [])
  }

  /** Nodes at level 0 or without existing managers, in the order of the node dict. */
  function Roots(keys: seq<Id>, nodes: map<Id, OrgNode>, adjacency: Adjacency): (r: seq<Id>)
    ensures forall v :: v in r <==> v in keys && IsRoot(nodes, adjacency, v)
    ensures Distinct(keys) ==> Distinct(r)
  {
    if keys == [] then []
    else
      var rest, v := Roots(keys[..|keys| - 1], nodes, adjacency), keys[|keys| - 1];
      if IsRoot(nodes, adjacency, v) then rest + [v] else rest
  }

  ghost function RootSet(nodes: map<Id, OrgNode>, adjacency: Adjacency): set<Id> {
    set v | v in nodes && IsRoot(nodes, adjacency, v)
  }

  /** The search starts from the nodes at level 0 and those without an edge to an existing node. */
  lemma {:induction false} RootsExactly(nodes: map<Id, OrgNode>, adjacency: Adjacency, v: Id)
    ensures v in RootSet(nodes, adjacency) <==>
      v in nodes && (nodes[v].level == 0 || forall m :: m in nodes ==> !Edge(adjacency, v, m))
  {
    var kept := Keep(Succ(adjacency, v), nodes.Keys);
    if kept != [] {
      assert kept[0] in kept;
    }
  }

  lemma {:induction false} RootsCarried(queue: seq<(Id, int)>)
    requires forall k :: 0 <= k < |queue| ==> queue[k].1 == 0
    ensures Carries(queue, Zero(Elements(Queued(queue))))
  {
    var ids := Queued(queue);
    forall k | 0 <= k < |queue| ensures queue[k].0 in Elements(ids) {
      assert ids[k] in ids;
    }
  }

  lemma {:induction false} NothingRaised(nodes: map<Id, OrgNode>, dist: map<Id, nat>, waiting: seq<Id>)
    requires dist.Keys == Elements(waiting) && dist.Keys <= nodes.Keys
    ensures RaisedSoFar(nodes, nodes, dist, waiting)
  {
  }

  lemma {:induction false} RootsStart(nodes: Dict<Id, OrgNode>, adjacency: Adjacency, adj: Adjacency, queue: seq<(Id,
                                      int)>)
    requires nodes.Valid() && Queued(queue) == Roots(nodes.keys, nodes.items, adjacency)
    requires forall k :: 0 <= k < |queue| ==> queue[k].1 == 0
    ensures var roots := RootSet(nodes.items, adjacency);
      && roots == Elements(Queued(queue))
      && Frontier(adj, roots, Zero(roots), Queued(queue)) && Carries(queue, Zero(roots))
      && RaisedSoFar(nodes.items, nodes.items, Zero(roots), Queued(queue))
  {
    var rootIds := Queued(queue);
    assert Elements(rootIds) == RootSet(nodes.items, adjacency);
    RootsFrontier(adj, rootIds);
    RootsCarried(queue);
    NothingRaised(nodes.items, Zero(Elements(rootIds)), rootIds);
  }

  class HierarchyBuilder {
    const graph: OrgGraph
    var levelMap: map<Id, int>

    constructor ()
      ensures fresh(graph) && graph.Valid() && graph.nodes == EmptyDict() && graph.edges == [] && levelMap == map[]
    {
      graph := new OrgGraph();
      levelMap := map[];
    }

    /** `_add_node` */
    method AddNode(node: OrgNode)
      requires graph.Valid() && LevelsAgree(graph.nodes, levelMap)
      modifies this`levelMap, graph`nodes
      ensures graph.Valid() && LevelsAgree(graph.nodes, levelMap)
      ensures graph.nodes == old(graph.nodes).Put(node.id, node)
    {
      graph.AddNode(node);
      levelMap := levelMap[node.id := node.level];
    }

    /** Queue the children of nid that have not been met yet, one level below it. */
    method QueueChildren(nid: Id, level: int, visited: set<Id>, queue: seq<(Id, int)>, ghost roots: set<Id>,
                         ghost dist: map<Id, nat>)
      returns (visited': set<Id>, queue': seq<(Id, int)>, ghost dist': map<Id, nat>)
      requires visited == dist.Keys
      requires Queueing(graph.ChildGraph(), roots, graph.nodes.items.Keys,
                        dist, Queued(queue), nid, level, dist, queue, [])
      ensures visited' == dist'.Keys
      ensures Queueing(graph.ChildGraph(), roots, graph.nodes.items.Keys, dist, Queued(queue), nid, level,
                       dist', queue', Succ(graph.ChildGraph(), nid))
    {
      visited', queue', dist' := visited, queue, dist;
      var children := graph.ChildIds(nid);
      assert Succ(graph.ChildGraph(), nid) == children;
      for i := 0 to |children|
        invariant visited' == dist'.Keys
        invariant Queueing(graph.ChildGraph(), roots, graph.nodes.items.Keys, dist, Queued(queue), nid, level,
                           dist', queue', children[..i])
      {
        var child := children[i];
        TakeNext(children, i);
        graph.ChildGraphEdges(nid, child);
        QueueingNext(graph.ChildGraph(), roots, graph.nodes.items.Keys, dist, Queued(queue), nid, level,
                     dist', queue', children[..i], child);
        if child !in visited' {
          visited' := visited' + {child};
          queue' := queue' + [(child, level + 1)];
          dist' := dist'[child := level + 1];
        }
      }
      TakeAll(children);
    }

    /** Raise one node to the distance it was met at. */
    method RaiseLevel(nid: Id, level: int)
      requires graph.Valid() && LevelsAgree(graph.nodes, levelMap) && nid in graph.nodes.items
      modifies this`levelMap, graph`nodes
      ensures graph.Valid() && LevelsAgree(graph.nodes, levelMap)
      ensures graph.nodes.keys == old(graph.nodes.keys)
      ensures graph.nodes.items == old(graph.nodes.items)[nid := Raised(old(graph.nodes.items[nid]), level)]
      ensures graph.ChildGraph() == old(graph.ChildGraph())
    {
      var node := graph.nodes.items[nid];
      if level > node.level {
        graph.AddNode(node.(level := level));
        levelMap := levelMap[nid := level];
      } else {
        assert graph.nodes.items[nid := node] == graph.nodes.items;
      }
      assert graph.nodes.items.Keys == old(graph.nodes.items.Keys);
    }

    /** The state between two rounds of the search. */
    ghost predicate Resolving(adj: Adjacency, roots: set<Id>, keys: seq<Id>, before: map<Id, OrgNode>,
                              queue: seq<(Id, int)>, visited: set<Id>, dist: map<Id, nat>)
      reads this, graph
    {
      && graph.Valid() && LevelsAgree(graph.nodes, levelMap)
      && graph.nodes.keys == keys && graph.ChildGraph() == adj
      && visited == dist.Keys && Carries(queue, dist)
      && Frontier(adj, roots, dist, Queued(queue))
      && RaisedSoFar(before, graph.nodes.items, dist, Queued(queue))
    }

    method VisitFirst(queue: seq<(Id, int)>, visited: set<Id>, ghost adj: Adjacency, ghost roots: set<Id>,
                      ghost keys: seq<Id>,
                      ghost before: map<Id, OrgNode>, ghost dist: map<Id, nat>)
      returns (queue': seq<(Id, int)>, visited': set<Id>, ghost dist': map<Id, nat>)
      requires queue != [] && Resolving(adj, roots, keys, before, queue, visited, dist)
      modifies this`levelMap, graph`nodes
      ensures Resolving(adj, roots, keys, before, queue', visited', dist')
      ensures visited < visited' <= before.Keys || (visited' == visited && |queue'| < |queue|)
    {
      var (nid, level) := queue[0];
      ghost var waiting := Queued(queue);
      StartQueueing(adj, roots, graph.nodes.items.Keys, dist, queue);
      RaiseLevel(nid, level);
      visited', queue', dist' := QueueChildren(nid, level, visited, queue[1..], roots, dist);
      EndExpanding(adj, roots, dist', nid, Queued(queue'));
      RaisedNext(before, old(graph.nodes.items), dist, waiting, dist', Queued(queue'));
      QueueShrinks(dist, queue[1..], dist', queue');
    }

    method QueueRoots(rootIds: seq<Id>) returns (queue: seq<(Id, int)>, visited: set<Id>)
      ensures Queued(queue) == rootIds && visited == Elements(rootIds)
      ensures forall k :: 0 <= k < |queue| ==> queue[k].1 == 0
    {
      queue, visited := [], {};
      for i := 0 to |rootIds|
        invariant Queued(queue) == rootIds[..i] && visited == Elements(rootIds[..i])
        invariant forall k :: 0 <= k < |queue| ==> queue[k].1 == 0
      {
        TakeNext(rootIds, i);
        ElementsSnoc(rootIds[..i], rootIds[i]);
        QueuedSnoc(queue, (rootIds[i], 0));
        queue := queue + [(rootIds[i], 0)];
        visited := visited + {rootIds[i]};
      }
      TakeAll(rootIds);
    }

    /** The loop over the queue. */
    method Search(queue: seq<(Id, int)>, visited: set<Id>, ghost adj: Adjacency, ghost roots: set<Id>,
                  ghost keys: seq<Id>,
                  ghost before: map<Id, OrgNode>, ghost dist: map<Id, nat>)
      requires Resolving(adj, roots, keys, before, queue, visited, dist)
      modifies this`levelMap, graph`nodes
      ensures graph.Valid() && LevelsAgree(graph.nodes, levelMap) && graph.nodes.keys == keys
      ensures LevelsResolved(adj, roots, before, graph.nodes.items)
    {
      var q, v := queue, visited;
      ghost var dist' := dist;
      while q != []
        invariant Resolving(adj, roots, keys, before, q, v, dist')
        decreases before.Keys - v, |q|
      {
        q, v, dist' := VisitFirst(q, v, adj, roots, keys, before, dist');
      }
      LevelsFinal(adj, roots, before, graph.nodes.items, dist');
    }

    /** Breadth-first level assignment: nodes reached from the roots are raised to their shortest
        distance, and nothing else changes. */
    method ResolveLevels()
      requires graph.Valid() && LevelsAgree(graph.nodes, levelMap)
      modifies this`levelMap, graph`nodes
      ensures graph.Valid() && LevelsAgree(graph.nodes, levelMap) && graph.nodes.keys == old(graph.nodes.keys)
      ensures LevelsResolved(old(graph.ChildGraph()), RootSet(old(graph.nodes.items), old(graph.adjacency)),
                             old(graph.nodes.items), graph.nodes.items)
    {
      var queue, visited := QueueRoots(Roots(graph.nodes.keys, graph.nodes.items, graph.adjacency));
      ghost var adj, roots := graph.ChildGraph(), RootSet(graph.nodes.items, graph.adjacency);
      ghost var before, keys := graph.nodes.items, graph.nodes.keys;
      ghost var dist: map<Id, nat> := Zero(roots);
      RootsStart(graph.nodes, graph.adjacency, adj, queue);
      Search(queue, visited, adj, roots, keys, before, dist);
    }
  }

  lemma {:induction false} HeadAndRest(waiting: seq<Id>)
    requires waiting != [] && Distinct(waiting)
    ensures waiting[0] !in waiting[1..]
    ensures forall v :: v in waiting <==> v == waiting[0] || v in waiting[1..]
  {
    assert waiting == [waiting[0]] + waiting[1..];
  }

  /** One node off the queue has its level raised. */
  lemma {:induction false} RaisedNext(before: map<Id, OrgNode>, now: map<Id, OrgNode>, dist: map<Id, nat>,
                                      waiting: seq<Id>,
                                      dist': map<Id, nat>, waiting': seq<Id>)
    requires waiting != [] && Distinct(waiting) && waiting[0] in dist && RaisedSoFar(before, now, dist, waiting)
    requires Grown(dist, waiting[1..], dist', waiting') && dist'.Keys <= before.Keys
    ensures RaisedSoFar(before, now[waiting[0] := Raised(now[waiting[0]], dist[waiting[0]])], dist', waiting')
  {
    HeadAndRest(waiting);
    RaisedOne(before, now, dist, waiting, waiting[0], waiting[1..], dist', waiting');
  }

  lemma {:induction false} RaisedOne(before: map<Id, OrgNode>, now: map<Id, OrgNode>, dist: map<Id, nat>,
                                     waiting: seq<Id>, u: Id, rest: seq<Id>, dist': map<Id, nat>, waiting': seq<Id>)
    requires RaisedSoFar(before, now, dist, waiting) && u in dist
    requires u !in rest && forall v :: v in waiting <==> v == u || v in rest
    requires Grown(dist, rest, dist', waiting') && dist'.Keys <= before.Keys
    ensures RaisedSoFar(before, now[u := Raised(now[u], dist[u])], dist', waiting')
  {
    var after := now[u := Raised(now[u], dist[u])];
    forall v | v in before && v in dist' && v !in waiting'
      ensures after[v] == Raised(before[v], dist'[v])
    {
      assert v in dist;
    }
  }

  lemma {:induction false} QueueShrinks(dist: map<Id, nat>, queue: seq<(Id, int)>, dist': map<Id, nat>,
                                        queue': seq<(Id, int)>)
    requires Grown(dist, Queued(queue), dist', Queued(queue'))
    requires Distinct(Queued(queue)) && Distinct(Queued(queue'))
    ensures dist.Keys < dist'.Keys || (dist.Keys == dist'.Keys && |queue'| <= |queue|)
  {
    if dist'.Keys <= dist.Keys {
      SameLength(Queued(queue'), Queued(queue));
      DistinctFits(Queued(queue'), Elements(Queued(queue)));
      DistinctCardinality(Queued(queue));
    }
  }

  lemma {:induction false} ShortestIsAssigned(adj: Adjacency, roots: set<Id>, dist: map<Id, nat>, v: Id, k: nat)
    requires Frontier(adj, roots, dist, []) && ShortestDistance(adj, roots, v, k)
    ensures v in dist && dist[v] == k
  {
    assert AtDistance(adj, roots, v, k);
    FinishedDistances(adj, roots, dist, v);
  }

  lemma {:induction false} LevelsFinal(adj: Adjacency, roots: set<Id>, before: map<Id, OrgNode>, after: map<Id,
                                       OrgNode>, dist: map<Id, nat>)
    requires Frontier(adj, roots, dist, []) && RaisedSoFar(before, after, dist, [])
    ensures LevelsResolved(adj, roots, before, after)
  {
    forall v, k: nat | v in before && ShortestDistance(adj, roots, v, k)
      ensures after[v] == Raised(before[v], k)
    {
      ShortestIsAssigned(adj, roots, dist, v, k);
    }
    forall v | v in before && !FromRoots(adj, roots, v)
      ensures after[v] == before[v]
    {
      FinishedDistances(adj, roots, dist, v);
    }
  }
}
