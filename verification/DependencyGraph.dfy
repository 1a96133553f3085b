/** `generator/dependency.py`: the mutable task graph. */
module DependencyGraphs {
  import opened Collections
  import opened Digraph
  import opened TaskGraphs
  import opened TaskRemoval
  import opened SortCache
  import Kahn

  datatype RemoveError = MissingKey

  datatype SortError = CycleFound(nodes: seq<Id>) | NotAllReached(remaining: set<Id>)

  /** No simple path that continues prefix has more than max edges. */
  ghost predicate Bounded(adj: Adjacency, prefix: seq<Id>, max: int) {
    forall q :: SimplePath(adj, q) && prefix <= q ==> |q| - 1 <= max
  }

  /** p is the longest simple path among those that start at a task placed in some level; with
      no such task it is empty. */
  ghost predicate LongestFrom(adj: Adjacency, tasks: seq<Id>, levels: seq<seq<Id>>, p: seq<Id>) {
    && (p != [] ==> SimplePath(adj, p) && p[0] in tasks && p[0] in Flatten(levels))
    && AllBounded(adj, tasks, levels, |p| - 1)
  }

  ghost predicate AllBounded(adj: Adjacency, tasks: seq<Id>, levels: seq<seq<Id>>, max: int) {
    forall t :: t in tasks && t in Flatten(levels) ==> Bounded(adj, [t], max)
  }

  lemma {:induction false} AllBoundedNext(adj: Adjacency, tasks: seq<Id>, i: nat, levels: seq<seq<Id>>, m: int, n: int)
    requires i < |tasks| && m <= n && AllBounded(adj, tasks[..i], levels, m)
    requires tasks[i] in Flatten(levels) ==> Bounded(adj, [tasks[i]], n)
    ensures AllBounded(adj, tasks[..i + 1], levels, n)
  {
    forall t | t in tasks[..i + 1] && t in Flatten(levels)
      ensures Bounded(adj, [t], n)
    {
      if t in tasks[..i] {
        BoundedWeaken(adj, [t], m, n);
      }
    }
  }

  lemma {:induction false} RevisitNotSimple(prefix: seq<Id>, next: Id, q: seq<Id>)
    requires next in prefix && prefix + [next] <= q
    ensures !Distinct(q)
  {
    var k :| 0 <= k < |prefix| && prefix[k] == next;
    assert q[k] == (prefix + [next])[k] && q[|prefix|] == next;
  }

  lemma {:induction false} BoundedRevisit(adj: Adjacency, prefix: seq<Id>, next: Id, max: int)
    requires next in prefix
    ensures Bounded(adj, prefix + [next], max)
  {
    forall q | prefix + [next] <= q { RevisitNotSimple(prefix, next, q); }
  }

  lemma {:induction false} BoundedWeaken(adj: Adjacency, prefix: seq<Id>, m: int, n: int)
    requires Bounded(adj, prefix, m) && m <= n
    ensures Bounded(adj, prefix, n)
  {
  }

  /** The continuations of prefix by the given neighbours are bounded. */
  ghost predicate NeighboursBounded(adj: Adjacency, prefix: seq<Id>, neighbours: seq<Id>, max: int) {
    forall v {:trigger prefix + [v]} :: v in neighbours ==> Bounded(adj, prefix + [v], max)
  }

  lemma {:induction false} NeighboursBoundedNext(adj: Adjacency, prefix: seq<Id>, neighbours: seq<Id>, next: Id,
                                                 m: int, n: int)
    requires NeighboursBounded(adj, prefix, neighbours, m) && m <= n && Bounded(adj, prefix + [next], n)
    ensures NeighboursBounded(adj, prefix, neighbours + [next], n)
  {
    forall v {:trigger prefix + [v]} | v in neighbours + [next] ensures Bounded(adj, prefix + [v], n) {
      if v in neighbours {
        BoundedWeaken(adj, prefix + [v], m, n);
      }
    }
  }

  lemma {:induction false} BoundedFromNeighbours(adj: Adjacency, prefix: seq<Id>, max: int)
    requires prefix != [] && |prefix| - 1 <= max
    requires NeighboursBounded(adj, prefix, Succ(adj, prefix[|prefix| - 1]), max)
    ensures Bounded(adj, prefix, max)
  {
    forall q | SimplePath(adj, q) && prefix <= q
      ensures |q| - 1 <= max
    {
      if |q| > |prefix| {
        assert Edge(adj, q[|prefix| - 1], q[|prefix|]);
        assert prefix + [q[|prefix|]] <= q;
      }
    }
  }

  /** The longest path so far is kept or replaced by a longer simple path that continues prefix. */
  ghost predicate Improves(adj: Adjacency, prefix: seq<Id>, path: seq<Id>, max: int, path': seq<Id>, max': int) {
    && max' >= max
    && ((path' == path && max' == max) || (SimplePath(adj, path') && prefix <= path' && max' == |path'| - 1))
  }

  lemma {:induction false} ImprovesFurther(adj: Adjacency, prefix: seq<Id>, next: Id, p: seq<Id>, m: int,
                                           p': seq<Id>, m': int, p'': seq<Id>, m'': int)
    requires Improves(adj, prefix, p, m, p', m') && Improves(adj, prefix + [next], p', m', p'', m'')
    ensures Improves(adj, prefix, p, m, p'', m'')
  {
  }

  /** Nodes that a search from the given nodes can touch. */
  ghost function Universe(adj: Adjacency, from: seq<Id>): set<Id> {
    Elements(from) + set u, v | u in adj && v in adj[u] :: v
  }

  /** A back edge: the search found node on its stack's top and neighbour further down. */
  ghost predicate BackEdge(adj: Adjacency, nodes: seq<Id>) {
    |nodes| == 2 && Edge(adj, nodes[1], nodes[0]) && Reaches(adj, nodes[0], nodes[1])
  }

  lemma {:induction false} BackEdgeIsOnCycle(adj: Adjacency, nodes: seq<Id>)
    requires BackEdge(adj, nodes)
    ensures Cyclic(adj)
  {
    var p :| WalkBetween(adj, p, nodes[0], nodes[1]);
    WalkSnoc(adj, p, nodes[0]);
    assert Cycle(adj, p + [nodes[0]]);
  }

  /** Kahn's order is a topological order of the tasks exactly when dependencies are all present
      and acyclic; then the check for cycles passes and the length check passes too. */
  lemma {:induction false} SortSucceedsExactly(g: TaskGraph)
    requires Consistent(g)
    ensures !Cyclic(g.succ) && |Kahn.Order(g)| == |g.tasks.keys| <==> Closed(g) && !Cyclic(g.succ)
    ensures Closed(g) && !Cyclic(g.succ) <==> TopologicalOrderOf(g, Kahn.Order(g))
  {
    Kahn.OrderComplete(g);
    Kahn.OrderSound(g);
    Kahn.CompleteMeansAll(g);
  }

  lemma {:induction false} WalksAreSimple(adj: Adjacency, p: seq<Id>)
    requires !Cyclic(adj) && Walk(adj, p)
    ensures SimplePath(adj, p)
  {
    forall i, j | 0 <= i < j < |p|
      ensures p[i] != p[j]
    {
      WalkSlice(adj, p, i, j + 1);
      assert !Cycle(adj, p[i..j + 1]);
    }
  }

  /** On a closed acyclic graph the critical path is as long as there are levels, and no walk
      through the tasks is longer. */
  lemma {:induction false} CriticalPathIsLongest(g: TaskGraph, p: seq<Id>)
    requires Consistent(g) && Closed(g) && !Cyclic(g.succ)
    requires LongestFrom(g.succ, g.tasks.keys, Kahn.Levels(g), p)
    ensures |p| == |Kahn.Levels(g)|
    ensures forall q :: Walk(g.succ, q) && q[0] in g.tasks.keys ==> |q| <= |p|
  {
    var levels := Kahn.Levels(g);
    Kahn.LevelsAreLongestPaths(g);
    Kahn.OrderComplete(g);
    Kahn.CompleteMeansAll(g);
    forall q | Walk(g.succ, q) && q[0] in g.tasks.keys
      ensures |q| <= |p|
    {
      WalksAreSimple(g.succ, q);
      assert q[0] in Flatten(levels);
      assert [q[0]] <= q;
    }
    if p != [] {
      LevelOfWalkEnd(g, p);
    }
    if levels != [] {
      TopLevelWalk(g);
    }
  }

  /** A walk from a task has at most as many nodes as there are levels. */
  lemma {:induction false} LevelOfWalkEnd(g: TaskGraph, p: seq<Id>)
    requires Consistent(g) && Closed(g) && !Cyclic(g.succ)
    requires Walk(g.succ, p) && p[0] in g.tasks.keys
    ensures |p| <= |Kahn.Levels(g)|
  {
    var levels := Kahn.Levels(g);
    var v := p[|p| - 1];
    assert v in g.tasks.keys by {
      ConsistentEdges(g);
      if |p| >= 2 { LastEdge(g.succ, p); }
    }
    assert v in Kahn.Order(g) by {
      Kahn.OrderComplete(g);
      Kahn.CompleteMeansAll(g);
    }
    Kahn.LevelsAreLongestPaths(g);
    Kahn.FlattenMember(levels, v);
    var k :| 0 <= k < |levels| && v in levels[k];
    Kahn.LevelBoundsWalks(g.succ, levels, k, p);
  }

  /** Some walk from a task has as many nodes as there are levels. */
  lemma {:induction false} TopLevelWalk(g: TaskGraph)
    requires Consistent(g) && Closed(g) && !Cyclic(g.succ) && Kahn.Levels(g) != []
    ensures exists q :: Walk(g.succ, q) && q[0] in g.tasks.keys && |q| == |Kahn.Levels(g)|
  {
    var levels := Kahn.Levels(g);
    var k := |levels| - 1;
    Kahn.LevelsAreLongestPaths(g);
    Kahn.OrderSound(g);
    ConsistentEdges(g);
    var v := levels[k][0];
    Kahn.FlattenMember(levels, v);
    assert Kahn.AtLevel(g.succ, k, v);
    var q :| Kahn.WalkTo(g.succ, q, v) && |q| == k + 1;
    if |q| >= 2 {
      assert Edge(g.succ, q[0], q[1]);
      assert Edge(g.pred, q[1], q[0]);
    }
  }

  class DependencyGraph {
    var tasks: Dict<Id, GenerationTask>
    var adjacencyList: Adjacency
    var reverseAdjacencyList: Adjacency
    var inDegree: Dict<Id, int>
    var topologicalOrder: Option<seq<Id>>
    var cycleDetected: bool
    var cycleNodes: seq<Id>

    function Tables(): TaskGraph
      reads this
    {
      TaskGraph(tasks, adjacencyList, reverseAdjacencyList, inDegree)
    }

    ghost predicate Valid()
      reads this
    {
      Usable(Tables()) && (topologicalOrder.Some? ==> !cycleDetected)
    }

    /** What operations read and change; the other two fields report the last search. */
    function Snapshot(): CacheState
      reads this
    {
      CacheState(Tables(), topologicalOrder)
    }

    constructor ()
      ensures Valid() && Tables() == EMPTY_GRAPH && topologicalOrder == None
    {
      tasks, adjacencyList, reverseAdjacencyList, inDegree := EmptyDict(), map[], map[], EmptyDict();
      topologicalOrder, cycleDetected, cycleNodes := None, false, [];
    }

    method LinkDependency(id: Id, dep: Id)
      modifies this`adjacencyList, this`reverseAdjacencyList, this`inDegree
      ensures Tables() == AddEdge(old(Tables()), id, dep)
    {
      adjacencyList := Append(adjacencyList, dep, id);
      reverseAdjacencyList := Append(reverseAdjacencyList, id, dep);
      inDegree := inDegree.Put(id, Degree(inDegree.items, id) + 1);
    }

    method AddTask(task: GenerationTask)
      requires Valid()
      modifies this
      ensures Valid() && Tables() == Add(old(Tables()), task)
      ensures Snapshot() == StepOp(old(Snapshot()), AddOp(task))
      ensures topologicalOrder == old(topologicalOrder) && cycleDetected == old(cycleDetected)
      ensures cycleNodes == old(cycleNodes)
    {
      tasks := tasks.Put(task.id, task);
      inDegree := inDegree.Put(task.id, 0);
      ghost var start := Tables();
      var deps := task.dependencies;
      for i := 0 to |deps|
        invariant Tables() == AddEdges(start, task.id, deps[..i])
        invariant topologicalOrder == old(topologicalOrder) && cycleDetected == old(cycleDetected)
        invariant cycleNodes == old(cycleNodes)
      {
        AddEdgesNext(start, task.id, deps, i);
        LinkDependency(task.id, deps[i]);
      }
      TakeAll(deps);
      AddKeepsUsable(old(Tables()), task);
    }

    /** `remove_task`. Without both adjacency keys the deletion fails part way: the task is gone but
        its in-degree entry stays, and the cached order is not cleared. */
    method RemoveTask(id: Id) returns (r: Result<(), RemoveError>)
      requires Valid()
      modifies this
      ensures Valid() && Snapshot() == StepOp(old(Snapshot()), RemoveOp(id))
      ensures id !in old(tasks.items) ==>
          r == Ok(()) && Tables() == old(Tables()) && topologicalOrder == old(topologicalOrder)
      ensures id in old(tasks.items) ==> (r.Ok? <==> CanDelete(old(Tables()), id))
      ensures r.Err? <==>
        id in old(tasks.items) && !(id in old(adjacencyList) && id in old(reverseAdjacencyList))
      ensures id in old(tasks.items) && r.Ok? ==> Tables() == Removed(old(Tables()), id) && topologicalOrder == None
      ensures r.Err? ==> Tables() == HalfRemoved(old(Tables()), id) && topologicalOrder == old(topologicalOrder)
      ensures cycleDetected == old(cycleDetected) && cycleNodes == old(cycleNodes)
    {
      if id !in tasks.items {
        return Ok(());
      }
      UnlinkedKeys(Tables(), id);
      RemovalKeepsUsable(Tables(), id);
      ForgetDependents(id);
      ForgetDependencies(id);
      r := DeleteKeys(id);
    }

    /** The deletions, which raise at the first missing adjacency key. */
    method DeleteKeys(id: Id) returns (r: Result<(), RemoveError>)
      modifies this`tasks, this`adjacencyList, this`reverseAdjacencyList, this`inDegree, this`topologicalOrder
      ensures r.Ok? <==> id in old(adjacencyList) && id in old(reverseAdjacencyList)
      ensures var g := old(Tables());
        if r.Ok? then
          Tables() == TaskGraph(g.tasks.Delete(id), g.succ - {id}, g.pred - {id}, g.degree.Delete(id))
        else
          Tables() == g.(tasks := g.tasks.Delete(id), succ := g.succ - {id})
      ensures topologicalOrder == if r.Ok? then None else old(topologicalOrder)
    {
      tasks := tasks.Delete(id);
      if id !in adjacencyList {
        assert adjacencyList - {id} == adjacencyList;
        return Err(MissingKey);
      }
      adjacencyList := adjacencyList - {id};
      if id !in reverseAdjacencyList {
        return Err(MissingKey);
      }
      reverseAdjacencyList := reverseAdjacencyList - {id};
      inDegree := inDegree.Delete(id);
      topologicalOrder := None;
      return Ok(());
    }

    method ForgetDependents(id: Id)
      modifies this`reverseAdjacencyList, this`inDegree
      ensures Tables() == ForgetIn(old(Tables()), id, Succ(old(adjacencyList), id))
    {
      var dependents := Succ(adjacencyList, id);
      for i := 0 to |dependents|
        invariant Tables() == ForgetIn(old(Tables()), id, dependents[..i])
      {
        ForgetInNext(old(Tables()), id, dependents, i);
        ForgetDependent(id, dependents[i]);
      }
      TakeAll(dependents);
    }

    method ForgetDependent(id: Id, v: Id)
      modifies this`reverseAdjacencyList, this`inDegree
      ensures Tables() == ForgetOne(old(Tables()), id, v)
    {
      if id in Succ(reverseAdjacencyList, v) {
        reverseAdjacencyList := DropEdge(reverseAdjacencyList, v, id);
        inDegree := inDegree.Put(v, Degree(inDegree.items, v) - 1);
      }
    }

    method ForgetDependencies(id: Id)
      modifies this`adjacencyList
      ensures Tables() == ForgetOut(old(Tables()), id, Succ(old(reverseAdjacencyList), id))
    {
      var dependencies := Succ(reverseAdjacencyList, id);
      for i := 0 to |dependencies|
        invariant Tables() == ForgetOut(old(Tables()), id, dependencies[..i])
      {
        ForgetOutNext(old(Tables()), id, dependencies, i);
        adjacencyList := DropEdge(adjacencyList, dependencies[i], id);
      }
      TakeAll(dependencies);
    }

    /** The closure `dfs` of has_cycle. path is the recursion stack in order, done the nodes
        already taken off it. */
    method FindBackEdge(node: Id, visited: set<Id>, recursionStack: set<Id>,
                        ghost path: seq<Id>, ghost done: seq<Id>, ghost universe: set<Id>)
      returns (found: bool, visited': set<Id>, recursionStack': set<Id>, ghost done': seq<Id>)
      requires node in universe && node !in visited
      requires forall x, y :: x in universe && Edge(adjacencyList, x, y) ==> y in universe
      requires visited == Elements(done) + Elements(path) && recursionStack == Elements(path)
      requires visited <= universe
      requires Distinct(done) && FinishOrder(adjacencyList, done)
      requires forall x :: x in path ==> x !in done
      requires Walk(adjacencyList, path + [node])
      modifies this`cycleNodes
      ensures found ==> BackEdge(adjacencyList, cycleNodes)
      ensures !found ==>
                && cycleNodes == old(cycleNodes)
                && done <= done' && node in done'
                && Distinct(done') && FinishOrder(adjacencyList, done')
                && (forall x :: x in path ==> x !in done')
                && visited' == Elements(done') + Elements(path) && visited' <= universe
                && recursionStack' == Elements(path)
      decreases universe - visited
    {
      visited', recursionStack', done' := visited + {node}, recursionStack + {node}, done;
      ghost var path' := path + [node];
      var neighbours := Succ(adjacencyList, node);
      for i := 0 to |neighbours|
        invariant cycleNodes == old(cycleNodes)
        invariant done <= done'
        invariant Distinct(done') && FinishOrder(adjacencyList, done')
        invariant forall x :: x in path' ==> x !in done'
        invariant visited' == Elements(done') + Elements(path') && visited' <= universe
        invariant recursionStack' == Elements(path')
        invariant forall j :: 0 <= j < i ==> neighbours[j] in done'
      {
        var neighbour := neighbours[i];
        assert Edge(adjacencyList, node, neighbour);
        if neighbour !in visited' {
          WalkSnoc(adjacencyList, path', neighbour);
          found, visited', recursionStack', done' :=
            FindBackEdge(neighbour, visited', recursionStack', path', done', universe);
          if found {
            return;
          }
        } else if neighbour in recursionStack' {
          cycleNodes := [neighbour, node];
          found := true;
          ghost var k :| 0 <= k < |path'| && path'[k] == neighbour;
          WalkSlice(adjacencyList, path', k, |path'|);
          assert WalkBetween(adjacencyList, path'[k..], neighbour, node);
          return;
        }
      }
      recursionStack' := recursionStack' - {node};
      FinishOrderSnoc(adjacencyList, done', node);
      DistinctSnoc(done', node);
      done' := done' + [node];
      found := false;
    }

    /** A depth-first search from every task: it finds a cycle exactly when there is one, unless
        a sort has been cached, when the stored answer is returned. */
    method HasCycle() returns (result: bool)
      requires Valid()
      modifies this`cycleDetected, this`cycleNodes
      ensures Valid() && result == Answer(old(Snapshot())) && Snapshot() == old(Snapshot())
      ensures old(topologicalOrder).Some? ==>
                result == cycleDetected == old(cycleDetected) && cycleNodes == old(cycleNodes)
      ensures old(topologicalOrder).None? ==>
                && cycleDetected == result == Cyclic(adjacencyList)
                && (if result then BackEdge(adjacencyList, cycleNodes) else cycleNodes == [])
    {
      if topologicalOrder.Some? {
        return cycleDetected;
      }
      var visited: set<Id>, recursionStack: set<Id> := {}, {};
      ghost var done: seq<Id> := [];
      ghost var universe := Universe(adjacencyList, tasks.keys);
      cycleDetected, cycleNodes := false, [];
      for i := 0 to |tasks.keys|
        invariant cycleDetected == false && cycleNodes == []
        invariant visited == Elements(done) && visited <= universe && recursionStack == {}
        invariant Distinct(done) && FinishOrder(adjacencyList, done)
        invariant forall j :: 0 <= j < i ==> tasks.keys[j] in done
      {
        if tasks.keys[i] !in visited {
          var found;
          assert [] + [tasks.keys[i]] == [tasks.keys[i]];
          found, visited, recursionStack, done :=
            FindBackEdge(tasks.keys[i], visited, recursionStack, [], done, universe);
          if found {
            cycleDetected := true;
            BackEdgeIsOnCycle(adjacencyList, cycleNodes);
            return true;
          }
        }
      }
      if Cyclic(adjacencyList) {
        var p :| Cycle(adjacencyList, p);
        LastEdge(adjacencyList, p);
        FinishedNotOnCycle(adjacencyList, done, p);
      }
      return cycleDetected;
    }

    method TopologicalSort() returns (r: Result<seq<Id>, SortError>)
      requires Valid()
      modifies this`topologicalOrder, this`cycleDetected, this`cycleNodes
      ensures Valid() && Snapshot() == StepOp(old(Snapshot()), SortOp)
      ensures old(topologicalOrder).Some? ==>
                r == Ok(old(topologicalOrder).value) && topologicalOrder == old(topologicalOrder)
      ensures old(topologicalOrder).None? ==>
                if Cyclic(adjacencyList) then
                  r == Err(CycleFound(cycleNodes)) && BackEdge(adjacencyList, cycleNodes) && topologicalOrder == None
                else if |Kahn.Order(Tables())| != |tasks.keys| then
                  r == Err(NotAllReached(Elements(tasks.keys) - Elements(Kahn.Order(Tables())))) &&
                      topologicalOrder == None
                else
                  r == Ok(Kahn.Order(Tables())) && topologicalOrder == Some(r.value) && !cycleDetected
    {
      if topologicalOrder.Some? {
        return Ok(topologicalOrder.value);
      }
      var cyclic := HasCycle();
      if cyclic {
        return Err(CycleFound(cycleNodes));
      }
      var degree := inDegree.items;
      var queue := Kahn.Ready(inDegree);
      var result := Kahn.Drain(adjacencyList, degree, queue);
      if |result| != |tasks.keys| {
        return Err(NotAllReached(Elements(tasks.keys) - Elements(result)));
      }
      topologicalOrder := Some(result);
      return Ok(result);
    }

    /** Layers of tasks: each pass takes everything that is ready. */
    method GetLevelizedTasks() returns (levels: seq<seq<Id>>)
      ensures levels == if tasks.keys == [] then [] else Kahn.Levels(Tables())
    {
      if tasks.keys == [] {
        return [];
      }
      var degree := inDegree.items;
      var queue := Kahn.Ready(inDegree);
      ghost var order: seq<Id> := [];
      levels := [];
      assert Kahn.State(degree, queue, order) == Kahn.Initial(Tables());
      while queue != []
        invariant levels + Kahn.Layers(adjacencyList, Kahn.State(degree, queue, order)) == Kahn.Levels(Tables())
        decreases Kahn.Work(Kahn.State(degree, queue, order))
      {
        var levelSize := |queue|;
        var currentLevel: seq<Id> := [];
        ghost var start := Kahn.State(degree, queue, order);
        for k := 0 to levelSize
          invariant Kahn.State(degree, queue, order) == Kahn.StepN(adjacencyList, start, k)
          invariant currentLevel == start.queue[..k]
        {
          Kahn.StepNEffect(adjacencyList, start, k);
          PrefixTail(start.queue[k..], queue);
          var current := queue[0];
          queue, order := queue[1..], order + [current];
          currentLevel := currentLevel + [current];
          degree, queue := Kahn.RelaxNeighbours(degree, queue, Succ(adjacencyList, current));
        }
        Kahn.StepNEffect(adjacencyList, start, levelSize);
        ConcatAssociative(levels, [start.queue], Kahn.Layers(adjacencyList, Kahn.State(degree, queue, order)));
        assert currentLevel == start.queue;
        levels := levels + [currentLevel];
      }
    }

    /** The closure `dfs` of calculate_critical_path: try every simple continuation of the current
        path, remember the longest path met, and leave current path and visited as they were. */
    method SearchLongest(node: Id, currentPath: seq<Id>, visited: set<Id>, longestPath: seq<Id>,
                         maxLength: int, ghost universe: set<Id>)
      returns (currentPath': seq<Id>, visited': set<Id>, longestPath': seq<Id>, maxLength': int)
      requires node in universe && node !in visited
      requires forall x, y :: x in universe && Edge(adjacencyList, x, y) ==> y in universe
      requires visited == Elements(currentPath) && visited <= universe
      requires SimplePath(adjacencyList, currentPath + [node])
      ensures currentPath' == currentPath && visited' == visited
      ensures Improves(adjacencyList, currentPath + [node], longestPath, maxLength, longestPath', maxLength')
      ensures Bounded(adjacencyList, currentPath + [node], maxLength')
      decreases universe - visited
    {
      longestPath', maxLength' := longestPath, maxLength;
      currentPath' := currentPath + [node];
      visited' := visited + {node};
      ghost var here := currentPath';
      var longestFromNode := |currentPath'| - 1;
      if longestFromNode > maxLength' {
        maxLength', longestPath' := longestFromNode, currentPath';
      }
      var neighbours := Succ(adjacencyList, node);
      for i := 0 to |neighbours|
        invariant currentPath' == here && visited' == visited + {node}
        invariant maxLength' >= |here| - 1
        invariant Improves(adjacencyList, here, longestPath, maxLength, longestPath', maxLength')
        invariant NeighboursBounded(adjacencyList, here, neighbours[..i], maxLength')
      {
        var neighbour := neighbours[i];
        ghost var path, max := longestPath', maxLength';
        assert Edge(adjacencyList, node, neighbour);
        TakeNext(neighbours, i);
        if neighbour !in visited' {
          WalkSnoc(adjacencyList, here, neighbour);
          DistinctSnoc(here, neighbour);
          currentPath', visited', longestPath', maxLength' :=
            SearchLongest(neighbour, currentPath', visited', longestPath', maxLength', universe);
          ImprovesFurther(adjacencyList, here, neighbour, longestPath, maxLength, path, max, longestPath', maxLength');
        } else {
          BoundedRevisit(adjacencyList, here, neighbour, maxLength');
        }
        NeighboursBoundedNext(adjacencyList, here, neighbours[..i], neighbour, max, maxLength');
      }
      TakeAll(neighbours);
      BoundedFromNeighbours(adjacencyList, here, maxLength');
      currentPath' := currentPath'[..|currentPath'| - 1];
      visited' := visited' - {node};
    }

    /** The longest simple path among those starting at a task that has a level. */
    method CalculateCriticalPath() returns (longestPath: seq<Id>)
      requires Valid()
      ensures LongestFrom(adjacencyList, tasks.keys, Kahn.Levels(Tables()), longestPath)
    {
      if tasks.keys == [] {
        return [];
      }
      longestPath := [];
      var maxLength := -1;
      ghost var universe := Universe(adjacencyList, tasks.keys);
      ghost var levels := Kahn.Levels(Tables());
      for i := 0 to |tasks.keys|
        invariant maxLength == |longestPath| - 1
        invariant longestPath != [] ==>
                    && SimplePath(adjacencyList, longestPath)
                    && longestPath[0] in tasks.keys && longestPath[0] in Flatten(levels)
        invariant AllBounded(adjacencyList, tasks.keys[..i], levels, maxLength)
      {
        var taskId := tasks.keys[i];
        var levelized := GetLevelizedTasks();
        ghost var max := maxLength;
        if taskId in Flatten(levelized) {
          var path, visited;
          assert [] + [taskId] == [taskId];
          path, visited, longestPath, maxLength :=
            SearchLongest(taskId, [], {}, longestPath, maxLength, universe);
        }
        AllBoundedNext(adjacencyList, tasks.keys, i, levels, max, maxLength);
      }
      TakeAll(tasks.keys);
    }
  }

  /** A sorted graph answers no after a task that depends on itself was added. */
  method CachedSortHidesCycle(a: Id, taskType: Id) returns (graph: DependencyGraph, answer: bool)
    ensures fresh(graph) && graph.Valid() && !answer && Cyclic(graph.adjacencyList)
  {
    graph := new DependencyGraph();
    EmptySorts();
    var sorted := graph.TopologicalSort();
    var loop := GenerationTask(a, [a], taskType);
    graph.AddTask(loop);
    ReachesSelf(EMPTY_GRAPH.succ, a);
    ReachedClosesCycle(EMPTY_GRAPH, loop);
    answer := graph.HasCycle();
  }
}
