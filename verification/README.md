# A verified model of the AI company generator's core

This project models the parts of the `ai_company` package whose behaviour is hard to see from one
function at a time, and proves what they promise:

- **Task graphs** (`TaskGraphs`, `TaskRemoval`, `Kahn`, `SortCache`, `DependencyGraphs`, `Resolver`,
  `Planner`, over `Digraph`): one mutable set of tables, depth-first cycle detection, Kahn's sort and
  its cache, the layered sort, the exhaustive longest-path search, task removal, the resolver and the
  generation plan. The theorems relate the algorithms: the search for cycles and the sort agree, the
  layers read one after the other are the sort, a task's layer is its longest incoming path, and the
  critical path is as long as there are layers; and they say over every run when a cached sort still
  tells the truth.
- **Organisation graph** (`OrgGraphs`, `CycleSearch`, `CycleListing`, `Hierarchy`, `Reporting`): an edge
  list with two derived indexes, subgraphs, cycle reconstruction, breadth-first levels, span of control, reporting
  chains.
- **Persona slugs and file synchronisation** (`SlugMap`, `AgentSync`).
- **Event bus** (`EventModel`, `Routing`, `Dispatching`, `DeadLetters`, `Persistence`, `Replaying`,
  `EventBuses`): publishing as steps over routes, processed ids, dead letters, a bounded history and a
  rotating store, with theorems over whole runs of publishes.
- **Indexes, caches and rollback** (`Knowledge`, `FileWriting`, `Rendering`): derived state that agrees
  with a simple specification after any run.
- **CLI surface comparison** (`CliSurface`) and **TF-IDF similarity** (`Embeddings`, over the reals).
- `Collections` and `Sorting` hold what the modules share: Python's insertion-ordered dict, slices,
  counting, and the stable sort.

Objects whose methods update their fields are classes here, and every method is proved against a
function of the old state; the theorems are then about those functions, and about runs of them. Loops
of the source are loops. What the code cannot decide for itself (handlers that raise, callbacks that
cancel, clocks, writes that fail, rotation stamps) is a parameter, so every theorem holds for all of it.

## Where the code and its documentation differ

The model follows the code.

- `detect_cycles` (company/models.py) reports one cycle for each back edge of its search
  (`CycleListing.StacksExplainLists`), not every elementary cycle (`CycleSearch.ShorterCycleMissed`).
  It lists all of them, whatever the order in which the nodes were added, exactly when no edge lies on
  two different ones (`CycleListing.ListsAllExactly`). It is empty exactly when the graph is acyclic.
- A reporting chain need not end at level 0, as its docstring says (`Reporting.ChainBelowTop`): it ends
  where nobody is above. On an acyclic graph all chains end at level 0 exactly when every node without
  a manager is there (`Reporting.ReportingStructure.ChainsEndAtTopExactly`).
- `cycle_nodes` of a task graph holds the two ends of a back edge, not a whole cycle.
- `add_task` leaves a cached sort in place, so `has_cycle` can answer no on a cyclic graph
  (`DependencyGraphs.CachedSortHidesCycle`): exactly when an order is cached and a cycle was closed
  since (`SortCache.WrongAnswerExactly`, `SortCache.CycleAfterSort`). The cached order itself stays
  right exactly when every task added since stands in it behind its dependencies
  (`SortCache.OrderAfterSort`).
- Re-adding an id resets its in-degree but keeps its old edges: `TaskGraphs.AddKeepsConsistent` says
  exactly when the tables still agree.
- `remove_task` fails part way unless both adjacency keys exist (`TaskRemoval.HalfRemovedInconsistent`),
  as for a task on its own (`TaskRemoval.LoneTaskNotRemoved`); it then keeps the cached sort too.
- `resolve_order` adds a task twice that is asked for twice or held by two graphs, and can then put it
  before a dependency: `Resolver.RepeatedIdMisorders`. `Resolver.IncludedDistinct` says exactly when
  every task is added once, and `Resolver.ResolvesExactly` what is returned then.
- `collisions` (agents/slug_map.py) can be empty although two personas share a slug:
  `SlugMap.SharedNameSharesSlug` gives the list, `SlugMap.AgentSlugIndex.DistinctExactly` says when.
- A second synchronisation run changes files again when it is forced and two personas want different
  texts at one path, and only then: `AgentSync.SecondRunChanges`.
- The dispatcher never retries. Exactly-once is kept per event id, so only one subscriber of an event
  gets it, and other delivery modes do not mark the id (`EventBuses.MixedModesDeliverTwice`):
  `EventBuses.DeliveryCount` gives the number of deliveries of an id in any run.
- Two rotations in one second overwrite an archive: a run of writes keeps everything exactly when no
  rotation falls on an archive with lines (`Persistence.RunKeepsEverything`); three records lose one in
  `Persistence.StampClashLoses`.
- An inactive subscriber counts as delivered, and a skipped delivery is entered as "failed" in the history.
- A publish whose record cannot be stored raises after the deliveries were made
  (`EventBuses.RaisesAfterDelivery`).
- `requeue_dead_letter` takes its records off the queue before it publishes them. When a publish raises,
  the records behind it are gone: `EventBuses.RequeueAccounts`; `EventBuses.RequeueRaisesExactly` says
  when.
- `update` of the knowledge base checks no confidence, but loading does and stops at the first entry out
  of range: `Knowledge.ConfidenceLosesEntries`. Reopening keeps all entries exactly when every
  confidence is in range (`Knowledge.ReopenChangesNothing`), which holds throughout a run exactly when
  no update gives a live entry one that is not (`Knowledge.AlwaysReopens`).
- A cancelled replay ends as "completed", and a flag left on a finished session stops its next run.
- `load_events` returns one event for a limit below one, and reads the live file only, not archives.
- With checksums off, a rollback still stores one, which goes stale (`FileWriting.StaleChecksumSkips`):
  after any run exactly the files stored since their latest rollback have a wrong one
  (`FileWriting.ChecksumsMatchExactly`).
- A violation inside d nested groups of the CLI surface is reported 2^d times, because both loops descend
  into shared commands.
- A cached rendering also answers for an empty template that validation would refuse
  (`Rendering.CachedEmptyTemplate`).
- Clearing the cache of one template drops entries of others: `Rendering.ClearedExactly` says which.

## Model

| member | source | states |
|---|---|---|
| TaskGraphs.AddKeepsConsistent | src/ai_company/generator/dependency.py:34-45 | adding a task keeps adjacency, reverse adjacency and in-degrees in agreement exactly when its id is new or had no dependencies recorded |
| TaskGraphs.BuildConsistent | src/ai_company/generator/dependency.py:34-45 | tasks with distinct ids give tables that agree, in the order added, with each task's declared dependencies |
| TaskGraphs.ConsistentEdges | src/ai_company/generator/dependency.py:41-45 | on agreeing tables an edge is in one adjacency list exactly when it is in the other, and dependents are tasks |
| DependencyGraphs.DependencyGraph.AddTask | src/ai_company/generator/dependency.py:34-45 | the tables after adding a task; cached order and cycle flag stay; a step of the runs |
| TaskGraphs.AddKeepsUsable | src/ai_company/generator/dependency.py:34-45 | adding to any graph keeps tasks under their ids, dependents among the tasks and every listed dependent mirrored |
| SortCache.AddKeepsOrder | src/ai_company/generator/dependency.py:34-45 | a cached topological order survives an addition exactly when the task is in it behind all its dependencies; so it was in the graph before |
| SortCache.AddClosesCycle | src/ai_company/generator/dependency.py:41-45 | adding a task to an acyclic graph makes it cyclic exactly when the task reaches one of its dependencies already |
| SortCache.AlwaysUsable | src/ai_company/generator/dependency.py:34-70 | after any run of additions, removals, failing removals and sorts the tables are what the searches need |
| SortCache.CacheStands | src/ai_company/generator/dependency.py:34-149 | in every run an order is cached exactly when some sort succeeded and no removal has succeeded since |
| SortCache.CachedOrder | src/ai_company/generator/dependency.py:120-149 | the cached order is that of the graph as it was at that sort |
| SortCache.WrongAnswerExactly | src/ai_company/generator/dependency.py:72-75 | in every run the answer of has_cycle is wrong exactly when an order is cached and the graph has a cycle, and then it is no |
| SortCache.CycleAfterSort | src/ai_company/generator/dependency.py:34-109 | after a sort, until a removal finds its task, the answer comes to be wrong exactly when some added task reaches one of its dependencies |
| SortCache.OrderAfterSort | src/ai_company/generator/dependency.py:34-121 | as long, the cached order is topological exactly when every added task stands in it behind its dependencies |
| DependencyGraphs.CachedSortHidesCycle | src/ai_company/generator/dependency.py:72-75 | sorting the empty graph and adding a task that depends on itself makes has_cycle answer no on a cyclic graph |
| TaskRemoval.UnlinkedEdges | src/ai_company/generator/dependency.py:52-61 | the two loops take out every edge at the task, with multiplicity, and no other, and lower in-degrees by as much |
| TaskRemoval.RemovalConsistent | src/ai_company/generator/dependency.py:47-70 | a removal that succeeds leaves agreeing tables of the remaining tasks and exactly the edges not at the task |
| TaskRemoval.HalfRemovedInconsistent | src/ai_company/generator/dependency.py:63-67 | a removal that fails at a missing adjacency key leaves an in-degree for a task that is gone |
| TaskRemoval.LoneTaskNotRemoved | src/ai_company/generator/dependency.py:47-70 | removing a task added without dependencies to an empty graph fails with the task gone and its in-degree left |
| TaskRemoval.RemovalKeepsUsable | src/ai_company/generator/dependency.py:47-70 | on any graph that runs reach a removal, also a failing one, leaves no edge at the task, all other edges, and tables that the searches need |
| DependencyGraphs.DependencyGraph.RemoveTask | src/ai_company/generator/dependency.py:47-70 | succeeds exactly when the id is unknown or both adjacency keys exist; the state in each case, and when the cached order is dropped; the graph stays usable either way |
| DependencyGraphs.DependencyGraph.FindBackEdge | src/ai_company/generator/dependency.py:82-97 | the recursive search finds a back edge, or finishes the node with everything it reaches before it |
| DependencyGraphs.DependencyGraph.HasCycle | src/ai_company/generator/dependency.py:72-109 | without a cached order, true exactly when the edges contain a directed cycle, with a real back edge as evidence; with one, always no |
| Kahn.RelaxNeighbours | src/ai_company/generator/dependency.py:138-141 | the inner loop of the three sorts: each neighbour loses one from its in-degree and is queued as it reaches zero |
| Kahn.RelaxInOrder | src/ai_company/generator/dependency.py:138-141 | what is queued comes behind the queue, in the order of the neighbours |
| Kahn.ReadyInOrder | src/ai_company/generator/dependency.py:129-133 | the tasks queued first are exactly those of in-degree zero, in the order of their keys |
| Kahn.OrderSound | src/ai_company/generator/dependency.py:129-146 | the sort lists tasks once each, every dependency first, and lists a task exactly when all its dependencies are listed |
| Kahn.OrderComplete | src/ai_company/generator/dependency.py:129-147 | all tasks are listed exactly when no dependency is missing and there is no cycle |
| DependencyGraphs.SortSucceedsExactly | src/ai_company/generator/dependency.py:111-149 | depth-first search and length check both pass exactly when the graph is closed and acyclic, and then the result is a topological order of all tasks |
| DependencyGraphs.DependencyGraph.TopologicalSort | src/ai_company/generator/dependency.py:111-149 | returns and caches that order, or raises for a cycle or for tasks never reached, naming them; returns a cached order unchecked |
| Kahn.LayersFlatten | src/ai_company/generator/dependency.py:159-197 | the layers read one after the other are the order of the plain loop |
| Kahn.LevelsAreLongestPaths | src/ai_company/generator/dependency.py:159-197 | the layers list the sorted tasks in the same order, and a task's layer is the length of the longest path into it |
| DependencyGraphs.DependencyGraph.GetLevelizedTasks | src/ai_company/generator/dependency.py:159-197 | the layered loop computes those layers |
| DependencyGraphs.DependencyGraph.SearchLongest | src/ai_company/generator/dependency.py:212-231 | the backtracking search leaves path and visited set as they were and ends with a longest simple continuation |
| DependencyGraphs.DependencyGraph.CalculateCriticalPath | src/ai_company/generator/dependency.py:199-241 | a simple path from a layered task that no such path exceeds |
| DependencyGraphs.CriticalPathIsLongest | src/ai_company/generator/dependency.py:199-241 | on a closed acyclic graph it has as many tasks as there are layers, and no walk from a task is longer |
| Resolver.DependencyResolver.BuildCombinedGraph | src/ai_company/generator/dependency.py:504-515 | the combined graph is built from the first task found for each id, in order |
| Resolver.DependencyResolver.ResolveOrder | src/ai_company/generator/dependency.py:349-393 | on an unambiguous request every included task once and after all its dependencies whenever such an order exists, and otherwise an error in strict mode or the included ids; on any request, the sort of the combined graph and the kind of error |
| Resolver.IncludedExactly | src/ai_company/generator/dependency.py:517-550 | of the ids asked for those are included that some graph holds; without any, all whose task in the first graph holding it is of the type asked for, if one is |
| Resolver.IncludedInOrder | src/ai_company/generator/dependency.py:517-542 | included ids keep the order of the request, or of the graphs and their tasks |
| Resolver.AllIdsInOrder | src/ai_company/generator/dependency.py:537-542 | the ids of all tasks come graph by graph, each in the order of its tasks |
| Resolver.ResolvesExactly | src/ai_company/generator/dependency.py:349-393 | for distinct included ids the sort succeeds exactly when an order with dependencies first exists, which is when all dependencies are included and there is no cycle; its result is one |
| Resolver.IncludedDistinct | src/ai_company/generator/dependency.py:517-542 | the included ids are distinct exactly when no known id is asked for twice or, when all are resolved, no selected id is held by two graphs; and each is found |
| Resolver.RepeatedIdMisorders | src/ai_company/generator/dependency.py:504-515 | asked for a, t, t, b where t depends on a and b, and b on a, the result is a, t, b although a, b, t is an order |
| Planner.GenerationPlan.AddTask | src/ai_company/generator/planner.py:77-98 | the task is stored under its id; the stored order stays |
| Planner.GenerationPlan.CountPresentDependencies | src/ai_company/generator/planner.py:119-127 | adjacency and in-degrees over present tasks are those of the graph without the missing dependencies |
| Planner.GenerationPlan.GenerateExecutionOrder | src/ai_company/generator/planner.py:110-150 | fails exactly when the present tasks have a cycle, and otherwise returns and stores the order |
| Planner.PlanOrderMeaning | src/ai_company/generator/planner.py:110-150 | that order has every task once and after all its present dependencies; missing ones are ignored |
| Planner.ThreeOrdersAgree | src/ai_company/generator/planner.py:110-150 | without missing dependencies the plan's order, the graph's sort and its flattened layers are the same sequence |
| Planner.PresentEdges | src/ai_company/generator/planner.py:119-127 | the plan's edges are those of the dependency graph that start at a present task |
| OrgGraphs.OrgGraph.AddNode | src/ai_company/company/models.py:88-90 | stores the node; edges and indexes are untouched |
| OrgGraphs.OrgGraph.AddEdge | src/ai_company/company/models.py:92-96 | appends the edge and keeps both indexes equal to what the edge list implies |
| OrgGraphs.IndexesMatchEdges | src/ai_company/company/models.py:92-96 | each index lists an edge as often as the edge list does, and so exactly its edges |
| OrgGraphs.OrgGraph.RoundTrip | src/ai_company/company/models.py:231-245 | serialising and loading gives the same nodes in order, the same edges and the same indexes |
| OrgGraphs.OrgGraph.Subgraph | src/ai_company/company/models.py:141-157 | terminates with exactly the nodes reachable along edges and every edge leaving one of them as often as it is listed |
| OrgGraphs.OrgGraph.SearchCycles | src/ai_company/company/models.py:172-190 | the recursive search is the specified one; it lists only real cycles, and finishes its node in order when it lists none |
| OrgGraphs.OrgGraph.TraceBack | src/ai_company/company/models.py:181-189 | following parent pointers and reversing gives the stretch of the search path that the back edge closes |
| OrgGraphs.OrgGraph.DetectCycles | src/ai_company/company/models.py:161-197 | empty exactly when the graph over existing nodes is acyclic; every list starts and ends at one node and follows edges; the lists are those of the specified search |
| CycleSearch.OneListPerBackEdge | src/ai_company/company/models.py:172-195 | the lists that end with one edge are none, or as many as the graph has such edges |
| CycleListing.StacksExplainLists | src/ai_company/company/models.py:172-197 | every node has a stack, a simple path that ends at it: exactly its edges back to that stack close lists, each as often as it is listed, and each list is the stretch of the stack that its edge closes |
| CycleListing.ListsAreElementary | src/ai_company/company/models.py:179-190 | every list is a cycle that passes no node twice; one that meets the first node of the search starts there |
| CycleListing.CycleHasClosingEdge | src/ai_company/company/models.py:161-197 | every cycle among the nodes has an edge that closes a list |
| CycleListing.SeparateCyclesListed | src/ai_company/company/models.py:161-197 | if no edge lies on two different elementary cycles, every elementary cycle is listed |
| CycleListing.ListsAllExactly | src/ai_company/company/models.py:161-197 | every elementary cycle is listed for every order of the nodes if and only if no edge lies on two different ones |
| CycleListing.SameCycleRotates | src/ai_company/company/models.py:181-190 | elementary cycles that count as the same, having the same edges, are rotations of each other |
| CycleSearch.ShorterCycleMissed | src/ai_company/company/models.py:161-197 | with edges a to b, a to c, b to c, c to a only a, b, c, a is listed, although a, c, a is a cycle |
| Hierarchy.HierarchyBuilder.AddNode | src/ai_company/company/hierarchy.py:85-108 | adding a node keeps the level table equal to the nodes' levels |
| Hierarchy.HierarchyBuilder.ResolveLevels | src/ai_company/company/hierarchy.py:296-342 | a node at shortest child-edge distance k from the roots gets level k if its own is smaller and keeps its level otherwise; every other field and node is unchanged and the level table agrees |
| Hierarchy.LevelsOnlyRise | src/ai_company/company/hierarchy.py:296-342 | resolving levels changes nothing but levels and lowers none; a node reached from the roots ends at its shortest distance or deeper, and a level that changed is that distance |
| Hierarchy.RootsExactly | src/ai_company/company/hierarchy.py:296-342 | the search starts from exactly the nodes that nobody is above, or that are told to be at the top |
| Hierarchy.FinishedDistances | src/ai_company/company/hierarchy.py:319-342 | when the queue is empty a node has a distance exactly when it is reached from the roots, and it is the shortest |
| Reporting.ReportingStructure.GetTotalSpanOfControl | src/ai_company/company/reporting.py:68-80 | the number of existing nodes reached by one or more child steps |
| Reporting.ReportingStructure.CountBelow | src/ai_company/company/reporting.py:72-78 | the shared visited set makes the recursive count complete without counting twice |
| Reporting.ReportingStructure.GetReportingChain | src/ai_company/company/reporting.py:102-136 | a walk upwards along preferred managers, without repetitions after its start, that stops only where there is no manager or the next one was met; on an acyclic graph it ends at a node without managers |
| Reporting.ReportingStructure.FollowsExactly | src/ai_company/company/reporting.py:112-129 | a chain moves to the first manager that a reports_to edge leads to, to the first of all only if there is no such edge, and ends exactly where there is no manager |
| Reporting.ReportingStructure.ChainsEndAtTopExactly | src/ai_company/company/reporting.py:102-136 | on an acyclic graph all chains that go on nowhere end at level 0 exactly when every node without a manager has level 0 |
| Reporting.ChainBelowTop | src/ai_company/company/reporting.py:102-136 | the chain of a lone node below level 0 is that node |
| Reporting.ReportingStructure.RepeatMeansCycle | src/ai_company/company/reporting.py:112-136 | a chain that already holds its next manager closes a cycle |
| SlugMap.SlugifyLoop | src/ai_company/agents/slug_map.py:50-60 | the loop keeps alphanumeric characters and one hyphen for each run of others |
| SlugMap.SlugifyShape | src/ai_company/agents/slug_map.py:43-61 | a slug is empty or alphanumeric runs separated by single hyphens |
| SlugMap.SlugifyLetters | src/ai_company/agents/slug_map.py:43-61 | slugify keeps just the alphanumeric characters of the stripped, lower-cased text, in order |
| SlugMap.SlugifySlug | src/ai_company/agents/slug_map.py:43-61 | slugify leaves a lower-case slug as it is |
| SlugMap.FirstFree | src/ai_company/agents/slug_map.py:136-140 | the suffix search ends at the first candidate not taken, whatever is taken |
| SlugMap.AgentSlugIndex.ResolvedSlugs | src/ai_company/agents/slug_map.py:113-147 | the slugs of the items in order, by the assignment rule |
| SlugMap.AgentSlugIndex.BaseSlugExactly | src/ai_company/agents/slug_map.py:103-111 | an executive title has its fixed slug; other slugs are made of the title, else the role, else the name |
| SlugMap.AgentSlugIndex.SlugsExactly | src/ai_company/agents/slug_map.py:113-143 | an item gets its base slug if that is empty or reserved or no earlier item of another name has it; otherwise base and name slug, with the first number from 2 on that no earlier item has if that is given, too |
| SlugMap.DecimalParses | src/ai_company/agents/slug_map.py:136-140 | the digits behind a suffix stand for its number, without a leading zero |
| SlugMap.AgentSlugIndex.Collisions | src/ai_company/agents/slug_map.py:149-180 | one message for each empty or reserved slug in order, and each repeated claim of one name on one base slug with its count |
| SlugMap.AgentSlugIndex.ComplaintsExactly | src/ai_company/agents/slug_map.py:149-180 | there is a message exactly for each item whose slug is empty or reserved, naming it |
| SlugMap.AgentSlugIndex.CollisionsExact | src/ai_company/agents/slug_map.py:149-180 | the report is empty exactly when all slugs are non-empty and unreserved and no name claims one base slug twice |
| SlugMap.AgentSlugIndex.DistinctExactly | src/ai_company/agents/slug_map.py:113-143 | with an empty report the slugs are pairwise distinct exactly when no item takes the branch of a name that owns its base slug already |
| SlugMap.AgentSlugIndex.UsableSlugsDiffer | src/ai_company/agents/slug_map.py:113-143 | with pairwise distinct names two items share a slug only if it is empty or reserved |
| SlugMap.AgentSlugIndex.SlugsAreUnique | src/ai_company/agents/slug_map.py:113-180 | distinct names and an empty report make the slugs pairwise distinct, non-empty and never reserved |
| SlugMap.SharedNameSharesSlug | src/ai_company/agents/slug_map.py:132-135 | three items, two of one name, get "t", "t-n", "t-n" with nothing to report |
| AgentSync.AgentSyncEngine.Plan | src/ai_company/agents/sync.py:328-352 | fails exactly for departments, slug collisions or a planned file that is not UTF-8; otherwise one action for each persona and directory |
| AgentSync.PlannedExactly | src/ai_company/agents/sync.py:314-326 | create exactly for an absent file, skip exactly for one that holds just the wanted text, update exactly for another text under force, conflict exactly for another text without force or a file that cannot be read |
| AgentSync.AgentSyncEngine.TargetsExactly | src/ai_company/agents/sync.py:72-80 | the files called for are each persona's own rendering under its slug, in the output directory if one is given, else in the project's, the global one or both, as the scope says |
| AgentSync.AgentSyncEngine.Run | src/ai_company/agents/sync.py:354-385 | writes the create and update entries of that plan and records each slug; a failing plan changes nothing |
| AgentSync.AgentSyncEngine.UniqueTargets | src/ai_company/agents/sync.py:338-351 | with pairwise different slugs and separate directories every target has its own path |
| AgentSync.AgentSyncEngine.NamesGiveUniqueTargets | src/ai_company/agents/sync.py:338-351 | accepted personas with distinct names have different slugs and so give every target its own path |
| AgentSync.RunFiles | src/ai_company/agents/sync.py:354-385 | unplanned paths keep their files; a planned path holds its content if its entry writes and the write succeeds, and keeps its file otherwise |
| AgentSync.RunLeaves | src/ai_company/agents/sync.py:314-385 | a target's own file holds the wanted text afterwards if it was absent, or held another text under force, and can be written; otherwise it is as it was |
| AgentSync.ExistingFilesKept | src/ai_company/agents/sync.py:316-326 | without force a run changes no file that existed before |
| AgentSync.SecondPlan | src/ai_company/agents/sync.py:316-385 | planning again after a run skips what was written and decides everything else as before |
| AgentSync.SecondRunIdle | src/ai_company/agents/sync.py:316-385 | without write errors the second plan skips everything but conflicts, and running it changes no file |
| AgentSync.SecondRunChanges | src/ai_company/agents/sync.py:316-385 | for any targets, running again changes files exactly when it is forced and two targets want different contents at one path that can be written and holds no unreadable file |
| AgentSync.AgentSyncEngine.SecondRunExactly | src/ai_company/agents/sync.py:328-385 | after a run that succeeded planning succeeds again, and the second run changes files under exactly that condition |
| AgentSync.AgentSyncEngine.RunTwice | src/ai_company/agents/sync.py:354-385 | of two runs in a row both succeed or both fail; the files are those of one unless it is forced and a path is contested, which pairwise different slugs exclude |
| AgentSync.ListedExactly | src/ai_company/agents/sync.py:358-383 | a slug is listed once, under the action of its first entry that does not fail, and in no other list |
| AgentSync.ReportedExactly | src/ai_company/agents/sync.py:314-383 | a slug is listed once, in the list that the file of its first target that does not fail calls for, and in no other; a slug without such a target in none |
| AgentSync.ConflictsExactly | src/ai_company/agents/sync.py:316-383 | without force a slug is a conflict exactly if its first target that does not fail meets another text or a file that cannot be read |
| AgentSync.EverySlugListedOnce | src/ai_company/agents/sync.py:358-383 | without write errors every planned slug is in exactly one of the four lists |
| AgentSync.ErrorsExactly | src/ai_company/agents/sync.py:367-379 | the error list names the failing paths in order |
| Sorting.SortIsStable | src/ai_company/events/router.py:58 | the sort orders the same elements by key and keeps equal keys in their order |
| Sorting.SortUnique | src/ai_company/events/router.py:58 | a sorted list is determined by its elements of each key, so stability pins the sort down |
| Sorting.TextLessMeaning | src/ai_company/integrity/check_cli_surface.py:83-111 | a string sorts before another if it is a proper start of it or has the smaller character where they first differ |
| Routing.Router.AddRoute | src/ai_company/events/router.py:51-59 | the stable sort of the routes and the new one; on routes in order, behind those whose number is not above and before all others |
| Routing.AddedByPriority | src/ai_company/events/router.py:51-59 | on routes in order of their numbers, a new one comes behind those whose number is not above its own and before all others, which keep their order |
| Routing.Router.RemoveRoute | src/ai_company/events/router.py:100-114 | drops the first route of the name and says whether there was one |
| Routing.AlwaysSorted | src/ai_company/events/router.py:51-114 | after any registrations and removals the routes are in the order of their numbers, the lowest first |
| Routing.Router.RouteEvent | src/ai_company/events/router.py:116-134 | the loop computes the receivers |
| Routing.ReceiversExact | src/ai_company/events/router.py:116-134 | an event goes to exactly the subscribers with a passing route, once each |
| Routing.ReceiversInOrder | src/ai_company/events/router.py:116-134 | receivers come in the order of their first passing routes |
| Routing.ReceiversByPriority | src/ai_company/events/router.py:116-134 | on routes in order, before any passing route to a receiver listed later stands one to each receiver listed earlier, with a number not above |
| Dispatching.Dispatcher.Dispatch | src/ai_company/events/dispatcher.py:53-84 | an unknown mode raises before any delivery; otherwise results and processed ids of the deliveries in turn |
| Dispatching.Dispatcher.DeliverToSubscriber | src/ai_company/events/dispatcher.py:160-221 | the status of one delivery and what becomes processed, by the rule that the next row spells out |
| Dispatching.StatusExactly | src/ai_company/events/dispatcher.py:160-221 | in every mode: a delivery is held back exactly if its id is processed by then, is not handled exactly for another type of event, fails exactly if an active handler raises, and happens otherwise |
| Dispatching.OneResultEach | src/ai_company/events/dispatcher.py:77-84 | results are for the subscribers in turn; without exactly-once each status is independent of the others |
| Dispatching.DeliversOnce | src/ai_company/events/dispatcher.py:178-209 | under exactly-once a dispatch delivers to one subscriber at most, and does so exactly when the id becomes processed |
| Dispatching.FirstAbleGetsIt | src/ai_company/events/dispatcher.py:178-209 | that subscriber is the first that handles the event without raising |
| DeadLetters.DeadLetterQueue.Add | src/ai_company/events/dead_letter.py:71-108 | appends in memory and on disk, then drops the oldest in memory above the maximum |
| DeadLetters.DeadLetterQueue.Pop | src/ai_company/events/dead_letter.py:121-133 | returns the front by Python's slice rules and rewrites the file with the rest |
| DeadLetters.DeadLetterQueue.Remove | src/ai_company/events/dead_letter.py:135-149 | removes the first record of the event and rewrites the file, or changes nothing |
| DeadLetters.RemovedExactly | src/ai_company/events/dead_letter.py:135-149 | the first record of the event is gone from memory and file and every other one stays in its place |
| DeadLetters.DeadLetterQueue.Cleanup | src/ai_company/events/dead_letter.py:166-179 | drops expired records, rewriting the file only if there were any |
| DeadLetters.CleanedExactly | src/ai_company/events/dead_letter.py:166-179 | exactly the records that failed after the cutoff are left, in order, and in the file if there were others |
| DeadLetters.MemoryAlwaysSuffix | src/ai_company/events/dead_letter.py:71-243 | over any run on any file, memory is a suffix of the records the file would load |
| DeadLetters.RewriteSynchronises | src/ai_company/events/dead_letter.py:121-186 | after a pop, a removal or cleanup that finds something, or a clear, memory equals the file's records |
| DeadLetters.StaysSynchronised | src/ai_company/events/dead_letter.py:71-179 | any other operation keeps them equal exactly when it is not an add that overflows |
| DeadLetters.AddBounded | src/ai_company/events/dead_letter.py:236-243 | an add leaves at most the maximum in memory, the new record last |
| DeadLetters.FirstInFirstOut | src/ai_company/events/dead_letter.py:71-133 | over any run of adds and pops, what came out followed by what is left is what was there followed by what was added |
| Persistence.EventPersistence.Rotate | src/ai_company/events/persistence.py:146-166 | moves the live file to its stamp, replacing an archive of that stamp, or raises without a live file |
| Persistence.EventPersistence.WriteRecord | src/ai_company/events/persistence.py:192-206 | rotates when the record would pass the limit, then appends; a failing rotation changes nothing |
| Persistence.WriteLosesNothing | src/ai_company/events/persistence.py:146-206 | archives and live file gain the line at the end and lose nothing exactly when no rotation falls on an archive with lines |
| Persistence.WriteFailsExactly | src/ai_company/events/persistence.py:192-206 | a write raises exactly when its record exceeds the limit and there is no live file |
| Persistence.WriteKeepsBounds | src/ai_company/events/persistence.py:192-206 | the size counter stays exact and every file is within the limit or a single record |
| Persistence.RunKeepsEverything | src/ai_company/events/persistence.py:146-206 | on any store, with records within the limit, every write succeeds and no file exceeds the limit; what was held and what was written is all there, in order, exactly when no rotation falls on an archive with lines, and lines are lost otherwise |
| Persistence.StampClashLoses | src/ai_company/events/persistence.py:146-206 | of three records that do not fit together in pairs, written in one second, the first is lost |
| Persistence.LiveKeepsAll | src/ai_company/events/persistence.py:192-206 | the live file still holds all it held and all that was written exactly when nothing rotated |
| Persistence.EventPersistence.LoadEvents | src/ai_company/events/persistence.py:74-132 | the first max(1, limit) events of the live file that pass the filters, in write order |
| Persistence.MatchingExactly | src/ai_company/events/persistence.py:74-132 | of the lines that are events exactly those inside the time bounds, of a wanted kind and from the wanted source are loaded, each as often as it was written |
| Persistence.LimitedExactly | src/ai_company/events/persistence.py:128-130 | as many of them as the limit says, but one at least if there is one |
| Replaying.ReplayEngine.Replay | src/ai_company/events/replay.py:79-155 | the handler is called on a prefix of the loaded events, progress reported after each; the session, and the cancel flag left |
| Replaying.ReplayEngine.Cancel | src/ai_company/events/replay.py:175-187 | flags any known session, also a finished one |
| Replaying.HandledMeaning | src/ai_company/events/replay.py:124-151 | the prefix ends exactly at the first event that cancels or whose callback raises, and is empty when flagged before |
| Replaying.SessionExactly | src/ai_company/events/replay.py:117-153 | events are handled up to and with the first at which the callback raises or the session is cancelled; the counters tell those whose handler did not raise; the session ends broken exactly if the callback raised |
| Replaying.SessionAddsUp | src/ai_company/events/replay.py:117-153 | processed = succeeded + failed <= total, when it equals total, and that no session ends cancelled |
| Replaying.FlagLeftExactly | src/ai_company/events/replay.py:124-151 | a cancel flag is left standing exactly by a cancel that no further event of the session meets |
| Replaying.ReplayLimit | src/ai_company/events/replay.py:79-155 | a session replays as many matching events as its limit, at least one, and up to 10000 for the limit 0 |
| Replaying.UndisturbedReplay | src/ai_company/events/replay.py:79-155 | a replay that nothing cancels handles every event and reports completion |
| Replaying.StaleFlagStops | src/ai_company/events/replay.py:127-148 | a standing flag makes the next session of that id handle nothing and report completion |
| EventBuses.EventHistory.Append | src/ai_company/events/history.py:50-106 | the history is the last entries of the log, up to its maximum |
| EventBuses.EventBus.Publish | src/ai_company/events/bus.py:275-351 | result and new state of processed ids, dead letters, history and store for one publish |
| EventBuses.PublishFailsExactly | src/ai_company/events/bus.py:275-351 | raises and changes nothing exactly for an empty source under validation or, otherwise, an unknown mode with receivers, with the error for each; raises after delivering exactly when the record cannot be stored |
| EventBuses.RaisesAfterDelivery | src/ai_company/events/bus.py:304-340 | the first event of an empty store, over the limit, is delivered and then its publish raises |
| EventBuses.OneResultPerReceiver | src/ai_company/events/bus.py:304-317 | one result for each receiver of the event, in their order |
| EventBuses.FailuresMatchEntries | src/ai_company/events/bus.py:319-332 | as many dead letters as history entries saying so; every other result has one other entry |
| EventBuses.PublishAccounts | src/ai_company/events/bus.py:319-349 | each failed result adds one dead letter, every result one history entry, an accepted publish one more |
| EventBuses.PublishDeadLetters | src/ai_company/events/bus.py:319-332 | the dead letters of an accepted publish, in memory and on disk, are those for exactly the receivers that are not held back, handle the type, are active and raise, in order, with event, name, time and three tries |
| EventBuses.EntriesExactly | src/ai_company/events/bus.py:319-349 | its history entries: dead-lettered for a failing receiver, delivered for one that takes the event, failed for the others, and one for the event itself unless the store failed |
| EventBuses.RunAccounts | src/ai_company/events/bus.py:275-351 | over any run of publishes the dead letters grow by all failures in order, the newest of them in memory and all on disk, and the history is the end of the log of all that happened |
| EventBuses.DeliveryCount | src/ai_company/events/bus.py:275-351 | in any run an id is delivered once for each able receiver of its accepted calls in other modes, and once more if it was new and some exactly-once call could take it; it is processed afterwards exactly when it was or could be |
| EventBuses.AtMostOnceExactly | src/ai_company/events/bus.py:275-351 | an id is delivered at most once in a run if and only if its accepted calls in other modes have no able receiver, or just one and no exactly-once call takes it |
| EventBuses.AtMostOnce | src/ai_company/events/bus.py:275-351 | if every publish of an id asks for exactly-once, the id is delivered once if it becomes processed in the run, and never otherwise |
| EventBuses.MixedModesDeliverTwice | src/ai_company/events/dispatcher.py:178-209 | publishing an event at least once and then exactly once delivers it twice |
| EventBuses.AcceptedEventsStored | src/ai_company/events/bus.py:336-340 | on any store, archives and live file hold what they held and then every accepted event once, in publishing order, exactly when no rotation falls on an archive with lines |
| EventBuses.LoadFindsAccepted | src/ai_company/events/persistence.py:74-132 | on any store, until a rotation, loading finds what it found before and then the accepted events that pass the filters, in publishing order |
| EventBuses.EventBus.RequeueDeadLetter | src/ai_company/events/bus.py:484-497 | takes the oldest records off and publishes their events at least once, up to the first that raises |
| EventBuses.RequeueCallsExactly | src/ai_company/events/bus.py:484-497 | the events of the records are published in order, each at least once over the routes there are |
| EventBuses.RequeueIsRun | src/ai_company/events/bus.py:484-497 | a requeue that does not raise is a run of publishes, one for each record taken off |
| EventBuses.RequeueTries | src/ai_company/events/bus.py:484-497 | any requeue is a run of publishes over the records up to the first whose publish raises, or over all |
| EventBuses.RequeueAccounts | src/ai_company/events/bus.py:484-497 | afterwards memory and disk hold the records not taken off and the failures of the publishes that were tried, so the records behind one that raises are lost |
| EventBuses.RequeueRaisesExactly | src/ai_company/events/bus.py:484-497 | it raises exactly when a record taken off has an empty source under validation, or the first one is over the limit while there is no live file, and ends with the first such record |
| Knowledge.KnowledgeBase.AddKnowledge | src/ai_company/memory/knowledge.py:30-54 | stores, indexes and saves the entry, or raises and changes nothing for a confidence out of range; indexes stay exact and relationships symmetric |
| Knowledge.AddDoes | src/ai_company/memory/knowledge.py:30-54 | an accepted entry comes behind the others and its id under its domain and its tags; the rest stays; the file lists the entries in order |
| Knowledge.RefusedOps | src/ai_company/memory/knowledge.py:30-223 | an entry of a confidence out of range and an operation on an unknown id change nothing, in memory or in the file |
| Knowledge.KnowledgeBase.Update | src/ai_company/memory/knowledge.py:60-97 | changes the given fields and re-indexes tags; indexes stay exact |
| Knowledge.UpdateDoes | src/ai_company/memory/knowledge.py:60-97 | given fields are as given, the others as they were, the version is one more; the id moves from the old tags to the new ones; every other entry and answer stays |
| Knowledge.KnowledgeBase.Delete | src/ai_company/memory/knowledge.py:99-114 | a live entry is gone from the entries, from both indexes and from the file, and all else is as before; an unknown id changes nothing; indexes stay exact |
| Knowledge.DeleteDoes | src/ai_company/memory/knowledge.py:99-114 | after any run, a deleted id is in no table and not in the file; the other entries, their order and all other index answers are as before |
| Knowledge.KnowledgeBase.AddRelationship | src/ai_company/memory/knowledge.py:206-223 | both live entries mention each other afterwards, or nothing changes |
| Knowledge.RelateDoes | src/ai_company/memory/knowledge.py:206-223 | each of the two entries gains the id of the other unless it has it, and nothing else changes |
| Knowledge.KnowledgeBase.Search | src/ai_company/memory/knowledge.py:116-160 | what the indexes find is what a direct scan of the entries finds, ranked and cut alike |
| Knowledge.SearchFinds | src/ai_company/memory/knowledge.py:116-160 | what is found is live and wanted, the most certain and then the newest first; a wanted entry is left out only when the limit is used up, and is no better than any found |
| Knowledge.AlwaysConsistent | src/ai_company/memory/knowledge.py:19-308 | in every reachable state, also after reopening, an id is indexed under a tag or domain exactly when a live entry has it, relationships are symmetric, and the file begins with what memory holds, with more only behind an entry that does not load |
| Knowledge.LoadAfterSave | src/ai_company/memory/knowledge.py:286-308 | loading a saved base restores the entries and their order exactly when every confidence is in range, and then the answers of both indexes; the indexes fit what was loaded in any case |
| Knowledge.LoadLeading | src/ai_company/memory/knowledge.py:299-308 | loading a saved base gives exactly the entries before the first whose confidence is out of range |
| Knowledge.ReopenChangesNothing | src/ai_company/memory/knowledge.py:19-28 | after any run reopening a persisting base keeps all entries exactly when every live confidence is in range, and then no answer of an index changes |
| Knowledge.AlwaysReopens | src/ai_company/memory/knowledge.py:60-97 | every state of a run can be reopened without loss exactly when no operation updates a live entry to a confidence out of range |
| Knowledge.ConfidenceLosesEntries | src/ai_company/memory/knowledge.py:89-90 | an update to 1.5 is saved; reopening drops that entry and the one after it, and the next addition overwrites the file without them |
| FileWriting.FileWriter.WriteFile | src/ai_company/generator/writer.py:108-192 | result and new state for validation, skipping, backup, writing, checksum and metadata, with failing file operations; on right checksums, and whenever it stored, the file holds the content afterwards |
| FileWriting.WriteEnds | src/ai_company/generator/writer.py:108-192 | a write is refused exactly for a rejecting callback under validation, skipped exactly for a file under the checksum of the content, and fails exactly if the file cannot be written; what a refused or skipped one changes |
| FileWriting.WriteHolds | src/ai_company/generator/writer.py:145-172 | outside a dry run a write that ends well leaves the content asked for in the file exactly if it stored it or the file held it already, always so on right checksums; the checksum recorded is of that content |
| FileWriting.WriteTouches | src/ai_company/generator/writer.py:108-192 | no other managed file changes; metadata is stored as given under the file's stem; a backup holds what the file held |
| FileWriting.FileHoldsLatest | src/ai_company/generator/writer.py:108-340 | after any run of writes and rollbacks every file holds the content of its latest storing write or, if that came later, of the rollback that restored it |
| FileWriting.SuccessfulWriteHolds | src/ai_company/generator/writer.py:108-192 | with checksums on, after any run a write that ends well leaves the file with the content asked for |
| FileWriting.FileWriter.IsFileChanged | src/ai_company/generator/writer.py:219-242 | false exactly for a file with a checksum that matches its content |
| FileWriting.FileWriter.RollbackAll | src/ai_company/generator/writer.py:328-340 | rolls back every backup in turn and lists those it could |
| FileWriting.SkipsOnlyIdentical | src/ai_company/generator/writer.py:145-155 | with right checksums a write is skipped only if the file holds just that content |
| FileWriting.WriteKeepsChecksums | src/ai_company/generator/writer.py:163-172 | a write keeps every checksum right exactly when it does not store, or checksums are on, or none was there to go stale |
| FileWriting.ChecksumsAlwaysMatch | src/ai_company/generator/writer.py:108-340 | with checksums on every stored checksum is its file's after any run of writes and rollbacks |
| FileWriting.MarksTell | src/ai_company/generator/writer.py:108-340 | with checksums off, after any run a file has a stored checksum exactly if a rollback restored it, wrong exactly if the file was stored after the latest such rollback |
| FileWriting.ChecksumsMatchExactly | src/ai_company/generator/writer.py:108-340 | after any run all stored checksums are right exactly when checksums are on or no file was stored after its latest rollback |
| FileWriting.BackupsHold | src/ai_company/generator/writer.py:358-386 | after any run each backup holds its file's content from just before the latest write that backed it up |
| FileWriting.RollbackAllRestores | src/ai_company/generator/writer.py:290-340 | rolling everything back restores exactly those contents, reports all of them and leaves other files alone |
| FileWriting.StaleChecksumSkips | src/ai_company/generator/writer.py:303-320 | with checksums off a rollback leads to a write being skipped although the file holds something else |
| Rendering.KeysDiffer | src/ai_company/generator/renderer.py:189 | equal cache keys mean equal template, engine and digest when engines and digests hold no colon |
| Rendering.ColonConfuses | src/ai_company/generator/renderer.py:189 | with a colon in an engine's name two requests share a key |
| Rendering.KeysShareExactly | src/ai_company/generator/renderer.py:189 | for colon-free digests two engines share a key for some templates exactly when the digests are equal and one name is the other or ends in a colon and the other |
| Rendering.TemplateRenderer.RenderTemplate | src/ai_company/generator/renderer.py:157-245 | result and new cache and statistics, with fallback |
| Rendering.RenderExactly | src/ai_company/generator/renderer.py:157-245 | a render is answered by the engine asked for, else by the fallback engine where allowed, from an entry younger than the time to live or by a text just made, which is then cached under that engine; otherwise it raises and changes nothing |
| Rendering.DirectExactly | src/ai_company/generator/renderer.py:157-245 | without a cache: the text of the engine asked for, else of the fallback engine where allowed, else an error |
| Rendering.CacheIsInvisible | src/ai_company/generator/renderer.py:157-245 | a render on a sound cache returns what a cache-free render would exactly when no entry answers for an empty template under validation; the cache stays sound |
| Rendering.CachedEmptyTemplate | src/ai_company/generator/renderer.py:157-245 | an empty template rendered without validation is answered from the cache under validation, which would refuse it |
| Rendering.RenderAfterAnything | src/ai_company/generator/renderer.py:157-338 | after any calls, clock readings and clearings, with non-empty templates the cache never changes an answer |
| Rendering.RenderKeepsKeys | src/ai_company/generator/renderer.py:453-469 | content and timestamp maps keep the same keys |
| Rendering.TemplateRenderer.ClearCache | src/ai_company/generator/renderer.py:319-338 | the entries whose keys start with the template's name, or all, are gone from both maps |
| Rendering.ClearedIsGone | src/ai_company/generator/renderer.py:319-338 | no entry of the template is left, whatever its engine or context |
| Rendering.ClearedExactly | src/ai_company/generator/renderer.py:326-332 | of the entries with colon-free engine and digest those go whose template is the one named, continues it after a colon, or makes it up together with the engine |
| Rendering.TotalIsReturned | src/ai_company/generator/renderer.py:71-87 | counted renders are the calls that returned, each once, however many fallbacks; failures are not counted |
| CliSurface.CompareCommands | src/ai_company/integrity/check_cli_surface.py:76-124 | the two loops append exactly the specified errors and additions |
| CliSurface.CompareSurface | src/ai_company/integrity/check_cli_surface.py:127-137 | the errors and additions of the whole trees |
| CliSurface.NoErrorsIffEmbeds | src/ai_company/integrity/check_cli_surface.py:76-124 | no errors exactly when the contract embeds in the surface |
| CliSurface.CleanIffSameTree | src/ai_company/integrity/check_cli_surface.py:76-137 | nothing at all is reported exactly when the trees are equal up to option order |
| CliSurface.EmbedsReflexive | src/ai_company/integrity/check_cli_surface.py:76-124 | every tree embeds in itself |
| CliSurface.EmbedsTransitive | src/ai_company/integrity/check_cli_surface.py:76-124 | embedding is transitive, so a surface that satisfies a newer contract satisfies the older ones it embeds |
| CliSurface.ErrorsCounted | src/ai_company/integrity/check_cli_surface.py:76-124 | a violation is reported once for each choice of loop at each level above it, a power of two |
| CliSurface.AdditionsCounted | src/ai_company/integrity/check_cli_surface.py:76-124 | so is an addition |
| CliSurface.ErrorsInOrder | src/ai_company/integrity/check_cli_surface.py:83-124 | errors come in two passes over the children, each in the order of their names |
| CliSurface.AdditionsInOrder | src/ai_company/integrity/check_cli_surface.py:83-124 | so do additions |
| Embeddings.CauchySchwarz | src/ai_company/memory/embedding.py:71-83 | the dot product over zip lies within the product of the norms, also for vectors of different lengths |
| Embeddings.SimilarityBounded | src/ai_company/memory/embedding.py:71-83 | similarity lies in [-1, 1] |
| Embeddings.SimilarityToSelf | src/ai_company/memory/embedding.py:71-83 | a non-zero vector's similarity to itself is 1, the zero vector's is 0 |
| Embeddings.SimilaritySymmetric | src/ai_company/memory/embedding.py:71-83 | similarity is symmetric |
| Embeddings.SimilarityExactly | src/ai_company/memory/embedding.py:71-83 | similarity times both norms is the dot product; it is zero without a vector or a norm |
| Embeddings.DotFirst | src/ai_company/memory/embedding.py:76 | the dot product is the sum of the products over zip, read from the front |
| Embeddings.MostCommonDistinct | src/ai_company/memory/embedding.py:85-98 | the vocabulary has distinct tokens of the text, the maximum number of them or all there are |
| Embeddings.MostCommonFirst | src/ai_company/memory/embedding.py:85-98 | no token left out is more frequent than one taken |
| Embeddings.FirstSeenInOrder | src/ai_company/memory/embedding.py:85-98 | tokens are counted in the order of their first occurrences, which decides between equally frequent ones |
| Embeddings.TfidfEmbedder.FitBasic | src/ai_company/memory/embedding.py:85-98 | numbers the most common tokens from 0 and gives each its inverse document frequency |
| Embeddings.TfidfEmbedder.IdfExactly | src/ai_company/memory/embedding.py:88-96 | the weight is the logarithm of the number of tokens over one more than the token's count, so with a logarithm that never falls a rarer token weighs no less |
| Embeddings.TfidfEmbedder.Fill | src/ai_company/memory/embedding.py:53-58 | every write hits an in-range slot of its own token; each slot ends as count times frequency weight |
| Embeddings.WeightsExactly | src/ai_company/memory/embedding.py:53-58 | a slot holds its token's count in the text times its weight, also for a token that does not occur, and zero behind the vocabulary |
| Embeddings.TfidfEmbedder.Embed | src/ai_company/memory/embedding.py:45-65 | fits on the first text only and returns the normalised weights |
| Embeddings.UnitOrZero | src/ai_company/memory/embedding.py:60-65 | the result is a unit vector, or all zero |
| Embeddings.NormalisedExactly | src/ai_company/memory/embedding.py:60-65 | times the norm every component of the result is the weight it was |
| Embeddings.SearchBySimilarity | src/ai_company/memory/embedding.py:121-141 | the scored entries by falling similarity, cut to top_k by Python's slice rules |
| Embeddings.ScoredMeaning | src/ai_company/memory/embedding.py:133-138 | an entry is scored exactly when it has an embedding at least as similar as the threshold |
| Embeddings.ScoredCounts | src/ai_company/memory/embedding.py:121-141 | each such entry is scored as often as it is listed, in the order of the list |
| Embeddings.FindsMostSimilar | src/ai_company/memory/embedding.py:140-141 | nothing left out is more similar than something found |
| Embeddings.FoundInOrder | src/ai_company/memory/embedding.py:140-141 | as many as asked for are found, by falling similarity |

## Left out

- Identifiers, tags and event types are opaque `Id` values; a task is its id, which is given and not built from type and name, its type and its dependencies.
- Python's recursion limit: the depth-first searches always finish here.
- Texts of messages, log lines and exceptions; errors are values with their structure.
- JSON text and file encodings: records and entries are stored and loaded as values, of which loading a knowledge entry checks the range of its confidence.
- IsFileChanged, RollbackAll and SecondRunExactly: do not model newline translation, because files are read back as they were written; the code reads in text mode, which turns carriage returns into newlines, so for texts with them these do not hold as stated.
- Aliasing of lists and dicts that callers pass in or get back: they are values here.
- Threads, `broadcast`, `dispatch_async`, `request` and handlers that publish while they are called: dispatch is sequential.
- `EventBus.replay` only picks the handler; a replay whose handler republishes is not composed with the bus.
- The metrics objects, the priority queue the bus never fills, and the logging and metrics middleware.
- A middleware pipeline other than validation on or off.
- Filters of routes are predicates on events; a negative maximum of dead letters (which would make `add` raise) is not modelled.
- Publish: all dead letters of one publish carry one clock reading, because nothing compares readings within a call.
- WriteFile: a failing write or rename leaves its file as it was, because what a partial write leaves depends on the file system; the same holds for Run and WriteRecord.
- Two directories or slugs that the file system takes for the same path, and `mkdir` failing.
- Collisions: does not model the order of the messages about repeated claims, which the code sorts, because only whether there are any matters.
- Building the organisation graph from a registry, `compute_metadata`, and the other report checks: they add only easy members.
- `DependencyResolver` priorities and summaries; `update_task_dependencies`, which removes from single-task graphs.
- `sort_tasks_by_priority_and_dependencies`, which can index past its level list.
- `max_events` of a replay request, which the code never reads, and rate limiting.
- `get_by_domain`, `get_by_tag`, `get_related` and statistics of the knowledge base: one lookup each.
- Knowledge files whose keys differ from their entries' ids are loaded as the code does, but the index theorem is for bases that started without a file.
- Similarity: does not model floating-point rounding; it is over the reals, with the square root and logarithm as parameters.
- `can_write_file` and file permissions of the writer; contexts that cannot be serialised by the renderer.
- Python's own string methods (`strip`, `lower`, `isalnum`) are parameters of `Slugify`, apart from stripping at the ends.
