# Shortest-path engine of a graph-algorithm visualiser

This project models the algorithmic core of an educational shortest-path
visualiser and its benchmarking scripts, and proves properties of the model.

- **Batch Bellman-Ford** (`bellmanFord`) works on a directed edge list.
  It widens the node count to cover every endpoint. It then relaxes all edges
  for at most V − 1 passes, stopping early after a pass that changes nothing.
  A final scan reports a negative cycle as `[-1]`.
- **Batch Dijkstra** (`constructAdj`, `dijkstra`) builds undirected
  adjacency lists. It then runs a binary-heap Dijkstra with lazy deletion:
  a popped pair whose distance is above the node's current distance is
  skipped.
- **The graph generator** (`createGraph`) builds n − 1 backward "spanning"
  edges and then the extra random edges that are not self-loops.
- **The instrumented runners** (`AlgorithmRunner.run_dijkstra`,
  `run_bellman_ford`) are dictionary-keyed versions of both algorithms. They
  count steps on the shared operation counter and send paint and distance
  events to the display.
- **The operation counter** (`OperationCounter`) holds a step count and a
  stopwatch.

Modules, one concept each:

| file | module | contents |
|---|---|---|
| graphs.dfy | Graphs | edges, the `Dist` type (finite or the "unreachable" sentinel), walks, soundness, shortest distances, edge doubling |
| bellman_ford.dfy | BellmanFord | the passes as functions (`Pass`, `Finish`, `Spec`) and the imperative algorithm `Run` over an array |
| dijkstra.dfy | Dijkstra | `ConstructAdj` over an array of lists and the imperative `Run` with a multiset priority queue |
| graph_generator.dfy | GraphGenerator | `CreateGraph` as functions of the random draws |
| walks.dfy | Walks | walks read position by position, weight splitting, cutting out loops |
| benchmark.dfy | Benchmark | Bellman-Ford on the doubled list versus Dijkstra; reachability in generated graphs |
| counter.dfy | Counter | class `OperationCounter` |
| runner_events.dfy | RunnerEvents | the dictionary graph, the event log and its readings, the runners' invariants |
| dijkstra_steps.dfy | DijkstraSteps | what each step of `run_dijkstra` does to its invariant |
| bellman_ford_steps.dfy | BellmanFordSteps | what each event of `run_bellman_ford` does to its display facts |
| bellman_ford_sweep.dfy | BellmanFordSweep | the passes of `run_bellman_ford` as functions (`EntrySweep`, `NodeSweep`, `PassSweep`, `PassesRun`) and what they lower, paint and leave unrelaxable |
| algorithms.dfy | Algorithms | class `AlgorithmRunner` with `RunDijkstra` and `RunBellmanFord` and their loop methods |

## Model

| member | source | states |
|---|---|---|
| Graphs.Undirected | src/algorithms/bellman_ford.py:64-69 | the doubled list is twice as long, and position 2k holds edge k while position 2k+1 holds its reverse |
| Graphs.UndirectedMembership | src/algorithms/bellman_ford.py:64-69 | an edge is in the doubled list exactly when it or its reverse is an original edge |
| Graphs.UndirectedInRange | src/algorithms/bellman_ford.py:64-69 | doubling keeps every endpoint inside the node range |
| Graphs.UndirectedNonNegative | src/algorithms/bellman_ford.py:64-69 | doubling keeps every weight non-negative |
| Graphs.SoundClosedShortest | src/algorithms/bellman_ford.py:39-43 | a vector whose finite values are weights of walks from src, on which no edge can be relaxed and whose src entry is at most 0, holds exactly the shortest distances, with dist[src] = 0 |
| Graphs.ShortestUnique | src/algorithms/bellman_ford.py:60-69 | two vectors of the same length that both hold the shortest distances from src are equal |
| BellmanFord.MaxNode | src/algorithms/bellman_ford.py:10-18 | the scanned maximum bounds every endpoint and is attained by one of them, or it is −1 exactly when there are no edges |
| BellmanFord.Normalize | src/algorithms/bellman_ford.py:9-18 | the normalisation loop copies the edge list unchanged and returns its maximum endpoint |
| BellmanFord.Widened | src/algorithms/bellman_ford.py:21 | the widened count is at least V and at least 0, covers every endpoint, and is V, 0 or one past an endpoint |
| BellmanFord.InitList | src/algorithms/bellman_ford.py:23-24 | a fresh array of length n with 0 at src and the sentinel everywhere else |
| BellmanFord.Relax | src/algorithms/bellman_ford.py:30-31 | one relaxation keeps the length and never raises an entry |
| BellmanFord.Pass | src/algorithms/bellman_ford.py:29-32 | one pass keeps the length and never raises an entry |
| BellmanFord.RelaxAll | src/algorithms/bellman_ford.py:28-32 | the in-place pass leaves the array equal to the pass function of its old contents, and its flag is that of the change predicate |
| BellmanFord.ChangeFlagExact | src/algorithms/bellman_ford.py:28-32 | the change flag is set exactly when the pass changes the vector |
| BellmanFord.UnchangedPassIsClosed | src/algorithms/bellman_ford.py:34-36 | after a pass with no change, the vector is unchanged and no edge can be relaxed |
| BellmanFord.RelaxSound | src/algorithms/bellman_ford.py:30-31 | relaxing an edge of the graph keeps every finite entry the weight of a walk from src |
| BellmanFord.PassSound | src/algorithms/bellman_ford.py:29-32 | a whole pass keeps every finite entry the weight of a walk from src |
| BellmanFord.AnyRelaxable | src/algorithms/bellman_ford.py:39-41 | the final scan answers true exactly when some edge can still be relaxed |
| BellmanFord.FinishDistances | src/algorithms/bellman_ford.py:27-43 | when the passes end with distances, no edge can be relaxed, no entry was raised, and the result is the vector after some number j ≤ k of passes |
| BellmanFord.FinishNegativeCycle | src/algorithms/bellman_ford.py:27-41 | the passes end with [-1] exactly when all k passes changed something and an edge can still be relaxed afterwards |
| BellmanFord.FinishSound | src/algorithms/bellman_ford.py:27-43 | the returned distances are weights of walks from src |
| BellmanFord.BellmanFordDistances | src/algorithms/bellman_ford.py:5-43 | a distances result has the widened length, 0 at src, and holds exactly the shortest distances; it is the vector after at most V − 1 passes |
| BellmanFord.BellmanFordNegativeCycle | src/algorithms/bellman_ford.py:27-41 | the result is [-1] exactly when all V − 1 passes changed something and an edge can still be relaxed |
| BellmanFord.ShortestByShortWalk | src/algorithms/bellman_ford.py:27 | a node with a finite shortest distance is reached by a walk of exactly that weight and fewer steps than there are nodes |
| BellmanFord.ShortestLeavesNothing | src/algorithms/bellman_ford.py:38-41 | when shortest distances exist, a sound list that bounds every walk of fewer than n steps leaves no edge for the final scan to relax |
| BellmanFord.ShortestMeansDistances | src/algorithms/bellman_ford.py:5-43 | whenever the graph has shortest distances from src, bellmanFord returns exactly them |
| BellmanFord.MarkerMeansNoShortest | src/algorithms/bellman_ford.py:38-41 | the marker [-1] is returned exactly when the graph has no vector of shortest distances from src (some walk can always be made lighter) |
| BellmanFord.PassBound | src/algorithms/bellman_ford.py:29-32 | after a pass, the target of every edge holds at most what the edge offered from its source's value before the pass |
| BellmanFord.PassWithinWalks | src/algorithms/bellman_ford.py:29-32 | if the list bounds every walk from src of k steps, after one pass it bounds every walk of k + 1 steps |
| BellmanFord.PassesWithinWalks | src/algorithms/bellman_ford.py:27-32 | k passes extend the bounded walks by k steps |
| BellmanFord.PassesSound | src/algorithms/bellman_ford.py:27-32 | any number of passes keeps every finite entry the weight of a walk from src |
| BellmanFord.InitFacts | src/algorithms/bellman_ford.py:23-24 | the start list is sound and bounds the empty walk at src |
| BellmanFord.NonNegativeLastPassClosed | src/algorithms/bellman_ford.py:27-41 | with non-negative weights, after V − 1 passes the final scan finds no relaxable edge |
| BellmanFord.BellmanFordNonNegative | src/algorithms/bellman_ford.py:5-43 | with non-negative weights bellmanFord never returns the marker [-1] |
| BellmanFord.Run | src/algorithms/bellman_ford.py:5-43 | the imperative algorithm returns the specification's outcome, and a distances outcome holds the shortest distances with 0 at src |
| Dijkstra.AdjSpec | src/algorithms/dijkstra.py:15-19 | the adjacency lists number exactly V |
| Dijkstra.AdjListsAreNeighbours | src/algorithms/dijkstra.py:16-18 | node x's list holds, in edge order, the far end and weight of every edge touching x |
| Dijkstra.NeighboursMembership | src/algorithms/dijkstra.py:17-18 | (v, w) is in x's list exactly when (x, v, w) or (v, x, w) is an edge |
| Dijkstra.AdjMembership | src/algorithms/dijkstra.py:16-18 | (v, w) is in x's list exactly when (x, v, w) is in the doubled edge list |
| Dijkstra.AdjTotal | src/algorithms/dijkstra.py:16-19 | the lists hold 2·\|edges\| entries in total |
| Dijkstra.ConstructAdj | src/algorithms/dijkstra.py:10-19 | the imperative construction yields an array of V lists equal to the specification |
| Dijkstra.MinExists | src/algorithms/dijkstra.py:39 | a non-empty queue has a lexicographically least pair for the pop to return |
| Dijkstra.AdjFactsHold | src/algorithms/dijkstra.py:15-18 | with non-negative weights, every list entry of x is a non-negative doubled edge from x to a node below V |
| Dijkstra.InitInv | src/algorithms/dijkstra.py:31-34 | the start state (queue {(0, src)}, 0 at src, sentinel elsewhere) satisfies the loop invariant |
| Dijkstra.PopStale | src/algorithms/dijkstra.py:43-44 | skipping a popped pair whose distance is above the node's keeps the invariant |
| Dijkstra.PopFresh | src/algorithms/dijkstra.py:39-44 | a pair that is not skipped carries the node's exact distance, the node has not been expanded, and its distance is at least every expanded one |
| Dijkstra.RelaxQueue | src/algorithms/dijkstra.py:48-50 | lowering dist[v] to d + w and pushing (d + w, v) keeps every queued pair at or above its node's distance and keeps expanded nodes final |
| Dijkstra.RelaxSound | src/algorithms/dijkstra.py:48-49 | a relaxed value is the weight of a walk from src |
| Dijkstra.RelaxPending | src/algorithms/dijkstra.py:47-50 | after a relaxation every finite node is either queued at its distance or has no relaxable entry |
| Dijkstra.RelaxUpdate | src/algorithms/dijkstra.py:48-50 | a relaxation keeps the neighbour-loop invariant one entry further |
| Dijkstra.RelaxSkip | src/algorithms/dijkstra.py:47-48 | an entry that does not improve its neighbour keeps the neighbour-loop invariant one entry further |
| Dijkstra.ExpandDone | src/algorithms/dijkstra.py:47-50 | after all of u's entries the main-loop invariant holds again |
| Dijkstra.EmptyQueueClosed | src/algorithms/dijkstra.py:37 | when the queue is empty no doubled edge can be relaxed |
| Dijkstra.RelaxEntry | src/algorithms/dijkstra.py:48-50 | one entry of the neighbour loop, lowering and pushing or leaving everything, keeps the neighbour-loop invariant one entry further |
| Dijkstra.Expand | src/algorithms/dijkstra.py:47-50 | the neighbour loop restores the main-loop invariant |
| Dijkstra.Run | src/algorithms/dijkstra.py:21-52 | with non-negative weights the result has length V, 0 at src, and holds exactly the shortest distances over the undirected graph |
| GraphGenerator.Target | src/algorithms/graph_generator.py:20 | the truncated product of a draw in [0, 1) and i is below i |
| GraphGenerator.Spanning | src/algorithms/graph_generator.py:15-26 | there are exactly n − 1 spanning edges, and the k-th one leaves node k + 1 for an earlier node |
| GraphGenerator.KeepNonLoops | src/algorithms/graph_generator.py:39-40 | the mask keeps at most as many edges as were drawn |
| GraphGenerator.KeepNonLoopsMembership | src/algorithms/graph_generator.py:39-40 | an edge is kept exactly when some draw k has u ≠ v and builds that edge |
| GraphGenerator.CreateGraph | src/algorithms/graph_generator.py:3-50 | the output is the spanning edges (k + 1, t, w), where t is the truncated product of the k-th draw and k + 1 (so t < k + 1) and w is the k-th drawn weight, in source order, followed by the kept extras in draw order; its length is between n − 1 and n − 1 + extra_count |
| GraphGenerator.ExtraEdgesWellFormed | src/algorithms/graph_generator.py:34-40 | every kept extra edge joins two distinct nodes below n with a weight in [1, 19] |
| GraphGenerator.CreateGraphRanges | src/algorithms/graph_generator.py:15-46 | every endpoint is below n and every weight lies in [1, 19] |
| GraphGenerator.SpanningReachesRoot | src/algorithms/graph_generator.py:15-26 | following spanning edges alone, from any node below n, reaches node 0 |
| GraphGenerator.RootReachesAll | src/algorithms/graph_generator.py:15-26 | on the doubled list node 0 reaches every node |
| Benchmark.DoubledWidth | src/algorithms/bellman_ford.py:64-75 | Bellman-Ford on the doubled list does not widen V, and Dijkstra's lists number V |
| Benchmark.Agreement | src/algorithms/bellman_ford.py:60-75 | with non-negative weights, Bellman-Ford on the doubled list returns distances, and they equal Dijkstra's result on the original list |
| Benchmark.GeneratedAllFinite | src/algorithms/graph_generator.py:12-26 | on a generated graph every shortest distance from node 0 over the doubled list is finite |
| Counter.OperationCounter.constructor | counter.py:9-12 | a fresh counter has zero steps, start time and execution time |
| Counter.OperationCounter.Reset | counter.py:14-16 | steps and execution time become 0 and the start time stays |
| Counter.OperationCounter.Increment | counter.py:18-20 | steps rise by exactly one and nothing else changes |
| Counter.OperationCounter.Start | counter.py:22-24 | steps and execution time become 0 and the start time becomes the clock reading |
| Counter.OperationCounter.Stop | counter.py:26-27 | the execution time becomes the clock reading minus the start time, which is non-negative for a clock that did not go back; steps and start time stay |
| RunnerEvents.InitialDistances | algorithms.py:39-42 | after the opening events the display shows 0 for the start node and the sentinel for every other node |
| RunnerEvents.CommonFrontiers | algorithms.py:70-74 | in a log whose events obey the shared rules and that does not end in a pending update, each distance update is followed by its node's frontier paint and each frontier paint follows its node's update |
| RunnerEvents.DijkstraFrontiers | algorithms.py:67-78 | a valid Dijkstra trace paints frontier exactly after each distance update |
| RunnerEvents.BellmanFordFrontiers | algorithms.py:111-130 | a valid Bellman-Ford trace paints frontier exactly after each distance update |
| DijkstraSteps.DijkstraStart | algorithms.py:33-48 | the opening state satisfies the main-loop invariant |
| DijkstraSteps.PopQueue | algorithms.py:52-57 | a popped pair names a graph node, and the queue invariant holds once that node is visited |
| DijkstraSteps.DijkstraSkip | algorithms.py:52-56 | popping a visited node only shrinks the queue |
| DijkstraSteps.LogVisit | algorithms.py:57-58 | painting a new node visited appends it to the visit order and keeps the log facts |
| DijkstraSteps.DijkstraVisit | algorithms.py:55-58 | visiting a popped node starts its neighbour loop with the node at most its popped distance |
| DijkstraSteps.LogUpdating | algorithms.py:67 | an updating paint keeps the log facts and adds one updating paint |
| DijkstraSteps.LogDefault | algorithms.py:76-78 | a default paint of an unvisited node right after its updating paint keeps the log facts and adds one default paint |
| DijkstraSteps.LogFrontier | algorithms.py:72-74 | a frontier paint right after the node's distance update keeps the log facts and adds one frontier paint |
| DijkstraSteps.LogLower | algorithms.py:70-72 | showing a lower value right after the updating paint keeps the display equal to the distances |
| DijkstraSteps.ImproveQueue | algorithms.py:70-73 | lowering dist[v] to nd and pushing (nd, v) keeps the queue invariant |
| DijkstraSteps.LogImprove | algorithms.py:67-74 | the updating, distance and frontier events of an improvement keep the log facts and add one updating and one frontier paint |
| DijkstraSteps.LogKeep | algorithms.py:67-78 | the updating paint and the optional default paint of a non-improving entry keep the log facts and add one updating paint and no frontier paint |
| DijkstraSteps.DijkstraImprove | algorithms.py:62-74 | an improving entry advances the neighbour-loop invariant by one entry |
| DijkstraSteps.DijkstraKeep | algorithms.py:62-78 | a non-improving entry advances the neighbour-loop invariant by one entry |
| DijkstraSteps.DijkstraExpanded | algorithms.py:62-78 | after all of u's entries, u is expanded and the main-loop invariant holds again |
| DijkstraSteps.ExpandCount | algorithms.py:57-63 | once u's entries are examined, the updating paints number the out-degrees of the visited nodes, u included |
| DijkstraSteps.DijkstraFinish | algorithms.py:51-78 | with an empty queue: the display shows the distances, every event is valid, each distance update is followed by a frontier paint and nothing else is, each node was expanded at most once, every reached node was expanded, no entry of an expanded node can lower a distance below its expansion value, the updating paints number the out-degrees of the expanded nodes, and every finite distance and every expansion distance is the start's 0 or an expanded node's expansion distance plus the weight of its item for that node |
| DijkstraSteps.TracedStart | algorithms.py:36-45 | before the loop the only finite distance and the only queued pair are the start's 0 |
| DijkstraSteps.SourcedGrow | algorithms.py:55-57 | recording a new node's expansion distance keeps every traced value traced |
| DijkstraSteps.TracedVisit | algorithms.py:52-57 | popping (cd, u) for an unvisited u and recording cd as u's expansion distance keeps every distance and every queued pair traced |
| DijkstraSteps.TracedSkip | algorithms.py:52-56 | popping a pair of a visited node keeps every distance and every queued pair traced |
| DijkstraSteps.SourcedMeans | algorithms.py:62-73 | a traced value is the start's 0 or, for some expanded node u with an item (v, w), u's expansion distance plus w |
| DijkstraSteps.TracedMeans | algorithms.py:51-78 | every finite distance and every expansion distance of a traced state is the start's 0 or an expanded node's expansion distance plus the weight of its item for that node |
| DijkstraSteps.FromEntriesStart | algorithms.py:62 | before u's first item nothing has been written |
| DijkstraSteps.FromEntriesLowers | algorithms.py:62-73 | lowering v to cd + w for u's item (v, w), and pushing (cd + w, v), writes only values that u's items give |
| DijkstraSteps.RelaxImprove | algorithms.py:62-74 | an improving item (v, w) sets v to Fin(cd + w), pushes (cd + w, v), logs the updating, update and frontier events, and keeps the neighbour-loop invariant one item further, including that every write comes from u's items |
| DijkstraSteps.RelaxKeep | algorithms.py:62-78 | a non-improving item leaves distances and queue alone, logs the updating paint and, for an unvisited v, the default paint, and keeps the neighbour-loop invariant one item further |
| DijkstraSteps.SourcedOver | algorithms.py:62-73 | a value that u's items give at u's expansion distance, or one already traced, is traced once u is recorded as the source of every pair u's items can give |
| DijkstraSteps.TracedRelax | algorithms.py:62-78 | after u's items are relaxed at its expansion distance, every distance and every queued pair is still traced |
| BellmanFordSteps.BLogPaint | algorithms.py:111-130 | a visited, updating or default paint keeps the Bellman-Ford log facts, provided the start node is never painted default |
| BellmanFordSteps.BLogFrontier | algorithms.py:120-121 | a frontier paint right after the node's distance update keeps the log facts |
| BellmanFordSteps.BLogLower | algorithms.py:119-120 | showing a lower value right after the updating paint keeps the display equal to the distances |
| BellmanFordSteps.BellmanFordImprove | algorithms.py:111-130 | the events of an improving entry keep the log facts for the lowered distances |
| BellmanFordSteps.BellmanFordKeep | algorithms.py:111-130 | the events of a non-improving entry keep the log facts |
| BellmanFordSteps.BellmanFordStart | algorithms.py:88-97 | the opening state satisfies the Bellman-Ford invariant |
| BellmanFordSweep.EntryLowers | algorithms.py:115-125 | one entry never raises a distance; its flag rises exactly when d[u] is finite and d[u] + w is below d[v], and exactly when the distances change |
| BellmanFordSweep.NodeLowers | algorithms.py:107-125 | the entries of one node never raise a distance, and the flag rises exactly when the distances change |
| BellmanFordSweep.NodesLowers | algorithms.py:106-125 | the entries of a run of nodes never raise a distance, and the flag rises exactly when the distances change |
| BellmanFordSweep.NodeStill | algorithms.py:107-125 | when no entry of a node lowered anything, no entry of that node can lower the distances it started from |
| BellmanFordSweep.NodesStill | algorithms.py:106-125 | when no entry of a run of nodes lowered anything, none of their entries can lower the distances they started from |
| BellmanFordSweep.PassStill | algorithms.py:105-133 | a pass that changes nothing leaves the distances as they were, and then no entry of the graph can lower any of them |
| BellmanFordSweep.PassesDistances | algorithms.py:104-133 | the distances after the run are those after its number of passes |
| BellmanFordSweep.PassesChanged | algorithms.py:104-133 | every pass before the last one lowered some distance |
| BellmanFordSweep.PassesStopped | algorithms.py:132-133 | a run that stops before the pass limit ends with a pass that changed nothing |
| BellmanFordSweep.PassesStill | algorithms.py:132-133 | a run that stops before the pass limit leaves no entry able to lower any distance |
| BellmanFordSweep.PassesMeaning | algorithms.py:104-133 | the run's distances are those after its passes, every pass but the last lowered a distance, and stopping early means the last pass changed nothing and no entry can lower any distance |
| BellmanFordSweep.EntryCounts | algorithms.py:111-112 | each entry paints exactly one node visited and one node updating |
| BellmanFordSweep.NodeCounts | algorithms.py:107-112 | the entries of a node paint as many visited and as many updating as it has entries |
| BellmanFordSweep.NodesCounts | algorithms.py:106-112 | the entries of a run of nodes paint visited and updating as often as their out-degrees add up to |
| BellmanFordSweep.PassCounts | algorithms.py:105-112 | a pass adds one visited and one updating paint per adjacency entry of the graph |
| BellmanFordSweep.EntryKeepsState | algorithms.py:108-130 | the events of one entry keep the display facts: the display shows the distances, every event is valid, the start node is never painted default, and no update is left without its frontier paint |
| BellmanFordSweep.NodeKeepsState | algorithms.py:107-130 | the events of one node's entries keep the display facts |
| BellmanFordSweep.NodesKeepState | algorithms.py:106-130 | the events of a run of nodes keep the display facts |
| BellmanFordSweep.PassesKeepState | algorithms.py:104-133 | the events of the whole run keep the display facts |
| Algorithms.RelaxNeighbours | algorithms.py:62-78 | the neighbour loop: afterwards every entry of u is covered; every distance it changed is Fin(cd + w) and every pair it pushed is (cd + w, v), for an item (v, w) of u, cd being the popped distance; one step and one updating paint per entry, one frontier paint per push |
| Algorithms.PopAndExpand | algorithms.py:51-78 | one round of the main loop pops a least pair (cd, u), keeps the invariant, keeps every distance and queued pair traced to an expanded node's item, writes only cd + w for u's items (v, w), and either visits a new node or shrinks the queue |
| Algorithms.RelaxEntry | algorithms.py:107-130 | one entry exactly as EntrySweep describes it: one step, the visited and updating paints, then the lowered distance with its update and frontier paint or the default paint of v unless it is the start, then the default paint of u unless it is the start |
| Algorithms.RelaxEntries | algorithms.py:107-130 | the entries of one node, one after the other, exactly as NodeSweep describes them: the distances, the events (for each entry the visited paint of u, the updating paint of v, then the update and frontier paint or the default paint, then the default paint of u) and a flag that rises exactly when an entry lowers a distance; one step per entry |
| Algorithms.RelaxPass | algorithms.py:105-130 | one pass is exactly PassSweep: no distance rises, `changed` is set exactly when some distance was lowered, and if nothing changed no entry can lower any distance; one step per adjacency entry |
| Algorithms.RunPasses | algorithms.py:100-133 | the pass loop is exactly PassesRun: at most \|nodes\| − 1 passes, stopping after the first pass that changes nothing; steps, visited paints and updating paints each number passes × entries |
| Algorithms.NextPass | algorithms.py:104-133 | one iteration of the pass loop takes the run one pass further, or completes it when the pass changed nothing; one step, one visited and one updating paint per entry |
| Algorithms.PassesDisplay | algorithms.py:87-133 | after the opening events and the run's events, the display shows the run's distances, every event is valid, the start node is never painted default, and frontier is painted exactly after each distance update |
| Algorithms.PassesDistancesFromStart | algorithms.py:87-133 | from the opening distances, the run ends with the distances after its passes, every pass but the last lowered a distance, and stopping early means no entry can lower any distance |
| Algorithms.AlgorithmRunner.constructor | algorithms.py:22-24 | a fresh runner has a 400 ms delay and an empty log |
| Algorithms.AlgorithmRunner.RunDijkstra | algorithms.py:32-85 | the log is the opening events, the loop events and the metrics; the display ends with the distances; each distance update is followed by a frontier paint and nothing else is; every node is expanded at most once and every reached node is expanded; no entry of an expanded node can lower a distance below its expansion value; whatever the weights, every finite distance and every expansion distance is the start's 0 or an expanded node's expansion distance plus the weight of its item for that node; steps are pops plus examined entries; execution time is the clock difference |
| Algorithms.AlgorithmRunner.RunBellmanFord | algorithms.py:87-138 | the log is the opening events, the loop events and the metrics; the display ends with the distances; each distance update is followed by a frontier paint and nothing else is; the start node is never painted default; the loop events and distances are those of PassesRun from the opening distances; every pass but the last lowered a distance; a run that stops early ends with a pass that changed nothing and with no entry able to lower any distance; steps, visited and updating paints number passes × entries; execution time is the clock difference |

Proof helpers have no row: the walk lemmas of `Walks` (reading a walk position by position, splitting its weight, cutting out loops, the pigeonhole step, shortening walks), `Graphs.ReachesExtend` and `Graphs.ClosedAlongPath`, and the unfolding, counting and sequence lemmas beside the sweep functions, `RunnerEvents.HasItemMeans` and `RunnerEvents.HasItemAt` (reading the item search), and `Algorithms.StartListed`.

## Left out

- The graphical shell is not modelled: windows, scene drawing, layout, colours and button wiring.
- `AlgorithmRunner.wait` and the Qt event loop are not modelled. Each `emit` is an append to a ghost log.
- The metrics text is not modelled. The log records the two numbers the f-string formats.
- The `__main__` drivers are not modelled: input, print and wall-clock timing. Their edge doubling is `Graphs.Undirected`.
- `time.perf_counter` is not modelled. The clock readings are parameters of `Start`, `Stop` and the runners.
- NumPy's random generator is not modelled. The draws are inputs with their ranges as preconditions.
  - Spanning targets keep the real draw in [0, 1) and the truncated product.
  - The other draws are integers.
- The `int()` normalisation in `bellmanFord` is the identity on Dafny integers.
- Node indices are natural numbers. A negative index in Python wraps to the end of the list, at `dist[int(src)]` and `dist[u]` in src/algorithms/bellman_ford.py:24,30 and at `adj[u]`, `adj[v]` in src/algorithms/dijkstra.py:17-18. The model does not capture that wrap-around, because its edges and sources cannot be negative.
- Both `float('inf')` and `sys.maxsize` are the `Inf` constructor. A finite distance of `sys.maxsize` or more is therefore not treated as "unreachable" the way the batch Dijkstra would treat it.
- `heapq` is a multiset of (distance, node) pairs. A pop takes the lexicographically least pair, and nodes are natural numbers ordered as Python orders the tuples.
- In the runners, node labels are natural numbers. The dictionaries are a node sequence in key order plus a map from node to its (neighbour, weight) items in order.
- Algorithms.AlgorithmRunner.RunDijkstra: returns its distances, the loop events and the expansion map so they can be stated; the source returns nothing.
- Algorithms.AlgorithmRunner.RunDijkstra: does not prove that the distances are shortest. It proves that expansion closes every entry of an expanded node (exact only for non-negative weights), that every reached node is expanded, and, for any weights, that every finite distance is the start's 0 or an expanded node's expansion distance plus one item's weight.
- Algorithms.AlgorithmRunner.RunBellmanFord: returns its distances, the loop events and the pass count so they can be stated; the source returns nothing.
- Algorithms.AlgorithmRunner.RunBellmanFord: does not relate its distances to walks of the graph. It states that they are the distances after its passes, that every pass but the last lowered one, and that an early stop leaves no entry able to lower any of them.
- The runners require the start node to be a key and every neighbour key to be a graph key. Without these, the source raises `KeyError` in `run_dijkstra` at the first examined entry whose neighbour is not a key (algorithms.py:70). In `run_bellman_ford` it raises only when such an entry is examined while `distances[u]` is finite, because the `and` at algorithms.py:116-117 stops before `distances[v]` otherwise. The model does not cover those partial runs.
- Dijkstra.Run: requires non-negative weights, under which the heap loop provably terminates. Because the lists are undirected, every negative edge is a cycle of negative weight through its two ends. Once either end is reached, the source loop never terminates: with edges [(0, 1, -1)] and src 0 it pops (−1, 1), (−2, 0), (−3, 1) and so on. Runs that do terminate are not modelled.
- Dijkstra.Run keeps `dist` as a sequence value that it reassigns, and reads the adjacency array that `ConstructAdj` fills. `BellmanFord.Run` keeps `dist` as an array, updated in place by `RelaxAll`.
- Runner loop bodies: the neighbour loop, the per-node loop and the pass loop are separate methods (`RelaxNeighbours`, `PopAndExpand`, `RelaxEntry`, `RelaxEntries`, `RelaxPass`, `RunPasses`), and the body of the pass loop is `NextPass`. Each keeps the source's statements in order. In batch Dijkstra the neighbour loop and its body are `Dijkstra.Expand` and `Dijkstra.RelaxEntry`; the body computes `dist[u] + weight` once and uses it for the test, the update and the push.
- The opening "unreachable" events of both runners are added to the log in one ghost step (`InitialEvents`).
- The graph generator's extra-edge count is drawn from [n // 2, n), as the code does.
- BFS and DFS do not appear in the modelled source files, so they are not modelled.
