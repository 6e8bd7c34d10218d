/** The instrumented runners behind the visualiser: dictionary-keyed Dijkstra
    and Bellman-Ford that count their steps on the shared operation counter
    and announce every state change as an event for the display. The events
    form a ghost log; the visual delays are not modelled. */
module Algorithms {
  import opened Graphs
  import opened Counter
  import opened RunnerEvents
  import opened DijkstraSteps
  import opened BellmanFordSteps
  import opened BellmanFordSweep
  import Dijkstra

  // ---------------------------------------------------------------------
  // The runner
  // ---------------------------------------------------------------------

  /** The neighbour loop of run_dijkstra for u, popped at cd: one step and
      an "updating" paint per entry; an entry (v, w) that improves its
      neighbour lowers v to cd + w, shows it, queues (cd + w, v) and paints v
      frontier, any other entry paints the neighbour back to default unless
      it is visited. */
  method RelaxNeighbours(graph: Graph, ghost init: seq<Event>, u: nat, cd: int,
                         distances0: map<nat, Dist>, pq0: multiset<Dijkstra.Entry>, visited: set<nat>,
                         ghost expandedAt: map<nat, int>, ghost body0: seq<Event>, ghost before: seq<nat>,
                         pm: OperationCounter, ghost pops: int, ghost t0: real)
    returns (distances: map<nat, Dist>, pq: multiset<Dijkstra.Entry>, ghost body: seq<Event>)
    requires NeighboursAreKeys(graph) && DInner(graph, init, distances0, pq0, visited, expandedAt, body0, u, cd, 0, before)
    requires pm.startTime == t0 && pm.executionTime == 0.0
    requires pm.steps == pops + CountState(body0, Updating)
    requires pops + |pq0| == 1 + CountState(body0, Frontier)
    modifies pm
    ensures DInner(graph, init, distances, pq, visited, expandedAt, body, u, cd, |graph.adj[u]|, before)
    // A changed distance, and a newly queued pair, is cd plus the weight of
    // an item of u for that neighbour.
    ensures FromEntries(graph, u, cd, distances0, distances, pq0, pq)
    ensures pm.startTime == t0 && pm.executionTime == 0.0
    ensures pm.steps == pops + CountState(body, Updating)
    ensures pops + |pq| == 1 + CountState(body, Frontier)
  {
    distances, pq, body := distances0, pq0, body0;
    var nbrs := graph.adj[u];
    for k := 0 to |nbrs|
      invariant pm.startTime == t0 && pm.executionTime == 0.0
      invariant Relaxing(graph, init, distances0, pq0, distances, pq, visited, expandedAt, body, u, cd, k, before)
      invariant pm.steps == pops + CountState(body, Updating)
      invariant pops + |pq| == 1 + CountState(body, Frontier)
    {
      var (v, weight) := nbrs[k];
      pm.Increment();
      var newDist := cd + weight;
      ghost var b := body;
      body := body + [State(v, Updating)];
      if Below(newDist, distances[v]) {
        RelaxImprove(graph, init, distances0, pq0, distances, pq, visited, expandedAt, b, u, cd, k, before, v, weight, newDist);
        distances := distances[v := Fin(newDist)];
        body := body + [DistUpdate(v, Fin(newDist))];
        pq := pq + multiset{(newDist, v)};
        body := body + [State(v, Frontier)];
      } else {
        RelaxKeep(graph, init, distances0, pq0, distances, pq, visited, expandedAt, b, u, cd, k, before, v, weight);
        if v !in visited {
          body := body + [State(v, Default)];
        }
      }
    }
  }

  /** One round of run_dijkstra's main loop: pop the least pair, one step;
      skip it if its node is visited, otherwise paint the node visited and
      relax its neighbours at the popped distance. */
  method PopAndExpand(graph: Graph, ghost start: nat, ghost init: seq<Event>, distances0: map<nat, Dist>,
                      pq0: multiset<Dijkstra.Entry>, visited0: set<nat>, ghost expandedAt0: map<nat, int>,
                      ghost body0: seq<Event>, pm: OperationCounter, ghost pops0: int, ghost t0: real,
                      ghost src0: map<Dijkstra.Entry, nat>)
    returns (distances: map<nat, Dist>, pq: multiset<Dijkstra.Entry>, visited: set<nat>,
             ghost expandedAt: map<nat, int>, ghost body: seq<Event>, ghost pops: int, ghost popped: Dijkstra.Entry,
             ghost src: map<Dijkstra.Entry, nat>)
    requires WellFormed(graph) && pq0 != multiset{}
    requires DOuter(graph, init, distances0, pq0, visited0, expandedAt0, body0)
    requires Traced(graph, start, distances0, pq0, expandedAt0, src0)
    requires pm.startTime == t0 && pm.executionTime == 0.0
    requires pm.steps == pops0 + CountState(body0, Updating)
    requires pops0 + |pq0| == 1 + CountState(body0, Frontier)
    modifies pm
    ensures DOuter(graph, init, distances, pq, visited, expandedAt, body)
    ensures Traced(graph, start, distances, pq, expandedAt, src)
    // The least pair is popped; a changed distance, and a newly queued pair,
    // is the popped distance plus the weight of an entry of the popped node.
    ensures Dijkstra.IsMin(popped, pq0)
    ensures FromEntries(graph, popped.1, popped.0, distances0, distances, pq0 - multiset{popped}, pq)
    ensures pm.startTime == t0 && pm.executionTime == 0.0
    ensures pm.steps == pops + CountState(body, Updating)
    ensures pops + |pq| == 1 + CountState(body, Frontier)
    // Either a node joins the visited set, or the queue shrinks.
    ensures visited0 < visited <= graph.adj.Keys || (visited == visited0 && |pq| < |pq0|)
  {
    Dijkstra.MinExists(pq0);
    var e :| Dijkstra.IsMin(e, pq0);
    popped := e;
    var (currentDist, u) := e;
    pm.Increment();
    pops := pops0 + 1;
    if u in visited0 {
      DijkstraSkip(graph, init, distances0, pq0, visited0, expandedAt0, body0, e);
      TracedSkip(graph, start, distances0, pq0, expandedAt0, src0, e);
      FromEntriesStart(graph, u, currentDist, distances0, pq0 - multiset{e});
      distances, pq, visited, expandedAt, body, src := distances0, pq0 - multiset{e}, visited0, expandedAt0, body0, src0;
      return;
    }
    DijkstraVisit(graph, init, distances0, pq0, visited0, expandedAt0, body0, currentDist, u);
    ghost var before := Visits(body0);
    pq := pq0 - multiset{(currentDist, u)};
    visited := visited0 + {u};
    ghost var pq1 := pq;
    TracedVisit(graph, start, distances0, pq0, expandedAt0, src0, currentDist, u);
    body := body0 + [State(u, Visited)];
    distances, pq, body := RelaxNeighbours(graph, init, u, currentDist, distances0, pq, visited,
                                           expandedAt0, body, before, pm, pops, t0);
    DijkstraExpanded(graph, init, distances, pq, visited, expandedAt0, body, u, currentDist, before);
    expandedAt := expandedAt0[u := currentDist];
    TracedRelax(graph, start, distances0, pq1, expandedAt, src0, u, currentDist, distances, pq);
    src := src0 + map e | e in Writable(graph.adj[u], currentDist) :: u;
  }

  /** Entry (v, w) of u in a pass of run_bellman_ford, as EntrySweep
      describes it: one step, u painted visited and v updating; when
      distances[u] is finite and lowers v, v's new value is shown, v is
      painted frontier and `changed` is set, otherwise v goes back to default
      unless it is the start; then u goes back to default unless it is the
      start. */
  method RelaxEntry(graph: Graph, startNode: nat, u: nat, v: nat, weight: int,
                    distances0: map<nat, Dist>, changed0: bool, ghost body0: seq<Event>,
                    pm: OperationCounter, ghost s0: int, ghost t0: real)
    returns (distances: map<nat, Dist>, changed: bool, ghost body: seq<Event>)
    requires distances0.Keys == graph.adj.Keys && u in graph.adj && v in graph.adj
    requires pm.steps == s0 && pm.startTime == t0 && pm.executionTime == 0.0
    modifies pm
    ensures var t := EntrySweep(startNode, u, v, weight, distances0);
      distances == t.distances && changed == (changed0 || t.changed) && body == body0 + t.events
    ensures distances.Keys == graph.adj.Keys
    ensures pm.steps == s0 + 1 && pm.startTime == t0 && pm.executionTime == 0.0
  {
    pm.Increment();
    distances, changed := distances0, changed0;
    body := body0 + [State(u, Visited)];
    body := body + [State(v, Updating)];
    if distances[u].Fin? && Below(distances[u].d + weight, distances[v]) {
      var newDist := distances[u].d + weight;
      distances := distances[v := Fin(newDist)];
      body := body + [DistUpdate(v, Fin(newDist))];
      body := body + [State(v, Frontier)];
      changed := true;
    } else {
      if v != startNode {
        body := body + [State(v, Default)];
      }
    }
    if u != startNode {
      body := body + [State(u, Default)];
    }
  }

  /** The entries of node u in one pass of run_bellman_ford, in dictionary
      order, as NodeSweep describes them. */
  method RelaxEntries(graph: Graph, startNode: nat, u: nat, distances0: map<nat, Dist>, changed0: bool,
                      ghost body0: seq<Event>, pm: OperationCounter, ghost s0: int, ghost t0: real)
    returns (distances: map<nat, Dist>, changed: bool, ghost body: seq<Event>)
    requires WellFormed(graph) && u in graph.adj && distances0.Keys == graph.adj.Keys
    requires pm.steps == s0 && pm.startTime == t0 && pm.executionTime == 0.0
    modifies pm
    ensures var s := NodeSweep(startNode, u, graph.adj[u], distances0);
      distances == s.distances && changed == (changed0 || s.changed) && body == body0 + s.events
    ensures distances.Keys == graph.adj.Keys
    ensures pm.steps == s0 + |graph.adj[u]| && pm.startTime == t0 && pm.executionTime == 0.0
  {
    distances, changed, body := distances0, changed0, body0;
    var nbrs := graph.adj[u];
    for k := 0 to |nbrs|
      invariant var s := NodeSweep(startNode, u, nbrs[..k], distances0);
        distances == s.distances && changed == (changed0 || s.changed) && body == body0 + s.events
      invariant distances.Keys == graph.adj.Keys
      invariant pm.steps == s0 + k && pm.startTime == t0 && pm.executionTime == 0.0
    {
      var (v, weight) := nbrs[k];
      ghost var s := NodeSweep(startNode, u, nbrs[..k], distances0);
      distances, changed, body := RelaxEntry(graph, startNode, u, v, weight, distances, changed, body,
                                             pm, pm.steps, t0);
      NodeSweepNext(startNode, u, nbrs, k, distances0);
      EventsAssoc(body0, s.events, EntrySweep(startNode, u, v, weight, s.distances).events);
    }
    assert nbrs[..|nbrs|] == nbrs;
  }

  /** One pass of run_bellman_ford over every node in dictionary order, as
      PassSweep describes it: `changed` is set exactly when some distance
      was lowered, and when nothing changed no entry of the graph can lower
      any distance. */
  method RelaxPass(graph: Graph, startNode: nat, distances0: map<nat, Dist>,
                   ghost body0: seq<Event>, pm: OperationCounter, ghost s0: int, ghost t0: real)
    returns (distances: map<nat, Dist>, changed: bool, ghost body: seq<Event>)
    requires WellFormed(graph) && distances0.Keys == graph.adj.Keys
    requires pm.steps == s0 && pm.startTime == t0 && pm.executionTime == 0.0
    modifies pm
    ensures var s := PassSweep(graph, startNode, distances0);
      distances == s.distances && changed == s.changed && body == body0 + s.events
    ensures Lowered(distances0, distances) && (changed <==> distances != distances0)
    ensures !changed ==> NoneRelaxable(graph, distances)
    ensures pm.steps == s0 + TotalEntries(graph) && pm.startTime == t0 && pm.executionTime == 0.0
  {
    distances, changed, body := distances0, false, body0;
    for j := 0 to |graph.nodes|
      invariant var s := NodesSweep(graph, startNode, graph.nodes[..j], distances0);
        distances == s.distances && changed == s.changed && body == body0 + s.events
      invariant distances.Keys == graph.adj.Keys
      invariant pm.steps == s0 + OutDegrees(graph, graph.nodes[..j])
      invariant pm.startTime == t0 && pm.executionTime == 0.0
    {
      var u := graph.nodes[j];
      ghost var s := NodesSweep(graph, startNode, graph.nodes[..j], distances0);
      distances, changed, body := RelaxEntries(graph, startNode, u, distances, changed, body, pm, pm.steps, t0);
      OutDegreesPrefix(graph, j);
      NodesSweepNext(graph, startNode, j, distances0);
      EventsAssoc(body0, s.events, NodeSweep(startNode, u, graph.adj[u], s.distances).events);
    }
    assert graph.nodes[..|graph.nodes|] == graph.nodes;
    NodesLowers(graph, startNode, graph.nodes, distances0);
    PassStill(graph, startNode, distances0);
  }

  /** One iteration of the pass loop of run_bellman_ford, part way through
      the run of at most k passes from d0: the pass either lowers something
      and the run goes on, or it lowers nothing and the run is complete. */
  method NextPass(graph: Graph, startNode: nat, ghost run: PassRun, ghost k: nat,
                  distances0: map<nat, Dist>, ghost body0: seq<Event>, ghost passes0: nat,
                  pm: OperationCounter, ghost t0: real)
    returns (distances: map<nat, Dist>, changed: bool, ghost body: seq<Event>)
    requires WellFormed(graph) && distances0.Keys == graph.adj.Keys && passes0 < k
    requires RunSoFar(graph, startNode, run, k, distances0, body0, passes0)
    requires pm.steps == passes0 * TotalEntries(graph) && pm.startTime == t0 && pm.executionTime == 0.0
    requires CountState(body0, Updating) == pm.steps && CountState(body0, Visited) == pm.steps
    modifies pm
    ensures distances.Keys == graph.adj.Keys
    ensures changed ==> RunSoFar(graph, startNode, run, k, distances, body, passes0 + 1)
    ensures !changed ==> run == PassRun(distances, body, passes0 + 1)
    ensures pm.steps == (passes0 + 1) * TotalEntries(graph) && pm.startTime == t0 && pm.executionTime == 0.0
    ensures CountState(body, Updating) == pm.steps && CountState(body, Visited) == pm.steps
  {
    distances, changed, body := RelaxPass(graph, startNode, distances0, body0, pm, pm.steps, t0);
    PassCounts(graph, startNode, distances0, body0, Updating);
    PassCounts(graph, startNode, distances0, body0, Visited);
    MulSucc(passes0, TotalEntries(graph));
    if changed {
      RunSoFarNext(graph, startNode, run, k, distances0, body0, passes0);
    } else {
      RunSoFarStop(graph, startNode, run, k, distances0, body0, passes0);
    }
  }

  /** A graph with a start node lists at least one node. */
  lemma StartListed(graph: Graph, startNode: nat)
    requires WellFormed(graph) && startNode in graph.adj
    ensures 1 <= |graph.nodes|
  {
    assert startNode in graph.nodes;
  }

  /** The passes of run_bellman_ford, as PassesRun describes them: at most
      |nodes| - 1 of them, stopping after the first pass that changes
      nothing; one step, one "visited" and one "updating" paint per entry
      per pass. */
  method RunPasses(graph: Graph, startNode: nat, distances0: map<nat, Dist>, pm: OperationCounter, ghost t0: real)
    returns (distances: map<nat, Dist>, ghost body: seq<Event>, ghost passes: nat)
    requires WellFormed(graph) && startNode in graph.adj && distances0.Keys == graph.adj.Keys
    requires pm.steps == 0 && pm.startTime == t0 && pm.executionTime == 0.0
    modifies pm
    ensures 1 <= |graph.nodes|
    ensures PassesRun(graph, startNode, distances0, |graph.nodes| - 1) == PassRun(distances, body, passes)
    ensures passes <= |graph.nodes| - 1 && pm.steps == passes * TotalEntries(graph)
    ensures CountState(body, Updating) == pm.steps && CountState(body, Visited) == pm.steps
    ensures pm.startTime == t0 && pm.executionTime == 0.0
  {
    StartListed(graph, startNode);
    distances, body := distances0, [];
    var numVertices := |graph.nodes|;
    ghost var run := PassesRun(graph, startNode, distances0, numVertices - 1);
    RunSoFarStart(graph, startNode, distances0, numVertices - 1);
    passes := 0;
    ghost var stopped := false;
    var i := 0;
    while i < numVertices - 1
      invariant i == passes <= numVertices - 1 && !stopped
      invariant RunSoFar(graph, startNode, run, numVertices - 1, distances, body, passes)
      invariant distances.Keys == graph.adj.Keys
      invariant pm.steps == passes * TotalEntries(graph) && pm.startTime == t0 && pm.executionTime == 0.0
      invariant CountState(body, Updating) == pm.steps && CountState(body, Visited) == pm.steps
    {
      var changed: bool;
      distances, changed, body := NextPass(graph, startNode, run, numVertices - 1,
                                           distances, body, passes, pm, t0);
      passes := passes + 1;
      if !changed {
        stopped := true;
        break;
      }
      i := i + 1;
    }
    if !stopped {
      RunSoFarEnd(graph, startNode, run, numVertices - 1, distances, body);
    }
  }

  /** The display after the passes from the opening distances: every event
      obeys the rules of the Bellman-Ford display, each distance update is
      followed by a frontier paint and nothing else is, and the display shows
      exactly the distances the passes computed. */
  lemma PassesDisplay(graph: Graph, startNode: nat, distances: map<nat, Dist>, body: seq<Event>, passes: nat)
    requires WellFormed(graph) && startNode in graph.adj
    requires var r := PassesRun(graph, startNode, StartDistances(graph, startNode), |graph.nodes| - 1);
      distances == r.distances && body == r.events && passes == r.passes
    ensures var init := InitialEvents(graph.nodes, startNode);
      && distances.Keys == graph.adj.Keys
      && (forall v | v in graph.adj :: LastDist(init + body, v) == distances[v])
      && BellmanFordTrace(init + body, |init|, startNode)
      && FrontierExactlyOnUpdate(init + body, |init|)
  {
    var init := InitialEvents(graph.nodes, startNode);
    var d0 := StartDistances(graph, startNode);
    BellmanFordStart(graph, startNode);
    PassesKeepState(graph, init, startNode, d0, [], |graph.nodes| - 1);
    NoEventsBefore(body);
    BellmanFordFrontiers(init + body, |init|, startNode);
  }

  /** The distances after the passes from the opening distances: those of
      the passes made, every pass but the last lowered some distance, and a
      run cut short ended with a pass that changed nothing, after which no
      entry can lower any distance. */
  lemma PassesDistancesFromStart(graph: Graph, startNode: nat, distances: map<nat, Dist>, passes: nat)
    requires WellFormed(graph) && startNode in graph.adj
    requires var r := PassesRun(graph, startNode, StartDistances(graph, startNode), |graph.nodes| - 1);
      distances == r.distances && passes == r.passes
    ensures var d0 := StartDistances(graph, startNode);
      && distances == After(graph, startNode, d0, passes)
      && (forall i | 1 <= i < passes :: PassLowered(graph, startNode, d0, i))
      && (passes < |graph.nodes| - 1 ==>
           && 1 <= passes
           && distances == After(graph, startNode, d0, passes - 1)
           && NoneRelaxable(graph, distances))
  {
    PassesMeaning(graph, startNode, StartDistances(graph, startNode), |graph.nodes| - 1);
  }

  lemma MulSucc(p: nat, t: nat)
    ensures (p + 1) * t == p * t + t
  {
  }

  class AlgorithmRunner {
    /** The visual delay between steps, in milliseconds. */
    var delayMs: int
    /** Every signal emitted so far. */
    ghost var log: seq<Event>

    constructor ()
      ensures delayMs == 400 && log == []
    {
      delayMs := 400;
      log := [];
    }

    /** run_dijkstra(graph, start_node), counting on pm and reading the clock
        as t0 at the start and t1 at the end. */
    method RunDijkstra(graph: Graph, startNode: nat, pm: OperationCounter, t0: real, t1: real)
      returns (distances: map<nat, Dist>, ghost body: seq<Event>, ghost expandedAt: map<nat, int>)
      requires WellFormed(graph) && startNode in graph.adj
      modifies this, pm
      ensures log == old(log) + InitialEvents(graph.nodes, startNode) + body + [Metrics(pm.steps, pm.executionTime)]
      ensures pm.startTime == t0 && pm.executionTime == t1 - t0
      ensures distances.Keys == graph.adj.Keys
      // The display ends up showing exactly the computed distances.
      ensures forall v | v in graph.adj :: LastDist(InitialEvents(graph.nodes, startNode) + body, v) == distances[v]
      ensures DijkstraTrace(InitialEvents(graph.nodes, startNode) + body, |InitialEvents(graph.nodes, startNode)|)
      // A node is painted frontier exactly right after each of its distance updates.
      ensures FrontierExactlyOnUpdate(InitialEvents(graph.nodes, startNode) + body, |InitialEvents(graph.nodes, startNode)|)
      // Each node is expanded at most once; every reached node is expanded.
      ensures Distinct(Visits(body)) && expandedAt.Keys == (set u | u in Visits(body))
      ensures forall v | v in graph.adj && distances[v].Fin? :: v in expandedAt
      ensures ExpandedClosed(graph, distances, expandedAt)
      // Whatever the weights, every finite distance and every expansion
      // distance is the start's 0, or the expansion distance of some
      // expanded node u plus the weight of u's item for that node.
      ensures forall v | v in distances && distances[v].Fin? :: FromExpanded(graph, startNode, expandedAt, distances[v].d, v)
      ensures forall x | x in expandedAt :: FromExpanded(graph, startNode, expandedAt, expandedAt[x], x)
      // One step per pop and per examined neighbour.
      ensures forall u | u in Visits(body) :: u in graph.adj
      ensures CountState(body, Updating) == OutDegrees(graph, Visits(body))
      ensures pm.steps == 1 + CountState(body, Frontier) + CountState(body, Updating)
    {
      pm.Start(t0);
      distances := map u | u in graph.adj :: Inf;
      distances := distances[startNode := Fin(0)];
      ghost var init := InitialEvents(graph.nodes, startNode);

      var pq: multiset<Dijkstra.Entry> := multiset{(0, startNode)};
      var visited: set<nat> := {};
      body := [];
      expandedAt := map[];
      ghost var pops := 0;
      ghost var src: map<Dijkstra.Entry, nat> := map[];
      DijkstraStart(graph, startNode);
      TracedStart(graph, startNode);

      while pq != multiset{}
        invariant log == old(log)
        invariant pm.startTime == t0 && pm.executionTime == 0.0
        invariant DOuter(graph, init, distances, pq, visited, expandedAt, body)
        invariant Traced(graph, startNode, distances, pq, expandedAt, src)
        invariant pm.steps == pops + CountState(body, Updating)
        invariant pops + |pq| == 1 + CountState(body, Frontier)
        decreases graph.adj.Keys - visited, |pq|
      {
        ghost var popped;
        distances, pq, visited, expandedAt, body, pops, popped, src :=
          PopAndExpand(graph, startNode, init, distances, pq, visited, expandedAt, body, pm, pops, t0, src);
      }
      DijkstraFinish(graph, startNode, init, distances, visited, expandedAt, body, src);
      pm.Stop(t1);
      log := log + init + body + [Metrics(pm.steps, pm.executionTime)];
    }

    /** run_bellman_ford(graph, start_node), counting on pm and reading the
        clock as t0 at the start and t1 at the end. At most |nodes| - 1
        passes; a pass that changes nothing ends the run, and then no entry
        can lower any distance. */
    method RunBellmanFord(graph: Graph, startNode: nat, pm: OperationCounter, t0: real, t1: real)
      returns (distances: map<nat, Dist>, ghost body: seq<Event>, ghost passes: nat)
      requires WellFormed(graph) && startNode in graph.adj
      modifies this, pm
      ensures log == old(log) + InitialEvents(graph.nodes, startNode) + body + [Metrics(pm.steps, pm.executionTime)]
      ensures pm.startTime == t0 && pm.executionTime == t1 - t0
      ensures distances.Keys == graph.adj.Keys
      // The display ends up showing exactly the computed distances.
      ensures forall v | v in graph.adj :: LastDist(InitialEvents(graph.nodes, startNode) + body, v) == distances[v]
      ensures BellmanFordTrace(InitialEvents(graph.nodes, startNode) + body, |InitialEvents(graph.nodes, startNode)|,
                               startNode)
      // A node is painted frontier exactly right after each of its distance updates.
      ensures FrontierExactlyOnUpdate(InitialEvents(graph.nodes, startNode) + body, |InitialEvents(graph.nodes, startNode)|)
      // The passes, their paints and their distances are those PassesRun gives.
      ensures 1 <= |graph.nodes|
      ensures var r := PassesRun(graph, startNode, StartDistances(graph, startNode), |graph.nodes| - 1);
        distances == r.distances && body == r.events && passes == r.passes
      // Every pass but the last lowered some distance; a run of fewer than
      // |nodes| - 1 passes ended with a pass that changed nothing, and then
      // no entry can lower any distance.
      ensures distances == After(graph, startNode, StartDistances(graph, startNode), passes)
      ensures forall i | 1 <= i < passes :: PassLowered(graph, startNode, StartDistances(graph, startNode), i)
      ensures passes < |graph.nodes| - 1 ==>
        && 1 <= passes
        && distances == After(graph, startNode, StartDistances(graph, startNode), passes - 1)
        && NoneRelaxable(graph, distances)
      // One step, one "visited" paint and one "updating" paint per adjacency
      // entry per pass.
      ensures passes <= |graph.nodes| - 1 && pm.steps == passes * TotalEntries(graph)
      ensures CountState(body, Updating) == pm.steps && CountState(body, Visited) == pm.steps
    {
      pm.Start(t0);
      distances := map u | u in graph.adj :: Inf;
      distances := distances[startNode := Fin(0)];
      ghost var init := InitialEvents(graph.nodes, startNode);
      body := [];

      assert distances == StartDistances(graph, startNode);
      distances, body, passes := RunPasses(graph, startNode, distances, pm, t0);
      PassesDisplay(graph, startNode, distances, body, passes);
      PassesDistancesFromStart(graph, startNode, distances, passes);
      pm.Stop(t1);
      log := log + init + body + [Metrics(pm.steps, pm.executionTime)];
    }
  }
}
