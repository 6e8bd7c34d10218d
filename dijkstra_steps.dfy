/** How each step of run_dijkstra keeps its invariant: one lemma per
    kind of step, each built from lemmas about one part of the state. */
module DijkstraSteps {
  import opened Graphs
  import opened RunnerEvents
  import Dijkstra

  lemma ReachedLower(g: Graph, d1: map<nat, Dist>, d2: map<nat, Dist>, u: nat, cd: int, k: nat)
    requires Reached(g, d1, u, cd, k) && Lowered(d1, d2)
    ensures Reached(g, d2, u, cd, k)
  {
    forall j | 0 <= j < k
      ensures AtMost(d2[g.adj[u][j].0], Fin(cd + g.adj[u][j].1))
    {
      assert AtMost(d2[g.adj[u][j].0], d1[g.adj[u][j].0]);
    }
  }

  lemma ClosedLower(g: Graph, d1: map<nat, Dist>, d2: map<nat, Dist>, expandedAt: map<nat, int>)
    requires ExpandedClosed(g, d1, expandedAt) && Lowered(d1, d2)
    ensures ExpandedClosed(g, d2, expandedAt)
  {
    forall u | u in expandedAt && u in g.adj
      ensures Reached(g, d2, u, expandedAt[u], |g.adj[u]|)
    {
      ReachedLower(g, d1, d2, u, expandedAt[u], |g.adj[u]|);
    }
  }

  lemma LowerOne(d: map<nat, Dist>, v: nat, nd: int)
    requires v in d && Below(nd, d[v])
    ensures Lowered(d, d[v := Fin(nd)])
  {
  }

  /** Entry k of u is at most cd plus its weight: the expansion covers k + 1 entries. */
  lemma ReachedStep(g: Graph, d: map<nat, Dist>, u: nat, cd: int, k: nat)
    requires Reached(g, d, u, cd, k) && k < |g.adj[u]|
    requires g.adj[u][k].0 in d && AtMost(d[g.adj[u][k].0], Fin(cd + g.adj[u][k].1))
    ensures Reached(g, d, u, cd, k + 1)
  {
  }

  /** A node whose whole list is covered at cd joins the expanded nodes. */
  lemma ClosedExpand(g: Graph, d: map<nat, Dist>, expandedAt: map<nat, int>, u: nat, cd: int)
    requires ExpandedClosed(g, d, expandedAt) && u in g.adj && Reached(g, d, u, cd, |g.adj[u]|)
    ensures ExpandedClosed(g, d, expandedAt[u := cd])
  {
  }

  /** Popping e leaves the queue facts with e's node visited. */
  lemma PopQueue(g: Graph, distances: map<nat, Dist>, pq: multiset<Dijkstra.Entry>, visited: set<nat>,
                 e: Dijkstra.Entry)
    requires QueueOk(g, distances, pq, visited) && e in pq
    ensures e.1 in g.adj && QueueOk(g, distances, pq - multiset{e}, visited + {e.1})
  {
    forall v | v in g.adj && distances[v].Fin? && v !in visited + {e.1}
      ensures (distances[v].d, v) in pq - multiset{e}
    {
      assert (distances[v].d, v) != e;
    }
  }

  /** Lowering distances[v] to nd and queueing (nd, v) keeps the queue facts. */
  lemma ImproveQueue(g: Graph, distances: map<nat, Dist>, pq: multiset<Dijkstra.Entry>, visited: set<nat>,
                     v: nat, nd: int)
    requires QueueOk(g, distances, pq, visited) && v in g.adj && Below(nd, distances[v])
    ensures QueueOk(g, distances[v := Fin(nd)], pq + multiset{(nd, v)}, visited)
  {
  }

  lemma LogVisit(g: Graph, init: seq<Event>, distances: map<nat, Dist>, visited: set<nat>, body: seq<Event>,
                 order: seq<nat>, u: nat)
    requires LogOk(g, init, distances, visited, body, order) && u !in visited
    ensures LogOk(g, init, distances, visited + {u}, body + [State(u, Visited)], order + [u])
    ensures Visits(body + [State(u, Visited)]) == Visits(body) + [u]
    ensures forall c | c != Visited :: CountState(body + [State(u, Visited)], c) == CountState(body, c)
  {
    var x := State(u, Visited);
    Emit(init, body, x);
    DijkstraStep(init + body, x, |init|);
  }

  /** Painting v "updating" keeps the log facts. */
  lemma LogUpdating(g: Graph, init: seq<Event>, distances: map<nat, Dist>, visited: set<nat>, body: seq<Event>,
                    order: seq<nat>, v: nat)
    requires LogOk(g, init, distances, visited, body, order)
    ensures LogOk(g, init, distances, visited, body + [State(v, Updating)], order)
    ensures Visits(body + [State(v, Updating)]) == Visits(body)
    ensures forall c :: CountState(body + [State(v, Updating)], c) == CountState(body, c) + if c == Updating then 1 else 0
  {
    var x := State(v, Updating);
    Emit(init, body, x);
    DijkstraStep(init + body, x, |init|);
  }

  /** Painting v default right after its "updating" paint, while v is not
      visited, keeps the log facts. */
  lemma LogDefault(g: Graph, init: seq<Event>, distances: map<nat, Dist>, visited: set<nat>, body: seq<Event>,
                   order: seq<nat>, v: nat)
    requires LogOk(g, init, distances, visited, body, order) && v !in visited
    requires body != [] && body[|body| - 1] == State(v, Updating)
    ensures LogOk(g, init, distances, visited, body + [State(v, Default)], order)
    ensures Visits(body + [State(v, Default)]) == Visits(body)
    ensures forall c :: CountState(body + [State(v, Default)], c) == CountState(body, c) + if c == Default then 1 else 0
  {
    var x := State(v, Default);
    Emit(init, body, x);
    assert (init + body)[|init + body| - 1] == body[|body| - 1];
    DijkstraStep(init + body, x, |init|);
  }

  /** Painting v frontier right after its distance update settles the
      pending update. */
  lemma LogFrontier(g: Graph, init: seq<Event>, distances: map<nat, Dist>, visited: set<nat>, body: seq<Event>,
                    order: seq<nat>, v: nat)
    requires LogCore(g, init, distances, visited, body, order)
    requires body != [] && body[|body| - 1].DistUpdate? && body[|body| - 1].node == v
    ensures LogOk(g, init, distances, visited, body + [State(v, Frontier)], order)
    ensures Visits(body + [State(v, Frontier)]) == Visits(body)
    ensures forall c :: CountState(body + [State(v, Frontier)], c) == CountState(body, c) + if c == Frontier then 1 else 0
  {
    var x := State(v, Frontier);
    Emit(init, body, x);
    assert (init + body)[|init + body| - 1] == body[|body| - 1];
    DijkstraStep(init + body, x, |init|);
  }

  /** Showing a lower value nd for v right after its "updating" paint keeps
      the log facts for the lowered distances, with the update pending. */
  lemma LogLower(g: Graph, init: seq<Event>, distances: map<nat, Dist>, visited: set<nat>, body: seq<Event>,
                 order: seq<nat>, v: nat, nd: int)
    requires LogOk(g, init, distances, visited, body, order) && v in g.adj && v in distances && Below(nd, distances[v])
    requires body != [] && body[|body| - 1] == State(v, Updating)
    ensures LogCore(g, init, distances[v := Fin(nd)], visited, body + [DistUpdate(v, Fin(nd))], order)
    ensures Visits(body + [DistUpdate(v, Fin(nd))]) == Visits(body)
    ensures forall c :: CountState(body + [DistUpdate(v, Fin(nd))], c) == CountState(body, c)
  {
    var x := DistUpdate(v, Fin(nd));
    Emit(init, body, x);
    assert (init + body)[|init + body| - 1] == body[|body| - 1];
    DijkstraStep(init + body, x, |init|);
  }

  /** The three events of an improvement of v to nd keep the log facts. */
  lemma LogImprove(g: Graph, init: seq<Event>, distances: map<nat, Dist>, visited: set<nat>, body: seq<Event>,
                   order: seq<nat>, v: nat, nd: int)
    requires LogOk(g, init, distances, visited, body, order) && v in g.adj && v in distances && Below(nd, distances[v])
    ensures
      var body' := body + [State(v, Updating)] + [DistUpdate(v, Fin(nd))] + [State(v, Frontier)];
      && LogOk(g, init, distances[v := Fin(nd)], visited, body', order)
      && CountState(body', Updating) == CountState(body, Updating) + 1
      && CountState(body', Frontier) == CountState(body, Frontier) + 1
  {
    var b1 := body + [State(v, Updating)];
    var b2 := b1 + [DistUpdate(v, Fin(nd))];
    LogUpdating(g, init, distances, visited, body, order, v);
    assert CountState(b1, Updating) == CountState(body, Updating) + 1;
    assert CountState(b1, Frontier) == CountState(body, Frontier);
    LogLower(g, init, distances, visited, b1, order, v, nd);
    assert CountState(b2, Updating) == CountState(b1, Updating);
    assert CountState(b2, Frontier) == CountState(b1, Frontier);
    LogFrontier(g, init, distances[v := Fin(nd)], visited, b2, order, v);
  }

  /** The events of a neighbour v that does not improve keep the log facts. */
  lemma LogKeep(g: Graph, init: seq<Event>, distances: map<nat, Dist>, visited: set<nat>, body: seq<Event>,
                order: seq<nat>, v: nat)
    requires LogOk(g, init, distances, visited, body, order)
    ensures
      var b1 := body + [State(v, Updating)];
      var body' := if v !in visited then b1 + [State(v, Default)] else b1;
      && LogOk(g, init, distances, visited, body', order)
      && CountState(body', Updating) == CountState(body, Updating) + 1
      && CountState(body', Frontier) == CountState(body, Frontier)
  {
    var b1 := body + [State(v, Updating)];
    LogUpdating(g, init, distances, visited, body, order, v);
    if v !in visited {
      LogDefault(g, init, distances, visited, b1, order, v);
    }
  }

  /** Before the loop only the start is finite, at 0, and only (0, start)
      is queued. */
  lemma TracedStart(g: Graph, start: nat)
    ensures Traced(g, start, (map u | u in g.adj :: Inf)[start := Fin(0)], multiset{(0, start)}, map[], map[])
  {
  }

  /** A node not yet expanded can be given an expansion distance without
      unsourcing any value. */
  lemma SourcedGrow(g: Graph, start: nat, ex: map<nat, int>, src: map<Dijkstra.Entry, nat>, d: int, v: nat,
                    u: nat, cd: int)
    requires Sourced(g, start, ex, src, d, v) && u !in ex
    ensures Sourced(g, start, ex[u := cd], src, d, v)
  {
  }

  /** Popping (cd, u), u unvisited, starts u's expansion at cd, a sourced
      value. */
  lemma TracedVisit(g: Graph, start: nat, distances: map<nat, Dist>, pq: multiset<Dijkstra.Entry>,
                    ex: map<nat, int>, src: map<Dijkstra.Entry, nat>, cd: int, u: nat)
    requires Traced(g, start, distances, pq, ex, src) && (cd, u) in pq && u !in ex
    ensures Traced(g, start, distances, pq - multiset{(cd, u)}, ex[u := cd], src)
  {
    var ex' := ex[u := cd];
    forall v | v in distances && distances[v].Fin? ensures Sourced(g, start, ex', src, distances[v].d, v) {
      SourcedGrow(g, start, ex, src, distances[v].d, v, u, cd);
    }
    forall d, v | (d, v) in pq - multiset{(cd, u)} ensures Sourced(g, start, ex', src, d, v) {
      assert (d, v) in pq;
      SourcedGrow(g, start, ex, src, d, v, u, cd);
    }
    forall x | x in ex' ensures Sourced(g, start, ex', src, ex'[x], x) {
      if x == u {
        assert Sourced(g, start, ex, src, cd, u);
      }
      SourcedGrow(g, start, ex, src, ex'[x], x, u, cd);
    }
  }

  /** Popping a pair whose node is visited keeps every value sourced. */
  lemma TracedSkip(g: Graph, start: nat, distances: map<nat, Dist>, pq: multiset<Dijkstra.Entry>,
                   ex: map<nat, int>, src: map<Dijkstra.Entry, nat>, e: Dijkstra.Entry)
    requires Traced(g, start, distances, pq, ex, src)
    ensures Traced(g, start, distances, pq - multiset{e}, ex, src)
  {
    forall d, v | (d, v) in pq - multiset{e} ensures Sourced(g, start, ex, src, d, v) {
      assert (d, v) in pq;
    }
  }

  /** A sourced value is the start's 0, or some expanded node u has an
      item (v, w) with d equal to u's expansion distance plus w. */
  lemma SourcedMeans(g: Graph, start: nat, ex: map<nat, int>, src: map<Dijkstra.Entry, nat>, d: int, v: nat)
    requires Sourced(g, start, ex, src, d, v)
    ensures FromExpanded(g, start, ex, d, v)
  {
    if !(d == 0 && v == start) {
      var u := src[(d, v)];
      HasItemMeans(g.adj[u], v, d - ex[u]);
    }
  }

  /** What Traced means once the run is over: every finite distance and
      every expansion distance is the start's 0, or the expansion distance
      of some expanded node u plus the weight of u's item for that node. */
  lemma TracedMeans(g: Graph, start: nat, distances: map<nat, Dist>, pq: multiset<Dijkstra.Entry>,
                    ex: map<nat, int>, src: map<Dijkstra.Entry, nat>)
    requires Traced(g, start, distances, pq, ex, src)
    ensures forall v | v in distances && distances[v].Fin? :: FromExpanded(g, start, ex, distances[v].d, v)
    ensures forall x | x in ex :: FromExpanded(g, start, ex, ex[x], x)
  {
    forall v | v in distances && distances[v].Fin? ensures FromExpanded(g, start, ex, distances[v].d, v) {
      SourcedMeans(g, start, ex, src, distances[v].d, v);
    }
    forall x | x in ex ensures FromExpanded(g, start, ex, ex[x], x) {
      SourcedMeans(g, start, ex, src, ex[x], x);
    }
  }

  /** Nothing is written before u's first item. */
  lemma FromEntriesStart(g: Graph, u: nat, cd: int, distances: map<nat, Dist>, pq: multiset<Dijkstra.Entry>)
    requires u in g.adj
    ensures FromEntries(g, u, cd, distances, distances, pq, pq)
  {
  }

  /** Item k of u, (v, w): lowering v to nd == cd + w and queueing
      (nd, v) writes only what u's items give. */
  lemma FromEntriesLowers(g: Graph, u: nat, cd: int, distances0: map<nat, Dist>, distances: map<nat, Dist>,
                          pq0: multiset<Dijkstra.Entry>, pq: multiset<Dijkstra.Entry>, k: nat, v: nat, w: int,
                          nd: int)
    requires FromEntries(g, u, cd, distances0, distances, pq0, pq)
    requires k < |g.adj[u]| && g.adj[u][k] == (v, w) && v in distances && nd == cd + w
    ensures FromEntries(g, u, cd, distances0, distances[v := Fin(nd)], pq0, pq + multiset{(nd, v)})
  {
    var items := g.adj[u];
    var d' := distances[v := Fin(nd)];
    HasItemAt(items, k);
    assert GivesDist(items, cd, v, Fin(nd));
    forall x | x in d' && d'[x] != distances0[x] ensures GivesDist(items, cd, x, d'[x]) {
      if x != v {
        assert d'[x] == distances[x];
      }
    }
    forall d, x | (d, x) in pq + multiset{(nd, v)} - pq0 ensures Gives(items, cd, x, d) {
      if (d, x) != (nd, v) {
        assert (d, x) in pq - pq0;
      }
    }
  }

  /** Item k of u, (v, w), improves v: the loop's invariant holds after
      k + 1 items, with v at cd + w and (cd + w, v) queued. */
  lemma RelaxImprove(g: Graph, init: seq<Event>, distances0: map<nat, Dist>, pq0: multiset<Dijkstra.Entry>,
                     distances: map<nat, Dist>, pq: multiset<Dijkstra.Entry>, visited: set<nat>,
                     expandedAt: map<nat, int>, body: seq<Event>, u: nat, cd: int, k: nat, before: seq<nat>,
                     v: nat, w: int, nd: int)
    requires Relaxing(g, init, distances0, pq0, distances, pq, visited, expandedAt, body, u, cd, k, before)
    requires k < |g.adj[u]| && g.adj[u][k] == (v, w) && v in g.adj && nd == cd + w && Below(nd, distances[v])
    ensures
      var body' := body + [State(v, Updating)] + [DistUpdate(v, Fin(nd))] + [State(v, Frontier)];
      && Relaxing(g, init, distances0, pq0, distances[v := Fin(nd)], pq + multiset{(nd, v)}, visited,
                  expandedAt, body', u, cd, k + 1, before)
      && CountState(body', Frontier) == CountState(body, Frontier) + 1
  {
    DijkstraImprove(g, init, distances, pq, visited, expandedAt, body, u, cd, k, before, v, w, nd);
    FromEntriesLowers(g, u, cd, distances0, distances, pq0, pq, k, v, w, nd);
  }

  /** Item k of u, (v, w), does not improve v: the loop's invariant holds
      after k + 1 items, with the same distances and queue. */
  lemma RelaxKeep(g: Graph, init: seq<Event>, distances0: map<nat, Dist>, pq0: multiset<Dijkstra.Entry>,
                  distances: map<nat, Dist>, pq: multiset<Dijkstra.Entry>, visited: set<nat>,
                  expandedAt: map<nat, int>, body: seq<Event>, u: nat, cd: int, k: nat, before: seq<nat>,
                  v: nat, w: int)
    requires Relaxing(g, init, distances0, pq0, distances, pq, visited, expandedAt, body, u, cd, k, before)
    requires k < |g.adj[u]| && g.adj[u][k] == (v, w) && v in g.adj && !Below(cd + w, distances[v])
    ensures
      var b1 := body + [State(v, Updating)];
      var body' := if v !in visited then b1 + [State(v, Default)] else b1;
      && Relaxing(g, init, distances0, pq0, distances, pq, visited, expandedAt, body', u, cd, k + 1, before)
      && CountState(body', Frontier) == CountState(body, Frontier)
  {
    DijkstraKeep(g, init, distances, pq, visited, expandedAt, body, u, cd, k, before, v, w);
  }

  /** Every pair u's expansion at cd could queue is sourced at u; any
      other sourced value stays sourced when those pairs are recorded as
      u's. */
  lemma SourcedOver(g: Graph, start: nat, ex: map<nat, int>, src: map<Dijkstra.Entry, nat>, u: nat, cd: int,
                    d: int, v: nat)
    requires u in ex && ex[u] == cd && u in g.adj
    requires Sourced(g, start, ex, src, d, v) || Gives(g.adj[u], cd, v, d)
    ensures Sourced(g, start, ex, src + map e | e in Writable(g.adj[u], cd) :: u, d, v)
  {
    var items := g.adj[u];
    if Gives(items, cd, v, d) {
      HasItemMeans(items, v, d - cd);
      var k :| 0 <= k < |items| && items[k] == (v, d - cd);
      assert (cd + items[k].1, items[k].0) == (d, v);
    } else if (d, v) in Writable(items, cd) {
      var k :| 0 <= k < |items| && (cd + items[k].1, items[k].0) == (d, v);
      HasItemAt(items, k);
    }
  }

  /** Once u's items are relaxed at cd, u's expansion distance, recording
      u as the source of every pair it could queue keeps every value
      sourced. */
  lemma TracedRelax(g: Graph, start: nat, distances0: map<nat, Dist>, pq0: multiset<Dijkstra.Entry>,
                    ex: map<nat, int>, src: map<Dijkstra.Entry, nat>, u: nat, cd: int,
                    distances: map<nat, Dist>, pq: multiset<Dijkstra.Entry>)
    requires Traced(g, start, distances0, pq0, ex, src) && u in ex && ex[u] == cd
    requires FromEntries(g, u, cd, distances0, distances, pq0, pq)
    ensures Traced(g, start, distances, pq, ex, src + map e | e in Writable(g.adj[u], cd) :: u)
  {
    var src' := src + map e | e in Writable(g.adj[u], cd) :: u;
    forall v | v in distances && distances[v].Fin? ensures Sourced(g, start, ex, src', distances[v].d, v) {
      if distances[v] == distances0[v] {
        assert Sourced(g, start, ex, src, distances0[v].d, v);
      } else {
        assert GivesDist(g.adj[u], cd, v, distances[v]);
      }
      SourcedOver(g, start, ex, src, u, cd, distances[v].d, v);
    }
    forall d, v | (d, v) in pq ensures Sourced(g, start, ex, src', d, v) {
      if (d, v) !in pq - pq0 {
        assert Sourced(g, start, ex, src, d, v);
      }
      SourcedOver(g, start, ex, src, u, cd, d, v);
    }
    forall x | x in ex ensures Sourced(g, start, ex, src', ex[x], x) {
      SourcedOver(g, start, ex, src, u, cd, ex[x], x);
    }
  }

  lemma DijkstraStart(g: Graph, start: nat)
    requires WellFormed(g) && start in g.adj
    ensures DOuter(g, InitialEvents(g.nodes, start), (map u | u in g.adj :: Inf)[start := Fin(0)],
                   multiset{(0, start)}, {}, map[], [])
  {
    var init := InitialEvents(g.nodes, start);
    var distances := (map u | u in g.adj :: Inf)[start := Fin(0)];
    assert init + [] == init;
    forall v | v in g.adj && v in distances ensures LastDist(init + [], v) == distances[v] {
      InitialDistances(g.nodes, start, v);
    }
    InitialDistances(g.nodes, start, start);
    assert LogOk(g, init, distances, {}, [], []);
    assert QueueOk(g, distances, multiset{(0, start)}, {});
  }

  /** Popping a node that is already visited only shrinks the queue. */
  lemma DijkstraSkip(g: Graph, init: seq<Event>, distances: map<nat, Dist>, pq: multiset<Dijkstra.Entry>,
                     visited: set<nat>, expandedAt: map<nat, int>, body: seq<Event>, e: Dijkstra.Entry)
    requires DOuter(g, init, distances, pq, visited, expandedAt, body) && e in pq && e.1 in visited
    ensures DOuter(g, init, distances, pq - multiset{e}, visited, expandedAt, body)
  {
    PopQueue(g, distances, pq, visited, e);
    assert visited + {e.1} == visited;
  }

  /** Popping an unvisited node u at cd marks it visited and starts its expansion. */
  lemma DijkstraVisit(g: Graph, init: seq<Event>, distances: map<nat, Dist>, pq: multiset<Dijkstra.Entry>,
                      visited: set<nat>, expandedAt: map<nat, int>, body: seq<Event>, cd: int, u: nat)
    requires DOuter(g, init, distances, pq, visited, expandedAt, body) && (cd, u) in pq && u !in visited
    ensures
      var body' := body + [State(u, Visited)];
      && DInner(g, init, distances, pq - multiset{(cd, u)}, visited + {u}, expandedAt, body', u, cd, 0, Visits(body))
      && CountState(body', Frontier) == CountState(body, Frontier)
  {
    PopQueue(g, distances, pq, visited, (cd, u));
    LogVisit(g, init, distances, visited, body, Visits(body), u);
  }

  /** Lowering distances[v] to nd, with its three events and the queued
      pair, keeps the step facts. */
  lemma ImproveState(g: Graph, init: seq<Event>, distances: map<nat, Dist>, pq: multiset<Dijkstra.Entry>,
                     visited: set<nat>, expandedAt: map<nat, int>, body: seq<Event>, v: nat, nd: int)
    requires DState(g, init, distances, pq, visited, expandedAt, body) && v in g.adj && Below(nd, distances[v])
    ensures
      var body' := body + [State(v, Updating)] + [DistUpdate(v, Fin(nd))] + [State(v, Frontier)];
      && DState(g, init, distances[v := Fin(nd)], pq + multiset{(nd, v)}, visited, expandedAt, body')
      && Visits(body') == Visits(body)
      && CountState(body', Updating) == CountState(body, Updating) + 1
      && CountState(body', Frontier) == CountState(body, Frontier) + 1
  {
    ImproveQueue(g, distances, pq, visited, v, nd);
    LogImprove(g, init, distances, visited, body, Visits(body), v, nd);
    LowerOne(distances, v, nd);
    ClosedLower(g, distances, distances[v := Fin(nd)], expandedAt);
  }

  /** Neighbour (v, w) of u improves: paint it updating, lower distances[v]
      to cd + w, show the new value, queue it and paint it frontier. */
  lemma DijkstraImprove(g: Graph, init: seq<Event>, distances: map<nat, Dist>, pq: multiset<Dijkstra.Entry>,
                        visited: set<nat>, expandedAt: map<nat, int>, body: seq<Event>,
                        u: nat, cd: int, k: nat, before: seq<nat>, v: nat, w: int, nd: int)
    requires DInner(g, init, distances, pq, visited, expandedAt, body, u, cd, k, before)
    requires k < |g.adj[u]| && g.adj[u][k] == (v, w) && v in g.adj && nd == cd + w && Below(nd, distances[v])
    ensures
      var body' := body + [State(v, Updating)] + [DistUpdate(v, Fin(nd))] + [State(v, Frontier)];
      && DInner(g, init, distances[v := Fin(nd)], pq + multiset{(nd, v)}, visited, expandedAt, body',
                u, cd, k + 1, before)
      && CountState(body', Frontier) == CountState(body, Frontier) + 1
  {
    var d2 := distances[v := Fin(nd)];
    ImproveState(g, init, distances, pq, visited, expandedAt, body, v, nd);
    LowerOne(distances, v, nd);
    ReachedLower(g, distances, d2, u, cd, k);
    ReachedStep(g, d2, u, cd, k);
  }

  /** Neighbour (v, w) of u does not improve: paint it updating, then back
      to default unless it is visited. */
  lemma DijkstraKeep(g: Graph, init: seq<Event>, distances: map<nat, Dist>, pq: multiset<Dijkstra.Entry>,
                     visited: set<nat>, expandedAt: map<nat, int>, body: seq<Event>,
                     u: nat, cd: int, k: nat, before: seq<nat>, v: nat, w: int)
    requires DInner(g, init, distances, pq, visited, expandedAt, body, u, cd, k, before)
    requires k < |g.adj[u]| && g.adj[u][k] == (v, w) && v in g.adj && !Below(cd + w, distances[v])
    ensures
      var b1 := body + [State(v, Updating)];
      var body' := if v !in visited then b1 + [State(v, Default)] else b1;
      && DInner(g, init, distances, pq, visited, expandedAt, body', u, cd, k + 1, before)
      && CountState(body', Frontier) == CountState(body, Frontier)
  {
    LogKeep(g, init, distances, visited, body, Visits(body), v);
    ReachedStep(g, distances, u, cd, k);
  }

  /** After its whole list, u joins the expanded nodes at cd. */
  lemma DijkstraExpanded(g: Graph, init: seq<Event>, distances: map<nat, Dist>, pq: multiset<Dijkstra.Entry>,
                         visited: set<nat>, expandedAt: map<nat, int>, body: seq<Event>,
                         u: nat, cd: int, before: seq<nat>)
    requires u in g.adj && DInner(g, init, distances, pq, visited, expandedAt, body, u, cd, |g.adj[u]|, before)
    ensures DOuter(g, init, distances, pq, visited, expandedAt[u := cd], body)
  {
    ExpandCount(g, body, before, u);
    ClosedExpand(g, distances, expandedAt, u, cd);
    StateExpand(g, init, distances, pq, visited, expandedAt, body, expandedAt[u := cd]);
    OuterFrom(g, init, distances, pq, visited, expandedAt[u := cd], body);
  }

  /** With u's whole list examined, the "updating" paints add up to the
      out-degrees of the visited nodes. */
  lemma ExpandCount(g: Graph, body: seq<Event>, before: seq<nat>, u: nat)
    requires u in g.adj && (forall x | x in Visits(body) :: x in g.adj) && Visits(body) == before + [u]
    requires forall x | x in before :: x in g.adj
    requires CountState(body, Updating) == OutDegrees(g, before) + |g.adj[u]|
    ensures CountState(body, Updating) == OutDegrees(g, Visits(body))
  {
    OutDegreesSnoc(g, before, u);
  }

  lemma OuterFrom(g: Graph, init: seq<Event>, distances: map<nat, Dist>, pq: multiset<Dijkstra.Entry>,
                  visited: set<nat>, expandedAt: map<nat, int>, body: seq<Event>)
    requires DState(g, init, distances, pq, visited, expandedAt, body) && visited == expandedAt.Keys
    requires CountState(body, Updating) == OutDegrees(g, Visits(body))
    ensures DOuter(g, init, distances, pq, visited, expandedAt, body)
  {
  }

  lemma StateExpand(g: Graph, init: seq<Event>, distances: map<nat, Dist>, pq: multiset<Dijkstra.Entry>,
                    visited: set<nat>, expandedAt: map<nat, int>, body: seq<Event>, expandedAt': map<nat, int>)
    requires DState(g, init, distances, pq, visited, expandedAt, body) && ExpandedClosed(g, distances, expandedAt')
    ensures DState(g, init, distances, pq, visited, expandedAt', body)
  {
  }

  /** Once the queue is empty, the invariant states the runner's results. */
  lemma DijkstraFinish(g: Graph, start: nat, init: seq<Event>, distances: map<nat, Dist>, visited: set<nat>,
                       expandedAt: map<nat, int>, body: seq<Event>, src: map<Dijkstra.Entry, nat>)
    requires DOuter(g, init, distances, multiset{}, visited, expandedAt, body)
    requires Traced(g, start, distances, multiset{}, expandedAt, src)
    ensures distances.Keys == g.adj.Keys
    ensures forall v | v in g.adj :: LastDist(init + body, v) == distances[v]
    ensures DijkstraTrace(init + body, |init|)
    ensures Distinct(Visits(body)) && expandedAt.Keys == (set u | u in Visits(body))
    ensures forall v | v in g.adj && distances[v].Fin? :: v in expandedAt
    ensures ExpandedClosed(g, distances, expandedAt)
    ensures forall u | u in Visits(body) :: u in g.adj
    ensures CountState(body, Updating) == OutDegrees(g, Visits(body))
    ensures FrontierExactlyOnUpdate(init + body, |init|)
    ensures forall v | v in distances && distances[v].Fin? :: FromExpanded(g, start, expandedAt, distances[v].d, v)
    ensures forall x | x in expandedAt :: FromExpanded(g, start, expandedAt, expandedAt[x], x)
  {
    assert DijkstraTrace(init + body, |init|);
    DijkstraFrontiers(init + body, |init|);
    TracedMeans(g, start, distances, multiset{}, expandedAt, src);
  }
}
