/** The proof steps behind the dictionary-keyed Bellman-Ford runner: what
    each emitted event and each examined adjacency entry does to the display
    facts BState. */
module BellmanFordSteps {
  import opened Graphs
  import opened RunnerEvents

  /** Painting node x with a colour other than frontier keeps the facts,
      provided the start node is not painted default. */
  lemma BLogPaint(g: Graph, init: seq<Event>, start: nat, distances: map<nat, Dist>, body: seq<Event>,
                  x: nat, c: NodeState)
    requires BState(g, init, start, distances, body)
    requires c != Frontier && (c == Default ==> x != start)
    ensures BState(g, init, start, distances, body + [State(x, c)])
  {
    var e := State(x, c);
    Emit(init, body, e);
    assert BellmanFordOk(init + body, e, start);
    BellmanFordStep(init + body, e, |init|, start);
  }

  /** Painting x frontier right after showing its new value settles the
      pending update. */
  lemma BLogFrontier(g: Graph, init: seq<Event>, start: nat, distances: map<nat, Dist>, body: seq<Event>, x: nat)
    requires BCore(g, init, start, distances, body)
    requires body != [] && body[|body| - 1].DistUpdate? && body[|body| - 1].node == x
    ensures BState(g, init, start, distances, body + [State(x, Frontier)])
  {
    var e := State(x, Frontier);
    Emit(init, body, e);
    assert (init + body)[|init + body| - 1] == body[|body| - 1];
    BellmanFordStep(init + body, e, |init|, start);
  }

  /** Showing a lower value nd for v right after its "updating" paint keeps
      the facts for the lowered distances, with the update pending. */
  lemma BLogLower(g: Graph, init: seq<Event>, start: nat, distances: map<nat, Dist>, body: seq<Event>,
                  v: nat, nd: int)
    requires BState(g, init, start, distances, body) && v in g.adj && Below(nd, distances[v])
    requires body != [] && body[|body| - 1] == State(v, Updating)
    ensures BCore(g, init, start, distances[v := Fin(nd)], body + [DistUpdate(v, Fin(nd))])
  {
    var e := DistUpdate(v, Fin(nd));
    Emit(init, body, e);
    assert (init + body)[|init + body| - 1] == body[|body| - 1];
    BellmanFordStep(init + body, e, |init|, start);
  }

  /** The events of an entry (v, w) of u that improves v to nd = dist[u] + w:
      u visited, v updating, v's new value, v frontier, then u back to
      default unless it is the start. */
  lemma BellmanFordImprove(g: Graph, init: seq<Event>, start: nat, distances: map<nat, Dist>, body: seq<Event>,
                           u: nat, v: nat, nd: int)
    requires BState(g, init, start, distances, body) && v in g.adj && Below(nd, distances[v])
    ensures
      var b4 := body + [State(u, Visited)] + [State(v, Updating)] + [DistUpdate(v, Fin(nd))] + [State(v, Frontier)];
      BState(g, init, start, distances[v := Fin(nd)], if u != start then b4 + [State(u, Default)] else b4)
  {
    var b1 := body + [State(u, Visited)];
    BLogPaint(g, init, start, distances, body, u, Visited);
    BLogPaint(g, init, start, distances, b1, v, Updating);
    var b2 := b1 + [State(v, Updating)];
    BLogLower(g, init, start, distances, b2, v, nd);
    var d' := distances[v := Fin(nd)];
    var b3 := b2 + [DistUpdate(v, Fin(nd))];
    BLogFrontier(g, init, start, d', b3, v);
    if u != start {
      BLogPaint(g, init, start, d', b3 + [State(v, Frontier)], u, Default);
    }
  }

  /** The events of an entry (v, w) of u that improves nothing: u visited,
      v updating, then v and u back to default, each unless it is the start. */
  lemma BellmanFordKeep(g: Graph, init: seq<Event>, start: nat, distances: map<nat, Dist>, body: seq<Event>,
                        u: nat, v: nat)
    requires BState(g, init, start, distances, body)
    ensures
      var b2 := body + [State(u, Visited)] + [State(v, Updating)];
      var b3 := if v != start then b2 + [State(v, Default)] else b2;
      BState(g, init, start, distances, if u != start then b3 + [State(u, Default)] else b3)
  {
    var b1 := body + [State(u, Visited)];
    BLogPaint(g, init, start, distances, body, u, Visited);
    BLogPaint(g, init, start, distances, b1, v, Updating);
    var b2 := b1 + [State(v, Updating)];
    if v != start {
      BLogPaint(g, init, start, distances, b2, v, Default);
    }
    var b3 := if v != start then b2 + [State(v, Default)] else b2;
    if u != start {
      BLogPaint(g, init, start, distances, b3, u, Default);
    }
  }

  /** The opening facts: the start node at 0, every other node unreachable,
      and no loop event yet. */
  lemma BellmanFordStart(g: Graph, start: nat)
    requires WellFormed(g) && start in g.adj
    ensures BState(g, InitialEvents(g.nodes, start), start, (map u | u in g.adj :: Inf)[start := Fin(0)], [])
  {
    var init := InitialEvents(g.nodes, start);
    var distances := (map u | u in g.adj :: Inf)[start := Fin(0)];
    assert init + [] == init;
    forall v | v in g.adj ensures LastDist(init + [], v) == distances[v] {
      InitialDistances(g.nodes, start, v);
    }
  }
}
