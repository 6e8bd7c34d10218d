/** What the instrumented runners receive and announce: the graph as a
    dictionary of dictionaries, the events sent to the display, readings of
    the event log, and the facts the runners keep while they work. */
module RunnerEvents {
  import opened Graphs
  import Dijkstra

  /** A graph as the runners receive it, {node: {neighbour: weight}}: the
      nodes in dictionary order and, per node, its (neighbour, weight)
      items in dictionary order. */
  datatype Graph = Graph(nodes: seq<nat>, adj: map<nat, seq<(nat, int)>>)

  /** The dictionary invariants: distinct keys, listed exactly once each,
      neighbour keys distinct per node, and every neighbour is itself a key. */
  predicate WellFormed(g: Graph) {
    && (forall i, j | 0 <= i < j < |g.nodes| :: g.nodes[i] != g.nodes[j])
    && (forall u | u in g.adj :: u in g.nodes)
    && (forall i | 0 <= i < |g.nodes| :: g.nodes[i] in g.adj)
    && (forall u, i, j | u in g.adj && 0 <= i < j < |g.adj[u]| :: g.adj[u][i].0 != g.adj[u][j].0)
    && (forall u, k | u in g.adj && 0 <= k < |g.adj[u]| :: g.adj[u][k].0 in g.adj)
  }

  /** Every neighbour is itself a key. */
  predicate NeighboursAreKeys(g: Graph) {
    forall u, k | u in g.adj && 0 <= k < |g.adj[u]| :: g.adj[u][k].0 in g.adj
  }

  /** The colour a node is painted with. */
  datatype NodeState = Start | Visited | Updating | Frontier | Default

  /** One emitted signal: update_state, update_dist, or the metrics line
      (kept as its two numbers). */
  datatype Event =
    | State(node: nat, state: NodeState)
    | DistUpdate(node: nat, value: Dist)
    | Metrics(steps: int, seconds: real)

  // ---------------------------------------------------------------------
  // Reading the event log
  // ---------------------------------------------------------------------

  /** The opening events of both runners: every node shown as unreachable,
      then the start node shown at 0 and painted as the start. */
  function InitialEvents(nodes: seq<nat>, start: nat): (r: seq<Event>)
    ensures |r| == |nodes| + 2
  {
    seq(|nodes|, i requires 0 <= i < |nodes| => DistUpdate(nodes[i], Inf))
      + [DistUpdate(start, Fin(0)), State(start, Start)]
  }

  /** The distance the display last received for v (unreachable if none). */
  function LastDist(ev: seq<Event>, v: nat): Dist
    decreases |ev|
  {
    if ev == [] then Inf
    else if ev[|ev| - 1].DistUpdate? && ev[|ev| - 1].node == v then ev[|ev| - 1].value
    else LastDist(ev[..|ev| - 1], v)
  }

  /** The nodes painted as visited, in order. */
  function Visits(ev: seq<Event>): seq<nat>
    decreases |ev|
  {
    if ev == [] then []
    else
      var x := ev[|ev| - 1];
      Visits(ev[..|ev| - 1]) + if x.State? && x.state == Visited then [x.node] else []
  }

  /** How many times some node was painted with colour c. */
  function CountState(ev: seq<Event>, c: NodeState): nat
    decreases |ev|
  {
    if ev == [] then 0
    else
      var x := ev[|ev| - 1];
      CountState(ev[..|ev| - 1], c) + if x.State? && x.state == c then 1 else 0
  }

  /** Conditions every loop event of both runners meets: a distance update
      directly follows the "updating" paint of the same node and strictly
      lowers what the display showed; a "frontier" paint directly follows
      the distance update of the same node, and nothing else does. */
  ghost predicate CommonOk(prefix: seq<Event>, x: Event) {
    && (prefix != [] && prefix[|prefix| - 1].DistUpdate? ==> x == State(prefix[|prefix| - 1].node, Frontier))
    && match x
       case DistUpdate(v, value) =>
         && prefix != [] && prefix[|prefix| - 1] == State(v, Updating)
         && value.Fin? && Below(value.d, LastDist(prefix, v))
       case State(v, Frontier) =>
         prefix != [] && prefix[|prefix| - 1].DistUpdate? && prefix[|prefix| - 1].node == v
       case _ => true
  }

  /** The log does not end in a distance update still awaiting its
      "frontier" paint. */
  ghost predicate NoPending(ev: seq<Event>) {
    ev == [] || !ev[|ev| - 1].DistUpdate?
  }

  /** From position `from` on, every distance update is directly followed by
      the "frontier" paint of its node, and every "frontier" paint directly
      follows a distance update of its node. */
  ghost predicate FrontierExactlyOnUpdate(ev: seq<Event>, from: nat) {
    && (forall i | from <= i < |ev| && ev[i].DistUpdate? :: i + 1 < |ev| && ev[i + 1] == State(ev[i].node, Frontier))
    && (forall i | from <= i < |ev| && ev[i].State? && ev[i].state == Frontier ::
          0 < i && ev[i - 1].DistUpdate? && ev[i - 1].node == ev[i].node)
  }

  /** Dijkstra's loop events: a node is painted visited at most once, and
      painted default only right after its "updating" paint and only while
      not yet visited. */
  ghost predicate DijkstraOk(prefix: seq<Event>, x: Event) {
    && CommonOk(prefix, x)
    && (x.State? && x.state == Visited ==> x.node !in Visits(prefix))
    && (x.State? && x.state == Default ==>
          && prefix != [] && prefix[|prefix| - 1] == State(x.node, Updating)
          && x.node !in Visits(prefix))
  }

  /** Bellman-Ford's loop events: the start node is never painted default. */
  ghost predicate BellmanFordOk(prefix: seq<Event>, x: Event, start: nat) {
    && CommonOk(prefix, x)
    && x != State(start, Default)
  }

  /** Every event from position `from` on is a valid Dijkstra loop event. */
  ghost predicate DijkstraTrace(ev: seq<Event>, from: nat)
    decreases |ev|
  {
    |ev| <= from || (DijkstraTrace(ev[..|ev| - 1], from) && DijkstraOk(ev[..|ev| - 1], ev[|ev| - 1]))
  }

  /** Every event from position `from` on is a valid Bellman-Ford loop event. */
  ghost predicate BellmanFordTrace(ev: seq<Event>, from: nat, start: nat)
    decreases |ev|
  {
    |ev| <= from
    || (BellmanFordTrace(ev[..|ev| - 1], from, start) && BellmanFordOk(ev[..|ev| - 1], ev[|ev| - 1], start))
  }

  lemma {:induction false} DijkstraTraceAt(ev: seq<Event>, from: nat, i: int)
    requires DijkstraTrace(ev, from) && from <= i < |ev|
    ensures CommonOk(ev[..i], ev[i])
    decreases |ev|
  {
    if i < |ev| - 1 {
      DijkstraTraceAt(ev[..|ev| - 1], from, i);
      assert ev[..|ev| - 1][..i] == ev[..i];
    }
  }

  lemma {:induction false} BellmanFordTraceAt(ev: seq<Event>, from: nat, start: nat, i: int)
    requires BellmanFordTrace(ev, from, start) && from <= i < |ev|
    ensures CommonOk(ev[..i], ev[i])
    decreases |ev|
  {
    if i < |ev| - 1 {
      BellmanFordTraceAt(ev[..|ev| - 1], from, start, i);
      assert ev[..|ev| - 1][..i] == ev[..i];
    }
  }

  /** A log whose events from `from` on meet CommonOk, and that does not end
      in a pending update, paints a node frontier exactly after each of its
      distance updates. */
  lemma CommonFrontiers(ev: seq<Event>, from: nat)
    requires forall i | from <= i < |ev| :: CommonOk(ev[..i], ev[i])
    requires NoPending(ev)
    ensures FrontierExactlyOnUpdate(ev, from)
  {
    forall i | from <= i < |ev| && ev[i].DistUpdate?
      ensures i + 1 < |ev| && ev[i + 1] == State(ev[i].node, Frontier)
    {
      if i + 1 < |ev| {
        assert CommonOk(ev[..i + 1], ev[i + 1]);
        assert ev[..i + 1][i] == ev[i];
      }
    }
    forall i | from <= i < |ev| && ev[i].State? && ev[i].state == Frontier
      ensures 0 < i && ev[i - 1].DistUpdate? && ev[i - 1].node == ev[i].node
    {
      assert CommonOk(ev[..i], ev[i]);
      assert ev[..i][i - 1] == ev[i - 1];
    }
  }

  lemma DijkstraFrontiers(ev: seq<Event>, from: nat)
    requires DijkstraTrace(ev, from) && NoPending(ev)
    ensures FrontierExactlyOnUpdate(ev, from)
  {
    forall i | from <= i < |ev| ensures CommonOk(ev[..i], ev[i]) {
      DijkstraTraceAt(ev, from, i);
    }
    CommonFrontiers(ev, from);
  }

  lemma BellmanFordFrontiers(ev: seq<Event>, from: nat, start: nat)
    requires BellmanFordTrace(ev, from, start) && NoPending(ev)
    ensures FrontierExactlyOnUpdate(ev, from)
  {
    forall i | from <= i < |ev| ensures CommonOk(ev[..i], ev[i]) {
      BellmanFordTraceAt(ev, from, start, i);
    }
    CommonFrontiers(ev, from);
  }

  /** What emitting one more event x does to each reading of the log
      pre + ev. */
  lemma Emit(pre: seq<Event>, ev: seq<Event>, x: Event)
    ensures pre + (ev + [x]) == (pre + ev) + [x]
    ensures forall v :: LastDist(pre + (ev + [x]), v) ==
                        if x.DistUpdate? && x.node == v then x.value else LastDist(pre + ev, v)
    ensures x.State? && x.state == Visited ==>
              Visits(pre + (ev + [x])) == Visits(pre + ev) + [x.node] && Visits(ev + [x]) == Visits(ev) + [x.node]
    ensures !(x.State? && x.state == Visited) ==>
              Visits(pre + (ev + [x])) == Visits(pre + ev) && Visits(ev + [x]) == Visits(ev)
    ensures forall c :: CountState(ev + [x], c) == CountState(ev, c) + if x.State? && x.state == c then 1 else 0
  {
    assert pre + (ev + [x]) == (pre + ev) + [x];
    assert ((pre + ev) + [x])[..|pre + ev|] == pre + ev;
    assert (ev + [x])[..|ev|] == ev;
  }

  lemma DijkstraStep(s: seq<Event>, x: Event, from: nat)
    requires DijkstraTrace(s, from) && DijkstraOk(s, x) && from <= |s|
    ensures DijkstraTrace(s + [x], from)
  {
    assert (s + [x])[..|s|] == s;
  }

  lemma BellmanFordStep(s: seq<Event>, x: Event, from: nat, start: nat)
    requires BellmanFordTrace(s, from, start) && BellmanFordOk(s, x, start) && from <= |s|
    ensures BellmanFordTrace(s + [x], from, start)
  {
    assert (s + [x])[..|s|] == s;
  }

  /** After the opening events the display shows 0 for the start node and
      unreachable for every other node. */
  lemma {:induction false} InitialDistances(nodes: seq<nat>, start: nat, v: nat)
    ensures LastDist(InitialEvents(nodes, start), v) == if v == start then Fin(0) else Inf
    ensures Visits(InitialEvents(nodes, start)) == []
    ensures forall c :: CountState(InitialEvents(nodes, start), c) == if c == Start then 1 else 0
  {
    var ups := seq(|nodes|, i requires 0 <= i < |nodes| => DistUpdate(nodes[i], Inf));
    AllInfinite(ups, v);
    Emit([], ups, DistUpdate(start, Fin(0)));
    Emit([], ups + [DistUpdate(start, Fin(0))], State(start, Start));
    assert InitialEvents(nodes, start) == ups + [DistUpdate(start, Fin(0))] + [State(start, Start)];
  }

  lemma {:induction false} AllInfinite(ev: seq<Event>, v: nat)
    requires forall i | 0 <= i < |ev| :: ev[i].DistUpdate? && ev[i].value == Inf
    ensures LastDist(ev, v) == Inf && Visits(ev) == []
    ensures forall c :: CountState(ev, c) == 0
    decreases |ev|
  {
    if ev != [] {
      AllInfinite(ev[..|ev| - 1], v);
    }
  }

  // ---------------------------------------------------------------------
  // Facts about the graph
  // ---------------------------------------------------------------------

  /** The sum of the out-degrees of the given nodes. */
  function OutDegrees(g: Graph, us: seq<nat>): nat
    requires forall u | u in us :: u in g.adj
    decreases |us|
  {
    if us == [] then 0 else OutDegrees(g, us[..|us| - 1]) + |g.adj[us[|us| - 1]]|
  }

  /** The number of adjacency entries over all nodes. */
  function TotalEntries(g: Graph): nat
    requires WellFormed(g)
  {
    OutDegrees(g, g.nodes)
  }

  /** Entry (v, w) of node u could lower distances[v]. */
  predicate CanRelax(distances: map<nat, Dist>, u: nat, v: nat, w: int) {
    u in distances && v in distances && distances[u].Fin? && Below(distances[u].d + w, distances[v])
  }

  /** One node's dictionary holds the item (v, w), read from the back. */
  ghost predicate HasItem(items: seq<(nat, int)>, v: nat, w: int)
    decreases |items|
  {
    items != [] && (items[|items| - 1] == (v, w) || HasItem(items[..|items| - 1], v, w))
  }

  /** Reading item by item finds exactly the items of the list. */
  lemma {:induction false} HasItemMeans(items: seq<(nat, int)>, v: nat, w: int)
    ensures HasItem(items, v, w) <==> (v, w) in items
    decreases |items|
  {
    if items != [] {
      HasItemMeans(items[..|items| - 1], v, w);
      assert items == items[..|items| - 1] + [items[|items| - 1]];
    }
  }

  /** The k-th item is found. */
  lemma {:induction false} HasItemAt(items: seq<(nat, int)>, k: nat)
    requires k < |items|
    ensures HasItem(items, items[k].0, items[k].1)
    decreases |items|
  {
    if k < |items| - 1 {
      HasItemAt(items[..|items| - 1], k);
    }
  }

  /** No adjacency entry can lower any distance. */
  ghost predicate NoneRelaxable(g: Graph, distances: map<nat, Dist>) {
    forall u, k | u in g.adj && 0 <= k < |g.adj[u]| :: !CanRelax(distances, u, g.adj[u][k].0, g.adj[u][k].1)
  }

  lemma OutDegreesSnoc(g: Graph, us: seq<nat>, u: nat)
    requires forall x | x in us :: x in g.adj
    requires u in g.adj
    ensures OutDegrees(g, us + [u]) == OutDegrees(g, us) + |g.adj[u]|
  {
    assert (us + [u])[..|us|] == us;
  }

  /** Taking one more node of the dictionary order adds its out-degree. */
  lemma OutDegreesPrefix(g: Graph, j: int)
    requires WellFormed(g) && 0 <= j < |g.nodes|
    ensures OutDegrees(g, g.nodes[..j + 1]) == OutDegrees(g, g.nodes[..j]) + |g.adj[g.nodes[j]]|
  {
    assert g.nodes[..j + 1] == g.nodes[..j] + [g.nodes[j]];
    OutDegreesSnoc(g, g.nodes[..j], g.nodes[j]);
  }

  /** u's expansion at cd has covered its first k entries: u's distance is
      at most cd, and each of those neighbours is at most cd plus the weight. */
  ghost predicate Reached(g: Graph, distances: map<nat, Dist>, u: nat, cd: int, k: nat) {
    && u in g.adj && u in distances && k <= |g.adj[u]|
    && AtMost(distances[u], Fin(cd))
    && forall j | 0 <= j < k ::
         g.adj[u][j].0 in distances && AtMost(distances[g.adj[u][j].0], Fin(cd + g.adj[u][j].1))
  }

  /** Every expanded node covered its whole adjacency list at its expansion
      distance. */
  ghost predicate ExpandedClosed(g: Graph, distances: map<nat, Dist>, expandedAt: map<nat, int>) {
    forall u | u in expandedAt && u in g.adj :: Reached(g, distances, u, expandedAt[u], |g.adj[u]|)
  }

  /** d2 has the keys of d1 and no larger values. */
  ghost predicate Lowered(d1: map<nat, Dist>, d2: map<nat, Dist>) {
    d1.Keys == d2.Keys && forall v | v in d1 :: AtMost(d2[v], d1[v])
  }

  /** No node occurs twice. */
  ghost predicate Distinct(s: seq<nat>) {
    forall i, j | 0 <= i < j < |s| :: s[i] != s[j]
  }

  // ---------------------------------------------------------------------
  // The invariant of run_dijkstra
  // ---------------------------------------------------------------------

  /** The queue facts: every queued pair names a node and is at least its
      distance; every reached node is visited or queued at its distance. */
  ghost predicate QueueOk(g: Graph, distances: map<nat, Dist>, pq: multiset<Dijkstra.Entry>, visited: set<nat>) {
    && distances.Keys == g.adj.Keys
    && visited <= g.adj.Keys
    && (forall e | e in pq :: e.1 in g.adj && AtMost(distances[e.1], Fin(e.0)))
    && (forall v | v in g.adj && distances[v].Fin? :: v in visited || (distances[v].d, v) in pq)
  }

  /** The log facts: the events after init are valid, the display shows the
      distances, and the visits are distinct and make up the visited set. */
  ghost predicate LogCore(g: Graph, init: seq<Event>, distances: map<nat, Dist>, visited: set<nat>, body: seq<Event>,
                        order: seq<nat>) {
    && Visits(init + body) == order && Visits(body) == order
    && (forall x :: x in visited <==> x in order)
    && Distinct(order)
    && (forall v | v in g.adj && v in distances :: LastDist(init + body, v) == distances[v])
    && DijkstraTrace(init + body, |init|)
  }

  /** The log facts between two neighbours: no distance update pending. */
  ghost predicate LogOk(g: Graph, init: seq<Event>, distances: map<nat, Dist>, visited: set<nat>, body: seq<Event>,
                        order: seq<nat>) {
    LogCore(g, init, distances, visited, body, order) && NoPending(init + body)
  }

  /** The facts run_dijkstra keeps at every step. */
  ghost predicate DState(g: Graph, init: seq<Event>, distances: map<nat, Dist>, pq: multiset<Dijkstra.Entry>,
                         visited: set<nat>, expandedAt: map<nat, int>, body: seq<Event>) {
    && QueueOk(g, distances, pq, visited)
    && LogOk(g, init, distances, visited, body, Visits(body))
    && ExpandedClosed(g, distances, expandedAt)
    && (forall x | x in Visits(body) :: x in g.adj)
  }

  /** The main loop's invariant: the visited nodes are the expanded ones, and
      each expansion examined the node's whole list. */
  ghost predicate DOuter(g: Graph, init: seq<Event>, distances: map<nat, Dist>, pq: multiset<Dijkstra.Entry>,
                         visited: set<nat>, expandedAt: map<nat, int>, body: seq<Event>) {
    && DState(g, init, distances, pq, visited, expandedAt, body)
    && visited == expandedAt.Keys
    && CountState(body, Updating) == OutDegrees(g, Visits(body))
  }

  /** The neighbour loop's invariant while expanding u, popped at cd, after k
      entries; `before` is the visit order before u. */
  ghost predicate DInner(g: Graph, init: seq<Event>, distances: map<nat, Dist>, pq: multiset<Dijkstra.Entry>,
                         visited: set<nat>, expandedAt: map<nat, int>, body: seq<Event>,
                         u: nat, cd: int, k: nat, before: seq<nat>) {
    && DState(g, init, distances, pq, visited, expandedAt, body)
    && visited == expandedAt.Keys + {u} && u !in expandedAt
    && Visits(body) == before + [u]
    && Reached(g, distances, u, cd, k)
    && CountState(body, Updating) == OutDegrees(g, before) + k
  }

  /** Where value d of node v comes from: it is the start's 0, or src
      names an expanded node u with an item (v, w) such that d is u's
      expansion distance plus w. */
  ghost predicate Sourced(g: Graph, start: nat, ex: map<nat, int>, src: map<Dijkstra.Entry, nat>, d: int, v: nat) {
    || (d == 0 && v == start)
    || ((d, v) in src && src[(d, v)] in ex && src[(d, v)] in g.adj
        && HasItem(g.adj[src[(d, v)]], v, d - ex[src[(d, v)]]))
  }

  /** Value d of node v is the start's 0, or the expansion distance of
      some expanded node u plus the weight of u's item (v, w). */
  ghost predicate FromExpanded(g: Graph, start: nat, ex: map<nat, int>, d: int, v: nat) {
    || (d == 0 && v == start)
    || exists u :: u in ex && u in g.adj && (v, d - ex[u]) in g.adj[u]
  }

  /** Every finite distance, every queued pair and every expansion
      distance is sourced. */
  ghost predicate Traced(g: Graph, start: nat, distances: map<nat, Dist>, pq: multiset<Dijkstra.Entry>,
                         ex: map<nat, int>, src: map<Dijkstra.Entry, nat>) {
    && (forall v {:trigger Sourced(g, start, ex, src, distances[v].d, v)} | v in distances && distances[v].Fin? ::
          Sourced(g, start, ex, src, distances[v].d, v))
    && (forall d, v {:trigger Sourced(g, start, ex, src, d, v)} | (d, v) in pq :: Sourced(g, start, ex, src, d, v))
    && (forall u {:trigger Sourced(g, start, ex, src, ex[u], u)} | u in ex :: Sourced(g, start, ex, src, ex[u], u))
  }

  /** items hold an item (v, w) with d == cd + w. */
  ghost predicate Gives(items: seq<(nat, int)>, cd: int, v: nat, d: int) {
    HasItem(items, v, d - cd)
  }

  /** Distance x is finite, and items hold an item (v, w) with x == cd + w. */
  ghost predicate GivesDist(items: seq<(nat, int)>, cd: int, v: nat, x: Dist) {
    x.Fin? && Gives(items, cd, v, x.d)
  }

  /** What relaxing items at cd wrote: the keys are kept, every distance
      that differs from distances0 is finite and cd plus the weight of an
      item for that neighbour, and so is every pair queued beyond pq0. */
  ghost predicate WrittenBy(items: seq<(nat, int)>, cd: int, distances0: map<nat, Dist>, distances: map<nat, Dist>,
                            pq0: multiset<Dijkstra.Entry>, pq: multiset<Dijkstra.Entry>) {
    && distances.Keys == distances0.Keys
    && (forall v {:trigger GivesDist(items, cd, v, distances[v])} | v in distances && distances[v] != distances0[v] ::
          GivesDist(items, cd, v, distances[v]))
    && pq0 <= pq
    && (forall d, v {:trigger Gives(items, cd, v, d)} | (d, v) in pq - pq0 :: Gives(items, cd, v, d))
  }

  /** What the expansion of u at cd has written, by u's own items. */
  ghost predicate FromEntries(g: Graph, u: nat, cd: int, distances0: map<nat, Dist>, distances: map<nat, Dist>,
                              pq0: multiset<Dijkstra.Entry>, pq: multiset<Dijkstra.Entry>) {
    u in g.adj && WrittenBy(g.adj[u], cd, distances0, distances, pq0, pq)
  }

  /** The neighbour loop's invariant after k items of u, together with
      what they have written since distances0 and pq0. */
  ghost predicate Relaxing(g: Graph, init: seq<Event>, distances0: map<nat, Dist>, pq0: multiset<Dijkstra.Entry>,
                           distances: map<nat, Dist>, pq: multiset<Dijkstra.Entry>, visited: set<nat>,
                           expandedAt: map<nat, int>, body: seq<Event>, u: nat, cd: int, k: nat, before: seq<nat>) {
    && DInner(g, init, distances, pq, visited, expandedAt, body, u, cd, k, before)
    && FromEntries(g, u, cd, distances0, distances, pq0, pq)
  }

  /** Every pair an expansion at cd could queue: cd plus an item's weight,
      with the item's neighbour. */
  ghost function Writable(items: seq<(nat, int)>, cd: int): set<Dijkstra.Entry> {
    set k | 0 <= k < |items| :: (cd + items[k].1, items[k].0)
  }

  /** Bellman-Ford's running facts: one distance per node, the display shows
      every distance, and every loop event so far is valid. */
  ghost predicate BCore(g: Graph, init: seq<Event>, start: nat, distances: map<nat, Dist>, body: seq<Event>) {
    && distances.Keys == g.adj.Keys
    && (forall v | v in g.adj :: LastDist(init + body, v) == distances[v])
    && BellmanFordTrace(init + body, |init|, start)
  }

  /** Bellman-Ford's facts between two entries: no distance update pending. */
  ghost predicate BState(g: Graph, init: seq<Event>, start: nat, distances: map<nat, Dist>, body: seq<Event>) {
    BCore(g, init, start, distances, body) && NoPending(init + body)
  }
}
