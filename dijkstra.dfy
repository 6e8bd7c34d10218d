/** Batch Dijkstra (constructAdj and dijkstra): an undirected adjacency list
    built from the edge list, then a binary-heap priority queue with lazy
    deletion, seeded with (0, src). */
module Dijkstra {
  import opened Graphs

  /** A heap entry (distance, node). */
  type Entry = (int, nat)

  /** An adjacency entry (neighbour, weight). */
  type Adj = (nat, int)

  // ---------------------------------------------------------------------
  // constructAdj
  // ---------------------------------------------------------------------

  function EmptyLists(V: nat): (r: seq<seq<Adj>>)
    ensures |r| == V && forall x | 0 <= x < V :: r[x] == []
  {
    if V == 0 then [] else EmptyLists(V - 1) + [[]]
  }

  /** The lists constructAdj holds after appending the given edges in order:
      each edge (u, v, wt) appends (v, wt) to list u and then (u, wt) to list v. */
  function AdjSpec(V: nat, edges: seq<Edge>): (adj: seq<seq<Adj>>)
    requires InRange(edges, V)
    ensures |adj| == V
    decreases |edges|
  {
    if edges == [] then EmptyLists(V)
    else
      var e := edges[|edges| - 1];
      assert forall x | x in edges[..|edges| - 1] :: x in edges;
      var a := AdjSpec(V, edges[..|edges| - 1]);
      var a1 := a[e.u := a[e.u] + [(e.v, e.w)]];
      a1[e.v := a1[e.v] + [(e.u, e.w)]]
  }

  /** The neighbours of node x contributed by the edges, in edge order. */
  function Neighbours(edges: seq<Edge>, x: nat): seq<Adj>
    decreases |edges|
  {
    if edges == [] then []
    else
      var e := edges[|edges| - 1];
      Neighbours(edges[..|edges| - 1], x)
        + (if e.u == x then [(e.v, e.w)] else [])
        + (if e.v == x then [(e.u, e.w)] else [])
  }

  /** The total number of entries over all lists. */
  function TotalEntries(adj: seq<seq<Adj>>): nat
    decreases |adj|
  {
    if adj == [] then 0 else TotalEntries(adj[..|adj| - 1]) + |adj[|adj| - 1]|
  }

  /** List x of constructAdj is exactly the neighbours of x, in edge order. */
  lemma {:induction false} AdjListsAreNeighbours(V: nat, edges: seq<Edge>)
    requires InRange(edges, V)
    ensures forall x | 0 <= x < V :: AdjSpec(V, edges)[x] == Neighbours(edges, x)
    decreases |edges|
  {
    if edges != [] {
      assert forall y | y in edges[..|edges| - 1] :: y in edges;
      AdjListsAreNeighbours(V, edges[..|edges| - 1]);
    }
  }

  /** (v, w) is a neighbour of x exactly when the doubled edge list holds the
      edge (x, v, w). */
  lemma {:induction false} NeighboursMembership(edges: seq<Edge>, x: nat, v: nat, w: int)
    ensures (v, w) in Neighbours(edges, x) <==> Edge(x, v, w) in edges || Edge(v, x, w) in edges
    decreases |edges|
  {
    if edges != [] {
      var prefix := edges[..|edges| - 1];
      NeighboursMembership(prefix, x, v, w);
      assert edges == prefix + [edges[|edges| - 1]];
    }
  }

  lemma AdjMembership(V: nat, edges: seq<Edge>, x: nat, v: nat, w: int)
    requires InRange(edges, V) && x < V
    ensures (v, w) in AdjSpec(V, edges)[x] <==> Edge(x, v, w) in Undirected(edges)
  {
    AdjListsAreNeighbours(V, edges);
    NeighboursMembership(edges, x, v, w);
    UndirectedMembership(edges, Edge(x, v, w));
  }

  lemma {:induction false} TotalAppend(adj: seq<seq<Adj>>, i: nat, a: Adj)
    requires i < |adj|
    ensures TotalEntries(adj[i := adj[i] + [a]]) == TotalEntries(adj) + 1
    decreases |adj|
  {
    var last := |adj| - 1;
    if i < last {
      TotalAppend(adj[..last], i, a);
      assert adj[i := adj[i] + [a]][..last] == adj[..last][i := adj[i] + [a]];
    } else {
      assert adj[i := adj[i] + [a]][..last] == adj[..last];
    }
  }

  lemma {:induction false} TotalEmpty(adj: seq<seq<Adj>>)
    requires forall i | 0 <= i < |adj| :: adj[i] == []
    ensures TotalEntries(adj) == 0
    decreases |adj|
  {
    if adj != [] {
      TotalEmpty(adj[..|adj| - 1]);
    }
  }

  /** constructAdj makes 2 * |edges| entries in all. */
  lemma {:induction false} AdjTotal(V: nat, edges: seq<Edge>)
    requires InRange(edges, V)
    ensures TotalEntries(AdjSpec(V, edges)) == 2 * |edges|
    decreases |edges|
  {
    if edges == [] {
      TotalEmpty(AdjSpec(V, edges));
    } else {
      var e := edges[|edges| - 1];
      var prefix := edges[..|edges| - 1];
      assert forall y | y in prefix :: y in edges;
      AdjTotal(V, prefix);
      var a := AdjSpec(V, prefix);
      TotalAppend(a, e.u, (e.v, e.w));
      var a1 := a[e.u := a[e.u] + [(e.v, e.w)]];
      TotalAppend(a1, e.v, (e.u, e.w));
    }
  }

  /** constructAdj(edges, V): V empty lists, filled in place. */
  method ConstructAdj(edges: seq<Edge>, V: nat) returns (adj: array<seq<Adj>>)
    requires InRange(edges, V)
    ensures adj.Length == V && adj[..] == AdjSpec(V, edges)
  {
    adj := new seq<Adj>[V](_ => []);
    assert adj[..] == AdjSpec(V, edges[..0]);
    for i := 0 to |edges|
      invariant adj.Length == V
      invariant adj[..] == AdjSpec(V, edges[..i])
    {
      var e := edges[i];
      assert edges[..i + 1][..i] == edges[..i];
      assert e in edges;
      adj[e.u] := adj[e.u] + [(e.v, e.w)];
      adj[e.v] := adj[e.v] + [(e.u, e.w)];
    }
    assert edges[..|edges|] == edges;
  }

  // ---------------------------------------------------------------------
  // The heap, abstracted as a multiset with lexicographic extract-min
  // ---------------------------------------------------------------------


  /** Tuple order, as heapq compares (distance, node) pairs. */
  predicate LexLe(a: Entry, b: Entry) {
    a.0 < b.0 || (a.0 == b.0 && a.1 <= b.1)
  }

  /** e is what heappop returns from pq. */
  predicate IsMin(e: Entry, pq: multiset<Entry>) {
    e in pq && forall x | x in pq :: LexLe(e, x)
  }

  lemma MinExists(pq: multiset<Entry>)
    requires pq != multiset{}
    ensures exists e :: IsMin(e, pq)
    decreases |pq|
  {
    var x :| x in pq;
    var rest := pq - multiset{x};
    assert forall y | y in pq :: y == x || y in rest;
    if rest == multiset{} {
      assert IsMin(x, pq);
    } else {
      MinExists(rest);
      var m :| IsMin(m, rest);
      if LexLe(x, m) {
        assert IsMin(x, pq);
      } else {
        assert IsMin(m, pq);
      }
    }
  }

  // ---------------------------------------------------------------------
  // The loop invariant
  // ---------------------------------------------------------------------

  /** Every adjacency entry of list x names a node and is an edge of the
      doubled list with a non-negative weight. */
  ghost predicate AdjFacts(A: seq<seq<Adj>>, graph: seq<Edge>) {
    forall x, k | 0 <= x < |A| && 0 <= k < |A[x]| ::
      A[x][k].0 < |A| && A[x][k].1 >= 0 && Edge(x, A[x][k].0, A[x][k].1) in graph
  }

  /** Every queued entry (d, x) names a node whose distance is finite and at
      most d (so d > dist[x] is exactly "stale"). */
  ghost predicate QueueBounds(pq: multiset<Entry>, dist: seq<Dist>) {
    forall e | e in pq :: e.1 < |dist| && dist[e.1].Fin? && dist[e.1].d <= e.0
  }

  /** A node's current distance is queued at most once. */
  ghost predicate NoDuplicate(pq: multiset<Entry>, dist: seq<Dist>) {
    forall x | 0 <= x < |dist| && dist[x].Fin? :: pq[(dist[x].d, x)] <= 1
  }

  /** The expanded nodes: their distances are at most floor and no longer
      queued, and every queued entry is at least floor. */
  ghost predicate Finalised(done: set<nat>, pq: multiset<Entry>, dist: seq<Dist>, floor: int) {
    && (forall x | x in done :: x < |dist| && dist[x].Fin? && dist[x].d <= floor && (dist[x].d, x) !in pq)
    && (forall e | e in pq :: floor <= e.0)
  }

  ghost predicate NonNegDist(dist: seq<Dist>) {
    forall x | 0 <= x < |dist| && dist[x].Fin? :: dist[x].d >= 0
  }

  /** No entry of node x's list can be relaxed from x's current distance. */
  ghost predicate Settled(nbrs: seq<Adj>, dist: seq<Dist>, x: nat)
    requires x < |dist| && dist[x].Fin?
  {
    forall k | 0 <= k < |nbrs| :: nbrs[k].0 < |dist| && !Below(dist[x].d + nbrs[k].1, dist[nbrs[k].0])
  }

  /** The first k entries of a list popped at distance d cannot be relaxed. */
  ghost predicate Relaxed(nbrs: seq<Adj>, k: nat, d: int, dist: seq<Dist>)
    requires k <= |nbrs|
  {
    forall j | 0 <= j < k :: nbrs[j].0 < |dist| && !Below(d + nbrs[j].1, dist[nbrs[j].0])
  }

  /** Each reached node other than skip is still queued at its distance or settled. */
  ghost predicate PendingOrSettled(A: seq<seq<Adj>>, pq: multiset<Entry>, dist: seq<Dist>, skip: int) {
    forall x | 0 <= x < |dist| && x < |A| && dist[x].Fin? && x != skip ::
      (dist[x].d, x) in pq || Settled(A[x], dist, x)
  }

  /** The invariant of the main loop (skip == -1) and, with skip the node
      being expanded, of the neighbour loop. */
  ghost predicate Inv(V: nat, edges: seq<Edge>, src: nat, A: seq<seq<Adj>>, pq: multiset<Entry>,
                      dist: seq<Dist>, done: set<nat>, floor: int, skip: int) {
    && |dist| == V && |A| == V && src < V && AdjFacts(A, Undirected(edges))
    && QueueBounds(pq, dist) && NoDuplicate(pq, dist) && Finalised(done, pq, dist, floor)
    && NonNegDist(dist) && dist[src] == Fin(0)
    && Sound(Undirected(edges), src, dist)
    && PendingOrSettled(A, pq, dist, skip)
  }

  /** The neighbour loop after k entries of u's list, u popped at distance d. */
  ghost predicate InnerInv(V: nat, edges: seq<Edge>, src: nat, A: seq<seq<Adj>>, pq: multiset<Entry>,
                           dist: seq<Dist>, done: set<nat>, u: nat, d: int, k: nat) {
    && Inv(V, edges, src, A, pq, dist, done, d, u)
    && u < V && dist[u] == Fin(d) && u in done && k <= |A[u]|
    && Relaxed(A[u], k, d, dist)
  }

  lemma AdjFactsHold(V: nat, edges: seq<Edge>)
    requires InRange(edges, V) && NonNegative(edges)
    ensures AdjFacts(AdjSpec(V, edges), Undirected(edges))
  {
    var A: seq<seq<Adj>> := AdjSpec(V, edges);
    forall x, k | 0 <= x < |A| && 0 <= k < |A[x]|
      ensures A[x][k].0 < |A| && A[x][k].1 >= 0 && Edge(x, A[x][k].0, A[x][k].1) in Undirected(edges)
    {
      var (v, w) := A[x][k];
      AdjMembership(V, edges, x, v, w);
      UndirectedInRange(edges, V);
      UndirectedMembership(edges, Edge(x, v, w));
    }
  }

  /** The state after pq = [(0, src)] and dist[src] = 0. */
  lemma InitInv(V: nat, edges: seq<Edge>, src: nat, dist: seq<Dist>)
    requires src < V && InRange(edges, V) && NonNegative(edges)
    requires |dist| == V && dist[src] == Fin(0) && forall x | 0 <= x < V && x != src :: dist[x] == Inf
    ensures Inv(V, edges, src, AdjSpec(V, edges), multiset{(0, src)}, dist, {}, 0, -1)
  {
    AdjFactsHold(V, edges);
    assert IsPath(Undirected(edges), src, src, []);
  }

  /** Popping a stale entry keeps the invariant. */
  lemma PopStale(V: nat, edges: seq<Edge>, src: nat, A: seq<seq<Adj>>, pq: multiset<Entry>,
                 dist: seq<Dist>, done: set<nat>, floor: int, e: Entry)
    requires Inv(V, edges, src, A, pq, dist, done, floor, -1) && IsMin(e, pq)
    requires dist[e.1].Fin? && dist[e.1].d < e.0
    ensures Inv(V, edges, src, A, pq - multiset{e}, dist, done, floor, -1)
  {
    var rest := pq - multiset{e};
    forall x | 0 <= x < V && dist[x].Fin? && (dist[x].d, x) in pq
      ensures (dist[x].d, x) in rest
    {
      assert (dist[x].d, x) != e;
    }
  }

  /** Popping the current entry (d, u) of u starts the expansion of u, and
      fixes d as the new floor. */
  lemma PopFresh(V: nat, edges: seq<Edge>, src: nat, A: seq<seq<Adj>>, pq: multiset<Entry>,
                 dist: seq<Dist>, done: set<nat>, floor: int, e: Entry)
    requires Inv(V, edges, src, A, pq, dist, done, floor, -1) && IsMin(e, pq)
    requires !(dist[e.1].Fin? && dist[e.1].d < e.0)
    ensures e.1 < V && dist[e.1] == Fin(e.0) && e.1 !in done && floor <= e.0
    ensures InnerInv(V, edges, src, A, pq - multiset{e}, dist, done + {e.1}, e.1, e.0, 0)
  {
    var (d, u) := e;
    var rest := pq - multiset{e};
    assert pq[(dist[u].d, u)] <= 1;
    assert (d, u) !in rest;
    forall x | x in done ensures dist[x].d <= d && (dist[x].d, x) !in rest {
    }
    forall x | 0 <= x < V && dist[x].Fin? && x != u && (dist[x].d, x) in pq
      ensures (dist[x].d, x) in rest
    {
      assert (dist[x].d, x) != e;
    }
    forall f | f in rest ensures d <= f.0 {
      assert LexLe(e, f);
    }
  }

  /** Improving v to nd = d + w and pushing (nd, v) keeps the queue facts. */
  lemma RelaxQueue(pq: multiset<Entry>, dist: seq<Dist>, done: set<nat>, u: nat, d: int, v: nat, w: int, nd: int)
    requires QueueBounds(pq, dist) && NoDuplicate(pq, dist) && Finalised(done, pq, dist, d) && NonNegDist(dist)
    requires u < |dist| && dist[u] == Fin(d) && v < |dist| && w >= 0 && nd == d + w && Below(nd, dist[v])
    ensures
      var dist' := dist[v := Fin(nd)];
      var pq' := pq + multiset{(nd, v)};
      QueueBounds(pq', dist') && NoDuplicate(pq', dist') && Finalised(done, pq', dist', d) && NonNegDist(dist')
  {
    assert v !in done;
    assert (nd, v) !in pq;
  }

  /** Improving v to nd = d + w along the edge (u, v, w) keeps every entry a walk weight. */
  lemma RelaxSound(graph: seq<Edge>, src: nat, dist: seq<Dist>, u: nat, d: int, v: nat, w: int, nd: int)
    requires Sound(graph, src, dist) && u < |dist| && dist[u] == Fin(d)
    requires v < |dist| && Edge(u, v, w) in graph && nd == d + w
    ensures Sound(graph, src, dist[v := Fin(nd)])
  {
    ReachesExtend(graph, src, Edge(u, v, w), d);
  }

  /** Improving v (and queueing it) leaves every other node pending or
      settled, and extends the relaxed prefix of u's list. */
  lemma RelaxPending(A: seq<seq<Adj>>, pq: multiset<Entry>, dist: seq<Dist>, u: nat, d: int, k: nat, v: nat, w: int,
                      nd: int)
    requires |A| == |dist| && u < |A| && k < |A[u]| && A[u][k] == (v, w) && v < |dist| && v != u
    requires PendingOrSettled(A, pq, dist, u) && Relaxed(A[u], k, d, dist)
    requires nd == d + w && Below(nd, dist[v])
    ensures
      var dist' := dist[v := Fin(nd)];
      PendingOrSettled(A, pq + multiset{(nd, v)}, dist', u) && Relaxed(A[u], k + 1, d, dist')
  {
    var dist' := dist[v := Fin(nd)];
    var pq' := pq + multiset{(nd, v)};
    forall x | 0 <= x < |dist'| && x < |A| && dist'[x].Fin? && x != u
      ensures (dist'[x].d, x) in pq' || Settled(A[x], dist', x)
    {
      if x != v && (dist[x].d, x) !in pq {
        assert Settled(A[x], dist, x);
      }
    }
  }

  /** Entry k of u's list improves its target v: dist[v] = dist[u] + w and
      (dist[v], v) is pushed. */
  lemma RelaxUpdate(V: nat, edges: seq<Edge>, src: nat, A: seq<seq<Adj>>, pq: multiset<Entry>,
                    dist: seq<Dist>, done: set<nat>, u: nat, d: int, k: nat, v: nat, w: int, nd: int)
    requires InnerInv(V, edges, src, A, pq, dist, done, u, d, k) && k < |A[u]| && A[u][k] == (v, w)
    requires nd == d + w && Below(nd, dist[v])
    ensures InnerInv(V, edges, src, A, pq + multiset{(nd, v)}, dist[v := Fin(nd)], done, u, d, k + 1)
  {
    assert v < V && w >= 0 && Edge(u, v, w) in Undirected(edges);
    RelaxQueue(pq, dist, done, u, d, v, w, nd);
    RelaxSound(Undirected(edges), src, dist, u, d, v, w, nd);
    RelaxPending(A, pq, dist, u, d, k, v, w, nd);
  }

  /** Entry k of u's list does not improve its target: nothing changes. */
  lemma RelaxSkip(V: nat, edges: seq<Edge>, src: nat, A: seq<seq<Adj>>, pq: multiset<Entry>,
                  dist: seq<Dist>, done: set<nat>, u: nat, d: int, k: nat)
    requires InnerInv(V, edges, src, A, pq, dist, done, u, d, k) && k < |A[u]|
    requires !Below(d + A[u][k].1, dist[A[u][k].0])
    ensures InnerInv(V, edges, src, A, pq, dist, done, u, d, k + 1)
  {
  }

  /** After its whole list, u is settled and the main invariant is back. */
  lemma ExpandDone(V: nat, edges: seq<Edge>, src: nat, A: seq<seq<Adj>>, pq: multiset<Entry>,
                   dist: seq<Dist>, done: set<nat>, u: nat, d: int)
    requires u < |A| && InnerInv(V, edges, src, A, pq, dist, done, u, d, |A[u]|)
    ensures Inv(V, edges, src, A, pq, dist, done, d, -1)
  {
    assert Settled(A[u], dist, u);
  }

  /** With the queue empty, every reached node is settled, so no edge of the
      doubled list can be relaxed. */
  lemma EmptyQueueClosed(V: nat, edges: seq<Edge>, src: nat, dist: seq<Dist>, done: set<nat>, floor: int)
    requires InRange(edges, V)
    requires Inv(V, edges, src, AdjSpec(V, edges), multiset{}, dist, done, floor, -1)
    ensures Closed(Undirected(edges), dist)
  {
    var A := AdjSpec(V, edges);
    UndirectedInRange(edges, V);
    forall e | e in Undirected(edges) ensures !Relaxable(dist, e) {
      if dist[e.u].Fin? {
        AdjMembership(V, edges, e.u, e.v, e.w);
        var k :| 0 <= k < |A[e.u]| && A[e.u][k] == (e.v, e.w);
        assert Settled(A[e.u], dist, e.u);
      }
    }
  }

  // ---------------------------------------------------------------------
  // dijkstra
  // ---------------------------------------------------------------------

  /** One entry (v, weight) of u's list: when going through u is shorter,
      lower v's distance and push the new pair. */
  method RelaxEntry(ghost V: nat, ghost edges: seq<Edge>, ghost src: nat, ghost A: seq<seq<Adj>>,
                    pq0: multiset<Entry>, dist0: seq<Dist>, ghost done: set<nat>, u: nat, ghost d: int,
                    ghost k: nat, v: nat, weight: int)
    returns (pq: multiset<Entry>, dist: seq<Dist>)
    requires InnerInv(V, edges, src, A, pq0, dist0, done, u, d, k) && k < |A[u]| && A[u][k] == (v, weight)
    ensures InnerInv(V, edges, src, A, pq, dist, done, u, d, k + 1)
  {
    assert u < |dist0| && dist0[u] == Fin(d) && v < |dist0|;
    var nd := dist0[u].d + weight;
    if Below(nd, dist0[v]) {
      RelaxUpdate(V, edges, src, A, pq0, dist0, done, u, d, k, v, weight, nd);
      dist := dist0[v := Fin(nd)];
      pq := pq0 + multiset{(nd, v)};
    } else {
      RelaxSkip(V, edges, src, A, pq0, dist0, done, u, d, k);
      pq, dist := pq0, dist0;
    }
  }

  /** The body of the main loop for a fresh entry (d, u): relax every entry
      of u's list in order, pushing each improved neighbour. */
  method Expand(ghost V: nat, ghost edges: seq<Edge>, ghost src: nat, ghost A: seq<seq<Adj>>, nbrs: seq<Adj>,
                pq0: multiset<Entry>, dist0: seq<Dist>, ghost done: set<nat>, u: nat, d: int)
    returns (pq: multiset<Entry>, dist: seq<Dist>)
    requires u < |A| && nbrs == A[u]
    requires InnerInv(V, edges, src, A, pq0, dist0, done, u, d, 0)
    ensures Inv(V, edges, src, A, pq, dist, done, d, -1)
  {
    pq, dist := pq0, dist0;
    for k := 0 to |nbrs|
      invariant InnerInv(V, edges, src, A, pq, dist, done, u, d, k)
    {
      var (v, weight) := nbrs[k];
      pq, dist := RelaxEntry(V, edges, src, A, pq, dist, done, u, d, k, v, weight);
    }
    ExpandDone(V, edges, src, A, pq, dist, done, u, d);
  }

  /** dijkstra(V, edges, src) on non-negative weights: the result holds the
      shortest distances from src over the edges taken in both directions,
      with the sentinel exactly at the nodes src cannot reach. */
  method Run(V: nat, edges: seq<Edge>, src: nat) returns (dist: seq<Dist>)
    requires src < V && InRange(edges, V) && NonNegative(edges)
    ensures |dist| == V && dist[src] == Fin(0)
    ensures ShortestDistances(Undirected(edges), src, dist)
  {
    var adj := ConstructAdj(edges, V);
    ghost var A := adj[..];

    var pq: multiset<Entry> := multiset{(0, src)};
    dist := seq(V, _ => Inf);
    dist := dist[src := Fin(0)];

    ghost var done: set<nat> := {};
    ghost var floor := 0;
    InitInv(V, edges, src, dist);
    while pq != multiset{}
      invariant adj[..] == A
      invariant Inv(V, edges, src, A, pq, dist, done, floor, -1)
      decreases Nodes(V) - done, |pq|
    {
      MinExists(pq);
      var e :| IsMin(e, pq);
      var (d, u) := e;

      // Stale node check (lazy deletion).
      if dist[u].Fin? && dist[u].d < d {
        PopStale(V, edges, src, A, pq, dist, done, floor, e);
        pq := pq - multiset{e};
        continue;
      }
      PopFresh(V, edges, src, A, pq, dist, done, floor, e);
      pq := pq - multiset{e};
      done := done + {u};
      floor := d;
      pq, dist := Expand(V, edges, src, A, adj[u], pq, dist, done, u, d);
    }
    EmptyQueueClosed(V, edges, src, dist, done, floor);
    SoundClosedShortest(Undirected(edges), src, dist);
  }
}
