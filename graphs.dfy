/** Shared vocabulary of the shortest-path engine: weighted directed edges,
    distance entries with an "unreachable" sentinel, walks through an edge
    list, and what it means for a distance vector to hold shortest distances. */
module Graphs {

  /** A directed weighted edge (source, target, weight); nodes are list indices. */
  datatype Edge = Edge(u: nat, v: nat, w: int)

  /** A distance entry: a finite value, or the sentinel for "unreachable"
      (float('inf') in Bellman-Ford, sys.maxsize in Dijkstra). */
  datatype Dist = Fin(d: int) | Inf

  /** x < b, where every integer is below the sentinel. */
  predicate Below(x: int, b: Dist) {
    b.Inf? || x < b.d
  }

  /** a <= b in the extended order (Inf is the top element). */
  predicate AtMost(a: Dist, b: Dist) {
    b.Inf? || (a.Fin? && a.d <= b.d)
  }

  function Reverse(e: Edge): Edge {
    Edge(e.v, e.u, e.w)
  }

  /** The node ids below V, V of them. */
  ghost function Nodes(V: nat): (r: set<nat>)
    ensures forall x: nat :: x in r <==> x < V
    ensures |r| == V
  {
    if V == 0 then {} else Nodes(V - 1) + {V - 1}
  }

  /** Every endpoint of every edge is an index of a vector of length n. */
  predicate InRange(edges: seq<Edge>, n: int) {
    forall e | e in edges :: e.u < n && e.v < n
  }

  predicate NonNegative(edges: seq<Edge>) {
    forall e | e in edges :: e.w >= 0
  }

  /** Edge e can still improve dist: its source is finite and going through
      it is strictly shorter than what its target holds. */
  predicate Relaxable(dist: seq<Dist>, e: Edge)
    requires e.u < |dist| && e.v < |dist|
  {
    dist[e.u].Fin? && Below(dist[e.u].d + e.w, dist[e.v])
  }

  /** No edge of the list can be relaxed any further (the triangle inequality). */
  predicate Closed(edges: seq<Edge>, dist: seq<Dist>) {
    InRange(edges, |dist|) && forall e | e in edges :: !Relaxable(dist, e)
  }

  /** p is a walk through edges from node s to node t (built by appending). */
  ghost predicate IsPath(edges: seq<Edge>, s: nat, t: nat, p: seq<Edge>)
    decreases |p|
  {
    if p == [] then s == t
    else
      var e := p[|p| - 1];
      e in edges && e.v == t && IsPath(edges, s, e.u, p[..|p| - 1])
  }

  function Weight(p: seq<Edge>): int
    decreases |p|
  {
    if p == [] then 0 else Weight(p[..|p| - 1]) + p[|p| - 1].w
  }

  /** Some walk from s to t has total weight exactly w. */
  ghost predicate Reaches(edges: seq<Edge>, s: nat, t: nat, w: int) {
    exists p :: IsPath(edges, s, t, p) && Weight(p) == w
  }

  ghost predicate Connected(edges: seq<Edge>, s: nat, t: nat) {
    exists p :: IsPath(edges, s, t, p)
  }

  /** Every finite entry is the weight of an actual walk from src; so an
      entry for a node that src cannot reach is the sentinel. */
  ghost predicate Sound(edges: seq<Edge>, src: nat, dist: seq<Dist>) {
    forall v | 0 <= v < |dist| && dist[v].Fin? :: Reaches(edges, src, v, dist[v].d)
  }

  /** dist holds the shortest distances from src: every walk from src to v
      is at least dist[v] (which is then finite), and every finite entry is
      attained by a walk. */
  ghost predicate ShortestDistances(edges: seq<Edge>, src: nat, dist: seq<Dist>) {
    && src < |dist|
    && (forall v | 0 <= v < |dist| && dist[v].Fin? :: Reaches(edges, src, v, dist[v].d))
    && (forall v, p | 0 <= v < |dist| && IsPath(edges, src, v, p) ::
          dist[v].Fin? && dist[v].d <= Weight(p))
  }

  /** Extending a walk to e.u by the edge e gives a walk to e.v. */
  lemma ReachesExtend(edges: seq<Edge>, s: nat, e: Edge, w: int)
    requires Reaches(edges, s, e.u, w) && e in edges
    ensures Reaches(edges, s, e.v, w + e.w)
  {
    var p :| IsPath(edges, s, e.u, p) && Weight(p) == w;
    var q := p + [e];
    assert q[..|q| - 1] == p;
    assert IsPath(edges, s, e.v, q) && Weight(q) == w + e.w;
  }

  /** Along any walk out of a finite node, a closed vector grows by at most
      the walk's weight. */
  lemma {:induction false} ClosedAlongPath(edges: seq<Edge>, dist: seq<Dist>, s: nat, t: nat, p: seq<Edge>)
    requires Closed(edges, dist) && s < |dist| && dist[s].Fin?
    requires IsPath(edges, s, t, p)
    ensures t < |dist| && dist[t].Fin? && dist[t].d <= dist[s].d + Weight(p)
    decreases |p|
  {
    if p != [] {
      var e := p[|p| - 1];
      ClosedAlongPath(edges, dist, s, e.u, p[..|p| - 1]);
      assert !Relaxable(dist, e);
    }
  }

  /** A sound, closed vector whose source entry is at most 0 holds exactly the
      shortest distances; in particular its source entry is 0. */
  lemma SoundClosedShortest(edges: seq<Edge>, src: nat, dist: seq<Dist>)
    requires Sound(edges, src, dist) && Closed(edges, dist)
    requires src < |dist| && dist[src].Fin? && dist[src].d <= 0
    ensures ShortestDistances(edges, src, dist)
    ensures dist[src] == Fin(0)
  {
    forall v, p | 0 <= v < |dist| && IsPath(edges, src, v, p)
      ensures dist[v].Fin? && dist[v].d <= Weight(p)
    {
      ClosedAlongPath(edges, dist, src, v, p);
    }
    var q :| IsPath(edges, src, src, q) && Weight(q) == dist[src].d;
    ClosedAlongPath(edges, dist, src, src, q);
  }

  /** Shortest distances are unique: any two vectors of the same length that
      both hold them are equal. */
  lemma ShortestUnique(edges: seq<Edge>, src: nat, d1: seq<Dist>, d2: seq<Dist>)
    requires |d1| == |d2|
    requires ShortestDistances(edges, src, d1) && ShortestDistances(edges, src, d2)
    ensures d1 == d2
  {
    forall v | 0 <= v < |d1| ensures d1[v] == d2[v] {
      if d1[v].Fin? {
        var p :| IsPath(edges, src, v, p) && Weight(p) == d1[v].d;
      }
      if d2[v].Fin? {
        var q :| IsPath(edges, src, v, q) && Weight(q) == d2[v].d;
      }
    }
  }

  /** The edge list doubled into both directions: each edge (u, v, w) is
      followed by its reverse (v, u, w), in the original order. */
  function Undirected(edges: seq<Edge>): (r: seq<Edge>)
    ensures |r| == 2 * |edges|
    ensures forall k | 0 <= k < |edges| :: r[2 * k] == edges[k] && r[2 * k + 1] == Reverse(edges[k])
    decreases |edges|
  {
    if edges == [] then []
    else
      var e := edges[|edges| - 1];
      Undirected(edges[..|edges| - 1]) + [e, Reverse(e)]
  }

  /** An edge is in the doubled list exactly when it or its reverse is an
      original edge. */
  lemma UndirectedMembership(edges: seq<Edge>, e: Edge)
    ensures e in Undirected(edges) <==> e in edges || Reverse(e) in edges
  {
    var r := Undirected(edges);
    if e in r {
      var i :| 0 <= i < |r| && r[i] == e;
      var k := i / 2;
      assert i == 2 * k || i == 2 * k + 1;
      assert Reverse(Reverse(edges[k])) == edges[k];
    }
    if e in edges {
      var k :| 0 <= k < |edges| && edges[k] == e;
      assert r[2 * k] == e;
    }
    if Reverse(e) in edges {
      var k :| 0 <= k < |edges| && edges[k] == Reverse(e);
      assert r[2 * k + 1] == e;
    }
  }

  lemma UndirectedInRange(edges: seq<Edge>, n: int)
    requires InRange(edges, n)
    ensures InRange(Undirected(edges), n)
  {
    forall e | e in Undirected(edges) ensures e.u < n && e.v < n {
      UndirectedMembership(edges, e);
    }
  }

  /** Doubling keeps every weight non-negative. */
  lemma UndirectedNonNegative(edges: seq<Edge>)
    requires NonNegative(edges)
    ensures NonNegative(Undirected(edges))
  {
    forall e | e in Undirected(edges) ensures e.w >= 0 {
      UndirectedMembership(edges, e);
    }
  }
}
