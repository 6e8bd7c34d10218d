/** createGraph(n): a random connected test graph, with the random draws
    taken as inputs. A spanning part links every node 1..n-1 back to an
    earlier node; an extra part adds the drawn edges that are not self-loops. */
module GraphGenerator {
  import opened Graphs

  /** The random draws createGraph makes, in the order it makes them. */
  datatype Draws = Draws(
    fractions: seq<real>,  // np.random.random(n - 1)
    spanWeights: seq<int>, // np.random.randint(1, 20, size = n - 1)
    extraCount: int,       // np.random.randint(n // 2, n)
    exU: seq<int>,         // np.random.randint(0, n, size = extraCount)
    exV: seq<int>,         // np.random.randint(0, n, size = extraCount)
    exW: seq<int>          // np.random.randint(1, 20, size = extraCount)
  )

  /** A weight the generator can draw: randint(1, 20) is 1..19. */
  predicate DrawnWeight(w: int) {
    1 <= w < 20
  }

  /** Every draw lies in the range numpy produces it from. */
  predicate ValidDraws(n: int, dr: Draws) {
    && n >= 1
    && |dr.fractions| == n - 1 && |dr.spanWeights| == n - 1
    && (forall k | 0 <= k < n - 1 :: 0.0 <= dr.fractions[k] < 1.0 && DrawnWeight(dr.spanWeights[k]))
    && n / 2 <= dr.extraCount < n
    && |dr.exU| == dr.extraCount && |dr.exV| == dr.extraCount && |dr.exW| == dr.extraCount
    && (forall k | 0 <= k < dr.extraCount ::
          0 <= dr.exU[k] < n && 0 <= dr.exV[k] < n && DrawnWeight(dr.exW[k]))
  }

  /** The target picked for source i from a uniform draw r in [0, 1): the
      product r * i truncated to an integer. */
  function Target(r: real, i: nat): (t: nat)
    requires 0.0 <= r < 1.0 && i >= 1
    ensures t < i
  {
    (r * i as real).Floor
  }

  /** The spanning edges (k + 1, target, weight) for k = 0..n-2, in source order. */
  function Spanning(n: int, dr: Draws): (r: seq<Edge>)
    requires ValidDraws(n, dr)
    ensures |r| == n - 1
    ensures forall k | 0 <= k < n - 1 :: r[k].u == k + 1 && r[k].v < r[k].u
  {
    seq(n - 1, k requires 0 <= k < n - 1 =>
      Edge(k + 1, Target(dr.fractions[k], k + 1), dr.spanWeights[k]))
  }

  /** The drawn extra edges whose endpoints differ, in draw order (the
      boolean mask u != v applied to the three columns). */
  function KeepNonLoops(us: seq<int>, vs: seq<int>, ws: seq<int>): (r: seq<Edge>)
    requires |us| == |vs| == |ws|
    requires forall k | 0 <= k < |us| :: us[k] >= 0 && vs[k] >= 0
    ensures |r| <= |us|
    decreases |us|
  {
    if us == [] then []
    else
      var last := |us| - 1;
      var kept := KeepNonLoops(us[..last], vs[..last], ws[..last]);
      if us[last] != vs[last] then kept + [Edge(us[last], vs[last], ws[last])] else kept
  }

  /** createGraph(n): the spanning edges followed by the kept extra edges.
      The spanning edge from source k + 1 comes k-th and points back to an
      earlier node; the kept extras number at most extraCount. */
  function CreateGraph(n: int, dr: Draws): (r: seq<Edge>)
    requires ValidDraws(n, dr)
    ensures n - 1 <= |r| <= n - 1 + dr.extraCount < 2 * n - 1
    ensures forall k | 0 <= k < n - 1 ::
      && r[k].u == k + 1 && r[k].v == Target(dr.fractions[k], k + 1) && r[k].v < r[k].u
      && r[k].w == dr.spanWeights[k]
    ensures r[n - 1..] == KeepNonLoops(dr.exU, dr.exV, dr.exW)
  {
    Spanning(n, dr) + KeepNonLoops(dr.exU, dr.exV, dr.exW)
  }

  /** An edge is kept exactly when some draw k names it and is not a self-loop. */
  lemma {:induction false} KeepNonLoopsMembership(us: seq<int>, vs: seq<int>, ws: seq<int>, e: Edge)
    requires |us| == |vs| == |ws|
    requires forall k | 0 <= k < |us| :: us[k] >= 0 && vs[k] >= 0
    ensures e in KeepNonLoops(us, vs, ws) <==>
      exists k | 0 <= k < |us| :: us[k] != vs[k] && e == Edge(us[k], vs[k], ws[k])
    decreases |us|
  {
    if us != [] {
      var last := |us| - 1;
      KeepNonLoopsMembership(us[..last], vs[..last], ws[..last], e);
      if e in KeepNonLoops(us, vs, ws) && e !in KeepNonLoops(us[..last], vs[..last], ws[..last]) {
        assert us[last] != vs[last] && e == Edge(us[last], vs[last], ws[last]);
      }
    }
  }

  /** No kept extra edge is a self-loop, and its endpoints and weight lie in
      the drawn ranges. */
  lemma ExtraEdgesWellFormed(n: int, dr: Draws)
    requires ValidDraws(n, dr)
    ensures forall e | e in KeepNonLoops(dr.exU, dr.exV, dr.exW) ::
      e.u != e.v && e.u < n && e.v < n && DrawnWeight(e.w)
  {
    forall e | e in KeepNonLoops(dr.exU, dr.exV, dr.exW)
      ensures e.u != e.v && e.u < n && e.v < n && DrawnWeight(e.w)
    {
      KeepNonLoopsMembership(dr.exU, dr.exV, dr.exW, e);
    }
  }

  /** Every output edge joins two of the n nodes with a weight in [1, 19]. */
  lemma CreateGraphRanges(n: int, dr: Draws)
    requires ValidDraws(n, dr)
    ensures InRange(CreateGraph(n, dr), n) && NonNegative(CreateGraph(n, dr))
    ensures forall e | e in CreateGraph(n, dr) :: DrawnWeight(e.w)
  {
    ExtraEdgesWellFormed(n, dr);
    var g := CreateGraph(n, dr);
    forall e | e in g ensures e.u < n && e.v < n && DrawnWeight(e.w) {
      var i :| 0 <= i < |g| && g[i] == e;
      if i >= n - 1 {
        assert e in KeepNonLoops(dr.exU, dr.exV, dr.exW);
      }
    }
  }

  /** Putting an edge into x in front of a walk out of x gives a walk out of
      the edge's source. */
  lemma {:induction false} PrependEdge(edges: seq<Edge>, e: Edge, t: nat, p: seq<Edge>)
    requires e in edges && IsPath(edges, e.v, t, p)
    ensures IsPath(edges, e.u, t, [e] + p)
    decreases |p|
  {
    if p != [] {
      var q := [e] + p;
      PrependEdge(edges, e, p[|p| - 1].u, p[..|p| - 1]);
      assert q[..|q| - 1] == [e] + p[..|p| - 1];
    }
  }

  /** Following spanning edges alone from any node leads to node 0. */
  lemma {:induction false} SpanningReachesRoot(n: int, dr: Draws, x: nat)
    requires ValidDraws(n, dr) && x < n
    ensures Connected(Spanning(n, dr), x, 0)
    decreases x
  {
    var g := Spanning(n, dr);
    if x == 0 {
      assert IsPath(g, 0, 0, []);
    } else {
      var e := g[x - 1];
      assert e == Edge(x, Target(dr.fractions[x - 1], x), dr.spanWeights[x - 1]);
      SpanningReachesRoot(n, dr, e.v);
      var p :| IsPath(g, e.v, 0, p);
      PrependEdge(g, e, 0, p);
    }
  }

  /** Taken in both directions, the generated edges connect node 0 to every node. */
  lemma {:induction false} RootReachesAll(n: int, dr: Draws, x: nat)
    requires ValidDraws(n, dr) && x < n
    ensures Connected(Undirected(CreateGraph(n, dr)), 0, x)
    decreases x
  {
    var g := CreateGraph(n, dr);
    var u := Undirected(g);
    if x == 0 {
      assert IsPath(u, 0, 0, []);
    } else {
      var e := g[x - 1];
      assert e == Edge(x, Target(dr.fractions[x - 1], x), dr.spanWeights[x - 1]);
      RootReachesAll(n, dr, e.v);
      var p :| IsPath(u, 0, e.v, p);
      var back := Reverse(e);
      UndirectedMembership(g, back);
      assert Reverse(back) == e;
      var q := p + [back];
      assert q[..|q| - 1] == p;
      assert IsPath(u, 0, x, q);
    }
  }
}
