/** Batch Bellman-Ford over a directed edge list (bellmanFord): the node count
    is widened to cover every endpoint, at most V-1 relaxation passes run with
    an early exit after a pass that changes nothing, and a final scan reports
    a negative cycle. */
module BellmanFord {
  import opened Graphs
  import opened Walks

  /** What bellmanFord returns: the distance list, or the one-element marker
      [-1] that reports a negative cycle. */
  datatype Outcome = Distances(dist: seq<Dist>) | NegativeCycle

  /** The largest endpoint over the edges, scanned in order from -1. */
  function MaxNode(edges: seq<Edge>): (m: int)
    ensures m >= -1
    ensures forall e | e in edges :: e.u <= m && e.v <= m
    ensures m == -1 <==> edges == []
    ensures m == -1 || exists e | e in edges :: e.u == m || e.v == m
    decreases |edges|
  {
    if edges == [] then -1
    else
      var e := edges[|edges| - 1];
      var m := MaxNode(edges[..|edges| - 1]);
      assert forall x | x in edges[..|edges| - 1] :: x in edges;
      var m1 := if e.u > m then e.u else m;
      if e.v > m1 then e.v else m1
  }

  /** The node count after widening: the least n >= V (and >= 0) that covers
      every endpoint of every edge. */
  function Widened(V: int, edges: seq<Edge>): (n: int)
    ensures n >= V && n >= 0 && InRange(edges, n)
    ensures n == V || n == 0 || exists e | e in edges :: n == e.u + 1 || n == e.v + 1
  {
    var m := MaxNode(edges);
    if V > m + 1 then V else m + 1
  }

  /** The initial list: 0 at src, the sentinel everywhere else. */
  function Init(n: nat, src: nat): seq<Dist> {
    seq(n, i => if i == src then Fin(0) else Inf)
  }

  /** One relaxation step through edge e. */
  function Relax(dist: seq<Dist>, e: Edge): (r: seq<Dist>)
    requires e.u < |dist| && e.v < |dist|
    ensures |r| == |dist|
    ensures forall i | 0 <= i < |dist| :: AtMost(r[i], dist[i])
  {
    if Relaxable(dist, e) then dist[e.v := Fin(dist[e.u].d + e.w)] else dist
  }

  /** One full pass: every edge relaxed once, in list order. */
  function Pass(dist: seq<Dist>, edges: seq<Edge>): (r: seq<Dist>)
    requires InRange(edges, |dist|)
    ensures |r| == |dist|
    ensures forall i | 0 <= i < |dist| :: AtMost(r[i], dist[i])
    decreases |edges|
  {
    if edges == [] then dist
    else
      assert forall x | x in edges[..|edges| - 1] :: x in edges;
      Relax(Pass(dist, edges[..|edges| - 1]), edges[|edges| - 1])
  }

  /** The pass's `changes` flag: some edge was relaxed during the pass. */
  predicate Changed(dist: seq<Dist>, edges: seq<Edge>)
    requires InRange(edges, |dist|)
    decreases |edges|
  {
    assert forall x | x in edges[..if edges == [] then 0 else |edges| - 1] :: x in edges;
    edges != [] &&
    (Changed(dist, edges[..|edges| - 1]) ||
     Relaxable(Pass(dist, edges[..|edges| - 1]), edges[|edges| - 1]))
  }

  /** The final scan's question: can some edge still be relaxed? */
  predicate SomeRelaxable(dist: seq<Dist>, edges: seq<Edge>)
    requires InRange(edges, |dist|)
  {
    exists e | e in edges :: Relaxable(dist, e)
  }

  /** k full passes without early exit. */
  function Passes(dist: seq<Dist>, edges: seq<Edge>, k: nat): (r: seq<Dist>)
    requires InRange(edges, |dist|)
    ensures |r| == |dist|
    decreases k
  {
    if k == 0 then dist else Passes(Pass(dist, edges), edges, k - 1)
  }

  /** Each of k consecutive passes from dist changed something. */
  predicate AllPassesChange(dist: seq<Dist>, edges: seq<Edge>, k: nat)
    requires InRange(edges, |dist|)
    decreases k
  {
    k == 0 || (Changed(dist, edges) && AllPassesChange(Pass(dist, edges), edges, k - 1))
  }

  /** The run from list dist with k passes left: a pass that changes nothing
      returns at once; after the last pass one more scan decides between the
      distances and the negative-cycle marker. */
  function Finish(dist: seq<Dist>, edges: seq<Edge>, k: nat): Outcome
    requires InRange(edges, |dist|)
    decreases k
  {
    if k == 0 then
      if SomeRelaxable(dist, edges) then NegativeCycle else Distances(dist)
    else if !Changed(dist, edges) then Distances(Pass(dist, edges))
    else Finish(Pass(dist, edges), edges, k - 1)
  }

  /** bellmanFord(V, edges, src) as a function of its inputs. */
  function Spec(V: int, edges: seq<Edge>, src: nat): Outcome
    requires src < Widened(V, edges)
  {
    var n := Widened(V, edges);
    Finish(Init(n, src), edges, n - 1)
  }

  // ---------------------------------------------------------------------
  // The relaxation passes
  // ---------------------------------------------------------------------

  /** A pass whose flag stays false left the list as it was, and then no
      edge of the list can be relaxed. */
  lemma {:induction false} UnchangedPassIsClosed(dist: seq<Dist>, edges: seq<Edge>)
    requires InRange(edges, |dist|) && !Changed(dist, edges)
    ensures Pass(dist, edges) == dist && Closed(edges, dist)
    decreases |edges|
  {
    if edges != [] {
      var prefix := edges[..|edges| - 1];
      assert forall x | x in prefix :: x in edges;
      UnchangedPassIsClosed(dist, prefix);
      assert edges == prefix + [edges[|edges| - 1]];
    }
  }

  /** The flag is exact: it is set precisely when the pass lowered some entry. */
  lemma {:induction false} ChangeFlagExact(dist: seq<Dist>, edges: seq<Edge>)
    requires InRange(edges, |dist|)
    ensures Changed(dist, edges) <==> Pass(dist, edges) != dist
    decreases |edges|
  {
    if edges == [] {
    } else if !Changed(dist, edges) {
      UnchangedPassIsClosed(dist, edges);
    } else {
      var prefix := edges[..|edges| - 1];
      var e := edges[|edges| - 1];
      assert forall x | x in prefix :: x in edges;
      var p := Pass(dist, prefix);
      if Changed(dist, prefix) {
        ChangeFlagExact(dist, prefix);
        var i :| 0 <= i < |dist| && p[i] != dist[i];
        assert AtMost(Relax(p, e)[i], p[i]);
        assert Pass(dist, edges)[i] != dist[i];
      } else {
        UnchangedPassIsClosed(dist, prefix);
        assert Pass(dist, edges)[e.v] != dist[e.v];
      }
    }
  }

  /** Relaxing an edge of the graph keeps every finite entry a walk weight. */
  lemma RelaxSound(graph: seq<Edge>, src: nat, dist: seq<Dist>, e: Edge)
    requires Sound(graph, src, dist) && e in graph && e.u < |dist| && e.v < |dist|
    ensures Sound(graph, src, Relax(dist, e))
  {
    if Relaxable(dist, e) {
      ReachesExtend(graph, src, e, dist[e.u].d);
    }
  }

  lemma {:induction false} PassSound(graph: seq<Edge>, src: nat, dist: seq<Dist>, edges: seq<Edge>)
    requires Sound(graph, src, dist) && InRange(edges, |dist|)
    requires forall e | e in edges :: e in graph
    ensures Sound(graph, src, Pass(dist, edges))
    decreases |edges|
  {
    if edges != [] {
      var prefix := edges[..|edges| - 1];
      assert forall x | x in prefix :: x in edges;
      PassSound(graph, src, dist, prefix);
      RelaxSound(graph, src, Pass(dist, prefix), edges[|edges| - 1]);
    }
  }

  // ---------------------------------------------------------------------
  // What the run returns
  // ---------------------------------------------------------------------

  /** A distance list returned by the run from dist is closed, has dist's
      length, never exceeds dist, and is dist after at most k passes. */
  lemma {:induction false} FinishDistances(dist: seq<Dist>, edges: seq<Edge>, k: nat)
    requires InRange(edges, |dist|) && Finish(dist, edges, k).Distances?
    ensures var r := Finish(dist, edges, k).dist;
      && |r| == |dist| && Closed(edges, r)
      && (forall i | 0 <= i < |dist| :: AtMost(r[i], dist[i]))
      && exists j | 0 <= j <= k :: r == Passes(dist, edges, j)
    decreases k
  {
    var r := Finish(dist, edges, k).dist;
    if k == 0 {
      assert r == Passes(dist, edges, 0);
    } else if !Changed(dist, edges) {
      UnchangedPassIsClosed(dist, edges);
      assert r == Passes(dist, edges, 0);
    } else {
      var next := Pass(dist, edges);
      FinishDistances(next, edges, k - 1);
      var j :| 0 <= j <= k - 1 && r == Passes(next, edges, j);
      assert r == Passes(dist, edges, j + 1);
    }
  }

  /** The run from dist reports a negative cycle exactly when each of the k
      passes changed something and an edge can still be relaxed after them. */
  lemma {:induction false} FinishNegativeCycle(dist: seq<Dist>, edges: seq<Edge>, k: nat)
    requires InRange(edges, |dist|)
    ensures Finish(dist, edges, k).NegativeCycle? <==>
      AllPassesChange(dist, edges, k) && SomeRelaxable(Passes(dist, edges, k), edges)
    decreases k
  {
    if k > 0 {
      FinishNegativeCycle(Pass(dist, edges), edges, k - 1);
    }
  }

  lemma FinishSound(edges: seq<Edge>, src: nat, dist: seq<Dist>, k: nat)
    requires InRange(edges, |dist|) && Sound(edges, src, dist)
    requires Finish(dist, edges, k).Distances?
    ensures Sound(edges, src, Finish(dist, edges, k).dist)
    decreases k
  {
    PassSound(edges, src, dist, edges);
    if k > 0 && Changed(dist, edges) {
      FinishSound(edges, src, Pass(dist, edges), k - 1);
    }
  }

  /** A distance list returned by bellmanFord has the widened length and holds
      the shortest distances from src (0 at src, the sentinel exactly where
      src cannot reach), and it is the start list after at most n-1 passes. */
  lemma BellmanFordDistances(V: int, edges: seq<Edge>, src: nat)
    requires src < Widened(V, edges) && Spec(V, edges, src).Distances?
    ensures var n := Widened(V, edges); var r := Spec(V, edges, src).dist;
      && |r| == n && r[src] == Fin(0)
      && ShortestDistances(edges, src, r)
      && exists j | 0 <= j <= n - 1 :: r == Passes(Init(n, src), edges, j)
  {
    var n := Widened(V, edges);
    var d0 := Init(n, src);
    forall v | 0 <= v < n && d0[v].Fin? ensures Reaches(edges, src, v, d0[v].d) {
      assert IsPath(edges, src, src, []) && Weight([]) == 0;
    }
    FinishDistances(d0, edges, n - 1);
    FinishSound(edges, src, d0, n - 1);
    var r := Spec(V, edges, src).dist;
    assert AtMost(r[src], d0[src]);
    SoundClosedShortest(edges, src, r);
  }

  /** bellmanFord returns the marker [-1] exactly when each of the n-1 passes
      changed something and the final scan still finds a relaxable edge. */
  lemma BellmanFordNegativeCycle(V: int, edges: seq<Edge>, src: nat)
    requires src < Widened(V, edges)
    ensures var n := Widened(V, edges); var d0 := Init(n, src);
      Spec(V, edges, src).NegativeCycle? <==>
        AllPassesChange(d0, edges, n - 1) && SomeRelaxable(Passes(d0, edges, n - 1), edges)
  {
    var n := Widened(V, edges);
    FinishNegativeCycle(Init(n, src), edges, n - 1);
  }

  // ---------------------------------------------------------------------
  // Non-negative weights: no negative cycle is ever reported
  // ---------------------------------------------------------------------

  /** After a pass, the target of any edge e holds at most what e offered
      from its source's value before the pass. */
  lemma {:induction false} PassBound(dist: seq<Dist>, edges: seq<Edge>, e: Edge)
    requires InRange(edges, |dist|) && e in edges && dist[e.u].Fin?
    ensures AtMost(Pass(dist, edges)[e.v], Fin(dist[e.u].d + e.w))
    decreases |edges|
  {
    var prefix := edges[..|edges| - 1];
    var last := edges[|edges| - 1];
    assert forall x | x in prefix :: x in edges;
    var p := Pass(dist, prefix);
    if last == e {
      assert AtMost(p[e.u], dist[e.u]);
    } else {
      assert e in prefix by { assert edges == prefix + [last]; }
      PassBound(dist, prefix, e);
      assert AtMost(Relax(p, last)[e.v], p[e.v]);
    }
  }

  /** Every walk from src of at most k steps ends at a node of the list whose
      entry is finite and no greater than the walk's weight. */
  ghost predicate WithinWalks(edges: seq<Edge>, src: nat, dist: seq<Dist>, k: nat) {
    forall t: nat, p: seq<Edge> | IsPath(edges, src, t, p) && |p| <= k ::
      t < |dist| && dist[t].Fin? && dist[t].d <= Weight(p)
  }

  /** One pass lets every walk grow by one step. */
  lemma PassWithinWalks(edges: seq<Edge>, src: nat, dist: seq<Dist>, k: nat)
    requires InRange(edges, |dist|) && WithinWalks(edges, src, dist, k)
    ensures WithinWalks(edges, src, Pass(dist, edges), k + 1)
  {
    var r := Pass(dist, edges);
    forall t: nat, p: seq<Edge> | IsPath(edges, src, t, p) && |p| <= k + 1
      ensures t < |r| && r[t].Fin? && r[t].d <= Weight(p)
    {
      if |p| <= k {
        assert AtMost(r[t], dist[t]);
      } else {
        var q := p[..|p| - 1];
        var e := p[|p| - 1];
        assert IsPath(edges, src, e.u, q);
        PassBound(dist, edges, e);
      }
    }
  }

  /** After k passes from a list that bounds the walks of j steps, the list
      bounds the walks of j + k steps. */
  lemma {:induction false} PassesWithinWalks(edges: seq<Edge>, src: nat, dist: seq<Dist>, j: nat, k: nat)
    requires InRange(edges, |dist|) && WithinWalks(edges, src, dist, j)
    ensures WithinWalks(edges, src, Passes(dist, edges, k), j + k)
    decreases k
  {
    if k > 0 {
      PassWithinWalks(edges, src, dist, j);
      PassesWithinWalks(edges, src, Pass(dist, edges), j + 1, k - 1);
    }
  }

  /** Passes over the graph's own edges keep every finite entry a walk weight. */
  lemma {:induction false} PassesSound(edges: seq<Edge>, src: nat, dist: seq<Dist>, k: nat)
    requires InRange(edges, |dist|) && Sound(edges, src, dist)
    ensures Sound(edges, src, Passes(dist, edges, k))
    decreases k
  {
    if k > 0 {
      PassSound(edges, src, dist, edges);
      PassesSound(edges, src, Pass(dist, edges), k - 1);
    }
  }

  /** The start list is sound and bounds the empty walk. */
  lemma InitFacts(edges: seq<Edge>, n: nat, src: nat)
    requires src < n
    ensures Sound(edges, src, Init(n, src)) && WithinWalks(edges, src, Init(n, src), 0)
  {
    assert IsPath(edges, src, src, []) && Weight([]) == 0;
  }

  /** With non-negative weights, after n - 1 passes over n nodes no edge can
      be relaxed any more: a relaxable edge would give a walk of weight below
      what the list holds, and cutting its loops would give one of fewer
      than n steps, which the passes already bound. */
  lemma NonNegativeLastPassClosed(n: nat, edges: seq<Edge>, src: nat)
    requires src < n && InRange(edges, n) && NonNegative(edges)
    ensures !SomeRelaxable(Passes(Init(n, src), edges, n - 1), edges)
  {
    var d := Passes(Init(n, src), edges, n - 1);
    InitFacts(edges, n, src);
    PassesWithinWalks(edges, src, Init(n, src), 0, n - 1);
    PassesSound(edges, src, Init(n, src), n - 1);
    forall e | e in edges ensures !Relaxable(d, e) {
      if Relaxable(d, e) {
        var q :| IsPath(edges, src, e.u, q) && Weight(q) == d[e.u].d;
        var p := q + [e];
        assert p[..|p| - 1] == q;
        PathChained(edges, src, e.v, p);
        var r := ShortWalk(edges, n, src, e.v, p);
        PathChained(edges, src, e.v, r);
      }
    }
  }

  /** With non-negative weights bellmanFord never reports a negative cycle:
      it always returns the distance list. */
  lemma BellmanFordNonNegative(V: int, edges: seq<Edge>, src: nat)
    requires src < Widened(V, edges) && NonNegative(edges)
    ensures Spec(V, edges, src).Distances?
  {
    var n := Widened(V, edges);
    NonNegativeLastPassClosed(n, edges, src);
    FinishNegativeCycle(Init(n, src), edges, n - 1);
  }

  // ---------------------------------------------------------------------
  // What the marker [-1] means about the graph
  // ---------------------------------------------------------------------

  /** A node whose shortest distance d[t] is finite is reached by a walk of
      fewer than n steps that weighs exactly d[t]. */
  lemma ShortestByShortWalk(n: nat, edges: seq<Edge>, src: nat, d: seq<Dist>, t: nat) returns (q: seq<Edge>)
    requires src < n && InRange(edges, n) && ShortestDistances(edges, src, d)
    requires t < |d| && d[t].Fin?
    ensures IsPath(edges, src, t, q) && |q| < n && Weight(q) == d[t].d
  {
    var p :| IsPath(edges, src, t, p) && Weight(p) == d[t].d;
    PathChained(edges, src, t, p);
    forall r | Chained(edges, src, t, r) ensures Weight(p) <= Weight(r) {
      PathChained(edges, src, t, r);
    }
    q := ShortOptimalWalk(edges, n, src, t, p);
    PathChained(edges, src, t, q);
  }

  /** Whenever shortest distances from src exist, bellmanFord returns exactly
      them; with BellmanFordDistances, it returns [-1] exactly when no vector
      of shortest distances exists (some walk from src can always be made
      lighter, as around a cycle of negative weight). */
  lemma ShortestMeansDistances(V: int, edges: seq<Edge>, src: nat, d: seq<Dist>)
    requires src < Widened(V, edges)
    requires |d| == Widened(V, edges) && ShortestDistances(edges, src, d)
    ensures Spec(V, edges, src) == Distances(d)
  {
    var n := Widened(V, edges);
    var D := Passes(Init(n, src), edges, n - 1);
    InitFacts(edges, n, src);
    PassesWithinWalks(edges, src, Init(n, src), 0, n - 1);
    PassesSound(edges, src, Init(n, src), n - 1);
    forall e | e in edges ensures !Relaxable(D, e) {
      ShortestLeavesNothing(n, edges, src, d, D, e);
    }
    FinishNegativeCycle(Init(n, src), edges, n - 1);
    BellmanFordDistances(V, edges, src);
    ShortestUnique(edges, src, Spec(V, edges, src).dist, d);
  }

  /** bellmanFord returns the marker [-1] exactly when the graph has no
      vector of shortest distances from src. */
  lemma MarkerMeansNoShortest(V: int, edges: seq<Edge>, src: nat)
    requires src < Widened(V, edges)
    ensures Spec(V, edges, src).NegativeCycle? <==>
      !exists d :: |d| == Widened(V, edges) && ShortestDistances(edges, src, d)
  {
    if d :| |d| == Widened(V, edges) && ShortestDistances(edges, src, d) {
      ShortestMeansDistances(V, edges, src, d);
    } else if Spec(V, edges, src).Distances? {
      BellmanFordDistances(V, edges, src);
    }
  }

  /** A list that is sound and bounds every walk of fewer than n steps
      leaves no edge relaxable when shortest distances exist. */
  lemma ShortestLeavesNothing(n: nat, edges: seq<Edge>, src: nat, d: seq<Dist>, D: seq<Dist>, e: Edge)
    requires src < n && InRange(edges, n) && |d| == n && ShortestDistances(edges, src, d)
    requires |D| == n && Sound(edges, src, D) && WithinWalks(edges, src, D, n - 1)
    requires e in edges
    ensures !Relaxable(D, e)
  {
    if Relaxable(D, e) {
      var q :| IsPath(edges, src, e.u, q) && Weight(q) == D[e.u].d;
      var p := q + [e];
      assert p[..|p| - 1] == q;
      assert IsPath(edges, src, e.v, p);
      var r := ShortestByShortWalk(n, edges, src, d, e.v);
      assert false;
    }
  }

  // ---------------------------------------------------------------------
  // The imperative algorithm
  // ---------------------------------------------------------------------

  lemma MaxNodeStep(edges: seq<Edge>, i: nat)
    requires i < |edges|
    ensures edges[..i + 1] == edges[..i] + [edges[i]]
    ensures
      var m := MaxNode(edges[..i]);
      var m1 := if edges[i].u > m then edges[i].u else m;
      MaxNode(edges[..i + 1]) == if edges[i].v > m1 then edges[i].v else m1
  {
    assert edges[..i + 1][..i] == edges[..i];
  }

  /** The normalisation loop: a fresh copy of the edges, built by appending,
      and the largest endpoint, starting from -1. */
  method Normalize(edges: seq<Edge>) returns (normalized: seq<Edge>, maxNode: int)
    ensures normalized == edges
    ensures maxNode == MaxNode(edges)
  {
    normalized := [];
    maxNode := -1;
    for i := 0 to |edges|
      invariant normalized == edges[..i]
      invariant maxNode == MaxNode(edges[..i])
    {
      var e := edges[i];
      MaxNodeStep(edges, i);
      normalized := normalized + [e];
      if e.u > maxNode {
        maxNode := e.u;
      }
      if e.v > maxNode {
        maxNode := e.v;
      }
    }
    assert edges[..|edges|] == edges;
  }

  /** One pass of the relaxation loop over the list in place; the flag
      reports whether any entry was lowered. */
  method RelaxAll(dist: array<Dist>, edges: seq<Edge>) returns (changes: bool)
    requires InRange(edges, dist.Length)
    modifies dist
    ensures dist[..] == Pass(old(dist[..]), edges)
    ensures changes == Changed(old(dist[..]), edges)
  {
    ghost var before := dist[..];
    changes := false;
    for j := 0 to |edges|
      invariant dist[..] == Pass(before, edges[..j])
      invariant changes == Changed(before, edges[..j])
    {
      var e := edges[j];
      assert edges[..j + 1][..j] == edges[..j];
      assert e in edges;
      if dist[e.u].Fin? && Below(dist[e.u].d + e.w, dist[e.v]) {
        dist[e.v] := Fin(dist[e.u].d + e.w);
        changes := true;
      }
    }
    assert edges[..|edges|] == edges;
  }

  /** The final scan: is some edge still relaxable? */
  method AnyRelaxable(dist: array<Dist>, edges: seq<Edge>) returns (found: bool)
    requires InRange(edges, dist.Length)
    ensures found == SomeRelaxable(dist[..], edges)
  {
    for j := 0 to |edges|
      invariant forall k | 0 <= k < j :: !Relaxable(dist[..], edges[k])
    {
      var e := edges[j];
      assert e in edges;
      if dist[e.u].Fin? && Below(dist[e.u].d + e.w, dist[e.v]) {
        return true;
      }
    }
    return false;
  }

  /** The run starts from the initial list with n-1 passes left. */
  lemma SpecStart(V: int, edges: seq<Edge>, src: nat, n: nat, dist: seq<Dist>)
    requires n == Widened(V, edges) && src < n && dist == Init(n, src)
    ensures Finish(dist, edges, n - 1) == Spec(V, edges, src)
  {
  }

  /** A list bellmanFord returns holds the shortest distances. */
  lemma OutcomeShortest(V: int, edges: seq<Edge>, src: nat, r: Outcome)
    requires src < Widened(V, edges) && r == Spec(V, edges, src)
    ensures r.Distances? ==>
      |r.dist| == Widened(V, edges) && r.dist[src] == Fin(0) && ShortestDistances(edges, src, r.dist)
  {
    if r.Distances? {
      BellmanFordDistances(V, edges, src);
    }
  }

  /** One step of the pass loop. */
  lemma FinishStep(dist: seq<Dist>, edges: seq<Edge>, k: nat)
    requires InRange(edges, |dist|) && k > 0
    ensures Finish(dist, edges, k) ==
      if !Changed(dist, edges) then Distances(Pass(dist, edges)) else Finish(Pass(dist, edges), edges, k - 1)
  {
  }

  /** The start list [inf] * n with 0 written at src. */
  method InitList(n: nat, src: nat) returns (dist: array<Dist>)
    requires src < n
    ensures fresh(dist) && dist[..] == Init(n, src)
  {
    dist := new Dist[n](_ => Inf);
    dist[src] := Fin(0);
    assert forall j | 0 <= j < n :: dist[j] == Init(n, src)[j];
  }

  /** bellmanFord(V, edges, src). The input list is read and copied, never
      changed; the distance list is an array updated in place. */
  method Run(V: int, edges: seq<Edge>, src: nat) returns (r: Outcome)
    requires src < Widened(V, edges)
    ensures r == Spec(V, edges, src)
    ensures r.Distances? ==>
      |r.dist| == Widened(V, edges) && r.dist[src] == Fin(0) && ShortestDistances(edges, src, r.dist)
  {
    var normalized, maxNode := Normalize(edges);
    var n: nat := if V > maxNode + 1 then V else maxNode + 1;
    var dist := InitList(n, src);
    ghost var left: nat := n - 1;
    ghost var outcome := Finish(dist[..], edges, left);
    SpecStart(V, edges, src, n, dist[..]);

    for i := 0 to n - 1
      invariant dist.Length == n && left == n - 1 - i
      invariant Finish(dist[..], edges, left) == outcome
    {
      ghost var before := dist[..];
      var changes := RelaxAll(dist, normalized);
      FinishStep(before, edges, left);
      if !changes {
        r := Distances(dist[..]);
        OutcomeShortest(V, edges, src, r);
        return;
      }
      left := left - 1;
    }

    // Negative cycle check.
    var found := AnyRelaxable(dist, normalized);
    if found {
      return NegativeCycle;
    }
    r := Distances(dist[..]);
    OutcomeShortest(V, edges, src, r);
  }
}
