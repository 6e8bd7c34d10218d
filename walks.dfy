/** Surgery on walks: reading a walk position by position, splitting its
    weight, and cutting out a stretch that returns to the same node. With
    non-negative weights this gives, for every walk, one with the same ends,
    fewer steps than there are nodes, and no greater weight. */
module Walks {
  import opened Graphs

  /** p read position by position: every step is an edge of the list,
      consecutive steps meet, and the walk runs from s to t. */
  ghost predicate Chained(edges: seq<Edge>, s: nat, t: nat, p: seq<Edge>) {
    && (forall i | 0 <= i < |p| :: p[i] in edges)
    && (forall i | 0 <= i < |p| - 1 :: p[i].v == p[i + 1].u)
    && (if p == [] then s == t else p[0].u == s && p[|p| - 1].v == t)
  }

  /** The node reached after the first i steps of p from s. */
  function At(s: nat, p: seq<Edge>, i: nat): nat
    requires i <= |p|
  {
    if i == 0 then s else p[i - 1].v
  }

  lemma {:induction false} PathChained(edges: seq<Edge>, s: nat, t: nat, p: seq<Edge>)
    ensures IsPath(edges, s, t, p) <==> Chained(edges, s, t, p)
    decreases |p|
  {
    if p != [] {
      var q := p[..|p| - 1];
      var e := p[|p| - 1];
      PathChained(edges, s, e.u, q);
      assert forall i | 0 <= i < |q| :: q[i] == p[i];
      if q != [] {
        assert p[|q| - 1].v == p[|q|].u <== Chained(edges, s, t, p);
      }
    }
  }

  lemma {:induction false} WeightAppend(a: seq<Edge>, b: seq<Edge>)
    ensures Weight(a + b) == Weight(a) + Weight(b)
    decreases |b|
  {
    if b == [] {
      assert a + b == a;
    } else {
      var b' := b[..|b| - 1];
      assert (a + b)[..|a + b| - 1] == a + b';
      WeightAppend(a, b');
    }
  }

  /** A walk over non-negative edges has non-negative weight. */
  lemma {:induction false} WeightNonNegative(edges: seq<Edge>, p: seq<Edge>)
    requires NonNegative(edges) && forall i | 0 <= i < |p| :: p[i] in edges
    ensures Weight(p) >= 0
    decreases |p|
  {
    if p != [] {
      var q := p[..|p| - 1];
      assert forall i | 0 <= i < |q| :: q[i] == p[i];
      WeightNonNegative(edges, q);
      assert p[|p| - 1] in edges;
    }
  }

  /** Cutting p at i and j splits its weight into three parts. */
  lemma WeightCut(p: seq<Edge>, i: nat, j: nat)
    requires i <= j <= |p|
    ensures Weight(p) == Weight(p[..i] + p[j..]) + Weight(p[i..j])
  {
    assert p == p[..i] + p[i..j] + p[j..];
    WeightAppend(p[..i] + p[i..j], p[j..]);
    WeightAppend(p[..i], p[i..j]);
    WeightAppend(p[..i], p[j..]);
  }

  /** Cutting out a stretch p[i..j] that starts and ends at the same node
      leaves a walk with the same ends. */
  lemma CutLoop(edges: seq<Edge>, s: nat, t: nat, p: seq<Edge>, i: nat, j: nat)
    requires Chained(edges, s, t, p) && i < j <= |p| && At(s, p, i) == At(s, p, j)
    ensures Chained(edges, s, t, p[..i] + p[j..])
  {
    var r := p[..i] + p[j..];
    assert forall k | 0 <= k < |r| :: r[k] == if k < i then p[k] else p[j + k - i];
    forall k | 0 <= k < |r| - 1 ensures r[k].v == r[k + 1].u {
      if k == i - 1 {
        assert r[k].v == At(s, p, j);
      }
    }
    if r != [] {
      if i == 0 {
        assert r[0] == p[j] && p[j].u == At(s, p, j);
      }
      if j == |p| {
        assert r[|r| - 1] == p[i - 1];
      }
    }
  }

  /** A stretch p[i..j] of a walk is itself a walk, between the nodes reached
      after i and after j steps. */
  lemma ChainedSlice(edges: seq<Edge>, s: nat, t: nat, p: seq<Edge>, i: nat, j: nat)
    requires Chained(edges, s, t, p) && i <= j <= |p|
    ensures Chained(edges, At(s, p, i), At(s, p, j), p[i..j])
  {
    var r := p[i..j];
    assert forall k | 0 <= k < |r| :: r[k] == p[i + k];
    if r != [] && i > 0 {
      assert p[i - 1].v == p[i].u;
    }
  }

  /** A walk from s to m followed by a walk from m to t is a walk from s to t. */
  lemma ChainedAppend(edges: seq<Edge>, s: nat, m: nat, t: nat, a: seq<Edge>, b: seq<Edge>)
    requires Chained(edges, s, m, a) && Chained(edges, m, t, b)
    ensures Chained(edges, s, t, a + b)
  {
    var r := a + b;
    assert forall k | 0 <= k < |r| :: r[k] == if k < |a| then a[k] else b[k - |a|];
    forall k | 0 <= k < |r| - 1 ensures r[k].v == r[k + 1].u {
      if k == |a| - 1 {
        assert r[k] == a[|a| - 1] && r[k + 1] == b[0];
      }
    }
  }

  /** Going round a stretch p[i..j] that returns to its node twice leaves a
      walk with the same ends. */
  lemma RepeatLoop(edges: seq<Edge>, s: nat, t: nat, p: seq<Edge>, i: nat, j: nat)
    requires Chained(edges, s, t, p) && i <= j <= |p| && At(s, p, i) == At(s, p, j)
    ensures Chained(edges, s, t, p[..j] + p[i..j] + p[j..])
  {
    var x := At(s, p, j);
    ChainedSlice(edges, s, t, p, 0, j);
    ChainedSlice(edges, s, t, p, i, j);
    ChainedSlice(edges, s, t, p, j, |p|);
    assert p[0..j] == p[..j] && p[j..|p|] == p[j..];
    assert At(s, p, |p|) == t;
    ChainedAppend(edges, s, x, x, p[..j], p[i..j]);
    ChainedAppend(edges, s, x, t, p[..j] + p[i..j], p[j..]);
  }

  /** The node sequence of a walk over nodes below n stays below n. */
  lemma AtInRange(edges: seq<Edge>, n: nat, s: nat, t: nat, p: seq<Edge>, i: nat)
    requires InRange(edges, n) && s < n && Chained(edges, s, t, p) && i <= |p|
    ensures At(s, p, i) < n
  {
    if i > 0 {
      assert p[i - 1] in edges;
    }
  }

  /** Distinct values below n number at most n. */
  lemma {:induction false} DistinctBound(xs: seq<nat>, n: nat)
    requires forall k | 0 <= k < |xs| :: xs[k] < n
    requires forall a, b | 0 <= a < b < |xs| :: xs[a] != xs[b]
    ensures |xs| <= n
  {
    var elems := set k | 0 <= k < |xs| :: xs[k];
    ElemsCount(xs);
    SubsetCount(elems, Nodes(n));
  }

  lemma {:induction false} ElemsCount(xs: seq<nat>)
    requires forall a, b | 0 <= a < b < |xs| :: xs[a] != xs[b]
    ensures |set k | 0 <= k < |xs| :: xs[k]| == |xs|
    decreases |xs|
  {
    if xs != [] {
      var ys := xs[..|xs| - 1];
      ElemsCount(ys);
      var x := xs[|xs| - 1];
      assert (set k | 0 <= k < |xs| :: xs[k]) == (set k | 0 <= k < |ys| :: ys[k]) + {x};
      assert x !in (set k | 0 <= k < |ys| :: ys[k]);
    }
  }

  lemma {:induction false} SubsetCount<T>(a: set<T>, b: set<T>)
    requires a <= b
    ensures |a| <= |b|
    decreases |a|
  {
    if a != {} {
      var x :| x in a;
      SubsetCount(a - {x}, b - {x});
    }
  }

  /** More than n values below n repeat one of them. */
  lemma Pigeonhole(xs: seq<nat>, n: nat) returns (i: nat, j: nat)
    requires |xs| > n && forall k | 0 <= k < |xs| :: xs[k] < n
    ensures i < j < |xs| && xs[i] == xs[j]
  {
    if forall a, b | 0 <= a < b < |xs| :: xs[a] != xs[b] {
      DistinctBound(xs, n);
    }
    i, j :| i < j < |xs| && xs[i] == xs[j];
  }

  /** With non-negative weights and all nodes below n, every walk from s to
      t can be replaced by one with the same ends, fewer than n steps, and
      no greater weight. */
  lemma {:induction false} ShortWalk(edges: seq<Edge>, n: nat, s: nat, t: nat, p: seq<Edge>) returns (q: seq<Edge>)
    requires InRange(edges, n) && NonNegative(edges) && s < n
    requires Chained(edges, s, t, p)
    ensures Chained(edges, s, t, q) && |q| < n && Weight(q) <= Weight(p)
    decreases |p|
  {
    if |p| < n {
      return p;
    }
    var nodes := seq(|p| + 1, k requires 0 <= k <= |p| => At(s, p, k));
    forall k | 0 <= k < |nodes| ensures nodes[k] < n {
      AtInRange(edges, n, s, t, p, k);
    }
    var i, j := Pigeonhole(nodes, n);
    CutLoop(edges, s, t, p, i, j);
    WeightCut(p, i, j);
    WeightNonNegative(edges, p[i..j]);
    q := ShortWalk(edges, n, s, t, p[..i] + p[j..]);
  }

  /** When every walk from s to t weighs at least Weight(p), a walk p can be
      replaced by one with the same ends and the same weight but fewer than n
      steps: each loop cut out of p weighs nothing, since cutting it may not
      make the walk lighter and going round it twice may not either. */
  lemma {:induction false} ShortOptimalWalk(edges: seq<Edge>, n: nat, s: nat, t: nat, p: seq<Edge>) returns (q: seq<Edge>)
    requires InRange(edges, n) && s < n && Chained(edges, s, t, p)
    requires forall r | Chained(edges, s, t, r) :: Weight(p) <= Weight(r)
    ensures Chained(edges, s, t, q) && |q| < n && Weight(q) == Weight(p)
    decreases |p|
  {
    if |p| < n {
      return p;
    }
    var nodes := seq(|p| + 1, k requires 0 <= k <= |p| => At(s, p, k));
    forall k | 0 <= k < |nodes| ensures nodes[k] < n {
      AtInRange(edges, n, s, t, p, k);
    }
    var i, j := Pigeonhole(nodes, n);
    var cut := p[..i] + p[j..];
    var twice := p[..j] + p[i..j] + p[j..];
    CutLoop(edges, s, t, p, i, j);
    RepeatLoop(edges, s, t, p, i, j);
    WeightCut(p, i, j);
    WeightAppend(p[..j] + p[i..j], p[j..]);
    WeightAppend(p[..j], p[i..j]);
    WeightAppend(p[..j], p[j..]);
    assert p == p[..j] + p[j..];
    assert Weight(p) <= Weight(cut) && Weight(p) <= Weight(twice);
    q := ShortOptimalWalk(edges, n, s, t, cut);
  }
}
