/** What the passes of run_bellman_ford do on the dictionary graph, as
    functions: one adjacency entry, the entries of one node, one pass over
    every node, and the run of at most |nodes| - 1 passes that stops after
    the first pass changing nothing. Each gives the distances after it,
    whether some distance was lowered, and the events it emits. */
module BellmanFordSweep {
  import opened Graphs
  import opened RunnerEvents
  import opened BellmanFordSteps

  /** The outcome of examining some entries: the distances after them,
      whether any of them lowered a distance, and the events emitted. */
  datatype Sweep = Sweep(distances: map<nat, Dist>, changed: bool, events: seq<Event>)

  /** The outcome of the passes: the final distances, the events, and how
      many passes were made. */
  datatype PassRun = PassRun(distances: map<nat, Dist>, events: seq<Event>, passes: nat)

  /** Entry (v, w) of u under distances d: u is painted visited and v
      updating; when d[u] is finite and d[u] + w is below d[v], v is lowered
      to d[u] + w, shown and painted frontier, otherwise v goes back to
      default unless it is the start; then u goes back to default unless it
      is the start. */
  function EntrySweep(start: nat, u: nat, v: nat, w: int, d: map<nat, Dist>): Sweep {
    var pre := [State(u, Visited), State(v, Updating)];
    var post := if u != start then [State(u, Default)] else [];
    if CanRelax(d, u, v, w) then
      var nd := d[u].d + w;
      Sweep(d[v := Fin(nd)], true, pre + [DistUpdate(v, Fin(nd)), State(v, Frontier)] + post)
    else
      Sweep(d, false, pre + (if v != start then [State(v, Default)] else []) + post)
  }

  /** The entries nbrs of u, one after the other, each seeing the distances
      the previous ones left. */
  function NodeSweep(start: nat, u: nat, nbrs: seq<(nat, int)>, d: map<nat, Dist>): Sweep
    decreases |nbrs|
  {
    if nbrs == [] then Sweep(d, false, [])
    else
      var s := NodeSweep(start, u, nbrs[..|nbrs| - 1], d);
      var t := EntrySweep(start, u, nbrs[|nbrs| - 1].0, nbrs[|nbrs| - 1].1, s.distances);
      Sweep(t.distances, s.changed || t.changed, s.events + t.events)
  }

  /** The entries of the nodes us, node after node. */
  function NodesSweep(g: Graph, start: nat, us: seq<nat>, d: map<nat, Dist>): Sweep
    requires forall u | u in us :: u in g.adj
    decreases |us|
  {
    if us == [] then Sweep(d, false, [])
    else
      var s := NodesSweep(g, start, us[..|us| - 1], d);
      var t := NodeSweep(start, us[|us| - 1], g.adj[us[|us| - 1]], s.distances);
      Sweep(t.distances, s.changed || t.changed, s.events + t.events)
  }

  /** Every listed node is a key of the dictionary. */
  ghost predicate Listed(g: Graph) {
    forall u | u in g.nodes :: u in g.adj
  }

  /** Every key of the dictionary is listed, and every entry leads to a key. */
  ghost predicate Keyed(g: Graph) {
    && (forall u | u in g.adj :: u in g.nodes)
    && (forall u, k | u in g.adj && 0 <= k < |g.adj[u]| :: g.adj[u][k].0 in g.adj)
  }

  /** One pass: every node in dictionary order. */
  function PassSweep(g: Graph, start: nat, d: map<nat, Dist>): Sweep
    requires Listed(g)
  {
    NodesSweep(g, start, g.nodes, d)
  }

  /** The distances after j full passes from d. */
  function After(g: Graph, start: nat, d: map<nat, Dist>, j: nat): map<nat, Dist>
    requires Listed(g)
    decreases j
  {
    if j == 0 then d else After(g, start, PassSweep(g, start, d).distances, j - 1)
  }

  /** Pass i (counting from 1) lowered some distance. */
  ghost predicate PassLowered(g: Graph, start: nat, d: map<nat, Dist>, i: nat)
    requires Listed(g) && 1 <= i
  {
    After(g, start, d, i) != After(g, start, d, i - 1)
  }

  /** At most k passes from d, stopping after the first pass that changes
      nothing. */
  function PassesRun(g: Graph, start: nat, d: map<nat, Dist>, k: nat): (r: PassRun)
    requires Listed(g)
    ensures r.passes <= k && (k > 0 ==> 1 <= r.passes)
    decreases k
  {
    if k == 0 then PassRun(d, [], 0)
    else
      var s := PassSweep(g, start, d);
      if !s.changed then PassRun(s.distances, s.events, 1)
      else
        var r := PassesRun(g, start, s.distances, k - 1);
        PassRun(r.distances, s.events + r.events, r.passes + 1)
  }

  /** The distances both runners start from: 0 for the start node, every
      other node unreachable. */
  ghost function StartDistances(g: Graph, start: nat): map<nat, Dist> {
    (map u | u in g.adj :: Inf)[start := Fin(0)]
  }

  // ---------------------------------------------------------------------
  // Lowering
  // ---------------------------------------------------------------------

  /** Lowering twice is lowering, and it leaves the distances as they were
      only when neither step changed them. */
  lemma LoweredThen(d1: map<nat, Dist>, d2: map<nat, Dist>, d3: map<nat, Dist>)
    requires Lowered(d1, d2) && Lowered(d2, d3)
    ensures Lowered(d1, d3)
    ensures d1 != d3 <==> d1 != d2 || d2 != d3
  {
    if d1 != d2 {
      var v :| v in d1 && d1[v] != d2[v];
      assert d3[v] != d1[v];
    } else if d2 != d3 {
      var v :| v in d2 && d2[v] != d3[v];
      assert d3[v] != d1[v];
    }
  }

  /** An entry lowers at most one distance, and reports a change exactly
      when it lowered one, which is exactly when it could. */
  lemma EntryLowers(start: nat, u: nat, v: nat, w: int, d: map<nat, Dist>)
    ensures var r := EntrySweep(start, u, v, w, d);
      && Lowered(d, r.distances)
      && (r.changed <==> CanRelax(d, u, v, w))
      && (r.changed <==> r.distances != d)
  {
    if CanRelax(d, u, v, w) {
      assert EntrySweep(start, u, v, w, d).distances[v] != d[v];
    }
  }

  /** A node's entries only lower distances, and report a change exactly
      when some distance is lower at the end. */
  lemma {:induction false} NodeLowers(start: nat, u: nat, nbrs: seq<(nat, int)>, d: map<nat, Dist>)
    ensures var r := NodeSweep(start, u, nbrs, d);
      Lowered(d, r.distances) && (r.changed <==> r.distances != d)
    decreases |nbrs|
  {
    if nbrs != [] {
      var s := NodeSweep(start, u, nbrs[..|nbrs| - 1], d);
      var t := EntrySweep(start, u, nbrs[|nbrs| - 1].0, nbrs[|nbrs| - 1].1, s.distances);
      NodeLowers(start, u, nbrs[..|nbrs| - 1], d);
      EntryLowers(start, u, nbrs[|nbrs| - 1].0, nbrs[|nbrs| - 1].1, s.distances);
      LoweredThen(d, s.distances, t.distances);
    }
  }

  /** A pass, or part of one, only lowers distances, and reports a change
      exactly when some distance is lower at the end. */
  lemma {:induction false} NodesLowers(g: Graph, start: nat, us: seq<nat>, d: map<nat, Dist>)
    requires forall u | u in us :: u in g.adj
    ensures var r := NodesSweep(g, start, us, d);
      Lowered(d, r.distances) && (r.changed <==> r.distances != d)
    decreases |us|
  {
    if us != [] {
      var u := us[|us| - 1];
      var s := NodesSweep(g, start, us[..|us| - 1], d);
      var t := NodeSweep(start, u, g.adj[u], s.distances);
      NodesLowers(g, start, us[..|us| - 1], d);
      NodeLowers(start, u, g.adj[u], s.distances);
      LoweredThen(d, s.distances, t.distances);
    }
  }

  // ---------------------------------------------------------------------
  // The run of passes
  // ---------------------------------------------------------------------

  /** The run ends with the distances its passes computed. */
  lemma {:induction false} PassesDistances(g: Graph, start: nat, d: map<nat, Dist>, k: nat)
    requires Listed(g)
    ensures PassesRun(g, start, d, k).distances == After(g, start, d, PassesRun(g, start, d, k).passes)
    decreases k
  {
    if k > 0 {
      var s := PassSweep(g, start, d);
      if s.changed {
        var r' := PassesRun(g, start, s.distances, k - 1);
        PassesDistances(g, start, s.distances, k - 1);
      } else {
        assert After(g, start, d, 1) == After(g, start, s.distances, 0);
      }
    }
  }

  /** Every pass of the run before its last lowered some distance. */
  lemma {:induction false} PassesChanged(g: Graph, start: nat, d: map<nat, Dist>, k: nat, i: nat)
    requires Listed(g)
    requires 1 <= i < PassesRun(g, start, d, k).passes
    ensures PassLowered(g, start, d, i)
    decreases k
  {
    var s := PassSweep(g, start, d);
    NodesLowers(g, start, g.nodes, d);
    assert s.changed;
    if i == 1 {
      assert After(g, start, d, 1) == After(g, start, s.distances, 0);
    } else {
      PassesChanged(g, start, s.distances, k - 1, i - 1);
    }
  }

  /** A run that made fewer than k passes stopped after a pass that changed
      nothing. */
  lemma {:induction false} PassesStopped(g: Graph, start: nat, d: map<nat, Dist>, k: nat)
    requires Listed(g)
    requires PassesRun(g, start, d, k).passes < k
    ensures var p := PassesRun(g, start, d, k).passes;
      1 <= p && After(g, start, d, p) == After(g, start, d, p - 1)
    decreases k
  {
    var s := PassSweep(g, start, d);
    if s.changed {
      var d' := s.distances;
      var r' := PassesRun(g, start, d', k - 1);
      assert PassesRun(g, start, d, k).passes == r'.passes + 1;
      PassesStopped(g, start, d', k - 1);
    } else {
      NodesLowers(g, start, g.nodes, d);
      assert After(g, start, d, 1) == After(g, start, s.distances, 0);
    }
  }

  /** Part way through a run of at most k passes: `passes` passes have been
      made, the distances are d and `body` has been emitted; carrying on
      from here, pass after pass until a pass changes nothing or k passes
      are made, ends in `run`. */
  ghost predicate RunSoFar(g: Graph, start: nat, run: PassRun, k: nat,
                           d: map<nat, Dist>, body: seq<Event>, passes: nat)
    requires Listed(g) && passes <= k
    decreases k - passes
  {
    if passes == k then run == PassRun(d, body, passes)
    else
      var s := PassSweep(g, start, d);
      if !s.changed then run == PassRun(s.distances, body + s.events, passes + 1)
      else RunSoFar(g, start, run, k, s.distances, body + s.events, passes + 1)
  }

  /** From any point, the rest of the run completes the passes made so far. */
  lemma {:induction false} RunSoFarRest(g: Graph, start: nat, k: nat, d: map<nat, Dist>,
                                        body: seq<Event>, passes: nat)
    requires Listed(g) && passes <= k
    ensures var r := PassesRun(g, start, d, k - passes);
      RunSoFar(g, start, PassRun(r.distances, body + r.events, passes + r.passes), k, d, body, passes)
    decreases k - passes
  {
    if passes == k {
      NoEventsAfter(body);
    } else {
      var s := PassSweep(g, start, d);
      if s.changed {
        RunSoFarRest(g, start, k, s.distances, body + s.events, passes + 1);
        EventsAssoc(body, s.events, PassesRun(g, start, s.distances, k - passes - 1).events);
      }
    }
  }

  lemma RunSoFarStart(g: Graph, start: nat, d0: map<nat, Dist>, k: nat)
    requires Listed(g)
    ensures RunSoFar(g, start, PassesRun(g, start, d0, k), k, d0, [], 0)
  {
    RunSoFarRest(g, start, k, d0, [], 0);
    NoEventsBefore(PassesRun(g, start, d0, k).events);
  }

  lemma RunSoFarNext(g: Graph, start: nat, run: PassRun, k: nat,
                     d: map<nat, Dist>, body: seq<Event>, passes: nat)
    requires Listed(g) && passes < k && RunSoFar(g, start, run, k, d, body, passes)
    requires PassSweep(g, start, d).changed
    ensures var s := PassSweep(g, start, d);
      RunSoFar(g, start, run, k, s.distances, body + s.events, passes + 1)
  {
  }

  lemma RunSoFarStop(g: Graph, start: nat, run: PassRun, k: nat,
                     d: map<nat, Dist>, body: seq<Event>, passes: nat)
    requires Listed(g) && passes < k && RunSoFar(g, start, run, k, d, body, passes)
    requires !PassSweep(g, start, d).changed
    ensures var s := PassSweep(g, start, d);
      run == PassRun(s.distances, body + s.events, passes + 1)
  {
  }

  lemma RunSoFarEnd(g: Graph, start: nat, run: PassRun, k: nat,
                    d: map<nat, Dist>, body: seq<Event>)
    requires Listed(g) && RunSoFar(g, start, run, k, d, body, k)
    ensures run == PassRun(d, body, k)
  {
  }

  lemma NoEventsAfter(b: seq<Event>)
    ensures b + [] == b
  {
  }

  /** One more entry of u extends the node's sweep. */
  lemma NodeSweepNext(start: nat, u: nat, nbrs: seq<(nat, int)>, k: int, d: map<nat, Dist>)
    requires 0 <= k < |nbrs|
    ensures var s := NodeSweep(start, u, nbrs[..k], d);
      var t := EntrySweep(start, u, nbrs[k].0, nbrs[k].1, s.distances);
      NodeSweep(start, u, nbrs[..k + 1], d) == Sweep(t.distances, s.changed || t.changed, s.events + t.events)
  {
    assert nbrs[..k + 1][..k] == nbrs[..k];
  }

  /** One more node extends the pass's sweep. */
  lemma NodesSweepNext(g: Graph, start: nat, j: int, d: map<nat, Dist>)
    requires Listed(g) && 0 <= j < |g.nodes|
    ensures var s := NodesSweep(g, start, g.nodes[..j], d);
      var t := NodeSweep(start, g.nodes[j], g.adj[g.nodes[j]], s.distances);
      NodesSweep(g, start, g.nodes[..j + 1], d) == Sweep(t.distances, s.changed || t.changed, s.events + t.events)
  {
    assert g.nodes[..j + 1][..j] == g.nodes[..j];
  }

  // ---------------------------------------------------------------------
  // Counting paints
  // ---------------------------------------------------------------------

  lemma {:induction false} CountStateAppend(a: seq<Event>, b: seq<Event>, c: NodeState)
    ensures CountState(a + b, c) == CountState(a, c) + CountState(b, c)
    decreases |b|
  {
    if b == [] {
      assert a + b == a;
    } else {
      var b' := b[..|b| - 1];
      CountStateAppend(a, b', c);
      assert (a + b)[..|a + b| - 1] == a + b';
      assert (a + b)[|a + b| - 1] == b[|b| - 1];
    }
  }

  lemma CountOne(x: Event, c: NodeState)
    ensures CountState([x], c) == if x.State? && x.state == c then 1 else 0
  {
    assert [x][..0] == [];
  }

  /** Each entry paints one node visited and one node updating. */
  lemma EntryCounts(start: nat, u: nat, v: nat, w: int, d: map<nat, Dist>, c: NodeState)
    requires c == Updating || c == Visited
    ensures CountState(EntrySweep(start, u, v, w, d).events, c) == 1
  {
    var pre := [State(u, Visited), State(v, Updating)];
    var post := if u != start then [State(u, Default)] else [];
    var mid := if CanRelax(d, u, v, w) then [DistUpdate(v, Fin(d[u].d + w)), State(v, Frontier)]
               else if v != start then [State(v, Default)] else [];
    assert EntrySweep(start, u, v, w, d).events == pre + mid + post;
    assert CountState(pre, c) == 1 by {
      assert pre == [State(u, Visited)] + [State(v, Updating)];
      CountStateAppend([State(u, Visited)], [State(v, Updating)], c);
      CountOne(State(u, Visited), c);
      CountOne(State(v, Updating), c);
    }
    assert CountState(mid, c) == 0 by {
      NonePainted(mid, c);
    }
    assert CountState(post, c) == 0 by {
      NonePainted(post, c);
    }
    CountStateAppend(pre + mid, post, c);
    CountStateAppend(pre, mid, c);
  }

  /** A pass paints, per colour, as many nodes updating and visited as the
      graph has adjacency entries. */
  lemma PassCounts(g: Graph, start: nat, d: map<nat, Dist>, b: seq<Event>, c: NodeState)
    requires WellFormed(g) && (c == Updating || c == Visited)
    ensures CountState(b + PassSweep(g, start, d).events, c) == CountState(b, c) + TotalEntries(g)
  {
    NodesCounts(g, start, g.nodes, d, c);
    CountStateAppend(b, PassSweep(g, start, d).events, c);
  }

  /** Events painting nothing with colour c count zero for c. */
  lemma {:induction false} NonePainted(ev: seq<Event>, c: NodeState)
    requires forall i | 0 <= i < |ev| :: !(ev[i].State? && ev[i].state == c)
    ensures CountState(ev, c) == 0
    decreases |ev|
  {
    if ev != [] {
      NonePainted(ev[..|ev| - 1], c);
    }
  }

  /** A node's entries paint one node updating, and one visited, per entry. */
  lemma {:induction false} NodeCounts(start: nat, u: nat, nbrs: seq<(nat, int)>, d: map<nat, Dist>, c: NodeState)
    requires c == Updating || c == Visited
    ensures CountState(NodeSweep(start, u, nbrs, d).events, c) == |nbrs|
    decreases |nbrs|
  {
    if nbrs != [] {
      var s := NodeSweep(start, u, nbrs[..|nbrs| - 1], d);
      NodeCounts(start, u, nbrs[..|nbrs| - 1], d, c);
      EntryCounts(start, u, nbrs[|nbrs| - 1].0, nbrs[|nbrs| - 1].1, s.distances, c);
      CountStateAppend(s.events, EntrySweep(start, u, nbrs[|nbrs| - 1].0, nbrs[|nbrs| - 1].1, s.distances).events, c);
    }
  }

  /** The nodes us paint, per colour, as many nodes updating and visited as
      they have entries. */
  lemma {:induction false} NodesCounts(g: Graph, start: nat, us: seq<nat>, d: map<nat, Dist>, c: NodeState)
    requires forall u | u in us :: u in g.adj
    requires c == Updating || c == Visited
    ensures CountState(NodesSweep(g, start, us, d).events, c) == OutDegrees(g, us)
    decreases |us|
  {
    if us != [] {
      var us' := us[..|us| - 1];
      var u := us[|us| - 1];
      var s := NodesSweep(g, start, us', d);
      NodesCounts(g, start, us', d, c);
      NodeCounts(start, u, g.adj[u], s.distances, c);
      CountStateAppend(s.events, NodeSweep(start, u, g.adj[u], s.distances).events, c);
    }
  }


  // ---------------------------------------------------------------------
  // A pass that changes nothing
  // ---------------------------------------------------------------------

  /** When a node's entries change nothing, none of them can lower any
      distance. */
  lemma {:induction false} NodeStill(start: nat, u: nat, nbrs: seq<(nat, int)>, d: map<nat, Dist>)
    ensures !NodeSweep(start, u, nbrs, d).changed ==>
      forall k | 0 <= k < |nbrs| :: !CanRelax(d, u, nbrs[k].0, nbrs[k].1)
    decreases |nbrs|
  {
    if nbrs != [] && !NodeSweep(start, u, nbrs, d).changed {
      var n := |nbrs| - 1;
      var s := NodeSweep(start, u, nbrs[..n], d);
      NodeStill(start, u, nbrs[..n], d);
      NodeLowers(start, u, nbrs[..n], d);
      EntryLowers(start, u, nbrs[n].0, nbrs[n].1, s.distances);
      forall k | 0 <= k < |nbrs| ensures !CanRelax(d, u, nbrs[k].0, nbrs[k].1) {
        if k < n {
          assert nbrs[..n][k] == nbrs[k];
        }
      }
    }
  }

  /** When the nodes us change nothing, none of their entries can lower any
      distance. */
  lemma {:induction false} NodesStill(g: Graph, start: nat, us: seq<nat>, d: map<nat, Dist>)
    requires forall u | u in us :: u in g.adj
    ensures !NodesSweep(g, start, us, d).changed ==>
      forall u, k | u in us && 0 <= k < |g.adj[u]| :: !CanRelax(d, u, g.adj[u][k].0, g.adj[u][k].1)
    decreases |us|
  {
    if us != [] && !NodesSweep(g, start, us, d).changed {
      var n := |us| - 1;
      var s := NodesSweep(g, start, us[..n], d);
      NodesStill(g, start, us[..n], d);
      NodesLowers(g, start, us[..n], d);
      NodeStill(start, us[n], g.adj[us[n]], s.distances);
      forall u, k | u in us && 0 <= k < |g.adj[u]| ensures !CanRelax(d, u, g.adj[u][k].0, g.adj[u][k].1) {
        if u != us[n] {
          var i :| 0 <= i < |us| && us[i] == u;
          assert u in us[..n] by { assert us[..n][i] == u; }
        }
      }
    }
  }

  /** A pass that changes nothing leaves distances no entry of the graph can
      lower. */
  lemma PassStill(g: Graph, start: nat, d: map<nat, Dist>)
    requires Listed(g) && Keyed(g)
    ensures !PassSweep(g, start, d).changed ==>
      PassSweep(g, start, d).distances == d && NoneRelaxable(g, d)
  {
    NodesStill(g, start, g.nodes, d);
    NodesLowers(g, start, g.nodes, d);
  }

  /** What the run of at most k passes from d amounts to: it ends with the
      distances of its passes; every pass before the last lowered some
      distance; and a run of fewer than k passes ended with a pass that
      changed nothing, after which no entry can lower any distance. */
  lemma PassesMeaning(g: Graph, start: nat, d: map<nat, Dist>, k: nat)
    requires Listed(g) && Keyed(g)
    ensures var r := PassesRun(g, start, d, k);
      && r.distances == After(g, start, d, r.passes)
      && (forall i | 1 <= i < r.passes :: PassLowered(g, start, d, i))
      && (r.passes < k ==>
           && 1 <= r.passes
           && r.distances == After(g, start, d, r.passes - 1)
           && NoneRelaxable(g, r.distances))
  {
    var r := PassesRun(g, start, d, k);
    PassesDistances(g, start, d, k);
    forall i | 1 <= i < r.passes ensures PassLowered(g, start, d, i) {
      PassesChanged(g, start, d, k, i);
    }
    if r.passes < k {
      PassesStopped(g, start, d, k);
      PassesStill(g, start, d, k);
    }
  }

  /** A run of fewer than k passes ends with distances no entry can lower. */
  lemma {:induction false} PassesStill(g: Graph, start: nat, d: map<nat, Dist>, k: nat)
    requires Listed(g) && Keyed(g)
    requires PassesRun(g, start, d, k).passes < k
    ensures NoneRelaxable(g, PassesRun(g, start, d, k).distances)
    decreases k
  {
    var s := PassSweep(g, start, d);
    PassStill(g, start, d);
    if s.changed {
      PassesStill(g, start, s.distances, k - 1);
    }
  }

  // ---------------------------------------------------------------------
  // The display along the sweeps
  // ---------------------------------------------------------------------

  lemma EventsAssoc(a: seq<Event>, b: seq<Event>, c: seq<Event>)
    ensures a + (b + c) == a + b + c
  {
  }

  lemma NoEventsBefore(b: seq<Event>)
    ensures [] + b == b
  {
  }

  /** An entry's events keep the display facts, for the distances it leaves. */
  lemma EntryKeepsState(g: Graph, init: seq<Event>, start: nat, d: map<nat, Dist>, body: seq<Event>,
                        u: nat, v: nat, w: int)
    requires BState(g, init, start, d, body) && v in g.adj
    ensures var t := EntrySweep(start, u, v, w, d);
      BState(g, init, start, t.distances, body + t.events)
  {
    var b2 := body + [State(u, Visited)] + [State(v, Updating)];
    var ev := EntrySweep(start, u, v, w, d).events;
    if CanRelax(d, u, v, w) {
      var nd := d[u].d + w;
      BellmanFordImprove(g, init, start, d, body, u, v, nd);
      var b4 := b2 + [DistUpdate(v, Fin(nd))] + [State(v, Frontier)];
      assert body + ev == if u != start then b4 + [State(u, Default)] else b4;
    } else {
      BellmanFordKeep(g, init, start, d, body, u, v);
      var b3 := if v != start then b2 + [State(v, Default)] else b2;
      assert body + ev == if u != start then b3 + [State(u, Default)] else b3;
    }
  }

  /** A node's entries keep the display facts. */
  lemma {:induction false} NodeKeepsState(g: Graph, init: seq<Event>, start: nat, d: map<nat, Dist>, body: seq<Event>,
                                          u: nat, nbrs: seq<(nat, int)>)
    requires BState(g, init, start, d, body)
    requires forall k | 0 <= k < |nbrs| :: nbrs[k].0 in g.adj
    ensures var s := NodeSweep(start, u, nbrs, d);
      BState(g, init, start, s.distances, body + s.events)
    decreases |nbrs|
  {
    if nbrs == [] {
      assert body + [] == body;
    } else {
      var n := |nbrs| - 1;
      var s := NodeSweep(start, u, nbrs[..n], d);
      var t := EntrySweep(start, u, nbrs[n].0, nbrs[n].1, s.distances);
      var b := body + s.events;
      assert BState(g, init, start, s.distances, b) by {
        assert forall k | 0 <= k < n :: nbrs[..n][k] == nbrs[k];
        NodeKeepsState(g, init, start, d, body, u, nbrs[..n]);
      }
      assert BState(g, init, start, t.distances, b + t.events) by {
        EntryKeepsState(g, init, start, s.distances, b, u, nbrs[n].0, nbrs[n].1);
      }
      assert NodeSweep(start, u, nbrs, d) == Sweep(t.distances, s.changed || t.changed, s.events + t.events);
      EventsAssoc(body, s.events, t.events);
    }
  }

  /** The entries of the nodes us keep the display facts. */
  lemma {:induction false} NodesKeepState(g: Graph, init: seq<Event>, start: nat, d: map<nat, Dist>, body: seq<Event>,
                                          us: seq<nat>)
    requires BState(g, init, start, d, body) && Keyed(g)
    requires forall u | u in us :: u in g.adj
    ensures var s := NodesSweep(g, start, us, d);
      BState(g, init, start, s.distances, body + s.events)
    decreases |us|
  {
    if us == [] {
      assert body + [] == body;
    } else {
      var n := |us| - 1;
      var s := NodesSweep(g, start, us[..n], d);
      var t := NodeSweep(start, us[n], g.adj[us[n]], s.distances);
      NodesKeepState(g, init, start, d, body, us[..n]);
      NodeKeepsState(g, init, start, s.distances, body + s.events, us[n], g.adj[us[n]]);
      EventsAssoc(body, s.events, t.events);
    }
  }

  /** The run of passes keeps the display facts: every event it emits obeys
      the rules of the Bellman-Ford display, and at the end the display shows
      exactly the distances it computed. */
  lemma {:induction false} PassesKeepState(g: Graph, init: seq<Event>, start: nat, d: map<nat, Dist>, body: seq<Event>,
                                           k: nat)
    requires BState(g, init, start, d, body) && Listed(g) && Keyed(g)
    ensures var r := PassesRun(g, start, d, k);
      BState(g, init, start, r.distances, body + r.events)
    decreases k
  {
    if k == 0 {
      assert body + [] == body;
    } else {
      var s := PassSweep(g, start, d);
      NodesKeepState(g, init, start, d, body, g.nodes);
      if s.changed {
        var r := PassesRun(g, start, s.distances, k - 1);
        PassesKeepState(g, init, start, s.distances, body + s.events, k - 1);
        EventsAssoc(body, s.events, r.events);
      }
    }
  }
}
