/** How the batch algorithms fit together: Bellman-Ford run on the edge list
    doubled into both directions sees the same graph Dijkstra builds, so
    with non-negative weights it returns exactly Dijkstra's distances; and
    on a generated graph every node is reachable from node 0. */
module Benchmark {
  import opened Graphs
  import BellmanFord
  import Dijkstra
  import GraphGenerator

  /** Doubling keeps the endpoints below V, so Bellman-Ford on the doubled
      list works on exactly the V nodes Dijkstra's adjacency lists have. */
  lemma DoubledWidth(V: int, edges: seq<Edge>)
    requires V >= 0 && InRange(edges, V)
    ensures BellmanFord.Widened(V, Undirected(edges)) == V
    ensures |Dijkstra.AdjSpec(V, edges)| == V
  {
    UndirectedInRange(edges, V);
  }

  /** With non-negative weights, Bellman-Ford on the doubled list returns a
      distance list, and it equals any vector of shortest distances over the
      doubled list, which is what Dijkstra returns. */
  lemma Agreement(V: nat, edges: seq<Edge>, src: nat, dj: seq<Dist>)
    requires src < V && InRange(edges, V) && NonNegative(edges)
    requires |dj| == V && ShortestDistances(Undirected(edges), src, dj)
    ensures src < BellmanFord.Widened(V, Undirected(edges))
    ensures BellmanFord.Spec(V, Undirected(edges), src) == BellmanFord.Distances(dj)
  {
    DoubledWidth(V, edges);
    UndirectedNonNegative(edges);
    BellmanFord.BellmanFordNonNegative(V, Undirected(edges), src);
    var r := BellmanFord.Spec(V, Undirected(edges), src);
    BellmanFord.BellmanFordDistances(V, Undirected(edges), src);
    ShortestUnique(Undirected(edges), src, r.dist, dj);
  }

  /** On a generated graph of n nodes, shortest distances from node 0 over
      the doubled edges are finite for every node. */
  lemma GeneratedAllFinite(n: int, dr: GraphGenerator.Draws, dist: seq<Dist>)
    requires GraphGenerator.ValidDraws(n, dr)
    requires |dist| == n && ShortestDistances(Undirected(GraphGenerator.CreateGraph(n, dr)), 0, dist)
    ensures forall v | 0 <= v < n :: dist[v].Fin?
  {
    forall v | 0 <= v < n ensures dist[v].Fin? {
      GraphGenerator.RootReachesAll(n, dr, v);
      var p :| IsPath(Undirected(GraphGenerator.CreateGraph(n, dr)), 0, v, p);
    }
  }
}
