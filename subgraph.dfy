/**
 * SubgraphExtractor: the bounded breadth-first expansion around a node,
 * returning the subgraph induced on the nodes it visits.
 */
module Subgraph {
  import opened Graph

  /** `extract_k_hop_subgraph`: exactly `k` rounds, each replacing the frontier
      by its unvisited neighbours and adding them to the visited set. */
  method ExtractKHop(g: Adjacency, node: int, k: nat) returns (h: Adjacency)
    requires Closed(g) && node in g
    ensures h == Induced(g, Ball(g, node, k))
    ensures node in h
  {
    var nodes := {node};
    var frontier := {node};
    for round := 0 to k
      invariant nodes == Ball(g, node, round)
      invariant frontier == Sphere(g, node, round)
      invariant node in nodes
    {
      BallStep(g, node, round);
      BallInGraph(g, node, round);
      var next := NeighborsOfSet(g, frontier);
      ghost var visitedBefore := nodes;
      frontier := next - nodes;
      nodes := nodes + frontier;
      assert frontier !! visitedBefore && visitedBefore <= nodes;
    }
    h := Induced(g, nodes);
  }

  /** The extracted subgraph holds exactly the nodes within distance `k`. */
  lemma KHopIsWithinDistance(g: Adjacency, node: int, k: nat, u: int)
    requires Closed(g) && node in g
    ensures u in Induced(g, Ball(g, node, k)) <==> WithinDistance(g, node, u, k)
  {
    BallIsWithinDistance(g, node, k, u);
    BallInGraph(g, node, k);
  }

  /** Each round's new frontier is disjoint from everything visited before,
      and the visited set only grows. */
  lemma KHopRounds(g: Adjacency, node: int, k: nat)
    ensures node in Ball(g, node, k)
    ensures Ball(g, node, k) <= Ball(g, node, k + 1)
    ensures Sphere(g, node, k + 1) !! Ball(g, node, k)
  {
    BallMono(g, node, 0, k);
    BallStep(g, node, k);
  }
}
