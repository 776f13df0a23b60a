# Two-phase citation-graph augmentation, modelled in Dafny

The script densifies an undirected citation graph by adding "artificial"
edges from each node to some of its two-hop neighbours. The nodes are ranked by
how many two-hop candidates share at least `TRIANGLE_SCORE_THRESHOLD` (2)
neighbours with them, and are augmented in that order until the graph reaches
`GLOBAL_EDGE_TARGET` (1 000 000) edges. Augmenting a node works in two phases,
and no node anchors more than `PER_NODE_EDGE_LIMIT` (10) artificial edges:

- **Phase 1** adds edges to candidates with a high triangle score (common
  neighbours), highest score first.
- **Phase 2**, if the node is still under its cap, scores the remaining
  candidates by a local betweenness. The score is computed in the
  `LOCAL_BETWEENNESS_HOPS` (4)-hop subgraph around the node. Candidates that
  score above zero are added, highest score first.

The model has these modules:

- `Graph` (graph.dfy): an undirected graph as a map from node to neighbour set
  (`Adjacency`). It also defines the breadth-first balls and spheres, walks and
  reachability, the induced subgraph, edge counting, and the graph that results
  from a run of edge insertions (`WithEdges`, `NewEdges`).
- `Candidates` (candidates.dfy): `get_two_hop_candidates` and `triangle_score`.
- `Subgraph` (subgraph.dfy): `extract_k_hop_subgraph`, as a round-by-round loop.
- `Betweenness` (betweenness.dfy): `local_betweenness`. The call to
  `nx.shortest_path` becomes a breadth-first search that returns some shortest
  path, or `None` when the target cannot be reached.
- `Ranking` (ranking.dfy): the list comprehensions and Python's stable
  `sort(key=..., reverse=True)`.
- `RunState` (runstate.dfy): the four constants and the invariant of the run
  state, stated on plain values.
- `Augment` (augment.dfy): `augment_node`. The class `Augmenter` holds the graph
  `G`, `artificial_edges`, `used_edges` and the two counters of `stats` that
  steer the run. Its methods update them in place.
- `Driver` (driver.dfy): the body of `augment_graph`: node ranking and the main
  loop.
- `Scenarios` (scenarios.dfy): a star, on which a whole run provably adds
  no edge, and a 5-cycle, on which phase 1 provably selects nothing for node 1.

The per-node cap is checked against `edges_added_per_node[node]`. Only the
anchor `node` of an edge `(node, c)` increments this counter, never `c`. So a
node can end up incident to more than `PER_NODE_EDGE_LIMIT` artificial edges,
when other nodes pick it as their candidate. `AugmentGraph` proves this
anchor-side bound, not a bound on the artificial edges incident to a node.
In the 5-cycle each two-hop pair shares exactly one neighbour, so its triangle
score is 1, below the threshold (`Scenarios.CycleScores`).

`Driver.AugmentGraph` also returns, as ghost results, a record of the run: one
`Augment.NodeTrace` per visited node (its candidates, the phase-1 order and how
much of it was committed, the phase-2 scores and order and how much of that was
committed), and the cut points that split the artificial edges into one segment
per visited node. `Augment.NodeStep` states what one call of `augment_node`
adds, in terms of the edges added before it; `Driver.RunSteps` chains these
segments along the ranked order.

## Model

| member | source | states |
|---|---|---|
| Graph.NeighborsOfSet | Augment_Graph.py:38-39 | the union of the neighbour sets of every node of the set, gathered node by node |
| Graph.InducedUndirected | Augment_Graph.py:55 | `G.subgraph(nodes)` of an undirected graph is undirected and closed: every neighbour it keeps is one of its nodes |
| Graph.AddEdgeUndirected | Augment_Graph.py:103 | `G.add_edge` between two nodes of an undirected graph keeps it undirected |
| Graph.AddEdgeCount | Augment_Graph.py:103 | `G.add_edge` of an absent edge between distinct nodes adds exactly that edge to the edge set, so `number_of_edges()` grows by one |
| Graph.WithEdgesFacts | Augment_Graph.py:103-107 | after inserting a run of new edges the graph stays undirected on the same nodes; `number_of_edges()` grows by exactly the number of insertions; no neighbour is lost |
| Graph.WithEdgesPresent | Augment_Graph.py:103-104 | every inserted edge is present in both directions and is no self-loop |
| Graph.WithEdgesOnly | Augment_Graph.py:103-104 | every edge of the grown graph is an original edge or an inserted one |
| Graph.BallIsWithinDistance | Augment_Graph.py:45-55 | a node is in the k-th breadth-first ball exactly when a walk of at most k steps reaches it |
| Graph.ReachableSym | Augment_Graph.py:160-163 | in an undirected graph a walk can be followed backwards |
| Graph.ReachableTrans | Augment_Graph.py:160-163 | walks compose |
| Candidates.SetToSeq | Augment_Graph.py:42 | `list(two_hop)`: each element of the set exactly once, in some order |
| Candidates.GetTwoHopCandidates | Augment_Graph.py:35-42 | the candidates are duplicate-free; a node is a candidate iff it is not the node, not a neighbour, and is a neighbour of some neighbour |
| Candidates.TwoHopIsDistanceTwo | Augment_Graph.py:35-42 | the candidates are exactly the nodes at breadth-first distance two |
| Candidates.TwoHopOfIsolated | Augment_Graph.py:35-42 | a node without neighbours has no candidates (so `augment_node` returns at once) |
| Candidates.TwoHopIffCommonNeighbour | Augment_Graph.py:35-42 | in an undirected graph a non-neighbour other than the node is a candidate iff its triangle score is at least 1 |
| Candidates.TriangleScore | Augment_Graph.py:58-61 | the number of common neighbours is at most either endpoint's degree |
| Candidates.TriangleScoreSymmetric | Augment_Graph.py:58-61 | the score does not depend on the order of the pair |
| Candidates.TriangleScoreCountsTwoStepPaths | Augment_Graph.py:58-61 | the score equals the number of two-step walks between the pair, i.e. the triangles the new edge closes |
| Subgraph.ExtractKHop | Augment_Graph.py:45-55 | after k rounds the visited set is the k-th ball around the node, and the result is the subgraph induced on it |
| Subgraph.KHopIsWithinDistance | Augment_Graph.py:45-55 | a node is in the extracted subgraph iff it is within k steps of the start node |
| Subgraph.KHopRounds | Augment_Graph.py:50-54 | each round's frontier is disjoint from everything visited so far, and the visited set only grows |
| Betweenness.BfsStep | Augment_Graph.py:70 | one breadth-first level: the next ball and sphere; the visited set strictly grows unless the frontier is exhausted |
| Betweenness.BfsLevels | Augment_Graph.py:70 | the breadth-first levels up to the target's level, or until the search is exhausted |
| Betweenness.WalkBack | Augment_Graph.py:70 | walking back through the levels gives a walk from source to target with one node per level |
| Betweenness.ShortestPath | Augment_Graph.py:70 | `nx.shortest_path`: a path no longer than any other walk between the two nodes; `None` (the caught exception) iff the target cannot be reached |
| Betweenness.EndpointsNotInterior | Augment_Graph.py:71 | `sp[1:-1]` never holds the path's own endpoints |
| Betweenness.CountFrom | Augment_Graph.py:66-74 | the inner loop over `dst` for one `src`: its count lies between the number of pairs from `src` all of whose shortest paths have the candidate inside and the number with some such path; the counted pairs (a ghost result) are exactly what it counts |
| Betweenness.LocalBetweenness | Augment_Graph.py:64-75 | the count lies between the number of node-anchored pairs all of whose shortest paths have the candidate inside, and the number with some such path |
| Betweenness.PairsCount | Augment_Graph.py:66-68 | there are 2(n-1) ordered pairs of distinct nodes with the node at one end |
| Betweenness.ScoreBound | Augment_Graph.py:64-75 | no score exceeds the number of such pairs |
| Betweenness.ZeroForAnchorOrAbsent | Augment_Graph.py:64-75 | the node itself, or a node outside the subgraph, scores zero |
| Betweenness.ShortestNoBounce | Augment_Graph.py:70 | a shortest path never steps straight back to the node it just left |
| Betweenness.ZeroForLeaf | Augment_Graph.py:64-75 | in an undirected graph a node with at most one neighbour lies inside no shortest path, so it scores zero |
| Ranking.KeepAtLeast | Augment_Graph.py:93 | the filter keeps exactly the entries whose score reaches the minimum |
| Ranking.KeepAtLeastNone | Augment_Graph.py:93 | nothing is kept when no entry reaches the minimum |
| Ranking.Insert | Augment_Graph.py:94 | inserting one entry adds exactly it to the multiset of entries |
| Ranking.InsertNonIncreasing | Augment_Graph.py:94 | inserting into a list sorted by non-increasing score keeps it sorted |
| Ranking.SortDesc | Augment_Graph.py:94 | `sort(key=score, reverse=True)`: the result is ordered by non-increasing score and is a permutation of the input |
| Ranking.SortDescStable | Augment_Graph.py:94 | the sort is stable: the entries of any one score keep their original relative order |
| Ranking.SortDescItems | Augment_Graph.py:94 | sorting permutes the items |
| Ranking.KeepAtLeastNoDup | Augment_Graph.py:123 | filtering a duplicate-free list keeps it duplicate-free |
| Ranking.SortedSelection | Augment_Graph.py:123-125 | filter then sort: sorted, holds exactly the entries reaching the minimum, and no item twice |
| RunState.AnchorCountsCount | Augment_Graph.py:106 | the per-node counter of a node equals the number of artificial edges it anchors |
| RunState.CommitKeepsConsistent | Augment_Graph.py:99-107 | committing a new edge while under both caps keeps the run-state invariant |
| RunState.ConsistentCaps | Augment_Graph.py:99-102 | under the invariant the graph stays undirected on the same nodes; its edge count is the original count plus the artificial edges; it stays within the global target and gains nothing when the input already reaches it; no node anchors more than the per-node limit |
| Augment.Unused | Augment_Graph.py:92 | `[c for c in candidates if (node, c) not in used_edges and not G.has_edge(node, c)]`: exactly those candidates; duplicate-free when the candidates are |
| Augment.TrianglePlanSpec | Augment_Graph.py:92-94 | the phase-1 order is sorted by non-increasing score and duplicate-free; it holds exactly the unused, non-adjacent candidates whose triangle score reaches the threshold, each with that score |
| Augment.TrianglePlanEmpty | Augment_Graph.py:92-94 | when no candidate reaches the threshold, phase 1 selects nothing |
| Augment.Augmenter.constructor | Augment_Graph.py:145-147 | the run starts with the loaded graph, no artificial or used edges and zero counters (as on the first call of `augment_graph` in a process), and satisfies the invariant |
| Augment.Augmenter.GraphFacts | Augment_Graph.py:103 | the graph stays undirected over the input's nodes |
| Augment.Augmenter.Commit | Augment_Graph.py:103-107 | `G.add_edge`, append, add to `used_edges`, bump both counters; the invariant is kept and nothing else changes |
| Augment.Augmenter.CommitInOrder | Augment_Graph.py:97-107 | commits a prefix of the ordered candidates; stops early only at the per-node cap or the global budget; other nodes' counters are unchanged |
| Augment.Augmenter.TrianglePhase | Augment_Graph.py:91-109 | phase 1: commits a prefix of the phase-1 order of the graph as it is on entry, each edge to one of the node's candidates, stopping short only at the per-node cap or the global budget (`TriangleStep`) |
| Augment.Augmenter.BetweennessPhase | Augment_Graph.py:112-141 | phase 2: scores the remaining candidates in the 4-hop subgraph of the current graph; commits a prefix of those scoring above zero, highest first, stopping short only at the per-node cap or the global budget (`BetweennessStep`) |
| Augment.Augmenter.AugmentNode | Augment_Graph.py:78-141 | `NodeStep`: nothing changes for a node already at its cap; otherwise the candidates are its two-hop candidates, phase 1 appends the edges of a prefix of the triangle-score order, and phase 2 runs exactly when the node is still below its cap afterwards, appending a prefix of the positive local-betweenness scores, highest first, computed on the graph after phase 1; each phase stops short only at the per-node cap or the global budget; every new edge joins the node to one of its two-hop candidates on entry; other nodes' counters are unchanged; the invariant is kept |
| Augment.NoCandidatesStep | Augment_Graph.py:81-83 | a node below its cap without two-hop candidates adds nothing, and both phases rank nothing |
| Augment.LeavesNeverSelected | Augment_Graph.py:121-123 | candidates with at most one neighbour score zero and are filtered out of phase 2 |
| Augment.ScoreAll | Augment_Graph.py:121 | one betweenness entry per remaining candidate, in order, each within the proved bounds |
| Augment.BetweennessPlan | Augment_Graph.py:113-125 | the phase-2 order is the filtered, sorted scores; no candidate twice; each one unused, not adjacent, not the node |
| Augment.AddedFromPlan | Augment_Graph.py:97-107 | committing a prefix of a plan adds only edges from the node to the plan's candidates |
| Augment.AddedWithinTrans | Augment_Graph.py:97-141 | edges added by the two phases together still join the node to its candidates |
| Driver.HighScoring | Augment_Graph.py:153 | the comprehension keeps exactly the candidates whose triangle score reaches the threshold; duplicate-free |
| Driver.HighScoringCount | Augment_Graph.py:152-154 | for the node's candidate list, its length is the number of two-hop candidates reaching the threshold |
| Driver.CountHighScoring | Augment_Graph.py:152-154 | the count appended for one node is its priority |
| Driver.RankNodes | Augment_Graph.py:150-158 | the ranked nodes are a duplicate-free permutation of the graph's nodes, ordered by non-increasing priority |
| Driver.RankedOrderPermutes | Augment_Graph.py:157-158 | ranking permutes the nodes |
| Driver.RankedOrderSorted | Augment_Graph.py:157-158 | ranked nodes come by non-increasing priority |
| Driver.RankingStable | Augment_Graph.py:157 | nodes of equal priority keep the order in which `G.nodes()` lists them |
| Driver.InRankOrderStep | Augment_Graph.py:160-163 | augmenting the next ranked node appends edges anchored at it only |
| Driver.TwoHopWithinComponent | Augment_Graph.py:35-42 | a two-hop candidate in the grown graph was already connected to the node in the input graph |
| Driver.WithinComponentsStep | Augment_Graph.py:160-163 | augmenting a node never joins two components of the input graph |
| Driver.RunStepsSnoc | Augment_Graph.py:160-163 | visiting the next ranked node while the budget has room extends the run by one `NodeStep` segment |
| Driver.Visit | Augment_Graph.py:161-163 | one turn of the loop: augments the next ranked node, keeping the invariant, the segment record, the rank order of anchors and the component bound |
| Driver.AugmentGraph | Augment_Graph.py:144-168 | `RunSteps`: the artificial edges are one `NodeStep` segment per visited node, in ranked order, each visited while the budget had room; the loop stops before the end of the ranking only when the budget is used up; the result is the input plus the artificial edges, each new when added; undirected on the same nodes; edge count = input + artificial; nothing added when the input already reaches the target, otherwise within the target; each node anchors at most 10 artificial edges; anchors follow the ranked order; every artificial edge stays within a component of the input |
| Scenarios.StarTwoHop | Augment_Graph.py:35-42 | in a star the candidates of a leaf are the other leaves, and the hub has none |
| Scenarios.StarPhaseOneEmpty | Augment_Graph.py:92-94 | in a star every leaf-to-leaf triangle score is 1, so leaves have no priority and phase 1 selects nothing |
| Scenarios.StarPhaseTwoEmpty | Augment_Graph.py:121-125 | in a star phase 2 selects nothing for a leaf either |
| Scenarios.CycleTwoHop | Augment_Graph.py:35-42 | in the 5-cycle the candidates of node 1 are 3 and 4 |
| Scenarios.CycleScores | Augment_Graph.py:58-61 | in the 5-cycle those two pairs have triangle score 1, and node 1 has no priority |
| Scenarios.StarNodeStepEmpty | Augment_Graph.py:78-141 | on a star, one call of `augment_node` for any node of the unaugmented graph adds no edge |
| Scenarios.StarRunAddsNothing | Augment_Graph.py:160-163 | every run of `augment_graph` on a star adds no artificial edge |
| Scenarios.CyclePhaseOneEmpty | Augment_Graph.py:92-94 | phase 1 selects nothing for node 1 of the 5-cycle |

## Left out

- `load_graph` (lines 29-32) and writing the edge list (line 175) are file I/O. The loaded graph is a parameter of `Driver.AugmentGraph`, required to be undirected.
- The `stats` counters used only for reporting are not modelled: `total_edges_after`, `nodes_augmented`, `phase1_edges`, `phase2_edges` and the four `*_candidates_*` counters. Only `edges_added_per_node` and `total_artificial_edges` steer the run.
- Lines 85-89 and 116-117 compute a first `subgraph` and scores that are overwritten at line 121 before any use. The model computes only the scores that are used.
- `nx.shortest_path` may return any one shortest path, chosen by networkx's own tie-breaking. The model's search picks some shortest path. `Betweenness.LocalBetweenness` is therefore proved between a lower and an upper bound rather than equal to networkx's exact count.
- The bare `except` at line 73 is modelled as the `None` result for an unreachable target. No other exception is modelled.
- The iteration order of Python sets and of `G.nodes()` is left open. `Candidates.SetToSeq` picks any order, and `Driver.AugmentGraph` takes the node order as a parameter.
- Reading `edges_added_per_node[node]` inserts a zero entry into the `defaultdict`. The model reads absent keys as zero without inserting them, which is observably the same.
- Python integers are unbounded, as are Dafny's. No width is modelled.
- `import random` is unused.
- Download_PDFs.py is not part of this model.
- `stats` is a module-level dictionary, and `augment_graph` resets only `total_edges_before` (line 31). A second call in the same process would start with the counters the first call left. The model starts every run with zero counters, as on the first call.
- Driver.AugmentGraph: bounds the artificial edges each node anchors, as the code does, not the artificial edges incident to it.
