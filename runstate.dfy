/** The run-state invariant of an augmentation, on plain values. */
module RunState {
  import opened Graph

  const PerNodeEdgeLimit: int := 10
  const GlobalEdgeTarget: int := 1_000_000
  const TriangleScoreThreshold: int := 2
  const LocalBetweennessHops: nat := 4

  /** The number of edges of `es` whose anchor (first component) is `u`. */
  function AnchoredAt(es: seq<(int, int)>, u: int): nat
    decreases |es|
  {
    if es == [] then 0
    else AnchoredAt(es[..|es| - 1], u) + (if es[|es| - 1].0 == u then 1 else 0)
  }

  /** `edges_added_per_node[u]`: a defaultdict, so zero when absent. */
  function AddedTo(counts: map<int, int>, u: int): int {
    if u in counts then counts[u] else 0
  }

  /** The per-anchor edge counts of `es`, as a map holding only positive counts. */
  function AnchorCounts(es: seq<(int, int)>): map<int, int>
    decreases |es|
  {
    if es == [] then map[]
    else
      var m := AnchorCounts(es[..|es| - 1]);
      var u := es[|es| - 1].0;
      m[u := AddedTo(m, u) + 1]
  }

  /** The run-state invariant, on values: the graph is the input plus the
      artificial edges, each of which was new when added; the used set holds
      exactly the artificial edges; the counters count them; both caps hold. */
  ghost predicate Consistent(original: Adjacency, edgesBefore: int, g: Adjacency,
                             artificial: seq<(int, int)>, used: set<(int, int)>,
                             perNode: map<int, int>, total: int)
  {
    && Undirected(original)
    && edgesBefore == EdgeCount(original)
    && NewEdges(original, artificial)
    && g == WithEdges(original, artificial)
    && used == (set e | e in artificial)
    && total == |artificial|
    && (total == 0 || total <= GlobalEdgeTarget - edgesBefore)
    && perNode == AnchorCounts(artificial)
    && (forall u :: u in perNode ==> perNode[u] <= PerNodeEdgeLimit)
  }

  /** The recorded per-anchor counts agree with counting the edge list. */
  lemma {:induction false} AnchorCountsCount(es: seq<(int, int)>, u: int)
    ensures AddedTo(AnchorCounts(es), u) == AnchoredAt(es, u)
    decreases |es|
  {
    if es != [] {
      AnchorCountsCount(es[..|es| - 1], u);
    }
  }

  /** What the run-state invariant guarantees: the graph stays undirected on
      the same nodes, its edge count is the input's plus the artificial
      edges, it stays within the global target (and gains nothing when the
      input already reaches it), and no node anchors more than
      `PER_NODE_EDGE_LIMIT` artificial edges. */
  lemma ConsistentCaps(original: Adjacency, edgesBefore: int, g: Adjacency,
                       artificial: seq<(int, int)>, used: set<(int, int)>,
                       perNode: map<int, int>, total: int)
    requires Consistent(original, edgesBefore, g, artificial, used, perNode, total)
    ensures Undirected(g) && g.Keys == original.Keys
    ensures EdgeCount(g) == edgesBefore + |artificial|
    ensures artificial == [] || EdgeCount(g) <= GlobalEdgeTarget
    ensures edgesBefore >= GlobalEdgeTarget ==> artificial == []
    ensures forall u :: AnchoredAt(artificial, u) <= PerNodeEdgeLimit
  {
    WithEdgesFacts(original, artificial);
    forall u ensures AnchoredAt(artificial, u) <= PerNodeEdgeLimit {
      AnchorCountsCount(artificial, u);
    }
  }

  /** Committing a new edge within both caps keeps the run-state invariant. */
  lemma CommitKeepsConsistent(original: Adjacency, edgesBefore: int, node: int, c: int,
                              g: Adjacency, artificial: seq<(int, int)>, used: set<(int, int)>,
                              perNode: map<int, int>, total: int,
                              g': Adjacency, artificial': seq<(int, int)>, used': set<(int, int)>,
                              perNode': map<int, int>, total': int)
    requires Consistent(original, edgesBefore, g, artificial, used, perNode, total)
    requires node in g && c in g && node != c && c !in g[node] && (node, c) !in used
    requires AddedTo(perNode, node) < PerNodeEdgeLimit
    requires total < GlobalEdgeTarget - edgesBefore
    requires g' == AddEdge(g, node, c) && artificial' == artificial + [(node, c)]
    requires used' == used + {(node, c)} && total' == total + 1
    requires perNode' == perNode[node := AddedTo(perNode, node) + 1]
    ensures Consistent(original, edgesBefore, g', artificial', used', perNode', total')
  {
    HistorySnoc(original, artificial, g, node, c);
    UsedSnoc(artificial, (node, c));
    AnchorCountsSnoc(artificial, (node, c), perNode);
  }

  lemma HistorySnoc(original: Adjacency, es: seq<(int, int)>, g: Adjacency, node: int, c: int)
    requires NewEdges(original, es) && g == WithEdges(original, es)
    requires node in g && c in g && node != c && c !in g[node]
    ensures NewEdges(original, es + [(node, c)]) && WithEdges(original, es + [(node, c)]) == AddEdge(g, node, c)
  {
    WithEdgesSnoc(original, es, node, c);
  }

  lemma UsedSnoc(es: seq<(int, int)>, e: (int, int))
    ensures (set x | x in es + [e]) == (set x | x in es) + {e}
  {
  }

  lemma AnchorCountsSnoc(es: seq<(int, int)>, e: (int, int), m: map<int, int>)
    requires m == AnchorCounts(es)
    ensures AnchorCounts(es + [e]) == m[e.0 := AddedTo(m, e.0) + 1]
  {
    assert (es + [e])[..|es|] == es;
  }
}
