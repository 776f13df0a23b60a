/**
 * The augmentation driver: nodes are ranked by how many two-hop candidates
 * reach the triangle-score threshold, then augmented in that order until
 * the global edge target is reached.
 */
module Driver {
  import opened Graph
  import opened Lists
  import opened Candidates
  import opened Ranking
  import opened RunState
  import opened Augment

  /** The number of two-hop candidates of `v` whose triangle score reaches the threshold. */
  function Priority(g: Adjacency, v: int): nat
    requires v in g
  {
    |set c | c in TwoHop(g, v) && c in g && TriangleScore(g, v, c) >= TriangleScoreThreshold|
  }

  /** `[c for c in candidates if triangle_score(G, node, c) >= TRIANGLE_SCORE_THRESHOLD]`. */
  function HighScoring(g: Adjacency, node: int, cands: seq<int>): (r: seq<int>)
    requires node in g && forall c :: c in cands ==> c in g
    ensures forall c :: c in r <==> c in cands && TriangleScore(g, node, c) >= TriangleScoreThreshold
    ensures NoDup(cands) ==> NoDup(r)
  {
    if cands == [] then []
    else
      var rest := HighScoring(g, node, cands[1..]);
      assert NoDup(cands) ==> NoDup(cands[1..]) && cands[0] !in cands[1..];
      if TriangleScore(g, node, cands[0]) >= TriangleScoreThreshold then [cands[0]] + rest else rest
  }

  /** Filtering the two-hop candidates of `v` yields exactly `Priority(g, v)` nodes. */
  lemma HighScoringCount(g: Adjacency, v: int, cands: seq<int>)
    requires Closed(g) && v in g && NoDup(cands)
    requires forall c :: c in cands <==> c in TwoHop(g, v)
    ensures forall c :: c in cands ==> c in g
    ensures |HighScoring(g, v, cands)| == Priority(g, v)
  {
    AdjClosed(g, g[v]);
    var high := HighScoring(g, v, cands);
    NoDupCard(high);
    assert (set x | x in high) ==
           (set c | c in TwoHop(g, v) && c in g && TriangleScore(g, v, c) >= TriangleScoreThreshold);
  }

  /** `nodes_with_triangle_scores`: every node of `order` paired with its priority. */
  function Keyed(g: Adjacency, order: seq<int>): (r: seq<Scored>)
    requires forall v :: v in order ==> v in g
    ensures Items(r) == order
    ensures forall e :: e in r ==> e.item in g && e.score == Priority(g, e.item)
  {
    seq(|order|, i requires 0 <= i < |order| => Scored(order[i], Priority(g, order[i])))
  }

  /** The nodes of `order` whose priority is exactly `k`, in their original order. */
  function OfPriority(g: Adjacency, order: seq<int>, k: int): seq<int>
    requires forall v :: v in order ==> v in g
  {
    if order == [] then []
    else
      assert order[0] in order;
      var rest := OfPriority(g, order[1..], k);
      if Priority(g, order[0]) == k then [order[0]] + rest else rest
  }

  /** The node order `augment_graph` visits: sorted by non-increasing priority, ties in `order`. */
  function RankedOrder(g: Adjacency, order: seq<int>): seq<int>
    requires forall v :: v in order ==> v in g
  {
    Items(SortDesc(Keyed(g, order)))
  }

  /** Sorting the keyed list keeps every entry's score equal to its node's priority. */
  lemma SortedKeys(g: Adjacency, order: seq<int>)
    requires forall v :: v in order ==> v in g
    ensures forall e :: e in SortDesc(Keyed(g, order)) ==> e.item in g && e.score == Priority(g, e.item)
  {
    var keyed := Keyed(g, order);
    forall e | e in SortDesc(keyed) ensures e in keyed {
      assert e in multiset(SortDesc(keyed));
    }
  }

  /** The ranked order is a permutation of the nodes. */
  lemma RankedOrderPermutes(g: Adjacency, order: seq<int>)
    requires NoDup(order) && forall v :: v in order <==> v in g
    ensures multiset(RankedOrder(g, order)) == multiset(order)
    ensures NoDup(RankedOrder(g, order))
    ensures forall v :: v in RankedOrder(g, order) <==> v in g
  {
    var r := RankedOrder(g, order);
    SortDescItems(Keyed(g, order));
    NoDupPermutation(order, r);
    forall v ensures v in r <==> v in order {
      assert v in r <==> v in multiset(r);
      assert v in order <==> v in multiset(order);
    }
  }

  /** The ranked order lists the nodes by non-increasing priority. */
  lemma RankedOrderSorted(g: Adjacency, order: seq<int>)
    requires forall v :: v in order ==> v in g
    ensures forall v :: v in RankedOrder(g, order) ==> v in g
    ensures var r := RankedOrder(g, order);
      forall i, j :: 0 <= i < j < |r| ==> Priority(g, r[i]) >= Priority(g, r[j])
  {
    var sorted := SortDesc(Keyed(g, order));
    SortedKeys(g, order);
    forall i | 0 <= i < |sorted| ensures sorted[i] in sorted { }
  }

  lemma {:induction false} KeyedWithScore(g: Adjacency, order: seq<int>, k: int)
    requires forall v :: v in order ==> v in g
    ensures Items(WithScore(Keyed(g, order), k)) == OfPriority(g, order, k)
    decreases |order|
  {
    if order != [] {
      var keyed := Keyed(g, order);
      assert keyed[1..] == Keyed(g, order[1..]);
      KeyedWithScore(g, order[1..], k);
      assert keyed == [keyed[0]] + keyed[1..];
      var rest := WithScore(keyed[1..], k);
      if keyed[0].score == k {
        assert Items([keyed[0]] + rest) == [order[0]] + Items(rest);
      }
    }
  }

  /** Python's sort is stable: nodes of equal priority keep the order in which
      the graph lists them. */
  lemma RankingStable(g: Adjacency, order: seq<int>, k: int)
    requires forall v :: v in order ==> v in g
    ensures Items(WithScore(SortDesc(Keyed(g, order)), k)) == OfPriority(g, order, k)
  {
    SortDescStable(Keyed(g, order), k);
    KeyedWithScore(g, order, k);
  }

  /** The loop body computing one entry of `nodes_with_triangle_scores`. */
  method CountHighScoring(g: Adjacency, v: int) returns (count: nat)
    requires Closed(g) && v in g
    ensures count == Priority(g, v)
  {
    var cands := GetTwoHopCandidates(g, v);
    HighScoringCount(g, v, cands);
    var high := HighScoring(g, v, cands);
    count := |high|;
  }

  lemma KeyedSnoc(g: Adjacency, order: seq<int>, i: nat)
    requires forall v :: v in order ==> v in g
    requires i < |order|
    ensures Keyed(g, order[..i + 1]) == Keyed(g, order[..i]) + [Scored(order[i], Priority(g, order[i]))]
  {
    assert order[..i + 1] == order[..i] + [order[i]];
  }

  /** Lines computing `nodes`: one candidate search and one filter per node,
      then a stable sort by the count. `order` is the order of `G.nodes()`. */
  method RankNodes(g: Adjacency, order: seq<int>) returns (ranked: seq<int>)
    requires Undirected(g) && NoDup(order) && forall v :: v in order <==> v in g
    ensures ranked == RankedOrder(g, order)
    ensures multiset(ranked) == multiset(order) && NoDup(ranked)
    ensures forall v :: v in ranked <==> v in g
    ensures forall i, j :: 0 <= i < j < |ranked| ==> Priority(g, ranked[i]) >= Priority(g, ranked[j])
  {
    var counts: seq<Scored> := [];
    for i := 0 to |order|
      invariant counts == Keyed(g, order[..i])
    {
      var count := CountHighScoring(g, order[i]);
      KeyedSnoc(g, order, i);
      counts := counts + [Scored(order[i], count)];
    }
    assert order[..|order|] == order;
    ranked := Items(SortDesc(counts));
    RankedOrderPermutes(g, order);
    RankedOrderSorted(g, order);
  }

  /** Every edge of `es` is anchored at one of the first `bound` nodes of
      `ranked`, and the anchors follow the order of `ranked`. */
  ghost predicate InRankOrder(es: seq<(int, int)>, ranked: seq<int>, bound: int) {
    (forall k :: 0 <= k < |es| ==> es[k].0 in ranked && IndexOf(ranked, es[k].0) < bound) &&
    (forall k, l :: 0 <= k < l < |es| ==> IndexOf(ranked, es[k].0) <= IndexOf(ranked, es[l].0))
  }

  /** Augmenting the `i`-th ranked node appends edges anchored at it only. */
  lemma InRankOrderStep(before: seq<(int, int)>, after: seq<(int, int)>, ranked: seq<int>,
                        i: nat, s: set<int>)
    requires NoDup(ranked) && i < |ranked|
    requires InRankOrder(before, ranked, i)
    requires AddedWithin(before, after, ranked[i], s)
    ensures InRankOrder(after, ranked, i + 1)
  {
    IndexOfNoDup(ranked, i);
    forall k | |before| <= k < |after| ensures after[k].0 == ranked[i] {
      assert after[k] == after[|before|..][k - |before|];
    }
    forall k | 0 <= k < |before| ensures after[k] == before[k] { }
  }

  lemma InRankOrderMono(es: seq<(int, int)>, ranked: seq<int>, b: int, b': int)
    requires InRankOrder(es, ranked, b) && b <= b'
    ensures InRankOrder(es, ranked, b')
  {
  }

  /** Every edge of `es` joins two nodes already connected in `g0`. */
  ghost predicate WithinComponents(g0: Adjacency, es: seq<(int, int)>) {
    forall k :: 0 <= k < |es| ==> Reachable(g0, es[k].0, es[k].1)
  }

  /** After inserting edges that stay within components, every edge of the
      grown graph still joins two nodes connected in `g0`. */
  lemma EdgeWithinComponent(g0: Adjacency, es: seq<(int, int)>, u: int, v: int)
    requires Undirected(g0) && NewEdges(g0, es) && WithinComponents(g0, es)
    requires u in WithEdges(g0, es) && v in WithEdges(g0, es)[u]
    ensures Reachable(g0, u, v)
  {
    WithEdgesOnly(g0, es);
    if u in g0 && v in g0[u] {
      ReachableEdge(g0, u, v);
    } else if (u, v) in es {
      var k :| 0 <= k < |es| && es[k] == (u, v);
    } else {
      var k :| 0 <= k < |es| && es[k] == (v, u);
      ReachableSym(g0, v, u);
    }
  }

  /** A two-hop candidate in the grown graph is connected to the node in `g0`. */
  lemma TwoHopWithinComponent(g0: Adjacency, es: seq<(int, int)>, node: int, c: int)
    requires Undirected(g0) && NewEdges(g0, es) && WithinComponents(g0, es)
    requires c in TwoHop(WithEdges(g0, es), node)
    ensures Reachable(g0, node, c)
  {
    var h := WithEdges(g0, es);
    var w :| w in Neighbors(h, node) && w in h && c in h[w];
    EdgeWithinComponent(g0, es, node, w);
    EdgeWithinComponent(g0, es, w, c);
    ReachableTrans(g0, node, w, c);
  }

  /** Augmenting one node keeps every artificial edge within a component of `g0`. */
  lemma WithinComponentsStep(g0: Adjacency, before: seq<(int, int)>, after: seq<(int, int)>, node: int)
    requires Undirected(g0) && NewEdges(g0, before) && WithinComponents(g0, before)
    requires AddedWithin(before, after, node, TwoHop(WithEdges(g0, before), node))
    ensures WithinComponents(g0, after)
  {
    forall k | 0 <= k < |after| ensures Reachable(g0, after[k].0, after[k].1) {
      if k < |before| {
        assert after[k] == before[k];
      } else {
        assert after[k] == after[|before|..][k - |before|];
        TwoHopWithinComponent(g0, before, node, after[k].1);
      }
    }
  }

  /** The artificial edges `es` of a run that has visited the first
      `|traces|` ranked nodes: `cuts` splits them into one segment per
      visited node; each node was visited while the global budget had room,
      and its segment is one call of `augment_node` on the edges before it. */
  ghost predicate RunSteps(original: Adjacency, edgesBefore: int, ranked: seq<int>,
                           traces: seq<NodeTrace>, cuts: seq<nat>, es: seq<(int, int)>)
    decreases |traces|
  {
    && |traces| <= |ranked|
    && |cuts| == |traces| + 1
    && cuts[|traces|] == |es|
    && if traces == [] then es == []
       else
         var k := |traces| - 1;
         && cuts[k] <= |es|
         && cuts[k] < GlobalEdgeTarget - edgesBefore
         && RunSteps(original, edgesBefore, ranked, traces[..k], cuts[..k + 1], es[..cuts[k]])
         && NodeStep(original, edgesBefore, es[..cuts[k]], ranked[k], traces[k], es)
  }

  /** Visiting the next ranked node below the budget extends the run by one segment. */
  lemma RunStepsSnoc(original: Adjacency, edgesBefore: int, ranked: seq<int>, traces: seq<NodeTrace>,
                     cuts: seq<nat>, before: seq<(int, int)>, t: NodeTrace, after: seq<(int, int)>)
    requires RunSteps(original, edgesBefore, ranked, traces, cuts, before)
    requires |traces| < |ranked| && |before| < GlobalEdgeTarget - edgesBefore && before <= after
    requires NodeStep(original, edgesBefore, before, ranked[|traces|], t, after)
    ensures RunSteps(original, edgesBefore, ranked, traces + [t], cuts + [|after|], after)
  {
    var traces', cuts' := traces + [t], cuts + [|after|];
    assert traces'[..|traces|] == traces && cuts'[..|traces| + 1] == cuts;
    assert after[..cuts'[|traces|]] == before;
  }

  /** One turn of the driver loop: augments the `i`-th ranked node and
      extends the run's record of segments by it. */
  method Visit(a: Augmenter, g0: Adjacency, ranked: seq<int>, i: nat,
               ghost traces: seq<NodeTrace>, ghost cuts: seq<nat>)
    returns (ghost traces': seq<NodeTrace>, ghost cuts': seq<nat>)
    requires a.Valid() && a.original == g0 && NoDup(ranked)
    requires i < |ranked| && ranked[i] in a.g && |traces| == i
    requires a.total < GlobalEdgeTarget - a.edgesBefore
    requires RunSteps(g0, a.edgesBefore, ranked, traces, cuts, a.artificial)
    requires InRankOrder(a.artificial, ranked, i) && WithinComponents(g0, a.artificial)
    modifies a
    ensures a.Valid() && |traces'| == i + 1
    ensures RunSteps(g0, a.edgesBefore, ranked, traces', cuts', a.artificial)
    ensures InRankOrder(a.artificial, ranked, i + 1) && WithinComponents(g0, a.artificial)
  {
    ghost var before, gBefore := a.artificial, a.g;
    ghost var t := a.AugmentNode(ranked[i]);
    RunStepsSnoc(g0, a.edgesBefore, ranked, traces, cuts, before, t, a.artificial);
    ghost var cut: nat := |a.artificial|;
    traces', cuts' := traces + [t], cuts + [cut];
    InRankOrderStep(before, a.artificial, ranked, i, TwoHop(gBefore, ranked[i]));
    WithinComponentsStep(g0, before, a.artificial, ranked[i]);
  }

  /** `augment_graph` after loading: rank the nodes, then augment them in turn
      while the global target has room. `order` is the order of `G.nodes()`. */
  method AugmentGraph(g0: Adjacency, order: seq<int>)
    returns (g: Adjacency, artificial: seq<(int, int)>, ghost traces: seq<NodeTrace>, ghost cuts: seq<nat>)
    requires Undirected(g0) && NoDup(order) && forall v :: v in order <==> v in g0
    ensures RunSteps(g0, EdgeCount(g0), RankedOrder(g0, order), traces, cuts, artificial)
    ensures |traces| < |order| ==> |artificial| >= GlobalEdgeTarget - EdgeCount(g0)
    ensures NewEdges(g0, artificial) && g == WithEdges(g0, artificial)
    ensures Undirected(g) && g.Keys == g0.Keys
    ensures EdgeCount(g) == EdgeCount(g0) + |artificial|
    ensures EdgeCount(g0) >= GlobalEdgeTarget ==> artificial == []
    ensures artificial == [] || EdgeCount(g) <= GlobalEdgeTarget
    ensures forall u :: AnchoredAt(artificial, u) <= PerNodeEdgeLimit
    ensures InRankOrder(artificial, RankedOrder(g0, order), |order|)
    ensures WithinComponents(g0, artificial)
  {
    var a := new Augmenter(g0);
    var ranked := RankNodes(g0, order);
    var i := 0;
    traces, cuts := [], [0];
    while i < |ranked|
      invariant a.Valid() && a.original == g0 && a.edgesBefore == EdgeCount(g0)
      invariant i <= |ranked| && |traces| == i
      invariant RunSteps(g0, a.edgesBefore, ranked, traces, cuts, a.artificial)
      invariant InRankOrder(a.artificial, ranked, i)
      invariant WithinComponents(g0, a.artificial)
      decreases |ranked| - i
    {
      if a.total >= GlobalEdgeTarget - a.edgesBefore {
        break;
      }
      a.GraphFacts();
      traces, cuts := Visit(a, g0, ranked, i, traces, cuts);
      i := i + 1;
    }
    assert |multiset(ranked)| == |multiset(order)|;
    InRankOrderMono(a.artificial, ranked, i, |order|);
    ConsistentCaps(a.original, a.edgesBefore, a.g, a.artificial, a.used, a.perNode, a.total);
    g, artificial := a.g, a.artificial;
  }
}
