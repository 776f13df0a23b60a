/**
 * BudgetTracker and AugmentationOrchestrator: the run state (graph, edge
 * list, used-edge set, counters), the two greedy phases per node, and what
 * one call of `augment_node` does, stated on the artificial edges alone.
 */
module Augment {
  import opened Graph
  import opened Lists
  import opened Candidates
  import opened Subgraph
  import opened Betweenness
  import opened Ranking
  import opened RunState

  /** The edges `(node, c)` for the items `c` of a scored list, in order. */
  function EdgesFrom(node: int, xs: seq<Scored>): (es: seq<(int, int)>)
    ensures |es| == |xs|
    ensures forall i :: 0 <= i < |xs| ==> es[i] == (node, xs[i].item)
  {
    seq(|xs|, i requires 0 <= i < |xs| => (node, xs[i].item))
  }

  /** `[c for c in cands if (node, c) not in used_edges and not G.has_edge(node, c)]`. */
  function Unused(g: Adjacency, used: set<(int, int)>, node: int, cands: seq<int>): (r: seq<int>)
    requires node in g
    ensures forall c :: c in r <==> c in cands && (node, c) !in used && c !in g[node]
    ensures NoDup(cands) ==> NoDup(r)
  {
    if cands == [] then []
    else
      var rest := Unused(g, used, node, cands[1..]);
      assert NoDup(cands) ==> NoDup(cands[1..]) && cands[0] !in cands[1..];
      if (node, cands[0]) !in used && cands[0] !in g[node] then [cands[0]] + rest else rest
  }

  /** `[(c, triangle_score(G, node, c)) for c in cs]`. */
  function TriangleScores(g: Adjacency, node: int, cs: seq<int>): (r: seq<Scored>)
    requires node in g && forall c :: c in cs ==> c in g
    ensures Items(r) == cs
  {
    seq(|cs|, i requires 0 <= i < |cs| => Scored(cs[i], TriangleScore(g, node, cs[i])))
  }

  /** The phase-1 order: unused candidates scoring at least the threshold, by
      non-increasing triangle score, ties in candidate order. */
  function TrianglePlan(g: Adjacency, used: set<(int, int)>, node: int, cands: seq<int>): seq<Scored>
    requires node in g && forall c :: c in cands ==> c in g
  {
    SortDesc(KeepAtLeast(TriangleScores(g, node, Unused(g, used, node, cands)), TriangleScoreThreshold))
  }

  /** The phase-1 order lists each candidate at most once, by non-increasing
      score; it holds exactly the unused, non-adjacent candidates whose
      triangle score reaches the threshold, each with its triangle score. */
  lemma TrianglePlanSpec(g: Adjacency, used: set<(int, int)>, node: int, cands: seq<int>)
    requires node in g && NoDup(cands) && forall c :: c in cands ==> c in g
    ensures var plan := TrianglePlan(g, used, node, cands);
      && NonIncreasing(plan)
      && NoDup(Items(plan))
      && (forall e :: e in plan ==>
            e.item in cands && (node, e.item) !in used && e.item !in g[node] &&
            e.score == TriangleScore(g, node, e.item) && e.score >= TriangleScoreThreshold)
      && (forall c ::
            (c in cands && (node, c) !in used && c !in g[node] &&
             TriangleScore(g, node, c) >= TriangleScoreThreshold) ==>
            Scored(c, TriangleScore(g, node, c)) in plan)
  {
    var unusedCands := Unused(g, used, node, cands);
    var scored := TriangleScores(g, node, unusedCands);
    SortedSelection(scored, TriangleScoreThreshold);
    forall c | c in unusedCands ensures Scored(c, TriangleScore(g, node, c)) in scored {
      var k :| 0 <= k < |unusedCands| && unusedCands[k] == c;
      assert scored[k] == Scored(c, TriangleScore(g, node, c));
    }
    forall e | e in scored ensures e.item in unusedCands && e.score == TriangleScore(g, node, e.item) {
      var k :| 0 <= k < |scored| && scored[k] == e;
    }
  }

  /** When no candidate reaches the threshold, phase 1 selects nothing. */
  lemma TrianglePlanEmpty(g: Adjacency, used: set<(int, int)>, node: int, cands: seq<int>)
    requires node in g && forall c :: c in cands ==> c in g
    requires forall c :: c in cands ==> TriangleScore(g, node, c) < TriangleScoreThreshold
    ensures TrianglePlan(g, used, node, cands) == []
  {
    var scored := TriangleScores(g, node, Unused(g, used, node, cands));
    forall e | e in scored ensures e.score < TriangleScoreThreshold {
      var k :| 0 <= k < |scored| && scored[k] == e;
    }
    KeepAtLeastNone(scored, TriangleScoreThreshold);
  }

  /** The run state of one augmentation; `stats` of the source, reduced to
      the counters that gate edge commitment. */
  class Augmenter {
    var g: Adjacency
    var artificial: seq<(int, int)>
    var used: set<(int, int)>
    var perNode: map<int, int>
    var total: int
    const edgesBefore: int
    ghost const original: Adjacency

    /** The graph is the input plus the artificial edges, each of which was
        new when added; `used_edges` holds exactly the artificial edges; the
        counters count them; both caps hold. */
    ghost predicate Valid()
      reads this
    {
      Consistent(original, edgesBefore, g, artificial, used, perNode, total)
    }

    /** The state after loading: no artificial edge, all counters zero. */
    constructor (g0: Adjacency)
      requires Undirected(g0)
      ensures Valid()
      ensures original == g0 && g == g0 && artificial == [] && used == {}
      ensures total == 0 && edgesBefore == EdgeCount(g0)
    {
      g := g0;
      artificial := [];
      used := {};
      perNode := map[];
      total := 0;
      edgesBefore := EdgeCount(g0);
      original := g0;
    }

    /** The graph stays undirected over the input's nodes. */
    lemma GraphFacts()
      requires Valid()
      ensures Undirected(g) && g.Keys == original.Keys
    {
      WithEdgesFacts(original, artificial);
    }

    /** Commits one edge: adds it to the graph (both directions), appends it
        to the artificial edges, records it as used and bumps both counters. */
    method Commit(node: int, c: int)
      requires Valid()
      requires node in g && c in g && node != c && c !in g[node] && (node, c) !in used
      requires AddedTo(perNode, node) < PerNodeEdgeLimit
      requires total < GlobalEdgeTarget - edgesBefore
      modifies this
      ensures Valid()
      ensures g == AddEdge(old(g), node, c)
      ensures artificial == old(artificial) + [(node, c)]
      ensures used == old(used) + {(node, c)}
      ensures total == old(total) + 1
      ensures AddedTo(perNode, node) == AddedTo(old(perNode), node) + 1
      ensures forall u :: u != node ==> AddedTo(perNode, u) == AddedTo(old(perNode), u)
    {
      var g', perNode' := AddEdge(g, node, c), perNode[node := AddedTo(perNode, node) + 1];
      var artificial', used' := artificial + [(node, c)], used + {(node, c)};
      CommitKeepsConsistent(original, edgesBefore, node, c, g, artificial, used, perNode, total,
                            g', artificial', used', perNode', total + 1);
      g, perNode, artificial, used, total := g', perNode', artificial', used', total + 1;
    }

    /** The greedy loop shared by both phases: walks the ordered candidates,
        stopping at the per-node cap or the global budget, committing each. */
    method CommitInOrder(node: int, plan: seq<Scored>) returns (taken: nat)
      requires Valid() && node in g
      requires forall e :: e in plan ==>
                 e.item in g && e.item != node && e.item !in g[node] && (node, e.item) !in used
      requires NoDup(Items(plan))
      modifies this
      ensures Valid()
      ensures taken <= |plan|
      ensures artificial == old(artificial) + EdgesFrom(node, plan[..taken])
      ensures total == old(total) + taken
      ensures AddedTo(perNode, node) == AddedTo(old(perNode), node) + taken
      ensures forall u :: u != node ==> AddedTo(perNode, u) == AddedTo(old(perNode), u)
      ensures taken < |plan| ==>
                AddedTo(perNode, node) >= PerNodeEdgeLimit || total >= GlobalEdgeTarget - edgesBefore
    {
      taken := 0;
      PendingAll(g, used, node, plan);
      while taken < |plan|
        invariant Valid() && Pending(g, used, node, plan, taken)
        invariant taken <= |plan|
        invariant artificial == old(artificial) + EdgesFrom(node, plan[..taken])
        invariant total == old(total) + taken
        invariant AddedTo(perNode, node) == AddedTo(old(perNode), node) + taken
        invariant forall u :: u != node ==> AddedTo(perNode, u) == AddedTo(old(perNode), u)
      {
        if AddedTo(perNode, node) >= PerNodeEdgeLimit {
          break;
        }
        if total >= GlobalEdgeTarget - edgesBefore {
          break;
        }
        var c := plan[taken].item;
        PendingStep(g, used, node, plan, taken);
        Commit(node, c);
        EdgesFromSnoc(node, plan, taken);
        taken := taken + 1;
      }
    }

    /** Phase 1: commits unused candidates with triangle score at least the
        threshold, highest score first, within both caps. */
    method TrianglePhase(node: int, cands: seq<int>) returns (plan: seq<Scored>, taken: nat)
      requires Valid() && node in g && NoDup(cands)
      requires forall c :: c in cands ==> c in g && c != node
      modifies this
      ensures Valid()
      ensures plan == TrianglePlan(old(g), old(used), node, cands)
      ensures AddedWithin(old(artificial), artificial, node, set c | c in cands)
      ensures taken <= |plan|
      ensures artificial == old(artificial) + EdgesFrom(node, plan[..taken])
      ensures AddedTo(perNode, node) == AddedTo(old(perNode), node) + taken
      ensures forall u :: u != node ==> AddedTo(perNode, u) == AddedTo(old(perNode), u)
      ensures taken < |plan| ==>
                AddedTo(perNode, node) >= PerNodeEdgeLimit || total >= GlobalEdgeTarget - edgesBefore
      ensures TriangleStep(original, edgesBefore, old(artificial), node, cands, plan, taken, artificial)
    {
      var unusedCands := Unused(g, used, node, cands);
      var scored := TriangleScores(g, node, unusedCands);
      scored := KeepAtLeast(scored, TriangleScoreThreshold);
      plan := SortDesc(scored);
      TrianglePlanSpec(g, used, node, cands);
      ghost var before := artificial;
      taken := CommitInOrder(node, plan);
      AddedFromPlan(before, artificial, node, plan, taken, set c | c in cands);
      AnchorCountsCount(artificial, node);
    }

    /** Phase 2: scores the still-unused candidates by local betweenness in
        the `LOCAL_BETWEENNESS_HOPS`-hop subgraph around the node, drops the
        zero scores and commits the rest, highest score first, within both caps. */
    method BetweennessPhase(node: int, cands: seq<int>)
      returns (scores: seq<Scored>, plan: seq<Scored>, taken: nat)
      requires Valid() && node in g && NoDup(cands)
      requires forall c :: c in cands ==> c in g && c != node
      modifies this
      ensures Valid()
      ensures BetweennessScored(old(g), old(used), node, cands, scores)
      ensures plan == SortDesc(KeepAtLeast(scores, 1))
      ensures AddedWithin(old(artificial), artificial, node, set c | c in cands)
      ensures taken <= |plan|
      ensures artificial == old(artificial) + EdgesFrom(node, plan[..taken])
      ensures AddedTo(perNode, node) == AddedTo(old(perNode), node) + taken
      ensures forall u :: u != node ==> AddedTo(perNode, u) == AddedTo(old(perNode), u)
      ensures taken < |plan| ==>
                AddedTo(perNode, node) >= PerNodeEdgeLimit || total >= GlobalEdgeTarget - edgesBefore
      ensures BetweennessStep(original, edgesBefore, old(artificial), node, cands, scores, plan, taken, artificial)
    {
      GraphFacts();
      scores, plan := BetweennessPlan(g, used, node, cands);
      ghost var before := artificial;
      taken := CommitInOrder(node, plan);
      AddedFromPlan(before, artificial, node, plan, taken, set c | c in cands);
      AnchorCountsCount(artificial, node);
    }

    /** `augment_node`: nothing happens for a node already at its cap or
        without two-hop candidates; otherwise phase 1, then phase 2 while the
        node is still below its cap. `trace` records what each phase ranked
        and how much of it was committed. */
    method AugmentNode(node: int) returns (ghost trace: NodeTrace)
      requires Valid() && node in g
      modifies this
      ensures Valid()
      ensures NodeStep(original, edgesBefore, old(artificial), node, trace, artificial)
      ensures AddedTo(old(perNode), node) >= PerNodeEdgeLimit ==>
                g == old(g) && artificial == old(artificial) && used == old(used) && total == old(total)
      ensures AddedWithin(old(artificial), artificial, node, TwoHop(old(g), node))
      ensures forall u :: u != node ==> AddedTo(perNode, u) == AddedTo(old(perNode), u)
    {
      AnchorCountsCount(artificial, node);
      if AddedTo(perNode, node) >= PerNodeEdgeLimit {
        AddedNothing(artificial, node, TwoHop(g, node));
        NodeStepAtCap(original, edgesBefore, artificial, node);
        return NodeTrace([], [], 0, [], [], 0);
      }
      GraphFacts();
      var candidates := GetTwoHopCandidates(g, node);
      ghost var two := TwoHop(g, node);
      assert (set c | c in candidates) == two;
      if |candidates| == 0 {
        AddedNothing(artificial, node, two);
        NoCandidatesStep(original, edgesBefore, artificial, node);
        return NodeTrace([], [], 0, [], [], 0);
      }
      AdjClosed(g, Neighbors(g, node));
      ghost var a0 := artificial;
      var plan1, taken1 := TrianglePhase(node, candidates);
      ghost var a1 := artificial;
      AnchorCountsCount(artificial, node);
      if AddedTo(perNode, node) < PerNodeEdgeLimit {
        GraphFacts();
        var scores, plan2, taken2 := BetweennessPhase(node, candidates);
        AddedWithinTrans(a0, a1, artificial, node, two);
        NodeStepPhaseTwo(original, edgesBefore, a0, node, candidates, plan1, taken1, a1,
                         scores, plan2, taken2, artificial);
        trace := NodeTrace(candidates, plan1, taken1, scores, plan2, taken2);
      } else {
        NodeStepPhaseOne(original, edgesBefore, a0, node, candidates, plan1, taken1, a1);
        trace := NodeTrace(candidates, plan1, taken1, [], [], 0);
      }
    }
  }

  /** `scores` lists the unused candidates, in order, each with a local
      betweenness score within the bounds proved for the `LOCAL_BETWEENNESS_HOPS`-hop
      subgraph around `node`. */
  ghost predicate BetweennessScored(g: Adjacency, used: set<(int, int)>, node: int,
                                    cands: seq<int>, scores: seq<Scored>)
    requires node in g
  {
    && Items(scores) == Unused(g, used, node, cands)
    && forall e :: e in scores ==>
         var h := Induced(g, Ball(g, node, LocalBetweennessHops));
         |OnEveryShortest(h, node, e.item)| <= e.score <= |OnSomeShortest(h, node, e.item)|
  }

  /** Candidates with at most one neighbour lie inside no shortest path of
      the subgraph, so they score zero and phase 2 keeps none of them. */
  lemma LeavesNeverSelected(g: Adjacency, used: set<(int, int)>, node: int,
                            cands: seq<int>, scores: seq<Scored>)
    requires Undirected(g) && node in g && BetweennessScored(g, used, node, cands, scores)
    requires forall c :: c in cands ==> c in g && |g[c]| <= 1
    ensures KeepAtLeast(scores, 1) == []
  {
    var h := Induced(g, Ball(g, node, LocalBetweennessHops));
    InducedUndirected(g, Ball(g, node, LocalBetweennessHops));
    forall e | e in scores ensures e.score < 1 {
      var c := e.item;
      assert c in Items(scores);
      if c in h {
        CardSubset(h[c], g[c]);
        ZeroForLeaf(h, node, c);
      } else {
        ZeroForAnchorOrAbsent(h, node, c);
      }
    }
    KeepAtLeastNone(scores, 1);
  }

  /** `[(c, local_betweenness(subgraph, node, c)) for c in cs]`, each score
      within the bounds proved for `LocalBetweenness`. */
  method ScoreAll(h: Adjacency, node: int, cs: seq<int>) returns (scores: seq<Scored>)
    requires Closed(h)
    ensures Items(scores) == cs
    ensures forall e :: e in scores ==>
              |OnEveryShortest(h, node, e.item)| <= e.score <= |OnSomeShortest(h, node, e.item)|
  {
    scores := [];
    for i := 0 to |cs|
      invariant Items(scores) == cs[..i]
      invariant forall e :: e in scores ==>
                  |OnEveryShortest(h, node, e.item)| <= e.score <= |OnSomeShortest(h, node, e.item)|
    {
      var s := LocalBetweenness(h, node, cs[i]);
      assert Items(scores + [Scored(cs[i], s)]) == cs[..i + 1];
      scores := scores + [Scored(cs[i], s)];
    }
    assert cs[..|cs|] == cs;
  }

  /** The phase-2 scoring and order; the subgraph is extracted only when an
      unused candidate remains. */
  method BetweennessPlan(g: Adjacency, used: set<(int, int)>, node: int, cands: seq<int>)
    returns (scores: seq<Scored>, plan: seq<Scored>)
    requires Undirected(g) && node in g && NoDup(cands)
    requires forall c :: c in cands ==> c in g && c != node
    ensures BetweennessScored(g, used, node, cands, scores)
    ensures plan == SortDesc(KeepAtLeast(scores, 1))
    ensures NoDup(Items(plan))
    ensures forall e :: e in plan ==>
              e.item in cands && e.item in g && e.item != node && e.item !in g[node] &&
              (node, e.item) !in used
  {
    var remaining := Unused(g, used, node, cands);
    if |remaining| == 0 {
      return [], [];
    }
    var h := ExtractKHop(g, node, LocalBetweennessHops);
    InducedUndirected(g, Ball(g, node, LocalBetweennessHops));
    scores := ScoreAll(h, node, remaining);
    plan := SortDesc(KeepAtLeast(scores, 1));
    SortedSelection(scores, 1);
    forall e | e in plan ensures e.item in remaining {
      var k :| 0 <= k < |scores| && scores[k] == e;
      assert Items(scores)[k] == e.item;
    }
  }

  /** Every edge of `es` joins `node` to a member of `s`. */
  ghost predicate AnchoredWithin(es: seq<(int, int)>, node: int, s: set<int>) {
    forall i :: 0 <= i < |es| ==> es[i].0 == node && es[i].1 in s
  }

  /** `after` extends `before` by edges joining `node` to members of `s` only. */
  ghost predicate AddedWithin(before: seq<(int, int)>, after: seq<(int, int)>, node: int, s: set<int>) {
    before <= after && AnchoredWithin(after[|before|..], node, s)
  }

  lemma AddedNothing(es: seq<(int, int)>, node: int, s: set<int>)
    ensures AddedWithin(es, es, node, s)
  {
    assert es[|es|..] == [];
  }

  lemma AddedFromPlan(before: seq<(int, int)>, after: seq<(int, int)>, node: int,
                      plan: seq<Scored>, k: nat, s: set<int>)
    requires k <= |plan| && after == before + EdgesFrom(node, plan[..k])
    requires forall e :: e in plan ==> e.item in s
    ensures AddedWithin(before, after, node, s)
  {
    assert after[|before|..] == EdgesFrom(node, plan[..k]);
    forall i | 0 <= i < k ensures EdgesFrom(node, plan[..k])[i].1 in s {
      assert plan[i] in plan;
    }
  }

  lemma AddedWithinTrans(a: seq<(int, int)>, b: seq<(int, int)>, c: seq<(int, int)>, node: int, s: set<int>)
    requires AddedWithin(a, b, node, s) && AddedWithin(b, c, node, s)
    ensures AddedWithin(a, c, node, s)
  {
    forall i | |a| <= i < |c| ensures c[i].0 == node && c[i].1 in s {
      if i < |b| {
        assert c[i] == b[i] == b[|a|..][i - |a|];
      } else {
        assert c[i] == c[|b|..][i - |b|];
      }
    }
  }

  /** The entries of `plan` from index `k` on can still be committed: each
      joins `node` to another node of `g` it is not yet adjacent to, by an
      edge not yet used. */
  ghost predicate Pending(g: Adjacency, used: set<(int, int)>, node: int, plan: seq<Scored>, k: nat) {
    && node in g
    && forall j :: k <= j < |plan| ==>
         plan[j].item in g && plan[j].item != node && plan[j].item !in g[node] &&
         (node, plan[j].item) !in used
  }

  lemma PendingAll(g: Adjacency, used: set<(int, int)>, node: int, plan: seq<Scored>)
    requires node in g
    requires forall e :: e in plan ==>
               e.item in g && e.item != node && e.item !in g[node] && (node, e.item) !in used
    ensures Pending(g, used, node, plan, 0)
  {
    forall j | 0 <= j < |plan| ensures plan[j] in plan { }
  }

  /** Committing the entry at `k` leaves the later entries committable. */
  lemma PendingStep(g: Adjacency, used: set<(int, int)>, node: int, plan: seq<Scored>, k: nat)
    requires Pending(g, used, node, plan, k) && k < |plan| && NoDup(Items(plan))
    ensures var c := plan[k].item;
      c in g && c != node && c !in g[node] && (node, c) !in used &&
      Pending(AddEdge(g, node, c), used + {(node, c)}, node, plan, k + 1)
  {
    var c := plan[k].item;
    forall j | k < j < |plan| ensures plan[j].item != c {
      assert Items(plan)[k] == c && Items(plan)[j] == plan[j].item;
    }
  }

  lemma EdgesFromSnoc(node: int, plan: seq<Scored>, k: nat)
    requires k < |plan|
    ensures EdgesFrom(node, plan[..k + 1]) == EdgesFrom(node, plan[..k]) + [(node, plan[k].item)]
  {
  }

  // ---------------------------------------------------------------------
  // One call of `augment_node`, stated on the artificial edges alone: the
  // graph, the used set and the counters it sees are those the edges before
  // it determine.

  /** What one call of `augment_node` ranked and committed: its candidates,
      the phase-1 order and how much of it was committed, the phase-2 scores,
      the phase-2 order and how much of it was committed. */
  datatype NodeTrace = NodeTrace(cands: seq<int>, plan1: seq<Scored>, taken1: nat,
                                 scores2: seq<Scored>, plan2: seq<Scored>, taken2: nat)

  /** Phase 1 after the artificial edges `before`: the order is the
      triangle-score order of the graph as it then was; `mid` appends the
      edges of its first `taken` entries; it stops short only at the
      per-node cap or the global budget. */
  ghost predicate TriangleStep(original: Adjacency, edgesBefore: int, before: seq<(int, int)>, node: int,
                               cands: seq<int>, plan: seq<Scored>, taken: nat, mid: seq<(int, int)>)
  {
    var g := WithEdges(original, before);
    && node in g
    && (forall c :: c in cands ==> c in g)
    && plan == TrianglePlan(g, (set e | e in before), node, cands)
    && taken <= |plan|
    && mid == before + EdgesFrom(node, plan[..taken])
    && (taken < |plan| ==>
          AnchoredAt(mid, node) >= PerNodeEdgeLimit || |mid| >= GlobalEdgeTarget - edgesBefore)
  }

  /** Phase 2 after the artificial edges `mid`: the scores are local
      betweenness scores in the graph as it then was; the order keeps the
      positive ones, highest first; `after` appends the edges of its first
      `taken` entries; it stops short only at the per-node cap or the
      global budget. */
  ghost predicate BetweennessStep(original: Adjacency, edgesBefore: int, mid: seq<(int, int)>, node: int,
                                  cands: seq<int>, scores: seq<Scored>, plan: seq<Scored>, taken: nat,
                                  after: seq<(int, int)>)
  {
    && node in WithEdges(original, mid)
    && BetweennessScored(WithEdges(original, mid), (set e | e in mid), node, cands, scores)
    && plan == SortDesc(KeepAtLeast(scores, 1))
    && taken <= |plan|
    && after == mid + EdgesFrom(node, plan[..taken])
    && (taken < |plan| ==>
          AnchoredAt(after, node) >= PerNodeEdgeLimit || |after| >= GlobalEdgeTarget - edgesBefore)
  }

  /** One call of `augment_node` on the run that has added `before`: a node
      already at its cap adds nothing; otherwise the candidates are its
      two-hop candidates, phase 1 runs, and phase 2 runs exactly when the
      node is still below its cap afterwards. */
  ghost predicate NodeStep(original: Adjacency, edgesBefore: int, before: seq<(int, int)>, node: int,
                           t: NodeTrace, after: seq<(int, int)>)
  {
    && node in WithEdges(original, before)
    && if AnchoredAt(before, node) >= PerNodeEdgeLimit then
         after == before && t == NodeTrace([], [], 0, [], [], 0)
       else
         && NoDup(t.cands)
         && (forall c :: c in t.cands <==> c in TwoHop(WithEdges(original, before), node))
         && t.taken1 <= |t.plan1|
         && TriangleStep(original, edgesBefore, before, node, t.cands, t.plan1, t.taken1,
                         before + EdgesFrom(node, t.plan1[..t.taken1]))
         && var mid := before + EdgesFrom(node, t.plan1[..t.taken1]);
            if AnchoredAt(mid, node) < PerNodeEdgeLimit then
              BetweennessStep(original, edgesBefore, mid, node, t.cands, t.scores2, t.plan2, t.taken2, after)
            else
              t.scores2 == [] && t.plan2 == [] && t.taken2 == 0 && after == mid
  }

  /** A node already at its cap adds nothing. */
  lemma NodeStepAtCap(original: Adjacency, edgesBefore: int, before: seq<(int, int)>, node: int)
    requires node in WithEdges(original, before)
    requires AnchoredAt(before, node) >= PerNodeEdgeLimit
    ensures NodeStep(original, edgesBefore, before, node, NodeTrace([], [], 0, [], [], 0), before)
  {
  }

  /** Phase 1 brings the node to its cap, so phase 2 does not run. */
  lemma NodeStepPhaseOne(original: Adjacency, edgesBefore: int, before: seq<(int, int)>, node: int,
                         cands: seq<int>, plan1: seq<Scored>, taken1: nat, mid: seq<(int, int)>)
    requires AnchoredAt(before, node) < PerNodeEdgeLimit
    requires NoDup(cands) && forall c :: c in cands <==> c in TwoHop(WithEdges(original, before), node)
    requires TriangleStep(original, edgesBefore, before, node, cands, plan1, taken1, mid)
    requires AnchoredAt(mid, node) >= PerNodeEdgeLimit
    ensures NodeStep(original, edgesBefore, before, node, NodeTrace(cands, plan1, taken1, [], [], 0), mid)
  {
  }

  /** Phase 1 leaves the node below its cap, so phase 2 runs. */
  lemma NodeStepPhaseTwo(original: Adjacency, edgesBefore: int, before: seq<(int, int)>, node: int,
                         cands: seq<int>, plan1: seq<Scored>, taken1: nat, mid: seq<(int, int)>,
                         scores2: seq<Scored>, plan2: seq<Scored>, taken2: nat, after: seq<(int, int)>)
    requires AnchoredAt(before, node) < PerNodeEdgeLimit
    requires NoDup(cands) && forall c :: c in cands <==> c in TwoHop(WithEdges(original, before), node)
    requires TriangleStep(original, edgesBefore, before, node, cands, plan1, taken1, mid)
    requires AnchoredAt(mid, node) < PerNodeEdgeLimit
    requires BetweennessStep(original, edgesBefore, mid, node, cands, scores2, plan2, taken2, after)
    ensures NodeStep(original, edgesBefore, before, node, NodeTrace(cands, plan1, taken1, scores2, plan2, taken2), after)
  {
  }

  /** A node without two-hop candidates: both phases rank nothing. */
  lemma NoCandidatesStep(original: Adjacency, edgesBefore: int, before: seq<(int, int)>, node: int)
    requires node in WithEdges(original, before)
    requires AnchoredAt(before, node) < PerNodeEdgeLimit
    requires TwoHop(WithEdges(original, before), node) == {}
    ensures NodeStep(original, edgesBefore, before, node, NodeTrace([], [], 0, [], [], 0), before)
  {
    TrianglePlanEmpty(WithEdges(original, before), (set e | e in before), node, []);
    assert before + EdgesFrom(node, []) == before;
    assert TriangleStep(original, edgesBefore, before, node, [], [], 0, before);
    KeepAtLeastNone([], 1);
    assert BetweennessStep(original, edgesBefore, before, node, [], [], [], 0, before);
    NodeStepPhaseTwo(original, edgesBefore, before, node, [], [], 0, before, [], [], 0, before);
  }
}
