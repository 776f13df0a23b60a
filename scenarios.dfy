/**
 * Two small graphs on which the augmentation is known to add nothing: a
 * star, for every node and across a whole run, and a 5-cycle, in phase 1
 * for node 1.
 */
module Scenarios {
  import opened Graph
  import opened Lists
  import opened Candidates
  import opened Ranking
  import opened RunState
  import opened Augment
  import opened Driver

  /** The integers `lo` to `hi - 1`. */
  function Range(lo: int, hi: int): (r: set<int>)
    ensures forall x :: x in r <==> lo <= x < hi
    decreases hi - lo
  {
    if lo >= hi then {} else {lo} + Range(lo + 1, hi)
  }

  /** The neighbours of `v` in the star: every leaf for the hub, the hub for a leaf. */
  function Spokes(n: nat, v: int): set<int> {
    if v == 0 then Range(1, n + 1) else {0}
  }

  /** The star with hub 0 and leaves 1 to `n`. */
  function Star(n: nat): (g: Adjacency)
    ensures forall v :: v in g <==> 0 <= v <= n
    ensures forall v :: v in g ==> g[v] == Spokes(n, v)
  {
    map v | v in Range(0, n + 1) :: Spokes(n, v)
  }

  lemma StarUndirected(n: nat)
    ensures Undirected(Star(n))
  {
    var g := Star(n);
    forall u, v | u in g && v in g[u] ensures v in g && u in g[v] {
      if u != 0 {
        assert v == 0;
      }
    }
  }

  lemma AdjSingle(g: Adjacency, n: int)
    requires n in g
    ensures Adj(g, {n}) == g[n]
  {
    AdjOne(g, {}, n);
    assert {} + {n} == {n};
  }

  /** The two-hop candidates of a leaf are the other leaves; the hub has none. */
  lemma StarTwoHop(n: nat, v: int)
    requires 0 <= v <= n
    ensures TwoHop(Star(n), v) == if v == 0 then {} else Range(1, n + 1) - {v}
  {
    var g := Star(n);
    if v == 0 {
      forall c ensures c !in TwoHop(g, 0) {
        if c in Adj(g, g[0]) {
          var w :| w in g[0] && w in g && c in g[w];
        }
      }
    } else {
      AdjSingle(g, 0);
    }
  }

  /** A leaf shares exactly the hub with any other leaf: a triangle score of 1,
      below `TRIANGLE_SCORE_THRESHOLD`, so no leaf of a star has priority and
      phase 1 selects nothing for it. */
  lemma StarPhaseOneEmpty(n: nat, v: int, used: set<(int, int)>, cands: seq<int>)
    requires 1 <= v <= n
    requires forall c :: c in cands ==> c in Star(n) && c in TwoHop(Star(n), v)
    ensures forall c :: c in TwoHop(Star(n), v) ==> c in Star(n) && TriangleScore(Star(n), v, c) == 1
    ensures Priority(Star(n), v) == 0
    ensures TrianglePlan(Star(n), used, v, cands) == []
  {
    var g := Star(n);
    StarTwoHop(n, v);
    forall c | c in TwoHop(g, v) ensures c in g && TriangleScore(g, v, c) == 1 {
      assert g[v] * g[c] == {0};
    }
    assert (set c | c in TwoHop(g, v) && c in g && TriangleScore(g, v, c) >= TriangleScoreThreshold) == {};
    TrianglePlanEmpty(g, used, v, cands);
  }

  /** The candidates of a leaf are leaves. */
  lemma StarLeafCandidates(n: nat, v: int, cands: seq<int>)
    requires 1 <= v <= n
    requires forall c :: c in cands ==> c in Star(n) && c in TwoHop(Star(n), v)
    ensures forall c :: c in cands ==> c in Star(n) && |Star(n)[c]| <= 1
  {
    var g := Star(n);
    StarTwoHop(n, v);
    forall c | c in cands ensures c in g && |g[c]| <= 1 {
      assert g[c] == {0};
    }
  }

  /** Every candidate of a leaf is itself a leaf, so phase 2 keeps none of them
      either: augmenting a leaf of a star adds no edge. */
  lemma StarPhaseTwoEmpty(n: nat, v: int, used: set<(int, int)>, cands: seq<int>, scores: seq<Scored>)
    requires 1 <= v <= n
    requires forall c :: c in cands ==> c in Star(n) && c in TwoHop(Star(n), v)
    requires BetweennessScored(Star(n), used, v, cands, scores)
    ensures KeepAtLeast(scores, 1) == []
  {
    StarUndirected(n);
    StarLeafCandidates(n, v, cands);
    LeavesNeverSelected(Star(n), used, v, cands, scores);
  }

  /** On the star itself, one call of `augment_node` for any node adds no
      edge: the hub has no candidates, and a leaf's candidates are leaves,
      kept by neither phase. */
  lemma StarNodeStepEmpty(n: nat, edgesBefore: int, v: int, t: NodeTrace, after: seq<(int, int)>)
    requires NodeStep(Star(n), edgesBefore, [], v, t, after)
    ensures after == []
  {
    var g := Star(n);
    var used: set<(int, int)> := set e | e in [];
    assert WithEdges(g, []) == g;
    StarTwoHop(n, v);
    if v == 0 {
      assert forall c :: c !in t.cands;
      TrianglePlanEmpty(g, used, v, t.cands);
    } else {
      StarPhaseOneEmpty(n, v, used, t.cands);
      StarLeafCandidates(n, v, t.cands);
    }
    assert t.plan1 == [];
    assert [] + EdgesFrom(v, t.plan1[..t.taken1]) == [];
    StarUndirected(n);
    LeavesNeverSelected(g, used, v, t.cands, t.scores2);
    assert t.plan2 == SortDesc([]);
  }

  /** A whole run of `augment_graph` on a star adds no artificial edge. */
  lemma {:induction false} StarRunAddsNothing(n: nat, edgesBefore: int, ranked: seq<int>,
                                              traces: seq<NodeTrace>, cuts: seq<nat>, es: seq<(int, int)>)
    requires RunSteps(Star(n), edgesBefore, ranked, traces, cuts, es)
    ensures es == []
    decreases |traces|
  {
    if traces != [] {
      var k := |traces| - 1;
      StarRunAddsNothing(n, edgesBefore, ranked, traces[..k], cuts[..k + 1], es[..cuts[k]]);
      StarNodeStepEmpty(n, edgesBefore, ranked[k], traces[k], es);
    }
  }

  /** The cycle 1 - 2 - 3 - 4 - 5 - 1. */
  function Cycle5(): Adjacency {
    map[1 := {2, 5}, 2 := {1, 3}, 3 := {2, 4}, 4 := {3, 5}, 5 := {4, 1}]
  }

  /** In the 5-cycle the two-hop candidates of node 1 are 3 and 4. */
  lemma CycleTwoHop()
    ensures TwoHop(Cycle5(), 1) == {3, 4}
  {
    var g := Cycle5();
    AdjOne(g, {2}, 5);
    AdjSingle(g, 2);
    assert {2} + {5} == {2, 5};
  }

  /** Each two-hop candidate of node 1 in the 5-cycle shares exactly one
      neighbour with it, below the threshold, so node 1 has no priority. */
  lemma CycleScores()
    ensures TriangleScore(Cycle5(), 1, 3) == 1 && TriangleScore(Cycle5(), 1, 4) == 1
    ensures Priority(Cycle5(), 1) == 0
  {
    var g := Cycle5();
    CycleTwoHop();
    assert g[1] * g[3] == {2} && g[1] * g[4] == {5};
    assert (set c | c in TwoHop(g, 1) && c in g && TriangleScore(g, 1, c) >= TriangleScoreThreshold) == {};
  }

  /** Phase 1 therefore selects nothing for node 1. */
  lemma CyclePhaseOneEmpty(used: set<(int, int)>, cands: seq<int>)
    requires forall c :: c in cands ==> c in Cycle5() && c in TwoHop(Cycle5(), 1)
    ensures TrianglePlan(Cycle5(), used, 1, cands) == []
  {
    CycleTwoHop();
    CycleScores();
    TrianglePlanEmpty(Cycle5(), used, 1, cands);
  }
}
