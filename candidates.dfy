/**
 * CandidateGenerator and TriangleScorer: the two-hop candidates of a node
 * and the common-neighbour score of a (node, candidate) pair.
 */
module Candidates {
  import opened Graph
  import opened Lists

  /** The neighbours of neighbours of `v`, other than `v` and its neighbours. */
  function TwoHop(g: Adjacency, v: int): set<int> {
    Adj(g, Neighbors(g, v)) - Neighbors(g, v) - {v}
  }

  /** `len(set(neighbors(u)) & set(neighbors(v)))`: the number of common neighbours. */
  function TriangleScore(g: Adjacency, u: int, v: int): (r: nat)
    requires u in g && v in g
    ensures r <= |g[u]| && r <= |g[v]|
  {
    CardSubset(g[u] * g[v], g[u]);
    CardSubset(g[u] * g[v], g[v]);
    |g[u] * g[v]|
  }

  /** `list(s)`: the elements of a set, each once, in some order. */
  method SetToSeq(s: set<int>) returns (r: seq<int>)
    ensures NoDup(r)
    ensures forall x :: x in r <==> x in s
    ensures |r| == |s|
  {
    r := [];
    var rest := s;
    while rest != {}
      invariant rest <= s
      invariant NoDup(r)
      invariant forall x :: x in r <==> x in s - rest
      invariant |r| + |rest| == |s|
      decreases rest
    {
      NonEmpty(rest);
      var x :| x in rest;
      assert x !in r;
      r := r + [x];
      rest := rest - {x};
    }
  }

  /** `get_two_hop_candidates`: gathers the neighbours of every neighbour,
      then drops the direct neighbours and the node itself. */
  method GetTwoHopCandidates(g: Adjacency, node: int) returns (cands: seq<int>)
    requires Closed(g) && node in g
    ensures NoDup(cands)
    ensures forall c :: c in cands <==> c in TwoHop(g, node)
    ensures forall c :: c in cands <==>
              c != node && c !in g[node] && exists w :: w in g[node] && w in g && c in g[w]
  {
    var oneHop := g[node];
    assert forall w :: w in oneHop ==> w in g;
    var twoHop := NeighborsOfSet(g, oneHop);
    twoHop := twoHop - oneHop;
    twoHop := twoHop - {node};
    cands := SetToSeq(twoHop);
  }

  // ---------------------------------------------------------------------
  // Properties

  /** Two-hop candidates are exactly the nodes at distance two. */
  lemma TwoHopIsDistanceTwo(g: Adjacency, v: int)
    ensures TwoHop(g, v) == Sphere(g, v, 2)
  {
    var n := Neighbors(g, v);
    assert Ball(g, v, 0) == {v};
    assert Adj(g, {v}) == n by {
      forall u | u in n ensures u in Adj(g, {v}) { AdjIntro(g, {v}, v, u); }
    }
    assert Ball(g, v, 1) == {v} + n;
    AdjUnion(g, {v}, n);
    assert Ball(g, v, 2) == {v} + n + Adj(g, n);
  }

  /** A node without neighbours has no two-hop candidates. */
  lemma TwoHopOfIsolated(g: Adjacency, v: int)
    requires Neighbors(g, v) == {}
    ensures TwoHop(g, v) == {}
  {
    assert Adj(g, {}) == {};
  }

  lemma TriangleScoreSymmetric(g: Adjacency, u: int, v: int)
    requires u in g && v in g
    ensures TriangleScore(g, u, v) == TriangleScore(g, v, u)
  {
    assert g[u] * g[v] == g[v] * g[u];
  }

  /** In an undirected graph, a non-neighbour other than `v` is a two-hop
      candidate of `v` exactly when it shares at least one neighbour with `v`. */
  lemma TwoHopIffCommonNeighbour(g: Adjacency, v: int, c: int)
    requires Undirected(g) && v in g && c in g
    ensures c in TwoHop(g, v) <==> c != v && c !in g[v] && TriangleScore(g, v, c) >= 1
  {
    if c in TwoHop(g, v) {
      var w :| w in g[v] && w in g && c in g[w];
      assert w in g[v] * g[c];
    }
    if c != v && c !in g[v] && TriangleScore(g, v, c) >= 1 {
      NonEmpty(g[v] * g[c]);
      var w :| w in g[v] * g[c];
      AdjIntro(g, g[v], w, c);
    }
  }

  /** The triangle score counts the two-step walks `u - w - v`, i.e. the
      triangles that the edge `u - v` would close. */
  lemma TriangleScoreCountsTwoStepPaths(g: Adjacency, u: int, v: int)
    requires Undirected(g) && u in g && v in g
    ensures TriangleScore(g, u, v) == |set w | w in g && IsPath(g, [u, w, v])|
  {
    var common := set w | w in g && IsPath(g, [u, w, v]);
    forall w ensures w in common <==> w in g[u] * g[v] {
      var p := [u, w, v];
      if w in g && IsPath(g, p) {
        assert p[1] in g[p[0]] && p[2] in g[p[1]];
      }
      if w in g[u] && w in g[v] {
        assert IsPath(g, p);
      }
    }
    assert common == g[u] * g[v];
  }
}
