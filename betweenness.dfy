/**
 * BetweennessScorer: a breadth-first shortest-path search (standing in for
 * the library's `shortest_path`) and the local betweenness count built on it.
 */
module Betweenness {
  import opened Wrappers
  import opened Graph

  /** `p` is a walk from `s` to `t` and no walk from `s` to `t` is shorter. */
  ghost predicate IsShortestPath(h: Adjacency, p: seq<int>, s: int, t: int) {
    PathFromTo(h, p, s, t) && forall q :: PathFromTo(h, q, s, t) ==> |p| <= |q|
  }

  /** `c in p[1:-1]`: `c` occurs on the path other than at its two ends. */
  predicate Interior(p: seq<int>, c: int) {
    |p| >= 2 && c in p[1..|p| - 1]
  }

  /** A node first reached at BFS level `d` has no walk from `s` shorter than `d` steps. */
  lemma ShortestByLevel(h: Adjacency, s: int, t: int, d: nat, q: seq<int>)
    requires d > 0 ==> t !in Ball(h, s, d - 1)
    requires PathFromTo(h, q, s, t)
    ensures |q| >= d + 1
  {
    PathEndInBall(h, q);
    if |q| < d + 1 {
      BallMono(h, s, |q| - 1, d - 1);
    }
  }

  /** When the BFS frontier runs dry before reaching `t`, no walk reaches `t`. */
  lemma UnreachableWhenExhausted(h: Adjacency, s: int, t: int, d: nat)
    requires Sphere(h, s, d) == {} && t !in Ball(h, s, d)
    ensures !Reachable(h, s, t)
  {
    forall q | PathFromTo(h, q, s, t) ensures false {
      NoWalkWhenExhausted(h, s, t, d, q);
    }
  }

  lemma NoWalkWhenExhausted(h: Adjacency, s: int, t: int, d: nat, q: seq<int>)
    requires Sphere(h, s, d) == {} && t !in Ball(h, s, d)
    ensures !PathFromTo(h, q, s, t)
  {
    if PathFromTo(h, q, s, t) {
      PathEndInBall(h, q);
      if |q| - 1 <= d {
        BallMono(h, s, |q| - 1, d);
      } else {
        BallStable(h, s, d, |q| - 1);
      }
    }
  }

  /** `levels[i]` holds the nodes within distance `i` of `s`. */
  ghost predicate BallLevels(h: Adjacency, s: int, levels: seq<set<int>>) {
    forall i :: 0 <= i < |levels| ==> levels[i] == Ball(h, s, i)
  }

  /** `t` is not reached before the last level. */
  ghost predicate NotBefore(t: int, levels: seq<set<int>>) {
    forall i :: 0 <= i < |levels| - 1 ==> t !in levels[i]
  }

  lemma LevelsSnoc(h: Adjacency, s: int, t: int, levels: seq<set<int>>, next: set<int>)
    requires BallLevels(h, s, levels) && NotBefore(t, levels)
    requires |levels| >= 1 && t !in levels[|levels| - 1]
    requires next == Ball(h, s, |levels|)
    ensures BallLevels(h, s, levels + [next]) && NotBefore(t, levels + [next])
  {
  }

  /** One BFS round: the unvisited neighbours of the frontier become the
      next frontier and join the visited set; the search makes progress. */
  method BfsStep(h: Adjacency, s: int, d: nat, visited: set<int>, frontier: set<int>)
    returns (visited': set<int>, frontier': set<int>)
    requires Closed(h) && s in h
    requires visited == Ball(h, s, d) && frontier == Sphere(h, s, d) && frontier != {}
    ensures visited' == Ball(h, s, d + 1) && frontier' == Sphere(h, s, d + 1)
    ensures |visited'| <= |h.Keys|
    ensures |visited'| > |visited| || (visited' == visited && frontier' == {})
  {
    BallInGraph(h, s, d);
    BallStep(h, s, d);
    var next := NeighborsOfSet(h, frontier);
    frontier' := next - visited;
    visited' := visited + frontier';
    BallInGraph(h, s, d + 1);
    CardSubset(visited', h.Keys);
    if frontier' != {} {
      NonEmpty(frontier');
      var x :| x in frontier';
      CardSubset(visited + {x}, visited');
    }
  }

  /** The BFS levels from `s`: `levels[i]` holds the nodes within distance
      `i`; the search stops at the first level holding `t`, or when the
      frontier runs dry. */
  method BfsLevels(h: Adjacency, s: int, t: int) returns (levels: seq<set<int>>)
    requires Closed(h) && s in h
    ensures |levels| >= 1
    ensures BallLevels(h, s, levels) && NotBefore(t, levels)
    ensures t !in levels[|levels| - 1] ==> Sphere(h, s, |levels| - 1) == {}
  {
    var visited := {s};
    var frontier := {s};
    var d := 0;
    levels := [{s}];
    BallInGraph(h, s, 0);
    CardSubset(visited, h.Keys);
    while t !in visited && frontier != {}
      invariant |levels| == d + 1
      invariant BallLevels(h, s, levels) && NotBefore(t, levels)
      invariant visited == levels[d] == Ball(h, s, d)
      invariant frontier == Sphere(h, s, d)
      invariant |visited| <= |h.Keys|
      decreases |h.Keys| - |visited|, |frontier|
    {
      visited, frontier := BfsStep(h, s, d, visited, frontier);
      LevelsSnoc(h, s, t, levels, visited);
      levels := levels + [visited];
      d := d + 1;
    }
  }

  /** Walks back from `t`, first reached at the last level, through one
      predecessor per level, down to `s`. */
  method WalkBack(h: Adjacency, s: int, t: int, levels: seq<set<int>>) returns (path: seq<int>)
    requires |levels| >= 1
    requires BallLevels(h, s, levels) && NotBefore(t, levels)
    requires t in levels[|levels| - 1]
    requires Closed(h) && s in h
    ensures PathFromTo(h, path, s, t) && |path| == |levels|
  {
    var d := |levels| - 1;
    BallInGraph(h, s, d);
    path := [t];
    var cur := t;
    var i := d;
    while i > 0
      invariant 0 <= i <= d
      invariant cur in Sphere(h, s, i)
      invariant PathFromTo(h, path, cur, t)
      invariant |path| == d - i + 1
    {
      ghost var pred := Predecessor(h, s, i - 1, cur);
      assert pred in levels[i - 1] && (i == 1 || pred !in levels[i - 2]);
      var w :| w in levels[i - 1] && (i == 1 || w !in levels[i - 2]) && w in h && cur in h[w];
      var longer := [w] + path;
      assert IsPath(h, longer) by {
        forall j | 0 <= j < |longer| - 1 ensures longer[j + 1] in h[longer[j]] {
          if j > 0 { assert longer[j] == path[j - 1] && longer[j + 1] == path[j]; }
        }
      }
      path, cur, i := longer, w, i - 1;
    }
  }

  /** Breadth-first search from `s`: `None` when `t` cannot be reached (the
      library raises), otherwise one shortest path from `s` to `t`. Ties among
      shortest paths are broken by an unspecified choice of predecessor. */
  method ShortestPath(h: Adjacency, s: int, t: int) returns (r: Option<seq<int>>)
    requires Closed(h) && s in h && t in h
    ensures r.Some? ==> IsShortestPath(h, r.value, s, t)
    ensures r.None? <==> !Reachable(h, s, t)
  {
    var levels := BfsLevels(h, s, t);
    var d := |levels| - 1;
    if t !in levels[d] {
      UnreachableWhenExhausted(h, s, t, d);
      return None;
    }
    var path := WalkBack(h, s, t, levels);
    forall q | PathFromTo(h, q, s, t) ensures |path| <= |q| {
      ShortestByLevel(h, s, t, d, q);
    }
    r := Some(path);
  }

  /** Every slice of a walk is a walk. */
  lemma SliceIsPath(h: Adjacency, p: seq<int>, i: nat, j: nat)
    requires IsPath(h, p) && i < j <= |p|
    ensures IsPath(h, p[i..j])
  {
    var q := p[i..j];
    forall k | 0 <= k < |q| - 1 ensures q[k + 1] in h[q[k]] {
      assert q[k] == p[i + k] && q[k + 1] == p[i + k + 1];
    }
  }

  /** A shortest path never passes through its own endpoints. */
  lemma EndpointsNotInterior(h: Adjacency, p: seq<int>, s: int, t: int)
    requires IsShortestPath(h, p, s, t)
    ensures !Interior(p, s) && !Interior(p, t)
  {
    forall k | 1 <= k < |p| - 1 ensures p[k] != s && p[k] != t {
      SliceIsPath(h, p, k, |p|);
      SliceIsPath(h, p, 0, k + 1);
    }
  }

  // ---------------------------------------------------------------------
  // Local betweenness

  /** The ordered pairs of distinct nodes of `h` of which `node` is one end. */
  ghost function Pairs(h: Adjacency, node: int): set<(int, int)> {
    set s, t | s in h && t in h && s != t && (s == node || t == node) :: (s, t)
  }

  ghost predicate SomeShortestThrough(h: Adjacency, s: int, t: int, c: int) {
    exists p :: IsShortestPath(h, p, s, t) && Interior(p, c)
  }

  ghost predicate EveryShortestThrough(h: Adjacency, s: int, t: int, c: int) {
    Reachable(h, s, t) && forall p :: IsShortestPath(h, p, s, t) ==> Interior(p, c)
  }

  /** Pairs for which `c` is inside at least one shortest path. */
  ghost function OnSomeShortest(h: Adjacency, node: int, c: int): set<(int, int)> {
    set pr | pr in Pairs(h, node) && SomeShortestThrough(h, pr.0, pr.1, c)
  }

  /** Pairs that are connected and for which `c` is inside every shortest path. */
  ghost function OnEveryShortest(h: Adjacency, node: int, c: int): set<(int, int)> {
    set pr | pr in Pairs(h, node) && EveryShortestThrough(h, pr.0, pr.1, c)
  }

  /** `local_betweenness`: over the ordered pairs of distinct nodes of the
      subgraph with `node` at one end, counts those whose chosen shortest path
      has `candidate` strictly inside it; unconnected pairs count nothing.
      Since any shortest path may be chosen, the count lies between the pairs
      all of whose shortest paths go through `candidate` and the pairs some of
      whose shortest paths do. */
  method LocalBetweenness(h: Adjacency, node: int, candidate: int) returns (paths: nat)
    requires Closed(h)
    ensures |OnEveryShortest(h, node, candidate)| <= paths
    ensures paths <= |OnSomeShortest(h, node, candidate)|
  {
    paths := 0;
    ghost var hit: set<(int, int)> := {};
    var srcs := h.Keys;
    while srcs != {}
      invariant srcs <= h.Keys
      invariant hit <= OnSomeShortest(h, node, candidate)
      invariant paths == |hit|
      invariant forall pr :: pr in hit ==> pr.0 !in srcs
      invariant forall pr :: pr in OnEveryShortest(h, node, candidate) && pr.0 !in srcs ==> pr in hit
      decreases srcs
    {
      NonEmpty(srcs);
      var src :| src in srcs;
      var count, fromSrc := CountFrom(h, node, candidate, src);
      assert hit !! fromSrc;
      paths := paths + count;
      hit := hit + fromSrc;
      srcs := srcs - {src};
    }
    CardSubsetPairs(OnEveryShortest(h, node, candidate), hit);
    CardSubsetPairs(hit, OnSomeShortest(h, node, candidate));
  }

  /** The inner loop of `local_betweenness` for one source: counts the
      destinations whose chosen shortest path from `src` has `candidate`
      strictly inside it; `fromSrc` holds the pairs counted. */
  method CountFrom(h: Adjacency, node: int, candidate: int, src: int)
    returns (count: nat, ghost fromSrc: set<(int, int)>)
    requires Closed(h) && src in h
    ensures fromSrc <= OnSomeShortest(h, node, candidate)
    ensures count == |fromSrc|
    ensures forall pr :: pr in fromSrc ==> pr.0 == src
    ensures forall pr :: pr in OnEveryShortest(h, node, candidate) && pr.0 == src ==> pr in fromSrc
    ensures |set pr | pr in OnEveryShortest(h, node, candidate) && pr.0 == src| <= count
    ensures count <= |set pr | pr in OnSomeShortest(h, node, candidate) && pr.0 == src|
  {
    count := 0;
    fromSrc := {};
    var dsts := h.Keys;
    while dsts != {}
      invariant dsts <= h.Keys
      invariant fromSrc <= OnSomeShortest(h, node, candidate)
      invariant count == |fromSrc|
      invariant forall pr :: pr in fromSrc ==> pr.0 == src && pr.1 !in dsts
      invariant forall pr :: pr in OnEveryShortest(h, node, candidate) && pr.0 == src && pr.1 !in dsts ==>
                  pr in fromSrc
      decreases dsts
    {
      NonEmpty(dsts);
      var dst :| dst in dsts;
      if src != dst && (node == src || node == dst) {
        assert (src, dst) in Pairs(h, node);
        var sp := ShortestPath(h, src, dst);
        if sp.Some? && Interior(sp.value, candidate) {
          assert (src, dst) in OnSomeShortest(h, node, candidate);
          count := count + 1;
          fromSrc := fromSrc + {(src, dst)};
        }
      }
      dsts := dsts - {dst};
    }
    ghost var every := set pr | pr in OnEveryShortest(h, node, candidate) && pr.0 == src;
    ghost var some := set pr | pr in OnSomeShortest(h, node, candidate) && pr.0 == src;
    CardSubsetPairs(every, fromSrc);
    CardSubsetPairs(fromSrc, some);
  }

  // ---------------------------------------------------------------------
  // Bounds

  lemma {:induction false} CardPairsFrom(x: int, s: set<int>)
    ensures |set t | t in s :: (x, t)| == |s|
    decreases |s|
  {
    if s != {} {
      NonEmpty(s);
      var y :| y in s;
      CardPairsFrom(x, s - {y});
      assert (set t | t in s :: (x, t)) == (set t | t in s - {y} :: (x, t)) + {(x, y)};
    }
  }

  lemma {:induction false} CardPairsTo(x: int, s: set<int>)
    ensures |set t | t in s :: (t, x)| == |s|
    decreases |s|
  {
    if s != {} {
      NonEmpty(s);
      var y :| y in s;
      CardPairsTo(x, s - {y});
      assert (set t | t in s :: (t, x)) == (set t | t in s - {y} :: (t, x)) + {(y, x)};
    }
  }

  /** There are `2 * (|h| - 1)` ordered pairs with `node` at one end. */
  lemma PairsCount(h: Adjacency, node: int)
    requires node in h
    ensures |Pairs(h, node)| == 2 * (|h.Keys| - 1)
  {
    var others := h.Keys - {node};
    var from := set t | t in others :: (node, t);
    var to := set t | t in others :: (t, node);
    assert Pairs(h, node) == from + to;
    assert from !! to;
    CardPairsFrom(node, others);
    CardPairsTo(node, others);
  }

  /** The score never exceeds the number of ordered pairs that contain `node`. */
  lemma ScoreBound(h: Adjacency, node: int, c: int)
    ensures |OnSomeShortest(h, node, c)| <= |Pairs(h, node)|
  {
    CardSubsetPairs(OnSomeShortest(h, node, c), Pairs(h, node));
  }

  lemma {:induction false} CardSubsetPairs(a: set<(int, int)>, b: set<(int, int)>)
    requires a <= b
    ensures |a| <= |b|
    decreases |b|
  {
    if a != {} {
      var x := PickPair(a);
      CardSubsetPairs(a - {x}, b - {x});
    }
  }

  lemma PickPair(a: set<(int, int)>) returns (x: (int, int))
    requires a != {}
    ensures x in a
  {
    if forall y :: y !in a { assert false; }
    x :| x in a;
  }

  /** The anchor itself, and any node outside the subgraph, never lies
      strictly inside a shortest path of a pair, so both score zero. */
  lemma ZeroForAnchorOrAbsent(h: Adjacency, node: int, c: int)
    requires c == node || c !in h
    ensures OnSomeShortest(h, node, c) == {}
  {
    forall pr | pr in OnSomeShortest(h, node, c) ensures false {
      var p :| IsShortestPath(h, p, pr.0, pr.1) && Interior(p, c);
      if c == node {
        EndpointsNotInterior(h, p, pr.0, pr.1);
      } else {
      }
    }
  }

  /** Cutting out a detour `x - y - x` leaves a walk two steps shorter. */
  lemma CutBounce(h: Adjacency, p: seq<int>, k: int)
    requires IsPath(h, p) && 1 <= k < |p| - 1
    ensures var q := p[..k] + p[k + 2..];
      |q| == |p| - 2 && (p[k - 1] == p[k + 1] ==> PathFromTo(h, q, p[0], p[|p| - 1]))
  {
    var q := p[..k] + p[k + 2..];
    if p[k - 1] == p[k + 1] {
      forall i | 0 <= i < |q| - 1 ensures q[i + 1] in h[q[i]] {
        if i + 1 < k {
          assert q[i] == p[i] && q[i + 1] == p[i + 1];
        } else if i + 1 == k {
          assert q[i] == p[k - 1] == p[k + 1] && q[i + 1] == p[k + 2];
        } else {
          assert q[i] == p[i + 2] && q[i + 1] == p[i + 3];
        }
      }
    }
  }

  /** A shortest path never steps back to the node it just left. */
  lemma ShortestNoBounce(h: Adjacency, p: seq<int>, s: int, t: int, k: int)
    requires IsShortestPath(h, p, s, t) && 1 <= k < |p| - 1
    ensures p[k - 1] != p[k + 1]
  {
    CutBounce(h, p, k);
  }

  /** A node with at most one neighbour lies inside no shortest path, so its
      local betweenness is zero: in a star, no leaf is ever chosen for a leaf. */
  lemma ZeroForLeaf(h: Adjacency, node: int, c: int)
    requires Undirected(h) && c in h && |h[c]| <= 1
    ensures OnSomeShortest(h, node, c) == {}
  {
    forall pr | pr in OnSomeShortest(h, node, c) ensures false {
      var p :| IsShortestPath(h, p, pr.0, pr.1) && Interior(p, c);
      var k :| 1 <= k < |p| - 1 && p[k] == c;
      assert p[k] in h[p[k - 1]] && p[k + 1] in h[p[k]];
      ShortestNoBounce(h, p, pr.0, pr.1, k);
      assert {p[k - 1], p[k + 1]} <= h[c];
      CardSubset({p[k - 1], p[k + 1]}, h[c]);
    }
  }
}
