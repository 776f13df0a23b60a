/**
 * GraphStore: an undirected graph as adjacency sets keyed by node id, the
 * edge insertion the augmentation performs, and the neighbourhood notions
 * (k-hop balls, walks) the other components are specified with.
 */
module Graph {
  type Adjacency = map<int, set<int>>

  /** Every neighbour of a node is itself a node of the graph. */
  ghost predicate Closed(g: Adjacency) {
    forall u, v :: u in g && v in g[u] ==> v in g
  }

  /** Adjacency is symmetric: the representation of an undirected graph. */
  ghost predicate Undirected(g: Adjacency) {
    forall u, v :: u in g && v in g[u] ==> v in g && u in g[v]
  }

  /** `G.neighbors(v)` for a node of the graph; the empty set otherwise. */
  function Neighbors(g: Adjacency, v: int): set<int> {
    if v in g then g[v] else {}
  }

  /** All nodes adjacent to some node of `s`. */
  function Adj(g: Adjacency, s: set<int>): set<int> {
    set w, u | w in s && w in g && u in g[w] :: u
  }

  /** `G.add_edge(u, v)` on two existing nodes: both adjacency sets gain the other endpoint. */
  function AddEdge(g: Adjacency, u: int, v: int): (r: Adjacency)
    requires u in g && v in g
    ensures r.Keys == g.Keys
    ensures r[u] == g[u] + {v} && r[v] == g[v] + {u}
    ensures forall w :: w in g && w != u && w != v ==> r[w] == g[w]
  {
    g[u := g[u] + {v}][v := g[v] + {u}]
  }

  /** The undirected edges, each once, as (smaller, larger) pairs. */
  function EdgeSet(g: Adjacency): set<(int, int)> {
    set u, v | u in g && v in g[u] && u <= v :: (u, v)
  }

  /** `G.number_of_edges()`. */
  function EdgeCount(g: Adjacency): nat {
    |EdgeSet(g)|
  }

  function Norm(u: int, v: int): (int, int) {
    if u <= v then (u, v) else (v, u)
  }

  /** The subgraph induced on `s` (`G.subgraph(s)`): nodes of `s` in `g`, edges between them. */
  function Induced(g: Adjacency, s: set<int>): (h: Adjacency)
    ensures h.Keys == s * g.Keys
    ensures forall u :: u in h ==> h[u] == g[u] * s
  {
    map u | u in s && u in g :: g[u] * s
  }

  /** The nodes at distance at most `k` from `v`, defined level by level. */
  ghost function Ball(g: Adjacency, v: int, k: nat): set<int>
    decreases k
  {
    if k == 0 then {v} else Ball(g, v, k - 1) + Adj(g, Ball(g, v, k - 1))
  }

  /** The nodes at distance exactly `k` from `v`: the BFS frontier after `k` rounds. */
  ghost function Sphere(g: Adjacency, v: int, k: nat): set<int> {
    if k == 0 then {v} else Ball(g, v, k) - Ball(g, v, k - 1)
  }

  /** A walk through `g`: at least one node, each step along an edge. */
  ghost predicate IsPath(g: Adjacency, p: seq<int>) {
    && |p| >= 1
    && (forall i :: 0 <= i < |p| ==> p[i] in g)
    && (forall i :: 0 <= i < |p| - 1 ==> p[i + 1] in g[p[i]])
  }

  ghost predicate PathFromTo(g: Adjacency, p: seq<int>, s: int, t: int) {
    IsPath(g, p) && p[0] == s && p[|p| - 1] == t
  }

  ghost predicate Reachable(g: Adjacency, s: int, t: int) {
    exists p :: PathFromTo(g, p, s, t)
  }

  /** `t` can be reached from `s` in at most `k` steps. */
  ghost predicate WithinDistance(g: Adjacency, s: int, t: int, k: nat) {
    exists p :: PathFromTo(g, p, s, t) && |p| <= k + 1
  }

  /** A non-empty set has an element (lets `:|` pick one). */
  lemma NonEmpty(s: set<int>)
    requires s != {}
    ensures exists x :: x in s
  {
    if forall x :: x !in s { assert false; }
  }

  /** A subset is no larger than its superset. */
  lemma {:induction false} CardSubset(a: set<int>, b: set<int>)
    requires a <= b
    ensures |a| <= |b|
    decreases |b|
  {
    if a != {} {
      NonEmpty(a);
      var x :| x in a;
      CardSubset(a - {x}, b - {x});
    }
  }

  // ---------------------------------------------------------------------
  // Adjacency of sets

  lemma AdjIntro(g: Adjacency, s: set<int>, w: int, u: int)
    requires w in s && w in g && u in g[w]
    ensures u in Adj(g, s)
  {
  }

  lemma AdjUnion(g: Adjacency, a: set<int>, b: set<int>)
    ensures Adj(g, a + b) == Adj(g, a) + Adj(g, b)
  {
    forall u | u in Adj(g, a + b) ensures u in Adj(g, a) + Adj(g, b) {
      var w :| w in a + b && w in g && u in g[w];
      if w in a { assert u in Adj(g, a); } else { assert u in Adj(g, b); }
    }
  }

  lemma AdjOne(g: Adjacency, a: set<int>, n: int)
    requires n in g
    ensures Adj(g, a + {n}) == Adj(g, a) + g[n]
  {
    AdjUnion(g, a, {n});
    forall u | u in g[n] ensures u in Adj(g, {n}) { }
  }

  lemma AdjClosed(g: Adjacency, s: set<int>)
    requires Closed(g)
    ensures Adj(g, s) <= g.Keys
  {
  }

  /** The union of `G.neighbors(n)` over the nodes `n` of `s`, gathered one node at a time. */
  method NeighborsOfSet(g: Adjacency, s: set<int>) returns (r: set<int>)
    requires s <= g.Keys
    ensures r == Adj(g, s)
  {
    r := {};
    var rest := s;
    while rest != {}
      invariant rest <= s
      invariant r == Adj(g, s - rest)
      decreases rest
    {
      NonEmpty(rest);
      var n :| n in rest;
      AdjOne(g, s - rest, n);
      assert s - (rest - {n}) == (s - rest) + {n};
      r := r + g[n];
      rest := rest - {n};
    }
    assert s - rest == s;
  }

  // ---------------------------------------------------------------------
  // Balls and spheres

  lemma {:induction false} BallMono(g: Adjacency, v: int, i: nat, j: nat)
    requires i <= j
    ensures Ball(g, v, i) <= Ball(g, v, j)
    decreases j
  {
    if i < j {
      BallMono(g, v, i, j - 1);
    }
  }

  lemma {:induction false} BallInGraph(g: Adjacency, v: int, k: nat)
    requires Closed(g) && v in g
    ensures Ball(g, v, k) <= g.Keys
  {
    if k > 0 {
      BallInGraph(g, v, k - 1);
      AdjClosed(g, Ball(g, v, k - 1));
    }
  }

  /** One BFS round: the next frontier is the neighbourhood of the current
      frontier minus what is already visited, and the ball grows by it. */
  lemma BallStep(g: Adjacency, v: int, k: nat)
    ensures Sphere(g, v, k) <= Ball(g, v, k)
    ensures Sphere(g, v, k + 1) == Adj(g, Sphere(g, v, k)) - Ball(g, v, k)
    ensures Ball(g, v, k + 1) == Ball(g, v, k) + Sphere(g, v, k + 1)
  {
    BallMono(g, v, k, k + 1);
    if k > 0 {
      BallMono(g, v, k - 1, k);
      var prev, cur := Ball(g, v, k - 1), Ball(g, v, k);
      assert cur == prev + Sphere(g, v, k);
      AdjUnion(g, prev, Sphere(g, v, k));
      assert Adj(g, prev) <= cur;
    }
  }

  /** Once a frontier is empty, the ball never grows again. */
  lemma {:induction false} BallStable(g: Adjacency, v: int, k: nat, j: nat)
    requires Sphere(g, v, k) == {}
    requires k <= j
    ensures Ball(g, v, j) == Ball(g, v, k)
    ensures Sphere(g, v, j) == {}
    decreases j - k
  {
    if k < j {
      BallStep(g, v, k);
      assert Adj(g, Sphere(g, v, k)) == {};
      BallStable(g, v, k + 1, j);
    }
  }

  /** A predecessor of a node first reached at level `k + 1` lies at level `k`. */
  lemma Predecessor(g: Adjacency, v: int, k: nat, u: int) returns (w: int)
    requires u in Sphere(g, v, k + 1)
    ensures w in Sphere(g, v, k) && w in g && u in g[w]
  {
    BallStep(g, v, k);
    w :| w in Sphere(g, v, k) && w in g && u in g[w];
  }

  // ---------------------------------------------------------------------
  // Walks and distance

  /** The end of every walk of `n` steps from `s` lies within the ball of radius `n`. */
  lemma {:induction false} PathEndInBall(g: Adjacency, p: seq<int>)
    requires IsPath(g, p)
    ensures p[|p| - 1] in Ball(g, p[0], |p| - 1)
    decreases |p|
  {
    if |p| > 1 {
      var q := p[..|p| - 1];
      assert IsPath(g, q);
      PathEndInBall(g, q);
      var w := q[|q| - 1];
      assert q[0] == p[0] && w == p[|p| - 2];
      assert w in Ball(g, p[0], |p| - 2) && w in g && p[|p| - 1] in g[w];
      AdjIntro(g, Ball(g, p[0], |p| - 2), w, p[|p| - 1]);
    }
  }

  /** Every node of the ball of radius `k` is reached by a walk of at most `k` steps. */
  lemma {:induction false} BallHasPath(g: Adjacency, v: int, k: nat, u: int) returns (p: seq<int>)
    requires Closed(g) && v in g && u in Ball(g, v, k)
    ensures PathFromTo(g, p, v, u) && |p| <= k + 1
    decreases k
  {
    if k == 0 {
      p := [v];
    } else if u in Ball(g, v, k - 1) {
      p := BallHasPath(g, v, k - 1, u);
    } else {
      var w :| w in Ball(g, v, k - 1) && w in g && u in g[w];
      var q := BallHasPath(g, v, k - 1, w);
      p := q + [u];
      assert IsPath(g, p) by {
        forall i | 0 <= i < |p| - 1 ensures p[i + 1] in g[p[i]] {
          if i < |q| - 1 { assert p[i] == q[i] && p[i + 1] == q[i + 1]; }
        }
      }
    }
  }

  /** The ball of radius `k` is exactly the set of nodes within distance `k`. */
  lemma BallIsWithinDistance(g: Adjacency, v: int, k: nat, u: int)
    requires Closed(g) && v in g
    ensures u in Ball(g, v, k) <==> WithinDistance(g, v, u, k)
  {
    if u in Ball(g, v, k) {
      var p := BallHasPath(g, v, k, u);
    }
    if WithinDistance(g, v, u, k) {
      var p :| PathFromTo(g, p, v, u) && |p| <= k + 1;
      PathEndInBall(g, p);
      BallMono(g, v, |p| - 1, k);
    }
  }

  // ---------------------------------------------------------------------
  // Induced subgraphs

  lemma InducedUndirected(g: Adjacency, s: set<int>)
    requires Undirected(g)
    ensures Undirected(Induced(g, s)) && Closed(Induced(g, s))
  {
  }

  // ---------------------------------------------------------------------
  // Edge insertion

  lemma AddEdgeUndirected(g: Adjacency, u: int, v: int)
    requires Undirected(g) && u in g && v in g
    ensures Undirected(AddEdge(g, u, v))
  {
  }

  /** Inserting an absent edge between distinct nodes adds exactly one edge. */
  lemma AddEdgeCount(g: Adjacency, u: int, v: int)
    requires Undirected(g) && u in g && v in g && u != v && v !in g[u]
    ensures EdgeSet(AddEdge(g, u, v)) == EdgeSet(g) + {Norm(u, v)}
    ensures Norm(u, v) !in EdgeSet(g)
    ensures EdgeCount(AddEdge(g, u, v)) == EdgeCount(g) + 1
  {
    var r := AddEdge(g, u, v);
    forall e | e in EdgeSet(r) ensures e in EdgeSet(g) + {Norm(u, v)} {
      var a, b := e.0, e.1;
      assert a in r && b in r[a] && a <= b;
      if e != Norm(u, v) {
        assert b in g[a];
      }
    }
    forall e | e in EdgeSet(g) + {Norm(u, v)} ensures e in EdgeSet(r) {
      if e == Norm(u, v) {
        if u <= v { assert v in r[u]; } else { assert u in r[v]; }
      } else {
        assert e.1 in r[e.0];
      }
    }
  }

  // ---------------------------------------------------------------------
  // A run of insertions

  /** The graph after inserting the edges of `es`, in order. */
  ghost function WithEdges(g: Adjacency, es: seq<(int, int)>): Adjacency
    decreases |es|
  {
    if es == [] then g
    else
      var h := WithEdges(g, es[..|es| - 1]);
      var e := es[|es| - 1];
      if e.0 in h && e.1 in h then AddEdge(h, e.0, e.1) else h
  }

  /** Each edge of `es` joins two distinct nodes and was absent when it was inserted. */
  ghost predicate NewEdges(g: Adjacency, es: seq<(int, int)>)
    decreases |es|
  {
    es == [] ||
    (NewEdges(g, es[..|es| - 1]) &&
     var h := WithEdges(g, es[..|es| - 1]);
     var e := es[|es| - 1];
     e.0 in h && e.1 in h && e.0 != e.1 && e.1 !in h[e.0])
  }

  lemma WithEdgesSnoc(g: Adjacency, es: seq<(int, int)>, u: int, v: int)
    requires u in WithEdges(g, es) && v in WithEdges(g, es)
    ensures WithEdges(g, es + [(u, v)]) == AddEdge(WithEdges(g, es), u, v)
    ensures NewEdges(g, es + [(u, v)]) <==>
              NewEdges(g, es) && u != v && v !in WithEdges(g, es)[u]
  {
    assert (es + [(u, v)])[..|es|] == es;
  }

  /** Inserting fresh edges keeps the graph undirected, keeps its node set,
      only ever adds to adjacency sets, and adds exactly one edge per insertion. */
  lemma {:induction false} WithEdgesFacts(g: Adjacency, es: seq<(int, int)>)
    requires Undirected(g) && NewEdges(g, es)
    ensures Undirected(WithEdges(g, es))
    ensures WithEdges(g, es).Keys == g.Keys
    ensures EdgeCount(WithEdges(g, es)) == EdgeCount(g) + |es|
    ensures forall u :: u in g ==> g[u] <= WithEdges(g, es)[u]
    decreases |es|
  {
    if es != [] {
      var init := es[..|es| - 1];
      var e := es[|es| - 1];
      WithEdgesFacts(g, init);
      var h := WithEdges(g, init);
      AddEdgeUndirected(h, e.0, e.1);
      AddEdgeCount(h, e.0, e.1);
    }
  }

  /** Every inserted edge is present afterwards, in both directions, and is no self-loop. */
  lemma {:induction false} WithEdgesPresent(g: Adjacency, es: seq<(int, int)>)
    requires Undirected(g) && NewEdges(g, es)
    ensures forall i :: 0 <= i < |es| ==>
              var h := WithEdges(g, es);
              es[i].0 != es[i].1 && es[i].0 in h && es[i].1 in h &&
              es[i].1 in h[es[i].0] && es[i].0 in h[es[i].1]
    decreases |es|
  {
    if es != [] {
      var init := es[..|es| - 1];
      var e := es[|es| - 1];
      WithEdgesPresent(g, init);
      WithEdgesFacts(g, init);
      var h := WithEdges(g, init);
      var r := WithEdges(g, es);
      assert r == AddEdge(h, e.0, e.1);
      forall i | 0 <= i < |es|
        ensures es[i].0 != es[i].1 && es[i].0 in r && es[i].1 in r &&
                es[i].1 in r[es[i].0] && es[i].0 in r[es[i].1]
      {
        if i < |init| { assert es[i] == init[i]; }
      }
    }
  }

  /** No edge appears except the original ones and the inserted ones. */
  lemma {:induction false} WithEdgesOnly(g: Adjacency, es: seq<(int, int)>)
    requires Undirected(g) && NewEdges(g, es)
    ensures forall u, v :: u in WithEdges(g, es) && v in WithEdges(g, es)[u] ==>
              (u in g && v in g[u]) || (u, v) in es || (v, u) in es
    decreases |es|
  {
    if es != [] {
      var init := es[..|es| - 1];
      var e := es[|es| - 1];
      WithEdgesOnly(g, init);
      WithEdgesFacts(g, init);
      var h := WithEdges(g, init);
      var r := WithEdges(g, es);
      assert r == AddEdge(h, e.0, e.1);
      forall u, v | u in r && v in r[u] ensures (u in g && v in g[u]) || (u, v) in es || (v, u) in es {
        if v !in h[u] {
          assert (u, v) == e || (v, u) == e;
        } else if !(u in g && v in g[u]) {
          assert (u, v) in init || (v, u) in init;
        }
      }
    }
  }

  // ---------------------------------------------------------------------
  // Reachability

  lemma ReachableEdge(g: Adjacency, u: int, v: int)
    requires u in g && v in g && v in g[u]
    ensures Reachable(g, u, v)
  {
    assert PathFromTo(g, [u, v], u, v);
  }

  /** In an undirected graph a walk can be followed backwards. */
  lemma ReachableSym(g: Adjacency, s: int, t: int)
    requires Undirected(g) && Reachable(g, s, t)
    ensures Reachable(g, t, s)
  {
    var p :| PathFromTo(g, p, s, t);
    var q := seq(|p|, i requires 0 <= i < |p| => p[|p| - 1 - i]);
    forall i | 0 <= i < |q| ensures q[i] in g {
      assert q[i] == p[|p| - 1 - i];
    }
    forall i | 0 <= i < |q| - 1 ensures q[i] in g && q[i + 1] in g[q[i]] {
      var j := |p| - 2 - i;
      assert q[i] == p[j + 1] && q[i + 1] == p[j];
      assert p[j + 1] in g[p[j]];
    }
    assert PathFromTo(g, q, t, s);
  }

  lemma ReachableTrans(g: Adjacency, s: int, t: int, r: int)
    requires Reachable(g, s, t) && Reachable(g, t, r)
    ensures Reachable(g, s, r)
  {
    var p :| PathFromTo(g, p, s, t);
    var q :| PathFromTo(g, q, t, r);
    var pq := p + q[1..];
    forall i | 0 <= i < |pq| - 1 ensures pq[i + 1] in g[pq[i]] {
      if i < |p| - 1 {
        assert pq[i] == p[i] && pq[i + 1] == p[i + 1];
      } else {
        assert pq[i] == q[i - |p| + 1] && pq[i + 1] == q[i - |p| + 2];
      }
    }
    assert PathFromTo(g, pq, s, r);
  }
}
