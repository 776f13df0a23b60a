/**
 * Scored lists and Python's stable `sort(key=score, reverse=True)`, used both
 * for ordering candidates by score and for ranking the nodes.
 */
module Ranking {
  import opened Lists

  /** A (candidate, score) or (node, count) tuple. */
  datatype Scored = Scored(item: int, score: int)

  predicate NonIncreasing(xs: seq<Scored>) {
    forall i, j :: 0 <= i < j < |xs| ==> xs[i].score >= xs[j].score
  }

  function Items(xs: seq<Scored>): (r: seq<int>)
    ensures |r| == |xs| && forall i :: 0 <= i < |xs| ==> r[i] == xs[i].item
  {
    if xs == [] then [] else [xs[0].item] + Items(xs[1..])
  }

  /** The entries with score exactly `k`, in their original order. */
  function WithScore(xs: seq<Scored>, k: int): seq<Scored> {
    if xs == [] then []
    else if xs[0].score == k then [xs[0]] + WithScore(xs[1..], k)
    else WithScore(xs[1..], k)
  }

  /** `[(c, s) for c, s in xs if s >= min]`. */
  function KeepAtLeast(xs: seq<Scored>, min: int): (r: seq<Scored>)
    ensures forall e :: e in r <==> e in xs && e.score >= min
    ensures |r| <= |xs|
  {
    if xs == [] then []
    else if xs[0].score >= min then [xs[0]] + KeepAtLeast(xs[1..], min)
    else KeepAtLeast(xs[1..], min)
  }

  /** Nothing is kept when no entry reaches the minimum. */
  lemma {:induction false} KeepAtLeastNone(xs: seq<Scored>, min: int)
    requires forall e :: e in xs ==> e.score < min
    ensures KeepAtLeast(xs, min) == []
    decreases |xs|
  {
    if xs != [] {
      assert xs[0] in xs;
      KeepAtLeastNone(xs[1..], min);
    }
  }

  /** Places `x` before the first entry whose score is not greater than its own. */
  function Insert(x: Scored, ys: seq<Scored>): (r: seq<Scored>)
    ensures multiset(r) == multiset(ys) + multiset{x}
  {
    if ys == [] then [x]
    else if x.score >= ys[0].score then [x] + ys
    else
      assert ys == [ys[0]] + ys[1..];
      [ys[0]] + Insert(x, ys[1..])
  }

  /** A sorted list stays sorted under a new head that scores at least its first entry. */
  lemma ConsNonIncreasing(y: Scored, r: seq<Scored>)
    requires NonIncreasing(r) && (r == [] || r[0].score <= y.score)
    ensures NonIncreasing([y] + r)
  {
    var s := [y] + r;
    forall i, j | 0 <= i < j < |s| ensures s[i].score >= s[j].score {
      assert s[j] == r[j - 1];
      if i > 0 { assert s[i] == r[i - 1]; }
    }
  }

  lemma {:induction false} InsertNonIncreasing(x: Scored, ys: seq<Scored>)
    requires NonIncreasing(ys)
    ensures NonIncreasing(Insert(x, ys))
    decreases |ys|
  {
    if ys == [] {
    } else if x.score >= ys[0].score {
      ConsNonIncreasing(x, ys);
    } else {
      var tail := ys[1..];
      assert NonIncreasing(tail) by {
        forall i, j | 0 <= i < j < |tail| ensures tail[i].score >= tail[j].score {
          assert tail[i] == ys[i + 1] && tail[j] == ys[j + 1];
        }
      }
      InsertNonIncreasing(x, tail);
      var rest := Insert(x, tail);
      assert rest[0] == x || rest[0] == ys[1];
      ConsNonIncreasing(ys[0], rest);
    }
  }

  /** `xs.sort(key=score, reverse=True)`: a stable sort by non-increasing score. */
  function SortDesc(xs: seq<Scored>): (r: seq<Scored>)
    ensures NonIncreasing(r)
    ensures multiset(r) == multiset(xs)
  {
    if xs == [] then []
    else
      assert xs == [xs[0]] + xs[1..];
      InsertNonIncreasing(xs[0], SortDesc(xs[1..]));
      Insert(xs[0], SortDesc(xs[1..]))
  }

  // ---------------------------------------------------------------------
  // Stability

  lemma {:induction false} InsertWithScore(x: Scored, ys: seq<Scored>, k: int)
    requires NonIncreasing(ys)
    ensures WithScore(Insert(x, ys), k) ==
              if x.score == k then [x] + WithScore(ys, k) else WithScore(ys, k)
    decreases |ys|
  {
    if ys != [] && x.score < ys[0].score {
      InsertWithScore(x, ys[1..], k);
      var r := Insert(x, ys);
      assert r[0] == ys[0] && r[1..] == Insert(x, ys[1..]);
    }
  }

  /** Entries of equal score keep their original relative order. */
  lemma {:induction false} SortDescStable(xs: seq<Scored>, k: int)
    ensures WithScore(SortDesc(xs), k) == WithScore(xs, k)
    decreases |xs|
  {
    if xs != [] {
      SortDescStable(xs[1..], k);
      InsertWithScore(xs[0], SortDesc(xs[1..]), k);
    }
  }

  /** The multiset of the items of `xs`. */
  ghost function ItemBag(xs: seq<Scored>): multiset<int> {
    if xs == [] then multiset{} else multiset{xs[0].item} + ItemBag(xs[1..])
  }

  lemma {:induction false} ItemBagOfItems(xs: seq<Scored>)
    ensures multiset(Items(xs)) == ItemBag(xs)
    decreases |xs|
  {
    if xs != [] {
      ItemBagOfItems(xs[1..]);
      assert Items(xs) == [xs[0].item] + Items(xs[1..]);
    }
  }

  lemma {:induction false} InsertItemBag(x: Scored, ys: seq<Scored>)
    ensures ItemBag(Insert(x, ys)) == ItemBag(ys) + multiset{x.item}
    decreases |ys|
  {
    var r := Insert(x, ys);
    if ys == [] {
      assert r == [x];
    } else if x.score >= ys[0].score {
      assert r[0] == x && r[1..] == ys;
    } else {
      InsertItemBag(x, ys[1..]);
      assert r[0] == ys[0] && r[1..] == Insert(x, ys[1..]);
    }
  }

  lemma {:induction false} SortDescItemBag(xs: seq<Scored>)
    ensures ItemBag(SortDesc(xs)) == ItemBag(xs)
    decreases |xs|
  {
    if xs != [] {
      SortDescItemBag(xs[1..]);
      InsertItemBag(xs[0], SortDesc(xs[1..]));
    }
  }

  /** Sorting permutes the items. */
  lemma SortDescItems(xs: seq<Scored>)
    ensures multiset(Items(SortDesc(xs))) == multiset(Items(xs))
  {
    SortDescItemBag(xs);
    ItemBagOfItems(xs);
    ItemBagOfItems(SortDesc(xs));
  }

  /** Entries of `a` that all occur in `b` have items that all occur in `Items(b)`. */
  lemma ItemsMono(a: seq<Scored>, b: seq<Scored>)
    requires forall e :: e in a ==> e in b
    ensures forall c :: c in Items(a) ==> c in Items(b)
  {
    forall c | c in Items(a) ensures c in Items(b) {
      var i :| 0 <= i < |a| && Items(a)[i] == c;
      assert a[i] in b;
      var k :| 0 <= k < |b| && b[k] == a[i];
      assert Items(b)[k] == c;
    }
  }

  // ---------------------------------------------------------------------
  // Filtering then sorting

  lemma {:induction false} KeepAtLeastNoDup(xs: seq<Scored>, min: int)
    requires NoDup(Items(xs))
    ensures NoDup(Items(KeepAtLeast(xs, min)))
    decreases |xs|
  {
    if xs != [] {
      var tail := xs[1..];
      assert Items(xs) == [xs[0].item] + Items(tail);
      NoDupCons(xs[0].item, Items(tail));
      KeepAtLeastNoDup(tail, min);
      if xs[0].score >= min {
        var rest := KeepAtLeast(tail, min);
        assert Items(KeepAtLeast(xs, min)) == Items([xs[0]] + rest) == [xs[0].item] + Items(rest);
        ItemsMono(rest, tail);
        NoDupCons(xs[0].item, Items(rest));
      }
    }
  }

  /** Filtering by a minimum score and sorting: the result is ordered by
      non-increasing score, holds exactly the entries that reach the minimum,
      and repeats no item. */
  lemma SortedSelection(xs: seq<Scored>, min: int)
    requires NoDup(Items(xs))
    ensures NonIncreasing(SortDesc(KeepAtLeast(xs, min)))
    ensures forall e :: e in SortDesc(KeepAtLeast(xs, min)) <==> e in xs && e.score >= min
    ensures NoDup(Items(SortDesc(KeepAtLeast(xs, min))))
  {
    var kept := KeepAtLeast(xs, min);
    var plan := SortDesc(kept);
    forall e ensures e in plan <==> e in kept {
      assert e in plan <==> e in multiset(plan);
      assert e in kept <==> e in multiset(kept);
    }
    KeepAtLeastNoDup(xs, min);
    SortDescItems(kept);
    NoDupPermutation(Items(kept), Items(plan));
  }
}
