/** Facts about duplicate-free sequences (Python lists built from sets). */
module Lists {
  ghost predicate NoDup(s: seq<int>) {
    forall i, j :: 0 <= i < j < |s| ==> s[i] != s[j]
  }

  lemma {:induction false} NoDupAtMostOnce(s: seq<int>, x: int)
    requires NoDup(s)
    ensures multiset(s)[x] <= 1
    decreases |s|
  {
    if s != [] {
      assert s == [s[0]] + s[1..];
      NoDupAtMostOnce(s[1..], x);
      if s[0] == x {
        assert x !in s[1..];
      }
    }
  }

  /** Prepending keeps a sequence duplicate-free exactly when the new element is new. */
  lemma NoDupCons(x: int, s: seq<int>)
    ensures NoDup([x] + s) <==> x !in s && NoDup(s)
  {
    var r := [x] + s;
    if x !in s && NoDup(s) {
      forall i, j | 0 <= i < j < |r| ensures r[i] != r[j] {
        assert r[j] == s[j - 1];
        if i > 0 { assert r[i] == s[i - 1]; }
      }
    }
    if NoDup(r) {
      forall i, j | 0 <= i < j < |s| ensures s[i] != s[j] {
        assert s[i] == r[i + 1] && s[j] == r[j + 1];
      }
      forall k | 0 <= k < |s| ensures s[k] != x {
        assert s[k] == r[k + 1] && x == r[0];
      }
    }
  }

  /** A permutation of a duplicate-free sequence is duplicate-free. */
  lemma NoDupPermutation(a: seq<int>, b: seq<int>)
    requires NoDup(a) && multiset(a) == multiset(b)
    ensures NoDup(b)
  {
    forall i, j | 0 <= i < j < |b| ensures b[i] != b[j] {
      if b[i] == b[j] {
        var x := b[i];
        assert b == b[..i] + [b[i]] + b[i + 1..j] + [b[j]] + b[j + 1..];
        assert multiset(b)[x] >= 2;
        NoDupAtMostOnce(a, x);
      }
    }
  }

  /** A duplicate-free sequence is as long as the set of its elements is large. */
  lemma {:induction false} NoDupCard(s: seq<int>)
    requires NoDup(s)
    ensures |set x | x in s| == |s|
    decreases |s|
  {
    if s != [] {
      NoDupCard(s[1..]);
      assert (set x | x in s) == (set x | x in s[1..]) + {s[0]};
      assert s[0] !in s[1..];
    }
  }

  /** The position of the first occurrence of `x` in `s`. */
  function IndexOf(s: seq<int>, x: int): (i: nat)
    requires x in s
    ensures i < |s| && s[i] == x && x !in s[..i]
  {
    if s[0] == x then 0
    else
      assert x in s[1..];
      IndexOf(s[1..], x) + 1
  }

  /** In a duplicate-free sequence every element sits at its own first position. */
  lemma IndexOfNoDup(s: seq<int>, i: int)
    requires NoDup(s) && 0 <= i < |s|
    ensures IndexOf(s, s[i]) == i
  {
    var j := IndexOf(s, s[i]);
    forall k | 0 <= k < j ensures s[k] != s[i] {
      assert s[k] == s[..j][k];
    }
  }
}
