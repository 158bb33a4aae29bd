/** Cardinalities of the values of a sequence. */
module Counting {
  function SetOf<T(==)>(xs: seq<T>): set<T> {
    set x | x in xs
  }

  lemma SetOfPush<T>(xs: seq<T>, x: T)
    ensures SetOf(xs + [x]) == SetOf(xs) + {x}
    ensures |SetOf(xs + [x])| == |SetOf(xs)| + if x in xs then 0 else 1
  {
    assert SetOf(xs + [x]) == SetOf(xs) + {x};
    assert x in SetOf(xs) <==> x in xs;
    if x in xs {
      assert SetOf(xs) + {x} == SetOf(xs);
    }
  }

  /** If equal ys only ever come with equal xs, there are no more xs than ys. */
  lemma {:induction false} DeterminedCount<X, Y>(xs: seq<X>, ys: seq<Y>)
    requires |xs| == |ys|
    requires forall i, j :: 0 <= i < j < |ys| && ys[i] == ys[j] ==> xs[i] == xs[j]
    ensures |SetOf(xs)| <= |SetOf(ys)|
  {
    if |xs| > 0 {
      var n := |xs| - 1;
      DeterminedCount(xs[..n], ys[..n]);
      PrefixCount(xs, n);
      PrefixCount(ys, n);
      if ys[n] in ys[..n] {
        var i :| 0 <= i < n && ys[..n][i] == ys[n];
        assert xs[n] == xs[..n][i];
      }
    }
  }

  lemma PrefixCount<T>(xs: seq<T>, n: nat)
    requires n + 1 == |xs|
    ensures |SetOf(xs)| == |SetOf(xs[..n])| + if xs[n] in xs[..n] then 0 else 1
  {
    SetOfPush(xs[..n], xs[n]);
    assert xs == xs[..n] + [xs[n]];
  }

  /** The set has one member per position exactly when the items are pairwise distinct. */
  lemma {:induction false} DistinctCount<T>(xs: seq<T>)
    ensures |SetOf(xs)| <= |xs|
    ensures |SetOf(xs)| == |xs| <==> forall i, j :: 0 <= i < j < |xs| ==> xs[i] != xs[j]
  {
    if |xs| > 0 {
      var n := |xs| - 1;
      var front := xs[..n];
      DistinctCount(front);
      PrefixCount(xs, n);
      if xs[n] in front {
        var i :| 0 <= i < n && front[i] == xs[n];
        assert xs[i] == xs[n];
      } else {
        assert forall i :: 0 <= i < n ==> front[i] == xs[i];
      }
    }
  }

  /** The numbers below n. */
  function Below(n: nat): (s: set<nat>)
    ensures |s| == n
    ensures forall i: nat :: i in s <==> i < n
  {
    if n == 0 then {} else Below(n - 1) + {n - 1}
  }

  lemma SubsetCount<T>(s: set<T>, t: set<T>)
    requires s <= t
    ensures |s| <= |t| && |t - s| == |t| - |s|
  {
    assert s + (t - s) == t;
  }

  lemma UnionCount<T>(s: set<T>, t: set<T>)
    ensures |s + t| <= |s| + |t|
  {
    assert s + t == s + (t - s);
    SubsetCount(t * s, t);
    assert t - t * s == t - s;
  }
}
