/** Order-preserving selection from a sequence, shared by the list
    endpoint, the delete endpoint and the client-side delete. */
module Seqs {

  /** `a` is `b` with some elements deleted: relative order is kept. */
  ghost predicate IsSubsequence<T>(a: seq<T>, b: seq<T>)
    decreases |b|
  {
    a == [] || (b != [] && ((a[0] == b[0] && IsSubsequence(a[1..], b[1..])) || IsSubsequence(a, b[1..])))
  }

  /** Every element of a subsequence occurs in the sequence. */
  lemma {:induction false} SubsequenceMembers<T>(a: seq<T>, b: seq<T>)
    requires IsSubsequence(a, b)
    ensures forall x :: x in a ==> x in b
    decreases |b|
  {
    if a != [] {
      if a[0] == b[0] && IsSubsequence(a[1..], b[1..]) {
        SubsequenceMembers(a[1..], b[1..]);
        assert forall x :: x in a ==> x == a[0] || x in a[1..];
      } else {
        SubsequenceMembers(a, b[1..]);
      }
    }
  }

  /** `xs.filter(keep)`: the elements that pass, in order. The lemmas
      below say which elements those are and how often each occurs. */
  function Filter<T>(xs: seq<T>, keep: T -> bool): (r: seq<T>)
    ensures |r| <= |xs|
  {
    if xs == [] then []
    else if keep(xs[0]) then [xs[0]] + Filter(xs[1..], keep)
    else Filter(xs[1..], keep)
  }

  /** Each element that passes occurs as often as in `xs`; the others not at all. */
  lemma {:induction false} FilterMultiset<T(!new)>(xs: seq<T>, keep: T -> bool)
    ensures forall x :: multiset(Filter(xs, keep))[x] == if keep(x) then multiset(xs)[x] else 0
  {
    if xs != [] {
      FilterMultiset(xs[1..], keep);
      assert xs == [xs[0]] + xs[1..];
      assert multiset(xs) == multiset{xs[0]} + multiset(xs[1..]);
    }
  }

  /** The filter keeps the order of `xs`. */
  lemma {:induction false} FilterSubsequence<T>(xs: seq<T>, keep: T -> bool)
    ensures IsSubsequence(Filter(xs, keep), xs)
  {
    if xs != [] {
      FilterSubsequence(xs[1..], keep);
      if keep(xs[0]) {
        var r := [xs[0]] + Filter(xs[1..], keep);
        assert r[0] == xs[0] && r[1..] == Filter(xs[1..], keep);
      }
    }
  }

  /** Every element left by the filter passes it. */
  lemma {:induction false} FilterPasses<T>(xs: seq<T>, keep: T -> bool)
    ensures forall k :: 0 <= k < |Filter(xs, keep)| ==> keep(Filter(xs, keep)[k])
  {
    if xs != [] {
      FilterPasses(xs[1..], keep);
      var rest := Filter(xs[1..], keep);
      if keep(xs[0]) {
        assert Filter(xs, keep) == [xs[0]] + rest;
      } else {
        assert Filter(xs, keep) == rest;
      }
    }
  }

  /** When every element passes, the filter changes nothing. */
  lemma {:induction false} FilterAllPass<T>(xs: seq<T>, keep: T -> bool)
    requires forall k :: 0 <= k < |xs| ==> keep(xs[k])
    ensures Filter(xs, keep) == xs
  {
    if xs != [] {
      assert keep(xs[0]);
      assert forall k :: 0 <= k < |xs| - 1 ==> xs[1..][k] == xs[k + 1];
      FilterAllPass(xs[1..], keep);
      assert xs == [xs[0]] + xs[1..];
    }
  }

  /** When exactly one element fails, the filter is one shorter. */
  lemma {:induction false} FilterDropsOne<T>(xs: seq<T>, keep: T -> bool, k: int)
    requires 0 <= k < |xs| && !keep(xs[k])
    requires forall m :: 0 <= m < |xs| && m != k ==> keep(xs[m])
    ensures |Filter(xs, keep)| == |xs| - 1
  {
    assert forall m :: 0 <= m < |xs| - 1 ==> xs[1..][m] == xs[m + 1];
    if k == 0 {
      FilterAllPass(xs[1..], keep);
    } else {
      assert keep(xs[0]);
      FilterDropsOne(xs[1..], keep, k - 1);
    }
  }

  /** Membership in the filtered sequence. */
  lemma FilterMembers<T(!new)>(xs: seq<T>, keep: T -> bool)
    ensures forall x :: x in Filter(xs, keep) <==> x in xs && keep(x)
  {
    var r := Filter(xs, keep);
    FilterMultiset(xs, keep);
    forall x ensures x in r <==> x in xs && keep(x) {
      assert x in r <==> multiset(r)[x] > 0;
      assert x in xs <==> multiset(xs)[x] > 0;
    }
  }

  /** Two tests that agree on every element select the same elements. */
  lemma {:induction false} FilterCongruent<T>(xs: seq<T>, keep: T -> bool, keep': T -> bool)
    requires forall k :: 0 <= k < |xs| ==> keep(xs[k]) == keep'(xs[k])
    ensures Filter(xs, keep) == Filter(xs, keep')
  {
    if xs != [] {
      assert keep(xs[0]) == keep'(xs[0]);
      forall k | 0 <= k < |xs[1..]| ensures keep(xs[1..][k]) == keep'(xs[1..][k]) {
        assert xs[1..][k] == xs[k + 1];
      }
      FilterCongruent(xs[1..], keep, keep');
    }
  }
}
