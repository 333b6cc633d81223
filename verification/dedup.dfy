/** First-occurrence de-duplication by a key, the shape shared by
    `Array.from(new Set(...))` on the home page and by the scraper's
    `seen_job_identifiers` / `seen_jobs` sets. */
module Dedup {
  import opened Seqs

  /** `xs[i]` is the first element of `xs` carrying its key. */
  ghost predicate FirstOfKey<T, K>(xs: seq<T>, key: T -> K, i: int) {
    0 <= i < |xs| && forall j :: 0 <= j < i ==> key(xs[j]) != key(xs[i])
  }

  ghost predicate KeysDistinct<T, K>(xs: seq<T>, key: T -> K) {
    forall i, j :: 0 <= i < j < |xs| ==> key(xs[i]) != key(xs[j])
  }

  /** Walks `xs` left to right with the set of keys already taken, keeping
      an element only when its key is new and then recording the key. */
  function DedupFrom<T, K>(xs: seq<T>, key: T -> K, seen: set<K>): (r: seq<T>)
    ensures |r| <= |xs|
    decreases |xs|
  {
    if xs == [] then []
    else if key(xs[0]) in seen then DedupFrom(xs[1..], key, seen)
    else [xs[0]] + DedupFrom(xs[1..], key, seen + {key(xs[0])})
  }

  /** What the walk keeps: distinct keys, none of them already seen, in
      input order; every key of the input is either seen or kept, and the
      first element of each unseen key is kept. */
  lemma {:induction false} DedupFromSpec<T, K>(xs: seq<T>, key: T -> K, seen: set<K>)
    ensures KeysDistinct(DedupFrom(xs, key, seen), key)
    ensures forall k :: 0 <= k < |DedupFrom(xs, key, seen)| ==> key(DedupFrom(xs, key, seen)[k]) !in seen
    ensures IsSubsequence(DedupFrom(xs, key, seen), xs)
    ensures forall i :: 0 <= i < |xs| ==>
      key(xs[i]) in seen || exists k :: 0 <= k < |DedupFrom(xs, key, seen)| && key(DedupFrom(xs, key, seen)[k]) == key(xs[i])
    ensures forall i :: FirstOfKey(xs, key, i) && key(xs[i]) !in seen ==> xs[i] in DedupFrom(xs, key, seen)
    decreases |xs|
  {
    if xs != [] {
      var x := xs[0];
      var tail := xs[1..];
      assert forall i :: 1 <= i < |xs| ==> xs[i] == tail[i - 1];
      if key(x) in seen {
        DedupFromSpec(tail, key, seen);
        assert forall i :: 1 <= i < |xs| && FirstOfKey(xs, key, i) ==> FirstOfKey(tail, key, i - 1);
      } else {
        DedupFromSpec(tail, key, seen + {key(x)});
        var rest := DedupFrom(tail, key, seen + {key(x)});
        var r := [x] + rest;
        assert DedupFrom(xs, key, seen) == r;
        assert r[1..] == rest;
        assert forall i :: 1 <= i < |xs| && FirstOfKey(xs, key, i) ==> FirstOfKey(tail, key, i - 1) && key(xs[i]) != key(x);
      }
    }
  }

  /** The keys carried by `xs[..i]`. */
  ghost function KeysBefore<T, K>(xs: seq<T>, key: T -> K, i: int): set<K>
    requires 0 <= i <= |xs|
  {
    set j | 0 <= j < i :: key(xs[j])
  }

  /** The positional reference: from index `i` on, every `xs[k]` that is the
      first of its key and whose key is not in `seen`, in index order. */
  ghost function FirstsFrom<T, K>(xs: seq<T>, key: T -> K, seen: set<K>, i: int): seq<T>
    requires 0 <= i <= |xs|
    decreases |xs| - i
  {
    if i == |xs| then []
    else (if FirstOfKey(xs, key, i) && key(xs[i]) !in seen then [xs[i]] else []) + FirstsFrom(xs, key, seen, i + 1)
  }

  ghost function FirstOccurrences<T, K>(xs: seq<T>, key: T -> K, seen: set<K>): seq<T> {
    FirstsFrom(xs, key, seen, 0)
  }

  lemma FirstOfKeyIff<T, K>(xs: seq<T>, key: T -> K, i: int)
    requires 0 <= i < |xs|
    ensures FirstOfKey(xs, key, i) <==> key(xs[i]) !in KeysBefore(xs, key, i)
  {
  }

  lemma KeysBeforeStep<T, K>(xs: seq<T>, key: T -> K, i: int)
    requires 0 <= i < |xs|
    ensures KeysBefore(xs, key, i + 1) == KeysBefore(xs, key, i) + {key(xs[i])}
  {
    assert forall k :: k in KeysBefore(xs, key, i + 1) <==> k in KeysBefore(xs, key, i) + {key(xs[i])};
  }

  /** The walk from index `i`, with the keys of `xs[..i]` already taken, keeps
      exactly the positional first occurrences from `i` on. */
  lemma {:induction false} DedupFromFirsts<T, K>(xs: seq<T>, key: T -> K, seen: set<K>, i: int)
    requires 0 <= i <= |xs|
    ensures DedupFrom(xs[i..], key, seen + KeysBefore(xs, key, i)) == FirstsFrom(xs, key, seen, i)
    decreases |xs| - i
  {
    if i < |xs| {
      var x, tail := xs[i], xs[i + 1..];
      var taken := seen + KeysBefore(xs, key, i);
      var taken' := seen + KeysBefore(xs, key, i + 1);
      assert xs[i..] == [x] + tail;
      KeysBeforeStep(xs, key, i);
      assert taken' == taken + {key(x)};
      FirstOfKeyIff(xs, key, i);
      var keep := FirstOfKey(xs, key, i) && key(x) !in seen;
      assert keep <==> key(x) !in taken;
      DedupStep(x, tail, key, taken);
      DedupFromFirsts(xs, key, seen, i + 1);
      if keep {
        assert DedupFrom(xs[i..], key, taken) == [x] + DedupFrom(tail, key, taken');
      } else {
        assert taken' == taken;
        assert DedupFrom(xs[i..], key, taken) == DedupFrom(tail, key, taken');
      }
    }
  }

  /** The walk keeps the first occurrences in index order. */
  lemma DedupFromIsFirstOccurrences<T, K>(xs: seq<T>, key: T -> K, seen: set<K>)
    ensures DedupFrom(xs, key, seen) == FirstOccurrences(xs, key, seen)
  {
    DedupFromFirsts(xs, key, seen, 0);
    assert xs[0..] == xs;
    assert KeysBefore(xs, key, 0) == {};
    assert seen + {} == seen;
  }

  /** `r[k]` is `x`, and no element before it satisfies `p`. */
  ghost predicate FirstHitAt<T>(r: seq<T>, p: T -> bool, x: T, k: int) {
    0 <= k < |r| && r[k] == x && forall m :: 0 <= m < k ==> !p(r[m])
  }

  /** If `xs[i0]` is the first element satisfying `p` and is the first of its
      key, it appears among the first occurrences, after elements that all
      fail `p`. */
  lemma {:induction false} FirstsHit<T, K>(xs: seq<T>, key: T -> K, seen: set<K>, p: T -> bool, i: int, i0: int)
    requires 0 <= i <= i0 < |xs| && p(xs[i0]) && FirstOfKey(xs, key, i0) && key(xs[i0]) !in seen
    requires forall j :: i <= j < i0 ==> !p(xs[j])
    ensures exists k :: FirstHitAt(FirstsFrom(xs, key, seen, i), p, xs[i0], k)
    decreases i0 - i
  {
    var r := FirstsFrom(xs, key, seen, i);
    if i == i0 {
      assert r == [xs[i0]] + FirstsFrom(xs, key, seen, i + 1);
      assert FirstHitAt(r, p, xs[i0], 0);
    } else {
      FirstsHit(xs, key, seen, p, i + 1, i0);
      var rest := FirstsFrom(xs, key, seen, i + 1);
      var head := if FirstOfKey(xs, key, i) && key(xs[i]) !in seen then [xs[i]] else [];
      assert r == head + rest;
      var k :| FirstHitAt(rest, p, xs[i0], k);
      assert r[|head| + k] == xs[i0];
      forall m | 0 <= m < |head| + k ensures !p(r[m]) {
        if m >= |head| {
          assert r[m] == rest[m - |head|];
        }
      }
      assert FirstHitAt(r, p, xs[i0], |head| + k);
    }
  }

  /** Keeps the first element of every key, in input order. */
  function DedupBy<T, K(==)>(xs: seq<T>, key: T -> K): (r: seq<T>)
    ensures r == FirstOccurrences(xs, key, {})
    ensures KeysDistinct(r, key)
    ensures IsSubsequence(r, xs)
    ensures forall i :: 0 <= i < |xs| ==> exists k :: 0 <= k < |r| && key(r[k]) == key(xs[i])
    ensures forall i :: FirstOfKey(xs, key, i) ==> xs[i] in r
  {
    DedupFromSpec(xs, key, {});
    DedupFromIsFirstOccurrences(xs, key, {});
    DedupFrom(xs, key, {})
  }

  /** Consuming one element: a repeated key is dropped, a new key is kept
      and recorded. */
  lemma DedupStep<T, K>(x: T, rest: seq<T>, key: T -> K, seen: set<K>)
    ensures key(x) in seen ==> DedupFrom([x] + rest, key, seen) == DedupFrom(rest, key, seen)
    ensures key(x) !in seen ==> DedupFrom([x] + rest, key, seen) == [x] + DedupFrom(rest, key, seen + {key(x)})
  {
    assert ([x] + rest)[0] == x && ([x] + rest)[1..] == rest;
  }

}
