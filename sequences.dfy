/**
 * Order-preserving filters over sequences, the shared shape of the
 * boolean-mask selections and append loops of the peak-calling pipeline,
 * with the subsequence relation they establish.
 */
module Sequences {

  /** `a` is obtained from `b` by deleting elements: `idx` says where each element of `a` sits in `b`. */
  ghost predicate Embeds<T>(idx: seq<nat>, a: seq<T>, b: seq<T>) {
    && |idx| == |a|
    && (forall k :: 0 <= k < |idx| ==> idx[k] < |b| && b[idx[k]] == a[k])
    && (forall k, l :: 0 <= k < l < |idx| ==> idx[k] < idx[l])
  }

  ghost predicate IsSubsequence<T>(a: seq<T>, b: seq<T>) {
    exists idx :: Embeds(idx, a, b)
  }

  predicate NoDuplicates<T(==)>(s: seq<T>) {
    forall i, j :: 0 <= i < j < |s| ==> s[i] != s[j]
  }

  predicate StrictlyIncreasing(s: seq<int>) {
    forall i, j :: 0 <= i < j < |s| ==> s[i] < s[j]
  }

  /** The elements of `s` that satisfy `keep`, in their original order. */
  function Filter<T(==)>(s: seq<T>, keep: T -> bool): (r: seq<T>)
    ensures |r| <= |s|
    ensures forall x :: x in r ==> x in s && keep(x)
    ensures forall x :: x in s && keep(x) ==> x in r
    decreases |s|
  {
    if s == [] then []
    else Filter(s[..|s| - 1], keep) + (if keep(s[|s| - 1]) then [s[|s| - 1]] else [])
  }

  lemma {:induction false} FilterConcat<T>(a: seq<T>, b: seq<T>, keep: T -> bool)
    ensures Filter(a + b, keep) == Filter(a, keep) + Filter(b, keep)
    decreases |b|
  {
    if b == [] {
      assert a + b == a;
    } else {
      var b' := b[..|b| - 1];
      assert (a + b)[..|a + b| - 1] == a + b';
      FilterConcat(a, b', keep);
    }
  }

  /** Every element of a filtered sequence was kept, in order: the result is a subsequence. */
  lemma {:induction false} FilterIsSubsequence<T>(s: seq<T>, keep: T -> bool)
    ensures IsSubsequence(Filter(s, keep), s)
    decreases |s|
  {
    if s == [] {
      assert Embeds([], Filter(s, keep), s);
    } else {
      var p := s[..|s| - 1];
      FilterIsSubsequence(p, keep);
      var idx: seq<nat> :| Embeds(idx, Filter(p, keep), p);
      if keep(s[|s| - 1]) {
        var idx' := idx + [|s| - 1];
        assert Filter(s, keep) == Filter(p, keep) + [s[|s| - 1]];
        assert Embeds(idx', Filter(s, keep), s);
      } else {
        assert Embeds(idx, Filter(s, keep), s);
      }
    }
  }

  /** A filter keeps every copy of a kept value and no copy of a dropped one. */
  lemma {:induction false} FilterCount<T>(s: seq<T>, keep: T -> bool, x: T)
    ensures multiset(Filter(s, keep))[x] == if keep(x) then multiset(s)[x] else 0
    decreases |s|
  {
    if s != [] {
      assert s == s[..|s| - 1] + [s[|s| - 1]];
      FilterCount(s[..|s| - 1], keep, x);
    }
  }

  /**
   * Filtering with a narrower condition after a wider one is the same as
   * filtering with the narrower one alone.
   */
  lemma {:induction false} FilterNarrowing<T>(s: seq<T>, wide: T -> bool, narrow: T -> bool)
    requires forall x :: x in s && narrow(x) ==> wide(x)
    ensures Filter(Filter(s, wide), narrow) == Filter(s, narrow)
    decreases |s|
  {
    if s != [] {
      var p, x := s[..|s| - 1], s[|s| - 1];
      assert forall y :: y in p ==> y in s;
      FilterNarrowing(p, wide, narrow);
      var tail := if wide(x) then [x] else [];
      FilterConcat(Filter(p, wide), tail, narrow);
      if wide(x) {
        assert tail[..|tail| - 1] == [];
      }
    }
  }

  lemma FilterIdempotent<T>(s: seq<T>, keep: T -> bool)
    ensures Filter(Filter(s, keep), keep) == Filter(s, keep)
  {
    FilterNarrowing(s, keep, keep);
  }

  lemma {:induction false} FilterKeepsIncreasing(s: seq<nat>, keep: nat -> bool)
    requires StrictlyIncreasing(s)
    ensures StrictlyIncreasing(Filter(s, keep))
    decreases |s|
  {
    if s != [] {
      var p := s[..|s| - 1];
      FilterKeepsIncreasing(p, keep);
      var r := Filter(p, keep);
      forall k | 0 <= k < |r| ensures r[k] < s[|s| - 1] {
        assert r[k] in p;
      }
    }
  }
}
