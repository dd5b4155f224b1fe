/**
 * The moving average of compute_coverages: numpy `convolve` with the box
 * kernel ones(k)/k in 'valid' mode, over exact reals.
 */
module Smoothing {

  function Sum(s: seq<real>): real
    decreases |s|
  {
    if s == [] then 0.0 else Sum(s[..|s| - 1]) + s[|s| - 1]
  }

  lemma {:induction false} SumConcat(a: seq<real>, b: seq<real>)
    ensures Sum(a + b) == Sum(a) + Sum(b)
    decreases |b|
  {
    if b == [] {
      assert a + b == a;
    } else {
      assert (a + b)[..|a + b| - 1] == a + b[..|b| - 1];
      SumConcat(a, b[..|b| - 1]);
    }
  }

  lemma {:induction false} SumBounds(s: seq<real>, bound: real)
    requires forall i :: 0 <= i < |s| ==> 0.0 <= s[i] <= bound
    ensures 0.0 <= Sum(s) <= |s| as real * bound
    decreases |s|
  {
    if s != [] {
      SumBounds(s[..|s| - 1], bound);
    }
  }

  lemma {:induction false} SumNonNegative(s: seq<real>)
    requires forall i :: 0 <= i < |s| ==> 0.0 <= s[i]
    ensures 0.0 <= Sum(s)
    decreases |s|
  {
    if s != [] {
      SumNonNegative(s[..|s| - 1]);
    }
  }

  predicate NonNegative(s: seq<real>) {
    forall i :: 0 <= i < |s| ==> 0.0 <= s[i]
  }

  /** A depth array converted to floating point (exact here). */
  function ToReal(s: seq<int>): seq<real> {
    seq(|s|, i requires 0 <= i < |s| => s[i] as real)
  }

  /**
   * np.convolve(xs, ones(k)/k, mode='valid'). When the kernel is not longer
   * than the signal, output i is the mean of xs[i..i+k]; otherwise numpy
   * swaps the operands and each of the k-n+1 outputs is sum(xs)/k.
   */
  function Smooth(xs: seq<real>, k: int): (r: seq<real>)
    requires 1 <= k && 1 <= |xs|
    ensures |r| == if k <= |xs| then |xs| - k + 1 else k - |xs| + 1
  {
    if k <= |xs| then
      seq(|xs| - k + 1, i requires 0 <= i < |xs| - k + 1 => Sum(xs[i..i + k]) / k as real)
    else
      seq(k - |xs| + 1, _ => Sum(xs) / k as real)
  }

  /** A width-1 kernel leaves the signal unchanged. */
  lemma SmoothIdentity(xs: seq<real>)
    requires 1 <= |xs|
    ensures Smooth(xs, 1) == xs
  {
    forall i | 0 <= i < |xs| ensures Smooth(xs, 1)[i] == xs[i] {
      var w := xs[i..i + 1];
      assert w[..0] == [] && w[0] == xs[i];
      assert Sum(w) == xs[i];
    }
  }

  /** Consecutive windows differ by the value entering minus the value leaving, over k. */
  lemma SmoothSlide(xs: seq<real>, k: int, i: int)
    requires 1 <= k <= |xs|
    requires 0 <= i && i + 1 < |xs| - k + 1
    ensures Smooth(xs, k)[i + 1] == Smooth(xs, k)[i] + (xs[i + k] - xs[i]) / k as real
  {
    var before, after := Sum(xs[i..i + k]), Sum(xs[i + 1..i + k + 1]);
    WindowShift(xs, i, k);
    assert Smooth(xs, k)[i] == before / k as real;
    assert Smooth(xs, k)[i + 1] == after / k as real;
    DivideShift(before, after, xs[i + k], xs[i], k as real);
  }

  lemma WindowShift(xs: seq<real>, i: int, k: int)
    requires 1 <= k && 0 <= i && i + k < |xs|
    ensures Sum(xs[i + 1..i + k + 1]) == Sum(xs[i..i + k]) + xs[i + k] - xs[i]
  {
    var w := xs[i..i + k + 1];
    assert w == [xs[i]] + xs[i + 1..i + k + 1];
    assert w == xs[i..i + k] + [xs[i + k]];
    SumConcat([xs[i]], xs[i + 1..i + k + 1]);
    SumConcat(xs[i..i + k], [xs[i + k]]);
    assert Sum([xs[i]]) == xs[i] by { assert [xs[i]][..0] == []; }
    assert Sum([xs[i + k]]) == xs[i + k] by { assert [xs[i + k]][..0] == []; }
  }

  lemma DivideShift(before: real, after: real, entering: real, leaving: real, k: real)
    requires 0.0 < k && after == before + entering - leaving
    ensures after / k == before / k + (entering - leaving) / k
  {
  }

  lemma QuotientAtMost(a: real, k: real, bound: real)
    requires 0.0 <= a && 0.0 < k && a <= k * bound
    ensures 0.0 <= a / k <= bound
  {
    assert a / k * k == a;
  }

  lemma ScaleAtMost(a: real, b: real, c: real)
    requires a <= b && 0.0 <= c
    ensures a * c <= b * c
  {
  }

  lemma WindowMeanBounded(w: seq<real>, bound: real)
    requires 1 <= |w|
    requires forall i :: 0 <= i < |w| ==> 0.0 <= w[i] <= bound
    ensures 0.0 <= Sum(w) / |w| as real <= bound
  {
    SumBounds(w, bound);
    QuotientAtMost(Sum(w), |w| as real, bound);
  }

  lemma WideKernelBounded(xs: seq<real>, k: int, bound: real)
    requires 1 <= |xs| < k
    requires forall i :: 0 <= i < |xs| ==> 0.0 <= xs[i] <= bound
    ensures 0.0 <= Sum(xs) / k as real <= bound
  {
    SumBounds(xs, bound);
    assert 0.0 <= xs[0] <= bound;
    ScaleAtMost(|xs| as real, k as real, bound);
    QuotientAtMost(Sum(xs), k as real, bound);
  }

  /** Smoothing a signal that lies in [0, bound] gives values in [0, bound]. */
  lemma SmoothBounded(xs: seq<real>, k: int, bound: real)
    requires 1 <= k && 1 <= |xs|
    requires forall i :: 0 <= i < |xs| ==> 0.0 <= xs[i] <= bound
    ensures forall j :: 0 <= j < |Smooth(xs, k)| ==> 0.0 <= Smooth(xs, k)[j] <= bound
  {
    var r := Smooth(xs, k);
    var kr := k as real;
    if k <= |xs| {
      forall j | 0 <= j < |r| ensures 0.0 <= r[j] <= bound {
        WindowMeanBounded(xs[j..j + k], bound);
      }
    } else {
      WideKernelBounded(xs, k, bound);
    }
  }

  /** Smoothing a non-negative signal gives a non-negative signal. */
  lemma SmoothNonNegative(xs: seq<real>, k: int)
    requires 1 <= k && 1 <= |xs|
    requires NonNegative(xs)
    ensures NonNegative(Smooth(xs, k))
  {
    if k <= |xs| {
      forall j | 0 <= j < |xs| - k + 1 ensures 0.0 <= Smooth(xs, k)[j] {
        SumNonNegative(xs[j..j + k]);
      }
    } else {
      SumNonNegative(xs);
    }
  }
}
