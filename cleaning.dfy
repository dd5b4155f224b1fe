/**
 * clean_peaks: per chromosome, keep the candidate maxima whose contrast
 * value reaches the harmonic threshold, in candidate order, and report the
 * percentage of candidates removed.
 */
module Cleaning {
  import opened Wrappers
  import opened Sequences
  import Maxima

  function AtLeast(h: seq<real>, threshold: real): nat -> bool {
    (p: nat) => p < |h| && h[p] >= threshold
  }

  /** The candidates of one chromosome that clean_peaks keeps. */
  function KeepPeaks(peaks: seq<nat>, h: seq<real>, threshold: real): seq<nat> {
    Filter(peaks, AtLeast(h, threshold))
  }

  predicate IndexesInto(peaks: seq<nat>, h: seq<real>) {
    forall p :: p in peaks ==> p < |h|
  }

  /** A candidate is kept exactly when its contrast reaches the threshold; order is preserved. */
  lemma KeepPeaksExact(peaks: seq<nat>, h: seq<real>, threshold: real)
    requires IndexesInto(peaks, h)
    ensures forall p :: p in KeepPeaks(peaks, h, threshold) ==> p in peaks && h[p] >= threshold
    ensures forall p :: p in peaks && h[p] >= threshold ==> p in KeepPeaks(peaks, h, threshold)
    ensures IsSubsequence(KeepPeaks(peaks, h, threshold), peaks)
  {
    FilterIsSubsequence(peaks, AtLeast(h, threshold));
  }

  lemma KeepPeaksIdempotent(peaks: seq<nat>, h: seq<real>, threshold: real)
    ensures KeepPeaks(KeepPeaks(peaks, h, threshold), h, threshold) == KeepPeaks(peaks, h, threshold)
  {
    FilterIdempotent(peaks, AtLeast(h, threshold));
  }

  /** Raising the threshold keeps a subsequence of what the lower threshold kept, and never more peaks. */
  lemma KeepPeaksMonotone(peaks: seq<nat>, h: seq<real>, lower: real, higher: real)
    requires lower <= higher
    ensures KeepPeaks(KeepPeaks(peaks, h, lower), h, higher) == KeepPeaks(peaks, h, higher)
    ensures IsSubsequence(KeepPeaks(peaks, h, higher), KeepPeaks(peaks, h, lower))
    ensures |KeepPeaks(peaks, h, higher)| <= |KeepPeaks(peaks, h, lower)|
  {
    FilterNarrowing(peaks, AtLeast(h, lower), AtLeast(h, higher));
    FilterIsSubsequence(KeepPeaks(peaks, h, lower), AtLeast(h, higher));
  }

  /** The inner loop of clean_peaks: append every candidate that reaches the threshold. */
  method CleanChromosome(peaks: seq<nat>, h: seq<real>, threshold: real) returns (kept: seq<nat>)
    requires IndexesInto(peaks, h)
    ensures kept == KeepPeaks(peaks, h, threshold)
  {
    kept := [];
    for i := 0 to |peaks|
      invariant kept == KeepPeaks(peaks[..i], h, threshold)
    {
      assert peaks[i] in peaks;
      if h[peaks[i]] >= threshold {
        kept := kept + [peaks[i]];
      }
      assert peaks[..i + 1][..i] == peaks[..i];
    }
    assert peaks[..|peaks|] == peaks;
  }

  // ---------------------------------------------------------------------
  // The reduction percentage (1 - kept/total) * 100, as printed

  datatype ArithmeticError = ZeroDivision

  /** As written: `kept / total` with the candidate count as divisor fails when there are no candidates. */
  function ReductionAsWritten(kept: nat, total: nat): (r: Result<real, ArithmeticError>)
    ensures r.Err? <==> total == 0
  {
    if total == 0 then Err(ZeroDivision)
    else Ok((1.0 - kept as real / total as real) * 100.0)
  }

  /**
   * A chromosome whose contrast is flat, as when sample and control depths
   * agree everywhere, has no candidate maxima, and clean_peaks then raises.
   */
  lemma ReductionAsWrittenFailsWithoutCandidates()
    ensures var h := [0.0, 0.0, 0.0];
      var candidates := Maxima.LocalMaxima(h, 1);
      candidates == [] && ReductionAsWritten(|KeepPeaks(candidates, h, 20.0)|, |candidates|) == Err(ZeroDivision)
  {
    var h := [0.0, 0.0, 0.0];
    var idx := Maxima.Indices(3);
    assert idx == [0, 1, 2];
    assert !Maxima.BeatsAtShift(h, 0, 1) && !Maxima.BeatsAtShift(h, 1, 1) && !Maxima.BeatsAtShift(h, 2, 1);
    assert forall i :: 0 <= i < 3 ==> !Maxima.RelMaxAt(h, 1)(idx[i]);
    assert Filter(idx[..1], Maxima.RelMaxAt(h, 1)) == [];
    assert Filter(idx[..2], Maxima.RelMaxAt(h, 1)) == [];
  }

  /** Corrected: no percentage is reported for a chromosome without candidates. */
  function Reduction(kept: nat, total: nat): (r: Option<real>)
    requires kept <= total
    ensures r.None? <==> total == 0
    ensures r.Some? ==> 0.0 <= r.value <= 100.0
    ensures r.Some? ==> (r.value == 0.0 <==> kept == total) && (r.value == 100.0 <==> kept == 0)
  {
    if total == 0 then None
    else
      var ratio := kept as real / total as real;
      assert 0.0 <= ratio <= 1.0 by {
        assert ratio * total as real == kept as real;
      }
      assert ratio == 1.0 <==> kept == total by {
        assert ratio * total as real == kept as real;
      }
      Some((1.0 - ratio) * 100.0)
  }

  lemma ReductionAgreesWhenDefined(kept: nat, total: nat)
    requires kept <= total && total > 0
    ensures ReductionAsWritten(kept, total) == Ok(Reduction(kept, total).value)
  {
  }

  predicate Cleanable(localMaxima: map<string, seq<nat>>, harmonic: map<string, seq<real>>, chrom: string) {
    chrom in localMaxima && chrom in harmonic && IndexesInto(localMaxima[chrom], harmonic[chrom])
  }

  /**
   * clean_peaks over every chromosome of the candidate dictionary, with the
   * per-chromosome reduction report (which plays no part in what is kept).
   */
  method CleanPeaks(localMaxima: map<string, seq<nat>>, harmonic: map<string, seq<real>>, threshold: real)
    returns (cleaned: map<string, seq<nat>>, reduction: map<string, Option<real>>)
    requires forall c :: c in localMaxima ==> Cleanable(localMaxima, harmonic, c)
    ensures forall c :: c in cleaned <==> c in localMaxima
    ensures forall c :: c in reduction <==> c in localMaxima
    ensures forall c :: c in localMaxima ==>
      && Cleanable(localMaxima, harmonic, c)
      && cleaned[c] == KeepPeaks(localMaxima[c], harmonic[c], threshold)
      && |cleaned[c]| <= |localMaxima[c]|
      && reduction[c] == Reduction(|cleaned[c]|, |localMaxima[c]|)
  {
    cleaned, reduction := map[], map[];
    var todo := localMaxima.Keys;
    while todo != {}
      invariant todo <= localMaxima.Keys
      invariant forall c :: c in cleaned <==> c in localMaxima && c !in todo
      invariant forall c :: c in reduction <==> c in localMaxima && c !in todo
      invariant forall c :: c in localMaxima && c !in todo ==>
        && cleaned[c] == KeepPeaks(localMaxima[c], harmonic[c], threshold)
        && |cleaned[c]| <= |localMaxima[c]|
        && reduction[c] == Reduction(|cleaned[c]|, |localMaxima[c]|)
      decreases todo
    {
      var chrom :| chrom in todo;
      assert Cleanable(localMaxima, harmonic, chrom);
      var peaks := localMaxima[chrom];
      var kept := CleanChromosome(peaks, harmonic[chrom], threshold);
      cleaned := cleaned[chrom := kept];
      reduction := reduction[chrom := Reduction(|kept|, |peaks|)];
      todo := todo - {chrom};
    }
  }
}
