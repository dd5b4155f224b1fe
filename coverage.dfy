/**
 * Per-chromosome depth arrays (chromosome_coverage / update_coverage) and
 * the driver compute_coverages that validates the chromosome argument,
 * builds both depth arrays of every selected chromosome and smooths them.
 */
module Coverage {
  import opened Wrappers
  import opened Sequences
  import opened Reads
  import opened Selection
  import opened Smoothing

  function OnChrom(chrom: string): Read -> bool {
    (r: Read) => r.chrom == chrom
  }

  /** The rows of one chromosome, in table order. */
  function OnChromosome(rows: seq<Read>, chrom: string): (r: seq<Read>)
    ensures forall x :: x in r <==> x in rows && x.chrom == chrom
  {
    Filter(rows, OnChrom(chrom))
  }

  /** The chromosome's rows keep their table order and every copy of a duplicated row. */
  lemma OnChromosomeKeepsRows(rows: seq<Read>, chrom: string, x: Read)
    ensures multiset(OnChromosome(rows, chrom))[x] == if x.chrom == chrom then multiset(rows)[x] else 0
    ensures IsSubsequence(OnChromosome(rows, chrom), rows)
  {
    FilterCount(rows, OnChrom(chrom), x);
    FilterIsSubsequence(rows, OnChrom(chrom));
  }

  lemma InTableHasRows(rows: seq<Read>, chrom: string)
    requires chrom in Chromosomes(rows)
    ensures |OnChromosome(rows, chrom)| > 0
  {
    var i :| 0 <= i < |rows| && Chromosomes(rows)[i] == chrom;
    assert rows[i] in OnChromosome(rows, chrom);
  }

  /** pandas `max` of the `end` column of a non-empty table. */
  function MaxEnd(rows: seq<Read>): (m: int)
    requires |rows| > 0
    ensures forall x :: x in rows ==> x.end <= m
    ensures exists x :: x in rows && x.end == m
    decreases |rows|
  {
    if |rows| == 1 then rows[0].end
    else
      var m := MaxEnd(rows[..|rows| - 1]);
      assert forall x :: x in rows ==> x in rows[..|rows| - 1] || x == rows[|rows| - 1];
      if rows[|rows| - 1].end > m then rows[|rows| - 1].end else m
  }

  /**
   * arr_max: the larger of the two tables' largest `end`. A control table
   * without rows contributes NaN, which Python's `max` passes over when it
   * comes second.
   */
  function SharedLength(sampleRows: seq<Read>, controlRows: seq<Read>): (n: int)
    requires |sampleRows| > 0
    ensures forall x :: x in sampleRows || x in controlRows ==> x.end <= n
    ensures exists x :: (x in sampleRows || x in controlRows) && x.end == n
  {
    if controlRows == [] then MaxEnd(sampleRows)
    else if MaxEnd(sampleRows) < MaxEnd(controlRows) then MaxEnd(controlRows)
    else MaxEnd(sampleRows)
  }

  /** The array length used for `chrom`: the largest end over both tables' rows of it. */
  function ChromosomeLength(sample: seq<Read>, control: seq<Read>, chrom: string): int
    requires |OnChromosome(sample, chrom)| > 0
  {
    SharedLength(OnChromosome(sample, chrom), OnChromosome(control, chrom))
  }

  predicate Covers(r: Read, pos: int) {
    r.start <= pos < r.end
  }

  /** Read depth: how many of the rows cover position `pos`. */
  function Depth(rows: seq<Read>, pos: int): nat
    decreases |rows|
  {
    if rows == [] then 0
    else Depth(rows[..|rows| - 1], pos) + (if Covers(rows[|rows| - 1], pos) then 1 else 0)
  }

  lemma {:induction false} DepthCountsCoveringRows(rows: seq<Read>, pos: int)
    ensures Depth(rows, pos) == |Filter(rows, (r: Read) => Covers(r, pos))|
    decreases |rows|
  {
    if rows != [] {
      DepthCountsCoveringRows(rows[..|rows| - 1], pos);
    }
  }

  lemma {:induction false} DepthOfNoRow(rows: seq<Read>, pos: int)
    requires forall x :: x in rows ==> !Covers(x, pos)
    ensures Depth(rows, pos) == 0
    decreases |rows|
  {
    if rows != [] {
      assert rows[|rows| - 1] in rows;
      assert forall x :: x in rows[..|rows| - 1] ==> x in rows;
      DepthOfNoRow(rows[..|rows| - 1], pos);
    }
  }

  /** The depth array of `rows` over positions 0 .. n-1. */
  function CoverageOf(rows: seq<Read>, n: nat): seq<nat> {
    seq(n, p requires 0 <= p < n => Depth(rows, p))
  }

  /** update_coverage: cov[start:end] += 1. */
  method UpdateCoverage(cov: array<int>, r: Read)
    requires 0 <= r.start < r.end <= cov.Length
    modifies cov
    ensures forall p :: 0 <= p < cov.Length ==> cov[p] == old(cov[p]) + (if Covers(r, p) then 1 else 0)
  {
    for i := r.start to r.end
      invariant forall p :: 0 <= p < cov.Length ==>
        cov[p] == old(cov[p]) + (if r.start <= p < i then 1 else 0)
    {
      cov[i] := cov[i] + 1;
    }
  }

  /** The row-by-row application of update_coverage to one table. */
  method AddRows(cov: array<int>, rows: seq<Read>)
    requires forall x :: x in rows ==> 0 <= x.start < x.end <= cov.Length
    modifies cov
    ensures forall p :: 0 <= p < cov.Length ==> cov[p] == old(cov[p]) + Depth(rows, p)
  {
    for k := 0 to |rows|
      invariant forall p :: 0 <= p < cov.Length ==> cov[p] == old(cov[p]) + Depth(rows[..k], p)
    {
      assert rows[k] in rows;
      UpdateCoverage(cov, rows[k]);
      assert rows[..k + 1][..k] == rows[..k];
    }
    assert rows[..|rows|] == rows;
  }

  /**
   * chromosome_coverage: two zero arrays of the shared length, then every
   * row of the chromosome adds one over its span.
   */
  method ChromosomeCoverage(sample: seq<Read>, control: seq<Read>, chrom: string)
    returns (sampleCov: array<int>, controlCov: array<int>)
    requires AllWellFormed(sample) && AllWellFormed(control)
    requires |OnChromosome(sample, chrom)| > 0
    ensures fresh(sampleCov) && fresh(controlCov)
    ensures sampleCov.Length == controlCov.Length == ChromosomeLength(sample, control, chrom)
    ensures sampleCov[..] == CoverageOf(OnChromosome(sample, chrom), sampleCov.Length)
    ensures controlCov[..] == CoverageOf(OnChromosome(control, chrom), controlCov.Length)
    ensures OnChromosome(control, chrom) == [] ==> forall p :: 0 <= p < controlCov.Length ==> controlCov[p] == 0
  {
    var s := OnChromosome(sample, chrom);
    var c := OnChromosome(control, chrom);
    var n := SharedLength(s, c);
    assert n >= 1 by {
      assert s[0] in s;
    }
    sampleCov := new int[n](_ => 0);
    controlCov := new int[n](_ => 0);
    AddRows(sampleCov, s);
    AddRows(controlCov, c);
    assert sampleCov[..] == CoverageOf(s, n);
    assert controlCov[..] == CoverageOf(c, n);
  }

  datatype Signals = Signals(sample: map<string, seq<real>>, control: map<string, seq<real>>)

  /** The smoothed depth of one side of `chrom`. */
  function SmoothedDepth(side: seq<Read>, sample: seq<Read>, control: seq<Read>, chrom: string, k: int): (r: seq<real>)
    requires 1 <= k && AllWellFormed(sample)
    requires |OnChromosome(sample, chrom)| > 0
  {
    var n := ChromosomeLength(sample, control, chrom);
    assert n >= 1 by {
      var x := OnChromosome(sample, chrom)[0];
      assert x in OnChromosome(sample, chrom);
    }
    Smooth(ToReal(CoverageOf(OnChromosome(side, chrom), n)), k)
  }

  /** One iteration of the compute_coverages loop: both depth arrays of `chrom`, smoothed. */
  method SmoothChromosome(sample: seq<Read>, control: seq<Read>, chrom: string, k: int)
    returns (smoothedSample: seq<real>, smoothedControl: seq<real>)
    requires 1 <= k
    requires AllWellFormed(sample) && AllWellFormed(control)
    requires |OnChromosome(sample, chrom)| > 0
    ensures smoothedSample == SmoothedDepth(sample, sample, control, chrom, k)
    ensures smoothedControl == SmoothedDepth(control, sample, control, chrom, k)
    ensures |smoothedSample| == |smoothedControl|
    ensures NonNegative(smoothedSample) && NonNegative(smoothedControl)
  {
    var sampleCov, controlCov := ChromosomeCoverage(sample, control, chrom);
    var s := ToReal(sampleCov[..]);
    var c := ToReal(controlCov[..]);
    SmoothNonNegative(s, k);
    SmoothNonNegative(c, k);
    smoothedSample := Smooth(s, k);
    smoothedControl := Smooth(c, k);
  }

  /** What compute_coverages stores for `chrom`. */
  ghost predicate HoldsChromosome(sig: Signals, sample: seq<Read>, control: seq<Read>, chrom: string, k: int)
    requires 1 <= k && AllWellFormed(sample)
  {
    && chrom in sig.sample && chrom in sig.control
    && |OnChromosome(sample, chrom)| > 0
    && sig.sample[chrom] == SmoothedDepth(sample, sample, control, chrom, k)
    && sig.control[chrom] == SmoothedDepth(control, sample, control, chrom, k)
    && |sig.sample[chrom]| == |sig.control[chrom]|
    && NonNegative(sig.sample[chrom]) && NonNegative(sig.control[chrom])
  }

  /** Storing the signals of `chrom` keeps what was stored for the chromosomes before it. */
  lemma StoreChromosome(sig: Signals, sample: seq<Read>, control: seq<Read>, chrom: string, k: int,
                        s: seq<real>, c: seq<real>, done: seq<string>)
    requires 1 <= k && AllWellFormed(sample)
    requires |OnChromosome(sample, chrom)| > 0
    requires s == SmoothedDepth(sample, sample, control, chrom, k)
    requires c == SmoothedDepth(control, sample, control, chrom, k)
    requires |s| == |c| && NonNegative(s) && NonNegative(c)
    requires forall x :: x in done ==> HoldsChromosome(sig, sample, control, x, k)
    ensures forall x :: x in done + [chrom] ==>
      HoldsChromosome(Signals(sig.sample[chrom := s], sig.control[chrom := c]), sample, control, x, k)
  {
    var next := Signals(sig.sample[chrom := s], sig.control[chrom := c]);
    forall x | x in done + [chrom] ensures HoldsChromosome(next, sample, control, x, k) {
      if x != chrom {
        assert x in done;
        assert HoldsChromosome(sig, sample, control, x, k);
        assert next.sample[x] == sig.sample[x];
        assert next.control[x] == sig.control[x];
      } else {
        assert next.sample[x] == s;
        assert next.control[x] == c;
      }
    }
  }

  /** The compute_coverages loop over already validated chromosomes. */
  method FillSignals(sample: seq<Read>, control: seq<Read>, k: int, chroms: seq<string>) returns (sig: Signals)
    requires 1 <= k
    requires AllWellFormed(sample) && AllWellFormed(control)
    requires forall c :: c in chroms ==> c in Chromosomes(sample)
    ensures forall c :: c in sig.sample <==> c in chroms
    ensures forall c :: c in sig.control <==> c in chroms
    ensures forall c :: c in chroms ==> HoldsChromosome(sig, sample, control, c, k)
  {
    sig := Signals(map[], map[]);
    for i := 0 to |chroms|
      invariant forall c :: c in sig.sample <==> c in chroms[..i]
      invariant forall c :: c in sig.control <==> c in chroms[..i]
      invariant forall c :: c in chroms[..i] ==> HoldsChromosome(sig, sample, control, c, k)
    {
      var chrom := chroms[i];
      InTableHasRows(sample, chrom);
      var s, c := SmoothChromosome(sample, control, chrom, k);
      StoreChromosome(sig, sample, control, chrom, k, s, c, chroms[..i]);
      assert chroms[..i + 1] == chroms[..i] + [chrom];
      sig := Signals(sig.sample[chrom := s], sig.control[chrom := c]);
    }
    assert chroms[..|chroms|] == chroms;
  }

  /**
   * compute_coverages: resolve the chromosome argument (failing before any
   * array is built), then fill the two dictionaries of smoothed depths.
   */
  method ComputeCoverages(sample: seq<Read>, control: seq<Read>, k: int, arg: ChromosomeArg)
    returns (res: Result<Signals, SelectionError>)
    requires 1 <= k
    requires AllWellFormed(sample) && AllWellFormed(control)
    ensures SelectChromosomes(sample, arg).Err? ==> res == Err(SelectChromosomes(sample, arg).error)
    ensures SelectChromosomes(sample, arg).Ok? ==>
      && res.Ok?
      && (forall c :: c in res.value.sample <==> c in SelectChromosomes(sample, arg).value)
      && (forall c :: c in res.value.control <==> c in SelectChromosomes(sample, arg).value)
      && forall c :: c in SelectChromosomes(sample, arg).value ==> HoldsChromosome(res.value, sample, control, c, k)
  {
    var selected := SelectChromosomes(sample, arg);
    if selected.Err? {
      return Err(selected.error);
    }
    var sig := FillSignals(sample, control, k, selected.value);
    res := Ok(sig);
  }
}
