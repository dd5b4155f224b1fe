/**
 * Mapped read records as the pipeline receives them (one row of the
 * sample or control table), the mapping-quality clean-up, and the
 * range query over a read table.
 */
module Reads {
  import opened Sequences

  /** One aligned read: chromosome name, half-open span [start, end) and mapping quality. */
  datatype Read = Read(chrom: string, start: int, end: int, qual: int)

  /** What the alignment parser hands over: a non-negative start strictly before the end. */
  predicate WellFormed(r: Read) {
    0 <= r.start < r.end
  }

  predicate AllWellFormed(rows: seq<Read>) {
    forall r :: r in rows ==> WellFormed(r)
  }

  /** The `chrom` column of a read table. */
  function Chromosomes(rows: seq<Read>): (names: seq<string>)
    ensures forall c :: c in names <==> exists r :: r in rows && r.chrom == c
  {
    var names := seq(|rows|, i requires 0 <= i < |rows| => rows[i].chrom);
    assert forall r :: r in rows ==> r.chrom in names by {
      forall r | r in rows ensures r.chrom in names {
        var i :| 0 <= i < |rows| && rows[i] == r;
        assert names[i] == r.chrom;
      }
    }
    names
  }

  // ---------------------------------------------------------------------
  // quality_cleanup: keep the rows whose mapping quality reaches the threshold

  function QualityAtLeast(threshold: int): Read -> bool {
    (r: Read) => r.qual >= threshold
  }

  function KeepQuality(rows: seq<Read>, threshold: int): seq<Read> {
    Filter(rows, QualityAtLeast(threshold))
  }

  /**
   * Both tables filtered by `qual >= threshold`, each keeping its row order
   * and every copy of a duplicated row.
   */
  function QualityCleanup(sample: seq<Read>, control: seq<Read>, threshold: int): (r: (seq<Read>, seq<Read>))
    ensures forall x :: x in r.0 <==> x in sample && x.qual >= threshold
    ensures forall x :: x in r.1 <==> x in control && x.qual >= threshold
    ensures forall x :: multiset(r.0)[x] == if x.qual >= threshold then multiset(sample)[x] else 0
    ensures forall x :: multiset(r.1)[x] == if x.qual >= threshold then multiset(control)[x] else 0
    ensures IsSubsequence(r.0, sample) && IsSubsequence(r.1, control)
  {
    FilterIsSubsequence(sample, QualityAtLeast(threshold));
    FilterIsSubsequence(control, QualityAtLeast(threshold));
    var s, c := KeepQuality(sample, threshold), KeepQuality(control, threshold);
    assert forall x :: multiset(s)[x] == (if x.qual >= threshold then multiset(sample)[x] else 0) by {
      forall x ensures multiset(s)[x] == (if x.qual >= threshold then multiset(sample)[x] else 0) {
        FilterCount(sample, QualityAtLeast(threshold), x);
      }
    }
    assert forall x :: multiset(c)[x] == (if x.qual >= threshold then multiset(control)[x] else 0) by {
      forall x ensures multiset(c)[x] == (if x.qual >= threshold then multiset(control)[x] else 0) {
        FilterCount(control, QualityAtLeast(threshold), x);
      }
    }
    (s, c)
  }

  lemma QualityCleanupIdempotent(sample: seq<Read>, control: seq<Read>, threshold: int)
    ensures var (s, c) := QualityCleanup(sample, control, threshold);
            QualityCleanup(s, c, threshold) == (s, c)
  {
    FilterIdempotent(sample, QualityAtLeast(threshold));
    FilterIdempotent(control, QualityAtLeast(threshold));
  }

  /** A stricter threshold keeps a subsequence of what a laxer one keeps. */
  lemma QualityCleanupMonotone(sample: seq<Read>, control: seq<Read>, lax: int, strict: int)
    requires lax <= strict
    ensures var (ls, lc) := QualityCleanup(sample, control, lax);
            QualityCleanup(ls, lc, strict) == QualityCleanup(sample, control, strict)
    ensures IsSubsequence(QualityCleanup(sample, control, strict).0, QualityCleanup(sample, control, lax).0)
    ensures IsSubsequence(QualityCleanup(sample, control, strict).1, QualityCleanup(sample, control, lax).1)
  {
    FilterNarrowing(sample, QualityAtLeast(lax), QualityAtLeast(strict));
    FilterNarrowing(control, QualityAtLeast(lax), QualityAtLeast(strict));
    FilterIsSubsequence(KeepQuality(sample, lax), QualityAtLeast(strict));
    FilterIsSubsequence(KeepQuality(control, lax), QualityAtLeast(strict));
  }

  // ---------------------------------------------------------------------
  // find_overlap: rows of one chromosome that touch the closed range [lo, hi]

  /** pandas `between`: both bounds inclusive. */
  predicate Between(x: int, lo: int, hi: int) {
    lo <= x <= hi
  }

  /** The row mask of find_overlap as written: start in range, end in range, or read inside the range. */
  predicate OverlapMask(r: Read, lo: int, hi: int, chrom: string) {
    (Between(r.start, lo, hi) || Between(r.end, lo, hi) || (r.start > lo && r.end < hi))
    && r.chrom == chrom
  }

  function OverlapsRange(lo: int, hi: int, chrom: string): Read -> bool {
    (r: Read) => OverlapMask(r, lo, hi, chrom)
  }

  function FindOverlap(rows: seq<Read>, lo: int, hi: int, chrom: string): (r: seq<Read>)
    ensures IsSubsequence(r, rows)
  {
    FilterIsSubsequence(rows, OverlapsRange(lo, hi, chrom));
    Filter(rows, OverlapsRange(lo, hi, chrom))
  }

  /**
   * For rows with start < end the third disjunct adds nothing: a read is
   * returned exactly when one of its endpoints lies in [lo, hi].
   */
  lemma FindOverlapEndpoints(rows: seq<Read>, lo: int, hi: int, chrom: string)
    requires forall x :: x in rows ==> x.start < x.end
    ensures forall x :: x in FindOverlap(rows, lo, hi, chrom) <==>
      x in rows && x.chrom == chrom && (Between(x.start, lo, hi) || Between(x.end, lo, hi))
  {
  }

  /** A read that strictly encloses the range has neither endpoint in it and is not returned. */
  lemma FindOverlapMissesEnclosing(rows: seq<Read>, lo: int, hi: int, chrom: string, x: Read)
    requires x.start < lo && hi < x.end
    ensures x !in FindOverlap(rows, lo, hi, chrom)
  {
  }

  // The evidently intended query: every row of the chromosome covering at
  // least one position of [lo, hi], reads covering the half-open [start, end)
  // as update_coverage counts them.

  /** Some position of [lo, hi] lies in [start, end). */
  predicate Touches(r: Read, lo: int, hi: int, chrom: string) {
    var first := if r.start < lo then lo else r.start;
    var last := if r.end - 1 < hi then r.end - 1 else hi;
    first <= last && r.chrom == chrom
  }

  function FindOverlapIntended(rows: seq<Read>, lo: int, hi: int, chrom: string): (r: seq<Read>)
    ensures IsSubsequence(r, rows)
    ensures forall x :: x in r <==>
      x in rows && x.chrom == chrom && exists p :: Between(p, lo, hi) && x.start <= p < x.end
  {
    var touches := (x: Read) => Touches(x, lo, hi, chrom);
    FilterIsSubsequence(rows, touches);
    var r := Filter(rows, touches);
    assert forall x :: Touches(x, lo, hi, chrom) ==>
      var p := if x.start < lo then lo else x.start;
      Between(p, lo, hi) && x.start <= p < x.end;
    r
  }

  /** Both queries return every copy of a matching row and no copy of another. */
  lemma FindOverlapCounts(rows: seq<Read>, lo: int, hi: int, chrom: string, x: Read)
    ensures multiset(FindOverlap(rows, lo, hi, chrom))[x] ==
      if OverlapMask(x, lo, hi, chrom) then multiset(rows)[x] else 0
    ensures multiset(FindOverlapIntended(rows, lo, hi, chrom))[x] ==
      if Touches(x, lo, hi, chrom) then multiset(rows)[x] else 0
  {
    FilterCount(rows, OverlapsRange(lo, hi, chrom), x);
    FilterCount(rows, (r: Read) => Touches(r, lo, hi, chrom), x);
  }

  /**
   * The intended query differs from find_overlap in two ways only: it adds
   * the rows enclosing the range, and drops the rows that end exactly at lo
   * (they cover no position of the range).
   */
  lemma FindOverlapIntendedVersusWritten(rows: seq<Read>, lo: int, hi: int, chrom: string)
    requires lo <= hi
    requires forall x :: x in rows ==> x.start < x.end
    ensures forall x :: x in FindOverlapIntended(rows, lo, hi, chrom) <==>
      || (x in FindOverlap(rows, lo, hi, chrom) && x.end != lo)
      || (x in rows && x.chrom == chrom && x.start < lo && hi < x.end)
  {
    forall x | x in rows && x.chrom == chrom
      ensures Touches(x, lo, hi, chrom) <==>
        (OverlapMask(x, lo, hi, chrom) && x.end != lo) || (x.start < lo && hi < x.end)
    {
    }
    forall x | x in FindOverlapIntended(rows, lo, hi, chrom) ensures Touches(x, lo, hi, chrom) {
    }
  }

  /** The read [0, 100) on chromosome "1" covers the range [10, 20] but find_overlap omits it. */
  lemma FindOverlapMissesCoveringRead()
    ensures FindOverlap([Read("1", 0, 100, 60)], 10, 20, "1") == []
    ensures FindOverlapIntended([Read("1", 0, 100, 60)], 10, 20, "1") == [Read("1", 0, 100, 60)]
  {
    assert [Read("1", 0, 100, 60)][..0] == [];
  }

  /** The read [5, 10) on chromosome "1" covers no position of [10, 20] but find_overlap returns it. */
  lemma FindOverlapReturnsDisjointRead()
    ensures FindOverlap([Read("1", 5, 10, 60)], 10, 20, "1") == [Read("1", 5, 10, 60)]
    ensures FindOverlapIntended([Read("1", 5, 10, 60)], 10, 20, "1") == []
  {
    assert [Read("1", 5, 10, 60)][..0] == [];
  }
}
