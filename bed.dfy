/**
 * maxima_to_bed: one BED row per cleaned maximum and the output file name
 * derived from the sample file name. Writing the file is not modelled.
 */
module Bed {
  import opened Sequences
  import Cleaning

  datatype BedRecord = BedRecord(chrom: string, start: int, end: int, score: real)

  /** Python's int(width / 2): the half width truncated toward zero. */
  function HalfWidth(width: int): (r: int)
    ensures 0 <= width ==> 0 <= 2 * r <= width < 2 * r + 2
    ensures width < 0 ==> 2 * r - 2 < width <= 2 * r <= 0
  {
    if 0 <= width then width / 2 else -((-width) / 2)
  }

  function PeakRecord(chrom: string, p: nat, h: seq<real>, width: int): BedRecord
    requires p < |h|
  {
    BedRecord(chrom, p - HalfWidth(width), p - HalfWidth(width) + 1, h[p])
  }

  /** Every candidate of a chromosome is a position of its contrast signal. */
  predicate PeaksInside(peaks: seq<nat>, h: seq<real>) {
    forall i :: 0 <= i < |peaks| ==> peaks[i] < |h|
  }

  /** The rows built for one chromosome, in peak order. */
  function PeakRecords(chrom: string, peaks: seq<nat>, h: seq<real>, width: int): seq<BedRecord>
    requires PeaksInside(peaks, h)
  {
    seq(|peaks|, i requires 0 <= i < |peaks| => PeakRecord(chrom, peaks[i], h, width))
  }

  /** Every listed chromosome has its maxima and its contrast signal, and the maxima index into it. */
  predicate Emittable(chroms: seq<string>, maxima: map<string, seq<nat>>, harmonic: map<string, seq<real>>) {
    && (forall c :: c in chroms ==> c in maxima && c in harmonic)
    && (forall c :: c in chroms ==> PeaksInside(maxima[c], harmonic[c]))
  }

  /** The concatenated frame, chromosome after chromosome in dictionary order. */
  function BedRecords(chroms: seq<string>, maxima: map<string, seq<nat>>, harmonic: map<string, seq<real>>,
                      width: int): seq<BedRecord>
    requires Emittable(chroms, maxima, harmonic)
    decreases |chroms|
  {
    if chroms == [] then []
    else
      var c := chroms[|chroms| - 1];
      assert c in chroms;
      assert forall x :: x in chroms[..|chroms| - 1] ==> x in chroms;
      BedRecords(chroms[..|chroms| - 1], maxima, harmonic, width) + PeakRecords(c, maxima[c], harmonic[c], width)
  }

  /**
   * Every row is a single base, starting half a width before its peak
   * (unclamped, so possibly negative), scored with the contrast at the peak.
   */
  lemma {:induction false} BedRecordsSound(chroms: seq<string>, maxima: map<string, seq<nat>>,
                                           harmonic: map<string, seq<real>>, width: int)
    requires Emittable(chroms, maxima, harmonic)
    ensures forall r :: r in BedRecords(chroms, maxima, harmonic, width) ==>
      && r.end == r.start + 1
      && r.chrom in chroms
      && exists p :: p in maxima[r.chrom] && r.start == p - HalfWidth(width) && r.score == harmonic[r.chrom][p]
    decreases |chroms|
  {
    if chroms != [] {
      var init, c := chroms[..|chroms| - 1], chroms[|chroms| - 1];
      assert c in chroms;
      assert forall x :: x in init ==> x in chroms;
      BedRecordsSound(init, maxima, harmonic, width);
      var rs := PeakRecords(c, maxima[c], harmonic[c], width);
      forall r | r in rs
        ensures exists p :: p in maxima[c] && r.start == p - HalfWidth(width) && r.score == harmonic[c][p]
      {
        var i :| 0 <= i < |rs| && rs[i] == r;
        assert maxima[c][i] in maxima[c];
      }
    }
  }

  /** Every candidate of every listed chromosome has its row. */
  lemma {:induction false} BedRecordsComplete(chroms: seq<string>, maxima: map<string, seq<nat>>,
                                              harmonic: map<string, seq<real>>, width: int)
    requires Emittable(chroms, maxima, harmonic)
    ensures forall c, i :: c in chroms && 0 <= i < |maxima[c]| ==>
      PeakRecord(c, maxima[c][i], harmonic[c], width) in BedRecords(chroms, maxima, harmonic, width)
    decreases |chroms|
  {
    if chroms != [] {
      var init, c := chroms[..|chroms| - 1], chroms[|chroms| - 1];
      assert c in chroms;
      assert forall x :: x in init ==> x in chroms;
      BedRecordsComplete(init, maxima, harmonic, width);
      var rs := PeakRecords(c, maxima[c], harmonic[c], width);
      forall x, i | x in chroms && 0 <= i < |maxima[x]|
        ensures PeakRecord(x, maxima[x][i], harmonic[x], width) in BedRecords(chroms, maxima, harmonic, width)
      {
        if x == c {
          assert rs[i] == PeakRecord(x, maxima[x][i], harmonic[x], width);
        } else {
          assert x in init;
        }
      }
    }
  }

  lemma {:induction false} BedRecordsCount(chroms: seq<string>, maxima: map<string, seq<nat>>,
                                           harmonic: map<string, seq<real>>, width: int)
    requires Emittable(chroms, maxima, harmonic)
    ensures |BedRecords(chroms, maxima, harmonic, width)| == PeakCount(chroms, maxima)
    decreases |chroms|
  {
    if chroms != [] {
      assert forall x :: x in chroms[..|chroms| - 1] ==> x in chroms;
      BedRecordsCount(chroms[..|chroms| - 1], maxima, harmonic, width);
    }
  }

  function PeakCount(chroms: seq<string>, maxima: map<string, seq<nat>>): nat
    requires forall c :: c in chroms ==> c in maxima
    decreases |chroms|
  {
    if chroms == [] then 0
    else
      assert forall x :: x in chroms[..|chroms| - 1] ==> x in chroms;
      PeakCount(chroms[..|chroms| - 1], maxima) + |maxima[chroms[|chroms| - 1]]|
  }

  /** When the maxima are the cleaned ones, every emitted score reaches the harmonic threshold. */
  lemma CleanedRecordsReachThreshold(chroms: seq<string>, localMaxima: map<string, seq<nat>>,
                                     maxima: map<string, seq<nat>>, harmonic: map<string, seq<real>>,
                                     width: int, threshold: real)
    requires Emittable(chroms, maxima, harmonic)
    requires forall c :: c in chroms ==> c in localMaxima && Cleaning.IndexesInto(localMaxima[c], harmonic[c])
    requires forall c :: c in chroms ==> maxima[c] == Cleaning.KeepPeaks(localMaxima[c], harmonic[c], threshold)
    ensures forall r :: r in BedRecords(chroms, maxima, harmonic, width) ==> r.score >= threshold
  {
    BedRecordsSound(chroms, maxima, harmonic, width);
    forall c | c in chroms ensures forall p :: p in maxima[c] ==> harmonic[c][p] >= threshold {
      Cleaning.KeepPeaksExact(localMaxima[c], harmonic[c], threshold);
    }
  }

  // ---------------------------------------------------------------------
  // The output file name

  /** Python's str.split(sep). */
  function Split(s: string, sep: char): (parts: seq<string>)
    ensures |parts| >= 1
    ensures forall i :: 0 <= i < |parts| ==> sep !in parts[i]
    decreases |s|
  {
    if s == [] then [""]
    else
      var rest := Split(s[1..], sep);
      if s[0] == sep then [""] + rest
      else [[s[0]] + rest[0]] + rest[1..]
  }

  /** Python's sep.join(parts). */
  function Join(parts: seq<string>, sep: char): string
    decreases |parts|
  {
    if |parts| == 0 then ""
    else if |parts| == 1 then parts[0]
    else parts[0] + [sep] + Join(parts[1..], sep)
  }

  lemma {:induction false} JoinSplit(s: string, sep: char)
    ensures Join(Split(s, sep), sep) == s
    decreases |s|
  {
    if s != [] {
      JoinSplit(s[1..], sep);
      var rest := Split(s[1..], sep);
      if s[0] == sep {
        assert ([""] + rest)[1..] == rest;
        assert s == [sep] + s[1..];
      } else if |rest| > 1 {
        assert ([[s[0]] + rest[0]] + rest[1..])[1..] == rest[1..];
        assert s == [s[0]] + (rest[0] + [sep] + Join(rest[1..], sep));
      } else {
        assert s == [s[0]] + rest[0];
      }
    }
  }

  lemma {:induction false} SplitWithoutSeparator(s: string, sep: char)
    requires sep !in s
    ensures Split(s, sep) == [s]
    decreases |s|
  {
    if s != [] {
      assert sep != s[0] && sep !in s[1..];
      SplitWithoutSeparator(s[1..], sep);
      assert [s[0]] + s[1..] == s;
    }
  }

  lemma {:induction false} SplitAfterPart(p: string, sep: char, t: string)
    requires sep !in p
    ensures Split(p + [sep] + t, sep) == [p] + Split(t, sep)
    decreases |p|
  {
    var whole := p + [sep] + t;
    if p == [] {
      assert whole[0] == sep && whole[1..] == t;
    } else {
      assert whole[0] == p[0] != sep;
      assert whole[1..] == p[1..] + [sep] + t;
      SplitAfterPart(p[1..], sep, t);
      var rest := Split(whole[1..], sep);
      assert rest[0] == p[1..] && rest[1..] == Split(t, sep);
      assert [p[0]] + p[1..] == p;
    }
  }

  /** Joining separator-free parts and splitting again gives the parts back. */
  lemma {:induction false} SplitJoin(parts: seq<string>, sep: char)
    requires |parts| >= 1
    requires forall i :: 0 <= i < |parts| ==> sep !in parts[i]
    ensures Split(Join(parts, sep), sep) == parts
    decreases |parts|
  {
    if |parts| == 1 {
      SplitWithoutSeparator(parts[0], sep);
    } else {
      SplitJoin(parts[1..], sep);
      SplitAfterPart(parts[0], sep, Join(parts[1..], sep));
    }
  }

  lemma {:induction false} JoinAppend(a: seq<string>, b: seq<string>, sep: char)
    requires |a| >= 1 && |b| >= 1
    ensures Join(a + b, sep) == Join(a, sep) + [sep] + Join(b, sep)
    decreases |a|
  {
    if |a| == 1 {
      assert (a + b)[1..] == b;
    } else {
      assert (a + b)[1..] == a[1..] + b;
      JoinAppend(a[1..], b, sep);
    }
  }

  predicate Dropped(term: string) {
    term == "bam" || term == "sam" || term == "sorted"
  }

  function KeptTerm(): string -> bool {
    (term: string) => !Dropped(term)
  }

  /** The dot-separated components of the sample file name other than bam, sam and sorted. */
  function KeptTerms(sampleName: string): seq<string> {
    Filter(Split(sampleName, '.'), KeptTerm())
  }

  function OutputFileName(sampleName: string): string {
    Join(KeptTerms(sampleName) + ["peaksense", "bed"], '.')
  }

  lemma KeptTermsClean(sampleName: string)
    ensures forall i :: 0 <= i < |KeptTerms(sampleName)| ==>
      '.' !in KeptTerms(sampleName)[i] && !Dropped(KeptTerms(sampleName)[i])
  {
    var kept := KeptTerms(sampleName);
    forall i | 0 <= i < |kept| ensures '.' !in kept[i] && !Dropped(kept[i]) {
      assert kept[i] in kept;
    }
  }

  lemma SuffixOf(a: string, b: string)
    ensures (a + b)[|a + b| - |b|..] == b
  {
  }

  lemma OutputPartsDotFree(sampleName: string)
    ensures var parts := KeptTerms(sampleName) + ["peaksense", "bed"];
      forall i :: 0 <= i < |parts| ==> '.' !in parts[i]
  {
    var kept := KeptTerms(sampleName);
    var parts := kept + ["peaksense", "bed"];
    KeptTermsClean(sampleName);
    forall i | 0 <= i < |parts| ensures '.' !in parts[i] {
      if i < |kept| {
        assert parts[i] == kept[i];
      }
    }
  }

  /**
   * The output name's components are the kept components of the sample
   * name, in their order, followed by peaksense and bed.
   */
  lemma OutputFileNameComponents(sampleName: string)
    ensures Split(OutputFileName(sampleName), '.') == KeptTerms(sampleName) + ["peaksense", "bed"]
    ensures IsSubsequence(KeptTerms(sampleName), Split(sampleName, '.'))
  {
    OutputPartsDotFree(sampleName);
    SplitJoin(KeptTerms(sampleName) + ["peaksense", "bed"], '.');
    FilterIsSubsequence(Split(sampleName, '.'), KeptTerm());
  }

  /** No component of the output name is bam, sam or sorted, and every other component of the sample name survives. */
  lemma OutputFileNameDropsExactly(sampleName: string)
    ensures forall t :: t in Split(OutputFileName(sampleName), '.') ==> !Dropped(t)
    ensures forall t :: t in Split(sampleName, '.') && !Dropped(t) ==> t in Split(OutputFileName(sampleName), '.')
  {
    OutputFileNameComponents(sampleName);
    var kept := KeptTerms(sampleName);
    assert forall t :: t in kept <==> t in Split(sampleName, '.') && KeptTerm()(t);
    assert forall t :: t in kept + ["peaksense", "bed"] <==> t in kept || t == "peaksense" || t == "bed";
  }

  /** The output name always ends in "peaksense.bed". */
  lemma OutputFileNameSuffix(sampleName: string)
    ensures var name := OutputFileName(sampleName);
      |name| >= 13 && name[|name| - 13..] == "peaksense.bed"
  {
    var kept := KeptTerms(sampleName);
    var tail := ["peaksense", "bed"];
    assert Join(tail, '.') == "peaksense.bed";
    if kept != [] {
      JoinAppend(kept, tail, '.');
      SuffixOf(Join(kept, '.') + ['.'], "peaksense.bed");
    } else {
      assert kept + tail == tail;
    }
  }

  /**
   * maxima_to_bed: concatenate the rows of every chromosome, in the
   * dictionary's order, and derive the output file name. The dictionary is
   * given as its map together with its key order chroms.
   */
  method MaximaToBed(chroms: seq<string>, maxima: map<string, seq<nat>>, harmonic: map<string, seq<real>>,
                     width: int, sampleName: string)
    returns (records: seq<BedRecord>, fileName: string)
    requires NoDuplicates(chroms) && forall c :: c in maxima ==> c in chroms
    requires Emittable(chroms, maxima, harmonic)
    ensures records == BedRecords(chroms, maxima, harmonic, width)
    ensures fileName == OutputFileName(sampleName)
  {
    records := [];
    for i := 0 to |chroms|
      invariant records == BedRecords(chroms[..i], maxima, harmonic, width)
    {
      var chrom := chroms[i];
      assert chrom in chroms;
      var peaks := maxima[chrom];
      var rows := PeakRecords(chrom, peaks, harmonic[chrom], width);
      records := records + rows;
      assert chroms[..i + 1][..i] == chroms[..i];
    }
    assert chroms[..|chroms|] == chroms;
    var terms := KeptTerms(sampleName);
    fileName := Join(terms + ["peaksense", "bed"], '.');
  }
}
