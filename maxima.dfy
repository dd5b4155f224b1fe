/**
 * get_local_maxima: the contrast ("harmonic") signal of the smoothed sample
 * and control depths, and its strict local maxima as
 * scipy.signal.argrelextrema(H, np.greater, order) finds them with its
 * default mode 'clip'.
 */
module Maxima {
  import opened Sequences
  import opened Smoothing

  // ---------------------------------------------------------------------
  // Contrast: (S - C) * (S / (C + 1)), elementwise

  function ContrastAt(s: real, c: real): real
    requires 0.0 <= c
  {
    (s - c) * (s / (c + 1.0))
  }

  function Contrast(sample: seq<real>, control: seq<real>): (h: seq<real>)
    requires |sample| == |control| && NonNegative(control)
    ensures |h| == |sample|
  {
    seq(|sample|, i requires 0 <= i < |sample| => ContrastAt(sample[i], control[i]))
  }

  /**
   * Where the smoothed sample is zero the contrast is zero; where it is
   * positive the contrast has the sign of sample minus control.
   */
  lemma ContrastSign(sample: seq<real>, control: seq<real>, i: int)
    requires |sample| == |control| && NonNegative(control)
    requires 0 <= i < |sample|
    ensures sample[i] == 0.0 ==> Contrast(sample, control)[i] == 0.0
    ensures 0.0 < sample[i] ==>
      && (Contrast(sample, control)[i] > 0.0 <==> sample[i] > control[i])
      && (Contrast(sample, control)[i] == 0.0 <==> sample[i] == control[i])
      && (Contrast(sample, control)[i] < 0.0 <==> sample[i] < control[i])
  {
    var s, c := sample[i], control[i];
    var h := Contrast(sample, control)[i];
    assert h == (s - c) * (s / (c + 1.0));
    if 0.0 < s {
      var ratio := s / (c + 1.0);
      assert 0.0 < ratio;
      SignOfProduct(s - c, ratio);
    }
  }

  lemma SignOfProduct(x: real, y: real)
    requires 0.0 < y
    ensures (x * y > 0.0 <==> x > 0.0) && (x * y == 0.0 <==> x == 0.0) && (x * y < 0.0 <==> x < 0.0)
  {
    if x > 0.0 {
      assert x * y > 0.0;
    } else if x < 0.0 {
      assert x * y < 0.0;
    }
  }

  // ---------------------------------------------------------------------
  // argrelextrema(H, np.greater, order), mode='clip'

  /** numpy `take` with mode='clip': an out-of-range index is replaced by the nearest end. */
  function Clamp(j: int, n: int): (r: int)
    requires 0 < n
    ensures 0 <= r < n
    ensures 0 <= j < n ==> r == j
  {
    if j < 0 then 0 else if j >= n then n - 1 else j
  }

  /** One shift of the comparison loop: H[i] > H[clip(i+s)] and H[i] > H[clip(i-s)]. */
  predicate BeatsAtShift(h: seq<real>, i: int, s: int)
    requires 0 <= i < |h|
  {
    h[i] > h[Clamp(i + s, |h|)] && h[i] > h[Clamp(i - s, |h|)]
  }

  /** The clipped rule: index i survives every shift 1 .. order. */
  predicate IsRelMax(h: seq<real>, i: int, order: int)
    requires 0 <= i < |h|
  {
    forall s :: 1 <= s <= order ==> BeatsAtShift(h, i, s)
  }

  function RelMaxAt(h: seq<real>, order: int): nat -> bool {
    (i: nat) => i < |h| && IsRelMax(h, i, order)
  }

  /** np.arange(n). */
  function Indices(n: nat): (r: seq<nat>)
    ensures |r| == n
    ensures forall i :: 0 <= i < n ==> r[i] == i
  {
    if n == 0 then [] else Indices(n - 1) + [n - 1]
  }

  /** The indices returned by argrelextrema, i.e. np.nonzero of the result mask. */
  function LocalMaxima(h: seq<real>, order: int): seq<nat>
    requires 1 <= order
  {
    Filter(Indices(|h|), RelMaxAt(h, order))
  }

  /**
   * The independent reading of the rule: i is an interior index whose value
   * strictly exceeds every other in-bounds value at distance at most order.
   */
  predicate StrictNeighbourhoodMax(h: seq<real>, i: int, order: int)
    requires 0 <= i < |h|
  {
    && 0 < i < |h| - 1
    && forall j :: 0 <= j < |h| && j != i && i - order <= j <= i + order ==> h[i] > h[j]
  }

  /** The clipped comparison is the neighbourhood rule truncated at the array ends. */
  lemma RelMaxIffNeighbourhood(h: seq<real>, i: int, order: int)
    requires 1 <= order && 0 <= i < |h|
    ensures IsRelMax(h, i, order) <==> StrictNeighbourhoodMax(h, i, order)
  {
    var n := |h|;
    if IsRelMax(h, i, order) {
      assert BeatsAtShift(h, i, 1);
      forall j | 0 <= j < n && j != i && i - order <= j <= i + order ensures h[i] > h[j] {
        if j > i {
          assert BeatsAtShift(h, i, j - i);
        } else {
          assert BeatsAtShift(h, i, i - j);
        }
      }
    }
    if StrictNeighbourhoodMax(h, i, order) {
      forall s | 1 <= s <= order ensures BeatsAtShift(h, i, s) {
        var up, down := Clamp(i + s, n), Clamp(i - s, n);
        assert up != i && i - order <= up <= i + order;
        assert down != i && i - order <= down <= i + order;
      }
    }
  }

  lemma IndicesIncreasing(n: nat)
    ensures StrictlyIncreasing(Indices(n))
  {
  }

  /**
   * argrelextrema returns, in ascending order, exactly the indices that are
   * strict maxima of their truncated neighbourhood; none is 0 or n-1.
   */
  lemma LocalMaximaCharacterization(h: seq<real>, order: int)
    requires 1 <= order
    ensures StrictlyIncreasing(LocalMaxima(h, order))
    ensures forall p :: p in LocalMaxima(h, order) ==> 1 <= p <= |h| - 2 && StrictNeighbourhoodMax(h, p, order)
    ensures forall i :: 0 <= i < |h| && StrictNeighbourhoodMax(h, i, order) ==> i in LocalMaxima(h, order)
  {
    IndicesIncreasing(|h|);
    FilterKeepsIncreasing(Indices(|h|), RelMaxAt(h, order));
    forall p | p in LocalMaxima(h, order) ensures 1 <= p <= |h| - 2 && StrictNeighbourhoodMax(h, p, order) {
      RelMaxIffNeighbourhood(h, p, order);
    }
    forall i | 0 <= i < |h| && StrictNeighbourhoodMax(h, i, order) ensures i in LocalMaxima(h, order) {
      RelMaxIffNeighbourhood(h, i, order);
      assert Indices(|h|)[i] == i;
    }
  }

  /** A tie with any neighbour within the window disqualifies both: a flat plateau yields no maximum. */
  lemma PlateauDisqualifies(h: seq<real>, i: int, order: int)
    requires 1 <= order && 0 <= i && i + 1 < |h|
    requires h[i] == h[i + 1]
    ensures i !in LocalMaxima(h, order) && i + 1 !in LocalMaxima(h, order)
  {
    LocalMaximaCharacterization(h, order);
  }

  /** Two reported maxima are more than order positions apart. */
  lemma LocalMaximaSeparated(h: seq<real>, order: int, p: int, q: int)
    requires 1 <= order
    requires p in LocalMaxima(h, order) && q in LocalMaxima(h, order) && p < q
    ensures q - p > order
  {
    LocalMaximaCharacterization(h, order);
    assert StrictNeighbourhoodMax(h, p, order) && StrictNeighbourhoodMax(h, q, order);
    var atP, atQ := h[p], h[q];
  }

  // ---------------------------------------------------------------------
  // get_local_maxima: fill the two dictionaries, chromosome by chromosome

  predicate ReadyForContrast(sample: map<string, seq<real>>, control: map<string, seq<real>>, chrom: string) {
    chrom in sample && chrom in control && |sample[chrom]| == |control[chrom]| && NonNegative(control[chrom])
  }

  method GetLocalMaxima(sample: map<string, seq<real>>, control: map<string, seq<real>>,
                        chroms: seq<string>, order: int)
    returns (maxima: map<string, seq<nat>>, harmonic: map<string, seq<real>>)
    requires 1 <= order
    requires forall c :: c in chroms ==> ReadyForContrast(sample, control, c)
    ensures forall c :: c in maxima <==> c in chroms
    ensures forall c :: c in harmonic <==> c in chroms
    ensures forall c :: c in chroms ==>
      && ReadyForContrast(sample, control, c)
      && harmonic[c] == Contrast(sample[c], control[c])
      && maxima[c] == LocalMaxima(harmonic[c], order)
  {
    maxima, harmonic := map[], map[];
    for i := 0 to |chroms|
      invariant forall c :: c in maxima <==> c in chroms[..i]
      invariant forall c :: c in harmonic <==> c in chroms[..i]
      invariant forall c :: c in chroms[..i] ==>
        && ReadyForContrast(sample, control, c)
        && harmonic[c] == Contrast(sample[c], control[c])
        && maxima[c] == LocalMaxima(harmonic[c], order)
    {
      var chrom := chroms[i];
      assert ReadyForContrast(sample, control, chrom);
      var h := Contrast(sample[chrom], control[chrom]);
      harmonic := harmonic[chrom := h];
      maxima := maxima[chrom := LocalMaxima(h, order)];
      assert chroms[..i + 1] == chroms[..i] + [chrom];
    }
    assert chroms[..|chroms|] == chroms;
  }
}
