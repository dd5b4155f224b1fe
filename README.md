# peaksense peak calling, modelled in Dafny

peaksense calls peaks in aligned sequencing reads. It compares a sample
against a control, one chromosome at a time:

1. It drops low-quality alignments (`quality_cleanup`).
2. It selects the chromosomes to analyse (`'all'` or an explicit list).
3. It builds a read-depth array for sample and control. Each read
   `[start, end)` adds one to every position it covers.
4. It smooths both arrays with a box moving average (numpy `convolve`, `valid` mode).
5. It combines them into the contrast signal `(S - C) * (S / (C + 1))`.
6. It takes the strict local maxima of that signal under scipy's
   `argrelextrema` rule (`np.greater`, `mode='clip'`).
7. It keeps the maxima whose contrast reaches a threshold (`clean_peaks`),
   and turns the survivors into one-base BED rows with an output file name
   derived from the sample's file name (`maxima_to_bed`).
8. A separate query, `find_overlap`, is meant to select the reads that overlap a range.

The model has nine modules:

- `Wrappers`: the `Option` and `Result` types.
- `Sequences`: an order-preserving filter, and subsequence and
  duplicate-free predicates.
- `Reads`: the alignment record, the quality clean-up and the overlap query.
- `Selection`: chromosome selection.
- `Smoothing`: the valid-mode moving average.
- `Coverage`: the depth arrays and the per-chromosome coverage loop.
- `Maxima`: the contrast signal, the extrema rule and the maxima loop.
- `Cleaning`: the threshold filter and its reduction report.
- `Bed`: BED rows and the output file name.

Modelling choices:

- Depth arrays are Dafny `array<int>` values filled by in-place increments,
  mirroring `cov[start:end] += 1`.
- The loops that fill the per-chromosome dictionaries are methods with loop
  invariants.
- The pure steps are functions, with lemmas stating their properties.
- Floating-point values are exact `real`s.
- A pandas frame of reads is a sequence of `Read` records.
- A dictionary is a Dafny `map`. Where its iteration order matters
  (`maxima_to_bed`), the order is passed as a separate sequence of keys.

Where the code behaves differently from what its names or comments
suggest, the model follows the code:

- **Wide kernel.** When the smoothing width `k` exceeds the array length `n`,
  numpy's `valid` mode swaps the two operands. It returns `k - n + 1` copies
  of `sum / k`, not an empty array. `Smoothing.Smooth` models this.
- **Boundary maxima.** scipy's clip mode clamps out-of-range neighbours to the
  array ends. The neighbourhood of an index near an end is therefore
  truncated, and only indices `0` and `n - 1` are excluded, because each is
  compared with itself.
- **Control length.** A chromosome's arrays take their length from the
  largest `end` over the sample and control reads of that chromosome. When
  the control has no reads there, Python's `max([s, nan])` returns `s`.
- **Control-only chromosomes.** A chromosome with control reads but no
  sample reads is never analysed. `'all'` takes the chromosomes of the sample
  only, and an explicit list naming such a chromosome is rejected (line 169).
  `Selection.SelectChromosomes` states both.

## Model

| member | source | states |
|---|---|---|
| `Sequences.Filter` | peaksense/functions.py:120-121 | the boolean-mask filter keeps an element iff it satisfies the condition, and is never longer than its input |
| `Sequences.FilterCount` | peaksense/functions.py:120-121 | a mask filter keeps every copy of a satisfying value and no copy of any other value |
| `Sequences.FilterIsSubsequence` | peaksense/functions.py:120-121 | a mask filter keeps the surviving elements in their original order (the result embeds in the input) |
| `Reads.QualityCleanup` | peaksense/functions.py:119-124 | each frame keeps exactly its reads with `qual >= threshold`, every copy of a duplicated qualifying read included, as a subsequence of the original |
| `Reads.QualityCleanupIdempotent` | peaksense/functions.py:120-121 | cleaning an already cleaned pair at the same threshold changes nothing |
| `Reads.QualityCleanupMonotone` | peaksense/functions.py:120-121 | a stricter threshold keeps a subsequence of what a laxer one keeps, and re-cleaning the lax result strictly gives the strict result |
| `Reads.FindOverlap` | peaksense/functions.py:246-252 | the overlap query returns a subsequence of the frame |
| `Reads.FindOverlapCounts` | peaksense/functions.py:246-252 | the written and the corrected query each return every copy of a matching row and no copy of another row |
| `Reads.FindOverlapEndpoints` | peaksense/functions.py:247-252 | for reads with `start < end`, a read is returned iff its chromosome matches and its start or its end lies in the inclusive range; the third disjunct adds nothing |
| `Reads.FindOverlapMissesEnclosing` | peaksense/functions.py:247-252 | a read that starts before the range and ends after it is never returned |
| `Reads.FindOverlapMissesCoveringRead` | peaksense/functions.py:246-252 | the read `[0, 100)` on chromosome 1 is not returned for range `[10, 20]`, though it covers the range; the corrected query returns it |
| `Reads.FindOverlapReturnsDisjointRead` | peaksense/functions.py:246-252 | the read `[5, 10)` on chromosome 1 is returned for range `[10, 20]`, though it covers none of it; the corrected query omits it |
| `Reads.FindOverlapIntended` | peaksense/functions.py:246-252 | corrected query: returns, in order, exactly the reads of the chromosome whose half-open span `[start, end)` contains at least one position of the inclusive range |
| `Reads.FindOverlapIntendedVersusWritten` | peaksense/functions.py:246-252 | for a non-empty range, the corrected query returns exactly the rows of the written query except those ending at `lo`, plus the rows that enclose the range |
| `Selection.Unique` | peaksense/functions.py:163 | `unique()` returns each chromosome of the sample once and no other name |
| `Selection.FirstMissing` | peaksense/functions.py:167-169 | no name is reported iff every listed name has sample reads; otherwise the first listed name without sample reads is reported |
| `Selection.SelectChromosomes` | peaksense/functions.py:162-169 | `'all'` selects every sample chromosome once; other, non-list values are an error; a list is accepted unchanged iff all its names have sample reads, otherwise the error names a listed chromosome absent from the sample |
| `Coverage.OnChromosome` | peaksense/functions.py:140-141 | the per-chromosome row selection keeps a row iff it is on that chromosome |
| `Coverage.OnChromosomeKeepsRows` | peaksense/functions.py:140-141 | the selection keeps the table order and every copy of a duplicated row of the chromosome |
| `Coverage.InTableHasRows` | peaksense/functions.py:146-149 | a chromosome that occurs in the sample has at least one sample row |
| `Coverage.MaxEnd` | peaksense/functions.py:140-141 | `['end'].max()` bounds every end and is attained by some row |
| `Coverage.SharedLength` | peaksense/functions.py:140-142 | the array length bounds every sample and control end and equals one of them |
| `Coverage.DepthCountsCoveringRows` | peaksense/functions.py:136-137 | the depth at a position is the number of reads with `start <= pos < end` |
| `Coverage.DepthOfNoRow` | peaksense/functions.py:153-156 | where no read covers a position, the depth there stays zero |
| `Coverage.UpdateCoverage` | peaksense/functions.py:136-137 | the slice increment adds one exactly at the positions of `[start, end)` and leaves the rest unchanged |
| `Coverage.AddRows` | peaksense/functions.py:146-156 | applying every row adds, at each position, the number of rows covering it |
| `Coverage.ChromosomeCoverage` | peaksense/functions.py:133-159 | both fresh arrays have the shared length; each position holds that side's covering-read count; a control without reads gives all zeros |
| `Coverage.SmoothChromosome` | peaksense/functions.py:174-179 | the two smoothed signals are the moving averages of the two depth arrays, of equal length and non-negative |
| `Coverage.FillSignals` | peaksense/functions.py:172-180 | the loop leaves both dictionaries keyed by exactly the given chromosomes, each holding the smoothed depth of its side |
| `Coverage.ComputeCoverages` | peaksense/functions.py:130-180 | a selection error is raised before any array is built; otherwise both dictionaries have exactly the selected chromosomes as keys, each holding the smoothed depth of its side |
| `Smoothing.Smooth` | peaksense/functions.py:176-179 | the valid-mode output has `n - k + 1` values, or `k - n + 1` when the kernel is the longer operand |
| `Smoothing.SmoothIdentity` | peaksense/functions.py:176-179 | a kernel of width 1 returns the input unchanged |
| `Smoothing.SmoothSlide` | peaksense/functions.py:176-179 | consecutive outputs differ by `(x[i+k] - x[i]) / k`, the sliding-window recurrence of a box mean |
| `Smoothing.SmoothBounded` | peaksense/functions.py:176-179 | inputs in `[0, b]` give outputs in `[0, b]` |
| `Smoothing.SmoothNonNegative` | peaksense/functions.py:176-179 | non-negative depths smooth to non-negative values |
| `Maxima.Contrast` | peaksense/functions.py:188-189 | the contrast has one value per smoothed position |
| `Maxima.ContrastSign` | peaksense/functions.py:188-189 | the contrast is zero where the sample is zero, and where the sample is positive its sign is that of sample minus control |
| `Maxima.RelMaxIffNeighbourhood` | peaksense/functions.py:190 | the clipped comparison holds iff the index is interior and strictly beats every other in-bounds value within distance `order` |
| `Maxima.LocalMaximaCharacterization` | peaksense/functions.py:190 | the maxima are strictly ascending, lie in `1..n-2`, are strict neighbourhood maxima, and every strict neighbourhood maximum is returned |
| `Maxima.PlateauDisqualifies` | peaksense/functions.py:190 | two equal neighbours are both rejected |
| `Maxima.LocalMaximaSeparated` | peaksense/functions.py:190 | two returned maxima are more than `order` apart |
| `Maxima.GetLocalMaxima` | peaksense/functions.py:183-192 | both dictionaries have exactly the requested chromosomes as keys, holding the contrast signal and its maxima |
| `Cleaning.KeepPeaksExact` | peaksense/functions.py:200-203 | a candidate is kept iff its contrast reaches the threshold; kept candidates stay in their order |
| `Cleaning.KeepPeaksIdempotent` | peaksense/functions.py:200-203 | cleaning cleaned candidates at the same threshold changes nothing |
| `Cleaning.KeepPeaksMonotone` | peaksense/functions.py:200-203 | a higher threshold keeps a subsequence of what a lower one keeps |
| `Cleaning.CleanChromosome` | peaksense/functions.py:200-203 | the append loop yields exactly the filtered candidates |
| `Cleaning.ReductionAsWritten` | peaksense/functions.py:204 | the percentage as written fails exactly when the chromosome has no candidates |
| `Cleaning.ReductionAsWrittenFailsWithoutCandidates` | peaksense/functions.py:204 | a flat contrast signal has no candidates, and the written percentage then divides by zero |
| `Cleaning.Reduction` | peaksense/functions.py:204 | corrected percentage: absent iff there are no candidates, otherwise within `[0, 100]`, 0 iff nothing was removed and 100 iff everything was |
| `Cleaning.ReductionAgreesWhenDefined` | peaksense/functions.py:204 | with at least one candidate, the corrected and the written percentage agree |
| `Cleaning.CleanPeaks` | peaksense/functions.py:196-207 | corrected `clean_peaks`: the cleaned dictionary has the candidates' keys, each holding that chromosome's kept candidates, never more than before, with its reduction report (absent for a chromosome without candidates, where the source raises) |
| `Bed.HalfWidth` | peaksense/functions.py:215-216 | `int(width / 2)` truncates the half width toward zero |
| `Bed.BedRecordsSound` | peaksense/functions.py:212-219 | every row is one base long, belongs to a listed chromosome, starts half a width (unclamped) before one of its maxima and is scored with the contrast there |
| `Bed.BedRecordsComplete` | peaksense/functions.py:212-219 | every maximum of every listed chromosome has its row |
| `Bed.BedRecordsCount` | peaksense/functions.py:212-219 | the frame has one row per maximum |
| `Bed.CleanedRecordsReachThreshold` | peaksense/functions.py:210-219 | when the maxima are the cleaned ones, every score reaches the harmonic threshold |
| `Bed.Split` | peaksense/functions.py:220 | `split('.')` yields at least one part and no part contains a dot |
| `Bed.JoinSplit` | peaksense/functions.py:220-221 | joining the parts of a split restores the string |
| `Bed.SplitJoin` | peaksense/functions.py:220-221 | splitting a join of dot-free parts restores the parts |
| `Bed.OutputFileNameComponents` | peaksense/functions.py:220-221 | the name's components are the kept components of the sample name, in their original order, followed by `peaksense` and `bed` |
| `Bed.OutputFileNameDropsExactly` | peaksense/functions.py:220-221 | no component of the name is `bam`, `sam` or `sorted`, and every other component of the sample name appears in it |
| `Bed.OutputFileNameSuffix` | peaksense/functions.py:221 | the name always ends in `peaksense.bed` |
| `Bed.MaximaToBed` | peaksense/functions.py:210-221 | the concatenation loop yields the rows of every chromosome in key order, and the file name is the derived one |

## Left out

- Reading BAM/BED files (`parse_bam`, `parse_bed`, functions.py:14-115) is file I/O through pysam and pybedtools. The model takes the reads as input. Coverage requires reads with `0 <= start < end`.
- Plotting (`visualize_peaks`, the plotting branches), tqdm progress reporting, every `print` diagnostic and the `to_csv` write are output only. `CleanPeaks` returns the reduction percentages instead of printing them. `MaximaToBed` returns the rows and the file name instead of writing the file.
- Floating-point rounding is not modelled. Depths, means, contrast and percentage are exact reals, and the `round(..., 4)` at functions.py:204 is not modelled.
- numpy and scipy internals are not modelled. The model states directly the windowed-mean rule and the clipped-extrema rule they implement.
- `Smoothing.Smooth` requires `k >= 1` and a non-empty input, where numpy raises an error. `LocalMaxima` requires `order >= 1`, where scipy raises an error.
- `Coverage.ChromosomeCoverage` requires that the chromosome has sample reads. Otherwise the array size is NaN and numpy raises. Selection already rules this case out.
- A chromosome list whose elements are not strings is not modelled. `str(chrom)` is the identity on the names modelled here.
- The command-line front end `peaksense/peaksense.py` is not part of this model. That includes its argument checks, its fixed quality threshold and maxima order, and its passing of the raw chromosome argument on to `get_local_maxima`. Also not modelled is `setup.py`, which is packaging only.
- Cleaning.CleanPeaks: models the corrected `clean_peaks`. On a chromosome without candidates the source divides by zero at functions.py:204 and aborts the whole call, while `CleanPeaks` records no percentage for it and carries on (see Findings).
- Real dictionaries keep insertion order, and the maps here do not. `GetLocalMaxima` and `CleanPeaks` model only what each key maps to. `MaximaToBed` takes the key order as an explicit sequence.
- The difference-array alternative to per-read slice increments is not modelled. Coverage is built the way the source builds it.

## Findings

| source | as written | input that shows it | evidently intended | confidence | as-written member | corrected member |
|---|---|---|---|---|---|---|
| peaksense/functions.py:204 | the reduction percentage divides the kept count by the candidate count | a chromosome whose contrast is flat (e.g. `[0, 0, 0]`) has no local maxima, so `peaks.shape[0]` is 0 and `clean_peaks` raises ZeroDivisionError | no percentage reported for a chromosome without candidates, and cleaning carries on | not executed | `Cleaning.ReductionAsWritten`, `Cleaning.ReductionAsWrittenFailsWithoutCandidates` | `Cleaning.Reduction`, `Cleaning.CleanPeaks` |
| peaksense/functions.py:247-252 | the third disjunct `start > r0 & end < r1` describes a read inside the range, which already has its start in range | a read `[0, 100)` on chromosome 1 and range `[10, 20]`: it covers the whole range but is not returned (and `[5, 10)`, which covers none of it, is returned because its exclusive end counts as inside) | return every read whose half-open span `[start, end)` contains a position of the range, including reads that enclose it | not executed | `Reads.FindOverlap`, `Reads.FindOverlapMissesCoveringRead`, `Reads.FindOverlapReturnsDisjointRead` | `Reads.FindOverlapIntended` |
