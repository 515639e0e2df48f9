# Best-view camera selection: the discrete core

Ascent's camera-simplex filter picks a viewpoint for a mesh. It renders the mesh from
each camera of a 100 x 100 grid (theta outer, phi inner), scores every rendering with
one of nine viewpoint metrics and keeps the best one. It also writes the whole score
surface to `<metric>.bin`.

This project models the part of that pipeline that is not rendering or geometry.

- **The grid search** (`GridSearch`):
  - the double loop fills a dense score buffer;
  - the running best is seeded with `-DBL_MAX` and replaced only on a strict `>`, so the first maximum in row-major order wins;
  - the indices stay `-1` when no score beats the seed;
  - the data file is named by a `strcpy` into a `char` array followed by `.bin`;
  - the file's contents are the buffer row after row.
  - The render-and-score step is the parameter `score(i, j)`.
- **Distinct visible triangles** (`VisibleTriangles`):
  - nine per-pixel corner buffers X0..Z2 are given;
  - each pixel whose X0 is not NaN yields one 9-tuple;
  - the tuples are sorted lexicographically and adjacent duplicates are erased, which gives the distinct triangles in strictly increasing order;
  - `visible_triangles` is how many there are.
- **The binning half of the entropy metrics** (`Entropy`):
  - NaN pixels are replaced by the sentinel `-FLT_MAX`;
  - `calcentropy2` takes the extreme absolute values and returns early on a zero step;
  - otherwise it counts every value into one of `nBins` equal-width bins, clamping the top edge into the last bin.
- **`max_depth`** (`MaxDepth`): the running maximum of the non-NaN depths, seeded with `-FLT_MAX`.
- **`calculateMetric2`** (`MetricDispatch`): nine names select a scoring routine and the arguments it gets; every other name is an error.

Floats (`Floats`) are `NaN`, `-inf`, a finite real or `+inf`. With a NaN operand, the C comparisons `<`, `>`, `<=`, `>=` and `==` are false and `!=` is true; so `x != x` holds exactly for NaN. `FLT_MAX` and `DBL_MAX` are their exact values.

Some consequences proved about the model:
- An all-NaN frame has no visible triangles, and its entropy histogram has a zero step.
- A `-FLT_MAX` score still beats the seed `-DBL_MAX`.
- Sort-and-unique is idempotent.
- On any frame with both background (NaN) and data pixels whose magnitudes stay below `FLT_MAX / 100`:
  - the sentinel's |value| of `FLT_MAX` becomes the maximum;
  - every data pixel falls into bin 0 and every background pixel into bin 99;
  - so the 100-bin histogram degenerates to two bins (`Entropy.SentinelSplitsTwoBins`).

Details of the code that the model keeps:
- The running best starts at `-DBL_MAX`. So a score of `-inf`, or one exactly `-DBL_MAX`, never becomes the winner.
- `max_depth` of an all-NaN frame is `-FLT_MAX`.
- The score file is written in one pass after the double loop.
- An unsupported metric name still creates the empty `<metric>.bin` file before the first sample's dispatch raises the error.

## Model

| member | source | states |
|---|---|---|
| `GridSearch.Track` | src/ascent/runtimes/flow_filters/ascent_runtime_simplex_filters.cpp:2215-2219 | One update of the best: the result is the old best, or the new sample when its score is strictly greater. The best score never decreases. A NaN score or a tie leaves the old winner. |
| `GridSearch.Scan` | src/ascent/runtimes/flow_filters/ascent_runtime_simplex_filters.cpp:2183-2222 | The best after the samples before (i, j) in row-major order (theta outer, phi inner). It is either the initial (-DBL_MAX, -1, -1) or a sample already visited, carrying that sample's score. |
| `GridSearch.ScanFacts` | src/ascent/runtimes/flow_filters/ascent_runtime_simplex_filters.cpp:2183-2222 | After any prefix of the row-major enumeration, the best score is never NaN and is at least -DBL_MAX and at least every non-NaN score seen. With indices -1, the best is still the seed and no score exceeded -DBL_MAX. Otherwise the winner is a visited sample whose score equals the best, and no earlier sample had that score (ties keep the first). |
| `GridSearch.SearchGrid` | src/ascent/runtimes/flow_filters/ascent_runtime_simplex_filters.cpp:2183-2222 | The buffer is numTheta x numPhi with `buffer[i][j] == score(i, j)` everywhere. The returned winning score and indices are those of the row-major scan specified by `Scan`. |
| `GridSearch.NoScoreAboveSeedKeepsNoWinner` | src/ascent/runtimes/flow_filters/ascent_runtime_simplex_filters.cpp:2158-2160 | If no score exceeds -DBL_MAX (for instance all are NaN), the tracker ends as it began: -DBL_MAX at (-1, -1). |
| `GridSearch.FltMaxSentinelBeatsSeed` | src/ascent/runtimes/flow_filters/ascent_runtime_simplex_filters.cpp:2215-2219 | A grid whose every score is -FLT_MAX is won by its first sample (0, 0) with score -FLT_MAX, because -FLT_MAX > -DBL_MAX. |
| `GridSearch.TwoByTwoScenario` | src/ascent/runtimes/flow_filters/ascent_runtime_simplex_filters.cpp:2215-2219 | On the grid [[1, 5], [3, 2]] the winner is (0, 1) with score 5. |
| `GridSearch.CString` | src/ascent/runtimes/flow_filters/ascent_runtime_simplex_filters.cpp:2174 | The string a char array holds is a NUL-free prefix of it, followed by a NUL whenever it is shorter than the array. |
| `GridSearch.DataFileName` | src/ascent/runtimes/flow_filters/ascent_runtime_simplex_filters.cpp:2173-2179 | For a metric name without NUL, the file name is `metric + ".bin"`. For one that holds a NUL, the suffix is lost and the name is the metric up to its first NUL. |
| `GridSearch.WriteRows` | src/ascent/runtimes/flow_filters/ascent_runtime_simplex_filters.cpp:2226-2228 | The file holds rows x columns floats, and position p holds `buffer[p / columns][p % columns]`. |
| `GridSearch.Execute` | src/ascent/runtimes/flow_filters/ascent_runtime_simplex_filters.cpp:2157-2230 | The file is `<metric>.bin`, or the metric up to its first NUL when the name holds one. For one of the nine metric names it holds 100 * 100 floats, where position p holds `score(p / 100, p % 100)`, and the search completes with the winner's indices from the row-major scan. For any other name the file stays empty and the search aborts with the "not supported" error. |
| `Frame.PixelCount` | src/ascent/runtimes/flow_filters/ascent_runtime_simplex_filters.cpp:1496 | The number of pixels the loops visit: the product height*width when positive, otherwise 0. |
| `VisibleTriangles.LexLess` | src/ascent/runtimes/flow_filters/ascent_runtime_simplex_filters.cpp:1516 | The vector `<` that `std::sort` uses: `a < b` iff at some index k, all entries before k are pairwise neither smaller nor larger, and then either `a` ends while `b` continues, or `a[k] < b[k]`. |
| `VisibleTriangles.TupleEq` | src/ascent/runtimes/flow_filters/ascent_runtime_simplex_filters.cpp:1517 | The vector `==` that `std::unique` uses: it holds iff the vectors are equal and contain no NaN. |
| `VisibleTriangles.CoveredMembers` | src/ascent/runtimes/flow_filters/ascent_runtime_simplex_filters.cpp:1508-1515 | The pushed tuples number at most the pixels visited. A tuple is pushed iff some visited pixel with non-NaN X0 has exactly those nine values. |
| `VisibleTriangles.CollectTuples` | src/ascent/runtimes/flow_filters/ascent_runtime_simplex_filters.cpp:1507-1515 | The push_back loop yields one tuple per covered pixel, in pixel order. |
| `VisibleTriangles.SortTuples` | src/ascent/runtimes/flow_filters/ascent_runtime_simplex_filters.cpp:1516 | The array ends sorted by lexicographic `<` and is a permutation of its old contents. |
| `VisibleTriangles.DedupAdjacent` | src/ascent/runtimes/flow_filters/ascent_runtime_simplex_filters.cpp:1517 | Erasing adjacent duplicates never lengthens a sequence, empties only the empty one, and keeps its last element last. |
| `VisibleTriangles.Unique` | src/ascent/runtimes/flow_filters/ascent_runtime_simplex_filters.cpp:1517 | std::unique in place: the prefix up to the returned length is the old contents with adjacent duplicates removed. |
| `VisibleTriangles.DedupAdjacentElements` | src/ascent/runtimes/flow_filters/ascent_runtime_simplex_filters.cpp:1517 | Erasing adjacent duplicates keeps exactly the same set of values. |
| `VisibleTriangles.DedupSortedIsStrict` | src/ascent/runtimes/flow_filters/ascent_runtime_simplex_filters.cpp:1516-1517 | Sort then unique gives a strictly increasing sequence, which therefore has no duplicates. |
| `VisibleTriangles.DedupAgainIsIdentity` | src/ascent/runtimes/flow_filters/ascent_runtime_simplex_filters.cpp:1516-1517 | Sort-and-unique is idempotent: a sorted permutation of its output dedups back to that output. |
| `VisibleTriangles.StrictlySortedCardinality` | src/ascent/runtimes/flow_filters/ascent_runtime_simplex_filters.cpp:1518 | The size of a strictly increasing list is the number of distinct values in it. |
| `VisibleTriangles.DistinctVisibleTriangles` | src/ascent/runtimes/flow_filters/ascent_runtime_simplex_filters.cpp:1496-1517 | The list is strictly increasing. A tuple is in it iff some pixel below height*width with non-NaN X0 shows that tuple. It is no longer than height*width. |
| `VisibleTriangles.CalculateVisibleTriangles` | src/ascent/runtimes/flow_filters/ascent_runtime_simplex_filters.cpp:1455-1521 | The score is the number of distinct tuples seen at covered pixels, and it is at most height*width. |
| `VisibleTriangles.EmptyFrameHasNoTriangles` | src/ascent/runtimes/flow_filters/ascent_runtime_simplex_filters.cpp:1508-1515 | A frame whose every X0 is NaN shows no triangle. |
| `Entropy.Sanitize` | src/ascent/runtimes/flow_filters/ascent_runtime_simplex_filters.cpp:1402-1404 | Preprocessing keeps the length, turns NaN entries below `size` into -FLT_MAX and leaves every other entry unchanged. When `size` covers the buffer, no NaN is left. |
| `Entropy.ReplaceNaN` | src/ascent/runtimes/flow_filters/ascent_runtime_simplex_filters.cpp:1443-1445 | The in-place loop leaves the buffer equal to `Sanitize` of its old contents. |
| `Entropy.MinMaxAbsBounds` | src/ascent/runtimes/flow_filters/ascent_runtime_simplex_filters.cpp:990-996 | The folded min and max bound every |a[i]| from below and above, and each is attained by some element. |
| `Entropy.AbsRange` | src/ascent/runtimes/flow_filters/ascent_runtime_simplex_filters.cpp:990-996 | The first loop returns the least and the largest absolute value of the array. |
| `Entropy.BinOf` | src/ascent/runtimes/flow_filters/ascent_runtime_simplex_filters.cpp:1007-1010 | For a value within the bins, the truncated and clamped index k lies in [0, nBins), and the value lies in bin k's interval [lo + k*step, lo + (k+1)*step]. |
| `Entropy.ExtremeBins` | src/ascent/runtimes/flow_filters/ascent_runtime_simplex_filters.cpp:1007-1009 | The largest value is clamped from index nBins into bin nBins - 1, and the smallest lands in bin 0. |
| `Entropy.ValuesInRange` | src/ascent/runtimes/flow_filters/ascent_runtime_simplex_filters.cpp:990-997 | With step (max - min) / nBins, every |a[i]| lies between min and min + step * nBins. |
| `Entropy.HistogramCounts` | src/ascent/runtimes/flow_filters/ascent_runtime_simplex_filters.cpp:1001-1011 | Counter k of the histogram is the number of values whose bin is k. |
| `Entropy.HistogramCountsAll` | src/ascent/runtimes/flow_filters/ascent_runtime_simplex_filters.cpp:1001-1011 | Every counter is non-negative and the counters sum to the number of values. |
| `Entropy.UnhitBinEmpty` | src/ascent/runtimes/flow_filters/ascent_runtime_simplex_filters.cpp:1001-1011 | A bin that no value falls into keeps its zero count. |
| `Entropy.CountIntoBins` | src/ascent/runtimes/flow_filters/ascent_runtime_simplex_filters.cpp:1001-1011 | Zeroing the `long` array and incrementing `hist[(int)idx]` for every element gives the histogram `HistogramOf`, whose counter k is the number of values in bin k. |
| `Entropy.ZeroStepIffUniform` | src/ascent/runtimes/flow_filters/ascent_runtime_simplex_filters.cpp:997-999 | calcentropy2 takes the early zero-step return iff all |a[i]| are equal. |
| `Entropy.BinsCountAll` | src/ascent/runtimes/flow_filters/ascent_runtime_simplex_filters.cpp:1001-1011 | When the step is not zero, there are nBins non-negative counts summing to len. |
| `Entropy.CalcEntropyBins` | src/ascent/runtimes/flow_filters/ascent_runtime_simplex_filters.cpp:988-1011 | calcentropy2 up to the log sum computes `Binned`: either the zero step, or the minimum, the step and the histogram. |
| `Entropy.BufferEntropyBins` | src/ascent/runtimes/flow_filters/ascent_runtime_simplex_filters.cpp:1400-1407 | The data_entropy / depth_entropy binning is 100 bins over the NaN-sanitised copy of the buffer. |
| `Entropy.UniformFieldHasZeroStep` | src/ascent/runtimes/flow_filters/ascent_runtime_simplex_filters.cpp:997-999 | A constant field gives a zero step, so the entropy is 0. |
| `Entropy.EmptyFrameHasZeroStep` | src/ascent/runtimes/flow_filters/ascent_runtime_simplex_filters.cpp:1441-1448 | An all-NaN frame becomes all -FLT_MAX, which gives a zero step. |
| `Entropy.SentinelExtremes` | src/ascent/runtimes/flow_filters/ascent_runtime_simplex_filters.cpp:1402-1407 | On a frame with background and with data below FLT_MAX / 100, the largest |value| after preprocessing is FLT_MAX and the smallest is a data value. |
| `Entropy.SentinelSplitsTwoBins` | src/ascent/runtimes/flow_filters/ascent_runtime_simplex_filters.cpp:1400-1407 | On such a frame, every background pixel is counted in bin 99 and every data pixel in bin 0. Bins 1..98 stay empty. |
| `MaxDepth.CalculateMaxDepth` | src/ascent/runtimes/flow_filters/ascent_runtime_simplex_filters.cpp:1690-1721 | The result is not NaN and is at least -FLT_MAX and at least every non-NaN depth below height*width. It is either -FLT_MAX or one of those depths, and exactly -FLT_MAX when all are NaN. |
| `MetricDispatch.CalculateMetric` | src/ascent/runtimes/flow_filters/ascent_runtime_simplex_filters.cpp:1773-1819 | A routine is chosen iff the name is one of the nine. Any other name gives the "not supported" error. The chosen routine carries that name and receives the caller's field name, triangle list or camera as its branch passes them. `pb` gets `total_triangles = all_triangles.size()`. |
| `MetricDispatch.NameSelectsCall` | src/ascent/runtimes/flow_filters/ascent_runtime_simplex_filters.cpp:1778-1816 | Naming and dispatch are inverse: every routine is reached by its own name, with the arguments the chain gives it. |
| `MetricDispatch.FieldNameOnlyForDataEntropy` | src/ascent/runtimes/flow_filters/ascent_runtime_simplex_filters.cpp:1778-1781 | For every name other than `data_entropy`, the field name does not affect the dispatch. |

## Left out

- The multi-process branches (rank 0 computes, then the result is broadcast): only the single-process paths are modelled.
- Rendering and the data-set plumbing. The scalar renderer and the buffer extraction are not part of this model. The rendered buffers and the `score(i, j)` of a camera are inputs.
- Camera placement and all geometry:
  - the grid camera `GetCamera3`;
  - the Fibonacci-sphere cameras;
  - triangle transformation and areas.
  These need trigonometry and floating-point numerics. The winner's camera is not rebuilt from `(winning_i, winning_j)`, so `Execute` stops at the indices.
- The metrics built on logarithms and float ratios are left out, since they need `log` and rounding division:
  - the entropy sum `-Σ p·ln p` of `calcentropy2`;
  - viewpoint entropy;
  - VKL;
  - visibility ratio;
  - projected area;
  - the ratios of `pb`.
  Their shared triangle extraction is the `VisibleTriangles` model. `MetricDispatch` models which routine each name selects, not the score it returns.
- Floating-point rounding, the sign of zero, and the float/double widths. Values are exact reals. The float scores are promoted to double exactly, so one `Float` type serves both.
- `CalculateVisibleTriangles`: the count is returned as the exact real; its rounding to a float above 2^24 is not modelled.
- `SortTuples`: an insertion sort stands in for `std::sort`. Only the contract they share is modelled: sorted by `<`, and a permutation.
- `PixelCount`: the `int` product `height*width` is taken without 32-bit overflow. A negative or zero product gives loops that do not run.
- `WellFormed`: the selector tests only X0 for NaN, so the model assumes the renderer writes the nine corner values together. Sorting tuples that hold NaN has no defined order.
- `CalcEntropyBins` requires a non-empty array, at least one bin, and finite values. `calcentropy2` reads `array[0]`, and casting an infinite or NaN index to `int` is undefined.
- `BufferEntropyBins` requires the buffer to hold exactly height*width values, since it is copied into a `float[size]` array.
- `Execute`: for an unsupported name, the abort is modelled as a check before the loop. The rendering of sample (0, 0) that comes before the error and the exception mechanism itself are not modelled.
- The opening, writing and closing of the data file, and what happens when opening fails: only the file name and the byte layout are modelled.
- Progress output, timing and the filter's parameter checks.
- The code that is commented out: the old metric dispatch, the silhouette metrics, and the top-three refinement search.
