# Target orientation: pixel statistics and angle selection

This project models the original logic of `TargetOrientation.cpp`. That file
estimates the rotation of a bar-shaped target in an image. The model treats
that image as a single-channel 8-bit matrix, one sample per pixel. The file
holds three pieces worth verifying:

- **getMedian**: builds a 256-bin histogram. It then scans the bins upward with
  a running total and returns the first bin whose total exceeds
  `(rows * cols) / 2`. It returns -1 when no bin does.
- **getXPercentile**: copies all samples into a vector, in one of two ways. A
  continuous matrix is copied as one block; any other matrix is copied row by
  row. The vector is sorted ascending and the element at index
  `(int)(size * percentile)` is returned.
- **max_thetha**: scores the angles 0, 5, ..., 180. It pushes each
  `(score, angle)` pair into a vector, sorts the vector ascending and returns
  the angle of the last pair.

The model has four modules:

- `PixelStats` (`pixels.dfy`): the `Pixel` type (0..255), the count of samples
  below a threshold, the histogram and its running total, and the order
  statistic "the value at index k of the ascending sort".
- `Image` (`image.dfy`): a matrix `Mat` as a buffer with an offset and a row
  stride. It defines the rows, the row-major samples `Pixels`, and the single
  block of a continuous matrix.
- `Sorting` (`sorting.dfy`): an in-place ascending sort of an array under a
  total preorder. It is proved sorted and a permutation of its input. It stands
  for both `std::sort` calls.
- `TargetOrientation` (`target_orientation.dfy`): the three operations as
  imperative methods, plus the lemmas that relate them.

Main results:

- The percentile selector returns the order statistic at index
  `floor(n * percentile)`. That value is an actual sample; percentile 0 gives
  the minimum; and the result never decreases as the percentile grows.
- For a single-channel matrix, the block copy and the row-by-row copy produce
  the same row-major sequence.
- On a non-empty image the median scan never returns -1. It returns the
  smallest bin whose running total exceeds `n / 2`, which is the sorted sample
  at index `n / 2`. That is the same value as the percentile selector at 0.5.
- The angle search looks at exactly the 37 candidates and returns one of them.
  The returned angle has the largest score, and among tied scores it is the
  largest angle. The same angle comes out of a single running-maximum pass
  that keeps the later angle on ties.

The code computes `(rows * cols) / 2` in integer arithmetic and only then converts it to
`double`, so the model uses integer division.

## Model

| member | source | states |
|---|---|---|
| `PixelStats.CountBelow` | TargetOrientation.cpp:105-109 | the number of samples below a threshold is at most the number of samples; it is 0 below intensity 0 and all of them above 255 |
| `PixelStats.Histogram` | TargetOrientation.cpp:30-31 | a histogram bin never holds more than all samples, and it is non-empty exactly when its intensity occurs in the image |
| `PixelStats.CumHist` | TargetOrientation.cpp:33-36 | the running total `bin` after bins 0..i-1 equals the number of samples below intensity i |
| `PixelStats.CountBelowPermutation` | TargetOrientation.cpp:105 | sorting (any permutation) does not change how many samples lie below a threshold |
| `PixelStats.SortedOrderStatistic` | TargetOrientation.cpp:105-109 | in an ascending sequence the element at index k has at most k samples below it and more than k at or below it |
| `PixelStats.OrderStatisticUnique` | TargetOrientation.cpp:107-109 | the value at a given index of the ascending sort is unique, whichever sort produced it |
| `PixelStats.OrderStatisticMonotone` | TargetOrientation.cpp:107-109 | a larger sorted index never gives a smaller value |
| `PixelStats.OrderStatisticIsSample` | TargetOrientation.cpp:109 | the selected value is one of the image's samples, not an interpolated one |
| `PixelStats.OrderStatisticZeroIsMinimum` | TargetOrientation.cpp:105-109 | index 0 of the ascending sort is the smallest sample |
| `Image.Mat.Row` | TargetOrientation.cpp:102 | every row holds exactly `cols` samples, read from the row's own start in the buffer |
| `Image.Mat.Grid` | TargetOrientation.cpp:101-103 | the matrix view of the buffer: for every row r < `rows` and column c < `cols`, sample (r, c) lies inside the buffer at `offset + r * step + c` and is the value read there, as `ptr<uchar>(r)[c]` is |
| `Image.Mat.IsContinuous` | TargetOrientation.cpp:97-98 | a continuous matrix (one row, or rows without padding) keeps all `rows * cols` samples in one block from its first sample, so the block read stays inside the buffer |
| `Image.Flatten` | TargetOrientation.cpp:101-103 | the rows appended one after another, as the row loop inserts them at the end of the vector; every row fits inside the result (its layout is stated by `Image.FlattenLength` and `Image.FlattenAt`) |
| `Image.Pixels` | TargetOrientation.cpp:96-104 | the matrix's samples in row-major order; there are none exactly when the matrix has no rows or no columns |
| `Image.Mat.Span` | TargetOrientation.cpp:98 | the single block of a continuous matrix holds `rows * cols` samples |
| `Image.FlattenLength` | TargetOrientation.cpp:101-103 | appending `rows` rows of `cols` samples gives `rows * cols` samples |
| `Image.FlattenAt` | TargetOrientation.cpp:101-103 | after appending the rows, sample (r, c) sits at index `r * cols + c` |
| `Image.PixelCount` | TargetOrientation.cpp:21 | the image holds `rows * cols` samples, none exactly when one dimension is 0 |
| `Image.PixelAt` | TargetOrientation.cpp:96-104 | the flattened vector is in row-major order: index `r * cols + c` holds the stored sample of row r, column c |
| `Image.ContinuousAt` | TargetOrientation.cpp:97-98 | in a continuous matrix the k-th stored sample of the block is sample k of the row-major order |
| `Image.ContinuousSpanIsRowMajor` | TargetOrientation.cpp:97-104 | the block copy and the row-by-row copy give the same sequence |
| `Sorting.Sort` | TargetOrientation.cpp:105 | the array ends sorted ascending under the given total preorder and is a permutation of its old contents |
| `TargetOrientation.CalcHist` | TargetOrientation.cpp:30-31 | the histogram has 256 bins, and bin v holds the samples below v + 1 that are not below v, i.e. exactly the samples equal to v |
| `PixelStats.HistogramCountsEqual` | TargetOrientation.cpp:30-31 | the multiset count of value v equals the samples below v + 1 minus the samples below v |
| `TargetOrientation.GetMedian` | TargetOrientation.cpp:19-42 | returns -1 exactly when the image is empty; otherwise returns the smallest bin whose running total exceeds `n / 2`, which is the sorted sample at index `n / 2`; the scan visits `med + 1` bins (all 256 when it fails) and sets `med` at most once |
| `TargetOrientation.MedianBin` | TargetOrientation.cpp:33-41 | when the scan stops, a found bin is the order statistic at `n / 2`, and no bin is found exactly when there are no samples |
| `TargetOrientation.PercentileIndex` | TargetOrientation.cpp:107 | `floor(n * percentile)` lies in [0, n) for a non-empty image and a percentile in [0, 1) |
| `TargetOrientation.GetXPercentile` | TargetOrientation.cpp:95-110 | returns a sample of the image: the order statistic at index `floor(n * percentile)`, whether the matrix is read as one block or row by row |
| `TargetOrientation.SortedSelects` | TargetOrientation.cpp:105-109 | index k of a sorted permutation of the samples is the k-th order statistic of the samples and is one of them |
| `TargetOrientation.PercentileIndexMonotone` | TargetOrientation.cpp:107 | a larger percentile never gives a smaller index |
| `TargetOrientation.PercentileZeroIsMinimum` | TargetOrientation.cpp:105-109 | percentile 0 selects the minimum sample |
| `TargetOrientation.PercentileMonotone` | TargetOrientation.cpp:105-109 | the selected value never decreases as the percentile increases |
| `TargetOrientation.HalfPercentileIndex` | TargetOrientation.cpp:107 | percentile 0.5 gives index `n / 2`, the median's midpoint |
| `TargetOrientation.MedianIsHalfPercentile` | TargetOrientation.cpp:21-41 | the histogram median and the 0.5 percentile are the same value |
| `TargetOrientation.CandidateEnumeration` | TargetOrientation.cpp:63 | the candidate angles are exactly `5 * i` for i in 0..36 |
| `TargetOrientation.PairLe` | TargetOrientation.cpp:79 | the order `std::sort` leaves the pairs in: `x` precedes `y` exactly when `y < x` fails under the lexicographic `<` of `std::pair` (score first, then angle) |
| `TargetOrientation.CollectScores` | TargetOrientation.cpp:61-78 | the loop pushes exactly 37 pairs, pair i being (score(5i), 5i) |
| `TargetOrientation.SelectAngle` | TargetOrientation.cpp:79-82 | after the ascending sort the last pair is one of the pairs and is lexicographically at least every pair |
| `TargetOrientation.MaxTheta` | TargetOrientation.cpp:53-83 | returns a candidate angle of maximal score; every candidate with an equal score is at most that angle |
| `TargetOrientation.RunningBestIsBest` | TargetOrientation.cpp:79-82 | a running maximum that keeps the later angle when its score is at least as large yields the best candidate, ties going to the largest angle |
| `TargetOrientation.BestUnique` | TargetOrientation.cpp:79-82 | "maximal score, largest angle among ties" determines the angle uniquely |
| `TargetOrientation.MaxThetaIsRunningBest` | TargetOrientation.cpp:79-82 | the sort-then-take-last rule returns the same angle as the running-maximum pass |

## Left out

- main.cpp is not part of this model. It covers option parsing, image decoding, console output and timing, all of which are I/O. It also reads a `-b` option it never registers, which is out of scope here too.
- `SobelEdgeDetection` and `finalRotation` are not modelled. They only call library gradient, blending and resampling routines on floating-point data.
- The rotation, `warpAffine`, row-sum `reduce` and `minMaxLoc` inside `max_thetha` are not modelled. They are floating-point resampling in the vision library. Their combined result for an angle is the parameter `score: int -> real` of `MaxTheta`, and a score is never NaN.
- `TargetOrientation.CalcHist`: uses exact integer counts. The library keeps the histogram as `float` bins and `getMedian` rounds them back with `cvRound`; for counts below 2^24 both give the same numbers.
- `TargetOrientation.GetMedian`: returns an `int`. The source returns a `double`, but its only values are -1 and the bin indices 0..255, which are exact in both types. The `float` loop counter is also exact over 0..256.
- `TargetOrientation.PercentileIndex`: computes `n * percentile` over exact reals, taking `percentile` to be the exact value of the `double` argument. In the source the product is rounded to a `double` before truncation. When the exact product lies just below an integer, that rounding can reach the integer and select the next index.
- `TargetOrientation.GetXPercentile`: requires a non-empty image and a percentile in [0, 1). The source's behaviour is undefined for an empty image, and whenever the product `n * percentile` is at least `n` or at most -1, because the index then lies outside the vector. For a percentile in (-1/n, 0) the product lies in (-1, 0), and the conversion to `int` truncates it toward zero to index 0, so the source returns the minimum sample. The model does not cover that case, because it requires a percentile of at least 0. On that domain the product is non-negative, so the model's floor and the source's truncation toward zero agree.
- `Image.Mat.Span`: assumes the block of a continuous matrix starts at its first sample. That holds for a matrix that owns its buffer, which is what the program passes in. For a region-of-interest view the library's `datastart`/`dataend` bound the parent's buffer instead; the model does not represent parent buffers.
- `Image.ContinuousSpanIsRowMajor` and `Image.Mat`: the model is single-channel, one 8-bit sample per pixel. main.cpp:56 loads the image with the default colour flag of `imread`, so the matrix that is blurred and passed to `getXPercentile` (main.cpp:70-76) has three channels. A continuous 3-channel matrix is read by the block branch exactly as the model's matrix with `cols * 3` columns. The row branch, however, copies from `ptr<uchar>(i)` to `ptr<uchar>(i) + cols`, which is only the first third of each row's bytes. So with more than one channel the two branches disagree, and the equality of the two copies is proved here for one channel only. `calcHist` in `getMedian` reads channel 0 alone, which is the model's single-channel matrix of that channel.
- `Image.PixelCount`: uses unbounded `rows * cols`. The source multiplies two `int`s, which could overflow for images with more than 2^31 samples.
- `Sorting.Sort`: an insertion sort stands in for `std::sort`. Both leave the same array, because a sorted permutation of a sequence is unique up to equal elements. Equal pixels are indistinguishable, and equal `(score, angle)` pairs are identical.
- The declarations and doc comments in TargetOrientation.h are not modelled. Several of the comments describe the wrong function.
