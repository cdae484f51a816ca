# Ratio test of the step-3 object-recognition matcher

This project models the 2-nearest-neighbour ratio test of the object
recognition learning material, step 3. The brute-force Hamming matcher
returns one row per target descriptor. Each row holds the two nearest model
descriptors as match records `(queryIdx, trainIdx, distance)`. `queryIdx`
indexes the target keypoints and `trainIdx` the model keypoints.

`do_2_nn_ratio_filtering` unpacks each row into (nearest, second nearest). It
keeps the nearest match exactly when `nearest.distance < 0.8 * second.distance`.
Kept matches stay in input order.

The model has two modules:

- `ImageMatching` (`image_matching.dfy`) holds the data model, the threshold
  constant `MatchRatioThreshold` (exactly 4/5 as a Dafny real) and the test
  `PassesRatioTest`. It also holds the recursive specification `RatioFilter`
  and `DoRatioFiltering`, an imperative mirror of the source's `for`/`append`
  loop over raw matcher rows. A row that does not hold exactly two matches
  makes the source's tuple unpacking raise. The method models this as the
  result `UnpackFailed(row, got)`, so it is an error path and not a
  precondition.
- `RatioFilterProperties` (`ratio_filter_properties.dfy`) holds the
  properties. They cover the test in integer form, its strict boundary, the
  zero runner-up case, and an exact characterisation of the filter's output
  proved in both directions. That characterisation is the ordered selection
  of the passing pairs' nearest matches.

With the strict `<` on line 16 of image_matching.py, a pair whose runner-up
is at distance 0 is rejected even when its nearest is also at distance 0 (an
exact duplicate descriptor), because `0 < 0.8 * 0` is false.
`ZeroSecondNeverPasses` states this.

## Model

| member | source | states |
|---|---|---|
| ImageMatching.PassesRatioTest | object-recognition/step3/image_matching.py:16 | the nearest distance is strictly below 4/5 (the constant of line 4) times the second-nearest distance, in exact rationals |
| ImageMatching.RatioFilter | object-recognition/step3/image_matching.py:12-18 | the output is never longer than the input, so an empty input gives an empty output |
| ImageMatching.RatioFilterSingle | object-recognition/step3/image_matching.py:16-17 | one pair contributes its nearest match exactly when it passes the test, and nothing otherwise |
| ImageMatching.RatioFilterAppend | object-recognition/step3/image_matching.py:14-18 | the single-pass append loop makes the filter distribute over concatenation of its input |
| ImageMatching.DoRatioFiltering | object-recognition/step3/image_matching.py:12-18 | the loop succeeds exactly when every row unpacks into two matches, and then returns the filter's specification applied to the unpacked pairs; otherwise it fails at the first row of another length and reports that length |
| RatioFilterProperties.RatioTestAsIntegers | object-recognition/step3/image_matching.py:16 | with threshold 0.8 on Hamming distances the test is the integer comparison 5 * nearest < 4 * second |
| RatioFilterProperties.ThresholdIsExclusive | object-recognition/step3/image_matching.py:16 | a pair exactly at the threshold, such as distances 4 and 5, is rejected |
| RatioFilterProperties.ZeroSecondNeverPasses | object-recognition/step3/image_matching.py:16 | a pair whose runner-up is at distance 0 never passes, not even with a nearest distance of 0 |
| RatioFilterProperties.KeptStrictlyCloser | object-recognition/step3/image_matching.py:16-17 | a passing pair's nearest match is strictly closer than its runner-up, so the kept match is never the pair's second entry |
| RatioFilterProperties.ExampleRun | object-recognition/step3/image_matching.py:14-18 | on three rows (at the threshold, clearly closer, zero runner-up) only the clearly closer row's nearest match is kept |
| RatioFilterProperties.ZeroSecondContributesNothing | object-recognition/step3/image_matching.py:15-17 | inserting a zero-runner-up pair anywhere in the input leaves the output unchanged |
| RatioFilterProperties.RatioFilterSoundAndComplete | object-recognition/step3/image_matching.py:15-17 | soundness: every kept match is the nearest of some input pair that passes the ratio test; completeness: the nearest of every passing pair is kept |
| RatioFilterProperties.SecondNeverKept | object-recognition/step3/image_matching.py:15-17 | when row i holds the matches for target descriptor i (the matcher's row shape), no row's second-nearest entry appears anywhere in the output |
| RatioFilterProperties.RatioFilterIsOrderedSelection | object-recognition/step3/image_matching.py:15-17 | the output is the nearest matches of exactly the passing pairs, at strictly increasing input positions (a subsequence of the nearest entries, in input order) |
| RatioFilterProperties.OrderedSelectionIsRatioFilter | object-recognition/step3/image_matching.py:15-17 | conversely, any sequence that selects, in order, the nearest matches of exactly the passing pairs equals the filter's output |

## Left out

- `do_2_nn_brute_force_matching_hamming` (image_matching.py lines 6-10) is a wrapper over OpenCV's brute-force Hamming `knnMatch`, whose code is not visible. Its output is represented only as the input type of `DoRatioFiltering`: rows of match records.
- `remove_duplicate_mappings` and `filter_with_homography` are called from step3/main.py lines 70-71, but their definitions are not part of this model. The file that should hold them ends after the ratio filter, so there is no code to model them against.
- Image loading, rescaling and smoothing (the `image_loading.py` files), AKAZE detection (step2), and the `main.py` files are out of scope. They are file I/O and foreign OpenCV calls, with a small scale-factor and interpolation choice around `cv2.resize` (step3/image_loading.py:24-37), plus argument parsing, logging and window display. Both branches of the scale-factor conditional (step3/image_loading.py:24, step1/1-load_image_and_rescale/image_loading.py:11) divide by `original_width`, although the comment above it speaks of the longest side.
- The match record's `imgIdx` field is left out, because the filter never reads it. Distances are modelled as natural numbers. OpenCV stores a Hamming distance as a float with an integral value.
- RatioFilter: the test is modelled in exact rational arithmetic. Python's double product `0.8 * d2` is not modelled bit for bit. For integral `d2` the double product never lands on the other side of an integer from the exact `4 * d2 / 5` while `d2` is below about 2^49. That includes the boundary case `d1 = 4`, `d2 = 5`, which both reject. This bound is far above any Hamming distance between descriptors a few hundred bits long.
- The output is a list of single matches. Passing it back to `do_2_nn_ratio_filtering` would raise at the unpacking on line 15, so no idempotence property is stated.
- SecondNeverKept: matches are compared by value, not by Python object identity. Without the matcher's row shape (row i's entries carry query index i) a runner-up of one row can equal, as a value, a kept nearest match of another row, so the lemma assumes that row shape.
- The source's tuple unpacking also accepts any two-element iterable. The model's rows are sequences of match records only.
