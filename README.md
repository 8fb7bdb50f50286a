# Two-card symbol comparison — a Dafny model

This project models the decision and control logic of the DoubleGameVision
test application (`Source/test_two_source/App/main.cpp`). The application
finds the circular cards in a photograph, brings every card to one size,
extracts the printed symbols ("objects") of each card and decides, for each
pair of cards, which pair of objects the two cards share.

The image processing is done by OpenCV and by the `CardDetector` class. Here
its results are inputs:

- the number of objects on each card;
- for object `i` of card `k` and object `j` of card `l`, the keypoint
  correspondences (`KeyMatch`: query index, train index, distance) that the
  FLANN matcher returns.

The model is made of five modules:

- `Wrappers` holds an `Option` type.
- `GoodMatches` decides one object pair. It sorts the correspondences in
  place on an array (insertion sort standing in for `std::sort`). It then
  collects the good ones, those with distance below 0.30, with a loop, as
  `push_back` does. The pair is accepted when at least 10 are good. The
  method is proved against the filter specification `GoodOf` and the
  predicate `Accepted`. With the verbose flag set, it also reports the least
  and greatest distance (the trace that reads the first and last element).
- `ObjectSearch` models the nested `i`/`j` loops over the objects of two
  cards. They keep the `matchFound` flag and both `break`s, and the model is
  proved equal to a pure specification: the first accepted pair in
  row-major order (`PairMatch`), and the list of pairs evaluated up to it
  (`Evaluated`).
- `CardPairing` models the worklist of cards that `takeFirst()` consumes. It
  is proved to compare each pair `(k, l)` with `k < l` exactly once, in
  lexicographic order. That is `n(n-1)/2` comparisons. A match found for
  one pair never stops the others.
- `Driver` models the entry point. It gives the exit outcomes for a wrong
  argument count, a missing directory, no images and no cards, and the
  normal end after the one selected image. It also models the pre-scaling
  branch and the shared card size `(cardSizeMin + cardSizeMax)/2`, computed
  with C++ truncating division.

About the distance threshold: `goodDistance` is the `float` 0.30f. No
`float` lies strictly between 0.3 and 0.30f, so for every distance a `float`
can hold, `d < 0.30f` holds exactly when `d < 0.3` holds over the reals.
The model therefore uses the real constant 0.30.

## Model

| member | source | states |
|---|---|---|
| GoodMatches.SelectGoodMatches | Source/test_two_source/App/main.cpp:210-219 | the loop's good list is exactly `GoodOf` of its input: the correspondences with distance below 0.30, in input order |
| GoodMatches.SortMatches | Source/test_two_source/App/main.cpp:204-205 | after the in-place sort the array is ascending by distance and is a permutation (same multiset) of the original |
| GoodMatches.EvaluatePair | Source/test_two_source/App/main.cpp:199-234 | the pair is accepted iff at least 10 of the matcher's correspondences are good; the good list is ascending by distance and holds exactly the good correspondences with their multiplicities; in verbose mode (which needs a non-empty list) it reports the least and greatest distance present |
| GoodMatches.GoodOfExactly | Source/test_two_source/App/main.cpp:210-219 | every kept correspondence is good, and each good correspondence is kept as many times as it occurs in the input; no bad one is kept |
| GoodMatches.GoodOfMembers | Source/test_two_source/App/main.cpp:212-219 | a correspondence is kept iff it is in the input and its distance is below 0.30 |
| GoodMatches.GoodOfSorted | Source/test_two_source/App/main.cpp:204-219 | filtering a list sorted by distance yields a list sorted by distance |
| GoodMatches.GoodOfSortedIsPrefix | Source/test_two_source/App/main.cpp:204-219 | on a sorted list the good correspondences are exactly a prefix, and everything after it is not good |
| GoodMatches.GoodCountPermutation | Source/test_two_source/App/main.cpp:204-232 | reordering the correspondences (as the sort does) changes neither the good multiset, nor their count, nor the accept decision |
| GoodMatches.AllGoodThreshold | Source/test_two_source/App/main.cpp:232-232 | with all correspondences good, the pair is accepted iff there are at least 10: nine are rejected, ten accepted |
| ObjectSearch.GridLength | Source/test_two_source/App/main.cpp:162-185 | the cross product of the two cards' objects has n1 * n2 pairs |
| ObjectSearch.GridMembers | Source/test_two_source/App/main.cpp:162-185 | the cross product holds exactly the pairs (i, j) with i < n1 and j < n2 |
| ObjectSearch.GridOrdered | Source/test_two_source/App/main.cpp:162-185 | the loops visit pairs in strictly increasing row-major order, so none twice |
| ObjectSearch.FirstAccepted | Source/test_two_source/App/main.cpp:162-283 | the index returned is accepted and every earlier index rejected; no index means every pair is rejected |
| ObjectSearch.FirstAcceptedUnique | Source/test_two_source/App/main.cpp:162-283 | an accepted pair with only rejected pairs before it is the one the search stops at |
| ObjectSearch.PairMatchIsFirst | Source/test_two_source/App/main.cpp:162-283 | the reported pair is (i, j) iff it is in bounds, accepted, and every in-bounds pair before it in row-major order is rejected |
| ObjectSearch.NoPairMatch | Source/test_two_source/App/main.cpp:162-283 | nothing is reported iff every one of the n1 * n2 pairs is rejected, and then all n1 * n2 pairs are evaluated |
| ObjectSearch.NothingAfterMatch | Source/test_two_source/App/main.cpp:232-281 | once a pair is reported, no pair after it in row-major order is evaluated, and the reported pair is the last one evaluated |
| ObjectSearch.MatchAt | Source/test_two_source/App/main.cpp:232-245 | an accepted (i, j) reached with all earlier pairs rejected ends the search there, having evaluated exactly the pairs up to it |
| ObjectSearch.ReachedIsEvaluated | Source/test_two_source/App/main.cpp:162-245 | a pair the loops reach with every earlier pair rejected is among the evaluated pairs, at its row-major position |
| ObjectSearch.CompareObjects | Source/test_two_source/App/main.cpp:162-283 | the nested loops with `matchFound` and two breaks report the first accepted pair in row-major order (or none) and evaluate exactly the pairs up to it (or all); in verbose mode only the evaluated pairs need non-empty correspondence lists |
| ObjectSearch.OneByTwoTrace | Source/test_two_source/App/main.cpp:199-281 | one object against two with the first pair accepted: only (0, 0) is evaluated, so an empty list for (0, 1) is never read by the verbose trace |
| ObjectSearch.TwoByTwoExample | Source/test_two_source/App/main.cpp:162-283 | two objects per card with only (1, 0) accepted: (1, 0) is reported and the pairs evaluated are (0, 0), (0, 1), (1, 0), never (1, 1) |
| CardPairing.AllCardPairsCount | Source/test_two_source/App/main.cpp:137-150 | n cards give n(n-1)/2 card comparisons, none when n <= 1 |
| CardPairing.AllCardPairsMembers | Source/test_two_source/App/main.cpp:137-150 | the compared card pairs are exactly the (k, l) with k < l < n |
| CardPairing.AllCardPairsOrdered | Source/test_two_source/App/main.cpp:137-150 | the card pairs come in strictly increasing lexicographic order, so each is compared once |
| CardPairing.CompareWithRemaining | Source/test_two_source/App/main.cpp:150-288 | the taken card is compared with every card left on the worklist, in order, and each comparison reports its own first accepted object pair; in verbose mode only the object pairs those comparisons evaluate need non-empty correspondence lists |
| CardPairing.CompareCards | Source/test_two_source/App/main.cpp:137-289 | the takeFirst worklist terminates, compares exactly the pairs (0,1),(0,2),...,(1,2),... in that order, n(n-1)/2 in all whatever matches are found, and records for each the object pair its comparison reports; in verbose mode only the object pairs evaluated for the compared card pairs k < l need non-empty correspondence lists |
| Driver.Half | Source/test_two_source/App/main.cpp:112-112 | C++ division by two, truncated toward zero: for x >= 0 the h with 2h <= x <= 2h + 1, for x < 0 the h with 2h - 1 <= x <= 2h |
| Driver.UniDim | Source/test_two_source/App/main.cpp:112-112 | the shared card side lies between cardSizeMin and cardSizeMax whenever cardSizeMin <= cardSizeMax |
| Driver.UniDimOfDefaults | Source/test_two_source/App/main.cpp:75-112 | with the bounds 100 and 400 the shared side is 250 |
| Driver.Prescaled | Source/test_two_source/App/main.cpp:90-92 | an image is downscaled iff its row count or its column count exceeds 700 |
| Driver.ExitCode | Source/test_two_source/App/main.cpp:43-293 | exit code 1 exactly for a missing directory or no images, 0 for help, no cards and a completed comparison, and none defined when a fourth image is read from a shorter list |
| Driver.Run | Source/test_two_source/App/main.cpp:43-293 | argc other than 2 gives help; a missing directory, no image files, and fewer than four files give their outcomes; otherwise only the fourth listed file is processed, downscaled iff `Prescaled` holds of its size, ending with no cards or with every card pair compared |

## Left out

- OpenCV and `CardDetector` work is not modelled: image reading, resizing, circle detection, `uniformSize`, `extractObjects`, `getObject`, AKAZE keypoints and descriptors, and FLANN training and matching. Their results are the inputs `Vision.imageSize`, `Vision.cards` and `Vision.matches`. `CardDetector.h` and its implementation are not part of this model.
- Driver.Run: the Qt directory listing is an input. The `*.jpg`/`*.png`/`*.tif` name filter and the listing's sort order are not modelled.
- Driver.Run: the downscaling factor `limit * 1.0 / dim` and the resize itself are floating-point image operations. Only the branch that decides whether to downscale is modelled.
- Driver.Run: reading `files[3]` from a list of one to three files is undefined behaviour in the source. The model gives it its own outcome, `FileIndexOutOfRange`, without an exit code.
- GoodMatches.SortMatches: `std::sort` is not stable and its exact order among equal distances is unspecified. The model sorts by insertion, and its contract states only what `std::sort` promises: sorted by distance and a permutation.
- GoodMatches.EvaluatePair: the trace output, `drawMatches` and the result display are diagnostics and are left out. Only the verbose trace's demand for a non-empty list of the pair being evaluated, and the two distances it prints, are kept.
- CardPairing.CompareWithRemaining: the inner `foreach` over the worklist is a separate method, called from the worklist loop. Cards are identified by their position in the worklist; the images themselves are not modelled.
- The `VERBOSE` flag is a global that code in other translation units (such as `CardDetector`) could also write. Only the value `main.cpp` gives it, `false`, is modelled, as the constant `Driver.Verbose`; the comparison methods still take the flag as a parameter.
- Logging (`SD_TRACE`), timers (`StartTimer`/`StopTimer`) and image display have no effect on results and are left out.
- The `#if 0` blocks and the commented-out matchers (`matchShapes`, Hausdorff, ORB, KAZE) are dead code.
- `Tests/Common.h` only declares image generators without bodies, so there is nothing to model.
- Integer widths are not modelled. `cardSizeMin + cardSizeMax` and the loop counters stay far below 32-bit limits.
