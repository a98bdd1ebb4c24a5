# Camera and lidar fusion for time-to-collision, modelled in Dafny

This project models the per-frame-pair logic of a 3D object tracking pipeline.
The pipeline fuses a camera with a lidar to estimate the time to collision (TTC)
with the vehicle ahead. For each pair of consecutive frames it does the following:

- a **robust lidar distance** reduces a point cluster to one forward distance:
  the minimum x for small clusters, the fifth smallest x for larger ones, and a
  fallback of 1e8 for an empty cluster;
- **lidar clustering** projects every lidar point into the image and gives it to
  the one bounding box whose shrunk region contains it (a point in no box, or in
  several, goes nowhere);
- the **keypoint filter** gives a box the keypoint matches whose current keypoint
  lies in its region, dropping those that moved more than twice the mean
  displacement plus one pixel;
- the **camera TTC** forms the distance ratio `curr / prev` of every pair of a
  box's matches, keeps those with `prev > 0` and `curr` above half the largest
  current distance, takes their median and computes
  `1 / (frameRate * (median - 1))`;
- the **lidar TTC** computes `curr / ((prev - curr) * frameRate)`, or 1000 when the
  object is not getting closer;
- **bounding-box association** lets every keypoint match vote for the
  (previous box, current box) pairs that contain its two endpoints. Each
  previous box is then associated with the current box that has the most votes,
  with ties going to the smallest identifier;
- the **descriptor ratio test** keeps a k-nearest-neighbour match when its best
  distance is below 0.8 times the second best;
- the **Harris candidate scan and non-maximum suppression** take the normalised
  corner response matrix and, in scan order, keep each live candidate that no
  later live candidate in its window matches or beats. A strict window maximum
  is always kept. A candidate can also survive when a stronger neighbour was
  itself suppressed earlier, so the keypoints are not exactly the window maxima.

Modules:

- `Seqs` (seqs.dfy) holds the order-preserving filter and the subsequence
  relation.
- `OrderStats` (order_stats.dfy) holds sorting, counting, order statistics and
  the exact median. These stand for `std::sort` and `std::nth_element`.
- `DataStructures` (data_structures.dfy) holds pixels, rectangles, keypoints,
  matches and boxes, plus the integer-truncating shrink of a region.
- One module per operation: `LidarTtc`, `LidarClustering`, `KeypointClustering`,
  `CameraTtc`, `BoxMatching`, `DescriptorMatching` and `HarrisNms`.

Each loop of the source is a `method` with loop invariants. Each method is
proved to compute a specification function, and the properties are proved as
lemmas about those functions. `clusterLidarWithROI` updates its boxes in place,
so it works on an `array<BoundingBox>`. The Harris suppression zeroes responses
in place, so it works on an `array<KeyPoint>`. A C++ out-parameter that the
source appends to or inserts into (`matches`, `keypoints`, `bbBestMatches`, the
`BoundingBox&` of the keypoint filter) becomes an input value and a returned
value. The `TTC` out-parameter is only written, so it becomes a returned value.

Three things are parameters of the model:

- `norm: (int, int) -> real` is the Euclidean length of a pixel displacement
  (the `sqrt` calls).
- `project: LidarPoint -> Point` is the camera projection of a lidar point.
- The Harris response matrix is given as input.

Distances and ratios are exact `real`s. Pixels and rectangles are `int`s, as
`cv::Point` and `cv::Rect` are. Two floating-point-to-`int` stores are
modelled as truncation toward zero (`DataStructures.Truncate`): the shrunk
rectangle's extents, which are `int * float` products, and the Harris response,
which is read as a `float` from the normalised matrix.

Some cases are undefined in the code or left open by its description. The model
settles them as follows:

- **Camera TTC, degenerate inputs (a deliberate deviation).** With no surviving
  ratio the source reads element 0 of an empty vector, and with a median of 1 it
  divides by zero. Both are undefined behaviour in C++. The model instead returns
  `InsufficientCorrespondences` in the first case and `Indeterminate` in the
  second (also for a frame rate of 0). The C++ signature has no error path for
  either.
- **Box association, ties.** The tie-break is not left open. `std::map` visits
  current box identifiers in ascending order and the comparison is a strict
  `>`, so the smallest identifier with the largest count wins. The model proves
  exactly that rule.
- **Box association, the -1 sentinel.** A winner whose identifier is -1 (the
  scan's "none" value) is not recorded.
- **Keypoint filter, no contained match.** The mean is 0/0 (NaN) and the second
  loop runs over an empty list, so nothing is appended. The model appends
  nothing and never divides by zero.

## Model

| member | source | states |
|---|---|---|
| LidarTtc.MinOrFallback | src/camFusion_Student.cpp:18-24 | the running minimum is at most 1e8, at most every x, and either 1e8 or one of the x values |
| LidarTtc.SmallClusterDistance | src/camFusion_Student.cpp:26-33 | a non-empty cluster of at most 9 points (with an x below the fallback) yields a value of the cluster that is at most every x, i.e. its minimum |
| LidarTtc.LargeClusterDistance | src/camFusion_Student.cpp:25-31 | a cluster of more than 9 points yields one of its x values with at most 4 values strictly below it and at least 5 at or below it (the 5th smallest), and it is at least the minimum |
| LidarTtc.GetLidarPointCloudDistance | src/camFusion_Student.cpp:14-34 | the loop, sort and index compute the robust distance of the cluster's x values (`RobustDistance`: the fifth smallest x for more than 9 points, otherwise the running minimum); an empty cluster gives the fallback 1e8 |
| LidarTtc.TtcFromDistances | src/camFusion_Student.cpp:264-269 | 1000 when the current distance is not smaller; otherwise the TTC times the closing speed equals the current distance, and the TTC is positive when the current distance is positive |
| LidarTtc.ComputeTtcLidar | src/camFusion_Student.cpp:259-271 | the TTC is the range TTC of the robust distances of the two clusters |
| LidarTtc.RobustDistanceWithinFallback | src/camFusion_Student.cpp:18-33 | when every point of a cluster lies within the fallback distance 1e8, so does its robust distance |
| LidarTtc.EmptyCurrentClusterMeansNoRisk | src/camFusion_Student.cpp:18-33 | an empty current cluster gives the 1000 sentinel whenever the previous cluster's robust distance is at most the fallback 1e8 |
| DataStructures.Truncate | src/camFusion_Student.cpp:63-66 | a C++ floating-point-to-`int` store rounds toward zero: for a non-negative value the result is the largest integer not above it, for a negative one the smallest integer not below it (also the response store at src/matching2D_Student.cpp:172) |
| DataStructures.ShrunkRectInside | src/camFusion_Student.cpp:62-66 | for a shrink factor in [0, 1], a pixel in the truncated shrunk rectangle lies in the original region |
| LidarClustering.EnclosingBoxesMembership | src/camFusion_Student.cpp:58-74 | a box index is in the enclosing list exactly when its shrunk region contains the pixel |
| LidarClustering.UniqueEnclosingBox | src/camFusion_Student.cpp:76-81 | the enclosing list is exactly [k] iff region k contains the pixel and no other region does |
| LidarClustering.PointsReceivedByBox | src/camFusion_Student.cpp:43-83 | the points a box receives are a subsequence of the input; a point is received iff its projection lies in that box's shrunk region and in no other box's; every received point lies in the unshrunk region |
| LidarClustering.FindEnclosingBoxes | src/camFusion_Student.cpp:58-74 | the box loop lists, in box order, exactly the indices of the shrunk regions containing the pixel |
| LidarClustering.ClusterStep | src/camFusion_Student.cpp:77-81 | handling one point appends it to the box it alone falls in and to no other box, so every box keeps the points assigned to it so far |
| LidarClustering.ClusterLidarWithRoi | src/camFusion_Student.cpp:37-84 | every box ends with its old points followed by, in input order, the points assigned to it alone; nothing else in any box changes |
| KeypointClustering.KeptMatchesSpec | src/camFusion_Student.cpp:179-201 | the received matches are a subsequence of the input; a match is received iff it is in the input, its current keypoint lies in the region and its displacement is at most twice the mean over the contained matches plus one; no contained match means nothing is received |
| KeypointClustering.KeptInRoi | src/camFusion_Student.cpp:179-199 | every kept match indexes a current keypoint that lies inside the region |
| KeypointClustering.PreFilter | src/camFusion_Student.cpp:177-190 | the first loop pairs exactly the contained matches, in order, with their displacements and sums those displacements |
| KeypointClustering.AppendWithin | src/camFusion_Student.cpp:193-201 | the second loop appends the contained matches within the bound, in order, together with their current keypoints |
| KeypointClustering.ClusterKptMatchesWithRoi | src/camFusion_Student.cpp:175-202 | the box gains exactly the kept matches and, one for one, their current keypoints: both lists grow by the number of kept matches, the keypoint appended at each offset is the current keypoint of the match appended at that offset, and every appended keypoint lies in the region; its other fields are unchanged |
| KeypointClustering.WithKept | src/camFusion_Student.cpp:198-199 | both lists keep their old entries and grow by the kept list; the k-th new match is kept match k and the k-th new keypoint is its current keypoint; identifier, region and lidar points are unchanged |
| CameraTtc.RowPairsMembership | src/camFusion_Student.cpp:220-230 | the inner loop for match i emits exactly the pairs of i with each later match below the bound |
| CameraTtc.RowPairsIndex | src/camFusion_Student.cpp:220-228 | the inner loop for match i emits the pair of i with match k at position k - i - 1 of its row |
| CameraTtc.AllPairsSpec | src/camFusion_Student.cpp:212-231 | the nested loops emit exactly the pairs of matches i < j |
| CameraTtc.AllPairsLength | src/camFusion_Student.cpp:212-231 | with all rows done, there are n * (n - 1) / 2 pairs for n matches |
| CameraTtc.AllPairsRowStart | src/camFusion_Student.cpp:212-231 | the rows before row i emit `RowStart(n, i)` pairs, n - 1 for the first row, n - 2 for the next and so on |
| CameraTtc.AllPairsIndex | src/camFusion_Student.cpp:212-231 | the pair of matches i < j sits at position `RowStart(n, i) + j - i - 1` of `distance_pairs`, where `RowStart(n, i)` is the number of pairs the rows before i emit |
| CameraTtc.AllPairsPosition | src/camFusion_Student.cpp:212-231 | every position of `distance_pairs` is that position for some pair i < j and holds that pair, so each pair occurs exactly once |
| CameraTtc.MaxCurr | src/camFusion_Student.cpp:211-229 | the running maximum is non-negative and bounds every current distance |
| CameraTtc.MaxCurrAttained | src/camFusion_Student.cpp:211-229 | the running maximum is 0 or one of the current distances |
| CameraTtc.RatiosMembership | src/camFusion_Student.cpp:232-239 | a value is a filtered ratio iff some pair with positive previous distance and current distance above half the maximum yields it |
| CameraTtc.DistanceRatiosMembership | src/camFusion_Student.cpp:210-239 | the filtered ratios are exactly curr / prev of the usable pairs of two distinct matches |
| CameraTtc.TtcFromMedian | src/camFusion_Student.cpp:255 | `Indeterminate` exactly when the frame rate is 0 or the median is 1; otherwise the TTC times `frameRate * (median - 1)` is 1; positive when the median exceeds 1, negative below |
| CameraTtc.TtcFromRatios | src/camFusion_Student.cpp:240-255 | `InsufficientCorrespondences` exactly when no ratio survives; otherwise the TTC of the median |
| CameraTtc.MedianRatioSpec | src/camFusion_Student.cpp:240-252 | the median lies between two surviving ratios, and at most half of the ratios lie strictly below it and at most half strictly above |
| CameraTtc.AppendRow | src/camFusion_Student.cpp:220-230 | the inner loop appends the row of pairs of match i and keeps the running maximum |
| CameraTtc.CollectPairs | src/camFusion_Student.cpp:210-231 | the nested loops compute all pairs and their maximum current distance |
| CameraTtc.AppendPair | src/camFusion_Student.cpp:221-229 | one inner turn extends the row by the pair of matches i and j and keeps the running maximum equal to the largest current distance so far |
| CameraTtc.FilterRatios | src/camFusion_Student.cpp:232-239 | the filtering loop computes the ratios of the usable pairs, in order |
| CameraTtc.MedianOf | src/camFusion_Student.cpp:240-252 | two `nth_element` selections, each known only through what `nth_element` promises, followed by the averaging give exactly the median: the middle order statistic for an odd count, the mean of the two central ones for an even count |
| CameraTtc.ComputeTtcCamera | src/camFusion_Student.cpp:206-256 | the result is the TTC from the median of the filtered ratios of the matches |
| OrderStats.Sort | src/camFusion_Student.cpp:25 | `std::sort`: the result is ascending and a permutation of the input (same multiset, same length) |
| OrderStats.OrderStatistic | src/camFusion_Student.cpp:240-244 | the k-th element after sorting occurs in the input, has at most k values below it and more than k at or below it |
| OrderStats.NthElement | src/camFusion_Student.cpp:241-243 | the rearrangement is a permutation of the input with no larger value before position k and no smaller one after it |
| OrderStats.NthElementIsKthSmallest | src/camFusion_Student.cpp:240-251 | any rearrangement meeting that contract holds the k-th smallest value at position k |
| OrderStats.MedianBetween | src/camFusion_Student.cpp:240-252 | the median lies between the two central order statistics (they coincide for an odd count) |
| OrderStats.MedianWithinRange | src/camFusion_Student.cpp:240-252 | the median lies within the range of the data |
| OrderStats.MedianSplitsHalves | src/camFusion_Student.cpp:240-252 | at most half of the values lie strictly below the median and at most half strictly above |
| BoxMatching.MatchVotesIsProduct | src/camFusion_Student.cpp:283-295 | one match casts (previous boxes named p holding its previous keypoint) times (current boxes named c holding its current keypoint) votes for (p, c) |
| BoxMatching.VotesCountSharedMatches | src/camFusion_Student.cpp:279-296 | with distinct identifiers, the vote for two boxes is the number of matches whose previous keypoint is in the first box and whose current keypoint is in the second |
| BoxMatching.Bump | src/camFusion_Student.cpp:291 | `++` on the nested map raises exactly the (p, c) count by 1 and keeps the table well formed |
| BoxMatching.AddCurrBoxes | src/camFusion_Student.cpp:285-293 | the current-box loop under one containing previous box adds, to each (that box, c) count, the number of current boxes named c holding the current keypoint; no other count changes |
| BoxMatching.AddMatch | src/camFusion_Student.cpp:279-295 | one match adds its votes to every (p, c) count and changes nothing else |
| BoxMatching.CountVotes | src/camFusion_Student.cpp:279-296 | after the three loops every count in the table equals the votes the matches cast |
| BoxMatching.PopMin | src/camFusion_Student.cpp:298-302 | each step of a `std::map` walk visits the smallest key not yet visited |
| BoxMatching.BestCandidate | src/camFusion_Student.cpp:300-309 | the scan returns -1 when all counts are 0; otherwise the largest count, with the smallest identifier among those having it |
| BoxMatching.SelectBest | src/camFusion_Student.cpp:298-314 | an entry is written exactly for the previous boxes with a recorded winner, holding that winner; other existing entries are unchanged |
| BoxMatching.TableWinnerIsBestMatch | src/camFusion_Student.cpp:276-309 | the winner in the table is exactly the current box with the most votes, the smallest identifier on ties |
| BoxMatching.MatchBoundingBoxes | src/camFusion_Student.cpp:274-315 | every voted previous box has a best match; every previous box whose best match is not -1 is mapped to it; no other key is added; other entries are untouched |
| DescriptorMatching.RatioTestMembership | src/matching2D_Student.cpp:46-53 | a match is kept iff it is the best neighbour of a query whose best distance is below 0.8 times its second best |
| DescriptorMatching.RatioTestKeepsOrder | src/matching2D_Student.cpp:47-53 | the kept matches are a subsequence of the best neighbours, in query order |
| DescriptorMatching.RatioTestKept | src/matching2D_Student.cpp:47-53 | the ratio test keeps no more matches than there are queries |
| DescriptorMatching.RatioTestFilter | src/matching2D_Student.cpp:46-53 | the loop appends the kept matches after the existing ones |
| HarrisNms.ColumnCandidatesPlaced | src/matching2D_Student.cpp:170-181 | a column's candidates lie in that column, strictly top to bottom |
| HarrisNms.ColumnCandidatesSpec | src/matching2D_Student.cpp:170-182 | a keypoint is a candidate of a column iff it is the keypoint of a pixel of that column whose truncated response exceeds 100 |
| HarrisNms.CandidatesSpec | src/matching2D_Student.cpp:166-182 | a keypoint is a candidate iff it sits at a pixel of the grid, has size 3 and has that pixel's truncated response, which exceeds 100 |
| HarrisNms.CandidatesInColumns | src/matching2D_Student.cpp:169 | the candidates lie in the scanned columns |
| HarrisNms.CandidatesOrdered | src/matching2D_Student.cpp:169-170 | the candidates come in strict scan order: x outer, y inner |
| HarrisNms.CandidatesAboveMinimum | src/matching2D_Student.cpp:172-173 | every candidate's response exceeds 100 |
| HarrisNms.ScanColumn | src/matching2D_Student.cpp:170-182 | the inner loop over y for column x appends that column's candidates, top to bottom, after those found so far |
| HarrisNms.FindCandidates | src/matching2D_Student.cpp:166-182 | the scan computes the candidate list |
| HarrisNms.Nms | src/matching2D_Student.cpp:184-212 | the kept indices are increasing and lie in the candidate list |
| HarrisNms.NmsKeepsLive | src/matching2D_Student.cpp:187 | only candidates with non-zero response are kept |
| HarrisNms.NmsSeparated | src/matching2D_Student.cpp:190-211 | no two kept candidates lie in each other's window |
| HarrisNms.NmsKeepsWindowMaximum | src/matching2D_Student.cpp:190-211 | a live candidate whose response exceeds that of every other candidate in its window is kept |
| HarrisNms.NmsKeepsShadowedCandidate | src/matching2D_Student.cpp:184-211 | for candidates E(0,0)=200, D(0,5)=150, C(0,10)=120 in scan order, E suppresses D and C is kept although D beat it inside its window, so the result is not the set of window maxima |
| HarrisNms.ScanNeighbours | src/matching2D_Student.cpp:188-206 | the inner loop runs to the end iff no later live candidate in the window has at least the same response; then the removal list is exactly the dominated candidates |
| HarrisNms.ZeroResponses | src/matching2D_Student.cpp:209 | the listed responses become 0 and nothing else changes |
| HarrisNms.HandleCandidate | src/matching2D_Student.cpp:186-211 | one outer pass keeps the candidate exactly when it is live and unbeaten, and updates the responses as specified |
| HarrisNms.SuppressTurn | src/matching2D_Student.cpp:184-211 | one outer turn keeps the suppression invariant: the indices kept so far followed by those the rest of the run keeps are the kept indices of the original list, the final responses are the same, and `keypoints` is the input plus the kept candidates so far |
| HarrisNms.SuppressNonMaxima | src/matching2D_Student.cpp:184-212 | the outer loop appends the kept candidates, in index order, after the existing keypoints, and leaves the responses as specified |
| HarrisNms.CornernessHarris | src/matching2D_Student.cpp:166-212 | `keypoints` gains exactly the Harris corners of the response matrix |
| HarrisNms.HarrisCornersAreCandidates | src/matching2D_Student.cpp:173-210 | every corner is a candidate, so its response exceeds 100 |
| HarrisNms.HarrisCornersInScanOrder | src/matching2D_Student.cpp:169-210 | the corners come in scan order |
| HarrisNms.HarrisCornersSeparated | src/matching2D_Student.cpp:194-211 | no two corners lie within 6 pixels of each other on both axes |
| HarrisNms.HarrisCornersKeepWindowMaxima | src/matching2D_Student.cpp:190-211 | a candidate with strictly the highest response in its window is a corner |

## Left out

- `show3DObjects` and the drawing in `computeTTCCamera` (`cv::line`, `visImg`) are rendering only.
- The console output and the `imshow`/`waitKey` visualisation are I/O.
- The projection matrices `P_rect_xx * R_rect_xx * RT` are a parameter (`project`). The image-plane division and its conversion to `int` are part of that parameter.
- The Euclidean length (`sqrt`) is a parameter (`norm`). Nothing about it is assumed beyond it being a function of the displacement.
- `cv::cornerHarris` and `cv::normalize` are left out: the response matrix `dst_norm` is an input.
- The OpenCV matchers (`BFMatcher`, `FlannBasedMatcher`, `knnMatch`) are left out: the k-nearest-neighbour lists are an input.
- The nearest-neighbour branch of `matchDescriptors` just copies OpenCV's result, so it is left out.
- `descKeypoints`, `detKeypointsShiTomasi`, `detKeypointsModern` and the OpenCV Harris detection call are library calls with no logic of their own, so they are left out.
- Float and double rounding is left out: distances, ratios and means are exact reals.
- KeyPoint positions are integer pixels, not `Point2f`. Every keypoint whose position the model reads is an integer pixel.
- DescriptorMatching.RatioTestFilter requires at least two neighbours per query. `knnMatch` with k = 2 may return fewer, and the source reads index 1 regardless; that out-of-bounds read is not modelled.
- LidarTtc.TtcFromDistances and LidarTtc.ComputeTtcLidar require a positive frame rate. With frame rate 0 the source divides by zero, which the model does not capture.
- CameraTtc.MedianRatioSpec requires at least one surviving ratio, because the median is undefined otherwise. The empty case is covered by CameraTtc.TtcFromRatios.
- LidarTtc.SmallClusterDistance requires some x below the fallback 1e8. A cluster whose every point lies farther away yields 1e8 (covered by LidarTtc.MinOrFallback).
- OrderStats.NthElement does not model the partitioning algorithm of `std::nth_element`. The model rearranges by sorting, which meets the same contract, and CameraTtc.MedianOf uses only that contract.
- Concurrency is left out: the pipeline is single-threaded.
