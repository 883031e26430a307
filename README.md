# Pose tracklet clustering, modelled in Dafny

This project models the core of `cluster_pose_tracklets.py`. That script
groups 2D skeleton detections from a video into *tracklets*: runs of poses
that belong to the same person across frames.

The model covers three parts of the script.

1. **Feature rows.** Each detected skeleton becomes one row of the feature
   matrix. The joint confidences are dropped, leaving the x,y pairs, and the
   frame number is appended (module `Features`).
2. **`cluster_poses`.** This is a greedy chained nearest-neighbour
   clustering (modules `Distance`, `Labels`, `TrackletClustering`,
   `ClusterProperties`, `Greedy`).
   - Each round opens a new class at the lowest-index unclassified row, the
     seed.
   - It then walks the rows that were unclassified when the round began, in
     ascending order.
   - A row joins the class when three things hold. It shares more than one
     strictly positive element with the current anchor. Its masked
     root-mean-square distance to the anchor is below `eps`. Its frame number
     differs from the anchor's.
   - A row that joins becomes the new anchor.
   - Every pair with enough overlap has its distance appended to a debugging
     sample.
   - Rounds repeat while more than `minOccurrences` rows are unclassified.
3. **Tracklet selection in `main`.** The tracklet count is the largest label.
   Each tracklet id with more than `minOccurrences` rows is exported (module
   `Export`).

The clustering is specified twice and the two are proved to agree.

- **As functions.** `Compare` is one comparison. `InnerPass` is the walk of
  one round. `ClassPass` is a whole round. `Outer` is the `while` loop.
  `ClusterSpec` is the whole clustering.
- **As a method.** `ClusterPoses` has the source's loops and its label array.

The functions are then proved to have these properties:

- Labels stay within the class ids, and every opened id is used.
- Each tracklet is a chain of linked rows.
- Seeds come first.
- The loop stops below the threshold.
- Each round is greedy: a row joins a class exactly when it is linked to the
  last earlier member of that class.
- The distance sample holds exactly the comparisons each round made.

The distance is kept as its square, the mean square. Having no square root
keeps the model in exact real arithmetic. `Distance.WithinIsRmsBelow` shows
that the test `Within(meanSq, eps)` is exactly the source's
`distance < eps_skel`, where `distance` is the square root of `meanSq`.

Two details of the code are easy to misread; the model follows the code in
both.

- **Validity test.** An element is valid when it is strictly positive
  (`> 0`), not merely nonzero. A negative coordinate therefore counts as
  missing.
- **Frame slot.** The trailing frame-number slot is masked and compared like
  any coordinate. `Distance.FrameSlotCounts` shows the effect: two rows that
  agree on every coordinate but come from different frames (both numbered
  above 0) are at a nonzero distance.

## Model

| member | source | states |
|---|---|---|
| Features.StripConfidence | cluster_pose_tracklets.py:34-35 | deleting every third element leaves two of every three, and element k of the result is the x or y of joint k/2 |
| Features.FeatureRow | cluster_pose_tracklets.py:33-37 | a feature row holds each joint's x and y in joint order, then the frame number as its last element |
| Features.RowsFromContents | cluster_pose_tracklets.py:30-38 | person k of frame f sits at row (people in frames before f) + k, and that row is its feature row with the frame number |
| Features.RowsFromFrameAt | cluster_pose_tracklets.py:30-38 | every row is non-empty and its last element is the number of one of the frames walked |
| Features.RowsFromOrderAt | cluster_pose_tracklets.py:30-38 | rows come frame after frame: a later row never carries a smaller frame number |
| Features.BuildFeatures | cluster_pose_tracklets.py:28-39 | the feature matrix has one row per detection and holds, frame after frame and in the detector's order within a frame, the feature row of every detected person with its frame number |
| Features.BuildFeaturesFrames | cluster_pose_tracklets.py:30-39 | the frame numbers of the feature matrix lie in 0..frames-1 and never decrease along the rows |
| Features.RowsFromWidth | cluster_pose_tracklets.py:33-37 | when every detection has the same keypoint count, every row has the same width |
| Features.BuildFeaturesRectangular | cluster_pose_tracklets.py:39 | uniform keypoint counts give a rectangular matrix, as the two-dimensional numpy array requires |
| Distance.Mask | cluster_pose_tracklets.py:121 | an element is valid exactly when it is strictly positive; used by `Overlap` and characterised through `FrameSlotCounts` |
| Distance.Overlap | cluster_pose_tracklets.py:125 | the elements valid in both rows; `MeanSqSymmetric` proves it does not depend on which row is the anchor |
| Distance.CountTrue | cluster_pose_tracklets.py:126 | the number of elements valid in both rows never exceeds the row width |
| Distance.MaskedSqSum | cluster_pose_tracklets.py:129 | the sum of squared differences over the selected elements is non-negative; `MaskedSqSumSymmetric` proves it order-independent |
| Distance.Within | cluster_pose_tracklets.py:135 | the match test on the mean square; `WithinIsRmsBelow` proves it equals `distance < eps_skel` for the root-mean-square distance |
| Distance.MeanSq | cluster_pose_tracklets.py:125-129 | the mean of the squared differences over the elements valid in both rows is never negative |
| Distance.WithinIsRmsBelow | cluster_pose_tracklets.py:129-135 | for the root-mean-square distance d, `d < eps` holds exactly when the mean square passes `Within` |
| Distance.MaskedSqSumSymmetric | cluster_pose_tracklets.py:125-129 | the masked squared sum does not depend on the order of the two rows |
| Distance.MeanSqSymmetric | cluster_pose_tracklets.py:125-129 | the overlap mask and the masked distance are the same whichever pose is the anchor |
| Distance.FrameSlotCounts | cluster_pose_tracklets.py:115-129 | rows equal in every coordinate but with different positive frame numbers overlap on the frame slot and are at squared sum (frame difference)² |
| Labels.IndicesOf | cluster_pose_tracklets.py:142 | the result lists exactly the positions holding the label, in ascending order |
| Labels.Unclassified | cluster_pose_tracklets.py:142 | the positions labelled 0; as `IndicesOf` for label 0 its contract gives exactly those positions, in ascending order, as `np.where(labels == 0)[0]` does |
| Labels.FewerIndices | cluster_pose_tracklets.py:142 | labelling rows never adds unclassified positions, and labelling one strictly removes one |
| Labels.AllUnclassified | cluster_pose_tracklets.py:103-104 | with all labels zero, the unclassified rows are 0..n-1, as `np.arange` gives |
| Labels.MaxLabel | cluster_pose_tracklets.py:48 | the result is a label that occurs and is at least every label |
| TrackletClustering.Linked | cluster_pose_tracklets.py:128-135 | the condition for a row to follow the anchor: more than one shared valid element, distance below `eps`, different frame; `TrackletIsChain` proves consecutive tracklet members satisfy it |
| TrackletClustering.Compare | cluster_pose_tracklets.py:120-139 | one comparison of a round; `CompareCases` characterises its sample, labels and anchor in every case |
| TrackletClustering.CompareCases | cluster_pose_tracklets.py:120-139 | the distance is recorded exactly when the overlap exceeds one element; a linked row is labelled and becomes the anchor; otherwise labels and anchor are unchanged |
| TrackletClustering.InnerPass | cluster_pose_tracklets.py:119-139 | the walk of one round over its snapshot; characterised by `InnerPassEffect`, `Greedy.InnerPassJoins` and `Greedy.InnerPassRecords`, and computed by `ScanRound` |
| TrackletClustering.InnerPassEffect | cluster_pose_tracklets.py:119-139 | a walk only labels rows it visits, only with the class id; it appends at most one non-negative sample per visited row |
| TrackletClustering.ClassPass | cluster_pose_tracklets.py:110-143 | one whole round: seed, walk; characterised by `ClassPassEffect`, `ClassPassSample`, `Greedy.ClassPassJoins` and `Greedy.ClassPassRecords` |
| TrackletClustering.ClassPassEffect | cluster_pose_tracklets.py:110-143 | a round labels its seed, changes only unclassified rows and only to its own id, and strictly shrinks the unclassified set |
| TrackletClustering.ClassPassSample | cluster_pose_tracklets.py:119-130 | a round appends at most one non-negative sample per row after the seed |
| TrackletClustering.Outer | cluster_pose_tracklets.py:110-143 | the `while` loop as rounds until at most `minOccurrences` rows are unclassified; characterised by `OuterStops`, `OuterKeepsLabels`, `OuterAppends` and the lemmas of `ClusterProperties` |
| TrackletClustering.OuterPreserves | cluster_pose_tracklets.py:110-143 | any property that every round preserves holds when the loop ends (an induction principle for the loop) |
| TrackletClustering.OuterStops | cluster_pose_tracklets.py:110 | the loop ends with at most `minOccurrences` unclassified rows; each round classifies at least one row |
| TrackletClustering.OuterKeepsLabels | cluster_pose_tracklets.py:110-143 | a row, once labelled, keeps its label to the end |
| TrackletClustering.OuterAppends | cluster_pose_tracklets.py:130 | the distance sample only grows; earlier entries are never changed |
| TrackletClustering.OuterSampleNonNegative | cluster_pose_tracklets.py:129-130 | every recorded sample is non-negative |
| TrackletClustering.ClusterSpec | cluster_pose_tracklets.py:99-146 | the clustering of a feature matrix from all-zero labels and id 1; characterised by `ClusterProperties.ClusterSpecProperties` and `Greedy.ClusterSpecGreedy` |
| TrackletClustering.ScanRound | cluster_pose_tracklets.py:114-139 | the `for` loop over a round's rows updates the label array and sample exactly as the walk `InnerPass` specifies |
| TrackletClustering.ClusterPoses | cluster_pose_tracklets.py:99-146 | the labels and the sample it returns are those of the clustering specification `ClusterSpec` |
| ClusterProperties.OpenChain | cluster_pose_tracklets.py:112 | labelling a seed with a fresh id keeps every tracklet a chain |
| ClusterProperties.ExtendChain | cluster_pose_tracklets.py:135-139 | labelling a row linked to the last member of its class keeps every tracklet a chain |
| ClusterProperties.InnerPassKeepsChain | cluster_pose_tracklets.py:119-139 | a round's walk keeps every tracklet a chain of linked consecutive members |
| ClusterProperties.BeforeSeedClassified | cluster_pose_tracklets.py:112-142 | every row before the seed, the first unclassified row, is already labelled |
| ClusterProperties.ClassPassKeepsIds | cluster_pose_tracklets.py:105-143 | after round c, labels are at most c and every id 1..c is in use |
| ClusterProperties.ClassPassKeepsChain | cluster_pose_tracklets.py:110-139 | a whole round keeps every tracklet a chain |
| ClusterProperties.SeedsAfterRound | cluster_pose_tracklets.py:112-142 | after a round, each class's first row is still preceded only by rows of smaller, nonzero ids |
| ClusterProperties.SeedAfterRound | cluster_pose_tracklets.py:112-142 | for one first row of a class, every earlier row carries a smaller nonzero id after the round |
| ClusterProperties.FreshSeed | cluster_pose_tracklets.py:112 | the first row carrying the new id is the round's seed |
| ClusterProperties.SeedKept | cluster_pose_tracklets.py:136 | a class's first row that the round did not label was already that class's first row |
| ClusterProperties.ClassPassKeepsSeeds | cluster_pose_tracklets.py:110-143 | a round keeps every class's first row preceded only by rows of smaller ids |
| ClusterProperties.ClassPassKeepsInvariant | cluster_pose_tracklets.py:110-143 | a round preserves the loop invariant: ids in range and all used, chained tracklets, seeds first |
| ClusterProperties.OuterKeepsInvariant | cluster_pose_tracklets.py:110-143 | the loop invariant holds when the `while` loop ends |
| ClusterProperties.ClassPassEntered | cluster_pose_tracklets.py:110-143 | a round run while more than `minOccurrences` rows are unclassified records that its class was entered that way, and does not change the labels earlier rounds started from |
| ClusterProperties.OuterEntered | cluster_pose_tracklets.py:110-143 | when the loop ends, every round it ran began with more than `minOccurrences` rows unclassified |
| ClusterProperties.PairsIsHalfProduct | cluster_pose_tracklets.py:119-130 | the comparison bound `Pairs(u)` is u(u-1)/2 |
| ClusterProperties.OuterSampleBound | cluster_pose_tracklets.py:110-143 | the loop records at most u(u-1)/2 samples for u unclassified rows |
| ClusterProperties.ClusterSpecProperties | cluster_pose_tracklets.py:99-146 | one label per row; ids 1..classes all used; at most n classes; at most `minOccurrences` rows left unlabelled, and every class c opened only when more than `minOccurrences` rows were unclassified as round c began (both halves of the `while` guard); tracklets are chains; seeds come first; samples non-negative, at most n(n-1)/2 of them |
| ClusterProperties.NothingClusteredWhenFew | cluster_pose_tracklets.py:110 | with no more rows than `minOccurrences`, no class is opened, every label is 0 and no sample is taken |
| ClusterProperties.TrackletIsChain | cluster_pose_tracklets.py:135-139 | consecutive members of a tracklet are linked: enough overlap, within `eps`, different frames |
| Greedy.LastBefore | cluster_pose_tracklets.py:113-139 | the anchor at row j is the last earlier row carrying the class id |
| Greedy.LastBeforeAgree | cluster_pose_tracklets.py:113-139 | the last earlier member depends only on which earlier rows carry the id |
| Greedy.PassStep | cluster_pose_tracklets.py:119-139 | each comparison keeps the walk's state: the anchor is the last member so far, the visited row is still unlabelled |
| Greedy.InnerPassJoins | cluster_pose_tracklets.py:119-139 | a visited row ends in the class exactly when it is linked to the last earlier member of the class |
| Greedy.InnerPassRecords | cluster_pose_tracklets.py:119-130 | the walk's sample is the mean squares of its visited rows against their last earlier members, for pairs overlapping on more than one element |
| Greedy.RoundState | cluster_pose_tracklets.py:112-119 | after the seed is labelled, the walk starts from a valid state with the seed as anchor |
| Greedy.ClassPassJoins | cluster_pose_tracklets.py:110-139 | in a round, each non-seed row joins exactly when it is linked to the last earlier member |
| Greedy.ClassPassRecords | cluster_pose_tracklets.py:119-130 | a round appends exactly one sample per non-seed row overlapping its last earlier member on more than one element |
| Greedy.KeepsGreedyFor | cluster_pose_tracklets.py:136 | later rounds do not disturb the greedy choice of an earlier class |
| Greedy.NewClassGreedy | cluster_pose_tracklets.py:112-139 | a round's class is greedy: every row unclassified before the round and after its first member joins exactly when linked |
| Greedy.ClassPassKeepsGreedy | cluster_pose_tracklets.py:110-143 | a round keeps every earlier class greedy and makes the new class greedy |
| Greedy.OuterKeepsGreedy | cluster_pose_tracklets.py:110-143 | when the loop ends, every class is greedy |
| Greedy.ClusterSpecGreedy | cluster_pose_tracklets.py:99-146 | in the result, a row after a class's first member that was still free during that class's round joins exactly when linked to the class's last earlier member |
| Export.Occurrences | cluster_pose_tracklets.py:58 | the number of rows labelled t; `OccurrencesIsMultiplicity` proves it is the multiplicity of t in the labels |
| Export.OccurrencesIsMultiplicity | cluster_pose_tracklets.py:58 | the occurrence count of an id is its multiplicity among the labels |
| Export.ExportedIds | cluster_pose_tracklets.py:57-59 | the exported ids are exactly those in 1..tracklets with more than `minOccurrences` rows, in ascending order |
| Export.TrackletRows | cluster_pose_tracklets.py:62 | the rows saved for a tracklet are its feature rows, in row order, one per occurrence |
| Export.TrackletCount | cluster_pose_tracklets.py:46-48 | the largest label equals the number of classes the clustering opened |
| Export.ExportedTracklets | cluster_pose_tracklets.py:46-62 | the exported ids are the opened classes with more than `minOccurrences` rows, and each of them is a chain of linked rows |
| Export.SelectTracklets | cluster_pose_tracklets.py:57-59 | the export loop yields exactly `ExportedIds` |
| Export.Run | cluster_pose_tracklets.py:28-62 | nothing when there were no detections (the early exit); otherwise the output of a full run: the clustering's labels, the tracklet count it prints and the ids whose rows it writes, though the driver itself returns no value |

## Left out

- Reading the pose archive (lines 10-26) is left out: zip access, JSON parsing and sorting the file names. Its result is the `frames` parameter of `Export.Run`.
- Console messages (`print` and the `quiet` flag) are left out.
- Writing the output (lines 51 and 63) is left out: creating the output directory and the `.npz` files. The data written for each id is `Export.TrackletRows`.
- Plotting and histograms (lines 53-55 and 65-96) are left out. They only read the labels, the feature rows and the distance sample.
- The `__main__` block (lines 149-160) is left out. Its constants are only a sample configuration.
- TrackletClustering.ClusterPoses: the distance sample holds mean squares, not their square roots, because real square roots are outside exact real arithmetic. `Distance.WithinIsRmsBelow` ties the match test to the root.
- Distance.MeanSq: IEEE floating-point rounding is not modelled. Coordinates, frame numbers and distances are exact reals.
- Export.Run: `minOccurrences` is a natural number. A negative value makes the source's loop read the first element of an empty index array and fail.
- Export.Run: requires the feature rows to form a matrix, which `BuildFeaturesRectangular` guarantees. Detections with differing keypoint counts make numpy build a ragged array, on which the source's two-dimensional indexing fails.
- The numpy dtype of the feature matrix is not modelled. Integer keypoints would give an integer matrix and integer arithmetic.
- Greedy.ClassPassRecords: the distance sample is characterised one round at a time. There is no single closed form for the whole run; `ClusterProperties.OuterSampleBound` bounds its length and `TrackletClustering.OuterAppends` shows each round's entries are kept.
