/** Skeleton feature rows: what the clusterer consumes.

    A feature row holds the x/y coordinates of every joint of one detected
    skeleton, in the detector's fixed joint order, followed by the index of the
    frame the skeleton was seen in. The detector itself hands over, per frame,
    one keypoint list per person: x, y and a confidence value per joint. */
module Features {

  /** One skeleton feature row (coordinates, then the frame index). */
  type Row = seq<real>

  /** The frame index of a row: its last element. */
  function Frame(row: Row): real
    requires |row| > 0
  {
    row[|row| - 1]
  }

  /** The rows form a matrix: every row has the same, positive, length. */
  predicate Rectangular(rows: seq<Row>)
  {
    forall i :: 0 <= i < |rows| ==> 0 < |rows[i]| == |rows[0]|
  }

  /** Deletes every third element of a keypoint list, starting at index 2: the
      confidence value of each joint. What is left are the elements whose index
      is not 2 modulo 3, in their original order. */
  function StripConfidence(keypoints: seq<real>): (r: seq<real>)
    ensures |r| == |keypoints| - |keypoints| / 3
    ensures forall k :: 0 <= k < |r| ==> r[k] == keypoints[3 * (k / 2) + k % 2]
  {
    if |keypoints| <= 2 then keypoints
    else
      var rest := StripConfidence(keypoints[3..]);
      assert forall k :: 2 <= k < 2 + |rest| ==> 3 * (k / 2) + k % 2 == 3 + 3 * ((k - 2) / 2) + (k - 2) % 2;
      keypoints[..2] + rest
  }

  /** The feature row of one detected person: the keypoints without their
      confidences, then the frame index. */
  function FeatureRow(keypoints: seq<real>, frame: nat): (row: Row)
    ensures |row| == |keypoints| - |keypoints| / 3 + 1
    ensures |keypoints| % 3 == 0 ==> |row| == 2 * (|keypoints| / 3) + 1
    ensures Frame(row) == frame as real
    ensures forall j :: 0 <= j < |keypoints| / 3 ==>
              row[2 * j] == keypoints[3 * j] && row[2 * j + 1] == keypoints[3 * j + 1]
  {
    var coords := StripConfidence(keypoints);
    assert forall j :: 0 <= j < |keypoints| / 3 ==>
             2 * j + 1 < |coords| && (2 * j) / 2 == j && (2 * j) % 2 == 0 &&
             (2 * j + 1) / 2 == j && (2 * j + 1) % 2 == 1;
    coords + [frame as real]
  }

  /** Number of detected people over all frames. */
  function Detections(frames: seq<seq<seq<real>>>): nat
  {
    if frames == [] then 0 else |frames[0]| + Detections(frames[1..])
  }

  /** The rows of all people of `frames`, frame after frame, numbering the
      frames from `first` on; within a frame, people keep the detector's order. */
  function RowsFrom(frames: seq<seq<seq<real>>>, first: nat): (rows: seq<Row>)
    ensures |rows| == Detections(frames)
  {
    if frames == [] then []
    else
      var here := seq(|frames[0]|, k requires 0 <= k < |frames[0]| => FeatureRow(frames[0][k], first));
      here + RowsFrom(frames[1..], first + 1)
  }

  /** A row is either a person of the first frame or a row of the later frames. */
  lemma RowsFromSplit(frames: seq<seq<seq<real>>>, first: nat, i: nat)
    requires i < |RowsFrom(frames, first)|
    ensures frames != []
    ensures i < |frames[0]| ==> RowsFrom(frames, first)[i] == FeatureRow(frames[0][i], first)
    ensures i >= |frames[0]| ==>
              i - |frames[0]| < |RowsFrom(frames[1..], first + 1)|
              && RowsFrom(frames, first)[i] == RowsFrom(frames[1..], first + 1)[i - |frames[0]|]
  {
    var here := seq(|frames[0]|, k requires 0 <= k < |frames[0]| => FeatureRow(frames[0][k], first));
    assert RowsFrom(frames, first) == here + RowsFrom(frames[1..], first + 1);
  }

  /** Every row is non-empty and carries the number of a frame walked. */
  lemma {:induction false} RowsFromFrameAt(frames: seq<seq<seq<real>>>, first: nat, i: nat)
    requires i < |RowsFrom(frames, first)|
    ensures |RowsFrom(frames, first)[i]| > 0
    ensures first as real <= Frame(RowsFrom(frames, first)[i]) < (first + |frames|) as real
    decreases |frames|
  {
    RowsFromSplit(frames, first, i);
    if i >= |frames[0]| {
      RowsFromFrameAt(frames[1..], first + 1, i - |frames[0]|);
    }
  }

  /** Frame numbers never decrease along the rows. */
  lemma {:induction false} RowsFromOrderAt(frames: seq<seq<seq<real>>>, first: nat, i: nat, j: nat)
    requires i < j < |RowsFrom(frames, first)|
    ensures |RowsFrom(frames, first)[i]| > 0 && |RowsFrom(frames, first)[j]| > 0
    ensures Frame(RowsFrom(frames, first)[i]) <= Frame(RowsFrom(frames, first)[j])
    decreases |frames|
  {
    RowsFromFrameAt(frames, first, i);
    RowsFromFrameAt(frames, first, j);
    RowsFromSplit(frames, first, i);
    RowsFromSplit(frames, first, j);
    var n := |frames[0]|;
    if j >= n {
      RowsFromFrameAt(frames[1..], first + 1, j - n);
      if i >= n {
        RowsFromOrderAt(frames[1..], first + 1, i - n, j - n);
      }
    }
  }

  /** Every row carries the number of a frame walked. */
  lemma RowsFromFrames(frames: seq<seq<seq<real>>>, first: nat)
    ensures forall i :: 0 <= i < |RowsFrom(frames, first)| ==>
              |RowsFrom(frames, first)[i]| > 0
              && first as real <= Frame(RowsFrom(frames, first)[i]) < (first + |frames|) as real
  {
    forall i | 0 <= i < |RowsFrom(frames, first)|
      ensures |RowsFrom(frames, first)[i]| > 0
      ensures first as real <= Frame(RowsFrom(frames, first)[i]) < (first + |frames|) as real
    {
      RowsFromFrameAt(frames, first, i);
    }
  }

  /** The frame numbers of the rows never decrease. */
  lemma RowsFromOrdered(frames: seq<seq<seq<real>>>, first: nat)
    ensures forall i, j :: 0 <= i < j < |RowsFrom(frames, first)| ==>
              |RowsFrom(frames, first)[i]| > 0 && |RowsFrom(frames, first)[j]| > 0
              && Frame(RowsFrom(frames, first)[i]) <= Frame(RowsFrom(frames, first)[j])
  {
    RowsFromFrames(frames, first);
    forall i, j | 0 <= i < j < |RowsFrom(frames, first)|
      ensures Frame(RowsFrom(frames, first)[i]) <= Frame(RowsFrom(frames, first)[j])
    {
      RowsFromOrderAt(frames, first, i, j);
    }
  }

  /** Number of people detected in the first `f` frames: the row at which the
      people of frame `f` begin. */
  function Before(frames: seq<seq<seq<real>>>, f: nat): nat
    requires f <= |frames|
  {
    if f == 0 then 0 else |frames[0]| + Before(frames[1..], f - 1)
  }

  /** The people of the frames before `f`, and those of frame `f`, are among
      all the people detected. */
  lemma {:induction false} BeforeBound(frames: seq<seq<seq<real>>>, f: nat)
    requires f < |frames|
    ensures Before(frames, f) + |frames[f]| <= Detections(frames)
    decreases f
  {
    if f > 0 {
      BeforeBound(frames[1..], f - 1);
    }
  }

  /** Person `k` of frame `f` comes after the people of the frames before
      `f`: at row `Before(frames, f) + k`, which is its feature row with the
      frame numbered `first + f`. */
  lemma {:induction false} RowsFromAt(frames: seq<seq<seq<real>>>, first: nat, f: nat, k: nat)
    requires f < |frames| && k < |frames[f]|
    ensures Before(frames, f) + k < |RowsFrom(frames, first)|
    ensures RowsFrom(frames, first)[Before(frames, f) + k] == FeatureRow(frames[f][k], first + f)
    decreases f
  {
    if f == 0 {
      BeforeBound(frames, f);
      RowsFromSplit(frames, first, k);
    } else {
      RowsFromAt(frames[1..], first + 1, f - 1, k);
      RowsFromShift(frames, first, f, k);
      assert frames[1..][f - 1] == frames[f];
    }
  }

  /** The row of person `k` of frame `f > 0` is that person's row among the
      rows of the frames after the first. */
  lemma RowsFromShift(frames: seq<seq<seq<real>>>, first: nat, f: nat, k: nat)
    requires 0 < f < |frames|
    requires Before(frames[1..], f - 1) + k < |RowsFrom(frames[1..], first + 1)|
    ensures Before(frames, f) + k < |RowsFrom(frames, first)|
    ensures RowsFrom(frames, first)[Before(frames, f) + k]
            == RowsFrom(frames[1..], first + 1)[Before(frames[1..], f - 1) + k]
  {
    RowsFromSplit(frames, first, Before(frames, f) + k);
  }

  /** The people of every frame fall within the rows. */
  lemma RowsFromBounds(frames: seq<seq<seq<real>>>, first: nat)
    ensures forall f :: 0 <= f < |frames| ==> Before(frames, f) + |frames[f]| <= |RowsFrom(frames, first)|
  {
    forall f | 0 <= f < |frames|
      ensures Before(frames, f) + |frames[f]| <= |RowsFrom(frames, first)|
    {
      BeforeBound(frames, f);
    }
  }

  /** The rows hold every person of every frame, frame after frame, in the
      detector's order within a frame. */
  lemma RowsFromContents(frames: seq<seq<seq<real>>>, first: nat)
    ensures forall f, k :: 0 <= f < |frames| && 0 <= k < |frames[f]| && Before(frames, f) + k < |RowsFrom(frames, first)| ==>
              RowsFrom(frames, first)[Before(frames, f) + k] == FeatureRow(frames[f][k], first + f)
  {
    forall f, k | 0 <= f < |frames| && 0 <= k < |frames[f]| && Before(frames, f) + k < |RowsFrom(frames, first)|
      ensures RowsFrom(frames, first)[Before(frames, f) + k] == FeatureRow(frames[f][k], first + f)
    {
      RowsFromAt(frames, first, f, k);
    }
  }

  /** The feature matrix built from the per-frame detections, frames numbered
      from 0: frame after frame, each person's feature row. */
  function BuildFeatures(frames: seq<seq<seq<real>>>): (rows: seq<Row>)
    ensures |rows| == Detections(frames)
    ensures forall f :: 0 <= f < |frames| ==> Before(frames, f) + |frames[f]| <= |rows|
    ensures forall f, k :: 0 <= f < |frames| && 0 <= k < |frames[f]| ==>
              rows[Before(frames, f) + k] == FeatureRow(frames[f][k], f)
  {
    RowsFromBounds(frames, 0);
    RowsFromContents(frames, 0);
    RowsFrom(frames, 0)
  }

  /** Every row of the feature matrix carries the number of a frame, from 0
      to the number of frames less one, and these numbers never decrease. */
  lemma BuildFeaturesFrames(frames: seq<seq<seq<real>>>)
    ensures forall i :: 0 <= i < |BuildFeatures(frames)| ==>
              |BuildFeatures(frames)[i]| > 0 && 0.0 <= Frame(BuildFeatures(frames)[i]) < |frames| as real
    ensures forall i, j :: 0 <= i < j < |BuildFeatures(frames)| ==>
              Frame(BuildFeatures(frames)[i]) <= Frame(BuildFeatures(frames)[j])
  {
    RowsFromFrames(frames, 0);
    RowsFromOrdered(frames, 0);
  }

  /** Every keypoint list of every frame has length `len`. */
  predicate UniformKeypoints(frames: seq<seq<seq<real>>>, len: nat)
  {
    forall f, k :: 0 <= f < |frames| && 0 <= k < |frames[f]| ==> |frames[f][k]| == len
  }

  /** Keypoint lists of one common length give rows of one common length. */
  lemma {:induction false} RowsFromWidth(frames: seq<seq<seq<real>>>, first: nat, len: nat)
    requires UniformKeypoints(frames, len)
    ensures forall i :: 0 <= i < |RowsFrom(frames, first)| ==>
              |RowsFrom(frames, first)[i]| == len - len / 3 + 1
  {
    if frames != [] {
      assert UniformKeypoints(frames[1..], len) by {
        forall f, k | 0 <= f < |frames[1..]| && 0 <= k < |frames[1..][f]|
          ensures |frames[1..][f][k]| == len
        {
          assert frames[1..][f] == frames[f + 1];
        }
      }
      RowsFromWidth(frames[1..], first + 1, len);
    }
  }

  /** Keypoint lists of one common length give a feature matrix. */
  lemma BuildFeaturesRectangular(frames: seq<seq<seq<real>>>, len: nat)
    requires UniformKeypoints(frames, len)
    ensures Rectangular(BuildFeatures(frames))
    ensures forall i :: 0 <= i < |BuildFeatures(frames)| ==> |BuildFeatures(frames)[i]| == len - len / 3 + 1
  {
    RowsFromWidth(frames, 0, len);
  }
}
