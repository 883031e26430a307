/** What the driver does with the clustering: count the tracklets, and keep
    for export only the classes with more than `minOccurrences` rows. */
module Export {
  import opened Features
  import opened Labels
  import opened TrackletClustering
  import opened ClusterProperties

  datatype Option<T> = None | Some(value: T)

  /** The outcome of one run over a sequence of frames: the labels, the
      number of tracklets (the largest label) and the ids exported, in
      ascending order. */
  datatype Report = Report(labels: seq<nat>, tracklets: nat, exported: seq<nat>)

  /** Number of rows labelled `t`. */
  function Occurrences(labels: seq<nat>, t: nat): nat
  {
    |IndicesOf(labels, t)|
  }

  /** The rows labelled `t` are counted once each: the count is the
      multiplicity of `t` in the label vector. */
  lemma {:induction false} OccurrencesIsMultiplicity(labels: seq<nat>, t: nat)
    ensures Occurrences(labels, t) == multiset(labels)[t]
  {
    if labels != [] {
      var n := |labels| - 1;
      OccurrencesIsMultiplicity(labels[..n], t);
      assert labels == labels[..n] + [labels[n]];
    }
  }

  /** The ids exported: those `t` in `1..tracklets` whose class has more
      than `minOccurrences` rows, in ascending order. */
  function ExportedIds(labels: seq<nat>, tracklets: nat, minOccurrences: nat): (ids: seq<nat>)
    ensures forall t :: t in ids <==> 1 <= t <= tracklets && Occurrences(labels, t) > minOccurrences
    ensures forall k, k' :: 0 <= k < k' < |ids| ==> ids[k] < ids[k']
  {
    if tracklets == 0 then []
    else
      var before := ExportedIds(labels, tracklets - 1, minOccurrences);
      assert forall k :: 0 <= k < |before| ==> before[k] in before && before[k] < tracklets;
      if Occurrences(labels, tracklets) > minOccurrences then before + [tracklets] else before
  }

  /** The ids up to `t` are those up to `t - 1`, then `t` when it is kept. */
  lemma ExportedIdsStep(labels: seq<nat>, t: nat, minOccurrences: nat)
    requires t >= 1
    ensures ExportedIds(labels, t, minOccurrences)
            == ExportedIds(labels, t - 1, minOccurrences) + (if Occurrences(labels, t) > minOccurrences then [t] else [])
  {
  }

  /** The rows of class `t`, in index order: what is saved for it. */
  function TrackletRows(features: seq<Row>, labels: seq<nat>, t: nat): (rows: seq<Row>)
    requires |labels| == |features|
    ensures |rows| == Occurrences(labels, t)
    ensures forall k :: 0 <= k < |rows| ==> rows[k] == features[IndicesOf(labels, t)[k]]
  {
    var u := IndicesOf(labels, t);
    seq(|u|, k requires 0 <= k < |u| => features[u[k]])
  }

  /** The largest label of a clustering is the number of classes it opened:
      the tracklet count the driver reads off the labels. */
  lemma TrackletCount(features: seq<Row>, minOccurrences: nat, eps: real)
    requires Rectangular(features) && |features| > 0
    ensures MaxLabel(ClusterSpec(features, minOccurrences, eps).labels)
            == ClusterSpec(features, minOccurrences, eps).classes
  {
    var r := ClusterSpec(features, minOccurrences, eps);
    ClusterSpecProperties(features, minOccurrences, eps);
    var m := MaxLabel(r.labels);
    if r.classes > 0 {
      assert r.classes in r.labels;
      var i :| 0 <= i < |r.labels| && r.labels[i] == r.classes;
      assert r.labels[i] <= m;
    }
  }

  /** Every exported id is a class of the clustering with more than
      `minOccurrences` rows that form a chain of linked rows; every class
      with more than `minOccurrences` rows is exported. */
  lemma ExportedTracklets(features: seq<Row>, minOccurrences: nat, eps: real)
    requires Rectangular(features) && |features| > 0
    ensures var r := ClusterSpec(features, minOccurrences, eps);
      forall t :: t in ExportedIds(r.labels, MaxLabel(r.labels), minOccurrences) <==>
        1 <= t <= r.classes && Occurrences(r.labels, t) > minOccurrences
    ensures var r := ClusterSpec(features, minOccurrences, eps);
      forall t :: t in ExportedIds(r.labels, MaxLabel(r.labels), minOccurrences) ==>
        var rows := IndicesOf(r.labels, t);
        forall k :: 0 <= k < |rows| - 1 ==> Linked(features, rows[k], rows[k + 1], eps)
  {
    var r := ClusterSpec(features, minOccurrences, eps);
    TrackletCount(features, minOccurrences, eps);
    ClusterSpecProperties(features, minOccurrences, eps);
    forall t | t in ExportedIds(r.labels, MaxLabel(r.labels), minOccurrences)
      ensures var rows := IndicesOf(r.labels, t);
        forall k :: 0 <= k < |rows| - 1 ==> Linked(features, rows[k], rows[k + 1], eps)
    {
      TrackletIsChain(features, r.labels, eps, t);
    }
  }

  /** The export filter as the driver runs it: the ids `1..tracklets` in
      ascending order, each kept when its class has more than
      `minOccurrences` rows. */
  method SelectTracklets(labels: seq<nat>, tracklets: nat, minOccurrences: nat) returns (ids: seq<nat>)
    ensures ids == ExportedIds(labels, tracklets, minOccurrences)
  {
    ids := [];
    var t := 1;
    while t <= tracklets
      invariant 1 <= t <= tracklets + 1
      invariant ids == ExportedIds(labels, t - 1, minOccurrences)
    {
      var nOcc := Occurrences(labels, t);
      ExportedIdsStep(labels, t, minOccurrences);
      if nOcc > minOccurrences {
        ids := ids + [t];
      }
      t := t + 1;
    }
    assert t - 1 == tracklets;
  }

  /** One run over the detections of a sequence of frames, whose rows must
      form a matrix (`BuildFeaturesRectangular` gives a sufficient condition).
      The driver returns nothing on either path: `None` stands for the early
      exit when nothing was detected, and `Some(report)` for what a full run
      produces as output, namely the labels it clustered, the tracklet count
      it prints and the ids whose rows it writes to files. */
  method Run(frames: seq<seq<seq<real>>>, minOccurrences: nat, eps: real)
    returns (report: Option<Report>)
    requires Rectangular(BuildFeatures(frames))
    ensures report.None? <==> Detections(frames) == 0
    ensures report.Some? ==>
      var r := ClusterSpec(BuildFeatures(frames), minOccurrences, eps);
      && report.value.labels == r.labels
      && report.value.tracklets == r.classes
      && report.value.exported == ExportedIds(r.labels, r.classes, minOccurrences)
  {
    var features := BuildFeatures(frames);
    if |features| == 0 {
      return None;
    }
    var labels, distances := ClusterPoses(features, minOccurrences, eps);
    var tracklets := MaxLabel(labels[..]);
    TrackletCount(features, minOccurrences, eps);
    var ids := SelectTracklets(labels[..], tracklets, minOccurrences);
    report := Some(Report(labels[..], tracklets, ids));
  }
}
