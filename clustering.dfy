/** Greedy chained clustering of skeleton feature rows into tracklets.

    Each outer round opens a new class at the lowest-index unclassified row
    (the seed) and then walks the rows that were unclassified when the round
    began, in ascending order. A row joins the class when it shares more than
    one valid element with the current anchor, its masked distance to the
    anchor is below `eps`, and its frame index differs from the anchor's; it
    then becomes the anchor. Rounds continue while more than `minOccurrences`
    rows are unclassified.

    The functions InnerPass, ClassPass and Outer state what the rounds compute;
    the method ClusterPoses computes it with the source's loops and its label
    array, and is proved to agree with them. */
module TrackletClustering {
  import opened Features
  import opened Distance
  import opened Labels

  /** Labels and distance sample after (part of) a round. */
  datatype Pass = Pass(labels: seq<nat>, distances: seq<real>)

  /** Result of the whole clustering: the labels, the number of classes
      opened (ids 1..classes) and the distance sample in comparison order. */
  datatype Clustering = Clustering(labels: seq<nat>, classes: nat, distances: seq<real>)

  /** The state of a round while it walks its snapshot: the labels, the
      anchor (the row last accepted into the class) and the distance sample. */
  datatype Scan = Scan(labels: seq<nat>, anchor: nat, distances: seq<real>)

  /** Row `j` may follow row `i` in a tracklet: they overlap on more than one
      valid element, their masked distance is below `eps`, and they were seen
      in different frames. */
  predicate Linked(features: seq<Row>, i: nat, j: nat, eps: real)
    requires Rectangular(features) && i < |features| && j < |features|
  {
    CountTrue(Overlap(features[i], features[j])) > 1
    && Within(MeanSq(features[i], features[j]), eps)
    && Frame(features[i]) != Frame(features[j])
  }

  /** One comparison of a round for class `classId`: row `fr` against the
      anchor. A pair that overlaps on more than one element has its mean
      square recorded; when it is also within `eps` and the frames differ,
      `fr` is labelled and becomes the anchor. */
  function Compare(features: seq<Row>, eps: real, classId: nat, fr: nat,
                   labels: seq<nat>, anchor: nat, distances: seq<real>): (s: Scan)
    requires Rectangular(features) && |labels| == |features| && anchor < |features| && fr < |features|
    ensures |s.labels| == |labels| && s.anchor < |features|
  {
    var last, row := features[anchor], features[fr];
    if CountTrue(Overlap(last, row)) > 1 then
      var meanSq := MeanSq(last, row);
      if Within(meanSq, eps) && Frame(row) != Frame(last) then
        Scan(labels[fr := classId], fr, distances + [meanSq])
      else
        Scan(labels, anchor, distances + [meanSq])
    else
      Scan(labels, anchor, distances)
  }

  /** A comparison records one non-negative mean square exactly when the
      pair overlaps on more than one element, and labels `fr` and moves the
      anchor to it exactly when the anchor and `fr` are linked; otherwise it
      changes neither. */
  lemma CompareCases(features: seq<Row>, eps: real, classId: nat, fr: nat,
                     labels: seq<nat>, anchor: nat, distances: seq<real>)
    requires Rectangular(features) && |labels| == |features| && anchor < |features| && fr < |features|
    ensures var s := Compare(features, eps, classId, fr, labels, anchor, distances);
      var last, row := features[anchor], features[fr];
      && s.distances == distances + (if CountTrue(Overlap(last, row)) > 1 then [MeanSq(last, row)] else [])
      && (Linked(features, anchor, fr, eps) ==> s.labels == labels[fr := classId] && s.anchor == fr)
      && (!Linked(features, anchor, fr, eps) ==> s.labels == labels && s.anchor == anchor)
  {
  }

  /** The inner pass of a round for class `classId`: compares the rows of
      `snapshot`, in order, with the anchor. */
  function InnerPass(features: seq<Row>, eps: real, classId: nat, snapshot: seq<nat>,
                     labels: seq<nat>, anchor: nat, distances: seq<real>): (r: Pass)
    requires Rectangular(features) && |labels| == |features| && anchor < |features|
    requires forall k :: 0 <= k < |snapshot| ==> snapshot[k] < |features|
    ensures |r.labels| == |labels|
    decreases |snapshot|
  {
    if snapshot == [] then Pass(labels, distances)
    else
      var s := Compare(features, eps, classId, snapshot[0], labels, anchor, distances);
      InnerPass(features, eps, classId, snapshot[1..], s.labels, s.anchor, s.distances)
  }

  /** The inner pass labels only rows of its snapshot, and only with its
      own id; it appends at most one non-negative entry to the distance
      sample per row of the snapshot. */
  lemma {:induction false} InnerPassEffect(features: seq<Row>, eps: real, classId: nat, snapshot: seq<nat>,
                                           labels: seq<nat>, anchor: nat, distances: seq<real>)
    requires Rectangular(features) && |labels| == |features| && anchor < |features|
    requires forall k :: 0 <= k < |snapshot| ==> snapshot[k] < |features|
    ensures var r := InnerPass(features, eps, classId, snapshot, labels, anchor, distances);
      && (forall i :: 0 <= i < |labels| ==>
            r.labels[i] == labels[i] || (r.labels[i] == classId && i in snapshot))
      && distances <= r.distances && |r.distances| <= |distances| + |snapshot|
      && (forall k :: |distances| <= k < |r.distances| ==> r.distances[k] >= 0.0)
    decreases |snapshot|
  {
    if snapshot != [] {
      var s := Compare(features, eps, classId, snapshot[0], labels, anchor, distances);
      CompareCases(features, eps, classId, snapshot[0], labels, anchor, distances);
      InnerPassEffect(features, eps, classId, snapshot[1..], s.labels, s.anchor, s.distances);
    }
  }

  /** One outer round: label the lowest unclassified row with `classId` and
      run the inner pass over the other rows unclassified at that moment. */
  function ClassPass(features: seq<Row>, eps: real, labels: seq<nat>, classId: nat, distances: seq<real>): (r: Pass)
    requires Rectangular(features) && |labels| == |features| && |Unclassified(labels)| > 0
    ensures |r.labels| == |labels|
  {
    var unclass := Unclassified(labels);
    var seed := unclass[0];
    InnerPass(features, eps, classId, unclass[1..], labels[seed := classId], seed, distances)
  }

  /** A round only labels rows that were unclassified, with its own id; it
      labels its seed, so it leaves strictly fewer rows unclassified. */
  lemma ClassPassEffect(features: seq<Row>, eps: real, labels: seq<nat>, classId: nat, distances: seq<real>)
    requires Rectangular(features) && |labels| == |features| && |Unclassified(labels)| > 0
    requires classId >= 1
    ensures var after := ClassPass(features, eps, labels, classId, distances).labels;
      && |after| == |labels|
      && (forall i :: 0 <= i < |labels| ==> after[i] == labels[i] || (labels[i] == 0 && after[i] == classId))
      && after[Unclassified(labels)[0]] == classId
      && |Unclassified(after)| < |Unclassified(labels)|
  {
    var unclass := Unclassified(labels);
    var seed := unclass[0];
    var seeded := labels[seed := classId];
    var after := InnerPass(features, eps, classId, unclass[1..], seeded, seed, distances).labels;
    InnerPassEffect(features, eps, classId, unclass[1..], seeded, seed, distances);
    forall i | 0 <= i < |labels|
      ensures after[i] == labels[i] || (labels[i] == 0 && after[i] == classId)
      ensures i == seed ==> after[i] == classId
    {
      if i in unclass[1..] {
        var k :| 0 <= k < |unclass[1..]| && unclass[1..][k] == i;
        assert unclass[k + 1] == i && unclass[0] < unclass[k + 1];
      }
    }
    FewerIndices(labels, after, 0);
  }

  /** A round appends one non-negative entry per row it compares with an
      anchor, at most one per row unclassified besides its seed. */
  lemma ClassPassSample(features: seq<Row>, eps: real, labels: seq<nat>, classId: nat, distances: seq<real>)
    requires Rectangular(features) && |labels| == |features| && |Unclassified(labels)| > 0
    ensures var p := ClassPass(features, eps, labels, classId, distances);
      && distances <= p.distances
      && |p.distances| <= |distances| + |Unclassified(labels)| - 1
      && (forall k :: |distances| <= k < |p.distances| ==> p.distances[k] >= 0.0)
  {
    var unclass := Unclassified(labels);
    InnerPassEffect(features, eps, classId, unclass[1..], labels[unclass[0] := classId], unclass[0], distances);
  }

  /** The rounds from the state (`labels`, next id `classId`, sample
      `distances`) until at most `minOccurrences` rows are unclassified. */
  function Outer(features: seq<Row>, minOccurrences: nat, eps: real,
                 labels: seq<nat>, classId: nat, distances: seq<real>): (r: Clustering)
    requires Rectangular(features) && |labels| == |features| && classId >= 1
    ensures |r.labels| == |labels|
    decreases |Unclassified(labels)|
  {
    if |Unclassified(labels)| <= minOccurrences then Clustering(labels, classId - 1, distances)
    else
      var p := ClassPass(features, eps, labels, classId, distances);
      ClassPassEffect(features, eps, labels, classId, distances);
      Outer(features, minOccurrences, eps, p.labels, classId + 1, p.distances)
  }

  /** One step of the rounds: either the rounds stop, or they run one round
      and continue from its result, which has fewer unclassified rows. */
  lemma OuterUnfold(features: seq<Row>, minOccurrences: nat, eps: real,
                    labels: seq<nat>, classId: nat, distances: seq<real>)
    requires Rectangular(features) && |labels| == |features| && classId >= 1
    ensures |Unclassified(labels)| <= minOccurrences ==>
      Outer(features, minOccurrences, eps, labels, classId, distances) == Clustering(labels, classId - 1, distances)
    ensures |Unclassified(labels)| > minOccurrences ==>
      var p := ClassPass(features, eps, labels, classId, distances);
      && |p.labels| == |labels|
      && |Unclassified(p.labels)| < |Unclassified(labels)|
      && Outer(features, minOccurrences, eps, labels, classId, distances)
         == Outer(features, minOccurrences, eps, p.labels, classId + 1, p.distances)
  {
    if |Unclassified(labels)| > minOccurrences {
      ClassPassEffect(features, eps, labels, classId, distances);
    }
  }

  /** Induction over the rounds: a property of the labels, the next id and
      the distance sample that every round the loop runs keeps (a round runs
      only while more than `minOccurrences` rows are unclassified) holds of
      the labels, the id after the last class and the sample the rounds end
      with. */
  lemma {:induction false} OuterPreserves(features: seq<Row>, minOccurrences: nat, eps: real,
                                          P: (seq<nat>, nat, seq<real>) -> bool,
                                          labels: seq<nat>, classId: nat, distances: seq<real>)
    requires Rectangular(features) && |labels| == |features| && classId >= 1
    requires forall l: seq<nat>, c: nat, d: seq<real> {:trigger ClassPass(features, eps, l, c, d)} ::
               |l| == |features| && c >= 1 && |Unclassified(l)| > minOccurrences && P(l, c, d) ==>
               P(ClassPass(features, eps, l, c, d).labels, c + 1, ClassPass(features, eps, l, c, d).distances)
    requires P(labels, classId, distances)
    ensures var r := Outer(features, minOccurrences, eps, labels, classId, distances);
      P(r.labels, r.classes + 1, r.distances)
    decreases |Unclassified(labels)|
  {
    OuterUnfold(features, minOccurrences, eps, labels, classId, distances);
    if |Unclassified(labels)| > minOccurrences {
      var p := ClassPass(features, eps, labels, classId, distances);
      OuterPreserves(features, minOccurrences, eps, P, p.labels, classId + 1, p.distances);
    }
  }

  /** The rounds stop with at most `minOccurrences` rows unclassified and
      open at most one class per row they label. */
  lemma {:induction false} OuterStops(features: seq<Row>, minOccurrences: nat, eps: real,
                                      labels: seq<nat>, classId: nat, distances: seq<real>)
    requires Rectangular(features) && |labels| == |features| && classId >= 1
    ensures var r := Outer(features, minOccurrences, eps, labels, classId, distances);
      && |Unclassified(r.labels)| <= minOccurrences
      && classId - 1 <= r.classes
      && r.classes - (classId - 1) <= |Unclassified(labels)| - |Unclassified(r.labels)|
    decreases |Unclassified(labels)|
  {
    OuterUnfold(features, minOccurrences, eps, labels, classId, distances);
    if |Unclassified(labels)| > minOccurrences {
      var p := ClassPass(features, eps, labels, classId, distances);
      OuterStops(features, minOccurrences, eps, p.labels, classId + 1, p.distances);
    }
  }

  /** The rounds keep every label already given. */
  lemma OuterKeepsLabels(features: seq<Row>, minOccurrences: nat, eps: real,
                         labels: seq<nat>, classId: nat, distances: seq<real>)
    requires Rectangular(features) && |labels| == |features| && classId >= 1
    ensures var r := Outer(features, minOccurrences, eps, labels, classId, distances);
      forall i :: 0 <= i < |labels| && labels[i] != 0 ==> r.labels[i] == labels[i]
  {
    var P := (l: seq<nat>, c: nat, d: seq<real>) =>
      |l| == |labels| && forall i :: 0 <= i < |labels| && labels[i] != 0 ==> l[i] == labels[i];
    forall l: seq<nat>, c: nat, d: seq<real> | |l| == |features| && c >= 1 && |Unclassified(l)| > 0 && P(l, c, d)
      ensures P(ClassPass(features, eps, l, c, d).labels, c + 1, ClassPass(features, eps, l, c, d).distances)
    {
      ClassPassEffect(features, eps, l, c, d);
    }
    OuterPreserves(features, minOccurrences, eps, P, labels, classId, distances);
  }

  /** The rounds only append to the distance sample. */
  lemma OuterAppends(features: seq<Row>, minOccurrences: nat, eps: real,
                     labels: seq<nat>, classId: nat, distances: seq<real>)
    requires Rectangular(features) && |labels| == |features| && classId >= 1
    ensures distances <= Outer(features, minOccurrences, eps, labels, classId, distances).distances
  {
    var P := (l: seq<nat>, c: nat, d: seq<real>) => distances <= d;
    forall l: seq<nat>, c: nat, d: seq<real> | |l| == |features| && c >= 1 && |Unclassified(l)| > 0 && P(l, c, d)
      ensures P(ClassPass(features, eps, l, c, d).labels, c + 1, ClassPass(features, eps, l, c, d).distances)
    {
      var p := ClassPass(features, eps, l, c, d);
      ClassPassSample(features, eps, l, c, d);
      assert p.distances[..|distances|] == d[..|distances|];
    }
    OuterPreserves(features, minOccurrences, eps, P, labels, classId, distances);
  }

  /** The rounds keep the distance sample non-negative. */
  lemma OuterSampleNonNegative(features: seq<Row>, minOccurrences: nat, eps: real,
                               labels: seq<nat>, classId: nat, distances: seq<real>)
    requires Rectangular(features) && |labels| == |features| && classId >= 1
    requires forall k :: 0 <= k < |distances| ==> distances[k] >= 0.0
    ensures var r := Outer(features, minOccurrences, eps, labels, classId, distances);
      forall k :: 0 <= k < |r.distances| ==> r.distances[k] >= 0.0
  {
    var P := (l: seq<nat>, c: nat, d: seq<real>) => forall k :: 0 <= k < |d| ==> d[k] >= 0.0;
    forall l: seq<nat>, c: nat, d: seq<real> | |l| == |features| && c >= 1 && |Unclassified(l)| > 0 && P(l, c, d)
      ensures P(ClassPass(features, eps, l, c, d).labels, c + 1, ClassPass(features, eps, l, c, d).distances)
    {
      ClassPassSample(features, eps, l, c, d);
    }
    OuterPreserves(features, minOccurrences, eps, P, labels, classId, distances);
  }

  /** The clustering of a feature matrix: all rows unclassified, first id 1,
      empty distance sample. */
  function ClusterSpec(features: seq<Row>, minOccurrences: nat, eps: real): Clustering
    requires Rectangular(features)
  {
    Outer(features, minOccurrences, eps, seq(|features|, _ => 0), 1, [])
  }

  /** The inner loop of a round: walks `unclass[1..]` with the anchor state
      (pose, mask, frame index) of the last accepted row, starting from the
      seed `unclass[0]`, updating the label array in place and appending to
      the distance sample. */
  method ScanRound(features: seq<Row>, eps: real, classId: nat, unclass: seq<nat>,
                   labels: array<nat>, distances: seq<real>) returns (sample: seq<real>)
    requires Rectangular(features) && labels.Length == |features| && |unclass| > 0
    requires forall k :: 0 <= k < |unclass| ==> unclass[k] < |features|
    modifies labels
    ensures Pass(labels[..], sample)
            == InnerPass(features, eps, classId, unclass[1..], old(labels[..]), unclass[0], distances)
  {
    sample := distances;
    var lastPose := features[unclass[0]];
    var lastMask := Mask(lastPose);
    var lastFrnum := Frame(lastPose);
    ghost var anchor: nat := unclass[0];
    var i := 1;
    while i < |unclass|
      invariant 1 <= i <= |unclass|
      invariant anchor < |features| && lastPose == features[anchor]
      invariant lastMask == Mask(lastPose) && lastFrnum == Frame(lastPose)
      invariant InnerPass(features, eps, classId, unclass[i..], labels[..], anchor, sample)
                == InnerPass(features, eps, classId, unclass[1..], old(labels[..]), unclass[0], distances)
    {
      var fr := unclass[i];
      var thisPose := features[fr];
      var thisMask := Mask(thisPose);
      var thisFrnum := Frame(thisPose);
      var mask := And(lastMask, thisMask);
      var nMask := CountTrue(mask);
      ghost var next := Compare(features, eps, classId, fr, labels[..], anchor, sample);
      assert unclass[i..][0] == fr && unclass[i..][1..] == unclass[i + 1..];
      assert mask == Overlap(features[anchor], features[fr]);
      if nMask > 1 {
        var meanSq := MaskedSqSum(lastPose, thisPose, mask) / nMask as real;
        assert meanSq == MeanSq(features[anchor], features[fr]);
        sample := sample + [meanSq];
        if Within(meanSq, eps) && thisFrnum != lastFrnum {
          labels[fr] := classId;
          lastPose, lastMask, lastFrnum := thisPose, thisMask, thisFrnum;
          anchor := fr;
        }
      }
      assert next == Scan(labels[..], anchor, sample);
      i := i + 1;
    }
  }

  /** Clusters the rows of `features`: returns the label array and the
      distance sample (as mean squares), computed with the rounds' loops and
      a label array updated in place. */
  method ClusterPoses(features: seq<Row>, minOccurrences: nat, eps: real)
    returns (labels: array<nat>, distances: seq<real>)
    requires Rectangular(features)
    ensures fresh(labels)
    ensures labels[..] == ClusterSpec(features, minOccurrences, eps).labels
    ensures distances == ClusterSpec(features, minOccurrences, eps).distances
  {
    var n := |features|;
    labels := new nat[n](_ => 0);
    var unclass: seq<nat> := seq(n, i => i);
    var classId: nat := 1;
    distances := [];
    AllUnclassified(n);
    assert labels[..] == seq(n, _ => 0);
    while |unclass| > minOccurrences
      invariant labels.Length == n
      invariant unclass == Unclassified(labels[..])
      invariant classId >= 1
      invariant Outer(features, minOccurrences, eps, labels[..], classId, distances)
                == ClusterSpec(features, minOccurrences, eps)
      decreases |unclass|
    {
      ghost var before, sampleBefore := labels[..], distances;
      labels[unclass[0]] := classId;
      assert labels[..] == before[unclass[0] := classId];
      distances := ScanRound(features, eps, classId, unclass, labels, distances);
      assert Pass(labels[..], distances) == ClassPass(features, eps, before, classId, sampleBefore);
      ClassPassEffect(features, eps, before, classId, sampleBefore);
      unclass := Unclassified(labels[..]);
      classId := classId + 1;
    }
  }
}
