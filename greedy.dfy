/** The clustering is greedy: a row joins a class exactly when it is linked
    to the row of that class just before it, among the rows still
    unclassified when the class was built; and each round's distance sample
    is the mean square of exactly the compared pairs that overlap on more than
    one element. */
module Greedy {
  import opened Features
  import opened Distance
  import opened Labels
  import opened TrackletClustering
  import opened ClusterProperties

  /** The last row before row `j` labelled `c`: the anchor a round for class
      `c` holds when it reaches row `j`. */
  function LastBefore(labels: seq<nat>, c: nat, j: nat): (i: nat)
    requires j <= |labels| && c in labels[..j]
    ensures i < j && labels[i] == c
    ensures forall m :: i < m < j ==> labels[m] != c
    decreases j
  {
    assert labels[..j] == labels[..j - 1] + [labels[j - 1]];
    if labels[j - 1] == c then j - 1 else LastBefore(labels, c, j - 1)
  }

  /** The last row of class `c` before `j` is determined by which rows carry `c`. */
  lemma LastBeforeAgree(labels: seq<nat>, other: seq<nat>, c: nat, j: nat)
    requires j <= |labels| == |other| && c in labels[..j]
    requires forall m :: 0 <= m < j ==> (labels[m] == c <==> other[m] == c)
    ensures c in other[..j] && LastBefore(other, c, j) == LastBefore(labels, c, j)
  {
    var i := LastBefore(labels, c, j);
    assert other[..j][i] == c;
    var i' := LastBefore(other, c, j);
    assert labels[i'] == c;
  }

  /** The distance sample a round for class `c` writes while walking
      `snapshot`, read off the round's resulting labels `labels`: for each row
      in turn, the mean square to the last row of the class before it, when
      the two overlap on more than one element. */
  function Recorded(features: seq<Row>, labels: seq<nat>, c: nat, snapshot: seq<nat>): seq<real>
    requires Rectangular(features) && |labels| == |features|
  {
    if snapshot == [] then []
    else
      var j := snapshot[0];
      var here :=
        if j < |labels| && c in labels[..j] then
          var a := LastBefore(labels, c, j);
          if CountTrue(Overlap(features[a], features[j])) > 1 then [MeanSq(features[a], features[j])] else []
        else [];
      here + Recorded(features, labels, c, snapshot[1..])
  }

  /** Appending the sample of the first row of `snapshot`, whose last row of
      class `c` is `anchor`, and then that of the rest, appends the sample of
      all of it. */
  lemma RecordedFrom(features: seq<Row>, labels: seq<nat>, c: nat, snapshot: seq<nat>, anchor: nat,
                     distances: seq<real>, next: seq<real>)
    requires Rectangular(features) && |labels| == |features| && snapshot != [] && snapshot[0] < |labels|
    requires c in labels[..snapshot[0]] && LastBefore(labels, c, snapshot[0]) == anchor
    requires var last, row := features[anchor], features[snapshot[0]];
      next == distances + (if CountTrue(Overlap(last, row)) > 1 then [MeanSq(last, row)] else [])
    ensures next + Recorded(features, labels, c, snapshot[1..]) == distances + Recorded(features, labels, c, snapshot)
  {
    var here := next[|distances|..];
    assert next == distances + here;
    var later := Recorded(features, labels, c, snapshot[1..]);
    assert (distances + here) + later == distances + (here + later);
  }

  /** The state a pass for class `c` works from: the anchor carries `c`, no
      row after it does, and the snapshot is an ascending list of
      unclassified rows after the anchor. */
  predicate PassState(features: seq<Row>, c: nat, snapshot: seq<nat>, labels: seq<nat>, anchor: nat)
  {
    && Rectangular(features) && |labels| == |features| && c != 0
    && anchor < |features| && labels[anchor] == c
    && (forall m :: anchor < m < |labels| ==> labels[m] != c)
    && (forall k :: 0 <= k < |snapshot| ==> anchor < snapshot[k] < |features| && labels[snapshot[k]] == 0)
    && (forall k, k' :: 0 <= k < k' < |snapshot| ==> snapshot[k] < snapshot[k'])
  }

  /** One comparison of a pass: it leaves a state the pass can go on from,
      and after the whole pass the last row of class `c` before the compared
      row is still the anchor the comparison used. */
  lemma PassStep(features: seq<Row>, eps: real, c: nat, snapshot: seq<nat>,
                 labels: seq<nat>, anchor: nat, distances: seq<real>)
    requires PassState(features, c, snapshot, labels, anchor) && snapshot != []
    ensures var s := Compare(features, eps, c, snapshot[0], labels, anchor, distances);
      PassState(features, c, snapshot[1..], s.labels, s.anchor)
    ensures var out := InnerPass(features, eps, c, snapshot, labels, anchor, distances).labels;
      c in out[..snapshot[0]] && LastBefore(out, c, snapshot[0]) == anchor
  {
    CompareCases(features, eps, c, snapshot[0], labels, anchor, distances);
    forall k | 0 <= k < |snapshot[1..]|
      ensures snapshot[0] < snapshot[1..][k]
    {
      assert snapshot[1..][k] == snapshot[k + 1];
    }
    var out := InnerPass(features, eps, c, snapshot, labels, anchor, distances).labels;
    InnerPassEffect(features, eps, c, snapshot, labels, anchor, distances);
    assert out[..snapshot[0]][anchor] == c;
    forall k | 0 <= k < |snapshot|
      ensures snapshot[0] <= snapshot[k]
    {
      if k > 0 {
        assert snapshot[0] < snapshot[k];
      }
    }
  }

  /** The rows a pass labels: a row of the snapshot joins the class exactly
      when it is linked to the row of the class just before it. */
  lemma {:induction false} InnerPassJoins(features: seq<Row>, eps: real, c: nat, snapshot: seq<nat>,
                                          labels: seq<nat>, anchor: nat, distances: seq<real>)
    requires PassState(features, c, snapshot, labels, anchor)
    ensures var out := InnerPass(features, eps, c, snapshot, labels, anchor, distances).labels;
      forall i :: i in snapshot ==>
        i < |out| && c in out[..i] && (out[i] == c <==> Linked(features, LastBefore(out, c, i), i, eps))
    decreases |snapshot|
  {
    if snapshot != [] {
      var out := InnerPass(features, eps, c, snapshot, labels, anchor, distances).labels;
      var j, rest := snapshot[0], snapshot[1..];
      PassStep(features, eps, c, snapshot, labels, anchor, distances);
      var s := Compare(features, eps, c, j, labels, anchor, distances);
      CompareCases(features, eps, c, j, labels, anchor, distances);
      InnerPassJoins(features, eps, c, rest, s.labels, s.anchor, s.distances);
      InnerPassEffect(features, eps, c, rest, s.labels, s.anchor, s.distances);
      assert j !in rest;
      assert out[j] == s.labels[j];
    }
  }

  /** The sample a pass writes: for each row of the snapshot in turn, the
      mean square to the row of the class just before it, when the two
      overlap on more than one element. */
  lemma {:induction false} InnerPassRecords(features: seq<Row>, eps: real, c: nat, snapshot: seq<nat>,
                                            labels: seq<nat>, anchor: nat, distances: seq<real>)
    requires PassState(features, c, snapshot, labels, anchor)
    ensures var r := InnerPass(features, eps, c, snapshot, labels, anchor, distances);
      r.distances == distances + Recorded(features, r.labels, c, snapshot)
    decreases |snapshot|
  {
    if snapshot != [] {
      var r := InnerPass(features, eps, c, snapshot, labels, anchor, distances);
      var j, rest := snapshot[0], snapshot[1..];
      PassStep(features, eps, c, snapshot, labels, anchor, distances);
      var s := Compare(features, eps, c, j, labels, anchor, distances);
      CompareCases(features, eps, c, j, labels, anchor, distances);
      InnerPassRecords(features, eps, c, rest, s.labels, s.anchor, s.distances);
      RecordedFrom(features, r.labels, c, snapshot, anchor, distances, s.distances);
    }
  }

  /** A round for class `c` over labels that all lie below `c` starts from its
      seed, the lowest unclassified row, and walks the other unclassified
      rows in ascending order. */
  lemma RoundState(features: seq<Row>, labels: seq<nat>, c: nat)
    requires Rectangular(features) && |labels| == |features| && |Unclassified(labels)| > 0 && c >= 1
    requires forall i :: 0 <= i < |labels| ==> labels[i] < c
    ensures var u := Unclassified(labels);
      PassState(features, c, u[1..], labels[u[0] := c], u[0])
  {
    var u := Unclassified(labels);
    var seeded := labels[u[0] := c];
    forall k | 0 <= k < |u[1..]|
      ensures u[0] < u[1..][k] < |features| && seeded[u[1..][k]] == 0
    {
      assert u[1..][k] == u[k + 1];
    }
    forall k, k' | 0 <= k < k' < |u[1..]|
      ensures u[1..][k] < u[1..][k']
    {
      assert u[1..][k] == u[k + 1] && u[1..][k'] == u[k' + 1];
    }
  }

  /** A round for class `c`: every unclassified row after the seed joins the
      class exactly when it is linked to the row of the class just before it. */
  lemma ClassPassJoins(features: seq<Row>, eps: real, labels: seq<nat>, c: nat, distances: seq<real>)
    requires Rectangular(features) && |labels| == |features| && |Unclassified(labels)| > 0 && c >= 1
    requires forall i :: 0 <= i < |labels| ==> labels[i] < c
    ensures var after := ClassPass(features, eps, labels, c, distances).labels;
      forall j :: j in Unclassified(labels)[1..] ==>
        j < |after| && c in after[..j] && (after[j] == c <==> Linked(features, LastBefore(after, c, j), j, eps))
  {
    var u := Unclassified(labels);
    RoundState(features, labels, c);
    InnerPassJoins(features, eps, c, u[1..], labels[u[0] := c], u[0], distances);
  }

  /** A round for class `c` appends to the sample the mean square of each
      unclassified row after the seed to the row of the class just before it,
      in row order, whenever the two overlap on more than one element. */
  lemma ClassPassRecords(features: seq<Row>, eps: real, labels: seq<nat>, c: nat, distances: seq<real>)
    requires Rectangular(features) && |labels| == |features| && |Unclassified(labels)| > 0 && c >= 1
    requires forall i :: 0 <= i < |labels| ==> labels[i] < c
    ensures var p := ClassPass(features, eps, labels, c, distances);
      p.distances == distances + Recorded(features, p.labels, c, Unclassified(labels)[1..])
  {
    var u := Unclassified(labels);
    RoundState(features, labels, c);
    InnerPassRecords(features, eps, c, u[1..], labels[u[0] := c], u[0], distances);
  }

  /** Class `c` is greedy in `labels`: a row after the first row of class `c`
      that is unclassified or in a class opened later belongs to `c` exactly
      when it is linked to the row of class `c` just before it. */
  ghost predicate GreedyFor(features: seq<Row>, labels: seq<nat>, eps: real, c: nat)
    requires Rectangular(features) && |labels| == |features|
  {
    forall j :: 0 <= j < |labels| && (labels[j] == 0 || labels[j] >= c) && c in labels[..j] ==>
      (labels[j] == c <==> Linked(features, LastBefore(labels, c, j), j, eps))
  }

  /** Every class `1..classes` is greedy. */
  ghost predicate Greedy(features: seq<Row>, labels: seq<nat>, eps: real, classes: nat)
    requires Rectangular(features) && |labels| == |features|
  {
    forall c :: 1 <= c <= classes ==> GreedyFor(features, labels, eps, c)
  }

  /** A round that labels only unclassified rows, with its own id, keeps every
      class opened before it greedy. */
  lemma KeepsGreedyFor(features: seq<Row>, eps: real, labels: seq<nat>, after: seq<nat>, classId: nat, c: nat)
    requires Rectangular(features) && |labels| == |features| == |after|
    requires 1 <= c < classId
    requires forall i :: 0 <= i < |labels| ==> after[i] == labels[i] || (labels[i] == 0 && after[i] == classId)
    requires GreedyFor(features, labels, eps, c)
    ensures GreedyFor(features, after, eps, c)
  {
    forall j | 0 <= j < |after| && (after[j] == 0 || after[j] >= c) && c in after[..j]
      ensures after[j] == c <==> Linked(features, LastBefore(after, c, j), j, eps)
    {
      var i :| 0 <= i < j && after[..j][i] == c;
      assert labels[..j][i] == c;
      LastBeforeAgree(labels, after, c, j);
    }
  }

  /** The class a round opens is greedy after it. */
  lemma NewClassGreedy(features: seq<Row>, eps: real, labels: seq<nat>, c: nat, distances: seq<real>)
    requires Rectangular(features) && |labels| == |features| && |Unclassified(labels)| > 0 && c >= 1
    requires forall i :: 0 <= i < |labels| ==> labels[i] < c
    ensures GreedyFor(features, ClassPass(features, eps, labels, c, distances).labels, eps, c)
  {
    var after := ClassPass(features, eps, labels, c, distances).labels;
    var u := Unclassified(labels);
    ClassPassEffect(features, eps, labels, c, distances);
    ClassPassJoins(features, eps, labels, c, distances);
    forall j | 0 <= j < |after| && (after[j] == 0 || after[j] >= c) && c in after[..j]
      ensures j in u[1..]
    {
      var i :| 0 <= i < j && after[..j][i] == c;
      assert labels[i] == 0 && labels[j] == 0;
      assert i in u && j in u;
      var k :| 0 <= k < |u| && u[k] == j;
      var k' :| 0 <= k' < |u| && u[k'] == i;
      assert u[0] <= u[k'] < u[k];
      assert u[1..][k - 1] == j;
    }
  }

  /** A round keeps the classes opened before it greedy and makes its own
      greedy. */
  lemma ClassPassKeepsGreedy(features: seq<Row>, eps: real, labels: seq<nat>, classId: nat, distances: seq<real>)
    requires Rectangular(features) && |labels| == |features| && |Unclassified(labels)| > 0 && classId >= 1
    requires forall i :: 0 <= i < |labels| ==> labels[i] < classId
    requires Greedy(features, labels, eps, classId - 1)
    ensures Greedy(features, ClassPass(features, eps, labels, classId, distances).labels, eps, classId)
  {
    var after := ClassPass(features, eps, labels, classId, distances).labels;
    ClassPassEffect(features, eps, labels, classId, distances);
    NewClassGreedy(features, eps, labels, classId, distances);
    forall c | 1 <= c < classId
      ensures GreedyFor(features, after, eps, c)
    {
      KeepsGreedyFor(features, eps, labels, after, classId, c);
    }
  }

  /** Between rounds: the labels lie below the next id `c`, and the classes
      opened so far are greedy. */
  ghost predicate GreedyState(features: seq<Row>, eps: real, labels: seq<nat>, c: nat)
    requires Rectangular(features)
  {
    && |labels| == |features| && c >= 1
    && (forall i :: 0 <= i < |labels| ==> labels[i] < c)
    && Greedy(features, labels, eps, c - 1)
  }

  /** Rounds from a state where the opened classes are greedy leave every
      class greedy. */
  lemma OuterKeepsGreedy(features: seq<Row>, minOccurrences: nat, eps: real,
                         labels: seq<nat>, classId: nat, distances: seq<real>)
    requires Rectangular(features) && |labels| == |features| && classId >= 1
    requires forall i :: 0 <= i < |labels| ==> labels[i] < classId
    requires Greedy(features, labels, eps, classId - 1)
    ensures var r := Outer(features, minOccurrences, eps, labels, classId, distances);
      Greedy(features, r.labels, eps, r.classes)
  {
    var P := (l: seq<nat>, c: nat, d: seq<real>) => GreedyState(features, eps, l, c);
    forall l: seq<nat>, c: nat, d: seq<real> | |l| == |features| && c >= 1 && |Unclassified(l)| > 0 && P(l, c, d)
      ensures P(ClassPass(features, eps, l, c, d).labels, c + 1, ClassPass(features, eps, l, c, d).distances)
    {
      ClassPassEffect(features, eps, l, c, d);
      ClassPassKeepsGreedy(features, eps, l, c, d);
    }
    OuterPreserves(features, minOccurrences, eps, P, labels, classId, distances);
  }

  /** The clustering is greedy: for every class `c` and every row `j` after
      the first row of `c` that is left unclassified or lies in a class
      opened after `c`, row `j` belongs to `c` exactly when it is linked to
      the row of class `c` just before it. */
  lemma ClusterSpecGreedy(features: seq<Row>, minOccurrences: nat, eps: real)
    requires Rectangular(features)
    ensures var r := ClusterSpec(features, minOccurrences, eps);
      |r.labels| == |features| &&
      forall c, j :: 1 <= c <= r.classes && 0 <= j < |r.labels| && (r.labels[j] == 0 || r.labels[j] >= c)
                     && c in r.labels[..j] ==>
        (r.labels[j] == c <==> Linked(features, LastBefore(r.labels, c, j), j, eps))
  {
    var zeros := seq(|features|, _ => 0);
    var r := ClusterSpec(features, minOccurrences, eps);
    OuterKeepsGreedy(features, minOccurrences, eps, zeros, 1, []);
    forall c, j | 1 <= c <= r.classes && 0 <= j < |r.labels| && (r.labels[j] == 0 || r.labels[j] >= c)
                  && c in r.labels[..j]
      ensures r.labels[j] == c <==> Linked(features, LastBefore(r.labels, c, j), j, eps)
    {
      assert GreedyFor(features, r.labels, eps, c);
    }
  }
}
