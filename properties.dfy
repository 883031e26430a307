/** What the greedy clustering guarantees about its labels and its distance
    sample, proved about the functions of TrackletClustering. */
module ClusterProperties {
  import opened Features
  import opened Distance
  import opened Labels
  import opened TrackletClustering

  /** Rows `i < j` carry the same label and no row between them does. */
  predicate Consecutive(labels: seq<nat>, i: nat, j: nat)
    requires i < j < |labels|
  {
    labels[i] == labels[j] && forall k :: i < k < j ==> labels[k] != labels[i]
  }

  /** Every class is a chain: any two of its rows that follow each other in
      index order are linked. */
  ghost predicate Chained(features: seq<Row>, labels: seq<nat>, eps: real)
    requires Rectangular(features) && |labels| == |features|
  {
    forall i, j :: 0 <= i < j < |labels| && labels[i] != 0 && Consecutive(labels, i, j) ==>
      Linked(features, i, j, eps)
  }

  /** Row `j` is the lowest row of its class. */
  ghost predicate IsSeed(labels: seq<nat>, j: nat)
    requires j < |labels|
  {
    labels[j] != 0 && forall k :: 0 <= k < j ==> labels[k] != labels[j]
  }

  /** Every row before the seed of a class belongs to a class opened earlier. */
  ghost predicate SeedsFirst(labels: seq<nat>)
  {
    forall j :: 0 <= j < |labels| && IsSeed(labels, j) ==> forall i :: 0 <= i < j ==> 0 < labels[i] < labels[j]
  }

  /** What holds between rounds when `classId` is the next id to open. */
  ghost predicate Invariant(features: seq<Row>, eps: real, labels: seq<nat>, classId: nat)
    requires Rectangular(features) && |labels| == |features|
  {
    && classId >= 1
    && (forall i :: 0 <= i < |labels| ==> labels[i] < classId)
    && (forall t :: 1 <= t < classId ==> t in labels)
    && Chained(features, labels, eps)
    && SeedsFirst(labels)
  }

  /** Labelling an unclassified row with an id nobody carries keeps every class a chain. */
  lemma OpenChain(features: seq<Row>, eps: real, labels: seq<nat>, c: nat, seed: nat)
    requires Rectangular(features) && |labels| == |features|
    requires seed < |labels| && labels[seed] == 0 && c != 0
    requires forall k :: 0 <= k < |labels| ==> labels[k] != c
    requires Chained(features, labels, eps)
    ensures Chained(features, labels[seed := c], eps)
  {
    var after := labels[seed := c];
    forall i, j | 0 <= i < j < |after| && after[i] != 0 && Consecutive(after, i, j)
      ensures Linked(features, i, j, eps)
    {
      assert i != seed && j != seed;
      forall k | i < k < j
        ensures labels[k] != labels[i]
      {
        assert after[k] != after[i];
      }
      assert Consecutive(labels, i, j);
    }
  }

  /** Labelling an unclassified row `fr` after the last row `a` of class `c`,
      when the two are linked, keeps every class a chain. */
  lemma ExtendChain(features: seq<Row>, eps: real, labels: seq<nat>, c: nat, a: nat, fr: nat)
    requires Rectangular(features) && |labels| == |features|
    requires a < fr < |labels| && c != 0 && labels[a] == c && labels[fr] == 0
    requires forall k :: a < k < |labels| ==> labels[k] != c
    requires Linked(features, a, fr, eps)
    requires Chained(features, labels, eps)
    ensures Chained(features, labels[fr := c], eps)
  {
    var after := labels[fr := c];
    forall i, j | 0 <= i < j < |after| && after[i] != 0 && Consecutive(after, i, j)
      ensures Linked(features, i, j, eps)
    {
      if j == fr {
        assert after[a] == c;
        assert i == a;
      } else {
        assert i != fr;
        forall k | i < k < j
          ensures labels[k] != labels[i]
        {
          assert after[k] != after[i];
        }
        assert Consecutive(labels, i, j);
      }
    }
  }

  /** The inner pass keeps every class a chain: each row it labels is linked
      to the anchor of that moment, the last row of the class so far. */
  lemma {:induction false} InnerPassKeepsChain(features: seq<Row>, eps: real, c: nat, snapshot: seq<nat>,
                                               labels: seq<nat>, anchor: nat, distances: seq<real>)
    requires Rectangular(features) && |labels| == |features| && anchor < |features|
    requires forall k :: 0 <= k < |snapshot| ==> anchor < snapshot[k] < |features| && labels[snapshot[k]] == 0
    requires forall k, k' :: 0 <= k < k' < |snapshot| ==> snapshot[k] < snapshot[k']
    requires c != 0 && labels[anchor] == c
    requires forall k :: anchor < k < |labels| ==> labels[k] != c
    requires Chained(features, labels, eps)
    ensures Chained(features, InnerPass(features, eps, c, snapshot, labels, anchor, distances).labels, eps)
    decreases |snapshot|
  {
    if snapshot != [] {
      var fr := snapshot[0];
      var s := Compare(features, eps, c, fr, labels, anchor, distances);
      CompareCases(features, eps, c, fr, labels, anchor, distances);
      if Linked(features, anchor, fr, eps) {
        ExtendChain(features, eps, labels, c, anchor, fr);
      }
      InnerPassKeepsChain(features, eps, c, snapshot[1..], s.labels, s.anchor, s.distances);
    }
  }

  /** Before the seed of a round every row is classified. */
  lemma BeforeSeedClassified(labels: seq<nat>)
    requires |Unclassified(labels)| > 0
    ensures forall i :: 0 <= i < Unclassified(labels)[0] ==> labels[i] != 0
  {
    var unclass := Unclassified(labels);
    forall i | 0 <= i < unclass[0]
      ensures labels[i] != 0
    {
      forall k | 0 <= k < |unclass|
        ensures unclass[k] != i
      {
        if k > 0 {
          assert unclass[0] < unclass[k];
        }
      }
    }
  }

  /** A round opens the id `classId`: labels stay below the next id and
      every opened id is in use. */
  lemma ClassPassKeepsIds(features: seq<Row>, eps: real, labels: seq<nat>, classId: nat, distances: seq<real>)
    requires Rectangular(features) && |labels| == |features| && |Unclassified(labels)| > 0
    requires classId >= 1
    requires forall i :: 0 <= i < |labels| ==> labels[i] < classId
    requires forall t :: 1 <= t < classId ==> t in labels
    ensures var after := ClassPass(features, eps, labels, classId, distances).labels;
      && (forall i :: 0 <= i < |after| ==> after[i] < classId + 1)
      && (forall t :: 1 <= t < classId + 1 ==> t in after)
  {
    var after := ClassPass(features, eps, labels, classId, distances).labels;
    ClassPassEffect(features, eps, labels, classId, distances);
    forall t | 1 <= t < classId + 1
      ensures t in after
    {
      if t < classId {
        assert t in labels;
        var i :| 0 <= i < |labels| && labels[i] == t;
        assert after[i] == t;
      } else {
        assert after[Unclassified(labels)[0]] == t;
      }
    }
  }

  /** A round keeps every class a chain. */
  lemma ClassPassKeepsChain(features: seq<Row>, eps: real, labels: seq<nat>, classId: nat, distances: seq<real>)
    requires Rectangular(features) && |labels| == |features| && |Unclassified(labels)| > 0
    requires classId >= 1
    requires forall i :: 0 <= i < |labels| ==> labels[i] < classId
    requires Chained(features, labels, eps)
    ensures Chained(features, ClassPass(features, eps, labels, classId, distances).labels, eps)
  {
    var unclass := Unclassified(labels);
    var seed := unclass[0];
    OpenChain(features, eps, labels, classId, seed);
    var seeded := labels[seed := classId];
    forall k | 0 <= k < |unclass[1..]|
      ensures seed < unclass[1..][k] < |features| && seeded[unclass[1..][k]] == 0
    {
      assert unclass[1..][k] == unclass[k + 1];
    }
    InnerPassKeepsChain(features, eps, classId, unclass[1..], seeded, seed, distances);
  }

  /** Labelling some unclassified rows with a fresh id, among them the
      lowest unclassified row, keeps the seeds in order. */
  lemma SeedsAfterRound(labels: seq<nat>, after: seq<nat>, classId: nat, seed: nat)
    requires |after| == |labels| && seed < |labels| && labels[seed] == 0 && after[seed] == classId
    requires forall i :: 0 <= i < seed ==> labels[i] != 0
    requires forall i :: 0 <= i < |labels| ==> labels[i] < classId
    requires forall i :: 0 <= i < |labels| ==> after[i] == labels[i] || (labels[i] == 0 && after[i] == classId)
    requires SeedsFirst(labels)
    ensures SeedsFirst(after)
  {
    forall j | 0 <= j < |after| && IsSeed(after, j)
      ensures forall i :: 0 <= i < j ==> 0 < after[i] < after[j]
    {
      SeedAfterRound(labels, after, classId, seed, j);
    }
  }

  /** The rows before one seed after the round, given them before it. */
  lemma SeedAfterRound(labels: seq<nat>, after: seq<nat>, classId: nat, seed: nat, j: nat)
    requires |after| == |labels| && seed < |labels| && after[seed] == classId
    requires j < |after| && IsSeed(after, j)
    requires forall i :: 0 <= i < seed ==> labels[i] != 0
    requires forall i :: 0 <= i < |labels| ==> labels[i] < classId
    requires forall k :: 0 <= k < |labels| ==> after[k] == labels[k] || (labels[k] == 0 && after[k] == classId)
    requires IsSeed(labels, j) ==> forall i :: 0 <= i < j ==> 0 < labels[i] < labels[j]
    ensures forall i :: 0 <= i < j ==> 0 < after[i] < after[j]
  {
    if after[j] == classId {
      assert labels[j] == 0;
      FreshSeed(after, classId, seed, j);
    } else {
      SeedKept(labels, after, classId, j);
    }
  }

  /** The seed of the fresh class is the lowest unclassified row. */
  lemma FreshSeed(after: seq<nat>, classId: nat, seed: nat, j: nat)
    requires seed <= j < |after| && after[seed] == classId
    requires IsSeed(after, j) && after[j] == classId
    ensures j == seed
  {
    if seed < j {
      assert false;
    }
  }

  /** A seed of a class other than the fresh one was already a seed. */
  lemma SeedKept(labels: seq<nat>, after: seq<nat>, classId: nat, j: nat)
    requires |after| == |labels| && j < |labels| && IsSeed(after, j) && after[j] != classId
    requires forall k :: 0 <= k < |labels| ==> after[k] == labels[k] || (labels[k] == 0 && after[k] == classId)
    ensures labels[j] == after[j] && IsSeed(labels, j)
  {
    forall k | 0 <= k < j
      ensures labels[k] != labels[j]
    {
      assert after[k] != after[j];
    }
  }

  /** A round keeps the seeds in order: the new class's seed, the lowest
      unclassified row, comes after rows of earlier classes only. */
  lemma ClassPassKeepsSeeds(features: seq<Row>, eps: real, labels: seq<nat>, classId: nat, distances: seq<real>)
    requires Rectangular(features) && |labels| == |features| && |Unclassified(labels)| > 0
    requires classId >= 1
    requires forall i :: 0 <= i < |labels| ==> labels[i] < classId
    requires SeedsFirst(labels)
    ensures SeedsFirst(ClassPass(features, eps, labels, classId, distances).labels)
  {
    ClassPassEffect(features, eps, labels, classId, distances);
    BeforeSeedClassified(labels);
    SeedsAfterRound(labels, ClassPass(features, eps, labels, classId, distances).labels, classId, Unclassified(labels)[0]);
  }

  /** One round keeps the invariant and opens the id `classId`. */
  lemma ClassPassKeepsInvariant(features: seq<Row>, eps: real, labels: seq<nat>, classId: nat, distances: seq<real>)
    requires Rectangular(features) && |labels| == |features| && |Unclassified(labels)| > 0
    requires Invariant(features, eps, labels, classId)
    ensures Invariant(features, eps, ClassPass(features, eps, labels, classId, distances).labels, classId + 1)
  {
    ClassPassKeepsIds(features, eps, labels, classId, distances);
    ClassPassKeepsChain(features, eps, labels, classId, distances);
    ClassPassKeepsSeeds(features, eps, labels, classId, distances);
  }

  /** All rounds keep the invariant. */
  lemma OuterKeepsInvariant(features: seq<Row>, minOccurrences: nat, eps: real,
                            labels: seq<nat>, classId: nat, distances: seq<real>)
    requires Rectangular(features) && |labels| == |features|
    requires Invariant(features, eps, labels, classId)
    ensures var r := Outer(features, minOccurrences, eps, labels, classId, distances);
      Invariant(features, eps, r.labels, r.classes + 1)
  {
    var P := (l: seq<nat>, c: nat, d: seq<real>) => |l| == |features| && Invariant(features, eps, l, c);
    forall l: seq<nat>, c: nat, d: seq<real> | |l| == |features| && c >= 1 && |Unclassified(l)| > 0 && P(l, c, d)
      ensures P(ClassPass(features, eps, l, c, d).labels, c + 1, ClassPass(features, eps, l, c, d).distances)
    {
      ClassPassKeepsInvariant(features, eps, l, c, d);
    }
    OuterPreserves(features, minOccurrences, eps, P, labels, classId, distances);
  }

  /** The labels as they stood when round `c` began: the rows that round `c`
      and later rounds labelled were still unclassified then. */
  function AtRound(labels: seq<nat>, c: nat): seq<nat>
  {
    seq(|labels|, i requires 0 <= i < |labels| => if labels[i] >= c then 0 else labels[i])
  }

  /** Every round before the one opening `classId` found more than
      `minOccurrences` rows unclassified when it began. */
  ghost predicate RoundsEntered(labels: seq<nat>, classId: nat, minOccurrences: nat)
  {
    && (forall i :: 0 <= i < |labels| ==> labels[i] < classId)
    && (forall c :: 1 <= c < classId ==> |Unclassified(AtRound(labels, c))| > minOccurrences)
  }

  /** A round run with more than `minOccurrences` rows unclassified is
      recorded as entered, and it leaves the starting labels of the earlier
      rounds as they were. */
  lemma ClassPassEntered(features: seq<Row>, eps: real, labels: seq<nat>, classId: nat, distances: seq<real>,
                         minOccurrences: nat)
    requires Rectangular(features) && |labels| == |features| && classId >= 1
    requires |Unclassified(labels)| > minOccurrences
    requires RoundsEntered(labels, classId, minOccurrences)
    ensures RoundsEntered(ClassPass(features, eps, labels, classId, distances).labels, classId + 1, minOccurrences)
  {
    var after := ClassPass(features, eps, labels, classId, distances).labels;
    ClassPassEffect(features, eps, labels, classId, distances);
    assert AtRound(after, classId) == labels;
    forall c | 1 <= c < classId
      ensures AtRound(after, c) == AtRound(labels, c)
    {
    }
  }

  /** When the loop ends, every round it ran began with more than
      `minOccurrences` rows unclassified. */
  lemma OuterEntered(features: seq<Row>, minOccurrences: nat, eps: real,
                     labels: seq<nat>, classId: nat, distances: seq<real>)
    requires Rectangular(features) && |labels| == |features| && classId >= 1
    requires RoundsEntered(labels, classId, minOccurrences)
    ensures var r := Outer(features, minOccurrences, eps, labels, classId, distances);
      RoundsEntered(r.labels, r.classes + 1, minOccurrences)
  {
    var P := (l: seq<nat>, c: nat, d: seq<real>) => RoundsEntered(l, c, minOccurrences);
    forall l: seq<nat>, c: nat, d: seq<real> | |l| == |features| && c >= 1 && |Unclassified(l)| > minOccurrences && P(l, c, d)
      ensures P(ClassPass(features, eps, l, c, d).labels, c + 1, ClassPass(features, eps, l, c, d).distances)
    {
      ClassPassEntered(features, eps, l, c, d, minOccurrences);
    }
    OuterPreserves(features, minOccurrences, eps, P, labels, classId, distances);
  }

  /** The number of unordered pairs of `u` rows. */
  function Pairs(u: nat): nat
  {
    if u == 0 then 0 else u - 1 + Pairs(u - 1)
  }

  /** Pairs(u) is u(u-1)/2. */
  lemma {:induction false} PairsIsHalfProduct(u: nat)
    ensures 2 * Pairs(u) == u * (u - 1)
  {
    if u > 0 {
      PairsIsHalfProduct(u - 1);
      assert (u - 1) * (u - 2) + 2 * (u - 1) == u * (u - 1);
    }
  }

  /** Fewer rows have fewer pairs. */
  lemma {:induction false} PairsMonotone(v: nat, u: nat)
    requires v <= u
    ensures Pairs(v) <= Pairs(u)
    decreases u
  {
    if v < u {
      PairsMonotone(v, u - 1);
    }
  }

  /** A round with `u` unclassified rows records at most `u - 1` distances
      and leaves fewer rows unclassified, whose pairs make up for the rest of
      Pairs(u). */
  lemma ClassPassSampleBound(features: seq<Row>, eps: real, labels: seq<nat>, classId: nat, distances: seq<real>)
    requires Rectangular(features) && |labels| == |features| && |Unclassified(labels)| > 0 && classId >= 1
    ensures var p := ClassPass(features, eps, labels, classId, distances);
      |p.distances| + Pairs(|Unclassified(p.labels)|) <= |distances| + Pairs(|Unclassified(labels)|)
  {
    var p := ClassPass(features, eps, labels, classId, distances);
    ClassPassSample(features, eps, labels, classId, distances);
    ClassPassEffect(features, eps, labels, classId, distances);
    PairsMonotone(|Unclassified(p.labels)|, |Unclassified(labels)| - 1);
  }

  /** A round with `u` unclassified rows compares at most `u - 1` pairs; so
      rounds starting from `u` unclassified rows record at most Pairs(u)
      distances. */
  lemma OuterSampleBound(features: seq<Row>, minOccurrences: nat, eps: real,
                         labels: seq<nat>, classId: nat, distances: seq<real>)
    requires Rectangular(features) && |labels| == |features| && classId >= 1
    ensures |Outer(features, minOccurrences, eps, labels, classId, distances).distances| - |distances|
            <= Pairs(|Unclassified(labels)|)
  {
    var bound := |distances| + Pairs(|Unclassified(labels)|);
    var P := (l: seq<nat>, c: nat, d: seq<real>) => |d| + Pairs(|Unclassified(l)|) <= bound;
    forall l: seq<nat>, c: nat, d: seq<real> | |l| == |features| && c >= 1 && |Unclassified(l)| > minOccurrences && P(l, c, d)
      ensures P(ClassPass(features, eps, l, c, d).labels, c + 1, ClassPass(features, eps, l, c, d).distances)
    {
      ClassPassSampleBound(features, eps, l, c, d);
    }
    OuterPreserves(features, minOccurrences, eps, P, labels, classId, distances);
  }

  /** What the clustering of a feature matrix guarantees: one label per row;
      every label is 0 or an id 1..classes and every such id is used; at most
      one class per row; at most `minOccurrences` rows left unclassified;
      every class a chain of linked rows; seeds in ascending order; a
      non-negative distance sample of at most Pairs(N) = N(N-1)/2 entries;
      and every class opened by a round that began with more than
      `minOccurrences` rows unclassified. */
  lemma ClusterSpecProperties(features: seq<Row>, minOccurrences: nat, eps: real)
    requires Rectangular(features)
    ensures var r := ClusterSpec(features, minOccurrences, eps);
      && |r.labels| == |features|
      && (forall i :: 0 <= i < |features| ==> r.labels[i] <= r.classes)
      && (forall t :: 1 <= t <= r.classes ==> t in r.labels)
      && r.classes <= |features|
      && |Unclassified(r.labels)| <= minOccurrences
      && Chained(features, r.labels, eps)
      && SeedsFirst(r.labels)
      && (forall k :: 0 <= k < |r.distances| ==> r.distances[k] >= 0.0)
      && |r.distances| <= Pairs(|features|)
      && (forall c :: 1 <= c <= r.classes ==> |Unclassified(AtRound(r.labels, c))| > minOccurrences)
  {
    var zeros := seq(|features|, _ => 0);
    AllUnclassified(|features|);
    assert Invariant(features, eps, zeros, 1);
    OuterKeepsInvariant(features, minOccurrences, eps, zeros, 1, []);
    OuterSampleBound(features, minOccurrences, eps, zeros, 1, []);
    OuterStops(features, minOccurrences, eps, zeros, 1, []);
    OuterKeepsLabels(features, minOccurrences, eps, zeros, 1, []);
    OuterSampleNonNegative(features, minOccurrences, eps, zeros, 1, []);
    OuterEntered(features, minOccurrences, eps, zeros, 1, []);
  }

  /** When there are no more rows than `minOccurrences`, no class is opened. */
  lemma NothingClusteredWhenFew(features: seq<Row>, minOccurrences: nat, eps: real)
    requires Rectangular(features) && |features| <= minOccurrences
    ensures var r := ClusterSpec(features, minOccurrences, eps);
      r.classes == 0 && r.labels == seq(|features|, _ => 0) && r.distances == []
  {
    AllUnclassified(|features|);
  }

  /** The rows of one class, in index order, form a chain: each is linked to
      the next. In particular no two successive rows share a frame. */
  lemma TrackletIsChain(features: seq<Row>, labels: seq<nat>, eps: real, t: nat)
    requires Rectangular(features) && |labels| == |features| && t != 0
    requires Chained(features, labels, eps)
    ensures var rows := IndicesOf(labels, t);
      forall k :: 0 <= k < |rows| - 1 ==> Linked(features, rows[k], rows[k + 1], eps)
  {
    var rows := IndicesOf(labels, t);
    forall k | 0 <= k < |rows| - 1
      ensures Linked(features, rows[k], rows[k + 1], eps)
    {
      var i, j := rows[k], rows[k + 1];
      forall m | i < m < j
        ensures labels[m] != labels[i]
      {
        forall q | 0 <= q < |rows|
          ensures rows[q] != m
        {
          if q < k {
            assert rows[q] < rows[k];
          } else if q > k + 1 {
            assert rows[k + 1] < rows[q];
          }
        }
      }
      assert Consecutive(labels, i, j);
    }
  }
}
