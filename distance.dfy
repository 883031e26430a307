/** The masked partial distance between two feature rows.

    A coordinate is valid when it is strictly positive (0 marks a joint the
    detector missed). Two rows are compared over the coordinates valid in
    both; the trailing frame-index slot is compared like any other element,
    so it takes part whenever both frame indices are positive. The distance is
    the root mean square of the differences over those coordinates; it is kept
    here as its square, the mean square, so that no square root is needed. */
module Distance {
  import opened Features

  /** Validity of each element of a row: strictly positive. */
  function Mask(row: Row): seq<bool>
  {
    seq(|row|, k requires 0 <= k < |row| => row[k] > 0.0)
  }

  /** Element-wise conjunction of two masks. */
  function And(m1: seq<bool>, m2: seq<bool>): seq<bool>
    requires |m1| == |m2|
  {
    seq(|m1|, k requires 0 <= k < |m1| => m1[k] && m2[k])
  }

  /** The elements valid in both rows. */
  function Overlap(a: Row, b: Row): seq<bool>
    requires |a| == |b|
  {
    And(Mask(a), Mask(b))
  }

  /** Number of set entries of a mask. */
  function CountTrue(m: seq<bool>): (n: nat)
    ensures n <= |m|
  {
    if m == [] then 0 else (if m[0] then 1 else 0) + CountTrue(m[1..])
  }

  /** Sum of the squared differences of `a` and `b` over the entries `m` selects. */
  function MaskedSqSum(a: Row, b: Row, m: seq<bool>): (s: real)
    requires |a| == |b| == |m|
    ensures s >= 0.0
  {
    if m == [] then 0.0
    else (if m[0] then (a[0] - b[0]) * (a[0] - b[0]) else 0.0) + MaskedSqSum(a[1..], b[1..], m[1..])
  }

  /** The squared masked distance: mean of the squared differences over the
      overlapping valid elements. */
  function MeanSq(a: Row, b: Row): (d: real)
    requires |a| == |b| && CountTrue(Overlap(a, b)) > 0
    ensures d >= 0.0
  {
    MaskedSqSum(a, b, Overlap(a, b)) / CountTrue(Overlap(a, b)) as real
  }

  /** The distance whose square is `meanSq` is below `eps`. */
  predicate Within(meanSq: real, eps: real)
  {
    0.0 < eps && meanSq < eps * eps
  }

  /** `Within` is the comparison `distance < eps` for the non-negative
      distance `d` whose square is the mean square. */
  lemma WithinIsRmsBelow(meanSq: real, eps: real, d: real)
    requires d >= 0.0 && d * d == meanSq
    ensures d < eps <==> Within(meanSq, eps)
  {
    var dd, de, ee := d * d, d * eps, eps * eps;
    if d < eps {
      assert dd <= de;
      assert de < ee;
    } else if 0.0 < eps {
      assert dd >= de;
      assert de >= ee;
    }
  }

  /** The squared difference does not depend on which row comes first. */
  lemma {:induction false} MaskedSqSumSymmetric(a: Row, b: Row, m: seq<bool>)
    requires |a| == |b| == |m|
    ensures MaskedSqSum(a, b, m) == MaskedSqSum(b, a, m)
  {
    if m != [] {
      MaskedSqSumSymmetric(a[1..], b[1..], m[1..]);
      assert (a[0] - b[0]) * (a[0] - b[0]) == (b[0] - a[0]) * (b[0] - a[0]);
    }
  }

  /** The masked distance is symmetric: comparing `b` with `a` overlaps on the
      same elements and gives the same mean square as comparing `a` with `b`. */
  lemma MeanSqSymmetric(a: Row, b: Row)
    requires |a| == |b|
    ensures Overlap(a, b) == Overlap(b, a)
    ensures CountTrue(Overlap(a, b)) > 0 ==> MeanSq(a, b) == MeanSq(b, a)
  {
    MaskedSqSumSymmetric(a, b, Overlap(a, b));
  }

  /** The frame-index slot takes part in the distance: two rows whose
      coordinates agree, seen in the positive frames `f` and `g`, differ by
      exactly `(f - g)^2` in their masked squared sum, and that slot is counted
      among the overlapping elements. */
  lemma {:induction false} FrameSlotCounts(a: Row, b: Row)
    requires |a| == |b| > 0
    requires forall k :: 0 <= k < |a| - 1 ==> a[k] == b[k]
    requires Frame(a) > 0.0 && Frame(b) > 0.0
    ensures MaskedSqSum(a, b, Overlap(a, b)) == (Frame(a) - Frame(b)) * (Frame(a) - Frame(b))
    ensures CountTrue(Overlap(a, b)) >= 1
  {
    var m := Overlap(a, b);
    if |a| > 1 {
      assert m[1..] == Overlap(a[1..], b[1..]);
      FrameSlotCounts(a[1..], b[1..]);
    }
  }
}
