/** Label vectors: one non-negative class id per feature row, 0 meaning
    "not classified". */
module Labels {

  /** The rows whose label is `t`, as indices in ascending order. */
  function IndicesOf(labels: seq<nat>, t: nat): (u: seq<nat>)
    ensures forall k :: 0 <= k < |u| ==> u[k] < |labels| && labels[u[k]] == t
    ensures forall i :: 0 <= i < |labels| && labels[i] == t ==> i in u
    ensures forall k, k' :: 0 <= k < k' < |u| ==> u[k] < u[k']
  {
    if labels == [] then []
    else
      var n := |labels| - 1;
      IndicesOf(labels[..n], t) + (if labels[n] == t then [n] else [])
  }

  /** The rows still unclassified, in ascending order. */
  function Unclassified(labels: seq<nat>): seq<nat>
  {
    IndicesOf(labels, 0)
  }

  /** No row is labelled `t` afresh: then at most as many rows carry `t`, and
      strictly fewer when some row lost the label `t`. */
  lemma {:induction false} FewerIndices(before: seq<nat>, after: seq<nat>, t: nat)
    requires |after| == |before|
    requires forall i :: 0 <= i < |after| && after[i] == t ==> before[i] == t
    ensures |IndicesOf(after, t)| <= |IndicesOf(before, t)|
    ensures (exists s :: 0 <= s < |after| && before[s] == t && after[s] != t) ==>
              |IndicesOf(after, t)| < |IndicesOf(before, t)|
  {
    if after != [] {
      var n := |after| - 1;
      FewerIndices(before[..n], after[..n], t);
      if exists s :: 0 <= s < |after| && before[s] == t && after[s] != t {
        var s :| 0 <= s < |after| && before[s] == t && after[s] != t;
        if s < n {
          assert before[..n][s] == t && after[..n][s] != t;
        }
      }
    }
  }

  /** With every label 0, every row is unclassified. */
  lemma {:induction false} AllUnclassified(n: nat)
    ensures Unclassified(seq(n, _ => 0)) == seq(n, i => i)
  {
    if n > 0 {
      assert seq(n, _ => 0)[..n - 1] == seq(n - 1, _ => 0);
      AllUnclassified(n - 1);
    }
  }

  /** The largest label. */
  function MaxLabel(labels: seq<nat>): (m: nat)
    requires |labels| > 0
    ensures m in labels
    ensures forall i :: 0 <= i < |labels| ==> labels[i] <= m
  {
    if |labels| == 1 then labels[0]
    else
      var rest := MaxLabel(labels[1..]);
      if labels[0] >= rest then labels[0] else rest
  }
}
