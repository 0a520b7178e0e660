/** The per-row Silhouette step shared by all three revisions: the coefficient from the
    own-cluster mean `a` and the neighbour mean `b`, and the two ways the revisions pick
    the neighbour mean out of the per-cluster means. */
module Coefficient {
  import opened Wrappers

  function Max(a: real, b: real): real
  {
    if a >= b then a else b
  }

  /** `s = (b - a) / max(a, b)`, defined as 0 when `a == b` or when the maximum is 0. */
  function Silhouette(a: real, b: real): (s: real)
    ensures a == b || Max(a, b) == 0.0 ==> s == 0.0
    ensures a >= 0.0 && b >= 0.0 ==> -1.0 <= s <= 1.0
    ensures a >= 0.0 && b >= 0.0 ==> (s > 0.0 <==> b > a) && (s < 0.0 <==> b < a)
  {
    if a == b || Max(a, b) == 0.0 then 0.0
    else
      SilhouetteQuotient(a, b);
      (b - a) / Max(a, b)
  }

  lemma SilhouetteQuotient(a: real, b: real)
    requires Max(a, b) != 0.0
    ensures a >= 0.0 && b >= 0.0 ==> -1.0 <= (b - a) / Max(a, b) <= 1.0
    ensures a >= 0.0 && b >= 0.0 ==> ((b - a) / Max(a, b) > 0.0 <==> b > a)
    ensures a >= 0.0 && b >= 0.0 ==> ((b - a) / Max(a, b) < 0.0 <==> b < a)
  {
    if a >= 0.0 && b >= 0.0 {
      QuotientBounds(b - a, Max(a, b));
    }
  }

  lemma QuotientBounds(x: real, m: real)
    requires m > 0.0 && -m <= x <= m
    ensures -1.0 <= x / m <= 1.0
    ensures x / m > 0.0 <==> x > 0.0
    ensures x / m < 0.0 <==> x < 0.0
  {
    var q := x / m;
    assert q * m == x;
  }

  /** The neighbour choice of the current revision: the smallest per-cluster mean that
      differs from the own mean (the own cluster's entry is excluded only by value, so any
      other cluster whose mean equals `a` is skipped too). `None` when every mean equals `a`. */
  function NearestOtherMean(means: seq<real>, own: real): (b: Option<real>)
    ensures b.None? <==> forall k :: 0 <= k < |means| ==> means[k] == own
    ensures b.Some? ==> b.value != own
    ensures b.Some? ==> exists k :: 0 <= k < |means| && means[k] == b.value
    ensures b.Some? ==> forall k :: 0 <= k < |means| && means[k] != own ==> b.value <= means[k]
    decreases |means|
  {
    if |means| == 0 then None
    else
      var n := |means| - 1;
      var best := NearestOtherMean(means[..n], own);
      assert forall k :: 0 <= k < n ==> means[..n][k] == means[k];
      if means[n] != own && (best.None? || means[n] < best.value) then Some(means[n]) else best
  }

  /** `b` of the current revision: the nearest other mean, or `a` itself when there is none. */
  function CurrentNeighbourMean(means: seq<real>, own: real): real
  {
    match NearestOtherMean(means, own)
    case None => own
    case Some(b) => b
  }

  /** The neighbour choice of the older revisions: over clusters other than `ownIndex`
      whose mean exists (a singleton neighbour's mean divides by zero and never compares
      below the running minimum), the index of the first smallest mean. */
  function FirstMinimumIndex(means: seq<Option<real>>, ownIndex: nat): (r: Option<nat>)
    ensures r.None? <==> forall k :: 0 <= k < |means| && k != ownIndex ==> means[k].None?
    ensures r.Some? ==> r.value < |means| && r.value != ownIndex && means[r.value].Some?
    ensures r.Some? ==> forall k :: 0 <= k < |means| && k != ownIndex && means[k].Some? ==>
              means[r.value].value <= means[k].value && (k < r.value ==> means[r.value].value < means[k].value)
    decreases |means|
  {
    if |means| == 0 then None
    else
      var n := |means| - 1;
      var best := FirstMinimumIndex(means[..n], ownIndex);
      assert forall k :: 0 <= k < n ==> means[..n][k] == means[k];
      if n != ownIndex && means[n].Some? && (best.None? || means[n].value < means[best.value].value)
      then Some(n) else best
  }

  /** The coefficient of the older revisions once `a` and the per-cluster means are known.
      With no usable neighbour the running minimum keeps its `Double.MAX_VALUE` start, which
      makes `(b - a) / max(a, b)` equal to 1 for every realistic `a`; the model takes that limit. */
  function LegacySilhouette(a: real, means: seq<Option<real>>, ownIndex: nat): (s: real)
    ensures FirstMinimumIndex(means, ownIndex).None? ==> s == 1.0
    ensures a >= 0.0 && (forall k :: 0 <= k < |means| && means[k].Some? ==> means[k].value >= 0.0) ==>
              -1.0 <= s <= 1.0
  {
    match FirstMinimumIndex(means, ownIndex)
    case None => 1.0
    case Some(k) => Silhouette(a, means[k].value)
  }

  /** The older revisions never look at the own cluster's mean: means that differ only
      there choose the same neighbour and give the same coefficient. */
  lemma {:induction false} LegacySilhouetteIgnoresOwn(a: real, ms1: seq<Option<real>>, ms2: seq<Option<real>>, own: nat)
    requires |ms1| == |ms2|
    requires forall k :: 0 <= k < |ms1| && k != own ==> ms1[k] == ms2[k]
    ensures FirstMinimumIndex(ms1, own) == FirstMinimumIndex(ms2, own)
    ensures LegacySilhouette(a, ms1, own) == LegacySilhouette(a, ms2, own)
    decreases |ms1|
  {
    if |ms1| > 0 {
      var n := |ms1| - 1;
      LegacySilhouetteIgnoresOwn(a, ms1[..n], ms2[..n], own);
    }
  }

  /** With non-negative means, the current revision's coefficient lies in [-1, 1]. */
  lemma CurrentSilhouetteRange(means: seq<real>, own: real)
    requires own >= 0.0
    requires forall k :: 0 <= k < |means| ==> means[k] >= 0.0
    ensures -1.0 <= Silhouette(own, CurrentNeighbourMean(means, own)) <= 1.0
  {
    var b := NearestOtherMean(means, own);
    if b.Some? {
      var k :| 0 <= k < |means| && means[k] == b.value;
    }
  }

  /** A row at distance 0 from its own cluster and at a positive distance from its
      neighbour has coefficient 1. */
  lemma SilhouetteOfZeroOwn(b: real)
    requires b > 0.0
    ensures Silhouette(0.0, b) == 1.0
  {
    assert Max(0.0, b) == b;
    var q := b / b;
    assert q * b == b;
    assert (q - 1.0) * b == 0.0;
  }

  /** With own mean 0 and some cluster at a non-zero, non-negative mean, the current
      revision's coefficient is 1. */
  lemma CurrentSilhouetteOfZeroOwn(means: seq<real>, k: nat)
    requires forall j :: 0 <= j < |means| ==> means[j] >= 0.0
    requires k < |means| && means[k] != 0.0
    ensures Silhouette(0.0, CurrentNeighbourMean(means, 0.0)) == 1.0
  {
    var nb := NearestOtherMean(means, 0.0);
    var j :| 0 <= j < |means| && means[j] == nb.value;
    SilhouetteOfZeroOwn(nb.value);
  }

  /** When every cluster mean equals the own mean (for instance, all distances are 0), the
      current revision's coefficient is 0. */
  lemma CurrentSilhouetteDegenerate(means: seq<real>, own: real)
    requires forall k :: 0 <= k < |means| ==> means[k] == own
    ensures Silhouette(own, CurrentNeighbourMean(means, own)) == 0.0
  {
  }
}
