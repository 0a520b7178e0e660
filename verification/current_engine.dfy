/** The coefficient computation of the current node. Rows are grouped by first-seen label;
    for each row `i` and each cluster the node adds up, over the other rows `j` of that
    cluster, the distance from `i` to `j` divided by the number of such rows; the own
    cluster's value is `a`, the smallest other value that differs from `a` is `b`, and the
    row's coefficient `(b - a) / max(a, b)` is written into its cluster. */
module CurrentEngine {
  import opened Wrappers
  import opened Errors
  import opened InternalCluster
  import opened Grouping
  import opened DistanceMatrix
  import opened Coefficient

  /** Division of a distance by a row count. A zero count never occurs for a term that is
      actually added (see `DivisorPositive`); the guard keeps the function total. */
  function Quotient(x: real, d: int): real
  {
    if d == 0 then 0.0 else x / d as real
  }

  lemma QuotientAdd(x: real, y: real, d: int)
    ensures Quotient(x, d) + Quotient(y, d) == Quotient(x + y, d)
  {
    if d != 0 {
      var q1 := x / d as real;
      var q2 := y / d as real;
      assert q1 * d as real == x;
      assert q2 * d as real == y;
      assert (q1 + q2) * d as real == x + y;
    }
  }

  ghost predicate Table(M: seq<seq<real>>, labels: seq<string>)
  {
    |M| == |labels| && LowerTriangular(M)
  }

  /** Contribution of row `j` to row `i`'s distance towards the cluster named `name` that
      holds `size` rows: rows in that cluster other than `i` itself add their distance
      divided by the cluster size, less one when `i` and `j` share the label. */
  function Term(M: seq<seq<real>>, labels: seq<string>, i: nat, j: nat, name: string, size: nat): real
    requires Table(M, labels) && i < |labels| && j < |labels|
  {
    if labels[j] == name && i != j then
      Quotient(Lookup(M, i, j), size - (if labels[i] == labels[j] then 1 else 0))
    else 0.0
  }

  /** The accumulated value for one cluster over rows `0..n`. */
  function ClusterDistance(M: seq<seq<real>>, labels: seq<string>, i: nat, name: string, size: nat, n: nat): real
    requires Table(M, labels) && i < |labels| && n <= |labels|
  {
    if n == 0 then 0.0 else ClusterDistance(M, labels, i, name, size, n - 1) + Term(M, labels, i, n - 1, name, size)
  }

  /** Every cluster's value for row `i`, in cluster order. */
  function ClusterDistances(M: seq<seq<real>>, labels: seq<string>, bs: seq<Block<string>>, i: nat): (ds: seq<real>)
    requires Table(M, labels) && i < |labels|
    ensures |ds| == |bs|
  {
    seq(|bs|, k requires 0 <= k < |bs| =>
      ClusterDistance(M, labels, i, bs[k].name, |bs[k].rows|, |labels|))
  }

  /** The cluster a label belongs to; the source's index array starts at 0, which is what
      a label without a cluster keeps. */
  function OwnCluster(bs: seq<Block<string>>, name: string): (k: nat)
    ensures (exists j :: 0 <= j < |bs| && bs[j].name == name) ==> k < |bs| && bs[k].name == name
    ensures (forall j :: 0 <= j < |bs| ==> bs[j].name != name) ==> k == 0
  {
    match FindBlock(bs, name)
    case Some(k) => k
    case None => 0
  }

  /** The coefficient of row `i`. */
  function RowCoefficient(M: seq<seq<real>>, labels: seq<string>, bs: seq<Block<string>>, i: nat): real
    requires Table(M, labels) && i < |labels| && |bs| > 0
  {
    var ds := ClusterDistances(M, labels, bs, i);
    var own := OwnCluster(bs, labels[i]);
    var a := if own < |ds| then ds[own] else 0.0;
    Silhouette(a, CurrentNeighbourMean(ds, a))
  }

  /** Writing the coefficients of rows `0..n` into their own clusters, row by row. */
  function StoreRows(cs: seq<Cluster>, bs: seq<Block<string>>, labels: seq<string>, coefs: seq<real>, n: nat)
    : (r: seq<Cluster>)
    requires n <= |labels| == |coefs|
    requires forall k :: 0 <= k < |cs| ==> Parallel(cs[k])
    ensures |r| == |cs|
    ensures forall k :: 0 <= k < |r| ==> Parallel(r[k]) && r[k].dataIndices == cs[k].dataIndices
  {
    if n == 0 then cs
    else
      var prev := StoreRows(cs, bs, labels, coefs, n - 1);
      var own := OwnCluster(bs, labels[n - 1]);
      if own < |prev| then prev[own := Store(prev[own], n - 1, coefs[n - 1])] else prev
  }

  /** The current node's execution on a table with labels `labels`, row colours
      `rowColors` and pairwise distances `M`: the appended coefficient column and the
      clusters holding each member's coefficient, one cluster per distinct label. On an
      empty table the grouping loop never reads a label cell, and the type test on the
      last label cell that follows it dereferences null. */
  function Execute(labels: seq<string>, rowColors: seq<Rgb>, M: seq<seq<real>>): (r: Result<(seq<real>, seq<Cluster>), Error>)
    requires |rowColors| == |labels| && Table(M, labels)
    ensures r.Err? <==> |labels| == 0
    ensures r.Err? ==> r.error == NullLabel
    ensures r.Ok? ==> |r.value.0| == |labels| && |r.value.1| == |GroupByLabel(labels, rowColors)|
  {
    if |labels| == 0 then Err(NullLabel)
    else
      var bs := GroupByLabel(labels, rowColors);
      GroupingOwnRowAt(labels, rowColors, 0);
      var coefs := seq(|labels|, i requires 0 <= i < |labels| => RowCoefficient(M, labels, bs, i));
      Ok((coefs, StoreRows(ToClusters(bs), bs, labels, coefs, |labels|)))
  }

  // ---------------------------------------------------------------------------
  // What the accumulated value means

  /** Number of rows below `n`, other than `i`, labelled `name`. */
  function OtherRows(labels: seq<string>, i: nat, name: string, n: nat): nat
    requires n <= |labels|
  {
    if n == 0 then 0
    else OtherRows(labels, i, name, n - 1) + (if labels[n - 1] == name && n - 1 != i then 1 else 0)
  }

  /** Sum of the distances from row `i` to the rows below `n`, other than `i`, labelled `name`. */
  function DistanceSum(M: seq<seq<real>>, labels: seq<string>, i: nat, name: string, n: nat): real
    requires Table(M, labels) && i < |labels| && n <= |labels|
  {
    if n == 0 then 0.0
    else DistanceSum(M, labels, i, name, n - 1) + (if labels[n - 1] == name && n - 1 != i then Lookup(M, i, n - 1) else 0.0)
  }

  /** The mean distance from row `i` to the other rows labelled `name`; 0 when there are none. */
  function MeanDistance(M: seq<seq<real>>, labels: seq<string>, i: nat, name: string): real
    requires Table(M, labels) && i < |labels|
  {
    var others := OtherRows(labels, i, name, |labels|);
    if others == 0 then 0.0 else DistanceSum(M, labels, i, name, |labels|) / others as real
  }

  lemma {:induction false} OtherRowsCount(labels: seq<string>, i: nat, name: string, n: nat)
    requires i < |labels| && n <= |labels|
    ensures OtherRows(labels, i, name, n)
            == |RowsWithLabel(labels, name, n)| - (if i < n && labels[i] == name then 1 else 0)
  {
    if n > 0 {
      OtherRowsCount(labels, i, name, n - 1);
      RowsWithLabelStep(labels, name, n);
    }
  }

  lemma {:induction false} ClusterDistanceIsQuotient(M: seq<seq<real>>, labels: seq<string>, i: nat, name: string, n: nat)
    requires Table(M, labels) && i < |labels| && n <= |labels|
    ensures var size := |RowsWithLabel(labels, name, |labels|)|;
            ClusterDistance(M, labels, i, name, size, n)
            == Quotient(DistanceSum(M, labels, i, name, n), size - (if labels[i] == name then 1 else 0))
  {
    if n > 0 {
      var size := |RowsWithLabel(labels, name, |labels|)|;
      var d := size - (if labels[i] == name then 1 else 0);
      ClusterDistanceIsQuotient(M, labels, i, name, n - 1);
      if labels[n - 1] == name && n - 1 != i {
        QuotientAdd(DistanceSum(M, labels, i, name, n - 1), Lookup(M, i, n - 1), d);
      } else {
        QuotientAdd(DistanceSum(M, labels, i, name, n - 1), 0.0, d);
      }
    }
  }

  /** For a cluster of the first-seen grouping, the value the node accumulates for row `i`
      is the mean distance from `i` to the cluster's other rows: the divisor it uses is
      exactly the number of rows added. */
  lemma ClusterDistanceIsMean(M: seq<seq<real>>, labels: seq<string>, i: nat, name: string)
    requires Table(M, labels) && i < |labels|
    ensures ClusterDistance(M, labels, i, name, |RowsWithLabel(labels, name, |labels|)|, |labels|)
            == MeanDistance(M, labels, i, name)
  {
    ClusterDistanceIsQuotient(M, labels, i, name, |labels|);
    OtherRowsCount(labels, i, name, |labels|);
  }

  /** The values fed to the coefficient are the mean distances to each cluster, and the
      own value `a` is the mean distance to the other rows of the row's own cluster. */
  lemma ClusterDistancesAreMeans(labels: seq<string>, rowColors: seq<Rgb>, M: seq<seq<real>>, i: nat)
    requires |rowColors| == |labels| && Table(M, labels) && i < |labels|
    ensures var bs := GroupByLabel(labels, rowColors);
            var ds := ClusterDistances(M, labels, bs, i);
            && (forall k :: 0 <= k < |bs| ==> ds[k] == MeanDistance(M, labels, i, bs[k].name))
            && OwnCluster(bs, labels[i]) < |bs|
            && bs[OwnCluster(bs, labels[i])].name == labels[i]
  {
    var bs := GroupByLabel(labels, rowColors);
    FirstSeenGroupsByLabel(labels, rowColors, |labels|);
    forall k | 0 <= k < |bs|
      ensures ClusterDistances(M, labels, bs, i)[k] == MeanDistance(M, labels, i, bs[k].name)
    {
      ClusterDistanceIsMean(M, labels, i, bs[k].name);
    }
    GroupingOwnRowAt(labels, rowColors, i);
  }

  // ---------------------------------------------------------------------------
  // Properties of the result

  lemma {:induction false} DistanceSumNonNegative(M: seq<seq<real>>, labels: seq<string>, i: nat, name: string, n: nat)
    requires Table(M, labels) && i < |labels| && n <= |labels|
    requires forall x, y :: 0 <= x < |M| && 0 <= y < |M| ==> Lookup(M, x, y) >= 0.0
    ensures DistanceSum(M, labels, i, name, n) >= 0.0
  {
    if n > 0 {
      DistanceSumNonNegative(M, labels, i, name, n - 1);
    }
  }

  lemma MeanDistanceNonNegative(M: seq<seq<real>>, labels: seq<string>, i: nat, name: string)
    requires Table(M, labels) && i < |labels|
    requires forall x, y :: 0 <= x < |M| && 0 <= y < |M| ==> Lookup(M, x, y) >= 0.0
    ensures MeanDistance(M, labels, i, name) >= 0.0
  {
    DistanceSumNonNegative(M, labels, i, name, |labels|);
  }

  /** With non-negative distances every coefficient lies in [-1, 1], and it is positive
      exactly when the neighbour mean `b` exceeds the own mean `a`. */
  lemma CoefficientRange(labels: seq<string>, rowColors: seq<Rgb>, M: seq<seq<real>>, i: nat)
    requires |rowColors| == |labels| && Table(M, labels) && i < |labels|
    requires forall x, y :: 0 <= x < |M| && 0 <= y < |M| ==> Lookup(M, x, y) >= 0.0
    ensures var r := Execute(labels, rowColors, M);
            r.Ok? && -1.0 <= r.value.0[i] <= 1.0
    ensures var r := Execute(labels, rowColors, M).value;
            var a := MeanDistance(M, labels, i, labels[i]);
            var bs := GroupByLabel(labels, rowColors);
            var b := CurrentNeighbourMean(ClusterDistances(M, labels, bs, i), a);
            (r.0[i] > 0.0 <==> b > a) && (r.0[i] < 0.0 <==> b < a)
  {
    var bs := GroupByLabel(labels, rowColors);
    ClusterDistancesAreMeans(labels, rowColors, M, i);
    var ds := ClusterDistances(M, labels, bs, i);
    forall k | 0 <= k < |ds|
      ensures ds[k] >= 0.0
    {
      MeanDistanceNonNegative(M, labels, i, bs[k].name);
    }
    var a := ds[OwnCluster(bs, labels[i])];
    CurrentSilhouetteRange(ds, a);
    var b := CurrentNeighbourMean(ds, a);
    assert b >= 0.0 by {
      var nb := NearestOtherMean(ds, a);
      if nb.Some? {
        var k :| 0 <= k < |ds| && ds[k] == nb.value;
      }
    }
  }

  /** In this revision a row alone in its cluster has `a = 0`, so as soon as some cluster
      is at a non-zero mean distance its coefficient is 1. */
  lemma SingletonCoefficientIsOne(labels: seq<string>, rowColors: seq<Rgb>, M: seq<seq<real>>, i: nat)
    requires |rowColors| == |labels| && Table(M, labels) && i < |labels|
    requires forall x, y :: 0 <= x < |M| && 0 <= y < |M| ==> Lookup(M, x, y) >= 0.0
    requires OtherRows(labels, i, labels[i], |labels|) == 0
    requires exists j :: 0 <= j < |labels| && MeanDistance(M, labels, i, labels[j]) != 0.0
    ensures Execute(labels, rowColors, M).value.0[i] == 1.0
  {
    var bs := GroupByLabel(labels, rowColors);
    ClusterDistancesAreMeans(labels, rowColors, M, i);
    FirstSeenGroupsByLabel(labels, rowColors, |labels|);
    var ds := ClusterDistances(M, labels, bs, i);
    var own := OwnCluster(bs, labels[i]);
    assert ds[own] == 0.0 by {
      assert ds[own] == MeanDistance(M, labels, i, bs[own].name);
    }
    var j :| 0 <= j < |labels| && MeanDistance(M, labels, i, labels[j]) != 0.0;
    GroupingOwnRowAt(labels, rowColors, j);
    var k := OwnCluster(bs, labels[j]);
    forall k2 | 0 <= k2 < |ds|
      ensures ds[k2] >= 0.0
    {
      MeanDistanceNonNegative(M, labels, i, bs[k2].name);
    }
    CurrentSilhouetteOfZeroOwn(ds, k);
    assert Execute(labels, rowColors, M).value.0[i] == RowCoefficient(M, labels, bs, i);
  }

  // ---------------------------------------------------------------------------
  // Write-back into the clusters

  /** What the write-back relies on: clusters and blocks line up, every member is a row
      carrying the cluster's name, members are listed in increasing order, and every row's
      label names a cluster. */
  ghost predicate WriteBackReady(cs: seq<Cluster>, bs: seq<Block<string>>, labels: seq<string>)
  {
    && |cs| == |bs|
    && DistinctNames(bs)
    && (forall k :: 0 <= k < |cs| ==> Parallel(cs[k]) && cs[k].dataIndices == bs[k].rows)
    && (forall k, p :: 0 <= k < |bs| && 0 <= p < |bs[k].rows| ==>
          bs[k].rows[p] < |labels| && labels[bs[k].rows[p]] == bs[k].name)
    && (forall k, p, q :: 0 <= k < |bs| && 0 <= p < q < |bs[k].rows| ==> bs[k].rows[p] < bs[k].rows[q])
    && (forall i :: 0 <= i < |labels| ==> OwnCluster(bs, labels[i]) < |bs|)
  }

  /** The write-back as cluster `k` sees it: of rows `0..n`, only those whose own cluster
      is `k` are stored into it. */
  function StoreOwn(c: Cluster, k: nat, bs: seq<Block<string>>, labels: seq<string>, coefs: seq<real>, n: nat)
    : (r: Cluster)
    requires Parallel(c) && n <= |labels| == |coefs|
    ensures Parallel(r) && r.dataIndices == c.dataIndices
  {
    if n == 0 then c
    else
      var prev := StoreOwn(c, k, bs, labels, coefs, n - 1);
      if OwnCluster(bs, labels[n - 1]) == k then Store(prev, n - 1, coefs[n - 1]) else prev
  }

  /** Writing all rows into all clusters leaves cluster `k` as writing only its own rows
      into it alone. */
  lemma {:induction false} StoreRowsOneCluster(cs: seq<Cluster>, bs: seq<Block<string>>, labels: seq<string>,
                                               coefs: seq<real>, n: nat, k: nat)
    requires n <= |labels| == |coefs|
    requires forall k :: 0 <= k < |cs| ==> Parallel(cs[k])
    requires k < |cs|
    ensures StoreRows(cs, bs, labels, coefs, n)[k] == StoreOwn(cs[k], k, bs, labels, coefs, n)
  {
    if n > 0 {
      StoreRowsOneCluster(cs, bs, labels, coefs, n - 1, k);
      var prev := StoreRows(cs, bs, labels, coefs, n - 1);
      var mine := StoreOwn(cs[k], k, bs, labels, coefs, n - 1);
      var own := OwnCluster(bs, labels[n - 1]);
      assert prev[k] == mine;
      assert StoreRows(cs, bs, labels, coefs, n)
        == if own < |prev| then prev[own := Store(prev[own], n - 1, coefs[n - 1])] else prev;
      assert StoreOwn(cs[k], k, bs, labels, coefs, n)
        == if own == k then Store(mine, n - 1, coefs[n - 1]) else mine;
    }
  }

  /** After rows `0..n` are written into a cluster whose members are increasing rows of
      that cluster, member `p` holds its row's coefficient if that row is below `n`, and
      its initial value otherwise. */
  lemma {:induction false} StoreOwnPlaces(c: Cluster, k: nat, bs: seq<Block<string>>, labels: seq<string>,
                                          coefs: seq<real>, n: nat, p: nat)
    requires Parallel(c) && n <= |labels| == |coefs| && p < |c.coefficients|
    requires forall p1, q1 :: 0 <= p1 < q1 < |c.dataIndices| ==> c.dataIndices[p1] < c.dataIndices[q1]
    requires 0 <= c.dataIndices[p] < |labels| && OwnCluster(bs, labels[c.dataIndices[p]]) == k
    ensures var j := c.dataIndices[p];
            StoreOwn(c, k, bs, labels, coefs, n).coefficients[p] == if j < n then coefs[j] else c.coefficients[p]
  {
    if n > 0 {
      StoreOwnPlaces(c, k, bs, labels, coefs, n - 1, p);
      var prev := StoreOwn(c, k, bs, labels, coefs, n - 1);
      assert StoreOwn(c, k, bs, labels, coefs, n)
        == if OwnCluster(bs, labels[n - 1]) == k then Store(prev, n - 1, coefs[n - 1]) else prev;
      if OwnCluster(bs, labels[n - 1]) == k {
        StoreWritesAt(prev, n - 1, coefs[n - 1], p);
      }
    }
  }

  /** After rows `0..n` are written, each member holds its row's coefficient if that row
      is below `n`, and its initial value otherwise. */
  lemma StoreRowsPlacesCoefficients(cs: seq<Cluster>, bs: seq<Block<string>>, labels: seq<string>,
                                    coefs: seq<real>, n: nat)
    requires n <= |labels| == |coefs|
    requires WriteBackReady(cs, bs, labels)
    ensures var r := StoreRows(cs, bs, labels, coefs, n);
            forall k, p :: 0 <= k < |r| && 0 <= p < |r[k].coefficients| ==>
              r[k].coefficients[p] == if r[k].dataIndices[p] < n then coefs[r[k].dataIndices[p]] else cs[k].coefficients[p]
  {
    var r := StoreRows(cs, bs, labels, coefs, n);
    forall k, p | 0 <= k < |r| && 0 <= p < |r[k].coefficients|
      ensures r[k].coefficients[p] == if r[k].dataIndices[p] < n then coefs[r[k].dataIndices[p]] else cs[k].coefficients[p]
    {
      assert cs[k].dataIndices == bs[k].rows;
      StoreRowsOneCluster(cs, bs, labels, coefs, n, k);
      OwnClusterUnique(bs, bs[k].name, k);
      StoreOwnPlaces(cs[k], k, bs, labels, coefs, n, p);
    }
  }

  /** With distinct names, the only cluster named `x` is the one `OwnCluster` finds. */
  lemma OwnClusterUnique(bs: seq<Block<string>>, x: string, k: nat)
    requires DistinctNames(bs) && k < |bs|
    ensures bs[k].name == x ==> OwnCluster(bs, x) == k
  {
  }

  /** The first-seen grouping meets what the write-back relies on. */
  lemma GroupingReady(labels: seq<string>, rowColors: seq<Rgb>)
    requires |rowColors| == |labels|
    ensures var bs := GroupByLabel(labels, rowColors);
            WriteBackReady(ToClusters(bs), bs, labels)
  {
    var bs := GroupByLabel(labels, rowColors);
    GroupByLabelPartition(labels, rowColors);
    GroupingIncreasing(labels, rowColors);
    GroupingOwnRows(labels, rowColors);
  }

  lemma GroupingIncreasing(labels: seq<string>, rowColors: seq<Rgb>)
    requires |rowColors| == |labels|
    ensures var bs := GroupByLabel(labels, rowColors);
            forall k, p, q :: 0 <= k < |bs| && 0 <= p < q < |bs[k].rows| ==> bs[k].rows[p] < bs[k].rows[q]
  {
    var bs := GroupByLabel(labels, rowColors);
    GroupByLabelPartition(labels, rowColors);
    assert RowsMatchNames(labels, |labels|, bs);
    forall k | 0 <= k < |bs|
      ensures forall p, q :: 0 <= p < q < |bs[k].rows| ==> bs[k].rows[p] < bs[k].rows[q]
    {
      assert bs[k].rows == RowsWithLabel(labels, bs[k].name, |labels|);
      RowsWithLabelIncreasing(labels, bs[k].name, |labels|);
    }
  }

  lemma GroupingOwnRowAt(labels: seq<string>, rowColors: seq<Rgb>, i: nat)
    requires |rowColors| == |labels| && i < |labels|
    ensures var bs := GroupByLabel(labels, rowColors);
            && OwnCluster(bs, labels[i]) < |bs|
            && bs[OwnCluster(bs, labels[i])].name == labels[i]
            && i in bs[OwnCluster(bs, labels[i])].rows
  {
    GroupByLabelCovers(labels, rowColors);
  }

  lemma GroupingOwnRows(labels: seq<string>, rowColors: seq<Rgb>)
    requires |rowColors| == |labels|
    ensures var bs := GroupByLabel(labels, rowColors);
            forall i :: 0 <= i < |labels| ==> OwnCluster(bs, labels[i]) < |bs| && i in bs[OwnCluster(bs, labels[i])].rows
  {
    forall i | 0 <= i < |labels| {
      GroupingOwnRowAt(labels, rowColors, i);
    }
  }

  /** The clusters the current node outputs hold, at every member, that member's row's
      coefficient from the appended column. */
  lemma ExecuteStoresEveryCoefficient(labels: seq<string>, rowColors: seq<Rgb>, M: seq<seq<real>>)
    requires |rowColors| == |labels| && Table(M, labels)
    ensures Execute(labels, rowColors, M).Ok? ==>
            var (coefs, cs) := Execute(labels, rowColors, M).value;
            forall k, p :: 0 <= k < |cs| && 0 <= p < |cs[k].coefficients| ==>
              cs[k].dataIndices[p] < |coefs| && cs[k].coefficients[p] == coefs[cs[k].dataIndices[p]]
  {
    var bs := GroupByLabel(labels, rowColors);
    if |labels| > 0 {
      var coefs := seq(|labels|, i requires 0 <= i < |labels| => RowCoefficient(M, labels, bs, i));
      var cs := ToClusters(bs);
      GroupingReady(labels, rowColors);
      StoreRowsPlacesCoefficients(cs, bs, labels, coefs, |labels|);
      assert Execute(labels, rowColors, M).value == (coefs, StoreRows(cs, bs, labels, coefs, |labels|));
    }
  }
}
