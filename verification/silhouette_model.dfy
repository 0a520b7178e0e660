/** The result container: the clusters in order, each with its rows and coefficients. */
module SilhouetteModel {
  import opened InternalCluster

  datatype SilhouetteModel = SilhouetteModel(clusterData: seq<Cluster>)

  /** Concatenation of a sequence of sequences, in order. */
  function Flatten<T>(xs: seq<seq<T>>): (r: seq<T>)
  {
    if |xs| == 0 then [] else Flatten(xs[..|xs| - 1]) + xs[|xs| - 1]
  }

  lemma FlattenAppend<T>(xs: seq<seq<T>>, x: seq<T>)
    ensures Flatten(xs + [x]) == Flatten(xs) + x
  {
    assert (xs + [x])[..|xs|] == xs;
  }

  /** The coefficients of every cluster, cluster after cluster: the order in which the
      output column is filled. */
  function AllCoefficients(cs: seq<Cluster>): seq<real>
  {
    Flatten(seq(|cs|, k requires 0 <= k < |cs| => cs[k].coefficients))
  }

  /** `getRowCount`: the number of member rows over all clusters. */
  function RowCount(m: SilhouetteModel): nat
  {
    MemberTotal(m.clusterData)
  }

  function MemberTotal(cs: seq<Cluster>): nat
  {
    if |cs| == 0 then 0 else MemberTotal(cs[..|cs| - 1]) + |cs[|cs| - 1].dataIndices|
  }

  /** The row count is the number of entries of all member lists taken together, so it
      bounds every single cluster's size and is zero exactly when every cluster is empty. */
  lemma {:induction false} RowCountIsMemberTotal(cs: seq<Cluster>)
    ensures MemberTotal(cs) == |Flatten(seq(|cs|, k requires 0 <= k < |cs| => cs[k].dataIndices))|
    ensures forall k :: 0 <= k < |cs| ==> |cs[k].dataIndices| <= MemberTotal(cs)
    ensures MemberTotal(cs) == 0 <==> forall k :: 0 <= k < |cs| ==> |cs[k].dataIndices| == 0
  {
    if |cs| > 0 {
      var n := |cs| - 1;
      RowCountIsMemberTotal(cs[..n]);
      var ds := seq(|cs|, k requires 0 <= k < |cs| => cs[k].dataIndices);
      assert ds[..n] == seq(n, k requires 0 <= k < n => cs[..n][k].dataIndices);
      assert forall k :: 0 <= k < n ==> cs[..n][k] == cs[k];
    }
  }

  /** When every cluster's arrays line up, the output column receives exactly one
      coefficient per member row. */
  lemma {:induction false} RowCountMatchesCoefficients(cs: seq<Cluster>)
    requires forall k :: 0 <= k < |cs| ==> Parallel(cs[k])
    ensures |AllCoefficients(cs)| == MemberTotal(cs)
  {
    if |cs| > 0 {
      var n := |cs| - 1;
      RowCountMatchesCoefficients(cs[..n]);
      var xs := seq(|cs|, k requires 0 <= k < |cs| => cs[k].coefficients);
      assert xs[..n] == seq(n, k requires 0 <= k < n => cs[..n][k].coefficients);
    }
  }
}
