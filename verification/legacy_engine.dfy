/** The silhouette loop of the two older node revisions, `SilhouetteNodeModel_o` (the
    original node) and `SilhouetteNodeModel2` (the second node). Both walk the clusters
    in order and, for every member, compute the mean distance to the other members of its
    own cluster and the mean distance to each other cluster, keeping the first smallest.
    The distance between two rows is a parameter `d` here, one that always answers; the
    `LegacyExecute` module adds the exceptions of the real distance and ties it to the
    mixed Euclidean distance of the `Distance` module. */
module LegacyEngine {
  import opened Wrappers
  import opened Errors
  import opened InternalCluster
  import opened Grouping
  import opened Coefficient
  import opened Numbers

  /** How the distance sum to another cluster is divided: both older revisions divide by
      one less than that cluster's size; `Members` is the arithmetic mean. */
  datatype Divisor = MembersMinusOne | Members

  function DivisorOf(div: Divisor, size: nat): int
  {
    match div
    case MembersMinusOne => size - 1
    case Members => size
  }

  /** Distances from row `self` to the first `n` members of `rows`, summed. */
  function MemberSum(d: (nat, nat) -> real, self: nat, rows: seq<nat>, n: nat): real
    requires n <= |rows|
  {
    if n == 0 then 0.0 else MemberSum(d, self, rows, n - 1) + d(self, rows[n - 1])
  }

  /** Distances from row `self` to the first `n` members of `rows` except the one at
      position `p`, summed: the own-cluster loop skips its own position. */
  function OwnSum(d: (nat, nat) -> real, self: nat, rows: seq<nat>, p: nat, n: nat): real
    requires n <= |rows|
  {
    if n == 0 then 0.0
    else OwnSum(d, self, rows, p, n - 1) + (if n - 1 != p then d(self, rows[n - 1]) else 0.0)
  }

  /** The own-cluster sum misses exactly the skipped member's term. */
  lemma {:induction false} OwnSumSkipsOne(d: (nat, nat) -> real, self: nat, rows: seq<nat>, p: nat, n: nat)
    requires n <= |rows|
    ensures p < n ==> OwnSum(d, self, rows, p, n) + d(self, rows[p]) == MemberSum(d, self, rows, n)
    ensures p >= n ==> OwnSum(d, self, rows, p, n) == MemberSum(d, self, rows, n)
  {
    if n > 0 {
      OwnSumSkipsOne(d, self, rows, p, n - 1);
    }
  }

  ghost predicate NonNegative(d: (nat, nat) -> real)
  {
    forall i, j :: d(i, j) >= 0.0
  }

  lemma {:induction false} MemberSumNonNegative(d: (nat, nat) -> real, self: nat, rows: seq<nat>, n: nat)
    requires NonNegative(d) && n <= |rows|
    ensures MemberSum(d, self, rows, n) >= 0.0
    ensures forall p :: OwnSum(d, self, rows, p, n) >= 0.0
  {
    if n > 0 {
      MemberSumNonNegative(d, self, rows, n - 1);
      assert d(self, rows[n - 1]) >= 0.0;
    }
  }

  /** The own-cluster mean of the member at position `p`: the sum over the other members
      divided by their number. */
  function OwnMean(d: (nat, nat) -> real, self: nat, rows: seq<nat>, p: nat): real
    requires |rows| >= 2
  {
    OwnSum(d, self, rows, p, |rows|) / ((|rows| - 1) as real)
  }

  /** The mean distance from row `self` to cluster `rows`. A zero divisor makes the Java
      quotient infinite or NaN, which never compares below the running minimum: that
      cluster is no candidate. */
  function NeighbourMean(d: (nat, nat) -> real, self: nat, rows: seq<nat>, div: Divisor): (b: Option<real>)
    ensures b.None? <==> DivisorOf(div, |rows|) == 0
    ensures b.Some? ==> b.value * (DivisorOf(div, |rows|) as real) == MemberSum(d, self, rows, |rows|)
  {
    var q := DivisorOf(div, |rows|);
    if q == 0 then None
    else
      var sum := MemberSum(d, self, rows, |rows|);
      QuotientTimesDivisor(sum, q as real);
      Some(sum / (q as real))
  }


  /** Every cluster's mean as seen from row `self`. */
  function Means(d: (nat, nat) -> real, groups: seq<seq<nat>>, self: nat, div: Divisor): (ms: seq<Option<real>>)
    ensures |ms| == |groups|
    ensures forall j :: 0 <= j < |groups| ==> ms[j] == NeighbourMean(d, self, groups[j], div)
  {
    seq(|groups|, j requires 0 <= j < |groups| => NeighbourMean(d, self, groups[j], div))
  }

  /** The coefficient of the member at position `p` of cluster `k`, which is row `self`:
      exactly 0 in a singleton cluster, otherwise the older revisions' quotient of the own
      mean and the first smallest mean of another cluster. */
  function LegacyCoefficient(d: (nat, nat) -> real, groups: seq<seq<nat>>, k: nat, p: nat, self: nat, div: Divisor): (s: real)
    requires k < |groups| && p < |groups[k]|
    ensures |groups[k]| == 1 ==> s == 0.0
  {
    if |groups[k]| == 1 then 0.0
    else LegacySilhouette(OwnMean(d, self, groups[k], p), Means(d, groups, self, div), k)
  }

  lemma NeighbourMeanNonNegative(d: (nat, nat) -> real, self: nat, rows: seq<nat>, div: Divisor)
    requires NonNegative(d)
    ensures var b := NeighbourMean(d, self, rows, div); b.Some? ==> b.value >= 0.0
  {
    MemberSumNonNegative(d, self, rows, |rows|);
    var q := DivisorOf(div, |rows|);
    if q < 0 {
      assert |rows| == 0;
    }
  }

  /** Each cluster's entry is its mean as seen from row `self`: absent exactly when the
      divisor is 0, otherwise the quotient whose product with the divisor is the summed
      distance from `self` to the cluster's members. */
  lemma MeansMeaning(d: (nat, nat) -> real, groups: seq<seq<nat>>, self: nat, div: Divisor, j: nat)
    requires j < |groups|
    ensures Means(d, groups, self, div)[j].None? <==> DivisorOf(div, |groups[j]|) == 0
    ensures Means(d, groups, self, div)[j].Some? ==>
              Means(d, groups, self, div)[j].value * (DivisorOf(div, |groups[j]|) as real)
                == MemberSum(d, self, groups[j], |groups[j]|)
  {
  }

  lemma MeansNonNegative(d: (nat, nat) -> real, groups: seq<seq<nat>>, self: nat, div: Divisor)
    requires NonNegative(d)
    ensures var ms := Means(d, groups, self, div);
            forall j :: 0 <= j < |ms| && ms[j].Some? ==> ms[j].value >= 0.0
  {
    var ms := Means(d, groups, self, div);
    forall j | 0 <= j < |ms| && ms[j].Some?
      ensures ms[j].value >= 0.0
    {
      NeighbourMeanNonNegative(d, self, groups[j], div);
    }
  }

  lemma OwnMeanNonNegative(d: (nat, nat) -> real, self: nat, rows: seq<nat>, p: nat)
    requires NonNegative(d) && |rows| >= 2
    ensures OwnMean(d, self, rows, p) >= 0.0
  {
    MemberSumNonNegative(d, self, rows, |rows|);
  }

  /** With non-negative distances every older-revision coefficient lies in [-1, 1]. */
  lemma LegacyCoefficientRange(d: (nat, nat) -> real, groups: seq<seq<nat>>, k: nat, p: nat, self: nat, div: Divisor)
    requires NonNegative(d)
    requires k < |groups| && p < |groups[k]|
    ensures -1.0 <= LegacyCoefficient(d, groups, k, p, self, div) <= 1.0
  {
    if |groups[k]| >= 2 {
      MeansNonNegative(d, groups, self, div);
      OwnMeanNonNegative(d, self, groups[k], p);
    }
  }

  /** When some other cluster has a mean, the sign of a non-singleton member's
      coefficient says whether the first smallest such mean exceeds the own mean. */
  lemma LegacyCoefficientSign(d: (nat, nat) -> real, groups: seq<seq<nat>>, k: nat, p: nat, self: nat, div: Divisor)
    requires NonNegative(d)
    requires k < |groups| && 2 <= |groups[k]| && p < |groups[k]|
    requires FirstMinimumIndex(Means(d, groups, self, div), k).Some?
    ensures var a := OwnMean(d, self, groups[k], p);
            var b := Means(d, groups, self, div)[FirstMinimumIndex(Means(d, groups, self, div), k).value].value;
            (LegacyCoefficient(d, groups, k, p, self, div) > 0.0 <==> b > a)
            && (LegacyCoefficient(d, groups, k, p, self, div) < 0.0 <==> b < a)
  {
    var ms := Means(d, groups, self, div);
    var m := FirstMinimumIndex(ms, k).value;
    NeighbourMeanNonNegative(d, self, groups[m], div);
    OwnMeanNonNegative(d, self, groups[k], p);
    assert LegacyCoefficient(d, groups, k, p, self, div) == Silhouette(OwnMean(d, self, groups[k], p), ms[m].value);
  }

  // ---------------------------------------------------------------------------
  // The neighbour divisor

  lemma {:induction false} ConstantMemberSum(d: (nat, nat) -> real, c: real, self: nat, rows: seq<nat>, n: nat)
    requires forall i, j :: d(i, j) == c
    requires n <= |rows|
    ensures MemberSum(d, self, rows, n) == (n as real) * c
  {
    if n > 0 {
      ConstantMemberSum(d, c, self, rows, n - 1);
    }
  }

  /** Dividing by the cluster's size gives a true mean: every non-empty cluster has one,
      and when all distances are `c` the mean is `c`. */
  lemma MembersDivisorIsMean(d: (nat, nat) -> real, c: real, self: nat, rows: seq<nat>)
    requires |rows| > 0
    ensures NeighbourMean(d, self, rows, Members).Some?
    ensures (forall i, j :: d(i, j) == c) ==> NeighbourMean(d, self, rows, Members) == Some(c)
  {
    if forall i, j :: d(i, j) == c {
      ConstantMemberSum(d, c, self, rows, |rows|);
      var n := |rows| as real;
      var b := NeighbourMean(d, self, rows, Members).value;
      assert b * n == n * c;
      assert (b - c) * n == 0.0;
    }
  }

  /** With all distances equal to 1 and two clusters of two rows, the older revisions'
      divisor makes the other cluster look twice as far as the own one, so the
      coefficient is 0.5; with the cluster's size as divisor it is 0. */
  lemma MembersMinusOneInflatesNeighbour()
    ensures LegacyCoefficient((i: nat, j: nat) => 1.0, [[0, 1], [2, 3]], 0, 0, 0, MembersMinusOne) == 0.5
    ensures LegacyCoefficient((i: nat, j: nat) => 1.0, [[0, 1], [2, 3]], 0, 0, 0, Members) == 0.0
  {
    var d := (i: nat, j: nat) => 1.0;
    var groups: seq<seq<nat>> := [[0, 1], [2, 3]];
    ConstantMemberSum(d, 1.0, 0, groups[1], 2);
    OwnSumSkipsOne(d, 0, groups[0], 0, 2);
    ConstantMemberSum(d, 1.0, 0, groups[0], 2);
    assert OwnMean(d, 0, groups[0], 0) == 1.0;
    var ms := Means(d, groups, 0, MembersMinusOne);
    assert ms[1] == Some(2.0);
    assert FirstMinimumIndex(ms, 0) == Some(1) by {
      assert ms[..1][0] == ms[0];
      assert FirstMinimumIndex(ms[..1], 0) == None;
    }
    assert Silhouette(1.0, 2.0) == 0.5;
    var ns := Means(d, groups, 0, Members);
    assert ns[1] == Some(1.0);
    assert FirstMinimumIndex(ns, 0) == Some(1) by {
      assert ns[..1][0] == ns[0];
      assert FirstMinimumIndex(ns[..1], 0) == None;
    }
  }

  // ---------------------------------------------------------------------------
  // Writing the coefficients back

  /** The older revisions' write-back: the coefficient of position `p` is stored with
      `setCoefficient(p, s)`, which looks `p` up among the member ROW indices. */
  function StoreByPosition(c: Cluster, coefs: seq<real>, n: nat): (r: Cluster)
    requires Parallel(c) && n <= |coefs|
    ensures Parallel(r) && r.dataIndices == c.dataIndices
  {
    if n == 0 then c else Store(StoreByPosition(c, coefs, n - 1), n - 1, coefs[n - 1])
  }

  /** The write-back the loop evidently intends: position `p` is stored under its own row
      index, `setCoefficient(dataIndices[p], s)`. */
  function StoreByRow(c: Cluster, coefs: seq<real>, n: nat): (r: Cluster)
    requires Parallel(c) && n <= |coefs| && n <= |c.dataIndices|
    ensures Parallel(r) && r.dataIndices == c.dataIndices
  {
    if n == 0 then c else Store(StoreByRow(c, coefs, n - 1), c.dataIndices[n - 1], coefs[n - 1])
  }

  ghost predicate Increasing(rows: seq<int>)
  {
    forall p, q :: 0 <= p < q < |rows| ==> rows[p] < rows[q]
  }

  /** Storing by position files, at member `q`, the coefficient computed for the position
      equal to that member's ROW index, and leaves it untouched when its row index is not a
      visited position. */
  lemma {:induction false} StoreByPositionPlacesAt(c: Cluster, coefs: seq<real>, n: nat, q: nat)
    requires Parallel(c) && n <= |coefs| && Increasing(c.dataIndices) && q < |c.coefficients|
    ensures StoreByPosition(c, coefs, n).coefficients[q] ==
              if 0 <= c.dataIndices[q] < n then coefs[c.dataIndices[q]] else c.coefficients[q]
  {
    if n > 0 {
      var prev := StoreByPosition(c, coefs, n - 1);
      assert StoreByPosition(c, coefs, n) == Store(prev, n - 1, coefs[n - 1]);
      StoreByPositionPlacesAt(c, coefs, n - 1, q);
      StoreWritesAt(prev, n - 1, coefs[n - 1], q);
    }
  }

  /** Storing by position, at every member. */
  lemma StoreByPositionPlaces(c: Cluster, coefs: seq<real>, n: nat)
    requires Parallel(c) && n <= |coefs| && Increasing(c.dataIndices)
    ensures var r := StoreByPosition(c, coefs, n);
            forall q :: 0 <= q < |r.coefficients| ==>
              r.coefficients[q] == if 0 <= c.dataIndices[q] < n then coefs[c.dataIndices[q]] else c.coefficients[q]
  {
    forall q | 0 <= q < |c.coefficients| {
      StoreByPositionPlacesAt(c, coefs, n, q);
    }
  }

  /** Storing by row gives member `q` its own coefficient once it has been visited. */
  lemma {:induction false} StoreByRowPlacesAt(c: Cluster, coefs: seq<real>, n: nat, q: nat)
    requires Parallel(c) && n <= |coefs| && n <= |c.dataIndices| && Increasing(c.dataIndices)
    requires q < |c.coefficients|
    ensures StoreByRow(c, coefs, n).coefficients[q] == if q < n then coefs[q] else c.coefficients[q]
  {
    if n > 0 {
      var prev := StoreByRow(c, coefs, n - 1);
      assert StoreByRow(c, coefs, n) == Store(prev, c.dataIndices[n - 1], coefs[n - 1]);
      StoreByRowPlacesAt(c, coefs, n - 1, q);
      StoreWritesAt(prev, c.dataIndices[n - 1], coefs[n - 1], q);
      if q != n - 1 {
        IncreasingDistinct(c.dataIndices, q, n - 1);
      }
    }
  }

  lemma IncreasingDistinct(rows: seq<int>, p: nat, q: nat)
    requires Increasing(rows) && p < |rows| && q < |rows| && p != q
    ensures rows[p] != rows[q]
  {
    if p < q {
      assert rows[p] < rows[q];
    } else {
      assert rows[q] < rows[p];
    }
  }

  /** Storing by row gives every visited member its own coefficient. */
  lemma StoreByRowPlaces(c: Cluster, coefs: seq<real>, n: nat)
    requires Parallel(c) && n <= |coefs| && n <= |c.dataIndices| && Increasing(c.dataIndices)
    ensures var r := StoreByRow(c, coefs, n);
            forall q :: 0 <= q < |r.coefficients| ==> r.coefficients[q] == if q < n then coefs[q] else c.coefficients[q]
  {
    forall q | 0 <= q < |c.coefficients| {
      StoreByRowPlacesAt(c, coefs, n, q);
    }
  }

  /** A cluster of rows 2, 3, 4 whose members' coefficients are 0.5, 0.25, 0.75: storing
      by position files the third coefficient at the first member and loses the others. */
  lemma PositionWriteLosesCoefficients()
    ensures StoreByPosition(Named("B", [0, 0, 0], [2, 3, 4]), [0.5, 0.25, 0.75], 3).coefficients == [0.75, 0.0, 0.0]
  {
    var c := Named("B", [0, 0, 0], [2, 3, 4]);
    var coefs := [0.5, 0.25, 0.75];
    assert Increasing(c.dataIndices);
    var byPosition := StoreByPosition(c, coefs, 3).coefficients;
    StoreByPositionPlacesAt(c, coefs, 3, 0);
    StoreByPositionPlacesAt(c, coefs, 3, 1);
    StoreByPositionPlacesAt(c, coefs, 3, 2);
    assert byPosition[0] == 0.75 && byPosition[1] == 0.0 && byPosition[2] == 0.0;
  }

  /** The same cluster stored by row keeps all three coefficients. */
  lemma RowWriteKeepsCoefficients()
    ensures StoreByRow(Named("B", [0, 0, 0], [2, 3, 4]), [0.5, 0.25, 0.75], 3).coefficients == [0.5, 0.25, 0.75]
  {
    var c := Named("B", [0, 0, 0], [2, 3, 4]);
    var coefs := [0.5, 0.25, 0.75];
    assert Increasing(c.dataIndices);
    var byRow := StoreByRow(c, coefs, 3).coefficients;
    StoreByRowPlacesAt(c, coefs, 3, 0);
    StoreByRowPlacesAt(c, coefs, 3, 1);
    StoreByRowPlacesAt(c, coefs, 3, 2);
    assert byRow[0] == 0.5 && byRow[1] == 0.25 && byRow[2] == 0.75;
  }

  // ---------------------------------------------------------------------------
  // The original node

  /** The member rows of each cluster. */
  function MemberRows<L>(bs: seq<Block<L>>): (groups: seq<seq<nat>>)
    ensures |groups| == |bs|
    ensures forall k :: 0 <= k < |bs| ==> groups[k] == bs[k].rows
  {
    seq(|bs|, k requires 0 <= k < |bs| => bs[k].rows)
  }

  /** The coefficients the original node computes for the members of cluster `k`, each
      member being its own row. */
  function OriginalCoefficients(d: (nat, nat) -> real, groups: seq<seq<nat>>, k: nat): (cs: seq<real>)
    requires k < |groups|
    ensures |cs| == |groups[k]|
  {
    seq(|groups[k]|, p requires 0 <= p < |groups[k]| => LegacyCoefficient(d, groups, k, p, groups[k][p], MembersMinusOne))
  }

  /** The original node's computation as written, for a distance that always answers: the
      runs of equal labels of the sorted table, with the coefficients stored by position. */
  function OriginalCompute(d: (nat, nat) -> real, labels: seq<string>): (r: seq<Cluster>)
    ensures |r| == |GroupRuns(labels)|
  {
    var bs := GroupRuns(labels);
    var cs := ToClusters(bs);
    var groups := MemberRows(bs);
    seq(|bs|, k requires 0 <= k < |bs| => StoreByPosition(cs[k], OriginalCoefficients(d, groups, k), |groups[k]|))
  }

  /** The original node's computation with the write-back by row. */
  function OriginalComputeFixed(d: (nat, nat) -> real, labels: seq<string>): (r: seq<Cluster>)
    ensures |r| == |GroupRuns(labels)|
  {
    var bs := GroupRuns(labels);
    var cs := ToClusters(bs);
    var groups := MemberRows(bs);
    seq(|bs|, k requires 0 <= k < |bs| => StoreByRow(cs[k], OriginalCoefficients(d, groups, k), |groups[k]|))
  }

  lemma RunsIncreasing(labels: seq<string>)
    ensures forall k :: 0 <= k < |GroupRuns(labels)| ==> Increasing(GroupRuns(labels)[k].rows)
  {
    var bs := GroupRuns(labels);
    RunsDecompose(labels, |labels|);
    assert ConsecutiveRuns(labels, |labels|, bs);
    forall k | 0 <= k < |bs|
      ensures Increasing(bs[k].rows)
    {
      forall p, q | 0 <= p < q < |bs[k].rows|
        ensures bs[k].rows[p] < bs[k].rows[q]
      {
        assert bs[k].rows[p] == bs[k].rows[0] + p;
        assert bs[k].rows[q] == bs[k].rows[0] + q;
      }
    }
  }

  /** With the write-back by row, every member of every run holds the coefficient computed
      for it. */
  lemma OriginalFixedStoresEveryCoefficient(d: (nat, nat) -> real, labels: seq<string>)
    ensures var r := OriginalComputeFixed(d, labels);
            var groups := MemberRows(GroupRuns(labels));
            forall k, p :: 0 <= k < |r| && 0 <= p < |r[k].coefficients| ==>
              p < |groups[k]| && r[k].coefficients[p] == LegacyCoefficient(d, groups, k, p, groups[k][p], MembersMinusOne)
  {
    var bs := GroupRuns(labels);
    var cs := ToClusters(bs);
    var groups := MemberRows(bs);
    RunsIncreasing(labels);
    forall k | 0 <= k < |bs|
      ensures var r := StoreByRow(cs[k], OriginalCoefficients(d, groups, k), |groups[k]|);
              forall p :: 0 <= p < |r.coefficients| ==> r.coefficients[p] == OriginalCoefficients(d, groups, k)[p]
    {
      StoreByRowPlaces(cs[k], OriginalCoefficients(d, groups, k), |groups[k]|);
    }
  }

  // ---------------------------------------------------------------------------
  // The second node

  /** The table row under the second node's running iterator when it reaches member `p`
      of cluster `k`: the iterator advances one row per member, across all clusters in
      order, so it stands `p` rows past the members of the earlier clusters. */
  function IteratorRow<L>(bs: seq<Block<L>>, k: nat, p: nat): nat
    requires k <= |bs|
  {
    if k == 0 then p else IteratorRow(bs, k - 1, |bs[k - 1].rows|) + p
  }

  /** The iterator stands `p` rows past all members of the clusters before `k`. */
  lemma {:induction false} IteratorRowCounts<L>(bs: seq<Block<L>>, k: nat, p: nat)
    requires k <= |bs|
    ensures IteratorRow(bs, k, p) == TotalRows(bs[..k]) + p
  {
    if k > 0 {
      IteratorRowCounts(bs, k - 1, |bs[k - 1].rows|);
      assert bs[..k][..k - 1] == bs[..k - 1];
    }
  }

  lemma {:induction false} TotalRowsPrefix<L>(bs: seq<Block<L>>, k: nat)
    requires k <= |bs|
    ensures TotalRows(bs[..k]) <= TotalRows(bs)
    decreases |bs|
  {
    if k < |bs| {
      TotalRowsPrefix(bs[..|bs| - 1], k);
      assert bs[..|bs| - 1][..k] == bs[..k];
    } else {
      assert bs[..k] == bs;
    }
  }

  /** ...so it never passes the last member: every member's row lies inside the table. */
  lemma IteratorRowInTable<L>(bs: seq<Block<L>>, k: nat, p: nat)
    requires k < |bs| && p < |bs[k].rows|
    ensures IteratorRow(bs, k, p) < TotalRows(bs)
  {
    IteratorRowCounts(bs, k, p);
    TotalRowsPrefix(bs, k + 1);
    assert bs[..k + 1][..k] == bs[..k];
  }

  /** On every table the second node accepts, the row under the iterator exists. */
  lemma SecondIteratorWithinTable(labels: seq<string>, k: nat, p: nat)
    requires |labels| != 1
    requires k < |GroupChanges(labels).value| && p < |GroupChanges(labels).value[k].rows|
    ensures IteratorRow(GroupChanges(labels).value, k, p) < |labels|
  {
    IteratorRowInTable(GroupChanges(labels).value, k, p);
  }

  /** The second node's computation as written on a sorted table, for a distance that
      always answers: the label-change grouping, then for member `p` of cluster `k` the
      row under the running iterator, compared with the table rows its cluster entries
      name. Those entries are positions within each
      cluster, so every cluster is compared as if it were the first `|C|` rows of the
      table. The coefficients are stored by position, which here is the entry itself. */
  function SecondCompute(d: (nat, nat) -> real, labels: seq<string>): (r: Result<seq<Cluster>, Error>)
    ensures r.Err? <==> |labels| == 1
    ensures r.Ok? ==> r.value == SecondClusters(d, GroupChanges(labels).value)
  {
    var bs :- GroupChanges(labels);
    Ok(SecondClusters(d, bs))
  }

  /** The clusters of the second node with their coefficients, stored by position. */
  function SecondClusters(d: (nat, nat) -> real, bs: seq<Block<string>>): (r: seq<Cluster>)
    ensures |r| == |bs|
  {
    var cs := ToClusters(bs);
    var groups := MemberRows(bs);
    seq(|bs|, k requires 0 <= k < |bs| => StoreByPosition(cs[k], SecondCoefficients(d, bs, groups, k), |groups[k]|))
  }

  function SecondCoefficients(d: (nat, nat) -> real, bs: seq<Block<string>>, groups: seq<seq<nat>>, k: nat): (cs: seq<real>)
    requires |groups| == |bs| && k < |groups|
    ensures |cs| == |groups[k]|
    ensures forall p :: 0 <= p < |cs| ==> cs[p] == LegacyCoefficient(d, groups, k, p, IteratorRow(bs, k, p), MembersMinusOne)
  {
    seq(|groups[k]|, p requires 0 <= p < |groups[k]| => LegacyCoefficient(d, groups, k, p, IteratorRow(bs, k, p), MembersMinusOne))
  }

  /** Every cluster of the second node names the first table rows: entry `p` is row `p`. */
  lemma SecondComparesTablePrefix(labels: seq<string>)
    requires |labels| != 1
    ensures forall k, p :: 0 <= k < |GroupChanges(labels).value| && 0 <= p < |GroupChanges(labels).value[k].rows| ==>
              GroupChanges(labels).value[k].rows[p] == p
  {
    var bs := GroupChanges(labels).value;
    forall k | 0 <= k < |bs|
      ensures LocalPositions(bs[k].rows)
    {
    }
  }

  lemma SecondClusterStores(d: (nat, nat) -> real, bs: seq<Block<string>>, k: nat)
    requires k < |bs| && LocalPositions(bs[k].rows)
    ensures var groups := MemberRows(bs);
            var r := StoreByPosition(ToClusters(bs)[k], SecondCoefficients(d, bs, groups, k), |groups[k]|);
            forall p :: 0 <= p < |r.coefficients| ==> r.coefficients[p] == SecondCoefficients(d, bs, groups, k)[p]
  {
    var groups := MemberRows(bs);
    var c := ToClusters(bs)[k];
    assert Increasing(c.dataIndices);
    StoreByPositionPlaces(c, SecondCoefficients(d, bs, groups, k), |groups[k]|);
  }

  /** The second node stores each coefficient at the member it was computed for. */
  lemma SecondStoresEveryCoefficient(d: (nat, nat) -> real, bs: seq<Block<string>>)
    requires forall k :: 0 <= k < |bs| ==> LocalPositions(bs[k].rows)
    ensures var r := SecondClusters(d, bs);
            forall k, p :: 0 <= k < |r| && 0 <= p < |r[k].coefficients| ==>
              p < |bs[k].rows| && r[k].coefficients[p] == SecondCoefficients(d, bs, MemberRows(bs), k)[p]
  {
    var groups := MemberRows(bs);
    var r := SecondClusters(d, bs);
    forall k | 0 <= k < |r|
      ensures forall p :: 0 <= p < |r[k].coefficients| ==>
                p < |bs[k].rows| && r[k].coefficients[p] == SecondCoefficients(d, bs, groups, k)[p]
    {
      assert r[k] == StoreByPosition(ToClusters(bs)[k], SecondCoefficients(d, bs, groups, k), |groups[k]|);
      SecondClusterStores(d, bs, k);
    }
  }

  /** On every table the second node accepts, each member holds the coefficient computed
      for it under the running row iterator. */
  lemma SecondComputeStores(d: (nat, nat) -> real, labels: seq<string>)
    requires |labels| != 1
    ensures var bs := GroupChanges(labels).value;
            var r := SecondCompute(d, labels).value;
            forall k, p :: 0 <= k < |r| && 0 <= p < |r[k].coefficients| ==>
              p < |bs[k].rows| && r[k].coefficients[p] == SecondCoefficients(d, bs, MemberRows(bs), k)[p]
  {
    SecondStoresEveryCoefficient(d, GroupChanges(labels).value);
  }
}
