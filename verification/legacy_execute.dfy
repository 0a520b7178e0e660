/** The older revisions' `execute` with the exceptions of their distance. Their
    `euclideanDistance` (`euclidianDistance` in the second node) throws an
    `IllegalArgumentException` when the two rows' dimension counts differ, and the Apache
    Hamming distance throws one for strings of different lengths. The first failing
    distance ends the whole execution. This module lists the pairs of rows whose distance
    the loops compute, in the order they compute them, and proves that the coefficients
    depend on those distances only. */
module LegacyExecute {
  import opened Wrappers
  import opened Errors
  import opened Library
  import opened InternalCluster
  import opened Grouping
  import opened Coefficient
  import opened LegacyEngine
  import Features
  import InternalColumn
  import Distance
  import SD = StringDistance

  /** A distance between two table rows that may throw. */
  type PartialDistance = (nat, nat) -> Result<real, Error>

  /** The values of a distance where it answers, 0 where it throws. */
  function Values(pd: PartialDistance): (nat, nat) -> real
  {
    (i: nat, j: nat) => if pd(i, j).Ok? then pd(i, j).value else 0.0
  }

  // ---------------------------------------------------------------------------
  // The pairs the loops compute

  /** Row `self` against every row of `rows`, in order. */
  function RowPairs(self: nat, rows: seq<nat>): (ps: seq<(nat, nat)>)
    ensures |ps| == |rows| && forall q :: 0 <= q < |rows| ==> ps[q] == (self, rows[q])
  {
    seq(|rows|, q requires 0 <= q < |rows| => (self, rows[q]))
  }

  /** The pairs of `RowPairs` are exactly row `self` with each row of `rows`. */
  lemma RowPairsMembers(self: nat, rows: seq<nat>, x: (nat, nat))
    ensures x in RowPairs(self, rows) <==> x.0 == self && x.1 in rows
  {
    if x.0 == self && x.1 in rows {
      var q :| 0 <= q < |rows| && rows[q] == x.1;
      assert RowPairs(self, rows)[q] == x;
    }
  }

  /** Row `self` against the first `n` members of its own cluster `rows`, skipping its own
      position `p`. */
  function OwnPairs(self: nat, rows: seq<nat>, p: nat, n: nat): seq<(nat, nat)>
    requires n <= |rows|
  {
    if n == 0 then []
    else OwnPairs(self, rows, p, n - 1) + (if n - 1 != p then [(self, rows[n - 1])] else [])
  }

  /** Row `self` against every member of the first `n` clusters other than cluster `k`. */
  function OtherPairs(groups: seq<seq<nat>>, k: nat, self: nat, n: nat): seq<(nat, nat)>
    requires n <= |groups|
  {
    if n == 0 then []
    else OtherPairs(groups, k, self, n - 1) + (if n - 1 != k then RowPairs(self, groups[n - 1]) else [])
  }

  /** The distances computed for member `p` of cluster `k`, which is row `self`: none in a
      singleton cluster, otherwise the other members of its own cluster and then every
      member of every other cluster. */
  function MemberPairs(groups: seq<seq<nat>>, k: nat, p: nat, self: nat): seq<(nat, nat)>
    requires k < |groups| && p < |groups[k]|
  {
    if |groups[k]| == 1 then []
    else OwnPairs(self, groups[k], p, |groups[k]|) + OtherPairs(groups, k, self, |groups|)
  }

  /** The pairs of parts `0..n`, one part after the other. */
  function Concat(part: nat -> seq<(nat, nat)>, n: nat): seq<(nat, nat)>
  {
    if n == 0 then [] else Concat(part, n - 1) + part(n - 1)
  }

  /** The distances computed for each member of cluster `k`; `row(k, p)` is the table row
      the node takes for member `p`. */
  function MemberPart(groups: seq<seq<nat>>, row: (nat, nat) -> nat, k: nat): nat -> seq<(nat, nat)>
    requires k < |groups|
  {
    (p: nat) => if p < |groups[k]| then MemberPairs(groups, k, p, row(k, p)) else []
  }

  /** The distances computed for the first `n` members of cluster `k`. */
  function ClusterPairs(groups: seq<seq<nat>>, row: (nat, nat) -> nat, k: nat, n: nat): seq<(nat, nat)>
    requires k < |groups|
  {
    Concat(MemberPart(groups, row, k), n)
  }

  /** The distances computed for each cluster. */
  function ClusterPart(groups: seq<seq<nat>>, row: (nat, nat) -> nat): nat -> seq<(nat, nat)>
  {
    (k: nat) => if k < |groups| then ClusterPairs(groups, row, k, |groups[k]|) else []
  }

  /** The distances computed for the first `n` clusters. */
  function TablePairs(groups: seq<seq<nat>>, row: (nat, nat) -> nat, n: nat): seq<(nat, nat)>
  {
    Concat(ClusterPart(groups, row), n)
  }

  /** Every pair of a part is among the pairs of the parts taken together. */
  lemma {:induction false} ConcatHas(part: nat -> seq<(nat, nat)>, n: nat, q: nat)
    requires q < n
    ensures forall x :: x in part(q) ==> x in Concat(part, n)
  {
    if q < n - 1 {
      ConcatHas(part, n - 1, q);
    }
  }

  /** Pairs within a bound, part by part, are within it taken together. */
  lemma {:induction false} ConcatWithin(part: nat -> seq<(nat, nat)>, n: nat, bound: nat)
    requires forall q, x :: 0 <= q < n && x in part(q) ==> x.0 < bound && x.1 < bound
    ensures forall x :: x in Concat(part, n) ==> x.0 < bound && x.1 < bound
  {
    if n > 0 {
      ConcatWithin(part, n - 1, bound);
    }
  }

  lemma {:induction false} OwnPairsHas(self: nat, rows: seq<nat>, p: nat, n: nat, q: nat)
    requires n <= |rows| && q < n && q != p
    ensures (self, rows[q]) in OwnPairs(self, rows, p, n)
  {
    if q < n - 1 {
      OwnPairsHas(self, rows, p, n - 1, q);
    }
  }

  lemma {:induction false} OtherPairsHas(groups: seq<seq<nat>>, k: nat, self: nat, n: nat, j: nat, q: nat)
    requires n <= |groups| && j < n && j != k && q < |groups[j]|
    ensures (self, groups[j][q]) in OtherPairs(groups, k, self, n)
  {
    if j < n - 1 {
      OtherPairsHas(groups, k, self, n - 1, j, q);
    } else {
      assert RowPairs(self, groups[j])[q] == (self, groups[j][q]);
    }
  }

  /** Every distance one member needs is computed for its cluster... */
  lemma ClusterPairsHas(groups: seq<seq<nat>>, row: (nat, nat) -> nat, k: nat, n: nat, p: nat)
    requires k < |groups| && n <= |groups[k]| && p < n
    ensures forall x :: x in MemberPairs(groups, k, p, row(k, p)) ==> x in ClusterPairs(groups, row, k, n)
  {
    ConcatHas(MemberPart(groups, row, k), n, p);
  }

  /** ...and so for the table. */
  lemma TablePairsHas(groups: seq<seq<nat>>, row: (nat, nat) -> nat, n: nat, k: nat, p: nat)
    requires n <= |groups| && k < n && p < |groups[k]|
    ensures forall x :: x in MemberPairs(groups, k, p, row(k, p)) ==> x in TablePairs(groups, row, n)
  {
    ClusterPairsHas(groups, row, k, |groups[k]|, p);
    ConcatHas(ClusterPart(groups, row), n, k);
  }

  // ---------------------------------------------------------------------------
  // The coefficients read only those distances

  /** Two distances that agree on every pair of `ps`. */
  ghost predicate AgreeOn(d1: (nat, nat) -> real, d2: (nat, nat) -> real, ps: seq<(nat, nat)>)
  {
    forall x :: x in ps ==> d1(x.0, x.1) == d2(x.0, x.1)
  }

  lemma {:induction false} MemberSumAgree(d1: (nat, nat) -> real, d2: (nat, nat) -> real, self: nat, rows: seq<nat>, n: nat)
    requires n <= |rows|
    requires forall q :: 0 <= q < n ==> d1(self, rows[q]) == d2(self, rows[q])
    ensures MemberSum(d1, self, rows, n) == MemberSum(d2, self, rows, n)
  {
    if n > 0 {
      MemberSumAgree(d1, d2, self, rows, n - 1);
    }
  }

  lemma {:induction false} OwnSumAgree(d1: (nat, nat) -> real, d2: (nat, nat) -> real, self: nat, rows: seq<nat>, p: nat, n: nat)
    requires n <= |rows|
    requires forall q :: 0 <= q < n && q != p ==> d1(self, rows[q]) == d2(self, rows[q])
    ensures OwnSum(d1, self, rows, p, n) == OwnSum(d2, self, rows, p, n)
  {
    if n > 0 {
      OwnSumAgree(d1, d2, self, rows, p, n - 1);
    }
  }

  /** A member's coefficient is the same under any two distances that agree on the pairs
      computed for it. */
  lemma CoefficientAgree(d1: (nat, nat) -> real, d2: (nat, nat) -> real, groups: seq<seq<nat>>,
                         k: nat, p: nat, self: nat, div: Divisor)
    requires k < |groups| && p < |groups[k]|
    requires AgreeOn(d1, d2, MemberPairs(groups, k, p, self))
    ensures LegacyCoefficient(d1, groups, k, p, self, div) == LegacyCoefficient(d2, groups, k, p, self, div)
  {
    if |groups[k]| > 1 {
      var rows := groups[k];
      forall q | 0 <= q < |rows| && q != p
        ensures d1(self, rows[q]) == d2(self, rows[q])
      {
        OwnPairsHas(self, rows, p, |rows|, q);
      }
      OwnSumAgree(d1, d2, self, rows, p, |rows|);
      var ms1 := Means(d1, groups, self, div);
      var ms2 := Means(d2, groups, self, div);
      forall j | 0 <= j < |groups| && j != k
        ensures ms1[j] == ms2[j]
      {
        forall q | 0 <= q < |groups[j]|
          ensures d1(self, groups[j][q]) == d2(self, groups[j][q])
        {
          OtherPairsHas(groups, k, self, |groups|, j, q);
        }
        MemberSumAgree(d1, d2, self, groups[j], |groups[j]|);
      }
      LegacySilhouetteIgnoresOwn(OwnMean(d1, self, rows, p), ms1, ms2, k);
    }
  }

  // ---------------------------------------------------------------------------
  // The first failing distance

  /** Index of the first pair whose distance throws. */
  function FirstFailing(pd: PartialDistance, ps: seq<(nat, nat)>): (r: Option<nat>)
    ensures r.None? <==> forall t :: 0 <= t < |ps| ==> pd(ps[t].0, ps[t].1).Ok?
    ensures r.Some? ==> r.value < |ps| && pd(ps[r.value].0, ps[r.value].1).Err?
    ensures r.Some? ==> forall t :: 0 <= t < r.value ==> pd(ps[t].0, ps[t].1).Ok?
  {
    if |ps| == 0 then None
    else if pd(ps[0].0, ps[0].1).Err? then Some(0)
    else
      match FirstFailing(pd, ps[1..])
      case None => None
      case Some(t) => Some(t + 1)
  }

  /** `value` when every distance of `ps` answers, else the exception of the first that
      throws. */
  function Checked<T>(pd: PartialDistance, ps: seq<(nat, nat)>, value: T): (r: Result<T, Error>)
    ensures r.Ok? <==> forall x :: x in ps ==> pd(x.0, x.1).Ok?
    ensures r.Ok? ==> r.value == value
    ensures r.Err? ==> exists t :: 0 <= t < |ps| && pd(ps[t].0, ps[t].1) == Err(r.error)
                                   && forall u :: 0 <= u < t ==> pd(ps[u].0, ps[u].1).Ok?
  {
    match FirstFailing(pd, ps)
    case None => Ok(value)
    case Some(t) => Err(pd(ps[t].0, ps[t].1).error)
  }

  // ---------------------------------------------------------------------------
  // The original node

  /** The original node takes member `p` of cluster `k` to be row `groups[k][p]`. */
  function OriginalRow(groups: seq<seq<nat>>): (nat, nat) -> nat
  {
    (k: nat, p: nat) => if k < |groups| && p < |groups[k]| then groups[k][p] else 0
  }

  /** The distances the original node computes on a table with labels `labels`. */
  function OriginalPairs(labels: seq<string>): seq<(nat, nat)>
  {
    var groups := MemberRows(GroupRuns(labels));
    TablePairs(groups, OriginalRow(groups), |groups|)
  }

  /** The original node's `execute` as written: the first distance that throws ends it;
      otherwise the coefficients are stored by position. */
  function OriginalExecute(pd: PartialDistance, labels: seq<string>): (r: Result<seq<Cluster>, Error>)
    ensures r.Ok? <==> forall x :: x in OriginalPairs(labels) ==> pd(x.0, x.1).Ok?
    ensures r.Err? ==> exists t :: 0 <= t < |OriginalPairs(labels)|
                         && pd(OriginalPairs(labels)[t].0, OriginalPairs(labels)[t].1) == Err(r.error)
    ensures r.Ok? ==> |r.value| == |GroupRuns(labels)|
  {
    Checked(pd, OriginalPairs(labels), OriginalCompute(Values(pd), labels))
  }

  /** The original node's `execute` with the write-back by row. */
  function OriginalExecuteFixed(pd: PartialDistance, labels: seq<string>): (r: Result<seq<Cluster>, Error>)
    ensures r.Ok? <==> forall x :: x in OriginalPairs(labels) ==> pd(x.0, x.1).Ok?
    ensures r.Err? ==> exists t :: 0 <= t < |OriginalPairs(labels)|
                         && pd(OriginalPairs(labels)[t].0, OriginalPairs(labels)[t].1) == Err(r.error)
    ensures r.Ok? ==> |r.value| == |GroupRuns(labels)|
  {
    Checked(pd, OriginalPairs(labels), OriginalComputeFixed(Values(pd), labels))
  }

  /** Distances that agree on the whole table agree on every member's pairs. */
  lemma TableAgreeAt(d1: (nat, nat) -> real, d2: (nat, nat) -> real, groups: seq<seq<nat>>, row: (nat, nat) -> nat, k: nat, p: nat)
    requires k < |groups| && p < |groups[k]|
    requires AgreeOn(d1, d2, TablePairs(groups, row, |groups|))
    ensures AgreeOn(d1, d2, MemberPairs(groups, k, p, row(k, p)))
  {
    TablePairsHas(groups, row, |groups|, k, p);
  }

  /** Under two distances that agree on the pairs the original node computes, it computes
      the same clusters. */
  lemma OriginalComputeAgree(d1: (nat, nat) -> real, d2: (nat, nat) -> real, labels: seq<string>)
    requires AgreeOn(d1, d2, OriginalPairs(labels))
    ensures OriginalCompute(d1, labels) == OriginalCompute(d2, labels)
    ensures OriginalComputeFixed(d1, labels) == OriginalComputeFixed(d2, labels)
  {
    var groups := MemberRows(GroupRuns(labels));
    var row := OriginalRow(groups);
    forall k | 0 <= k < |groups|
      ensures OriginalCoefficients(d1, groups, k) == OriginalCoefficients(d2, groups, k)
    {
      forall p | 0 <= p < |groups[k]|
        ensures OriginalCoefficients(d1, groups, k)[p] == OriginalCoefficients(d2, groups, k)[p]
      {
        TablePairsHas(groups, row, |groups|, k, p);
        assert row(k, p) == groups[k][p];
        CoefficientAgree(d1, d2, groups, k, p, groups[k][p], MembersMinusOne);
      }
    }
  }

  /** When every distance the original node computes answers with the value `d` gives,
      `execute` succeeds with the clusters computed from `d`. */
  lemma OriginalExecuteMeaning(pd: PartialDistance, d: (nat, nat) -> real, labels: seq<string>)
    requires forall x :: x in OriginalPairs(labels) ==> pd(x.0, x.1) == Ok(d(x.0, x.1))
    ensures OriginalExecute(pd, labels) == Ok(OriginalCompute(d, labels))
    ensures OriginalExecuteFixed(pd, labels) == Ok(OriginalComputeFixed(d, labels))
  {
    OriginalComputeAgree(Values(pd), d, labels);
  }

  // ---------------------------------------------------------------------------
  // The second node

  /** The second node takes member `p` of cluster `k` to be the row under its running
      iterator. */
  function SecondRow(bs: seq<Block<string>>): (nat, nat) -> nat
  {
    (k: nat, p: nat) => if k <= |bs| then IteratorRow(bs, k, p) else 0
  }

  /** The distances the second node computes for its clusters `bs`. */
  function SecondPairs(bs: seq<Block<string>>): seq<(nat, nat)>
  {
    var groups := MemberRows(bs);
    TablePairs(groups, SecondRow(bs), |groups|)
  }

  /** The second node's `execute` as written: a one-row table fails in the grouping, and
      otherwise the first distance that throws ends it. */
  function SecondExecute(pd: PartialDistance, labels: seq<string>): (r: Result<seq<Cluster>, Error>)
    ensures |labels| == 1 ==> r.Err?
    ensures |labels| != 1 ==>
      (r.Ok? <==> forall x :: x in SecondPairs(GroupChanges(labels).value) ==> pd(x.0, x.1).Ok?)
    ensures |labels| != 1 && r.Err? ==>
      var ps := SecondPairs(GroupChanges(labels).value);
      exists t :: 0 <= t < |ps| && pd(ps[t].0, ps[t].1) == Err(r.error)
  {
    var bs :- GroupChanges(labels);
    Checked(pd, SecondPairs(bs), SecondClusters(Values(pd), bs))
  }

  /** Under two distances that agree on the pairs the second node computes, it computes
      the same clusters. */
  lemma SecondClustersAgree(d1: (nat, nat) -> real, d2: (nat, nat) -> real, bs: seq<Block<string>>)
    requires AgreeOn(d1, d2, SecondPairs(bs))
    ensures SecondClusters(d1, bs) == SecondClusters(d2, bs)
  {
    var groups := MemberRows(bs);
    forall k | 0 <= k < |groups|
      ensures SecondCoefficients(d1, bs, groups, k) == SecondCoefficients(d2, bs, groups, k)
    {
      forall p | 0 <= p < |groups[k]|
        ensures SecondCoefficients(d1, bs, groups, k)[p] == SecondCoefficients(d2, bs, groups, k)[p]
      {
        TableAgreeAt(d1, d2, groups, SecondRow(bs), k, p);
        assert SecondRow(bs)(k, p) == IteratorRow(bs, k, p);
        SecondCoefficientAgreeAt(d1, d2, bs, groups, k, p);
      }
    }
  }

  lemma SecondCoefficientAgreeAt(d1: (nat, nat) -> real, d2: (nat, nat) -> real, bs: seq<Block<string>>,
                                 groups: seq<seq<nat>>, k: nat, p: nat)
    requires |groups| == |bs| && k < |groups| && p < |groups[k]|
    requires AgreeOn(d1, d2, MemberPairs(groups, k, p, IteratorRow(bs, k, p)))
    ensures SecondCoefficients(d1, bs, groups, k)[p] == SecondCoefficients(d2, bs, groups, k)[p]
  {
    CoefficientAgree(d1, d2, groups, k, p, IteratorRow(bs, k, p), MembersMinusOne);
  }

  /** When every distance the second node computes answers with the value `d` gives,
      `execute` agrees with the computation from `d`, the one-row failure included. */
  lemma SecondExecuteMeaning(pd: PartialDistance, d: (nat, nat) -> real, labels: seq<string>)
    requires |labels| != 1 ==>
      forall x :: x in SecondPairs(GroupChanges(labels).value) ==> pd(x.0, x.1) == Ok(d(x.0, x.1))
    ensures SecondExecute(pd, labels) == SecondCompute(d, labels)
  {
    if |labels| != 1 {
      SecondClustersAgree(Values(pd), d, GroupChanges(labels).value);
    }
  }

  // ---------------------------------------------------------------------------
  // The distance the older revisions use

  /** The distance between table rows `i` and `j`: the mixed Euclidean distance of their
      feature vectors `vecs[i]` and `vecs[j]`. */
  function RowDistance(lib: Library, m: SD.Method, vecs: seq<Features.FeatureVector>): PartialDistance
  {
    (i: nat, j: nat) =>
      if i < |vecs| && j < |vecs| then Distance.EuclideanDistance(lib, m, vecs[i], vecs[j])
      else Err(IndexOutOfBounds(if i < |vecs| then j else i))
  }

  /** Whether all rows of a table can be compared: equal dimension counts, and string
      lengths the method accepts. */
  ghost predicate Comparable(m: SD.Method, vecs: seq<Features.FeatureVector>)
  {
    forall i, j :: 0 <= i < |vecs| && 0 <= j < |vecs| ==>
      Distance.SameDimensions(vecs[i], vecs[j]) && Distance.StringsCompatible(m, vecs[i].strings, vecs[j].strings)
  }

  lemma {:induction false} OwnPairsWithin(self: nat, rows: seq<nat>, p: nat, n: nat, bound: nat)
    requires n <= |rows| && self < bound
    requires forall q :: 0 <= q < |rows| ==> rows[q] < bound
    ensures forall x :: x in OwnPairs(self, rows, p, n) ==> x.0 < bound && x.1 < bound
  {
    if n > 0 {
      OwnPairsWithin(self, rows, p, n - 1, bound);
    }
  }

  lemma {:induction false} OtherPairsWithin(groups: seq<seq<nat>>, k: nat, self: nat, n: nat, bound: nat)
    requires n <= |groups| && self < bound
    requires forall j, q :: 0 <= j < |groups| && 0 <= q < |groups[j]| ==> groups[j][q] < bound
    ensures forall x :: x in OtherPairs(groups, k, self, n) ==> x.0 < bound && x.1 < bound
  {
    if n > 0 {
      OtherPairsWithin(groups, k, self, n - 1, bound);
    }
  }

  lemma MemberPairsWithin(groups: seq<seq<nat>>, k: nat, p: nat, self: nat, bound: nat)
    requires k < |groups| && p < |groups[k]| && self < bound
    requires forall j, q :: 0 <= j < |groups| && 0 <= q < |groups[j]| ==> groups[j][q] < bound
    ensures forall x :: x in MemberPairs(groups, k, p, self) ==> x.0 < bound && x.1 < bound
  {
    if |groups[k]| != 1 {
      OwnPairsWithin(self, groups[k], p, |groups[k]|, bound);
      OtherPairsWithin(groups, k, self, |groups|, bound);
    }
  }

  lemma ClusterPairsWithin(groups: seq<seq<nat>>, row: (nat, nat) -> nat, k: nat, bound: nat)
    requires k < |groups|
    requires forall j, q :: 0 <= j < |groups| && 0 <= q < |groups[j]| ==> groups[j][q] < bound && row(j, q) < bound
    ensures forall x :: x in ClusterPairs(groups, row, k, |groups[k]|) ==> x.0 < bound && x.1 < bound
  {
    var part := MemberPart(groups, row, k);
    forall q, x | 0 <= q < |groups[k]| && x in part(q)
      ensures x.0 < bound && x.1 < bound
    {
      MemberPairsWithin(groups, k, q, row(k, q), bound);
    }
    ConcatWithin(part, |groups[k]|, bound);
  }

  lemma TablePairsWithin(groups: seq<seq<nat>>, row: (nat, nat) -> nat, bound: nat)
    requires forall j, q :: 0 <= j < |groups| && 0 <= q < |groups[j]| ==> groups[j][q] < bound && row(j, q) < bound
    ensures forall x :: x in TablePairs(groups, row, |groups|) ==> x.0 < bound && x.1 < bound
  {
    var part := ClusterPart(groups, row);
    forall k, x | 0 <= k < |groups| && x in part(k)
      ensures x.0 < bound && x.1 < bound
    {
      ClusterPairsWithin(groups, row, k, bound);
    }
    ConcatWithin(part, |groups|, bound);
  }

  /** The original node only compares rows of the table. */
  lemma OriginalComparesTableRows(labels: seq<string>)
    ensures forall x :: x in OriginalPairs(labels) ==> x.0 < |labels| && x.1 < |labels|
  {
    var bs := GroupRuns(labels);
    var groups := MemberRows(bs);
    RunsDecompose(labels, |labels|);
    assert ConsecutiveRuns(labels, |labels|, bs);
    forall j, q | 0 <= j < |groups| && 0 <= q < |groups[j]|
      ensures groups[j][q] < |labels|
    {
      assert groups[j] == bs[j].rows;
      assert bs[j].rows[q] == bs[j].rows[0] + q;
    }
    TablePairsWithin(groups, OriginalRow(groups), |labels|);
  }

  /** On a table whose rows can all be compared, the original node's `execute` succeeds. */
  lemma OriginalExecuteOnComparableRows(lib: Library, m: SD.Method, vecs: seq<Features.FeatureVector>, labels: seq<string>)
    requires |vecs| == |labels| && Comparable(m, vecs)
    ensures OriginalExecute(RowDistance(lib, m, vecs), labels).Ok?
    ensures OriginalExecuteFixed(RowDistance(lib, m, vecs), labels).Ok?
  {
    OriginalComparesTableRows(labels);
    var pd := RowDistance(lib, m, vecs);
    forall x | x in OriginalPairs(labels)
      ensures pd(x.0, x.1).Ok?
    {
      assert Distance.EuclideanDistance(lib, m, vecs[x.0], vecs[x.1]).Ok?;
    }
  }

  // ---------------------------------------------------------------------------
  // The distance read through the imported columns

  /** The original revision's distance between table rows `i` and `j`: both rows are read
      back out of the imported columns, row `i` first, and then compared. */
  function ColumnDistance(lib: Library, m: SD.Method, cols: seq<Option<InternalColumn.Column>>, labelCol: nat): PartialDistance
  {
    (i: nat, j: nat) => ColumnPair(lib, m, cols, labelCol, i, j)
  }

  function ColumnPair(lib: Library, m: SD.Method, cols: seq<Option<InternalColumn.Column>>, labelCol: nat,
                      i: nat, j: nat): Result<real, Error>
  {
    var a :- InternalColumn.ColumnVector(cols, labelCol, i, |cols|);
    var b :- InternalColumn.ColumnVector(cols, labelCol, j, |cols|);
    Distance.EuclideanDistance(lib, m, a, b)
  }

  /** Distances that answer alike on every pair fail first at the same pair. */
  lemma {:induction false} FirstFailingAgree(pd1: PartialDistance, pd2: PartialDistance, ps: seq<(nat, nat)>)
    requires forall x :: x in ps ==> pd1(x.0, x.1) == pd2(x.0, x.1)
    ensures FirstFailing(pd1, ps) == FirstFailing(pd2, ps)
  {
    if |ps| > 0 {
      assert ps[0] in ps;
      assert forall x :: x in ps[1..] ==> x in ps;
      FirstFailingAgree(pd1, pd2, ps[1..]);
    }
  }

  /** The original revision's execution depends only on the distances of the pairs it
      computes. */
  lemma OriginalExecuteDependsOnPairs(pd1: PartialDistance, pd2: PartialDistance, labels: seq<string>)
    requires forall x :: x in OriginalPairs(labels) ==> pd1(x.0, x.1) == pd2(x.0, x.1)
    ensures OriginalExecute(pd1, labels) == OriginalExecute(pd2, labels)
    ensures OriginalExecuteFixed(pd1, labels) == OriginalExecuteFixed(pd2, labels)
  {
    var ps := OriginalPairs(labels);
    FirstFailingAgree(pd1, pd2, ps);
    if FirstFailing(pd1, ps).None? {
      OriginalComputeAgree(Values(pd1), Values(pd2), labels);
    } else {
      var t := FirstFailing(pd1, ps).value;
      assert ps[t] in ps;
    }
  }

  /** On a table of one schema whose every column has a supported type, reading the rows
      back from the imported columns gives the distance between their feature vectors, so
      execution is the one over those vectors. */
  lemma ImportedExecute(lib: Library, m: SD.Method, rows: seq<seq<Features.Cell>>, kinds: seq<Features.Kind>,
                        labelCol: nat, labels: seq<string>)
    requires InternalColumn.OfKinds(rows, kinds) && |labels| == |rows|
    ensures InternalColumn.LoadTable(rows, InternalColumn.ColumnsFor(kinds)).Ok?
    ensures var cols := InternalColumn.LoadTable(rows, InternalColumn.ColumnsFor(kinds)).value;
            var vecs := seq(|rows|, r requires 0 <= r < |rows| => Features.ExtractAll(rows[r], labelCol));
            OriginalExecute(ColumnDistance(lib, m, cols, labelCol), labels) == OriginalExecute(RowDistance(lib, m, vecs), labels)
  {
    if |rows| > 0 {
      InternalColumn.ImportedRowVector(rows, kinds, labelCol, 0);
    }
    var cols := InternalColumn.LoadTable(rows, InternalColumn.ColumnsFor(kinds)).value;
    var vecs := seq(|rows|, r requires 0 <= r < |rows| => Features.ExtractAll(rows[r], labelCol));
    var pd1 := ColumnDistance(lib, m, cols, labelCol);
    var pd2 := RowDistance(lib, m, vecs);
    OriginalComparesTableRows(labels);
    forall x | x in OriginalPairs(labels)
      ensures pd1(x.0, x.1) == pd2(x.0, x.1)
    {
      ImportedPair(lib, m, rows, kinds, labelCol, x.0, x.1);
    }
    OriginalExecuteDependsOnPairs(pd1, pd2, labels);
  }

  /** One pair of table rows read back from the imported columns is at the distance of
      the rows' feature vectors. */
  lemma ImportedPair(lib: Library, m: SD.Method, rows: seq<seq<Features.Cell>>, kinds: seq<Features.Kind>,
                     labelCol: nat, i: nat, j: nat)
    requires InternalColumn.OfKinds(rows, kinds) && i < |rows| && j < |rows|
    ensures InternalColumn.LoadTable(rows, InternalColumn.ColumnsFor(kinds)).Ok?
    ensures ColumnDistance(lib, m, InternalColumn.LoadTable(rows, InternalColumn.ColumnsFor(kinds)).value, labelCol)(i, j)
              == Distance.EuclideanDistance(lib, m, Features.ExtractAll(rows[i], labelCol), Features.ExtractAll(rows[j], labelCol))
  {
    InternalColumn.ImportedRowVector(rows, kinds, labelCol, i);
    InternalColumn.ImportedRowVector(rows, kinds, labelCol, j);
    var cols := InternalColumn.LoadTable(rows, InternalColumn.ColumnsFor(kinds)).value;
    assert InternalColumn.ColumnVector(cols, labelCol, i, |cols|) == Ok(Features.ExtractAll(rows[i], labelCol));
    assert InternalColumn.ColumnVector(cols, labelCol, j, |cols|) == Ok(Features.ExtractAll(rows[j], labelCol));
    assert ColumnDistance(lib, m, cols, labelCol)(i, j) == ColumnPair(lib, m, cols, labelCol, i, j);
  }

  /** A column of an unsupported type is never set up, so as soon as some cluster has two
      members the first row read back dereferences it: execution fails with a null
      dereference. */
  lemma UnsetColumnThrows(lib: Library, m: SD.Method, cols: seq<Option<InternalColumn.Column>>, labelCol: nat,
                          labels: seq<string>, j: nat, k: nat)
    requires forall r :: 0 <= r < |labels| ==> InternalColumn.Readable(cols, r)
    requires j < |cols| && j != labelCol && cols[j].None?
    requires k < |GroupRuns(labels)| && |GroupRuns(labels)[k].rows| >= 2
    ensures OriginalExecute(ColumnDistance(lib, m, cols, labelCol), labels) == Err(NullReference)
    ensures OriginalExecuteFixed(ColumnDistance(lib, m, cols, labelCol), labels) == Err(NullReference)
  {
    var pd := ColumnDistance(lib, m, cols, labelCol);
    var ps := OriginalPairs(labels);
    var x := NonSingletonPair(labels, k);
    assert pd(x.0, x.1).Err?;
    OriginalComparesTableRows(labels);
    forall y | y in ps
      ensures pd(y.0, y.1) == Err(NullReference)
    {
      UnsetColumnRow(lib, m, cols, labelCol, j, y.0, y.1);
    }
  }

  /** Reading back any readable row through an unset column fails first, with a null
      dereference, whatever the second row. */
  lemma UnsetColumnRow(lib: Library, m: SD.Method, cols: seq<Option<InternalColumn.Column>>, labelCol: nat,
                       j: nat, r: nat, s: nat)
    requires InternalColumn.Readable(cols, r)
    requires j < |cols| && j != labelCol && cols[j].None?
    ensures ColumnDistance(lib, m, cols, labelCol)(r, s) == Err(NullReference)
  {
    InternalColumn.ColumnVectorFails(cols, labelCol, r, |cols|);
    assert 0 <= j < |cols| && j != labelCol && cols[j].None?;
    var a := InternalColumn.ColumnVector(cols, labelCol, r, |cols|);
    assert a.Err? && a.error == NullReference;
    assert ColumnDistance(lib, m, cols, labelCol)(r, s) == ColumnPair(lib, m, cols, labelCol, r, s);
  }

  /** A cluster of two or more members makes the original revision compute some pair. */
  lemma NonSingletonPair(labels: seq<string>, k: nat) returns (x: (nat, nat))
    requires k < |GroupRuns(labels)| && |GroupRuns(labels)[k].rows| >= 2
    ensures x in OriginalPairs(labels)
  {
    var groups := MemberRows(GroupRuns(labels));
    var rows := groups[k];
    var self := OriginalRow(groups)(k, 0);
    TablePairsHas(groups, OriginalRow(groups), |groups|, k, 0);
    OwnPairsHas(self, rows, 0, |rows|, 1);
    x := (self, rows[1]);
    assert x in MemberPairs(groups, k, 0, self);
  }

  /** Two rows with the same label form one run... */
  lemma SameLabelOneRun()
    ensures GroupRuns(["A", "A"]) == [Block("A", PaletteColor(0), [0, 1])]
  {
    var labels := ["A", "A"];
    var one := Runs(labels, 1);
    assert one == [Block("A", PaletteColor(0), [0])];
    assert labels[1] == labels[0];
    assert one[0].rows + [1] == [0, 1];
  }

  /** ...whose two members are compared with each other, first row 0 with row 1. */
  lemma SameLabelPairs()
    ensures OriginalPairs(["A", "A"]) == [(0, 1), (1, 0)]
  {
    SameLabelOneRun();
    var groups := MemberRows(GroupRuns(["A", "A"]));
    assert groups == [[0, 1]];
    var row := OriginalRow(groups);
    assert row(0, 0) == 0 && row(0, 1) == 1;
    assert OtherPairs(groups, 0, 0, 1) == [] && OtherPairs(groups, 0, 1, 1) == [];
    assert OwnPairs(0, [0, 1], 0, 2) == [(0, 1)];
    assert OwnPairs(1, [0, 1], 1, 2) == [(1, 0)];
    assert ClusterPairs(groups, row, 0, 2) == [(0, 1), (1, 0)];
  }

  /** Under Hamming distance a cluster of two rows whose strings differ in length ends the
      execution with the library's exception, before any coefficient is stored. */
  lemma OriginalExecuteHammingThrows(lib: Library)
    ensures var vecs := [Features.FeatureVector(["a"], [], []), Features.FeatureVector(["ab"], [], [])];
            OriginalExecute(RowDistance(lib, SD.Hamming, vecs), ["A", "A"]) == Err(HammingLengthMismatch(1, 2))
  {
    var vecs := [Features.FeatureVector(["a"], [], []), Features.FeatureVector(["ab"], [], [])];
    var pd := RowDistance(lib, SD.Hamming, vecs);
    SameLabelPairs();
    assert "ab"[..1] == "a" && "ab"[..1][..0] == "" && "a"[..0] == "";
    assert SD.Utf16Length("ab") == 2;
    assert pd(0, 1) == Err(HammingLengthMismatch(1, 2));
    assert FirstFailing(pd, [(0, 1), (1, 0)]) == Some(0);
  }
}
