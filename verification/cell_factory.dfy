/** `SilhouetteCellFactory`: fills the appended coefficient column one row at a time by
    walking a cursor through the clusters' coefficient arrays in order. */
module CellFactory {
  import opened Wrappers
  import opened InternalCluster
  import opened SilhouetteModel

  /** Which cluster and which member the next cell is read from. */
  datatype Cursor = Cursor(clusterIndex: nat, rowIndex: nat)

  /** `getCell`: the coefficient under the cursor and the advanced cursor. Reading past the
      data gives a missing cell (`None`) and leaves the cursor where it was. */
  function GetCell(cs: seq<Cluster>, cur: Cursor): (Option<real>, Cursor)
  {
    if cur.clusterIndex < |cs| && cur.rowIndex < |cs[cur.clusterIndex].coefficients| then
      var value := cs[cur.clusterIndex].coefficients[cur.rowIndex];
      var next := cur.rowIndex + 1;
      if next >= |cs[cur.clusterIndex].coefficients| then (Some(value), Cursor(cur.clusterIndex + 1, 0))
      else (Some(value), Cursor(cur.clusterIndex, next))
    else (None, cur)
  }

  /** Number of leading clusters that have at least one coefficient. The cursor can never
      get past a cluster without coefficients. */
  function ReachableClusters(cs: seq<Cluster>): (m: nat)
    ensures m <= |cs|
    ensures forall k :: 0 <= k < m ==> |cs[k].coefficients| > 0
    ensures m < |cs| ==> |cs[m].coefficients| == 0
  {
    if |cs| == 0 || |cs[0].coefficients| == 0 then 0 else 1 + ReachableClusters(cs[1..])
  }

  /** The coefficients the cursor can reach, in the order it reads them. */
  function Reachable(cs: seq<Cluster>): seq<real>
  {
    AllCoefficients(cs[..ReachableClusters(cs)])
  }

  /** What the column holds at row `j`: the `j`-th reachable coefficient, or a missing cell. */
  function CellAt(cs: seq<Cluster>, j: nat): Option<real>
  {
    if j < |Reachable(cs)| then Some(Reachable(cs)[j]) else None
  }

  /** Calling `getCell` once per output row. The `j`-th cell is the `j`-th coefficient in
      cluster order; once the reachable coefficients are used up every further cell is
      missing. */
  method FillColumn(cs: seq<Cluster>, rows: nat) returns (cells: seq<Option<real>>)
    ensures |cells| == rows
    ensures forall j :: 0 <= j < rows ==> cells[j] == CellAt(cs, j)
  {
    var m := ReachableClusters(cs);
    ghost var flat := Reachable(cs);
    var cur := Cursor(0, 0);
    cells := [];
    var k := 0;
    while k < rows
      invariant 0 <= k <= rows && |cells| == k
      invariant cur.clusterIndex <= m
      invariant cur.clusterIndex < m ==> cur.rowIndex < |cs[cur.clusterIndex].coefficients|
      invariant cur.clusterIndex == m ==> cur.rowIndex == 0
      invariant |Prefix(cs, cur.clusterIndex)| + cur.rowIndex == if k < |flat| then k else |flat|
      invariant forall j :: 0 <= j < k ==> cells[j] == CellAt(cs, j)
    {
      ghost var pos := |Prefix(cs, cur.clusterIndex)| + cur.rowIndex;
      if cur.clusterIndex < m {
        CellUnderCursor(cs, cur.clusterIndex, cur.rowIndex);
      } else {
        PrefixLength(cs, m);
      }
      var (cell, next) := GetCell(cs, cur);
      if cur.clusterIndex < m && cur.rowIndex + 1 >= |cs[cur.clusterIndex].coefficients| {
        PrefixStep(cs, cur.clusterIndex);
      }
      cells := cells + [cell];
      cur := next;
      k := k + 1;
    }
  }

  /** Coefficients of the first `c` clusters. */
  function Prefix(cs: seq<Cluster>, c: nat): seq<real>
    requires c <= |cs|
  {
    AllCoefficients(cs[..c])
  }

  lemma PrefixStep(cs: seq<Cluster>, c: nat)
    requires c < |cs|
    ensures Prefix(cs, c + 1) == Prefix(cs, c) + cs[c].coefficients
  {
    var xs := seq(c + 1, k requires 0 <= k < c + 1 => cs[..c + 1][k].coefficients);
    assert xs[..c] == seq(c, k requires 0 <= k < c => cs[..c][k].coefficients);
    assert xs[c] == cs[c].coefficients;
  }

  /** Every earlier prefix is a prefix of a later one. */
  lemma {:induction false} PrefixGrows(cs: seq<Cluster>, c: nat, d: nat)
    requires c <= d <= |cs|
    ensures |Prefix(cs, c)| <= |Prefix(cs, d)|
    ensures Prefix(cs, d)[..|Prefix(cs, c)|] == Prefix(cs, c)
    decreases d - c
  {
    if c < d {
      PrefixGrows(cs, c, d - 1);
      PrefixStep(cs, d - 1);
    }
  }

  lemma PrefixLength(cs: seq<Cluster>, m: nat)
    requires m == ReachableClusters(cs)
    ensures Prefix(cs, m) == Reachable(cs)
  {
  }

  /** The cursor at cluster `c`, member `r` reads the reachable coefficient at the position
      equal to the number of coefficients before it. */
  lemma CellUnderCursor(cs: seq<Cluster>, c: nat, r: nat)
    requires c < ReachableClusters(cs) && r < |cs[c].coefficients|
    ensures |Prefix(cs, c)| + r < |Reachable(cs)|
    ensures Reachable(cs)[|Prefix(cs, c)| + r] == cs[c].coefficients[r]
  {
    var m := ReachableClusters(cs);
    PrefixStep(cs, c);
    PrefixGrows(cs, c + 1, m);
    var p := Prefix(cs, c + 1);
    assert p[|Prefix(cs, c)| + r] == cs[c].coefficients[r];
    assert Reachable(cs)[..|p|] == p;
  }

  /** With every cluster non-empty, the column lists all coefficients in cluster order and
      one per member row, followed by missing cells. */
  lemma CellsCoverAllCoefficients(cs: seq<Cluster>, j: nat)
    requires forall k :: 0 <= k < |cs| ==> |cs[k].coefficients| > 0
    ensures CellAt(cs, j) == if j < |AllCoefficients(cs)| then Some(AllCoefficients(cs)[j]) else None
  {
    NoEmptyClusterReachesAll(cs);
    assert cs[..|cs|] == cs;
  }

  lemma {:induction false} NoEmptyClusterReachesAll(cs: seq<Cluster>)
    requires forall k :: 0 <= k < |cs| ==> |cs[k].coefficients| > 0
    ensures ReachableClusters(cs) == |cs|
  {
    if |cs| > 0 {
      NoEmptyClusterReachesAll(cs[1..]);
    }
  }
}
