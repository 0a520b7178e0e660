/** Turning the label column into clusters. Three variants exist side by side:
    the current node groups by first-seen label over the whole table, the original
    node groups runs of equal adjacent labels, and the second node (which sorts the
    table by label first) scans for label changes with the defects recorded in the
    findings. Every variant yields a sequence of `Block`s: a cluster name, its display
    colour and the rows it holds. */
module Grouping {
  import opened Wrappers
  import opened Errors
  import opened InternalCluster

  /** The 20-entry display palette, used cyclically by cluster ordinal. */
  const Palette: seq<Rgb> := [
    0xFFC917, 0xFF411A, 0x9901FF, 0x0DA9FF, 0x00FF12,
    0xFF8517, 0xFF1ABA, 0x011BFF, 0x0DFFAB, 0xD0FF00,
    0x962808, 0x6C08A1, 0x00578A, 0x08A10D, 0x967B00,
    0xFF9E7D, 0xC572E8, 0x8ACFFF, 0x72E87C, 0xFFEC8A]

  /** Colour of the cluster with ordinal `c`: the palette repeats with period 20. */
  function PaletteColor(c: nat): Rgb
  {
    Palette[c % |Palette|]
  }

  datatype Block<L> = Block(name: L, color: Rgb, rows: seq<nat>)

  /** The clusters a grouping hands to the result model: every member carries the
      cluster's colour and a coefficient of 0.0. */
  function ToClusters(bs: seq<Block<string>>): (cs: seq<Cluster>)
    ensures |cs| == |bs|
    ensures forall k :: 0 <= k < |bs| ==>
              && Parallel(cs[k])
              && GetName(cs[k]) == bs[k].name
              && cs[k].dataIndices == bs[k].rows
              && (|bs[k].rows| > 0 ==> GetColor(cs[k]) == Some(bs[k].color))
  {
    seq(|bs|, k requires 0 <= k < |bs| => BlockCluster(bs[k]))
  }

  function BlockCluster(b: Block<string>): (c: Cluster)
    ensures Parallel(c) && GetName(c) == b.name && c.dataIndices == b.rows
    ensures |b.rows| > 0 ==> GetColor(c) == Some(b.color)
  {
    var c := Named(b.name, seq(|b.rows|, _ => b.color), b.rows);
    if |b.rows| > 0 then
      assert c.colors[0] == b.color;
      c
    else c
  }

  // ---------------------------------------------------------------------------
  // Current node: first-seen grouping over the whole table

  /** The rows below `n` whose label is `x`, in increasing order. */
  function RowsWithLabel<L(==)>(labels: seq<L>, x: L, n: nat): (rows: seq<nat>)
    requires n <= |labels|
    ensures forall p :: 0 <= p < |rows| ==> rows[p] < n && labels[rows[p]] == x

  {
    if n == 0 then []
    else RowsWithLabel(labels, x, n - 1) + (if labels[n - 1] == x then [n - 1] else [])
  }

  lemma RowsWithLabelStep<L>(labels: seq<L>, x: L, n: nat)
    requires 0 < n <= |labels|
    ensures labels[n - 1] == x ==> RowsWithLabel(labels, x, n) == RowsWithLabel(labels, x, n - 1) + [n - 1]
    ensures labels[n - 1] != x ==> RowsWithLabel(labels, x, n) == RowsWithLabel(labels, x, n - 1)
  {
  }

  /** The rows of a label are listed in increasing order. */
  lemma {:induction false} RowsWithLabelIncreasing<L>(labels: seq<L>, x: L, n: nat)
    requires n <= |labels|
    ensures var rows := RowsWithLabel(labels, x, n);
            forall p, q :: 0 <= p < q < |rows| ==> rows[p] < rows[q]
  {
    if n > 0 {
      RowsWithLabelIncreasing(labels, x, n - 1);
      RowsWithLabelStep(labels, x, n);
    }
  }

  lemma {:induction false} RowsWithLabelComplete<L>(labels: seq<L>, x: L, n: nat, i: nat)
    requires i < n <= |labels| && labels[i] == x
    ensures i in RowsWithLabel(labels, x, n)
  {
    if i < n - 1 {
      RowsWithLabelComplete(labels, x, n - 1, i);
    }
  }

  /** Index of the first block named `x`, comparing names by value. */
  function FindBlock<L(==)>(bs: seq<Block<L>>, x: L): (r: Option<nat>)
    ensures r.Some? ==> r.value < |bs| && bs[r.value].name == x
    ensures r.None? ==> forall k :: 0 <= k < |bs| ==> bs[k].name != x
  {
    if |bs| == 0 then None
    else if bs[0].name == x then Some(0)
    else match FindBlock(bs[1..], x)
      case None => None
      case Some(k) => Some(k + 1)
  }

  ghost predicate DistinctNames<L>(bs: seq<Block<L>>)
  {
    forall k, l :: 0 <= k < l < |bs| ==> bs[k].name != bs[l].name
  }

  /** Each cluster holds exactly the rows below `n` that carry its name. */
  ghost predicate RowsMatchNames<L>(labels: seq<L>, n: nat, bs: seq<Block<L>>)
    requires n <= |labels|
  {
    forall k :: 0 <= k < |bs| ==> bs[k].rows == RowsWithLabel(labels, bs[k].name, n)
  }

  /** Each cluster is non-empty and coloured like its first row. */
  ghost predicate ColoredByFirstRow<L>(rowColors: seq<Rgb>, bs: seq<Block<L>>)
  {
    forall k :: 0 <= k < |bs| ==>
      |bs[k].rows| > 0 && bs[k].rows[0] < |rowColors| && bs[k].color == rowColors[bs[k].rows[0]]
  }

  /** Clusters appear in the order their first rows appear. */
  ghost predicate FirstSeenOrder<L>(bs: seq<Block<L>>)
  {
    forall k, l :: 0 <= k < l < |bs| && |bs[k].rows| > 0 && |bs[l].rows| > 0 ==> bs[k].rows[0] < bs[l].rows[0]
  }

  /** Every row below `n` carries the name of some cluster. */
  ghost predicate CoversRows<L>(labels: seq<L>, n: nat, bs: seq<Block<L>>)
    requires n <= |labels|
  {
    forall i :: 0 <= i < n ==> exists k :: 0 <= k < |bs| && bs[k].name == labels[i]
  }

  /** `bs` groups rows `0..n` by label: names are distinct, each cluster holds exactly the
      rows carrying its name, is coloured like its first row, clusters appear in the order
      their labels are first seen, and every row's label names a cluster. */
  ghost predicate GroupsByLabel<L>(labels: seq<L>, rowColors: seq<Rgb>, n: nat, bs: seq<Block<L>>)
    requires n <= |labels|
  {
    && DistinctNames(bs)
    && RowsMatchNames(labels, n, bs)
    && ColoredByFirstRow(rowColors, bs)
    && FirstSeenOrder(bs)
    && CoversRows(labels, n, bs)
  }

  /** The grouping of rows `0..n`: a row whose label names an existing cluster joins it,
      any other row opens a new cluster coloured like that row. */
  function FirstSeen<L(==)>(labels: seq<L>, rowColors: seq<Rgb>, n: nat): seq<Block<L>>
    requires |rowColors| == |labels| && n <= |labels|
  {
    if n == 0 then []
    else
      var bs := FirstSeen(labels, rowColors, n - 1);
      var x := labels[n - 1];
      match FindBlock(bs, x)
      case Some(k) => bs[k := bs[k].(rows := bs[k].rows + [n - 1])]
      case None => bs + [Block(x, rowColors[n - 1], [n - 1])]
  }

  lemma {:induction false} FirstSeenGroupsByLabel<L>(labels: seq<L>, rowColors: seq<Rgb>, n: nat)
    requires |rowColors| == |labels| && n <= |labels|
    ensures GroupsByLabel(labels, rowColors, n, FirstSeen(labels, rowColors, n))
  {
    if n > 0 {
      var bs := FirstSeen(labels, rowColors, n - 1);
      FirstSeenGroupsByLabel(labels, rowColors, n - 1);
      match FindBlock(bs, labels[n - 1])
      case Some(k) => JoinKeepsGrouping(labels, rowColors, n, bs, k);
      case None => OpenKeepsGrouping(labels, rowColors, n, bs);
    }
  }

  lemma JoinKeepsGrouping<L>(labels: seq<L>, rowColors: seq<Rgb>, n: nat, bs: seq<Block<L>>, k: nat)
    requires |rowColors| == |labels| && 0 < n <= |labels|
    requires GroupsByLabel(labels, rowColors, n - 1, bs)
    requires k < |bs| && bs[k].name == labels[n - 1]
    ensures GroupsByLabel(labels, rowColors, n, bs[k := bs[k].(rows := bs[k].rows + [n - 1])])
  {
    var bs' := bs[k := bs[k].(rows := bs[k].rows + [n - 1])];
    JoinRowsMatch(labels, n, bs, k);
    JoinColored(rowColors, bs, k, n - 1);
    JoinOrder(bs, k, n - 1);
    JoinDistinct(bs, k, n - 1);
    JoinCovers(labels, n, bs, k);
  }

  lemma JoinRowsMatch<L>(labels: seq<L>, n: nat, bs: seq<Block<L>>, k: nat)
    requires 0 < n <= |labels| && k < |bs| && bs[k].name == labels[n - 1]
    requires RowsMatchNames(labels, n - 1, bs) && DistinctNames(bs)
    ensures RowsMatchNames(labels, n, bs[k := bs[k].(rows := bs[k].rows + [n - 1])])
  {
    var bs' := bs[k := bs[k].(rows := bs[k].rows + [n - 1])];
    forall l | 0 <= l < |bs'|
      ensures bs'[l].rows == RowsWithLabel(labels, bs'[l].name, n)
    {
      RowsWithLabelStep(labels, bs[l].name, n);
      if l < k {
        assert bs[l].name != bs[k].name;
      } else if k < l {
        assert bs[k].name != bs[l].name;
      }
    }
  }

  lemma JoinColored<L>(rowColors: seq<Rgb>, bs: seq<Block<L>>, k: nat, i: nat)
    requires k < |bs| && ColoredByFirstRow(rowColors, bs)
    ensures ColoredByFirstRow(rowColors, bs[k := bs[k].(rows := bs[k].rows + [i])])
  {
    var bs' := bs[k := bs[k].(rows := bs[k].rows + [i])];
    assert bs'[k].rows[0] == bs[k].rows[0];
  }

  lemma JoinOrder<L>(bs: seq<Block<L>>, k: nat, i: nat)
    requires k < |bs| && FirstSeenOrder(bs) && |bs[k].rows| > 0
    ensures FirstSeenOrder(bs[k := bs[k].(rows := bs[k].rows + [i])])
  {
    var bs' := bs[k := bs[k].(rows := bs[k].rows + [i])];
    assert bs'[k].rows[0] == bs[k].rows[0];
  }

  lemma JoinDistinct<L>(bs: seq<Block<L>>, k: nat, i: nat)
    requires k < |bs| && DistinctNames(bs)
    ensures DistinctNames(bs[k := bs[k].(rows := bs[k].rows + [i])])
  {
  }

  lemma JoinCovers<L>(labels: seq<L>, n: nat, bs: seq<Block<L>>, k: nat)
    requires 0 < n <= |labels| && k < |bs| && bs[k].name == labels[n - 1]
    requires CoversRows(labels, n - 1, bs)
    ensures CoversRows(labels, n, bs[k := bs[k].(rows := bs[k].rows + [n - 1])])
  {
    var bs' := bs[k := bs[k].(rows := bs[k].rows + [n - 1])];
    forall i | 0 <= i < n
      ensures exists l :: 0 <= l < |bs'| && bs'[l].name == labels[i]
    {
      if i < n - 1 {
        var l :| 0 <= l < |bs| && bs[l].name == labels[i];
        assert bs'[l].name == labels[i];
      } else {
        assert bs'[k].name == labels[i];
      }
    }
  }

  lemma {:induction false} OpenKeepsGrouping<L>(labels: seq<L>, rowColors: seq<Rgb>, n: nat, bs: seq<Block<L>>)
    requires |rowColors| == |labels| && 0 < n <= |labels|
    requires GroupsByLabel(labels, rowColors, n - 1, bs)
    requires forall k :: 0 <= k < |bs| ==> bs[k].name != labels[n - 1]
    ensures GroupsByLabel(labels, rowColors, n, bs + [Block(labels[n - 1], rowColors[n - 1], [n - 1])])
  {
    var b := Block(labels[n - 1], rowColors[n - 1], [n - 1]);
    OpenRowsMatch(labels, n, bs, b);
    OpenOrder(labels, n, bs, b);
    OpenCovers(labels, n, bs, b);
    assert ColoredByFirstRow(rowColors, bs + [b]) by {
      forall k | 0 <= k < |bs| + 1
        ensures var c := (bs + [b])[k]; |c.rows| > 0 && c.rows[0] < |rowColors| && c.color == rowColors[c.rows[0]]
      {
        if k < |bs| {
          assert (bs + [b])[k] == bs[k];
        }
      }
    }
  }

  lemma {:induction false} OpenRowsMatch<L>(labels: seq<L>, n: nat, bs: seq<Block<L>>, b: Block<L>)
    requires 0 < n <= |labels| && b == Block(b.name, b.color, [n - 1]) && b.name == labels[n - 1]
    requires RowsMatchNames(labels, n - 1, bs) && CoversRows(labels, n - 1, bs)
    requires forall k :: 0 <= k < |bs| ==> bs[k].name != labels[n - 1]
    ensures RowsMatchNames(labels, n, bs + [b])
  {
    var x := labels[n - 1];
    AbsentLabelHasNoRows(labels, x, n - 1, bs);
    RowsWithLabelStep(labels, x, n);
    forall l | 0 <= l < |bs|
      ensures (bs + [b])[l].rows == RowsWithLabel(labels, (bs + [b])[l].name, n)
    {
      RowsWithLabelStep(labels, bs[l].name, n);
    }
  }

  lemma {:induction false} AbsentLabelHasNoRows<L>(labels: seq<L>, x: L, m: nat, bs: seq<Block<L>>)
    requires m <= |labels| && CoversRows(labels, m, bs)
    requires forall k :: 0 <= k < |bs| ==> bs[k].name != x
    ensures RowsWithLabel(labels, x, m) == []
  {
    forall i | 0 <= i < m
      ensures labels[i] != x
    {
      var k :| 0 <= k < |bs| && bs[k].name == labels[i];
    }
    UnusedLabelHasNoRows(labels, x, m);
  }

  lemma {:induction false} UnusedLabelHasNoRows<L>(labels: seq<L>, x: L, m: nat)
    requires m <= |labels|
    requires forall i :: 0 <= i < m ==> labels[i] != x
    ensures RowsWithLabel(labels, x, m) == []
  {
    if m > 0 {
      UnusedLabelHasNoRows(labels, x, m - 1);
    }
  }

  lemma {:induction false} OpenOrder<L>(labels: seq<L>, n: nat, bs: seq<Block<L>>, b: Block<L>)
    requires 0 < n <= |labels| && b.rows == [n - 1]
    requires RowsMatchNames(labels, n - 1, bs) && FirstSeenOrder(bs)
    ensures FirstSeenOrder(bs + [b])
  {
    forall k | 0 <= k < |bs| && |bs[k].rows| > 0
      ensures bs[k].rows[0] < n - 1
    {
      assert bs[k].rows == RowsWithLabel(labels, bs[k].name, n - 1);
    }
  }

  lemma {:induction false} OpenCovers<L>(labels: seq<L>, n: nat, bs: seq<Block<L>>, b: Block<L>)
    requires 0 < n <= |labels| && b.name == labels[n - 1]
    requires CoversRows(labels, n - 1, bs)
    requires forall k :: 0 <= k < |bs| ==> bs[k].name != labels[n - 1]
    ensures CoversRows(labels, n, bs + [b])
    ensures DistinctNames(bs) ==> DistinctNames(bs + [b])
  {
    var bs' := bs + [b];
    forall i | 0 <= i < n
      ensures exists l :: 0 <= l < |bs'| && bs'[l].name == labels[i]
    {
      if i < n - 1 {
        var l :| 0 <= l < |bs| && bs[l].name == labels[i];
        assert bs'[l].name == labels[i];
      } else {
        assert bs'[|bs|].name == labels[i];
      }
    }
  }

  /** The current node's grouping of the whole table. */
  function GroupByLabel<L(==)>(labels: seq<L>, rowColors: seq<Rgb>): seq<Block<L>>
    requires |rowColors| == |labels|
  {
    FirstSeen(labels, rowColors, |labels|)
  }

  /** The first-seen grouping is a partition of the rows by label: row `i` belongs to
      cluster `k` exactly when its label is that cluster's name, and every row belongs
      to some cluster. */
  lemma {:induction false} GroupByLabelPartition<L>(labels: seq<L>, rowColors: seq<Rgb>)
    requires |rowColors| == |labels|
    ensures GroupsByLabel(labels, rowColors, |labels|, GroupByLabel(labels, rowColors))
    ensures var bs := GroupByLabel(labels, rowColors);
            && (forall k, i: nat :: 0 <= k < |bs| ==> (i in bs[k].rows <==> i < |labels| && labels[i] == bs[k].name))
            && (forall i :: 0 <= i < |labels| ==>
                  FindBlock(bs, labels[i]).Some? && i in bs[FindBlock(bs, labels[i]).value].rows)
  {
    var bs := GroupByLabel(labels, rowColors);
    FirstSeenGroupsByLabel(labels, rowColors, |labels|);
    forall k, i: nat | 0 <= k < |bs|
      ensures i in bs[k].rows <==> i < |labels| && labels[i] == bs[k].name
    {
      var rows := RowsWithLabel(labels, bs[k].name, |labels|);
      assert bs[k].rows == rows;
      if i < |labels| && labels[i] == bs[k].name {
        RowsWithLabelComplete(labels, bs[k].name, |labels|, i);
      }
    }
    GroupByLabelCovers(labels, rowColors);
  }

  /** Every row belongs to the cluster named by its label. */
  lemma GroupByLabelCovers<L>(labels: seq<L>, rowColors: seq<Rgb>)
    requires |rowColors| == |labels|
    ensures var bs := GroupByLabel(labels, rowColors);
            forall i :: 0 <= i < |labels| ==>
              FindBlock(bs, labels[i]).Some? && i in bs[FindBlock(bs, labels[i]).value].rows
  {
    var bs := GroupByLabel(labels, rowColors);
    FirstSeenGroupsByLabel(labels, rowColors, |labels|);
    forall i | 0 <= i < |labels|
      ensures FindBlock(bs, labels[i]).Some? && i in bs[FindBlock(bs, labels[i]).value].rows
    {
      var k :| 0 <= k < |bs| && bs[k].name == labels[i];
      var f := FindBlock(bs, labels[i]);
      assert bs[f.value].rows == RowsWithLabel(labels, bs[f.value].name, |labels|);
      RowsWithLabelComplete(labels, bs[f.value].name, |labels|, i);
    }
  }

  // ---------------------------------------------------------------------------
  // Original node: runs of equal adjacent labels

  /** Every cluster is non-empty and the `k`-th takes the `k`-th palette colour. */
  ghost predicate PaletteColored<L>(bs: seq<Block<L>>)
  {
    forall k :: 0 <= k < |bs| ==> |bs[k].rows| > 0 && bs[k].color == PaletteColor(k)
  }

  /** Every cluster holds consecutive rows below `n`, all carrying the cluster's name. */
  ghost predicate ConsecutiveRuns<L>(labels: seq<L>, n: nat, bs: seq<Block<L>>)
    requires n <= |labels|
  {
    forall k, p :: 0 <= k < |bs| && 0 <= p < |bs[k].rows| ==>
      bs[k].rows[p] == bs[k].rows[0] + p && bs[k].rows[p] < n && labels[bs[k].rows[p]] == bs[k].name
  }

  /** The clusters, taken in order, cover rows `0..n` end to end. */
  ghost predicate TilesRows<L>(n: nat, bs: seq<Block<L>>)
  {
    && (|bs| == 0 <==> n == 0)
    && (forall k :: 0 <= k < |bs| ==> |bs[k].rows| > 0)
    && (|bs| > 0 ==> bs[0].rows[0] == 0 && bs[|bs| - 1].rows[0] + |bs[|bs| - 1].rows| == n)
    && (forall k :: 0 <= k < |bs| - 1 ==> bs[k + 1].rows[0] == bs[k].rows[0] + |bs[k].rows|)
  }

  /** Neighbouring clusters have different names, so no run could be longer. */
  ghost predicate MaximalRuns<L>(bs: seq<Block<L>>)
  {
    forall k :: 0 <= k < |bs| - 1 ==> bs[k].name != bs[k + 1].name
  }

  ghost predicate RunDecomposition<L>(labels: seq<L>, n: nat, bs: seq<Block<L>>)
    requires n <= |labels|
  {
    PaletteColored(bs) && ConsecutiveRuns(labels, n, bs) && TilesRows(n, bs) && MaximalRuns(bs)
  }

  /** The runs of equal labels among rows `0..n`: a row whose label differs from the
      previous row's opens a cluster with the next palette colour, any other row extends
      the last cluster. */
  function Runs<L(==)>(labels: seq<L>, n: nat): (bs: seq<Block<L>>)
    requires n <= |labels|
    ensures |bs| == 0 <==> n == 0
  {
    if n == 0 then []
    else
      var bs := Runs(labels, n - 1);
      if n == 1 || labels[n - 1] != labels[n - 2] then
        bs + [Block(labels[n - 1], PaletteColor(|bs|), [n - 1])]
      else
        var last := bs[|bs| - 1];
        bs[|bs| - 1 := last.(rows := last.rows + [n - 1])]
  }

  /** The run grouping cuts rows `0..n` into maximal runs of equal labels, coloured from
      the palette in order. */
  lemma {:induction false} RunsDecompose<L>(labels: seq<L>, n: nat)
    requires n <= |labels|
    ensures RunDecomposition(labels, n, Runs(labels, n))
  {
    if n > 0 {
      var bs := Runs(labels, n - 1);
      RunsDecompose(labels, n - 1);
      if n == 1 || labels[n - 1] != labels[n - 2] {
        OpenRunKeepsDecomposition(labels, n, bs);
      } else {
        ExtendRunKeepsDecomposition(labels, n, bs);
      }
    }
  }

  /** The last cluster of a decomposition ends at row `n - 1`. */
  lemma LastRunEnds<L>(labels: seq<L>, n: nat, bs: seq<Block<L>>)
    requires 0 < n <= |labels| && RunDecomposition(labels, n, bs)
    ensures |bs| > 0
    ensures var last := bs[|bs| - 1];
            last.rows[|last.rows| - 1] == n - 1 && last.name == labels[n - 1]
  {
    var last := bs[|bs| - 1];
    assert last.rows[|last.rows| - 1] == last.rows[0] + |last.rows| - 1;
  }

  lemma {:induction false} OpenRunKeepsDecomposition<L>(labels: seq<L>, n: nat, bs: seq<Block<L>>)
    requires 0 < n <= |labels| && RunDecomposition(labels, n - 1, bs)
    requires n == 1 || labels[n - 1] != labels[n - 2]
    ensures RunDecomposition(labels, n, bs + [Block(labels[n - 1], PaletteColor(|bs|), [n - 1])])
  {
    var b := Block(labels[n - 1], PaletteColor(|bs|), [n - 1]);
    if n > 1 {
      LastRunEnds(labels, n - 1, bs);
    }
    AppendColored(bs, b);
    AppendConsecutive(labels, n, bs, b);
    AppendTiles(n, bs, b);
    AppendMaximal(bs, b);
  }

  lemma AppendColored<L>(bs: seq<Block<L>>, b: Block<L>)
    requires PaletteColored(bs) && |b.rows| > 0 && b.color == PaletteColor(|bs|)
    ensures PaletteColored(bs + [b])
  {
    forall k | 0 <= k < |bs| + 1
      ensures |(bs + [b])[k].rows| > 0 && (bs + [b])[k].color == PaletteColor(k)
    {
      if k < |bs| { assert (bs + [b])[k] == bs[k]; }
    }
  }

  lemma AppendConsecutive<L>(labels: seq<L>, n: nat, bs: seq<Block<L>>, b: Block<L>)
    requires 0 < n <= |labels| && ConsecutiveRuns(labels, n - 1, bs)
    requires b.rows == [n - 1] && b.name == labels[n - 1]
    ensures ConsecutiveRuns(labels, n, bs + [b])
  {
    var bs' := bs + [b];
    forall k, p | 0 <= k < |bs'| && 0 <= p < |bs'[k].rows|
      ensures bs'[k].rows[p] == bs'[k].rows[0] + p && bs'[k].rows[p] < n && labels[bs'[k].rows[p]] == bs'[k].name
    {
      if k < |bs| { assert bs'[k] == bs[k]; }
    }
  }

  lemma AppendTiles<L>(n: nat, bs: seq<Block<L>>, b: Block<L>)
    requires 0 < n && TilesRows(n - 1, bs) && b.rows == [n - 1]
    ensures TilesRows(n, bs + [b])
  {
    var bs' := bs + [b];
    forall k | 0 <= k < |bs'| - 1
      ensures bs'[k + 1].rows[0] == bs'[k].rows[0] + |bs'[k].rows|
    {
      assert bs'[k] == bs[k];
      if k < |bs| - 1 { assert bs'[k + 1] == bs[k + 1]; }
    }
    assert forall k :: 0 <= k < |bs'| ==> |bs'[k].rows| > 0;
  }

  lemma AppendMaximal<L>(bs: seq<Block<L>>, b: Block<L>)
    requires MaximalRuns(bs) && (|bs| > 0 ==> bs[|bs| - 1].name != b.name)
    ensures MaximalRuns(bs + [b])
  {
    var bs' := bs + [b];
    forall k | 0 <= k < |bs'| - 1
      ensures bs'[k].name != bs'[k + 1].name
    {
      assert bs'[k] == bs[k];
      if k < |bs| - 1 { assert bs'[k + 1] == bs[k + 1]; }
    }
  }

  lemma {:induction false} ExtendRunKeepsDecomposition<L>(labels: seq<L>, n: nat, bs: seq<Block<L>>)
    requires 1 < n <= |labels| && RunDecomposition(labels, n - 1, bs)
    requires labels[n - 1] == labels[n - 2]
    ensures |bs| > 0
    ensures var last := bs[|bs| - 1];
            RunDecomposition(labels, n, bs[|bs| - 1 := last.(rows := last.rows + [n - 1])])
  {
    LastRunEnds(labels, n - 1, bs);
    var last := bs[|bs| - 1];
    var bs' := bs[|bs| - 1 := last.(rows := last.rows + [n - 1])];
    assert PaletteColored(bs') by {
      forall k | 0 <= k < |bs'|
        ensures |bs'[k].rows| > 0 && bs'[k].color == PaletteColor(k)
      {
        if k < |bs| - 1 { assert bs'[k] == bs[k]; }
      }
    }
    assert ConsecutiveRuns(labels, n, bs') by {
      forall k, p | 0 <= k < |bs'| && 0 <= p < |bs'[k].rows|
        ensures bs'[k].rows[p] == bs'[k].rows[0] + p && bs'[k].rows[p] < n && labels[bs'[k].rows[p]] == bs'[k].name
      {
        if k < |bs| - 1 {
          assert bs'[k] == bs[k];
        } else if p < |last.rows| {
          assert bs'[k].rows[p] == last.rows[p];
        }
      }
    }
    assert TilesRows(n, bs') by {
      forall k | 0 <= k < |bs'| - 1
        ensures bs'[k + 1].rows[0] == bs'[k].rows[0] + |bs'[k].rows|
      {
        assert bs'[k] == bs[k];
        if k + 1 < |bs| - 1 { assert bs'[k + 1] == bs[k + 1]; }
      }
    }
    assert MaximalRuns(bs') by {
      forall k | 0 <= k < |bs'| - 1
        ensures bs'[k].name != bs'[k + 1].name
      {
        assert bs'[k] == bs[k];
        if k + 1 < |bs| - 1 { assert bs'[k + 1] == bs[k + 1]; }
      }
    }
  }

  lemma RunsNext<L>(labels: seq<L>, i: nat)
    requires i < |labels|
    ensures var rs := Runs(labels, i);
            if i == 0 || labels[i] != labels[i - 1]
            then Runs(labels, i + 1) == rs + [Block(labels[i], PaletteColor(|rs|), [i])]
            else |rs| > 0 && Runs(labels, i + 1) == rs[..|rs| - 1] + [rs[|rs| - 1].(rows := rs[|rs| - 1].rows + [i])]
  {
    var rs := Runs(labels, i);
    if i > 0 && labels[i] == labels[i - 1] {
      var last := rs[|rs| - 1];
      assert rs[|rs| - 1 := last.(rows := last.rows + [i])] == rs[..|rs| - 1] + [last.(rows := last.rows + [i])];
    }
  }

  /** The last run is named after the last row. */
  lemma {:induction false} RunsLastName<L>(labels: seq<L>, n: nat)
    requires 0 < n <= |labels|
    ensures var rs := Runs(labels, n);
            |rs| > 0 && rs[|rs| - 1].name == labels[n - 1]
  {
    if n > 1 && labels[n - 1] == labels[n - 2] {
      RunsLastName(labels, n - 1);
    }
  }

  /** The original node's grouping of the whole table. */
  function GroupRuns<L(==)>(labels: seq<L>): seq<Block<L>>
  {
    Runs(labels, |labels|)
  }

  /** One step of the original node's loop from row `i`: the run grouping of rows `0..i+1`
      is the emitted clusters followed by the open one, which is a new cluster with the
      next palette colour exactly when row `i` changes the label. */
  lemma ScanAdvance<L>(labels: seq<L>, i: nat, runs: seq<Block<L>>, out: seq<Block<L>>, clusterNum: int,
                       lastName: Option<L>, lastRows: seq<nat>, lastColor: Rgb)
    requires i < |labels| && runs == Runs(labels, i)
    requires i == 0 ==> out == [] && clusterNum == -1 && lastName == None
    requires i > 0 ==>
        && |runs| > 0
        && lastName == Some(labels[i - 1])
        && clusterNum == |runs| - 1
        && lastRows == runs[|runs| - 1].rows
        && lastColor == runs[|runs| - 1].color
        && out == (if labels[i] != labels[i - 1] then runs else runs[..|runs| - 1])
    ensures var opens := lastName != Some(labels[i]);
            var next := Runs(labels, i + 1);
            && |next| > 0
            && clusterNum + (if opens then 1 else 0) == |next| - 1
            && next[|next| - 1] == Block(labels[i], if opens then PaletteColor(clusterNum + 1) else lastColor,
                                         (if opens then [] else lastRows) + [i])
            && out == next[..|next| - 1]
            && out + [next[|next| - 1]] == next
  {
    if i > 0 {
      RunsLastName(labels, i);
    }
    RunsNext(labels, i);
    var next := Runs(labels, i + 1);
    assert next[..|next| - 1] + [next[|next| - 1]] == next;
  }

  /** The original node's loop: a label different from the previous row's opens a new
      cluster with the next palette colour, and a cluster is emitted once its last row
      is reached (the table's last row, or a row followed by a different label). */
  method ScanRuns<L(==)>(labels: seq<L>) returns (out: seq<Block<L>>)
    ensures out == GroupRuns(labels)
  {
    out := [];
    var n := |labels|;
    var clusterNum: int := -1;
    var lastName: Option<L> := None;
    var lastRows: seq<nat> := [];
    var lastColor: Rgb := 0;
    var i := 0;
    ghost var runs: seq<Block<L>> := [];
    while i < n
      invariant 0 <= i <= n && runs == Runs(labels, i)
      invariant i == 0 ==> out == [] && clusterNum == -1 && lastName == None
      invariant i > 0 ==>
        && |runs| > 0
        && lastName == Some(labels[i - 1])
        && clusterNum == |runs| - 1
        && lastRows == runs[|runs| - 1].rows
        && lastColor == runs[|runs| - 1].color
        && out == (if i == n || labels[i] != labels[i - 1] then runs else runs[..|runs| - 1])
    {
      ScanAdvance(labels, i, runs, out, clusterNum, lastName, lastRows, lastColor);
      ghost var next := Runs(labels, i + 1);
      if lastName != Some(labels[i]) {
        lastName := Some(labels[i]);
        lastRows := [];
        clusterNum := clusterNum + 1;
        lastColor := PaletteColor(clusterNum);
      }
      lastRows := lastRows + [i];
      if i == n - 1 {
        out := out + [Block(lastName.value, lastColor, lastRows)];
      } else if labels[i + 1] != lastName.value {
        out := out + [Block(lastName.value, lastColor, lastRows)];
      }
      runs := next;
      i := i + 1;
    }
  }
  // ---------------------------------------------------------------------------
  // Second node: the label-change scan as written

  function TotalRows<L>(bs: seq<Block<L>>): nat
  {
    if |bs| == 0 then 0 else TotalRows(bs[..|bs| - 1]) + |bs[|bs| - 1].rows|
  }

  lemma TotalRowsAppend<L>(bs: seq<Block<L>>, b: Block<L>)
    ensures TotalRows(bs + [b]) == TotalRows(bs) + |b.rows|
  {
    assert (bs + [b])[..|bs|] == bs;
  }

  /** Each member entry is its position within its own cluster. */
  ghost predicate LocalPositions(rows: seq<nat>)
  {
    forall p :: 0 <= p < |rows| ==> rows[p] == p
  }

  /** The second node's scan from row `t` on, with `open` the entries collected since
      the last emitted cluster. Every row appends its position within the open list; a
      cluster is emitted, under the PREVIOUS row's label, when the label changes or the
      table ends. With a one-row table the previous label does not exist. */
  function ScanChanges<L(==)>(labels: seq<L>, t: nat, open: seq<nat>, clusterNum: nat, acc: seq<Block<L>>)
    : (r: Result<seq<Block<L>>, Error>)
    requires t <= |labels|
    requires LocalPositions(open)
    requires forall k :: 0 <= k < |acc| ==> LocalPositions(acc[k].rows)
    requires t == |labels| ==> |open| == 0
    ensures r.Err? <==> t == 0 && |labels| == 1
    ensures r.Err? ==> r.error == NullLabel
    ensures r.Ok? ==> TotalRows(r.value) == TotalRows(acc) + |open| + (|labels| - t)
    ensures r.Ok? ==> forall k :: 0 <= k < |r.value| ==> LocalPositions(r.value[k].rows)
    decreases |labels| - t
  {
    if t == |labels| then Ok(acc)
    else
      var open' := open + [|open|];
      if (t > 0 && labels[t - 1] != labels[t]) || t == |labels| - 1 then
        if t == 0 then Err(NullLabel)
        else
          var b := Block(labels[t - 1], PaletteColor(clusterNum), open');
          TotalRowsAppend(acc, b);
          ScanChanges(labels, t + 1, [], clusterNum + 1, acc + [b])
      else
        ScanChanges(labels, t + 1, open', clusterNum, acc)
  }

  /** The second node's grouping as written. Every row is counted exactly once, but the
      member entries are positions within each cluster rather than row indices. */
  function GroupChanges<L(==)>(labels: seq<L>): (r: Result<seq<Block<L>>, Error>)
    ensures r.Err? <==> |labels| == 1
    ensures r.Ok? ==> TotalRows(r.value) == |labels|
    ensures r.Ok? ==> forall k :: 0 <= k < |r.value| ==> LocalPositions(r.value[k].rows)
  {
    ScanChanges(labels, 0, [], 0, [])
  }

  /** On labels A, B, B the scan files row 1 (labelled B) under cluster A and records
      positions instead of rows, whereas the run grouping gets A = {0} and B = {1, 2}. */
  lemma GroupChangesMisplacesBoundary()
    ensures GroupChanges(["A", "B", "B"])
            == Ok([Block("A", PaletteColor(0), [0, 1]), Block("B", PaletteColor(1), [0])])
    ensures GroupRuns(["A", "B", "B"])
            == [Block("A", PaletteColor(0), [0]), Block("B", PaletteColor(1), [1, 2])]
  {
    ChangesOfABB();
    RunsOfABB();
  }

  lemma ChangesOfABB()
    ensures GroupChanges(["A", "B", "B"])
            == Ok([Block("A", PaletteColor(0), [0, 1]), Block("B", PaletteColor(1), [0])])
  {
    var labels := ["A", "B", "B"];
    assert labels[0] != labels[1] by { assert labels[0][0] != labels[1][0]; }
    assert labels[1] == labels[2];
    assert [0] + [|[0]|] == [0, 1];
    var e: seq<nat> := [];
    assert e + [|e|] == [0];
    var a := Block("A", PaletteColor(0), [0, 1]);
    assert ScanChanges(labels, 3, [], 2, [a, Block("B", PaletteColor(1), [0])]) == Ok([a, Block("B", PaletteColor(1), [0])]);
    assert [a] + [Block(labels[1], PaletteColor(1), e + [|e|])] == [a, Block("B", PaletteColor(1), [0])];
    assert ScanChanges(labels, 2, e, 1, [a]) == Ok([a, Block("B", PaletteColor(1), [0])]);
    assert ScanChanges(labels, 1, [0], 0, []) == Ok([a, Block("B", PaletteColor(1), [0])]);
  }

  lemma RunsOfABB()
    ensures GroupRuns(["A", "B", "B"])
            == [Block("A", PaletteColor(0), [0]), Block("B", PaletteColor(1), [1, 2])]
  {
    var labels := ["A", "B", "B"];
    assert labels[0] != labels[1] by { assert labels[0][0] != labels[1][0]; }
    assert labels[1] == labels[2];
    assert Runs(labels, 1) == [Block("A", PaletteColor(0), [0])];
    assert Runs(labels, 2) == [Block("A", PaletteColor(0), [0]), Block("B", PaletteColor(1), [1])];
    assert [1] + [2] == [1, 2];
  }

  /** On labels A, B the scan never emits cluster B. */
  lemma GroupChangesDropsLastCluster()
    ensures GroupChanges(["A", "B"]) == Ok([Block("A", PaletteColor(0), [0, 1])])
    ensures |GroupRuns(["A", "B"])| == 2
  {
    var labels := ["A", "B"];
    assert labels[0] != labels[1] by { assert labels[0][0] != labels[1][0]; }
    assert [0] + [|[0]|] == [0, 1];
    var e: seq<nat> := [];
    assert e + [|e|] == [0];
    var a := Block("A", PaletteColor(0), [0, 1]);
    assert ScanChanges(labels, 2, [], 1, [a]) == Ok([a]);
    assert ScanChanges(labels, 1, [0], 0, []) == Ok([a]);
    assert Runs(labels, 1) == [Block("A", PaletteColor(0), [0])];
  }
}
