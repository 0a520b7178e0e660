/** Splitting one table row into the typed feature vector the distance works on: the
    string, double and integer cells of the included columns, the cluster-label column
    always left out, unsupported cells skipped. */
module Features {

  datatype Cell = IntCell(i: int) | DoubleCell(d: real) | StringCell(s: string) | MissingCell | OtherCell

  datatype Kind = IntKind | DoubleKind | StringKind | NoKind

  function KindOf(c: Cell): Kind
  {
    match c
    case IntCell(_) => IntKind
    case DoubleCell(_) => DoubleKind
    case StringCell(_) => StringKind
    case _ => NoKind
  }

  /** Three parallel sequences, one per supported cell type, in column order. */
  datatype FeatureVector = FeatureVector(strings: seq<string>, doubles: seq<real>, ints: seq<int>)

  /** Whether column `k` feeds the distance. */
  predicate Feeds(labelCol: int, included: seq<bool>, k: nat)
  {
    k != labelCol && k < |included| && included[k]
  }

  /** Number of columns of `row` that feed the distance and hold a cell of kind `t`. */
  function CountFed(row: seq<Cell>, labelCol: int, included: seq<bool>, t: Kind): nat
    requires |included| == |row|
    decreases |row|
  {
    if |row| == 0 then 0
    else
      var n := |row| - 1;
      CountFed(row[..n], labelCol, included[..n], t)
      + (if Feeds(labelCol, included, n) && KindOf(row[n]) == t then 1 else 0)
  }

  /** The feature vector of `row`: cell `k` contributes when `k` is not the label column and
      `included[k]` holds; cells of other types are skipped. */
  function Extract(row: seq<Cell>, labelCol: int, included: seq<bool>): (fv: FeatureVector)
    requires |included| == |row|
    ensures |fv.strings| == CountFed(row, labelCol, included, StringKind)
    ensures |fv.doubles| == CountFed(row, labelCol, included, DoubleKind)
    ensures |fv.ints| == CountFed(row, labelCol, included, IntKind)
    decreases |row|
  {
    if |row| == 0 then FeatureVector([], [], [])
    else
      var n := |row| - 1;
      var fv := Extract(row[..n], labelCol, included[..n]);
      if n == labelCol || !included[n] then fv
      else match row[n]
        case IntCell(i) => fv.(ints := fv.ints + [i])
        case DoubleCell(d) => fv.(doubles := fv.doubles + [d])
        case StringCell(s) => fv.(strings := fv.strings + [s])
        case _ => fv
  }

  /** The feature vector when every column but the label column is used (the
      revisions without a column filter). */
  function ExtractAll(row: seq<Cell>, labelCol: int): FeatureVector
  {
    Extract(row, labelCol, seq(|row|, _ => true))
  }

  /** The label column never influences the feature vector, whatever it holds. */
  lemma {:induction false} LabelColumnIgnored(row: seq<Cell>, labelCol: nat, included: seq<bool>, c: Cell)
    requires labelCol < |row| == |included|
    ensures Extract(row[labelCol := c], labelCol, included) == Extract(row, labelCol, included)
    decreases |row|
  {
    var n := |row| - 1;
    var row' := row[labelCol := c];
    if labelCol < n {
      assert row'[..n] == row[..n][labelCol := c];
      assert row'[n] == row[n];
      LabelColumnIgnored(row[..n], labelCol, included[..n], c);
    } else {
      assert row'[..n] == row[..n];
    }
  }

  /** Rows with the same cell types column by column (one table schema) give feature
      vectors of equal dimension counts, so the distance between them never fails on
      a dimension check. */
  lemma SameSchemaSameDimensions(r1: seq<Cell>, r2: seq<Cell>, labelCol: int, included: seq<bool>)
    requires |r1| == |r2| == |included|
    requires forall k :: 0 <= k < |r1| ==> KindOf(r1[k]) == KindOf(r2[k])
    ensures |Extract(r1, labelCol, included).strings| == |Extract(r2, labelCol, included).strings|
    ensures |Extract(r1, labelCol, included).doubles| == |Extract(r2, labelCol, included).doubles|
    ensures |Extract(r1, labelCol, included).ints| == |Extract(r2, labelCol, included).ints|
  {
    forall t
      ensures CountFed(r1, labelCol, included, t) == CountFed(r2, labelCol, included, t)
    {
      SameSchemaSameCount(r1, r2, labelCol, included, t);
    }
  }

  lemma {:induction false} SameSchemaSameCount(r1: seq<Cell>, r2: seq<Cell>, labelCol: int, included: seq<bool>, t: Kind)
    requires |r1| == |r2| == |included|
    requires forall k :: 0 <= k < |r1| ==> KindOf(r1[k]) == KindOf(r2[k])
    ensures CountFed(r1, labelCol, included, t) == CountFed(r2, labelCol, included, t)
    decreases |r1|
  {
    if |r1| > 0 {
      var n := |r1| - 1;
      assert KindOf(r1[n]) == KindOf(r2[n]);
      SameSchemaSameCount(r1[..n], r2[..n], labelCol, included[..n], t);
    }
  }
}
