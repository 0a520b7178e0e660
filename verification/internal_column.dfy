/** `InternalColumn`: a typed, append-only column of unboxed cell values, and the way the
    deprecated revision copies the sorted input table into one such column per input
    column before grouping. */
module InternalColumn {
  import opened Wrappers
  import opened Errors
  import opened Features
  import opened Numbers

  /** The three column types the node supports. */
  datatype ColumnType = IntType | DoubleType | StringType

  /** The cells appended so far, and the type tag last set. The tag is not checked against
      the cells: Java's generics are erased, so nothing stops a cell of another type. */
  datatype Column = Column(cells: seq<Cell>, tag: ColumnType)

  function CreateIntegerColumn(): (c: Column)
    ensures c.cells == [] && c.tag == IntType
  {
    Column([], IntType)
  }

  function CreateDoubleColumn(): (c: Column)
    ensures c.cells == [] && c.tag == DoubleType
  {
    Column([], DoubleType)
  }

  function CreateStringColumn(): (c: Column)
    ensures c.cells == [] && c.tag == StringType
  {
    Column([], StringType)
  }

  /** `getCell`: the list lookup, with an index error outside the list. */
  function GetCell(c: Column, index: int): (r: Result<Cell, Error>)
    ensures r.Ok? <==> 0 <= index < |c.cells|
    ensures r.Err? ==> r.error == IndexOutOfBounds(index)
  {
    if 0 <= index < |c.cells| then Ok(c.cells[index]) else Err(IndexOutOfBounds(index))
  }

  function AddCell(c: Column, v: Cell): Column
  {
    c.(cells := c.cells + [v])
  }

  function SetType(c: Column, t: ColumnType): Column
  {
    c.(tag := t)
  }

  function GetType(c: Column): ColumnType
  {
    c.tag
  }

  /** `addCell` appends: one more cell, the new one last, the others and the tag unchanged. */
  lemma AddCellAppends(c: Column, v: Cell)
    ensures |AddCell(c, v).cells| == |c.cells| + 1
    ensures GetCell(AddCell(c, v), |c.cells|) == Ok(v)
    ensures forall i :: 0 <= i < |c.cells| ==> GetCell(AddCell(c, v), i) == GetCell(c, i)
    ensures GetType(AddCell(c, v)) == GetType(c)
  {
  }

  /** The tag is whatever was set last, whatever the cells. */
  lemma TagIndependentOfCells(c: Column, t: ColumnType)
    ensures GetType(SetType(c, t)) == t
    ensures SetType(c, t).cells == c.cells
  {
  }

  /** The column after appending `vs` one by one. */
  function Appended(c: Column, vs: seq<Cell>): Column
  {
    if |vs| == 0 then c else AddCell(Appended(c, vs[..|vs| - 1]), vs[|vs| - 1])
  }

  /** `getCell(i)` answers the `i`-th value ever appended. */
  lemma {:induction false} GetAppended(t: ColumnType, vs: seq<Cell>, i: nat)
    requires i < |vs|
    ensures GetCell(Appended(Column([], t), vs), i) == Ok(vs[i])
    ensures GetType(Appended(Column([], t), vs)) == t
  {
    AppendedCells(Column([], t), vs);
  }

  lemma {:induction false} AppendedCells(c: Column, vs: seq<Cell>)
    ensures Appended(c, vs).cells == c.cells + vs
    ensures Appended(c, vs).tag == c.tag
  {
    if |vs| > 0 {
      AppendedCells(c, vs[..|vs| - 1]);
      assert vs == vs[..|vs| - 1] + [vs[|vs| - 1]];
    }
  }

  // ---------------------------------------------------------------------------
  // The deprecated revision's column set-up and table import

  /** One empty column per input column of a supported type; other columns stay unset. */
  function ColumnsFor(kinds: seq<Kind>): (cols: seq<Option<Column>>)
    ensures |cols| == |kinds|
    ensures forall i :: 0 <= i < |kinds| ==>
      (cols[i].Some? <==> kinds[i] != NoKind) &&
      (cols[i].Some? ==> cols[i].value.cells == [] && cols[i].value.tag == TypeOf(kinds[i]))
  {
    seq(|kinds|, i requires 0 <= i < |kinds| =>
      match kinds[i]
      case StringKind => Some(CreateStringColumn())
      case IntKind => Some(CreateIntegerColumn())
      case DoubleKind => Some(CreateDoubleColumn())
      case NoKind => None)
  }

  function TypeOf(k: Kind): ColumnType
    requires k != NoKind
  {
    match k
    case IntKind => IntType
    case DoubleKind => DoubleType
    case StringKind => StringType
  }

  /** The import's state: the columns, and the column the next cell goes to. */
  datatype Loader = Loader(columns: seq<Option<Column>>, current: nat)

  /** Appends `v` to column `j`: an index error past the array, a null dereference on an
      unset slot. */
  function Place(cols: seq<Option<Column>>, j: nat, v: Cell): (r: Result<seq<Option<Column>>, Error>)
    ensures r.Ok? <==> j < |cols| && cols[j].Some?
    ensures r.Ok? ==> r.value == cols[j := Some(AddCell(cols[j].value, v))]
  {
    if j >= |cols| then Err(IndexOutOfBounds(j))
    else if cols[j].None? then Err(NullReference)
    else Ok(cols[j := Some(AddCell(cols[j].value, v))])
  }

  /** Moves on to the next column, wrapping round to the first. */
  function Advance(cols: seq<Option<Column>>, current: nat): Result<Loader, Error>
  {
    if |cols| == 0 then Err(DivisionByZero) else Ok(Loader(cols, (current + 1) % |cols|))
  }

  /** One cell of the table: a missing cell aborts, a supported one is appended to the
      current column, an unsupported one is skipped; the column counter moves on in every
      case that does not abort. */
  function Step(st: Loader, cell: Cell): (r: Result<Loader, Error>)
    ensures cell.MissingCell? ==> r == Err(MissingValue)
  {
    match cell
    case MissingCell => Err(MissingValue)
    case OtherCell => Advance(st.columns, st.current)
    case _ =>
      var cols :- Place(st.columns, st.current, cell);
      Advance(cols, st.current)
  }

  /** The first `t` cells of one row. */
  function LoadRow(st: Loader, row: seq<Cell>, t: nat): Result<Loader, Error>
    requires t <= |row|
  {
    if t == 0 then Ok(st)
    else
      var s :- LoadRow(st, row, t - 1);
      Step(s, row[t - 1])
  }

  /** The first `r` rows; the column counter carries over from one row to the next. */
  function LoadRows(st: Loader, rows: seq<seq<Cell>>, r: nat): Result<Loader, Error>
    requires r <= |rows|
  {
    if r == 0 then Ok(st)
    else
      var s :- LoadRows(st, rows, r - 1);
      LoadRow(s, rows[r - 1], |rows[r - 1]|)
  }

  /** The import loop of `execute`: every cell of every row, starting at column 0. */
  function LoadTable(rows: seq<seq<Cell>>, cols: seq<Option<Column>>): Result<seq<Option<Column>>, Error>
  {
    var s :- LoadRows(Loader(cols, 0), rows, |rows|);
    Ok(s.columns)
  }

  predicate Supported(c: Cell)
  {
    c.IntCell? || c.DoubleCell? || c.StringCell?
  }

  /** Every row fills every column once: as many cells as columns, all supported. */
  ghost predicate WellShaped(rows: seq<seq<Cell>>, cols: seq<Option<Column>>)
  {
    && |cols| > 0
    && (forall j :: 0 <= j < |cols| ==> cols[j].Some?)
    && (forall r :: 0 <= r < |rows| ==> |rows[r]| == |cols|)
    && (forall r, j :: 0 <= r < |rows| && 0 <= j < |rows[r]| ==> Supported(rows[r][j]))
  }

  /** Partway through a full row started at column 0: the first `t` columns have their cell
      appended, the others are untouched, and the counter is at `t` (back at 0 at the end). */
  lemma {:induction false} LoadRowPrefix(st: Loader, row: seq<Cell>, t: nat)
    requires |st.columns| > 0 && st.current == 0 && |row| == |st.columns| && t <= |row|
    requires forall j :: 0 <= j < |st.columns| ==> st.columns[j].Some?
    requires forall j :: 0 <= j < |row| ==> Supported(row[j])
    ensures LoadRow(st, row, t).Ok?
    ensures LoadRow(st, row, t).value.current == if t < |row| then t else 0
    ensures |LoadRow(st, row, t).value.columns| == |st.columns|
    ensures forall j :: 0 <= j < |st.columns| ==>
      LoadRow(st, row, t).value.columns[j] ==
        if j < t then Some(AddCell(st.columns[j].value, row[j])) else st.columns[j]
  {
    if t > 0 {
      LoadRowPrefix(st, row, t - 1);
      var s := LoadRow(st, row, t - 1).value;
      var n := |st.columns|;
      assert s.current == t - 1;
      assert s.columns[t - 1] == st.columns[t - 1];
      var cols := s.columns[t - 1 := Some(AddCell(s.columns[t - 1].value, row[t - 1]))];
      assert Place(s.columns, t - 1, row[t - 1]) == Ok(cols);
      if t < n {
        EuclideanUnique(t, n, 0, t);
      } else {
        EuclideanUnique(t, n, 1, 0);
      }
      assert Step(s, row[t - 1]) == Ok(Loader(cols, t % n));
    }
  }

  /** After `r` full rows the counter is back at column 0 and column `j` has gained the
      `j`-th cell of each row, in row order. */
  lemma {:induction false} LoadRowsColumns(cols: seq<Option<Column>>, rows: seq<seq<Cell>>, r: nat)
    requires r <= |rows| && WellShaped(rows, cols)
    ensures LoadRows(Loader(cols, 0), rows, r).Ok?
    ensures LoadRows(Loader(cols, 0), rows, r).value.current == 0
    ensures |LoadRows(Loader(cols, 0), rows, r).value.columns| == |cols|
    ensures forall j :: 0 <= j < |cols| ==>
      && LoadRows(Loader(cols, 0), rows, r).value.columns[j].Some?
      && LoadRows(Loader(cols, 0), rows, r).value.columns[j].value ==
           Appended(cols[j].value, seq(r, q requires 0 <= q < r => rows[q][j]))
  {
    if r > 0 {
      LoadRowsColumns(cols, rows, r - 1);
      var s := LoadRows(Loader(cols, 0), rows, r - 1).value;
      LoadRowPrefix(s, rows[r - 1], |rows[r - 1]|);
      forall j | 0 <= j < |cols|
        ensures LoadRows(Loader(cols, 0), rows, r).value.columns[j] ==
          Some(Appended(cols[j].value, seq(r, q requires 0 <= q < r => rows[q][j])))
      {
        var vs := seq(r, q requires 0 <= q < r => rows[q][j]);
        assert vs[..r - 1] == seq(r - 1, q requires 0 <= q < r - 1 => rows[q][j]);
      }
    }
  }

  /** Importing a well-shaped table gives column `j` exactly the `j`-th cells of the rows, in
      row order, after whatever it held; the type tags do not change. */
  lemma LoadTableColumns(rows: seq<seq<Cell>>, cols: seq<Option<Column>>)
    requires WellShaped(rows, cols)
    ensures LoadTable(rows, cols).Ok?
    ensures |LoadTable(rows, cols).value| == |cols|
    ensures forall j :: 0 <= j < |cols| ==>
      && LoadTable(rows, cols).value[j].Some?
      && LoadTable(rows, cols).value[j].value.cells ==
           cols[j].value.cells + seq(|rows|, q requires 0 <= q < |rows| => rows[q][j])
      && LoadTable(rows, cols).value[j].value.tag == cols[j].value.tag
  {
    LoadRowsColumns(cols, rows, |rows|);
    forall j | 0 <= j < |cols| {
      AppendedCells(cols[j].value, seq(|rows|, q requires 0 <= q < |rows| => rows[q][j]));
    }
  }

  /** A missing cell among the first `t` of a row aborts the row. */
  lemma {:induction false} MissingAbortsRow(st: Loader, row: seq<Cell>, t: nat, j: nat)
    requires j < t <= |row| && row[j].MissingCell?
    ensures LoadRow(st, row, t).Err?
  {
    if j < t - 1 {
      MissingAbortsRow(st, row, t - 1, j);
    }
  }

  lemma {:induction false} MissingAbortsRows(st: Loader, rows: seq<seq<Cell>>, r: nat, i: nat, j: nat)
    requires i < r <= |rows| && j < |rows[i]| && rows[i][j].MissingCell?
    ensures LoadRows(st, rows, r).Err?
  {
    if i < r - 1 {
      MissingAbortsRows(st, rows, r - 1, i, j);
    } else if LoadRows(st, rows, r - 1).Ok? {
      MissingAbortsRow(LoadRows(st, rows, r - 1).value, rows[i], |rows[i]|, j);
    }
  }

  /** Any missing cell anywhere in the table aborts the import. */
  lemma MissingCellAborts(rows: seq<seq<Cell>>, cols: seq<Option<Column>>, i: nat, j: nat)
    requires i < |rows| && j < |rows[i]| && rows[i][j].MissingCell?
    ensures LoadTable(rows, cols).Err?
  {
    MissingAbortsRows(Loader(cols, 0), rows, |rows|, i, j);
  }

  // ---------------------------------------------------------------------------
  // The deprecated revision reads a row back out of its columns

  /** Whether a cell holds a value of the column's declared type. */
  predicate Matches(v: Cell, t: ColumnType)
  {
    match t
    case IntType => v.IntCell?
    case DoubleType => v.DoubleCell?
    case StringType => v.StringCell?
  }

  /** `getCell(row)` cast to the column's declared type: an index error outside the cells,
      a cast error on a value of another type. */
  function TypedCell(c: Column, row: nat): (r: Result<Cell, Error>)
    ensures r.Ok? <==> row < |c.cells| && Matches(c.cells[row], c.tag)
    ensures r.Ok? ==> r.value == c.cells[row]
    ensures row >= |c.cells| ==> r == Err(IndexOutOfBounds(row))
  {
    var v :- GetCell(c, row);
    if Matches(v, c.tag) then Ok(v) else Err(ClassCast)
  }

  /** The feature vector of table row `row` read from the first `n` columns, in column
      order, skipping the label column: each column is asked for its type first, so an
      unset column is a null dereference; the first failing column decides the error. */
  function ColumnVector(cols: seq<Option<Column>>, labelCol: nat, row: nat, n: nat): (r: Result<FeatureVector, Error>)
    requires n <= |cols|
    ensures r.Ok? ==> forall j :: 0 <= j < n && j != labelCol ==> cols[j].Some?
  {
    if n == 0 then Ok(FeatureVector([], [], []))
    else
      var fv :- ColumnVector(cols, labelCol, row, n - 1);
      var j := n - 1;
      if j == labelCol then Ok(fv)
      else if cols[j].None? then Err(NullReference)
      else
        var v :- TypedCell(cols[j].value, row);
        match v
        case IntCell(i) => Ok(fv.(ints := fv.ints + [i]))
        case DoubleCell(d) => Ok(fv.(doubles := fv.doubles + [d]))
        case StringCell(s) => Ok(fv.(strings := fv.strings + [s]))
        case _ => Ok(fv)
  }

  /** Every set column can be read at `row` with its declared type. */
  ghost predicate Readable(cols: seq<Option<Column>>, row: nat)
  {
    forall j :: 0 <= j < |cols| && cols[j].Some? ==>
      row < |cols[j].value.cells| && Matches(cols[j].value.cells[row], cols[j].value.tag)
  }

  /** On readable columns the read fails exactly when a column other than the label column
      is unset, and then with a null dereference. */
  lemma {:induction false} ColumnVectorFails(cols: seq<Option<Column>>, labelCol: nat, row: nat, n: nat)
    requires n <= |cols| && Readable(cols, row)
    ensures ColumnVector(cols, labelCol, row, n).Err? <==>
              exists j :: 0 <= j < n && j != labelCol && cols[j].None?
    ensures ColumnVector(cols, labelCol, row, n).Err? ==>
              ColumnVector(cols, labelCol, row, n).error == NullReference
  {
    if n > 0 {
      ColumnVectorFails(cols, labelCol, row, n - 1);
      var j := n - 1;
      if j != labelCol && cols[j].Some? {
        assert TypedCell(cols[j].value, row).Ok?;
      }
    }
  }

  /** A table of one schema: every row has one cell per column, and every cell of column
      `j` is of the supported kind `kinds[j]`. */
  ghost predicate OfKinds(rows: seq<seq<Cell>>, kinds: seq<Kind>)
  {
    && |kinds| > 0
    && (forall j :: 0 <= j < |kinds| ==> kinds[j] != NoKind)
    && (forall q :: 0 <= q < |rows| ==> |rows[q]| == |kinds|)
    && (forall q, j :: 0 <= q < |rows| && 0 <= j < |kinds| ==> KindOf(rows[q][j]) == kinds[j])
  }

  /** Importing a table whose columns all have a supported type, then reading row `r` back,
      gives the row's feature vector over every column but the label column. */
  lemma ImportedRowVector(rows: seq<seq<Cell>>, kinds: seq<Kind>, labelCol: nat, r: nat)
    requires OfKinds(rows, kinds) && r < |rows|
    ensures LoadTable(rows, ColumnsFor(kinds)).Ok? && |LoadTable(rows, ColumnsFor(kinds)).value| == |kinds|
    ensures ColumnVector(LoadTable(rows, ColumnsFor(kinds)).value, labelCol, r, |kinds|)
              == Ok(ExtractAll(rows[r], labelCol))
  {
    var cols0 := ColumnsFor(kinds);
    assert WellShaped(rows, cols0) by {
      forall q, j | 0 <= q < |rows| && 0 <= j < |rows[q]|
        ensures Supported(rows[q][j])
      {
        assert KindOf(rows[q][j]) == kinds[j];
      }
    }
    LoadTableColumns(rows, cols0);
    var cols := LoadTable(rows, cols0).value;
    forall j | 0 <= j < |kinds|
      ensures cols[j].Some? && r < |cols[j].value.cells| && cols[j].value.cells[r] == rows[r][j]
      ensures cols[j].value.tag == TypeOf(KindOf(rows[r][j]))
    {
      assert KindOf(rows[r][j]) == kinds[j];
    }
    ImportedPrefix(cols, rows[r], labelCol, r, |kinds|);
    assert rows[r][..|kinds|] == rows[r];
  }

  lemma {:induction false} ImportedPrefix(cols: seq<Option<Column>>, row: seq<Cell>, labelCol: nat, r: nat, n: nat)
    requires n <= |cols| == |row|
    requires forall j :: 0 <= j < |cols| ==>
      && Supported(row[j])
      && cols[j].Some? && r < |cols[j].value.cells| && cols[j].value.cells[r] == row[j]
      && cols[j].value.tag == TypeOf(KindOf(row[j]))
    ensures ColumnVector(cols, labelCol, r, n) == Ok(Extract(row[..n], labelCol, seq(n, _ => true)))
  {
    if n > 0 {
      ImportedPrefix(cols, row, labelCol, r, n - 1);
      assert row[..n][..n - 1] == row[..n - 1];
      assert seq(n, _ => true)[..n - 1] == seq(n - 1, _ => true);
      assert row[..n][n - 1] == row[n - 1];
    }
  }

}
