/** `configure`: checking the input table's columns and fixing which one holds the
    cluster labels. The two older revisions take the label column as an index that may be
    out of range or negative; the current revision takes it by name. */
module Configure {
  import opened Wrappers
  import opened Sequences
  import opened Errors
  import opened Numbers
  import opened Features

  /** One input column as `configure` sees it: its name and its cell type. */
  datatype ColumnSpec = ColumnSpec(name: string, kind: Kind)

  /** The default selector of the older revisions: the last column. */
  const DefaultClusterColumn: int := -1

  // ---------------------------------------------------------------------------
  // Older revisions: an index selector

  /** The older revisions' normalisation of a selector `k` over `n` columns, with Java's
      truncating remainder: `n + k rem n` for negative `k` (plus `n` again if that were
      still negative), `k rem n` otherwise. */
  function AdjustedColumnAsWritten(k: int, n: nat): int
    requires n > 0
  {
    if k < 0 then
      var a := n + JavaRem(k, n);
      if a < 0 then a + n else a
    else JavaRem(k, n)
  }

  /** The normalisation as evidently intended: the selector taken modulo the column count,
      always a valid column. */
  function AdjustedColumn(k: int, n: nat): (c: nat)
    requires n > 0
    ensures c < n
    ensures exists q :: k == q * n + c
  {
    assert k == (k / n) * n + k % n;
    k % n
  }

  /** The selector lands on the column congruent to it modulo `n` — except that a negative
      multiple of `n` lands on `n`, one past the last column. */
  lemma AdjustedColumnAsWrittenMeaning(k: int, n: nat)
    requires n > 0
    ensures 0 <= AdjustedColumnAsWritten(k, n) <= n
    ensures AdjustedColumnAsWritten(k, n) == n <==> k < 0 && k % n == 0
    ensures AdjustedColumnAsWritten(k, n) < n ==> AdjustedColumnAsWritten(k, n) == AdjustedColumn(k, n)
  {
    var a := AdjustedColumnAsWritten(k, n);
    JavaRemCongruent(k, n);
    var q :| k == q * n + JavaRem(k, n);
    if k < 0 {
      assert a == n + JavaRem(k, n);
      if JavaRem(k, n) == 0 {
        EuclideanUnique(k, n, q, 0);
      } else {
        assert k == (q - 1) * n + a;
        EuclideanUnique(k, n, q - 1, a);
      }
    } else {
      EuclideanUnique(k, n, q, a);
    }
  }

  /** The default selector picks the last column. */
  lemma DefaultIsLastColumn(n: nat)
    requires n >= 2
    ensures AdjustedColumnAsWritten(DefaultClusterColumn, n) == n - 1
  {
    EuclideanUnique(1, n, 0, 1);
  }

  /** The input a negative multiple sends out of range: `-2` over two columns. */
  lemma NegativeMultipleOutOfRange()
    ensures AdjustedColumnAsWritten(-2, 2) == 2
    ensures AdjustedColumn(-2, 2) == 0
  {
  }

  /** `configure` of the older revisions: at least two columns, and a String label column at
      the normalised selector. Looking up column `n` fails with an index error. */
  function ConfigureIndexedAsWritten(specs: seq<ColumnSpec>, selector: int): (r: Result<nat, Error>)
    ensures r.Ok? ==> r.value < |specs| && specs[r.value].kind == StringKind
  {
    var n := |specs|;
    if n < 2 then Err(InvalidSettings("at least 2 columns"))
    else
      var a := AdjustedColumnAsWritten(selector, n);
      AdjustedColumnAsWrittenMeaning(selector, n);
      if a >= n then Err(IndexOutOfBounds(a))
      else if specs[a].kind != StringKind then Err(InvalidSettings("label column not String"))
      else Ok(a)
  }

  /** `configure` of the older revisions with the normalisation corrected. */
  function ConfigureIndexed(specs: seq<ColumnSpec>, selector: int): (r: Result<nat, Error>)
    ensures r.Ok? ==> r.value < |specs| && specs[r.value].kind == StringKind
  {
    var n := |specs|;
    if n < 2 then Err(InvalidSettings("at least 2 columns"))
    else
      var a := AdjustedColumn(selector, n);
      if specs[a].kind != StringKind then Err(InvalidSettings("label column not String"))
      else Ok(a)
  }

  /** Configuration succeeds exactly for two or more columns whose selected column holds
      strings, and then selects the column congruent to the selector. */
  lemma ConfigureIndexedMeaning(specs: seq<ColumnSpec>, selector: int)
    ensures ConfigureIndexed(specs, selector).Ok? <==>
      |specs| >= 2 && specs[selector % |specs|].kind == StringKind
    ensures ConfigureIndexed(specs, selector).Ok? ==>
      exists q :: selector == q * |specs| + ConfigureIndexed(specs, selector).value
  {
  }

  /** As written, configuration agrees with the corrected one except that a negative multiple
      of the column count is rejected with an index error. */
  lemma ConfigureIndexedAsWrittenAgrees(specs: seq<ColumnSpec>, selector: int)
    requires |specs| >= 2
    ensures selector < 0 && selector % |specs| == 0 ==>
      ConfigureIndexedAsWritten(specs, selector) == Err(IndexOutOfBounds(|specs|))
    ensures !(selector < 0 && selector % |specs| == 0) ==>
      ConfigureIndexedAsWritten(specs, selector) == ConfigureIndexed(specs, selector)
  {
    AdjustedColumnAsWrittenMeaning(selector, |specs|);
  }

  // ---------------------------------------------------------------------------
  // Current revision: a name selector

  /** Number of names in `names` other than `chosen`. */
  function CountOther(names: seq<string>, chosen: string): (c: nat)
    ensures c <= |names|
    ensures c == |names| <==> chosen !in names
  {
    if |names| == 0 then 0
    else CountOther(names[..|names| - 1], chosen) + (if names[|names| - 1] != chosen then 1 else 0)
  }

  function Names(specs: seq<ColumnSpec>): (r: seq<string>)
    ensures |r| == |specs| && forall i :: 0 <= i < |specs| ==> r[i] == specs[i].name
  {
    seq(|specs|, i requires 0 <= i < |specs| => specs[i].name)
  }

  /** The current revision's label column as written: it counts the names that differ from
      the chosen one, and clamps a count of `n` to the last column. */
  function LabelColumnAsWritten(names: seq<string>, chosen: string): (c: nat)
    requires |names| > 0
    ensures c < |names|
    ensures chosen !in names ==> c == |names| - 1
  {
    var c := CountOther(names, chosen);
    if c >= |names| then |names| - 1 else c
  }

  /** The label column as evidently intended: where the chosen name is, or the last column
      when no column has that name. */
  function LabelColumn(names: seq<string>, chosen: string): (c: nat)
    requires |names| > 0
    ensures c < |names|
    ensures chosen in names ==> names[c] == chosen && forall i :: 0 <= i < c ==> names[i] != chosen
    ensures chosen !in names ==> c == |names| - 1
  {
    if chosen in names then FirstIndex(names, chosen) else |names| - 1
  }

  predicate Distinct(names: seq<string>)
  {
    forall i, j :: 0 <= i < j < |names| ==> names[i] != names[j]
  }

  /** A name occurring once in a sequence is counted as "other" everywhere but there. */
  lemma {:induction false} CountOtherUnique(names: seq<string>, chosen: string)
    requires Distinct(names) && chosen in names
    ensures CountOther(names, chosen) == |names| - 1
  {
    var m := |names| - 1;
    var init := names[..m];
    assert Distinct(init) by {
      forall i, j | 0 <= i < j < |init| ensures init[i] != init[j] {
        assert init[i] == names[i] && init[j] == names[j];
      }
    }
    if names[m] == chosen {
      assert chosen !in init by {
        forall i | 0 <= i < |init| ensures init[i] != chosen {
          assert init[i] == names[i];
        }
      }
    } else {
      var p :| 0 <= p < |names| && names[p] == chosen;
      assert init[p] == chosen;
      CountOtherUnique(init, chosen);
    }
  }

  /** Column names are unique in a table, and then the current revision picks the last
      column whatever name was chosen. */
  lemma LabelColumnAsWrittenIsLast(names: seq<string>, chosen: string)
    requires |names| > 0 && Distinct(names)
    ensures LabelColumnAsWritten(names, chosen) == |names| - 1
  {
    if chosen in names {
      CountOtherUnique(names, chosen);
    }
  }

  /** The input that shows it: with columns `cluster` and `x`, choosing `cluster` selects `x`. */
  lemma LabelColumnAsWrittenMissesChoice()
    ensures LabelColumnAsWritten(["cluster", "x"], "cluster") == 1
    ensures LabelColumn(["cluster", "x"], "cluster") == 0
  {
    var names := ["cluster", "x"];
    assert names[..1] == ["cluster"];
    assert names[..1][..0] == [];
    assert names[0] == "cluster";
  }

  /** The checks of the current revision's `configure` once label column `c` is fixed: a
      String or Int label column, then an include list that names some column besides the
      label column. */
  function ConfigureAt(specs: seq<ColumnSpec>, c: nat, included: seq<string>): (r: Result<nat, Error>)
    requires c < |specs|
  {
    if specs[c].kind != StringKind && specs[c].kind != IntKind then
      Err(InvalidSettings("label column not String"))
    else if |included| == 0 || (|included| == 1 && included[0] == specs[c].name) then
      Err(InvalidSettings("no data column included"))
    else Ok(c)
  }

  /** `configure` of the current revision as written: at least two columns, then the checks
      on the column `LabelColumnAsWritten` picks. */
  function ConfigureNamedAsWritten(specs: seq<ColumnSpec>, chosen: string, included: seq<string>): (r: Result<nat, Error>)
    ensures r.Ok? ==> r.value < |specs| && specs[r.value].kind in {StringKind, IntKind}
  {
    if |specs| < 2 then Err(InvalidSettings("at least 2 columns"))
    else ConfigureAt(specs, LabelColumnAsWritten(Names(specs), chosen), included)
  }

  /** `configure` of the current revision with the intended label column. */
  function ConfigureNamed(specs: seq<ColumnSpec>, chosen: string, included: seq<string>): (r: Result<nat, Error>)
    ensures r.Ok? <==>
      && |specs| >= 2
      && specs[LabelColumn(Names(specs), chosen)].kind in {StringKind, IntKind}
      && !(|included| == 0 || (|included| == 1 && included[0] == specs[LabelColumn(Names(specs), chosen)].name))
    ensures r.Ok? ==> r.value == LabelColumn(Names(specs), chosen)
  {
    if |specs| < 2 then Err(InvalidSettings("at least 2 columns"))
    else ConfigureAt(specs, LabelColumn(Names(specs), chosen), included)
  }

  /** With the distinct column names of a table, the current revision as written
      validates the last column whatever name was chosen: it behaves as the intended
      `configure` asked for the last column by name. */
  lemma ConfigureNamedAsWrittenChecksLast(specs: seq<ColumnSpec>, chosen: string, included: seq<string>)
    requires Distinct(Names(specs))
    ensures |specs| > 0 ==>
      ConfigureNamedAsWritten(specs, chosen, included) == ConfigureNamed(specs, specs[|specs| - 1].name, included)
  {
    if |specs| >= 2 {
      var names := Names(specs);
      var last := specs[|specs| - 1].name;
      LabelColumnAsWrittenIsLast(names, chosen);
      assert names[|names| - 1] == last;
    }
  }

  /** The input that shows it: columns `cluster` (String) and `x` (Double) with `cluster`
      chosen and `x` included. As written the Double column `x` is checked and rejected;
      the intended `configure` accepts column 0. */
  lemma ConfigureNamedAsWrittenRejectsChoice()
    ensures var specs := [ColumnSpec("cluster", StringKind), ColumnSpec("x", DoubleKind)];
            && ConfigureNamedAsWritten(specs, "cluster", ["x"]).Err?
            && ConfigureNamed(specs, "cluster", ["x"]) == Ok(0)
  {
    var specs := [ColumnSpec("cluster", StringKind), ColumnSpec("x", DoubleKind)];
    assert Names(specs) == ["cluster", "x"];
    LabelColumnAsWrittenMissesChoice();
  }

  /** The table `configure` promises: the input's columns followed by one double column. */
  function OutputSpec(specs: seq<ColumnSpec>, name: string): (r: seq<ColumnSpec>)
    ensures |r| == |specs| + 1
    ensures forall i :: 0 <= i < |specs| ==> r[i] == specs[i]
    ensures r[|specs|] == ColumnSpec(name, DoubleKind)
  {
    specs + [ColumnSpec(name, DoubleKind)]
  }
}
