/** The statistics table of the stats view (`SilhouetteViewStatsPanel.draw`): one row of
    five statistics per cluster, an unweighted "Average" row, and the rating from 1 to 5
    that colours each cell by where it lies between its column's minimum and maximum. A
    cluster without coefficients is `None` here: its negative count is 0, and its other
    four statistics divide by 0 and are NaN, which `CellValue` renders as `None`. */
module ViewStats {
  import opened Wrappers
  import opened Library
  import opened Numbers

  /** `Double.MAX_VALUE`, (2^53 - 1) * 2^971. */
  const DoubleMaxValue: real := 179769313486231570814527423731704356798070567525844996598917476803157260780028538760589558632766878171540458953514382464234321326889464182768467546703537516986049910576551282076245490090389328944075868508455133942304583236903222948165808559332123348274797826204144723168738177180919299881250404026184124858368.0

  /** `Double.MIN_VALUE`: the smallest POSITIVE double, 2^-1074. */
  const DoubleMinValue: real := 1.0 / 202402253307310618352495346718917307049556649764142118356901358027430339567995346891960383701437124495187077864316811911389808737385793476867013399940738509921517424276566361364466907742093216341239767678472745068562007483424692698618103355649159556340810056512358769552333414615230502532186327508646006263307707741093494784.0

  /** One table row: average, root of the mean square, standard deviation, number of
      negative coefficients and their percentage, all held as doubles. */
  datatype Stats = Stats(avg: real, sqrAvg: real, stdDev: real, negCount: real, negPercent: real)

  /** The statistic in column `c`, in the order of the panel's `vals` array. */
  function Column(st: Stats, c: nat): real
    requires c < 5
  {
    if c == 0 then st.avg
    else if c == 1 then st.sqrAvg
    else if c == 2 then st.stdDev
    else if c == 3 then st.negCount
    else st.negPercent
  }

  /** The sum of the squared coefficients, each squared by `Math.pow`. */
  function SquareSum(lib: Library, s: seq<real>): real
  {
    if |s| == 0 then 0.0 else SquareSum(lib, s[..|s| - 1]) + lib.square(s[|s| - 1])
  }

  /** The sum of the squared deviations from `m`, each squared by `Math.pow`. */
  function DeviationSum(lib: Library, s: seq<real>, m: real): real
  {
    if |s| == 0 then 0.0 else DeviationSum(lib, s[..|s| - 1], m) + lib.square(s[|s| - 1] - m)
  }

  /** The value shown in column `c` of a cluster row, `None` for NaN. A cluster without
      coefficients shows its negative count 0 and NaN elsewhere. */
  function CellValue(row: Option<Stats>, c: nat): (v: Option<real>)
    requires c < 5
    ensures row.Some? ==> v == Some(Column(row.value, c))
    ensures row.None? ==> (v.Some? <==> c == 3) && (c == 3 ==> v == Some(0.0))
  {
    match row
    case Some(st) => Some(Column(st, c))
    case None => if c == 3 then Some(0.0) else None
  }

  /** Number of negative coefficients. */
  function NegCount(s: seq<real>): nat
  {
    if |s| == 0 then 0 else NegCount(s[..|s| - 1]) + (if s[|s| - 1] < 0.0 then 1 else 0)
  }

  /** The count is at most the length, zero exactly when no coefficient is negative, and
      the length exactly when all are. */
  lemma {:induction false} NegCountCounts(s: seq<real>)
    ensures NegCount(s) <= |s|
    ensures NegCount(s) == 0 <==> forall i :: 0 <= i < |s| ==> s[i] >= 0.0
    ensures NegCount(s) == |s| <==> forall i :: 0 <= i < |s| ==> s[i] < 0.0
  {
    if |s| > 0 {
      var t := s[..|s| - 1];
      NegCountCounts(t);
      assert forall i :: 0 <= i < |t| ==> t[i] == s[i];
    }
  }

  /** The row of one cluster with coefficients `s`: the per-cluster loop of the panel, its
      sums taken first and then divided by the cluster's size. */
  function ClusterStats(lib: Library, s: seq<real>): (r: Option<Stats>)
    ensures r.None? <==> |s| == 0
    ensures CellValue(r, 3) == Some(NegCount(s) as real)
    ensures forall c :: 0 <= c < 5 && c != 3 ==> (CellValue(r, c).None? <==> |s| == 0)
  {
    if |s| == 0 then None
    else
      NegCountAtMost(s);
      var n := |s| as real;
      Some(Row(lib, Sum(s), SquareSum(lib, s), DeviationSum(lib, s, Sum(s) / n), NegCount(s), |s|))
  }

  /** The five statistics from the sums of a cluster of `n` coefficients, `neg` of them
      negative. */
  function Row(lib: Library, total: real, squares: real, deviations: real, neg: nat, n: nat): Stats
    requires 0 < n && neg <= n
  {
    var size := n as real;
    Stats(total / size, lib.sqrt(squares / size), lib.sqrt(deviations / size), neg as real, (neg as real) * 100.0 / size)
  }

  /** The average times the size is the total, the percentage is the share of negatives out
      of 100, and with a lawful square root each root squares back to its mean. */
  lemma RowMeaning(lib: Library, total: real, squares: real, deviations: real, neg: nat, n: nat)
    requires 0 < n && neg <= n
    ensures var st := Row(lib, total, squares, deviations, neg, n);
            && st.avg * (n as real) == total
            && st.negPercent * (n as real) == st.negCount * 100.0
            && 0.0 <= st.negPercent <= 100.0
    ensures var st := Row(lib, total, squares, deviations, neg, n);
            LawfulSqrt(lib) && squares >= 0.0 ==> st.sqrAvg >= 0.0 && st.sqrAvg * st.sqrAvg * (n as real) == squares
    ensures var st := Row(lib, total, squares, deviations, neg, n);
            LawfulSqrt(lib) && deviations >= 0.0 ==> st.stdDev >= 0.0 && st.stdDev * st.stdDev * (n as real) == deviations
  {
    var size := n as real;
    var st := Row(lib, total, squares, deviations, neg, n);
    QuotientTimesDivisor(total, size);
    QuotientTimesDivisor((neg as real) * 100.0, size);
    PercentBounds(neg as real, size, st.negPercent);
    if LawfulSqrt(lib) && squares >= 0.0 {
      RootMeanSquared(lib, squares, size);
    }
    if LawfulSqrt(lib) && deviations >= 0.0 {
      RootMeanSquared(lib, deviations, size);
    }
  }

  /** A lawful root of a non-negative total over `n` squares back to the total over `n`. */
  lemma RootMeanSquared(lib: Library, total: real, n: real)
    requires LawfulSqrt(lib) && total >= 0.0 && n > 0.0
    ensures lib.sqrt(total / n) >= 0.0 && lib.sqrt(total / n) * lib.sqrt(total / n) * n == total
  {
    var m := total / n;
    QuotientTimesDivisor(total, n);
    assert lib.sqrt(m) * lib.sqrt(m) == m;
  }

  /** The average is the mean of the coefficients. */
  lemma ClusterStatsAverage(lib: Library, s: seq<real>)
    requires |s| > 0
    ensures ClusterStats(lib, s).value.avg * (|s| as real) == Sum(s)
  {
    QuotientTimesDivisor(Sum(s), |s| as real);
  }

  /** The negatives' percentage is their share of the cluster, between 0 and 100. */
  lemma ClusterStatsNegatives(lib: Library, s: seq<real>)
    requires |s| > 0
    ensures var st := ClusterStats(lib, s).value;
            && 0.0 <= st.negCount <= |s| as real
            && st.negPercent * (|s| as real) == st.negCount * 100.0
            && 0.0 <= st.negPercent <= 100.0
  {
    NegCountAtMost(s);
    RowMeaning(lib, Sum(s), SquareSum(lib, s), DeviationSum(lib, s, Sum(s) / (|s| as real)), NegCount(s), |s|);
  }



  lemma PercentBounds(k: real, n: real, q: real)
    requires 0.0 <= k <= n && n > 0.0 && q * n == k * 100.0
    ensures 0.0 <= q <= 100.0
  {
    assert (100.0 - q) * n == (n - k) * 100.0;
  }



  /** With a non-negative square, the sum of squares is non-negative. */
  lemma {:induction false} SquareSumNonNegative(lib: Library, s: seq<real>)
    requires NonNegativeSquare(lib)
    ensures SquareSum(lib, s) >= 0.0
  {
    if |s| > 0 {
      SquareSumNonNegative(lib, s[..|s| - 1]);
      var x := s[|s| - 1];
      assert lib.square(x) >= 0.0;
    }
  }

  /** With a non-negative square, the sum of squared deviations is non-negative. */
  lemma {:induction false} DeviationSumNonNegative(lib: Library, s: seq<real>, m: real)
    requires NonNegativeSquare(lib)
    ensures DeviationSum(lib, s, m) >= 0.0
  {
    if |s| > 0 {
      DeviationSumNonNegative(lib, s[..|s| - 1], m);
      assert lib.square(s[|s| - 1] - m) >= 0.0;
    }
  }

  /** The number of negatives is at most the cluster's size. */
  lemma {:induction false} NegCountAtMost(s: seq<real>)
    ensures NegCount(s) <= |s|
  {
    if |s| > 0 {
      NegCountAtMost(s[..|s| - 1]);
    }
  }


  /** With a lawful square root and square, "Sqr. Avg." is the root of the mean square. */
  lemma ClusterStatsSquareAverage(lib: Library, s: seq<real>)
    requires LawfulSqrt(lib) && NonNegativeSquare(lib) && |s| > 0
    ensures var st := ClusterStats(lib, s).value;
            st.sqrAvg >= 0.0 && st.sqrAvg * st.sqrAvg * (|s| as real) == SquareSum(lib, s)
  {
    var avg := Sum(s) / (|s| as real);
    NegCountAtMost(s);
    SquareSumNonNegative(lib, s);
    RowMeaning(lib, Sum(s), SquareSum(lib, s), DeviationSum(lib, s, avg), NegCount(s), |s|);
  }

  /** With a lawful square root and square, the standard deviation is the root of the mean
      squared deviation from the average. */
  lemma ClusterStatsDeviation(lib: Library, s: seq<real>)
    requires LawfulSqrt(lib) && NonNegativeSquare(lib) && |s| > 0
    ensures var st := ClusterStats(lib, s).value;
            st.stdDev >= 0.0 && st.stdDev * st.stdDev * (|s| as real) == DeviationSum(lib, s, st.avg)
  {
    var avg := Sum(s) / (|s| as real);
    NegCountAtMost(s);
    DeviationSumNonNegative(lib, s, avg);
    RowMeaning(lib, Sum(s), SquareSum(lib, s), DeviationSum(lib, s, avg), NegCount(s), |s|);
  }

  /** A lawful square root of a square is the non-negative base. */
  lemma SqrtOfSquare(lib: Library, y: real)
    requires LawfulSqrt(lib) && y >= 0.0
    ensures lib.sqrt(y * y) == y
  {
    var r := lib.sqrt(y * y);
    assert r >= 0.0 && r * r == y * y;
    assert (r - y) * (r + y) == 0.0;
    ProductZero(r - y, r + y);
  }

  /** Coefficients 0.5 and -0.5: average 0, one negative (50%), and both roots 0.5. */
  lemma HalfAndHalf(lib: Library)
    requires LawfulSqrt(lib) && LawfulSquare(lib)
    ensures ClusterStats(lib, [0.5, -0.5]) == Some(Stats(0.0, 0.5, 0.5, 1.0, 50.0))
  {
    var s := [0.5, -0.5];
    assert s[..1][..0] == [];
    assert Sum(s) == 0.0;
    assert NegCount(s[..1]) == 0;
    assert NegCount(s) == 1;
    assert lib.square(0.5) == 0.25 && lib.square(-0.5) == 0.25;
    assert s[..1][0] == 0.5;
    assert SquareSum(lib, s[..1]) == 0.25;
    assert SquareSum(lib, s) == 0.5;
    assert DeviationSum(lib, s[..1], 0.0) == 0.25;
    assert DeviationSum(lib, s, 0.0) == 0.5;
    SqrtOfSquare(lib, 0.5);
  }

  // ---------------------------------------------------------------------------
  // The average row

  /** Whether column `c` holds a number in every cluster row. */
  predicate ColumnPresent(rows: seq<Option<Stats>>, c: nat)
    requires c < 5
  {
    forall k :: 0 <= k < |rows| ==> CellValue(rows[k], c).Some?
  }

  /** Column `c` summed over rows whose values in it are all numbers. */
  function ColumnSum(rows: seq<Option<Stats>>, c: nat): real
    requires c < 5 && ColumnPresent(rows, c)
  {
    if |rows| == 0 then 0.0
    else
      var init := rows[..|rows| - 1];
      assert ColumnPresent(init, c) by {
        forall k | 0 <= k < |init| ensures CellValue(init[k], c).Some? {
          assert init[k] == rows[k];
        }
      }
      ColumnSum(init, c) + CellValue(rows[|rows| - 1], c).value
  }

  /** One cell of the "Average" row: the column summed over the clusters and divided by
      their number. No clusters (0 / 0) or a NaN in the column make it NaN. */
  function AverageCell(rows: seq<Option<Stats>>, c: nat): (r: Option<real>)
    requires c < 5
    ensures r.None? <==> |rows| == 0 || !ColumnPresent(rows, c)
    ensures r.Some? ==> r.value * (|rows| as real) == ColumnSum(rows, c)
  {
    if |rows| == 0 || !ColumnPresent(rows, c) then None
    else
      QuotientTimesDivisor(ColumnSum(rows, c), |rows| as real);
      Some(ColumnSum(rows, c) / (|rows| as real))
  }

  /** The "Average" row, column by column, whatever each cluster's size. */
  function AverageRow(rows: seq<Option<Stats>>): (r: seq<Option<real>>)
    ensures |r| == 5
    ensures forall c :: 0 <= c < 5 ==> (r[c].None? <==> |rows| == 0 || !ColumnPresent(rows, c))
    ensures forall c :: 0 <= c < 5 && r[c].Some? ==> r[c].value * (|rows| as real) == ColumnSum(rows, c)
  {
    seq(5, c requires 0 <= c < 5 => AverageCell(rows, c))
  }

  lemma {:induction false} ColumnSumConstant(rows: seq<Option<Stats>>, st: Stats, c: nat)
    requires c < 5 && forall k :: 0 <= k < |rows| ==> rows[k] == Some(st)
    ensures ColumnPresent(rows, c)
    ensures ColumnSum(rows, c) == (|rows| as real) * Column(st, c)
  {
    if |rows| > 0 {
      ColumnSumConstant(rows[..|rows| - 1], st, c);
    }
  }

  /** Clusters with identical rows average to that row. */
  lemma AverageOfEqualRows(rows: seq<Option<Stats>>, st: Stats)
    requires |rows| > 0 && forall k :: 0 <= k < |rows| ==> rows[k] == Some(st)
    ensures forall c :: 0 <= c < 5 ==> AverageRow(rows)[c] == Some(Column(st, c))
  {
    var n := |rows| as real;
    forall c | 0 <= c < 5
      ensures AverageRow(rows)[c] == Some(Column(st, c))
    {
      ColumnSumConstant(rows, st, c);
      assert AverageRow(rows)[c].value * n == n * Column(st, c);
    }
  }

  /** The average row is not weighted by cluster size: a cluster {1} and a cluster
      {0, 0, 0} average to 0.5, while the mean over all four rows is 0.25. */
  lemma AverageIsUnweighted(lib: Library)
    ensures AverageRow([ClusterStats(lib, [1.0]), ClusterStats(lib, [0.0, 0.0, 0.0])])[0] == Some(0.5)
    ensures Sum([1.0, 0.0, 0.0, 0.0]) / 4.0 == 0.25
  {
    var a := [1.0];
    var b := [0.0, 0.0, 0.0];
    assert a[..0] == [];
    assert Sum(a) == 1.0;
    assert b[..2][..1][..0] == [];
    assert Sum(b) == 0.0;
    var rows := [ClusterStats(lib, a), ClusterStats(lib, b)];
    assert rows[0].value.avg == 1.0 && rows[1].value.avg == 0.0;
    assert rows[..1][..0] == [];
    assert ColumnSum(rows[..1], 0) == 1.0;
    assert ColumnSum(rows, 0) == 1.0;
    var q1, q2, q3, q := [1.0], [1.0, 0.0], [1.0, 0.0, 0.0], [1.0, 0.0, 0.0, 0.0];
    assert q1[..0] == [] && q2[..1] == q1 && q3[..2] == q2 && q[..3] == q3;
    assert Sum(q1) == 1.0;
    assert Sum(q2) == 1.0;
    assert Sum(q3) == 1.0;
  }

  /** A cluster without coefficients leaves the average's negative count a number: with a
      cluster {-0.5} it is 0.5, while the average column itself is NaN. */
  lemma EmptyClusterKeepsCountAverage(lib: Library)
    ensures AverageRow([ClusterStats(lib, [-0.5]), ClusterStats(lib, [])])[3] == Some(0.5)
    ensures AverageRow([ClusterStats(lib, [-0.5]), ClusterStats(lib, [])])[0].None?
  {
    var a := [-0.5];
    assert a[..0] == [];
    assert NegCount(a) == 1;
    var rows := [ClusterStats(lib, a), ClusterStats(lib, [])];
    assert rows[..1][..0] == [];
    assert ColumnSum(rows[..1], 3) == 1.0;
    assert ColumnSum(rows, 3) == 1.0;
    assert CellValue(rows[1], 0).None?;
  }

  // ---------------------------------------------------------------------------
  // Column extremes

  /** A running extreme of column `c`: the minimum when `lower`, else the maximum,
      starting from `start`. A NaN row never compares below or above anything. */
  function Extreme(rows: seq<Option<Stats>>, c: nat, start: real, lower: bool): real
    requires c < 5
  {
    if |rows| == 0 then start
    else
      var m := Extreme(rows[..|rows| - 1], c, start, lower);
      match CellValue(rows[|rows| - 1], c)
      case None => m
      case Some(v) =>
        if lower && v < m then v
        else if !lower && v > m then v
        else m
  }

  /** The column's minimum as the panel computes it, starting from `Double.MAX_VALUE`. */
  function ColumnMin(rows: seq<Option<Stats>>, c: nat): real
    requires c < 5
  {
    Extreme(rows, c, DoubleMaxValue, true)
  }

  /** The column's maximum as written: the running maximum starts from
      `Double.MIN_VALUE`, which is the smallest positive double, not the most negative. */
  function ColumnMaxAsWritten(rows: seq<Option<Stats>>, c: nat): real
    requires c < 5
  {
    Extreme(rows, c, DoubleMinValue, false)
  }

  /** The column's maximum as evidently intended, starting from `-Double.MAX_VALUE`. */
  function ColumnMax(rows: seq<Option<Stats>>, c: nat): real
    requires c < 5
  {
    Extreme(rows, c, -DoubleMaxValue, false)
  }

  ghost predicate Attained(rows: seq<Option<Stats>>, c: nat, v: real)
    requires c < 5
  {
    exists k :: 0 <= k < |rows| && CellValue(rows[k], c) == Some(v)
  }

  /** A running extreme is the start or a present value, and bounds the start and every
      present value. */
  lemma {:induction false} ExtremeBounds(rows: seq<Option<Stats>>, c: nat, start: real, lower: bool)
    requires c < 5
    ensures var m := Extreme(rows, c, start, lower);
            m == start || Attained(rows, c, m)
    ensures var m := Extreme(rows, c, start, lower);
            lower ==> m <= start && forall k :: 0 <= k < |rows| && CellValue(rows[k], c).Some? ==> m <= CellValue(rows[k], c).value
    ensures var m := Extreme(rows, c, start, lower);
            !lower ==> m >= start && forall k :: 0 <= k < |rows| && CellValue(rows[k], c).Some? ==> m >= CellValue(rows[k], c).value
  {
    if |rows| > 0 {
      var t := rows[..|rows| - 1];
      ExtremeBounds(t, c, start, lower);
      assert forall k :: 0 <= k < |t| ==> t[k] == rows[k];
      var m := Extreme(t, c, start, lower);
      if m != start {
        var k :| 0 <= k < |t| && CellValue(t[k], c) == Some(m);
        assert CellValue(rows[k], c) == Some(m);
      }
    }
  }

  /** When some cluster row is present and every present value is below
      `Double.MAX_VALUE`, the column minimum is the least present value. */
  lemma ColumnMinIsMinimum(rows: seq<Option<Stats>>, c: nat)
    requires c < 5
    requires exists k :: 0 <= k < |rows| && CellValue(rows[k], c).Some?
    requires forall k :: 0 <= k < |rows| && CellValue(rows[k], c).Some? ==> CellValue(rows[k], c).value < DoubleMaxValue
    ensures Attained(rows, c, ColumnMin(rows, c))
    ensures forall k :: 0 <= k < |rows| && CellValue(rows[k], c).Some? ==> ColumnMin(rows, c) <= CellValue(rows[k], c).value
  {
    ExtremeBounds(rows, c, DoubleMaxValue, true);
  }

  /** The intended maximum: when some row is present and every present value is above
      `-Double.MAX_VALUE`, it is the greatest present value. */
  lemma ColumnMaxIsMaximum(rows: seq<Option<Stats>>, c: nat)
    requires c < 5
    requires exists k :: 0 <= k < |rows| && CellValue(rows[k], c).Some?
    requires forall k :: 0 <= k < |rows| && CellValue(rows[k], c).Some? ==> CellValue(rows[k], c).value > -DoubleMaxValue
    ensures Attained(rows, c, ColumnMax(rows, c))
    ensures forall k :: 0 <= k < |rows| && CellValue(rows[k], c).Some? ==> ColumnMax(rows, c) >= CellValue(rows[k], c).value
  {
    ExtremeBounds(rows, c, -DoubleMaxValue, false);
  }

  /** As written, a column whose present values are all at most 0 gets `Double.MIN_VALUE`
      as its maximum, a value no cluster has. */
  lemma ColumnMaxAsWrittenMissesNonPositive(rows: seq<Option<Stats>>, c: nat)
    requires c < 5
    requires forall k :: 0 <= k < |rows| && CellValue(rows[k], c).Some? ==> CellValue(rows[k], c).value <= 0.0
    ensures ColumnMaxAsWritten(rows, c) == DoubleMinValue
    ensures !Attained(rows, c, ColumnMaxAsWritten(rows, c))
  {
    ExtremeBounds(rows, c, DoubleMinValue, false);
  }

  // ---------------------------------------------------------------------------
  // Ratings

  /** The rating of a band: 5 for a ratio below 0.2, down to 1 from 0.8 on. */
  function Band(ratio: real): (r: nat)
    ensures 1 <= r <= 5
  {
    if ratio < 0.2 then 5
    else if ratio < 0.4 then 4
    else if ratio < 0.6 then 3
    else if ratio < 0.8 then 2
    else 1
  }

  /** `fifths`: 0 when the column's range rounds to 0, otherwise the band of the value's
      relative position in the range, the position inverted when lower is better. */
  function Fifths(val: real, min: real, max: real, higherIsBetter: bool): (r: nat)
    ensures r <= 5
    ensures r == 0 <==> -0.005 < max - min < 0.005
  {
    Round2ZeroIff(max - min);
    var diff := max - min;
    if Round2(diff) == 0.0 then 0
    else
      var ratio := (val - min) / diff;
      Band(if higherIsBetter then ratio else 1.0 - ratio)
  }

  lemma DivideMonotone(a: real, b: real, d: real)
    requires d > 0.0 && a <= b
    ensures a / d <= b / d
  {
    var x := b / d - a / d;
    assert (a / d) * d == a && (b / d) * d == b;
    assert x * d == b - a;
  }

  /** For higher-is-better columns the rating never rises as the value rises. */
  lemma FifthsMonotone(v1: real, v2: real, min: real, max: real)
    requires min < max && v1 <= v2
    ensures Fifths(v1, min, max, true) >= Fifths(v2, min, max, true)
  {
    if Round2(max - min) != 0.0 {
      DivideMonotone(v1 - min, v2 - min, max - min);
    }
  }

  /** Lower-is-better rates a value as higher-is-better rates its mirror image in the
      range. */
  lemma FifthsMirror(val: real, min: real, max: real)
    ensures Fifths(val, min, max, false) == Fifths(min + max - val, min, max, true)
  {
    var diff := max - min;
    if Round2(diff) != 0.0 {
      var q1 := (val - min) / diff;
      var q2 := (min + max - val - min) / diff;
      assert q1 * diff == val - min;
      assert q2 * diff == max - val;
      assert (q1 + q2 - 1.0) * diff == 0.0;
      ProductZero(q1 + q2 - 1.0, diff);
    }
  }

  /** For lower-is-better columns the rating never falls as the value rises. */
  lemma FifthsMonotoneLower(v1: real, v2: real, min: real, max: real)
    requires min < max && v1 <= v2
    ensures Fifths(v1, min, max, false) <= Fifths(v2, min, max, false)
  {
    FifthsMirror(v1, min, max);
    FifthsMirror(v2, min, max);
    FifthsMonotone(min + max - v2, min + max - v1, min, max);
  }

  /** `getValueRating` for table column `col` (1 to 5): average, square average and
      standard deviation count as higher-is-better, the negative count and percentage
      as lower-is-better. */
  function ValueRating(val: real, col: nat, mins: seq<real>, maxs: seq<real>): (r: nat)
    requires 1 <= col <= 5 && |mins| == 5 && |maxs| == 5
    ensures r <= 5
    ensures r == 0 <==> -0.005 < maxs[col - 1] - mins[col - 1] < 0.005
  {
    Fifths(val, mins[col - 1], maxs[col - 1], col <= 3)
  }

  /** The rating of cluster row `k` in column `col`, with the column extremes `maxOf`
      gives. A NaN value falls through every band comparison to 1. */
  function CellRating(rows: seq<Option<Stats>>, k: nat, col: nat, maxOf: (seq<Option<Stats>>, nat) -> real): (r: nat)
    requires k < |rows| && 1 <= col <= 5
    ensures r <= 5
    ensures r == 0 <==> -0.005 < maxOf(rows, col - 1) - ColumnMin(rows, col - 1) < 0.005
  {
    var mins := seq(5, c requires 0 <= c < 5 => ColumnMin(rows, c));
    var maxs := seq(5, c requires 0 <= c < 5 => maxOf(rows, c));
    match CellValue(rows[k], col - 1)
    case None => if Round2(maxs[col - 1] - mins[col - 1]) == 0.0 then 0 else 1
    case Some(v) => ValueRating(v, col, mins, maxs)
  }

  /** The empty cluster's count 0 takes part in the column's minimum: next to clusters with
      2 and 4 negatives it moves the first cluster's count cell from the best band to the
      middle one. */
  lemma EmptyClusterLowersCountMinimum()
    ensures var rows := [Some(Stats(0.0, 0.0, 0.0, 2.0, 50.0)), Some(Stats(0.0, 0.0, 0.0, 4.0, 100.0))];
            var maxOf := (r: seq<Option<Stats>>, c: nat) => if c < 5 then ColumnMax(r, c) else 0.0;
            CellRating(rows, 0, 4, maxOf) == 1 && CellRating(rows + [None], 0, 4, maxOf) == 3
  {
    var rows := [Some(Stats(0.0, 0.0, 0.0, 2.0, 50.0)), Some(Stats(0.0, 0.0, 0.0, 4.0, 100.0))];
    var all := rows + [None];
    assert rows[..1][..0] == [] && all[..2] == rows;
    assert Extreme(rows[..1], 3, DoubleMaxValue, true) == 2.0;
    assert Extreme(rows[..1], 3, -DoubleMaxValue, false) == 2.0;
    assert ColumnMin(rows, 3) == 2.0;
    assert ColumnMax(rows, 3) == 4.0;
    assert ColumnMin(all, 3) == 0.0;
    assert ColumnMax(all, 3) == 4.0;
    assert 2.0 / 4.0 == 0.5;
  }

  /** Two clusters with averages -0.4 and -0.2: as written the second is rated 3 in the
      average column, since the maximum is taken to be `Double.MIN_VALUE`; with the true
      maximum it is the best of the column and rated 1. */
  lemma NegativeAveragesMisrated()
    ensures var rows := [Some(Stats(-0.4, 0.4, 0.0, 2.0, 100.0)), Some(Stats(-0.2, 0.2, 0.0, 1.0, 100.0))];
            CellRating(rows, 1, 1, (r: seq<Option<Stats>>, c: nat) => if c < 5 then ColumnMaxAsWritten(r, c) else 0.0) == 3
            && CellRating(rows, 1, 1, (r: seq<Option<Stats>>, c: nat) => if c < 5 then ColumnMax(r, c) else 0.0) == 1
  {
    var rows := [Some(Stats(-0.4, 0.4, 0.0, 2.0, 100.0)), Some(Stats(-0.2, 0.2, 0.0, 1.0, 100.0))];
    assert rows[..1][..0] == [];
    assert Extreme(rows[..1], 0, DoubleMaxValue, true) == -0.4;
    assert Extreme(rows[..1], 0, DoubleMinValue, false) == DoubleMinValue;
    assert Extreme(rows[..1], 0, -DoubleMaxValue, false) == -0.4;
    assert ColumnMin(rows, 0) == -0.4;
    assert ColumnMaxAsWritten(rows, 0) == DoubleMinValue;
    assert ColumnMax(rows, 0) == -0.2;
    var d := DoubleMinValue + 0.4;
    assert 0.4 <= 0.2 / d < 0.6 by {
      assert (0.2 / d) * d == 0.2;
    }
    assert 0.2 / 0.2 == 1.0;
  }
}
