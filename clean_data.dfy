/** `clean_data`: missing values are either filled, column by column, with
    the mean or the median of the column's values, or the rows that hold
    them are dropped. */
module Cleaning {
  import opened Tables
  import opened Numeric

  /** The cells of column `c`, top to bottom. */
  function ColumnCells(t: Table, c: nat): (cells: seq<Cell>)
    requires Valid(t) && c < |t.columns|
    ensures |cells| == |t.rows|
  {
    seq(|t.rows|, i requires 0 <= i < |t.rows| => t.rows[i][c])
  }

  /** The values that are not missing, in order. */
  function Present(cells: seq<Cell>): (r: seq<Cell>)
    ensures |r| <= |cells|
    ensures forall k :: 0 <= k < |r| ==> !r[k].Null? && r[k] in cells
    decreases |cells|
  {
    if cells == [] then []
    else
      var n := |cells| - 1;
      Present(cells[..n]) + if cells[n].Null? then [] else [cells[n]]
  }

  /** Every value that is not missing is kept. */
  lemma {:induction false} PresentKeepsValues(cells: seq<Cell>, k: nat)
    requires k < |cells| && !cells[k].Null?
    ensures cells[k] in Present(cells)
    decreases |cells|
  {
    var n := |cells| - 1;
    if k < n {
      PresentKeepsValues(cells[..n], k);
    }
  }

  /** A column pandas counts as numeric: every value it holds is a number. */
  predicate IsNumericColumn(cells: seq<Cell>) {
    forall k :: 0 <= k < |cells| ==> IsArithmetic(cells[k])
  }

  datatype Statistic = MeanOf | MedianOf

  /** `Series.mean()` or `Series.median()` of a numeric column: missing
      values are skipped, and a column without values gives a missing
      value. */
  function StatisticOf(stat: Statistic, cells: seq<Cell>): (r: Cell)
    requires IsNumericColumn(cells)
    ensures Present(cells) == [] ==> r.Null?
  {
    var values := Present(cells);
    if values == [] then Null
    else
      assert AllNumbers(values) by {
        forall k | 0 <= k < |values| ensures IsNumber(values[k]) {
          assert values[k] in cells;
        }
      }
      if stat == MeanOf then Mean(values) else Median(values)
  }

  /** `cells.fillna(v)`. */
  function FillWith(cells: seq<Cell>, v: Cell): (r: seq<Cell>)
    ensures |r| == |cells|
  {
    seq(|cells|, k requires 0 <= k < |cells| => if cells[k].Null? then v else cells[k])
  }

  /** `df.fillna(df.mean(numeric_only=True))`, or with the median: the
      statistic of each numeric column, then every missing cell of such a
      column replaced by it. */
  function FillNa(t: Table, stat: Statistic): (r: Table)
    requires Valid(t)
    ensures Valid(r) && r.columns == t.columns && |r.rows| == |t.rows|
  {
    var fills := seq(|t.columns|, c requires 0 <= c < |t.columns| =>
                   if IsNumericColumn(ColumnCells(t, c)) then Some(StatisticOf(stat, ColumnCells(t, c))) else None);
    Table(t.columns, seq(|t.rows|, i requires 0 <= i < |t.rows| =>
                           seq(|t.columns|, c requires 0 <= c < |t.columns| =>
                                 if t.rows[i][c].Null? && fills[c].Some? then fills[c].value else t.rows[i][c])))
  }

  /** Filling touches only the missing cells of numeric columns, each of
      which takes its column's statistic. */
  lemma FillNaColumn(t: Table, stat: Statistic, c: nat)
    requires Valid(t) && c < |t.columns|
    ensures ColumnCells(FillNa(t, stat), c)
            == if IsNumericColumn(ColumnCells(t, c)) then FillWith(ColumnCells(t, c), StatisticOf(stat, ColumnCells(t, c)))
               else ColumnCells(t, c)
  {
  }

  /** A row without missing values. */
  predicate Complete(row: Row) {
    forall k :: 0 <= k < |row| ==> !row[k].Null?
  }

  /** `df.dropna()`: the rows without missing values, in their order. */
  function DropNa(rows: seq<Row>): (r: seq<Row>)
    ensures |r| <= |rows|
    ensures forall k :: 0 <= k < |r| ==> Complete(r[k]) && r[k] in rows
    decreases |rows|
  {
    if rows == [] then []
    else
      var n := |rows| - 1;
      DropNa(rows[..n]) + if Complete(rows[n]) then [rows[n]] else []
  }

  /** Every complete row is kept. */
  lemma {:induction false} DropNaKeepsComplete(rows: seq<Row>, i: nat)
    requires i < |rows| && Complete(rows[i])
    ensures rows[i] in DropNa(rows)
    decreases |rows|
  {
    var n := |rows| - 1;
    if i < n {
      DropNaKeepsComplete(rows[..n], i);
    }
  }

  /** Rows that are all complete are kept as they are. */
  lemma {:induction false} DropNaOfComplete(rows: seq<Row>)
    requires forall i :: 0 <= i < |rows| ==> Complete(rows[i])
    ensures DropNa(rows) == rows
    decreases |rows|
  {
    if rows != [] {
      var n := |rows| - 1;
      DropNaOfComplete(rows[..n]);
      assert rows == rows[..n] + [rows[n]];
    }
  }

  /** Dropping is settled after one application. */
  lemma DropNaIdempotent(rows: seq<Row>)
    ensures DropNa(DropNa(rows)) == DropNa(rows)
  {
    DropNaOfComplete(DropNa(rows));
  }

  /** Dropping changes nothing exactly when every row is complete. */
  lemma DropNaUnchanged(rows: seq<Row>)
    ensures DropNa(rows) == rows <==> forall i :: 0 <= i < |rows| ==> Complete(rows[i])
  {
    if forall i :: 0 <= i < |rows| ==> Complete(rows[i]) {
      DropNaOfComplete(rows);
    }
  }

  /** `clean_data` on a table already read: `mean` (the default) and
      `median` fill, `drop` removes incomplete rows, anything else is an
      unknown method. */
  function CleanTable(t: Table, how: string := "mean"): (r: Result<Table>)
    requires Valid(t)
    ensures how !in {"mean", "median", "drop"} ==> r == Err(UnknownMethod(how))
    ensures r.Ok? ==> Valid(r.value) && r.value.columns == t.columns
    ensures how == "mean" ==> r == Ok(FillNa(t, MeanOf))
    ensures how == "median" ==> r == Ok(FillNa(t, MedianOf))
    ensures how == "drop" ==> r.Ok? && r.value.rows == DropNa(t.rows)
  {
    if how == "mean" then Ok(FillNa(t, MeanOf))
    else if how == "median" then Ok(FillNa(t, MedianOf))
    else if how == "drop" then
      var rows := DropNa(t.rows);
      assert forall k :: 0 <= k < |rows| ==> |rows[k]| == |t.columns| by {
        forall k | 0 <= k < |rows| ensures |rows[k]| == |t.columns| {
          var i :| 0 <= i < |t.rows| && t.rows[i] == rows[k];
        }
      }
      Ok(Table(t.columns, rows))
    else Err(UnknownMethod(how))
  }

  /** A reader whose tables are well formed. */
  ghost predicate ReadsTables(read: string -> Result<Table>) {
    forall s :: read(s).Ok? ==> Valid(read(s).value)
  }

  /** `clean_data(df_json, method)`: the text is read first, so a parse
      error wins over an unknown method; the cleaned table is written back
      as text. */
  function CleanData(read: string -> Result<Table>, write: Table -> string, text: string, how: string := "mean"): (r: Result<string>)
    requires ReadsTables(read)
    ensures read(text).Err? ==> r == Err(read(text).error)
    ensures read(text).Ok? ==> r == (var u :- CleanTable(read(text).value, how); Ok(write(u)))
  {
    var t :- read(text);
    var u :- CleanTable(t, how);
    Ok(write(u))
  }

  // ---------------------------------------------------------------------
  // What filling guarantees on columns of finite values

  /** A numeric column whose values are all finite. */
  predicate FiniteColumn(cells: seq<Cell>) {
    forall k :: 0 <= k < |cells| ==> cells[k].Null? || IsFinite(cells[k])
  }

  lemma PresentFinite(cells: seq<Cell>)
    requires FiniteColumn(cells)
    ensures AllFinite(Present(cells))
  {
    var values := Present(cells);
    forall k | 0 <= k < |values| ensures IsFinite(values[k]) {
      assert values[k] in cells;
    }
  }

  /** The fill value of a finite column with at least one value is a
      number, not a missing value. */
  lemma StatisticIsReal(stat: Statistic, cells: seq<Cell>)
    requires FiniteColumn(cells) && Present(cells) != []
    ensures StatisticOf(stat, cells).Real?
  {
    var values := Present(cells);
    PresentFinite(cells);
    if stat == MeanOf {
      MeanOfFinite(values);
    } else {
      MedianBounds(values);
    }
  }

  /** The mean fill value lies within any bounds all the column's values
      respect. */
  lemma MeanInRange(cells: seq<Cell>, lo: real, hi: real)
    requires FiniteColumn(cells) && Present(cells) != []
    requires forall k :: 0 <= k < |cells| && !cells[k].Null? ==> lo <= ToReal(cells[k]) <= hi
    ensures StatisticOf(MeanOf, cells).Real? && lo <= StatisticOf(MeanOf, cells).r <= hi
  {
    var values := Present(cells);
    PresentFinite(cells);
    forall k | 0 <= k < |values| ensures lo <= ToReal(values[k]) <= hi {
      assert values[k] in cells;
    }
    MeanBounds(values, lo, hi);
  }

  /** Some value of the column is at most `x`. */
  predicate SomeValueAtMost(cells: seq<Cell>, x: real)
    requires FiniteColumn(cells)
  {
    exists k :: 0 <= k < |cells| && !cells[k].Null? && ToReal(cells[k]) <= x
  }

  /** Some value of the column is at least `x`. */
  predicate SomeValueAtLeast(cells: seq<Cell>, x: real)
    requires FiniteColumn(cells)
  {
    exists k :: 0 <= k < |cells| && !cells[k].Null? && x <= ToReal(cells[k])
  }

  /** The median fill value has a value of the column at or below it and
      one at or above it. */
  lemma MedianInRange(cells: seq<Cell>)
    requires FiniteColumn(cells) && Present(cells) != []
    ensures StatisticOf(MedianOf, cells).Real?
    ensures SomeValueAtMost(cells, StatisticOf(MedianOf, cells).r)
    ensures SomeValueAtLeast(cells, StatisticOf(MedianOf, cells).r)
  {
    var values := Present(cells);
    PresentFinite(cells);
    MedianBounds(values);
    var m := Median(values);
    assert StatisticOf(MedianOf, cells) == m;
    var i :| 0 <= i < |values| && ToReal(values[i]) <= m.r;
    var j :| 0 <= j < |values| && m.r <= ToReal(values[j]);
    assert values[i] in cells && values[j] in cells;
    var a :| 0 <= a < |cells| && cells[a] == values[i];
    var b :| 0 <= b < |cells| && cells[b] == values[j];
    assert 0 <= a < |cells| && !cells[a].Null? && ToReal(cells[a]) <= m.r;
    assert 0 <= b < |cells| && !cells[b].Null? && m.r <= ToReal(cells[b]);
  }

  /** Once filled, a finite column with at least one value has no missing
      value left. */
  lemma FillLeavesNoGaps(t: Table, stat: Statistic, c: nat)
    requires Valid(t) && c < |t.columns|
    requires FiniteColumn(ColumnCells(t, c)) && Present(ColumnCells(t, c)) != []
    ensures forall i :: 0 <= i < |t.rows| ==> !FillNa(t, stat).rows[i][c].Null?
  {
    var cells := ColumnCells(t, c);
    StatisticIsReal(stat, cells);
    FillNaColumn(t, stat, c);
    forall i | 0 <= i < |t.rows| ensures !FillNa(t, stat).rows[i][c].Null? {
      assert ColumnCells(FillNa(t, stat), c)[i] == FillNa(t, stat).rows[i][c];
    }
  }

  lemma RealSumSnoc(s: seq<Cell>, x: Cell)
    requires AllFinite(s) && IsFinite(x)
    ensures AllFinite(s + [x]) && RealSum(s + [x]) == RealSum(s) + ToReal(x)
  {
    assert (s + [x])[..|s|] == s;
  }

  lemma FillWithSnoc(cells: seq<Cell>, v: Cell)
    requires cells != []
    ensures FillWith(cells, v) == FillWith(cells[..|cells| - 1], v) + [if cells[|cells| - 1].Null? then v else cells[|cells| - 1]]
  {
  }

  /** `n` copies of `mu` added up. */
  function Times(n: nat, mu: real): real {
    if n == 0 then 0.0 else Times(n - 1, mu) + mu
  }

  lemma {:induction false} TimesIsProduct(n: nat, mu: real)
    ensures Times(n, mu) == n as real * mu
    decreases n
  {
    if n > 0 {
      TimesIsProduct(n - 1, mu);
      assert n as real * mu == (n - 1) as real * mu + mu;
    }
  }

  /** Filling missing values with `Real(mu)` adds `mu` once per gap to the
      sum of the values. */
  lemma {:induction false} FilledSum(cells: seq<Cell>, mu: real)
    requires FiniteColumn(cells)
    ensures AllFinite(FillWith(cells, Real(mu))) && AllFinite(Present(cells))
    ensures RealSum(FillWith(cells, Real(mu))) == RealSum(Present(cells)) + Times(|cells| - |Present(cells)|, mu)
    decreases |cells|
  {
    if cells == [] {
      PresentFinite(cells);
    } else {
      var init := cells[..|cells| - 1];
      assert FiniteColumn(init) by {
        forall k | 0 <= k < |init| ensures init[k].Null? || IsFinite(init[k]) {
          assert init[k] == cells[k];
        }
      }
      FilledSum(init, mu);
      if cells[|cells| - 1].Null? {
        FilledGap(cells, mu);
      } else {
        FilledValue(cells, mu);
      }
    }
  }

  /** The sum of the filled cells is the sum of the values plus `mu` per gap. */
  predicate FillSumsUp(cells: seq<Cell>, mu: real) {
    AllFinite(FillWith(cells, Real(mu))) && AllFinite(Present(cells))
    && RealSum(FillWith(cells, Real(mu))) == RealSum(Present(cells)) + Times(|cells| - |Present(cells)|, mu)
  }

  /** A missing last cell adds `mu` to the filled sum and one gap. */
  lemma FilledGap(cells: seq<Cell>, mu: real)
    requires cells != [] && cells[|cells| - 1].Null?
    requires FillSumsUp(cells[..|cells| - 1], mu)
    ensures FillSumsUp(cells, mu)
  {
    var init := cells[..|cells| - 1];
    var p := Present(init);
    var f := FillWith(init, Real(mu));
    var gaps := |init| - |p|;
    FillWithSnoc(cells, Real(mu));
    assert FillWith(cells, Real(mu)) == f + [Real(mu)];
    assert Present(cells) == p;
    RealSumSnoc(f, Real(mu));
    assert |cells| - |Present(cells)| == gaps + 1;
    assert Times(gaps + 1, mu) == Times(gaps, mu) + mu;
  }

  /** A present last cell adds its value to both sums. */
  lemma FilledValue(cells: seq<Cell>, mu: real)
    requires cells != [] && IsFinite(cells[|cells| - 1])
    requires FillSumsUp(cells[..|cells| - 1], mu)
    ensures FillSumsUp(cells, mu)
  {
    var init := cells[..|cells| - 1];
    var last := cells[|cells| - 1];
    var p := Present(init);
    var f := FillWith(init, Real(mu));
    FillWithSnoc(cells, Real(mu));
    assert FillWith(cells, Real(mu)) == f + [last];
    assert Present(cells) == p + [last];
    RealSumSnoc(f, last);
    RealSumSnoc(p, last);
    assert |cells| - |Present(cells)| == |init| - |p|;
  }


  /** Filling a finite column that has at least one value with its mean
      leaves no gap and keeps the mean. */
  lemma FillWithMeanKeepsMean(cells: seq<Cell>)
    requires FiniteColumn(cells) && Present(cells) != []
    ensures StatisticOf(MeanOf, cells).Real?
    ensures var filled := FillWith(cells, StatisticOf(MeanOf, cells));
            FiniteColumn(filled) && Present(filled) == filled
            && StatisticOf(MeanOf, filled) == StatisticOf(MeanOf, cells)
  {
    var values := Present(cells);
    PresentFinite(cells);
    MeanOfFinite(values);
    var total := RealSum(values);
    var mu := total / |values| as real;
    assert StatisticOf(MeanOf, cells) == Real(mu);
    var filled := FillWith(cells, Real(mu));
    FilledSum(cells, mu);
    var gaps := |cells| - |values|;
    assert RealSum(filled) == total + Times(gaps, mu);
    NoGaps(filled);
    MeanOfFinite(filled);
    MeanOfFilled(total, |values|, gaps, RealSum(filled), |filled|);
  }

  /** `clean_data` with the mean on a finite column that has at least one
      value: the column ends up without gaps and with its mean unchanged. */
  lemma MeanFillKeepsMean(t: Table, c: nat)
    requires Valid(t) && c < |t.columns|
    requires FiniteColumn(ColumnCells(t, c)) && Present(ColumnCells(t, c)) != []
    ensures var filled := ColumnCells(FillNa(t, MeanOf), c);
            FiniteColumn(filled) && Present(filled) == filled
            && StatisticOf(MeanOf, filled) == StatisticOf(MeanOf, ColumnCells(t, c))
  {
    FillNaColumn(t, MeanOf, c);
    FillWithMeanKeepsMean(ColumnCells(t, c));
  }

  /** The arithmetic behind `FillWithMeanKeepsMean`: adding `gaps` more
      copies of the mean of `n` values keeps the mean. */
  lemma MeanOfFilled(total: real, n: nat, gaps: nat, sum: real, size: nat)
    requires n > 0 && size == n + gaps && sum == total + Times(gaps, total / n as real)
    ensures sum / size as real == total / n as real
  {
    var mu := total / n as real;
    TimesIsProduct(gaps, mu);
    assert total == n as real * mu;
    assert sum == (n + gaps) as real * mu;
    assert sum == size as real * mu;
  }

  /** Without missing values nothing is skipped. */
  lemma {:induction false} NoGaps(cells: seq<Cell>)
    requires forall k :: 0 <= k < |cells| ==> !cells[k].Null?
    ensures Present(cells) == cells
    decreases |cells|
  {
    if cells != [] {
      NoGaps(cells[..|cells| - 1]);
    }
  }
}
