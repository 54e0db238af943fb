/** The column operations: `add_column` evaluates a formula over reference
    columns into a new last column, `rename_column` relabels one column and
    `transform_column` rewrites the cells of one column. Each works on a
    copy of the table and validates its arguments before computing. */
module ColumnOperations {
  import opened Tables
  import opened Numeric
  import Text
  import PyFormat

  /** Python truthiness of a parameter value. */
  predicate Truthy(c: Cell) {
    match c
    case Null => false
    case Bool(b) => b
    case Int(i) => i != 0
    case Real(x) => x != 0.0
    case Inf(_) => true
    case Str(s) => s != ""
  }

  /** `None`, `False`, zero and the empty string are false; every other
      value is true. */
  lemma TruthyCases(c: Cell)
    ensures !Truthy(c) <==> c.Null? || c == Bool(false) || c == Int(0) || c == Real(0.0) || c == Str("")
  { }

  /** `params.get(key, default)`. */
  function Get(params: Dict, key: string, default: Cell): Cell {
    Lookup(params, key).GetOr(default)
  }

  /** Every name in `names` is a column. */
  predicate AllColumns(names: seq<string>, columns: seq<string>) {
    forall k :: 0 <= k < |names| ==> names[k] in columns
  }

  /** The cells of row `i` in the reference columns, in reference order. */
  function RefCells(t: Table, refs: seq<string>, i: nat): (cells: seq<Cell>)
    requires Valid(t) && i < |t.rows| && AllColumns(refs, t.columns)
    ensures |cells| == |refs|
  {
    seq(|refs|, k requires 0 <= k < |refs| => t.rows[i][IndexOf(t.columns, refs[k])])
  }

  /** `str(val)` for each value. */
  function Shows(cells: seq<Cell>): (r: seq<string>)
    ensures |r| == |cells|
  {
    seq(|cells|, k requires 0 <= k < |cells| => Show(cells[k]))
  }

  // ---------------------------------------------------------------------
  // add_column

  /** The computation one formula performs on the reference cells of a row. */
  datatype RowFormula =
    | Joined(separator: string, prefix: string, suffix: string)
    | Formatted(template: Cell)
    | Total
    | Prod
    | Difference
    | Quotient

  const Formulas: set<string> := {"concat", "sum", "multiply", "divide", "subtract"}

  /** The row computation a formula name selects, with the `concat`
      parameters read from `params`: a truthy `format_string` wins, otherwise
      the stringified `separator` (default a space), `prefix` and `suffix`
      (default empty) are used. */
  function FormulaFor(formula: string, params: Dict): RowFormula
    requires formula in Formulas
  {
    if formula == "concat" then
      var template := Get(params, "format_string", Null);
      if Truthy(template) then Formatted(template)
      else
        Joined(Show(Get(params, "separator", Str(" "))), Show(Get(params, "prefix", Str(""))),
               Show(Get(params, "suffix", Str(""))))
    else if formula == "sum" then Total
    else if formula == "multiply" then Prod
    else if formula == "divide" then Quotient
    else Difference
  }

  /** Each formula name selects its own row formula; `concat` formats exactly when a truthy `format_string` is given. */
  lemma FormulaForCases(formula: string, params: Dict)
    requires formula in Formulas
    ensures var r := FormulaFor(formula, params);
            && (r.Joined? || r.Formatted? <==> formula == "concat")
            && (r.Total? <==> formula == "sum")
            && (r.Prod? <==> formula == "multiply")
            && (r.Quotient? <==> formula == "divide")
            && (r.Difference? <==> formula == "subtract")
            && (formula == "concat" ==> (r.Formatted? <==> Truthy(Get(params, "format_string", Null))))
            && (r.Formatted? ==> r.template == Get(params, "format_string", Null))
            && (formula == "concat" && params == [] ==> r == Joined(" ", "", ""))
  { }

  predicate Binary(f: RowFormula) {
    f.Difference? || f.Quotient?
  }

  /** One row of the new column. */
  function Evaluate(f: RowFormula, cells: seq<Cell>): Result<Cell>
    requires Binary(f) ==> |cells| == 2
  {
    match f
    case Joined(separator, prefix, suffix) => Ok(Str(prefix + Text.Join(Shows(cells), separator) + suffix))
    case Formatted(template) =>
      if template.Str? then
        var s :- PyFormat.Format(template.s, Shows(cells));
        Ok(Str(s))
      else Err(TypeMismatch)
    case Total => Sum(cells)
    case Prod => Product(cells)
    case Difference => Subtract(cells[0], cells[1])
    case Quotient => Divide(cells[0], cells[1])
  }
  /** What each formula gives on one row: a joined `concat` never fails and
      keeps its prefix and suffix, a formatted one needs a string template,
      `sum` and `multiply` fail exactly on a value that is neither a number
      nor missing, and so do `divide` and `subtract` on their two operands. */
  lemma EvaluateCases(f: RowFormula, cells: seq<Cell>)
    requires Binary(f) ==> |cells| == 2
    ensures f.Joined? ==>
              var r := Evaluate(f, cells);
              r.Ok? && r.value.Str? && |r.value.s| >= |f.prefix| + |f.suffix|
              && r.value.s[..|f.prefix|] == f.prefix
              && r.value.s[|r.value.s| - |f.suffix|..] == f.suffix
    ensures f.Formatted? && !f.template.Str? ==> Evaluate(f, cells) == Err(TypeMismatch)
    ensures f.Formatted? && Evaluate(f, cells).Ok? ==> Evaluate(f, cells).value.Str?
    ensures f.Total? || f.Prod? ==>
              (Evaluate(f, cells).Err? <==> exists k :: 0 <= k < |cells| && !IsArithmetic(cells[k]))
    ensures (f.Total? || f.Prod?) && Evaluate(f, cells).Ok? ==> IsArithmetic(Evaluate(f, cells).value)
    ensures Binary(f) ==> (Evaluate(f, cells).Err? <==> !IsArithmetic(cells[0]) || !IsArithmetic(cells[1]))
  {
  }


  /** The new column over the first `n` rows; the first row whose
      evaluation fails decides the error. */
  function NewColumn(f: RowFormula, t: Table, refs: seq<string>, n: nat): (r: Result<seq<Cell>>)
    requires Valid(t) && n <= |t.rows| && AllColumns(refs, t.columns)
    requires Binary(f) ==> |refs| == 2
    ensures r.Ok? ==> |r.value| == n && forall i :: 0 <= i < n ==> Evaluate(f, RefCells(t, refs, i)) == Ok(r.value[i])
    ensures r.Err? ==> exists i :: 0 <= i < n && Evaluate(f, RefCells(t, refs, i)) == Err(r.error)
                                   && forall j :: 0 <= j < i ==> Evaluate(f, RefCells(t, refs, j)).Ok?
    decreases n
  {
    if n == 0 then Ok([])
    else
      var init :- NewColumn(f, t, refs, n - 1);
      var v :- Evaluate(f, RefCells(t, refs, n - 1));
      Ok(init + [v])
  }

  /** The table with `values` as a new last column called `name`. */
  function WithColumn(t: Table, name: string, values: seq<Cell>): (r: Table)
    requires Valid(t) && name !in t.columns && |values| == |t.rows|
    ensures Valid(r)
  {
    Table(t.columns + [name], seq(|t.rows|, i requires 0 <= i < |t.rows| => t.rows[i] + [values[i]]))
  }

  /** `add_column`: unknown reference columns fail first, then an existing
      new name, then an unknown formula or a binary formula without exactly
      two references; otherwise every row gets the formula's value in a new
      last column and all other cells are kept. */
  function AddColumn(t: Table, name: string, formula: string, refs: seq<string>, params: Dict): (r: Result<Table>)
    requires Valid(t)
    ensures Missing(refs, t.columns) != [] ==> r == Err(ColumnNotFound(Reference, Missing(refs, t.columns)))
    ensures Missing(refs, t.columns) == [] && name in t.columns ==> r == Err(ColumnAlreadyExists(name))
    ensures Missing(refs, t.columns) == [] && name !in t.columns && formula !in Formulas ==>
              r == Err(UnsupportedOperation(formula))
    ensures Missing(refs, t.columns) == [] && name !in t.columns && formula in {"divide", "subtract"} && |refs| != 2 ==>
              r == Err(InvalidArgument(formula))
    ensures r.Ok? ==> Valid(r.value) && r.value.columns == t.columns + [name] && |r.value.rows| == |t.rows|
                      && forall i :: 0 <= i < |t.rows| ==> r.value.rows[i][..|t.columns|] == t.rows[i]
    ensures r.Ok? ==> formula in Formulas && AllColumns(refs, t.columns) && (Binary(FormulaFor(formula, params)) ==> |refs| == 2)
                      && forall i :: 0 <= i < |t.rows| ==>
                           Evaluate(FormulaFor(formula, params), RefCells(t, refs, i)) == Ok(r.value.rows[i][|t.columns|])
    ensures Missing(refs, t.columns) == [] && name !in t.columns && formula in Formulas
            && (formula in {"divide", "subtract"} ==> |refs| == 2) ==>
              (r.Err? <==> exists i :: 0 <= i < |t.rows| && Evaluate(FormulaFor(formula, params), RefCells(t, refs, i)).Err?)
  {
    var missing := Missing(refs, t.columns);
    if missing != [] then Err(ColumnNotFound(Reference, missing))
    else if name in t.columns then Err(ColumnAlreadyExists(name))
    else if formula !in Formulas then Err(UnsupportedOperation(formula))
    else if (formula == "divide" || formula == "subtract") && |refs| != 2 then Err(InvalidArgument(formula))
    else
      var values :- NewColumn(FormulaFor(formula, params), t, refs, |t.rows|);
      var u := WithColumn(t, name, values);
      assert forall i :: 0 <= i < |t.rows| ==> u.rows[i][..|t.columns|] == t.rows[i];
      Ok(u)
  }

  /** The arguments pass every check of `add_column`. */
  predicate Accepted(t: Table, name: string, formula: string, refs: seq<string>) {
    Valid(t) && AllColumns(refs, t.columns) && name !in t.columns && formula in Formulas
    && (formula in {"divide", "subtract"} ==> |refs| == 2)
  }

  /** `concat` without a truthy `format_string`: the prefix, the stringified
      values joined by the separator, and the suffix; with no parameters,
      the values joined by single spaces. */
  lemma ConcatJoined(t: Table, name: string, refs: seq<string>, params: Dict, i: nat)
    requires Accepted(t, name, "concat", refs) && i < |t.rows|
    requires !Truthy(Get(params, "format_string", Null))
    ensures AddColumn(t, name, "concat", refs, params).Ok?
    ensures AddColumn(t, name, "concat", refs, params).value.rows[i][|t.columns|]
            == Str(Show(Get(params, "prefix", Str(""))) + Text.Join(Shows(RefCells(t, refs, i)), Show(Get(params, "separator", Str(" "))))
                   + Show(Get(params, "suffix", Str(""))))
    ensures params == [] ==>
              AddColumn(t, name, "concat", refs, params).value.rows[i][|t.columns|] == Str(Text.Join(Shows(RefCells(t, refs, i)), " "))
  {
    var f := FormulaFor("concat", params);
    assert f == Joined(Show(Get(params, "separator", Str(" "))), Show(Get(params, "prefix", Str(""))),
                       Show(Get(params, "suffix", Str(""))));
    forall j | 0 <= j < |t.rows|
      ensures Evaluate(f, RefCells(t, refs, j)).Ok?
    { }
    AddColumnFromRows(t, name, "concat", refs, params, i);
    if params == [] {
      var joined := Text.Join(Shows(RefCells(t, refs, i)), " ");
      assert "" + joined + "" == joined;
    }
  }

  /** Splitting a default `concat` value on the space gives back the
      stringified reference values, when none of them contains a space. */
  lemma ConcatSplitRoundTrip(t: Table, name: string, refs: seq<string>, i: nat)
    requires Accepted(t, name, "concat", refs) && i < |t.rows| && |refs| >= 1
    requires forall k :: 0 <= k < |refs| ==> ' ' !in Show(RefCells(t, refs, i)[k])
    ensures AddColumn(t, name, "concat", refs, []).Ok?
    ensures Text.Split(AddColumn(t, name, "concat", refs, []).value.rows[i][|t.columns|].s, " ") == Shows(RefCells(t, refs, i))
  {
    ConcatJoined(t, name, refs, [], i);
    Text.SplitOfJoin(Shows(RefCells(t, refs, i)), " ");
  }

  /** `concat` with a `format_string` made of brace-free text around `{}`
      fields: the stringified reference values fill the fields in reference
      order; a template with more fields than references fails on the first
      row. */
  lemma ConcatFormatted(t: Table, name: string, refs: seq<string>, params: Dict, lits: seq<string>, i: nat)
    requires Accepted(t, name, "concat", refs) && i < |t.rows|
    requires |lits| >= 1 && forall k :: 0 <= k < |lits| ==> PyFormat.NoBraces(lits[k])
    requires Text.Join(lits, "{}") != "" && Get(params, "format_string", Null) == Str(Text.Join(lits, "{}"))
    ensures |refs| >= |lits| - 1 ==>
              AddColumn(t, name, "concat", refs, params).Ok?
              && AddColumn(t, name, "concat", refs, params).value.rows[i][|t.columns|]
                 == Str(PyFormat.Interleave(lits, Shows(RefCells(t, refs, i))))
    ensures |refs| < |lits| - 1 ==> AddColumn(t, name, "concat", refs, params) == Err(FormatError(IndexOutOfRange(|refs|)))
  {
    FormattedFormula(params, Text.Join(lits, "{}"));
    FormattedColumn(t, refs, lits);
    if |refs| >= |lits| - 1 {
      AddColumnFromRows(t, name, "concat", refs, params, i);
    } else {
      AddColumnFailsOnEveryRow(t, name, "concat", refs, params, FormatError(IndexOutOfRange(|refs|)));
    }
  }

  /** A non-empty string `format_string` makes `concat` format with it. */
  lemma FormattedFormula(params: Dict, template: string)
    requires template != "" && Get(params, "format_string", Null) == Str(template)
    ensures FormulaFor("concat", params) == Formatted(Str(template))
  {
  }

  /** When every row evaluates, `add_column` succeeds with those values. */
  lemma AddColumnFromRows(t: Table, name: string, formula: string, refs: seq<string>, params: Dict, i: nat)
    requires Accepted(t, name, formula, refs) && i < |t.rows|
    requires forall j :: 0 <= j < |t.rows| ==> Evaluate(FormulaFor(formula, params), RefCells(t, refs, j)).Ok?
    ensures AddColumn(t, name, formula, refs, params).Ok?
    ensures Evaluate(FormulaFor(formula, params), RefCells(t, refs, i))
            == Ok(AddColumn(t, name, formula, refs, params).value.rows[i][|t.columns|])
  {
  }

  /** When every row fails with the same error, `add_column` fails with it
      as soon as there is a row. */
  lemma AddColumnFailsOnEveryRow(t: Table, name: string, formula: string, refs: seq<string>, params: Dict, e: Error)
    requires Accepted(t, name, formula, refs) && |t.rows| > 0
    requires forall j :: 0 <= j < |t.rows| ==> Evaluate(FormulaFor(formula, params), RefCells(t, refs, j)) == Err(e)
    ensures AddColumn(t, name, formula, refs, params) == Err(e)
  {
    assert Evaluate(FormulaFor(formula, params), RefCells(t, refs, 0)).Err?;
  }

  lemma FormattedColumn(t: Table, refs: seq<string>, lits: seq<string>)
    requires Valid(t) && AllColumns(refs, t.columns)
    requires |lits| >= 1 && forall k :: 0 <= k < |lits| ==> PyFormat.NoBraces(lits[k])
    ensures forall j :: 0 <= j < |t.rows| ==>
              Evaluate(Formatted(Str(Text.Join(lits, "{}"))), RefCells(t, refs, j))
              == if |refs| >= |lits| - 1 then Ok(Str(PyFormat.Interleave(lits, Shows(RefCells(t, refs, j)))))
                 else Err(FormatError(IndexOutOfRange(|refs|)))
  {
    forall j | 0 <= j < |t.rows| {
      FormattedRow(lits, RefCells(t, refs, j));
    }
  }

  lemma FormattedRow(lits: seq<string>, cells: seq<Cell>)
    requires |lits| >= 1 && forall k :: 0 <= k < |lits| ==> PyFormat.NoBraces(lits[k])
    ensures Evaluate(Formatted(Str(Text.Join(lits, "{}"))), cells)
            == if |cells| >= |lits| - 1 then Ok(Str(PyFormat.Interleave(lits, Shows(cells))))
               else Err(FormatError(IndexOutOfRange(|cells|)))
  {
    PyFormat.AutoFields(lits, Shows(cells));
  }

  /** `sum` and `multiply` on integer cells are the integer sum and product
      of the row's reference values. */
  lemma SumAndProductOfInts(t: Table, name: string, formula: string, refs: seq<string>, params: Dict, i: nat)
    requires Accepted(t, name, formula, refs) && formula in {"sum", "multiply"} && i < |t.rows|
    requires forall j, k :: 0 <= j < |t.rows| && 0 <= k < |refs| ==> RefCells(t, refs, j)[k].Int?
    ensures AddColumn(t, name, formula, refs, params).Ok?
    ensures AddColumn(t, name, formula, refs, params).value.rows[i][|t.columns|]
            == Int(if formula == "sum" then IntSum(Ints(RefCells(t, refs, i))) else IntProduct(Ints(RefCells(t, refs, i))))
  {
    forall j | 0 <= j < |t.rows|
      ensures Evaluate(FormulaFor(formula, params), RefCells(t, refs, j)).Ok?
    {
      SumProductOfInts(RefCells(t, refs, j));
    }
    SumProductOfInts(RefCells(t, refs, i));
  }

  /** `subtract` is undone by adding the second reference back, and `divide`
      by a finite non-zero second reference is undone by multiplying it
      back; dividing a non-zero number by zero gives an infinity of its
      sign. */
  lemma BinaryFormulas(t: Table, name: string, formula: string, refs: seq<string>, params: Dict, i: nat)
    requires Accepted(t, name, formula, refs) && formula in {"divide", "subtract"} && i < |t.rows|
    requires AddColumn(t, name, formula, refs, params).Ok?
    ensures var a := RefCells(t, refs, i)[0];
            var b := RefCells(t, refs, i)[1];
            var v := AddColumn(t, name, formula, refs, params).value.rows[i][|t.columns|];
            (formula == "subtract" && IsFinite(a) && IsFinite(b) ==> Add(v, b).Ok? && ToReal(Add(v, b).value) == ToReal(a))
            && (formula == "divide" && IsFinite(a) && IsFinite(b) && !IsZero(b) ==>
                  Multiply(v, b).Ok? && ToReal(Multiply(v, b).value) == ToReal(a))
            && (formula == "divide" && IsNumber(a) && !IsZero(a) && IsZero(b) ==> v == Inf(IsNegative(a)))
  {
    var a := RefCells(t, refs, i)[0];
    var b := RefCells(t, refs, i)[1];
    if IsFinite(a) && IsFinite(b) {
      if formula == "subtract" {
        SubtractAddInverse(a, b);
      } else if !IsZero(b) {
        DivideMultiplyInverse(a, b);
      }
    }
  }

  // ---------------------------------------------------------------------
  // rename_column

  /** `rename_column`: an unknown old name fails, then a new name that is
      already a column (the old name included); otherwise exactly that
      label changes, in place, and every row is kept. */
  function RenameColumn(t: Table, oldName: string, newName: string): (r: Result<Table>)
    requires Valid(t)
    ensures oldName !in t.columns ==> r == Err(ColumnNotFound(Target, [oldName]))
    ensures oldName in t.columns && newName in t.columns ==> r == Err(ColumnAlreadyExists(newName))
    ensures oldName in t.columns && newName !in t.columns ==>
              r.Ok? && Valid(r.value) && r.value.rows == t.rows && |r.value.columns| == |t.columns|
              && newName in r.value.columns && oldName !in r.value.columns
              && forall c :: 0 <= c < |t.columns| ==>
                   r.value.columns[c] == if t.columns[c] == oldName then newName else t.columns[c]
  {
    if oldName !in t.columns then Err(ColumnNotFound(Target, [oldName]))
    else if newName in t.columns then Err(ColumnAlreadyExists(newName))
    else
      var k := IndexOf(t.columns, oldName);
      var columns := t.columns[k := newName];
      assert columns[k] == newName;
      Ok(Table(columns, t.rows))
  }

  /** Renaming back restores the table. */
  lemma RenameRoundTrip(t: Table, oldName: string, newName: string)
    requires Valid(t) && oldName in t.columns && newName !in t.columns
    ensures RenameColumn(t, oldName, newName).Ok?
    ensures RenameColumn(RenameColumn(t, oldName, newName).value, newName, oldName) == Ok(t)
  {
    var u := RenameColumn(t, oldName, newName).value;
    var back := RenameColumn(u, newName, oldName);
    assert back.Ok?;
    assert back.value.columns == t.columns;
  }

  // ---------------------------------------------------------------------
  // transform_column

  /** What a transformation does to one cell. */
  datatype CellTransform =
    | ToUpper
    | ToLower
    | TitleWhole
    | TitlePart(splitOn: Cell, partIndex: Cell)
    | RoundTo(decimals: Cell)
    | FormatDate(format: Cell)

  const Transformations: set<string> := {"uppercase", "lowercase", "title_case", "round", "format_date"}

  /** The cell transformation a name selects, with its parameters read from
      `params`: `split_on` (default none), `part_index` (default -1),
      `decimals` (default 0) and `format` (default `%Y-%m-%d`). */
  function TransformFor(transformation: string, params: Dict): CellTransform
    requires transformation in Transformations
  {
    if transformation == "uppercase" then ToUpper
    else if transformation == "lowercase" then ToLower
    else if transformation == "title_case" then
      var splitOn := Get(params, "split_on", Null);
      if Truthy(splitOn) then TitlePart(splitOn, Get(params, "part_index", Int(-1))) else TitleWhole
    else if transformation == "round" then RoundTo(Get(params, "decimals", Int(0)))
    else FormatDate(Get(params, "format", Str("%Y-%m-%d")))
  }

  /** Each transformation name selects its own cell transform, with the
      defaults the parameters fall back to. */
  lemma TransformForCases(transformation: string, params: Dict)
    requires transformation in Transformations
    ensures var r := TransformFor(transformation, params);
            && (r.ToUpper? <==> transformation == "uppercase")
            && (r.ToLower? <==> transformation == "lowercase")
            && (r.TitleWhole? || r.TitlePart? <==> transformation == "title_case")
            && (r.RoundTo? <==> transformation == "round")
            && (r.FormatDate? <==> transformation == "format_date")
            && (r.TitlePart? ==> Truthy(r.splitOn) && r.splitOn == Get(params, "split_on", Null))
            && (r.TitlePart? ==> r.partIndex == Get(params, "part_index", Int(-1)))
            && (r.RoundTo? ==> r.decimals == Get(params, "decimals", Int(0)))
            && (r.FormatDate? ==> r.format == Get(params, "format", Str("%Y-%m-%d")))
            && (params == [] ==> (transformation == "title_case" ==> r == TitleWhole)
                                 && (transformation == "round" ==> r == RoundTo(Int(0)))
                                 && (transformation == "format_date" ==> r == FormatDate(Str("%Y-%m-%d"))))
  { }

  /** Date parsing and `strftime` on one cell, given the format. */
  type DateFormatter = (Cell, Cell) -> Result<Cell>

  /** The part `0 <= part_index < len(parts)` selects, or `None` when the
      index is out of range. An integer or a boolean compares as a number; a
      float compares too but cannot index, and anything else cannot be
      compared with an integer. */
  function PartIndex(index: Cell, n: nat): (r: Result<Option<nat>>)
    ensures r.Ok? && r.value.Some? ==> r.value.value < n
    ensures index.Int? ==> r == Ok(if 0 <= index.i < n then Some(index.i) else None)
  {
    match index
    case Int(i) => Ok(if 0 <= i < n then Some(i) else None)
    case Bool(b) =>
      var i := if b then 1 else 0;
      Ok(if i < n then Some(i) else None)
    case Real(x) => if 0.0 <= x < n as real then Err(TypeMismatch) else Ok(None)
    case Inf(_) => Ok(None)
    case _ => Err(TypeMismatch)
  }

  /** `title_case_part`: split on the separator, strip and title-case the
      selected part, and join again with the same separator. */
  function TitleCasePart(text: string, splitOn: string, index: Cell): (r: Result<string>)
    requires |splitOn| > 0
    ensures r.Err? <==> PartIndex(index, |Text.Split(text, splitOn)|).Err?
    ensures r.Ok? && PartIndex(index, |Text.Split(text, splitOn)|).value.None? ==> r.value == text
  {
    Text.SplitJoinRoundTrip(text, splitOn);
    var parts := Text.Split(text, splitOn);
    var which :- PartIndex(index, |parts|);
    match which
    case None => Ok(Text.Join(parts, splitOn))
    case Some(i) => Ok(Text.Join(parts[i := Text.Title(Text.Strip(parts[i]))], splitOn))
  }

  /** An index outside the parts leaves the text as it was; an index inside
      replaces that part by its stripped, title-cased form and keeps
      everything around it. */
  lemma TitleCasePartSpec(text: string, splitOn: string, index: Cell)
    requires |splitOn| > 0 && PartIndex(index, |Text.Split(text, splitOn)|).Ok?
    ensures var parts := Text.Split(text, splitOn);
            var which := PartIndex(index, |parts|).value;
            TitleCasePart(text, splitOn, index).Ok?
            && (which.None? ==> TitleCasePart(text, splitOn, index).value == text)
            && (which.Some? ==>
                  var i := which.value;
                  text == Text.JoinBefore(parts, i, splitOn) + parts[i] + Text.JoinAfter(parts, i, splitOn)
                  && TitleCasePart(text, splitOn, index).value
                     == Text.JoinBefore(parts, i, splitOn) + Text.Title(Text.Strip(parts[i])) + Text.JoinAfter(parts, i, splitOn))
  {
    var parts := Text.Split(text, splitOn);
    Text.SplitJoinRoundTrip(text, splitOn);
    var which := PartIndex(index, |parts|).value;
    if which.Some? {
      var i := which.value;
      var x := Text.Title(Text.Strip(parts[i]));
      Text.JoinAround(parts, i, splitOn);
      Text.JoinAround(parts[i := x], i, splitOn);
      Text.JoinAroundUpdate(parts, i, x, splitOn);
    }
  }

  /** One cell of the transformed column. Upper, lower and title case work
      on the stringified cell; `title_case_part` needs a string separator
      (an empty one is refused, as `str.split` refuses it). */
  function Apply(tr: CellTransform, c: Cell, formatDate: DateFormatter): Result<Cell>
  {
    match tr
    case ToUpper => Ok(Str(Text.Upper(Show(c))))
    case ToLower => Ok(Str(Text.Lower(Show(c))))
    case TitleWhole => Ok(Str(Text.Title(Show(c))))
    case TitlePart(splitOn, index) =>
      if !splitOn.Str? then Err(TypeMismatch)
      else if splitOn.s == "" then Err(InvalidArgument("split_on"))
      else
        var s :- TitleCasePart(Show(c), splitOn.s, index);
        Ok(Str(s))
    case RoundTo(decimals) =>
      if decimals.Int? then Round(c, decimals.i)
      else if decimals.Bool? then Round(c, if decimals.b then 1 else 0)
      else Err(TypeMismatch)
    case FormatDate(format) => formatDate(c, format)
  }
  /** What each transformation does to one cell: the case changes never
      fail and keep the length of the cell's text, `title_case_part` needs a
      string separator and fails exactly when the index cannot be compared,
      `round` fails exactly on decimals that are neither an integer nor a
      boolean (which counts as 0 or 1) or on a non-number, and
      `format_date` is the formatter's answer. */
  lemma ApplyCases(tr: CellTransform, c: Cell, formatDate: DateFormatter)
    ensures tr.ToUpper? || tr.ToLower? || tr.TitleWhole? ==>
              Apply(tr, c, formatDate).Ok? && Apply(tr, c, formatDate).value.Str?
              && |Apply(tr, c, formatDate).value.s| == |Show(c)|
    ensures tr.TitlePart? && !tr.splitOn.Str? ==> Apply(tr, c, formatDate) == Err(TypeMismatch)
    ensures tr.TitlePart? && tr.splitOn.Str? && tr.splitOn.s != "" ==>
              (Apply(tr, c, formatDate).Err? <==> PartIndex(tr.partIndex, |Text.Split(Show(c), tr.splitOn.s)|).Err?)
    ensures tr.RoundTo? ==> (Apply(tr, c, formatDate).Err? <==> (!tr.decimals.Int? && !tr.decimals.Bool?) || !IsArithmetic(c))
    ensures tr.RoundTo? && tr.decimals.Bool? ==> Apply(tr, c, formatDate) == Round(c, if tr.decimals.b then 1 else 0)
    ensures tr.FormatDate? ==> Apply(tr, c, formatDate) == formatDate(c, tr.format)
  {
  }


  /** The transformed cells of column `col` over the first `n` rows; the
      first row whose cell fails decides the error. */
  function TransformCells(tr: CellTransform, t: Table, col: nat, n: nat, formatDate: DateFormatter): (r: Result<seq<Cell>>)
    requires Valid(t) && col < |t.columns| && n <= |t.rows|
    ensures r.Ok? ==> |r.value| == n && forall i :: 0 <= i < n ==> Apply(tr, t.rows[i][col], formatDate) == Ok(r.value[i])
    ensures r.Err? ==> exists i :: 0 <= i < n && Apply(tr, t.rows[i][col], formatDate) == Err(r.error)
                                   && forall j :: 0 <= j < i ==> Apply(tr, t.rows[j][col], formatDate).Ok?
    decreases n
  {
    if n == 0 then Ok([])
    else
      var init :- TransformCells(tr, t, col, n - 1, formatDate);
      var v :- Apply(tr, t.rows[n - 1][col], formatDate);
      Ok(init + [v])
  }

  /** The table with column `col` replaced by `values`. */
  function WithCells(t: Table, col: nat, values: seq<Cell>): (r: Table)
    requires Valid(t) && col < |t.columns| && |values| == |t.rows|
    ensures Valid(r)
  {
    Table(t.columns, seq(|t.rows|, i requires 0 <= i < |t.rows| => t.rows[i][col := values[i]]))
  }

  /** `transform_column`: an unknown column fails first, then an unknown
      transformation; otherwise each cell of the column is transformed and
      every other cell is kept. */
  function TransformColumn(t: Table, column: string, transformation: string, params: Dict, formatDate: DateFormatter): (r: Result<Table>)
    requires Valid(t)
    ensures column !in t.columns ==> r == Err(ColumnNotFound(Target, [column]))
    ensures column in t.columns && transformation !in Transformations ==> r == Err(UnsupportedOperation(transformation))
    ensures r.Ok? ==> column in t.columns && transformation in Transformations
                      && Valid(r.value) && r.value.columns == t.columns && |r.value.rows| == |t.rows|
                      && (forall i, c :: 0 <= i < |t.rows| && 0 <= c < |t.columns| && c != IndexOf(t.columns, column) ==>
                            r.value.rows[i][c] == t.rows[i][c])
                      && forall i :: 0 <= i < |t.rows| ==>
                           Apply(TransformFor(transformation, params), t.rows[i][IndexOf(t.columns, column)], formatDate)
                           == Ok(r.value.rows[i][IndexOf(t.columns, column)])
    ensures column in t.columns && transformation in Transformations ==>
              (r.Err? <==> exists i :: (0 <= i < |t.rows| &&
                 Apply(TransformFor(transformation, params), t.rows[i][IndexOf(t.columns, column)], formatDate).Err?))
  {
    if column !in t.columns then Err(ColumnNotFound(Target, [column]))
    else if transformation !in Transformations then Err(UnsupportedOperation(transformation))
    else
      var col := IndexOf(t.columns, column);
      var values :- TransformCells(TransformFor(transformation, params), t, col, |t.rows|, formatDate);
      Ok(WithCells(t, col, values))
  }

  /** Upper, lower and title case stringify the cell first and then change
      the case of its letters only; they never fail. */
  lemma CaseTransforms(t: Table, column: string, transformation: string, params: Dict, formatDate: DateFormatter, i: nat)
    requires Valid(t) && column in t.columns && i < |t.rows|
    requires transformation in {"uppercase", "lowercase"}
             || (transformation == "title_case" && !Truthy(Get(params, "split_on", Null)))
    ensures TransformColumn(t, column, transformation, params, formatDate).Ok?
    ensures var c := IndexOf(t.columns, column);
            var s := Show(t.rows[i][c]);
            TransformColumn(t, column, transformation, params, formatDate).value.rows[i][c]
            == Str(if transformation == "uppercase" then Text.Upper(s)
                   else if transformation == "lowercase" then Text.Lower(s)
                   else Text.Title(s))
  {
    var c := IndexOf(t.columns, column);
    TransformForCases(transformation, params);
    assert forall j :: 0 <= j < |t.rows| ==> Apply(TransformFor(transformation, params), t.rows[j][c], formatDate).Ok?;
  }

  /** One cell: a case change or a rounding applied to its own result changes nothing. */
  lemma ApplySettles(tr: CellTransform, c: Cell, formatDate: DateFormatter)
    requires tr.ToUpper? || tr.ToLower? || tr.TitleWhole? || (tr.RoundTo? && (tr.decimals.Int? || tr.decimals.Bool?) && IsArithmetic(c))
    ensures Apply(tr, c, formatDate).Ok?
    ensures Apply(tr, Apply(tr, c, formatDate).value, formatDate) == Apply(tr, c, formatDate)
  {
    var s := Show(c);
    if tr.RoundTo? {
      RoundIdempotent(c, if tr.decimals.Int? then tr.decimals.i else if tr.decimals.b then 1 else 0);
    } else if tr.TitleWhole? {
      Text.TitleIdempotent(s);
      assert Show(Str(Text.Title(s))) == Text.Title(s);
    } else if tr.ToUpper? {
      Text.CaseChangesOnlyLetters(s);
      assert Show(Str(Text.Upper(s))) == Text.Upper(s);
    } else {
      Text.CaseChangesOnlyLetters(s);
      assert Show(Str(Text.Lower(s))) == Text.Lower(s);
    }
  }

  /** `title_case` with a `split_on` but no `part_index` selects part -1,
      which is never in range: every cell becomes its `str()` unchanged. */
  lemma TitleCaseDefaultIndex(t: Table, column: string, splitOn: string, formatDate: DateFormatter, i: nat)
    requires Valid(t) && column in t.columns && i < |t.rows| && splitOn != ""
    ensures TransformColumn(t, column, "title_case", [("split_on", Str(splitOn))], formatDate).Ok?
    ensures var c := IndexOf(t.columns, column);
            TransformColumn(t, column, "title_case", [("split_on", Str(splitOn))], formatDate).value.rows[i][c]
            == Str(Show(t.rows[i][c]))
  {
    var params := [("split_on", Str(splitOn))];
    var c := IndexOf(t.columns, column);
    TransformForCases("title_case", params);
    var tr := TransformFor("title_case", params);
    assert tr == TitlePart(Str(splitOn), Int(-1));
    forall j | 0 <= j < |t.rows|
      ensures Apply(tr, t.rows[j][c], formatDate) == Ok(Str(Show(t.rows[j][c])))
    {
      var parts := Text.Split(Show(t.rows[j][c]), splitOn);
      assert PartIndex(Int(-1), |parts|) == Ok(None);
    }
  }

  /** Case changes and rounding settle after one application: transforming
      the transformed table again gives the same table. */
  lemma TransformIdempotent(t: Table, column: string, transformation: string, params: Dict, formatDate: DateFormatter)
    requires Valid(t) && column in t.columns
    requires transformation in {"uppercase", "lowercase"}
             || (transformation == "title_case" && !Truthy(Get(params, "split_on", Null)))
             || (transformation == "round" && (Get(params, "decimals", Int(0)).Int? || Get(params, "decimals", Int(0)).Bool?)
                 && forall i :: 0 <= i < |t.rows| ==> IsArithmetic(t.rows[i][IndexOf(t.columns, column)]))
    ensures TransformColumn(t, column, transformation, params, formatDate).Ok?
    ensures var u := TransformColumn(t, column, transformation, params, formatDate).value;
            TransformColumn(u, column, transformation, params, formatDate) == Ok(u)
  {
    var c := IndexOf(t.columns, column);
    var tr := TransformFor(transformation, params);
    TransformForCases(transformation, params);
    forall j | 0 <= j < |t.rows|
      ensures Apply(tr, t.rows[j][c], formatDate).Ok?
      ensures Apply(tr, Apply(tr, t.rows[j][c], formatDate).value, formatDate) == Apply(tr, t.rows[j][c], formatDate)
    {
      ApplySettles(tr, t.rows[j][c], formatDate);
    }
    TransformSettles(t, column, transformation, params, formatDate);
  }

  /** When the transform succeeds on every cell of the column and changes
      nothing on its own results, transforming the result again gives it back. */
  lemma TransformSettles(t: Table, column: string, transformation: string, params: Dict, formatDate: DateFormatter)
    requires Valid(t) && column in t.columns && transformation in Transformations
    requires var tr := TransformFor(transformation, params);
             var c := IndexOf(t.columns, column);
             forall j :: 0 <= j < |t.rows| ==>
               Apply(tr, t.rows[j][c], formatDate).Ok?
               && Apply(tr, Apply(tr, t.rows[j][c], formatDate).value, formatDate) == Apply(tr, t.rows[j][c], formatDate)
    ensures TransformColumn(t, column, transformation, params, formatDate).Ok?
    ensures var u := TransformColumn(t, column, transformation, params, formatDate).value;
            TransformColumn(u, column, transformation, params, formatDate) == Ok(u)
  {
    var c := IndexOf(t.columns, column);
    var tr := TransformFor(transformation, params);
    var u := TransformColumn(t, column, transformation, params, formatDate).value;
    var v := TransformColumn(u, column, transformation, params, formatDate);
    assert v.Ok?;
    forall i | 0 <= i < |t.rows|
      ensures v.value.rows[i][c] == u.rows[i][c]
    {
      assert Apply(tr, t.rows[i][c], formatDate) == Ok(u.rows[i][c]);
      assert Apply(tr, u.rows[i][c], formatDate) == Ok(v.value.rows[i][c]);
    }
    TablesAgree(v.value, u, c);
  }

  /** Two tables with the same header and row count are equal when they
      agree on column `c` and on every other column. */
  lemma TablesAgree(a: Table, b: Table, c: nat)
    requires Valid(a) && Valid(b) && a.columns == b.columns && |a.rows| == |b.rows| && c < |a.columns|
    requires forall i, k :: 0 <= i < |a.rows| && 0 <= k < |a.columns| && k != c ==> a.rows[i][k] == b.rows[i][k]
    requires forall i :: 0 <= i < |a.rows| ==> a.rows[i][c] == b.rows[i][c]
    ensures a == b
  {
    forall i | 0 <= i < |a.rows|
      ensures a.rows[i] == b.rows[i]
    {
      assert forall k :: 0 <= k < |a.columns| ==> a.rows[i][k] == b.rows[i][k];
    }
  }
}
