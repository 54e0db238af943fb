/** The table value every operation works on, its cells, the errors the
    operations raise and the small helpers they share: column lookup, the
    dictionaries callers pass in, and the stringification of a cell. */
module Tables {

  /** A cell of the table. `Null` stands for both of the source's missing
      values (`None` and NaN); `Inf` is the signed infinity that a division
      by zero produces. */
  datatype Cell =
    | Null
    | Bool(b: bool)
    | Int(i: int)
    | Real(r: real)
    | Inf(negative: bool)
    | Str(s: string)

  /** Which argument an unknown column name came from. */
  datatype Role = RowData | Identifier | Update | Reference | Target

  /** The ways `str.format` rejects a template. */
  datatype FormatFault =
    | UnmatchedBrace
    | MixedNumbering
    | IndexOutOfRange(index: nat)
    | UnsupportedField(field: string)

  datatype Error =
    | ColumnNotFound(role: Role, names: seq<string>)
    | ColumnAlreadyExists(name: string)
    | RowNotFound
    | InvalidArgument(formula: string)
    | UnsupportedOperation(name: string)
    | UnknownMethod(name: string)
    | TypeMismatch
    | FormatError(fault: FormatFault)

  datatype Option<T> = None | Some(value: T) {
    function GetOr(default: T): T {
      match this
      case Some(v) => v
      case None => default
    }
  }

  datatype Result<T> = Ok(value: T) | Err(error: Error) {
    predicate IsFailure() {
      Err?
    }

    function PropagateFailure<U>(): Result<U>
      requires Err?
    {
      Err(error)
    }

    function Extract(): T
      requires Ok?
    {
      value
    }
  }

  type Row = seq<Cell>

  /** A table: ordered column names and rows holding one cell per column. */
  datatype Table = Table(columns: seq<string>, rows: seq<Row>)

  predicate Distinct(names: seq<string>) {
    forall i, j :: 0 <= i < j < |names| ==> names[i] != names[j]
  }

  predicate WellFormedRows(width: nat, rows: seq<Row>) {
    forall i :: 0 <= i < |rows| ==> |rows[i]| == width
  }

  /** Column names are unique and every row has exactly one cell per column. */
  predicate Valid(t: Table) {
    Distinct(t.columns) && WellFormedRows(|t.columns|, t.rows)
  }

  /** Position of a column name in the column list. */
  function IndexOf(names: seq<string>, name: string): (k: nat)
    requires name in names
    ensures k < |names| && names[k] == name
    ensures name !in names[..k]
  {
    if names[0] == name then 0
    else
      assert names[1..][..IndexOf(names[1..], name)] == names[1..1 + IndexOf(names[1..], name)];
      1 + IndexOf(names[1..], name)
  }

  /** The names in `names` that are not columns, in their original order,
      the list the source puts in its "Invalid ... columns" message. */
  function Missing(names: seq<string>, columns: seq<string>): (r: seq<string>)
    ensures forall n :: n in r <==> n in names && n !in columns
    ensures r == [] <==> forall k :: 0 <= k < |names| ==> names[k] in columns
  {
    if names == [] then []
    else
      var rest := Missing(names[1..], columns);
      assert forall n :: n in names <==> n == names[0] || n in names[1..];
      if names[0] in columns then rest else [names[0]] + rest
  }

  /** A Python dictionary from column names to values, in insertion order. */
  type Dict = seq<(string, Cell)>

  function Keys(d: Dict): (r: seq<string>)
    ensures |r| == |d| && forall k :: 0 <= k < |d| ==> r[k] == d[k].0
  {
    seq(|d|, k requires 0 <= k < |d| => d[k].0)
  }

  /** The value bound to `key`; when a key occurs twice the later binding
      wins, as in a dictionary display and as in a loop of assignments. */
  function Lookup(d: Dict, key: string): (r: Option<Cell>)
    ensures r.None? <==> key !in Keys(d)
    ensures r.Some? ==> exists k :: 0 <= k < |d| && d[k] == (key, r.value)
  {
    if d == [] then None
    else if d[|d| - 1].0 == key then Some(d[|d| - 1].1)
    else
      var r := Lookup(d[..|d| - 1], key);
      assert Keys(d) == Keys(d[..|d| - 1]) + [d[|d| - 1].0];
      r
  }

  lemma LookupSnoc(d: Dict, k: nat, key: string)
    requires k < |d|
    ensures Lookup(d[..k + 1], key)
            == if d[k].0 == key then Some(d[k].1) else Lookup(d[..k], key)
  {
    assert d[..k + 1][..k] == d[..k];
  }

  /** Python's `str()` of a cell. */
  function Show(c: Cell): string {
    match c
    case Null => "None"
    case Bool(b) => if b then "True" else "False"
    case Int(i) => IntToString(i)
    case Real(r) => RealToString(r)
    case Inf(neg) => if neg then "-inf" else "inf"
    case Str(s) => s
  }

  /** `str(None)` is "None", booleans print as "True" and "False", a string
      is itself, infinities print as "inf" and "-inf", and an integer starts
      with a minus sign exactly when it is negative. */
  lemma ShowCases(c: Cell)
    ensures c.Null? ==> Show(c) == "None"
    ensures c.Bool? ==> Show(c) == if c.b then "True" else "False"
    ensures c.Str? ==> Show(c) == c.s
    ensures c.Inf? ==> Show(c) == if c.negative then "-inf" else "inf"
    ensures c.Int? ==> |Show(c)| > 0 && (Show(c)[0] == '-' <==> c.i < 0)
  { }

  function DigitChar(d: int): char
    requires 0 <= d < 10
  {
    "0123456789"[d]
  }

  function NatToString(n: nat): (s: string)
    ensures |s| > 0 && IsDigits(s)
    decreases n
  {
    if n < 10 then [DigitChar(n)] else NatToString(n / 10) + [DigitChar(n % 10)]
  }

  function IntToString(i: int): (s: string)
    ensures |s| > 0 && (s[0] == '-' <==> i < 0)
  {
    if i < 0 then "-" + NatToString(-i) else NatToString(i)
  }

  predicate IsDigits(s: string) {
    forall k :: 0 <= k < |s| ==> '0' <= s[k] <= '9'
  }

  /** Python's `int()` of a string of decimal digits. */
  function ParseNat(s: string): nat
    requires IsDigits(s)
    decreases |s|
  {
    if s == [] then 0 else ParseNat(s[..|s| - 1]) * 10 + (s[|s| - 1] as int - '0' as int)
  }

  lemma DigitCharValue(d: int)
    requires 0 <= d < 10
    ensures DigitChar(d) as int - '0' as int == d
  {
    if d == 0 {} else if d == 1 {} else if d == 2 {} else if d == 3 {} else if d == 4 {}
    else if d == 5 {} else if d == 6 {} else if d == 7 {} else if d == 8 {} else {}
  }

  /** `int(str(n)) == n`: the decimal digits of a natural number read back
      to the same number. */
  lemma {:induction false} NatToStringParses(n: nat)
    ensures ParseNat(NatToString(n)) == n
    decreases n
  {
    var s := NatToString(n);
    if n < 10 {
      DigitCharValue(n);
      assert s[..0] == [];
    } else {
      var init := NatToString(n / 10);
      NatToStringParses(n / 10);
      DigitCharValue(n % 10);
      assert s[..|s| - 1] == init;
    }
  }

  /** `int(str(i)) == i` for an integer cell: a leading minus exactly for a
      negative value, then the digits of its magnitude. */
  lemma ShowIntParses(i: int)
    ensures i >= 0 ==> IsDigits(Show(Int(i))) && ParseNat(Show(Int(i))) == i
    ensures i < 0 ==> Show(Int(i))[0] == '-' && IsDigits(Show(Int(i))[1..]) && ParseNat(Show(Int(i))[1..]) == -i
  {
    var r := Show(Int(i));
    if i < 0 {
      var d := NatToString(-i);
      NatToStringParses(-i);
      assert r == "-" + d;
      SignThenDigits(r, d, -i);
    } else {
      assert r == NatToString(i);
      NatToStringParses(i);
    }
  }

  lemma SignThenDigits(r: string, d: string, n: nat)
    requires r == "-" + d && IsDigits(d) && ParseNat(d) == n
    ensures r[0] == '-' && IsDigits(r[1..]) && ParseNat(r[1..]) == n
  {
    assert r[1..] == d;
  }


  /** Decimal digits of a fraction `0 <= f < 1`, at most `n` of them, stopping
      as soon as the remainder is zero. */
  function FractionDigits(f: real, n: nat): string
    requires 0.0 <= f < 1.0
    decreases n
  {
    if n == 0 || f == 0.0 then ""
    else
      var d := (f * 10.0).Floor;
      [DigitChar(d)] + FractionDigits(f * 10.0 - d as real, n - 1)
  }

  /** A real printed the way Python prints a float of short decimal
      expansion: `2.0`, `-0.25`; longer expansions are cut at 17 digits. */
  function RealToString(r: real): string {
    if r < 0.0 then "-" + NonNegativeRealToString(-r) else NonNegativeRealToString(r)
  }

  function NonNegativeRealToString(r: real): string
    requires r >= 0.0
  {
    var whole := r.Floor;
    var digits := FractionDigits(r - whole as real, 17);
    NatToString(whole) + "." + (if digits == "" then "0" else digits)
  }

  /** The number a numeric cell holds. */
  function ToReal(c: Cell): real
    requires c.Int? || c.Real?
  {
    if c.Int? then c.i as real else c.r
  }

  /** pandas' element-wise `==` between a column and a value: missing values
      equal nothing, integers and reals compare by value, other kinds only
      within their own kind. */
  predicate CellEquals(a: Cell, b: Cell)
    ensures CellEquals(a, b) ==> !a.Null? && !b.Null?
    ensures a.Int? && b.Real? ==> (CellEquals(a, b) <==> a.i as real == b.r)
    ensures a.Str? ==> (CellEquals(a, b) <==> b == a)
    ensures a.Bool? ==> (CellEquals(a, b) <==> b == a)
  {
    if a.Bool? || b.Bool? then a.Bool? && b.Bool? && a.b == b.b
    else if a.Str? || b.Str? then a.Str? && b.Str? && a.s == b.s
    else if a.Inf? || b.Inf? then a.Inf? && b.Inf? && a.negative == b.negative
    else !a.Null? && !b.Null? && ToReal(a) == ToReal(b)
  }

  /** The comparison is symmetric and every present value equals itself. */
  lemma CellEqualsSymmetric(a: Cell, b: Cell)
    ensures CellEquals(a, b) == CellEquals(b, a)
    ensures !a.Null? ==> CellEquals(a, a)
  {
  }
}
