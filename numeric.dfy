/** The numeric semantics of the formula engine, of `round` and of the
    column statistics: exact arithmetic on integer and real cells, with the
    signed infinities and missing values that pandas' floating point gives
    for division by zero and for missing operands. */
module Numeric {
  import opened Tables

  /** A number: an integer, a real or an infinity. */
  predicate IsNumber(c: Cell) {
    c.Int? || c.Real? || c.Inf?
  }

  /** A value arithmetic accepts: a number or a missing value. */
  predicate IsArithmetic(c: Cell) {
    c.Null? || IsNumber(c)
  }

  predicate IsFinite(c: Cell) {
    c.Int? || c.Real?
  }

  predicate IsZero(c: Cell) {
    IsFinite(c) && ToReal(c) == 0.0
  }

  predicate IsNegative(c: Cell)
    requires IsNumber(c)
  {
    if c.Inf? then c.negative else ToReal(c) < 0.0
  }

  function Negate(c: Cell): (r: Cell)
    requires IsArithmetic(c)
    ensures IsArithmetic(r) && (IsFinite(c) ==> IsFinite(r) && ToReal(r) == -ToReal(c))
  {
    match c
    case Int(i) => Int(-i)
    case Real(x) => Real(-x)
    case Inf(neg) => Inf(!neg)
    case _ => c
  }

  /** `a + b`. */
  function Add(a: Cell, b: Cell): (r: Result<Cell>)
    ensures r.Err? <==> !IsArithmetic(a) || !IsArithmetic(b)
    ensures r.Err? ==> r.error == TypeMismatch
    ensures r.Ok? ==> IsArithmetic(r.value)
    ensures r.Ok? && IsFinite(a) && IsFinite(b) ==> IsFinite(r.value) && ToReal(r.value) == ToReal(a) + ToReal(b)
    ensures r.Ok? && (a.Null? || b.Null?) ==> r.value.Null?
  {
    if !IsArithmetic(a) || !IsArithmetic(b) then Err(TypeMismatch)
    else if a.Null? || b.Null? then Ok(Null)
    else if a.Inf? && b.Inf? then Ok(if a.negative == b.negative then a else Null)
    else if a.Inf? then Ok(a)
    else if b.Inf? then Ok(b)
    else if a.Int? && b.Int? then Ok(Int(a.i + b.i))
    else Ok(Real(ToReal(a) + ToReal(b)))
  }

  /** `a - b`. */
  function Subtract(a: Cell, b: Cell): (r: Result<Cell>)
    ensures r.Err? <==> !IsArithmetic(a) || !IsArithmetic(b)
    ensures r.Ok? && IsFinite(a) && IsFinite(b) ==> IsFinite(r.value) && ToReal(r.value) == ToReal(a) - ToReal(b)
  {
    if !IsArithmetic(a) || !IsArithmetic(b) then Err(TypeMismatch) else Add(a, Negate(b))
  }

  /** `a * b`. */
  function Multiply(a: Cell, b: Cell): (r: Result<Cell>)
    ensures r.Err? <==> !IsArithmetic(a) || !IsArithmetic(b)
    ensures r.Ok? ==> IsArithmetic(r.value)
    ensures r.Ok? && IsFinite(a) && IsFinite(b) ==> IsFinite(r.value) && ToReal(r.value) == ToReal(a) * ToReal(b)
  {
    if !IsArithmetic(a) || !IsArithmetic(b) then Err(TypeMismatch)
    else if a.Null? || b.Null? then Ok(Null)
    else if a.Inf? || b.Inf? then
      if IsZero(a) || IsZero(b) then Ok(Null) else Ok(Inf(IsNegative(a) != IsNegative(b)))
    else if a.Int? && b.Int? then Ok(Int(a.i * b.i))
    else Ok(Real(ToReal(a) * ToReal(b)))
  }

  /** True division `a / b`: the quotient of finite numbers is a real, a
      non-zero number over zero is an infinity of its sign, and zero over
      zero is missing. */
  function Divide(a: Cell, b: Cell): (r: Result<Cell>)
    ensures r.Err? <==> !IsArithmetic(a) || !IsArithmetic(b)
    ensures r.Ok? && IsFinite(a) && IsFinite(b) && !IsZero(b) ==> r.value == Real(ToReal(a) / ToReal(b))
    ensures r.Ok? && IsNumber(a) && !IsZero(a) && IsZero(b) ==> r.value == Inf(IsNegative(a))
    ensures r.Ok? && IsZero(a) && IsZero(b) ==> r.value.Null?
  {
    if !IsArithmetic(a) || !IsArithmetic(b) then Err(TypeMismatch)
    else if a.Null? || b.Null? then Ok(Null)
    else if IsZero(b) then
      if IsZero(a) then Ok(Null) else Ok(Inf(IsNegative(a)))
    else if b.Inf? then
      if a.Inf? then Ok(Null) else Ok(Real(0.0))
    else if a.Inf? then Ok(Inf(a.negative != IsNegative(b)))
    else Ok(Real(ToReal(a) / ToReal(b)))
  }

  /** Dividing then multiplying back by a finite non-zero divisor gives the
      dividend's value. */
  lemma DivideMultiplyInverse(a: Cell, b: Cell)
    requires IsFinite(a) && IsFinite(b) && !IsZero(b)
    ensures Divide(a, b).Ok? && Multiply(Divide(a, b).value, b).Ok?
    ensures ToReal(Multiply(Divide(a, b).value, b).value) == ToReal(a)
  {
    var q := ToReal(a) / ToReal(b);
    assert q * ToReal(b) == ToReal(a);
  }

  /** Subtracting then adding back gives the original value. */
  lemma SubtractAddInverse(a: Cell, b: Cell)
    requires IsFinite(a) && IsFinite(b)
    ensures Subtract(a, b).Ok? && Add(Subtract(a, b).value, b).Ok?
    ensures ToReal(Add(Subtract(a, b).value, b).value) == ToReal(a)
  {
  }

  /** `row.sum()`: missing values are skipped, the empty sum is 0. */
  function Sum(cells: seq<Cell>): (r: Result<Cell>)
    ensures r.Err? <==> exists k :: 0 <= k < |cells| && !IsArithmetic(cells[k])
    ensures r.Ok? ==> IsArithmetic(r.value)
  {
    if cells == [] then Ok(Int(0))
    else
      var last := cells[|cells| - 1];
      var rest :- Sum(cells[..|cells| - 1]);
      assert forall k :: 0 <= k < |cells| - 1 ==> cells[..|cells| - 1][k] == cells[k];
      if last.Null? then Ok(rest) else Add(rest, last)
  }

  /** `row.prod()`: missing values are skipped, the empty product is 1. */
  function Product(cells: seq<Cell>): (r: Result<Cell>)
    ensures r.Err? <==> exists k :: 0 <= k < |cells| && !IsArithmetic(cells[k])
    ensures r.Ok? ==> IsArithmetic(r.value)
  {
    if cells == [] then Ok(Int(1))
    else
      var last := cells[|cells| - 1];
      var rest :- Product(cells[..|cells| - 1]);
      assert forall k :: 0 <= k < |cells| - 1 ==> cells[..|cells| - 1][k] == cells[k];
      if last.Null? then Ok(rest) else Multiply(rest, last)
  }

  function IntSum(xs: seq<int>): int {
    if xs == [] then 0 else IntSum(xs[..|xs| - 1]) + xs[|xs| - 1]
  }

  function IntProduct(xs: seq<int>): int {
    if xs == [] then 1 else IntProduct(xs[..|xs| - 1]) * xs[|xs| - 1]
  }

  function Ints(cells: seq<Cell>): (xs: seq<int>)
    requires forall k :: 0 <= k < |cells| ==> cells[k].Int?
    ensures |xs| == |cells| && forall k :: 0 <= k < |cells| ==> xs[k] == cells[k].i
  {
    seq(|cells|, k requires 0 <= k < |cells| => cells[k].i)
  }

  /** On integer cells the row sum and product are the integer sum and
      product. */
  lemma {:induction false} SumProductOfInts(cells: seq<Cell>)
    requires forall k :: 0 <= k < |cells| ==> cells[k].Int?
    ensures Sum(cells) == Ok(Int(IntSum(Ints(cells))))
    ensures Product(cells) == Ok(Int(IntProduct(Ints(cells))))
  {
    if cells != [] {
      var init := cells[..|cells| - 1];
      SumProductOfInts(init);
      assert Ints(cells)[..|cells| - 1] == Ints(init);
    }
  }

  /** Missing values do not change a row sum. */
  lemma {:induction false} SumSkipsMissing(cells: seq<Cell>, k: nat)
    requires k <= |cells|
    ensures Sum(cells[..k] + [Null] + cells[k..]) == Sum(cells)
    decreases |cells|
  {
    var with := cells[..k] + [Null] + cells[k..];
    if k == |cells| {
      assert with[..|with| - 1] == cells;
    } else {
      var init := cells[..|cells| - 1];
      SumSkipsMissing(init, k);
      assert with[..|with| - 1] == init[..k] + [Null] + init[k..];
      assert with[|with| - 1] == cells[|cells| - 1];
    }
  }

  /** Round half to even, the rule numpy applies to ties. */
  function RoundHalfEven(x: real): (n: int)
    ensures -0.5 <= n as real - x <= 0.5
    ensures (n as real - x == 0.5 || n as real - x == -0.5) ==> n % 2 == 0
  {
    var f := x.Floor;
    var d := x - f as real;
    if d < 0.5 then f
    else if d > 0.5 then f + 1
    else if f % 2 == 0 then f else f + 1
  }

  /** How far apart two reals are. */
  function Distance(a: real, b: real): (r: real)
    ensures r >= 0.0
  {
    if a >= b then a - b else b - a
  }

  /** No integer is nearer to `x` than the rounded value. */
  lemma RoundHalfEvenNearest(x: real, m: int)
    ensures Distance(RoundHalfEven(x) as real, x) <= Distance(m as real, x)
  {
    var f := x.Floor;
    if m <= f {
      assert x - m as real >= x - f as real;
    } else {
      assert m as real - x >= (f + 1) as real - x;
    }
  }

  lemma RoundHalfEvenOfInt(n: int)
    ensures RoundHalfEven(n as real) == n
  {
  }

  function Pow10(n: nat): (p: nat)
    ensures p >= 1
  {
    if n == 0 then 1 else 10 * Pow10(n - 1)
  }

  /** `round(x, decimals)` on a real: the nearest multiple of 10^-decimals,
      ties to the even multiple. */
  function RoundReal(x: real, decimals: int): real {
    if decimals >= 0 then RoundToFraction(x, Pow10(decimals) as real)
    else RoundToMultiple(x, Pow10(-decimals) as real)
  }

  /** The nearest multiple of `1 / p`. */
  function RoundToFraction(x: real, p: real): real
    requires p > 0.0
  {
    RoundHalfEven(x * p) as real / p
  }

  /** The nearest multiple of `p`. */
  function RoundToMultiple(x: real, p: real): real
    requires p > 0.0
  {
    RoundHalfEven(x / p) as real * p
  }

  /** `Series.round(decimals)` on one cell. */
  function Round(c: Cell, decimals: int): (r: Result<Cell>)
    ensures r.Err? <==> !IsArithmetic(c)
    ensures r.Ok? ==> (r.value.Null? <==> c.Null?) && (r.value.Inf? <==> c.Inf?)
    ensures r.Ok? && c.Int? && decimals >= 0 ==> r.value == c
  {
    match c
    case Null => Ok(Null)
    case Inf(_) => Ok(c)
    case Int(i) =>
      if decimals >= 0 then Ok(c)
      else
        var p := Pow10(-decimals);
        Ok(Int(RoundHalfEven(i as real / p as real) * p))
    case Real(x) => Ok(Real(RoundReal(x, decimals)))
    case _ => Err(TypeMismatch)
  }

  /** Scaling both points by `p` scales their distance by `p`. */
  lemma ScaledDistance(a: real, b: real, p: real, ap: real, bp: real)
    requires p > 0.0 && ap == a * p && bp == b * p
    ensures Distance(ap, bp) == Distance(a, b) * p
  {
    if a >= b {
      assert ap >= bp;
    } else {
      assert ap < bp;
    }
  }

  /** `y` is an integer, no integer is nearer to `v`, and when `y` is half
      a unit away from `v` it is even. */
  predicate NearestEven(y: real, v: real, m: int) {
    && y == y.Floor as real
    && Distance(y, v) <= Distance(m as real, v)
    && (Distance(y, v) == 0.5 ==> y.Floor % 2 == 0)
  }

  /** `round(x, decimals)` with `decimals >= 0` lands on the grid of
      multiples of 10^-decimals: scaled by 10^decimals it is the integer
      nearest to the scaled value (no integer `m` is nearer), and a tie goes
      to the even one. */
  lemma RoundRealOnGrid(x: real, decimals: nat, m: int)
    ensures NearestEven(RoundReal(x, decimals) * Pow10(decimals) as real, x * Pow10(decimals) as real, m)
  {
    RoundRealScaled(x, decimals, Pow10(decimals), m);
  }

  /** `RoundRealOnGrid` with the scale `p = 10^decimals` named. */
  lemma RoundRealScaled(x: real, decimals: nat, p: nat, m: int)
    requires p == Pow10(decimals)
    ensures NearestEven(RoundReal(x, decimals) * p as real, x * p as real, m)
  {
    FractionNearest(x, p as real, m);
  }

  /** Scaled back by `p`, the nearest multiple of `1 / p` is the integer
      nearest to `x * p`, ties to even. */
  lemma FractionNearest(x: real, p: real, m: int)
    requires p > 0.0
    ensures NearestEven(RoundToFraction(x, p) * p, x * p, m)
  {
    var v := x * p;
    var n := RoundHalfEven(v);
    GridPoint(x, p);
    RoundHalfEvenNearest(v, m);
    IntegerNearestEven(RoundToFraction(x, p) * p, n, v, m);
  }

  lemma IntegerNearestEven(y: real, n: int, v: real, m: int)
    requires y == n as real && Distance(n as real, v) <= Distance(m as real, v)
    requires (n as real - v == 0.5 || n as real - v == -0.5) ==> n % 2 == 0
    ensures NearestEven(y, v, m)
  {
    assert y.Floor == n;
  }

  /** Scaled back by `p`, the nearest multiple of `1 / p` is an integer. */
  lemma GridPoint(x: real, p: real)
    requires p > 0.0
    ensures RoundToFraction(x, p) * p == RoundHalfEven(x * p) as real
  {
    RoundToFractionUnfold(x, p);
    QuotientTimes(RoundHalfEven(x * p) as real, p);
  }

  lemma QuotientTimes(a: real, p: real)
    requires p > 0.0
    ensures a / p * p == a
  {
  }

  /** `round(i, decimals)` of an integer with `decimals < 0` is a multiple
      of 10^-decimals, no multiple is nearer to `i`, and a tie goes to the
      even multiple. */
  lemma RoundIntOnGrid(i: int, decimals: int, m: int)
    requires decimals < 0
    ensures var p := Pow10(-decimals);
            var r := Round(Int(i), decimals);
            && r.Ok? && r.value.Int? && r.value.i % p == 0
            && Distance(r.value.i as real, i as real) <= Distance((m * p) as real, i as real)
            && (Distance(r.value.i as real, i as real) == 0.5 * p as real ==> (r.value.i / p) % 2 == 0)
  {
    var p := Pow10(-decimals);
    var n := RoundHalfEven(i as real / p as real);
    assert Round(Int(i), decimals) == Ok(Int(n * p));
    MultipleOf(n, p);
    NearestMultiple(i, p, m);
  }

  lemma MultipleOf(n: int, p: nat)
    requires p >= 1
    ensures (n * p) % p == 0 && (n * p) / p == n
  {
    var a := n * p;
    var q, r := a / p, a % p;
    assert a == p * q + r && 0 <= r < p;
    var k := n - q;
    assert k * p == r by { assert k * p == n * p - q * p; }
    if k >= 1 {
      AtLeastOnce(k, p);
    }
  }

  lemma AtLeastOnce(k: int, p: nat)
    requires k >= 1 && p >= 1
    ensures k * p >= p
  {
    assert k * p == (k - 1) * p + p;
    assert (k - 1) * p >= 0;
  }

  /** Rounding `i / p` and scaling back by `p` gives the multiple of `p`
      nearest to `i`, ties to the even multiple. */
  lemma NearestMultiple(i: int, p: nat, m: int)
    requires p >= 1
    ensures var n := RoundHalfEven(i as real / p as real);
            && Distance((n * p) as real, i as real) <= Distance((m * p) as real, i as real)
            && (Distance((n * p) as real, i as real) == 0.5 * p as real ==> n % 2 == 0)
  {
    var q := i as real / p as real;
    var n := RoundHalfEven(q);
    RoundHalfEvenNearest(q, m);
    CastProduct(n, p);
    CastProduct(m, p);
    NearestScaled(i as real, p as real, n as real, m as real, (n * p) as real, (m * p) as real);
  }

  lemma CastProduct(a: int, b: int)
    ensures (a * b) as real == a as real * b as real
  {
  }

  /** A point `n` at least as near to `i / p` as `m` gives a multiple
      `np = n * p` at least as near to `i` as `mp = m * p`. */
  lemma NearestScaled(i: real, p: real, n: real, m: real, np: real, mp: real)
    requires p > 0.0 && np == n * p && mp == m * p
    requires Distance(n, i / p) <= Distance(m, i / p)
    ensures Distance(np, i) <= Distance(mp, i)
    ensures Distance(np, i) == 0.5 * p ==> Distance(n, i / p) == 0.5
  {
    QuotientTimes(i, p);
    ScaledDistance(n, i / p, p, np, i);
    ScaledDistance(m, i / p, p, mp, i);
    ScaledCompare(Distance(n, i / p), Distance(m, i / p), p, Distance(np, i), Distance(mp, i));
  }

  /** Comparisons survive scaling by a positive factor. */
  lemma ScaledCompare(dn: real, dm: real, p: real, an: real, am: real)
    requires p > 0.0 && an == dn * p && am == dm * p && dn <= dm
    ensures an <= am
    ensures an == 0.5 * p ==> dn == 0.5
  {
  }

  /** A rounded real is within half a unit of the last kept digit. */
  lemma RoundRealError(x: real, decimals: nat)
    ensures -0.5 / Pow10(decimals) as real <= RoundReal(x, decimals) - x <= 0.5 / Pow10(decimals) as real
  {
    RoundToFractionError(x, Pow10(decimals) as real);
  }

  lemma RoundToFractionError(x: real, p: real)
    requires p > 0.0
    ensures -0.5 / p <= RoundToFraction(x, p) - x <= 0.5 / p
  {
    var n := RoundHalfEven(x * p);
    var y := RoundToFraction(x, p) - x;
    assert y * p == n as real - x * p;
    ScaledBound(y, p, 0.5);
  }

  lemma ScaledBound(y: real, p: real, c: real)
    requires p > 0.0 && -c <= y * p <= c
    ensures -c / p <= y <= c / p
  {
  }

  lemma RoundToFractionIdempotent(x: real, p: real)
    requires p > 0.0
    ensures RoundToFraction(RoundToFraction(x, p), p) == RoundToFraction(x, p)
  {
    RoundToFractionOfFraction(RoundHalfEven(x * p), p);
  }

  lemma RoundToFractionOfFraction(n: int, p: real)
    requires p > 0.0
    ensures RoundToFraction(n as real / p, p) == n as real / p
  {
    var y := n as real / p;
    RoundToFractionUnfold(y, p);
    assert y * p == n as real;
    RoundHalfEvenOfInt(n);
  }

  lemma RoundToFractionUnfold(y: real, p: real)
    requires p > 0.0
    ensures RoundToFraction(y, p) == RoundHalfEven(y * p) as real / p
  {
  }

  lemma RoundToMultipleIdempotent(x: real, p: real)
    requires p > 0.0
    ensures RoundToMultiple(RoundToMultiple(x, p), p) == RoundToMultiple(x, p)
  {
    var n := RoundHalfEven(x / p);
    var y := RoundToMultiple(x, p);
    assert y == n as real * p;
    assert y / p == n as real;
    RoundHalfEvenOfInt(n);
    assert RoundHalfEven(y / p) == n;
  }

  /** Rounding an already rounded real changes nothing. */
  lemma RoundRealIdempotent(x: real, decimals: int)
    ensures RoundReal(RoundReal(x, decimals), decimals) == RoundReal(x, decimals)
  {
    if decimals >= 0 {
      RoundToFractionIdempotent(x, Pow10(decimals) as real);
    } else {
      RoundToMultipleIdempotent(x, Pow10(-decimals) as real);
    }
  }

  lemma RoundIdempotent(c: Cell, decimals: int)
    requires IsArithmetic(c)
    ensures Round(c, decimals).Ok? && Round(Round(c, decimals).value, decimals) == Round(c, decimals)
  {
    match c
    case Real(x) => RoundRealIdempotent(x, decimals);
    case Int(i) =>
      if decimals < 0 {
        var p := Pow10(-decimals);
        var n := RoundHalfEven(i as real / p as real);
        assert ((n * p) as real) / p as real == n as real;
        RoundHalfEvenOfInt(n);
      }
    case _ =>
  }

  // ---------------------------------------------------------------------
  // Column statistics

  /** The order numbers sort in: minus infinity, the finite values, plus
      infinity. */
  predicate NumberLe(a: Cell, b: Cell)
    requires IsNumber(a) && IsNumber(b)
  {
    if a.Inf? then a.negative || (b.Inf? && !b.negative)
    else if b.Inf? then !b.negative
    else ToReal(a) <= ToReal(b)
  }

  lemma NumberLeTotal(a: Cell, b: Cell)
    requires IsNumber(a) && IsNumber(b)
    ensures NumberLe(a, b) || NumberLe(b, a)
  {
  }

  lemma NumberLeTransitive(a: Cell, b: Cell, c: Cell)
    requires IsNumber(a) && IsNumber(b) && IsNumber(c)
    requires NumberLe(a, b) && NumberLe(b, c)
    ensures NumberLe(a, c)
  {
  }

  predicate AllNumbers(s: seq<Cell>) {
    forall k :: 0 <= k < |s| ==> IsNumber(s[k])
  }

  predicate Sorted(s: seq<Cell>)
    requires AllNumbers(s)
  {
    forall i, j :: 0 <= i < j < |s| ==> NumberLe(s[i], s[j])
  }

  /** Inserts `x` before the first element it is not above. */
  function Insert(x: Cell, s: seq<Cell>): (r: seq<Cell>)
    requires IsNumber(x) && AllNumbers(s)
    ensures AllNumbers(r) && multiset(r) == multiset(s) + multiset{x}
    ensures Sorted(s) ==> Sorted(r)
  {
    if s == [] then [x]
    else if NumberLe(x, s[0]) then
      assert forall j :: 0 < j < |s| && Sorted(s) ==> NumberLe(s[0], s[j]);
      assert Sorted(s) ==> forall j :: 0 <= j < |s| ==> NumberLe(x, s[j]) by {
        forall j | 0 <= j < |s| && Sorted(s) ensures NumberLe(x, s[j]) {
          if j > 0 { NumberLeTransitive(x, s[0], s[j]); }
        }
      }
      [x] + s
    else
      var rest := Insert(x, s[1..]);
      assert s == [s[0]] + s[1..];
      InsertSortedHead(x, s, rest);
      [s[0]] + rest
  }

  lemma InsertSortedHead(x: Cell, s: seq<Cell>, rest: seq<Cell>)
    requires IsNumber(x) && AllNumbers(s) && AllNumbers(rest) && s != []
    requires !NumberLe(x, s[0])
    requires multiset(rest) == multiset(s[1..]) + multiset{x}
    requires Sorted(s) ==> Sorted(rest)
    ensures Sorted(s) ==> Sorted([s[0]] + rest)
  {
    if Sorted(s) {
      NumberLeTotal(x, s[0]);
      forall j | 0 <= j < |rest| ensures NumberLe(s[0], rest[j]) {
        assert rest[j] in multiset(rest);
        if rest[j] == x {
        } else {
          assert rest[j] in multiset(s[1..]);
          var k :| 0 <= k < |s[1..]| && s[1..][k] == rest[j];
          assert s[k + 1] == rest[j];
        }
      }
    }
  }

  /** Sorts numbers in ascending order. */
  function Sort(s: seq<Cell>): (r: seq<Cell>)
    requires AllNumbers(s)
    ensures AllNumbers(r) && |r| == |s|
  {
    if s == [] then [] else
      var r := Insert(s[0], Sort(s[1..]));
      assert |r| == |multiset(r)|;
      r
  }

  /** `Sort` returns an ascending permutation of its input. */
  lemma {:induction false} SortSpec(s: seq<Cell>)
    requires AllNumbers(s)
    ensures Sorted(Sort(s)) && multiset(Sort(s)) == multiset(s)
  {
    if s != [] {
      SortSpec(s[1..]);
      assert s == [s[0]] + s[1..];
    }
  }

  /** Reals as numbers: the finite cells. */
  predicate AllFinite(s: seq<Cell>) {
    forall k :: 0 <= k < |s| ==> IsFinite(s[k])
  }

  /** `Series.mean()` over the non-missing values. */
  function Mean(values: seq<Cell>): (r: Cell)
    requires |values| > 0 && AllNumbers(values)
    ensures !r.Int? && !r.Bool? && !r.Str?
    ensures AllFinite(values) ==> r.Real?
  {
    SumIsArithmetic(values);
    var total := Sum(values);
    var q := Divide(total.value, Int(|values|));
    assert q.Ok?;
    q.value
  }

  lemma {:induction false} SumIsArithmetic(values: seq<Cell>)
    requires AllNumbers(values)
    ensures Sum(values).Ok? && IsArithmetic(Sum(values).value)
    ensures AllFinite(values) ==> IsFinite(Sum(values).value)
  {
    if values != [] {
      var init := values[..|values| - 1];
      SumIsArithmetic(init);
    }
  }

  function RealSum(values: seq<Cell>): real
    requires AllFinite(values)
  {
    if values == [] then 0.0 else RealSum(values[..|values| - 1]) + ToReal(values[|values| - 1])
  }

  lemma {:induction false} SumOfFinite(values: seq<Cell>)
    requires AllFinite(values)
    ensures Sum(values).Ok? && IsFinite(Sum(values).value) && ToReal(Sum(values).value) == RealSum(values)
  {
    if values != [] {
      SumOfFinite(values[..|values| - 1]);
    }
  }

  function RealProduct(values: seq<Cell>): real
    requires AllFinite(values)
  {
    if values == [] then 1.0 else RealProduct(values[..|values| - 1]) * ToReal(values[|values| - 1])
  }

  /** The row product of finite values is finite and is their real product. */
  lemma {:induction false} ProductOfFinite(values: seq<Cell>)
    requires AllFinite(values)
    ensures Product(values).Ok? && IsFinite(Product(values).value) && ToReal(Product(values).value) == RealProduct(values)
  {
    if values != [] {
      var init := values[..|values| - 1];
      var last := values[|values| - 1];
      assert AllFinite(init) by {
        forall k | 0 <= k < |init| ensures IsFinite(init[k]) { assert init[k] == values[k]; }
      }
      ProductOfFinite(init);
      var rest := Product(init).value;
      assert Product(values) == Multiply(rest, last);
    }
  }

  /** Each value is at least `lo` and at most `hi`: the sum lies between
      `n * lo` and `n * hi`. */
  lemma {:induction false} RealSumBounds(values: seq<Cell>, lo: real, hi: real)
    requires AllFinite(values)
    requires forall k :: 0 <= k < |values| ==> lo <= ToReal(values[k]) <= hi
    ensures |values| as real * lo <= RealSum(values) <= |values| as real * hi
  {
    if values != [] {
      RealSumBounds(values[..|values| - 1], lo, hi);
    }
  }

  lemma MeanOfFinite(values: seq<Cell>)
    requires |values| > 0 && AllFinite(values)
    ensures Mean(values) == Real(RealSum(values) / |values| as real)
  {
    SumOfFinite(values);
  }

  /** The mean of finite values is a real that lies within every bound that
      all of the values respect. */
  lemma MeanBounds(values: seq<Cell>, lo: real, hi: real)
    requires |values| > 0 && AllFinite(values)
    requires forall k :: 0 <= k < |values| ==> lo <= ToReal(values[k]) <= hi
    ensures Mean(values).Real? && lo <= Mean(values).r <= hi
  {
    MeanOfFinite(values);
    AverageBounds(values, lo, hi);
  }

  /** The real sum over the count lies within the values' bounds. */
  lemma AverageBounds(values: seq<Cell>, lo: real, hi: real)
    requires |values| > 0 && AllFinite(values)
    requires forall k :: 0 <= k < |values| ==> lo <= ToReal(values[k]) <= hi
    ensures lo <= RealSum(values) / |values| as real <= hi
  {
    RealSumBounds(values, lo, hi);
    QuotientBounds(RealSum(values), |values| as real, lo, hi);
  }

  lemma QuotientBounds(total: real, n: real, lo: real, hi: real)
    requires n > 0.0 && n * lo <= total <= n * hi
    ensures lo <= total / n <= hi
  {
  }

  /** `Series.median()` over the non-missing values: the middle value, or
      the mean of the two middle values, of the sorted values. */
  function Median(values: seq<Cell>): (r: Cell)
    requires |values| > 0 && AllNumbers(values)
    ensures !r.Int? && !r.Bool? && !r.Str?
    ensures AllFinite(values) ==> r.Real?
  {
    SortKeepsFinite(values);
    Middle(Sort(values))
  }

  /** The middle value of sorted numbers, or the mean of the two middle
      values when their count is even. */
  function Middle(s: seq<Cell>): (r: Cell)
    requires |s| > 0 && AllNumbers(s)
    ensures !r.Int? && !r.Bool? && !r.Str?
    ensures AllFinite(s) ==> r == Real(if |s| % 2 == 1 then ToReal(s[|s| / 2]) / 1.0
                                      else (ToReal(s[|s| / 2 - 1]) + ToReal(s[|s| / 2])) / 2.0)
  {
    var n := |s|;
    if n % 2 == 1 then
      var q := Divide(s[n / 2], Int(1));
      assert q.Ok?;
      q.value
    else
      var total := Add(s[n / 2 - 1], s[n / 2]);
      assert total.Ok?;
      var q := Divide(total.value, Int(2));
      assert q.Ok?;
      q.value
  }

  /** Sorting gives ascending values, and finite values stay finite. */
  lemma SortKeepsFinite(values: seq<Cell>)
    requires AllNumbers(values)
    ensures Sorted(Sort(values))
    ensures AllFinite(values) ==> AllFinite(Sort(values))
  {
    SortSpec(values);
    if AllFinite(values) {
      var s := Sort(values);
      forall j | 0 <= j < |s| ensures IsFinite(s[j]) {
        assert s[j] in multiset(values);
      }
    }
  }

  /** The median lies between the two middle values of the sorted values. */
  lemma MedianBetweenMiddles(values: seq<Cell>)
    requires |values| > 0 && AllFinite(values)
    ensures var s := Sort(values);
            var n := |s|;
            var lo := if n % 2 == 1 then n / 2 else n / 2 - 1;
            AllFinite(s) && Median(values).Real? &&
            ToReal(s[lo]) <= Median(values).r <= ToReal(s[n / 2])
  {
    assert AllNumbers(values);
    var s := Sort(values);
    SortKeepsFinite(values);
    MiddleBetween(s);
    assert Median(values) == Middle(s);
  }

  /** The middle of sorted finite values lies between the two middle ones. */
  lemma MiddleBetween(s: seq<Cell>)
    requires |s| > 0 && AllFinite(s) && Sorted(s)
    ensures var n := |s|;
            var lo := if n % 2 == 1 then n / 2 else n / 2 - 1;
            Middle(s).Real? && ToReal(s[lo]) <= Middle(s).r <= ToReal(s[n / 2])
  {
    var n := |s|;
    if n % 2 == 0 {
      assert NumberLe(s[n / 2 - 1], s[n / 2]);
      assert ToReal(s[n / 2 - 1]) <= ToReal(s[n / 2]);
    }
  }

  /** The median of finite values is a real between the smallest and the
      largest of them: some value is at most it and some value at least it. */
  lemma MedianBounds(values: seq<Cell>)
    requires |values| > 0 && AllFinite(values)
    ensures Median(values).Real?
    ensures exists k :: 0 <= k < |values| && ToReal(values[k]) <= Median(values).r
    ensures exists k :: 0 <= k < |values| && Median(values).r <= ToReal(values[k])
  {
    assert AllNumbers(values);
    var s := Sort(values);
    SortSpec(values);
    SortKeepsFinite(values);
    MiddleAmong(values, s);
    assert Median(values) == Middle(s);
  }

  /** The middle of a sorted permutation of finite values has one of the
      values at or below it and one at or above it. */
  lemma MiddleAmong(values: seq<Cell>, s: seq<Cell>)
    requires AllFinite(values) && |s| > 0 && AllFinite(s) && AllNumbers(s) && Sorted(s)
    requires multiset(s) == multiset(values)
    ensures Middle(s).Real?
    ensures exists k :: 0 <= k < |values| && ToReal(values[k]) <= Middle(s).r
    ensures exists k :: 0 <= k < |values| && Middle(s).r <= ToReal(values[k])
  {
    var n := |s|;
    MiddleBetween(s);
    var lo := if n % 2 == 1 then n / 2 else n / 2 - 1;
    assert s[lo] in multiset(values) && s[n / 2] in multiset(values) by {
      assert s[lo] in multiset(s) && s[n / 2] in multiset(s);
    }
    var i :| 0 <= i < |values| && values[i] == s[lo];
    var j :| 0 <= j < |values| && values[j] == s[n / 2];
  }
}
