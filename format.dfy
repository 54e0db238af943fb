/** Python's `str.format(*args)` with positional arguments: `{}` takes the
    next argument, `{n}` takes argument `n`, `{{` and `}}` stand for single
    braces. */
module PyFormat {
  import opened Tables
  import Text

  /** Whether the template has used automatic (`{}`) or manual (`{n}`)
      field numbering so far; Python refuses to mix the two. */
  datatype Numbering = Unset | Automatic | Manual

  function Prepend(s: string, r: Result<string>): (q: Result<string>)
    ensures q.Ok? <==> r.Ok?
    ensures q.Ok? ==> q.value == s + r.value
    ensures q.Err? ==> q.error == r.error
  {
    match r
    case Ok(v) => Ok(s + v)
    case Err(e) => Err(e)
  }

  lemma PrependPrepend(a: string, b: string, r: Result<string>)
    ensures Prepend(a, Prepend(b, r)) == Prepend(a + b, r)
  {
    if r.Ok? {
      assert a + (b + r.value) == (a + b) + r.value;
    }
  }

  predicate IsDigit(c: char) {
    '0' <= c <= '9'
  }

  predicate AllDigits(s: string) {
    forall k :: 0 <= k < |s| ==> IsDigit(s[k])
  }

  /** `int(s)` for a string of decimal digits. */
  function DigitsValue(s: string): nat
    requires AllDigits(s)
  {
    if s == [] then 0 else 10 * DigitsValue(s[..|s| - 1]) + (s[|s| - 1] as int - '0' as int)
  }

  /** Reading back the decimal digits of a number gives the number. */
  lemma {:induction false} DigitsValueOfNatToString(n: nat)
    ensures AllDigits(NatToString(n)) && DigitsValue(NatToString(n)) == n
    decreases n
  {
    var s := NatToString(n);
    if n >= 10 {
      DigitsValueOfNatToString(n / 10);
      assert s[..|s| - 1] == NatToString(n / 10);
    }
  }

  /** Index of the first `}` at or after `from`, or `|t|` when there is none. */
  function FindClose(t: string, from: nat): (j: nat)
    requires from <= |t|
    ensures from <= j <= |t|
    ensures j < |t| ==> t[j] == '}'
    ensures forall k :: from <= k < j ==> t[k] != '}'
    decreases |t| - from
  {
    if from == |t| || t[from] == '}' then from else FindClose(t, from + 1)
  }

  /** Formats `t` when `next` automatic fields have been used so far. */
  function FormatFrom(t: string, args: seq<string>, next: nat, mode: Numbering): Result<string>
    decreases |t|
  {
    if t == [] then Ok("")
    else if t[0] == '{' then
      if |t| >= 2 && t[1] == '{' then Prepend("{", FormatFrom(t[2..], args, next, mode))
      else
        var close := FindClose(t, 1);
        if close == |t| then Err(FormatError(UnmatchedBrace))
        else
          var field := t[1..close];
          var rest := t[close + 1..];
          if field == [] then
            if mode == Manual then Err(FormatError(MixedNumbering))
            else if next >= |args| then Err(FormatError(IndexOutOfRange(next)))
            else Prepend(args[next], FormatFrom(rest, args, next + 1, Automatic))
          else if AllDigits(field) then
            var i := DigitsValue(field);
            if mode == Automatic then Err(FormatError(MixedNumbering))
            else if i >= |args| then Err(FormatError(IndexOutOfRange(i)))
            else Prepend(args[i], FormatFrom(rest, args, next, Manual))
          else Err(FormatError(UnsupportedField(field)))
    else if t[0] == '}' then
      if |t| >= 2 && t[1] == '}' then Prepend("}", FormatFrom(t[2..], args, next, mode))
      else Err(FormatError(UnmatchedBrace))
    else Prepend([t[0]], FormatFrom(t[1..], args, next, mode))
  }

  /** `template.format(*args)`. */
  function Format(template: string, args: seq<string>): Result<string> {
    FormatFrom(template, args, 0, Unset)
  }

  predicate NoBraces(s: string) {
    forall k :: 0 <= k < |s| ==> s[k] != '{' && s[k] != '}'
  }

  /** Text without braces is copied through unchanged. */
  lemma {:induction false} LiteralPrefix(lit: string, rest: string, args: seq<string>, next: nat, mode: Numbering)
    requires NoBraces(lit)
    ensures FormatFrom(lit + rest, args, next, mode) == Prepend(lit, FormatFrom(rest, args, next, mode))
    decreases |lit|
  {
    if lit != [] {
      var t := lit + rest;
      assert t[0] == lit[0] && t[1..] == lit[1..] + rest;
      assert FormatFrom(t, args, next, mode) == Prepend([lit[0]], FormatFrom(t[1..], args, next, mode));
      assert NoBraces(lit[1..]) by {
        forall k | 0 <= k < |lit| - 1 ensures lit[1..][k] == lit[k + 1] { }
      }
      LiteralPrefix(lit[1..], rest, args, next, mode);
      PrependPrepend([lit[0]], lit[1..], FormatFrom(rest, args, next, mode));
      assert lit == [lit[0]] + lit[1..];
    } else {
      assert lit + rest == rest;
      var r := FormatFrom(rest, args, next, mode);
      if r.Ok? {
        assert lit + r.value == r.value;
      }
    }
  }

  /** A template without braces formats to itself, whatever the arguments. */
  lemma LiteralTemplate(template: string, args: seq<string>)
    requires NoBraces(template)
    ensures Format(template, args) == Ok(template)
  {
    LiteralPrefix(template, "", args, 0, Unset);
    assert template + "" == template;
  }

  /** The text `lits[0] + args[0] + lits[1] + args[1] + ... + lits[n]`. */
  function Interleave(lits: seq<string>, args: seq<string>): string
    requires |lits| >= 1 && |args| >= |lits| - 1
    decreases |lits|
  {
    if |lits| == 1 then lits[0] else lits[0] + args[0] + Interleave(lits[1..], args[1..])
  }

  lemma AutoFieldStep(rest: string, args: seq<string>, next: nat, mode: Numbering)
    requires mode != Manual
    ensures FormatFrom("{}" + rest, args, next, mode)
            == if next < |args| then Prepend(args[next], FormatFrom(rest, args, next + 1, Automatic))
               else Err(FormatError(IndexOutOfRange(next)))
  {
    var t := "{}" + rest;
    assert FindClose(t, 1) == 1;
    assert t[1..1] == [] && t[2..] == rest;
  }

  /** The template `lits[0] + "{}" + lits[1] + ... + "{}" + lits[n]`, from
      the `next`-th argument on: each `{}` takes the following argument, in
      order, and a template with more fields than arguments fails with the
      index of the first missing one. */
  lemma {:induction false} AutoFieldsFrom(lits: seq<string>, args: seq<string>, next: nat, mode: Numbering)
    requires |lits| >= 1 && forall k :: 0 <= k < |lits| ==> NoBraces(lits[k])
    requires mode != Manual && next <= |args|
    ensures FormatFrom(Text.Join(lits, "{}"), args, next, mode)
            == if |args| - next >= |lits| - 1 then Ok(Interleave(lits, args[next..]))
               else Err(FormatError(IndexOutOfRange(|args|)))
    decreases |lits|
  {
    if |lits| == 1 {
      LiteralPrefix(lits[0], "", args, next, mode);
      assert lits[0] + "" == lits[0];
    } else {
      var tail := Text.Join(lits[1..], "{}");
      assert Text.Join(lits, "{}") == lits[0] + ("{}" + tail);
      LiteralPrefix(lits[0], "{}" + tail, args, next, mode);
      AutoFieldStep(tail, args, next, mode);
      if next < |args| {
        var r := FormatFrom(tail, args, next + 1, Automatic);
        AutoFieldsFrom(lits[1..], args, next + 1, Automatic);
        PrependPrepend(lits[0], args[next], r);
        assert args[next..][1..] == args[next + 1..];
        assert args[next..][0] == args[next];
        if r.Ok? {
          assert lits[0] + args[next] + r.value == lits[0] + (args[next] + r.value);
        }
      }
    }
  }

  /** Positional substitution: `"{}"`-fields receive the arguments in order. */
  lemma AutoFields(lits: seq<string>, args: seq<string>)
    requires |lits| >= 1 && forall k :: 0 <= k < |lits| ==> NoBraces(lits[k])
    ensures Format(Text.Join(lits, "{}"), args)
            == if |args| >= |lits| - 1 then Ok(Interleave(lits, args))
               else Err(FormatError(IndexOutOfRange(|args|)))
  {
    AutoFieldsFrom(lits, args, 0, Unset);
    assert args[0..] == args;
  }

  /** An explicit field `{n}` takes argument `n`, and fails when there is no
      such argument. */
  lemma ManualField(n: nat, args: seq<string>)
    ensures Format("{" + NatToString(n) + "}", args)
            == if n < |args| then Ok(args[n]) else Err(FormatError(IndexOutOfRange(n)))
  {
    var digits := NatToString(n);
    var t := "{" + digits + "}";
    DigitsValueOfNatToString(n);
    FindCloseAfterDigits(digits);
    assert t[1..|digits| + 1] == digits;
    assert t[|digits| + 2..] == [];
    assert t[1] == digits[0] && IsDigit(digits[0]);
    assert FormatFrom(t[|digits| + 2..], args, 0, Manual) == Ok("");
    if n < |args| {
      assert args[n] + "" == args[n];
    }
  }

  lemma FindCloseAfterDigits(digits: string)
    requires AllDigits(digits)
    ensures FindClose("{" + digits + "}", 1) == |digits| + 1
  {
    var t := "{" + digits + "}";
    assert t[|digits| + 1] == '}';
    assert forall k :: 1 <= k < |digits| + 1 ==> t[k] == digits[k - 1];
  }
}
