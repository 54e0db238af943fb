/** The Python string methods the core relies on, over ASCII: `split` and
    `join` with an explicit separator, `replace`, `upper`, `lower`, `title`
    and `strip`. */
module Text {

  /** `sep.join(parts)`. */
  function Join(parts: seq<string>, sep: string): string {
    if parts == [] then ""
    else if |parts| == 1 then parts[0]
    else parts[0] + sep + Join(parts[1..], sep)
  }

  /** `s.split(sep)` for a non-empty separator: the pieces between the
      non-overlapping occurrences of `sep`, found left to right. */
  function Split(s: string, sep: string): (parts: seq<string>)
    requires |sep| > 0
    ensures |parts| >= 1
    decreases |s|
  {
    if |s| < |sep| then [s]
    else if s[..|sep|] == sep then [""] + Split(s[|sep|..], sep)
    else
      var rest := Split(s[1..], sep);
      [[s[0]] + rest[0]] + rest[1..]
  }

  /** `s.replace(old, new)` for a non-empty `old`: every occurrence, found
      left to right without overlap, is replaced. */
  function ReplaceAll(s: string, pat: string, repl: string): string
    requires |pat| > 0
    decreases |s|
  {
    if |s| < |pat| then s
    else if s[..|pat|] == pat then repl + ReplaceAll(s[|pat|..], pat, repl)
    else [s[0]] + ReplaceAll(s[1..], pat, repl)
  }

  lemma JoinCons(c: char, parts: seq<string>, sep: string)
    requires |parts| >= 1
    ensures Join([[c] + parts[0]] + parts[1..], sep) == [c] + Join(parts, sep)
  {
    var q := [[c] + parts[0]] + parts[1..];
    assert q[1..] == parts[1..];
  }

  /** Python's own definition of `replace`: split on the old text and join
      with the new one. */
  lemma {:induction false} ReplaceIsSplitJoin(s: string, pat: string, repl: string)
    requires |pat| > 0
    ensures Join(Split(s, pat), repl) == ReplaceAll(s, pat, repl)
    decreases |s|
  {
    if |s| < |pat| {
    } else if s[..|pat|] == pat {
      ReplaceIsSplitJoin(s[|pat|..], pat, repl);
      JoinEmptyCons(Split(s[|pat|..], pat), repl);
    } else {
      ReplaceIsSplitJoin(s[1..], pat, repl);
      JoinCons(s[0], Split(s[1..], pat), repl);
    }
  }

  lemma JoinEmptyCons(parts: seq<string>, sep: string)
    requires |parts| >= 1
    ensures Join([""] + parts, sep) == sep + Join(parts, sep)
  {
    assert ([""] + parts)[1..] == parts;
  }

  lemma {:induction false} ReplaceWithItself(s: string, pat: string)
    requires |pat| > 0
    ensures ReplaceAll(s, pat, pat) == s
    decreases |s|
  {
    if |s| < |pat| {
    } else if s[..|pat|] == pat {
      ReplaceWithItself(s[|pat|..], pat);
      assert s == s[..|pat|] + s[|pat|..];
    } else {
      ReplaceWithItself(s[1..], pat);
      assert s == [s[0]] + s[1..];
    }
  }

  /** Text without the first character of the pattern holds no occurrence
      and is left as it is. */
  lemma {:induction false} ReplaceAbsent(s: string, pat: string, repl: string)
    requires |pat| > 0 && pat[0] !in s
    ensures ReplaceAll(s, pat, repl) == s
    decreases |s|
  {
    if |s| >= |pat| {
      assert s[..|pat|][0] == s[0] != pat[0];
      ReplaceAbsent(s[1..], pat, repl);
      assert s == [s[0]] + s[1..];
    }
  }

  /** Replacing by text no longer than the pattern never lengthens. */
  lemma {:induction false} ReplaceShortens(s: string, pat: string, repl: string)
    requires |pat| > 0 && |repl| <= |pat|
    ensures |ReplaceAll(s, pat, repl)| <= |s|
    decreases |s|
  {
    if |s| < |pat| {
    } else if s[..|pat|] == pat {
      ReplaceShortens(s[|pat|..], pat, repl);
    } else {
      ReplaceShortens(s[1..], pat, repl);
    }
  }

  /** Joining the pieces of a split with the same separator gives back the
      original text. */
  lemma SplitJoinRoundTrip(s: string, sep: string)
    requires |sep| > 0
    ensures Join(Split(s, sep), sep) == s
  {
    ReplaceIsSplitJoin(s, sep, sep);
    ReplaceWithItself(s, sep);
  }

  /** Text free of a one-character separator joins the first piece of
      whatever follows it. */
  lemma {:induction false} SplitPrefix(p: string, tail: string, sep: string)
    requires |sep| == 1 && sep[0] !in p
    ensures Split(p + tail, sep) == [p + Split(tail, sep)[0]] + Split(tail, sep)[1..]
    decreases |p|
  {
    if p == [] {
      var parts := Split(tail, sep);
      assert p + tail == tail && p + parts[0] == parts[0];
      assert parts == [parts[0]] + parts[1..];
    } else {
      var s := p + tail;
      assert s[..1] == [p[0]] && s[1..] == p[1..] + tail;
      SplitPrefix(p[1..], tail, sep);
      assert [p[0]] + (p[1..] + Split(tail, sep)[0]) == p + Split(tail, sep)[0];
    }
  }

  /** Splitting a join on a one-character separator that no part contains
      gives back the parts. */
  lemma {:induction false} SplitOfJoin(parts: seq<string>, sep: string)
    requires |parts| >= 1 && |sep| == 1
    requires forall k :: 0 <= k < |parts| ==> sep[0] !in parts[k]
    ensures Split(Join(parts, sep), sep) == parts
    decreases |parts|
  {
    if |parts| == 1 {
      SplitPrefix(parts[0], "", sep);
      assert parts[0] + "" == parts[0];
    } else {
      var rest := Join(parts[1..], sep);
      assert Join(parts, sep) == parts[0] + (sep + rest);
      SplitPrefix(parts[0], sep + rest, sep);
      assert (sep + rest)[..1] == sep && (sep + rest)[1..] == rest;
      SplitOfJoin(parts[1..], sep);
      assert parts[0] + "" == parts[0];
      assert parts == [parts[0]] + parts[1..];
    }
  }

  /** `Join(a + b)` puts one separator between the two joins. */
  lemma {:induction false} JoinAppend(a: seq<string>, b: seq<string>, sep: string)
    requires |a| >= 1 && |b| >= 1
    ensures Join(a + b, sep) == Join(a, sep) + sep + Join(b, sep)
    decreases |a|
  {
    if |a| == 1 {
      assert (a + b)[1..] == b;
    } else {
      JoinAppend(a[1..], b, sep);
      assert (a + b)[1..] == a[1..] + b;
    }
  }

  /** The text a join puts before the part at index `i`. */
  function JoinBefore(parts: seq<string>, i: nat, sep: string): string
    requires i < |parts|
  {
    if i == 0 then "" else Join(parts[..i], sep) + sep
  }

  /** The text a join puts after the part at index `i`. */
  function JoinAfter(parts: seq<string>, i: nat, sep: string): string
    requires i < |parts|
  {
    if i == |parts| - 1 then "" else sep + Join(parts[i + 1..], sep)
  }

  /** A join is the part at `i` with what comes before and after it; the
      surroundings depend only on the other parts. */
  lemma JoinAround(parts: seq<string>, i: nat, sep: string)
    requires i < |parts|
    ensures Join(parts, sep) == JoinBefore(parts, i, sep) + parts[i] + JoinAfter(parts, i, sep)
  {
    var mid := [parts[i]] + parts[i + 1..];
    assert parts == parts[..i] + mid;
    if i < |parts| - 1 {
      assert mid == [parts[i]] + parts[i + 1..];
      JoinAppend([parts[i]], parts[i + 1..], sep);
    } else {
      assert mid == [parts[i]];
    }
    if i > 0 {
      JoinAppend(parts[..i], mid, sep);
    }
  }

  lemma JoinAroundUpdate(parts: seq<string>, i: nat, x: string, sep: string)
    requires i < |parts|
    ensures JoinBefore(parts[i := x], i, sep) == JoinBefore(parts, i, sep)
    ensures JoinAfter(parts[i := x], i, sep) == JoinAfter(parts, i, sep)
  {
    assert parts[i := x][..i] == parts[..i];
    assert parts[i := x][i + 1..] == parts[i + 1..];
  }

  predicate IsUpper(c: char) {
    'A' <= c <= 'Z'
  }

  predicate IsLower(c: char) {
    'a' <= c <= 'z'
  }

  /** A cased character, in the ASCII range. */
  predicate IsLetter(c: char) {
    IsUpper(c) || IsLower(c)
  }

  function UpperChar(c: char): char {
    if IsLower(c) then (c as int - 32) as char else c
  }

  function LowerChar(c: char): char {
    if IsUpper(c) then (c as int + 32) as char else c
  }

  /** `s.upper()`. */
  function Upper(s: string): (r: string)
    ensures |r| == |s|
  {
    seq(|s|, k requires 0 <= k < |s| => UpperChar(s[k]))
  }

  /** `s.lower()`. */
  function Lower(s: string): (r: string)
    ensures |r| == |s|
  {
    seq(|s|, k requires 0 <= k < |s| => LowerChar(s[k]))
  }

  lemma CaseChangesOnlyLetters(s: string)
    ensures forall k :: 0 <= k < |s| && !IsLetter(s[k]) ==> Upper(s)[k] == s[k] && Lower(s)[k] == s[k]
    ensures forall k :: 0 <= k < |s| ==> !IsLower(Upper(s)[k]) && !IsUpper(Lower(s)[k])
    ensures Upper(Upper(s)) == Upper(s) && Lower(Lower(s)) == Lower(s)
    ensures Lower(Upper(s)) == Lower(s) && Upper(Lower(s)) == Upper(s)
  {
  }

  /** `s.title()` with the previous character's casedness given: a letter
      after a letter is lowered, any other letter is raised. */
  function TitleFrom(s: string, afterLetter: bool): (r: string)
    ensures |r| == |s|
  {
    if s == [] then []
    else
      var c := if !IsLetter(s[0]) then s[0] else if afterLetter then LowerChar(s[0]) else UpperChar(s[0]);
      [c] + TitleFrom(s[1..], IsLetter(s[0]))
  }

  /** `s.title()`. */
  function Title(s: string): (r: string)
    ensures |r| == |s|
  {
    TitleFrom(s, false)
  }

  /** The character-by-character meaning of `title`: each letter is
      upper-case exactly when it starts a run of letters. */
  lemma {:induction false} TitleFromAt(s: string, afterLetter: bool, k: nat)
    requires k < |s|
    ensures TitleFrom(s, afterLetter)[k]
            == if !IsLetter(s[k]) then s[k]
               else if (if k == 0 then afterLetter else IsLetter(s[k - 1])) then LowerChar(s[k])
               else UpperChar(s[k])
  {
    if k > 0 {
      TitleFromAt(s[1..], IsLetter(s[0]), k - 1);
    }
  }

  lemma TitleAt(s: string, k: nat)
    requires k < |s|
    ensures Title(s)[k]
            == if !IsLetter(s[k]) then s[k]
               else if k > 0 && IsLetter(s[k - 1]) then LowerChar(s[k])
               else UpperChar(s[k])
  {
    TitleFromAt(s, false, k);
  }

  /** Title-casing twice is title-casing once. */
  lemma TitleIdempotent(s: string)
    ensures Title(Title(s)) == Title(s)
  {
    var t := Title(s);
    forall k | 0 <= k < |s|
      ensures Title(t)[k] == t[k]
    {
      TitleAt(s, k);
      TitleAt(t, k);
      if k > 0 {
        TitleAt(s, k - 1);
      }
    }
  }

  /** The characters `str.strip()` removes, in the ASCII range. */
  predicate IsSpace(c: char) {
    9 <= c as int <= 13 || 28 <= c as int <= 32
  }

  function StripStart(s: string): (r: string)
    ensures |r| <= |s| && r == s[|s| - |r|..]
    ensures r == [] || !IsSpace(r[0])
    ensures forall k :: 0 <= k < |s| - |r| ==> IsSpace(s[k])
  {
    if s != [] && IsSpace(s[0]) then StripStart(s[1..]) else s
  }

  function StripEnd(s: string): (r: string)
    ensures |r| <= |s| && r == s[..|r|]
    ensures r == [] || !IsSpace(r[|r| - 1])
    ensures forall k :: |r| <= k < |s| ==> IsSpace(s[k])
  {
    if s != [] && IsSpace(s[|s| - 1]) then StripEnd(s[..|s| - 1]) else s
  }

  /** `s.strip()`: the text without its leading and trailing white space. */
  function Strip(s: string): (r: string)
    ensures exists i, j :: 0 <= i <= j <= |s| && r == s[i..j]
                          && (forall k :: 0 <= k < i ==> IsSpace(s[k]))
                          && (forall k :: j <= k < |s| ==> IsSpace(s[k]))
    ensures r == [] || (!IsSpace(r[0]) && !IsSpace(r[|r| - 1]))
  {
    var a := StripStart(s);
    var r := StripEnd(a);
    var i := |s| - |a|;
    assert r == s[i..i + |r|];
    r
  }
}
