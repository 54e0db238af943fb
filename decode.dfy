/** The tolerant decoder for tables sent as JSON text: one direct parse,
    and on failure one more parse of the text with its escapes undone and
    one layer of surrounding quotes removed. */
module Decode {
  import opened Tables
  import Text

  /** `pd.read_json(text, orient='split')`: the table the text describes,
      or the parser's error. */
  type Reader = string -> Result<Table>

  /** Replaces every `\"` by `"`, then every `\\` by `\`: text without a
      backslash is left as it is, and no text grows. */
  function Unescape(s: string): (r: string)
    ensures '\\' !in s ==> r == s
    ensures |r| <= |s|
  {
    var once := Text.ReplaceAll(s, "\\\"", "\"");
    Text.ReplaceShortens(s, "\\\"", "\"");
    Text.ReplaceShortens(once, "\\\\", "\\");
    assert '\\' !in s ==> Text.ReplaceAll(once, "\\\\", "\\") == s by {
      if '\\' !in s {
        Text.ReplaceAbsent(s, "\\\"", "\"");
        Text.ReplaceAbsent(once, "\\\\", "\\");
      }
    }
    Text.ReplaceAll(once, "\\\\", "\\")
  }

  /** `s[1:-1]` when `s` both starts and ends with a double quote (a lone
      quote gives the empty text), otherwise `s` itself. */
  function StripQuotes(s: string): (r: string)
    ensures |s| >= 2 && s[0] == '"' && s[|s| - 1] == '"' ==> s == "\"" + r + "\""
    ensures s == "\"" ==> r == ""
    ensures !(|s| >= 1 && s[0] == '"' && s[|s| - 1] == '"') ==> r == s
  {
    if |s| >= 1 && s[0] == '"' && s[|s| - 1] == '"' then
      if |s| == 1 then "" else s[1..|s| - 1]
    else s
  }

  /** The text the second attempt parses: plain text, with no backslash and
      not wrapped in double quotes, is parsed again unchanged. */
  function Rewrite(s: string): (r: string)
    ensures '\\' !in s && !(|s| >= 1 && s[0] == '"' && s[|s| - 1] == '"') ==> r == s
    ensures |r| <= |s|
  {
    StripQuotes(Unescape(s))
  }

  /** `decode_json`: the direct parse when it succeeds, otherwise the parse
      of the rewritten text, whose error, if any, is the result. */
  function DecodeJson(read: Reader, text: string): (r: Result<Table>)
    ensures read(text).Ok? ==> r == read(text)
    ensures read(text).Err? ==> r == read(Rewrite(text))
    ensures r.Err? ==> read(text).Err? && r.error == read(Rewrite(text)).error
  {
    var first := read(text);
    if first.Ok? then first else read(Rewrite(text))
  }

  // ---------------------------------------------------------------------
  // The rewrite undoes one level of string encoding

  /** `s` with its backslashes and double quotes escaped and nothing else
      changed: the body of the JSON string literal for text that holds no
      control character and no non-ASCII character. */
  function Escape(s: string): (r: string)
    ensures r == [] || r[0] != '"'
  {
    if s == [] then []
    else if s[0] == '\\' then "\\\\" + Escape(s[1..])
    else if s[0] == '"' then "\\\"" + Escape(s[1..])
    else [s[0]] + Escape(s[1..])
  }

  /** `s` in double quotes with only `\` and `"` escaped: what a table's
      JSON becomes when it is encoded as a string once more, provided the
      JSON holds no control character and no non-ASCII character. */
  function Quote(s: string): string {
    "\"" + Escape(s) + "\""
  }

  /** A replacement of a two-character pattern passes over a first character
      that does not start an occurrence. */
  lemma ReplaceSkips(c: char, rest: string, pat: string, repl: string)
    requires |pat| == 2 && (rest == [] || [c, rest[0]] != pat)
    ensures Text.ReplaceAll([c] + rest, pat, repl) == [c] + Text.ReplaceAll(rest, pat, repl)
  {
    var s := [c] + rest;
    assert s[1..] == rest;
    if |s| >= 2 {
      assert s[..2] == [c, rest[0]];
    }
  }

  /** A replacement of a two-character pattern rewrites an occurrence at
      the front. */
  lemma ReplaceHits(pat: string, rest: string, repl: string)
    requires |pat| == 2
    ensures Text.ReplaceAll(pat + rest, pat, repl) == repl + Text.ReplaceAll(rest, pat, repl)
  {
    var s := pat + rest;
    assert s[..2] == pat && s[2..] == rest;
  }

  /** The text in between the two replacements, for an escaped body
      followed by the closing quote. */
  function HalfUnescaped(s: string): string
    decreases |s|
  {
    if s == [] then "\""
    else if s == "\\" then "\\\""
    else if s[0] == '\\' then "\\\\" + HalfUnescaped(s[1..])
    else [s[0]] + HalfUnescaped(s[1..])
  }

  /** Undoing `\"` in an escaped body and its closing quote leaves
      `HalfUnescaped(s)`. */
  lemma {:induction false} FirstReplace(s: string)
    ensures Text.ReplaceAll(Escape(s) + "\"", "\\\"", "\"") == HalfUnescaped(s)
    decreases |s|
  {
    var pat := "\\\"";
    if s == [] {
      assert Escape(s) + "\"" == "\"";
    } else if s == "\\" {
      assert Escape(s) + "\"" == ['\\'] + pat;
      ReplaceSkips('\\', pat, pat, "\"");
      ReplaceHits(pat, "", "\"");
    } else if s[0] == '\\' {
      var rest := Escape(s[1..]) + "\"";
      assert Escape(s) + "\"" == ['\\'] + (['\\'] + rest);
      assert s[1..] != [];
      assert rest[0] != '"';
      ReplaceSkips('\\', ['\\'] + rest, pat, "\"");
      ReplaceSkips('\\', rest, pat, "\"");
      FirstReplace(s[1..]);
    } else if s[0] == '"' {
      var rest := Escape(s[1..]) + "\"";
      assert Escape(s) + "\"" == pat + rest;
      ReplaceHits(pat, rest, "\"");
      FirstReplace(s[1..]);
    } else {
      var rest := Escape(s[1..]) + "\"";
      assert Escape(s) + "\"" == [s[0]] + rest;
      ReplaceSkips(s[0], rest, pat, "\"");
      FirstReplace(s[1..]);
    }
  }

  /** Undoing `\\` in `HalfUnescaped(s)` gives back `s` and the closing quote. */
  lemma {:induction false} SecondReplace(s: string)
    ensures Text.ReplaceAll(HalfUnescaped(s), "\\\\", "\\") == s + "\""
    decreases |s|
  {
    var pat := "\\\\";
    if s == [] {
    } else if s == "\\" {
      ReplaceSkips('\\', "\"", pat, "\\");
      assert Text.ReplaceAll("\"", pat, "\\") == "\"";
    } else if s[0] == '\\' {
      ReplaceHits(pat, HalfUnescaped(s[1..]), "\\");
      SecondReplace(s[1..]);
      assert s == "\\" + s[1..];
    } else {
      ReplaceSkips(s[0], HalfUnescaped(s[1..]), pat, "\\");
      SecondReplace(s[1..]);
      assert s == [s[0]] + s[1..];
    }
  }

  /** The rewrite recovers any text from its quoted form, with only `\` and
      `"` escaped, so a table that arrives encoded as a string once more is
      still read when its JSON needs no other escape. */
  lemma RewriteQuote(s: string)
    ensures Rewrite(Quote(s)) == s
  {
    var body := Escape(s) + "\"";
    assert Quote(s) == "\"" + body;
    ReplaceSkips('"', body, "\\\"", "\"");
    FirstReplace(s);
    var m := HalfUnescaped(s);
    ReplaceSkips('"', m, "\\\\", "\\");
    SecondReplace(s);
    assert Unescape(Quote(s)) == "\"" + s + "\"";
  }

  /** When the encoded text does not parse directly, decoding it parses the
      text it encodes. */
  lemma DecodeQuoted(read: Reader, s: string)
    requires read(Quote(s)).Err?
    ensures DecodeJson(read, Quote(s)) == read(s)
  {
    RewriteQuote(s);
  }
}
