/** RFC 8941 strings: quoting (section 4.1.6) and unquoting (section 4.2.5) text. */
module SfStrings {
  import opened Wrappers
  import opened Text
  import opened Errors
  import opened Scanner

  predicate NeedsEscape(c: char) {
    c == '\\' || c == '"'
  }

  function EscapedText(value: string): string {
    if value == "" then ""
    else (if NeedsEscape(value[0]) then ['\\', value[0]] else [value[0]]) + EscapedText(value[1..])
  }

  /** `value` as a quoted string. */
  function StringText(value: string): string {
    "\"" + EscapedText(value) + "\""
  }

  method SfString(value: string) returns (out: string)
    ensures out == StringText(value)
  {
    out := "\"";
    for i := 0 to |value|
      invariant out + EscapedText(value[i..]) == "\"" + EscapedText(value)
    {
      var c := value[i];
      ghost var next := if NeedsEscape(c) then ['\\', c] else [c];
      assert value[i..][1..] == value[i + 1..];
      Regrouped(out, next, EscapedText(value[i + 1..]));
      if c == '\\' || c == '"' {
        assert out + ['\\', c] == out + ['\\'] + [c];
        out := out + ['\\'];
      }
      out := out + [c];
    }
    out := out + "\"";
  }

  function UnescapedText(inner: string): Outcome<string> {
    if inner == "" then Ok("")
    else if inner[0] == '\\' then
      if |inner| > 1 && NeedsEscape(inner[1]) then
        var rest :- UnescapedText(inner[2..]);
        Ok([inner[1]] + rest)
      else Err(Parse(BadStringEscape))
    else
      var rest :- UnescapedText(inner[1..]);
      Ok([inner[0]] + rest)
  }

  /** Whether `s` is enclosed in a pair of quotes. */
  predicate InQuotes(s: string) {
    |s| >= 2 && s[0] == '"' && s[|s| - 1] == '"'
  }

  function StringValue(token: string): Outcome<string> {
    if InQuotes(token) then UnescapedText(token[1..|token| - 1]) else Err(Parse(NotAString(token)))
  }

  function Prepend(before: string, after: Outcome<string>): Outcome<string> {
    if after.Ok? then Ok(before + after.value) else after
  }

  lemma PrependNothing(after: Outcome<string>)
    ensures Prepend("", after) == after
  {
    if after.Ok? {
      EmptyFirst(after.value);
    }
  }

  lemma PrependTwice(a: string, b: string, after: Outcome<string>)
    ensures Prepend(a, Prepend(b, after)) == Prepend(a + b, after)
  {
    if after.Ok? {
      Regrouped(a, b, after.value);
    }
  }

  method ParseSfString(token: string) returns (r: Outcome<string>)
    ensures r == StringValue(token)
  {
    if !InQuotes(token) {
      return Err(Parse(NotAString(token)));
    }
    var inner := token[1..|token| - 1];
    var out := "";
    var i := 0;
    assert inner[0..] == inner;
    PrependNothing(UnescapedText(inner));
    while i < |inner|
      invariant i <= |inner|
      invariant UnescapedText(inner) == Prepend(out, UnescapedText(inner[i..]))
    {
      var c := inner[i];
      ghost var here := inner[i..];
      if c == '\\' {
        if i + 1 < |inner| && (inner[i + 1] == '\\' || inner[i + 1] == '"') {
          assert here[2..] == inner[i + 2..];
          PrependTwice(out, [inner[i + 1]], UnescapedText(inner[i + 2..]));
          out := out + [inner[i + 1]];
          i := i + 2;
        } else {
          return Err(Parse(BadStringEscape));
        }
      } else {
        assert here[1..] == inner[i + 1..];
        PrependTwice(out, [c], UnescapedText(inner[i + 1..]));
        out := out + [c];
        i := i + 1;
      }
    }
    assert inner[i..] == "" && UnescapedText(inner[i..]) == Ok("");
    assert out + "" == out;
    return Ok(out);
  }

  lemma {:induction false} UnescapeEscaped(value: string)
    ensures UnescapedText(EscapedText(value)) == Ok(value)
  {
    if value == "" {
    } else {
      UnescapeEscaped(value[1..]);
      var e := EscapedText(value);
      if NeedsEscape(value[0]) {
        assert e[2..] == EscapedText(value[1..]);
      } else {
        assert e[1..] == EscapedText(value[1..]);
      }
      assert value == [value[0]] + value[1..];
    }
  }

  /** Unquoting undoes quoting, for every text. */
  lemma StringRoundTrip(value: string)
    ensures StringValue(StringText(value)) == Ok(value)
  {
    UnescapeEscaped(value);
    var t := StringText(value);
    assert t[1..|t| - 1] == EscapedText(value);
  }

  lemma UnitStaysInside(c: char, stops: set<char>)
    ensures var next := if NeedsEscape(c) then ['\\', c] else [c];
            Run(Quoted, next) == Quoted && FirstStop(Quoted, next, stops) == None
  {
    assert ['\\', c][1..] == [c] && [c][1..] == "";
    assert Run(Escaped, [c]) == Quoted && FirstStop(Escaped, [c], stops) == None;
  }

  lemma {:induction false} EscapedStaysInside(value: string, stops: set<char>)
    ensures Run(Quoted, EscapedText(value)) == Quoted
    ensures FirstStop(Quoted, EscapedText(value), stops) == None
  {
    if value == "" {
    } else {
      EscapedStaysInside(value[1..], stops);
      var next := if NeedsEscape(value[0]) then ['\\', value[0]] else [value[0]];
      UnitStaysInside(value[0], stops);
      RunConcat(Quoted, next, EscapedText(value[1..]));
      FirstStopConcat(Quoted, next, EscapedText(value[1..]), stops);
    }
  }

  /** No delimiter of the quoted text is visible to a scanner. */
  lemma StringTextIsQuiet(value: string, stops: set<char>)
    ensures Quiet(StringText(value), stops)
  {
    EscapedStaysInside(value, stops);
    QuotedIsQuiet(EscapedText(value), stops);
  }

  lemma {:induction false} EscapedOneLine(value: string)
    ensures OneLine(EscapedText(value)) <==> OneLine(value)
  {
    if value == "" {
    } else {
      EscapedOneLine(value[1..]);
      var next := if NeedsEscape(value[0]) then ['\\', value[0]] else [value[0]];
      OneLineConcat(next, EscapedText(value[1..]));
      OneLineConcat([value[0]], value[1..]);
      assert value == [value[0]] + value[1..];
      assert OneLine(next) <==> OneLine([value[0]]) by {
        assert next[|next| - 1] == value[0];
      }
    }
  }

  lemma OneLineConcat(a: string, b: string)
    ensures OneLine(a + b) <==> OneLine(a) && OneLine(b)
  {
    if OneLine(a + b) {
      forall i | 0 <= i < |a| ensures a[i] != '\r' && a[i] != '\n' {
        assert (a + b)[i] == a[i];
      }
      forall i | 0 <= i < |b| ensures b[i] != '\r' && b[i] != '\n' {
        assert (a + b)[|a| + i] == b[i];
      }
    }
  }

  lemma StringTextOneLine(value: string)
    ensures OneLine(StringText(value)) <==> OneLine(value)
  {
    EscapedOneLine(value);
    OneLineConcat("\"" + EscapedText(value), "\"");
    OneLineConcat("\"", EscapedText(value));
  }
}
