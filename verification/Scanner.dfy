/**
 The quote-aware scanners of RFC 8941 text: finding a delimiter outside every
 quoted string, and splitting parameters at `;`.
 */
module Scanner {
  import opened Wrappers
  import opened Text

  /** Where a scan stands relative to the quoted strings of the text. */
  datatype Quote = Plain | Quoted | Escaped

  function Step(q: Quote, c: char): Quote {
    match q
    case Escaped => Quoted
    case Quoted => if c == '\\' then Escaped else if c == '"' then Plain else Quoted
    case Plain => if c == '"' then Quoted else Plain
  }

  /** The state after reading all of `s` from state `q`. */
  function Run(q: Quote, s: string): Quote
    decreases |s|
  {
    if s == "" then q else Run(Step(q, s[0]), s[1..])
  }

  function Shift(n: nat, at: Option<nat>): Option<nat> {
    if at.Some? then Some(n + at.value) else None
  }

  /** Where a scan of `s` from state `q` first meets a character of `stops` outside quotes. */
  function FirstStop(q: Quote, s: string, stops: set<char>): (r: Option<nat>)
    ensures r.Some? ==> r.value < |s|
    decreases |s|
  {
    if s == "" then None
    else if q == Plain && s[0] != '"' && s[0] in stops then Some(0)
    else Shift(1, FirstStop(Step(q, s[0]), s[1..], stops))
  }

  function FirstUnquoted(s: string, target: char): (r: Option<nat>)
    ensures r.Some? ==> r.value < |s|
  {
    FirstStop(Plain, s, {target})
  }

  // ---------- What the scan means ----------

  lemma {:induction false} RunConcat(q: Quote, a: string, b: string)
    ensures Run(q, a + b) == Run(Run(q, a), b)
    decreases |a|
  {
    if a == "" {
      assert a + b == b;
    } else {
      assert (a + b)[1..] == a[1..] + b;
      RunConcat(Step(q, a[0]), a[1..], b);
    }
  }

  lemma {:induction false} FirstStopConcat(q: Quote, a: string, b: string, stops: set<char>)
    ensures FirstStop(q, a + b, stops) ==
            if FirstStop(q, a, stops).Some? then FirstStop(q, a, stops)
            else Shift(|a|, FirstStop(Run(q, a), b, stops))
    decreases |a|
  {
    if a == "" {
      assert a + b == b;
    } else {
      assert (a + b)[1..] == a[1..] + b;
      FirstStopConcat(Step(q, a[0]), a[1..], b, stops);
    }
  }

  /** A stop is reported exactly at the first stop character that follows only closed strings. */
  lemma {:induction false} FirstStopIsFirst(q: Quote, s: string, stops: set<char>)
    ensures var r := FirstStop(q, s, stops);
            && (r.Some? ==> IsStop(q, s, stops, r.value))
            && forall i :: 0 <= i < (if r.Some? then r.value else |s|) ==> !IsStop(q, s, stops, i)
    decreases |s|
  {
    if s == "" {
    } else {
      FirstStopIsFirst(Step(q, s[0]), s[1..], stops);
      forall i | 1 <= i < |s|
        ensures IsStop(q, s, stops, i) <==> IsStop(Step(q, s[0]), s[1..], stops, i - 1)
      {
        assert s[..i][1..] == s[1..][..i - 1];
      }
    }
  }

  /** The character at `i` is one of `stops`, and stands outside the strings before it. */
  ghost predicate IsStop(q: Quote, s: string, stops: set<char>, i: nat)
    requires i < |s|
  {
    s[i] in stops && s[i] != '"' && Run(q, s[..i]) == Plain
  }

  // ---------- Quiet text ----------

  /** Every string of `s` is closed and no character of `stops` stands outside them. */
  predicate Quiet(s: string, stops: set<char>) {
    Run(Plain, s) == Plain && FirstStop(Plain, s, stops) == None
  }

  lemma QuietConcat(a: string, b: string, stops: set<char>)
    requires Quiet(a, stops) && Quiet(b, stops)
    ensures Quiet(a + b, stops)
  {
    RunConcat(Plain, a, b);
    FirstStopConcat(Plain, a, b, stops);
  }

  lemma {:induction false} FewerStops(q: Quote, s: string, fewer: set<char>, stops: set<char>)
    requires fewer <= stops && FirstStop(q, s, stops) == None
    ensures FirstStop(q, s, fewer) == None
    decreases |s|
  {
    if s == "" {
    } else {
      FewerStops(Step(q, s[0]), s[1..], fewer, stops);
    }
  }

  /** Text without quotes and without stops is quiet. */
  lemma {:induction false} PlainIsQuiet(s: string, stops: set<char>)
    requires forall i :: 0 <= i < |s| ==> s[i] != '"' && s[i] !in stops
    ensures Quiet(s, stops)
  {
    if s == "" {
    } else {
      PlainIsQuiet(s[1..], stops);
    }
  }

  /** Inside a string, text without quotes and backslashes changes nothing. */
  lemma {:induction false} InsideString(s: string, stops: set<char>)
    requires forall i :: 0 <= i < |s| ==> s[i] != '"' && s[i] != '\\'
    ensures Run(Quoted, s) == Quoted && FirstStop(Quoted, s, stops) == None
  {
    if s == "" {
    } else {
      InsideString(s[1..], stops);
    }
  }

  /** Quotes around text that stays inside the string are quiet, whatever it holds. */
  lemma QuotedIsQuiet(inner: string, stops: set<char>)
    requires Run(Quoted, inner) == Quoted && FirstStop(Quoted, inner, stops) == None
    ensures Quiet("\"" + inner + "\"", stops)
  {
    assert "\"" + inner + "\"" == "\"" + (inner + "\"");
    RunConcat(Quoted, inner, "\"");
    FirstStopConcat(Quoted, inner, "\"", stops);
    assert ("\"" + (inner + "\""))[1..] == inner + "\"";
  }

  /** The first delimiter after quiet text is the one that follows it. */
  lemma StopAfterQuiet(a: string, target: char, b: string)
    requires Quiet(a, {target}) && target != '"'
    ensures FirstUnquoted(a + [target] + b, target) == Some(|a|)
  {
    assert a + [target] + b == a + ([target] + b);
    FirstStopConcat(Plain, a, [target] + b, {target});
  }

  // ---------- find_unquoted ----------

  function QuoteOf(inQuotes: bool, escaped: bool): Quote {
    if escaped then Escaped else if inQuotes then Quoted else Plain
  }

  /** One step of a scan: either it stops here or it goes on behind the character. */
  lemma ScanOn(q: Quote, s: string, start: nat, idx: nat, stops: set<char>)
    requires start <= idx < |s|
    ensures Shift(idx - start, FirstStop(q, s[idx..], stops)) ==
            if q == Plain && s[idx] != '"' && s[idx] in stops then Some(idx - start)
            else Shift(idx + 1 - start, FirstStop(Step(q, s[idx]), s[idx + 1..], stops))
  {
  }

  method FindUnquoted(s: string, target: char) returns (at: Option<nat>)
    ensures at == FirstUnquoted(s, target)
  {
    var inQuotes, escaped := false, false;
    for idx := 0 to |s|
      invariant escaped ==> inQuotes
      invariant FirstUnquoted(s, target)
             == Shift(idx, FirstStop(QuoteOf(inQuotes, escaped), s[idx..], {target}))
    {
      var c := s[idx];
      ScanOn(QuoteOf(inQuotes, escaped), s, 0, idx, {target});
      if escaped {
        escaped := false;
      } else if inQuotes && c == '\\' {
        escaped := true;
      } else if c == '"' {
        inQuotes := !inQuotes;
      } else if c == target && !inQuotes {
        return Some(idx);
      }
    }
    return None;
  }

  // ---------- split_unquoted_semicolons ----------

  /** Cuts at the first `;` outside quotes, then again in what follows it. */
  function CutAtSemicolons(s: string): (parts: seq<string>)
    ensures |parts| > 0
    decreases |s|
  {
    match FirstUnquoted(s, ';')
    case None => [s]
    case Some(i) => [s[..i]] + CutAtSemicolons(s[i + 1..])
  }

  /**
   The parts cut off so far, the part being read, and the state of the scan
   inside it, together still determine how the whole text is cut.
   */
  ghost predicate Cutting(s: string, parts: seq<string>, start: nat, idx: nat, q: Quote)
    requires start <= idx <= |s|
  {
    && parts + CutAtSemicolons(s[start..]) == CutAtSemicolons(s)
    && FirstUnquoted(s[start..], ';') == Shift(idx - start, FirstStop(q, s[idx..], {';'}))
  }

  lemma CutStart(s: string)
    ensures Cutting(s, [], 0, 0, Plain)
  {
  }

  lemma CutOn(s: string, parts: seq<string>, start: nat, idx: nat, q: Quote)
    requires start <= idx < |s| && Cutting(s, parts, start, idx, q) && !(q == Plain && s[idx] == ';')
    ensures Cutting(s, parts, start, idx + 1, Step(q, s[idx]))
  {
    hide CutAtSemicolons, FirstStop;
    ScanOn(q, s, start, idx, {';'});
  }

  lemma CutRaw(s: string, start: nat, idx: nat)
    requires start <= idx < |s| && FirstUnquoted(s[start..], ';') == Some(idx - start)
    ensures CutAtSemicolons(s[start..]) == [s[start..idx]] + CutAtSemicolons(s[idx + 1..])
  {
    assert s[start..][..idx - start] == s[start..idx];
    assert s[start..][idx - start + 1..] == s[idx + 1..];
  }

  lemma CutOnce(s: string, parts: seq<string>, start: nat, idx: nat)
    requires start <= idx < |s| && Cutting(s, parts, start, idx, Plain) && s[idx] == ';'
    ensures Cutting(s, parts + [s[start..idx]], idx + 1, idx + 1, Plain)
  {
    hide CutAtSemicolons, FirstStop;
    ScanOn(Plain, s, start, idx, {';'});
    CutRaw(s, start, idx);
    Regrouped(parts, [s[start..idx]], CutAtSemicolons(s[idx + 1..]));
  }

  lemma CutEnd(s: string, parts: seq<string>, start: nat, q: Quote)
    requires start <= |s| && Cutting(s, parts, start, |s|, q)
    ensures parts + [s[start..]] == CutAtSemicolons(s)
  {
  }

  method SplitUnquotedSemicolons(s: string) returns (parts: seq<string>)
    ensures parts == CutAtSemicolons(s)
  {
    parts := [];
    var start, inQuotes, escaped := 0, false, false;
    CutStart(s);
    hide Cutting, CutAtSemicolons;
    for idx := 0 to |s|
      invariant start <= idx && (escaped ==> inQuotes)
      invariant Cutting(s, parts, start, idx, QuoteOf(inQuotes, escaped))
    {
      var c := s[idx];
      if inQuotes || c != ';' {
        CutOn(s, parts, start, idx, QuoteOf(inQuotes, escaped));
      } else {
        CutOnce(s, parts, start, idx);
      }
      if escaped {
        escaped := false;
      } else if inQuotes && c == '\\' {
        escaped := true;
      } else if c == '"' {
        inQuotes := !inQuotes;
      } else if c == ';' && !inQuotes {
        parts := parts + [s[start..idx]];
        start := idx + 1;
      }
    }
    CutEnd(s, parts, start, QuoteOf(inQuotes, escaped));
    parts := parts + [s[start..]];
  }

  /** The parts are the whole text: rejoined with `;` they give it back, and none can be cut again. */
  lemma {:induction false} SemicolonPartsRejoin(s: string)
    ensures Join(CutAtSemicolons(s), ";") == s
    ensures forall part :: part in CutAtSemicolons(s) ==> FirstUnquoted(part, ';') == None
    decreases |s|
  {
    var at := FirstUnquoted(s, ';');
    if at.None? {
    } else {
      var i := at.value;
      FirstStopIsFirst(Plain, s, {';'});
      assert s == s[..i] + [s[i]] + s[i + 1..];
      FirstStopConcat(Plain, s[..i], s[i..], {';'});
      assert s[..i] + s[i..] == s;
      SemicolonPartsRejoin(s[i + 1..]);
    }
  }

  /** Cutting undoes joining parts whose strings are closed. */
  lemma {:induction false} CutOfJoin(parts: seq<string>)
    requires |parts| > 0
    requires forall i :: 0 <= i < |parts| ==> Quiet(parts[i], {';'})
    ensures CutAtSemicolons(Join(parts, ";")) == parts
  {
    if |parts| == 1 {
    } else {
      var rest := Join(parts[1..], ";");
      var s := Join(parts, ";");
      assert s == parts[0] + [';'] + rest;
      StopAfterQuiet(parts[0], ';', rest);
      assert s[..|parts[0]|] == parts[0] && s[|parts[0]| + 1..] == rest;
      CutOfJoin(parts[1..]);
    }
  }
}
