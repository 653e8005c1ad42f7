/**
 The text operations of the Rust standard library that the HTTP signature and
 identifier code call: trimming, splitting, ASCII case folding, and decimal
 numbers. Text is a sequence of Unicode scalar values; a slice taken at a
 character of the text is the slice the program takes at that character's byte.
 */
module Text {
  import opened Wrappers

  // ---------- Sequences ----------

  lemma HeadTail<T>(s: seq<T>)
    requires s != []
    ensures [s[0]] + s[1..] == s
  {
  }

  lemma TailOfCons<T>(head: T, tail: seq<T>)
    ensures ([head] + tail)[1..] == tail
  {
  }

  lemma AroundAt<T>(s: seq<T>, i: nat)
    requires i < |s|
    ensures s == s[..i] + ([s[i]] + s[i + 1..])
  {
  }

  lemma EmptyFirst<T>(s: seq<T>)
    ensures [] + s == s
  {
  }

  lemma Regrouped<T>(a: seq<T>, b: seq<T>, c: seq<T>)
    ensures a + (b + c) == a + b + c
  {
  }

  // ---------- White space ----------

  /** The Unicode `White_Space` property. */
  predicate IsSpace(c: char) {
    || '\U{0009}' <= c <= '\U{000D}'
    || c == ' '
    || c == '\U{0085}'
    || c == '\U{00A0}'
    || c == '\U{1680}'
    || '\U{2000}' <= c <= '\U{200A}'
    || c == '\U{2028}'
    || c == '\U{2029}'
    || c == '\U{202F}'
    || c == '\U{205F}'
    || c == '\U{3000}'
  }

  ghost predicate AllSpace(s: string) {
    forall i :: 0 <= i < |s| ==> IsSpace(s[i])
  }

  ghost predicate NoSpace(s: string) {
    forall i :: 0 <= i < |s| ==> !IsSpace(s[i])
  }

  /** Neither end of `s` is white space. */
  predicate Trimmed(s: string) {
    s != "" ==> !IsSpace(s[0]) && !IsSpace(s[|s| - 1])
  }

  function TrimStart(s: string): (r: string)
    ensures |r| <= |s|
  {
    if s != "" && IsSpace(s[0]) then TrimStart(s[1..]) else s
  }

  function TrimEnd(s: string): (r: string)
    ensures |r| <= |s|
  {
    if s != "" && IsSpace(s[|s| - 1]) then TrimEnd(s[..|s| - 1]) else s
  }

  function Trim(s: string): string {
    TrimEnd(TrimStart(s))
  }

  lemma {:induction false} TrimStartSplits(s: string) returns (before: string)
    ensures s == before + TrimStart(s) && AllSpace(before)
    ensures TrimStart(s) != "" ==> !IsSpace(TrimStart(s)[0])
  {
    if s != "" && IsSpace(s[0]) {
      var rest := TrimStartSplits(s[1..]);
      before := [s[0]] + rest;
    } else {
      before := "";
    }
  }

  lemma {:induction false} TrimEndSplits(s: string) returns (after: string)
    ensures s == TrimEnd(s) + after && AllSpace(after)
    ensures TrimEnd(s) != "" ==> !IsSpace(TrimEnd(s)[|TrimEnd(s)| - 1])
  {
    if s != "" && IsSpace(s[|s| - 1]) {
      var rest := TrimEndSplits(s[..|s| - 1]);
      after := rest + [s[|s| - 1]];
    } else {
      after := "";
    }
  }

  /** Any text is its trimmed form between two runs of white space. */
  lemma TrimSplits(s: string) returns (before: string, after: string)
    ensures s == before + Trim(s) + after
    ensures AllSpace(before) && AllSpace(after) && Trimmed(Trim(s))
  {
    hide IsSpace;
    before := TrimStartSplits(s);
    var mid := TrimStart(s);
    after := TrimEndSplits(mid);
    assert before + (TrimEnd(mid) + after) == before + TrimEnd(mid) + after;
    assert TrimEnd(mid) != "" ==> TrimEnd(mid)[0] == mid[0];
  }

  lemma {:induction false} TrimStartSkips(before: string, s: string)
    requires AllSpace(before)
    ensures TrimStart(before + s) == TrimStart(s)
  {
    if before == "" {
      assert before + s == s;
    } else {
      assert IsSpace(before[0]);
      assert (before + s)[1..] == before[1..] + s;
      TrimStartSkips(before[1..], s);
    }
  }

  lemma {:induction false} TrimEndSkips(s: string, after: string)
    requires AllSpace(after)
    ensures TrimEnd(s + after) == TrimEnd(s)
  {
    if after == "" {
      assert s + after == s;
    } else {
      var n := |after| - 1;
      assert IsSpace(after[n]);
      assert (s + after)[..|s + after| - 1] == s + after[..n];
      TrimEndSkips(s, after[..n]);
    }
  }

  /** Trimming cuts exactly the white space at both ends. */
  lemma TrimCuts(before: string, core: string, after: string)
    requires AllSpace(before) && AllSpace(after) && Trimmed(core)
    ensures Trim(before + core + after) == core
  {
    assert before + core + after == before + (core + after);
    TrimStartSkips(before, core + after);
    if core == "" {
      assert core + after == after + "";
      TrimStartSkips(after, "");
    } else {
      assert TrimStart(core + after) == core + after;
      TrimEndSkips(core, after);
    }
  }

  /** White space around a text does not change what trimming leaves. */
  lemma TrimPads(before: string, s: string, after: string)
    requires AllSpace(before) && AllSpace(after)
    ensures Trim(before + s + after) == Trim(s)
  {
    var b, a := TrimSplits(s);
    var core := Trim(s);
    hide IsSpace, Trim;
    assert before + (b + core + a) + after == (before + b) + core + (a + after);
    TrimCuts(before + b, core, a + after);
  }

  lemma TrimTwice(s: string)
    ensures Trim(Trim(s)) == Trim(s)
  {
    var b, a := TrimSplits(s);
    assert "" + Trim(s) + "" == Trim(s);
    TrimCuts("", Trim(s), "");
  }

  /** `str::split_whitespace`: the maximal runs of non-space characters. */
  function Words(s: string): seq<string>
    decreases |s|
  {
    var t := TrimStart(s);
    if t == "" then [] else
    var n := 1 + WordLength(t[1..]);
    [t[..n]] + Words(t[n..])
  }

  function WordLength(s: string): (n: nat)
    ensures n <= |s|
  {
    if s == "" || IsSpace(s[0]) then 0 else 1 + WordLength(s[1..])
  }

  lemma {:induction false} WordLengthAt(w: string, tail: string)
    requires NoSpace(w) && (tail == "" || IsSpace(tail[0]))
    ensures WordLength(w + tail) == |w|
  {
    if w == "" {
      assert w + tail == tail;
    } else {
      assert (w + tail)[1..] == w[1..] + tail;
      WordLengthAt(w[1..], tail);
    }
  }

  /** Splitting on white space undoes joining with one space. */
  lemma {:induction false} WordsOfJoin(words: seq<string>)
    requires forall i :: 0 <= i < |words| ==> words[i] != "" && NoSpace(words[i])
    ensures Words(Join(words, " ")) == words
  {
    if words == [] {
    } else {
      var w, rest := words[0], words[1..];
      var s := Join(words, " ");
      var tail := if rest == [] then "" else " " + Join(rest, " ");
      assert s == w + tail;
      assert !IsSpace(w[0]) && s[0] == w[0];
      WordLengthAt(w, tail);
      assert s[..|w|] == w && s[|w|..] == tail;
      if rest != [] {
        WordsOfJoin(rest);
        TrimStartSkips(" ", Join(rest, " "));
        SameWords(tail, Join(rest, " "));
      }
    }
  }

  lemma SameWords(a: string, b: string)
    requires TrimStart(a) == TrimStart(b)
    ensures Words(a) == Words(b)
  {
  }

  // ---------- Joining and splitting ----------

  function Join(parts: seq<string>, sep: string): string {
    if |parts| == 0 then ""
    else if |parts| == 1 then parts[0]
    else parts[0] + sep + Join(parts[1..], sep)
  }

  /** The first position of `c` in `s`. */
  function IndexOf(s: string, c: char): (r: Option<nat>)
    ensures r.Some? ==> r.value < |s|
  {
    if s == "" then None
    else if s[0] == c then Some(0)
    else
      match IndexOf(s[1..], c)
      case None => None
      case Some(i) => Some(i + 1)
  }

  lemma {:induction false} IndexOfIsFirst(s: string, c: char)
    ensures IndexOf(s, c).None? <==> c !in s
    ensures var r := IndexOf(s, c); r.Some? ==> s[r.value] == c && c !in s[..r.value]
  {
    if s == "" || s[0] == c {
    } else {
      IndexOfIsFirst(s[1..], c);
      var r := IndexOf(s[1..], c);
      HeadTail(s);
      if r.Some? {
        assert s[..r.value + 1] == [s[0]] + s[1..][..r.value];
      }
    }
  }

  lemma {:induction false} IndexOfFirst(before: string, c: char, after: string)
    requires c !in before
    ensures IndexOf(before + [c] + after, c) == Some(|before|)
  {
    var s := before + [c] + after;
    if before == "" {
    } else {
      assert s[0] == before[0] && s[1..] == before[1..] + [c] + after;
      IndexOfFirst(before[1..], c, after);
    }
  }

  /** `str::split_once`: the text around the first `c`. */
  function SplitOnce(s: string, c: char): Option<(string, string)> {
    match IndexOf(s, c)
    case None => None
    case Some(i) => Some((s[..i], s[i + 1..]))
  }

  lemma SplitOnceFirst(before: string, c: char, after: string)
    requires c !in before
    ensures SplitOnce(before + [c] + after, c) == Some((before, after))
  {
    IndexOfFirst(before, c, after);
    var s := before + [c] + after;
    assert s[..|before|] == before && s[|before| + 1..] == after;
  }

  /** `str::split`: the pieces between the occurrences of `c`. */
  function SplitAll(s: string, c: char): (parts: seq<string>)
    ensures |parts| > 0
    decreases |s|
  {
    match IndexOf(s, c)
    case None => [s]
    case Some(i) => [s[..i]] + SplitAll(s[i + 1..], c)
  }

  // ---------- ASCII case ----------

  predicate IsUpper(c: char) {
    'A' <= c <= 'Z'
  }

  predicate IsLower(c: char) {
    'a' <= c <= 'z'
  }

  predicate IsDigit(c: char) {
    '0' <= c <= '9'
  }

  function LowerChar(c: char): char {
    if IsUpper(c) then (c as int + 32) as char else c
  }

  /** `str::to_ascii_lowercase`. */
  function Lower(s: string): (r: string)
    ensures |r| == |s|
    ensures forall i :: 0 <= i < |s| ==> r[i] == LowerChar(s[i])
  {
    seq(|s|, i requires 0 <= i < |s| => LowerChar(s[i]))
  }

  /** `str::eq_ignore_ascii_case`. */
  predicate SameIgnoringCase(a: string, b: string) {
    Lower(a) == Lower(b)
  }

  /** No character that `Lower` would change. */
  predicate IsLowercase(s: string) {
    forall i :: 0 <= i < |s| ==> !IsUpper(s[i])
  }

  lemma LowerFixed(s: string)
    ensures Lower(s) == s <==> IsLowercase(s)
    ensures Lower(Lower(s)) == Lower(s)
  {
  }

  // ---------- Line breaks ----------

  /** Whether `s` is free of CR and LF. */
  predicate OneLine(s: string) {
    forall i :: 0 <= i < |s| ==> s[i] != '\r' && s[i] != '\n'
  }

  // ---------- Decimal numbers ----------

  const U64_LIMIT: nat := 0x1_0000_0000_0000_0000

  type u64 = n: nat | n < U64_LIMIT

  function Digit(d: nat): char
    requires d < 10
  {
    ('0' as int + d) as char
  }

  function DigitValue(c: char): nat
    requires IsDigit(c)
  {
    c as int - '0' as int
  }

  /** How Rust prints an unsigned integer. */
  function Decimal(n: nat): (s: string)
    ensures s != "" && forall i :: 0 <= i < |s| ==> IsDigit(s[i])
  {
    if n < 10 then [Digit(n)] else Decimal(n / 10) + [Digit(n % 10)]
  }

  function DecimalValue(s: string): nat
    requires forall i :: 0 <= i < |s| ==> IsDigit(s[i])
  {
    if s == "" then 0
    else DecimalValue(s[..|s| - 1]) * 10 + DigitValue(s[|s| - 1])
  }

  /** The number that digits name, if it is below 2^64. */
  function ParseDigits(digits: string): Option<u64> {
    if digits == "" || exists i :: 0 <= i < |digits| && !IsDigit(digits[i]) then None
    else if DecimalValue(digits) < U64_LIMIT then Some(DecimalValue(digits))
    else None
  }

  /** `str::parse::<u64>`: an optional `+`, then digits. */
  function ParseU64(s: string): Option<u64> {
    ParseDigits(if s != "" && s[0] == '+' then s[1..] else s)
  }

  lemma {:induction false} DecimalValueOfDecimal(n: nat)
    ensures DecimalValue(Decimal(n)) == n
  {
    if n < 10 {
    } else {
      DecimalValueOfDecimal(n / 10);
      assert Decimal(n)[..|Decimal(n)| - 1] == Decimal(n / 10);
    }
  }

  /** Printing a 64-bit number and parsing it back is the identity. */
  lemma DecimalRoundTrip(n: u64)
    ensures ParseU64(Decimal(n)) == Some(n)
  {
    DecimalValueOfDecimal(n);
    assert IsDigit(Decimal(n)[0]);
  }
}
