/** RFC 3986 syntax-based normalization (section 6.2.2), defined independently of the parser. */
module Normalizer {
  import opened Text
  import opened Identifiers

  /** The value of a hex digit of either case. */
  function HexValue(c: char): nat
    requires IsHex(c)
  {
    if IsDigit(c) then c as int - '0' as int
    else if IsUpper(c) then c as int - 'A' as int + 10
    else c as int - 'a' as int + 10
  }

  function UpperChar(c: char): char {
    if IsLower(c) then (c as int - 32) as char else c
  }

  /** Whether `s` starts with a percent-escape. */
  predicate StartsEscape(s: string) {
    |s| >= 3 && s[0] == '%' && IsHex(s[1]) && IsHex(s[2])
  }

  /** One escape, decoded if it encodes an unreserved character, else in uppercase. */
  function NormalEscape(s: string): string
    requires StartsEscape(s)
  {
    var v := HexValue(s[1]) * 16 + HexValue(s[2]);
    if IsUnreservedByte(v) then [v as char] else ['%', UpperChar(s[1]), UpperChar(s[2])]
  }

  /** Sections 6.2.2.1 and 6.2.2.2: the escapes of a path. */
  function NormalizeEscapes(s: string): string
    decreases |s|
  {
    if s == "" then ""
    else if StartsEscape(s) then NormalEscape(s) + NormalizeEscapes(s[3..])
    else [s[0]] + NormalizeEscapes(s[1..])
  }

  /** The output buffer without its last segment and the `/` in front of it. */
  function DropLastSegment(output: string): string {
    if output == "" then ""
    else if output[|output| - 1] == '/' then output[..|output| - 1]
    else DropLastSegment(output[..|output| - 1])
  }

  /** The `remove_dot_segments` loop of section 5.2.4, step by step. */
  function RemoveDotSegments(input: string, output: string): string
    decreases |input|
  {
    if input == "" then output
    else if StartsWith(input, "../") then RemoveDotSegments(input[3..], output)
    else if StartsWith(input, "./") then RemoveDotSegments(input[2..], output)
    else if StartsWith(input, "/./") then RemoveDotSegments("/" + input[3..], output)
    else if input == "/." then RemoveDotSegments("/", output)
    else if StartsWith(input, "/../") then RemoveDotSegments("/" + input[4..], DropLastSegment(output))
    else if input == "/.." then RemoveDotSegments("/", DropLastSegment(output))
    else if input == "." || input == ".." then output
    else
      var n := 1 + AuthorityLen(input[1..]);
      RemoveDotSegments(input[n..], output + input[..n])
  }

  function NormalizePath(path: string): string {
    RemoveDotSegments(NormalizeEscapes(path), "")
  }

  /** The normal form of `scheme://authority path`; anything else is left alone. */
  function Normalize(s: string): string {
    match IndexOf(s, ':')
    case None => s
    case Some(i) =>
      if !StartsWith(s[i..], "://") then s else
      var rest := s[i + 3..];
      var n := AuthorityLen(rest);
      Lower(s[..i]) + "://" + Lower(rest[..n]) + NormalizePath(rest[n..])
  }

  // ---------- Escapes ----------

  lemma {:induction false} EscapesShrink(s: string)
    ensures |NormalizeEscapes(s)| <= |s|
    decreases |s|
  {
    hide NormalEscape, StartsEscape;
    if s == "" {
    } else {
      if StartsEscape(s) {
        NormalEscapeShrinks(s);
        EscapesShrink(s[3..]);
      } else {
        EscapesShrink(s[1..]);
      }
    }
  }

  lemma NormalEscapeShrinks(s: string)
    requires StartsEscape(s)
    ensures |s| >= 3 && |NormalEscape(s)| <= 3
  {
  }

  /** No escape straddles a `/`. */
  lemma {:induction false} EscapesConcat(segment: string, rest: string)
    requires rest == "" || rest[0] == '/'
    ensures NormalizeEscapes(segment + rest) == NormalizeEscapes(segment) + NormalizeEscapes(rest)
    decreases |segment|
  {
    var s := segment + rest;
    if segment == "" {
      assert s == rest;
    } else if StartsEscape(segment) {
      SameEscape(segment, rest);
      EscapesConcat(segment[3..], rest);
      Regrouped(NormalEscape(segment), NormalizeEscapes(segment[3..]), NormalizeEscapes(rest));
    } else {
      SlashIsNoHex(segment, rest);
      EscapesConcat(segment[1..], rest);
      assert s[1..] == segment[1..] + rest;
      Regrouped([segment[0]], NormalizeEscapes(segment[1..]), NormalizeEscapes(rest));
    }
  }

  lemma SameEscape(segment: string, rest: string)
    requires StartsEscape(segment)
    ensures StartsEscape(segment + rest) && NormalEscape(segment + rest) == NormalEscape(segment)
    ensures (segment + rest)[3..] == segment[3..] + rest
  {
  }

  lemma SlashIsNoHex(segment: string, rest: string)
    requires rest == "" || rest[0] == '/'
    requires segment != "" && !StartsEscape(segment)
    ensures !StartsEscape(segment + rest)
  {
  }

  // ---------- Dot segments ----------

  lemma {:induction false} DropShrinks(output: string)
    ensures |DropLastSegment(output)| <= |output|
  {
    if output == "" || output[|output| - 1] == '/' {
    } else {
      DropShrinks(output[..|output| - 1]);
    }
  }

  lemma StartsLong(s: string, prefix: string)
    requires StartsWith(s, prefix)
    ensures |s| >= |prefix|
  {
  }

  /** The loop never makes text longer, and text it leaves as long it leaves alone. */
  lemma {:induction false} RemovalShrinks(input: string, output: string)
    ensures |RemoveDotSegments(input, output)| <= |input| + |output|
    ensures |RemoveDotSegments(input, output)| == |input| + |output| ==>
              RemoveDotSegments(input, output) == output + input
    decreases |input|
  {
    hide DropLastSegment, AuthorityLen, StartsWith;
    DropShrinks(output);
    if input == "" {
    } else if StartsWith(input, "../") {
      StartsLong(input, "../");
      RemovalShrinks(input[3..], output);
    } else if StartsWith(input, "./") {
      StartsLong(input, "./");
      RemovalShrinks(input[2..], output);
    } else if StartsWith(input, "/./") {
      StartsLong(input, "/./");
      RemovalShrinks("/" + input[3..], output);
    } else if input == "/." {
      RemovalShrinks("/", output);
    } else if StartsWith(input, "/../") {
      StartsLong(input, "/../");
      RemovalShrinks("/" + input[4..], DropLastSegment(output));
    } else if input == "/.." {
      RemovalShrinks("/", DropLastSegment(output));
    } else if input == "." || input == ".." {
    } else {
      var n := 1 + AuthorityLen(input[1..]);
      RemovalShrinks(input[n..], output + input[..n]);
      MovedOver(input, n, output);
    }
  }

  lemma MovedOver(input: string, n: nat, output: string)
    requires n <= |input|
    ensures output + input[..n] + input[n..] == output + input
  {
  }

  /** A path is its own normal form exactly when each of the two steps leaves it alone. */
  lemma PathFixedStepwise(path: string)
    ensures NormalizePath(path) == path <==>
            NormalizeEscapes(path) == path && RemoveDotSegments(path, "") == path
  {
    if NormalizePath(path) == path {
      EscapesShrink(path);
      RemovalShrinks(NormalizeEscapes(path), "");
      assert "" + NormalizeEscapes(path) == NormalizeEscapes(path);
    }
  }
}
