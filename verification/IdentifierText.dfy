/** Identifiers written out: the scheme names, the character sets, the limits, and the order of the failures. */
module IdentifierText {
  import opened Wrappers
  import opened Text
  import opened Identifiers
  import opened Normalizer
  import opened IdentifierProofs

  // ---------- Character sets ----------

  predicate IsAsciiAlnum(c: char) {
    'a' <= c <= 'z' || 'A' <= c <= 'Z' || '0' <= c <= '9'
  }

  lemma InConcat(c: char, a: string, b: string)
    ensures c in a + b <==> c in a || c in b
  {
  }

  /** The trust domain characters, those of a host before it is normalized, and those of a `spiffe` path. */
  lemma HostCharsWrittenOut(c: char)
    ensures IsTrustDomainChar(c) <==> 'a' <= c <= 'z' || '0' <= c <= '9' || c in ".-_"
    ensures IsHostChar(c) <==> IsAsciiAlnum(c) || c in ".-_"
    ensures IsSpiffeChar(c) <==> IsAsciiAlnum(c) || c in ".-_"
  {
  }

  /** `pchar` of RFC 3986 section 3.3 without escapes: unreserved characters, sub-delimiters, `:` and `@`. */
  lemma PcharsWrittenOut(c: char)
    ensures IsUnreserved(c) <==> IsAsciiAlnum(c) || c in "-._~"
    ensures IsPchar(c) <==> IsAsciiAlnum(c) || c in "-._~" || c in "!$&'()*+,;=" || c in ":@"
  {
  }

  lemma HexWrittenOut(c: char)
    ensures IsHex(c) <==> '0' <= c <= '9' || 'A' <= c <= 'F' || 'a' <= c <= 'f'
    ensures DecodeHex('0') == 0 && DecodeHex('9') == 9 && DecodeHex('A') == 10 && DecodeHex('F') == 15
    ensures HexValue('a') == HexValue('A') == 10 && HexValue('f') == HexValue('F') == 15 && HexValue('9') == 9
  {
  }

  // ---------- Schemes ----------

  /** An accepted text has the scheme whose name it starts with, and one of the two. */
  lemma SchemeIsWrittenOut(s: string)
    requires Parse(s).Ok?
    ensures Parse(s).value.scheme == Spiffe <==> StartsWith(s, "spiffe://")
    ensures Parse(s).value.scheme == Wimse <==> StartsWith(s, "wimse://")
    ensures StartsWith(s, "spiffe://") || StartsWith(s, "wimse://")
  {
    PrefixesWrittenOut();
    StartsAlike(s, "spiffe://");
    StartsAlike(s, "wimse://");
    var scheme := SchemeOf(s).value;
    RestKeepsScheme(s, scheme, s[|Prefix(scheme)|..]);
    hide ParseRest, ByteLen, SchemeName, StartsWith;
  }

  lemma RestKeepsScheme(s: string, scheme: Scheme, rest: string)
    ensures ParseRest(s, scheme, rest).Ok? ==> ParseRest(s, scheme, rest).value.scheme == scheme
  {
    hide TrustDomainVerdict, PathVerdict;
  }

  lemma PrefixesWrittenOut()
    ensures Prefix(Spiffe) == "spiffe://" && Prefix(Wimse) == "wimse://"
    ensures |Prefix(Spiffe)| == 9 && |Prefix(Wimse)| == 8
  {
  }

  /** Any other start is no identifier. */
  lemma OtherSchemesFail(s: string)
    requires !StartsWith(s, "spiffe://") && !StartsWith(s, "wimse://")
    ensures Parse(s) == if ByteLen(s) > 2048 then Err(TooLong) else Err(UnsupportedScheme)
  {
    PrefixesWrittenOut();
    hide ByteLen;
  }

  ghost predicate PlainPathText(s: string) {
    forall i :: 0 <= i < |s| ==> s[i] == '/' || IsSpiffeChar(s[i])
  }

  lemma {:induction false} SegmentsArePlain(segments: seq<string>)
    requires AllSegments(Spiffe, segments)
    ensures PlainPathText(PathText(segments))
  {
    if segments == [] {
    } else {
      assert IsSegment(Spiffe, segments[0]);
      SegmentsArePlain(segments[1..]);
      PlainConcat("/" + segments[0], PathText(segments[1..]));
    }
  }

  lemma PlainConcat(a: string, b: string)
    requires PlainPathText(a) && PlainPathText(b)
    ensures PlainPathText(a + b)
  {
  }

  lemma HostIsPlain(td: string)
    requires IsHost(td)
    ensures PlainPathText(td)
  {
  }

  predicate IsSpiffePathChar(c: char) {
    'a' <= c <= 'z' || 'A' <= c <= 'Z' || '0' <= c <= '9' || c in ".-_/"
  }

  /** Behind `spiffe://`, an accepted text holds letters, digits, `.`, `-`, `_` and `/` only. */
  lemma SpiffeIsPlain(s: string)
    requires Parse(s).Ok? && StartsWith(s, "spiffe://")
    ensures forall i :: 9 <= i < |s| ==> IsSpiffePathChar(s[i])
  {
    SchemeIsWrittenOut(s);
    hide *;
    var td, segments := AcceptedIsSpelled(s);
    HostIsPlain(td);
    SegmentsArePlain(segments);
    PlainConcat(td, PathText(segments));
    SpellWrittenOut(Spiffe, td, segments);
    PlainCharsWrittenOut(s, td + PathText(segments));
  }

  lemma SpellWrittenOut(scheme: Scheme, td: string, segments: seq<string>)
    ensures Spell(SchemeName(scheme), td, segments)
         == (if scheme == Spiffe then "spiffe://" else "wimse://") + (td + PathText(segments))
  {
    hide PathText;
    var path := PathText(segments);
    assert "spiffe" + "://" == "spiffe://" && "wimse" + "://" == "wimse://";
    Regrouped("spiffe://", td, path);
    Regrouped("wimse://", td, path);
  }

  lemma PlainCharsWrittenOut(s: string, rest: string)
    requires s == "spiffe://" + rest && PlainPathText(rest)
    ensures forall i :: 9 <= i < |s| ==> IsSpiffePathChar(s[i])
  {
    forall i | 9 <= i < |s| ensures IsSpiffePathChar(s[i]) {
      assert s[i] == rest[i - 9];
      HostCharsWrittenOut(s[i]);
    }
  }

  /** Behind `wimse://` and a lowercase host, any segment of `pchar`s but the dots is a path. */
  lemma WimseTakesPchars(td: string, segment: string)
    requires IsHost(td) && Lower(td) == td && segment != "" && segment != "." && segment != ".."
    requires forall i :: 0 <= i < |segment| ==> IsPchar(segment[i])
    requires ByteLen("wimse://" + td + "/" + segment) <= 2048
    ensures var s := "wimse://" + td + "/" + segment;
            Parse(s).Ok? && Parse(s).value.scheme == Wimse && Parse(s).value.trustDomainLen == |td|
  {
    hide *;
    PcharsStay(segment);
    OneSegment(segment);
    SpellWrittenOut(Wimse, td, [segment]);
    WimseText(td, segment);
    LoneComposable(td, segment);
    ComposeThenParse(Wimse, td, [segment]);
  }

  lemma WimseText(td: string, segment: string)
    ensures "wimse://" + (td + ("/" + segment)) == "wimse://" + td + "/" + segment
  {
    Regrouped("wimse://" + td, "/", segment);
    Regrouped("wimse://", td, "/" + segment);
  }

  lemma LoneComposable(td: string, segment: string)
    requires IsHost(td) && Lower(td) == td && segment != "" && segment != "." && segment != ".."
    requires IsPchars(segment) && NormalizeEscapes(segment) == segment
    requires ByteLen(Spell(SchemeName(Wimse), td, [segment])) <= 2048
    ensures Composable(Wimse, td, [segment])
  {
    hide IsHost, Lower, IsPchars, NormalizeEscapes, ByteLen, Spell, SchemeName;
  }

  lemma OneSegment(segment: string)
    ensures PathText([segment]) == "/" + segment
  {
    assert [segment][1..] == [];
    assert "/" + segment + "" == "/" + segment;
  }

  lemma {:induction false} PcharsStay(s: string)
    requires forall i :: 0 <= i < |s| ==> IsPchar(s[i])
    ensures IsPchars(s) && NormalizeEscapes(s) == s
  {
    if s == "" {
    } else {
      PcharsStay(s[1..]);
      HeadTail(s);
    }
  }

  // ---------- Limits and failures ----------

  /** Lengths are counted in bytes of UTF-8: one for ASCII, up to four beyond. */
  lemma {:induction false} BytesOfText(s: string)
    ensures |s| <= ByteLen(s) <= 4 * |s|
    ensures (forall i :: 0 <= i < |s| ==> s[i] < '\U{0080}') ==> ByteLen(s) == |s|
  {
    if s == "" {
    } else {
      BytesOfText(s[1..]);
    }
  }

  lemma BytesOfOne()
    ensures ByteLen("\U{007F}") == 1 && ByteLen("\U{0080}") == 2 && ByteLen("\U{07FF}") == 2
    ensures ByteLen("\U{0800}") == 3 && ByteLen("\U{FFFF}") == 3 && ByteLen("\U{10000}") == 4
  {
  }

  /** No identifier is longer than 2048 bytes. */
  lemma LongFails(s: string)
    ensures Parse(s) == Err(TooLong) <==> ByteLen(s) > 2048
  {
    hide ByteLen, TrustDomainVerdict, PathVerdict;
    NeverTooLong(s);
  }

  lemma NeverTooLong(s: string)
    ensures forall scheme, rest :: ParseRest(s, scheme, rest) != Err(TooLong)
  {
    forall scheme: Scheme, rest: string ensures ParseRest(s, scheme, rest) != Err(TooLong) {
      var n := AuthorityLen(rest);
      NotTooLong(scheme, rest[..n], rest[n..]);
      hide TrustDomainVerdict, PathVerdict, AuthorityLen;
    }
  }

  lemma {:induction false} CharsNotTooLong(td: string)
    ensures TrustDomainChars(td) != Err(TooLong) && SpiffeVerdict(td) != Err(TooLong)
  {
    if td == "" {
    } else {
      CharsNotTooLong(td[1..]);
    }
  }

  lemma {:induction false} PcharNotTooLong(s: string)
    ensures PcharVerdict(s) != Err(TooLong)
    decreases |s|
  {
    if s == "" {
    } else if s[0] == '%' {
      if EscapeVerdict(s).Ok? {
        PcharNotTooLong(s[3..]);
      }
    } else {
      PcharNotTooLong(s[1..]);
    }
  }

  lemma {:induction false} SegmentsNotTooLong(scheme: Scheme, segments: seq<string>)
    ensures SegmentsVerdict(scheme, segments) != Err(TooLong)
  {
    if segments == [] {
    } else {
      CharsNotTooLong(segments[0]);
      PcharNotTooLong(segments[0]);
      SegmentsNotTooLong(scheme, segments[1..]);
    }
  }

  lemma NotTooLong(scheme: Scheme, td: string, path: string)
    ensures TrustDomainVerdict(scheme, td) != Err(TooLong) && PathVerdict(scheme, path) != Err(TooLong)
  {
    CharsNotTooLong(td);
    if path != "" {
      SegmentsNotTooLong(scheme, SplitAll(path, '/')[1..]);
    }
  }

  /** The first character of `s` outside `allowed`. */
  function FirstOutside(s: string, allowed: char -> bool): Option<char> {
    if s == "" then None
    else if !allowed(s[0]) then Some(s[0])
    else FirstOutside(s[1..], allowed)
  }

  lemma {:induction false} TrustDomainFailure(td: string)
    ensures var bad := FirstOutside(td, IsTrustDomainChar);
            TrustDomainChars(td) == if bad.Some? then Err(InvalidTrustDomainChar(bad.value)) else Ok(())
  {
    if td == "" {
    } else {
      TrustDomainFailure(td[1..]);
    }
  }

  /** What is wrong with an identifier, in the order in which it is reported. */
  lemma FailuresInOrder(scheme: Scheme, td: string, path: string)
    requires '/' !in td && (path == "" || path[0] == '/')
    requires ByteLen((if scheme == Spiffe then "spiffe://" else "wimse://") + (td + path)) <= 2048
    ensures var s := (if scheme == Spiffe then "spiffe://" else "wimse://") + (td + path);
            var bad := FirstOutside(td, IsTrustDomainChar);
            var r := Parse(s);
            if '?' in td || '?' in path then r == Err(HasQuery)
            else if '#' in td || '#' in path then r == Err(HasFragment)
            else if '@' in td then r == Err(HasUserInfo)
            else if ':' in td then r == Err(HasPort)
            else if td == "" then r == Err(EmptyTrustDomain)
            else if scheme == Spiffe && ByteLen(td) > 255 then r == Err(TrustDomainTooLong)
            else if bad.Some? then r == Err(InvalidTrustDomainChar(bad.value))
            else if PathVerdict(scheme, path).Err? then r == Err(PathVerdict(scheme, path).error)
            else r == Ok(WorkloadIdentifier(s, scheme, |td|))
  {
    PrefixesWrittenOut();
    TrustDomainFailure(td);
    AuthorityEnds(td, path);
    var rest := td + path;
    InConcat('?', td, path);
    InConcat('#', td, path);
    NoSharedPrefix(rest);
    hide ByteLen, TrustDomainChars, PathVerdict, FirstOutside, AuthorityLen, SchemeOf, Parse, SchemeName;
    ParseByRest(Prefix(scheme) + rest, scheme, rest);
    assert rest[..|td|] == td && rest[|td|..] == path;
  }

  /** Segment failures: the first bad segment, empty ones and dots before their characters. */
  lemma SegmentFailures(scheme: Scheme, first: string, rest: seq<string>)
    ensures SegmentsVerdict(scheme, [""] + rest) == Err(EmptyPathSegment)
    ensures SegmentsVerdict(scheme, ["."] + rest) == SegmentsVerdict(scheme, [".."] + rest) == Err(DotSegment)
    ensures SegmentsVerdict(scheme, [first] + rest) ==
            if SegmentVerdict(scheme, first).Err? then SegmentVerdict(scheme, first) else SegmentsVerdict(scheme, rest)
    ensures first != "" && first != "." && first != ".." ==>
              SegmentVerdict(scheme, first) == if scheme == Spiffe then SpiffeVerdict(first) else PcharVerdict(first)
  {
    TailOfCons(first, rest);
    hide SpiffeVerdict, PcharVerdict;
  }

  /** Escapes: only uppercase ones of reserved characters or non-ASCII octets pass. */
  lemma EscapesWrittenOut(rest: string)
    ensures PcharVerdict("%2F" + rest) == PcharVerdict(rest)
    ensures PcharVerdict("%2f" + rest) == Err(NonNormalizedPercentEncoding("2f"))
    ensures PcharVerdict("%41" + rest) == Err(NonNormalizedPercentEncoding("41"))
    ensures PcharVerdict("%7E" + rest) == Err(NonNormalizedPercentEncoding("7E"))
    ensures PcharVerdict("%G0" + rest) == Err(BadPercentEncoding)
    ensures PcharVerdict("%") == PcharVerdict("%4") == Err(BadPercentEncoding)
    ensures PcharVerdict("%FF" + rest) == PcharVerdict(rest)
  {
    assert ("%2F" + rest)[3..] == rest && ("%FF" + rest)[3..] == rest;
    assert ("%2f" + rest)[1..3] == "2f" && ("%41" + rest)[1..3] == "41" && ("%7E" + rest)[1..3] == "7E";
  }
}
