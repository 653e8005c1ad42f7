/** The parser accepts exactly the well-formed identifiers that are in normal form. */
module IdentifierProofs {
  import opened Wrappers
  import opened Text
  import opened Identifiers
  import opened Normalizer

  // ---------- Well-formed identifiers, in any spelling ----------

  predicate IsHostChar(c: char) {
    IsAlnum(c) || c == '.' || c == '-' || c == '_'
  }

  predicate IsHost(td: string) {
    td != "" && forall i :: 0 <= i < |td| ==> IsHostChar(td[i])
  }

  /** `pchar`s and percent-escapes in hex of either case. */
  predicate IsPchars(s: string)
    decreases |s|
  {
    if s == "" then true
    else if s[0] == '%' then StartsEscape(s) && IsPchars(s[3..])
    else IsPchar(s[0]) && IsPchars(s[1..])
  }

  predicate IsSegment(scheme: Scheme, segment: string) {
    && segment != ""
    && (if scheme == Spiffe then forall i :: 0 <= i < |segment| ==> IsSpiffeChar(segment[i]) else IsPchars(segment))
  }

  function PathText(segments: seq<string>): string {
    if segments == [] then "" else "/" + segments[0] + PathText(segments[1..])
  }

  /** The scheme by its registered name. */
  function RegisteredName(scheme: Scheme): string {
    if scheme == Spiffe then "spiffe" else "wimse"
  }

  lemma RegisteredNames(scheme: Scheme)
    ensures SchemeName(scheme) == RegisteredName(scheme)
  {
  }

  /** `s` is spelled `name://td/segment/...`, with letters, hosts and escapes in any case. */
  predicate SpelledAs(s: string, scheme: Scheme, name: string, td: string, segments: seq<string>) {
    && s == name + "://" + td + PathText(segments)
    && Lower(name) == RegisteredName(scheme)
    && IsHost(td)
    && (forall i :: 0 <= i < |segments| ==> IsSegment(scheme, segments[i]))
    && ByteLen(s) <= 2048
    && (scheme == Spiffe ==> ByteLen(td) <= 255)
  }

  ghost predicate WellFormedId(s: string) {
    exists scheme, name, td, segments :: SpelledAs(s, scheme, name, td, segments)
  }

  // ---------- Segments ----------

  predicate IsDot(segment: string) {
    segment == "." || segment == ".."
  }

  lemma EscapeExact(s: string)
    requires StartsEscape(s)
    ensures EscapeVerdict(s).Ok? <==> NormalEscape(s) == s[..3]
  {
    if IsLower(s[1]) || IsLower(s[2]) {
      assert s[..3][1] == s[1] && s[..3][2] == s[2];
    } else {
      assert HexValue(s[1]) == DecodeHex(s[1]) && HexValue(s[2]) == DecodeHex(s[2]);
      assert s[..3] == ['%', s[1], s[2]];
    }
  }

  /** The scanning validator accepts exactly the pchar segments that escape normalization leaves alone. */
  lemma {:induction false} PcharExact(s: string)
    ensures PcharVerdict(s).Ok? <==> IsPchars(s) && NormalizeEscapes(s) == s
    decreases |s|
  {
    if s == "" {
    } else if StartsEscape(s) {
      EscapeExact(s);
      NormalEscapeShrinks(s);
      EscapesShrink(s[3..]);
      PcharExact(s[3..]);
      hide EscapeVerdict, NormalEscape;
      SplitAt(s, 3, NormalEscape(s), NormalizeEscapes(s[3..]));
    } else {
      PcharExact(s[1..]);
      EscapesShrink(s[1..]);
      SplitAt(s, 1, [s[0]], NormalizeEscapes(s[1..]));
    }
  }

  /** Two parts that are not longer than those of `s` make up `s` only if each is the part of `s`. */
  lemma SplitAt(s: string, n: nat, a: string, b: string)
    requires n <= |s| && |a| <= n && |b| <= |s| - n
    ensures a + b == s <==> a == s[..n] && b == s[n..]
  {
  }

  lemma {:induction false} SpiffeExact(s: string)
    ensures SpiffeVerdict(s).Ok? <==> forall i :: 0 <= i < |s| ==> IsSpiffeChar(s[i])
    ensures SpiffeVerdict(s).Ok? ==> NormalizeEscapes(s) == s
  {
    if s == "" {
    } else {
      SpiffeExact(s[1..]);
      assert forall i :: 1 <= i < |s| ==> s[i] == s[1..][i - 1];
    }
  }

  lemma SegmentExact(scheme: Scheme, s: string)
    ensures SegmentVerdict(scheme, s).Ok? <==> IsSegment(scheme, s) && NormalizeEscapes(s) == s && !IsDot(s)
  {
    SpiffeExact(s);
    PcharExact(s);
  }

  /** No delimiter of the identifier occurs in a segment. */
  lemma {:induction false} PcharsAreClean(s: string)
    requires IsPchars(s)
    ensures '/' !in s && '?' !in s && '#' !in s
    decreases |s|
  {
    if s == "" {
    } else {
      if s[0] == '%' {
        PcharsAreClean(s[3..]);
        assert s == [s[0], s[1], s[2]] + s[3..];
      } else {
        PcharsAreClean(s[1..]);
        HeadTail(s);
      }
    }
  }

  lemma SegmentIsClean(scheme: Scheme, s: string)
    requires IsSegment(scheme, s)
    ensures s != "" && '/' !in s && '?' !in s && '#' !in s
  {
    if scheme == Wimse {
      PcharsAreClean(s);
    }
  }

  // ---------- Paths ----------

  ghost predicate AllClean(segments: seq<string>) {
    forall i :: 0 <= i < |segments| ==> segments[i] != "" && '/' !in segments[i]
  }

  lemma PathStart(segments: seq<string>)
    ensures PathText(segments) == "" || PathText(segments)[0] == '/'
  {
  }

  /** Splitting a path gives its segments back. */
  lemma {:induction false} SplitPath(segments: seq<string>)
    requires AllClean(segments)
    ensures PathText(segments) != "" ==> SplitAll(PathText(segments), '/') == [""] + segments
    ensures PathText(segments) == "" <==> segments == []
  {
    if segments == [] {
    } else {
      var first, rest := segments[0], segments[1..];
      SplitPath(rest);
      var path, tail := PathText(segments), PathText(rest);
      assert '/' !in first;
      assert path == "" + ['/'] + (first + tail);
      IndexOfFirst("", '/', first + tail);
      assert path[..0] == "" && path[1..] == first + tail;
      SplitAfter(first, rest);
      HeadTail(segments);
    }
  }

  lemma SplitAfter(first: string, rest: seq<string>)
    requires '/' !in first
    requires PathText(rest) != "" ==> SplitAll(PathText(rest), '/') == [""] + rest
    requires PathText(rest) == "" <==> rest == []
    ensures SplitAll(first + PathText(rest), '/') == [first] + rest
  {
    if rest == [] {
      assert first + PathText(rest) == first;
      IndexOfIsFirst(first, '/');
    } else {
      var tail := PathText(rest);
      PathStart(rest);
      hide PathText;
      SplitAtSlash(first, tail[1..]);
      SplitAtSlash("", tail[1..]);
      assert tail == "/" + tail[1..];
      EmptyFirst(tail);
      TailOfCons("", rest);
      TailOfCons("", SplitAll(tail[1..], '/'));
    }
  }

  lemma SplitAtSlash(first: string, after: string)
    requires '/' !in first
    ensures SplitAll(first + ("/" + after), '/') == [first] + SplitAll(after, '/')
  {
    var s := first + ("/" + after);
    assert s == first + ['/'] + after;
    IndexOfFirst(first, '/', after);
    assert s[..|first|] == first && s[|first| + 1..] == after;
  }

  /** Any path with a leading `/` is the text of its segments. */
  lemma {:induction false} SplitsToPath(path: string)
    requires path != "" && path[0] == '/'
    ensures path == PathText(SplitAll(path, '/')[1..])
    ensures forall i :: 0 <= i < |SplitAll(path, '/')| ==> '/' !in SplitAll(path, '/')[i]
    decreases |path|
  {
    IndexOfFirst("", '/', path[1..]);
    assert path == "" + ['/'] + path[1..];
    var parts := SplitAll(path[1..], '/');
    assert SplitAll(path, '/') == [path[..0]] + parts;
    TailOfCons(path[..0], parts);
    SplitsToPathAfter(path[1..]);
  }

  lemma {:induction false} SplitsToPathAfter(s: string)
    ensures "/" + s == PathText(SplitAll(s, '/'))
    ensures forall i :: 0 <= i < |SplitAll(s, '/')| ==> '/' !in SplitAll(s, '/')[i]
    decreases |s|
  {
    SplitOnceFound(s);
    if '/' in s {
      var i := IndexOf(s, '/').value;
      var before, after := s[..i], s[i + 1..];
      SplitsToPathAfter(after);
      TailOfCons(before, SplitAll(after, '/'));
      hide IndexOf;
      assert SplitAll(s, '/') == [before] + SplitAll(after, '/');
      hide SplitAll;
      Regrouped("/", before, "/" + after);
    } else {
      assert SplitAll(s, '/') == [s] && [s][1..] == [];
      assert "/" + s + "" == "/" + s;
    }
  }

  lemma SplitOnceFound(s: string)
    ensures IndexOf(s, '/').Some? <==> '/' in s
    ensures '/' in s ==> var i := IndexOf(s, '/').value; '/' !in s[..i] && s == s[..i] + ("/" + s[i + 1..])
  {
    IndexOfIsFirst(s, '/');
    hide IndexOf;
    if '/' in s {
      AroundAt(s, IndexOf(s, '/').value);
    }
  }

  /** Escape normalization leaves a path alone exactly when it leaves every segment alone. */
  lemma {:induction false} EscapesFixPath(segments: seq<string>)
    ensures NormalizeEscapes(PathText(segments)) == PathText(segments) <==>
            forall i :: 0 <= i < |segments| ==> NormalizeEscapes(segments[i]) == segments[i]
  {
    if segments == [] {
    } else {
      var first, rest := segments[0], segments[1..];
      var tail := PathText(rest);
      EscapesFixPath(rest);
      PathStart(rest);
      EscapesConcat(first, tail);
      EscapesShrink(first);
      EscapesShrink(tail);
      SlashStays(first + tail);
      hide NormalizeEscapes, PathText;
      JoinedParts(first, tail, NormalizeEscapes(first), NormalizeEscapes(tail));
      Regrouped("/", first, tail);
      assert forall i :: 1 <= i < |segments| ==> segments[i] == rest[i - 1];
    }
  }

  lemma SlashStays(s: string)
    ensures NormalizeEscapes("/" + s) == "/" + NormalizeEscapes(s)
  {
  }

  lemma JoinedParts(a: string, b: string, x: string, y: string)
    requires |x| <= |a| && |y| <= |b|
    ensures "/" + (x + y) == "/" + (a + b) <==> x == a && y == b
  {
    TailOfCons('/', x + y);
    TailOfCons('/', a + b);
    SplitAt(a + b, |a|, x, y);
    assert (a + b)[..|a|] == a && (a + b)[|a|..] == b;
  }

  lemma AuthorityEnds(first: string, tail: string)
    requires '/' !in first && (tail == "" || tail[0] == '/')
    ensures AuthorityLen(first + tail) == |first|
  {
    if tail == "" {
      assert first + tail == first;
      IndexOfIsFirst(first, '/');
    } else {
      assert first + tail == first + ['/'] + tail[1..];
      IndexOfFirst(first, '/', tail[1..]);
    }
  }

  /** Step E of the loop: the first segment moves to the output. */
  lemma MoveSegment(input: string, output: string)
    requires input != ""
    requires !StartsWith(input, "../") && !StartsWith(input, "./")
    requires !StartsWith(input, "/./") && !StartsWith(input, "/../")
    requires input != "/." && input != "/.." && input != "." && input != ".."
    ensures var n := 1 + AuthorityLen(input[1..]);
            RemoveDotSegments(input, output) == RemoveDotSegments(input[n..], output + input[..n])
  {
  }

  lemma SegmentSlices(first: string, tail: string)
    ensures var input := "/" + first + tail;
            input != "" && input[1..] == first + tail
            && input[..1 + |first|] == "/" + first && input[1 + |first|..] == tail
  {
  }

  /** How the removal loop treats the first segment of a path. */
  lemma FirstSegment(first: string, tail: string, output: string)
    requires first != "" && '/' !in first && (tail == "" || tail[0] == '/')
    ensures var input := "/" + first + tail;
            if IsDot(first) then |RemoveDotSegments(input, output)| < |input| + |output|
            else RemoveDotSegments(input, output) == RemoveDotSegments(tail, output + "/" + first)
  {
    if IsDot(first) {
      DotSegmentShrinks(first, tail, output);
    } else {
      hide RemoveDotSegments, StartsWith, IsDot, AuthorityLen;
      NoDotPrefix(first, tail);
      AuthorityEnds(first, tail);
      SegmentSlices(first, tail);
      MoveSegment("/" + first + tail, output);
      Regrouped(output, "/", first);
    }
  }

  lemma DotSegmentShrinks(first: string, tail: string, output: string)
    requires IsDot(first) && (tail == "" || tail[0] == '/')
    ensures var input := "/" + first + tail; |RemoveDotSegments(input, output)| < |input| + |output|
  {
    var input := "/" + first + tail;
    DropShrinks(output);
    if tail == "" {
      assert input == "/" + first;
      RemovalShrinks("/", output);
      RemovalShrinks("/", DropLastSegment(output));
    } else if first == "." {
      assert input[..3] == "/./" && input[1] == '.';
      RemovalShrinks("/" + input[3..], output);
    } else {
      assert input[..4] == "/../" && input[2] == '.';
      RemovalShrinks("/" + input[4..], DropLastSegment(output));
    }
  }

  lemma Prefixes(s: string)
    ensures StartsWith(s, "../") || StartsWith(s, "./") ==> s[0] == '.'
    ensures StartsWith(s, "/./") <==> |s| >= 3 && s[0] == '/' && s[1] == '.' && s[2] == '/'
    ensures StartsWith(s, "/../") <==> |s| >= 4 && s[0] == '/' && s[1] == '.' && s[2] == '.' && s[3] == '/'
  {
  }

  /** Dots that end at a `/` or at the end of the text are the whole first segment. */
  lemma DotsAreSegment(first: string, tail: string)
    requires first != "" && '/' !in first && (tail == "" || tail[0] == '/')
    ensures var input := "/" + first + tail;
            && (input[1] == '.' && (|input| == 2 || input[2] == '/') ==> first == ".")
            && (|input| >= 3 && input[1] == '.' && input[2] == '.' && (|input| == 3 || input[3] == '/') ==>
                  IsDot(first))
  {
  }

  lemma NoDotPrefix(first: string, tail: string)
    requires first != "" && '/' !in first && !IsDot(first) && (tail == "" || tail[0] == '/')
    ensures var input := "/" + first + tail;
            && !StartsWith(input, "../") && !StartsWith(input, "./")
            && !StartsWith(input, "/./") && !StartsWith(input, "/../")
            && input != "/." && input != "/.." && input != "." && input != ".."
  {
    Prefixes("/" + first + tail);
    DotsAreSegment(first, tail);
  }

  ghost predicate NoDots(segments: seq<string>) {
    forall i :: 0 <= i < |segments| ==> !IsDot(segments[i])
  }

  lemma NoDotsCons(segments: seq<string>)
    requires segments != []
    ensures NoDots(segments) <==> !IsDot(segments[0]) && NoDots(segments[1..])
  {
  }

  lemma PutBack(output: string, first: string, tail: string)
    ensures output + "/" + first + tail == output + ("/" + first + tail)
  {
  }

  /** The removal loop leaves a path alone exactly when no segment is `.` or `..`. */
  lemma {:induction false} RemovalFixesPath(segments: seq<string>, output: string)
    requires AllClean(segments)
    ensures RemoveDotSegments(PathText(segments), output) == output + PathText(segments) <==> NoDots(segments)
    decreases |segments|
  {
    if segments == [] {
      assert output + "" == output;
    } else {
      var first, rest := segments[0], segments[1..];
      var tail := PathText(rest);
      PathStart(rest);
      assert PathText(segments) == "/" + first + tail;
      hide RemoveDotSegments, IsDot, PathText;
      FirstSegment(first, tail, output);
      NoDotsCons(segments);
      if !IsDot(first) {
        RemovalFixesPath(rest, output + "/" + first);
        PutBack(output, first, tail);
      }
    }
  }

  ghost predicate EscapesFixed(segments: seq<string>) {
    forall i :: 0 <= i < |segments| ==> NormalizeEscapes(segments[i]) == segments[i]
  }

  /** A path is in normal form exactly when its segments are and none is a dot segment. */
  lemma PathNormal(segments: seq<string>)
    requires AllClean(segments)
    ensures NormalizePath(PathText(segments)) == PathText(segments) <==> EscapesFixed(segments) && NoDots(segments)
  {
    var path := PathText(segments);
    PathFixedStepwise(path);
    EscapesFixPath(segments);
    RemovalFixesPath(segments, "");
    EmptyFirst(path);
  }

  ghost predicate AllSegments(scheme: Scheme, segments: seq<string>) {
    forall i :: 0 <= i < |segments| ==> IsSegment(scheme, segments[i])
  }

  lemma {:induction false} SegmentsExact(scheme: Scheme, segments: seq<string>)
    ensures SegmentsVerdict(scheme, segments).Ok? <==>
            AllSegments(scheme, segments) && EscapesFixed(segments) && NoDots(segments)
  {
    hide SegmentVerdict, IsSegment, NormalizeEscapes, IsDot;
    if segments == [] {
    } else {
      SegmentExact(scheme, segments[0]);
      SegmentsExact(scheme, segments[1..]);
      assert forall i :: 1 <= i < |segments| ==> segments[i] == segments[1..][i - 1];
    }
  }

  lemma PathExact(scheme: Scheme, segments: seq<string>)
    requires AllClean(segments)
    ensures PathVerdict(scheme, PathText(segments)).Ok? <==>
            AllSegments(scheme, segments) && EscapesFixed(segments) && NoDots(segments)
  {
    SplitPath(segments);
    SegmentsExact(scheme, segments);
    TailOfCons("", segments);
    hide SegmentsVerdict, AllSegments, EscapesFixed, NoDots;
  }

  // ---------- Trust domains ----------

  lemma {:induction false} TrustDomainCharsExact(td: string)
    ensures TrustDomainChars(td).Ok? <==> forall i :: 0 <= i < |td| ==> IsTrustDomainChar(td[i])
  {
    if td == "" {
    } else {
      TrustDomainCharsExact(td[1..]);
      assert forall i :: 1 <= i < |td| ==> td[i] == td[1..][i - 1];
    }
  }

  /** A trust domain is accepted exactly when it is a host in lowercase, within its scheme's length. */
  lemma TrustDomainExact(scheme: Scheme, td: string)
    ensures TrustDomainVerdict(scheme, td).Ok? <==>
            && IsHost(td) && Lower(td) == td
            && (scheme == Spiffe ==> ByteLen(td) <= MAX_TRUST_DOMAIN_LEN)
  {
    TrustDomainCharsExact(td);
    LowerFixed(td);
    assert forall i :: 0 <= i < |td| ==> (IsTrustDomainChar(td[i]) <==> IsHostChar(td[i]) && !IsUpper(td[i]));
  }

  lemma HostIsClean(td: string)
    requires IsHost(td)
    ensures forall c :: c in td ==> IsHostChar(c)
    ensures '/' !in td && '?' !in td && '#' !in td && '@' !in td && ':' !in td
  {
  }

  // ---------- The parser on a spelled identifier ----------

  function Spell(name: string, td: string, segments: seq<string>): string {
    name + "://" + td + PathText(segments)
  }

  lemma {:induction false} PathIsClean(scheme: Scheme, segments: seq<string>)
    requires AllSegments(scheme, segments)
    ensures AllClean(segments) && '?' !in PathText(segments) && '#' !in PathText(segments)
  {
    hide IsSegment;
    if segments == [] {
    } else {
      assert IsSegment(scheme, segments[0]);
      SegmentIsClean(scheme, segments[0]);
      PathIsClean(scheme, segments[1..]);
      assert forall i :: 1 <= i < |segments| ==> segments[i] == segments[1..][i - 1];
    }
  }

  lemma StartsAlike(s: string, prefix: string)
    requires prefix != ""
    ensures StartsWith(s, prefix) ==> s[0] == prefix[0]
  {
  }

  lemma NoSharedPrefix(rest: string)
    ensures SchemeOf(Prefix(Spiffe) + rest) == Some(Spiffe)
    ensures SchemeOf(Prefix(Wimse) + rest) == Some(Wimse)
  {
    assert (Prefix(Spiffe) + rest)[..|Prefix(Spiffe)|] == Prefix(Spiffe);
    assert (Prefix(Wimse) + rest)[..|Prefix(Wimse)|] == Prefix(Wimse);
    assert (Prefix(Wimse) + rest)[0] == 'w' && Prefix(Spiffe)[0] == 's';
    StartsAlike(Prefix(Wimse) + rest, Prefix(Spiffe));
  }

  /** On an identifier in the exact scheme name, parsing is validation of its two parts. */
  lemma ParseSpelled(scheme: Scheme, td: string, segments: seq<string>)
    requires IsHost(td) && AllSegments(scheme, segments)
    ensures var s := Spell(SchemeName(scheme), td, segments);
            && (Parse(s).Ok? <==>
                  && ByteLen(s) <= MAX_ID_LEN && TrustDomainVerdict(scheme, td).Ok?
                  && PathVerdict(scheme, PathText(segments)).Ok?)
            && (Parse(s).Ok? ==> Parse(s).value == WorkloadIdentifier(s, scheme, |td|))
  {
    var s, path := Spell(SchemeName(scheme), td, segments), PathText(segments);
    HostIsClean(td);
    PathIsClean(scheme, segments);
    PathStart(segments);
    AuthorityEnds(td, path);
    hide IsHost, AllSegments, TrustDomainVerdict, PathVerdict, PathText, ByteLen, SchemeOf, AuthorityLen,
      IsHostChar, Parse, ParseRest;
    var rest := td + path;
    assert s == Prefix(scheme) + rest;
    NoSharedPrefix(rest);
    ParseByRest(s, scheme, rest);
    ParseRestSpelled(s, scheme, td, path);
  }

  lemma ParseByRest(s: string, scheme: Scheme, rest: string)
    requires s == Prefix(scheme) + rest && SchemeOf(s) == Some(scheme)
    ensures Parse(s) == if ByteLen(s) > MAX_ID_LEN then Err(TooLong) else ParseRest(s, scheme, rest)
  {
  }

  lemma ParseRestSpelled(s: string, scheme: Scheme, td: string, path: string)
    requires AuthorityLen(td + path) == |td|
    requires '?' !in td && '#' !in td && '@' !in td && ':' !in td && '?' !in path && '#' !in path
    ensures var r := ParseRest(s, scheme, td + path);
            && (r.Ok? <==> TrustDomainVerdict(scheme, td).Ok? && PathVerdict(scheme, path).Ok?)
            && (r.Ok? ==> r.value == WorkloadIdentifier(s, scheme, |td|))
  {
  }

  /** What the parser has established by the time it accepts. */
  lemma AcceptedParts(s: string) returns (td: string, path: string)
    requires Parse(s).Ok?
    ensures var scheme := Parse(s).value.scheme;
            && s == Prefix(scheme) + (td + path) && ByteLen(s) <= MAX_ID_LEN
            && TrustDomainVerdict(scheme, td).Ok? && PathVerdict(scheme, path).Ok?
            && (path == "" || path[0] == '/')
  {
    hide ByteLen, TrustDomainVerdict, PathVerdict, AuthorityLen;
    var scheme := SchemeOf(s).value;
    var rest := s[|Prefix(scheme)|..];
    var n := AuthorityLen(rest);
    td, path := rest[..n], rest[n..];
    RestOfAuthority(rest);
    assert s == Prefix(scheme) + rest && rest == td + path;
  }

  lemma PathHasSegments(scheme: Scheme, path: string) returns (segments: seq<string>)
    requires PathVerdict(scheme, path).Ok? && (path == "" || path[0] == '/')
    ensures path == PathText(segments) && AllSegments(scheme, segments)
  {
    if path == "" {
      segments := [];
    } else {
      segments := SplitAll(path, '/')[1..];
      SplitsToPath(path);
      SegmentsExact(scheme, segments);
    }
  }

  /** Everything the parser accepts is spelled in the exact scheme name. */
  lemma AcceptedIsSpelled(s: string) returns (td: string, segments: seq<string>)
    requires Parse(s).Ok?
    ensures var scheme := Parse(s).value.scheme;
            && s == Spell(SchemeName(scheme), td, segments)
            && IsHost(td) && AllSegments(scheme, segments)
            && ByteLen(s) <= MAX_ID_LEN
            && TrustDomainVerdict(scheme, td).Ok? && PathVerdict(scheme, PathText(segments)).Ok?
  {
    var path: string;
    td, path := AcceptedParts(s);
    hide Parse, ByteLen, PathVerdict, AllSegments, IsHost, PathText, SchemeName, TrustDomainVerdict;
    var scheme := Parse(s).value.scheme;
    segments := PathHasSegments(scheme, path);
    TrustDomainExact(scheme, td);
    assert Prefix(scheme) + (td + path) == SchemeName(scheme) + "://" + td + path;
  }

  lemma RestOfAuthority(rest: string)
    ensures rest[AuthorityLen(rest)..] == "" || rest[AuthorityLen(rest)..][0] == '/'
  {
    IndexOfIsFirst(rest, '/');
  }

  // ---------- The normalizer on a spelled identifier ----------

  lemma NormalizeSpelled(scheme: Scheme, name: string, td: string, segments: seq<string>)
    requires Lower(name) == SchemeName(scheme) && IsHost(td)
    ensures Normalize(Spell(name, td, segments))
         == SchemeName(scheme) + "://" + Lower(td) + NormalizePath(PathText(segments))
  {
    var s, path := Spell(name, td, segments), PathText(segments);
    HostIsClean(td);
    PathStart(segments);
    AuthorityEnds(td, path);
    NameHasNoColon(scheme, name);
    hide IsHost, PathText, NormalizePath, AuthorityLen, IsHostChar, Lower, SchemeName, StartsWith;
    SpellSlices(name, td, path);
  }

  lemma SpellSlices(name: string, td: string, path: string)
    requires ':' !in name
    ensures var s := name + "://" + td + path;
            && IndexOf(s, ':') == Some(|name|) && StartsWith(s[|name|..], "://")
            && s[..|name|] == name && s[|name| + 3..] == td + path
            && s[|name| + 3..][..|td|] == td && s[|name| + 3..][|td|..] == path
  {
    var s := name + "://" + td + path;
    assert s == name + [':'] + ("//" + (td + path));
    IndexOfFirst(name, ':', "//" + (td + path));
    assert s[|name|..] == "://" + (td + path);
    assert s[|name| + 3..] == td + path;
  }

  lemma NameHasNoColon(scheme: Scheme, name: string)
    requires Lower(name) == SchemeName(scheme)
    ensures ':' !in name
  {
  }

  /** A spelling is in normal form exactly when each of its three parts is. */
  lemma SpelledNormal(scheme: Scheme, name: string, td: string, segments: seq<string>)
    requires Lower(name) == SchemeName(scheme) && IsHost(td)
    ensures Normalize(Spell(name, td, segments)) == Spell(name, td, segments) <==>
            name == SchemeName(scheme) && Lower(td) == td && NormalizePath(PathText(segments)) == PathText(segments)
  {
    NormalizeSpelled(scheme, name, td, segments);
    var path := PathText(segments);
    var low, low_td := SchemeName(scheme), Lower(td);
    assert |low| == |name| && |low_td| == |td|;
    hide Normalize, IsHost, Lower, SchemeName, NormalizePath, PathText;
    SameParts(low, low_td, NormalizePath(path), name, td, path);
  }

  lemma SameParts(a: string, b: string, c: string, x: string, y: string, z: string)
    requires |a| == |x| && |b| == |y|
    ensures a + "://" + b + c == x + "://" + y + z <==> a == x && b == y && c == z
  {
    var s, t := a + "://" + b + c, x + "://" + y + z;
    assert s[..|a|] == a && s[|a| + 3..|a| + 3 + |b|] == b && s[|a| + 3 + |b|..] == c;
    assert t[..|x|] == x && t[|x| + 3..|x| + 3 + |y|] == y && t[|x| + 3 + |y|..] == z;
  }

  // ---------- The main results ----------

  /**
   The parser accepts a text exactly when it is a well-formed identifier and is
   its own RFC 3986 normal form.
   */
  lemma ParserIsExact(s: string)
    ensures Parse(s).Ok? <==> WellFormedId(s) && Normalize(s) == s
  {
    if Parse(s).Ok? {
      var scheme := Parse(s).value.scheme;
      var td, segments := AcceptedIsSpelled(s);
      var name := SchemeName(scheme);
      RegisteredNames(scheme);
      hide RegisteredName;
      hide Parse, ByteLen, Normalize, PathVerdict, TrustDomainVerdict;
      LowerFixed(name);
      assert Lower(name) == name by { NameIsLower(scheme); }
      TrustDomainExact(scheme, td);
      PathIsClean(scheme, segments);
      PathExact(scheme, segments);
      PathNormal(segments);
      SpelledNormal(scheme, name, td, segments);
      assert SpelledAs(s, scheme, name, td, segments) by { hide EscapesFixed, NoDots, IsSegment; }
    } else if WellFormedId(s) && Normalize(s) == s {
      var scheme, name, td, segments :| SpelledAs(s, scheme, name, td, segments);
      NormalIsAccepted(s, scheme, name, td, segments);
    }
  }

  lemma NameIsLower(scheme: Scheme)
    ensures Lower(SchemeName(scheme)) == SchemeName(scheme)
  {
  }

  lemma NormalIsAccepted(s: string, scheme: Scheme, name: string, td: string, segments: seq<string>)
    requires SpelledAs(s, scheme, name, td, segments) && Normalize(s) == s
    ensures Parse(s).Ok?
  {
    assert s == Spell(name, td, segments) && AllSegments(scheme, segments);
    RegisteredNames(scheme);
    hide RegisteredName;
    hide Parse, ByteLen, Normalize, PathVerdict, TrustDomainVerdict, IsSegment, IsHost;
    SpelledNormal(scheme, name, td, segments);
    TrustDomainExact(scheme, td);
    PathIsClean(scheme, segments);
    PathNormal(segments);
    PathExact(scheme, segments);
    ParseSpelled(scheme, td, segments);
  }

  /** Two accepted identifiers with the same normal form are the same text. */
  lemma OneSpelling(a: string, b: string)
    requires Parse(a).Ok? && Parse(b).Ok? && Normalize(a) == Normalize(b)
    ensures a == b && Parse(a) == Parse(b)
  {
    ParserIsExact(a);
    ParserIsExact(b);
  }

  /** The parts that may be put together to an identifier. */
  ghost predicate Composable(scheme: Scheme, td: string, segments: seq<string>) {
    && IsHost(td) && AllSegments(scheme, segments)
    && Lower(td) == td && EscapesFixed(segments) && NoDots(segments)
    && ByteLen(Spell(SchemeName(scheme), td, segments)) <= MAX_ID_LEN
    && (scheme == Spiffe ==> ByteLen(td) <= MAX_TRUST_DOMAIN_LEN)
  }

  lemma Slices(scheme: Scheme, td: string, segments: seq<string>)
    ensures var id := WorkloadIdentifier(Spell(SchemeName(scheme), td, segments), scheme, |td|);
            && id.Sliceable()
            && id.TrustDomain() == td
            && id.Path() == PathText(segments)
            && id.Origin() == Prefix(scheme) + td
            && id.Origin() + id.Path() == id.uri
  {
  }

  /** Composing valid parts and parsing gives the parts back, down to the segments. */
  lemma ComposeThenParse(scheme: Scheme, td: string, segments: seq<string>)
    requires Composable(scheme, td, segments)
    ensures var s := Spell(SchemeName(scheme), td, segments);
            && Parse(s) == Ok(WorkloadIdentifier(s, scheme, |td|))
            && Parse(s).value.Sliceable()
            && Parse(s).value.TrustDomain() == td
            && Parse(s).value.Origin() == Prefix(scheme) + td
            && Parse(s).value.Path() == PathText(segments)
            && (segments != [] ==> SplitAll(Parse(s).value.Path(), '/')[1..] == segments)
  {
    hide Parse, ByteLen, PathVerdict, TrustDomainVerdict, IsSegment, IsHost, EscapesFixed, NoDots;
    TrustDomainExact(scheme, td);
    PathIsClean(scheme, segments);
    PathExact(scheme, segments);
    ParseSpelled(scheme, td, segments);
    Slices(scheme, td, segments);
    SplitPath(segments);
    TailOfCons("", segments);
  }

  /** An accepted text falls apart into valid parts, and its origin and path make it up again. */
  lemma ParseThenCompose(s: string) returns (td: string, segments: seq<string>)
    requires Parse(s).Ok?
    ensures var id := Parse(s).value;
            && Composable(id.scheme, td, segments)
            && s == id.uri == Spell(SchemeName(id.scheme), td, segments)
            && id.Sliceable() && id.TrustDomain() == td && id.Path() == PathText(segments)
            && id.Origin() + id.Path() == s
            && Parse(id.uri) == Ok(id)
  {
    td, segments := AcceptedIsSpelled(s);
    var scheme := Parse(s).value.scheme;
    hide Parse, ByteLen, PathVerdict, TrustDomainVerdict, IsSegment, IsHost, EscapesFixed, NoDots;
    TrustDomainExact(scheme, td);
    PathIsClean(scheme, segments);
    PathExact(scheme, segments);
    ParseSpelled(scheme, td, segments);
    Slices(scheme, td, segments);
  }
}
