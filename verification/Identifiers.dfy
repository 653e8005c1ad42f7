/** The WIMSE workload identifier parser (draft-ietf-wimse-identifier-03, sections 4.1 to 4.4). */
module Identifiers {
  import opened Wrappers
  import opened Text

  datatype Scheme = Spiffe | Wimse

  function SchemeName(s: Scheme): string {
    match s
    case Spiffe => "spiffe"
    case Wimse => "wimse"
  }

  function Prefix(s: Scheme): string {
    SchemeName(s) + "://"
  }

  const MAX_ID_LEN := 2048
  const MAX_TRUST_DOMAIN_LEN := 255

  datatype ParseError =
    | TooLong
    | UnsupportedScheme
    | HasQuery
    | HasFragment
    | HasUserInfo
    | HasPort
    | EmptyTrustDomain
    | TrustDomainTooLong
    | InvalidTrustDomainChar(c: char)
    | EmptyPathSegment
    | DotSegment
    | InvalidPathChar(c: char)
    | BadPercentEncoding
    | NonNormalizedPercentEncoding(escape: string)

  type Verdict = Result<(), ParseError>

  /** The number of bytes of a text in UTF-8. */
  function ByteLen(s: string): nat {
    if s == "" then 0 else
    (if s[0] < '\U{0080}' then 1 else if s[0] < '\U{0800}' then 2 else if s[0] < '\U{10000}' then 3 else 4)
    + ByteLen(s[1..])
  }

  // ---------- Character sets ----------

  predicate IsAlnum(c: char) {
    IsUpper(c) || IsLower(c) || IsDigit(c)
  }

  predicate IsUnreserved(c: char) {
    IsAlnum(c) || c == '-' || c == '.' || c == '_' || c == '~'
  }

  predicate IsSubDelim(c: char) {
    || c == '!' || c == '$' || c == '&' || c == '\'' || c == '(' || c == ')'
    || c == '*' || c == '+' || c == ',' || c == ';' || c == '='
  }

  predicate IsPchar(c: char) {
    IsUnreserved(c) || IsSubDelim(c) || c == ':' || c == '@'
  }

  predicate IsSpiffeChar(c: char) {
    IsAlnum(c) || c == '.' || c == '-' || c == '_'
  }

  predicate IsTrustDomainChar(c: char) {
    IsLower(c) || IsDigit(c) || c == '.' || c == '-' || c == '_'
  }

  predicate IsHex(c: char) {
    IsDigit(c) || 'A' <= c <= 'F' || 'a' <= c <= 'f'
  }

  /** The value of an uppercase or decimal hex digit. */
  function DecodeHex(c: char): nat
    requires IsHex(c) && !IsLower(c)
  {
    if IsDigit(c) then c as int - '0' as int else c as int - 'A' as int + 10
  }

  predicate IsUnreservedByte(b: nat) {
    b < 128 && IsUnreserved(b as char)
  }

  // ---------- Validation ----------

  function TrustDomainChars(td: string): Verdict {
    if td == "" then Ok(())
    else if !IsTrustDomainChar(td[0]) then Err(InvalidTrustDomainChar(td[0]))
    else TrustDomainChars(td[1..])
  }

  function TrustDomainVerdict(scheme: Scheme, td: string): Verdict {
    if td == "" then Err(EmptyTrustDomain)
    else if scheme == Spiffe && ByteLen(td) > MAX_TRUST_DOMAIN_LEN then Err(TrustDomainTooLong)
    else TrustDomainChars(td)
  }

  function SpiffeVerdict(segment: string): Verdict {
    if segment == "" then Ok(())
    else if !IsSpiffeChar(segment[0]) then Err(InvalidPathChar(segment[0]))
    else SpiffeVerdict(segment[1..])
  }

  /** Whether the escape at the start of `s` is acceptable. */
  function EscapeVerdict(s: string): Verdict
    requires s != "" && s[0] == '%'
  {
    if |s| < 3 || !IsHex(s[1]) || !IsHex(s[2]) then Err(BadPercentEncoding)
    else if IsLower(s[1]) || IsLower(s[2]) then Err(NonNormalizedPercentEncoding(s[1..3]))
    else if IsUnreservedByte(DecodeHex(s[1]) * 16 + DecodeHex(s[2])) then Err(NonNormalizedPercentEncoding(s[1..3]))
    else Ok(())
  }

  function PcharVerdict(segment: string): Verdict
    decreases |segment|
  {
    if segment == "" then Ok(())
    else if segment[0] == '%' then
      var _ :- EscapeVerdict(segment);
      PcharVerdict(segment[3..])
    else if !IsPchar(segment[0]) then Err(InvalidPathChar(segment[0]))
    else PcharVerdict(segment[1..])
  }

  function SegmentVerdict(scheme: Scheme, segment: string): Verdict {
    if segment == "" then Err(EmptyPathSegment)
    else if segment == "." || segment == ".." then Err(DotSegment)
    else if scheme == Spiffe then SpiffeVerdict(segment)
    else PcharVerdict(segment)
  }

  function SegmentsVerdict(scheme: Scheme, segments: seq<string>): Verdict {
    if segments == [] then Ok(()) else
    var _ :- SegmentVerdict(scheme, segments[0]);
    SegmentsVerdict(scheme, segments[1..])
  }

  function PathVerdict(scheme: Scheme, path: string): Verdict {
    if path == "" then Ok(()) else SegmentsVerdict(scheme, SplitAll(path, '/')[1..])
  }

  method ValidateTrustDomain(scheme: Scheme, td: string) returns (r: Verdict)
    ensures r == TrustDomainVerdict(scheme, td)
  {
    if td == "" {
      return Err(EmptyTrustDomain);
    }
    if scheme == Spiffe && ByteLen(td) > MAX_TRUST_DOMAIN_LEN {
      return Err(TrustDomainTooLong);
    }
    assert td[0..] == td;
    for i := 0 to |td|
      invariant TrustDomainChars(td) == TrustDomainChars(td[i..])
    {
      assert td[i..][1..] == td[i + 1..];
      if !IsTrustDomainChar(td[i]) {
        return Err(InvalidTrustDomainChar(td[i]));
      }
    }
    return Ok(());
  }

  method ValidateSpiffeSegment(segment: string) returns (r: Verdict)
    ensures r == SpiffeVerdict(segment)
  {
    assert segment[0..] == segment;
    for i := 0 to |segment|
      invariant SpiffeVerdict(segment) == SpiffeVerdict(segment[i..])
    {
      assert segment[i..][1..] == segment[i + 1..];
      if !IsSpiffeChar(segment[i]) {
        return Err(InvalidPathChar(segment[i]));
      }
    }
    return Ok(());
  }

  /** Advances by one character, or by the three of an escape. */
  method ValidatePcharSegment(segment: string) returns (r: Verdict)
    ensures r == PcharVerdict(segment)
  {
    var i := 0;
    assert segment[0..] == segment;
    while i < |segment|
      invariant i <= |segment|
      invariant PcharVerdict(segment) == PcharVerdict(segment[i..])
    {
      ghost var here := segment[i..];
      var c := segment[i];
      if c == '%' {
        if i + 3 > |segment| || !IsHex(segment[i + 1]) || !IsHex(segment[i + 2]) {
          return Err(BadPercentEncoding);
        }
        assert here[1..3] == segment[i + 1..i + 3] && here[3..] == segment[i + 3..];
        if IsLower(segment[i + 1]) || IsLower(segment[i + 2]) {
          return Err(NonNormalizedPercentEncoding(segment[i + 1..i + 3]));
        }
        var decoded := DecodeHex(segment[i + 1]) * 16 + DecodeHex(segment[i + 2]);
        if IsUnreservedByte(decoded) {
          return Err(NonNormalizedPercentEncoding(segment[i + 1..i + 3]));
        }
        i := i + 3;
        continue;
      }
      if !IsPchar(c) {
        return Err(InvalidPathChar(c));
      }
      assert here[1..] == segment[i + 1..];
      i := i + 1;
    }
    return Ok(());
  }

  method ValidatePath(scheme: Scheme, path: string) returns (r: Verdict)
    ensures r == PathVerdict(scheme, path)
  {
    if path == "" {
      return Ok(());
    }
    var segments := SplitAll(path, '/')[1..];
    assert segments[0..] == segments;
    hide SpiffeVerdict, PcharVerdict;
    for i := 0 to |segments|
      invariant SegmentsVerdict(scheme, segments) == SegmentsVerdict(scheme, segments[i..])
    {
      var segment := segments[i];
      assert segments[i..][1..] == segments[i + 1..];
      if segment == "" {
        return Err(EmptyPathSegment);
      }
      if segment == "." || segment == ".." {
        return Err(DotSegment);
      }
      if scheme == Spiffe {
        var _ :- ValidateSpiffeSegment(segment);
      } else {
        var _ :- ValidatePcharSegment(segment);
      }
    }
    return Ok(());
  }

  // ---------- Parsing ----------

  /** A validated identifier; the trust domain is ASCII, so its length counts bytes and characters alike. */
  datatype WorkloadIdentifier = WorkloadIdentifier(uri: string, scheme: Scheme, trustDomainLen: nat) {

    predicate Sliceable() {
      |Prefix(scheme)| + trustDomainLen <= |uri|
    }

    function TrustDomain(): string
      requires Sliceable()
    {
      uri[|Prefix(scheme)|..|Prefix(scheme)| + trustDomainLen]
    }

    function Path(): string
      requires Sliceable()
    {
      uri[|Prefix(scheme)| + trustDomainLen..]
    }

    function Origin(): string
      requires Sliceable()
    {
      uri[..|Prefix(scheme)| + trustDomainLen]
    }
  }

  predicate StartsWith(s: string, prefix: string) {
    |prefix| <= |s| && s[..|prefix|] == prefix
  }

  function SchemeOf(input: string): Option<Scheme> {
    if StartsWith(input, Prefix(Spiffe)) then Some(Spiffe)
    else if StartsWith(input, Prefix(Wimse)) then Some(Wimse)
    else None
  }

  /** Where the authority ends: at the first `/`, or with the text. */
  function AuthorityLen(rest: string): (n: nat)
    ensures n <= |rest|
  {
    match IndexOf(rest, '/')
    case Some(i) => i
    case None => |rest|
  }

  function ParseRest(input: string, scheme: Scheme, rest: string): Result<WorkloadIdentifier, ParseError> {
    if '?' in rest then Err(HasQuery)
    else if '#' in rest then Err(HasFragment)
    else
      var n := AuthorityLen(rest);
      var td, path := rest[..n], rest[n..];
      if '@' in td then Err(HasUserInfo)
      else if ':' in td then Err(HasPort)
      else
        var _ :- TrustDomainVerdict(scheme, td);
        var _ :- PathVerdict(scheme, path);
        Ok(WorkloadIdentifier(input, scheme, n))
  }

  function Parse(input: string): Result<WorkloadIdentifier, ParseError> {
    if ByteLen(input) > MAX_ID_LEN then Err(TooLong) else
    match SchemeOf(input)
    case None => Err(UnsupportedScheme)
    case Some(scheme) => ParseRest(input, scheme, input[|Prefix(scheme)|..])
  }
}
