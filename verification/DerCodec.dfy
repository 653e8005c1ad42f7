/**
 ECDSA signatures in two forms: the 64 octets of JOSE (RFC 7518 section 3.4)
 and the DER sequence of two INTEGERs that X.509 carries (RFC 3279 section
 2.2.3, X.690 section 8.3).
 */
module DerCodec {
  import opened Wrappers
  import opened Text
  import opened Bytes

  datatype DerError = InvalidSignature

  type Decoded<T> = Result<T, DerError>

  const HALF := 32

  type Fixed = s: seq<byte> | |s| == 2 * HALF witness seq(2 * HALF, i => 0)

  // ---------- Encoding ----------

  /** The octets without leading zeros, but at least one octet. */
  function Significant(value: seq<byte>): (r: seq<byte>)
    requires value != []
    ensures r != [] && |r| <= |value|
    decreases |value|
  {
    if value[0] != 0 || |value| == 1 then value else Significant(value[1..])
  }

  /** The content octets of the INTEGER for an unsigned big-endian value. */
  function Content(value: seq<byte>): (r: seq<byte>)
    requires value != []
    ensures 0 < |r| <= |value| + 1
  {
    var tail := Significant(value);
    if tail[0] < 128 then tail else [0] + tail
  }

  /** Tag, length and content. */
  function Tlv(tag: byte, content: seq<byte>): seq<byte>
    requires |content| < 128
  {
    [tag, |content| as byte] + content
  }

  const INTEGER: byte := 0x02
  const SEQUENCE: byte := 0x30

  function Body(raw: Fixed): (r: seq<byte>)
    ensures 6 <= |r| <= 70
  {
    Tlv(INTEGER, Content(raw[..HALF])) + Tlv(INTEGER, Content(raw[HALF..]))
  }

  function DerOf(raw: Fixed): (r: seq<byte>)
    ensures 8 <= |r| <= 72
  {
    Tlv(SEQUENCE, Body(raw))
  }

  /** The nested `integer` of the encoder. */
  method EncodeInteger(value: seq<byte>) returns (out: seq<byte>)
    requires 0 < |value| <= HALF
    ensures out == Tlv(INTEGER, Content(value))
  {
    var start := 0;
    assert value[0..] == value;
    while start < |value| - 1 && value[start] == 0
      invariant start < |value|
      invariant Significant(value[start..]) == Significant(value)
    {
      assert value[start..][1..] == value[start + 1..];
      start := start + 1;
    }
    var tail := value[start..];
    assert tail == Significant(value);
    out := [INTEGER];
    if tail[0] < 0x80 {
      out := out + [|tail| as byte];
    } else {
      out := out + [(|tail| + 1) as byte];
      out := out + [0x00];
    }
    out := out + tail;
  }

  method EcdsaSignatureToDer(raw: Fixed) returns (der: seq<byte>)
    ensures der == DerOf(raw)
  {
    var r := EncodeInteger(raw[..HALF]);
    var s := EncodeInteger(raw[HALF..]);
    var body := r + s;
    der := [SEQUENCE, |body| as byte];
    der := der + body;
  }

  // ---------- Decoding ----------

  /** The magnitude in the content of an INTEGER; a superfluous leading zero is refused. */
  function Magnitude(content: seq<byte>): (r: Decoded<seq<byte>>)
    ensures r.Ok? ==> 0 < |r.value| <= HALF
  {
    var value :-
      if |content| >= 2 && content[0] == 0 then
        if content[1] >= 128 then Ok(content[1..]) else Err(InvalidSignature)
      else Ok(content);
    if |value| > HALF || value == [] then Err(InvalidSignature) else Ok(value)
  }

  /** The content of the INTEGER at the start of `input`, and what follows it. */
  function ReadTlv(input: seq<byte>): Decoded<(seq<byte>, seq<byte>)> {
    if |input| < 2 || input[0] != INTEGER || input[1] as int > |input| - 2 then Err(InvalidSignature)
    else Ok((input[2..2 + input[1] as int], input[2 + input[1] as int..]))
  }

  /** The two INTEGER contents of a signature. */
  function ContentsOf(der: seq<byte>): Decoded<(seq<byte>, seq<byte>)> {
    if |der| < 2 || der[0] != SEQUENCE || |der| - 2 != der[1] as int then Err(InvalidSignature) else
    var first :- ReadTlv(der[2..]);
    var second :- ReadTlv(first.1);
    if second.1 != [] then Err(InvalidSignature) else Ok((first.0, second.0))
  }

  function Zeros(n: nat): (r: seq<byte>)
    ensures |r| == n && forall i :: 0 <= i < n ==> r[i] == 0
  {
    seq(n, i => 0)
  }

  /** A magnitude at the right end of its half. */
  function Padded(value: seq<byte>): (r: seq<byte>)
    requires |value| <= HALF
    ensures |r| == HALF
  {
    Zeros(HALF - |value|) + value
  }

  /** The fixed-width signature in a DER sequence. */
  function RawOf(der: seq<byte>): Decoded<Fixed> {
    var contents :- ContentsOf(der);
    var r :- Magnitude(contents.0);
    var s :- Magnitude(contents.1);
    Ok(Padded(r) + Padded(s))
  }

  /** The input slice that the nested `integer` of the decoder advances. */
  class Cursor {
    var rest: seq<byte>

    constructor (rest: seq<byte>)
      ensures this.rest == rest
    {
      this.rest := rest;
    }

    /** Reads one INTEGER and moves behind it; the move stands even when the content is refused. */
    method Integer() returns (r: Decoded<seq<byte>>)
      modifies this
      ensures ReadTlv(old(rest)).Err? ==> r == Err(InvalidSignature) && rest == old(rest)
      ensures ReadTlv(old(rest)).Ok? ==>
                r == Magnitude(ReadTlv(old(rest)).value.0) && rest == ReadTlv(old(rest)).value.1
    {
      if |rest| < 2 || rest[0] != INTEGER {
        return Err(InvalidSignature);
      }
      var len := rest[1] as int;
      var tail := rest[2..];
      if len > |tail| {
        return Err(InvalidSignature);
      }
      assert tail[..len] == rest[2..2 + len] && tail[len..] == rest[2 + len..];
      var value := tail[..len];
      rest := tail[len..];
      if value == [0] {
      } else if |value| >= 2 && value[0] == 0 && value[1] >= 128 {
        value := value[1..];
      } else if value != [] && value[0] == 0 {
        return Err(InvalidSignature);
      }
      if |value| > HALF || value == [] {
        return Err(InvalidSignature);
      }
      return Ok(value);
    }
  }

  method EcdsaSignatureFromDer(der: seq<byte>) returns (r: Decoded<array<byte>>)
    ensures r.Ok? <==> RawOf(der).Ok?
    ensures r.Ok? ==> fresh(r.value) && r.value[..] == RawOf(der).value
    ensures r.Err? ==> r == Err(InvalidSignature)
  {
    if |der| < 2 || der[0] != SEQUENCE || |der| - 2 != der[1] as int {
      return Err(InvalidSignature);
    }
    var body := new Cursor(der[2..]);
    var rv :- ReadBoth(body, der);
    hide RawOf;
    hide Padded, Zeros;
    var raw := new byte[2 * HALF](i => 0);
    var (a, b) := rv;
    ghost var blank := raw[..];
    CopyInto(raw, HALF - |a|, a);
    ghost var half := raw[..];
    CopyInto(raw, 2 * HALF - |b|, b);
    TwoHalves(a, b, blank, half);
    return Ok(raw);
  }

  /** Copying both magnitudes to the ends of their halves pads them with the zeros that were there. */
  lemma TwoHalves(a: seq<byte>, b: seq<byte>, blank: seq<byte>, half: seq<byte>)
    requires |a| <= HALF && |b| <= HALF && |blank| == 2 * HALF && forall i :: 0 <= i < 2 * HALF ==> blank[i] == 0
    requires half == blank[..HALF - |a|] + a + blank[HALF..]
    ensures |half| == 2 * HALF
    ensures half[..2 * HALF - |b|] + b + half[2 * HALF..] == Padded(a) + Padded(b)
  {
  }

  /** The two reads of the decoder, and the test that nothing is left. */
  method ReadBoth(body: Cursor, ghost der: seq<byte>) returns (r: Decoded<(seq<byte>, seq<byte>)>)
    requires |der| >= 2 && der[0] == SEQUENCE && |der| - 2 == der[1] as int && body.rest == der[2..]
    modifies body
    ensures r.Ok? <==> RawOf(der).Ok?
    ensures r.Ok? ==> |r.value.0| <= HALF && |r.value.1| <= HALF
                      && RawOf(der).value == Padded(r.value.0) + Padded(r.value.1)
    ensures r.Err? ==> r == Err(InvalidSignature)
  {
    var a :- body.Integer();
    var b :- body.Integer();
    if body.rest != [] {
      return Err(InvalidSignature);
    }
    return Ok((a, b));
  }

  /** `copy_from_slice` into the octets from `at` on. */
  method CopyInto(raw: array<byte>, at: nat, value: seq<byte>)
    requires at + |value| <= raw.Length
    modifies raw
    ensures raw[..] == old(raw[..])[..at] + value + old(raw[..])[at + |value|..]
  {
    for i := 0 to |value|
      invariant raw[..at] == old(raw[..at])
      invariant forall j :: 0 <= j < i ==> raw[at + j] == value[j]
      invariant raw[at + |value|..] == old(raw[at + |value|..])
    {
      raw[at + i] := value[i];
    }
    assert raw[..] == raw[..at] + raw[at..at + |value|] + raw[at + |value|..];
  }

  // ---------- Round trips ----------

  lemma {:induction false} SignificantSplits(value: seq<byte>)
    requires value != []
    ensures value == Zeros(|value| - |Significant(value)|) + Significant(value)
    ensures Significant(value)[0] == 0 ==> Significant(value) == [0]
    decreases |value|
  {
    if value[0] == 0 && |value| > 1 {
      var rest := value[1..];
      SignificantSplits(rest);
      var n := |rest| - |Significant(rest)|;
      OneMoreZero(n, Significant(rest));
      HeadTail(value);
    } else {
      assert Zeros(0) == [];
      EmptyFirst(value);
      assert value[0] == 0 ==> value == [0];
    }
  }

  lemma OneMoreZero(n: nat, tail: seq<byte>)
    ensures Zeros(n + 1) + tail == [0] + (Zeros(n) + tail)
  {
  }

  lemma {:induction false} SignificantOfPadded(n: nat, value: seq<byte>)
    requires value != []
    ensures Significant(Zeros(n) + value) == Significant(value)
    decreases n
  {
    if n == 0 {
      assert Zeros(0) + value == value;
    } else {
      assert (Zeros(n) + value)[1..] == Zeros(n - 1) + value;
      SignificantOfPadded(n - 1, value);
    }
  }

  /** The decoder finds the significant octets in the encoder's content, and pads them back. */
  lemma MagnitudeOfContent(value: seq<byte>)
    requires |value| == HALF
    ensures Magnitude(Content(value)) == Ok(Significant(value)) && Padded(Significant(value)) == value
  {
    SignificantSplits(value);
    var tail := Significant(value);
    TailOfCons(0 as byte, tail);
  }

  /** The encoder gives a content back from its magnitude exactly when the content is not negative. */
  lemma ContentOfMagnitude(content: seq<byte>)
    requires Magnitude(content).Ok?
    ensures var back := Content(Padded(Magnitude(content).value));
            && content != []
            && (content[0] < 128 ==> back == content)
            && (content[0] >= 128 ==> |back| == |content| + 1)
            && |content| <= HALF + 1
  {
    var value := Magnitude(content).value;
    SignificantOfPadded(HALF - |value|, value);
    if |content| >= 2 && content[0] == 0 {
      HeadTail(content);
    }
  }

  lemma ReadBack(content: seq<byte>, rest: seq<byte>)
    requires |content| < 128
    ensures ReadTlv(Tlv(INTEGER, content) + rest) == Ok((content, rest))
  {
  }

  lemma ContentsReadBack(c: seq<byte>, d: seq<byte>)
    requires |c| + |d| <= 66
    ensures ContentsOf(Tlv(SEQUENCE, Tlv(INTEGER, c) + Tlv(INTEGER, d))) == Ok((c, d))
  {
    var first, second := Tlv(INTEGER, c), Tlv(INTEGER, d);
    var der := Tlv(SEQUENCE, first + second);
    assert der[2..] == first + second;
    ReadBack(c, second);
    ReadBack(d, []);
    assert second + [] == second;
  }

  /** Decoding undoes encoding, for every 64-octet signature. */
  lemma DecodeOfEncode(raw: Fixed)
    ensures RawOf(DerOf(raw)) == Ok(raw)
  {
    var r, s := raw[..HALF], raw[HALF..];
    ContentsReadBack(Content(r), Content(s));
    MagnitudeOfContent(r);
    MagnitudeOfContent(s);
    assert r + s == raw;
  }

  lemma TlvOfRead(input: seq<byte>)
    requires ReadTlv(input).Ok? && |ReadTlv(input).value.0| < 128
    ensures input == Tlv(INTEGER, ReadTlv(input).value.0) + ReadTlv(input).value.1
  {
  }

  /** An accepted input is the sequence of its two contents, with a body of at most 70 octets. */
  lemma AcceptedShape(der: seq<byte>)
    requires RawOf(der).Ok?
    ensures ContentsOf(der).Ok?
    ensures var (c, d) := ContentsOf(der).value;
            && 0 < |c| <= HALF + 1 && 0 < |d| <= HALF + 1
            && der == Tlv(SEQUENCE, Tlv(INTEGER, c) + Tlv(INTEGER, d))
            && 8 <= |der| <= 72
  {
    var (c, d) := ContentsOf(der).value;
    ContentOfMagnitude(c);
    ContentOfMagnitude(d);
    hide Magnitude, RawOf, Content, Padded, ContentsOf;
    ContentsMakeUp(der);
  }

  lemma ContentsMakeUp(der: seq<byte>)
    requires ContentsOf(der).Ok?
    requires |ContentsOf(der).value.0| < 128 && |ContentsOf(der).value.1| < 128
    ensures var (c, d) := ContentsOf(der).value;
            && |Tlv(INTEGER, c) + Tlv(INTEGER, d)| == der[1] as int == |der| - 2
            && der == [SEQUENCE, der[1]] + (Tlv(INTEGER, c) + Tlv(INTEGER, d))
  {
    var body := der[2..];
    TlvOfRead(body);
    var rest := ReadTlv(body).value.1;
    TlvOfRead(rest);
    hide ReadTlv, Tlv;
    var (c, d) := ContentsOf(der).value;
    assert Tlv(INTEGER, d) + [] == Tlv(INTEGER, d);
    assert der == [der[0], der[1]] + body;
  }

  /**
   Encoding undoes decoding exactly when both INTEGERs are non-negative, which
   the decoder does not ask for; and re-encoding any accepted input decodes to
   the same signature.
   */
  lemma EncodeOfDecode(der: seq<byte>)
    requires RawOf(der).Ok?
    ensures ContentsOf(der).Ok?
    ensures ContentsOf(der).value.0 != [] && ContentsOf(der).value.1 != []
    ensures DerOf(RawOf(der).value) == der <==>
            ContentsOf(der).value.0[0] < 128 && ContentsOf(der).value.1[0] < 128
    ensures RawOf(DerOf(RawOf(der).value)) == RawOf(der)
  {
    AcceptedShape(der);
    DecodeOfEncode(RawOf(der).value);
    var (c, d) := ContentsOf(der).value;
    var r, s := Magnitude(c).value, Magnitude(d).value;
    ContentOfMagnitude(c);
    ContentOfMagnitude(d);
    var raw := RawOf(der).value;
    assert raw[..HALF] == Padded(r) && raw[HALF..] == Padded(s);
    hide RawOf, ContentsOf, Magnitude, Content, Padded;
    assert DerOf(raw) == Tlv(SEQUENCE, Tlv(INTEGER, Content(Padded(r))) + Tlv(INTEGER, Content(Padded(s))));
  }

  lemma OneOctet(b: byte)
    requires b != 0
    ensures Magnitude([b]) == Ok([b])
    ensures Content(Padded([b])) == if b < 128 then [b] else [0, b]
  {
    SignificantOfPadded(HALF - 1, [b]);
  }

  /** A negative INTEGER is accepted, and re-encoding makes it a positive one: another sequence for the same octets. */
  lemma NegativeIsNotKept()
    ensures var der := Tlv(SEQUENCE, Tlv(INTEGER, [0x80]) + Tlv(INTEGER, [0x01]));
            && RawOf(der).Ok?
            && DerOf(RawOf(der).value) == Tlv(SEQUENCE, Tlv(INTEGER, [0x00, 0x80]) + Tlv(INTEGER, [0x01])) != der
  {
    var r, s: seq<byte> := [0x80], [0x01];
    ContentsReadBack(r, s);
    OneOctet(0x80);
    OneOctet(0x01);
    var der := Tlv(SEQUENCE, Tlv(INTEGER, r) + Tlv(INTEGER, s));
    hide ContentsOf, Magnitude, Content, Padded;
    var raw := RawOf(der).value;
    assert raw[..HALF] == Padded(r) && raw[HALF..] == Padded(s);
    assert der[1] == 6;
  }

  // ---------- Numbers ----------

  function Power(n: nat): nat {
    if n == 0 then 1 else 256 * Power(n - 1)
  }

  /** Octets as an unsigned big-endian number. */
  function Unsigned(v: seq<byte>): nat {
    if v == [] then 0 else Unsigned(v[..|v| - 1]) * 256 + v[|v| - 1] as nat
  }

  /** Octets as a two's-complement number (X.690 section 8.3.3). */
  function Signed(v: seq<byte>): int
    requires v != []
  {
    if v[0] >= 128 then Unsigned(v) - Power(|v|) else Unsigned(v)
  }

  /** The first nine bits are neither all zero nor all one (X.690 section 8.3.2). */
  predicate Minimal(v: seq<byte>) {
    |v| >= 2 ==> !(v[0] == 0 && v[1] < 128) && !(v[0] == 255 && v[1] >= 128)
  }

  lemma {:induction false} LeadingZeros(n: nat, v: seq<byte>)
    ensures Unsigned(Zeros(n) + v) == Unsigned(v)
    decreases n + |v|
  {
    var all := Zeros(n) + v;
    if v != [] {
      assert all[..|all| - 1] == Zeros(n) + v[..|v| - 1];
      LeadingZeros(n, v[..|v| - 1]);
    } else if n > 0 {
      assert all[..n - 1] == Zeros(n - 1) + [];
      LeadingZeros(n - 1, []);
    } else {
      assert all == [];
    }
  }

  /** Every INTEGER that is emitted is minimal, and as a signed number is its half as an unsigned one. */
  lemma IntegerIsExact(value: seq<byte>)
    requires |value| == HALF
    ensures Signed(Content(value)) == Unsigned(value) && Minimal(Content(value))
  {
    SignificantSplits(value);
    var tail := Significant(value);
    LeadingZeros(HALF - |tail|, tail);
    LeadingZeros(1, tail);
    assert Zeros(1) == [0];
  }

  /** The encoded signature, octet by octet: a SEQUENCE of two INTEGERs, each minimal and of the value of its half. */
  lemma DerWrittenOut(raw: Fixed)
    ensures var r, s := Content(raw[..32]), Content(raw[32..]);
            && 0 < |r| <= 33 && 0 < |s| <= 33
            && DerOf(raw) == [0x30, (4 + |r| + |s|) as byte] + ([0x02, |r| as byte] + r + ([0x02, |s| as byte] + s))
            && Minimal(r) && Signed(r) == Unsigned(raw[..32])
            && Minimal(s) && Signed(s) == Unsigned(raw[32..])
  {
    IntegerIsExact(raw[..32]);
    IntegerIsExact(raw[32..]);
    hide Content, Minimal, Signed;
  }

  /** Any other tags, lengths or trailing octets are refused. */
  lemma OtherFramesAreRefused(der: seq<byte>)
    ensures RawOf(der).Ok? ==>
              |der| >= 8 && der[0] == 0x30 && der[1] as int == |der| - 2 && der[2] == 0x02
              && 4 + der[3] as int < |der| && der[4 + der[3] as int] == 0x02
              && |der| == 6 + der[3] as int + der[5 + der[3] as int] as int
  {
    if RawOf(der).Ok? {
      AcceptedShape(der);
      var (c, d) := ContentsOf(der).value;
      hide RawOf, ContentsOf;
      assert der == [0x30, der[1], 0x02, |c| as byte] + c + [0x02, |d| as byte] + d;
    }
  }

  lemma {:induction false} PowersGrow(m: nat, n: nat)
    requires m <= n
    ensures 0 < Power(m) <= Power(n)
    decreases n
  {
    if n == 0 {
    } else if m < n {
      PowersGrow(m, n - 1);
    } else {
      PowersGrow(m - 1, n - 1);
    }
  }

  /** The size of a number fixes how many octets it takes without leading zeros. */
  lemma {:induction false} UnsignedBounds(v: seq<byte>)
    ensures Unsigned(v) < Power(|v|)
    ensures v != [] && v[0] != 0 ==> Power(|v| - 1) <= Unsigned(v)
    decreases |v|
  {
    if v == [] {
    } else {
      UnsignedBounds(v[..|v| - 1]);
    }
  }

  /** The octets decoded from an INTEGER are its value as a signed number exactly when that is not negative. */
  lemma MagnitudeIsExact(content: seq<byte>)
    requires Magnitude(content).Ok?
    ensures content != []
    ensures Unsigned(Padded(Magnitude(content).value)) == Signed(content) <==> content[0] < 128
  {
    var value := Magnitude(content).value;
    LeadingZeros(HALF - |value|, value);
    PowersGrow(0, |content|);
    if |content| >= 2 && content[0] == 0 {
      LeadingZeros(1, value);
      assert Zeros(1) + value == content;
    }
  }

  /** Both halves of a decoded signature are the encoded numbers exactly when neither of those is negative. */
  lemma DecodedIsExact(der: seq<byte>)
    requires RawOf(der).Ok?
    ensures ContentsOf(der).Ok?
    ensures var (r, s) := ContentsOf(der).value;
            var raw := RawOf(der).value;
            && r != [] && s != []
            && (Unsigned(raw[..HALF]) == Signed(r) <==> Signed(r) >= 0)
            && (Unsigned(raw[HALF..]) == Signed(s) <==> Signed(s) >= 0)
  {
    var (r, s) := ContentsOf(der).value;
    MagnitudeIsExact(r);
    MagnitudeIsExact(s);
    UnsignedBounds(r);
    UnsignedBounds(s);
    var raw := RawOf(der).value;
    assert raw[..HALF] == Padded(Magnitude(r).value) && raw[HALF..] == Padded(Magnitude(s).value);
  }

  lemma {:induction false} SameLengthSameOctets(a: seq<byte>, b: seq<byte>)
    requires |a| == |b| && Unsigned(a) == Unsigned(b)
    ensures a == b
    decreases |a|
  {
    if a == [] {
    } else {
      var n := |a| - 1;
      SameLengthSameOctets(a[..n], b[..n]);
      assert a == a[..n] + [a[n]] && b == b[..n] + [b[n]];
    }
  }

  lemma NotLonger(a: seq<byte>, b: seq<byte>)
    requires a != [] && b != [] && b[0] != 0 && Unsigned(a) == Unsigned(b)
    ensures |b| <= |a|
  {
    UnsignedBounds(a);
    UnsignedBounds(b);
    if |a| < |b| {
      PowersGrow(|a|, |b| - 1);
    }
  }

  /** The octets behind a sign octet. */
  function Bare(c: seq<byte>): seq<byte>
    requires c != []
  {
    if |c| > 1 && c[0] == 0 then c[1..] else c
  }

  lemma BareIsSameNumber(c: seq<byte>)
    requires c != [] && Minimal(c)
    ensures Unsigned(Bare(c)) == Unsigned(c) && Bare(c) != []
    ensures Bare(c)[0] == 0 ==> Bare(c) == [0] && Unsigned(c) == 0
  {
    if |c| > 1 && c[0] == 0 {
      LeadingZeros(1, c[1..]);
      assert Zeros(1) + c[1..] == c;
    } else if c[0] == 0 {
      assert c == [0];
    }
  }

  /** A non-negative number has one minimal encoding only; so the emitted INTEGERs are the DER ones. */
  lemma MinimalIsUnique(c: seq<byte>, d: seq<byte>)
    requires c != [] && d != [] && Minimal(c) && Minimal(d)
    requires Signed(c) == Signed(d) >= 0
    ensures c == d
  {
    UnsignedBounds(c);
    UnsignedBounds(d);
    assert c[0] < 128 && d[0] < 128;
    BareIsSameNumber(c);
    BareIsSameNumber(d);
    var a, b := Bare(c), Bare(d);
    if Unsigned(c) == 0 {
      UnsignedBounds(a);
      UnsignedBounds(b);
      PowersGrow(0, |a| - 1);
      PowersGrow(0, |b| - 1);
    } else {
      NotLonger(a, b);
      NotLonger(b, a);
      SameLengthSameOctets(a, b);
    }
    assert a == b;
    assert |c| > |a| ==> c == [0] + a && a[0] >= 128;
    assert |d| > |b| ==> d == [0] + b && b[0] >= 128;
  }
}
