/** The signature parameters on the wire, with their names written out: what each part sets, and what is printed. */
module ParameterText {
  import opened Wrappers
  import opened Text
  import opened Errors
  import opened SfStrings
  import opened Components
  import opened Params
  import opened ParamsRoundTrip
  import opened Selection

  // ---------- Reading ----------

  lemma PartWrittenOut(name: ParamName, v: Value, p: SignatureParams, part: string)
    requires Fits(name, v) && part == NameText(name) + ValueText(v)
    ensures ApplyPart(part, p) == Ok(Set(p, name, v))
  {
    ApplyPartText(name, v, p);
  }

  lemma NumbersAreRead(n: u64, p: SignatureParams)
    ensures ApplyPart("created=" + Decimal(n), p) == Ok(p.(created := Some(n)))
    ensures ApplyPart("expires=" + Decimal(n), p) == Ok(p.(expires := Some(n)))
  {
    hide ApplyPart, Decimal;
    assert "created=" + Decimal(n) == "created" + ("=" + Decimal(n));
    assert "expires=" + Decimal(n) == "expires" + ("=" + Decimal(n));
    PartWrittenOut(Created, Number(n), p, "created=" + Decimal(n));
    PartWrittenOut(Expires, Number(n), p, "expires=" + Decimal(n));
  }

  lemma TextsAreRead(s: string, p: SignatureParams)
    ensures ApplyPart("keyid=" + StringText(s), p) == Ok(p.(keyid := Some(s)))
    ensures ApplyPart("alg=" + StringText(s), p) == Ok(p.(alg := Some(s)))
    ensures ApplyPart("nonce=" + StringText(s), p) == Ok(p.(nonce := Some(s)))
    ensures ApplyPart("tag=" + StringText(s), p) == Ok(p.(tag := Some(s)))
    ensures ApplyPart("wimse-aud=" + StringText(s), p) == Ok(p.(wimseAud := Some(s)))
    ensures ApplyPart("wimse-req-nonce=" + StringText(s), p) == Ok(p.(wimseReqNonce := Some(s)))
  {
    var t := StringText(s);
    hide ApplyPart, StringText;
    assert "keyid=" + t == "keyid" + ("=" + t) && "alg=" + t == "alg" + ("=" + t);
    assert "nonce=" + t == "nonce" + ("=" + t) && "tag=" + t == "tag" + ("=" + t);
    assert "wimse-aud=" + t == "wimse-aud" + ("=" + t);
    assert "wimse-req-nonce=" + t == "wimse-req-nonce" + ("=" + t);
    PartWrittenOut(KeyId, Text(s), p, "keyid=" + t);
    PartWrittenOut(Alg, Text(s), p, "alg=" + t);
    PartWrittenOut(Nonce, Text(s), p, "nonce=" + t);
    PartWrittenOut(Tag, Text(s), p, "tag=" + t);
    PartWrittenOut(WimseAud, Text(s), p, "wimse-aud=" + t);
    PartWrittenOut(WimseReqNonce, Text(s), p, "wimse-req-nonce=" + t);
  }

  /** A Boolean without value is true; `?1` and `?0` are the only values. */
  lemma FlagsAreRead(p: SignatureParams)
    ensures ApplyPart("wimse-sign-response", p) == Ok(p.(wimseSignResponse := Some(true)))
    ensures ApplyPart("wimse-sign-response=?1", p) == Ok(p.(wimseSignResponse := Some(true)))
    ensures ApplyPart("wimse-sign-response=?0", p) == Ok(p.(wimseSignResponse := Some(false)))
  {
    hide ApplyPart;
    assert "wimse-sign-response" + "" == "wimse-sign-response";
    assert "wimse-sign-response" + "=?0" == "wimse-sign-response=?0";
    assert "wimse-sign-response" + "=" + "?1" == "wimse-sign-response=?1";
    PartWrittenOut(WimseSignResponse, Flag(true), p, "wimse-sign-response");
    PartWrittenOut(WimseSignResponse, Flag(false), p, "wimse-sign-response=?0");
    NamedPart(WimseSignResponse, "?1", p);
  }

  /** A part is read by what stands around its first `=`, and white space around either does not matter. */
  lemma PartIsTrimmed(a: string, name: string, b: string, c: string, raw: string, d: string, p: SignatureParams)
    requires AllSpace(a) && AllSpace(b) && AllSpace(c) && AllSpace(d) && '=' !in name && Trimmed(name) && Trimmed(raw)
    ensures ApplyPart(a + name + b + "=" + (c + raw + d), p) ==
            if Named(name).None? then Ok(p) else SetFromText(p, Named(name).value, raw)
  {
    var part := a + name + b + "=" + (c + raw + d);
    var before, after := a + name + b, c + raw + d;
    EqualsIsNoSpace(a);
    EqualsIsNoSpace(b);
    TrimCuts(a, name, b);
    TrimCuts(c, raw, d);
    hide Trim, IsSpace, SetFromText, Named;
    assert part == before + ['='] + after;
    SplitOnceFirst(before, '=', after);
    SplitTrimmed(part);
    var t := Trim(part);
    assert SplitOnce(t, '=').Some?;
    NothingSplits();
  }

  lemma NothingSplits()
    ensures SplitOnce("", '=') == None
  {
  }

  lemma NamedPart(name: ParamName, raw: string, p: SignatureParams)
    requires Trimmed(raw)
    ensures ApplyPart(NameText(name) + "=" + raw, p) == SetFromText(p, name, raw)
  {
    NameIsPlain(name);
    NamesDiffer(name);
    NameTrims(name);
    hide NameText, IsSpace, Named, SetFromText, ApplyPart;
    PartIsTrimmed("", NameText(name), "", "", raw, "", p);
    assert "" + NameText(name) + "" + "=" + ("" + raw + "") == NameText(name) + "=" + raw;
  }

  lemma NameTrims(name: ParamName)
    ensures Trimmed(NameText(name))
  {
    NameIsPlain(name);
    hide NameText, IsSpace;
  }

  const KNOWN_NAMES := {
    "created", "expires", "keyid", "alg", "nonce", "tag", "wimse-aud", "wimse-sign-response", "wimse-req-nonce"}

  lemma UnknownIsUnnamed(name: string)
    ensures name !in KNOWN_NAMES ==> Named(name) == None
  {
  }

  /** Unknown names are passed over. */
  lemma UnknownIsIgnored(name: string, raw: string, p: SignatureParams)
    requires Trimmed(name) && Trimmed(raw) && '=' !in name && name !in KNOWN_NAMES
    ensures ApplyPart(name + "=" + raw, p) == Ok(p)
  {
    hide *;
    UnknownIsUnnamed(name);
    NothingAllSpace();
    PartIsTrimmed("", name, "", "", raw, "", p);
    Unpadded(name, raw);
  }

  lemma NothingAllSpace()
    ensures AllSpace("")
  {
  }

  lemma Unpadded(name: string, raw: string)
    ensures "" + name + "" + "=" + ("" + raw + "") == name + "=" + raw
  {
  }

  /** Names without a value are passed over, but for the Boolean. */
  lemma BareIsIgnored(name: string, p: SignatureParams)
    requires Trimmed(name) && '=' !in name && name != "wimse-sign-response"
    ensures ApplyPart(name, p) == Ok(p)
  {
    TrimIdentity(name);
    IndexOfIsFirst(name, '=');
    hide Trim, IndexOf, IsSpace;
  }

  /** The names as they stand in front of a value. */
  lemma NamesWrittenOut()
    ensures NameText(Created) + "=" == "created=" && NameText(Expires) + "=" == "expires="
    ensures NameText(KeyId) + "=" == "keyid=" && NameText(Alg) + "=" == "alg="
    ensures NameText(Nonce) + "=" == "nonce=" && NameText(Tag) + "=" == "tag="
    ensures NameText(WimseAud) + "=" == "wimse-aud=" && NameText(WimseReqNonce) + "=" == "wimse-req-nonce="
    ensures NameText(WimseSignResponse) + "=" == "wimse-sign-response="
  {
  }

  /** Times have to be numbers and the Boolean `?1` or `?0`; anything else fails the whole member. */
  lemma BadNumbersFail(raw: string, p: SignatureParams)
    requires Trimmed(raw)
    ensures ParseU64(raw).None? ==> ApplyPart("created=" + raw, p) == Err(Parse(NotAnInteger(raw)))
    ensures ParseU64(raw).None? ==> ApplyPart("expires=" + raw, p) == Err(Parse(NotAnInteger(raw)))
    ensures raw != "?1" && raw != "?0" ==> ApplyPart("wimse-sign-response=" + raw, p) == Err(Parse(NotABoolean(raw)))
  {
    hide *;
    NamesWrittenOut();
    TakeNumber();
    BadNumber(Created, raw, p);
    BadNumber(Expires, raw, p);
    BadFlag(raw, p);
  }

  lemma BadNumber(name: ParamName, raw: string, p: SignatureParams)
    requires Trimmed(raw) && Fits(name, Number(0))
    ensures ParseU64(raw).None? ==> ApplyPart(NameText(name) + "=" + raw, p) == Err(Parse(NotAnInteger(raw)))
  {
    TrimIdentity(raw);
    hide ApplyPart, IsSpace, NameText, ParseU64, Trim;
    NamedPart(name, raw, p);
  }

  lemma BadFlag(raw: string, p: SignatureParams)
    requires Trimmed(raw)
    ensures raw != "?1" && raw != "?0" ==>
              ApplyPart(NameText(WimseSignResponse) + "=" + raw, p) == Err(Parse(NotABoolean(raw)))
  {
    hide ApplyPart, IsSpace, NameText;
    NamedPart(WimseSignResponse, raw, p);
  }

  /** Every other value has to be a string. */
  lemma BadStringsFail(raw: string, p: SignatureParams)
    requires Trimmed(raw) && !InQuotes(raw)
    ensures ApplyPart("keyid=" + raw, p) == ApplyPart("alg=" + raw, p) == Err(Parse(NotAString(raw)))
    ensures ApplyPart("nonce=" + raw, p) == ApplyPart("tag=" + raw, p) == Err(Parse(NotAString(raw)))
    ensures ApplyPart("wimse-aud=" + raw, p) == ApplyPart("wimse-req-nonce=" + raw, p) == Err(Parse(NotAString(raw)))
  {
    hide *;
    NamesWrittenOut();
    TakeText();
    BadString(KeyId, raw, p);
    BadString(Alg, raw, p);
    BadString(Nonce, raw, p);
    BadString(Tag, raw, p);
    BadString(WimseAud, raw, p);
    BadString(WimseReqNonce, raw, p);
  }

  lemma TakeNumber()
    ensures Fits(Created, Number(0)) && Fits(Expires, Number(0))
  {
  }

  lemma TakeText()
    ensures forall name :: name !in {Created, Expires, WimseSignResponse} ==> Fits(name, Text(""))
  {
  }

  lemma BadString(name: ParamName, raw: string, p: SignatureParams)
    requires Trimmed(raw) && !InQuotes(raw) && Fits(name, Text(""))
    ensures ApplyPart(NameText(name) + "=" + raw, p) == Err(Parse(NotAString(raw)))
  {
    hide ApplyPart, IsSpace, NameText;
    NamedPart(name, raw, p);
  }

  // ---------- Printing ----------

  function Numbered(start: string, n: Option<u64>): string {
    if n.Some? then start + Decimal(n.value) else ""
  }

  function Stringed(start: string, s: Option<string>): string {
    if s.Some? then start + StringText(s.value) else ""
  }

  function Flagged(start: string, b: Option<bool>): string {
    if b.None? then "" else if b.value then start else start + "=?0"
  }

  /** The printed parameters, each present one behind the other. */
  function WrittenOut(p: SignatureParams): string {
    Numbered(";created=", p.created) + Numbered(";expires=", p.expires)
    + Stringed(";keyid=", p.keyid) + Stringed(";alg=", p.alg)
    + Stringed(";nonce=", p.nonce) + Stringed(";tag=", p.tag)
    + Stringed(";wimse-aud=", p.wimseAud) + Flagged(";wimse-sign-response", p.wimseSignResponse)
    + Stringed(";wimse-req-nonce=", p.wimseReqNonce)
  }

  /** The text of the `k`-th parameter, if it is present. */
  function PartAt(p: SignatureParams, k: nat): string
    requires k < 9
  {
    var v := Get(p, NameAt(k));
    if v.Some? then ";" + PartText(NameAt(k), v.value) else ""
  }

  lemma PartsFrom(before: string, p: SignatureParams, k: nat)
    requires k < 9
    ensures before + PartsText(Parts(p, k)) == before + PartAt(p, k) + PartsText(Parts(p, k + 1))
  {
    PartsStep(before, p, k);
    hide PartsText, Parts, Get, NameAt, PartText;
    assert before + "" == before;
  }

  lemma NumberAt(p: SignatureParams)
    ensures PartAt(p, 0) == Numbered(";created=", p.created) && PartAt(p, 1) == Numbered(";expires=", p.expires)
  {
    hide Decimal;
    if p.created.Some? {
      var d := Decimal(p.created.value);
      assert ";" + ("created" + ("=" + d)) == ";created=" + d;
    }
    if p.expires.Some? {
      var d := Decimal(p.expires.value);
      assert ";" + ("expires" + ("=" + d)) == ";expires=" + d;
    }
  }

  lemma TextAt(p: SignatureParams, k: nat, start: string)
    requires 2 <= k < 9 && k != 7 && start == ";" + NameText(NameAt(k)) + "="
    ensures PartAt(p, k) == Stringed(start, Stored(p, k))
  {
    var o := Stored(p, k);
    hide StringText, NameText, NameAt, Get;
    assert Get(p, NameAt(k)) == OfText(o) by { StoredIsGot(p, k); }
    if o.Some? {
      var t, n := StringText(o.value), NameText(NameAt(k));
      assert ";" + (n + ("=" + t)) == ";" + n + "=" + t;
    }
  }

  /** The text parameters by their place in the order. */
  function Stored(p: SignatureParams, k: nat): Option<string> {
    if k == 2 then p.keyid else if k == 3 then p.alg else if k == 4 then p.nonce else if k == 5 then p.tag
    else if k == 6 then p.wimseAud else p.wimseReqNonce
  }

  lemma StoredIsGot(p: SignatureParams, k: nat)
    requires 2 <= k < 9 && k != 7
    ensures Get(p, NameAt(k)) == OfText(Stored(p, k))
  {
  }

  lemma StartsWrittenOut()
    ensures ";" + NameText(NameAt(2)) + "=" == ";keyid=" && ";" + NameText(NameAt(3)) + "=" == ";alg="
    ensures ";" + NameText(NameAt(4)) + "=" == ";nonce="
  {
  }

  lemma MoreStartsWrittenOut()
    ensures ";" + NameText(NameAt(5)) + "=" == ";tag=" && ";" + NameText(NameAt(6)) + "=" == ";wimse-aud="
    ensures ";" + NameText(NameAt(8)) + "=" == ";wimse-req-nonce="
  {
  }

  lemma FlagAt(p: SignatureParams)
    ensures PartAt(p, 7) == Flagged(";wimse-sign-response", p.wimseSignResponse)
  {
    var o := p.wimseSignResponse;
    assert Get(p, NameAt(7)) == OfFlag(o) && NameAt(7) == WimseSignResponse;
    hide Get, NameAt;
    if o.Some? {
      FlagText(o.value);
    }
  }

  lemma FlagText(b: bool)
    ensures ";" + PartText(WimseSignResponse, Flag(b))
         == if b then ";wimse-sign-response" else ";wimse-sign-response" + "=?0"
  {
    assert ";" + ("wimse-sign-response" + "") == ";wimse-sign-response";
    assert ";" + ("wimse-sign-response" + "=?0") == ";wimse-sign-response" + "=?0";
  }

  lemma PartsWrittenOut(p: SignatureParams)
    ensures PartsText(Parts(p, 0)) == WrittenOut(p)
  {
    NumberAt(p);
    StartsWrittenOut();
    MoreStartsWrittenOut();
    TextAt(p, 2, ";keyid=");
    TextAt(p, 3, ";alg=");
    TextAt(p, 4, ";nonce=");
    TextAt(p, 5, ";tag=");
    TextAt(p, 6, ";wimse-aud=");
    FlagAt(p);
    TextAt(p, 8, ";wimse-req-nonce=");
    hide PartAt, Parts, PartsText, Numbered, Stringed, Flagged, NameText, NameAt, Stored;
    var s := "";
    EmptyFirst(PartsText(Parts(p, 0)));
    for k := 0 to 9
      invariant s + PartsText(Parts(p, k)) == PartsText(Parts(p, 0))
      invariant s == FirstParts(p, k)
    {
      PartsFrom(s, p, k);
      s := s + PartAt(p, k);
    }
    NoPartsLeft(s, p);
    NinePartsWrittenOut(p);
  }

  /** The first `k` parameters. */
  function FirstParts(p: SignatureParams, k: nat): string
    requires k <= 9
  {
    if k == 0 then "" else FirstParts(p, k - 1) + PartAt(p, k - 1)
  }

  lemma NinePartsWrittenOut(p: SignatureParams)
    ensures FirstParts(p, 9) ==
            PartAt(p, 0) + PartAt(p, 1) + PartAt(p, 2) + PartAt(p, 3) + PartAt(p, 4) + PartAt(p, 5)
            + PartAt(p, 6) + PartAt(p, 7) + PartAt(p, 8)
  {
    hide PartAt;
    assert FirstParts(p, 0) == "";
    EmptyFirst(PartAt(p, 0));
    assert FirstParts(p, 2) == FirstParts(p, 1) + PartAt(p, 1) == PartAt(p, 0) + PartAt(p, 1);
    assert FirstParts(p, 4) == FirstParts(p, 2) + PartAt(p, 2) + PartAt(p, 3);
    assert FirstParts(p, 6) == FirstParts(p, 4) + PartAt(p, 4) + PartAt(p, 5);
    assert FirstParts(p, 8) == FirstParts(p, 6) + PartAt(p, 6) + PartAt(p, 7);
  }

  /** A printed member, written out. */
  lemma ParamsWrittenOut(components: seq<Component>, p: SignatureParams)
    ensures ParamsText(components, p) == "(" + Join(Ids(components), " ") + ")" + WrittenOut(p)
  {
    PartsWrittenOut(p);
  }
}
