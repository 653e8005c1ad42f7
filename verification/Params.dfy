/**
 Signature parameters (RFC 9421 section 2.3, with those of the WIMSE profile):
 how they are printed behind the covered components, and how they are read.
 */
module Params {
  import opened Wrappers
  import opened Text
  import opened Errors
  import opened Scanner
  import opened SfStrings
  import opened Components

  datatype SignatureParams = SignatureParams(
    created: Option<u64>,
    expires: Option<u64>,
    keyid: Option<string>,
    alg: Option<string>,
    nonce: Option<string>,
    tag: Option<string>,
    wimseAud: Option<string>,
    wimseSignResponse: Option<bool>,
    wimseReqNonce: Option<string>)

  const NO_PARAMS := SignatureParams(None, None, None, None, None, None, None, None, None)

  // ---------- Parameters by name ----------

  datatype Value = Number(n: u64) | Text(s: string) | Flag(b: bool)

  predicate Fits(name: ParamName, v: Value) {
    match name
    case Created => v.Number?
    case Expires => v.Number?
    case WimseSignResponse => v.Flag?
    case _ => v.Text?
  }

  function OfNumber(o: Option<u64>): Option<Value> { if o.Some? then Some(Number(o.value)) else None }
  function OfText(o: Option<string>): Option<Value> { if o.Some? then Some(Text(o.value)) else None }
  function OfFlag(o: Option<bool>): Option<Value> { if o.Some? then Some(Flag(o.value)) else None }

  function Get(p: SignatureParams, name: ParamName): (v: Option<Value>)
    ensures v.Some? ==> Fits(name, v.value)
  {
    match name
    case Created => OfNumber(p.created)
    case Expires => OfNumber(p.expires)
    case KeyId => OfText(p.keyid)
    case Alg => OfText(p.alg)
    case Nonce => OfText(p.nonce)
    case Tag => OfText(p.tag)
    case WimseAud => OfText(p.wimseAud)
    case WimseSignResponse => OfFlag(p.wimseSignResponse)
    case WimseReqNonce => OfText(p.wimseReqNonce)
  }

  function Set(p: SignatureParams, name: ParamName, v: Value): SignatureParams
    requires Fits(name, v)
  {
    match name
    case Created => p.(created := Some(v.n))
    case Expires => p.(expires := Some(v.n))
    case KeyId => p.(keyid := Some(v.s))
    case Alg => p.(alg := Some(v.s))
    case Nonce => p.(nonce := Some(v.s))
    case Tag => p.(tag := Some(v.s))
    case WimseAud => p.(wimseAud := Some(v.s))
    case WimseSignResponse => p.(wimseSignResponse := Some(v.b))
    case WimseReqNonce => p.(wimseReqNonce := Some(v.s))
  }

  lemma SameParams(p: SignatureParams, q: SignatureParams)
    requires forall name :: Get(p, name) == Get(q, name)
    ensures p == q
  {
    assert Get(p, Created) == Get(q, Created) && Get(p, Expires) == Get(q, Expires);
    assert Get(p, KeyId) == Get(q, KeyId) && Get(p, Alg) == Get(q, Alg);
    assert Get(p, Nonce) == Get(q, Nonce) && Get(p, Tag) == Get(q, Tag);
    assert Get(p, WimseAud) == Get(q, WimseAud) && Get(p, WimseReqNonce) == Get(q, WimseReqNonce);
    assert Get(p, WimseSignResponse) == Get(q, WimseSignResponse);
  }

  function NameText(name: ParamName): string {
    match name
    case Created => "created"
    case Expires => "expires"
    case KeyId => "keyid"
    case Alg => "alg"
    case Nonce => "nonce"
    case Tag => "tag"
    case WimseAud => "wimse-aud"
    case WimseSignResponse => "wimse-sign-response"
    case WimseReqNonce => "wimse-req-nonce"
  }

  /** The known parameter a name stands for; unknown names are ignored by the parser. */
  function Named(text: string): Option<ParamName> {
    if text == NameText(Created) then Some(Created)
    else if text == NameText(Expires) then Some(Expires)
    else if text == NameText(KeyId) then Some(KeyId)
    else if text == NameText(Alg) then Some(Alg)
    else if text == NameText(Nonce) then Some(Nonce)
    else if text == NameText(Tag) then Some(Tag)
    else if text == NameText(WimseAud) then Some(WimseAud)
    else if text == NameText(WimseSignResponse) then Some(WimseSignResponse)
    else if text == NameText(WimseReqNonce) then Some(WimseReqNonce)
    else None
  }

  lemma NamesDiffer(name: ParamName)
    ensures Named(NameText(name)) == Some(name)
  {
    assert NameText(Created)[0] == 'c' && NameText(Expires)[0] == 'e' && NameText(KeyId)[0] == 'k';
    assert NameText(Alg)[0] == 'a' && NameText(Nonce)[0] == 'n' && NameText(Tag)[0] == 't';
    assert NameText(WimseAud)[6] == 'a' && NameText(WimseSignResponse)[6] == 's' && NameText(WimseReqNonce)[6] == 'r';
    assert NameText(WimseAud)[0] == 'w' && NameText(WimseSignResponse)[0] == 'w' && NameText(WimseReqNonce)[0] == 'w';
  }

  lemma NamedText(text: string)
    ensures Named(text).Some? ==> NameText(Named(text).value) == text
  {
  }

  // ---------- Printing ----------

  function ValueText(v: Value): string {
    match v
    case Number(n) => "=" + Decimal(n)
    case Text(s) => "=" + StringText(s)
    case Flag(b) => if b then "" else "=?0"
  }

  function PartText(name: ParamName, v: Value): string {
    NameText(name) + ValueText(v)
  }

  /** The serialization order. */
  function NameAt(k: nat): ParamName
    requires k < 9
  {
    if k == 0 then Created else if k == 1 then Expires else if k == 2 then KeyId
    else if k == 3 then Alg else if k == 4 then Nonce else if k == 5 then Tag
    else if k == 6 then WimseAud else if k == 7 then WimseSignResponse else WimseReqNonce
  }

  /** The printed parameters from the `k`-th on. */
  function Parts(p: SignatureParams, k: nat): seq<string>
    decreases 9 - k
  {
    if k >= 9 then []
    else if Get(p, NameAt(k)).Some?
    then [PartText(NameAt(k), Get(p, NameAt(k)).value)] + Parts(p, k + 1)
    else Parts(p, k + 1)
  }

  function PartsText(parts: seq<string>): string {
    if parts == [] then "" else ";" + parts[0] + PartsText(parts[1..])
  }

  function Ids(components: seq<Component>): (ids: seq<string>)
    ensures |ids| == |components|
  {
    if components == [] then [] else [QuotedId(components[0])] + Ids(components[1..])
  }

  /** The inner list of component identifiers. */
  function ListText(components: seq<Component>): string {
    "(" + Join(Ids(components), " ") + ")"
  }

  /** The value of a `Signature-Input` member, and of the last line of the signature base. */
  function ParamsText(components: seq<Component>, p: SignatureParams): string {
    ListText(components) + PartsText(Parts(p, 0))
  }

  lemma PartsStep(before: string, p: SignatureParams, k: nat)
    requires k < 9
    ensures before + PartsText(Parts(p, k)) ==
            if Get(p, NameAt(k)).Some?
            then before + (";" + PartText(NameAt(k), Get(p, NameAt(k)).value)) + PartsText(Parts(p, k + 1))
            else before + PartsText(Parts(p, k + 1))
  {
  }

  method PrintValue(v: Value) returns (text: string)
    ensures text == ValueText(v)
  {
    match v {
      case Number(n) =>
        text := "=" + Decimal(n);
      case Text(t) =>
        var quoted := SfString(t);
        text := "=" + quoted;
      case Flag(b) =>
        text := if b then "" else "=?0";
    }
  }

  /** The program appends one optional parameter after another, in the order of `NameAt`. */
  method SerializeParamsValue(components: seq<Component>, p: SignatureParams) returns (s: string)
    ensures s == ParamsText(components, p)
  {
    s := ListText(components);
    hide Get, NameAt, NameText, ValueText, Parts, PartsText, ListText;
    for k := 0 to 9
      invariant s + PartsText(Parts(p, k)) == ParamsText(components, p)
    {
      PartsStep(s, p, k);
      var value := Get(p, NameAt(k));
      if value.Some? {
        var text := PrintValue(value.value);
        s := s + (";" + (NameText(NameAt(k)) + text));
      }
    }
    NoPartsLeft(s, p);
  }

  lemma NoPartsLeft(s: string, p: SignatureParams)
    ensures s + PartsText(Parts(p, 9)) == s
  {
  }

  // ---------- Reading ----------

  /** A named parameter set from its value text. */
  function SetFromText(p: SignatureParams, name: ParamName, raw: string): Outcome<SignatureParams> {
    match name
    case Created => SetNumber(p, name, raw)
    case Expires => SetNumber(p, name, raw)
    case WimseSignResponse =>
      if raw == "?1" then Ok(Set(p, name, Flag(true)))
      else if raw == "?0" then Ok(Set(p, name, Flag(false)))
      else Err(Parse(NotABoolean(raw)))
    case _ =>
      var s :- StringValue(raw);
      Ok(Set(p, name, Text(s)))
  }

  function SetNumber(p: SignatureParams, name: ParamName, raw: string): Outcome<SignatureParams>
    requires Fits(name, Number(0))
  {
    match ParseU64(Trim(raw))
    case Some(n) => Ok(Set(p, name, Number(n)))
    case None => Err(Parse(NotAnInteger(raw)))
  }

  /** One part of the parameters; empty parts and unknown names change nothing. */
  function ApplyPart(part: string, p: SignatureParams): Outcome<SignatureParams> {
    var part := Trim(part);
    if part == "" then Ok(p) else
    match SplitOnce(part, '=')
    case None =>
      Ok(if part == NameText(WimseSignResponse) then Set(p, WimseSignResponse, Flag(true)) else p)
    case Some((name, raw)) =>
      match Named(Trim(name))
      case None => Ok(p)
      case Some(known) => SetFromText(p, known, Trim(raw))
  }

  function ApplyParts(parts: seq<string>, p: SignatureParams): Outcome<SignatureParams> {
    if parts == [] then Ok(p) else
    var next :- ApplyPart(parts[0], p);
    ApplyParts(parts[1..], next)
  }

  /** The parameters record that the parser writes into. */
  class ParamsSlot {
    var params: SignatureParams

    constructor ()
      ensures params == NO_PARAMS
    {
      params := NO_PARAMS;
    }
  }

  /** The parts in front of the offending one took `before` to `after`, and it raised `error`. */
  ghost predicate StoppedIn(parts: seq<string>, before: SignatureParams, after: SignatureParams, error: Error) {
    exists k :: 0 <= k < |parts| &&
      ApplyParts(parts[..k], before) == Ok(after) && ApplyPart(parts[k], after) == Err(error)
  }

  /**
   Reads the parameters in `rest` into `slot`. On an error the parts before the
   offending one have already been written.
   */
  method ParseParams(rest: string, slot: ParamsSlot) returns (r: Outcome<()>)
    modifies slot
    ensures var whole := ApplyParts(CutAtSemicolons(rest), old(slot.params));
            && (whole.Ok? ==> r == Ok(()) && slot.params == whole.value)
            && (whole.Err? ==> r == Err(whole.error))
            && (whole.Err? ==> StoppedIn(CutAtSemicolons(rest), old(slot.params), slot.params, whole.error))
  {
    var parts := SplitUnquotedSemicolons(rest);
    ghost var whole := ApplyParts(parts, slot.params);
    assert parts[0..] == parts;
    hide ApplyPart;
    for i := 0 to |parts|
      invariant whole == ApplyParts(parts[i..], slot.params)
      invariant ApplyParts(parts[..i], old(slot.params)) == Ok(slot.params)
    {
      assert parts[i..][1..] == parts[i + 1..];
      var next := ApplyPart(parts[i], slot.params);
      if next.Err? {
        return Err(next.error);
      }
      ApplySnoc(parts[..i], parts[i], old(slot.params));
      assert parts[..i] + [parts[i]] == parts[..i + 1];
      slot.params := next.value;
    }
    return Ok(());
  }

  lemma {:induction false} ApplySnoc(parts: seq<string>, last: string, p: SignatureParams)
    ensures ApplyParts(parts + [last], p) ==
            if ApplyParts(parts, p).Ok? then ApplyPart(last, ApplyParts(parts, p).value) else ApplyParts(parts, p)
    decreases |parts|
  {
    hide ApplyPart;
    if parts == [] {
      assert parts + [last] == [last] && [last][1..] == [];
      var next := ApplyPart(last, p);
      if next.Ok? {
        assert ApplyParts([], next.value) == next;
      }
    } else {
      var next := ApplyPart(parts[0], p);
      assert (parts + [last])[1..] == parts[1..] + [last];
      if next.Ok? {
        ApplySnoc(parts[1..], last, next.value);
      }
    }
  }
}
