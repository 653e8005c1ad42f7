/** Reading printed signature parameters gives the parameters back. */
module ParamsRoundTrip {
  import opened Wrappers
  import opened Text
  import opened Errors
  import opened Scanner
  import opened SfStrings
  import opened Params

  const STOPS := {'(', ')', ',', ';'}

  predicate IsKeyChar(c: char) {
    IsLower(c) || c == '-'
  }

  lemma NameIsKey(name: ParamName)
    ensures NameText(name) != "" && forall i :: 0 <= i < |NameText(name)| ==> IsKeyChar(NameText(name)[i])
  {
  }

  lemma NameIsPlain(name: ParamName)
    ensures Quiet(NameText(name), STOPS) && NoSpace(NameText(name)) && OneLine(NameText(name))
    ensures NameText(name) != "" && '=' !in NameText(name)
  {
    NameIsKey(name);
    hide NameText;
    var text := NameText(name);
    forall i | 0 <= i < |text|
      ensures text[i] != '"' && text[i] !in STOPS && text[i] != '=' && !IsSpace(text[i])
    {
      assert IsKeyChar(text[i]);
    }
    PlainIsQuiet(text, STOPS);
  }

  lemma NumberIsPlain(n: nat)
    ensures Quiet(Decimal(n), STOPS) && NoSpace(Decimal(n)) && OneLine(Decimal(n)) && Decimal(n) != ""
  {
    var text := Decimal(n);
    hide Decimal;
    forall i | 0 <= i < |text| ensures text[i] != '"' && text[i] !in STOPS && !IsSpace(text[i]) {
      assert IsDigit(text[i]);
    }
    PlainIsQuiet(text, STOPS);
  }

  /** What a value text starts and ends with, and that no delimiter of it is visible. */
  lemma ValueTextShape(v: Value)
    ensures Quiet(ValueText(v), STOPS)
    ensures ValueText(v) != "" ==> ValueText(v)[0] == '=' && !IsSpace(ValueText(v)[|ValueText(v)| - 1])
    ensures OneLine(ValueText(v)) <==> (v.Text? ==> OneLine(v.s))
  {
    PlainIsQuiet("=", STOPS);
    match v
    case Number(n) =>
      NumberIsPlain(n);
      QuietConcat("=", Decimal(n), STOPS);
      OneLineConcat("=", Decimal(n));
    case Text(s) =>
      StringTextIsQuiet(s, STOPS);
      QuietConcat("=", StringText(s), STOPS);
      StringTextOneLine(s);
      OneLineConcat("=", StringText(s));
    case Flag(b) =>
      PlainIsQuiet("=?0", STOPS);
  }

  lemma PartTextShape(name: ParamName, v: Value)
    ensures Quiet(PartText(name, v), STOPS)
    ensures PartText(name, v) != "" && Trimmed(PartText(name, v))
    ensures OneLine(PartText(name, v)) <==> (v.Text? ==> OneLine(v.s))
  {
    NameIsPlain(name);
    ValueTextShape(v);
    hide NameText, ValueText, Quiet, IsSpace;
    QuietConcat(NameText(name), ValueText(v), STOPS);
    OneLineConcat(NameText(name), ValueText(v));
  }

  lemma ApplyNamed(part: string, name: ParamName, raw: string, p: SignatureParams)
    requires Trim(part) == part && part != "" && SplitOnce(part, '=') == Some((NameText(name), raw))
    requires Trim(NameText(name)) == NameText(name) && Trim(raw) == raw
    ensures ApplyPart(part, p) == SetFromText(p, name, raw)
  {
    NamesDiffer(name);
  }

  lemma ApplyBare(name: ParamName, p: SignatureParams)
    requires Trim(NameText(name)) == NameText(name) && Fits(name, Flag(true))
    ensures ApplyPart(NameText(name), p) == Ok(Set(p, name, Flag(true)))
  {
    NameIsPlain(name);
    IndexOfIsFirst(NameText(name), '=');
  }

  lemma PartTextTrims(name: ParamName, v: Value)
    ensures Trim(PartText(name, v)) == PartText(name, v) && PartText(name, v) != ""
    ensures Trim(NameText(name)) == NameText(name) && '=' !in NameText(name)
  {
    PartTextShape(name, v);
    TrimIdentity(PartText(name, v));
    NameIsPlain(name);
    TrimIdentity(NameText(name));
  }

  lemma PartTextSplits(name: ParamName, v: Value)
    requires ValueText(v) != "" && '=' !in NameText(name)
    ensures SplitOnce(PartText(name, v), '=') == Some((NameText(name), ValueText(v)[1..]))
  {
    ValueTextShape(v);
    var text := ValueText(v);
    hide NameText, ValueText, SplitOnce, Quiet;
    assert NameText(name) + text == NameText(name) + ['='] + text[1..];
    SplitOnceFirst(NameText(name), '=', text[1..]);
  }

  /** Reading one printed parameter sets exactly that parameter. */
  lemma ApplyPartText(name: ParamName, v: Value, p: SignatureParams)
    requires Fits(name, v)
    ensures ApplyPart(PartText(name, v), p) == Ok(Set(p, name, v))
  {
    PartTextTrims(name, v);
    if ValueText(v) == "" {
      assert v == Flag(true);
      hide NameText, Trim, ApplyPart;
      assert PartText(name, v) == NameText(name);
      ApplyBare(name, p);
    } else {
      hide NameText, ValueText, SetFromText, Trim, ApplyPart, PartText;
      PartTextSplits(name, v);
      RawValueReads(name, v, p, ValueText(v)[1..]);
      ApplyNamed(PartText(name, v), name, ValueText(v)[1..], p);
    }
  }

  lemma TrimIdentity(s: string)
    requires Trimmed(s)
    ensures Trim(s) == s
  {
  }

  lemma RawValueReads(name: ParamName, v: Value, p: SignatureParams, raw: string)
    requires Fits(name, v) && ValueText(v) != "" && raw == ValueText(v)[1..]
    ensures Trim(raw) == raw && SetFromText(p, name, raw) == Ok(Set(p, name, v))
  {
    match v
    case Number(n) =>
      TailOfCons('=', Decimal(n));
      assert raw == Decimal(n);
      NumberIsPlain(n);
      TrimIdentity(raw);
      DecimalRoundTrip(n);
    case Text(s) =>
      TailOfCons('=', StringText(s));
      assert raw == StringText(s);
      StringRoundTrip(s);
      assert Trimmed(raw) by {
        assert raw[0] == '"' && raw[|raw| - 1] == '"';
      }
      TrimIdentity(raw);
    case Flag(b) =>
      assert raw == "?0" && raw[1] == '0';
      TrimIdentity(raw);
  }

  // ---------- All parameters ----------

  function Index(name: ParamName): (k: nat)
    ensures k < 9 && NameAt(k) == name
  {
    match name
    case Created => 0
    case Expires => 1
    case KeyId => 2
    case Alg => 3
    case Nonce => 4
    case Tag => 5
    case WimseAud => 6
    case WimseSignResponse => 7
    case WimseReqNonce => 8
  }

  lemma GetOfSet(q: SignatureParams, name: ParamName, v: Value, other: ParamName)
    requires Fits(name, v)
    ensures Get(Set(q, name, v), other) == if other == name then Some(v) else Get(q, other)
  {
  }

  lemma IndexOfNameAt(k: nat)
    requires k < 9
    ensures Index(NameAt(k)) == k
  {
  }

  /** `r` holds the parameters of `p` from the `k`-th on where present, and those of `q` otherwise. */
  ghost predicate Overlaid(r: SignatureParams, p: SignatureParams, k: nat, q: SignatureParams) {
    forall name :: Get(r, name) == if Index(name) >= k && Get(p, name).Some? then Get(p, name) else Get(q, name)
  }

  lemma OverlaidStep(r: SignatureParams, p: SignatureParams, k: nat, q: SignatureParams)
    requires k < 9
    requires var v := Get(p, NameAt(k));
             Overlaid(r, p, k + 1, if v.Some? then Set(q, NameAt(k), v.value) else q)
    ensures Overlaid(r, p, k, q)
  {
    var here, v := NameAt(k), Get(p, NameAt(k));
    hide Get, Set, NameAt, Fits;
    forall name
      ensures Get(r, name) == if Index(name) >= k && Get(p, name).Some? then Get(p, name) else Get(q, name)
    {
      if name != here && Index(name) == k {
        assert false;
      }
      if v.Some? {
        GetOfSet(q, here, v.value, name);
      }
      IndexOfNameAt(k);
    }
  }

  /** Reading the printed parameters from the `k`-th on replaces exactly those that are present. */
  lemma {:induction false} ApplyPrintedParts(p: SignatureParams, k: nat, q: SignatureParams)
    requires k <= 9
    ensures ApplyParts(Parts(p, k), q).Ok? && Overlaid(ApplyParts(Parts(p, k), q).value, p, k, q)
    decreases 9 - k
  {
    if k < 9 {
      var name := NameAt(k);
      hide Get, Set, Overlaid, Fits, ApplyPart, PartText;
      if Get(p, name).Some? {
        var v := Get(p, name).value;
        ApplyPartText(name, v, q);
        TailOfCons(PartText(name, v), Parts(p, k + 1));
        ApplyPrintedParts(p, k + 1, Set(q, name, v));
      } else {
        ApplyPrintedParts(p, k + 1, q);
      }
      OverlaidStep(ApplyParts(Parts(p, k), q).value, p, k, q);
    } else {
      assert Parts(p, k) == [] && ApplyParts([], q) == Ok(q);
    }
  }

  lemma NothingIsSet(name: ParamName)
    ensures Get(NO_PARAMS, name) == None
  {
  }

  /** Reading all printed parameters gives them back, whatever text their values hold. */
  lemma PartsRoundTrip(p: SignatureParams)
    ensures ApplyParts(Parts(p, 0), NO_PARAMS) == Ok(p)
  {
    ApplyPrintedParts(p, 0, NO_PARAMS);
    hide Get, ApplyParts, Parts;
    var r := ApplyParts(Parts(p, 0), NO_PARAMS).value;
    forall name ensures Get(r, name) == Get(p, name) {
      NothingIsSet(name);
    }
    SameParams(r, p);
  }

  lemma {:induction false} PartsAreQuiet(p: SignatureParams, k: nat)
    ensures forall i :: 0 <= i < |Parts(p, k)| ==>
              Quiet(Parts(p, k)[i], {';'}) && Parts(p, k)[i] != "" && Trimmed(Parts(p, k)[i])
    decreases 9 - k
  {
    if k >= 9 {
    } else {
      PartsAreQuiet(p, k + 1);
      if Get(p, NameAt(k)).Some? {
        var v := Get(p, NameAt(k)).value;
        PartTextShape(NameAt(k), v);
        FewerStops(Plain, PartText(NameAt(k), v), {';'}, STOPS);
      }
    }
  }

  lemma {:induction false} PartsTextIsJoin(parts: seq<string>)
    ensures PartsText(parts) == Join([""] + parts, ";")
  {
    TailOfCons("", parts);
    if parts == [] {
    } else {
      PartsTextIsJoin(parts[1..]);
      HeadTail(parts);
      if |parts| > 1 {
        TailOfCons("", parts[1..]);
      }
    }
  }

  /** Cutting the printed parameters at `;` gives an empty part and then each of them. */
  lemma CutPartsText(p: SignatureParams)
    ensures CutAtSemicolons(PartsText(Parts(p, 0))) == [""] + Parts(p, 0)
  {
    var parts := [""] + Parts(p, 0);
    PartsAreQuiet(p, 0);
    PartsTextIsJoin(Parts(p, 0));
    hide Parts, Quiet;
    forall i | 0 <= i < |parts| ensures Quiet(parts[i], {';'}) {
      if i == 0 {
        PlainIsQuiet("", {';'});
      } else {
        assert parts[i] == Parts(p, 0)[i - 1];
      }
    }
    CutOfJoin(parts);
  }

  /** Reading the printed tail of a member gives its parameters back. */
  lemma ParamsReadBack(p: SignatureParams)
    ensures ApplyParts(CutAtSemicolons(PartsText(Parts(p, 0))), NO_PARAMS) == Ok(p)
  {
    CutPartsText(p);
    PartsRoundTrip(p);
    TailOfCons("", Parts(p, 0));
    TrimIdentity("");
    assert ApplyPart("", NO_PARAMS) == Ok(NO_PARAMS);
  }

  predicate HoldsOneLine(v: Option<Value>) {
    v.Some? && v.value.Text? ==> OneLine(v.value.s)
  }

  /** No text value from the `k`-th parameter on holds a CR or LF. */
  ghost predicate TextsOneLine(p: SignatureParams, k: nat) {
    forall name :: Index(name) >= k ==> HoldsOneLine(Get(p, name))
  }

  lemma TextsOneLineStep(p: SignatureParams, k: nat)
    requires k < 9
    ensures TextsOneLine(p, k) <==> TextsOneLine(p, k + 1) && HoldsOneLine(Get(p, NameAt(k)))
  {
  }

  lemma OneLinePart(part: string, rest: string)
    ensures OneLine(";" + part + rest) <==> OneLine(part) && OneLine(rest)
  {
    assert OneLine(";");
    hide OneLine;
    OneLineConcat(";" + part, rest);
    OneLineConcat(";", part);
  }

  /** The printed tail is one line exactly when every text value is. */
  lemma {:induction false} PartsTextOneLine(p: SignatureParams, k: nat)
    requires k <= 9
    ensures OneLine(PartsText(Parts(p, k))) <==> TextsOneLine(p, k)
    decreases 9 - k
  {
    if k < 9 {
      hide TextsOneLine, PartText, OneLine, Get, NameAt;
      PartsTextOneLine(p, k + 1);
      TextsOneLineStep(p, k);
      var v := Get(p, NameAt(k));
      if v.Some? {
        var part := PartText(NameAt(k), v.value);
        PartTextShape(NameAt(k), v.value);
        TailOfCons(part, Parts(p, k + 1));
        OneLinePart(part, PartsText(Parts(p, k + 1)));
      }
    } else {
      assert Parts(p, k) == [];
    }
  }

  /** The printed tail is quiet for everything but its own semicolons, and ends solidly. */
  lemma {:induction false} PartsTextShape(parts: seq<string>)
    requires forall i :: 0 <= i < |parts| ==> Quiet(parts[i], {'(', ')', ','}) && parts[i] != "" && Trimmed(parts[i])
    ensures Quiet(PartsText(parts), {'(', ')', ','})
    ensures PartsText(parts) != "" ==> !IsSpace(PartsText(parts)[|PartsText(parts)| - 1])
  {
    hide IsSpace;
    var stops := {'(', ')', ','};
    if parts == [] {
      PlainIsQuiet("", stops);
    } else {
      PartsTextShape(parts[1..]);
      assert Quiet(parts[0], stops) && Trimmed(parts[0]);
      PlainIsQuiet(";", stops);
      QuietConcat(";", parts[0], stops);
      QuietConcat(";" + parts[0], PartsText(parts[1..]), stops);
    }
  }
}
