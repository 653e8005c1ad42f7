/** One member of `Signature-Input`: an inner list of components and its parameters. */
module Members {
  import opened Wrappers
  import opened Text
  import opened Errors
  import opened Scanner
  import opened Dictionary
  import opened Components
  import opened Params
  import opened ParamsRoundTrip

  /** A parsed member, with the verbatim text that goes into the signature base. */
  datatype InputMember = InputMember(
    name: string,
    components: seq<Component>,
    params: SignatureParams,
    text: string)

  function ComponentsOf(ids: seq<string>): (r: Outcome<seq<Component>>)
    ensures r.Ok? ==> |r.value| == |ids|
  {
    if ids == [] then Ok([]) else
    var first :- FromQuotedId(ids[0]);
    var rest :- ComponentsOf(ids[1..]);
    Ok([first] + rest)
  }

  /** The first `)` of a text that starts with `(` is behind its first character. */
  lemma CloseIsLater(text: string)
    requires text != "" && text[0] == '('
    ensures FirstUnquoted(text, ')') != Some(0)
  {
  }

  function MemberOf(name: string, rest: string): Outcome<InputMember> {
    var text := Trim(rest);
    if text == "" || text[0] != '(' then Err(Parse(InnerListNotOpened)) else
    match FirstUnquoted(text, ')')
    case None => Err(Parse(InnerListNotClosed))
    case Some(close) =>
      CloseIsLater(text);
      var components :- ComponentsOf(Words(text[1..close]));
      var params :- ApplyParts(CutAtSemicolons(text[close + 1..]), NO_PARAMS);
      Ok(InputMember(name, components, params, text))
  }

  function InFront(before: seq<Component>, after: Outcome<seq<Component>>): Outcome<seq<Component>> {
    if after.Ok? then Ok(before + after.value) else after
  }

  lemma InFrontTwice(a: seq<Component>, c: Component, after: Outcome<seq<Component>>)
    ensures InFront(a, InFront([c], after)) == InFront(a + [c], after)
    ensures InFront([], after) == after
  {
    if after.Ok? {
      Regrouped(a, [c], after.value);
      EmptyFirst(after.value);
    }
  }

  method ParseInputMember(name: string, rest: string) returns (r: Outcome<InputMember>)
    ensures r == MemberOf(name, rest)
  {
    var text := Trim(rest);
    if text == "" || text[0] != '(' {
      return Err(Parse(InnerListNotOpened));
    }
    var close := FindUnquoted(text, ')');
    if close.None? {
      return Err(Parse(InnerListNotClosed));
    }
    CloseIsLater(text);
    var components :- ReadComponents(text[1..close.value]);
    var slot := new ParamsSlot();
    var _ :- ParseParams(text[close.value + 1..], slot);
    return Ok(InputMember(name, components, slot.params, text));
  }

  /** The loop of `parse_input_member` that pushes the components of the inner list. */
  method ReadComponents(inner: string) returns (r: Outcome<seq<Component>>)
    ensures r == ComponentsOf(Words(inner))
  {
    var ids := Words(inner);
    var components: seq<Component> := [];
    assert ids[0..] == ids;
    InFrontTwice([], Method, ComponentsOf(ids));
    hide FromQuotedId, Words;
    for i := 0 to |ids|
      invariant ComponentsOf(ids) == InFront(components, ComponentsOf(ids[i..]))
    {
      assert ids[i..][1..] == ids[i + 1..];
      var component :- FromQuotedId(ids[i]);
      InFrontTwice(components, component, ComponentsOf(ids[i + 1..]));
      components := components + [component];
    }
    assert ComponentsOf(ids[|ids|..]) == Ok([]) && components + [] == components;
    return Ok(components);
  }

  // ---------- Printed members read back ----------

  lemma {:induction false} IdsReadBack(components: seq<Component>)
    requires AllWellFormed(components)
    ensures ComponentsOf(Ids(components)) == Ok(components)
    ensures forall i :: 0 <= i < |components| ==> Solid(Ids(components)[i]) && Ids(components)[i] != ""
  {
    if components == [] {
    } else {
      var c := components[0];
      assert WellFormed(c);
      QuotedIdIsSolid(c);
      QuotedIdEnds(c);
      hide FromQuotedId, Solid, QuotedId, WellFormed;
      TailOfCons(QuotedId(c), Ids(components[1..]));
      IdsReadBack(components[1..]);
      HeadTail(components);
    }
  }

  lemma {:induction false} JoinedIdsShape(ids: seq<string>)
    requires forall i :: 0 <= i < |ids| ==> Solid(ids[i])
    ensures Quiet(Join(ids, " "), {'(', ')', ','}) && OneLine(Join(ids, " "))
  {
    var stops := {'(', ')', ','};
    if ids == [] {
      PlainIsQuiet("", stops);
    } else {
      assert Solid(ids[0]);
      if |ids| > 1 {
        JoinedIdsShape(ids[1..]);
        PlainIsQuiet(" ", stops);
        hide Quiet, IsSpace;
        QuietConcat(ids[0], " ", stops);
        QuietConcat(ids[0] + " ", Join(ids[1..], " "), stops);
      }
    }
  }

  /** The inner list of well-formed components, and how it reads back. */
  lemma ListShape(components: seq<Component>)
    requires AllWellFormed(components)
    ensures var inner := Join(Ids(components), " ");
            && Quiet(inner, {'(', ')', ','}) && OneLine(inner)
            && ComponentsOf(Words(inner)) == Ok(components)
  {
    var ids := Ids(components);
    IdsReadBack(components);
    JoinedIdsShape(ids);
    forall i | 0 <= i < |ids| ensures ids[i] != "" && NoSpace(ids[i]) {
      assert Solid(ids[i]);
    }
    WordsOfJoin(ids);
  }

  /** The parameters printed behind the list. */
  function TailText(p: SignatureParams): string {
    PartsText(Parts(p, 0))
  }

  lemma {:induction false} PartsAreSmooth(p: SignatureParams, k: nat)
    ensures forall i :: 0 <= i < |Parts(p, k)| ==>
              Quiet(Parts(p, k)[i], {'(', ')', ','}) && Parts(p, k)[i] != "" && Trimmed(Parts(p, k)[i])
    decreases 9 - k
  {
    if k >= 9 {
    } else {
      PartsAreSmooth(p, k + 1);
      var v := Get(p, NameAt(k));
      if v.Some? {
        PartTextShape(NameAt(k), v.value);
        FewerStops(Plain, PartText(NameAt(k), v.value), {'(', ')', ','}, STOPS);
      }
    }
  }

  lemma TailShape(p: SignatureParams)
    ensures Quiet(TailText(p), {'(', ')', ','})
    ensures TailText(p) != "" ==> !IsSpace(TailText(p)[|TailText(p)| - 1])
  {
    PartsAreSmooth(p, 0);
    PartsTextShape(Parts(p, 0));
  }

  lemma CloseAt(inner: string, tail: string)
    requires Quiet(inner, {'(', ')', ','})
    ensures FirstUnquoted("(" + inner + ")" + tail, ')') == Some(1 + |inner|)
  {
    PlainIsQuiet("(", {')'});
    FewerStops(Plain, inner, {')'}, {'(', ')', ','});
    QuietConcat("(", inner, {')'});
    hide Quiet, FirstUnquoted;
    StopAfterQuiet("(" + inner, ')', tail);
    assert "(" + inner + ")" + tail == "(" + inner + [')'] + tail;
  }

  lemma ListSlices(inner: string, tail: string)
    ensures var text := "(" + inner + ")" + tail;
            && text != "" && text[0] == '('
            && text[1..1 + |inner|] == inner && text[2 + |inner|..] == tail
  {
  }

  lemma ParamsTextTrims(components: seq<Component>, p: SignatureParams)
    ensures Trim(ParamsText(components, p)) == ParamsText(components, p)
  {
    TailShape(p);
    var inner, tail := Join(Ids(components), " "), TailText(p);
    hide Parts, PartsText, Ids, Join, IsSpace, Trim, Quiet;
    var text := "(" + inner + ")" + tail;
    assert text[0] == '(' && text[|text| - 1] == if tail == "" then ')' else tail[|tail| - 1];
    ParenIsNoSpace();
    TrimIdentity(text);
  }

  lemma ParenIsNoSpace()
    ensures !IsSpace('(') && !IsSpace(')')
  {
  }

  /**
   Printing then parsing is the identity: any well-formed components and any
   parameters come back, with the printed text as the verbatim text, whatever
   quotes, backslashes and delimiters the parameter values hold.
   */
  lemma MemberRoundTrip(name: string, components: seq<Component>, p: SignatureParams)
    requires AllWellFormed(components)
    ensures MemberOf(name, ParamsText(components, p))
         == Ok(InputMember(name, components, p, ParamsText(components, p)))
  {
    var inner, tail := Join(Ids(components), " "), TailText(p);
    ListShape(components);
    ParamsReadBack(p);
    ParamsTextTrims(components, p);
    hide Trim, ComponentsOf, Words, Quiet, Parts, PartsText, ApplyParts, CutAtSemicolons, FirstUnquoted, Ids;
    CloseAt(inner, tail);
    ListSlices(inner, tail);
  }

  /** A parsed member is a function of its verbatim text alone. */
  lemma MemberOfText(name: string, rest: string, other: string)
    requires MemberOf(name, rest).Ok?
    ensures var m := MemberOf(name, rest).value;
            MemberOf(other, m.text) == Ok(m.(name := other)) && m.name == name && m.text == Trim(rest)
  {
    hide Trim, FirstUnquoted, ComponentsOf, Words, ApplyParts, CutAtSemicolons;
    TrimTwice(rest);
  }

  /** The steps that a parsed member went through. */
  lemma MemberSteps(name: string, rest: string) returns (close: nat)
    requires MemberOf(name, rest).Ok?
    ensures FirstUnquoted(Trim(rest), ')') == Some(close)
    ensures ApplyParts(CutAtSemicolons(Trim(rest)[close + 1..]), NO_PARAMS) == Ok(MemberOf(name, rest).value.params)
  {
    hide Trim, FirstUnquoted, ComponentsOf, Words, ApplyParts, CutAtSemicolons;
    close := FirstUnquoted(Trim(rest), ')').value;
  }

  // ---------- Printed members in a dictionary ----------

  /** A structured-field key (RFC 8941 section 3.1.2). */
  predicate IsKey(name: string) {
    && name != "" && (IsLower(name[0]) || name[0] == '*')
    && forall i :: 0 <= i < |name| ==> IsLower(name[i]) || IsDigit(name[i]) || name[i] in "_-.*"
  }

  lemma KeyIsPlain(name: string)
    requires IsKey(name)
    ensures Quiet(name, {'(', ')', ','}) && NoSpace(name) && '=' !in name && name != ""
  {
    PlainIsQuiet(name, {'(', ')', ','});
  }

  /** The ends of `name=` followed by the printed member are not white space. */
  lemma PrintedEnds(name: string, inner: string, tail: string)
    requires name != "" && !IsSpace(name[0])
    requires tail != "" ==> !IsSpace(tail[|tail| - 1])
    ensures Trimmed(name + "=" + ("(" + inner + ")" + tail))
  {
  }

  lemma ListMemberIsSealed(name: string, inner: string, tail: string)
    requires IsKey(name) && Quiet(inner, {'(', ')', ','}) && Quiet(tail, {'(', ')', ','})
    requires tail != "" ==> !IsSpace(tail[|tail| - 1])
    ensures WellSealed(Member(name, "(" + inner + ")" + tail))
  {
    hide Quiet, Sealed, IsKey, IsSpace;
    KeyIsPlain(name);
    KeyEqualsIsQuiet(name);
    ListIsSealed(name + "=", inner, tail);
    PrintedEnds(name, inner, tail);
  }

  lemma KeyEqualsIsQuiet(name: string)
    requires Quiet(name, {'(', ')', ','})
    ensures Quiet(name + "=", {'(', ')', ','})
  {
    PlainIsQuiet("=", {'(', ')', ','});
    QuietConcat(name, "=", {'(', ')', ','});
  }

  lemma PrintedIsSealed(name: string, components: seq<Component>, p: SignatureParams)
    requires IsKey(name) && AllWellFormed(components)
    ensures WellSealed(Member(name, ParamsText(components, p)))
  {
    hide Quiet, Parts, PartsText, Ids, IsKey, WellSealed, IsSpace, Join, AllWellFormed, OneLine, Words, ComponentsOf;
    ListShape(components);
    TailShape(p);
    ListMemberIsSealed(name, Join(Ids(components), " "), TailText(p));
  }
}
