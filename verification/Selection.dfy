/** Choosing the `Signature-Input` member to verify: by its tag under a WIMSE profile, by label otherwise. */
module Selection {
  import opened Wrappers
  import opened Text
  import opened Errors
  import opened Scanner
  import opened SfStrings
  import opened Dictionary
  import opened Components
  import opened Params
  import opened ParamsRoundTrip
  import opened Members

  datatype Algorithm = EdDsa | Es256

  datatype VerifyConfig = VerifyConfig(
    now: Option<u64>,
    leeway: u64,
    name: Option<string>,
    required: seq<Component>,
    maxAge: Option<u64>,
    wimseProfile: bool,
    expectedAudiences: seq<string>,
    wimseResponseProfile: bool,
    expectedReqNonce: Option<string>,
    acceptedAlgorithms: seq<Algorithm>)
  {
    predicate Profiled() {
      wimseProfile || wimseResponseProfile
    }
  }

  const WIMSE_TAG := "wimse-workload-to-workload"

  /** Whether one raw part is a `tag` parameter naming the WIMSE tag. */
  predicate IsWimseTag(part: string) {
    match SplitOnce(part, '=')
    case None => false
    case Some((name, raw)) => Trim(name) == NameText(Tag) && StringValue(Trim(raw)) == Ok(WIMSE_TAG)
  }

  predicate AnyWimseTag(parts: seq<string>) {
    exists i :: 0 <= i < |parts| && IsWimseTag(parts[i])
  }

  /** Whether a raw member value carries the WIMSE tag; one that makes no sense does not. */
  predicate HasWimseTag(rest: string) {
    var text := Trim(rest);
    match FirstUnquoted(text, ')')
    case None => false
    case Some(close) => AnyWimseTag(CutAtSemicolons(text[close + 1..]))
  }

  function Tagged(members: seq<Member>): seq<Member> {
    if members == [] then []
    else if HasWimseTag(members[0].rest) then [members[0]] + Tagged(members[1..])
    else Tagged(members[1..])
  }

  function FindNamed(members: seq<Member>, name: string): Option<Member> {
    if members == [] then None
    else if members[0].name == name then Some(members[0])
    else FindNamed(members[1..], name)
  }

  function Chosen(members: seq<Member>, config: VerifyConfig): Outcome<Member>
    requires |members| > 0
  {
    if |members| == 1 then Ok(members[0])
    else if config.Profiled() then
      var tagged := Tagged(members);
      if |tagged| == 1 then Ok(tagged[0])
      else if |tagged| > 1 then Err(AmbiguousWimseSignature)
      else Err(NoWimseSignature)
    else
      match config.name
      case None => Err(LabelMismatch)
      case Some(name) =>
        match FindNamed(members, name)
        case None => Err(LabelMismatch)
        case Some(member) => Ok(member)
  }

  function SelectMember(signatureInput: string, config: VerifyConfig): Outcome<InputMember> {
    var members :- DictionaryMembers(signatureInput);
    var member :- Chosen(members, config);
    if !config.Profiled() && config.name.Some? && config.name.value != member.name then Err(LabelMismatch)
    else MemberOf(member.name, member.rest)
  }

  // ---------- The tag of a printed member ----------

  lemma TagOfPart(name: ParamName, v: Value)
    requires Fits(name, v)
    ensures IsWimseTag(PartText(name, v)) <==> name == Tag && v == Text(WIMSE_TAG)
  {
    PartTextTrims(name, v);
    NamesDiffer(name);
    NamesDiffer(Tag);
    if ValueText(v) == "" {
      assert v == Flag(true);
      hide NameText;
      assert PartText(name, v) == NameText(name);
      IndexOfIsFirst(NameText(name), '=');
    } else {
      PartTextSplits(name, v);
      var raw := ValueText(v)[1..];
      if v.Text? {
        RawValueReads(name, v, NO_PARAMS, raw);
        StringRoundTrip(v.s);
        TailOfCons('=', StringText(v.s));
      }
    }
  }

  lemma {:induction false} TagOfParts(p: SignatureParams, k: nat)
    requires k <= 9
    ensures AnyWimseTag(Parts(p, k)) <==> Index(Tag) >= k && p.tag == Some(WIMSE_TAG)
    decreases 9 - k
  {
    if k >= 9 {
    } else {
      TagOfParts(p, k + 1);
      IndexOfNameAt(k);
      var name, v := NameAt(k), Get(p, NameAt(k));
      assert name == Tag ==> v == OfText(p.tag);
      assert Index(Tag) == k ==> name == Tag;
      hide IsWimseTag, AnyWimseTag, PartText, NameAt, Get, Fits;
      if v.Some? {
        TagOfPart(name, v.value);
        AnyTagCons(PartText(name, v.value), Parts(p, k + 1));
      }
    }
  }

  lemma AnyTagCons(part: string, parts: seq<string>)
    ensures AnyWimseTag([part] + parts) <==> IsWimseTag(part) || AnyWimseTag(parts)
  {
    hide IsWimseTag;
    var all := [part] + parts;
    if AnyWimseTag(parts) {
      var i :| 0 <= i < |parts| && IsWimseTag(parts[i]);
      assert all[i + 1] == parts[i];
    }
    if IsWimseTag(part) {
      assert all[0] == part;
    }
  }

  /**
   A printed member is found by its tag exactly when the tag parameter is the
   WIMSE tag, even if another value spells out a tag parameter inside its quotes.
   */
  lemma TagOfPrinted(components: seq<Component>, p: SignatureParams)
    requires AllWellFormed(components)
    ensures HasWimseTag(ParamsText(components, p)) <==> p.tag == Some(WIMSE_TAG)
  {
    var inner, tail := Join(Ids(components), " "), TailText(p);
    ListShape(components);
    ParamsTextTrims(components, p);
    CutPartsText(p);
    TagOfParts(p, 0);
    AnyTagCons("", Parts(p, 0));
    assert !IsWimseTag("");
    hide Trim, Words, Quiet, Parts, PartsText, CutAtSemicolons, FirstUnquoted, Ids, AnyWimseTag;
    CloseAt(inner, tail);
    ListSlices(inner, tail);
  }

  // ---------- Finding the tagged member ----------

  /** The member at `k` is the only one that carries the WIMSE tag. */
  ghost predicate OnlyTagged(members: seq<Member>, k: nat) {
    k < |members| && forall i :: 0 <= i < |members| ==> (HasWimseTag(members[i].rest) <==> i == k)
  }

  lemma {:induction false} NoneTagged(members: seq<Member>)
    ensures Tagged(members) == [] <==> forall i :: 0 <= i < |members| ==> !HasWimseTag(members[i].rest)
  {
    hide HasWimseTag;
    if members == [] {
    } else {
      NoneTagged(members[1..]);
      assert forall i :: 1 <= i < |members| ==> members[i] == members[1..][i - 1];
    }
  }

  lemma {:induction false} OneTagged(members: seq<Member>, k: nat)
    requires OnlyTagged(members, k)
    ensures Tagged(members) == [members[k]]
  {
    hide HasWimseTag;
    var rest := members[1..];
    assert forall i :: 1 <= i < |members| ==> members[i] == rest[i - 1];
    if k == 0 {
      NoneTagged(rest);
    } else {
      assert OnlyTagged(rest, k - 1);
      OneTagged(rest, k - 1);
    }
  }

  /** A filter that keeps one member keeps the only tagged one. */
  lemma {:induction false} TheOneTagged(members: seq<Member>) returns (k: nat)
    requires |Tagged(members)| == 1
    ensures OnlyTagged(members, k) && Tagged(members) == [members[k]]
  {
    hide HasWimseTag;
    var rest := members[1..];
    if HasWimseTag(members[0].rest) {
      k := 0;
      assert Tagged(rest) == [];
      NoneTagged(rest);
      assert forall i :: 1 <= i < |members| ==> members[i] == rest[i - 1];
    } else {
      var j := TheOneTagged(rest);
      k := j + 1;
      assert forall i :: 1 <= i < |members| ==> members[i] == rest[i - 1];
    }
  }

  /**
   Among any other sealed members, whatever they hold short of the WIMSE tag,
   the profile selects exactly the tagged member, with its own label,
   components, parameters and text.
   */
  lemma SelectsTagged(members: seq<Member>, k: nat, components: seq<Component>, p: SignatureParams,
                      config: VerifyConfig)
    requires config.Profiled() && k < |members| && DistinctLabels(members)
    requires members[k].rest == ParamsText(components, p) && p.tag == Some(WIMSE_TAG)
    requires IsKey(members[k].name) && AllWellFormed(components)
    requires forall i :: 0 <= i < |members| && i != k ==> WellSealed(members[i]) && !HasWimseTag(members[i].rest)
    ensures SelectMember(Join(MemberTexts(members), ", "), config)
         == Ok(InputMember(members[k].name, components, p, members[k].rest))
  {
    var m, field := members[k], Join(MemberTexts(members), ", ");
    hide HasWimseTag, WellSealed, MemberOf, ParamsText, IsKey, DictionaryMembers, MemberTexts, Join,
      SelectMember, Chosen, OnlyTagged;
    AllSealed(members, k, components, p);
    SplitUndoesJoin(members);
    assert OnlyTagged(members, k) by {
      TagOfPrinted(components, p);
      IsOnlyTagged(members, k);
    }
    ChoosesTagged(members, k, config);
    SelectsChosen(field, members, m, config);
    MemberRoundTrip(m.name, components, p);
  }

  lemma IsOnlyTagged(members: seq<Member>, k: nat)
    requires k < |members| && HasWimseTag(members[k].rest)
    requires forall i :: 0 <= i < |members| && i != k ==> !HasWimseTag(members[i].rest)
    ensures OnlyTagged(members, k)
  {
    hide HasWimseTag;
  }

  lemma ChoosesTagged(members: seq<Member>, k: nat, config: VerifyConfig)
    requires config.Profiled() && OnlyTagged(members, k)
    ensures Chosen(members, config) == Ok(members[k])
  {
    hide HasWimseTag;
    OneTagged(members, k);
  }

  lemma SelectsChosen(field: string, members: seq<Member>, chosen: Member, config: VerifyConfig)
    requires config.Profiled() && members != [] && DictionaryMembers(field) == Ok(members)
    requires Chosen(members, config) == Ok(chosen)
    ensures SelectMember(field, config) == MemberOf(chosen.name, chosen.rest)
  {
    hide DictionaryMembers, Chosen, MemberOf;
  }

  lemma AllSealed(members: seq<Member>, k: nat, components: seq<Component>, p: SignatureParams)
    requires k < |members| && members[k].rest == ParamsText(components, p)
    requires IsKey(members[k].name) && AllWellFormed(components)
    requires forall i :: 0 <= i < |members| && i != k ==> WellSealed(members[i])
    ensures forall i :: 0 <= i < |members| ==> WellSealed(members[i])
  {
    hide WellSealed, ParamsText, IsKey;
    PrintedIsSealed(members[k].name, components, p);
    assert members[k] == Member(members[k].name, ParamsText(components, p));
  }

  // ---------- What parsing a member says about its tag ----------

  lemma SplitTrimmed(part: string)
    ensures SplitOnce(Trim(part), '=').None? <==> SplitOnce(part, '=').None?
    ensures var a, b := SplitOnce(Trim(part), '='), SplitOnce(part, '=');
            a.Some? && b.Some? ==> Trim(a.value.0) == Trim(b.value.0) && Trim(a.value.1) == Trim(b.value.1)
  {
    var t := Trim(part);
    var before, after := TrimSplits(part);
    EqualsIsNoSpace(before);
    EqualsIsNoSpace(after);
    SplitOnceFinds(t, '=');
    SplitOnceFinds(part, '=');
    hide Trim, IsSpace, SplitOnce;
    if '=' in t {
      var (name, raw) := SplitOnce(t, '=').value;
      SplitPadded(before, name, raw, after);
    }
  }

  lemma SplitOnceFinds(s: string, c: char)
    ensures SplitOnce(s, c).Some? <==> c in s
    ensures var r := SplitOnce(s, c); r.Some? ==> s == r.value.0 + [c] + r.value.1 && c !in r.value.0
  {
    IndexOfIsFirst(s, c);
  }

  lemma SplitPadded(before: string, name: string, raw: string, after: string)
    requires AllSpace(before) && AllSpace(after) && '=' !in before && '=' !in name
    ensures SplitOnce(before + (name + ['='] + raw) + after, '=') == Some((before + name, raw + after))
    ensures SplitOnce(name + ['='] + raw, '=') == Some((name, raw))
    ensures Trim(before + name) == Trim(name) && Trim(raw + after) == Trim(raw)
  {
    hide Trim, IsSpace;
    assert before + (name + ['='] + raw) + after == (before + name) + ['='] + (raw + after);
    SplitOnceFirst(before + name, '=', raw + after);
    SplitOnceFirst(name, '=', raw);
    TrimPads(before, name, "");
    TrimPads("", raw, after);
    assert before + name + "" == before + name && "" + raw + after == raw + after;
  }

  lemma EqualsIsNoSpace(s: string)
    requires AllSpace(s)
    ensures '=' !in s
  {
  }

  /** Whether one raw part sets the `tag` parameter. */
  predicate IsTagPart(part: string) {
    match SplitOnce(part, '=')
    case None => false
    case Some((name, _)) => Trim(name) == NameText(Tag)
  }

  /** The tag that a raw part sets. */
  function TagIn(part: string): Option<string> {
    match SplitOnce(part, '=')
    case None => None
    case Some((_, raw)) =>
      match StringValue(Trim(raw))
      case Ok(tag) => Some(tag)
      case Err(_) => None
  }

  /** The last part that sets the tag. */
  function LastTagPart(parts: seq<string>): Option<string> {
    if parts == [] then None else
    var later := LastTagPart(parts[1..]);
    if later.Some? then later else if IsTagPart(parts[0]) then Some(parts[0]) else None
  }

  lemma WimseTagPart(part: string)
    ensures IsWimseTag(part) <==> IsTagPart(part) && TagIn(part) == Some(WIMSE_TAG)
  {
    hide Trim, SplitOnce, NameText, StringValue;
  }

  /** A part sets the tag to its own if it is a tag parameter, and leaves it alone otherwise. */
  lemma TagAfterPart(part: string, p: SignatureParams)
    requires ApplyPart(part, p).Ok?
    ensures ApplyPart(part, p).value.tag == if IsTagPart(part) then TagIn(part) else p.tag
  {
    SplitTrimmed(part);
    var t := Trim(part);
    var split := SplitOnce(t, '=');
    if t == "" {
      BlankIsNoTag(part);
    } else if split.Some? {
      var name, raw := Trim(split.value.0), Trim(split.value.1);
      NamedText(name);
      NamesDiffer(Tag);
      hide Trim, SplitOnce, NameText, StringValue, ParseU64;
      if Named(name).Some? && Named(name) != Some(Tag) {
        TagUntouched(Named(name), raw, p);
      }
    }
  }

  lemma BlankIsNoTag(part: string)
    requires Trim(part) == ""
    ensures !IsTagPart(part)
  {
    SplitTrimmed(part);
    assert SplitOnce("", '=') == None;
  }

  lemma TagUntouched(name: Option<ParamName>, raw: string, p: SignatureParams)
    requires name.Some? && name != Some(Tag) && SetFromText(p, name.value, raw).Ok?
    ensures SetFromText(p, name.value, raw).value.tag == p.tag
  {
    hide ParseU64, StringValue;
  }

  /** Reading parts leaves the tag of the last tag part. */
  lemma {:induction false} TagAfterParts(parts: seq<string>, p: SignatureParams)
    requires ApplyParts(parts, p).Ok?
    ensures var last := LastTagPart(parts);
            ApplyParts(parts, p).value.tag == if last.Some? then TagIn(last.value) else p.tag
    decreases |parts|
  {
    if parts == [] {
    } else {
      var next := ApplyPart(parts[0], p).value;
      TagAfterPart(parts[0], p);
      hide ApplyPart, IsTagPart, TagIn;
      TagAfterParts(parts[1..], next);
    }
  }

  lemma {:induction false} LastTagIsPart(parts: seq<string>)
    ensures var last := LastTagPart(parts);
            if last.Some? then last.value in parts && IsTagPart(last.value)
            else forall part :: part in parts ==> !IsTagPart(part)
  {
    hide IsTagPart;
    if parts == [] {
    } else {
      LastTagIsPart(parts[1..]);
      HeadTail(parts);
    }
  }

  /** The raw parameters behind the inner list of a member value. */
  function PartsOf(rest: string): seq<string> {
    var text := Trim(rest);
    match FirstUnquoted(text, ')')
    case None => []
    case Some(close) => CutAtSemicolons(text[close + 1..])
  }

  /** The tag of a member that parses is the one of its last tag part. */
  lemma ParsedTagIsLast(name: string, rest: string)
    requires MemberOf(name, rest).Ok?
    ensures var last := LastTagPart(PartsOf(rest));
            MemberOf(name, rest).value.params.tag == if last.Some? then TagIn(last.value) else None
  {
    var close := MemberSteps(name, rest);
    hide Trim, MemberOf, ApplyParts, CutAtSemicolons, FirstUnquoted, TagIn, LastTagPart;
    TagAfterParts(CutAtSemicolons(Trim(rest)[close + 1..]), NO_PARAMS);
  }

  /**
   A member that parses has the WIMSE tag exactly when its last tag part is the
   WIMSE one, while the lenient tag test looks for any such part: it finds every
   such member, and others only if a WIMSE tag part is followed by another tag.
   */
  lemma ParsedTagIsFound(name: string, rest: string)
    requires MemberOf(name, rest).Ok?
    ensures var last := LastTagPart(PartsOf(rest));
            MemberOf(name, rest).value.params.tag == Some(WIMSE_TAG) <==> last.Some? && IsWimseTag(last.value)
    ensures HasWimseTag(rest) <==> AnyWimseTag(PartsOf(rest))
    ensures MemberOf(name, rest).value.params.tag == Some(WIMSE_TAG) ==> HasWimseTag(rest)
  {
    ParsedTagIsLast(name, rest);
    var parts := PartsOf(rest);
    LastTagIsPart(parts);
    var last := LastTagPart(parts);
    if last.Some? {
      WimseTagPart(last.value);
    }
    hide Trim, MemberOf, CutAtSemicolons, FirstUnquoted, TagIn, LastTagPart, IsWimseTag, IsTagPart;
    if last.Some? && IsWimseTag(last.value) {
      assert AnyWimseTag(parts) by { var i :| 0 <= i < |parts| && parts[i] == last.value; }
    }
  }

  /** Where the tag is set once at most, the lenient test finds exactly the members that parse with the WIMSE tag. */
  lemma SingleTagIsFound(name: string, rest: string)
    requires MemberOf(name, rest).Ok?
    requires var parts := PartsOf(rest);
             forall i, j :: 0 <= i < j < |parts| ==> !(IsTagPart(parts[i]) && IsTagPart(parts[j]))
    ensures HasWimseTag(rest) <==> MemberOf(name, rest).value.params.tag == Some(WIMSE_TAG)
  {
    var parts := PartsOf(rest);
    hide MemberOf, PartsOf, HasWimseTag, IsWimseTag, IsTagPart, TagIn, LastTagPart;
    ParsedTagIsFound(name, rest);
    LastTagIsPart(parts);
    if AnyWimseTag(parts) {
      var i :| 0 <= i < |parts| && IsWimseTag(parts[i]);
      WimseTagPart(parts[i]);
    }
  }

  // ---------- A tag set twice ----------

  function TagPart(tag: string): string {
    PartText(Tag, Text(tag))
  }

  /** A member over nothing whose `tag` is set to `first` and then to `second`. */
  function TwiceTagged(first: string, second: string): string {
    "(" + "" + ")" + PartsText([TagPart(first), TagPart(second)])
  }

  lemma TagPartShape(tag: string)
    ensures Quiet(TagPart(tag), {'(', ')', ','}) && Quiet(TagPart(tag), {';'})
    ensures TagPart(tag) != "" && Trimmed(TagPart(tag))
  {
    PartTextShape(Tag, Text(tag));
    hide PartText, IsSpace;
    FewerStops(Plain, TagPart(tag), {'(', ')', ','}, STOPS);
    FewerStops(Plain, TagPart(tag), {';'}, STOPS);
  }

  lemma TwoPartsCut(a: string, b: string)
    requires Quiet(a, {';'}) && Quiet(b, {';'})
    ensures CutAtSemicolons(PartsText([a, b])) == ["", a, b]
  {
    PlainIsQuiet("", {';'});
    PartsTextIsJoin([a, b]);
    hide Quiet, CutAtSemicolons, PartsText;
    assert [""] + [a, b] == ["", a, b];
    CutOfJoin(["", a, b]);
  }

  lemma TwoPartsEnd(a: string, b: string)
    requires Quiet(a, {'(', ')', ','}) && Quiet(b, {'(', ')', ','})
    requires a != "" && b != "" && Trimmed(a) && Trimmed(b)
    ensures Quiet(PartsText([a, b]), {'(', ')', ','})
    ensures PartsText([a, b]) != "" && !IsSpace(PartsText([a, b])[|PartsText([a, b])| - 1])
  {
    PartsTextShape([a, b]);
  }

  lemma TwoTagParts(first: string, second: string)
    ensures var text := PartsText([TagPart(first), TagPart(second)]);
            && CutAtSemicolons(text) == ["", TagPart(first), TagPart(second)]
            && Quiet(text, {'(', ')', ','}) && text != "" && !IsSpace(text[|text| - 1])
  {
    TagPartShape(first);
    TagPartShape(second);
    hide Quiet, TagPart, IsSpace, PartsText, CutAtSemicolons;
    TwoPartsCut(TagPart(first), TagPart(second));
    TwoPartsEnd(TagPart(first), TagPart(second));
  }

  lemma ThreeApplied(a: string, b: string, c: string, p: SignatureParams, q: SignatureParams,
                     r: Outcome<SignatureParams>)
    requires ApplyPart(a, p) == Ok(p) && ApplyPart(b, p) == Ok(q) && ApplyPart(c, q) == r && r.Ok?
    ensures ApplyParts([a, b, c], p) == r
  {
    hide ApplyPart;
    assert [a, b, c][1..] == [b, c] && [b, c][1..] == [c] && [c][1..] == [];
    assert ApplyParts([c], q) == r;
    assert ApplyParts([b, c], p) == r;
  }

  lemma AppliedTwice(first: string, second: string)
    ensures var parts := ["", TagPart(first), TagPart(second)];
            ApplyParts(parts, NO_PARAMS) == Ok(NO_PARAMS.(tag := Some(second)))
  {
    var once := NO_PARAMS.(tag := Some(first));
    TrimIdentity("");
    assert ApplyPart("", NO_PARAMS) == Ok(NO_PARAMS);
    hide ApplyPart, ApplyParts, PartText;
    ApplyPartText(Tag, Text(first), NO_PARAMS);
    ApplyPartText(Tag, Text(second), once);
    ThreeApplied("", TagPart(first), TagPart(second), NO_PARAMS, once, Ok(once.(tag := Some(second))));
  }

  /** An empty list before `tail`, read. */
  lemma EmptyListReads(name: string, tail: string, parts: seq<string>)
    requires CutAtSemicolons(tail) == parts && ApplyParts(parts, NO_PARAMS).Ok?
    requires tail != "" && !IsSpace(tail[|tail| - 1])
    ensures var rest := "(" + "" + ")" + tail;
            && PartsOf(rest) == parts
            && MemberOf(name, rest) == Ok(InputMember(name, [], ApplyParts(parts, NO_PARAMS).value, rest))
            && (HasWimseTag(rest) <==> AnyWimseTag(parts))
  {
    var rest := "(" + "" + ")" + tail;
    PlainIsQuiet("", {'(', ')', ','});
    hide CutAtSemicolons, ApplyParts, FirstUnquoted, AnyWimseTag, IsSpace;
    CloseAt("", tail);
    ListSlices("", tail);
    EmptyListTrims(tail);
    hide Trim;
    assert ComponentsOf(Words("")) == Ok([]);
  }

  lemma EmptyListTrims(tail: string)
    requires tail != "" && !IsSpace(tail[|tail| - 1])
    ensures Trim("(" + "" + ")" + tail) == "(" + "" + ")" + tail
  {
    ParenIsNoSpace();
    hide IsSpace, Trim;
    TrimIdentity("(" + "" + ")" + tail);
  }

  lemma AnyOfTwo(a: string, b: string)
    ensures AnyWimseTag(["", a, b]) <==> IsWimseTag(a) || IsWimseTag(b)
  {
    assert !IsWimseTag("");
    hide IsWimseTag;
    var parts := ["", a, b];
    assert parts[1] == a && parts[2] == b;
  }

  /** The second tag is the one that is read, while the lenient test reacts to either. */
  lemma LastTagWins(name: string, first: string, second: string)
    ensures var rest := TwiceTagged(first, second);
            && MemberOf(name, rest).Ok? && MemberOf(name, rest).value.params.tag == Some(second)
            && (HasWimseTag(rest) <==> first == WIMSE_TAG || second == WIMSE_TAG)
  {
    TwoTagParts(first, second);
    AppliedTwice(first, second);
    TagOfPart(Tag, Text(first));
    TagOfPart(Tag, Text(second));
    AnyOfTwo(TagPart(first), TagPart(second));
    hide Quiet, PartsText, CutAtSemicolons, ApplyParts, MemberOf, HasWimseTag, AnyWimseTag, IsWimseTag, IsSpace,
      PartText;
    EmptyListReads(name, PartsText([TagPart(first), TagPart(second)]), ["", TagPart(first), TagPart(second)]);
  }

  lemma TwoTaggedAreAmbiguous(a: Member, b: Member, config: VerifyConfig)
    requires config.Profiled() && HasWimseTag(a.rest) && HasWimseTag(b.rest)
    ensures Chosen([a, b], config) == Err(AmbiguousWimseSignature)
  {
    hide HasWimseTag;
    assert [a, b][1..] == [b] && [b][1..] == [];
    assert Tagged([b]) == [b];
    assert Tagged([a, b]) == [a, b];
  }

  lemma NothingChosen(field: string, members: seq<Member>, config: VerifyConfig)
    requires members != [] && DictionaryMembers(field) == Ok(members) && Chosen(members, config).Err?
    ensures SelectMember(field, config) == Err(Chosen(members, config).error)
  {
    hide DictionaryMembers, Chosen, MemberOf;
  }

  lemma TwiceTaggedIsSealed(name: string, first: string, second: string)
    requires IsKey(name)
    ensures WellSealed(Member(name, TwiceTagged(first, second)))
  {
    TwoTagParts(first, second);
    PlainIsQuiet("", {'(', ')', ','});
    hide WellSealed, IsKey, PartsText, Quiet, TagPart;
    ListMemberIsSealed(name, "", PartsText([TagPart(first), TagPart(second)]));
  }

  /**
   So a member of another hop that sets the WIMSE tag and then another one, and
   whose tag is that other one, keeps the WIMSE signature from being selected.
   */
  lemma RepeatedTagIsAmbiguous(other: string, name: string, tag: string, components: seq<Component>,
                               p: SignatureParams, config: VerifyConfig)
    requires IsKey(other) && IsKey(name) && other != name && AllWellFormed(components)
    requires p.tag == Some(WIMSE_TAG) && config.Profiled()
    ensures var members := [Member(other, TwiceTagged(WIMSE_TAG, tag)), Member(name, ParamsText(components, p))];
            SelectMember(Join(MemberTexts(members), ", "), config) == Err(AmbiguousWimseSignature)
  {
    var members := [Member(other, TwiceTagged(WIMSE_TAG, tag)), Member(name, ParamsText(components, p))];
    hide HasWimseTag, WellSealed, MemberOf, ParamsText, TwiceTagged, IsKey, DictionaryMembers, MemberTexts, Join,
      Chosen, SelectMember, AllWellFormed;
    LastTagWins(other, WIMSE_TAG, tag);
    TagOfPrinted(components, p);
    TwiceTaggedIsSealed(other, WIMSE_TAG, tag);
    PrintedIsSealed(name, components, p);
    SplitUndoesJoin(members);
    TwoTaggedAreAmbiguous(members[0], members[1], config);
    NothingChosen(Join(MemberTexts(members), ", "), members, config);
  }
}
