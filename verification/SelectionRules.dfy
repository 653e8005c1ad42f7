/** Which member of an accepted field is selected, and which failure says that none is. */
module SelectionRules {
  import opened Wrappers
  import opened Text
  import opened Errors
  import opened Scanner
  import opened SfStrings
  import opened Dictionary
  import opened Members
  import opened Selection

  // ---------- The chosen member ----------

  lemma {:induction false} FindNamedAt(members: seq<Member>, k: nat)
    requires k < |members| && DistinctLabels(members)
    ensures FindNamed(members, members[k].name) == Some(members[k])
  {
    if k == 0 {
    } else {
      var rest := members[1..];
      assert rest[k - 1] == members[k];
      FindNamedAt(rest, k - 1);
    }
  }

  ghost predicate NoneIsNamed(members: seq<Member>, name: string) {
    forall i :: 0 <= i < |members| ==> members[i].name != name
  }

  lemma {:induction false} NotNamed(members: seq<Member>, name: string)
    requires NoneIsNamed(members, name)
    ensures FindNamed(members, name) == None
  {
    if members == [] {
    } else {
      NotNamed(members[1..], name);
    }
  }

  lemma {:induction false} TaggedAt(members: seq<Member>, i: nat)
    requires i < |members| && HasWimseTag(members[i].rest)
    ensures Tagged(members) != []
  {
    hide HasWimseTag;
    if i == 0 {
    } else {
      TaggedAt(members[1..], i - 1);
    }
  }

  lemma {:induction false} TwoTagged(members: seq<Member>, i: nat, j: nat)
    requires i < j < |members| && HasWimseTag(members[i].rest) && HasWimseTag(members[j].rest)
    ensures |Tagged(members)| > 1
  {
    hide HasWimseTag;
    if i == 0 {
      TaggedAt(members[1..], j - 1);
    } else {
      TwoTagged(members[1..], i - 1, j - 1);
    }
  }

  /** The member at `k` is the one to verify: the WIMSE one under a profile, else the one with the configured label. */
  ghost predicate IsMeant(members: seq<Member>, k: int, config: VerifyConfig) {
    && 0 <= k < |members|
    && if config.Profiled() then |members| == 1 || OnlyTagged(members, k)
       else config.name == Some(members[k].name) || (config.name.None? && |members| == 1)
  }

  ghost predicate NoneIsTagged(members: seq<Member>) {
    forall i :: 0 <= i < |members| ==> !HasWimseTag(members[i].rest)
  }

  ghost predicate SeveralAreTagged(members: seq<Member>) {
    exists i, j :: 0 <= i < j < |members| && HasWimseTag(members[i].rest) && HasWimseTag(members[j].rest)
  }

  /**
   Selection, for every field and configuration: the meant member is parsed, and
   where none is meant, the failure says why. The label plays no part under a
   profile, and a lone member is judged as the WIMSE one there.
   */
  lemma SelectionIsExact(signatureInput: string, members: seq<Member>, config: VerifyConfig)
    requires DictionaryMembers(signatureInput) == Ok(members)
    ensures var r := SelectMember(signatureInput, config);
            && (forall k :: IsMeant(members, k, config) ==> r == MemberOf(members[k].name, members[k].rest))
            && (config.Profiled() && |members| > 1 && NoneIsTagged(members) ==> r == Err(NoWimseSignature))
            && (config.Profiled() && |members| > 1 && SeveralAreTagged(members) ==> r == Err(AmbiguousWimseSignature))
            && (!config.Profiled() && config.name.None? && |members| > 1 ==> r == Err(LabelMismatch))
            && (!config.Profiled() && config.name.Some? && NoneIsNamed(members, config.name.value) ==>
                  r == Err(LabelMismatch))
  {
    AcceptedDictionary(signatureInput);
    hide DictionaryMembers, HasWimseTag, MemberOf, CutAtCommas, SplitMembers, FirstComma, Join, Chosen, SelectMember;
    hide DistinctLabels;
    SelectsByChosen(signatureInput, members, config);
    NothingMeant(members, config);
    forall k | IsMeant(members, k, config)
      ensures SelectMember(signatureInput, config) == MemberOf(members[k].name, members[k].rest)
    {
      MeantIsChosen(members, k, config);
    }
  }

  lemma SelectsByChosen(field: string, members: seq<Member>, config: VerifyConfig)
    requires members != [] && DictionaryMembers(field) == Ok(members)
    ensures Chosen(members, config).Err? ==> SelectMember(field, config) == Err(Chosen(members, config).error)
    ensures Chosen(members, config).Ok? ==>
              var member := Chosen(members, config).value;
              config.Profiled() || config.name.None? || config.name.value == member.name ==>
                SelectMember(field, config) == MemberOf(member.name, member.rest)
    ensures Chosen(members, config).Ok? ==>
              !config.Profiled() && config.name.Some? && config.name.value != Chosen(members, config).value.name ==>
                SelectMember(field, config) == Err(LabelMismatch)
  {
    hide DictionaryMembers, Chosen, MemberOf;
  }

  lemma NothingMeant(members: seq<Member>, config: VerifyConfig)
    requires members != []
    ensures var r := Chosen(members, config);
            && (config.Profiled() && |members| > 1 && NoneIsTagged(members) ==> r == Err(NoWimseSignature))
            && (config.Profiled() && |members| > 1 && SeveralAreTagged(members) ==> r == Err(AmbiguousWimseSignature))
            && (!config.Profiled() && config.name.None? && |members| > 1 ==> r == Err(LabelMismatch))
            && (!config.Profiled() && config.name.Some? && NoneIsNamed(members, config.name.value) ==>
                  r == Err(LabelMismatch) || (r.Ok? && config.name.value != r.value.name))
  {
    hide HasWimseTag;
    NoneTagged(members);
    if SeveralAreTagged(members) {
      var i, j :| 0 <= i < j < |members| && HasWimseTag(members[i].rest) && HasWimseTag(members[j].rest);
      TwoTagged(members, i, j);
    }
    if config.name.Some? && NoneIsNamed(members, config.name.value) {
      NotNamed(members, config.name.value);
    }
  }

  lemma MeantIsChosen(members: seq<Member>, k: nat, config: VerifyConfig)
    requires DistinctLabels(members) && IsMeant(members, k, config)
    ensures Chosen(members, config) == Ok(members[k])
    ensures config.Profiled() || config.name.None? || config.name.value == members[k].name
  {
    hide HasWimseTag;
    if config.Profiled() {
      if |members| > 1 {
        OneTagged(members, k);
      }
    } else if config.name.Some? {
      FindNamedAt(members, k);
    }
  }

  /** A field that is no dictionary fails as such. */
  lemma BadFieldFails(signatureInput: string, config: VerifyConfig)
    requires DictionaryMembers(signatureInput).Err?
    ensures SelectMember(signatureInput, config) == Err(DictionaryMembers(signatureInput).error)
  {
    hide DictionaryMembers, Chosen, MemberOf;
  }

  /** Without a profile, the configured label picks its member out of any others, in any order. */
  lemma LabelSelects(members: seq<Member>, k: nat, config: VerifyConfig)
    requires !config.Profiled() && k < |members| && config.name == Some(members[k].name)
    requires DistinctLabels(members) && forall i :: 0 <= i < |members| ==> WellSealed(members[i])
    ensures SelectMember(Join(MemberTexts(members), ", "), config) == MemberOf(members[k].name, members[k].rest)
  {
    SplitUndoesJoin(members);
    hide DictionaryMembers, MemberTexts, Join, MemberOf, WellSealed, SelectMember;
    SelectionIsExact(Join(MemberTexts(members), ", "), members, config);
    assert IsMeant(members, k, config);
  }

  /** Without a profile and without its label among them, or without a label for several, no member is selected. */
  lemma WrongLabelSelectsNothing(members: seq<Member>, config: VerifyConfig)
    requires !config.Profiled() && |members| > 0
    requires DistinctLabels(members) && forall i :: 0 <= i < |members| ==> WellSealed(members[i])
    requires if config.name.None? then |members| > 1
             else NoneIsNamed(members, config.name.value)
    ensures SelectMember(Join(MemberTexts(members), ", "), config) == Err(LabelMismatch)
  {
    SplitUndoesJoin(members);
    hide DictionaryMembers, MemberTexts, Join, MemberOf, WellSealed, SelectMember;
    SelectionIsExact(Join(MemberTexts(members), ", "), members, config);
  }

  /** Without a profile and without a label, a lone member is the one. */
  lemma LoneIsSelected(member: Member, config: VerifyConfig)
    requires !config.Profiled() && config.name.None? && WellSealed(member)
    ensures SelectMember(MemberText(member), config) == MemberOf(member.name, member.rest)
  {
    SplitUndoesJoin([member]);
    assert MemberTexts([member]) == [MemberText(member)];
    hide DictionaryMembers, MemberTexts, MemberText, MemberOf, WellSealed, SelectMember;
    SelectionIsExact(MemberText(member), [member], config);
    assert IsMeant([member], 0, config);
  }

  // ---------- The tag test ----------

  /** A value without an unquoted `)` makes no sense, and is not the WIMSE one. */
  lemma UnclosedIsUntagged(rest: string)
    requires FirstUnquoted(Trim(rest), ')') == None
    ensures !HasWimseTag(rest)
  {
  }

  /** A tag parameter, however it is spaced, is the WIMSE one exactly when its value is that string. */
  lemma TagPartWrittenOut(a: string, b: string, c: string, tag: string, d: string)
    requires AllSpace(a) && AllSpace(b) && AllSpace(c) && AllSpace(d)
    ensures IsWimseTag(a + "tag" + b + "=" + (c + StringText(tag) + d)) <==> tag == "wimse-workload-to-workload"
  {
    var before, after := a + "tag" + b, c + StringText(tag) + d;
    TagNameTrims(a, b);
    StringTextTrims(c, tag, d);
    StringRoundTrip(tag);
    hide Trim, IsSpace, StringText, StringValue, IsWimseTag;
    assert before + "=" + after == before + ['='] + after;
    SplitOnceFirst(before, '=', after);
    TagOfSplit(before + "=" + after, before, after, tag);
  }

  lemma TagOfSplit(part: string, before: string, after: string, tag: string)
    requires SplitOnce(part, '=') == Some((before, after))
    requires Trim(before) == "tag" && StringValue(Trim(after)) == Ok(tag)
    ensures IsWimseTag(part) <==> tag == "wimse-workload-to-workload"
  {
    hide Trim, SplitOnce, StringValue;
  }

  lemma TagNameTrims(a: string, b: string)
    requires AllSpace(a) && AllSpace(b)
    ensures Trim(a + "tag" + b) == "tag" && '=' !in a + "tag" + b
  {
    EqualsIsNoSpace(a);
    EqualsIsNoSpace(b);
    assert !IsSpace('t') && !IsSpace('g');
    hide IsSpace, Trim;
    TrimCuts(a, "tag", b);
    assert '=' !in "tag";
  }

  lemma StringTextTrims(c: string, s: string, d: string)
    requires AllSpace(c) && AllSpace(d)
    ensures Trim(c + StringText(s) + d) == StringText(s)
  {
    assert !IsSpace('"');
    hide IsSpace, Trim, EscapedText;
    var t := StringText(s);
    assert t[0] == '"' && t[|t| - 1] == '"';
    TrimCuts(c, t, d);
  }

  /** A parameter of another name is no tag, whatever its value. */
  lemma OtherNameIsNoTag(name: string, raw: string)
    requires '=' !in name && Trim(name) != "tag"
    ensures !IsWimseTag(name + "=" + raw) && !IsWimseTag(name)
  {
    assert name + "=" + raw == name + ['='] + raw;
    SplitOnceFirst(name, '=', raw);
    IndexOfIsFirst(name, '=');
    hide Trim, StringValue;
  }
}
