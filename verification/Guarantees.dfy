/** What an accepted signature guarantees, and what it does not depend on. */
module Guarantees {
  import opened Wrappers
  import opened Text
  import opened Errors
  import opened Dictionary
  import opened Components
  import opened Params
  import opened Members
  import opened Selection
  import opened SignatureBase
  import opened BaseAlignment
  import opened Verification
  import opened Policy

  // ---------- What acceptance means ----------

  ghost predicate KeyAccepts(key: VerifyingKey, base: Outcome<string>, bytes: Raw) {
    base.Ok? && key.accepts(base.value, bytes)
  }

  /** The rules of a configuration for a covered list and its parameters, as a recipient would state them. */
  ghost predicate Obeys(m: Message, components: seq<Component>, p: SignatureParams, algorithm: Algorithm,
                        config: VerifyConfig)
  {
    && (config.wimseProfile ==> Conforms(p, ALWAYS_REQUIRED + {WimseAud}, ALWAYS_FORBIDDEN))
    && (config.wimseResponseProfile ==> Conforms(p, ALWAYS_REQUIRED + {WimseReqNonce}, ALWAYS_FORBIDDEN + {WimseAud}))
    && (config.Profiled() ==> NoTargetOnConnect(m, components, config.wimseResponseProfile))
    && (config.acceptedAlgorithms == [] || algorithm in config.acceptedAlgorithms)
    && (p.alg.Some? ==> p.alg.value == Rfc9421Name(algorithm))
    && (forall c :: c in config.required ==> Covers(components, c))
    && (config.wimseProfile || config.expectedAudiences != [] ==>
          p.wimseAud.Some? && p.wimseAud.value in config.expectedAudiences)
    && (config.expectedReqNonce.Some? ==> p.wimseReqNonce == config.expectedReqNonce)
    && InWindow(p, config)
  }

  /** A signature on a CONNECT covers neither path nor query. */
  ghost predicate NoTargetOnConnect(m: Message, components: seq<Component>, response: bool) {
    ComponentValue(m, Target(response, Method)) == Ok(CONNECT) ==>
      !Covers(components, Target(response, Path)) && !Covers(components, Target(response, Query))
  }

  /** A member and signature bytes are accepted: the base exists, the key accepts it, and the rules are obeyed. */
  ghost predicate Admitted(m: Message, member: InputMember, bytes: Raw, key: VerifyingKey, config: VerifyConfig) {
    && OneLine(member.text) && AllDerivable(m, member.components)
    && KeyAccepts(key, BaseText(m, member.components, member.text), bytes)
    && Obeys(m, member.components, member.params, key.algorithm, config)
  }

  lemma ObeysMeans(m: Message, member: InputMember, algorithm: Algorithm, config: VerifyConfig)
    ensures Obeys(m, member.components, member.params, algorithm, config) <==>
            && CheckProfile(m, member, config).Ok?
            && CheckAlgorithm(member.params, algorithm, config).Ok?
            && CheckPolicy(member.components, member.params, config).Ok?
  {
    ProfilesAreExact(member.params);
    PolicySplits(member.components, member.params, config);
    RequiredCovered(member.components, config.required);
    TimeIsExact(member.params, config);
    hide CheckRequestProfile, CheckResponseProfile, CheckPolicy, CheckRequired, CheckTime, InWindow, Conforms,
      Covers, ComponentValue;
  }

  /**
   Acceptance, step by step rules replaced by their meaning: exactly when a
   member is selected, its signature parses, the key accepts the base, and the
   configuration's rules are obeyed. Both profiles at once accept nothing.
   */
  lemma AcceptedMeans(m: Message, signatureInput: string, signature: string, key: VerifyingKey,
                      base64: Base64, config: VerifyConfig)
    ensures Verify(m, signatureInput, signature, key, base64, config).Ok? <==>
            && SelectMember(signatureInput, config).Ok?
            && var member := SelectMember(signatureInput, config).value;
            && ParseSignature(signature, member.name, base64).Ok?
            && Admitted(m, member, ParseSignature(signature, member.name, base64).value, key, config)
    ensures Verify(m, signatureInput, signature, key, base64, config).Ok? ==>
            var member := SelectMember(signatureInput, config).value;
            && Verify(m, signatureInput, signature, key, base64, config).value
               == VerifiedSignature(member.name, member.components, member.params)
            && !(config.wimseProfile && config.wimseResponseProfile)
  {
    hide SelectMember, ParseSignature, Judge, Admitted;
    if SelectMember(signatureInput, config).Ok? {
      var member := SelectMember(signatureInput, config).value;
      var bytes := ParseSignature(signature, member.name, base64);
      if bytes.Ok? {
        JudgeMeans(m, member, bytes.value, key, config);
      }
    }
  }

  lemma JudgeMeans(m: Message, member: InputMember, bytes: Raw, key: VerifyingKey, config: VerifyConfig)
    ensures Judge(m, member, bytes, key, config).Ok? <==> Admitted(m, member, bytes, key, config)
    ensures Judge(m, member, bytes, key, config).Ok? ==>
              && Judge(m, member, bytes, key, config).value
                 == VerifiedSignature(member.name, member.components, member.params)
              && !(config.wimseProfile && config.wimseResponseProfile)
  {
    JudgeAccepts(m, member, bytes, key, config);
    ObeysMeans(m, member, key.algorithm, config);
    LinesExist(m, member.components);
    ProfilesExclude(member.params);
    hide Judge, Obeys, CheckAlgorithm, CheckPolicy, Lines, OneLine, AllDerivable, CheckRequestProfile,
      CheckResponseProfile;
  }

  /** No parameters conform to both profiles: one requires the audience that the other forbids. */
  lemma ProfilesExclude(p: SignatureParams)
    ensures !(CheckRequestProfile(p).Ok? && CheckResponseProfile(p).Ok?)
  {
  }

  // ---------- Tamper evidence ----------

  /** Something a signer put its key to: a message, the covered components and the parameters. */
  datatype Signing = Signing(message: Message, components: seq<Component>, params: SignatureParams)

  function SignedText(s: Signing): Outcome<string> {
    BaseText(s.message, s.components, ParamsText(s.components, s.params))
  }

  /** The key accepts `bytes` for no text but those that the signings in `signed` produced. */
  ghost predicate OnlySigned(key: VerifyingKey, bytes: Raw, signed: seq<Signing>) {
    forall text :: key.accepts(text, bytes) ==>
      exists i :: 0 <= i < |signed| && SignedText(signed[i]) == Ok(text)
  }

  /** A selected member is a function of its verbatim text. */
  lemma SelectedReadsText(signatureInput: string, config: VerifyConfig)
    requires SelectMember(signatureInput, config).Ok?
    ensures var member := SelectMember(signatureInput, config).value;
            MemberOf(member.name, member.text) == Ok(member)
  {
    var chosen := SelectedIsParsed(signatureInput, config);
    hide SelectMember, MemberOf, DictionaryMembers, Chosen;
    MemberOfText(chosen.name, chosen.rest, chosen.name);
  }

  /**
   The verified signature is what was signed: the same parameters, the same
   identifiers and values, and the same components but for header names that
   are taken for derived components.
   */
  ghost predicate Vouches(s: Signing, m: Message, v: VerifiedSignature) {
    && v.params == s.params
    && SignedAs(s.message, s.components, m, v.components)
    && (v.components == s.components <==> NoneTaken(s.components))
  }

  lemma SameBaseSameSigning(m: Message, member: InputMember, s: Signing)
    requires MemberOf(member.name, member.text) == Ok(member)
    requires BaseText(m, member.components, member.text).Ok?
    requires BaseText(m, member.components, member.text) == SignedText(s)
    ensures Vouches(s, m, VerifiedSignature(member.name, member.components, member.params))
  {
    SameBaseSignedAs(m, member, s.message, s.components, s.params);
    hide MemberOf, ParamsText, BaseText, ReadsAs;
    ReadsAsItself(s.components, member.components);
  }

  /**
   If the received bytes are a signature for no texts but those of `signed`, an
   accepted message agrees with one of the signings, whatever was signed: same
   parameters, same identifiers, and the same value for every covered component.
   */
  lemma TamperEvidence(m: Message, signatureInput: string, signature: string, key: VerifyingKey, base64: Base64,
                       config: VerifyConfig, signed: seq<Signing>)
    requires var bytes := CheckedBytes(signatureInput, signature, base64, config);
             bytes.Ok? ==> OnlySigned(key, bytes.value, signed)
    requires Verify(m, signatureInput, signature, key, base64, config).Ok?
    ensures var verified := Verify(m, signatureInput, signature, key, base64, config).value;
            exists i :: 0 <= i < |signed| && Vouches(signed[i], m, verified)
  {
    VerifyAccepts(m, signatureInput, signature, key, base64, config);
    SelectedReadsText(signatureInput, config);
    var member := SelectMember(signatureInput, config).value;
    var bytes := ParseSignature(signature, member.name, base64).value;
    hide SelectMember, ParseSignature, Verify, MemberOf, SignedText, CheckProfile, CheckAlgorithm, CheckPolicy,
      BaseText, Vouches;
    assert CheckedBytes(signatureInput, signature, base64, config) == Ok(bytes);
    var text := BaseText(m, member.components, member.text).value;
    assert key.accepts(text, bytes);
    var i :| 0 <= i < |signed| && SignedText(signed[i]) == Ok(text);
    SameBaseSameSigning(m, member, signed[i]);
  }

  /** One signing that gives every component of `required` the value it has in `m`. */
  ghost predicate GivesValues(s: Signing, m: Message, required: seq<Component>) {
    forall c :: c in required ==> ComponentValue(m, c).Ok? && ComponentValue(s.message, c) == ComponentValue(m, c)
  }

  /** All components the recipient requires have, in the accepted message, the values they had in one signing. */
  lemma RequiredValuesAreSigned(m: Message, signatureInput: string, signature: string, key: VerifyingKey,
                                base64: Base64, config: VerifyConfig, signed: seq<Signing>)
    requires forall i :: 0 <= i < |signed| ==> NoneTaken(signed[i].components)
    requires var bytes := CheckedBytes(signatureInput, signature, base64, config);
             bytes.Ok? ==> OnlySigned(key, bytes.value, signed)
    requires Verify(m, signatureInput, signature, key, base64, config).Ok?
    ensures var verified := Verify(m, signatureInput, signature, key, base64, config).value;
            exists i :: 0 <= i < |signed| && Vouches(signed[i], m, verified)
                     && GivesValues(signed[i], m, config.required)
  {
    TamperEvidence(m, signatureInput, signature, key, base64, config, signed);
    var verified := Verify(m, signatureInput, signature, key, base64, config).value;
    RequiredAreCovered(m, signatureInput, signature, key, base64, config);
    hide Verify, CheckedBytes, ComponentValue, Covers, OnlySigned, NoneTaken, ReadsAs;
    var i :| 0 <= i < |signed| && Vouches(signed[i], m, verified);
    forall c | c in config.required
      ensures ComponentValue(m, c).Ok? && ComponentValue(signed[i].message, c) == ComponentValue(m, c)
    {
      CoveredValueIsSame(signed[i].message, m, verified.components, c);
    }
  }

  lemma RequiredAreCovered(m: Message, signatureInput: string, signature: string, key: VerifyingKey,
                           base64: Base64, config: VerifyConfig)
    requires Verify(m, signatureInput, signature, key, base64, config).Ok?
    ensures var components := Verify(m, signatureInput, signature, key, base64, config).value.components;
            forall c :: c in config.required ==> Covers(components, c)
  {
    AcceptedMeans(m, signatureInput, signature, key, base64, config);
    hide Verify, SelectMember, ParseSignature, Covers, AllDerivable, InWindow, Conforms, KeyAccepts;
  }

  lemma CoveredValueIsSame(a: Message, b: Message, components: seq<Component>, c: Component)
    requires SameValues(a, b, components) && Covers(components, c)
    ensures ComponentValue(b, c).Ok? && ComponentValue(a, c) == ComponentValue(b, c)
  {
    hide ComponentValue, Same;
    var j :| 0 <= j < |components| && Same(components[j], c);
    SameHasSameValue(a, components[j], c);
    SameHasSameValue(b, components[j], c);
  }

  // ---------- The WIMSE signature is unique ----------

  lemma ProfileFixesTag(m: Message, member: InputMember, config: VerifyConfig)
    requires config.Profiled() && CheckProfile(m, member, config).Ok?
    ensures member.params.tag == Some(WIMSE_TAG)
  {
  }

  /**
   Accepting under a WIMSE profile means that exactly one member of the field
   carries the WIMSE tag, and that this is the member that was verified.
   */
  lemma AcceptedTagIsUnique(m: Message, signatureInput: string, signature: string, key: VerifyingKey, base64: Base64,
                            config: VerifyConfig)
    returns (k: nat)
    requires config.Profiled() && Verify(m, signatureInput, signature, key, base64, config).Ok?
    ensures DictionaryMembers(signatureInput).Ok?
    ensures var members := DictionaryMembers(signatureInput).value;
            var verified := Verify(m, signatureInput, signature, key, base64, config).value;
            && OnlyTagged(members, k)
            && verified.name == members[k].name
            && MemberOf(members[k].name, members[k].rest).Ok?
            && MemberOf(members[k].name, members[k].rest).value.components == verified.components
            && MemberOf(members[k].name, members[k].rest).value.params == verified.params
  {
    VerifyAccepts(m, signatureInput, signature, key, base64, config);
    var chosen := SelectedIsParsed(signatureInput, config);
    var members := DictionaryMembers(signatureInput).value;
    var member := SelectMember(signatureInput, config).value;
    hide SelectMember, ParseSignature, Verify, MemberOf, CheckAlgorithm, CheckPolicy, BaseText,
      DictionaryMembers, HasWimseTag;
    ProfileFixesTag(m, member, config);
    MemberOfText(chosen.name, chosen.rest, chosen.name);
    hide CheckProfile;
    if |members| == 1 {
      k := 0;
      ParsedTagIsFound(chosen.name, chosen.rest);
    } else {
      k := TheOneTagged(members);
    }
  }

  // ---------- What is not covered does not matter ----------

  /** Both messages give `c` the same value, or fail on it alike. */
  predicate Agree(a: Message, b: Message, c: Component) {
    ComponentValue(a, c) == ComponentValue(b, c)
  }

  lemma {:induction false} SameLines(a: Message, b: Message, components: seq<Component>)
    requires forall c :: c in components ==> Agree(a, b, c)
    ensures Lines(a, components) == Lines(b, components)
  {
    hide ComponentValue, Line, OneLine;
    if components == [] {
    } else {
      SameLines(a, b, components[1..]);
      assert Agree(a, b, components[0]);
    }
  }

  /** Messages that agree on the covered components and on the method the profile reads verify alike. */
  lemma UncoveredIsIgnored(a: Message, b: Message, signatureInput: string, signature: string, key: VerifyingKey,
                           base64: Base64, config: VerifyConfig)
    requires SelectMember(signatureInput, config).Ok? ==>
               forall c :: c in SelectMember(signatureInput, config).value.components ==> Agree(a, b, c)
    requires config.Profiled() ==> Agree(a, b, Target(config.wimseResponseProfile, Method))
    ensures Verify(a, signatureInput, signature, key, base64, config)
         == Verify(b, signatureInput, signature, key, base64, config)
  {
    hide SelectMember, ParseSignature, Lines;
    if SelectMember(signatureInput, config).Ok? {
      var member := SelectMember(signatureInput, config).value;
      var bytes := ParseSignature(signature, member.name, base64);
      if bytes.Ok? {
        SameJudge(a, b, member, bytes.value, key, config);
      }
      hide Judge;
    }
  }

  lemma SameJudge(a: Message, b: Message, member: InputMember, bytes: Raw, key: VerifyingKey, config: VerifyConfig)
    requires forall c :: c in member.components ==> Agree(a, b, c)
    requires config.Profiled() ==> Agree(a, b, Target(config.wimseResponseProfile, Method))
    ensures Judge(a, member, bytes, key, config) == Judge(b, member, bytes, key, config)
  {
    SameLines(a, b, member.components);
    hide Lines, ComponentValue, OneLine, CheckAlgorithm, CheckPolicy, CheckRequestProfile, CheckResponseProfile;
    assert CheckProfile(a, member, config) == CheckProfile(b, member, config);
    assert BaseText(a, member.components, member.text) == BaseText(b, member.components, member.text);
    hide CheckProfile, BaseText;
  }

  /** The fields of the message itself, or of the request it answers. */
  function FieldsOf(m: Message, answered: bool): seq<Field> {
    match m
    case Request(r) => r.headers
    case Exchange(response, r) => if answered then r.headers else response.headers
  }

  function WithFields(m: Message, answered: bool, fields: seq<Field>): Message {
    match m
    case Request(r) => Request(r.(headers := fields))
    case Exchange(response, r) =>
      if answered then Exchange(response, r.(headers := fields))
      else Exchange(response.(headers := fields), r)
  }

  /** Whether `c` is a header component naming the field `name`, at any `;req` depth. */
  predicate Mentions(c: Component, name: string) {
    Base(c).Header? && SameIgnoringCase(name, Base(c).name)
  }

  lemma {:induction false} OtherFieldIgnored(before: seq<Field>, f: Field, after: seq<Field>, name: string)
    requires !SameIgnoringCase(f.name, name)
    ensures FieldValues(before + [f] + after, name) == FieldValues(before + after, name)
  {
    hide SameIgnoringCase, Trim;
    if before == [] {
      assert (before + [f] + after)[0] == f && (before + [f] + after)[1..] == after == before + after;
    } else {
      assert (before + [f] + after)[1..] == before[1..] + [f] + after;
      assert (before + after)[1..] == before[1..] + after;
      OtherFieldIgnored(before[1..], f, after, name);
    }
  }

  lemma RequestInsertionAgrees(before: seq<Field>, f: Field, after: seq<Field>, c: Component)
    requires !Mentions(c, f.name)
    ensures forall r: HttpRequest :: r.headers == before + after ==>
              RequestValue(r.(headers := before + [f] + after), c) == RequestValue(r, c)
  {
    hide FieldValues, Join, Lower;
    if c.Header? {
      OtherFieldIgnored(before, f, after, c.name);
    }
  }

  lemma InsertionAgrees(m: Message, answered: bool, before: seq<Field>, f: Field, after: seq<Field>, c: Component)
    requires FieldsOf(m, answered) == before + after && !Mentions(c, f.name)
    ensures Agree(m, WithFields(m, answered, before + [f] + after), c)
  {
    hide FieldValues, Join, Lower, Decimal;
    RequestInsertionAgrees(before, f, after, c);
    if c.Req? {
      assert Base(c) == Base(c.base);
      RequestInsertionAgrees(before, f, after, c.base);
    } else if c.Header? {
      OtherFieldIgnored(before, f, after, c.name);
    }
  }

  /**
   Inserting, anywhere among the fields of the message or of the answered
   request, a field that no covered header names leaves the verdict unchanged.
   */
  lemma UncoveredFieldIsIgnored(m: Message, answered: bool, before: seq<Field>, f: Field, after: seq<Field>,
                                signatureInput: string, signature: string, key: VerifyingKey,
                                base64: Base64, config: VerifyConfig)
    requires FieldsOf(m, answered) == before + after
    requires SelectMember(signatureInput, config).Ok? ==>
               forall c :: c in SelectMember(signatureInput, config).value.components ==> !Mentions(c, f.name)
    ensures Verify(WithFields(m, answered, before + [f] + after), signatureInput, signature, key, base64, config)
         == Verify(m, signatureInput, signature, key, base64, config)
  {
    var other := WithFields(m, answered, before + [f] + after);
    InsertionAgrees(m, answered, before, f, after, Target(config.wimseResponseProfile, Method));
    hide SelectMember, Verify, Agree, Mentions, WithFields;
    if SelectMember(signatureInput, config).Ok? {
      forall c | c in SelectMember(signatureInput, config).value.components ensures Agree(m, other, c) {
        InsertionAgrees(m, answered, before, f, after, c);
      }
    }
    UncoveredIsIgnored(m, other, signatureInput, signature, key, base64, config);
  }
}
