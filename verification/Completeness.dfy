/** Freshly signed messages verify: signing and verifying agree on every input they are meant for. */
module Completeness {
  import opened Wrappers
  import opened Text
  import opened Bytes
  import opened Scanner
  import opened SfStrings
  import opened Dictionary
  import opened Components
  import opened Params
  import opened ParamsRoundTrip
  import opened Members
  import opened Selection
  import opened SelectionRules
  import opened SignatureBase
  import opened Verification
  import opened RequiredComponents
  import opened Policy

  // ---------- When signing succeeds ----------

  /** Signing succeeds exactly when every component has a value, and no value and no parameter holds a CR or LF. */
  lemma SigningSucceeds(m: Message, components: seq<Component>, p: SignatureParams, name: string,
                        signer: SigningKey, base64: Base64)
    requires AllWellFormed(components)
    ensures Sign(m, components, p, name, signer, base64).Ok? <==> AllDerivable(m, components) && TextsOneLine(p, 0)
  {
    ParamsTextOneLine(components, p);
    LinesExist(m, components);
    hide ParamsText, TextsOneLine, AllDerivable, Lines, OneLine;
  }

  lemma ParamsTextOneLine(components: seq<Component>, p: SignatureParams)
    requires AllWellFormed(components)
    ensures OneLine(ParamsText(components, p)) <==> TextsOneLine(p, 0)
  {
    ListShape(components);
    PartsTextOneLine(p, 0);
    var inner, tail := Join(Ids(components), " "), PartsText(Parts(p, 0));
    ParensOneLine();
    hide TextsOneLine, Parts, PartsText, Ids, Join, OneLine, Quiet, Words;
    OneLineConcat("(" + inner + ")", tail);
    OneLineConcat("(" + inner, ")");
    OneLineConcat("(", inner);
  }

  lemma ParensOneLine()
    ensures OneLine("(") && OneLine(")")
  {
  }

  // ---------- Signed fields read back ----------

  /** All that is assumed of base64: decoding undoes encoding, and the text avoids the field syntax. */
  ghost predicate Lawful(base64: Base64) {
    forall bytes: seq<byte> :: base64.decode(base64.encode(bytes)) == Some(bytes) && IsBase64Text(base64.encode(bytes))
  }

  ghost predicate IsBase64Text(s: string) {
    forall i :: 0 <= i < |s| ==> s[i] !in {',', '"', '(', ')', ':'} && !IsSpace(s[i])
  }

  lemma LoneMember(m: Member)
    requires WellSealed(m)
    ensures DictionaryMembers(MemberText(m)) == Ok([m])
  {
    SplitUndoesJoin([m]);
    assert MemberTexts([m]) == [MemberText(m)];
  }

  lemma SignatureIsSealed(name: string, encoded: string)
    requires IsKey(name) && IsBase64Text(encoded)
    ensures WellSealed(Member(name, ":" + encoded + ":"))
  {
    var rest := ":" + encoded + ":";
    var m := Member(name, rest);
    var stops := {'(', ')', ','};
    KeyIsPlain(name);
    forall i | 0 <= i < |rest| ensures rest[i] != '"' && rest[i] !in stops {
      assert rest[i] == if i == 0 || i == |rest| - 1 then ':' else encoded[i - 1];
    }
    PlainIsQuiet(rest, stops);
    PlainIsQuiet("=", stops);
    QuietConcat(name, "=", stops);
    QuietConcat(name + "=", rest, stops);
    QuietPasses(MemberText(m), 0);
    PassesIsSealed(MemberText(m));
    assert MemberText(m)[0] == name[0] && MemberText(m)[|MemberText(m)| - 1] == ':';
  }

  lemma SignatureReadsBack(name: string, bytes: Raw, base64: Base64)
    requires IsKey(name) && Lawful(base64)
    ensures ParseSignature(name + "=" + (":" + base64.encode(bytes) + ":"), name, base64) == Ok(bytes)
  {
    var plain: seq<byte> := bytes;
    var encoded := base64.encode(plain);
    assert IsBase64Text(encoded) && base64.decode(encoded) == Some(plain);
    var rest := ":" + encoded + ":";
    var m := Member(name, rest);
    SignatureIsSealed(name, encoded);
    hide IsKey, WellSealed, DictionaryMembers, Lawful;
    LoneMember(m);
    assert Trim(rest) == rest by {
      assert rest[0] == ':' && rest[|rest| - 1] == ':';
      TrimIdentity(rest);
    }
    hide Trim;
    assert rest[1..|rest| - 1] == encoded;
  }

  lemma InputReadsBack(name: string, components: seq<Component>, p: SignatureParams, config: VerifyConfig)
    requires IsKey(name) && AllWellFormed(components)
    requires config.Profiled() || config.name.None? || config.name.value == name
    ensures SelectMember(name + "=" + ParamsText(components, p), config)
         == Ok(InputMember(name, components, p, ParamsText(components, p)))
  {
    PrintedIsSealed(name, components, p);
    MemberRoundTrip(name, components, p);
    LoneMember(Member(name, ParamsText(components, p)));
    hide IsKey, WellSealed, DictionaryMembers, MemberOf, ParamsText;
  }

  /** The member that signing prints. */
  function SignedMember(name: string, components: seq<Component>, p: SignatureParams): InputMember {
    InputMember(name, components, p, ParamsText(components, p))
  }

  /**
   Verifying freshly signed fields, against any message, comes down to the
   verdict on the member and the signature bytes that the signer produced.
   */
  lemma SignedFieldsAreJudged(m: Message, components: seq<Component>, p: SignatureParams, name: string,
                              signer: SigningKey, base64: Base64, received: Message, verifier: VerifyingKey,
                              config: VerifyConfig)
    requires IsKey(name) && AllWellFormed(components) && Lawful(base64)
    requires config.Profiled() || config.name.None? || config.name.value == name
    requires Sign(m, components, p, name, signer, base64).Ok?
    ensures var signed := Sign(m, components, p, name, signer, base64).value;
            var base := BaseText(m, components, ParamsText(components, p));
            && base.Ok?
            && Verify(received, signed.signatureInput, signed.signature, verifier, base64, config)
               == Judge(received, SignedMember(name, components, p), signer.sign(base.value), verifier, config)
  {
    hide BaseText, ParamsText, IsKey, Lawful;
    var base := BaseText(m, components, ParamsText(components, p)).value;
    InputReadsBack(name, components, p, config);
    SignatureReadsBack(name, signer.sign(base), base64);
    hide SelectMember, ParseSignature, Judge;
  }

  // ---------- Profile completeness ----------

  /** The verifying key accepts what the signing key produces. */
  ghost predicate Matches(signer: SigningKey, verifier: VerifyingKey) {
    forall text :: verifier.accepts(text, signer.sign(text))
  }

  /**
   A fresh signature is accepted exactly when its own parameters and components
   pass the checks: parsing and the signature itself never stand in the way.
   */
  lemma FreshSignature(m: Message, components: seq<Component>, p: SignatureParams, name: string,
                       signer: SigningKey, base64: Base64, verifier: VerifyingKey, config: VerifyConfig)
    requires IsKey(name) && AllWellFormed(components) && Lawful(base64) && Matches(signer, verifier)
    requires config.Profiled() || config.name.None? || config.name.value == name
    requires AllDerivable(m, components) && TextsOneLine(p, 0)
    ensures Sign(m, components, p, name, signer, base64).Ok?
    ensures var signed := Sign(m, components, p, name, signer, base64).value;
            var r := Verify(m, signed.signatureInput, signed.signature, verifier, base64, config);
            && (r.Ok? <==>
                && CheckProfile(m, SignedMember(name, components, p), config).Ok?
                && CheckAlgorithm(p, verifier.algorithm, config).Ok?
                && CheckPolicy(components, p, config).Ok?)
            && (r.Ok? ==> r.value == VerifiedSignature(name, components, p))
  {
    SigningSucceeds(m, components, p, name, signer, base64);
    SignedFieldsAreJudged(m, components, p, name, signer, base64, m, verifier, config);
    var member := SignedMember(name, components, p);
    var base := BaseText(m, components, ParamsText(components, p)).value;
    hide Sign, Verify, BaseText, ParamsText, IsKey, Lawful, TextsOneLine, AllDerivable, CheckProfile,
      CheckAlgorithm, CheckPolicy;
    assert verifier.accepts(base, signer.sign(base));
    JudgeAccepts(m, member, signer.sign(base), verifier, config);
    hide Judge;
  }

  /** What a recipient's configuration has to grant the signature, besides the profile. */
  ghost predicate Granted(components: seq<Component>, p: SignatureParams, algorithm: Algorithm, config: VerifyConfig) {
    && (forall c :: c in config.required ==> Covers(components, c))
    && (config.acceptedAlgorithms == [] || algorithm in config.acceptedAlgorithms)
    && (config.expectedReqNonce.Some? ==> p.wimseReqNonce == config.expectedReqNonce)
    && InWindow(p, config)
  }

  lemma GrantedPasses(components: seq<Component>, p: SignatureParams, algorithm: Algorithm, config: VerifyConfig)
    requires Granted(components, p, algorithm, config) && p.alg.None? && CheckAudience(p, config).Ok?
    ensures CheckAlgorithm(p, algorithm, config).Ok? && CheckPolicy(components, p, config).Ok?
  {
    PolicySplits(components, p, config);
    RequiredCovered(components, config.required);
    TimeIsExact(p, config);
    hide CheckPolicy, CheckTime, InWindow, CheckRequired, Covers, CheckAudience;
  }

  /**
   Request profile: signing the components the profile requires of a request,
   CONNECT or not, under conforming parameters succeeds, and the recipient
   accepts the result as exactly those components and parameters.
   */
  lemma RequestProfileIsComplete(r: HttpRequest, p: SignatureParams, name: string, signer: SigningKey, base64: Base64,
                                 verifier: VerifyingKey, config: VerifyConfig)
    requires IsKey(name) && Lawful(base64) && Matches(signer, verifier)
    requires ValuesOneLine(Request(r), RequiredOnRequest(r)) && TextsOneLine(p, 0)
    requires CheckRequestProfile(p).Ok?
    requires config.wimseProfile && !config.wimseResponseProfile
    requires p.wimseAud.Some? && p.wimseAud.value in config.expectedAudiences
    requires Granted(RequiredOnRequest(r), p, verifier.algorithm, config)
    ensures var signed := Sign(Request(r), RequiredOnRequest(r), p, name, signer, base64);
            && signed.Ok?
            && Verify(Request(r), signed.value.signatureInput, signed.value.signature, verifier, base64, config)
               == Ok(VerifiedSignature(name, RequiredOnRequest(r), p))
  {
    var components := RequiredOnRequest(r);
    RequiredOnRequestFits(r);
    hide RequiredOnRequest, ValuesOneLine, TextsOneLine, AllDerivable, AllWellFormed, IsKey, Lawful, Sign,
      Verify, CheckConnectComponents;
    assert p.alg.None?;
    GrantedPasses(components, p, verifier.algorithm, config);
    FreshSignature(Request(r), components, p, name, signer, base64, verifier, config);
  }

  /** Response profile: the same for a response and the request it answers. */
  lemma ResponseProfileIsComplete(response: HttpResponse, answered: HttpRequest, p: SignatureParams, name: string,
                                  signer: SigningKey, base64: Base64, verifier: VerifyingKey, config: VerifyConfig)
    requires IsKey(name) && Lawful(base64) && Matches(signer, verifier)
    requires ValuesOneLine(Exchange(response, answered), RequiredOnResponse(response, answered)) && TextsOneLine(p, 0)
    requires CheckResponseProfile(p).Ok?
    requires config.wimseResponseProfile && !config.wimseProfile && config.expectedAudiences == []
    requires Granted(RequiredOnResponse(response, answered), p, verifier.algorithm, config)
    ensures var m := Exchange(response, answered);
            var signed := Sign(m, RequiredOnResponse(response, answered), p, name, signer, base64);
            && signed.Ok?
            && Verify(m, signed.value.signatureInput, signed.value.signature, verifier, base64, config)
               == Ok(VerifiedSignature(name, RequiredOnResponse(response, answered), p))
  {
    var m, components := Exchange(response, answered), RequiredOnResponse(response, answered);
    RequiredOnResponseFits(response, answered);
    hide RequiredOnResponse, ValuesOneLine, TextsOneLine, AllDerivable, AllWellFormed, IsKey, Lawful, Sign,
      Verify, CheckConnectComponents;
    assert p.alg.None?;
    GrantedPasses(components, p, verifier.algorithm, config);
    FreshSignature(m, components, p, name, signer, base64, verifier, config);
  }

  // ---------- Beside the signatures of other hops ----------

  /**
   Other hops may put their own members into both fields, in any order: under a
   profile, the verdict is the one on the lone WIMSE signature.
   */
  lemma OtherHopsAreIgnored(m: Message, components: seq<Component>, p: SignatureParams, signer: SigningKey,
                            base64: Base64, inputs: seq<Member>, i: nat, signatures: seq<Member>, j: nat,
                            received: Message, verifier: VerifyingKey, config: VerifyConfig)
    requires config.Profiled() && Lawful(base64)
    requires i < |inputs| && DistinctLabels(inputs) && j < |signatures| && DistinctLabels(signatures)
    requires var name := inputs[i].name;
             && IsKey(name) && AllWellFormed(components) && p.tag == Some(WIMSE_TAG)
             && Sign(m, components, p, name, signer, base64).Ok?
             && var signed := Sign(m, components, p, name, signer, base64).value;
             && MemberText(inputs[i]) == signed.signatureInput
             && signatures[j].name == name && MemberText(signatures[j]) == signed.signature
    requires forall k :: 0 <= k < |inputs| && k != i ==> WellSealed(inputs[k]) && !HasWimseTag(inputs[k].rest)
    requires forall k :: 0 <= k < |signatures| && k != j ==> WellSealed(signatures[k])
    ensures var signed := Sign(m, components, p, inputs[i].name, signer, base64).value;
            Verify(received, Join(MemberTexts(inputs), ", "), Join(MemberTexts(signatures), ", "),
                   verifier, base64, config)
            == Verify(received, signed.signatureInput, signed.signature, verifier, base64, config)
  {
    var name := inputs[i].name;
    var text := ParamsText(components, p);
    var base := BaseText(m, components, text).value;
    var bytes := signer.sign(base);
    var plain: seq<byte> := bytes;
    var rest := ":" + base64.encode(plain) + ":";
    assert IsBase64Text(base64.encode(plain));
    hide BaseText, ParamsText, IsKey, Lawful, WellSealed, HasWimseTag, Verify, DictionaryMembers, SelectMember,
      ParseSignature;
    CutName(name, inputs[i].rest, text);
    CutName(name, signatures[j].rest, rest);
    SelectsTagged(inputs, i, components, p, config);
    InputReadsBack(name, components, p, config);
    SignatureReadsBack(name, bytes, base64);
    SignatureIsSealed(name, base64.encode(plain));
    assert signatures[j] == Member(name, rest);
    JoinedSignatureReads(signatures, j, base64);
    SameParts(received, Join(MemberTexts(inputs), ", "), Join(MemberTexts(signatures), ", "),
              name + "=" + text, name + "=" + rest, verifier, base64, config);
  }

  lemma CutName(name: string, a: string, b: string)
    requires name + "=" + a == name + "=" + b
    ensures a == b
  {
    assert (name + "=" + a)[|name| + 1..] == a && (name + "=" + b)[|name| + 1..] == b;
  }

  /** The signature of one member of a joined field is the one of the member alone. */
  lemma JoinedSignatureReads(signatures: seq<Member>, j: nat, base64: Base64)
    requires j < |signatures| && DistinctLabels(signatures)
    requires forall k :: 0 <= k < |signatures| ==> WellSealed(signatures[k])
    ensures ParseSignature(Join(MemberTexts(signatures), ", "), signatures[j].name, base64)
         == ParseSignature(MemberText(signatures[j]), signatures[j].name, base64)
  {
    hide WellSealed, DictionaryMembers, MemberText, MemberTexts, Join, SignatureBytes, FindNamed, ParseSignature;
    SplitUndoesJoin(signatures);
    FindNamedAt(signatures, j);
    SignatureFound(Join(MemberTexts(signatures), ", "), signatures, signatures[j], base64);
    LoneMember(signatures[j]);
    FindNamedAt([signatures[j]], 0);
    SignatureFound(MemberText(signatures[j]), [signatures[j]], signatures[j], base64);
  }

  lemma SignatureFound(value: string, members: seq<Member>, member: Member, base64: Base64)
    requires members != [] && DictionaryMembers(value) == Ok(members)
    requires FindNamed(members, member.name) == Some(member)
    ensures ParseSignature(value, member.name, base64) == SignatureBytes(member.rest, base64)
  {
    hide DictionaryMembers, SignatureBytes;
  }

  lemma SameParts(m: Message, input1: string, signature1: string, input2: string, signature2: string,
                  verifier: VerifyingKey, base64: Base64, config: VerifyConfig)
    requires SelectMember(input1, config).Ok? && SelectMember(input1, config) == SelectMember(input2, config)
    requires var name := SelectMember(input1, config).value.name;
             ParseSignature(signature1, name, base64) == ParseSignature(signature2, name, base64)
    ensures Verify(m, input1, signature1, verifier, base64, config)
         == Verify(m, input2, signature2, verifier, base64, config)
  {
    hide SelectMember, ParseSignature, Judge;
  }
}
