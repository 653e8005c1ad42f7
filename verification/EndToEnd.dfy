/**
 Signing and verifying together: which messages a fresh signature is accepted
 for, and that keys and encodings exist which meet the hypotheses of this and
 the other modules.
 */
module EndToEnd {
  import opened Wrappers
  import opened Text
  import opened Bytes
  import opened Errors
  import opened Components
  import opened Params
  import opened ParamsRoundTrip
  import opened Members
  import opened Selection
  import opened SignatureBase
  import opened Verification
  import opened Policy
  import opened Guarantees
  import opened Completeness

  // ---------- A signature binds the values it was made over ----------

  /** `bytes` is a signature for `text` at most. */
  ghost predicate BindsTo(key: VerifyingKey, bytes: Raw, text: string) {
    forall other :: key.accepts(other, bytes) ==> other == text
  }

  /** What `config` asks before it looks for a signature under `name`. */
  predicate Finds(config: VerifyConfig, name: string) {
    config.Profiled() || config.name.None? || config.name.value == name
  }

  function SignThat(s: Signing, name: string, signer: SigningKey, base64: Base64): Outcome<SignedSignature> {
    Sign(s.message, s.components, s.params, name, signer, base64)
  }

  /** A fresh signature whose bytes verify for no other text meets what tamper evidence asks for. */
  lemma FreshIsOnlySigned(s: Signing, name: string, signer: SigningKey, base64: Base64, verifier: VerifyingKey,
                          config: VerifyConfig)
    requires IsKey(name) && AllWellFormed(s.components) && Lawful(base64) && Finds(config, name)
    requires SignThat(s, name, signer, base64).Ok?
    requires BindsTo(verifier, signer.sign(SignedText(s).value), SignedText(s).value)
    ensures var signed := SignThat(s, name, signer, base64).value;
            var bytes := signer.sign(SignedText(s).value);
            && CheckedBytes(signed.signatureInput, signed.signature, base64, config) == Ok(bytes)
            && OnlySigned(verifier, bytes, [s])
  {
    hide BaseText, ParamsText, IsKey, Lawful;
    var base := SignedText(s).value;
    InputReadsBack(name, s.components, s.params, config);
    SignatureReadsBack(name, signer.sign(base), base64);
    hide SelectMember, ParseSignature;
    assert [s][0] == s;
  }

  lemma SameValuesSameBase(m: Message, n: Message, components: seq<Component>, text: string)
    requires BaseText(m, components, text).Ok?
    ensures BaseText(n, components, text) == BaseText(m, components, text) <==> SameValues(m, n, components)
  {
    if SameValues(m, n, components) {
      forall c | c in components ensures Agree(m, n, c) {
        var i :| 0 <= i < |components| && components[i] == c;
      }
      SameLines(m, n, components);
    }
    hide ComponentValue;
    if BaseText(n, components, text) == BaseText(m, components, text) {
      BaseFixesText(m, components, text, n, components, text);
      LinesFixValues(m, n, components);
    }
  }

  /**
   A fresh signature whose bytes verify for no other text is accepted for a
   message exactly when that message has all the signed values and the
   recipient's rules are obeyed.
   */
  lemma FreshBindsValues(s: Signing, name: string, signer: SigningKey, base64: Base64, verifier: VerifyingKey,
                         config: VerifyConfig, received: Message)
    requires IsKey(name) && AllWellFormed(s.components) && Lawful(base64) && Finds(config, name)
    requires SignThat(s, name, signer, base64).Ok? && Matches(signer, verifier)
    requires BindsTo(verifier, signer.sign(SignedText(s).value), SignedText(s).value)
    ensures var signed := SignThat(s, name, signer, base64).value;
            Verify(received, signed.signatureInput, signed.signature, verifier, base64, config).Ok? <==>
            && SameValues(s.message, received, s.components)
            && Obeys(received, s.components, s.params, verifier.algorithm, config)
  {
    var base, text := SignedText(s).value, ParamsText(s.components, s.params);
    var bytes, member := signer.sign(base), SignedMember(name, s.components, s.params);
    SignedFieldsAreJudged(s.message, s.components, s.params, name, signer, base64, received, verifier, config);
    JudgeMeans(received, member, bytes, verifier, config);
    SameValuesSameBase(s.message, received, s.components, text);
    LinesExist(received, s.components);
    hide Verify, Judge, Obeys, Lawful, IsKey, ParamsText, SameValues, AllDerivable, Lines, OneLine;
    assert verifier.accepts(base, bytes);
  }

  // ---------- The hypotheses can be met ----------

  /** For every text there is a matching pair of keys under which its signature is one for that text only. */
  lemma BindingKeys(text: string, algorithm: Algorithm) returns (signer: SigningKey, verifier: VerifyingKey)
    ensures Matches(signer, verifier) && BindsTo(verifier, signer.sign(text), text)
    ensures verifier.algorithm == algorithm
  {
    var ones: Raw := seq(SIGNATURE_LEN, i => 1);
    var zeros: Raw := seq(SIGNATURE_LEN, i => 0);
    assert ones[0] != zeros[0];
    var sign: string -> Raw := (other: string) => if other == text then ones else zeros;
    signer := SigningKey(sign);
    verifier := VerifyingKey(algorithm, (other: string, bytes: Raw) => bytes == sign(other));
  }

  /** Each octet as the character `0x100` above it. */
  function Shown(bytes: seq<byte>): string {
    seq(|bytes|, i requires 0 <= i < |bytes| => (0x100 + bytes[i] as int) as char)
  }

  function Hidden(text: string): Option<seq<byte>> {
    if forall i :: 0 <= i < |text| ==> 0x100 <= text[i] as int < 0x200
    then Some(seq(|text|, i requires 0 <= i < |text| => (text[i] as int - 0x100) as byte))
    else None
  }

  lemma LawfulEncoding() returns (base64: Base64)
    ensures Lawful(base64)
  {
    base64 := Base64(Shown, Hidden);
    forall bytes: seq<byte> ensures Hidden(Shown(bytes)) == Some(bytes) && IsBase64Text(Shown(bytes)) {
      ShownReadsBack(bytes);
    }
  }

  lemma ShownReadsBack(bytes: seq<byte>)
    ensures Hidden(Shown(bytes)) == Some(bytes) && IsBase64Text(Shown(bytes))
  {
    var text := Shown(bytes);
    forall i | 0 <= i < |text| ensures text[i] !in {',', '"', '(', ')', ':'} && !IsSpace(text[i]) {
      assert 0x100 <= text[i] as int < 0x200;
    }
    assert Hidden(text).value == bytes;
  }

  /**
   Every signing that obeys a configuration has keys and an encoding under which
   it is accepted and meets what tamper evidence asks for.
   */
  lemma HypothesesAreMet(s: Signing, name: string, algorithm: Algorithm, config: VerifyConfig)
    returns (signer: SigningKey, base64: Base64, verifier: VerifyingKey)
    requires IsKey(name) && AllWellFormed(s.components) && Finds(config, name)
    requires AllDerivable(s.message, s.components) && TextsOneLine(s.params, 0)
    requires Obeys(s.message, s.components, s.params, algorithm, config)
    ensures Lawful(base64) && Matches(signer, verifier) && SignThat(s, name, signer, base64).Ok?
    ensures var signed := SignThat(s, name, signer, base64).value;
            var bytes := CheckedBytes(signed.signatureInput, signed.signature, base64, config);
            && bytes.Ok? && OnlySigned(verifier, bytes.value, [s])
            && Verify(s.message, signed.signatureInput, signed.signature, verifier, base64, config).Ok?
  {
    var text := ParamsText(s.components, s.params);
    ParamsTextOneLine(s.components, s.params);
    LinesExist(s.message, s.components);
    assert SignedText(s).Ok?;
    signer, verifier := BindingKeys(SignedText(s).value, algorithm);
    base64 := LawfulEncoding();
    SigningSucceeds(s.message, s.components, s.params, name, signer, base64);
    hide BaseText, ParamsText, IsKey, Lawful, Obeys, TextsOneLine, AllDerivable, Verify, CheckedBytes, ComponentValue;
    FreshIsOnlySigned(s, name, signer, base64, verifier, config);
    FreshBindsValues(s, name, signer, base64, verifier, config, s.message);
    SameValuesSameBase(s.message, s.message, s.components, text);
  }

  lemma NoTexts()
    ensures TextsOneLine(NO_PARAMS, 0)
  {
    forall name: ParamName ensures HoldsOneLine(Get(NO_PARAMS, name)) {
      NothingIsSet(name);
    }
  }

  const POSING := Request(HttpRequest("POST", "", "", None, [Field("@method", "GET")]))
  const PLAIN_GET := Request(HttpRequest("GET", "", "", None, []))

  /**
   Why header names must not be taken for derived components: signing the header
   `@method` of a POST also signs the method of a GET.
   */
  lemma TakenNameMisleads()
    ensures var text := ParamsText([Header("@method")], NO_PARAMS);
            && text == ParamsText([Method], NO_PARAMS)
            && BaseText(POSING, [Header("@method")], text).Ok?
            && BaseText(POSING, [Header("@method")], text) == BaseText(PLAIN_GET, [Method], text)
    ensures ComponentValue(POSING, Method) != ComponentValue(PLAIN_GET, Method)
  {
    var posed, meant := [Header("@method")], [Method];
    assert QuotedId(posed[0]) == QuotedId(Method) && posed[1..] == [] == meant[1..];
    assert Ids(posed) == Ids(meant);
    NoTexts();
    ParamsTextOneLine(meant, NO_PARAMS);
    PosingValue();
    hide QuotedId, Ids, ParamsText, ComponentValue, OneLine;
    assert Lines(POSING, []) == Lines(PLAIN_GET, []) == Ok("");
    assert Lines(POSING, posed) == Lines(PLAIN_GET, meant);
  }

  lemma PosingValue()
    ensures ComponentValue(POSING, Header("@method")) == ComponentValue(PLAIN_GET, Method) == Ok("GET")
    ensures ComponentValue(POSING, Method) == Ok("POST")
    ensures OneLine("GET")
  {
    TrimIdentity("GET");
    var fields := [Field("@method", "GET")];
    assert fields[1..] == [];
    assert FieldValues(fields, "@method") == ["GET"];
    assert "POST"[0] != "GET"[0];
  }

  // ---------- Laxer configurations ----------

  /** The signing without its audience. */
  function Unaddressed(s: Signing): Signing {
    s.(params := s.params.(wimseAud := None))
  }

  /** What a configuration without audience check accepts from a signing, it accepts without the audience. */
  lemma UnaddressedStillPasses(s: Signing, name: string, algorithm: Algorithm, config: VerifyConfig)
    requires !config.wimseProfile && config.expectedAudiences == []
    requires CheckProfile(s.message, SignedMember(name, s.components, s.params), config).Ok?
    requires CheckAlgorithm(s.params, algorithm, config).Ok? && CheckPolicy(s.components, s.params, config).Ok?
    ensures var p := Unaddressed(s).params;
            && CheckProfile(s.message, SignedMember(name, s.components, p), config).Ok?
            && CheckAlgorithm(p, algorithm, config).Ok? && CheckPolicy(s.components, p, config).Ok?
  {
    var p := Unaddressed(s).params;
    PolicySplits(s.components, s.params, config);
    PolicySplits(s.components, p, config);
    TimeIsExact(s.params, config);
    TimeIsExact(p, config);
    hide CheckPolicy, CheckTime, CheckRequired, CheckConnectComponents, ParamsText;
  }

  lemma UnaddressedIsOneLine(s: Signing)
    requires TextsOneLine(s.params, 0)
    ensures TextsOneLine(Unaddressed(s).params, 0)
  {
    forall name: ParamName ensures HoldsOneLine(Get(Unaddressed(s).params, name)) {
      assert HoldsOneLine(Get(s.params, name));
    }
  }

  /** The verdict of `config` on the fresh signature of `s`. */
  function FreshVerdict(s: Signing, name: string, signer: SigningKey, base64: Base64, verifier: VerifyingKey,
                        config: VerifyConfig): Outcome<VerifiedSignature> {
    var signed :- SignThat(s, name, signer, base64);
    Verify(s.message, signed.signatureInput, signed.signature, verifier, base64, config)
  }

  lemma UnaddressedAccepted(s: Signing, name: string, signer: SigningKey, base64: Base64, verifier: VerifyingKey,
                            config: VerifyConfig)
    requires IsKey(name) && AllWellFormed(s.components) && Finds(config, name)
    requires Lawful(base64) && Matches(signer, verifier)
    requires !config.wimseProfile && config.expectedAudiences == []
    requires FreshVerdict(s, name, signer, base64, verifier, config).Ok?
    ensures var r := FreshVerdict(Unaddressed(s), name, signer, base64, verifier, config);
            r.Ok? && r.value.params.wimseAud == None
  {
    var t := Unaddressed(s);
    SigningSucceeds(s.message, s.components, s.params, name, signer, base64);
    hide Sign, Verify, IsKey, Lawful, TextsOneLine, AllDerivable, CheckProfile, CheckAlgorithm, CheckPolicy, ParamsText;
    FreshSignature(s.message, s.components, s.params, name, signer, base64, verifier, config);
    UnaddressedStillPasses(s, name, verifier.algorithm, config);
    UnaddressedIsOneLine(s);
    FreshSignature(t.message, t.components, t.params, name, signer, base64, verifier, config);
  }

  /** Whatever verifies under `a` verifies under `b`, for this key. */
  ghost predicate KeepsAccepting(verifier: VerifyingKey, base64: Base64, a: VerifyConfig, b: VerifyConfig) {
    forall m, input, signature ::
      Verify(m, input, signature, verifier, base64, a).Ok? ==> Verify(m, input, signature, verifier, base64, b).Ok?
  }

  /**
   A laxer configuration keeps every acceptance exactly when it starts no
   audience check. The stricter one has to accept some fresh signature: one that
   accepts nothing has nothing to keep.
   */
  lemma LaxerIsExact(a: VerifyConfig, b: VerifyConfig, s: Signing, name: string, signer: SigningKey,
                     base64: Base64, verifier: VerifyingKey)
    requires Laxer(a, b)
    requires IsKey(name) && AllWellFormed(s.components) && Lawful(base64) && Matches(signer, verifier) && Finds(a, name)
    requires FreshVerdict(s, name, signer, base64, verifier, a).Ok?
    ensures KeepsAccepting(verifier, base64, a, b) <==> KeepsAudienceRule(a, b)
  {
    hide Verify, Laxer, IsKey, Lawful, AllWellFormed, Matches, Sign;
    if KeepsAudienceRule(a, b) {
      forall m, input, signature | Verify(m, input, signature, verifier, base64, a).Ok?
        ensures Verify(m, input, signature, verifier, base64, b).Ok?
      {
        LaxerAccepts(m, input, signature, verifier, base64, a, b);
      }
    } else {
      UnaddressedAccepted(s, name, signer, base64, verifier, a);
      var t := Unaddressed(s);
      var signed := SignThat(t, name, signer, base64).value;
      LaxerAccepts(t.message, signed.signatureInput, signed.signature, verifier, base64, a, b);
    }
  }

  const EMPTY_REQUEST := Request(HttpRequest("", "", "", None, []))
  const OPEN_CONFIG := VerifyConfig(None, 0, None, [], None, false, [], false, None, [])

  /** A signature that is accepted where no audience is configured, and rejected where one is. */
  lemma FirstAudienceRejects()
    returns (input: string, signature: string, verifier: VerifyingKey, base64: Base64)
    ensures var addressed := OPEN_CONFIG.(expectedAudiences := ["a"]);
            && Laxer(OPEN_CONFIG, addressed)
            && Verify(EMPTY_REQUEST, input, signature, verifier, base64, OPEN_CONFIG).Ok?
            && Verify(EMPTY_REQUEST, input, signature, verifier, base64, addressed) == Err(AudienceMismatch)
  {
    var s, addressed := Signing(EMPTY_REQUEST, [], NO_PARAMS), OPEN_CONFIG.(expectedAudiences := ["a"]);
    NoTexts();
    var signer: SigningKey;
    signer, base64, verifier := HypothesesAreMet(s, "sig", EdDsa, OPEN_CONFIG);
    var signed := SignThat(s, "sig", signer, base64).value;
    input, signature := signed.signatureInput, signed.signature;
    hide Verify, SignThat, Lawful, Matches, BaseText, ParamsText;
    FreshSignature(s.message, s.components, s.params, "sig", signer, base64, verifier, OPEN_CONFIG);
    LaxerAccepts(EMPTY_REQUEST, input, signature, verifier, base64, OPEN_CONFIG, addressed);
  }
}
