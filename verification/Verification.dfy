/**
 Signing and verifying an HTTP message, and the WIMSE profile rules. The
 signature scheme and base64 are parameters: nothing is known of them but what
 a lemma asks for.
 */
module Verification {
  import opened Wrappers
  import opened Text
  import opened Bytes
  import opened Errors
  import opened Dictionary
  import opened Components
  import opened Params
  import opened Members
  import opened Selection
  import opened SignatureBase

  const SIGNATURE_LEN := 64

  /** The output of the signature scheme. */
  type Raw = s: seq<byte> | |s| == SIGNATURE_LEN witness seq(SIGNATURE_LEN, i => 0)

  datatype SigningKey = SigningKey(sign: string -> Raw)

  datatype VerifyingKey = VerifyingKey(algorithm: Algorithm, accepts: (string, Raw) -> bool)

  datatype Base64 = Base64(encode: seq<byte> -> string, decode: string -> Option<seq<byte>>)

  datatype SignedSignature = SignedSignature(signatureInput: string, signature: string)

  datatype VerifiedSignature = VerifiedSignature(name: string, components: seq<Component>, params: SignatureParams)

  // ---------- Signing ----------

  function Sign(m: Message, components: seq<Component>, p: SignatureParams, name: string,
                signer: SigningKey, base64: Base64): Outcome<SignedSignature> {
    var text := ParamsText(components, p);
    var base :- BaseText(m, components, text);
    Ok(SignedSignature(name + "=" + text, name + "=" + (":" + base64.encode(signer.sign(base)) + ":")))
  }

  // ---------- Verifying ----------

  /** The signature in a member value: 64 bytes in base64 between colons. */
  function SignatureBytes(rest: string, base64: Base64): Outcome<Raw> {
    var text := Trim(rest);
    if |text| < 2 || text[0] != ':' || text[|text| - 1] != ':' then Err(Parse(NotAByteSequence)) else
    match base64.decode(text[1..|text| - 1])
    case None => Err(MalformedSignature)
    case Some(bytes) => if |bytes| == SIGNATURE_LEN then Ok(bytes) else Err(MalformedSignature)
  }

  /** The bytes of the `Signature` member labeled `name`. */
  function ParseSignature(value: string, name: string, base64: Base64): Outcome<Raw> {
    var members :- DictionaryMembers(value);
    match FindNamed(members, name)
    case None => Err(LabelMismatch)
    case Some(member) => SignatureBytes(member.rest, base64)
  }

  /** The rules that request and response signatures share. */
  function CheckCommonProfile(p: SignatureParams): Outcome<()> {
    if p.keyid.Some? then Err(ForbiddenParameter(KeyId))
    else if p.alg.Some? then Err(ForbiddenParameter(Alg))
    else if p.created.None? then Err(MissingParameter(Created))
    else if p.expires.None? then Err(MissingParameter(Expires))
    else if p.nonce.None? then Err(MissingParameter(Nonce))
    else if p.tag.None? then Err(MissingParameter(Tag))
    else if p.tag.value != WIMSE_TAG then Err(WrongTag(p.tag.value))
    else Ok(())
  }

  function CheckRequestProfile(p: SignatureParams): Outcome<()> {
    var _ :- CheckCommonProfile(p);
    if p.wimseAud.None? then Err(MissingParameter(WimseAud)) else Ok(())
  }

  function CheckResponseProfile(p: SignatureParams): Outcome<()> {
    var _ :- CheckCommonProfile(p);
    if p.wimseAud.Some? then Err(ForbiddenParameter(WimseAud))
    else if p.wimseReqNonce.None? then Err(MissingParameter(WimseReqNonce))
    else Ok(())
  }

  const CONNECT := "CONNECT"

  /** A component of the request, as a signature over the message names it. */
  function Target(response: bool, c: Component): Component {
    if response then Req(c) else c
  }

  function CheckConnectComponents(m: Message, components: seq<Component>, response: bool): Outcome<()> {
    var path, query := Target(response, Path), Target(response, Query);
    if ComponentValue(m, Target(response, Method)) != Ok(CONNECT) then Ok(())
    else if Covers(components, path) then Err(ForbiddenComponent(QuotedId(path)))
    else if Covers(components, query) then Err(ForbiddenComponent(QuotedId(query)))
    else Ok(())
  }

  function CheckProfile(m: Message, member: InputMember, config: VerifyConfig): Outcome<()> {
    var _ :- if config.wimseProfile then CheckRequestProfile(member.params) else Ok(());
    var _ :- if config.wimseResponseProfile then CheckResponseProfile(member.params) else Ok(());
    if config.Profiled() then CheckConnectComponents(m, member.components, config.wimseResponseProfile) else Ok(())
  }

  function JoseName(a: Algorithm): string {
    match a
    case EdDsa => "EdDSA"
    case Es256 => "ES256"
  }

  function Rfc9421Name(a: Algorithm): string {
    match a
    case EdDsa => "ed25519"
    case Es256 => "ecdsa-p256-sha256"
  }

  function CheckAlgorithm(p: SignatureParams, algorithm: Algorithm, config: VerifyConfig): Outcome<()> {
    if config.acceptedAlgorithms != [] && algorithm !in config.acceptedAlgorithms then
      Err(UnsupportedAlg(JoseName(algorithm)))
    else if p.alg.Some? && p.alg.value != Rfc9421Name(algorithm) then
      Err(UnsupportedAlg(p.alg.value))
    else Ok(())
  }

  function CheckRequired(components: seq<Component>, required: seq<Component>): Outcome<()> {
    if required == [] then Ok(())
    else if !Covers(components, required[0]) then Err(MissingRequiredComponent(QuotedId(required[0])))
    else CheckRequired(components, required[1..])
  }

  function CheckAudience(p: SignatureParams, config: VerifyConfig): Outcome<()> {
    if (config.wimseProfile || config.expectedAudiences != [])
       && !(p.wimseAud.Some? && p.wimseAud.value in config.expectedAudiences)
    then Err(AudienceMismatch)
    else Ok(())
  }

  function CheckReqNonce(p: SignatureParams, config: VerifyConfig): Outcome<()> {
    if config.expectedReqNonce.Some? && p.wimseReqNonce != config.expectedReqNonce
    then Err(RequestNonceMismatch)
    else Ok(())
  }

  function SaturatingAdd(a: u64, b: u64): u64 {
    if a + b < U64_LIMIT then a + b else U64_LIMIT - 1
  }

  function SaturatingSub(a: u64, b: u64): u64 {
    if a >= b then a - b else 0
  }

  function CheckTime(p: SignatureParams, config: VerifyConfig): Outcome<()> {
    if p.created.Some? && p.expires.Some? && p.expires.value < p.created.value then Err(InvalidTimeWindow)
    else if config.maxAge.Some? && config.now.None? then Err(TooOld)
    else if config.now.None? then Ok(())
    else
      var now := config.now.value;
      if p.expires.Some? && now > SaturatingAdd(p.expires.value, config.leeway) then Err(Expired)
      else if p.created.Some? && p.created.value > SaturatingAdd(now, config.leeway) then Err(CreatedInFuture)
      else if config.maxAge.Some? && p.created.None? then Err(TooOld)
      else if config.maxAge.Some? && SaturatingSub(now, p.created.value) > config.maxAge.value then Err(TooOld)
      else Ok(())
  }

  /** The checks that follow the signature: what the authentic parameters are worth. */
  function CheckPolicy(components: seq<Component>, p: SignatureParams, config: VerifyConfig): Outcome<()> {
    var _ :- CheckRequired(components, config.required);
    var _ :- CheckAudience(p, config);
    var _ :- CheckReqNonce(p, config);
    CheckTime(p, config)
  }

  /** The verdict on one parsed member and its signature bytes. */
  function Judge(m: Message, member: InputMember, bytes: Raw, key: VerifyingKey, config: VerifyConfig)
    : Outcome<VerifiedSignature>
  {
    var _ :- CheckProfile(m, member, config);
    var _ :- CheckAlgorithm(member.params, key.algorithm, config);
    var base :- BaseText(m, member.components, member.text);
    if !key.accepts(base, bytes) then Err(InvalidSignature) else
    var _ :- CheckPolicy(member.components, member.params, config);
    Ok(VerifiedSignature(member.name, member.components, member.params))
  }

  function Verify(m: Message, signatureInput: string, signature: string, key: VerifyingKey,
                  base64: Base64, config: VerifyConfig): Outcome<VerifiedSignature> {
    var member :- SelectMember(signatureInput, config);
    var bytes :- ParseSignature(signature, member.name, base64);
    Judge(m, member, bytes, key, config)
  }

  /** The signature bytes that verifying these fields checks. */
  function CheckedBytes(signatureInput: string, signature: string, base64: Base64, config: VerifyConfig): Outcome<Raw> {
    var member :- SelectMember(signatureInput, config);
    ParseSignature(signature, member.name, base64)
  }

  // ---------- The steps of an acceptance ----------

  /** Everything an accepting verdict requires. */
  ghost predicate Accepted(m: Message, member: InputMember, bytes: Raw, key: VerifyingKey, config: VerifyConfig) {
    && CheckProfile(m, member, config).Ok?
    && CheckAlgorithm(member.params, key.algorithm, config).Ok?
    && BaseText(m, member.components, member.text).Ok?
    && key.accepts(BaseText(m, member.components, member.text).value, bytes)
    && CheckPolicy(member.components, member.params, config).Ok?
  }

  lemma JudgeAccepts(m: Message, member: InputMember, bytes: Raw, key: VerifyingKey, config: VerifyConfig)
    ensures Judge(m, member, bytes, key, config).Ok? <==> Accepted(m, member, bytes, key, config)
    ensures Judge(m, member, bytes, key, config).Ok? ==>
              Judge(m, member, bytes, key, config).value
              == VerifiedSignature(member.name, member.components, member.params)
  {
    hide CheckProfile, CheckAlgorithm, BaseText, CheckPolicy;
  }

  /** The member and signature bytes behind an accepting verification. */
  lemma VerifyAccepts(m: Message, signatureInput: string, signature: string, key: VerifyingKey,
                      base64: Base64, config: VerifyConfig)
    requires Verify(m, signatureInput, signature, key, base64, config).Ok?
    ensures SelectMember(signatureInput, config).Ok?
    ensures var member := SelectMember(signatureInput, config).value;
            && ParseSignature(signature, member.name, base64).Ok?
            && Accepted(m, member, ParseSignature(signature, member.name, base64).value, key, config)
            && Verify(m, signatureInput, signature, key, base64, config).value
               == VerifiedSignature(member.name, member.components, member.params)
  {
    hide SelectMember, ParseSignature, Judge, Accepted;
    var member := SelectMember(signatureInput, config).value;
    JudgeAccepts(m, member, ParseSignature(signature, member.name, base64).value, key, config);
  }

  /** A selected member was parsed from a dictionary member of the field. */
  lemma SelectedIsParsed(signatureInput: string, config: VerifyConfig) returns (chosen: Member)
    requires SelectMember(signatureInput, config).Ok?
    ensures DictionaryMembers(signatureInput).Ok?
    ensures Chosen(DictionaryMembers(signatureInput).value, config) == Ok(chosen)
    ensures MemberOf(chosen.name, chosen.rest) == SelectMember(signatureInput, config)
  {
    hide DictionaryMembers, Chosen, MemberOf;
    chosen := Chosen(DictionaryMembers(signatureInput).value, config).value;
  }

  // ---------- The profile as a set of rules ----------

  /** The parameters a profile requires, and those it forbids. */
  const ALWAYS_REQUIRED: set<ParamName> := {Created, Expires, Nonce, Tag}
  const ALWAYS_FORBIDDEN: set<ParamName> := {KeyId, Alg}

  /** `p` has every parameter of `required`, none of `forbidden`, and the WIMSE tag. */
  ghost predicate Conforms(p: SignatureParams, required: set<ParamName>, forbidden: set<ParamName>) {
    && (forall name :: name in required ==> Get(p, name).Some?)
    && (forall name :: name in forbidden ==> Get(p, name).None?)
    && p.tag == Some(WIMSE_TAG)
  }

  /** The rule-by-rule checks accept exactly the conforming parameters. */
  lemma ProfilesAreExact(p: SignatureParams)
    ensures CheckRequestProfile(p).Ok? <==> Conforms(p, ALWAYS_REQUIRED + {WimseAud}, ALWAYS_FORBIDDEN)
    ensures CheckResponseProfile(p).Ok? <==>
            Conforms(p, ALWAYS_REQUIRED + {WimseReqNonce}, ALWAYS_FORBIDDEN + {WimseAud})
  {
    assert Get(p, Created).Some? == p.created.Some? && Get(p, Expires).Some? == p.expires.Some?;
    assert Get(p, KeyId).Some? == p.keyid.Some? && Get(p, Alg).Some? == p.alg.Some?;
    assert Get(p, Nonce).Some? == p.nonce.Some? && Get(p, Tag).Some? == p.tag.Some?;
    assert Get(p, WimseAud).Some? == p.wimseAud.Some? && Get(p, WimseReqNonce).Some? == p.wimseReqNonce.Some?;
    hide Get;
  }
}
