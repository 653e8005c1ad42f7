/**
 The rules of verification as a table, in the order in which they are judged:
 the first broken rule is the failure that is reported.
 */
module Verdicts {
  import opened Wrappers
  import opened Text
  import opened Errors
  import opened Components
  import opened ComponentValues
  import opened Params
  import opened Members
  import opened Selection
  import opened SignatureBase
  import opened Verification
  import opened Policy

  datatype Rule = Rule(broken: bool, error: Error)

  function FirstBroken(rules: seq<Rule>): Option<Error> {
    if rules == [] then None
    else if rules[0].broken then Some(rules[0].error)
    else FirstBroken(rules[1..])
  }

  lemma {:induction false} BrokenConcat(a: seq<Rule>, b: seq<Rule>)
    ensures FirstBroken(a + b) == if FirstBroken(a).Some? then FirstBroken(a) else FirstBroken(b)
  {
    if a == [] {
      assert a + b == b;
    } else {
      assert (a + b)[1..] == a[1..] + b;
      BrokenConcat(a[1..], b);
    }
  }

  /** Either no rule is broken and `r` succeeds, or `r` is the failure of the first broken one. */
  predicate Follows<T(==)>(r: Outcome<T>, rules: seq<Rule>) {
    match FirstBroken(rules)
    case None => r.Ok?
    case Some(error) => r == Err(error)
  }

  // ---------- The table ----------

  function CommonRules(p: SignatureParams): seq<Rule> {
    [ Rule(p.keyid.Some?, ForbiddenParameter(KeyId)),
      Rule(p.alg.Some?, ForbiddenParameter(Alg)),
      Rule(p.created.None?, MissingParameter(Created)),
      Rule(p.expires.None?, MissingParameter(Expires)),
      Rule(p.nonce.None?, MissingParameter(Nonce)),
      Rule(p.tag.None?, MissingParameter(Tag)),
      Rule(p.tag != Some("wimse-workload-to-workload"), WrongTag(if p.tag.Some? then p.tag.value else "")) ]
  }

  function RequestRules(p: SignatureParams): seq<Rule> {
    CommonRules(p) + [Rule(p.wimseAud.None?, MissingParameter(WimseAud))]
  }

  function ResponseRules(p: SignatureParams): seq<Rule> {
    CommonRules(p)
    + [ Rule(p.wimseAud.Some?, ForbiddenParameter(WimseAud)),
        Rule(p.wimseReqNonce.None?, MissingParameter(WimseReqNonce)) ]
  }

  /** A CONNECT covers no path and no query; on a response, of the request it answers. */
  function ConnectRules(m: Message, components: seq<Component>, response: bool): seq<Rule> {
    if response then
      var connect := ComponentValue(m, Req(Method)) == Ok("CONNECT");
      [ Rule(connect && Covers(components, Req(Path)), ForbiddenComponent("\"@path\";req")),
        Rule(connect && Covers(components, Req(Query)), ForbiddenComponent("\"@query\";req")) ]
    else
      var connect := ComponentValue(m, Method) == Ok("CONNECT");
      [ Rule(connect && Covers(components, Path), ForbiddenComponent("\"@path\"")),
        Rule(connect && Covers(components, Query), ForbiddenComponent("\"@query\"")) ]
  }

  function ProfileRules(m: Message, components: seq<Component>, p: SignatureParams, config: VerifyConfig): seq<Rule> {
    (if config.wimseProfile then RequestRules(p) else [])
    + (if config.wimseResponseProfile then ResponseRules(p) else [])
    + (if config.wimseProfile || config.wimseResponseProfile
       then ConnectRules(m, components, config.wimseResponseProfile) else [])
  }

  function AlgorithmRules(p: SignatureParams, algorithm: Algorithm, config: VerifyConfig): seq<Rule> {
    [ Rule(config.acceptedAlgorithms != [] && algorithm !in config.acceptedAlgorithms,
           UnsupportedAlg(if algorithm == EdDsa then "EdDSA" else "ES256")),
      Rule(p.alg.Some? && p.alg != Some(if algorithm == EdDsa then "ed25519" else "ecdsa-p256-sha256"),
           UnsupportedAlg(if p.alg.Some? then p.alg.value else "")) ]
  }

  /** One rule for each required component, in the order of the configuration. */
  function RequiredRules(components: seq<Component>, required: seq<Component>): seq<Rule> {
    if required == [] then []
    else [Rule(!Covers(components, required[0]), MissingRequiredComponent(QuotedId(required[0])))]
         + RequiredRules(components, required[1..])
  }

  function AddressRules(p: SignatureParams, config: VerifyConfig): seq<Rule> {
    [ Rule((config.wimseProfile || config.expectedAudiences != [])
             && (p.wimseAud.None? || p.wimseAud.value !in config.expectedAudiences),
           AudienceMismatch),
      Rule(config.expectedReqNonce.Some? && p.wimseReqNonce != config.expectedReqNonce, RequestNonceMismatch) ]
  }

  /** The time rules, in unbounded integers. */
  function TimeRules(p: SignatureParams, config: VerifyConfig): seq<Rule> {
    var timed, aged := config.now.Some?, config.maxAge.Some?;
    var n := if timed then config.now.value as int else 0;
    [ Rule(p.created.Some? && p.expires.Some? && p.expires.value < p.created.value, InvalidTimeWindow),
      Rule(aged && !timed, TooOld),
      Rule(timed && p.expires.Some? && n > p.expires.value + config.leeway, Expired),
      Rule(timed && p.created.Some? && p.created.value > n + config.leeway, CreatedInFuture),
      Rule(timed && aged && p.created.None?, TooOld),
      Rule(timed && aged && p.created.Some? && n > p.created.value + config.maxAge.value, TooOld) ]
  }

  function PolicyRules(components: seq<Component>, p: SignatureParams, config: VerifyConfig): seq<Rule> {
    RequiredRules(components, config.required) + AddressRules(p, config) + TimeRules(p, config)
  }

  // ---------- The checks follow the table ----------

  function Or(rule: Rule, otherwise: Option<Error>): Option<Error> {
    if rule.broken then Some(rule.error) else otherwise
  }

  lemma TwoRules(a: Rule, b: Rule)
    ensures FirstBroken([a, b]) == Or(a, Or(b, None))
  {
    assert [a, b][1..] == [b] && [b][1..] == [];
    assert FirstBroken([b]) == Or(b, FirstBroken([]));
  }

  lemma ThreeRules(a: Rule, b: Rule, c: Rule)
    ensures FirstBroken([a, b, c]) == Or(a, Or(b, Or(c, None)))
  {
    assert [a, b, c][1..] == [b, c];
    TwoRules(b, c);
  }

  lemma SixRules(a: Rule, b: Rule, c: Rule, d: Rule, e: Rule, f: Rule)
    ensures FirstBroken([a, b, c, d, e, f]) == Or(a, Or(b, Or(c, Or(d, Or(e, Or(f, None))))))
  {
    ThreeRules(a, b, c);
    ThreeRules(d, e, f);
    hide FirstBroken;
    BrokenConcat([a, b, c], [d, e, f]);
    assert [a, b, c] + [d, e, f] == [a, b, c, d, e, f];
  }

  lemma SevenRules(a: Rule, b: Rule, c: Rule, d: Rule, e: Rule, f: Rule, g: Rule)
    ensures FirstBroken([a, b, c, d, e, f, g]) == Or(a, Or(b, Or(c, Or(d, Or(e, Or(f, Or(g, None)))))))
  {
    SixRules(b, c, d, e, f, g);
    FollowsFirst(a, [b, c, d, e, f, g]);
    hide FirstBroken;
    assert [a] + [b, c, d, e, f, g] == [a, b, c, d, e, f, g];
  }

  lemma FollowsFirst(a: Rule, rest: seq<Rule>)
    ensures FirstBroken([a] + rest) == Or(a, FirstBroken(rest))
  {
    assert ([a] + rest)[1..] == rest;
  }

  lemma CommonFollows(p: SignatureParams)
    ensures Follows(CheckCommonProfile(p), CommonRules(p))
  {
    var rules := CommonRules(p);
    SevenRules(rules[0], rules[1], rules[2], rules[3], rules[4], rules[5], rules[6]);
    hide FirstBroken;
    assert rules == [rules[0], rules[1], rules[2], rules[3], rules[4], rules[5], rules[6]];
  }

  lemma RequestFollows(p: SignatureParams)
    ensures Follows(CheckRequestProfile(p), RequestRules(p))
  {
    CommonFollows(p);
    var last := Rule(p.wimseAud.None?, MissingParameter(WimseAud));
    FollowsFirst(last, []);
    assert [last] + [] == [last];
    BrokenConcat(CommonRules(p), [last]);
    hide CommonRules, CheckCommonProfile;
  }

  lemma ResponseFollows(p: SignatureParams)
    ensures Follows(CheckResponseProfile(p), ResponseRules(p))
  {
    CommonFollows(p);
    var a := Rule(p.wimseAud.Some?, ForbiddenParameter(WimseAud));
    var b := Rule(p.wimseReqNonce.None?, MissingParameter(WimseReqNonce));
    TwoRules(a, b);
    BrokenConcat(CommonRules(p), [a, b]);
    hide CommonRules, CheckCommonProfile, FirstBroken;
  }

  lemma ConnectFollows(m: Message, components: seq<Component>, response: bool)
    ensures Follows(CheckConnectComponents(m, components, response), ConnectRules(m, components, response))
  {
    var rules := ConnectRules(m, components, response);
    IdentifiersWrittenOut("", Path);
    IdentifiersWrittenOut("", Query);
    TwoRules(rules[0], rules[1]);
    hide FirstBroken, ComponentValue, Covers, QuotedId;
    assert rules == [rules[0], rules[1]];
    assert "\"@path\"" + ";req" == "\"@path\";req" && "\"@query\"" + ";req" == "\"@query\";req";
  }

  lemma ProfileFollows(m: Message, member: InputMember, config: VerifyConfig)
    ensures Follows(CheckProfile(m, member, config), ProfileRules(m, member.components, member.params, config))
  {
    var p := member.params;
    RequestFollows(p);
    ResponseFollows(p);
    ConnectFollows(m, member.components, config.wimseResponseProfile);
    var a := if config.wimseProfile then RequestRules(p) else [];
    var b := if config.wimseResponseProfile then ResponseRules(p) else [];
    var c := if config.Profiled() then ConnectRules(m, member.components, config.wimseResponseProfile) else [];
    BrokenConcat(a, b);
    BrokenConcat(a + b, c);
    hide RequestRules, ResponseRules, ConnectRules, CheckRequestProfile, CheckResponseProfile, CheckConnectComponents;
  }

  lemma AlgorithmFollows(p: SignatureParams, algorithm: Algorithm, config: VerifyConfig)
    ensures Follows(CheckAlgorithm(p, algorithm, config), AlgorithmRules(p, algorithm, config))
  {
    var rules := AlgorithmRules(p, algorithm, config);
    TwoRules(rules[0], rules[1]);
    assert rules == [rules[0], rules[1]];
  }

  lemma {:induction false} RequiredFollows(components: seq<Component>, required: seq<Component>)
    ensures Follows(CheckRequired(components, required), RequiredRules(components, required))
  {
    hide Covers, QuotedId;
    if required == [] {
    } else {
      RequiredFollows(components, required[1..]);
      FollowsFirst(Rule(!Covers(components, required[0]), MissingRequiredComponent(QuotedId(required[0]))),
                   RequiredRules(components, required[1..]));
    }
  }

  lemma AddressFollows(p: SignatureParams, config: VerifyConfig)
    ensures Follows(CheckAddress(p, config), AddressRules(p, config))
  {
    var rules := AddressRules(p, config);
    TwoRules(rules[0], rules[1]);
    assert rules == [rules[0], rules[1]];
  }

  function CheckAddress(p: SignatureParams, config: VerifyConfig): Outcome<()> {
    var _ :- CheckAudience(p, config);
    CheckReqNonce(p, config)
  }

  /** Saturating arithmetic gives each time rule the verdict it has in unbounded integers. */
  lemma TimeFollows(p: SignatureParams, config: VerifyConfig)
    ensures Follows(CheckTime(p, config), TimeRules(p, config))
  {
    var rules := TimeRules(p, config);
    SixRules(rules[0], rules[1], rules[2], rules[3], rules[4], rules[5]);
    hide FirstBroken;
    assert rules == [rules[0], rules[1], rules[2], rules[3], rules[4], rules[5]];
  }

  lemma PolicyFollows(components: seq<Component>, p: SignatureParams, config: VerifyConfig)
    ensures Follows(CheckPolicy(components, p, config), PolicyRules(components, p, config))
  {
    RequiredFollows(components, config.required);
    AddressFollows(p, config);
    TimeFollows(p, config);
    var a, b, c := RequiredRules(components, config.required), AddressRules(p, config), TimeRules(p, config);
    BrokenConcat(a, b);
    BrokenConcat(a + b, c);
    hide RequiredRules, AddressRules, TimeRules, CheckRequired, CheckAudience, CheckReqNonce, CheckTime, FirstBroken;
  }

  // ---------- The verdict ----------

  /** The rules judged before the key is asked, and those judged after it has accepted. */
  function EarlyRules(m: Message, member: InputMember, algorithm: Algorithm, config: VerifyConfig): seq<Rule> {
    ProfileRules(m, member.components, member.params, config) + AlgorithmRules(member.params, algorithm, config)
  }

  /**
   The verdict on a member: the first broken early rule, then the failure of the
   base, then the key's, then the first broken late rule.
   */
  lemma JudgeFollows(m: Message, member: InputMember, bytes: Raw, key: VerifyingKey, config: VerifyConfig)
    ensures var r := Judge(m, member, bytes, key, config);
            var early := FirstBroken(EarlyRules(m, member, key.algorithm, config));
            var base := BaseText(m, member.components, member.text);
            if early.Some? then r == Err(early.value)
            else if base.Err? then r == Err(base.error)
            else if !key.accepts(base.value, bytes) then r == Err(InvalidSignature)
            else Follows(r, PolicyRules(member.components, member.params, config))
  {
    ProfileFollows(m, member, config);
    AlgorithmFollows(member.params, key.algorithm, config);
    BrokenConcat(ProfileRules(m, member.components, member.params, config),
                 AlgorithmRules(member.params, key.algorithm, config));
    PolicyFollows(member.components, member.params, config);
    hide ProfileRules, AlgorithmRules, PolicyRules, FirstBroken, BaseText, CheckProfile, CheckAlgorithm, CheckPolicy;
  }

  /**
   The verdict on fields: selection fails first, then the parsing of the
   signature, then the member is judged.
   */
  lemma VerdictFollows(m: Message, signatureInput: string, signature: string, key: VerifyingKey,
                       base64: Base64, config: VerifyConfig)
    ensures var r := Verify(m, signatureInput, signature, key, base64, config);
            var selected := SelectMember(signatureInput, config);
            if selected.Err? then r == Err(selected.error) else
            var member := selected.value;
            var bytes := ParseSignature(signature, member.name, base64);
            if bytes.Err? then r == Err(bytes.error) else
            var early := FirstBroken(EarlyRules(m, member, key.algorithm, config));
            var base := BaseText(m, member.components, member.text);
            if early.Some? then r == Err(early.value)
            else if base.Err? then r == Err(base.error)
            else if !key.accepts(base.value, bytes.value) then r == Err(InvalidSignature)
            else Follows(r, PolicyRules(member.components, member.params, config))
  {
    hide SelectMember, ParseSignature, Judge, EarlyRules, PolicyRules, BaseText, FirstBroken;
    if SelectMember(signatureInput, config).Ok? {
      var member := SelectMember(signatureInput, config).value;
      var bytes := ParseSignature(signature, member.name, base64);
      if bytes.Ok? {
        JudgeFollows(m, member, bytes.value, key, config);
      }
    }
  }

  // ---------- A forged message learns nothing ----------

  /** The configurations differ at most in what is judged after the signature. */
  predicate SameUpToPolicy(a: VerifyConfig, b: VerifyConfig) {
    b == a.(now := b.now, leeway := b.leeway, required := b.required, maxAge := b.maxAge,
            expectedAudiences := b.expectedAudiences, expectedReqNonce := b.expectedReqNonce)
  }

  /** The key accepts no text with the bytes that are checked. */
  ghost predicate Forged(signatureInput: string, signature: string, key: VerifyingKey, base64: Base64,
                         config: VerifyConfig)
  {
    var bytes := CheckedBytes(signatureInput, signature, base64, config);
    bytes.Ok? ==> forall text :: !key.accepts(text, bytes.value)
  }

  /**
   The verdict on a forged message is the same whatever audiences, nonce, clock,
   ages and components the recipient asks for: it cannot be told apart by
   whether it guessed them.
   */
  lemma ForgedLearnsNothing(m: Message, signatureInput: string, signature: string, key: VerifyingKey,
                            base64: Base64, a: VerifyConfig, b: VerifyConfig)
    requires SameUpToPolicy(a, b) && Forged(signatureInput, signature, key, base64, a)
    ensures Verify(m, signatureInput, signature, key, base64, a) == Verify(m, signatureInput, signature, key, base64, b)
  {
    SelectionReads(signatureInput, a, b);
    VerdictFollows(m, signatureInput, signature, key, base64, a);
    VerdictFollows(m, signatureInput, signature, key, base64, b);
    if SelectMember(signatureInput, a).Ok? {
      SameEarly(m, SelectMember(signatureInput, a).value, key.algorithm, a, b);
    }
    hide SelectMember, ParseSignature, Verify, EarlyRules, PolicyRules, BaseText, FirstBroken, Follows;
  }

  lemma SameEarly(m: Message, member: InputMember, algorithm: Algorithm, a: VerifyConfig, b: VerifyConfig)
    requires SameUpToPolicy(a, b)
    ensures EarlyRules(m, member, algorithm, a) == EarlyRules(m, member, algorithm, b)
  {
  }

  /** And it is an invalid signature, once the fields parse, the early rules hold and the base exists. */
  lemma ForgedIsInvalid(m: Message, signatureInput: string, signature: string, key: VerifyingKey,
                        base64: Base64, config: VerifyConfig)
    requires Forged(signatureInput, signature, key, base64, config)
    requires SelectMember(signatureInput, config).Ok?
    requires var member := SelectMember(signatureInput, config).value;
             && ParseSignature(signature, member.name, base64).Ok?
             && (forall i :: 0 <= i < |EarlyRules(m, member, key.algorithm, config)| ==>
                   !EarlyRules(m, member, key.algorithm, config)[i].broken)
             && OneLine(member.text) && AllDerivable(m, member.components)
    ensures Verify(m, signatureInput, signature, key, base64, config) == Err(InvalidSignature)
  {
    var member := SelectMember(signatureInput, config).value;
    VerdictFollows(m, signatureInput, signature, key, base64, config);
    NoneBroken(EarlyRules(m, member, key.algorithm, config));
    LinesExist(m, member.components);
    hide SelectMember, ParseSignature, Verify, EarlyRules, PolicyRules, FirstBroken, Follows, OneLine,
      AllDerivable, Lines;
    assert CheckedBytes(signatureInput, signature, base64, config) == ParseSignature(signature, member.name, base64);
  }

  lemma {:induction false} NoneBroken(rules: seq<Rule>)
    ensures FirstBroken(rules).None? <==> forall i :: 0 <= i < |rules| ==> !rules[i].broken
  {
    if rules == [] {
    } else {
      NoneBroken(rules[1..]);
      assert forall i :: 1 <= i < |rules| ==> rules[i] == rules[1..][i - 1];
    }
  }
}
