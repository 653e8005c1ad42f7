/** Time and policy: which clocks and which configurations a signature passes. */
module Policy {
  import opened Wrappers
  import opened Text
  import opened Errors
  import opened Components
  import opened Params
  import opened Members
  import opened Selection
  import opened SignatureBase
  import opened Verification

  /** The time rules in unbounded integers: the window opened by the leeway, and the maximum age. */
  predicate InWindow(p: SignatureParams, config: VerifyConfig) {
    && (p.created.Some? && p.expires.Some? ==> p.created.value <= p.expires.value)
    && (config.maxAge.Some? ==> config.now.Some? && p.created.Some?)
    && (config.now.Some? ==>
          var n := config.now.value as int;
          && (p.expires.Some? ==> n <= p.expires.value + config.leeway)
          && (p.created.Some? ==> p.created.value - config.leeway <= n)
          && (config.maxAge.Some? ==> n <= p.created.value + config.maxAge.value))
  }

  /** Saturating 64-bit arithmetic never changes the verdict of the time rules. */
  lemma TimeIsExact(p: SignatureParams, config: VerifyConfig)
    ensures CheckTime(p, config).Ok? <==> InWindow(p, config)
  {
  }

  /** Selection reads only the profile switches and the configured label. */
  lemma SelectionReads(signatureInput: string, a: VerifyConfig, b: VerifyConfig)
    requires a.Profiled() == b.Profiled() && a.name == b.name
    ensures SelectMember(signatureInput, a) == SelectMember(signatureInput, b)
  {
    hide MemberOf;
  }

  /** The configuration with the clock and the age limit taken out. */
  function Timeless(config: VerifyConfig): VerifyConfig {
    config.(now := None, maxAge := None)
  }

  lemma PolicySplits(components: seq<Component>, p: SignatureParams, config: VerifyConfig)
    ensures CheckPolicy(components, p, config).Ok? <==>
            && CheckRequired(components, config.required).Ok?
            && CheckAudience(p, config).Ok?
            && CheckReqNonce(p, config).Ok?
            && CheckTime(p, config).Ok?
  {
    hide CheckRequired, CheckAudience, CheckReqNonce, CheckTime;
  }

  /**
   With `created` and `expires` present and everything but time in order, the
   accepted clocks are exactly the integers between `created - leeway` and
   `expires + leeway` that are at most `created + max_age`.
   */
  lemma AcceptedClocks(m: Message, signatureInput: string, signature: string, key: VerifyingKey, base64: Base64,
                       config: VerifyConfig, n: u64)
    requires Verify(m, signatureInput, signature, key, base64, Timeless(config)).Ok?
    requires var p := Verify(m, signatureInput, signature, key, base64, Timeless(config)).value.params;
             p.created.Some? && p.expires.Some?
    ensures var p := Verify(m, signatureInput, signature, key, base64, Timeless(config)).value.params;
            Verify(m, signatureInput, signature, key, base64, config.(now := Some(n))).Ok? <==>
            && p.created.value - config.leeway <= n <= p.expires.value + config.leeway
            && (config.maxAge.Some? ==> n <= p.created.value + config.maxAge.value)
  {
    var calm, timed := Timeless(config), config.(now := Some(n));
    VerifyAccepts(m, signatureInput, signature, key, base64, calm);
    SelectionReads(signatureInput, calm, timed);
    var member := SelectMember(signatureInput, calm).value;
    var bytes := ParseSignature(signature, member.name, base64).value;
    JudgeAccepts(m, member, bytes, key, timed);
    JudgeReadsTime(m, member, bytes, key, config, Some(n));
    TimeIsExact(member.params, calm);
    TimeIsExact(member.params, timed);
    hide SelectMember, ParseSignature, Judge, Accepted, CheckTime;
  }

  lemma JudgeReadsTime(m: Message, member: InputMember, bytes: Raw, key: VerifyingKey, config: VerifyConfig,
                       now: Option<u64>)
    requires Accepted(m, member, bytes, key, Timeless(config))
    ensures CheckTime(member.params, Timeless(config)).Ok?
    ensures Accepted(m, member, bytes, key, config.(now := now)) <==>
            CheckTime(member.params, config.(now := now)).Ok?
  {
    PolicySplits(member.components, member.params, Timeless(config));
    PolicySplits(member.components, member.params, config.(now := now));
    hide BaseText, CheckPolicy, CheckTime, CheckRequired, CheckRequestProfile, CheckResponseProfile,
      CheckConnectComponents;
  }

  // ---------- Monotonicity ----------

  /** `b` is as strict as `a` or less: more leeway, a longer or no age limit, more audiences, fewer requirements. */
  ghost predicate Laxer(a: VerifyConfig, b: VerifyConfig) {
    && b == a.(leeway := b.leeway, maxAge := b.maxAge, expectedAudiences := b.expectedAudiences, required := b.required)
    && a.leeway <= b.leeway
    && (b.maxAge.Some? ==> a.maxAge.Some? && a.maxAge.value <= b.maxAge.value)
    && (forall aud :: aud in a.expectedAudiences ==> aud in b.expectedAudiences)
    && (forall c :: c in b.required ==> c in a.required)
  }

  lemma {:induction false} RequiredCovered(components: seq<Component>, required: seq<Component>)
    ensures CheckRequired(components, required).Ok? <==> forall c :: c in required ==> Covers(components, c)
  {
    hide Covers;
    if required == [] {
    } else {
      RequiredCovered(components, required[1..]);
      HeadTail(required);
    }
  }

  /** What a caller reads off the two configurations: `b` starts no audience check that `a` left out. */
  predicate KeepsAudienceRule(a: VerifyConfig, b: VerifyConfig) {
    a.wimseProfile || a.expectedAudiences != [] || b.expectedAudiences == []
  }

  /** Whether a signature passes the audience rule of `b`, having passed that of a stricter `a`. */
  predicate AudienceStillFits(p: SignatureParams, a: VerifyConfig, b: VerifyConfig) {
    KeepsAudienceRule(a, b) || (p.wimseAud.Some? && p.wimseAud.value in b.expectedAudiences)
  }

  lemma LaxerPolicy(components: seq<Component>, p: SignatureParams, a: VerifyConfig, b: VerifyConfig)
    requires Laxer(a, b) && CheckPolicy(components, p, a).Ok?
    ensures AudienceStillFits(p, a, b) ==> CheckPolicy(components, p, b).Ok?
    ensures !AudienceStillFits(p, a, b) ==> CheckPolicy(components, p, b) == Err(AudienceMismatch)
  {
    PolicySplits(components, p, a);
    PolicySplits(components, p, b);
    RequiredCovered(components, a.required);
    RequiredCovered(components, b.required);
    TimeIsExact(p, a);
    TimeIsExact(p, b);
    hide CheckTime, CheckRequired, Covers;
  }

  /**
   More leeway, a longer age limit, more audiences or fewer required components
   never turn an acceptance into a rejection, nor change what was verified,
   with one exception: where no audience was checked before, the first
   configured audience rejects a signature that does not name one of them.
   */
  lemma LaxerAccepts(m: Message, signatureInput: string, signature: string, key: VerifyingKey, base64: Base64,
                     a: VerifyConfig, b: VerifyConfig)
    requires Laxer(a, b) && Verify(m, signatureInput, signature, key, base64, a).Ok?
    ensures var before := Verify(m, signatureInput, signature, key, base64, a);
            var after := Verify(m, signatureInput, signature, key, base64, b);
            after == if AudienceStillFits(before.value.params, a, b) then before else Err(AudienceMismatch)
  {
    VerifyAccepts(m, signatureInput, signature, key, base64, a);
    SelectionReads(signatureInput, a, b);
    var member := SelectMember(signatureInput, a).value;
    var bytes := ParseSignature(signature, member.name, base64).value;
    LaxerJudge(m, member, bytes, key, a, b);
    hide SelectMember, ParseSignature, Judge, Accepted, Laxer, AudienceStillFits;
  }

  lemma LaxerJudge(m: Message, member: InputMember, bytes: Raw, key: VerifyingKey, a: VerifyConfig, b: VerifyConfig)
    requires Laxer(a, b) && Accepted(m, member, bytes, key, a)
    ensures Judge(m, member, bytes, key, b) ==
            if AudienceStillFits(member.params, a, b)
            then Ok(VerifiedSignature(member.name, member.components, member.params))
            else Err(AudienceMismatch)
  {
    LaxerPolicy(member.components, member.params, a, b);
    JudgeAccepts(m, member, bytes, key, b);
    hide BaseText, CheckPolicy, CheckRequestProfile, CheckResponseProfile, CheckConnectComponents, AudienceStillFits;
  }
}
