/** What covering the components that the profile requires is for: the accepted message is the signed one. */
module ProfileBinding {
  import opened Text
  import opened Components
  import opened Members
  import opened Selection
  import opened SignatureBase
  import opened BaseAlignment
  import opened Verification
  import opened RequiredComponents
  import opened Policy
  import opened Guarantees
  import opened Completeness
  import opened EndToEnd

  // ---------- What the profile covers ----------

  /** Every field of `names` has the same value in both messages, or is absent from both. */
  ghost predicate SameFieldValues(names: seq<string>, a: seq<Field>, b: seq<Field>) {
    forall k :: 0 <= k < |names| ==> HeaderValue(a, names[k]) == HeaderValue(b, names[k])
  }

  /** The same method, and the same authority of a CONNECT or the same path and query of any other request. */
  predicate SameTarget(a: HttpRequest, b: HttpRequest) {
    && a.verb == b.verb
    && if a.verb == CONNECT then Lower(a.authority) == Lower(b.authority)
       else PathOf(a) == PathOf(b) && RequestValue(a, Query) == RequestValue(b, Query)
  }

  /** As far as the profile protects them, both messages are the same. */
  ghost predicate SameUnderProfile(a: Message, b: Message) {
    match (a, b)
    case (Request(r), Request(s)) =>
      SameTarget(r, s) && SameFieldValues(REQUEST_FIELDS, r.headers, s.headers)
    case (Exchange(x, r), Exchange(y, s)) =>
      x.status == y.status && SameTarget(r, s) && SameFieldValues(RESPONSE_FIELDS, x.headers, y.headers)
    case _ => false
  }

  /** The components that the profile requires of a message. */
  function RequiredOn(m: Message): seq<Component> {
    match m
    case Request(r) => RequiredOnRequest(r)
    case Exchange(response, answered) => RequiredOnResponse(response, answered)
  }

  function TargetsOn(m: Message): seq<Component> {
    match m
    case Request(r) => RequestTargets(r)
    case Exchange(_, answered) => ResponseTargets(answered)
  }

  function FieldNames(m: Message): seq<string> {
    if m.Request? then REQUEST_FIELDS else RESPONSE_FIELDS
  }

  lemma RequiredSplits(m: Message)
    ensures RequiredOn(m) == TargetsOn(m) + Present(FieldNames(m), FieldsOf(m, false))
    ensures forall k :: 0 <= k < |FieldNames(m)| ==> IsPlainName(FieldNames(m)[k])
  {
    FieldListsArePlain();
  }

  // ---------- Fields ----------

  lemma {:induction false} PresentMembers(names: seq<string>, headers: seq<Field>, c: Component)
    requires forall k :: 0 <= k < |names| ==> IsPlainName(names[k])
    ensures c in Present(names, headers) <==>
            exists k :: 0 <= k < |names| && c == Header(names[k]) && HasField(headers, names[k])
  {
    if names == [] {
    } else {
      PresentMembers(names[1..], headers, c);
      PlainNameIsFieldName(names[0]);
      hide IsPlainName, HasField, Lower;
      assert forall k :: 1 <= k < |names| ==> names[k] == names[1..][k - 1];
    }
  }

  lemma {:induction false} PresentSame(names: seq<string>, a: seq<Field>, b: seq<Field>)
    requires SameFieldValues(names, a, b)
    ensures Present(names, a) == Present(names, b)
  {
    if names == [] {
    } else {
      assert forall k :: 1 <= k < |names| ==> names[k] == names[1..][k - 1];
      FieldIsFound(a, names[0]);
      FieldIsFound(b, names[0]);
      hide HeaderValue, HasField;
      PresentSame(names[1..], a, b);
    }
  }

  /** The present fields carry the same values, and no other field of `names` is there: nothing differs. */
  lemma PresentFixesFields(names: seq<string>, a: seq<Field>, b: seq<Field>)
    requires forall k :: 0 <= k < |names| ==> IsPlainName(names[k])
    requires forall c :: c in Present(names, a) && c.Header? ==> HeaderValue(a, c.name) == HeaderValue(b, c.name)
    requires forall c :: c in Present(names, b) ==> c in Present(names, a)
    ensures SameFieldValues(names, a, b)
  {
    forall k | 0 <= k < |names| ensures HeaderValue(a, names[k]) == HeaderValue(b, names[k]) {
      var c := Header(names[k]);
      PresentMembers(names, a, c);
      PresentMembers(names, b, c);
      FieldIsFound(a, names[k]);
      FieldIsFound(b, names[k]);
      hide HasField, Present, IsPlainName;
    }
  }

  // ---------- The required components ----------

  lemma RequiredHaveValues(m: Message)
    ensures AllWellFormed(RequiredOn(m))
    ensures forall c :: c in RequiredOn(m) ==> ComponentValue(m, c).Ok?
    ensures forall c :: c in RequiredOn(m) ==> c in TargetsOn(m) || c.Header?
  {
    RequiredSplits(m);
    var names, headers := FieldNames(m), FieldsOf(m, false);
    PresentAreDerivable(names, headers);
    hide Present, HeaderValue, IsFieldName, IsPlainName, Decimal;
    forall c | c in RequiredOn(m)
      ensures WellFormed(c) && ComponentValue(m, c).Ok? && (c in TargetsOn(m) || c.Header?)
    {
      assert c in TargetsOn(m) || c in Present(names, headers);
    }
  }

  lemma SameValueOf(a: Message, b: Message, components: seq<Component>, c: Component)
    requires SameValues(a, b, components) && c in components
    ensures ComponentValue(a, c).Ok? && ComponentValue(a, c) == ComponentValue(b, c)
  {
    var i :| 0 <= i < |components| && components[i] == c;
  }

  lemma {:induction false} SameAsItself(c: Component)
    ensures Same(c, c)
  {
    match c
    case Req(inner) => SameAsItself(inner);
    case _ =>
  }

  lemma CoversIsMembership(components: seq<Component>, c: Component)
    requires AllWellFormed(components) && WellFormed(c)
    ensures Covers(components, c) <==> c in components
  {
    SameAsItself(c);
    hide Same, WellFormed;
    if Covers(components, c) {
      var i :| 0 <= i < |components| && Same(components[i], c);
      SameIsIdentity(components[i], c);
    }
  }

  lemma HeaderOn(m: Message, name: string)
    ensures ComponentValue(m, Header(name)) == HeaderValue(FieldsOf(m, false), name)
  {
  }

  // ---------- Covering them fixes the message ----------

  /** All that is required of `a` is covered, with equal values in `b`, and so is all that is required of `b`. */
  ghost predicate CoveredAlike(a: Message, b: Message) {
    SameValues(a, b, RequiredOn(a)) && forall c :: c in RequiredOn(b) ==> Covers(RequiredOn(a), c)
  }

  lemma CoveredMembers(a: Message, b: Message)
    requires CoveredAlike(a, b)
    ensures forall c :: c in RequiredOn(b) ==> c in RequiredOn(a)
  {
    RequiredHaveValues(a);
    RequiredHaveValues(b);
    hide RequiredOn, WellFormed;
    forall c | c in RequiredOn(b) ensures c in RequiredOn(a) {
      CoversIsMembership(RequiredOn(a), c);
    }
  }

  /** A request and a response never stand for each other: each covers a component that has no value in the other. */
  lemma SameKind(a: Message, b: Message)
    requires CoveredAlike(a, b)
    ensures a.Request? == b.Request?
  {
    var first := if a.Request? then Method else Status;
    assert RequiredOn(a)[0] == first;
    SameValueOf(a, b, RequiredOn(a), first);
  }

  lemma TargetInRequired(m: Message, c: Component)
    requires c in TargetsOn(m)
    ensures c in RequiredOn(m)
  {
    RequiredSplits(m);
  }

  lemma SameTargetValues(a: HttpRequest, b: HttpRequest)
    requires forall c :: c in RequestTargets(a) ==> RequestValue(a, c) == RequestValue(b, c)
    ensures SameTarget(a, b)
  {
    assert Method in RequestTargets(a);
    if a.verb == CONNECT {
      assert Authority in RequestTargets(a);
    } else {
      assert Path in RequestTargets(a) && Query in RequestTargets(a);
    }
  }

  lemma CoveredFixesTargets(a: Message, b: Message)
    requires CoveredAlike(a, b) && a.Request? == b.Request?
    ensures a.Request? ==> SameTarget(a.request, b.request)
    ensures a.Exchange? ==> SameTarget(a.answered, b.answered) && a.response.status == b.response.status
  {
    forall c | c in TargetsOn(a) ensures ComponentValue(a, c) == ComponentValue(b, c) {
      TargetInRequired(a, c);
      SameValueOf(a, b, RequiredOn(a), c);
    }
    hide SameTarget;
    if a.Request? {
      forall c | c in RequestTargets(a.request) ensures RequestValue(a.request, c) == RequestValue(b.request, c) {
        assert c in TargetsOn(a);
        assert ComponentValue(a, c) == ComponentValue(b, c);
      }
      SameTargetValues(a.request, b.request);
    } else {
      hide Decimal;
      forall c | c in RequestTargets(a.answered) ensures RequestValue(a.answered, c) == RequestValue(b.answered, c) {
        assert Req(c) in TargetsOn(a);
        assert ComponentValue(a, Req(c)) == ComponentValue(b, Req(c));
      }
      SameTargetValues(a.answered, b.answered);
      assert Status in TargetsOn(a);
      assert ComponentValue(a, Status) == ComponentValue(b, Status);
      DecimalValueOfDecimal(a.response.status);
      DecimalValueOfDecimal(b.response.status);
    }
  }

  lemma CoveredFixesFields(a: Message, b: Message)
    requires CoveredAlike(a, b) && a.Request? == b.Request?
    ensures SameFieldValues(FieldNames(a), FieldsOf(a, false), FieldsOf(b, false))
  {
    var names, x, y := FieldNames(a), FieldsOf(a, false), FieldsOf(b, false);
    RequiredSplits(a);
    RequiredSplits(b);
    CoveredMembers(a, b);
    PresentAreDerivable(names, x);
    PresentAreDerivable(names, y);
    TargetsAreNoHeaders(a);
    hide RequiredOn, TargetsOn, Present, IsPlainName, HeaderValue, WellFormed, CoveredAlike;
    forall c | c in Present(names, x) && c.Header? ensures HeaderValue(x, c.name) == HeaderValue(y, c.name) {
      assert SameValues(a, b, RequiredOn(a)) by { CoveredHasValues(a, b); }
      SameValueOf(a, b, RequiredOn(a), c);
      HeaderOn(a, c.name);
      HeaderOn(b, c.name);
    }
    forall c | c in Present(names, y) ensures c in Present(names, x) {
      assert c in RequiredOn(b);
      assert c in TargetsOn(a) || c in Present(names, x);
    }
    PresentFixesFields(names, x, y);
  }

  lemma TargetsAreNoHeaders(m: Message)
    ensures forall c :: c in TargetsOn(m) ==> !c.Header?
  {
  }

  lemma CoveredHasValues(a: Message, b: Message)
    requires CoveredAlike(a, b)
    ensures SameValues(a, b, RequiredOn(a))
  {
  }

  lemma SameRequires(a: Message, b: Message)
    requires SameUnderProfile(a, b)
    ensures RequiredOn(a) == RequiredOn(b)
  {
    hide SameFieldValues, Present, HeaderValue;
    PresentSame(FieldNames(a), FieldsOf(a, false), FieldsOf(b, false));
  }

  lemma SameIsCovered(a: Message, b: Message)
    requires SameUnderProfile(a, b)
    ensures CoveredAlike(a, b)
  {
    SameRequires(a, b);
    RequiredHaveValues(a);
    RequiredSplits(a);
    var names, x, y := FieldNames(a), FieldsOf(a, false), FieldsOf(b, false);
    var components := RequiredOn(a);
    assert SameFieldValues(names, x, y);
    hide Present, WellFormed, IsPlainName, HeaderValue, RequiredOn;
    forall i | 0 <= i < |components| ensures ComponentValue(a, components[i]) == ComponentValue(b, components[i]) {
      var c := components[i];
      if c in TargetsOn(a) {
        hide Decimal;
      } else {
        PresentMembers(names, x, c);
        HeaderOn(a, c.name);
        HeaderOn(b, c.name);
      }
    }
    forall c | c in components ensures Covers(components, c) {
      CoversIsMembership(components, c);
    }
  }

  /**
   Signing what the profile requires and finding all that it requires, with
   equal values, is the same message under the profile, and nothing less: no
   listed field can be changed, added or removed.
   */
  lemma CoveredMeansSame(a: Message, b: Message)
    ensures CoveredAlike(a, b) <==> SameUnderProfile(a, b)
  {
    if CoveredAlike(a, b) {
      hide CoveredAlike, SameTarget, SameFieldValues;
      SameKind(a, b);
      CoveredFixesTargets(a, b);
      CoveredFixesFields(a, b);
    }
    if SameUnderProfile(a, b) {
      SameIsCovered(a, b);
    }
  }

  // ---------- Accepted messages ----------

  /** A signing of what the profile requires of its message. */
  predicate SignsRequired(s: Signing) {
    s.components == RequiredOn(s.message)
  }

  lemma VouchedIsSame(s: Signing, m: Message, v: VerifiedSignature)
    requires SignsRequired(s) && Vouches(s, m, v)
    requires forall c :: c in RequiredOn(m) ==> Covers(v.components, c)
    ensures SameUnderProfile(s.message, m)
  {
    RequiredHaveValues(s.message);
    WellFormedNoneTaken(s.components);
    hide RequiredOn, ComponentValue, Covers, NoneTaken, ReadsAs, SameUnderProfile;
    CoveredMeansSame(s.message, m);
  }

  /**
   If the received bytes are a signature for no texts but signings of what the
   profile requires of each message, and the recipient requires what the profile
   asks of the message at hand, an accepted message is one of the signed ones: request or response alike, with
   the same target, status and listed fields, down to the absent ones.
   */
  lemma AcceptedIsSigned(m: Message, signatureInput: string, signature: string, key: VerifyingKey,
                         base64: Base64, config: VerifyConfig, signed: seq<Signing>)
    requires forall i :: 0 <= i < |signed| ==> SignsRequired(signed[i])
    requires config.required == RequiredOn(m)
    requires var bytes := CheckedBytes(signatureInput, signature, base64, config);
             bytes.Ok? ==> OnlySigned(key, bytes.value, signed)
    requires Verify(m, signatureInput, signature, key, base64, config).Ok?
    ensures exists i :: 0 <= i < |signed| && SameUnderProfile(signed[i].message, m)
  {
    TamperEvidence(m, signatureInput, signature, key, base64, config, signed);
    RequiredAreCovered(m, signatureInput, signature, key, base64, config);
    var v := Verify(m, signatureInput, signature, key, base64, config).value;
    hide Verify, CheckedBytes, OnlySigned, RequiredOn, Covers, Vouches, SameUnderProfile, SignsRequired;
    var i :| 0 <= i < |signed| && Vouches(signed[i], m, v);
    assert SignsRequired(signed[i]);
    VouchedIsSame(signed[i], m, v);
  }

  /**
   A fresh profile signature whose bytes verify for no other text, checked
   against what the profile requires of the received message, is accepted
   exactly when the received message is the signed one and the recipient's rules
   are obeyed.
   */
  lemma FreshBindsMessage(s: Signing, name: string, signer: SigningKey, base64: Base64, verifier: VerifyingKey,
                          config: VerifyConfig, received: Message)
    requires IsKey(name) && Lawful(base64) && Finds(config, name) && SignsRequired(s)
    requires config.required == RequiredOn(received)
    requires SignThat(s, name, signer, base64).Ok? && Matches(signer, verifier)
    requires BindsTo(verifier, signer.sign(SignedText(s).value), SignedText(s).value)
    ensures var signed := SignThat(s, name, signer, base64).value;
            Verify(received, signed.signatureInput, signed.signature, verifier, base64, config).Ok? <==>
            && SameUnderProfile(s.message, received)
            && Obeys(received, s.components, s.params, verifier.algorithm, config)
  {
    RequiredHaveValues(s.message);
    hide IsKey, Lawful, Finds, Verify, SignThat, SameUnderProfile, RequiredOn, BindsTo, SignedText;
    FreshBindsValues(s, name, signer, base64, verifier, config, received);
    hide InWindow, Conforms, NoTargetOnConnect, Covers, SameValues;
    CoveredMeansSame(s.message, received);
  }
}
