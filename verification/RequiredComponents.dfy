/** The components Section 3 of the WIMSE HTTP signature profile requires to be covered. */
module RequiredComponents {
  import opened Text
  import opened Components
  import opened ParamsRoundTrip
  import opened SignatureBase
  import opened Verification

  predicate HasField(headers: seq<Field>, name: string) {
    exists i :: 0 <= i < |headers| && SameIgnoringCase(headers[i].name, name)
  }

  const REQUEST_FIELDS: seq<string> := [
    "content-type", "content-digest", "authorization", "txn-token", "workload-identity-token"]

  const RESPONSE_FIELDS: seq<string> := ["content-type", "content-digest", "workload-identity-token"]

  /** The fields of `names` that are present, as components. */
  function Present(names: seq<string>, headers: seq<Field>): seq<Component> {
    if names == [] then []
    else if HasField(headers, names[0]) then [Header(Lower(names[0]))] + Present(names[1..], headers)
    else Present(names[1..], headers)
  }

  function RequestTargets(r: HttpRequest): seq<Component> {
    if r.verb == CONNECT then [Method, Authority] else [Method, Path, Query]
  }

  function ResponseTargets(answered: HttpRequest): seq<Component> {
    if answered.verb == CONNECT then [Status, Req(Method), Req(Authority)]
    else [Status, Req(Method), Req(Path), Req(Query)]
  }

  function RequiredOnRequest(r: HttpRequest): seq<Component> {
    RequestTargets(r) + Present(REQUEST_FIELDS, r.headers)
  }

  function RequiredOnResponse(response: HttpResponse, answered: HttpRequest): seq<Component> {
    ResponseTargets(answered) + Present(RESPONSE_FIELDS, response.headers)
  }

  /** The loop that both methods below end with. */
  method PushPresent(start: seq<Component>, names: seq<string>, headers: seq<Field>)
    returns (components: seq<Component>)
    ensures components == start + Present(names, headers)
  {
    components := start;
    assert names[0..] == names;
    hide HasField, Lower;
    for i := 0 to |names|
      invariant components + Present(names[i..], headers) == start + Present(names, headers)
    {
      assert names[i..][1..] == names[i + 1..];
      if HasField(headers, names[i]) {
        Regrouped(components, [Header(Lower(names[i]))], Present(names[i + 1..], headers));
        components := components + [Header(Lower(names[i]))];
      }
    }
  }

  method RequestComponents(r: HttpRequest) returns (components: seq<Component>)
    ensures components == RequiredOnRequest(r)
  {
    var start := if r.verb == CONNECT then [Method, Authority] else [Method, Path, Query];
    components := PushPresent(start, REQUEST_FIELDS, r.headers);
  }

  method ResponseComponents(response: HttpResponse, answered: HttpRequest) returns (components: seq<Component>)
    ensures components == RequiredOnResponse(response, answered)
  {
    var start := [Status, Req(Method)];
    start := if answered.verb == CONNECT then start + [Req(Authority)] else start + [Req(Path), Req(Query)];
    components := PushPresent(start, RESPONSE_FIELDS, response.headers);
  }

  // ---------- The required components can be signed ----------

  ghost predicate IsPlainName(name: string) {
    name != "" && forall i :: 0 <= i < |name| ==> IsKeyChar(name[i])
  }

  lemma PlainNameIsFieldName(name: string)
    requires IsPlainName(name)
    ensures IsFieldName(name) && Lower(name) == name
  {
  }

  lemma FieldListsArePlain()
    ensures forall i :: 0 <= i < |REQUEST_FIELDS| ==> IsPlainName(REQUEST_FIELDS[i])
    ensures forall i :: 0 <= i < |RESPONSE_FIELDS| ==> IsPlainName(RESPONSE_FIELDS[i])
  {
  }

  lemma {:induction false} FieldIsFound(headers: seq<Field>, name: string)
    ensures HeaderValue(headers, name).Ok? <==> HasField(headers, name)
  {
    hide SameIgnoringCase;
    if headers == [] {
    } else {
      FieldIsFound(headers[1..], name);
      assert forall i :: 1 <= i < |headers| ==> headers[i] == headers[1..][i - 1];
    }
  }

  /** The present fields are well-formed header components, and each has a value. */
  lemma {:induction false} PresentAreDerivable(names: seq<string>, headers: seq<Field>)
    requires forall i :: 0 <= i < |names| ==> IsPlainName(names[i])
    ensures forall c :: c in Present(names, headers) ==>
              c.Header? && WellFormed(c) && HeaderValue(headers, c.name).Ok?
  {
    if names == [] {
    } else {
      PlainNameIsFieldName(names[0]);
      FieldIsFound(headers, names[0]);
      hide IsPlainName, HasField, HeaderValue, Lower, IsFieldName;
      PresentAreDerivable(names[1..], headers);
    }
  }

  /** Whether no covered value holds a CR or LF. */
  ghost predicate ValuesOneLine(m: Message, components: seq<Component>) {
    forall i :: 0 <= i < |components| ==>
      ComponentValue(m, components[i]).Ok? ==> OneLine(ComponentValue(m, components[i]).value)
  }

  /** A CONNECT signature over these components covers neither path nor query. */
  ghost predicate TargetsFit(m: Message, components: seq<Component>, response: bool) {
    CheckConnectComponents(m, components, response).Ok?
  }

  /** Components that are headers or among `targets` do not cover what `targets` leaves out. */
  lemma OnlyTargetsCovered(components: seq<Component>, targets: seq<Component>, c: Component)
    requires forall i :: 0 <= i < |components| ==> components[i].Header? || components[i] in targets
    requires !c.Header? && forall t :: t in targets ==> !Same(t, c)
    ensures !Covers(components, c)
  {
  }

  lemma TargetsOrHeaders(targets: seq<Component>, fields: seq<Component>)
    requires forall c :: c in fields ==> c.Header?
    ensures var all := targets + fields;
            forall i :: 0 <= i < |all| ==> all[i] in targets || (all[i].Header? && all[i] in fields)
  {
  }

  lemma RequiredOnRequestFits(r: HttpRequest)
    requires ValuesOneLine(Request(r), RequiredOnRequest(r))
    ensures var components := RequiredOnRequest(r);
            && AllWellFormed(components)
            && AllDerivable(Request(r), components)
            && TargetsFit(Request(r), components, false)
  {
    FieldListsArePlain();
    PresentAreDerivable(REQUEST_FIELDS, r.headers);
    var fields, targets := Present(REQUEST_FIELDS, r.headers), RequestTargets(r);
    TargetsOrHeaders(targets, fields);
    var components := RequiredOnRequest(r);
    forall i | 0 <= i < |components|
      ensures WellFormed(components[i]) && ComponentValue(Request(r), components[i]).Ok?
    {
      hide Present, HeaderValue, IsFieldName, OneLine;
    }
    if r.verb == CONNECT {
      OnlyTargetsCovered(components, targets, Path);
      OnlyTargetsCovered(components, targets, Query);
    }
    hide Present, WellFormed, Covers;
  }

  lemma RequiredOnResponseFits(response: HttpResponse, answered: HttpRequest)
    requires ValuesOneLine(Exchange(response, answered), RequiredOnResponse(response, answered))
    ensures var components := RequiredOnResponse(response, answered);
            && AllWellFormed(components)
            && AllDerivable(Exchange(response, answered), components)
            && TargetsFit(Exchange(response, answered), components, true)
  {
    FieldListsArePlain();
    PresentAreDerivable(RESPONSE_FIELDS, response.headers);
    var fields, targets := Present(RESPONSE_FIELDS, response.headers), ResponseTargets(answered);
    TargetsOrHeaders(targets, fields);
    var components := RequiredOnResponse(response, answered);
    forall i | 0 <= i < |components|
      ensures WellFormed(components[i]) && ComponentValue(Exchange(response, answered), components[i]).Ok?
    {
      hide Present, HeaderValue, IsFieldName, OneLine, Decimal;
    }
    if answered.verb == CONNECT {
      OnlyTargetsCovered(components, targets, Req(Path));
      OnlyTargetsCovered(components, targets, Req(Query));
    }
    hide Present, WellFormed, Covers;
  }

  /** A header is among the required fields exactly when it is listed and the message carries it. */
  lemma {:induction false} PresentIsExact(names: seq<string>, headers: seq<Field>, name: string)
    ensures Covers(Present(names, headers), Header(name)) <==>
            HasField(headers, name) && exists i :: 0 <= i < |names| && SameIgnoringCase(names[i], name)
  {
    if names == [] {
    } else {
      PresentIsExact(names[1..], headers, name);
      LowerFixed(names[0]);
      SameFieldIsFound(headers, names[0], name);
      hide Lower, HasField;
      if HasField(headers, names[0]) {
        CoversCons(Header(Lower(names[0])), Present(names[1..], headers), Header(name));
      }
      ExistsCons(names, name);
    }
  }

  lemma SameFieldIsFound(headers: seq<Field>, a: string, b: string)
    ensures SameIgnoringCase(a, b) ==> (HasField(headers, a) <==> HasField(headers, b))
  {
  }

  lemma CoversCons(first: Component, rest: seq<Component>, c: Component)
    ensures Covers([first] + rest, c) <==> Same(first, c) || Covers(rest, c)
  {
    hide Same;
    var all := [first] + rest;
    assert all[0] == first;
    if Covers(rest, c) {
      var i :| 0 <= i < |rest| && Same(rest[i], c);
      assert all[i + 1] == rest[i];
    }
  }

  lemma ExistsCons(names: seq<string>, name: string)
    requires names != []
    ensures (exists i :: 0 <= i < |names| && SameIgnoringCase(names[i], name)) <==>
            SameIgnoringCase(names[0], name)
            || exists i :: 0 <= i < |names[1..]| && SameIgnoringCase(names[1..][i], name)
  {
    hide SameIgnoringCase;
    if i :| 0 <= i < |names[1..]| && SameIgnoringCase(names[1..][i], name) {
      assert names[i + 1] == names[1..][i];
    }
    assert forall i :: 1 <= i < |names| ==> names[i] == names[1..][i - 1];
  }
}
