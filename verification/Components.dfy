/** Covered components (RFC 9421 section 2) and the messages they are derived from. */
module Components {
  import opened Wrappers
  import opened Text
  import opened Errors
  import opened Scanner

  datatype Component =
    | Method
    | Authority
    | Path
    | Query
    | RequestTarget
    | Status
    | Req(base: Component)
    | Header(name: string)

  /** The program's equality on components: header names ignore ASCII case. */
  predicate Same(a: Component, b: Component) {
    match (a, b)
    case (Req(x), Req(y)) => Same(x, y)
    case (Header(m), Header(n)) => SameIgnoringCase(m, n)
    case _ => a == b && !a.Req? && !a.Header?
  }

  predicate Covers(components: seq<Component>, c: Component) {
    exists i :: 0 <= i < |components| && Same(components[i], c)
  }

  /** The identifier of a derived component, as it stands between the quotes. */
  function DerivedId(c: Component): string
    requires !c.Req? && !c.Header?
  {
    match c
    case Method => "@method"
    case Authority => "@authority"
    case Path => "@path"
    case Query => "@query"
    case RequestTarget => "@request-target"
    case Status => "@status"
  }

  function QuotedId(c: Component): string {
    match c
    case Req(inner) => QuotedId(inner) + ";req"
    case Header(name) => "\"" + name + "\""
    case _ => "\"" + DerivedId(c) + "\""
  }

  /** What stands between the quotes of a component identifier, read back. */
  function ComponentNamed(inner: string): Outcome<Component> {
    if inner == DerivedId(Method) then Ok(Method)
    else if inner == DerivedId(Authority) then Ok(Authority)
    else if inner == DerivedId(Path) then Ok(Path)
    else if inner == DerivedId(Query) then Ok(Query)
    else if inner == DerivedId(RequestTarget) then Ok(RequestTarget)
    else if inner == DerivedId(Status) then Ok(Status)
    else if inner != "" && inner[0] == '@' then Err(UnsupportedComponent(inner))
    else Ok(Header(Lower(inner)))
  }

  predicate EndsInReq(token: string) {
    |token| >= 4 && token[|token| - 4..] == ";req"
  }

  function FromQuotedId(token: string): Outcome<Component>
    decreases |token|
  {
    if EndsInReq(token) then
      var base :- FromQuotedId(token[..|token| - 4]);
      Ok(Req(base))
    else if |token| >= 2 && token[0] == '"' && token[|token| - 1] == '"' then
      ComponentNamed(token[1..|token| - 1])
    else
      Err(Parse(NotAQuotedIdentifier(token)))
  }

  // ---------- Identifiers round trip ----------

  /** The component under any number of `;req` parameters. */
  function Base(c: Component): Component {
    match c
    case Req(inner) => Base(inner)
    case _ => c
  }

  /** A header name that reads back as itself: lowercase, and not taken for a derived component. */
  predicate ReadableName(name: string) {
    IsLowercase(name) && (name != "" ==> name[0] != '@')
  }

  lemma DerivedIdsDiffer(c: Component)
    requires !c.Req? && !c.Header?
    ensures ComponentNamed(DerivedId(c)) == Ok(c)
  {
    assert DerivedId(Method)[1] == 'm' && DerivedId(Authority)[1] == 'a' && DerivedId(Path)[1] == 'p';
    assert DerivedId(Query)[1] == 'q' && DerivedId(RequestTarget)[1] == 'r' && DerivedId(Status)[1] == 's';
  }

  lemma NameReadsBack(name: string)
    ensures ComponentNamed(name) == Ok(Header(name)) <==> ReadableName(name)
  {
    LowerFixed(name);
    assert forall c: Component :: !c.Req? && !c.Header? ==> DerivedId(c)[0] == '@';
    DerivedIdsDiffer(Method);
  }

  lemma EndsInQ(token: string)
    ensures EndsInReq(token) ==> token[|token| - 1] == 'q'
  {
  }

  lemma QuotedIdEnds(c: Component)
    ensures |QuotedId(c)| >= 2
    ensures QuotedId(c)[0] == '"'
    ensures EndsInReq(QuotedId(c)) <==> c.Req?
    ensures !c.Req? ==> QuotedId(c)[|QuotedId(c)| - 1] == '"'
  {
    match c
    case Req(inner) =>
      QuotedIdEnds(inner);
      var id := QuotedId(inner);
      assert (id + ";req")[|id|..] == ";req";
    case _ =>
      var id := QuotedId(c);
      assert id[|id| - 1] == '"';
      EndsInQ(id);
  }

  /** A printed identifier reads back as its component exactly when its header name does. */
  lemma {:induction false} QuotedIdRoundTrip(c: Component)
    ensures FromQuotedId(QuotedId(c)) == Ok(c) <==> (Base(c).Header? ==> ReadableName(Base(c).name))
  {
    QuotedIdEnds(c);
    match c
    case Req(inner) =>
      QuotedIdRoundTrip(inner);
      var id := QuotedId(inner);
      assert (id + ";req")[..|id + ";req"| - 4] == id;
    case Header(name) =>
      NameReadsBack(name);
      assert ("\"" + name + "\"")[1..|name| + 1] == name;
    case _ =>
      var id := DerivedId(c);
      DerivedIdsDiffer(c);
      assert ("\"" + id + "\"")[1..|id| + 1] == id;
  }

  /** Names that are lost: one changes case, one becomes a derived component, one is refused. */
  lemma NamesNotKept()
    ensures FromQuotedId(QuotedId(Header("Date"))) == Ok(Header("date"))
    ensures FromQuotedId(QuotedId(Header("@method"))) == Ok(Method)
    ensures FromQuotedId(QuotedId(Header("@date"))) == Err(UnsupportedComponent("@date"))
  {
    NotReq("Date");
    NotReq("@method");
    NotReq("@date");
    hide FromQuotedId, QuotedId, ComponentNamed;
    DateIsNoId();
  }

  lemma DateIsNoId()
    ensures ComponentNamed("Date") == Ok(Header("date"))
    ensures ComponentNamed("@method") == Ok(Method)
    ensures ComponentNamed("@date") == Err(UnsupportedComponent("@date"))
  {
    assert "Date"[0] == 'D' && "@date"[1] == 'd';
    assert Lower("Date") == "date";
  }

  lemma NotReq(name: string)
    ensures FromQuotedId(QuotedId(Header(name))) == ComponentNamed(name)
  {
    QuotedIdEnds(Header(name));
    assert ("\"" + name + "\"")[1..|name| + 1] == name;
  }

  lemma DerivedIdIsLower(c: Component)
    requires !c.Req? && !c.Header?
    ensures Lower(DerivedId(c)) == DerivedId(c)
  {
    LowerFixed(DerivedId(c));
  }

  lemma NamedIdIsLower(inner: string)
    requires ComponentNamed(inner).Ok?
    ensures QuotedId(ComponentNamed(inner).value) == "\"" + Lower(inner) + "\""
  {
    var c := ComponentNamed(inner).value;
    if !c.Header? {
      assert !c.Req? && inner == DerivedId(c);
      DerivedIdIsLower(c);
    }
  }

  lemma LowerReq(base: string)
    ensures Lower(base + ";req") == Lower(base) + ";req"
  {
  }

  lemma LowerQuoted(inner: string)
    ensures Lower("\"" + inner + "\"") == "\"" + Lower(inner) + "\""
  {
  }

  /** The two shapes of an accepted identifier. */
  lemma IdShapes(token: string)
    ensures EndsInReq(token) ==> token == token[..|token| - 4] + ";req"
    ensures |token| >= 2 && token[0] == '"' && token[|token| - 1] == '"' ==>
              token == "\"" + token[1..|token| - 1] + "\""
  {
  }

  /** An accepted identifier prints back as itself with its header name in lowercase. */
  lemma {:induction false} AcceptedIdPrintsBack(token: string)
    requires FromQuotedId(token).Ok?
    ensures QuotedId(FromQuotedId(token).value) == Lower(token)
    decreases |token|
  {
    IdShapes(token);
    if EndsInReq(token) {
      var base := token[..|token| - 4];
      AcceptedIdPrintsBack(base);
      LowerReq(base);
    } else {
      var inner := token[1..|token| - 1];
      assert FromQuotedId(token) == ComponentNamed(inner);
      NamedIdIsLower(inner);
      LowerQuoted(inner);
    }
  }

  // ---------- Well-formed components ----------

  /** The characters of an HTTP field name (`tchar` of RFC 9110 section 5.6.2). */
  predicate IsTchar(c: char) {
    IsUpper(c) || IsLower(c) || IsDigit(c) || c in "!#$%&'*+-.^_`|~"
  }

  /** A non-empty lowercase field name. */
  predicate IsFieldName(name: string) {
    name != "" && forall i :: 0 <= i < |name| ==> IsTchar(name[i]) && !IsUpper(name[i])
  }

  predicate WellFormed(c: Component) {
    Base(c).Header? ==> IsFieldName(Base(c).name)
  }

  ghost predicate AllWellFormed(components: seq<Component>) {
    forall i :: 0 <= i < |components| ==> WellFormed(components[i])
  }

  /** A character no scanner, line splitter or word splitter reacts to. */
  predicate IsInert(c: char) {
    && c != '"' && c != '\\' && c != '(' && c != ')' && c != ',' && c != ':' && c != '\r' && c != '\n'
    && !IsSpace(c)
  }

  ghost predicate Inert(s: string) {
    forall i :: 0 <= i < |s| ==> IsInert(s[i])
  }

  lemma TcharIsInert(c: char)
    requires IsTchar(c)
    ensures IsInert(c)
  {
  }

  lemma DerivedIdIsInert(c: Component)
    requires !c.Req? && !c.Header?
    ensures Inert(DerivedId(c))
  {
    var id := DerivedId(c);
    assert forall i :: 0 <= i < |id| ==> IsLower(id[i]) || id[i] == '@' || id[i] == '-';
    forall i | 0 <= i < |id| ensures IsInert(id[i]) {
      LetterIsInert(id[i]);
    }
  }

  lemma LetterIsInert(c: char)
    requires IsLower(c) || c == '@' || c == '-'
    ensures IsInert(c)
  {
  }

  /** A well-formed identifier without parameters is inert text between quotes. */
  lemma BaseIdIsInert(c: Component) returns (inner: string)
    requires WellFormed(c) && !c.Req?
    ensures QuotedId(c) == "\"" + inner + "\"" && Inert(inner)
  {
    if c.Header? {
      inner := c.name;
      forall i | 0 <= i < |inner| ensures IsInert(inner[i]) {
        TcharIsInert(inner[i]);
      }
    } else {
      inner := DerivedId(c);
      DerivedIdIsInert(c);
    }
  }

  /** What the parsers rely on in a printed identifier. */
  ghost predicate Solid(id: string) {
    && Quiet(id, {'(', ')', ','})
    && NoSpace(id) && OneLine(id) && ':' !in id
  }

  lemma SolidConcat(a: string, b: string)
    requires Solid(a) && Solid(b)
    ensures Solid(a + b)
  {
    QuietConcat(a, b, {'(', ')', ','});
    hide Quiet, IsSpace;
  }

  lemma QuotedIsSolid(inner: string)
    requires Inert(inner)
    ensures Solid("\"" + inner + "\"")
  {
    var stops := {'(', ')', ','};
    InsideString(inner, stops);
    QuotedIsQuiet(inner, stops);
    hide Quiet;
  }

  lemma {:induction false} QuotedIdIsSolid(c: Component)
    requires WellFormed(c)
    ensures Solid(QuotedId(c)) && FromQuotedId(QuotedId(c)) == Ok(c)
  {
    QuotedIdRoundTrip(c);
    WellFormedNameReads(c);
    hide Solid, IsFieldName;
    match c
    case Req(inner) =>
      QuotedIdIsSolid(inner);
      ReqIsSolid();
      SolidConcat(QuotedId(inner), ";req");
    case _ =>
      var inner := BaseIdIsInert(c);
      QuotedIsSolid(inner);
  }

  lemma WellFormedNameReads(c: Component)
    requires WellFormed(c)
    ensures Base(c).Header? ==> ReadableName(Base(c).name)
  {
  }

  lemma ReqIsSolid()
    ensures Solid(";req")
  {
    PlainIsQuiet(";req", {'(', ')', ','});
  }

  // ---------- Messages ----------

  datatype Field = Field(name: string, value: string)

  datatype HttpRequest = HttpRequest(
    verb: string,
    authority: string,
    path: string,
    query: Option<string>,
    headers: seq<Field>)

  datatype HttpResponse = HttpResponse(status: nat, headers: seq<Field>)

  /** What a signature covers: a request, or a response together with the request it answers. */
  datatype Message =
    | Request(request: HttpRequest)
    | Exchange(response: HttpResponse, answered: HttpRequest)

  /** The trimmed values of the fields named `name`, in order. */
  function FieldValues(headers: seq<Field>, name: string): seq<string> {
    if headers == [] then []
    else if SameIgnoringCase(headers[0].name, name)
    then [Trim(headers[0].value)] + FieldValues(headers[1..], name)
    else FieldValues(headers[1..], name)
  }

  function HeaderValue(headers: seq<Field>, name: string): Outcome<string> {
    var values := FieldValues(headers, name);
    if values == [] then Err(MissingComponent(name)) else Ok(Join(values, ", "))
  }

  function PathOf(r: HttpRequest): string {
    if r.path == "" then "/" else r.path
  }

  function RequestTargetOf(r: HttpRequest): string {
    if r.query.Some? then PathOf(r) + "?" + r.query.value else PathOf(r)
  }

  predicate SamePathAndQuery(a: HttpRequest, b: HttpRequest) {
    PathOf(a) == PathOf(b) && a.query == b.query
  }

  /**
   Between requests whose paths hold no `?`, `@request-target` tells an absent
   query from an empty one, and so fixes path and query alike; `@query` does not
   tell the two apart.
   */
  lemma RequestTargetIsExact(a: HttpRequest, b: HttpRequest)
    ensures SamePathAndQuery(a, b) ==> RequestTargetOf(a) == RequestTargetOf(b)
    ensures RequestTargetOf(a) == RequestTargetOf(b) ==> SamePathAndQuery(a, b) || '?' in a.path || '?' in b.path
  {
    if '?' !in a.path && '?' !in b.path {
      TargetSplits(a);
      TargetSplits(b);
    }
  }

  /**
   Among all requests, a target fixes path and query exactly when there is no
   query and no `?` behind the first character of the path: `/a?b` is a path of
   its own, and `/a` with the query `b`.
   */
  lemma TargetFixesRequest(a: HttpRequest)
    ensures (forall b: HttpRequest :: RequestTargetOf(b) == RequestTargetOf(a) ==> SamePathAndQuery(a, b)) <==>
            a.query.None? && '?' !in PathOf(a)[1..]
  {
    QueryFollows(a);
    var target := RequestTargetOf(a);
    if '?' in target[1..] {
      var i :| 1 <= i < |target| && target[i] == '?';
      var whole := a.(path := target, query := None);
      var parted := a.(path := target[..i], query := Some(target[i + 1..]));
      assert RequestTargetOf(whole) == target;
      assert RequestTargetOf(parted) == target;
      assert !SamePathAndQuery(a, whole) || !SamePathAndQuery(a, parted);
    } else {
      forall b: HttpRequest | RequestTargetOf(b) == target ensures SamePathAndQuery(a, b) {
        QueryFollows(b);
      }
    }
  }

  lemma QueryFollows(r: HttpRequest)
    ensures r.query.Some? ==> '?' in RequestTargetOf(r)[1..]
  {
    if r.query.Some? {
      assert RequestTargetOf(r)[1..][|PathOf(r)| - 1] == '?';
    }
  }

  lemma TargetSplits(r: HttpRequest)
    requires '?' !in r.path
    ensures SplitOnce(RequestTargetOf(r), '?') == if r.query.Some? then Some((PathOf(r), r.query.value)) else None
    ensures r.query.None? ==> RequestTargetOf(r) == PathOf(r)
  {
    if r.query.Some? {
      SplitOnceFirst(PathOf(r), '?', r.query.value);
    } else {
      IndexOfIsFirst(PathOf(r), '?');
    }
  }

  function RequestValue(r: HttpRequest, c: Component): Outcome<string> {
    match c
    case Method => Ok(r.verb)
    case Authority => Ok(Lower(r.authority))
    case Path => Ok(PathOf(r))
    case Query => Ok("?" + if r.query.Some? then r.query.value else "")
    case RequestTarget => Ok(RequestTargetOf(r))
    case Header(name) => HeaderValue(r.headers, name)
    case Status => Err(UnsupportedComponent(QuotedId(c)))
    case Req(_) => Err(UnsupportedComponent(QuotedId(c)))
  }

  /** The derived value of a component. */
  function ComponentValue(m: Message, c: Component): Outcome<string> {
    match m
    case Request(r) => RequestValue(r, c)
    case Exchange(response, answered) =>
      match c
      case Status => Ok(Decimal(response.status))
      case Req(inner) => RequestValue(answered, inner)
      case Header(name) => HeaderValue(response.headers, name)
      case _ => Err(UnsupportedComponent(QuotedId(c)))
  }

  // ---------- The program's equality of components ----------

  /** On well-formed components the program's equality is identity. */
  lemma {:induction false} SameIsIdentity(a: Component, b: Component)
    requires WellFormed(a) && WellFormed(b) && Same(a, b)
    ensures a == b
  {
    match (a, b)
    case (Req(x), Req(y)) => SameIsIdentity(x, y);
    case (Header(m), Header(n)) =>
      LowerFixed(m);
      LowerFixed(n);
    case _ =>
  }

  lemma {:induction false} SameFields(headers: seq<Field>, m: string, n: string)
    requires SameIgnoringCase(m, n)
    ensures FieldValues(headers, m) == FieldValues(headers, n)
  {
    hide Lower, Trim;
    if headers == [] {
    } else {
      SameFields(headers[1..], m, n);
    }
  }

  /** Components the program calls equal have the same value in every message that has one. */
  lemma SameHasSameValue(m: Message, a: Component, b: Component)
    requires Same(a, b)
    ensures ComponentValue(m, a).Ok? <==> ComponentValue(m, b).Ok?
    ensures ComponentValue(m, a).Ok? ==> ComponentValue(m, a) == ComponentValue(m, b)
  {
    hide FieldValues, Join, Decimal, RequestTargetOf, PathOf, Lower, SameIgnoringCase;
    var x, y := if a.Req? then a.base else a, if b.Req? then b.base else b;
    if x.Header? && y.Header? {
      forall headers: seq<Field> ensures FieldValues(headers, x.name) == FieldValues(headers, y.name) {
        SameFields(headers, x.name, y.name);
      }
    }
  }
}
