/** The value and the identifier of every component, written out. */
module ComponentValues {
  import opened Wrappers
  import opened Text
  import opened Errors
  import opened Components

  // ---------- Header fields ----------

  lemma {:induction false} FieldsConcat(a: seq<Field>, b: seq<Field>, name: string)
    ensures FieldValues(a + b, name) == FieldValues(a, name) + FieldValues(b, name)
  {
    hide SameIgnoringCase, Trim;
    if a == [] {
      assert a + b == b;
    } else {
      assert (a + b)[1..] == a[1..] + b;
      FieldsConcat(a[1..], b, name);
    }
  }

  lemma {:induction false} JoinConcat(a: seq<string>, b: seq<string>, sep: string)
    requires a != [] && b != []
    ensures Join(a + b, sep) == Join(a, sep) + sep + Join(b, sep)
  {
    if |a| == 1 {
      assert (a + b)[1..] == b;
    } else {
      assert (a + b)[1..] == a[1..] + b;
      JoinConcat(a[1..], b, sep);
      Regrouped(a[0] + sep, Join(a[1..], sep) + sep, Join(b, sep));
    }
  }

  /** A single field gives its trimmed value under its own name in any case, and nothing under another. */
  lemma OneField(f: Field, name: string)
    ensures SameIgnoringCase(f.name, name) ==> HeaderValue([f], name) == Ok(Trim(f.value))
    ensures !SameIgnoringCase(f.name, name) ==> HeaderValue([f], name) == Err(MissingComponent(name))
  {
    hide SameIgnoringCase, Trim;
    assert [f][1..] == [];
    assert FieldValues([], name) == [];
    assert FieldValues([f], name) == if SameIgnoringCase(f.name, name) then [Trim(f.value)] + [] else [];
  }

  /** No field has no value; the values of two lists of fields follow each other behind a comma and a space. */
  lemma FieldsCombine(a: seq<Field>, b: seq<Field>, name: string)
    ensures HeaderValue([], name) == Err(MissingComponent(name))
    ensures HeaderValue(a + b, name) ==
            if HeaderValue(a, name).Err? then HeaderValue(b, name)
            else if HeaderValue(b, name).Err? then HeaderValue(a, name)
            else Ok(HeaderValue(a, name).value + ", " + HeaderValue(b, name).value)
  {
    FieldsConcat(a, b, name);
    var x, y := FieldValues(a, name), FieldValues(b, name);
    assert x == [] ==> x + y == y;
    assert y == [] ==> x + y == x;
    if x != [] && y != [] {
      JoinConcat(x, y, ", ");
    }
  }

  /** The identifiers, as they stand in the inner list and in front of a line. */
  lemma IdentifiersWrittenOut(name: string, c: Component)
    ensures QuotedId(Method) == "\"@method\"" && QuotedId(Authority) == "\"@authority\""
    ensures QuotedId(Path) == "\"@path\"" && QuotedId(Query) == "\"@query\""
    ensures QuotedId(RequestTarget) == "\"@request-target\"" && QuotedId(Status) == "\"@status\""
    ensures QuotedId(Header(name)) == "\"" + name + "\""
    ensures QuotedId(Req(c)) == QuotedId(c) + ";req"
  {
    assert "\"" + "@method" + "\"" == "\"@method\"" && "\"" + "@authority" + "\"" == "\"@authority\"";
    assert "\"" + "@path" + "\"" == "\"@path\"" && "\"" + "@query" + "\"" == "\"@query\"";
    assert "\"" + "@request-target" + "\"" == "\"@request-target\"" && "\"" + "@status" + "\"" == "\"@status\"";
  }

  // ---------- Derived components ----------

  /** The values of a request's components. */
  lemma RequestValues(r: HttpRequest)
    ensures var m := Request(r);
            && ComponentValue(m, Method) == Ok(r.verb)
            && ComponentValue(m, Authority) == Ok(Lower(r.authority))
            && ComponentValue(m, Path) == Ok(if r.path == "" then "/" else r.path)
            && (r.query.None? ==> ComponentValue(m, Query) == Ok("?"))
            && (r.query.Some? ==> ComponentValue(m, Query) == Ok("?" + r.query.value))
            && (r.query.None? ==> ComponentValue(m, RequestTarget) == ComponentValue(m, Path))
            && (r.query.Some? ==> ComponentValue(m, RequestTarget)
                                  == Ok(ComponentValue(m, Path).value + ComponentValue(m, Query).value))
    ensures ComponentValue(Request(r), Status) == Err(UnsupportedComponent("\"@status\""))
    ensures forall c: Component :: ComponentValue(Request(r), Req(c)).Err?
    ensures forall name :: ComponentValue(Request(r), Header(name)) == HeaderValue(r.headers, name)
  {
    IdentifiersWrittenOut("", Method);
    hide HeaderValue, QuotedId, Lower;
    assert "?" + "" == "?";
    if r.query.Some? {
      Regrouped(PathOf(r), "?", r.query.value);
    }
  }

  /** On a response, `;req` reads the request it answers, one level deep, and everything else the response itself. */
  lemma ResponseValues(response: HttpResponse, answered: HttpRequest)
    ensures var m := Exchange(response, answered);
            && ComponentValue(m, Status) == Ok(Decimal(response.status))
            && (forall c: Component :: ComponentValue(m, Req(c)) == ComponentValue(Request(answered), c))
            && (forall name :: ComponentValue(m, Header(name)) == HeaderValue(response.headers, name))
            && (forall name :: ComponentValue(m, Req(Header(name))) == HeaderValue(answered.headers, name))
            && ComponentValue(m, Method) == Err(UnsupportedComponent("\"@method\""))
            && ComponentValue(m, Authority) == Err(UnsupportedComponent("\"@authority\""))
            && ComponentValue(m, Path) == Err(UnsupportedComponent("\"@path\""))
            && ComponentValue(m, Query) == Err(UnsupportedComponent("\"@query\""))
            && ComponentValue(m, RequestTarget) == Err(UnsupportedComponent("\"@request-target\""))
  {
    IdentifiersWrittenOut("", Method);
    hide HeaderValue, Decimal, PathOf, RequestTargetOf, Lower, QuotedId;
  }

  /** A token that is not in quotes and does not end in `;req` names nothing. */
  lemma UnquotedIsRefused(token: string)
    requires token == "" || token == "\"" || token[0] != '"' || token[|token| - 1] != '"'
    ensures !EndsInReq(token) ==> FromQuotedId(token) == Err(Parse(NotAQuotedIdentifier(token)))
  {
  }

  // ---------- Equality ----------

  /** The component with its header name in lowercase. */
  function Folded(c: Component): Component {
    match c
    case Req(inner) => Req(Folded(inner))
    case Header(name) => Header(Lower(name))
    case _ => c
  }

  /** The program's equality ignores the case of header names, at any `;req` depth, and nothing else. */
  lemma {:induction false} SameIsFolded(a: Component, b: Component)
    ensures Same(a, b) <==> Folded(a) == Folded(b)
  {
    hide Lower;
    match (a, b)
    case (Req(x), Req(y)) => SameIsFolded(x, y);
    case _ =>
  }
}
