/** The signature fields and the signed text written out, and what is read from other spellings of them. */
module WireFormat {
  import opened Wrappers
  import opened Text
  import opened Errors
  import opened SfStrings
  import opened Dictionary
  import opened Components
  import opened ComponentValues
  import opened Params
  import opened ParameterText
  import opened Selection
  import opened SelectionRules
  import opened SignatureBase
  import opened Verification
  import opened RequiredComponents

  // ---------- Dictionary members ----------

  /**
   A member is cut at its first `=`: white space around its label and behind its
   value is dropped, white space in front of the value is left to the value.
   */
  lemma MemberIsTrimmed(a: string, name: string, b: string, rest: string, c: string)
    requires AllSpace(a) && AllSpace(b) && AllSpace(c)
    requires name != "" && Trimmed(name) && '=' !in name
    requires rest == "" || !IsSpace(rest[|rest| - 1])
    ensures SplitMember(a + name + b + "=" + rest + c) == Ok(Member(name, rest))
  {
    var core := name + b + "=" + rest;
    assert Trimmed(core) by {
      EqualsIsSolid();
      hide IsSpace;
      assert core[0] == name[0];
      assert core[|core| - 1] == if rest == "" then '=' else rest[|rest| - 1];
    }
    EqualsIsNoSpace(b);
    NameAndPad(name, b);
    hide IsSpace, Trim;
    assert a + name + b + "=" + rest + c == a + core + c;
    TrimCuts(a, core, c);
    var before := name + b;
    assert core == before + ['='] + rest;
    IndexOfFirst(before, '=', rest);
    assert core[..|before|] == before && core[|before| + 1..] == rest;
  }

  lemma EqualsIsSolid()
    ensures !IsSpace('=')
  {
  }

  lemma NameAndPad(name: string, pad: string)
    requires Trimmed(name) && AllSpace(pad)
    ensures Trim(name + pad) == name
  {
    hide IsSpace, Trim;
    TrimCuts("", name, pad);
    assert "" + name + pad == name + pad;
  }

  /** Without `=`, and without a label in front of it, there is no member. */
  lemma NoMember(value: string, pad: string)
    requires AllSpace(pad)
    ensures '=' !in value ==> SplitMember(value) == Err(Parse(MissingEquals))
    ensures value != "" && !IsSpace(value[|value| - 1]) ==>
              SplitMember(pad + "=" + value) == Err(Parse(EmptyLabel))
  {
    NoEqualsLeft(value);
    if value != "" && !IsSpace(value[|value| - 1]) {
      EqualsIsSolid();
      var core := "=" + value;
      assert Trimmed(core) by {
        hide IsSpace;
        assert core[0] == '=' && core[|core| - 1] == value[|value| - 1];
      }
      hide IsSpace, Trim, IndexOf;
      assert pad + "=" + value == pad + core + "";
      TrimCuts(pad, core, "");
      assert core == "" + ['='] + value;
      IndexOfFirst("", '=', value);
      assert core[..0] == "";
      NameAndPad("", "");
      assert "" + "" == "";
    }
  }

  lemma NoEqualsLeft(value: string)
    ensures '=' !in value ==> IndexOf(Trim(value), '=') == None
  {
    var b, a := TrimSplits(value);
    IndexOfIsFirst(Trim(value), '=');
  }

  // ---------- Signature members ----------

  /** A labeled byte sequence of 64 octets, in any spacing, is the signature; anything else fails as such. */
  lemma SignatureWrittenOut(value: string, members: seq<Member>, name: string, base64: Base64)
    requires DictionaryMembers(value) == Ok(members)
    ensures NoneIsNamed(members, name) ==> ParseSignature(value, name, base64) == Err(LabelMismatch)
    ensures forall k :: 0 <= k < |members| && members[k].name == name ==>
              ParseSignature(value, name, base64) == SignatureBytes(members[k].rest, base64)
  {
    AcceptedDictionary(value);
    hide DictionaryMembers, SignatureBytes, CutAtCommas, SplitMembers, FirstComma, Join;
    if NoneIsNamed(members, name) {
      NotNamed(members, name);
    }
    forall k | 0 <= k < |members| && members[k].name == name
      ensures ParseSignature(value, name, base64) == SignatureBytes(members[k].rest, base64)
    {
      FindNamedAt(members, k);
    }
  }

  lemma BytesWrittenOut(a: string, encoded: string, b: string, base64: Base64)
    requires AllSpace(a) && AllSpace(b)
    ensures var r := SignatureBytes(a + (":" + encoded + ":") + b, base64);
            match base64.decode(encoded)
            case None => r == Err(MalformedSignature)
            case Some(bytes) => if |bytes| == 64 then r == Ok(bytes) else r == Err(MalformedSignature)
  {
    var core := ":" + encoded + ":";
    ColonIsSolid();
    hide IsSpace, Trim;
    assert core[0] == ':' && core[|core| - 1] == ':';
    TrimCuts(a, core, b);
    assert core[1..|core| - 1] == encoded;
  }

  lemma ColonIsSolid()
    ensures !IsSpace(':')
  {
  }

  lemma NoByteSequence(rest: string, base64: Base64)
    requires var text := Trim(rest); |text| < 2 || text[0] != ':' || text[|text| - 1] != ':'
    ensures SignatureBytes(rest, base64) == Err(Parse(NotAByteSequence))
  {
    hide Trim;
  }

  /** What signing prints. */
  lemma FieldsWrittenOut(m: Message, components: seq<Component>, p: SignatureParams, name: string,
                         signer: SigningKey, base64: Base64)
    requires Sign(m, components, p, name, signer, base64).Ok?
    ensures var text := "(" + Join(Ids(components), " ") + ")" + WrittenOut(p);
            var base := BaseText(m, components, text);
            && base.Ok?
            && Sign(m, components, p, name, signer, base64).value
               == SignedSignature(name + "=" + text, name + "=:" + base64.encode(signer.sign(base.value)) + ":")
  {
    ParamsWrittenOut(components, p);
    hide BaseText, ParamsText, WrittenOut, Ids, Join;
    var encoded := base64.encode(signer.sign(BaseText(m, components, ParamsText(components, p)).value));
    assert name + "=" + (":" + encoded + ":") == name + "=:" + encoded + ":";
  }

  // ---------- The signature base ----------

  /** The base of no components is the line of the parameters; each component puts a line above. */
  lemma BaseLines(m: Message, first: Component, rest: seq<Component>, text: string)
    ensures OneLine(text) ==> BaseText(m, [], text) == Ok("\"@signature-params\": " + text)
    ensures !OneLine(text) ==> BaseText(m, rest, text) == Err(Parse(ParametersNotOneLine))
    ensures OneLine(text) ==>
              var value := ComponentValue(m, first);
              var below := BaseText(m, rest, text);
              var r := BaseText(m, [first] + rest, text);
              if value.Err? then r == Err(value.error)
              else if !OneLine(value.value) then r == Err(InvalidComponentValue(QuotedId(first)))
              else if below.Err? then r == below
              else r == Ok(QuotedId(first) + ": " + value.value + "\n" + below.value)
  {
    TailOfCons(first, rest);
    hide ComponentValue, OneLine, QuotedId;
    EmptyFirst("\"@signature-params\": ");
    var value, lines := ComponentValue(m, first), Lines(m, rest);
    if value.Ok? && lines.Ok? {
      var line := Line(first, value.value);
      Regrouped(line, lines.value, LAST_LINE);
      Regrouped(line, lines.value + LAST_LINE, text);
    }
  }

  /** The base of a request's method, path and query. */
  lemma RequestBaseWrittenOut(r: HttpRequest, text: string)
    requires OneLine(text) && OneLine(r.verb) && OneLine(r.path) && (r.query.Some? ==> OneLine(r.query.value))
    ensures BaseText(Request(r), [Method, Path, Query], text) ==
            Ok("\"@method\": " + r.verb + "\n"
               + ("\"@path\": " + (if r.path == "" then "/" else r.path) + "\n"
                  + ("\"@query\": " + ("?" + (if r.query.Some? then r.query.value else "")) + "\n"
                     + ("\"@signature-params\": " + text))))
  {
    var m := Request(r);
    RequestValues(r);
    IdentifiersWrittenOut("", Method);
    assert OneLine("/");
    var query := "?" + (if r.query.Some? then r.query.value else "");
    assert OneLine("?") && "?" + "" == "?";
    assert ComponentValue(m, Query) == Ok(query);
    OneLineConcat("?", if r.query.Some? then r.query.value else "");
    hide OneLine, ComponentValue, QuotedId, BaseText;
    BaseLines(m, Query, [], text);
    BaseLines(m, Path, [Query], text);
    BaseLines(m, Method, [Path, Query], text);
    assert [Query] + [] == [Query] && [Path] + [Query] == [Path, Query];
    assert [Method] + [Path, Query] == [Method, Path, Query];
    assert "\"@method\"" + ": " == "\"@method\": " && "\"@path\"" + ": " == "\"@path\": ";
    assert "\"@query\"" + ": " == "\"@query\": ";
  }

  // ---------- Required components ----------

  function IfPresent(headers: seq<Field>, name: string): seq<Component> {
    if HasField(headers, name) then [Header(name)] else []
  }

  lemma PresentWrittenOut(first: string, rest: seq<string>, headers: seq<Field>)
    requires IsPlainName(first)
    ensures Present([first] + rest, headers) == IfPresent(headers, first) + Present(rest, headers)
  {
    TailOfCons(first, rest);
    PlainNameIsFieldName(first);
    hide HasField, Lower;
    EmptyFirst(Present(rest, headers));
  }

  /** What a request signature has to cover. */
  lemma RequestListWrittenOut(r: HttpRequest)
    ensures RequiredOnRequest(r) ==
            (if r.verb == "CONNECT" then [Method, Authority] else [Method, Path, Query])
            + (IfPresent(r.headers, "content-type")
               + (IfPresent(r.headers, "content-digest")
                  + (IfPresent(r.headers, "authorization")
                     + (IfPresent(r.headers, "txn-token")
                        + IfPresent(r.headers, "workload-identity-token")))))
  {
    var n := REQUEST_FIELDS;
    FieldListsArePlain();
    assert n == ["content-type"] + (["content-digest"] + (["authorization"] + (["txn-token"]
                + (["workload-identity-token"] + []))));
    hide Present, HasField, IfPresent, IsPlainName;
    PresentTail(r.headers, n);
  }

  lemma PresentTail(headers: seq<Field>, n: seq<string>)
    requires n == ["content-type", "content-digest", "authorization", "txn-token", "workload-identity-token"]
    requires forall i :: 0 <= i < |n| ==> IsPlainName(n[i])
    ensures Present(n, headers) ==
            IfPresent(headers, n[0]) + (IfPresent(headers, n[1]) + (IfPresent(headers, n[2])
              + (IfPresent(headers, n[3]) + IfPresent(headers, n[4]))))
  {
    hide *;
    LastPresent(n[4], headers);
    PresentWrittenOut(n[3], [n[4]], headers);
    PresentWrittenOut(n[2], [n[3]] + [n[4]], headers);
    PresentWrittenOut(n[1], [n[2]] + ([n[3]] + [n[4]]), headers);
    PresentWrittenOut(n[0], [n[1]] + ([n[2]] + ([n[3]] + [n[4]])), headers);
    assert n == [n[0]] + ([n[1]] + ([n[2]] + ([n[3]] + [n[4]])));
  }

  lemma LastPresent(name: string, headers: seq<Field>)
    requires IsPlainName(name)
    ensures Present([name], headers) == IfPresent(headers, name)
  {
    PresentWrittenOut(name, [], headers);
    assert [name] + [] == [name] && Present([], headers) == [];
    hide *;
    assert IfPresent(headers, name) + [] == IfPresent(headers, name);
  }

  /** What a response signature has to cover. */
  lemma ResponseListWrittenOut(response: HttpResponse, answered: HttpRequest)
    ensures RequiredOnResponse(response, answered) ==
            (if answered.verb == "CONNECT" then [Status, Req(Method), Req(Authority)]
             else [Status, Req(Method), Req(Path), Req(Query)])
            + (IfPresent(response.headers, "content-type")
               + (IfPresent(response.headers, "content-digest")
                  + IfPresent(response.headers, "workload-identity-token")))
  {
    var n, headers := RESPONSE_FIELDS, response.headers;
    FieldListsArePlain();
    hide Present, HasField, IfPresent, IsPlainName;
    LastPresent(n[2], headers);
    PresentWrittenOut(n[1], [n[2]], headers);
    PresentWrittenOut(n[0], [n[1]] + [n[2]], headers);
    assert n == [n[0]] + ([n[1]] + [n[2]]);
  }
}
