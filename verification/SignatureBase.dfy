/** The signature base (RFC 9421 section 2.5): the text that is signed. */
module SignatureBase {
  import opened Wrappers
  import opened Text
  import opened Errors
  import opened SfStrings
  import opened Components

  /** The line of one component. */
  function Line(c: Component, value: string): string {
    QuotedId(c) + ": " + value + "\n"
  }

  /** The lines of the covered components, in order. */
  function Lines(m: Message, components: seq<Component>): Outcome<string> {
    if components == [] then Ok("") else
    var value :- ComponentValue(m, components[0]);
    if !OneLine(value) then Err(InvalidComponentValue(QuotedId(components[0]))) else
    var rest :- Lines(m, components[1..]);
    Ok(Line(components[0], value) + rest)
  }

  const LAST_LINE := "\"@signature-params\": "

  /** The base over `components` whose last line is the parameter string `text`. */
  function BaseText(m: Message, components: seq<Component>, text: string): Outcome<string> {
    if !OneLine(text) then Err(Parse(ParametersNotOneLine)) else
    var lines :- Lines(m, components);
    Ok(lines + LAST_LINE + text)
  }

  function Above(before: string, after: Outcome<string>): Outcome<string> {
    if after.Ok? then Ok(before + after.value) else after
  }

  lemma AboveTwice(a: string, b: string, after: Outcome<string>)
    ensures Above(a, Above(b, after)) == Above(a + b, after)
    ensures Above("", after) == after
  {
    if after.Ok? {
      Regrouped(a, b, after.value);
      EmptyFirst(after.value);
    }
  }

  method SignatureBaseFromParamsStr(m: Message, components: seq<Component>, text: string) returns (r: Outcome<string>)
    ensures r == BaseText(m, components, text)
  {
    if !OneLine(text) {
      return Err(Parse(ParametersNotOneLine));
    }
    var base := "";
    assert components[0..] == components;
    AboveTwice("", "", Lines(m, components));
    hide ComponentValue, OneLine, Line;
    for i := 0 to |components|
      invariant Lines(m, components) == Above(base, Lines(m, components[i..]))
    {
      var component := components[i];
      assert components[i..][1..] == components[i + 1..];
      var value :- ComponentValue(m, component);
      if !OneLine(value) {
        return Err(InvalidComponentValue(QuotedId(component)));
      }
      AboveTwice(base, Line(component, value), Lines(m, components[i + 1..]));
      base := base + Line(component, value);
    }
    assert components[|components|..] == [] && base + "" == base;
    base := base + LAST_LINE;
    base := base + text;
    return Ok(base);
  }

  // ---------- When the base exists ----------

  /** Every covered component has a value, and no value holds a CR or LF. */
  ghost predicate AllDerivable(m: Message, components: seq<Component>) {
    forall i :: 0 <= i < |components| ==>
      ComponentValue(m, components[i]).Ok? && OneLine(ComponentValue(m, components[i]).value)
  }

  lemma {:induction false} LinesExist(m: Message, components: seq<Component>)
    ensures Lines(m, components).Ok? <==> AllDerivable(m, components)
  {
    hide ComponentValue, OneLine, Line;
    if components == [] {
    } else {
      LinesExist(m, components[1..]);
      assert forall i :: 1 <= i < |components| ==> components[i] == components[1..][i - 1];
    }
  }

  // ---------- Injectivity ----------

  /** Two texts cut at the same delimiter agree on both sides of it. */
  lemma CutEqual(a1: string, a2: string, c: char, b1: string, b2: string)
    requires c !in a1 && c !in a2 && a1 + [c] + b1 == a2 + [c] + b2
    ensures a1 == a2 && b1 == b2
  {
    IndexOfFirst(a1, c, b1);
    IndexOfFirst(a2, c, b2);
    var s := a1 + [c] + b1;
    assert s[..|a1|] == a1 && s[..|a2|] == a2;
    assert s[|a1| + 1..] == b1 && s[|a2| + 1..] == b2;
  }

  ghost predicate EndsInBreak(s: string) {
    s == "" || s[|s| - 1] == '\n'
  }

  /** The last line of a text, and what is above it, are determined by the text. */
  lemma LastLineFixed(l1: string, t1: string, l2: string, t2: string)
    requires EndsInBreak(l1) && EndsInBreak(l2) && OneLine(t1) && OneLine(t2)
    requires l1 + t1 == l2 + t2
    ensures l1 == l2 && t1 == t2
  {
    NotLonger(l1, t1, l2, t2);
    NotLonger(l2, t2, l1, t1);
    var s := l1 + t1;
    assert s[..|l1|] == l1 && s[..|l2|] == l2;
    assert s[|l1|..] == t1 && s[|l2|..] == t2;
  }

  /** A break cannot lie behind the last one. */
  lemma NotLonger(l1: string, t1: string, l2: string, t2: string)
    requires EndsInBreak(l2) && OneLine(t1) && l1 + t1 == l2 + t2
    ensures |l2| <= |l1|
  {
    var s := l1 + t1;
    assert l2 != "" ==> s[|l2| - 1] == '\n';
    assert forall i :: |l1| <= i < |s| ==> s[i] == t1[i - |l1|];
  }

  lemma {:induction false} LinesEndInBreak(m: Message, components: seq<Component>)
    requires Lines(m, components).Ok?
    ensures EndsInBreak(Lines(m, components).value)
  {
    hide ComponentValue;
    if components == [] {
    } else {
      LinesEndInBreak(m, components[1..]);
    }
  }

  /** Equal bases have equal parameter strings, and equal lines above them. */
  lemma BaseFixesText(m1: Message, c1: seq<Component>, t1: string, m2: Message, c2: seq<Component>, t2: string)
    requires BaseText(m1, c1, t1).Ok? && BaseText(m1, c1, t1) == BaseText(m2, c2, t2)
    ensures t1 == t2 && Lines(m1, c1).Ok? && Lines(m1, c1) == Lines(m2, c2)
  {
    LinesEndInBreak(m1, c1);
    LinesEndInBreak(m2, c2);
    OneLineConcat(LAST_LINE, t1);
    OneLineConcat(LAST_LINE, t2);
    assert OneLine(LAST_LINE) by { LastLineIsOneLine(); }
    var l1, l2 := Lines(m1, c1).value, Lines(m2, c2).value;
    hide Lines, OneLine;
    Regrouped(l1, LAST_LINE, t1);
    Regrouped(l2, LAST_LINE, t2);
    LastLineFixed(l1, LAST_LINE + t1, l2, LAST_LINE + t2);
    assert (LAST_LINE + t1)[|LAST_LINE|..] == t1 && (LAST_LINE + t2)[|LAST_LINE|..] == t2;
  }

  lemma LastLineIsOneLine()
    ensures OneLine(LAST_LINE)
  {
  }

  /** Every covered component is derived from both messages, with the same value. */
  ghost predicate SameValues(m1: Message, m2: Message, components: seq<Component>) {
    forall i :: 0 <= i < |components| ==>
      ComponentValue(m1, components[i]).Ok? && ComponentValue(m1, components[i]) == ComponentValue(m2, components[i])
  }

  lemma SameLine(c1: Component, c2: Component, v1: string, v2: string, r1: string, r2: string)
    requires ':' !in QuotedId(c1) && ':' !in QuotedId(c2) && OneLine(v1) && OneLine(v2)
    requires Line(c1, v1) + r1 == Line(c2, v2) + r2
    ensures QuotedId(c1) == QuotedId(c2) && v1 == v2 && r1 == r2
  {
    var id1, id2 := QuotedId(c1), QuotedId(c2);
    hide QuotedId;
    assert id1 + [':'] + (" " + v1 + "\n" + r1) == Line(c1, v1) + r1;
    assert id2 + [':'] + (" " + v2 + "\n" + r2) == Line(c2, v2) + r2;
    CutEqual(id1, id2, ':', " " + v1 + "\n" + r1, " " + v2 + "\n" + r2);
    assert (" " + v1) + ['\n'] + r1 == (" " + v2) + ['\n'] + r2;
    CutEqual(" " + v1, " " + v2, '\n', r1, r2);
    assert (" " + v1)[1..] == v1 && (" " + v2)[1..] == v2;
  }

  lemma SameLineOfOne(c: Component, v1: string, v2: string, r1: string, r2: string)
    requires OneLine(v1) && OneLine(v2) && Line(c, v1) + r1 == Line(c, v2) + r2
    ensures v1 == v2 && r1 == r2
  {
    var id := QuotedId(c);
    hide QuotedId;
    var x1, x2 := v1 + ['\n'] + r1, v2 + ['\n'] + r2;
    assert (id + ": ") + x1 == Line(c, v1) + r1 && (id + ": ") + x2 == Line(c, v2) + r2;
    assert ((id + ": ") + x1)[|id| + 2..] == x1 && ((id + ": ") + x2)[|id| + 2..] == x2;
    CutEqual(v1, v2, '\n', r1, r2);
  }

  /** Equal lines over the same components have equal values, whatever the identifiers. */
  lemma {:induction false} LinesFixValues(m1: Message, m2: Message, components: seq<Component>)
    requires Lines(m1, components).Ok? && Lines(m1, components) == Lines(m2, components)
    ensures SameValues(m1, m2, components)
  {
    hide ComponentValue, Line, OneLine;
    if components == [] {
    } else {
      var c, rest := components[0], components[1..];
      SameLineOfOne(c, ComponentValue(m1, c).value, ComponentValue(m2, c).value,
                    Lines(m1, rest).value, Lines(m2, rest).value);
      LinesFixValues(m1, m2, rest);
      assert forall i :: 1 <= i < |components| ==> components[i] == rest[i - 1];
    }
  }

  /** Equal lines over well-formed components cover the same components with the same values. */
  lemma {:induction false} LinesInjective(m1: Message, c1: seq<Component>, m2: Message, c2: seq<Component>)
    requires AllWellFormed(c1) && AllWellFormed(c2)
    requires Lines(m1, c1).Ok? && Lines(m1, c1) == Lines(m2, c2)
    ensures c1 == c2
    decreases |c1|
  {
    hide ComponentValue, OneLine;
    if c1 == [] || c2 == [] {
      assert Lines(m1, c1).value != "" <==> c1 != [];
      assert Lines(m2, c2).value != "" <==> c2 != [];
    } else {
      var x1, x2, r1, r2 := c1[0], c2[0], c1[1..], c2[1..];
      assert WellFormed(x1) && WellFormed(x2);
      QuotedIdIsSolid(x1);
      QuotedIdIsSolid(x2);
      hide Line, FromQuotedId, WellFormed;
      SameLine(x1, x2, ComponentValue(m1, x1).value, ComponentValue(m2, x2).value,
               Lines(m1, r1).value, Lines(m2, r2).value);
      LinesInjective(m1, r1, m2, r2);
      HeadTail(c1);
      HeadTail(c2);
    }
  }

  /**
   The signature base is injective: over well-formed components, one base fixes
   the parameter string, the covered components in order, and all their values.
   */
  lemma BaseInjective(m1: Message, c1: seq<Component>, t1: string, m2: Message, c2: seq<Component>, t2: string)
    requires AllWellFormed(c1) && AllWellFormed(c2)
    requires BaseText(m1, c1, t1).Ok? && BaseText(m1, c1, t1) == BaseText(m2, c2, t2)
    ensures t1 == t2 && c1 == c2 && SameValues(m1, m2, c1)
  {
    BaseFixesText(m1, c1, t1, m2, c2, t2);
    LinesInjective(m1, c1, m2, c2);
    LinesFixValues(m1, m2, c1);
  }
}
