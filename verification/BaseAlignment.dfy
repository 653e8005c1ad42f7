/**
 Reading a signature base back against the lists it was printed from, whatever
 text the signer's header names hold.
 */
module BaseAlignment {
  import opened Wrappers
  import opened Text
  import opened Scanner
  import opened SfStrings
  import opened Components
  import opened Params
  import opened ParamsRoundTrip
  import opened Members
  import opened SignatureBase

  // ---------- Lines ----------

  /** The same, or the longer of the two goes on with a `:`. */
  predicate Alike(a: string, b: string) {
    && (|a| < |b| ==> b[|a|] == ':')
    && (|b| < |a| ==> a[|b|] == ':')
    && (|a| == |b| ==> a == b)
  }

  lemma SameStart(a: string, v: string, b: string, w: string)
    requires a + ": " + v == b + ": " + w
    ensures Alike(a, b) && (a == b ==> v == w)
  {
    var s := a + ": " + v;
    assert s[..|a|] == a && s[..|b|] == b;
    assert s[|a|] == ':' && s[|b|] == ':';
    assert s[|a| + 2..] == v && s[|b| + 2..] == w;
  }

  /** The lines of `c` in `m` and of `d` in `n` are equal: alike identifiers, and the same value behind equal ones. */
  ghost predicate LineAgrees(m: Message, c: Component, n: Message, d: Component) {
    && Alike(QuotedId(c), QuotedId(d))
    && (QuotedId(c) == QuotedId(d) ==> ComponentValue(m, c).Ok? && ComponentValue(m, c) == ComponentValue(n, d))
  }

  ghost predicate LinesAgree(m: Message, c: seq<Component>, n: Message, d: seq<Component>) {
    |c| == |d| && forall i :: 0 <= i < |c| ==> LineAgrees(m, c[i], n, d[i])
  }

  ghost predicate IdsOneLine(components: seq<Component>) {
    forall i :: 0 <= i < |components| ==> OneLine(QuotedId(components[i]))
  }

  lemma SameFirstLine(c: Component, d: Component, v: string, w: string, r: string, t: string)
    requires OneLine(QuotedId(c)) && OneLine(QuotedId(d)) && OneLine(v) && OneLine(w)
    requires Line(c, v) + r == Line(d, w) + t
    ensures Alike(QuotedId(c), QuotedId(d)) && (QuotedId(c) == QuotedId(d) ==> v == w) && r == t
  {
    var a, b := QuotedId(c), QuotedId(d);
    hide QuotedId, Alike;
    assert (a + ": " + v) + ['\n'] + r == Line(c, v) + r;
    assert (b + ": " + w) + ['\n'] + t == Line(d, w) + t;
    CutEqual(a + ": " + v, b + ": " + w, '\n', r, t);
    SameStart(a, v, b, w);
  }

  /** Equal lines have equal counts, and agree one by one. */
  lemma {:induction false} EqualLinesAgree(m: Message, c: seq<Component>, n: Message, d: seq<Component>)
    requires IdsOneLine(c) && IdsOneLine(d)
    requires Lines(m, c).Ok? && Lines(m, c) == Lines(n, d)
    ensures LinesAgree(m, c, n, d)
    decreases |c|
  {
    hide ComponentValue, OneLine, Alike, QuotedId;
    if c == [] || d == [] {
      assert Lines(m, c).value != "" <==> c != [];
      assert Lines(n, d).value != "" <==> d != [];
    } else {
      SameFirstLine(c[0], d[0], ComponentValue(m, c[0]).value, ComponentValue(n, d[0]).value,
                    Lines(m, c[1..]).value, Lines(n, d[1..]).value);
      EqualLinesAgree(m, c[1..], n, d[1..]);
      assert forall i :: 1 <= i < |c| ==> c[i] == c[1..][i - 1] && d[i] == d[1..][i - 1];
    }
  }

  // ---------- Words ----------

  lemma {:induction false} WordStops(s: string)
    ensures NoSpace(s[..WordLength(s)])
    ensures WordLength(s) < |s| ==> IsSpace(s[WordLength(s)])
  {
    if s == "" || IsSpace(s[0]) {
    } else {
      WordStops(s[1..]);
      assert s[..WordLength(s)] == [s[0]] + s[1..][..WordLength(s) - 1];
    }
  }

  lemma {:induction false} WordsAreSolid(s: string)
    ensures forall w :: w in Words(s) ==> NoSpace(w)
    decreases |s|
  {
    var t := TrimStart(s);
    if t == "" {
    } else {
      var before := TrimStartSplits(s);
      WordStops(t[1..]);
      var n := 1 + WordLength(t[1..]);
      assert t[..n] == [t[0]] + t[1..][..n - 1];
      WordsAreSolid(t[n..]);
    }
  }

  lemma OnlyWhole(a: string, y: string, w: nat)
    requires y != "" && y[0] in {' ', ')'} && w < |a + y| && (a + y)[w] != ':'
    ensures Alike(a, Lower((a + y)[..w])) ==> w == |a|
  {
    if w > |a| {
      assert Lower((a + y)[..w])[|a|] == LowerChar(y[0]);
    }
  }

  /** A first word that is alike to the text that the list starts with is that text. */
  lemma FirstWord(a: string, y: string, n: nat)
    requires a != "" && a[0] == '"' && y != "" && y[0] in {' ', ')'}
    requires n < |a + y| && (a + y)[n] == ')'
    requires Words((a + y)[..n]) != [] && Alike(a, Lower(Words((a + y)[..n])[0]))
    ensures |a| <= n && Words((a + y)[..n]) == [a] + Words(y[..n - |a|])
  {
    var x := a + y;
    var s := x[..n];
    assert n > 0 && s[0] == '"';
    var w := 1 + WordLength(s[1..]);
    WordStops(s[1..]);
    assert Words(s) == [s[..w]] + Words(s[w..]);
    assert w < n ==> IsSpace(x[w]);
    assert s[..w] == x[..w];
    OnlyWhole(a, y, w);
    assert s == a + y[..n - w];
    assert s[..w] == a && s[w..] == y[..n - w];
  }

  lemma SpaceBeforeWords(s: string)
    ensures Words(" " + s) == Words(s)
  {
    TrimStartSkips(" ", s);
    SameWords(" " + s, s);
  }

  lemma NoWordsLeft(tail: string, n: nat)
    requires n <= |tail| && Words((")" + tail)[..n]) == []
    ensures n == 0
  {
  }

  /** What closes the list `ids`, whose words up to `n` are as many as the identifiers and alike to them. */
  ghost predicate ListedAlike(ids: seq<string>, tail: string, n: nat) {
    var x := Join(ids, " ") + (")" + tail);
    && n < |x| && x[n] == ')'
    && |Words(x[..n])| == |ids|
    && forall i :: 0 <= i < |ids| ==> Alike(ids[i], Lower(Words(x[..n])[i]))
  }

  /** Then they are the identifiers, and the list ends where it was printed to end. */
  lemma {:induction false} WordsAreIds(ids: seq<string>, tail: string, n: nat)
    requires forall i :: 0 <= i < |ids| ==> ids[i] != "" && ids[i][0] == '"'
    requires ListedAlike(ids, tail, n)
    ensures n == |Join(ids, " ")| && Words((Join(ids, " ") + (")" + tail))[..n]) == ids
    decreases |ids|
  {
    var x := Join(ids, " ") + (")" + tail);
    hide IsSpace, Words, Alike;
    if ids == [] {
      assert x == ")" + tail;
      NoWordsLeft(tail, n);
    } else {
      var a, rest := ids[0], ids[1..];
      var below := Join(rest, " ") + (")" + tail);
      var y := if rest == [] then ")" + tail else " " + below;
      assert x == a + y;
      FirstWord(a, y, n);
      var k := n - |a|;
      TailOfCons(a, Words(y[..k]));
      assert forall i :: 0 <= i < |rest| ==> Words(y[..k])[i] == Words(x[..n])[i + 1] && rest[i] == ids[i + 1];
      if rest == [] {
        NoWordsLeft(tail, k);
      } else {
        assert k > 0 && y[..k] == " " + below[..k - 1];
        SpaceBeforeWords(below[..k - 1]);
        WordsAreIds(rest, tail, k - 1);
      }
      HeadTail(ids);
    }
  }

  // ---------- Members ----------

  lemma {:induction false} IdsAt(components: seq<Component>, i: nat)
    requires i < |components|
    ensures Ids(components)[i] == QuotedId(components[i])
  {
    hide QuotedId;
    if i == 0 {
    } else {
      IdsAt(components[1..], i - 1);
    }
  }

  lemma {:induction false} ComponentsOfAt(ids: seq<string>, i: nat)
    requires ComponentsOf(ids).Ok? && i < |ids|
    ensures FromQuotedId(ids[i]) == Ok(ComponentsOf(ids).value[i])
  {
    hide FromQuotedId;
    if i == 0 {
    } else {
      ComponentsOfAt(ids[1..], i - 1);
    }
  }

  lemma {:induction false} JoinOneLine(parts: seq<string>)
    requires OneLine(Join(parts, " "))
    ensures forall i :: 0 <= i < |parts| ==> OneLine(parts[i])
  {
    hide OneLine;
    if |parts| <= 1 {
    } else {
      OneLineConcat(parts[0] + " ", Join(parts[1..], " "));
      OneLineConcat(parts[0], " ");
      JoinOneLine(parts[1..]);
      assert forall i :: 1 <= i < |parts| ==> parts[i] == parts[1..][i - 1];
    }
  }

  lemma PrintedIdsOneLine(components: seq<Component>, p: SignatureParams)
    requires OneLine(ParamsText(components, p))
    ensures IdsOneLine(components)
  {
    var inner, tail := Join(Ids(components), " "), TailText(p);
    hide OneLine, Join, QuotedId, Ids, Parts, PartsText;
    OneLineConcat("(" + inner + ")", tail);
    OneLineConcat("(" + inner, ")");
    OneLineConcat("(", inner);
    JoinOneLine(Ids(components));
    forall i | 0 <= i < |components| ensures OneLine(QuotedId(components[i])) {
      IdsAt(components, i);
    }
  }

  /** The words that the components of a parsed member were read from. */
  lemma ParsedWords(name: string, rest: string) returns (close: nat)
    requires MemberOf(name, rest).Ok?
    ensures var text := Trim(rest);
            && 1 <= close < |text| && text[0] == '(' && text[close] == ')'
            && ComponentsOf(Words(text[1..close])) == Ok(MemberOf(name, rest).value.components)
            && ApplyParts(CutAtSemicolons(text[close + 1..]), NO_PARAMS) == Ok(MemberOf(name, rest).value.params)
  {
    var text := Trim(rest);
    hide Trim, ComponentsOf, Words, ApplyParts, CutAtSemicolons;
    close := FirstUnquoted(text, ')').value;
    CloseIsLater(text);
    FirstStopIsFirst(Plain, text, {')'});
  }

  lemma WordPrintsBack(word: string, c: Component)
    requires NoSpace(word) && FromQuotedId(word) == Ok(c)
    ensures QuotedId(c) == Lower(word) && OneLine(QuotedId(c))
  {
    AcceptedIdPrintsBack(word);
    hide QuotedId, FromQuotedId;
    forall i | 0 <= i < |word| ensures Lower(word)[i] != '\r' && Lower(word)[i] != '\n' {
      assert !IsSpace(word[i]);
    }
  }

  lemma ComponentsPrintBack(ids: seq<string>)
    requires ComponentsOf(ids).Ok? && forall w :: w in ids ==> NoSpace(w)
    ensures forall i :: 0 <= i < |ids| ==> QuotedId(ComponentsOf(ids).value[i]) == Lower(ids[i])
    ensures IdsOneLine(ComponentsOf(ids).value)
  {
    hide QuotedId, FromQuotedId, OneLine, Lower;
    forall i | 0 <= i < |ids|
      ensures QuotedId(ComponentsOf(ids).value[i]) == Lower(ids[i]) && OneLine(QuotedId(ComponentsOf(ids).value[i]))
    {
      ComponentsOfAt(ids, i);
      WordPrintsBack(ids[i], ComponentsOf(ids).value[i]);
    }
  }

  lemma ParsedIdsOneLine(name: string, rest: string)
    requires MemberOf(name, rest).Ok?
    ensures IdsOneLine(MemberOf(name, rest).value.components)
  {
    var close := ParsedWords(name, rest);
    hide MemberOf, Trim, Words, ComponentsOf, QuotedId;
    WordsAreSolid(Trim(rest)[1..close]);
    ComponentsPrintBack(Words(Trim(rest)[1..close]));
  }

  ghost predicate IdsAlike(c: seq<Component>, d: seq<Component>) {
    |c| == |d| && forall i :: 0 <= i < |c| ==> Alike(QuotedId(c[i]), QuotedId(d[i]))
  }

  /** `d` is what the printed identifiers of `c` read back as, under the same identifiers. */
  ghost predicate ReadsAs(c: seq<Component>, d: seq<Component>) {
    && |c| == |d|
    && forall i :: 0 <= i < |c| ==> FromQuotedId(QuotedId(c[i])) == Ok(d[i]) && QuotedId(c[i]) == QuotedId(d[i])
  }

  lemma ListAt(inner: string, tail: string, close: nat)
    requires 1 <= close < |"(" + inner + ")" + tail| && ("(" + inner + ")" + tail)[close] == ')'
    ensures var text, x := "(" + inner + ")" + tail, inner + (")" + tail);
            close - 1 < |x| && x[close - 1] == ')' && text[1..close] == x[..close - 1]
  {
    assert ("(" + inner + ")" + tail)[1..] == inner + (")" + tail);
  }

  lemma PrintedAlike(components: seq<Component>, parsed: seq<Component>, tail: string, n: nat)
    requires var x := Join(Ids(components), " ") + (")" + tail);
             n < |x| && x[n] == ')' && ComponentsOf(Words(x[..n])) == Ok(parsed)
    requires IdsAlike(components, parsed)
    ensures n == |Join(Ids(components), " ")| && ReadsAs(components, parsed)
  {
    var ids, x := Ids(components), Join(Ids(components), " ") + (")" + tail);
    var words := Words(x[..n]);
    hide Join, Words, QuotedId, FromQuotedId, Ids, Alike;
    WordsAreSolid(x[..n]);
    ComponentsPrintBack(words);
    forall i | 0 <= i < |ids|
      ensures ids[i] != "" && ids[i][0] == '"' && Alike(ids[i], Lower(words[i])) && ids[i] == QuotedId(components[i])
    {
      IdsAt(components, i);
      QuotedIdEnds(components[i]);
    }
    WordsAreIds(ids, tail, n);
    forall i | 0 <= i < |components|
      ensures FromQuotedId(QuotedId(components[i])) == Ok(parsed[i]) && QuotedId(components[i]) == QuotedId(parsed[i])
    {
      ComponentsOfAt(words, i);
      AlikeAsLong(ids[i], Lower(words[i]));
    }
  }

  lemma AlikeAsLong(a: string, b: string)
    requires Alike(a, b) && |a| == |b|
    ensures a == b
  {
  }

  /**
   A member parsed from a printed text, with as many identifiers as were printed
   and alike to them, has the printed parameters and the printed identifiers,
   even where the header names hold delimiters.
   */
  lemma ReadAsPrinted(name: string, components: seq<Component>, p: SignatureParams)
    requires MemberOf(name, ParamsText(components, p)).Ok?
    requires IdsAlike(components, MemberOf(name, ParamsText(components, p)).value.components)
    ensures MemberOf(name, ParamsText(components, p)).value.params == p
    ensures ReadsAs(components, MemberOf(name, ParamsText(components, p)).value.components)
  {
    var text, inner, tail := ParamsText(components, p), Join(Ids(components), " "), TailText(p);
    var member := MemberOf(name, text).value;
    ParamsTextTrims(components, p);
    var close := ParsedWords(name, text);
    ParamsReadBack(p);
    hide MemberOf, Trim, ComponentsOf, Words, ApplyParts, CutAtSemicolons, Ids, Join, Parts, PartsText,
      IdsAlike, ReadsAs;
    ListAt(inner, tail, close);
    PrintedAlike(components, member.components, tail, close - 1);
    ListSlices(inner, tail);
  }

  // ---------- Bases ----------

  /** `d` in `n` is what `c` in `m` was signed as: the same identifiers, read back, with the same values. */
  ghost predicate SignedAs(m: Message, c: seq<Component>, n: Message, d: seq<Component>) {
    && ReadsAs(c, d)
    && forall i :: 0 <= i < |c| ==> ComponentValue(m, c[i]).Ok? && ComponentValue(m, c[i]) == ComponentValue(n, d[i])
  }

  /**
   One base: a member parsed from its own verbatim text, over the base of a
   printed list, has the printed parameters, identifiers and values. Nothing is
   asked of the components that were printed.
   */
  lemma SameBaseSignedAs(n: Message, member: InputMember, m: Message, components: seq<Component>, p: SignatureParams)
    requires MemberOf(member.name, member.text) == Ok(member)
    requires BaseText(n, member.components, member.text).Ok?
    requires BaseText(n, member.components, member.text) == BaseText(m, components, ParamsText(components, p))
    ensures member.text == ParamsText(components, p) && member.params == p
    ensures SignedAs(m, components, n, member.components)
  {
    BaseFixesText(n, member.components, member.text, m, components, ParamsText(components, p));
    PrintedIdsOneLine(components, p);
    ParsedIdsOneLine(member.name, member.text);
    hide MemberOf, ParamsText, OneLine, BaseText, Lines, QuotedId, FromQuotedId, Alike, ComponentValue;
    EqualLinesAgree(m, components, n, member.components);
    assert IdsAlike(components, member.components);
    ReadAsPrinted(member.name, components, p);
  }

  // ---------- When the components are the printed ones ----------

  /** A header name that is read as the identifier of a derived component, or refused. */
  predicate TakenForDerived(c: Component) {
    Base(c).Header? && Base(c).name != "" && Base(c).name[0] == '@'
  }

  ghost predicate NoneTaken(components: seq<Component>) {
    forall i :: 0 <= i < |components| ==> !TakenForDerived(components[i])
  }

  lemma {:induction false} LowerIdLowerName(c: Component)
    requires Lower(QuotedId(c)) == QuotedId(c)
    ensures Base(c).Header? ==> IsLowercase(Base(c).name)
  {
    match c
    case Req(inner) =>
      LowerReq(QuotedId(inner));
      var a, b := QuotedId(inner), Lower(QuotedId(inner));
      assert (a + ";req")[..|a|] == a && (b + ";req")[..|a|] == b;
      LowerIdLowerName(inner);
    case Header(name) =>
      forall i | 0 <= i < |name| ensures !IsUpper(name[i]) {
        assert QuotedId(c)[i + 1] == name[i] && Lower(QuotedId(c))[i + 1] == LowerChar(name[i]);
      }
    case _ =>
  }

  /** The components read back are the printed ones exactly when no header name is taken for a derived component. */
  lemma ReadsAsItself(c: seq<Component>, d: seq<Component>)
    requires ReadsAs(c, d)
    ensures c == d <==> NoneTaken(c)
  {
    forall i | 0 <= i < |c| ensures c[i] == d[i] <==> !TakenForDerived(c[i]) {
      QuotedIdRoundTrip(c[i]);
      AcceptedIdPrintsBack(QuotedId(c[i]));
      LowerIdLowerName(c[i]);
      hide FromQuotedId, QuotedId;
    }
  }

  lemma WellFormedNoneTaken(components: seq<Component>)
    requires AllWellFormed(components)
    ensures NoneTaken(components)
  {
    forall i | 0 <= i < |components| ensures !TakenForDerived(components[i]) {
      assert WellFormed(components[i]);
    }
  }
}
