/**
 RFC 8941 dictionaries (section 3.2) as the signature fields use them: members
 `label=rest` separated by commas that stand outside strings and inner lists.
 */
module Dictionary {
  import opened Wrappers
  import opened Text
  import opened Errors
  import opened Scanner

  datatype Member = Member(name: string, rest: string)

  /** A dictionary member at its first `=`. */
  function SplitMember(value: string): Outcome<Member> {
    var value := Trim(value);
    match IndexOf(value, '=')
    case None => Err(Parse(MissingEquals))
    case Some(eq) =>
      var name := Trim(value[..eq]);
      if name == "" then Err(Parse(EmptyLabel)) else Ok(Member(name, value[eq + 1..]))
  }

  // ---------- Top-level commas ----------

  /** The parenthesis depth behind `c`; a `)` too many leaves it at zero. */
  function Level(q: Quote, depth: nat, c: char): nat {
    if q == Plain && c == '(' then depth + 1
    else if q == Plain && c == ')' && depth > 0 then depth - 1
    else depth
  }

  function Depth(q: Quote, depth: nat, s: string): nat
    decreases |s|
  {
    if s == "" then depth else Depth(Step(q, s[0]), Level(q, depth, s[0]), s[1..])
  }

  /** Where a scan of `s` first meets a comma outside every string and inner list. */
  function FirstComma(q: Quote, depth: nat, s: string): (r: Option<nat>)
    ensures r.Some? ==> r.value < |s|
    decreases |s|
  {
    if s == "" then None
    else if q == Plain && depth == 0 && s[0] == ',' then Some(0)
    else Shift(1, FirstComma(Step(q, s[0]), Level(q, depth, s[0]), s[1..]))
  }

  /** Cuts at the first top-level comma, then again in what follows it. */
  function CutAtCommas(s: string): (raws: seq<string>)
    ensures |raws| > 0
    decreases |s|
  {
    match FirstComma(Plain, 0, s)
    case None => [s]
    case Some(i) => [s[..i]] + CutAtCommas(s[i + 1..])
  }

  function SplitMembers(raws: seq<string>): (r: Outcome<seq<Member>>)
    ensures r.Ok? ==> |r.value| == |raws|
  {
    if raws == [] then Ok([]) else
    var member :- SplitMember(raws[0]);
    var rest :- SplitMembers(raws[1..]);
    Ok([member] + rest)
  }

  predicate HasLabel(members: seq<Member>, name: string) {
    exists i :: 0 <= i < |members| && members[i].name == name
  }

  /** The first label that an earlier member already carries. */
  function FirstRepeat(seen: seq<Member>, members: seq<Member>): Option<string>
    decreases |members|
  {
    if members == [] then None
    else if HasLabel(seen, members[0].name) then Some(members[0].name)
    else FirstRepeat(seen + [members[0]], members[1..])
  }

  /** The members of a dictionary field, in order. */
  function DictionaryMembers(value: string): (r: Outcome<seq<Member>>)
    ensures r.Ok? ==> |r.value| > 0
  {
    var members :- SplitMembers(CutAtCommas(value));
    match FirstRepeat([], members)
    case None => Ok(members)
    case Some(name) => Err(Parse(DuplicateLabel(name)))
  }

  // ---------- split_dictionary ----------

  /** The outcome `after` with `before` put in front of its members. */
  function Behind(before: seq<Member>, after: Outcome<seq<Member>>): Outcome<seq<Member>> {
    if after.Ok? then Ok(before + after.value) else after
  }

  lemma BehindTwice(a: seq<Member>, b: seq<Member>, after: Outcome<seq<Member>>)
    ensures Behind(a, Behind(b, after)) == Behind(a + b, after)
    ensures Behind([], after) == after
  {
    if after.Ok? {
      Regrouped(a, b, after.value);
      EmptyFirst(after.value);
    }
  }

  lemma SplitMembersCons(raw: string, rest: seq<string>)
    ensures SplitMembers([raw] + rest) ==
            var m := SplitMember(raw);
            if m.Ok? then Behind([m.value], SplitMembers(rest)) else Err(m.error)
  {
  }

  /**
   The members cut off so far, the slice being read, and the state of the scan
   inside it, together still determine what the whole field splits into.
   */
  ghost predicate Scanned(value: string, members: seq<Member>, start: nat, idx: nat, q: Quote, depth: nat)
    requires start <= idx <= |value|
  {
    && SplitMembers(CutAtCommas(value)) == Behind(members, SplitMembers(CutAtCommas(value[start..])))
    && FirstComma(Plain, 0, value[start..]) == Shift(idx - start, FirstComma(q, depth, value[idx..]))
  }

  lemma ScanStart(value: string)
    ensures Scanned(value, [], 0, 0, Plain, 0)
  {
    assert value[0..] == value;
    BehindTwice([], [], SplitMembers(CutAtCommas(value)));
  }

  lemma ScanOn(value: string, members: seq<Member>, start: nat, idx: nat, q: Quote, depth: nat)
    requires start <= idx < |value| && Scanned(value, members, start, idx, q, depth)
    requires !(q == Plain && depth == 0 && value[idx] == ',')
    ensures Scanned(value, members, start, idx + 1, Step(q, value[idx]), Level(q, depth, value[idx]))
  {
    hide FirstComma, SplitMembers, CutAtCommas, Behind;
    var tail := value[idx..];
    CommaStep(q, depth, tail);
    assert tail[1..] == value[idx + 1..];
  }

  lemma CommaStep(q: Quote, depth: nat, s: string)
    requires s != ""
    ensures FirstComma(q, depth, s) ==
            if q == Plain && depth == 0 && s[0] == ',' then Some(0)
            else Shift(1, FirstComma(Step(q, s[0]), Level(q, depth, s[0]), s[1..]))
  {
  }

  lemma CutRaw(value: string, start: nat, idx: nat)
    requires start <= idx < |value| && FirstComma(Plain, 0, value[start..]) == Some(idx - start)
    ensures CutAtCommas(value[start..]) == [value[start..idx]] + CutAtCommas(value[idx + 1..])
  {
    assert value[start..][..idx - start] == value[start..idx];
    assert value[start..][idx - start + 1..] == value[idx + 1..];
  }

  lemma MemberBehind(members: seq<Member>, raw: string, rest: seq<string>)
    ensures var m := SplitMember(raw);
            Behind(members, SplitMembers([raw] + rest)) ==
            if m.Ok? then Behind(members + [m.value], SplitMembers(rest)) else Err(m.error)
  {
    SplitMembersCons(raw, rest);
    hide SplitMember;
    var m := SplitMember(raw);
    if m.Ok? {
      BehindTwice(members, [m.value], SplitMembers(rest));
    }
  }

  lemma ScanCut(value: string, members: seq<Member>, start: nat, idx: nat)
    requires start <= idx < |value| && Scanned(value, members, start, idx, Plain, 0) && value[idx] == ','
    ensures var m := SplitMember(value[start..idx]);
            if m.Ok? then Scanned(value, members + [m.value], idx + 1, idx + 1, Plain, 0)
            else SplitMembers(CutAtCommas(value)) == Err(m.error)
  {
    hide SplitMember, SplitMembers, CutAtCommas, FirstComma, Behind;
    CommaStep(Plain, 0, value[idx..]);
    CutRaw(value, start, idx);
    var raw, after := value[start..idx], CutAtCommas(value[idx + 1..]);
    MemberBehind(members, raw, after);
  }

  lemma ScanEnd(value: string, members: seq<Member>, start: nat, q: Quote, depth: nat)
    requires start <= |value| && Scanned(value, members, start, |value|, q, depth)
    ensures var m := SplitMember(value[start..]);
            SplitMembers(CutAtCommas(value)) == if m.Ok? then Ok(members + [m.value]) else Err(m.error)
  {
    var raw := value[start..];
    assert CutAtCommas(raw) == [raw] + [];
    assert SplitMembers([]) == Ok([]);
    hide SplitMember, SplitMembers, CutAtCommas, FirstComma;
    MemberBehind(members, raw, []);
    var m := SplitMember(raw);
    if m.Ok? {
      assert members + [m.value] + [] == members + [m.value];
    }
  }

  method SplitDictionary(value: string) returns (r: Outcome<seq<Member>>)
    ensures r == DictionaryMembers(value)
  {
    var members: seq<Member> := [];
    var start, inQuotes, escaped, depth := 0, false, false, 0;
    ScanStart(value);
    hide Scanned, SplitMember, SplitMembers, CutAtCommas;
    for idx := 0 to |value|
      invariant start <= idx && (escaped ==> inQuotes) && depth >= 0
      invariant Scanned(value, members, start, idx, QuoteOf(inQuotes, escaped), depth)
    {
      var c := value[idx];
      if inQuotes || depth != 0 || c != ',' {
        ScanOn(value, members, start, idx, QuoteOf(inQuotes, escaped), depth);
      } else {
        ScanCut(value, members, start, idx);
      }
      if escaped {
        escaped := false;
      } else if inQuotes && c == '\\' {
        escaped := true;
      } else if c == '"' {
        inQuotes := !inQuotes;
      } else if !inQuotes && c == '(' {
        depth := depth + 1;
      } else if !inQuotes && c == ')' {
        depth := if depth > 0 then depth - 1 else 0;
      } else if !inQuotes && depth == 0 && c == ',' {
        var member :- SplitMember(value[start..idx]);
        members := members + [member];
        start := idx + 1;
      }
    }
    ScanEnd(value, members, start, QuoteOf(inQuotes, escaped), depth);
    var last :- SplitMember(value[start..]);
    members := members + [last];
    var repeated := FindRepeat(members);
    return if repeated.None? then Ok(members) else Err(Parse(DuplicateLabel(repeated.value)));
  }

  /** The duplicate check that ends `split_dictionary`. */
  method FindRepeat(members: seq<Member>) returns (r: Option<string>)
    ensures r == FirstRepeat([], members)
  {
    assert members[0..] == members && members[..0] == [];
    for i := 0 to |members|
      invariant FirstRepeat([], members) == FirstRepeat(members[..i], members[i..])
    {
      if HasLabel(members[..i], members[i].name) {
        return Some(members[i].name);
      }
      assert members[..i] + [members[i]] == members[..i + 1];
      assert members[i..][1..] == members[i + 1..];
    }
    return None;
  }

  // ---------- What an accepted dictionary is ----------

  ghost predicate DistinctLabels(members: seq<Member>) {
    forall i, j :: 0 <= i < j < |members| ==> members[i].name != members[j].name
  }

  /** No repeat is found exactly when all labels differ. */
  lemma {:induction false} RepeatFound(seen: seq<Member>, members: seq<Member>)
    requires DistinctLabels(seen)
    ensures FirstRepeat(seen, members) == None <==> DistinctLabels(seen + members)
    decreases |members|
  {
    var all := seen + members;
    if members == [] {
      assert all == seen;
    } else if HasLabel(seen, members[0].name) {
      var i :| 0 <= i < |seen| && seen[i].name == members[0].name;
      assert all[i].name == all[|seen|].name;
    } else {
      assert seen + [members[0]] + members[1..] == all;
      RepeatFound(seen + [members[0]], members[1..]);
    }
  }

  /** The comma at `i` stands outside every string and inner list that `s` opens before it. */
  ghost predicate IsTopComma(q: Quote, depth: nat, s: string, i: nat)
    requires i < |s|
  {
    s[i] == ',' && Run(q, s[..i]) == Plain && Depth(q, depth, s[..i]) == 0
  }

  /** The scan stops exactly at the first comma outside every string and inner list. */
  lemma {:induction false} FirstCommaIsFirst(q: Quote, depth: nat, s: string)
    ensures var r := FirstComma(q, depth, s);
            && (r.Some? ==> IsTopComma(q, depth, s, r.value))
            && forall i :: 0 <= i < (if r.Some? then r.value else |s|) ==> !IsTopComma(q, depth, s, i)
    decreases |s|
  {
    if s == "" {
    } else {
      FirstCommaIsFirst(Step(q, s[0]), Level(q, depth, s[0]), s[1..]);
      forall i | 1 <= i < |s|
        ensures IsTopComma(q, depth, s, i) <==> IsTopComma(Step(q, s[0]), Level(q, depth, s[0]), s[1..], i - 1)
      {
        assert s[..i][1..] == s[1..][..i - 1];
      }
    }
  }

  /** The raw slices are the whole field: rejoined with `,` they give it back, and none can be cut again. */
  lemma {:induction false} CommaPartsRejoin(s: string)
    ensures Join(CutAtCommas(s), ",") == s
    ensures forall part :: part in CutAtCommas(s) ==> FirstComma(Plain, 0, part) == None
    decreases |s|
  {
    var at := FirstComma(Plain, 0, s);
    if at.None? {
    } else {
      var before, after := s[..at.value], s[at.value + 1..];
      FirstCommaIsFirst(Plain, 0, s);
      assert s == before + [','] + after;
      assert s == before + ([','] + after);
      FirstCommaConcat(Plain, 0, before, [','] + after);
      CommaPartsRejoin(after);
      hide FirstComma;
      assert CutAtCommas(s) == [before] + CutAtCommas(after);
    }
  }

  /**
   An accepted field has one member for each raw slice between top-level commas;
   the slices rejoined are the field, and no two members share a label.
   */
  lemma AcceptedDictionary(value: string)
    requires DictionaryMembers(value).Ok?
    ensures var members := DictionaryMembers(value).value;
            && SplitMembers(CutAtCommas(value)) == Ok(members)
            && Join(CutAtCommas(value), ",") == value
            && (forall part :: part in CutAtCommas(value) ==> FirstComma(Plain, 0, part) == None)
            && DistinctLabels(members)
  {
    CommaPartsRejoin(value);
    var members := DictionaryMembers(value).value;
    RepeatFound([], members);
    EmptyFirst(members);
  }

  // ---------- Splitting undoes joining ----------

  /** Every string and inner list of `s` is closed, and no comma stands outside them. */
  predicate Sealed(s: string) {
    Run(Plain, s) == Plain && Depth(Plain, 0, s) == 0 && FirstComma(Plain, 0, s) == None
  }

  /** Reading `s` at depth `from` meets no top-level comma and ends outside strings at depth `to`. */
  ghost predicate Passes(s: string, from: nat, to: nat) {
    Run(Plain, s) == Plain && Depth(Plain, from, s) == to && FirstComma(Plain, from, s) == None
  }

  lemma PassesConcat(a: string, b: string, from: nat, mid: nat, to: nat)
    requires Passes(a, from, mid) && Passes(b, mid, to)
    ensures Passes(a + b, from, to)
  {
    RunConcat(Plain, a, b);
    DepthConcat(Plain, from, a, b);
    FirstCommaConcat(Plain, from, a, b);
  }

  lemma QuietPasses(s: string, depth: nat)
    requires Quiet(s, {'(', ')', ','})
    ensures Passes(s, depth, depth)
  {
    QuietKeepsDepth(Plain, depth, s);
  }

  /** A quiet inner list between quiet texts is sealed. */
  lemma ListIsSealed(before: string, inner: string, after: string)
    requires Quiet(before, {'(', ')', ','}) && Quiet(inner, {'(', ')', ','}) && Quiet(after, {'(', ')', ','})
    ensures Sealed(before + ("(" + inner + ")" + after))
  {
    QuietPasses(before, 0);
    QuietPasses(inner, 1);
    QuietPasses(after, 0);
    assert Passes("(", 0, 1) && Passes(")", 1, 0);
    hide Quiet, Passes;
    PassesConcat("(", inner, 0, 1, 1);
    PassesConcat("(" + inner, ")", 0, 1, 0);
    PassesConcat("(" + inner + ")", after, 0, 0, 0);
    PassesConcat(before, "(" + inner + ")" + after, 0, 0, 0);
    PassesIsSealed(before + ("(" + inner + ")" + after));
  }

  lemma PassesIsSealed(s: string)
    requires Passes(s, 0, 0)
    ensures Sealed(s)
  {
  }

  function MemberText(m: Member): string {
    m.name + "=" + m.rest
  }

  /** A member whose text survives in a dictionary. */
  predicate WellSealed(m: Member) {
    && m.name != "" && '=' !in m.name && Trimmed(m.name)
    && Trimmed(MemberText(m))
    && Sealed(MemberText(m))
  }

  function MemberTexts(members: seq<Member>): (texts: seq<string>)
    ensures |texts| == |members|
  {
    if members == [] then [] else [MemberText(members[0])] + MemberTexts(members[1..])
  }

  lemma {:induction false} DepthConcat(q: Quote, depth: nat, a: string, b: string)
    ensures Depth(q, depth, a + b) == Depth(Run(q, a), Depth(q, depth, a), b)
    decreases |a|
  {
    if a == "" {
      assert a + b == b;
    } else {
      assert (a + b)[1..] == a[1..] + b;
      DepthConcat(Step(q, a[0]), Level(q, depth, a[0]), a[1..], b);
    }
  }

  lemma {:induction false} FirstCommaConcat(q: Quote, depth: nat, a: string, b: string)
    ensures FirstComma(q, depth, a + b) ==
            if FirstComma(q, depth, a).Some? then FirstComma(q, depth, a)
            else Shift(|a|, FirstComma(Run(q, a), Depth(q, depth, a), b))
    decreases |a|
  {
    if a == "" {
      assert a + b == b;
    } else {
      assert (a + b)[1..] == a[1..] + b;
      FirstCommaConcat(Step(q, a[0]), Level(q, depth, a[0]), a[1..], b);
    }
  }

  /** Text that is quiet for parentheses and commas leaves the depth alone. */
  lemma {:induction false} QuietKeepsDepth(q: Quote, depth: nat, s: string)
    requires FirstStop(q, s, {'(', ')', ','}) == None
    ensures Depth(q, depth, s) == depth && FirstComma(q, depth, s) == None
    decreases |s|
  {
    if s == "" {
    } else {
      QuietKeepsDepth(Step(q, s[0]), depth, s[1..]);
    }
  }

  lemma SplitMemberText(m: Member, before: string)
    requires WellSealed(m) && AllSpace(before)
    ensures SplitMember(before + MemberText(m)) == Ok(m)
  {
    assert before + MemberText(m) == before + MemberText(m) + "";
    TrimCuts(before, MemberText(m), "");
    IndexOfFirst(m.name, '=', m.rest);
    assert MemberText(m)[..|m.name|] == m.name;
    assert MemberText(m)[|m.name| + 1..] == m.rest;
  }

  lemma CutFirst(pad: string, text: string, tail: string)
    requires Sealed(text) && (pad == "" || pad == " ")
    ensures CutAtCommas(pad + text) == [pad + text]
    ensures CutAtCommas(pad + text + ([','] + tail)) == [pad + text] + CutAtCommas(tail)
  {
    var s := pad + text;
    var all := s + ([','] + tail);
    FirstCommaConcat(Plain, 0, pad, text);
    RunConcat(Plain, pad, text);
    DepthConcat(Plain, 0, pad, text);
    FirstCommaConcat(Plain, 0, s, [','] + tail);
    assert FirstComma(Plain, 0, all) == Some(|s|);
    assert all[..|s|] == s && all[|s| + 1..] == tail;
  }

  /** The raw slices of joined texts: each text behind the space of its separator. */
  function Padded(texts: seq<string>, pad: string): seq<string> {
    if texts == [] then [] else [pad + texts[0]] + Padded(texts[1..], " ")
  }

  lemma Regroup(pad: string, first: string, rest: string)
    ensures pad + (first + ", " + rest) == pad + first + ([','] + (" " + rest))
  {
  }

  lemma {:induction false} CutJoined(texts: seq<string>, pad: string)
    requires |texts| > 0 && (pad == "" || pad == " ")
    requires forall i :: 0 <= i < |texts| ==> Sealed(texts[i])
    ensures CutAtCommas(pad + Join(texts, ", ")) == Padded(texts, pad)
    decreases |texts|
  {
    var first, rest := texts[0], texts[1..];
    assert Sealed(first);
    hide Sealed;
    if rest == [] {
      CutFirst(pad, first, "");
    } else {
      var tail := Join(rest, ", ");
      CutJoined(rest, " ");
      Regroup(pad, first, tail);
      CutFirst(pad, first, " " + tail);
    }
  }

  lemma {:induction false} SplitPadded(members: seq<Member>, pad: string)
    requires pad == "" || pad == " "
    requires forall i :: 0 <= i < |members| ==> WellSealed(members[i])
    ensures SplitMembers(Padded(MemberTexts(members), pad)) == Ok(members)
    decreases |members|
  {
    if members == [] {
    } else {
      var m, rest := members[0], members[1..];
      SplitMemberText(m, pad);
      hide SplitMember, WellSealed;
      SplitPadded(rest, " ");
      TailOfCons(MemberText(m), MemberTexts(rest));
      SplitMembersCons(pad + MemberText(m), Padded(MemberTexts(rest), " "));
      HeadTail(members);
    }
  }

  lemma {:induction false} MemberTextsAt(members: seq<Member>, i: nat)
    requires i < |members|
    ensures MemberTexts(members)[i] == MemberText(members[i])
  {
    if i == 0 {
    } else {
      MemberTextsAt(members[1..], i - 1);
    }
  }

  /** Splitting a field undoes joining distinctly labeled sealed members with `, `. */
  lemma SplitUndoesJoin(members: seq<Member>)
    requires |members| > 0 && DistinctLabels(members)
    requires forall i :: 0 <= i < |members| ==> WellSealed(members[i])
    ensures DictionaryMembers(Join(MemberTexts(members), ", ")) == Ok(members)
  {
    var s := Join(MemberTexts(members), ", ");
    assert SplitMembers(CutAtCommas(s)) == Ok(members) by {
      var texts := MemberTexts(members);
      forall i | 0 <= i < |texts| ensures Sealed(texts[i]) {
        MemberTextsAt(members, i);
        assert WellSealed(members[i]);
      }
      hide SplitMembers, CutAtCommas, WellSealed, Sealed;
      CutJoined(texts, "");
      EmptyFirst(s);
      SplitPadded(members, "");
    }
    assert FirstRepeat([], members) == None by {
      RepeatFound([], members);
      EmptyFirst(members);
    }
  }
}
