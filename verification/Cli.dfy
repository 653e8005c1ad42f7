/** The command line validators of `wimsey httpsig`, and that what they let through can be signed and read back. */
module Cli {
  import opened Wrappers
  import opened Text
  import opened TextRules
  import opened Dictionary
  import opened Components
  import opened Params
  import opened Members
  import opened Verification
  import opened Completeness

  datatype CliError =
    | InvalidLabel
    | UnsupportedDerived(name: string)
    | InvalidHeaderComponent(token: string)
    | EmptyComponentList
    | NotCovered(id: string)

  type Checked<T> = Result<T, CliError>

  predicate IsValidHeaderName(name: string) {
    name != "" && forall i :: 0 <= i < |name| ==> IsTchar(name[i])
  }

  predicate IsLabelChar(c: char) {
    IsLower(c) || IsDigit(c) || c == '_' || c == '-' || c == '.' || c == '*'
  }

  function CheckedLabel(raw: string): Checked<string> {
    var text := Trim(raw);
    if text == "" || !(IsLower(text[0]) || text[0] == '*')
       || exists i :: 1 <= i < |text| && !IsLabelChar(text[i])
    then Err(InvalidLabel)
    else Ok(text)
  }

  function ParseComponent(raw: string): Checked<Component> {
    var token := Trim(raw);
    if token != "" && token[0] == '@' then
      var name := Lower(token[1..]);
      if name == "method" then Ok(Method)
      else if name == "authority" then Ok(Authority)
      else if name == "path" then Ok(Path)
      else if name == "query" then Ok(Query)
      else Err(UnsupportedDerived(name))
    else if !IsValidHeaderName(token) then Err(InvalidHeaderComponent(token))
    else Ok(Header(Lower(token)))
  }

  /** The components of the tokens that are not blank. */
  function ParseTokens(tokens: seq<string>): Checked<seq<Component>> {
    if tokens == [] then Ok([])
    else if Trim(tokens[0]) == "" then ParseTokens(tokens[1..])
    else
      var first :- ParseComponent(Trim(tokens[0]));
      var rest :- ParseTokens(tokens[1..]);
      Ok([first] + rest)
  }

  function ParseComponents(list: string): Checked<seq<Component>> {
    var components :- ParseTokens(SplitAll(list, ','));
    if components == [] then Err(EmptyComponentList) else Ok(components)
  }

  function EnsureCovers(covered: seq<Component>, mandatory: seq<Component>): Checked<()> {
    if mandatory == [] then Ok(())
    else if !Covers(covered, mandatory[0]) then Err(NotCovered(QuotedId(mandatory[0])))
    else EnsureCovers(covered, mandatory[1..])
  }

  // ---------- The validators establish what signing relies on ----------

  /** Every accepted label is a structured-field key, and every key is accepted as it stands. */
  lemma LabelsAreKeys(raw: string)
    ensures CheckedLabel(raw).Ok? <==> IsKey(Trim(raw))
    ensures CheckedLabel(raw).Ok? ==> CheckedLabel(raw).value == Trim(raw)
  {
  }

  lemma TokenIsWellFormed(raw: string)
    requires ParseComponent(raw).Ok?
    ensures WellFormed(ParseComponent(raw).value)
  {
    var token := Trim(raw);
    if !(token != "" && token[0] == '@') {
      LowerTchars(token);
    }
  }

  lemma LowerTchars(name: string)
    requires IsValidHeaderName(name)
    ensures IsFieldName(Lower(name))
  {
  }

  lemma {:induction false} TokensAreWellFormed(tokens: seq<string>)
    requires ParseTokens(tokens).Ok?
    ensures AllWellFormed(ParseTokens(tokens).value)
  {
    hide ParseComponent, Trim, WellFormed;
    if tokens == [] {
    } else {
      TokensAreWellFormed(tokens[1..]);
      if Trim(tokens[0]) != "" {
        TokenIsWellFormed(Trim(tokens[0]));
      }
    }
  }

  /**
   A signature made under an accepted label over an accepted component list is
   one dictionary member that splits and parses back to exactly that label,
   those components and those parameters.
   */
  lemma AcceptedInputReadsBack(rawLabel: string, list: string, m: Message, p: SignatureParams,
                               signer: SigningKey, base64: Base64)
    requires CheckedLabel(rawLabel).Ok? && ParseComponents(list).Ok?
    requires Sign(m, ParseComponents(list).value, p, CheckedLabel(rawLabel).value, signer, base64).Ok?
    ensures var name, components := CheckedLabel(rawLabel).value, ParseComponents(list).value;
            var input := Sign(m, components, p, name, signer, base64).value.signatureInput;
            var text := ParamsText(components, p);
            && AllWellFormed(components)
            && DictionaryMembers(input) == Ok([Member(name, text)])
            && MemberOf(name, text) == Ok(InputMember(name, components, p, text))
  {
    var name, components := CheckedLabel(rawLabel).value, ParseComponents(list).value;
    LabelsAreKeys(rawLabel);
    TokensAreWellFormed(SplitAll(list, ','));
    hide CheckedLabel, ParseTokens, IsKey, ParamsText, DictionaryMembers, MemberOf, WellSealed, Trim, SplitAll;
    PrintedIsSealed(name, components, p);
    MemberRoundTrip(name, components, p);
    LoneMember(Member(name, ParamsText(components, p)));
  }

  /** The coverage check passes exactly when a verifier that requires `mandatory` finds it covered. */
  lemma {:induction false} EnsuredIsRequired(covered: seq<Component>, mandatory: seq<Component>)
    ensures EnsureCovers(covered, mandatory).Ok? <==> CheckRequired(covered, mandatory).Ok?
    ensures EnsureCovers(covered, mandatory).Ok? <==> forall c :: c in mandatory ==> Covers(covered, c)
  {
    hide Covers;
    if mandatory == [] {
    } else {
      EnsuredIsRequired(covered, mandatory[1..]);
      HeadTail(mandatory);
    }
  }

  // ---------- The validators written out ----------

  /** The characters of a field name. */
  lemma FieldNameCharsWrittenOut(c: char)
    ensures IsTchar(c) <==> 'a' <= c <= 'z' || 'A' <= c <= 'Z' || '0' <= c <= '9' || c in "!#$%&'*+-.^_`|~"
  {
  }

  /** The derived components by name, in any case; all others are refused under their lowercase name. */
  lemma DerivedTokens(a: string, name: string, b: string)
    requires AllSpace(a) && AllSpace(b) && Trimmed(name) && name != ""
    ensures var r := ParseComponent(a + ("@" + name) + b);
            var low := Lower(name);
            if low == "method" then r == Ok(Method)
            else if low == "authority" then r == Ok(Authority)
            else if low == "path" then r == Ok(Path)
            else if low == "query" then r == Ok(Query)
            else r == Err(UnsupportedDerived(low))
  {
    AtIsSolid();
    var token := "@" + name;
    hide IsSpace, Trim, Lower;
    assert token[0] == '@' && token[|token| - 1] == name[|name| - 1];
    TrimCuts(a, token, b);
    TailOfCons('@', name);
  }

  lemma AtIsSolid()
    ensures !IsSpace('@')
  {
  }

  /** Any other token is a header name in lowercase, if it is a field name at all. */
  lemma HeaderTokens(a: string, name: string, b: string)
    requires AllSpace(a) && AllSpace(b) && Trimmed(name) && (name != "" ==> name[0] != '@')
    ensures ParseComponent(a + name + b) ==
            if name != "" && (forall i :: 0 <= i < |name| ==> IsTchar(name[i])) then Ok(Header(Lower(name)))
            else Err(InvalidHeaderComponent(name))
  {
    hide IsSpace, Trim, Lower, IsTchar;
    TrimCuts(a, name, b);
  }

  /** Blank tokens are passed over, the others are read in order, and the first bad one fails the list. */
  lemma TokensInOrder(token: string, rest: seq<string>)
    ensures Trim(token) == "" ==> ParseTokens([token] + rest) == ParseTokens(rest)
    ensures Trim(token) != "" ==>
              ParseTokens([token] + rest) ==
              if ParseComponent(token).Err? then Err(ParseComponent(token).error)
              else if ParseTokens(rest).Err? then ParseTokens(rest)
              else Ok([ParseComponent(token).value] + ParseTokens(rest).value)
  {
    TailOfCons(token, rest);
    TrimTwice(token);
    hide Trim, IsValidHeaderName, Lower;
  }

  lemma BlankListIsEmpty(token: string)
    requires ',' !in token && Trim(token) == ""
    ensures ParseComponents(token) == Err(EmptyComponentList)
  {
    PiecesCut(token, ',', "");
    TokensInOrder(token, []);
    assert [token] + [] == [token];
    hide SplitAll;
  }

  /** A list is read token by token at its commas; blank tokens do not count, and a bad one fails the list. */
  lemma ListsAreCut(token: string, rest: string)
    requires ',' !in token
    ensures var r, tail := ParseComponents(token + [','] + rest), ParseComponents(rest);
            if Trim(token) == "" then r == tail
            else if ParseComponent(token).Err? then r == Err(ParseComponent(token).error)
            else if tail == Err(EmptyComponentList) then r == Ok([ParseComponent(token).value])
            else if tail.Err? then r == tail
            else r == Ok([ParseComponent(token).value] + tail.value)
  {
    PiecesCut(token, ',', rest);
    TokensInOrder(token, SplitAll(rest, ','));
    NoEmptyError(SplitAll(rest, ','));
    assert ParseComponent(token).Ok? ==> [ParseComponent(token).value] + [] == [ParseComponent(token).value];
    hide SplitAll, ParseTokens, ParseComponent, Trim;
  }

  lemma {:induction false} NoEmptyError(tokens: seq<string>)
    ensures ParseTokens(tokens) != Err(EmptyComponentList)
  {
    if tokens == [] {
    } else {
      NoEmptyError(tokens[1..]);
    }
  }

  /** The coverage check names the first component that is not covered. */
  lemma {:induction false} FirstUncoveredIsNamed(covered: seq<Component>, mandatory: seq<Component>, k: nat)
    requires k < |mandatory| && !Covers(covered, mandatory[k])
    requires forall i :: 0 <= i < k ==> Covers(covered, mandatory[i])
    ensures EnsureCovers(covered, mandatory) == Err(NotCovered(QuotedId(mandatory[k])))
    decreases k
  {
    hide Covers, QuotedId;
    if k == 0 {
    } else {
      FirstUncoveredIsNamed(covered, mandatory[1..], k - 1);
    }
  }
}
