/** The library text operations on the inputs that tell them apart: signs, limits, case, white space, pieces. */
module TextRules {
  import opened Wrappers
  import opened Text

  // ---------- Numbers ----------

  predicate AllDigits(s: string) {
    forall i :: 0 <= i < |s| ==> IsDigit(s[i])
  }

  /** Digits are read as the number they name, if it is below 2^64; a leading zero does not matter. */
  lemma DigitsAreRead(s: string)
    requires s != "" && AllDigits(s)
    ensures ParseU64(s) == if DecimalValue(s) < 18446744073709551616 then Some(DecimalValue(s)) else None
    ensures ParseU64("0" + s) == ParseU64(s)
  {
    assert IsDigit(s[0]);
    ZeroInFront(s);
    hide DecimalValue;
  }

  lemma {:induction false} ZeroInFront(s: string)
    requires AllDigits(s)
    ensures AllDigits("0" + s) && DecimalValue("0" + s) == DecimalValue(s)
  {
    var z := "0" + s;
    if s == "" {
      assert z[..0] == "";
    } else {
      var n := |s| - 1;
      ZeroInFront(s[..n]);
      assert z[..|z| - 1] == "0" + s[..n];
    }
  }

  /** One `+` in front is passed over. */
  lemma PlusIsPassed(s: string)
    requires s == "" || s[0] != '+'
    ensures ParseU64("+" + s) == ParseU64(s)
  {
    var plus := "+" + s;
    assert plus[0] == '+' && plus[1..] == s;
    hide ParseDigits;
  }

  /** Nothing is no number, and neither is anything with another character among its digits. */
  lemma StrayCharacters(a: string, c: char, b: string)
    requires !IsDigit(c) && (a != "" || c != '+')
    ensures ParseU64("") == None
    ensures ParseU64(a + [c] + b) == None
  {
    var s := a + [c] + b;
    assert s[|a|] == c;
    hide DecimalValue;
    var digits := if s[0] == '+' then s[1..] else s;
    var k := if s[0] == '+' then |a| - 1 else |a|;
    assert 0 <= k < |digits| && !IsDigit(digits[k]);
  }

  lemma DigitsWrittenOut()
    ensures Decimal(0) == "0" && Decimal(9) == "9" && Decimal(10) == "10" && Decimal(407) == "407"
    ensures DecimalValue("0") == 0 && DecimalValue("9") == 9
  {
    assert Decimal(1) == "1" && Decimal(4) == "4";
    assert Decimal(40) == Decimal(4) + "0" == "40";
    assert Decimal(407) == Decimal(40) + "7" == "407";
    assert "0"[..0] == "" && "9"[..0] == "";
  }

  // ---------- Case ----------

  /** Only the letters `A` to `Z` change, and to the ones 32 above. */
  lemma CaseWrittenOut(c: char)
    ensures 'A' <= c <= 'Z' ==> LowerChar(c) as int == c as int + 32
    ensures c < 'A' || c > 'Z' ==> LowerChar(c) == c
    ensures LowerChar('A') == 'a' && LowerChar('Z') == 'z'
  {
  }

  // ---------- White space ----------

  /** Of the ASCII characters, tab to carriage return and the space are white space. */
  lemma AsciiSpace(c: char)
    requires c < '\U{0080}'
    ensures IsSpace(c) <==> c in "\t\n\r " || c == '\U{000B}' || c == '\U{000C}'
  {
  }

  /** Beyond ASCII, white space is that of the Unicode property; the zero-width characters are not. */
  lemma WideSpace()
    ensures IsSpace('\U{0085}') && IsSpace('\U{00A0}') && IsSpace('\U{1680}') && IsSpace('\U{3000}')
    ensures IsSpace('\U{2000}') && IsSpace('\U{200A}') && IsSpace('\U{2028}') && IsSpace('\U{2029}')
    ensures IsSpace('\U{202F}') && IsSpace('\U{205F}') && !IsSpace('\U{0086}') && !IsSpace('\U{180E}')
    ensures !IsSpace('\U{200B}') && !IsSpace('\U{2060}') && !IsSpace('\U{FEFF}')
  {
  }

  lemma FirstWordCut(word: string, tail: string)
    requires word != "" && NoSpace(word) && tail != "" && IsSpace(tail[0])
    ensures Words(word + tail) == [word] + Words(tail)
  {
    var s := word + tail;
    assert !IsSpace(s[0]) && s[0] == word[0];
    WordLengthAt(word, tail);
    hide IsSpace;
    assert s[..|word|] == word && s[|word|..] == tail;
  }

  lemma SpaceInFront(pad: string, s: string)
    requires AllSpace(pad)
    ensures Words(pad + s) == Words(s)
  {
    hide IsSpace, Words;
    TrimStartSkips(pad, s);
    SameWords(pad + s, s);
  }

  /** Words are cut at white space of any kind and length. */
  lemma WordsCut(pad: string, word: string, gap: string, rest: string)
    requires AllSpace(pad) && AllSpace(gap) && gap != "" && word != "" && NoSpace(word)
    ensures Words(pad + word + gap + rest) == [word] + Words(rest)
  {
    var tail := gap + rest;
    assert IsSpace(gap[0]) && tail[0] == gap[0];
    hide *;
    FirstWordCut(word, tail);
    SpaceInFront(pad, word + tail);
    SpaceInFront(gap, rest);
    assert pad + word + gap + rest == pad + (word + tail);
  }

  // ---------- Line breaks ----------

  /** CR and LF, and no other character, break a text into lines. */
  lemma BreaksFound(a: string, c: char, b: string)
    ensures OneLine(a + [c] + b) <==> OneLine(a) && OneLine(b) && c != '\r' && c != '\n'
    ensures OneLine("")
  {
    var s := a + [c] + b;
    assert s[|a|] == c;
    assert forall i :: 0 <= i < |a| ==> s[i] == a[i];
    assert forall i :: 0 <= i < |b| ==> s[|a| + 1 + i] == b[i];
  }

  // ---------- Pieces ----------

  /** Text is cut at every occurrence of the character, and nowhere else. */
  lemma PiecesCut(a: string, c: char, b: string)
    requires c !in a
    ensures SplitAll(a + [c] + b, c) == [a] + SplitAll(b, c)
    ensures SplitAll(a, c) == [a]
  {
    var s := a + [c] + b;
    IndexOfFirst(a, c, b);
    IndexOfIsFirst(a, c);
    assert s[..|a|] == a && s[|a| + 1..] == b;
  }

}
