/** The normalizer on the inputs that RFC 3986 sections 5.2.4 and 6.2.2 describe. */
module NormalizerText {
  import opened Text
  import opened Identifiers
  import opened Normalizer
  import opened IdentifierProofs

  // ---------- Escapes ----------

  /** An escape of an unreserved character is that character; any other is put in uppercase. */
  lemma EscapesNormalized(rest: string)
    ensures NormalizeEscapes("%41" + rest) == "A" + NormalizeEscapes(rest)
    ensures NormalizeEscapes("%7e" + rest) == "~" + NormalizeEscapes(rest)
    ensures NormalizeEscapes("%2d" + rest) == "-" + NormalizeEscapes(rest)
    ensures NormalizeEscapes("%2f" + rest) == "%2F" + NormalizeEscapes(rest)
    ensures NormalizeEscapes("%c3" + rest) == "%C3" + NormalizeEscapes(rest)
    ensures NormalizeEscapes("%3A" + rest) == "%3A" + NormalizeEscapes(rest)
  {
    assert ("%41" + rest)[3..] == rest && ("%7e" + rest)[3..] == rest && ("%2d" + rest)[3..] == rest;
    assert ("%2f" + rest)[3..] == rest && ("%c3" + rest)[3..] == rest && ("%3A" + rest)[3..] == rest;
    EscapesByValue();
    hide NormalizeEscapes;
    EscapeFirst("%41" + rest);
    EscapeFirst("%7e" + rest);
    EscapeFirst("%2d" + rest);
    EscapeFirst("%2f" + rest);
    EscapeFirst("%c3" + rest);
    EscapeFirst("%3A" + rest);
  }

  lemma EscapeFirst(s: string)
    requires StartsEscape(s)
    ensures NormalizeEscapes(s) == NormalEscape(s) + NormalizeEscapes(s[3..])
  {
  }

  lemma EscapesByValue()
    ensures 0x41 as char == 'A' && 0x7e as char == '~' && 0x2d as char == '-'
  {
  }

  /** Everything else stays as it is. */
  lemma OthersStay(c: char, rest: string)
    ensures c != '%' ==> NormalizeEscapes([c] + rest) == [c] + NormalizeEscapes(rest)
  {
    TailOfCons(c, rest);
  }

  // ---------- Dot segments ----------

  function OrRoot(tail: string): string {
    if tail == "" then "/" else tail
  }

  /** A `.` segment vanishes. */
  lemma DotVanishes(tail: string, output: string)
    requires tail == "" || tail[0] == '/'
    ensures RemoveDotSegments("/." + tail, output) == RemoveDotSegments(OrRoot(tail), output)
  {
    var input := "/." + tail;
    Prefixes(input);
    assert input[1] == '.';
    if tail == "" {
      assert input == "/.";
    } else {
      assert "/" + input[3..] == tail;
    }
  }

  /** A `..` segment takes the last segment of the output with it. */
  lemma DotsDrop(tail: string, output: string)
    requires tail == "" || tail[0] == '/'
    ensures RemoveDotSegments("/.." + tail, output) == RemoveDotSegments(OrRoot(tail), DropLastSegment(output))
  {
    var input := "/.." + tail;
    Prefixes(input);
    assert input[1] == '.' && input[2] == '.';
    if tail == "" {
      assert input == "/..";
    } else {
      assert "/" + input[4..] == tail;
      assert input != "/.";
    }
  }

  lemma {:induction false} LastSegmentDrops(output: string, segment: string)
    requires '/' !in segment
    ensures DropLastSegment(output + "/" + segment) == output
    decreases |segment|
  {
    var s := output + "/" + segment;
    if segment == "" {
      assert s[|s| - 1] == '/' && s[..|s| - 1] == output;
    } else {
      var n := |segment| - 1;
      assert s[|s| - 1] == segment[n] && s[..|s| - 1] == output + "/" + segment[..n];
      LastSegmentDrops(output, segment[..n]);
    }
  }

  /** So a segment and the `..` behind it cancel. */
  lemma SegmentAndDotsCancel(segment: string, tail: string, output: string)
    requires segment != "" && '/' !in segment && !IsDot(segment) && (tail == "" || tail[0] == '/')
    ensures RemoveDotSegments("/" + segment + ("/.." + tail), output) == RemoveDotSegments(OrRoot(tail), output)
  {
    FirstSegment(segment, "/.." + tail, output);
    DotsDrop(tail, output + "/" + segment);
    LastSegmentDrops(output, segment);
  }

  /** Leading dots of a relative path are dropped, and a path of dots alone is empty. */
  lemma RelativeDotsDrop(rest: string, output: string)
    ensures RemoveDotSegments("../" + rest, output) == RemoveDotSegments(rest, output)
    ensures RemoveDotSegments("./" + rest, output) == RemoveDotSegments(rest, output)
    ensures RemoveDotSegments(".", output) == RemoveDotSegments("..", output) == output
  {
    assert ("../" + rest)[..3] == "../" && ("../" + rest)[3..] == rest;
    assert ("./" + rest)[..2] == "./" && ("./" + rest)[2..] == rest && ("./" + rest)[1] == '/';
  }

  // ---------- The whole identifier ----------

  /** Scheme and authority go to lowercase, the path is normalized; text without `://` stays. */
  lemma PartsNormalized(name: string, authority: string, path: string)
    requires ':' !in name && '/' !in authority && (path == "" || path[0] == '/')
    ensures Normalize(name + "://" + authority + path) == Lower(name) + "://" + Lower(authority) + NormalizePath(path)
    ensures Normalize(name) == name
  {
    AuthorityEnds(authority, path);
    IndexOfIsFirst(name, ':');
    hide NormalizePath, AuthorityLen, Lower, StartsWith;
    SpellSlices(name, authority, path);
  }
}
