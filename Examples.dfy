/** Concrete archives and texts: the behaviour the txtar format promises on small
    inputs, and an archive that meets `format`'s documented assumption yet does
    not come back from `parse`. */
module TxtarExamples {
  import opened JsString
  import opened Txtar
  import opened TxtarRoundTrip

  // ---------------------------------------------------------------------------
  // Building up texts without marker lines, line by line

  /** A text that does not begin with a dash does not begin with a marker. */
  lemma NoDashNoMarker(s: string)
    requires s == [] || s[0] != '-'
    ensures IsMarker(s).None?
  {
    if |s| >= |MarkerStart| {
      assert s[..|MarkerStart|][0] == s[0];
    }
  }

  /** Inside a line there is no line start. */
  lemma NoLineStartInLine(line: string, rest: string, k: int)
    requires '\n' !in line && 0 < k <= |line|
    ensures !LineStart(line + rest, k)
  {
    assert (line + rest)[k - 1] == line[k - 1];
  }

  /** A last line without a newline and without a marker makes a text without
      marker lines. */
  lemma NoMarkerLinesLast(line: string)
    requires '\n' !in line && IsMarker(line).None?
    ensures NoMarkerLines(line)
  {
    forall k | 0 < k <= |line| ensures !LineStart(line, k) {
      NoLineStartInLine(line, [], k);
      assert line + [] == line;
    }
  }

  /** A line that is not a marker, in front of a text without marker lines, keeps
      the text free of marker lines. */
  lemma NoMarkerLinesCons(line: string, rest: string)
    requires '\n' !in line && IsMarker(line + "\n" + rest).None? && NoMarkerLines(rest)
    ensures NoMarkerLines(line + "\n" + rest)
  {
    var s := line + "\n" + rest;
    var n := |line| + 1;
    assert s == line + ("\n" + rest);
    forall k | 0 < k <= |line| ensures !LineStart(s, k) {
      NoLineStartInLine(line, "\n" + rest, k);
    }
    forall k | n <= k <= |s| && LineStart(s, k) ensures IsMarker(s[k..]).None? {
      assert s[k..] == rest[k - n..];
      if k > n {
        assert s[k - 1] == rest[k - n - 1];
      }
    }
  }

  /** The empty text holds no marker line. */
  lemma NoMarkerLinesEmpty()
    ensures NoMarkerLines("")
  {
    NoDashNoMarker("");
  }

  // ---------------------------------------------------------------------------
  // format

  /** A comment gets its missing final newline; one that has it is left alone. */
  lemma FormatCommentOnly()
    ensures Formatted(Archive("x", [])) == "x\n"
    ensures Formatted(Archive("x\n", [])) == "x\n"
  {
  }

  // ---------------------------------------------------------------------------
  // parse

  /** The empty text is the empty archive. */
  lemma ParseEmpty()
    ensures Parsed("") == Archive("", [])
  {
    NoMarkerLinesEmpty();
    FirstMarkerNone("");
  }

  /** Text without markers is all comment. */
  lemma ParseNoMarkers()
    ensures Parsed("hello\nworld\n") == Archive("hello\nworld\n", [])
  {
    NoMarkerLinesEmpty();
    NoDashNoMarker("world\n");
    assert "world" + "\n" + "" == "world\n";
    NoMarkerLinesCons("world", "");
    NoDashNoMarker("hello\nworld\n");
    assert "hello" + "\n" + "world\n" == "hello\nworld\n";
    NoMarkerLinesCons("hello", "world\n");
    ParsedNoFiles("hello\nworld\n");
  }

  /** A valid one-character name. */
  lemma ValidNameA(c: char)
    requires !IsWhitespace(c) && c != '\n'
    ensures ValidName([c])
  {
  }

  /** A single line without a newline that does not begin with a dash holds no
      marker line. */
  lemma NoMarkerLinesOneLine(line: string)
    requires '\n' !in line && (line == [] || line[0] != '-')
    ensures NoMarkerLines(line)
  {
    NoDashNoMarker(line);
    NoMarkerLinesLast(line);
  }

  /** A last file whose data lacks its final newline gets one. */
  lemma ParseSingleFile()
    ensures Parsed("-- a --\ndata") == Archive("", [File("a", "data\n")])
  {
    ValidNameA('a');
    NoMarkerLinesOneLine("data");
    ParseOneFile("-- a --\ndata", "a", "data", "data\n");
  }

  /** A marker line for a valid name followed by text `d` without marker lines is
      one file whose data is `d` newline-normalised (given here as `nd`). */
  lemma ParseOneFile(s: string, name: string, d: string, nd: string)
    requires ValidName(name) && NoMarkerLines(d)
    requires s == MarkerLine(name) + d && nd == FixNL(d)
    ensures Parsed(s) == Archive("", [File(name, nd)])
  {
    NoMarkerLinesEmpty();
    assert FixNL("") + MarkerLine(name) + d == s;
    MarkerSplitAtMarkerLine("", name, d);
    MarkerSplitNotFound(d);
  }

  /** Two files, each with newline-terminated data, come back in order. */
  lemma ParseTwoFiles()
    ensures Parsed("-- a --\nA\n-- b --\nB\n")
      == Archive("", [File("a", "A\n"), File("b", "B\n")])
  {
    TwoFilesWellFormed();
    FormatTwoFiles();
    ParseFormatted("-- a --\nA\n-- b --\nB\n", Archive("", [File("a", "A\n"), File("b", "B\n")]));
  }

  /** The two-file archive meets the round trip's assumption and is normalised. */
  lemma TwoFilesWellFormed()
    ensures var a := Archive("", [File("a", "A\n"), File("b", "B\n")]);
      && WellFormed(a) && NewlineTerminated(a.comment)
      && forall i :: 0 <= i < |a.files| ==> NewlineTerminated(a.files[i].data)
  {
    NoMarkerLinesEmpty();
    NoDashNoMarker("A\n");
    NoMarkerLinesCons("A", "");
    NoDashNoMarker("B\n");
    NoMarkerLinesCons("B", "");
    ValidNameA('a');
    ValidNameA('b');
  }

  /** Each file is written as its marker line followed by its data. */
  lemma FormatTwoFiles()
    ensures Formatted(Archive("", [File("a", "A\n"), File("b", "B\n")])) == "-- a --\nA\n-- b --\nB\n"
  {
  }

  /** A text that is what `format` writes for a well-formed, normalised archive is
      read back as that archive. */
  lemma ParseFormatted(s: string, a: Archive)
    requires WellFormed(a) && NewlineTerminated(a.comment)
    requires forall i :: 0 <= i < |a.files| ==> NewlineTerminated(a.files[i].data)
    requires s == Formatted(a)
    ensures Parsed(s) == a
  {
    RoundTripExact(a);
  }

  /** The line `--  --` has a blank interior, so it is no marker. */
  lemma BlankNameNoMarker(rest: string)
    ensures IsMarker("--  --" + "\n" + rest).None?
  {
    var line := "--  --";
    var s := line + "\n" + rest;
    assert s == line + ("\n" + rest);
    FirstLineUnique(s, line);
    IsMarkerByFirstLine(s);
    assert Interior(line) == "";
  }

  /** `-- --` starts with `-- ` and ends with ` --`, but is one character short of
      holding both, so it is no marker; neither is a line without the closing
      ` --`. */
  lemma ShortMarkerRejected(rest: string)
    ensures IsMarker("-- --" + "\n" + rest).None?
    ensures IsMarker("-- a" + "\n" + rest).None?
  {
    LineNoMarker("-- --", rest);
    LineNoMarker("-- a", rest);
  }

  /** A line that fails one of the checks on the first line is no marker, whatever
      follows it. */
  lemma LineNoMarker(line: string, rest: string)
    requires '\n' !in line
    requires !EndsWith(line, MarkerEnd) || |line| < |MarkerStart| + |MarkerEnd|
    ensures IsMarker(line + "\n" + rest).None?
  {
    var s := line + "\n" + rest;
    assert s == line + ("\n" + rest);
    FirstLineUnique(s, line);
    IsMarkerIff(s);
  }

  /** A marker line whose name trims to nothing is ordinary text. */
  lemma ParseEmptyName()
    ensures Parsed("--  --\nbody\n") == Archive("--  --\nbody\n", [])
  {
    NoMarkerLinesEmpty();
    NoDashNoMarker("body\n");
    assert "body" + "\n" + "" == "body\n";
    NoMarkerLinesCons("body", "");
    BlankNameNoMarker("body\n");
    assert "--  --" + "\n" + "body\n" == "--  --\nbody\n";
    NoMarkerLinesCons("--  --", "body\n");
    ParsedNoFiles("--  --\nbody\n");
  }

  /** A marker in the middle of a line is not a marker. */
  lemma ParseMidLineMarker()
    ensures Parsed("foo -- x --\n") == Archive("foo -- x --\n", [])
  {
    NoMarkerLinesEmpty();
    NoDashNoMarker("foo -- x --\n");
    assert "foo -- x --" + "\n" + "" == "foo -- x --\n";
    NoMarkerLinesCons("foo -- x --", "");
    ParsedNoFiles("foo -- x --\n");
  }

  // ---------------------------------------------------------------------------
  // The assumption `format` documents

  /** What the documentation of `format` assumes of an archive: no marker line in
      the comment or in any file's data, and every name non-empty. */
  predicate DocumentedWellFormed(a: Archive) {
    && NoMarkerLines(a.comment)
    && forall i :: 0 <= i < |a.files| ==> a.files[i].name != [] && NoMarkerLines(a.files[i].data)
  }

  /** Every archive that satisfies the stronger assumption of the round trip also
      satisfies the documented one. */
  lemma WellFormedIsDocumented(a: Archive)
    requires WellFormed(a)
    ensures DocumentedWellFormed(a)
  {
  }

  /** A name with a leading blank meets the documented assumption, but `parse`
      reads it back trimmed, so the round trip loses it. */
  lemma DocumentedAssumptionTooWeak()
    ensures var a := Archive("", [File(" a", "")]);
      && DocumentedWellFormed(a)
      && Parsed(Formatted(a)).files != [] && Parsed(Formatted(a)).files[0].name == "a"
      && Parsed(Formatted(a)) != Normalized(a)
  {
    var a := Archive("", [File(" a", "")]);
    NoMarkerLinesEmpty();
    assert Formatted(a) == MarkerLine(" a") + "";
    assert Trim(" a") == "a";
    IsMarkerOfMarkerLineTrimmed(" a", "");
    ParsedMarkerFirst(Formatted(a));
    assert Normalized(a).files[0].name == " a";
  }
}
