/** How `parse` and `format` fit together: what `parse` produces is always
    well-formed and normalised, and `parse` reads back from `format`'s output
    the normalised archive it was given, provided that archive is well-formed. */
module TxtarRoundTrip {
  import opened JsString
  import opened Txtar

  /** An archive `format` can write so that `parse` reads it back: no line of the
      comment or of any file's data begins with a marker, and every name is
      non-empty, its own trim and free of newlines. */
  predicate WellFormed(a: Archive) {
    && NoMarkerLines(a.comment)
    && forall i :: 0 <= i < |a.files| ==> ValidName(a.files[i].name) && NoMarkerLines(a.files[i].data)
  }

  /** The files with their data newline-normalised, as `format` writes them. */
  function NormalizedFiles(files: seq<File>): (r: seq<File>)
    ensures |r| == |files|
  {
    if files == [] then []
    else [File(files[0].name, FixNL(files[0].data))] + NormalizedFiles(files[1..])
  }

  /** Each normalised file keeps its name and has its data newline-normalised. */
  lemma {:induction false} NormalizedFilesAt(files: seq<File>, i: nat)
    requires i < |files|
    ensures NormalizedFiles(files)[i] == File(files[i].name, FixNL(files[i].data))
  {
    if i > 0 {
      NormalizedFilesAt(files[1..], i - 1);
      assert files[1..][i - 1] == files[i];
    }
  }

  /** The archive with its comment and every file's data newline-normalised. */
  function Normalized(a: Archive): Archive {
    Archive(FixNL(a.comment), NormalizedFiles(a.files))
  }

  /** Normalised files are left alone by normalising again. */
  lemma {:induction false} NormalizedFilesIdempotent(files: seq<File>)
    requires forall i :: 0 <= i < |files| ==> NewlineTerminated(files[i].data)
    ensures NormalizedFiles(files) == files
  {
    if files != [] {
      NormalizedFilesIdempotent(files[1..]);
      assert files == [files[0]] + files[1..];
    }
  }

  // ---------------------------------------------------------------------------
  // Reading the marker lines `format` writes

  /** Right after normalised text without marker lines, a written marker line is the
      first marker the scan finds: the text before it comes back as `before`, the
      name as `name` and whatever follows the line as `after`. */
  lemma MarkerSplitAtMarkerLine(d: string, name: string, rest: string)
    requires NoMarkerLines(d) && ValidName(name)
    ensures MarkerSplit(FixNL(d) + MarkerLine(name) + rest) == Split(FixNL(d), name, rest)
  {
    var p := FixNL(d);
    var tail := MarkerLine(name) + rest;
    var data := p + tail;
    Assoc(p, MarkerLine(name), rest);
    NoMarkerLinesFixNL(d);
    assert data[..|p|] == p;
    assert data[|p|..] == tail;
    var marks := MarkerStarts(data);
    forall k | 0 <= k < |p| ensures !marks[k] {
      MarkerStartsAt(data, k);
      if LineStart(data, k) {
        assert LineStart(p, k);
        LineBeforeMarker(data, k, |p|);
        IsMarkerAppend(p[k..], tail);
      }
    }
    IsMarkerOfMarkerLine(name, rest);
    MarkerStartsAt(data, |p|);
    FirstTrueSkip(marks, 0, |p|);
  }

  /** Normalised text without marker lines is read as one final part: no marker,
      `before` the text itself. */
  lemma MarkerSplitNoMarker(d: string)
    requires NoMarkerLines(d)
    ensures MarkerSplit(FixNL(d)) == Split(FixNL(d), "", "")
  {
    NoMarkerLinesFixNL(d);
    FirstMarkerNone(FixNL(d));
  }

  /** After a written marker line for `name` and normalised data `d`, `parse`
      collects exactly that file followed by the files `format` wrote after it. */
  lemma {:induction false} ParseFilesFormat(name: string, d: string, files: seq<File>)
    requires ValidName(name) && NoMarkerLines(d)
    requires forall i :: 0 <= i < |files| ==> ValidName(files[i].name) && NoMarkerLines(files[i].data)
    ensures ParseFiles(name, FixNL(d) + FormatFiles(files))
      == [File(name, FixNL(d))] + NormalizedFiles(files)
    decreases |files|
  {
    var after := FixNL(d) + FormatFiles(files);
    if files == [] {
      assert after == FixNL(d);
      MarkerSplitNoMarker(d);
    } else {
      var f := files[0];
      var rest := FixNL(f.data) + FormatFiles(files[1..]);
      Assoc(FixNL(d), MarkerLine(f.name) + FixNL(f.data), FormatFiles(files[1..]));
      Assoc(MarkerLine(f.name), FixNL(f.data), FormatFiles(files[1..]));
      Assoc(FixNL(d), MarkerLine(f.name), rest);
      assert after == FixNL(d) + MarkerLine(f.name) + rest;
      MarkerSplitAtMarkerLine(d, f.name, rest);
      ParseFilesFormat(f.name, f.data, files[1..]);
    }
  }

  /** Round trip: `parse` reads back from `format`'s output the archive it was given,
      with the comment and the data normalised, whenever the archive is
      well-formed. */
  lemma RoundTrip(a: Archive)
    requires WellFormed(a)
    ensures Parsed(Formatted(a)) == Normalized(a)
  {
    var data := Formatted(a);
    if a.files == [] {
      assert data == FixNL(a.comment);
      MarkerSplitNoMarker(a.comment);
    } else {
      var f := a.files[0];
      var rest := FixNL(f.data) + FormatFiles(a.files[1..]);
      Assoc(FixNL(a.comment), MarkerLine(f.name) + FixNL(f.data), FormatFiles(a.files[1..]));
      Assoc(MarkerLine(f.name), FixNL(f.data), FormatFiles(a.files[1..]));
      Assoc(FixNL(a.comment), MarkerLine(f.name), rest);
      assert data == FixNL(a.comment) + MarkerLine(f.name) + rest;
      MarkerSplitAtMarkerLine(a.comment, f.name, rest);
      ParseFilesFormat(f.name, f.data, a.files[1..]);
    }
  }

  /** An archive whose comment and data are already normalised comes back
      unchanged. */
  lemma RoundTripExact(a: Archive)
    requires WellFormed(a) && NewlineTerminated(a.comment)
    requires forall i :: 0 <= i < |a.files| ==> NewlineTerminated(a.files[i].data)
    ensures Parsed(Formatted(a)) == a
  {
    RoundTrip(a);
    NormalizedFilesIdempotent(a.files);
  }

  // ---------------------------------------------------------------------------
  // What `parse` produces

  /** A file as `parse` produces it: a valid name, and data that is
      newline-terminated and holds no marker line. */
  predicate ParsedFile(f: File) {
    ValidName(f.name) && NewlineTerminated(f.data) && NoMarkerLines(f.data)
  }

  /** Every file is as `parse` produces it. */
  predicate AllParsed(files: seq<File>) {
    forall i :: 0 <= i < |files| ==> ParsedFile(files[i])
  }

  /** A file in front of files that are all as `parse` produces them. */
  lemma ParsedFilesCons(f: File, files: seq<File>)
    requires ParsedFile(f) && AllParsed(files)
    ensures AllParsed([f] + files)
  {
    forall i | 0 <= i < |files| + 1 ensures ParsedFile(([f] + files)[i]) {
      if i > 0 {
        assert ([f] + files)[i] == files[i - 1];
      }
    }
  }

  /** What `findFileMarker` returns as `before`, together with the name it found,
      makes a file as `parse` produces it. */
  lemma MarkerSplitParsedFile(name: string, after: string)
    requires ValidName(name)
    ensures ParsedFile(File(name, MarkerSplit(after).before))
    ensures var next := MarkerSplit(after); next.name == [] || ValidName(next.name)
  {
    MarkerSplitBefore(after);
    if MarkerSplit(after).name != [] {
      MarkerSplitFound(after);
    }
  }

  /** Every file `parse` collects has a valid name, and data that is
      newline-terminated and holds no marker line. */
  lemma {:induction false} ParseFilesValid(name: string, after: string)
    requires name == [] || ValidName(name)
    ensures AllParsed(ParseFiles(name, after))
    decreases |after|, |name|
  {
    if name != [] {
      var next := MarkerSplit(after);
      MarkerSplitParsedFile(name, after);
      var rest := ParseFiles(next.name, next.after);
      ParseFilesValid(next.name, next.after);
      ParsedFilesCons(File(name, next.before), rest);
      assert ParseFiles(name, after) == [File(name, next.before)] + rest;
    }
  }

  /** `parse` always yields a well-formed archive whose comment and data are
      newline-terminated. */
  lemma ParsedWellFormed(s: string)
    ensures WellFormed(Parsed(s))
    ensures NewlineTerminated(Parsed(s).comment)
    ensures forall i :: 0 <= i < |Parsed(s).files| ==> NewlineTerminated(Parsed(s).files[i].data)
  {
    var first := MarkerSplit(s);
    MarkerSplitBefore(s);
    if first.name != [] {
      MarkerSplitFound(s);
    }
    ParseFilesValid(first.name, first.after);
  }

  /** `parse` finds no file exactly when no line of the text begins with a marker,
      and then the whole text, newline-normalised, is the comment. */
  lemma ParsedNoFiles(s: string)
    ensures Parsed(s).files == [] <==> NoMarkerLines(s)
    ensures NoMarkerLines(s) ==> Parsed(s) == Archive(FixNL(s), [])
  {
    FirstMarkerNone(s);
    if MarkerSplit(s).name == [] {
      MarkerSplitNotFound(s);
    }
  }

  /** Text that begins with a marker line has an empty comment, and its first file
      has that marker's name. */
  lemma ParsedMarkerFirst(s: string)
    requires IsMarker(s).Some?
    ensures MarkerSplit(s) == Split("", IsMarker(s).value.name, IsMarker(s).value.after)
    ensures Parsed(s).comment == ""
    ensures Parsed(s).files != [] && Parsed(s).files[0].name == IsMarker(s).value.name
  {
    MarkerStartsAt(s, 0);
    assert s[0..] == s;
    IsMarkerName(s);
  }

  /** Formatting what `parse` produced and parsing that again gives the same archive:
      `parse` is a fixed point of the round trip. */
  lemma ParseFormatParse(s: string)
    ensures Parsed(Formatted(Parsed(s))) == Parsed(s)
  {
    ParsedWellFormed(s);
    RoundTripExact(Parsed(s));
  }

  /** Formatting, parsing and formatting again gives the text of the first format:
      for a well-formed archive, formatting is idempotent through `parse`. */
  lemma FormatParseFormat(a: Archive)
    requires WellFormed(a)
    ensures Formatted(Parsed(Formatted(a))) == Formatted(a)
  {
    RoundTrip(a);
    FormatNormalized(a);
  }

  /** Normalising an archive first does not change what `format` writes. */
  lemma FormatNormalized(a: Archive)
    ensures Formatted(Normalized(a)) == Formatted(a)
  {
    FormatFilesNormalized(a.files);
  }

  lemma {:induction false} FormatFilesNormalized(files: seq<File>)
    ensures FormatFiles(NormalizedFiles(files)) == FormatFiles(files)
  {
    if files != [] {
      FormatFilesNormalized(files[1..]);
      var n := NormalizedFiles(files);
      assert n[0] == File(files[0].name, FixNL(files[0].data));
      assert n[1..] == NormalizedFiles(files[1..]);
      FixNLIdempotent(files[0].data);
    }
  }
}
