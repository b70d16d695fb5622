/** The txtar archive codec of txtar-js/index.ts: a comment followed by files, each
    introduced by a marker line `-- name --`. */
module Txtar {
  import opened JsString

  datatype Option<T> = None | Some(value: T)

  /** A single file in an archive. */
  datatype File = File(name: string, data: string)

  /** An archive: a free-form comment and its files, in order. */
  datatype Archive = Archive(comment: string, files: seq<File>)

  /** What `isMarker` finds: the name on a marker line and the text after that line. */
  datatype Marker = Marker(name: string, after: string)

  /** What `findFileMarker` returns: the text before the next marker line, its name
      (empty when there is none) and the text after it. */
  datatype Split = Split(before: string, name: string, after: string)

  const MarkerStart: string := "-- "
  const MarkerEnd: string := " --"
  const NewlineMarker: string := "\n-- "

  // ---------------------------------------------------------------------------
  // Lines

  /** `s` is empty or ends in a newline. */
  predicate NewlineTerminated(s: string) {
    s == [] || s[|s| - 1] == '\n'
  }

  /** A line of `s` starts at index `k`: the very start, or just after a newline. */
  predicate LineStart(s: string, k: int) {
    k == 0 || (0 < k <= |s| && s[k - 1] == '\n')
  }

  /** The text of `s` up to, not including, its first newline. */
  function FirstLine(s: string): (r: string)
    ensures |r| <= |s| && r == s[..|r|]
    ensures '\n' !in r
    ensures |r| < |s| ==> s[|r|] == '\n'
  {
    if s == [] || s[0] == '\n' then [] else [s[0]] + FirstLine(s[1..])
  }

  /** The first line is the only prefix without a newline that is followed by a
      newline or by the end of `s`. */
  lemma FirstLineUnique(s: string, line: string)
    requires |line| <= |s| && line == s[..|line|] && '\n' !in line
    requires |line| < |s| ==> s[|line|] == '\n'
    ensures FirstLine(s) == line
  {
  }

  /** Text appended after the end of the first line does not change it. */
  lemma FirstLineAppend(s: string, t: string)
    requires '\n' in s || (t != [] && t[0] == '\n')
    ensures FirstLine(s + t) == FirstLine(s)
    ensures '\n' in s ==> |FirstLine(s)| < |s|
  {
    var r := FirstLine(s);
    if |r| == |s| {
      assert r == s;
    }
    FirstLineUnique(s + t, r);
  }

  /** The text after the newline that ends the first line; empty without one. */
  function AfterFirstLine(s: string): string {
    if |FirstLine(s)| < |s| then s[|FirstLine(s)| + 1..] else []
  }

  /** `s` is its first line, the newline ending it when there is one, and the rest. */
  lemma FirstLineSplits(s: string)
    ensures var line := FirstLine(s);
      s == line + (if |line| < |s| then "\n" else "") + AfterFirstLine(s)
  {
    var line := FirstLine(s);
    if |line| < |s| {
      SplitAround(s, |line|);
    } else {
      assert line + "" + [] == s;
    }
  }

  /** `s` is what comes before index `n`, the character at `n`, and what follows. */
  lemma SplitAround(s: string, n: nat)
    requires n < |s|
    ensures s == s[..n] + [s[n]] + s[n + 1..]
  {
  }
  /** `a + (b + c) == a + b + c`, for splitting and joining texts. */
  lemma Assoc(a: string, b: string, c: string)
    ensures a + (b + c) == a + b + c
  {
  }


  // ---------------------------------------------------------------------------
  // fixNL

  /** `fixNL`: `data` itself when empty or newline-terminated, otherwise `data`
      with one newline added. */
  function FixNL(data: string): (r: string)
    ensures NewlineTerminated(r)
    ensures |r| <= |data| + 1 && data <= r
    ensures NewlineTerminated(data) ==> r == data
  {
    if data == [] || data[|data| - 1] == '\n' then data else data + "\n"
  }

  /** Normalising twice is normalising once. */
  lemma FixNLIdempotent(s: string)
    ensures FixNL(FixNL(s)) == FixNL(s)
  {
  }

  // ---------------------------------------------------------------------------
  // isMarker

  /** `isMarker`: whether `data` begins with a marker line; if so, the trimmed name
      between `-- ` and ` --` and the text after the line's newline. */
  function IsMarker(data: string): Option<Marker> {
    if !StartsWith(data, MarkerStart) then None
    else
      var i := IndexOf(data, "\n");
      var line := if i > 0 then data[..i] else data;
      var after := if i > 0 then data[i + 1..] else "";
      NamedMarker(line, after)
  }

  /** The second half of `isMarker`, once the line and the text after it are cut
      out: the line must end with ` --` and be at least six characters long, and
      the trimmed text between `-- ` and ` --` must not be empty. */
  function NamedMarker(line: string, after: string): Option<Marker> {
    if !EndsWith(line, MarkerEnd) || |line| < |MarkerStart| + |MarkerEnd| then None
    else
      var name := Trim(line[|MarkerStart|..|line| - |MarkerEnd|]);
      if name == "" then None else Some(Marker(name, after))
  }

  /** The interior of a marker line: the text between `-- ` and ` --`. */
  function Interior(line: string): string
    requires |line| >= |MarkerStart| + |MarkerEnd|
  {
    line[|MarkerStart|..|line| - |MarkerEnd|]
  }

  /** Searching for `"\n"` finds the end of the first line. */
  lemma IndexOfNewline(s: string)
    ensures var i := IndexOf(s, "\n");
      if i >= 0 then i == |FirstLine(s)| < |s| else FirstLine(s) == s
  {
    IndexOfFirst(s, "\n");
    forall k | 0 <= k < |s| ensures OccursAt(s, "\n", k) <==> s[k] == '\n' {
      assert s[k..k + 1] == [s[k]];
    }
  }

  /** `isMarker` decides on the first line alone, whichever way the line is cut out:
      the newline it searches for ends the first line. */
  lemma IsMarkerByFirstLine(data: string)
    ensures IsMarker(data) == MarkerOfLine(FirstLine(data), AfterFirstLine(data))
  {
    var line := FirstLine(data);
    if StartsWith(data, MarkerStart) {
      MarkerBeginsLine(data);
      var i := IndexOf(data, "\n");
      assert (if i > 0 then data[..i] else data) == line;
      assert (if i > 0 then data[i + 1..] else "") == AfterFirstLine(data);
    } else {
      PrefixStartsWith(data, line, MarkerStart);
    }
  }

  /** A prefix of `s` that starts with `p` makes `s` start with `p`. */
  lemma PrefixStartsWith(s: string, t: string, p: string)
    requires t <= s
    ensures StartsWith(t, p) ==> StartsWith(s, p)
  {
    if StartsWith(t, p) {
      assert s[..|p|] == t[..|p|];
    }
  }

  /** The marker a single line stands for, with `after` the text that follows it. */
  function MarkerOfLine(line: string, after: string): Option<Marker> {
    if !StartsWith(line, MarkerStart) then None else NamedMarker(line, after)
  }

  /** `data` begins with a marker exactly when it starts with `-- ` and its first
      line ends with ` --`, is at least six characters long and has an interior
      that does not trim to nothing; then the name is that interior trimmed, and
      `after` is what follows the first newline (empty without one). */
  lemma IsMarkerIff(data: string)
    ensures var line := FirstLine(data);
      IsMarker(data).Some? <==>
        && StartsWith(data, MarkerStart) && EndsWith(line, MarkerEnd)
        && |line| >= |MarkerStart| + |MarkerEnd| && Trim(Interior(line)) != []
    ensures var line := FirstLine(data);
      IsMarker(data).Some? ==> IsMarker(data).value == Marker(Trim(Interior(line)), AfterFirstLine(data))
  {
    IsMarkerByFirstLine(data);
    if StartsWith(data, MarkerStart) {
      MarkerBeginsLine(data);
    } else {
      PrefixStartsWith(data, FirstLine(data), MarkerStart);
    }
  }

  /** On input that starts with `-- `, the line and the text after it that `isMarker`
      cuts out at the first newline are the first line and what follows it. */
  lemma MarkerBeginsLine(data: string)
    requires StartsWith(data, MarkerStart)
    ensures var i := IndexOf(data, "\n");
      && (if i > 0 then data[..i] else data) == FirstLine(data)
      && (if i > 0 then data[i + 1..] else "") == AfterFirstLine(data)
    ensures StartsWith(FirstLine(data), MarkerStart)
  {
    FirstLineKeepsPrefix(data, MarkerStart);
    IndexOfNewline(data);
  }

  /** A newline-free prefix of `s` is also a prefix of its first line. */
  lemma FirstLineKeepsPrefix(s: string, p: string)
    requires StartsWith(s, p) && '\n' !in p
    ensures StartsWith(FirstLine(s), p)
  {
    var line := FirstLine(s);
    assert forall k :: 0 <= k < |p| ==> s[k] == p[k] && s[k] != '\n';
    assert |line| >= |p|;
    assert line[..|p|] == s[..|p|];
  }

  /** A recognised name is non-empty, its own trim and free of newlines, and the
      marker line is at least six characters long. */
  lemma IsMarkerName(data: string)
    requires IsMarker(data).Some?
    ensures ValidName(IsMarker(data).value.name)
    ensures |IsMarker(data).value.after| + |MarkerStart| + |MarkerEnd| <= |data|
  {
    IsMarkerByFirstLine(data);
    MarkerOfLineName(FirstLine(data), AfterFirstLine(data));
  }

  /** The name a marker line without newlines yields is valid, and the line holds
      at least `-- ` and ` --`. */
  lemma MarkerOfLineName(line: string, after: string)
    requires '\n' !in line && MarkerOfLine(line, after).Some?
    ensures ValidName(MarkerOfLine(line, after).value.name)
    ensures |line| >= |MarkerStart| + |MarkerEnd|
  {
    var inner := Interior(line);
    TrimIdempotent(inner);
    TrimWithin(inner);
    forall c | c in inner ensures c in line {
      var k :| 0 <= k < |inner| && inner[k] == c;
      assert line[|MarkerStart| + k] == c;
    }
  }

  /** A marker begins with `-- `. */
  lemma IsMarkerStart(data: string)
    requires IsMarker(data).Some?
    ensures StartsWith(data, MarkerStart)
  {
  }

  /** `data` is `before` the marker line, the marker line itself, its newline when it
      has one, and `after`. */
  lemma IsMarkerDecomposes(data: string)
    requires IsMarker(data).Some?
    ensures var line := FirstLine(data);
      data == line + (if |line| < |data| then "\n" else "") + IsMarker(data).value.after
  {
    IsMarkerByFirstLine(data);
    FirstLineSplits(data);
  }

  /** Two inputs with the same first line agree on whether they begin with a marker,
      and on its name. */
  lemma IsMarkerSameLine(s: string, t: string)
    requires FirstLine(s) == FirstLine(t)
    ensures IsMarker(s).Some? <==> IsMarker(t).Some?
    ensures IsMarker(s).Some? ==> IsMarker(s).value.name == IsMarker(t).value.name
  {
    IsMarkerByFirstLine(s);
    IsMarkerByFirstLine(t);
  }

  /** When `s` already holds a newline, appending text only extends `after`. */
  lemma IsMarkerAppend(s: string, t: string)
    requires '\n' in s
    ensures IsMarker(s + t)
      == match IsMarker(s)
         case None => None
         case Some(m) => Some(Marker(m.name, m.after + t))
  {
    AfterFirstLineAppend(s, t);
    IsMarkerByFirstLine(s);
    IsMarkerByFirstLine(s + t);
  }

  /** When `s` already holds a newline, appending text to it extends only what
      follows its first line. */
  lemma AfterFirstLineAppend(s: string, t: string)
    requires '\n' in s
    ensures FirstLine(s + t) == FirstLine(s)
    ensures AfterFirstLine(s + t) == AfterFirstLine(s) + t
  {
    FirstLineAppend(s, t);
    var n := |FirstLine(s)| + 1;
    assert (s + t)[n..] == s[n..] + t;
  }

  /** The line `format` writes for a file. */
  function MarkerLine(name: string): string {
    MarkerStart + name + MarkerEnd + "\n"
  }

  /** A name `format` can write so that `parse` reads it back. */
  predicate ValidName(name: string) {
    name != [] && Trim(name) == name && '\n' !in name
  }

  /** The first line of a written marker line is the line without its newline,
      and what follows it is the text after the newline. */
  lemma MarkerLineFirstLine(name: string, rest: string)
    requires '\n' !in name
    ensures var line := MarkerStart + name + MarkerEnd;
      && FirstLine(MarkerLine(name) + rest) == line
      && AfterFirstLine(MarkerLine(name) + rest) == rest
      && StartsWith(line, MarkerStart) && EndsWith(line, MarkerEnd)
      && |line| >= |MarkerStart| + |MarkerEnd| && Interior(line) == name
  {
    var line := MarkerStart + name + MarkerEnd;
    var data := MarkerLine(name) + rest;
    assert data == line + ("\n" + rest);
    assert '\n' !in line by {
      assert forall c :: c in line ==> c in MarkerStart || c in name || c in MarkerEnd;
    }
    FirstLineUnique(data, line);
    assert data[|line| + 1..] == rest;
  }

  /** A marker line written for any newline-free name that does not trim to nothing
      is recognised, with the name trimmed, and `after` is exactly the text that
      follows the line. */
  lemma IsMarkerOfMarkerLineTrimmed(name: string, rest: string)
    requires '\n' !in name && Trim(name) != []
    ensures IsMarker(MarkerLine(name) + rest) == Some(Marker(Trim(name), rest))
  {
    MarkerLineFirstLine(name, rest);
    IsMarkerByFirstLine(MarkerLine(name) + rest);
  }

  /** A marker line written for a valid name is recognised, with that name, and
      `after` is exactly the text that follows the line. */
  lemma IsMarkerOfMarkerLine(name: string, rest: string)
    requires ValidName(name)
    ensures IsMarker(MarkerLine(name) + rest) == Some(Marker(name, rest))
  {
    IsMarkerOfMarkerLineTrimmed(name, rest);
  }

  // ---------------------------------------------------------------------------
  // The marker scanner, as a reference definition

  /** No line of `s` begins with a marker. */
  predicate NoMarkerLines(s: string) {
    forall k :: 0 <= k <= |s| && LineStart(s, k) ==> IsMarker(s[k..]).None?
  }

  /** For each position of `data`, end included: whether a line starts there and
      begins with a marker line. */
  function MarkerStarts(data: string): (m: seq<bool>)
    ensures |m| == |data| + 1
  {
    MarksFrom(data, 0)
  }

  /** The entries of `MarkerStarts(data)` from position `k` on. */
  function MarksFrom(data: string, k: nat): (m: seq<bool>)
    requires k <= |data| + 1
    ensures |m| == |data| + 1 - k
    decreases |data| + 1 - k
  {
    if k == |data| + 1 then []
    else [LineStart(data, k) && IsMarker(data[k..]).Some?] + MarksFrom(data, k + 1)
  }

  lemma {:induction false} MarksFromAt(data: string, k: nat, i: nat)
    requires k <= i <= |data|
    ensures MarksFrom(data, k)[i - k] == (LineStart(data, i) && IsMarker(data[i..]).Some?)
    decreases i - k
  {
    if k < i {
      MarksFromAt(data, k + 1, i);
    }
  }

  /** Entry `i` of the table says whether a marker line begins at `i`. */
  lemma MarkerStartsAt(data: string, i: nat)
    requires i <= |data|
    ensures MarkerStarts(data)[i] == (LineStart(data, i) && IsMarker(data[i..]).Some?)
  {
    MarksFromAt(data, 0, i);
  }

  /** The first index at or after `from` that holds `true`. */
  function FirstTrue(marks: seq<bool>, from: nat): (r: Option<nat>)
    ensures r.Some? ==> from <= r.value < |marks|
    decreases |marks| - from
  {
    if from >= |marks| then None
    else if marks[from] then Some(from)
    else FirstTrue(marks, from + 1)
  }

  /** What `FirstTrue` finds holds `true`, and nothing between `from` and it does. */
  lemma {:induction false} FirstTrueFound(marks: seq<bool>, from: nat)
    requires FirstTrue(marks, from).Some?
    ensures marks[FirstTrue(marks, from).value]
    ensures forall k :: from <= k < FirstTrue(marks, from).value ==> !marks[k]
    decreases |marks| - from
  {
    if !marks[from] {
      FirstTrueFound(marks, from + 1);
    }
  }

  /** When `FirstTrue` finds nothing, nothing from `from` on holds `true`. */
  lemma {:induction false} FirstTrueNone(marks: seq<bool>, from: nat)
    requires FirstTrue(marks, from).None?
    ensures forall k :: from <= k < |marks| ==> !marks[k]
    decreases |marks| - from
  {
    if from < |marks| {
      FirstTrueNone(marks, from + 1);
    }
  }

  /** Indices that hold `false` can be skipped over. */
  lemma {:induction false} FirstTrueSkip(marks: seq<bool>, lo: nat, hi: nat)
    requires lo <= hi <= |marks|
    requires forall k :: lo <= k < hi ==> !marks[k]
    ensures FirstTrue(marks, lo) == FirstTrue(marks, hi)
    decreases hi - lo
  {
    if lo < hi {
      FirstTrueSkip(marks, lo + 1, hi);
    }
  }

  /** The first line start of `data` that begins a marker line: a plain scan over
      every position, against which `findFileMarker` is specified. */
  function FirstMarker(data: string): (r: Option<nat>)
    ensures r.Some? ==> r.value <= |data|
  {
    FirstTrue(MarkerStarts(data), 0)
  }

  /** What the scan finds is a line start where a marker begins, and no earlier line
      start begins one. */
  lemma FirstMarkerFound(data: string)
    requires FirstMarker(data).Some?
    ensures var i := FirstMarker(data).value;
      && LineStart(data, i) && IsMarker(data[i..]).Some?
      && forall k :: 0 <= k < i && LineStart(data, k) ==> IsMarker(data[k..]).None?
  {
    var marks := MarkerStarts(data);
    FirstTrueFound(marks, 0);
    var i := FirstMarker(data).value;
    MarkerStartsAt(data, i);
    forall k | 0 <= k < i && LineStart(data, k) ensures IsMarker(data[k..]).None? {
      MarkerStartsAt(data, k);
    }
  }

  /** The scan finds nothing exactly when no line of `data` begins with a marker. */
  lemma FirstMarkerNone(data: string)
    ensures FirstMarker(data).None? <==> NoMarkerLines(data)
  {
    var marks := MarkerStarts(data);
    if FirstMarker(data).None? {
      FirstTrueNone(marks, 0);
      forall k | 0 <= k <= |data| && LineStart(data, k) ensures IsMarker(data[k..]).None? {
        MarkerStartsAt(data, k);
      }
    } else {
      FirstMarkerFound(data);
    }
  }

  /** `findFileMarker`'s result, defined by the reference scan: the text before the
      first marker line, its name and the text after it; or, without a marker,
      the whole input newline-normalised with an empty name and `after`. */
  function MarkerSplit(data: string): Split {
    match FirstMarker(data)
    case None => Split(FixNL(data), "", "")
    case Some(i) =>
      match IsMarker(data[i..])
      case Some(m) => Split(data[..i], m.name, m.after)
      // The scan only stops where a marker begins (`FirstMarkerFound`).
      case None => Split(FixNL(data), "", "")
  }

  /** A split at a marker leaves strictly less text after it than there was; a split
      without one leaves nothing after it. */
  lemma MarkerSplitShrinks(data: string)
    ensures MarkerSplit(data).name != [] ==> |MarkerSplit(data).after| < |data|
    ensures MarkerSplit(data).name == [] ==> MarkerSplit(data).after == []
  {
    if FirstMarker(data).Some? {
      var i := FirstMarker(data).value;
      FirstMarkerFound(data);
      IsMarkerName(data[i..]);
    }
  }

  /** When a marker is found, `before` is a prefix of `data` and the marker right
      after it is the one `isMarker` sees there. */
  lemma MarkerSplitMarker(data: string)
    requires MarkerSplit(data).name != []
    ensures var r := MarkerSplit(data);
      && |r.before| <= |data| && data[..|r.before|] == r.before
      && IsMarker(data[|r.before|..]) == Some(Marker(r.name, r.after))
  {
  }

  /** When a marker is found, `before` is a newline-terminated prefix of `data` with
      no marker line in it, the name is valid, and the marker that ends `before` is
      the one `isMarker` sees there. */
  lemma MarkerSplitFound(data: string)
    requires MarkerSplit(data).name != []
    ensures var r := MarkerSplit(data);
      && |r.before| <= |data| && data[..|r.before|] == r.before
      && NewlineTerminated(r.before)
      && NoMarkerLines(r.before)
      && ValidName(r.name)
      && IsMarker(data[|r.before|..]) == Some(Marker(r.name, r.after))
  {
    var i := FirstMarker(data).value;
    FirstMarkerFound(data);
    IsMarkerName(data[i..]);
    var before := data[..i];
    forall k | 0 <= k <= |before| && LineStart(before, k)
      ensures IsMarker(before[k..]).None?
    {
      if k == |before| {
        assert before[k..] == [];
      } else {
        LineBeforeMarker(data, k, i);
        IsMarkerAppend(before[k..], data[i..]);
      }
    }
  }

  /** A line that starts at `k` inside the text before a line start `i` reaches on
      into the rest of `data`, and holds a newline. */
  lemma LineBeforeMarker(data: string, k: nat, i: nat)
    requires k < i <= |data| && LineStart(data, i) && LineStart(data[..i], k)
    ensures LineStart(data, k)
    ensures data[..i][k..] + data[i..] == data[k..]
    ensures '\n' in data[..i][k..]
  {
    var line := data[..i][k..];
    assert line[|line| - 1] == data[i - 1];
  }

  /** `data` is `before`, the marker line, its newline when present, and `after`. */
  lemma MarkerSplitDecomposes(data: string)
    requires MarkerSplit(data).name != []
    ensures var r := MarkerSplit(data);
      var line := FirstLine(data[|r.before|..]);
      data == r.before + line + (if |line| < |data| - |r.before| then "\n" else "") + r.after
  {
    MarkerSplitMarker(data);
    var r := MarkerSplit(data);
    DecomposesAt(data, r.before, r.name, r.after);
  }

  /** A prefix `before` of `data` followed by a marker with `name` and `after`. */
  lemma DecomposesAt(data: string, before: string, name: string, after: string)
    requires |before| <= |data| && data[..|before|] == before
    requires IsMarker(data[|before|..]) == Some(Marker(name, after))
    ensures var line := FirstLine(data[|before|..]);
      data == before + line + (if |line| < |data| - |before| then "\n" else "") + after
  {
    var tail := data[|before|..];
    IsMarkerDecomposes(tail);
    var line := FirstLine(tail);
    var nl: string := if |line| < |tail| then "\n" else "";
    assert data == before + tail;
    Assoc(before, line + nl, after);
    Assoc(before, line, nl);
  }

  /** The scan finds no marker exactly when no line of `data` begins with one, and
      then `before` is `fixNL(data)` and `after` is empty. */
  lemma MarkerSplitNotFound(data: string)
    ensures MarkerSplit(data).name == [] <==> NoMarkerLines(data)
    ensures NoMarkerLines(data) ==> MarkerSplit(data) == Split(FixNL(data), "", "")
  {
    FirstMarkerNone(data);
    if FirstMarker(data).Some? {
      FirstMarkerFound(data);
      IsMarkerName(data[FirstMarker(data).value..]);
    }
  }

  /** `fixNL` adds no marker line. */
  lemma NoMarkerLinesFixNL(s: string)
    requires NoMarkerLines(s)
    ensures NoMarkerLines(FixNL(s))
  {
    var d := FixNL(s);
    if d != s {
      forall k | 0 <= k <= |d| && LineStart(d, k)
        ensures IsMarker(d[k..]).None?
      {
        if k <= |s| {
          assert LineStart(s, k);
          assert d[k..] == s[k..] + "\n";
          if '\n' in s[k..] {
            IsMarkerAppend(s[k..], "\n");
          } else {
            FirstLineAppend(s[k..], "\n");
            IsMarkerSameLine(s[k..], d[k..]);
          }
        }
      }
    }
  }

  /** Every part `findFileMarker` returns as `before` is newline-terminated and holds
      no marker line. */
  lemma MarkerSplitBefore(data: string)
    ensures NewlineTerminated(MarkerSplit(data).before)
    ensures NoMarkerLines(MarkerSplit(data).before)
  {
    if MarkerSplit(data).name != [] {
      MarkerSplitFound(data);
    } else {
      MarkerSplitNotFound(data);
      NoMarkerLinesFixNL(data);
    }
  }

  // ---------------------------------------------------------------------------
  // findFileMarker

  /** A line start after `i` that begins with `-- ` ends an occurrence of `\n-- `
      in `data[i..]`. */
  lemma NewlineMarkerAt(data: string, i: nat, k: nat)
    requires i < k <= |data| && LineStart(data, k) && StartsWith(data[k..], MarkerStart)
    ensures OccursAt(data[i..], NewlineMarker, k - 1 - i)
  {
    assert data[k..][..|MarkerStart|] == data[k..k + |MarkerStart|];
    assert data[k - 1..k + |MarkerStart|] == [data[k - 1]] + data[k..k + |MarkerStart|];
    assert data[i..][k - 1 - i..k - 1 - i + |NewlineMarker|] == data[k - 1..k + |MarkerStart|];
  }

  /** A marker line can only begin at the start of the input or right after a
      newline, so it begins right after an occurrence of `\n-- `: when `isMarker`
      fails at `i`, no position before the next occurrence (or, without one, no
      position at all) from `i` on begins a marker. */
  lemma NoMarkerBeforeNewlineMarker(data: string, i: nat, j: int)
    requires i <= |data| && IsMarker(data[i..]).None?
    requires j == IndexOf(data[i..], NewlineMarker)
    ensures j >= 0 ==> i + j + 1 < |data| && data[i + j] == '\n'
    ensures var marks := MarkerStarts(data);
      FirstTrue(marks, i) == if j >= 0 then FirstTrue(marks, i + j + 1) else None
  {
    var tail := data[i..];
    var marks := MarkerStarts(data);
    var hi := if j >= 0 then i + j + 1 else |data| + 1;
    IndexOfFirst(tail, NewlineMarker);
    if j >= 0 {
      assert tail[j..j + |NewlineMarker|][0] == tail[j];
    }
    forall k | i <= k < hi ensures !marks[k] {
      MarkerStartsAt(data, k);
      if k > i && LineStart(data, k) && IsMarker(data[k..]).Some? {
        IsMarkerStart(data[k..]);
        NewlineMarkerAt(data, i, k);
      }
    }
    FirstTrueSkip(marks, i, hi);
  }

  /** When the scan from line start `i` on finds the first marker and one begins at
      `i`, that is the marker the split is made at. */
  lemma MarkerSplitAt(data: string, i: nat)
    requires i <= |data| && LineStart(data, i) && IsMarker(data[i..]).Some?
    requires FirstTrue(MarkerStarts(data), i) == FirstMarker(data)
    ensures MarkerSplit(data)
      == Split(data[..i], IsMarker(data[i..]).value.name, IsMarker(data[i..]).value.after)
  {
    MarkerStartsAt(data, i);
  }

  /** Without a marker, the split is the newline-normalised input alone. */
  lemma MarkerSplitNone(data: string)
    requires FirstMarker(data).None?
    ensures MarkerSplit(data) == Split(FixNL(data), "", "")
  {
  }

  /** One turn of `findFileMarker`'s loop at line start `i`, from which on the scan
      finds the first marker: a marker at `i` is the split; otherwise, without a
      further `\n-- ` there is no marker at all, and with one the next line start
      after it is again where the scan from there on finds the first marker. */
  lemma ScanStep(data: string, i: nat)
    requires i <= |data| && LineStart(data, i)
    requires FirstTrue(MarkerStarts(data), i) == FirstMarker(data)
    ensures var m := IsMarker(data[i..]);
      m.Some? ==> MarkerSplit(data) == Split(data[..i], m.value.name, m.value.after)
    ensures var j := IndexOf(data[i..], NewlineMarker);
      IsMarker(data[i..]).None? ==>
        if j < 0 then MarkerSplit(data) == Split(FixNL(data), "", "")
        else
          && i + j + 1 <= |data| && LineStart(data, i + j + 1)
          && FirstTrue(MarkerStarts(data), i + j + 1) == FirstMarker(data)
  {
    if IsMarker(data[i..]).Some? {
      MarkerSplitAt(data, i);
    } else {
      var j := IndexOf(data[i..], NewlineMarker);
      NoMarkerBeforeNewlineMarker(data, i, j);
      if j < 0 {
        MarkerSplitNone(data);
      }
    }
  }

  /** `findFileMarker`: loops over candidate line starts `i`, testing `isMarker` on
      the tail and otherwise jumping to the line start just after the newline of
      the next `\n-- `. */
  method FindFileMarker(data: string) returns (r: Split)
    ensures r == MarkerSplit(data)
  {
    var i := 0;
    while true
      invariant i <= |data| && LineStart(data, i)
      invariant FirstTrue(MarkerStarts(data), i) == FirstMarker(data)
      decreases |data| - i
    {
      ScanStep(data, i);
      var tail := data[i..];
      var m := IsMarker(tail);
      if m.Some? {
        return Split(data[..i], m.value.name, m.value.after);
      }
      var j := IndexOf(tail, NewlineMarker);
      if j < 0 {
        return Split(FixNL(data), "", "");
      }
      i := i + j + 1;
    }
  }

  // ---------------------------------------------------------------------------
  // parse

  /** The files `parse` collects, starting from the marker named `name` whose
      following text is `after`. */
  function ParseFiles(name: string, after: string): (r: seq<File>)
    ensures name == [] <==> r == []
    decreases |after|, |name|
  {
    if name == [] then []
    else
      var next := MarkerSplit(after);
      MarkerSplitShrinks(after);
      [File(name, next.before)] + ParseFiles(next.name, next.after)
  }

  /** `parse`'s result: the text before the first marker as the comment, then the
      files. */
  function Parsed(data: string): Archive {
    var first := MarkerSplit(data);
    Archive(first.before, ParseFiles(first.name, first.after))
  }

  /** `parse`: finds the first marker, then keeps finding the next one while the
      last had a name, pushing one file per marker. */
  method Parse(data: string) returns (a: Archive)
    ensures a == Parsed(data)
  {
    var files: seq<File> := [];
    var first := FindFileMarker(data);
    var comment, name, after := first.before, first.name, first.after;
    while name != ""
      invariant files + ParseFiles(name, after) == ParseFiles(first.name, first.after)
      decreases |after|, |name|
    {
      var next := FindFileMarker(after);
      ParseFilesStep(files, name, after);
      files := files + [File(name, next.before)];
      name := next.name;
      after := next.after;
    }
    assert ParseFiles(name, after) == [];
    assert files + [] == files;
    return Archive(comment, files);
  }

  /** One turn of `parse`'s loop moves the file for `name` from the files still to
      collect to the files collected, and shortens what is left to scan. */
  lemma ParseFilesStep(files: seq<File>, name: string, after: string)
    requires name != []
    ensures var next := MarkerSplit(after);
      && files + ParseFiles(name, after)
         == (files + [File(name, next.before)]) + ParseFiles(next.name, next.after)
      && (|next.after| < |after| || (|next.after| == |after| && |next.name| < |name|))
  {
    var next := MarkerSplit(after);
    MarkerSplitShrinks(after);
    var rest := ParseFiles(next.name, next.after);
    assert ParseFiles(name, after) == [File(name, next.before)] + rest;
    assert files + ([File(name, next.before)] + rest) == (files + [File(name, next.before)]) + rest;
  }

  // ---------------------------------------------------------------------------
  // format

  /** The text `format` writes for `files`, in order. */
  function FormatFiles(files: seq<File>): string {
    if files == [] then []
    else MarkerLine(files[0].name) + FixNL(files[0].data) + FormatFiles(files[1..])
  }

  /** `format`'s result. */
  function Formatted(a: Archive): string {
    FixNL(a.comment) + FormatFiles(a.files)
  }

  /** Writing one more file appends its marker line and its normalised data. */
  lemma {:induction false} FormatFilesSnoc(files: seq<File>, f: File)
    ensures FormatFiles(files + [f]) == FormatFiles(files) + MarkerLine(f.name) + FixNL(f.data)
  {
    if files == [] {
      assert files + [f] == [f];
      assert FormatFiles([f]) == MarkerLine(f.name) + FixNL(f.data) + FormatFiles([]);
    } else {
      var head := MarkerLine(files[0].name) + FixNL(files[0].data);
      assert (files + [f])[0] == files[0];
      assert (files + [f])[1..] == files[1..] + [f];
      FormatFilesSnoc(files[1..], f);
      calc {
        FormatFiles(files + [f]);
        head + FormatFiles(files[1..] + [f]);
        head + (FormatFiles(files[1..]) + MarkerLine(f.name) + FixNL(f.data));
        { Assoc(head, FormatFiles(files[1..]) + MarkerLine(f.name), FixNL(f.data));
          Assoc(head, FormatFiles(files[1..]), MarkerLine(f.name)); }
        head + FormatFiles(files[1..]) + MarkerLine(f.name) + FixNL(f.data);
      }
    }
  }


  /** One turn of `format`'s loop extends the text by the next file. */
  lemma FormatStep(comment: string, files: seq<File>, k: nat)
    requires k < |files|
    ensures FixNL(comment) + FormatFiles(files[..k]) + "-- " + files[k].name + " --\n" + FixNL(files[k].data)
      == FixNL(comment) + FormatFiles(files[..k + 1])
  {
    var f := files[k];
    assert files[..k + 1] == files[..k] + [f];
    FormatFilesSnoc(files[..k], f);
    WriteMarkerLine(FixNL(comment) + FormatFiles(files[..k]), f.name);
    Assoc(FixNL(comment), FormatFiles(files[..k]) + MarkerLine(f.name), FixNL(f.data));
    Assoc(FixNL(comment), FormatFiles(files[..k]), MarkerLine(f.name));
  }

  /** Appending the template `-- ${name} --\n` appends the marker line for `name`. */
  lemma WriteMarkerLine(b: string, name: string)
    ensures b + "-- " + name + " --\n" == b + MarkerLine(name)
  {
  }

  /** `format`: the normalised comment, then for each file its marker line and its
      normalised data. */
  method Format(a: Archive) returns (b: string)
    ensures b == Formatted(a)
  {
    b := FixNL(a.comment);
    for k := 0 to |a.files|
      invariant b == FixNL(a.comment) + FormatFiles(a.files[..k])
    {
      var f := a.files[k];
      b := b + "-- " + f.name + " --\n";
      b := b + FixNL(f.data);
      FormatStep(a.comment, a.files, k);
    }
    assert a.files[..|a.files|] == a.files;
  }
}
