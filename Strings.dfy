/** The few operations of JavaScript's String.prototype that the txtar codec relies on,
    over strings seen as sequences of characters. Each function keeps only its
    bounds in its contract; what it computes is stated by the lemma after it. */
module JsString {

  /** The characters String.prototype.trim removes: the ECMAScript WhiteSpace set
      (TAB, VT, FF, ZWNBSP and the Unicode Zs category) and the LineTerminator set
      (LF, CR, LS, PS). */
  predicate IsWhitespace(c: char) {
    c == '\t' || c == '\n' || c == '\U{B}' || c == '\U{C}' || c == '\r' || c == ' '
    || c == '\U{A0}' || c == '\U{1680}' || ('\U{2000}' <= c <= '\U{200A}')
    || c == '\U{2028}' || c == '\U{2029}' || c == '\U{202F}' || c == '\U{205F}'
    || c == '\U{3000}' || c == '\U{FEFF}'
  }

  /** `s.startsWith(p)` */
  predicate StartsWith(s: string, p: string) {
    |p| <= |s| && s[..|p|] == p
  }

  /** `s.endsWith(p)` */
  predicate EndsWith(s: string, p: string) {
    |p| <= |s| && s[|s| - |p|..] == p
  }

  /** `p` occurs in `s` starting at index `k`. */
  predicate OccursAt(s: string, p: string, k: int) {
    0 <= k && k + |p| <= |s| && s[k..k + |p|] == p
  }

  /** `s.indexOf(p, from)` */
  function IndexOfFrom(s: string, p: string, from: nat): (r: int)
    ensures r == -1 || from <= r <= |s| - |p|
    decreases |s| - from
  {
    if from + |p| > |s| then -1
    else if s[from..from + |p|] == p then from
    else IndexOfFrom(s, p, from + 1)
  }

  /** `s.indexOf(p, from)` is the first occurrence of `p` at or after `from`, and -1
      exactly when there is none. */
  lemma {:induction false} IndexOfFromFirst(s: string, p: string, from: nat)
    ensures var r := IndexOfFrom(s, p, from);
      && (r == -1 || OccursAt(s, p, r))
      && forall k :: from <= k && (r == -1 || k < r) ==> !OccursAt(s, p, k)
    decreases |s| - from
  {
    if from + |p| <= |s| && s[from..from + |p|] != p {
      IndexOfFromFirst(s, p, from + 1);
    }
  }

  /** `s.indexOf(p)` */
  function IndexOf(s: string, p: string): (r: int)
    ensures r == -1 || 0 <= r <= |s| - |p|
  {
    IndexOfFrom(s, p, 0)
  }

  /** `s.indexOf(p)` is the first occurrence of `p`, and -1 exactly when there is
      none. */
  lemma IndexOfFirst(s: string, p: string)
    ensures var r := IndexOf(s, p);
      && (r == -1 || OccursAt(s, p, r))
      && forall k :: 0 <= k && (r == -1 || k < r) ==> !OccursAt(s, p, k)
  {
    IndexOfFromFirst(s, p, 0);
  }

  /** The first index at or after `i` that does not hold whitespace, or `|s|`. */
  function SkipWhitespace(s: string, i: nat): (j: nat)
    requires i <= |s|
    ensures i <= j <= |s|
    decreases |s| - i
  {
    if i < |s| && IsWhitespace(s[i]) then SkipWhitespace(s, i + 1) else i
  }

  /** Skipping stops at the first non-whitespace character and passes only
      whitespace. */
  lemma {:induction false} SkipWhitespaceStops(s: string, i: nat)
    requires i <= |s|
    ensures var j := SkipWhitespace(s, i);
      && (forall k :: i <= k < j ==> IsWhitespace(s[k]))
      && (j == |s| || !IsWhitespace(s[j]))
    decreases |s| - i
  {
    if i < |s| && IsWhitespace(s[i]) {
      SkipWhitespaceStops(s, i + 1);
    }
  }

  /** Going down from `j`, the last index not below `lo` such that `s[k..j]` is
      all whitespace. */
  function SkipWhitespaceBack(s: string, lo: nat, j: nat): (k: nat)
    requires lo <= j <= |s|
    ensures lo <= k <= j
    decreases j - lo
  {
    if lo < j && IsWhitespace(s[j - 1]) then SkipWhitespaceBack(s, lo, j - 1) else j
  }

  /** Skipping backwards stops after a non-whitespace character (or at `lo`) and
      passes only whitespace. */
  lemma {:induction false} SkipWhitespaceBackStops(s: string, lo: nat, j: nat)
    requires lo <= j <= |s|
    ensures var k := SkipWhitespaceBack(s, lo, j);
      && (forall m :: k <= m < j ==> IsWhitespace(s[m]))
      && (k == lo || !IsWhitespace(s[k - 1]))
    decreases j - lo
  {
    if lo < j && IsWhitespace(s[j - 1]) {
      SkipWhitespaceBackStops(s, lo, j - 1);
    }
  }

  /** `s.trim()` */
  function Trim(s: string): string {
    var a := SkipWhitespace(s, 0);
    s[a..SkipWhitespaceBack(s, a, |s|)]
  }

  /** `s.trim()` is `s` with a run of whitespace removed at each end: what is left
      neither starts nor ends with whitespace, and is `s` itself when `s` has
      nothing to remove. */
  lemma TrimSpec(s: string)
    ensures exists a, b :: (0 <= a <= b <= |s| && Trim(s) == s[a..b]
      && (forall k :: 0 <= k < a ==> IsWhitespace(s[k]))
      && (forall k :: b <= k < |s| ==> IsWhitespace(s[k])))
    ensures Trim(s) == [] || (!IsWhitespace(Trim(s)[0]) && !IsWhitespace(Trim(s)[|Trim(s)| - 1]))
    ensures (s == [] || (!IsWhitespace(s[0]) && !IsWhitespace(s[|s| - 1]))) ==> Trim(s) == s
  {
    var a := SkipWhitespace(s, 0);
    var b := SkipWhitespaceBack(s, a, |s|);
    SkipWhitespaceStops(s, 0);
    SkipWhitespaceBackStops(s, a, |s|);
    assert Trim(s) == s[a..b];
    if a < b {
      assert Trim(s)[0] == s[a] && Trim(s)[|Trim(s)| - 1] == s[b - 1];
    }
    if s != [] && !IsWhitespace(s[0]) && !IsWhitespace(s[|s| - 1]) {
      assert a == 0;
      assert b == |s|;
    }
  }

  /** Trimming twice is trimming once. */
  lemma TrimIdempotent(s: string)
    ensures Trim(Trim(s)) == Trim(s)
  {
    TrimSpec(s);
    TrimSpec(Trim(s));
  }

  /** `s.trim()` holds no character that `s` does not. */
  lemma TrimWithin(s: string)
    ensures forall c :: c in Trim(s) ==> c in s
  {
    var a := SkipWhitespace(s, 0);
    var b := SkipWhitespaceBack(s, a, |s|);
    forall c | c in s[a..b] ensures c in s {
      var k :| 0 <= k < b - a && s[a..b][k] == c;
      assert s[a + k] == c;
    }
  }
}
