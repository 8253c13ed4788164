/**
 * Character classes and trimming as ECMAScript defines them: the `\s` class
 * of a regular expression, the `.` class (everything but a line terminator)
 * and `String.prototype.trim`, which strips the same `\s` set from both ends.
 */
module Text {

  /** `\s`: the WhiteSpace and LineTerminator code points of ECMAScript. */
  predicate IsWhiteSpace(c: char) {
    c == '\t' || c == '\n' || c == '\U{B}' || c == '\U{C}' || c == '\r' || c == ' '
    || c == '\U{A0}' || c == '\U{1680}' || ('\U{2000}' <= c <= '\U{200A}')
    || c == '\U{2028}' || c == '\U{2029}' || c == '\U{202F}' || c == '\U{205F}'
    || c == '\U{3000}' || c == '\U{FEFF}'
  }

  /** The characters that the regular-expression `.` does not match. */
  predicate IsLineTerminator(c: char) {
    c == '\n' || c == '\r' || c == '\U{2028}' || c == '\U{2029}'
  }

  predicate AllWhiteSpace(s: string) {
    forall i :: 0 <= i < |s| ==> IsWhiteSpace(s[i])
  }

  /** Every character of `s` from `lo` up to `hi` is white space. */
  predicate WhiteBetween(s: string, lo: int, hi: int) {
    forall k :: lo <= k < hi && 0 <= k < |s| ==> IsWhiteSpace(s[k])
  }

  /** `s[i..j]` is what remains of `s` once white space is stripped from both ends. */
  ghost predicate TrimBounds(s: string, i: int, j: int) {
    0 <= i <= j <= |s| && WhiteBetween(s, 0, i) && WhiteBetween(s, j, |s|)
    && (i == j || (!IsWhiteSpace(s[i]) && !IsWhiteSpace(s[j - 1])))
  }

  /** `r` is `s` with its leading and trailing white space removed. */
  ghost predicate IsTrimOf(r: string, s: string) {
    exists i, j :: TrimBounds(s, i, j) && r == s[i..j]
  }

  /** Where the text of `s` starts: the first index from `i` on that is not white space, or `|s|`. */
  function SkipStart(s: string, i: nat): (k: nat)
    requires i <= |s|
    ensures i <= k <= |s| && WhiteBetween(s, i, k)
    ensures k < |s| ==> !IsWhiteSpace(s[k])
    decreases |s| - i
  {
    if i < |s| && IsWhiteSpace(s[i]) then SkipStart(s, i + 1) else i
  }

  /** Where the text of `s[lo..j]` ends: just after its last character that is not white space, or `lo`. */
  function SkipEnd(s: string, lo: nat, j: nat): (k: nat)
    requires lo <= j <= |s|
    ensures lo <= k <= j && WhiteBetween(s, k, j)
    ensures k > lo ==> !IsWhiteSpace(s[k - 1])
    decreases j
  {
    if lo < j && IsWhiteSpace(s[j - 1]) then SkipEnd(s, lo, j - 1) else j
  }

  /** `String.prototype.trim`: leading white space goes first, then trailing white space. */
  function Trim(s: string): string {
    var i := SkipStart(s, 0);
    s[i..SkipEnd(s, i, |s|)]
  }

  /** `Trim` strips exactly the white space at both ends. */
  lemma TrimIsTrim(s: string)
    ensures IsTrimOf(Trim(s), s)
  {
    var i := SkipStart(s, 0);
    var j := SkipEnd(s, i, |s|);
    assert TrimBounds(s, i, j);
  }

  /** A string trims to the empty string exactly when it is all white space. */
  lemma TrimEmptyIff(s: string)
    ensures Trim(s) == [] <==> AllWhiteSpace(s)
  {
    var i := SkipStart(s, 0);
    var j := SkipEnd(s, i, |s|);
    assert Trim(s) == s[i..j];
  }

  /** Two trim windows of the same string coincide (or are both empty). */
  lemma TrimBoundsUnique(s: string, i: int, j: int, i': int, j': int)
    requires TrimBounds(s, i, j) && TrimBounds(s, i', j')
    ensures s[i..j] == s[i'..j']
  {
    // A non-empty window starts at the first and ends after the last character
    // of s that is not white space; an empty one leaves no such character.
    if i < j && i' < j' {
      assert i == i' && j == j';
    }
  }

  /** The trimmed form of a string is unique: `Trim` is the only candidate. */
  lemma TrimUnique(r: string, s: string)
    requires IsTrimOf(r, s)
    ensures r == Trim(s)
  {
    var i, j :| TrimBounds(s, i, j) && r == s[i..j];
    var t := Trim(s);
    TrimIsTrim(s);
    var i', j' :| TrimBounds(s, i', j') && t == s[i'..j'];
    TrimBoundsUnique(s, i, j, i', j');
  }

  /** Trimming twice is trimming once. */
  lemma TrimIdempotent(s: string)
    ensures Trim(Trim(s)) == Trim(s)
  {
    var t := Trim(s);
    assert t[..0] == [] && t[|t|..] == [] && t == t[0..|t|];
    assert TrimBounds(t, 0, |t|);
    TrimUnique(t, t);
  }
}
