/**
 * The "looks like English prose" test that chooses between a grammar check
 * and a chat reply: the regular expression
 *   [A-Za-z\s']{5,}(?:\s[A-Za-z\s']{5,}){1,}
 * applied unanchored with `.test`. `InPattern` is the language of the
 * expression, `RegexTest` what `.test` answers, and `IsEnglishMessage` a
 * single left-to-right scan proved to agree with it.
 */
module EnglishClassifier {
  import opened Text

  /** The character class `[A-Za-z\s']`. */
  predicate IsEnglishChar(c: char) {
    ('A' <= c <= 'Z') || ('a' <= c <= 'z') || IsWhiteSpace(c) || c == '\''
  }

  predicate AllEnglish(w: string) {
    forall i :: 0 <= i < |w| ==> IsEnglishChar(w[i])
  }

  /**
   * `w` belongs to the language of the expression: a run of at least five
   * class characters, a white-space character, and then either a final run
   * of at least five class characters or another word of the language.
   */
  ghost predicate InPattern(w: string)
    decreases |w|, 1
  {
    exists k :: PatternSplit(w, k)
  }

  /** `w[..k]` is the first run, `w[k]` the separator, `w[k + 1..]` the remainder. */
  ghost predicate PatternSplit(w: string, k: int)
    decreases |w|, 0
  {
    5 <= k < |w| && AllEnglish(w[..k]) && IsWhiteSpace(w[k])
    && (FinalRun(w[k + 1..]) || InPattern(w[k + 1..]))
  }

  /** The last `[A-Za-z\s']{5,}` of the expression. */
  predicate FinalRun(w: string) {
    |w| >= 5 && AllEnglish(w)
  }

  /** `.test` on an unanchored expression: some substring is in the language. */
  ghost predicate RegexTest(s: string) {
    exists i, j :: 0 <= i <= j <= |s| && InPattern(s[i..j])
  }

  /** Every character of `s` from `lo` up to `hi` is in the class. */
  predicate EnglishBetween(s: string, lo: int, hi: int) {
    forall k :: lo <= k < hi && 0 <= k < |s| ==> IsEnglishChar(s[k])
  }

  /** A white-space character at `i` with five class characters on either side. */
  predicate WindowAt(s: string, i: int) {
    5 <= i && i + 5 < |s| && IsWhiteSpace(s[i]) && EnglishBetween(s, i - 5, i + 6)
  }

  ghost predicate HasWindow(s: string) {
    exists i :: WindowAt(s, i)
  }

  /** Number of consecutive class characters that end just before index `j`. */
  function RunBefore(s: string, j: nat): nat
    requires j <= |s|
  {
    if j == 0 || !IsEnglishChar(s[j - 1]) then 0 else RunBefore(s, j - 1) + 1
  }

  /** The eleven characters before `m` form a window. */
  predicate WindowEndsAt(s: string, m: int) {
    11 <= m <= |s| && RunBefore(s, m) >= 11 && IsWhiteSpace(s[m - 6])
  }

  /** Scans from index `j`, knowing the current run length `run`. */
  function ScanFrom(s: string, j: nat, run: nat): bool
    requires j <= |s| && run == RunBefore(s, j)
    decreases |s| - j
  {
    if j >= 11 && run >= 11 && IsWhiteSpace(s[j - 6]) then true
    else if j == |s| then false
    else ScanFrom(s, j + 1, if IsEnglishChar(s[j]) then run + 1 else 0)
  }

  /** `ENGLISH_MESSAGE_REGEX.test(s)`, by one left-to-right scan. */
  function IsEnglishMessage(s: string): bool {
    ScanFrom(s, 0, 0)
  }

  /** The scan answers what `.test` answers, and both amount to a window somewhere in `s`. */
  lemma IsEnglishMessageCorrect(s: string)
    ensures IsEnglishMessage(s) <==> RegexTest(s)
    ensures IsEnglishMessage(s) <==> HasWindow(s)
  {
    ScanIffWindow(s);
    WindowImpliesRegexTest(s);
    RegexTestImpliesWindow(s);
  }

  /** A run of at least `n` class characters ends at `m` iff the `n` characters before `m` are all in the class. */
  lemma {:induction false} RunBeforeAtLeast(s: string, m: nat, n: nat)
    requires m <= |s|
    ensures RunBefore(s, m) >= n <==> (n <= m && EnglishBetween(s, m - n, m))
  {
    if n > 0 && m > 0 && IsEnglishChar(s[m - 1]) {
      RunBeforeAtLeast(s, m - 1, n - 1);
    }
  }

  lemma WindowEndsAtIff(s: string, m: int)
    ensures WindowEndsAt(s, m) <==> WindowAt(s, m - 6)
  {
    if 11 <= m <= |s| {
      RunBeforeAtLeast(s, m, 11);
    }
  }

  /** The scan from `j` succeeds iff a window ends at some index from `j` on. */
  lemma {:induction false} ScanCorrect(s: string, j: nat, run: nat)
    requires j <= |s| && run == RunBefore(s, j)
    ensures ScanFrom(s, j, run) <==> exists m :: j <= m <= |s| && WindowEndsAt(s, m)
    decreases |s| - j
  {
    if j >= 11 && run >= 11 && IsWhiteSpace(s[j - 6]) {
      assert WindowEndsAt(s, j);
    } else if j == |s| {
      forall m | j <= m <= |s| ensures !WindowEndsAt(s, m) { assert m == j; }
    } else {
      ScanCorrect(s, j + 1, if IsEnglishChar(s[j]) then run + 1 else 0);
      assert !WindowEndsAt(s, j);
      if exists m :: j <= m <= |s| && WindowEndsAt(s, m) {
        var m :| j <= m <= |s| && WindowEndsAt(s, m);
        assert j + 1 <= m;
      }
    }
  }

  lemma ScanIffWindow(s: string)
    ensures ScanFrom(s, 0, 0) <==> HasWindow(s)
  {
    ScanCorrect(s, 0, 0);
    if HasWindow(s) {
      var i :| WindowAt(s, i);
      WindowEndsAtIff(s, i + 6);
    }
    if exists m :: 0 <= m <= |s| && WindowEndsAt(s, m) {
      var m :| 0 <= m <= |s| && WindowEndsAt(s, m);
      WindowEndsAtIff(s, m);
    }
  }

  /** Every word of the language is made of class characters and has at least eleven of them. */
  lemma {:induction false} InPatternShape(w: string)
    requires InPattern(w)
    ensures AllEnglish(w) && |w| >= 11
    decreases |w|
  {
    var k :| PatternSplit(w, k);
    var rest := w[k + 1..];
    if !FinalRun(rest) {
      InPatternShape(rest);
    }
    forall i | 0 <= i < |w| ensures IsEnglishChar(w[i]) {
      if i < k { assert w[i] == w[..k][i]; }
      else if i > k { assert w[i] == rest[i - k - 1]; }
    }
  }

  /** A window is a word of the language, so `.test` succeeds. */
  lemma WindowImpliesRegexTest(s: string)
    ensures HasWindow(s) ==> RegexTest(s)
  {
    if HasWindow(s) {
      var i :| WindowAt(s, i);
      var w := s[i - 5..i + 6];
      assert w[..5] == s[i - 5..i] && w[5] == s[i] && w[6..] == s[i + 1..i + 6];
      assert AllEnglish(w[..5]) && FinalRun(w[6..]);
      assert PatternSplit(w, 5);
      assert InPattern(s[i - 5..i + 6]);
    }
  }

  /** Every word of the language found in `s` contains a window of `s`. */
  lemma RegexTestImpliesWindow(s: string)
    ensures RegexTest(s) ==> HasWindow(s)
  {
    if RegexTest(s) {
      var a, b :| 0 <= a <= b <= |s| && InPattern(s[a..b]);
      WordHasWindow(s, a, b);
    }
  }

  /** The first separator of a word found at `s[a..b]` is the middle of a window. */
  lemma WordHasWindow(s: string, a: int, b: int)
    requires 0 <= a <= b <= |s| && InPattern(s[a..b])
    ensures HasWindow(s)
  {
    var w := s[a..b];
    var k :| PatternSplit(w, k);
    var rest := w[k + 1..];
    if !FinalRun(rest) {
      InPatternShape(rest);
    }
    assert |rest| >= 5 && AllEnglish(rest);
    var i := a + k;
    forall t | i - 5 <= t < i + 6 && 0 <= t < |s| ensures IsEnglishChar(s[t]) {
      if t < i { assert s[t] == w[..k][t - a]; }
      else if t > i { assert s[t] == rest[t - i - 1]; }
    }
    assert WindowAt(s, i);
  }

  /** The test is unanchored: text around an English message keeps it English. */
  lemma EnglishInContext(pre: string, s: string, post: string)
    requires IsEnglishMessage(s)
    ensures IsEnglishMessage(pre + s + post)
  {
    IsEnglishMessageCorrect(s);
    IsEnglishMessageCorrect(pre + s + post);
    var i :| WindowAt(s, i);
    var t := pre + s + post;
    forall k | i - 5 <= k < i + 6 ensures t[|pre| + k] == s[k] {}
    assert WindowAt(t, |pre| + i);
  }

  /** No message shorter than eleven characters is classified as English. */
  lemma ShortIsNeverEnglish(s: string)
    requires |s| < 11
    ensures !IsEnglishMessage(s)
  {
    IsEnglishMessageCorrect(s);
  }

  /**
   * Because `\s` is inside the class, eleven white-space characters in a row
   * are enough: the test does not look for letters at all.
   */
  lemma WhiteSpaceRunIsEnglish(pre: string, post: string)
    ensures IsEnglishMessage(pre + "           " + post)
  {
    var t := pre + "           " + post;
    IsEnglishMessageCorrect(t);
    forall k | |pre| <= k < |pre| + 11 ensures t[k] == ' ' {}
    assert WindowAt(t, |pre| + 5);
  }

  /** A window anywhere makes the message English. */
  lemma WindowIsEnglish(s: string, i: int)
    requires WindowAt(s, i)
    ensures IsEnglishMessage(s)
  {
    IsEnglishMessageCorrect(s);
  }

  /** Without a window the message is not English. */
  lemma NoWindowIsNotEnglish(s: string)
    requires forall i :: 5 <= i && i + 5 < |s| ==> !WindowAt(s, i)
    ensures !IsEnglishMessage(s)
  {
    IsEnglishMessageCorrect(s);
  }

  /** "I go to school yesterday." is sent to the grammar check. */
  lemma SchoolSentenceIsEnglish()
    ensures IsEnglishMessage("I go to school yesterday.")
  {
    WindowIsEnglish("I go to school yesterday.", 14);
  }

  /** "Merhaba, nasılsın?" is sent to the chat. */
  lemma GreetingIsNotEnglish()
    ensures !IsEnglishMessage("Merhaba, nasılsın?")
  {
    var s := "Merhaba, nasılsın?";
    forall i | 5 <= i && i + 5 < |s| ensures !WindowAt(s, i) {
      if i == 8 {
        assert !IsEnglishChar(s[7]);
      } else {
        assert !IsWhiteSpace(s[i]);
      }
    }
    NoWindowIsNotEnglish(s);
  }
}
