/**
 * The block pattern of a vision reply, the global regular expression
 *   \*\*([^*]+)\*\* \(Türkçesi: ([^)]+)\)\nExample: '(.*?)'
 * `MatchesAt` says declaratively what a match at a position is, `IsMatchAll`
 * what `matchAll` returns (leftmost match first, the search resuming where the
 * previous match ended), and `Scan` is a hand-written scanner proved to
 * produce exactly that list.
 */
module VisionBlocks {
  import opened Text
  import opened Types

  /** The three spans the expression captures, before any trimming. */
  datatype RawBlock = RawBlock(term: string, translation: string, sentence: string)

  /** A match: where it starts and what it captured. */
  datatype Match = Match(start: nat, block: RawBlock)

  const TermOpen: string := "**"
  const TermClose: string := "** (Türkçesi: "
  const TranslationClose: string := ")\nExample: '"
  const SentenceClose: string := "'"

  /**
   * The captures the expression can produce: `[^*]+`, `[^)]+`, and a lazy
   * `.*?` that stops at the first apostrophe and cannot cross a line break.
   */
  predicate WellFormed(b: RawBlock) {
    |b.term| > 0 && (forall i :: 0 <= i < |b.term| ==> b.term[i] != '*')
    && |b.translation| > 0 && (forall i :: 0 <= i < |b.translation| ==> b.translation[i] != ')')
    && (forall i :: 0 <= i < |b.sentence| ==> b.sentence[i] != '\'' && !IsLineTerminator(b.sentence[i]))
  }

  /** The text of a match with these captures. */
  function Render(b: RawBlock): (r: string)
    ensures |r| == |b.term| + |b.translation| + |b.sentence| + 29
  {
    TermOpen + b.term + TermClose + b.translation + TranslationClose + b.sentence + SentenceClose
  }

  /** `s` holds a match of the pattern at `p` with captures `b`. */
  ghost predicate MatchesAt(s: string, p: int, b: RawBlock) {
    WellFormed(b) && 0 <= p && HasAt(s, p, Render(b))
  }

  function End(m: Match): nat {
    m.start + |Render(m.block)|
  }

  /** No match starts anywhere in `[lo, hi)`. */
  ghost predicate NoMatchIn(s: string, lo: int, hi: int) {
    forall p, b :: lo <= p < hi && MatchesAt(s, p, b) ==> false
  }

  /**
   * `ms` is what a global search of `s` from index `from` yields: the
   * leftmost match, then the same search from where that match ends.
   */
  ghost predicate IsMatchAll(s: string, from: nat, ms: seq<Match>)
    decreases |ms|
  {
    if ms == [] then NoMatchIn(s, from, |s| + 1)
    else
      from <= ms[0].start && NoMatchIn(s, from, ms[0].start)
      && MatchesAt(s, ms[0].start, ms[0].block)
      && IsMatchAll(s, End(ms[0]), ms[1..])
  }

  // ---------------------------------------------------------------------
  // Occurrences

  /** `lit` occurs in `s` at `i`. */
  predicate HasAt(s: string, i: nat, lit: string) {
    i + |lit| <= |s| && Agree(s, i, lit, |lit|)
  }

  /** The first `n` characters of `lit` occur in `s` at `i`, compared from the last one down. */
  predicate Agree(s: string, i: nat, lit: string, n: nat)
    requires n <= |lit| && i + n <= |s|
  {
    n == 0 || (s[i + n - 1] == lit[n - 1] && Agree(s, i, lit, n - 1))
  }

  lemma {:induction false} AgreeIsSlice(s: string, i: nat, lit: string, n: nat)
    requires n <= |lit| && i + n <= |s|
    ensures Agree(s, i, lit, n) <==> s[i..i + n] == lit[..n]
  {
    if n > 0 {
      AgreeIsSlice(s, i, lit, n - 1);
      assert s[i..i + n] == s[i..i + n - 1] + [s[i + n - 1]];
      assert lit[..n] == lit[..n - 1] + [lit[n - 1]];
    }
  }

  /** `HasAt` is the occurrence of `lit` as the slice of `s` at `i`. */
  lemma HasAtIsSlice(s: string, i: nat, lit: string)
    ensures HasAt(s, i, lit) <==> i + |lit| <= |s| && s[i..i + |lit|] == lit
  {
    if i + |lit| <= |s| {
      AgreeIsSlice(s, i, lit, |lit|);
      assert lit[..|lit|] == lit;
    }
  }

  /** A concatenation occurs at `i` exactly when its first part does and its second part follows. */
  lemma HasAtAppend(s: string, i: nat, x: string, y: string)
    ensures HasAt(s, i, x + y) <==> HasAt(s, i, x) && HasAt(s, i + |x|, y)
  {
    HasAtIsSlice(s, i, x + y);
    HasAtIsSlice(s, i, x);
    HasAtIsSlice(s, i + |x|, y);
    if i + |x| + |y| <= |s| {
      var a, c := s[i..i + |x|], s[i + |x|..i + |x| + |y|];
      assert s[i..i + |x| + |y|] == a + c;
      if a + c == x + y {
        assert a == (a + c)[..|x|] && x == (x + y)[..|x|];
        assert c == (a + c)[|x|..] && y == (x + y)[|x|..];
      }
    }
  }

  /** Each character of an occurrence is the character of `s` at its offset. */
  lemma HasAtChar(s: string, i: nat, lit: string, k: nat)
    requires HasAt(s, i, lit) && k < |lit|
    ensures s[i + k] == lit[k]
  {
    HasAtIsSlice(s, i, lit);
    assert s[i + k] == s[i..i + |lit|][k];
  }

  /** An occurrence in `y` is an occurrence in `x + y`, shifted by `|x|`, and the other way round. */
  lemma HasAtShift(x: string, y: string, i: nat, lit: string)
    ensures HasAt(x + y, |x| + i, lit) <==> HasAt(y, i, lit)
  {
    HasAtIsSlice(x + y, |x| + i, lit);
    HasAtIsSlice(y, i, lit);
    if i + |lit| <= |y| {
      assert (x + y)[|x| + i..|x| + i + |lit|] == y[i..i + |lit|];
    }
  }

  /** The delimiters and captures of `b`, laid out one after the other from `p`. */
  predicate PiecesAt(s: string, p: nat, b: RawBlock) {
    var te := p + 2 + |b.term|;
    var q := te + |TermClose|;
    var tre := q + |b.translation|;
    var u := tre + |TranslationClose|;
    var se := u + |b.sentence|;
    HasAt(s, p, TermOpen) && HasAt(s, p + 2, b.term) && HasAt(s, te, TermClose)
    && HasAt(s, q, b.translation) && HasAt(s, tre, TranslationClose)
    && HasAt(s, u, b.sentence) && HasAt(s, se, SentenceClose)
  }

  /** The text of a block occurs at `p` exactly when its pieces do, in order. */
  lemma RenderPieces(s: string, p: nat, b: RawBlock)
    ensures HasAt(s, p, Render(b)) <==> PiecesAt(s, p, b)
  {
    var x1 := TermOpen + b.term;
    var x2 := x1 + TermClose;
    var x3 := x2 + b.translation;
    var x4 := x3 + TranslationClose;
    var x5 := x4 + b.sentence;
    assert Render(b) == x5 + SentenceClose;
    HasAtAppend(s, p, x5, SentenceClose);
    HasAtAppend(s, p, x4, b.sentence);
    HasAtAppend(s, p, x3, TranslationClose);
    HasAtAppend(s, p, x2, b.translation);
    HasAtAppend(s, p, x1, TermClose);
    HasAtAppend(s, p, TermOpen, b.term);
  }

  // ---------------------------------------------------------------------
  // The scanner

  /** The run of characters from `i` on that stops before the first `stop`: the capture `[^stop]*`. */
  function RunUntil(s: string, i: nat, stop: char): string
    requires i <= |s|
    decreases |s| - i
  {
    if i == |s| || s[i] == stop then [] else [s[i]] + RunUntil(s, i + 1, stop)
  }

  /** The run occurs at `i`, holds no `stop`, and is followed by `stop` unless it reaches the end. */
  lemma {:induction false} RunUntilOccurs(s: string, i: nat, stop: char)
    requires i <= |s|
    ensures var r := RunUntil(s, i, stop);
      HasAt(s, i, r) && (forall k :: 0 <= k < |r| ==> r[k] != stop)
      && (i + |r| < |s| ==> s[i + |r|] == stop)
    decreases |s| - i
  {
    if i < |s| && s[i] != stop {
      RunUntilOccurs(s, i + 1, stop);
      assert RunUntil(s, i, stop) == [s[i]] + RunUntil(s, i + 1, stop);
      assert HasAt(s, i, [s[i]]);
      HasAtAppend(s, i, [s[i]], RunUntil(s, i + 1, stop));
    }
  }

  /** A run with no `stop` followed by `stop` is exactly what `RunUntil` reads. */
  lemma {:induction false} RunUntilAfterRun(s: string, i: nat, run: string, stop: char)
    requires HasAt(s, i, run) && i + |run| < |s| && s[i + |run|] == stop
    requires forall k :: 0 <= k < |run| ==> run[k] != stop
    ensures RunUntil(s, i, stop) == run
    decreases |run|
  {
    if run != [] {
      assert run == [run[0]] + run[1..];
      HasAtAppend(s, i, [run[0]], run[1..]);
      HasAtChar(s, i, run, 0);
      RunUntilAfterRun(s, i + 1, run[1..], stop);
    }
  }

  /** The lazy sentence capture `.*?` before a closing apostrophe: it cannot cross a line terminator. */
  function SentenceRun(s: string, i: nat): string
    requires i <= |s|
    decreases |s| - i
  {
    if i == |s| || s[i] == '\'' || IsLineTerminator(s[i]) then [] else [s[i]] + SentenceRun(s, i + 1)
  }

  /** The sentence run occurs at `i` with no apostrophe and no line terminator, and is followed by one of them unless it reaches the end. */
  lemma {:induction false} SentenceRunOccurs(s: string, i: nat)
    requires i <= |s|
    ensures var r := SentenceRun(s, i);
      HasAt(s, i, r) && (forall k :: 0 <= k < |r| ==> r[k] != '\'' && !IsLineTerminator(r[k]))
      && (i + |r| < |s| ==> s[i + |r|] == '\'' || IsLineTerminator(s[i + |r|]))
    decreases |s| - i
  {
    if i < |s| && s[i] != '\'' && !IsLineTerminator(s[i]) {
      SentenceRunOccurs(s, i + 1);
      assert SentenceRun(s, i) == [s[i]] + SentenceRun(s, i + 1);
      assert HasAt(s, i, [s[i]]);
      HasAtAppend(s, i, [s[i]], SentenceRun(s, i + 1));
    }
  }

  /** A run with no apostrophe and no line terminator, followed by an apostrophe, is the sentence run. */
  lemma {:induction false} SentenceRunAfterRun(s: string, i: nat, run: string)
    requires HasAt(s, i, run) && i + |run| < |s| && s[i + |run|] == '\''
    requires forall k :: 0 <= k < |run| ==> run[k] != '\'' && !IsLineTerminator(run[k])
    ensures SentenceRun(s, i) == run
    decreases |run|
  {
    if run != [] {
      assert run == [run[0]] + run[1..];
      HasAtAppend(s, i, [run[0]], run[1..]);
      HasAtChar(s, i, run, 0);
      SentenceRunAfterRun(s, i + 1, run[1..]);
    }
  }

  /** Tries the pattern at `p`, each step being forced: the expression never needs to backtrack. */
  function BlockAt(s: string, p: nat): (r: Option<RawBlock>)
    requires p <= |s|
    ensures r.Some? ==> p + |Render(r.value)| <= |s|
  {
    if !HasAt(s, p, TermOpen) then None
    else
      var term := RunUntil(s, p + 2, '*');
      var te := p + 2 + |term|;
      if term == [] || !HasAt(s, te, TermClose) then None
      else
        var q := te + |TermClose|;
        var translation := RunUntil(s, q, ')');
        var tre := q + |translation|;
        if translation == [] || !HasAt(s, tre, TranslationClose) then None
        else
          var u := tre + |TranslationClose|;
          var sentence := SentenceRun(s, u);
          var se := u + |sentence|;
          if se >= |s| || s[se] != '\'' then None
          else Some(RawBlock(term, translation, sentence))
  }

  /**
   * What `BlockAt` checks, phrased for a candidate block `b`: the delimiters
   * around the runs it reads, the last run followed by an apostrophe.
   */
  predicate ReadsAt(s: string, p: nat, b: RawBlock) {
    var te := p + 2 + |b.term|;
    var q := te + |TermClose|;
    var tre := q + |b.translation|;
    var u := tre + |TranslationClose|;
    var se := u + |b.sentence|;
    b.term != [] && b.translation != [] && se < |s|
    && HasAt(s, p, TermOpen) && RunUntil(s, p + 2, '*') == b.term
    && HasAt(s, te, TermClose) && RunUntil(s, q, ')') == b.translation
    && HasAt(s, tre, TranslationClose) && SentenceRun(s, u) == b.sentence && s[se] == '\''
  }

  /** `BlockAt` reads `b` at `p` exactly when its checks pass for `b`. */
  lemma ReadsAtIsBlockAt(s: string, p: nat, b: RawBlock)
    requires p <= |s|
    ensures BlockAt(s, p) == Some(b) <==> ReadsAt(s, p, b)
  {
  }

  /** A block that passes the checks of `BlockAt` is a match. */
  lemma ReadsAtMatches(s: string, p: nat, b: RawBlock)
    requires ReadsAt(s, p, b)
    ensures MatchesAt(s, p, b)
  {
    var te := p + 2 + |b.term|;
    var q := te + |TermClose|;
    var tre := q + |b.translation|;
    var u := tre + |TranslationClose|;
    var se := u + |b.sentence|;
    RunUntilOccurs(s, p + 2, '*');
    RunUntilOccurs(s, q, ')');
    SentenceRunOccurs(s, u);
    assert WellFormed(b);
    assert HasAt(s, se, SentenceClose);
    assert PiecesAt(s, p, b);
    RenderPieces(s, p, b);
  }

  /** A match passes the checks of `BlockAt`. */
  lemma MatchReads(s: string, p: nat, b: RawBlock)
    requires MatchesAt(s, p, b)
    ensures ReadsAt(s, p, b)
  {
    RenderPieces(s, p, b);
    var te := p + 2 + |b.term|;
    var q := te + |TermClose|;
    var tre := q + |b.translation|;
    var u := tre + |TranslationClose|;
    var se := u + |b.sentence|;
    HasAtChar(s, te, TermClose, 0);
    HasAtChar(s, tre, TranslationClose, 0);
    HasAtChar(s, se, SentenceClose, 0);
    RunUntilAfterRun(s, p + 2, b.term, '*');
    RunUntilAfterRun(s, q, b.translation, ')');
    SentenceRunAfterRun(s, u, b.sentence);
  }

  /** A block the scanner reads at `p` is a match of the pattern at `p`. */
  lemma BlockAtMatches(s: string, p: nat)
    requires p <= |s|
    ensures BlockAt(s, p).Some? ==> MatchesAt(s, p, BlockAt(s, p).value)
  {
    if BlockAt(s, p).Some? {
      var b := BlockAt(s, p).value;
      ReadsAtIsBlockAt(s, p, b);
      ReadsAtMatches(s, p, b);
    }
  }

  /** A match at `p` is the one `BlockAt` finds there: the captures are determined by `s` and `p`. */
  lemma BlockAtComplete(s: string, p: nat, b: RawBlock)
    requires MatchesAt(s, p, b)
    ensures BlockAt(s, p) == Some(b)
  {
    MatchReads(s, p, b);
    ReadsAtIsBlockAt(s, p, b);
  }

  /** Every match starts with an asterisk. */
  lemma MatchStartsWithStar(s: string, p: int, b: RawBlock)
    requires MatchesAt(s, p, b)
    ensures s[p] == '*'
  {
    HasAtChar(s, p, Render(b), 0);
  }

  /** Where there is no asterisk, no match starts. */
  lemma NoStarNoMatch(s: string, lo: int, hi: int)
    requires forall k :: lo <= k < hi && 0 <= k < |s| ==> s[k] != '*'
    ensures NoMatchIn(s, lo, hi)
  {
    forall p, b | lo <= p < hi && MatchesAt(s, p, b) ensures false {
      MatchStartsWithStar(s, p, b);
    }
  }

  /** The global search from `pos`, left to right. */
  function Scan(s: string, pos: nat): (ms: seq<Match>)
    requires pos <= |s|
    decreases |s| - pos
  {
    if pos == |s| then []
    else
      match BlockAt(s, pos)
      case Some(b) => [Match(pos, b)] + Scan(s, pos + |Render(b)|)
      case None => Scan(s, pos + 1)
  }

  /** The scanner returns what the global search returns. */
  lemma {:induction false} ScanIsMatchAll(s: string, pos: nat)
    requires pos <= |s|
    ensures IsMatchAll(s, pos, Scan(s, pos))
    decreases |s| - pos
  {
    if pos == |s| {
      // a match is never empty, so none starts at the end of the text
    } else if BlockAt(s, pos).Some? {
      var b := BlockAt(s, pos).value;
      BlockAtMatches(s, pos);
      ScanIsMatchAll(s, pos + |Render(b)|);
      ScanAtBlock(s, pos, b);
      MatchAllCons(s, pos, Match(pos, b), Scan(s, pos + |Render(b)|));
    } else {
      ScanIsMatchAll(s, pos + 1);
      forall b | MatchesAt(s, pos, b) ensures false {
        BlockAtComplete(s, pos, b);
      }
      ExtendNoMatch(s, pos, Scan(s, pos + 1));
      ScanPastNoBlock(s, pos);
    }
  }

  /** The leftmost match from `from`, followed by the search from its end, is the search from `from`. */
  lemma MatchAllCons(s: string, from: nat, m: Match, ms: seq<Match>)
    requires from <= m.start && NoMatchIn(s, from, m.start)
    requires MatchesAt(s, m.start, m.block) && IsMatchAll(s, End(m), ms)
    ensures IsMatchAll(s, from, [m] + ms)
  {
    assert ([m] + ms)[1..] == ms;
  }

  /** Where `BlockAt` reads nothing, the scan moves on by one character. */
  lemma ScanPastNoBlock(s: string, pos: nat)
    requires pos < |s| && BlockAt(s, pos).None?
    ensures Scan(s, pos) == Scan(s, pos + 1)
  {
  }

  /** Where `BlockAt` reads a block, the scan yields its match and then resumes after it. */
  lemma ScanAtBlock(s: string, pos: nat, b: RawBlock)
    requires pos < |s| && BlockAt(s, pos) == Some(b)
    ensures Scan(s, pos) == [Match(pos, b)] + Scan(s, pos + |Render(b)|)
  {
  }

  /** A search from `pos + 1` is also the search from `pos` when nothing matches at `pos`. */
  lemma ExtendNoMatch(s: string, pos: nat, ms: seq<Match>)
    requires IsMatchAll(s, pos + 1, ms)
    requires forall b :: !MatchesAt(s, pos, b)
    ensures IsMatchAll(s, pos, ms)
  {
  }

  /** There is only one result of the global search. */
  lemma {:induction false} MatchAllUnique(s: string, from: nat, ms: seq<Match>, ms': seq<Match>)
    requires IsMatchAll(s, from, ms) && IsMatchAll(s, from, ms')
    ensures ms == ms'
    decreases |ms|
  {
    if ms != [] && ms' != [] {
      var m, m' := ms[0], ms'[0];
      // each start lies outside the other's match-free stretch
      assert m.start == m'.start;
      BlockAtComplete(s, m.start, m.block);
      BlockAtComplete(s, m'.start, m'.block);
      MatchAllUnique(s, End(m), ms[1..], ms'[1..]);
      assert ms == [m] + ms[1..] && ms' == [m'] + ms'[1..];
    }
    // when only one of them is empty, its match-free stretch holds the other's first match
  }

  /** The global search yields nothing exactly when no match starts anywhere. */
  lemma MatchAllEmptyIff(s: string, ms: seq<Match>)
    requires IsMatchAll(s, 0, ms)
    ensures ms == [] <==> NoMatchIn(s, 0, |s| + 1)
  {
    if ms != [] {
      assert MatchesAt(s, ms[0].start, ms[0].block);
    }
  }

  /** Matches come in document order and never overlap. */
  lemma {:induction false} MatchAllOrdered(s: string, from: nat, ms: seq<Match>)
    requires IsMatchAll(s, from, ms)
    ensures forall i :: 0 <= i < |ms| ==> from <= ms[i].start && End(ms[i]) <= |s|
    ensures forall i, j :: 0 <= i < j < |ms| ==> End(ms[i]) <= ms[j].start
    decreases |ms|
  {
    if ms != [] {
      MatchAllOrdered(s, End(ms[0]), ms[1..]);
      assert forall i :: 1 <= i < |ms| ==> ms[i] == ms[1..][i - 1];
    }
  }

  /** A match depends only on the text it covers, so it survives any prefix. */
  lemma MatchesAtShift(x: string, y: string, p: nat, b: RawBlock)
    ensures MatchesAt(x + y, |x| + p, b) <==> MatchesAt(y, p, b)
  {
    HasAtShift(x, y, p, Render(b));
  }

  function Shift(ms: seq<Match>, d: nat): (r: seq<Match>)
    ensures |r| == |ms|
  {
    if ms == [] then [] else [Match(ms[0].start + d, ms[0].block)] + Shift(ms[1..], d)
  }

  /** The search of `y` from `from` is the search of `x + y` from `|x| + from`, shifted by `|x|`. */
  lemma {:induction false} MatchAllShift(x: string, y: string, from: nat, ms: seq<Match>)
    requires IsMatchAll(y, from, ms)
    ensures IsMatchAll(x + y, |x| + from, Shift(ms, |x|))
    decreases |ms|
  {
    var s := x + y;
    var r := Shift(ms, |x|);
    var hi := if ms == [] then |y| + 1 else ms[0].start;
    forall p, b | |x| + from <= p < |x| + hi && MatchesAt(s, p, b) ensures false {
      MatchesAtShift(x, y, p - |x|, b);
    }
    if ms != [] {
      MatchesAtShift(x, y, ms[0].start, ms[0].block);
      MatchAllShift(x, y, End(ms[0]), ms[1..]);
      assert r == [r[0]] + Shift(ms[1..], |x|);
      MatchAllCons(s, |x| + from, r[0], Shift(ms[1..], |x|));
    }
  }

  /** The scanner's result is the one and only result of the global search. */
  lemma MatchAllIsScan(s: string)
    ensures IsMatchAll(s, 0, Scan(s, 0))
    ensures forall ms :: IsMatchAll(s, 0, ms) ==> ms == Scan(s, 0)
  {
    ScanIsMatchAll(s, 0);
    forall ms | IsMatchAll(s, 0, ms) ensures ms == Scan(s, 0) {
      MatchAllUnique(s, 0, ms, Scan(s, 0));
    }
  }

  /** Every match holds a closing parenthesis directly followed by a line feed. */
  lemma MatchHasParenLineFeed(s: string, p: int, b: RawBlock)
    requires MatchesAt(s, p, b)
    ensures var q := p + 2 + |b.term| + |TermClose| + |b.translation|;
      q + 1 < |s| && s[q] == ')' && s[q + 1] == '\n'
  {
    RenderPieces(s, p, b);
    var q := p + 2 + |b.term| + |TermClose| + |b.translation|;
    HasAtChar(s, q, TranslationClose, 0);
    HasAtChar(s, q, TranslationClose, 1);
  }

  /** Without `)` directly before a line feed there is no match: the expression wants `)\n`, not `)\r\n`. */
  lemma NoParenLineFeedNoMatch(s: string)
    requires forall k :: 0 <= k < |s| - 1 ==> !(s[k] == ')' && s[k + 1] == '\n')
    ensures NoMatchIn(s, 0, |s| + 1)
  {
    forall p, b | 0 <= p < |s| + 1 && MatchesAt(s, p, b) ensures false {
      MatchHasParenLineFeed(s, p, b);
    }
  }

  // ---------------------------------------------------------------------
  // Texts made of blocks

  function RenderAll(bs: seq<RawBlock>): string {
    if bs == [] then "" else Render(bs[0]) + RenderAll(bs[1..])
  }

  /** The matches of `RenderAll(bs)` placed from offset `d` on. */
  function Placed(bs: seq<RawBlock>, d: nat): (ms: seq<Match>)
    ensures |ms| == |bs|
    ensures forall i :: 0 <= i < |bs| ==> ms[i].block == bs[i]
  {
    if bs == [] then [] else [Match(d, bs[0])] + Placed(bs[1..], d + |Render(bs[0])|)
  }

  lemma {:induction false} ShiftPlaced(bs: seq<RawBlock>, d: nat, e: nat)
    ensures Shift(Placed(bs, d), e) == Placed(bs, d + e)
  {
    if bs != [] {
      ShiftPlaced(bs[1..], d + |Render(bs[0])|, e);
      assert Shift(Placed(bs, d), e)[1..] == Shift(Placed(bs[1..], d + |Render(bs[0])|), e);
    }
  }

  /** A block written in front of a text adds one match in front of the text's own. */
  lemma BlockThen(b: RawBlock, y: string, ms: seq<Match>)
    requires WellFormed(b) && IsMatchAll(y, 0, ms)
    ensures IsMatchAll(Render(b) + y, 0, [Match(0, b)] + Shift(ms, |Render(b)|))
  {
    var x := Render(b);
    MatchAllShift(x, y, 0, ms);
    HasAtIsSlice(x + y, 0, x);
    assert (x + y)[0..|x|] == x;
    assert ([Match(0, b)] + Shift(ms, |x|))[1..] == Shift(ms, |x|);
  }

  /** Well-formed blocks written one after the other are found again, one match each. */
  lemma {:induction false} RenderAllMatches(bs: seq<RawBlock>)
    requires forall i :: 0 <= i < |bs| ==> WellFormed(bs[i])
    ensures IsMatchAll(RenderAll(bs), 0, Placed(bs, 0))
  {
    if bs != [] {
      var b, rest := bs[0], bs[1..];
      assert forall i :: 0 <= i < |rest| ==> WellFormed(rest[i]) by {
        forall i | 0 <= i < |rest| ensures WellFormed(rest[i]) { assert rest[i] == bs[i + 1]; }
      }
      RenderAllMatches(rest);
      PlacedThen(b, rest);
      assert bs == [b] + rest;
    }
  }

  /** A well-formed block written in front of blocks that are found again is found again too. */
  lemma PlacedThen(b: RawBlock, rest: seq<RawBlock>)
    requires WellFormed(b) && IsMatchAll(RenderAll(rest), 0, Placed(rest, 0))
    ensures IsMatchAll(RenderAll([b] + rest), 0, Placed([b] + rest, 0))
  {
    var bs := [b] + rest;
    assert bs[0] == b && bs[1..] == rest;
    assert RenderAll(bs) == Render(b) + RenderAll(rest);
    assert Placed(bs, 0) == [Match(0, b)] + Placed(rest, |Render(b)|);
    ShiftPlaced(rest, 0, |Render(b)|);
    BlockThen(b, RenderAll(rest), Placed(rest, 0));
  }

  /** One block inside text that has no asterisk is the only match. */
  lemma OneBlockMatches(pre: string, b: RawBlock, post: string)
    requires WellFormed(b)
    requires forall k :: 0 <= k < |pre| ==> pre[k] != '*'
    requires forall k :: 0 <= k < |post| ==> post[k] != '*'
    ensures IsMatchAll(pre + Render(b) + post, 0, [Match(|pre|, b)])
  {
    var s := pre + Render(b) + post;
    var e := |pre| + |Render(b)|;
    HasAtIsSlice(s, |pre|, Render(b));
    assert s[|pre|..e] == Render(b);
    NoStarNoMatch(s, 0, |pre|);
    forall k | e <= k < |s| + 1 && 0 <= k < |s| ensures s[k] != '*' {
      assert s[k] == post[k - e];
    }
    NoStarNoMatch(s, e, |s| + 1);
    assert [Match(|pre|, b)][1..] == [];
  }
}
