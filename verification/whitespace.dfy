// `Functions.SkipWhitespace`: the loop that steps over white space, `//`
// line comments and `/* */` block comments before each token. Comments
// are a deliberate extension of JSON, and a comment left open at the end
// of the text simply ends there.
module Whitespace {
  import opened Chars

  predicate IsLineBreak(c: CodeUnit) {
    c == CarriageReturn || c == LineFeed
  }

  predicate StartsLineComment(s: Text, pos: nat) {
    pos + 1 < |s| && s[pos] == Slash && s[pos + 1] == Slash
  }

  predicate StartsBlockComment(s: Text, pos: nat) {
    pos + 1 < |s| && s[pos] == Slash && s[pos + 1] == Star
  }

  // A `*/` begins at `i`.
  predicate ClosesAt(s: Text, i: nat) {
    i + 1 < |s| && s[i] == Star && s[i + 1] == Slash
  }

  /** The inner loop of a line comment, started just after `//`: the
      position just past the first CR or LF, or the end of the text. */
  function LineCommentEnd(s: Text, pos: nat): (r: nat)
    requires pos <= |s|
    ensures pos <= r <= |s|
    ensures forall i | pos <= i < r - 1 :: !IsLineBreak(s[i])
    ensures || (r == |s| && forall i | pos <= i < |s| :: !IsLineBreak(s[i]))
            || (pos < r && IsLineBreak(s[r - 1]))
    decreases |s| - pos
  {
    if pos == |s| then pos
    else if IsLineBreak(s[pos]) then pos + 1
    else LineCommentEnd(s, pos + 1)
  }

  // The inner loop of a block comment, started just after `/*`: the
  // position just past the first `*/` that begins at or after `pos`, or
  // the end of the text.
  function BlockCommentEnd(s: Text, pos: nat): (r: nat)
    requires pos <= |s|
    ensures pos <= r <= |s|
    ensures forall i | pos <= i && i + 2 < r :: !ClosesAt(s, i)
    ensures || (r == |s| && forall i | pos <= i < |s| :: !ClosesAt(s, i))
            || (pos + 2 <= r && ClosesAt(s, r - 2))
    decreases |s| - pos
  {
    if pos == |s| then pos
    else if ClosesAt(s, pos) then pos + 2
    else BlockCommentEnd(s, pos + 1)
  }

  // The block-comment loop as written: starting just after `/*`, it tests
  // `input[pos - 1] == '*' && input[pos] == '/'`, so its first test looks
  // at the `*` of the opening `/*` itself.
  // It therefore behaves as the intended loop started one character
  // early, on the opener's `*`.
  function BlockCommentEndAsWritten(s: Text, pos: nat): (r: nat)
    requires 1 <= pos <= |s|
    ensures pos <= r <= |s|
    ensures r == BlockCommentEnd(s, pos - 1)
    decreases |s| - pos
  {
    if pos == |s| then pos
    else if s[pos - 1] == Star && s[pos] == Slash then pos + 1
    else BlockCommentEndAsWritten(s, pos + 1)
  }

  // In `/*/ 1 */` the written loop ends the comment at the third
  // character, although no `*/` follows the opening `/*` there; the text
  // ` 1 */` is then read as content.
  lemma BlockCommentEndAsWrittenClosesEarly()
    ensures var s := [Slash, Star, Slash, Space, 0x31, Space, Star, Slash];
            && StartsBlockComment(s, 0)
            && BlockCommentEndAsWritten(s, 2) == 3
            && BlockCommentEnd(s, 2) == 8
  {
    var s := [Slash, Star, Slash, Space, 0x31, Space, Star, Slash];
    assert !ClosesAt(s, 2) && !ClosesAt(s, 3) && !ClosesAt(s, 4) && !ClosesAt(s, 5) && ClosesAt(s, 6);
    assert BlockCommentEnd(s, 6) == 8;
    assert BlockCommentEnd(s, 5) == 8;
    assert BlockCommentEnd(s, 4) == 8;
    assert BlockCommentEnd(s, 3) == 8;
  }

  /** The position is at the end or at a character that is neither white
      space nor the start of a comment. */
  predicate AtSignificant(s: Text, pos: nat) {
    pos >= |s| || (!IsWhiteSpace(s[pos]) && !StartsLineComment(s, pos) && !StartsBlockComment(s, pos))
  }

  // `SkipWhitespace` on a string (the intended loop): white space is
  // stepped over one character at a time, a `//` comment through the first
  // CR or LF, a `/*` comment through the first `*/` after it; it stops at
  // the first other character or at the end.
  function SkipWhitespace(s: Text, pos: nat): (r: nat)
    ensures pos <= r
    ensures pos <= |s| ==> r <= |s|
    ensures pos > |s| ==> r == pos
    ensures AtSignificant(s, r)
    decreases |s| - pos
  {
    if pos >= |s| then pos
    else if IsWhiteSpace(s[pos]) then SkipWhitespace(s, pos + 1)
    else if StartsLineComment(s, pos) then SkipWhitespace(s, LineCommentEnd(s, pos + 2))
    else if StartsBlockComment(s, pos) then SkipWhitespace(s, BlockCommentEnd(s, pos + 2))
    else pos
  }

  /** Skipping does not move at the end or at a character that is neither
      white space nor the start of a comment. */
  lemma SkipStopsAtSignificant(s: Text, pos: nat)
    requires AtSignificant(s, pos)
    ensures SkipWhitespace(s, pos) == pos
  {
  }

  /** Skipping stops at once at a character that is neither white space
      nor a slash. */
  lemma SkipAtSignificantChar(s: Text, pos: nat)
    requires pos < |s| && !IsWhiteSpace(s[pos]) && s[pos] != Slash
    ensures SkipWhitespace(s, pos) == pos
  {
  }

  /** Skipping from where a skip stopped goes nowhere. */
  lemma SkipWhitespaceIdempotent(s: Text, pos: nat)
    ensures SkipWhitespace(s, SkipWhitespace(s, pos)) == SkipWhitespace(s, pos)
  {
    var r := SkipWhitespace(s, pos);
    assert AtSignificant(s, r);
  }

  /** A run of white space is skipped as a whole: skipping from its start
      ends where skipping from its end does. */
  lemma {:induction false} SkipWhiteRun(s: Text, pos: nat, q: nat)
    requires pos <= q <= |s|
    requires forall i | pos <= i < q :: IsWhiteSpace(s[i])
    ensures SkipWhitespace(s, pos) == SkipWhitespace(s, q)
    decreases q - pos
  {
    if pos < q {
      SkipWhiteRun(s, pos + 1, q);
    }
  }

  /** A line comment that never meets a CR or LF runs to the end of the
      text without error. */
  lemma UnterminatedLineComment(s: Text, pos: nat)
    requires StartsLineComment(s, pos)
    requires forall i | pos + 2 <= i < |s| :: !IsLineBreak(s[i])
    ensures SkipWhitespace(s, pos) == |s|
  {
    var e := LineCommentEnd(s, pos + 2);
    assert e == |s|;
  }

  // A block comment that never meets `*/` runs to the end of the text
  // without error.
  lemma UnterminatedBlockComment(s: Text, pos: nat)
    requires StartsBlockComment(s, pos)
    requires forall i | pos + 2 <= i < |s| :: !ClosesAt(s, i)
    ensures SkipWhitespace(s, pos) == |s|
  {
    var e := BlockCommentEnd(s, pos + 2);
    assert e == |s|;
  }

  /** A line comment ends just after its first line break: what follows
      is skipped as if the comment were not there. */
  lemma LineCommentThroughBreak(s: Text, pos: nat, brk: nat)
    requires StartsLineComment(s, pos)
    requires pos + 2 <= brk < |s| && IsLineBreak(s[brk])
    requires forall i | pos + 2 <= i < brk :: !IsLineBreak(s[i])
    ensures SkipWhitespace(s, pos) == SkipWhitespace(s, brk + 1)
  {
    var e := LineCommentEnd(s, pos + 2);
    assert e == brk + 1;
  }

  /** A block comment ends just after the first `*` `/` pair that begins
      after its opener: what follows is skipped as if the comment were not
      there. */
  lemma BlockCommentThroughClose(s: Text, pos: nat, close: nat)
    requires StartsBlockComment(s, pos)
    requires pos + 2 <= close && ClosesAt(s, close)
    requires forall i | pos + 2 <= i < close :: !ClosesAt(s, i)
    ensures SkipWhitespace(s, pos) == SkipWhitespace(s, close + 2)
  {
    var e := BlockCommentEnd(s, pos + 2);
    assert e == close + 2;
  }

  /** A line comment that ends at a line break reads nothing past it. */
  lemma {:induction false} LineCommentEndReadsTo(s: Text, s2: Text, pos: nat, n: nat)
    requires pos <= |s| && SameUpTo(s, s2, n)
    requires LineCommentEnd(s, pos) < |s| && LineCommentEnd(s, pos) <= n
    ensures pos <= |s2| && LineCommentEnd(s2, pos) == LineCommentEnd(s, pos)
    decreases |s| - pos
  {
    if !IsLineBreak(s[pos]) {
      LineCommentEndReadsTo(s, s2, pos + 1, n);
    }
  }

  /** A block comment that ends at its `*` `/` reads nothing past it. */
  lemma {:induction false} BlockCommentEndReadsTo(s: Text, s2: Text, pos: nat, n: nat)
    requires pos <= |s| && SameUpTo(s, s2, n)
    requires BlockCommentEnd(s, pos) < |s| && BlockCommentEnd(s, pos) <= n
    ensures pos <= |s2| && BlockCommentEnd(s2, pos) == BlockCommentEnd(s, pos)
    decreases |s| - pos
  {
    assert pos + 1 < n;
    if !ClosesAt(s, pos) {
      BlockCommentEndReadsTo(s, s2, pos + 1, n);
    }
  }

  /** Skipping that stops before `n` reads nothing from `n` on; the one
      character it may look at past its stop is the one after a `/`. */
  lemma {:induction false} SkipReadsTo(s: Text, s2: Text, pos: nat, n: nat)
    requires SameUpTo(s, s2, n)
    requires SkipWhitespace(s, pos) < n
    requires s[SkipWhitespace(s, pos)] == Slash ==> SkipWhitespace(s, pos) + 1 < n
    ensures SkipWhitespace(s2, pos) == SkipWhitespace(s, pos)
    decreases |s| - pos
  {
    if IsWhiteSpace(s[pos]) {
      SkipReadsTo(s, s2, pos + 1, n);
    } else if StartsLineComment(s, pos) {
      LineCommentEndReadsTo(s, s2, pos + 2, n);
      SkipReadsTo(s, s2, LineCommentEnd(s, pos + 2), n);
    } else if StartsBlockComment(s, pos) {
      BlockCommentEndReadsTo(s, s2, pos + 2, n);
      SkipReadsTo(s, s2, BlockCommentEnd(s, pos + 2), n);
    }
  }
}
