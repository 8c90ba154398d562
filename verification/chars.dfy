/** .NET characters and strings, and the character classes the codec tests.

    A .NET `char` is one UTF-16 code unit, surrogate halves included, so it is
    modelled as an integer below 0x10000 rather than as Dafny's `char` (which
    excludes the surrogate range). */
module Chars {

  type CodeUnit = c: int | 0 <= c < 0x1_0000

  type Text = seq<CodeUnit>

  const Backspace: CodeUnit := 0x08
  const Tab: CodeUnit := 0x09
  const LineFeed: CodeUnit := 0x0A
  const FormFeed: CodeUnit := 0x0C
  const CarriageReturn: CodeUnit := 0x0D
  const Space: CodeUnit := 0x20
  const Quote: CodeUnit := 0x22
  const Star: CodeUnit := 0x2A
  const Plus: CodeUnit := 0x2B
  const Comma: CodeUnit := 0x2C
  const Minus: CodeUnit := 0x2D
  const Dot: CodeUnit := 0x2E
  const Slash: CodeUnit := 0x2F
  const Zero: CodeUnit := 0x30
  const Colon: CodeUnit := 0x3A
  const LeftBracket: CodeUnit := 0x5B
  const Backslash: CodeUnit := 0x5C
  const RightBracket: CodeUnit := 0x5D
  const LeftBrace: CodeUnit := 0x7B
  const RightBrace: CodeUnit := 0x7D

  // Lower-case letters that appear in escapes, literals and hex prefixes.
  const LetterA: CodeUnit := 0x61
  const LetterB: CodeUnit := 0x62
  const LetterE: CodeUnit := 0x65
  const LetterF: CodeUnit := 0x66
  const LetterL: CodeUnit := 0x6C
  const LetterN: CodeUnit := 0x6E
  const LetterR: CodeUnit := 0x72
  const LetterS: CodeUnit := 0x73
  const LetterT: CodeUnit := 0x74
  const LetterU: CodeUnit := 0x75
  const LetterX: CodeUnit := 0x78
  const CapitalX: CodeUnit := 0x58

  const NullText: Text := [LetterN, LetterU, LetterL, LetterL]
  const TrueText: Text := [LetterT, LetterR, LetterU, LetterE]
  const FalseText: Text := [LetterF, LetterA, LetterL, LetterS, LetterE]

  /** `char.IsWhiteSpace`: the Unicode space, line and paragraph separators
      plus the controls U+0009..U+000D and U+0085. */
  predicate IsWhiteSpace(c: CodeUnit) {
    || 0x09 <= c <= 0x0D
    || c == 0x20 || c == 0x85 || c == 0xA0 || c == 0x1680
    || 0x2000 <= c <= 0x200A
    || c == 0x2028 || c == 0x2029 || c == 0x202F || c == 0x205F || c == 0x3000
  }

  /** Two texts both at least `n` long that agree on their first `n`
      characters: a reader that looks at nothing from `n` on cannot tell
      them apart. */
  predicate SameUpTo(s: Text, s2: Text, n: nat) {
    n <= |s| && n <= |s2| && forall i | 0 <= i < n :: s[i] == s2[i]
  }

  lemma SameAt(s: Text, s2: Text, n: nat, i: nat)
    requires SameUpTo(s, s2, n) && i < n
    ensures i < |s2| && s2[i] == s[i]
  {
  }

  lemma SameUpToShorter(s: Text, s2: Text, n: nat, m: nat)
    requires SameUpTo(s, s2, n) && m <= n
    ensures SameUpTo(s, s2, m)
  {
  }

  predicate IsDigit(c: CodeUnit) {
    0x30 <= c <= 0x39
  }

  predicate AllDigits(t: Text) {
    forall i | 0 <= i < |t| :: IsDigit(t[i])
  }

  /** The digits `Convert.ToUInt16(_, 16)` accepts, in either case. */
  predicate IsHexDigit(c: CodeUnit) {
    IsDigit(c) || 0x41 <= c <= 0x46 || 0x61 <= c <= 0x66
  }

  predicate AllHexDigits(t: Text) {
    forall i | 0 <= i < |t| :: IsHexDigit(t[i])
  }

  function HexDigitValue(c: CodeUnit): (d: nat)
    requires IsHexDigit(c)
    ensures d < 16
  {
    if IsDigit(c) then c - 0x30
    else if c <= 0x46 then c - 0x41 + 10
    else c - 0x61 + 10
  }

  /** The lower-case hex digit for `d`, as `{0:x4}` formatting writes it. */
  function HexDigit(d: nat): (c: CodeUnit)
    requires d < 16
    ensures IsHexDigit(c) && HexDigitValue(c) == d
    ensures c < 0x80 && c != Quote && c != Backslash
  {
    if d < 10 then 0x30 + d else 0x61 + d - 10
  }

  /** `TrimEnd` generalised over the class of characters it removes. */
  function TrimEndWhere(t: Text, drop: CodeUnit -> bool): (r: Text)
    ensures |r| <= |t| && r == t[..|r|]
    ensures forall i | |r| <= i < |t| :: drop(t[i])
    ensures |r| == 0 || !drop(r[|r| - 1])
  {
    if |t| == 0 || !drop(t[|t| - 1]) then t else TrimEndWhere(t[..|t| - 1], drop)
  }

  /** `TrimStart` generalised over the class of characters it removes. */
  function TrimStartWhere(t: Text, drop: CodeUnit -> bool): (r: Text)
    ensures |r| <= |t| && r == t[|t| - |r|..]
    ensures forall i | 0 <= i < |t| - |r| :: drop(t[i])
    ensures |r| == 0 || !drop(r[0])
  {
    if |t| == 0 || !drop(t[0]) then t else TrimStartWhere(t[1..], drop)
  }

  /** Characters the trim drops, appended at the end, are trimmed away
      again. */
  lemma {:induction false} TrimEndOfDropped(t: Text, z: Text, drop: CodeUnit -> bool)
    requires forall i | 0 <= i < |z| :: drop(z[i])
    ensures TrimEndWhere(t + z, drop) == TrimEndWhere(t, drop)
    decreases |z|
  {
    if |z| == 0 {
      assert t + z == t;
    } else {
      var u := t + z;
      assert u[..|u| - 1] == t + z[..|z| - 1];
      TrimEndOfDropped(t, z[..|z| - 1], drop);
    }
  }

  /** `string.TrimEnd()`: removes trailing `char.IsWhiteSpace` characters. */
  function TrimEnd(t: Text): (r: Text)
    ensures |r| <= |t| && r == t[..|r|]
    ensures forall i | |r| <= i < |t| :: IsWhiteSpace(t[i])
    ensures |r| == 0 || !IsWhiteSpace(r[|r| - 1])
  {
    TrimEndWhere(t, IsWhiteSpace)
  }

  /** Trimming stops at the first non-white character from the end: text
      that ends in a non-white character followed only by white characters
      trims back to exactly that character. */
  lemma {:induction false} TrimEndOfPadded(t: Text, pad: Text)
    requires |t| > 0 && !IsWhiteSpace(t[|t| - 1])
    requires forall i | 0 <= i < |pad| :: IsWhiteSpace(pad[i])
    ensures TrimEnd(t + pad) == t
    decreases |pad|
  {
    if |pad| > 0 {
      assert (t + pad)[..|t + pad| - 1] == t + pad[..|pad| - 1];
      TrimEndOfPadded(t, pad[..|pad| - 1]);
    } else {
      assert t + pad == t;
    }
  }
}
