/** The integer text the codec writes and reads: `int.ToString()` /
    `long.ToString()`, `int.TryParse` / `long.TryParse` with the default
    integer number style, and the four-digit hex forms of `\uXXXX` escapes
    (`string.Format("{0:x4}")` and `Convert.ToUInt16(_, 16)`). The culture is
    taken to use `-` and `+` as its sign symbols. */
module Numbers {
  import opened Wrappers
  import opened Chars

  const Int32Min: int := -0x8000_0000
  const Int32Max: int := 0x7FFF_FFFF
  const Int64Min: int := -0x8000_0000_0000_0000
  const Int64Max: int := 0x7FFF_FFFF_FFFF_FFFF

  type int32 = i: int | Int32Min <= i <= Int32Max
  type int64 = i: int | Int64Min <= i <= Int64Max

  function Digit(d: nat): (c: CodeUnit)
    requires d < 10
    ensures IsDigit(c) && c - 0x30 == d
  {
    0x30 + d
  }

  /** The value of a run of decimal digits, most significant first. */
  function DigitsValue(t: Text): nat
    requires AllDigits(t)
  {
    if |t| == 0 then 0 else DigitsValue(t[..|t| - 1]) * 10 + (t[|t| - 1] - 0x30)
  }

  /** Decimal digits of `n` without leading zeros. */
  function NatText(n: nat): (t: Text)
    ensures |t| > 0 && AllDigits(t)
    ensures t[0] == Zero ==> n == 0
  {
    if n < 10 then [Digit(n)] else NatText(n / 10) + [Digit(n % 10)]
  }

  /** `ToString()` of an integer: an optional minus sign, then the digits. */
  function IntText(i: int): (t: Text)
    ensures |t| > 0
  {
    if i < 0 then [Minus] + NatText(-i) else NatText(i)
  }

  lemma {:induction false} NatTextValue(n: nat)
    ensures DigitsValue(NatText(n)) == n
  {
    if n >= 10 {
      var t := NatText(n / 10) + [Digit(n % 10)];
      assert t[..|t| - 1] == NatText(n / 10);
      NatTextValue(n / 10);
    }
  }

  /** The white space `NumberStyles.AllowLeadingWhite` and
      `NumberStyles.AllowTrailingWhite` admit: U+0009..U+000D and U+0020. */
  predicate IsNumberWhite(c: CodeUnit) {
    0x09 <= c <= 0x0D || c == 0x20
  }

  /** U+0000, which number parsing accepts after the number and any
      trailing white space. */
  predicate IsNul(c: CodeUnit) {
    c == 0
  }

  /** The value written by `NumberStyles.Integer` text: optional white
      space, an optional sign, one or more ASCII digits, optional white
      space, then any number of U+0000 characters. Range checks are left to
      the callers. */
  function IntegerSyntax(t: Text): Option<int> {
    var u := TrimStartWhere(TrimEndWhere(TrimEndWhere(t, IsNul), IsNumberWhite), IsNumberWhite);
    if |u| > 1 && u[0] == Minus && AllDigits(u[1..]) then
      Some(-(DigitsValue(u[1..]) as int))
    else if |u| > 1 && u[0] == Plus && AllDigits(u[1..]) then
      Some(DigitsValue(u[1..]))
    else if |u| > 0 && AllDigits(u) then
      Some(DigitsValue(u))
    else
      None
  }

  /** `int.TryParse`. */
  function TryParseInt32(t: Text): (r: Option<int32>)
    ensures r.Some? <==> IntegerSyntax(t).Some? && Int32Min <= IntegerSyntax(t).value <= Int32Max
    ensures r.Some? ==> IntegerSyntax(t) == Some(r.value as int)
  {
    match IntegerSyntax(t)
    case Some(i) => if Int32Min <= i <= Int32Max then Some(i) else None
    case None => None
  }

  /** `long.TryParse`. */
  function TryParseInt64(t: Text): (r: Option<int64>)
    ensures r.Some? <==> IntegerSyntax(t).Some? && Int64Min <= IntegerSyntax(t).value <= Int64Max
    ensures r.Some? ==> IntegerSyntax(t) == Some(r.value as int)
  {
    match IntegerSyntax(t)
    case Some(i) => if Int64Min <= i <= Int64Max then Some(i) else None
    case None => None
  }

  /** Integer text reads back as the integer it was written from. */
  lemma IntTextSyntax(i: int)
    ensures IntegerSyntax(IntText(i)) == Some(i)
  {
    var t := IntText(i);
    var n: nat := if i < 0 then -i else i;
    var digits := NatText(n);
    assert t == if i < 0 then [Minus] + digits else digits;
    assert !IsNul(t[|t| - 1]) && !IsNumberWhite(t[|t| - 1]);
    assert TrimEndWhere(t, IsNul) == t;
    assert TrimEndWhere(t, IsNumberWhite) == t;
    assert !IsNumberWhite(t[0]);
    assert TrimStartWhere(t, IsNumberWhite) == t;
    NatTextValue(n);
    if i < 0 {
      assert t[1..] == digits;
      assert t[0] == Minus;
    } else {
      assert t[0] != Minus && t[0] != Plus;
    }
  }

  /** The last `n` lower-case hex digits of `c`, most significant first. */
  function HexDigits(c: nat, n: nat): (t: Text)
    ensures |t| == n && AllHexDigits(t)
    ensures forall i | 0 <= i < n :: t[i] < 0x80 && t[i] != Quote && t[i] != Backslash
  {
    if n == 0 then [] else HexDigits(c / 0x10, n - 1) + [HexDigit(c % 0x10)]
  }

  /** `string.Format("{0:x4}", c)`: exactly four lower-case hex digits. */
  function Hex4(c: CodeUnit): (t: Text)
    ensures |t| == 4 && AllHexDigits(t)
    ensures forall i | 0 <= i < 4 :: t[i] < 0x80 && t[i] != Quote && t[i] != Backslash
  {
    HexDigits(c, 4)
  }

  /** `16` to the power `n`. */
  function HexPower(n: nat): (m: nat)
    ensures m > 0
  {
    if n == 0 then 1 else 0x10 * HexPower(n - 1)
  }

  /** The value of a run of hex digits, most significant first. */
  function HexValue(t: Text): nat
    requires AllHexDigits(t)
  {
    if |t| == 0 then 0 else HexValue(t[..|t| - 1]) * 16 + HexDigitValue(t[|t| - 1])
  }

  /** Four hex digits or fewer always fit in 16 bits. */
  lemma {:induction false} HexValueFits(t: Text)
    ensures AllHexDigits(t) && |t| <= 4 ==> HexValue(t) < 0x1_0000
    ensures AllHexDigits(t) && |t| <= 3 ==> HexValue(t) < 0x1000
    ensures AllHexDigits(t) && |t| <= 2 ==> HexValue(t) < 0x100
    ensures AllHexDigits(t) && |t| <= 1 ==> HexValue(t) < 0x10
  {
    if |t| > 0 {
      HexValueFits(t[..|t| - 1]);
    }
  }

  /** Trailing U+0000 characters are dropped before the syntax is read,
      so they never change what the text parses as. */
  lemma TrailingNulsIgnored(t: Text, z: Text)
    requires forall i | 0 <= i < |z| :: z[i] == 0
    ensures IntegerSyntax(t + z) == IntegerSyntax(t)
  {
    TrimEndOfDropped(t, z, IsNul);
  }

  /** An int's text followed by U+0000 characters still reads as that int:
      `int.TryParse("12\0")` yields 12. */
  lemma TrailingNulsAfterInt32(i: int32, z: Text)
    requires forall k | 0 <= k < |z| :: z[k] == 0
    ensures TryParseInt32(IntText(i) + z) == Some(i)
  {
    IntTextSyntax(i);
    TrailingNulsIgnored(IntText(i), z);
  }

  /** `Convert.ToUInt16(t, 16)`: an optional `+` (a `-` is refused for base
      16), an optional `0x`/`0X` prefix, then one or more hex digits up to the
      end of the text, with a value that fits 16 bits. */
  function ParseHex16(t: Text): (r: Option<CodeUnit>)
    ensures r.Some? ==> |t| > 0 && t[0] != Minus
    ensures AllHexDigits(t) && 0 < |t| <= 4 ==> r == Some(HexValue(t))
    ensures r.Some? ==> IsHexDigit(t[|t| - 1])
    ensures r.Some? ==> forall i | 0 <= i < |t| :: IsHexDigit(t[i]) || t[i] == Plus || t[i] == LetterX || t[i] == CapitalX
  {
    HexValueFits(t);
    if |t| == 0 || t[0] == Minus then None
    else
      var unsigned := if t[0] == Plus then t[1..] else t;
      var digits := if |unsigned| >= 2 && unsigned[0] == Zero && (unsigned[1] == LetterX || unsigned[1] == CapitalX)
                    then unsigned[2..] else unsigned;
      if |digits| > 0 && AllHexDigits(digits) && HexValue(digits) < 0x1_0000 then Some(HexValue(digits)) else None
  }

  /** The last hex digit of `c` and the ones before it, below the next
      power of sixteen. */
  lemma DivideBySixteen(c: nat, n: nat) returns (q: nat, d: nat)
    requires 0 < n && c < HexPower(n)
    ensures c == q * 0x10 + d && d < 0x10 && q < HexPower(n - 1)
    ensures HexDigits(c, n) == HexDigits(q, n - 1) + [HexDigit(d)]
  {
    q, d := c / 0x10, c % 0x10;
  }

  /** The `n` hex digits written for a `c` below `16` to the power `n`
      read back as `c`. */
  lemma {:induction false} HexDigitsValue(c: nat, n: nat)
    requires c < HexPower(n)
    ensures HexValue(HexDigits(c, n)) == c
  {
    if n > 0 {
      var q, d := DivideBySixteen(c, n);
      HexDigitsValue(q, n - 1);
      LastHexDigit(HexDigits(q, n - 1), d);
    } else {
      assert HexPower(n) == 1 && HexDigits(c, n) == [];
    }
  }

  /** Appending a digit multiplies the value by sixteen and adds it. */
  lemma LastHexDigit(front: Text, d: nat)
    requires AllHexDigits(front) && d < 0x10
    ensures HexValue(front + [HexDigit(d)]) == HexValue(front) * 0x10 + d
  {
    var t := front + [HexDigit(d)];
    assert t[..|t| - 1] == front;
  }

  /** The hex digits written for a code unit read back as that code unit. */
  lemma Hex4RoundTrip(c: CodeUnit)
    ensures ParseHex16(Hex4(c)) == Some(c)
  {
    HexDigitsValue(c, 4);
    assert HexPower(4) == 0x1_0000;
  }
}
