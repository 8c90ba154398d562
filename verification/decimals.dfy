/** `Functions.NormalizeDecimal`: deterministic text for a decimal, made by
    dropping the trailing zeros of its fraction and then a bare trailing
    decimal point. */
module Decimals {
  import opened Wrappers
  import opened Chars
  import opened Errors
  import opened Values

  predicate HasDot(t: Text) {
    exists i | 0 <= i < |t| :: t[i] == Dot
  }

  /** At most one decimal point, as in any text `decimal.ToString` writes. */
  predicate AtMostOneDot(t: Text) {
    forall i, j | 0 <= i < j < |t| :: !(t[i] == Dot && t[j] == Dot)
  }

  /** The stripping loop: removes a trailing `0` and goes on, or removes a
      trailing `.` and stops, or stops at anything else. */
  function StripFraction(t: Text): (r: Text)
    ensures |r| <= |t| && r == t[..|r|]
    ensures forall i | |r| < i < |t| :: t[i] == Zero
    ensures |r| < |t| ==> t[|r|] == Zero || t[|r|] == Dot
    ensures |r| == |t| || t[|r|] == Zero ==> |r| == 0 || (r[|r| - 1] != Zero && r[|r| - 1] != Dot)
    ensures forall i | 0 <= i < |t| && t[i] == Dot :: i <= |r|
    decreases |t|
  {
    if |t| == 0 then t
    else if t[|t| - 1] == Dot then t[..|t| - 1]
    else if t[|t| - 1] == Zero then StripFraction(t[..|t| - 1])
    else t
  }

  /** The text half of `NormalizeDecimal(decimal)`: text without a decimal
      point is left as it is; otherwise its fraction is stripped. */
  function NormalizeText(t: Text): (r: Text)
    ensures !HasDot(t) ==> r == t
    ensures |r| <= |t| && r == t[..|r|]
    ensures HasDot(t) ==> forall i | |r| <= i < |t| :: t[i] == Zero || (i == |r| && t[i] == Dot)
    ensures HasDot(t) && (|r| == |t| || t[|r|] == Zero) ==> |r| == 0 || (r[|r| - 1] != Zero && r[|r| - 1] != Dot)
    ensures forall i | 0 <= i < |t| && t[i] == Dot :: i <= |r|
  {
    if HasDot(t) then StripFraction(t) else t
  }

  /** The integer part (everything before the decimal point) is untouched. */
  lemma NormalizeKeepsIntegerPart(t: Text, k: nat)
    requires k < |t| && t[k] == Dot
    ensures k <= |NormalizeText(t)| && NormalizeText(t)[..k] == t[..k]
  {
  }

  /** Two instances: `1.50` becomes `1.5`, and `2.00` becomes `2`. */
  lemma NormalizeExamples()
    ensures NormalizeText([0x31, Dot, 0x35, Zero]) == [0x31, Dot, 0x35]
    ensures NormalizeText([0x32, Dot, Zero, Zero]) == [0x32]
  {
    var a := [0x31, Dot, 0x35, Zero];
    assert a[1] == Dot;
    assert a[..3] == [0x31, Dot, 0x35];
    assert StripFraction(a[..3]) == a[..3];
    assert StripFraction(a) == StripFraction(a[..3]);
    var b := [0x32, Dot, Zero, Zero];
    assert b[1] == Dot;
    assert b[..3] == [0x32, Dot, Zero] && b[..2] == [0x32, Dot] && b[..1] == [0x32];
  }

  /** Normalising normalised text changes nothing. */
  lemma NormalizeIdempotent(t: Text)
    requires AtMostOneDot(t)
    ensures NormalizeText(NormalizeText(t)) == NormalizeText(t)
  {
    var r := NormalizeText(t);
    if HasDot(t) && HasDot(r) {
      var j :| 0 <= j < |r| && r[j] == Dot;
      assert t[j] == Dot;
      if |r| < |t| && t[|r|] == Dot {
        assert false;
      }
      assert StripFraction(r) == r;
    }
  }

  /** `NormalizeDecimal(decimal)`: the en-US text of the value, normalised. */
  function NormalizeDecimal(p: Platform, d: DecimalValue): (r: Text)
    ensures |r| <= |p.formatDecimalEnUs(d)| && r == p.formatDecimalEnUs(d)[..|r|]
    ensures !HasDot(p.formatDecimalEnUs(d)) ==> r == p.formatDecimalEnUs(d)
    ensures var t := p.formatDecimalEnUs(d);
            HasDot(t) ==> forall i | |r| <= i < |t| :: t[i] == Zero || (i == |r| && t[i] == Dot)
    ensures var t := p.formatDecimalEnUs(d);
            HasDot(t) && (|r| == |t| || t[|r|] == Zero) ==> |r| == 0 || (r[|r| - 1] != Zero && r[|r| - 1] != Dot)
  {
    NormalizeText(p.formatDecimalEnUs(d))
  }

  /** `NormalizeDecimal(string)`: empty text is returned as it is; text
      `decimal.TryParse` refuses is an error; anything else is parsed and
      normalised. */
  function NormalizeDecimalText(p: Platform, value: Text): (r: Result<Text, Error>)
    ensures |value| == 0 ==> r == Success(value)
    ensures r.Failure? <==> |value| > 0 && p.parseDecimal(value).None?
    ensures r.Failure? ==> r.error == NotADecimal(value)
    ensures |value| > 0 && r.Success? ==> r.value == NormalizeDecimal(p, p.parseDecimal(value).value)
  {
    if |value| == 0 then Success(value)
    else match p.parseDecimal(value)
      case None => Failure(NotADecimal(value))
      case Some(d) => Success(NormalizeDecimal(p, d))
  }
}
