/** String literals: `Functions.ToJsonString` escapes text for output, and
    `Functions.GetStringValue` with `FromEscapedChar` and `FromUnicodeChar`
    decodes a quoted literal on input. */
module JsonStrings {
  import opened Wrappers
  import opened Chars
  import opened Errors
  import opened Numbers

  /** The characters written as `\u` and four hex digits when they have no
      two-character escape: controls, DEL, the unassigned or invisible
      Latin-1 code points 0x81, 0x8D, 0x8F, 0x90, 0x9D, 0xA0, 0xAD, and
      everything above 0xFF. */
  predicate NeedsUnicodeEscape(c: CodeUnit) {
    || c < 32 || c == 127 || c == 129 || c == 141 || c == 143
    || c == 144 || c == 157 || c == 160 || c == 173 || c > 255
  }

  /** The characters with a two-character escape. */
  predicate HasShortEscape(c: CodeUnit) {
    c == Backslash || c == Quote || c == CarriageReturn || c == LineFeed || c == Tab || c == Backspace || c == FormFeed
  }

  /** One character of `ToJsonString`'s output loop. */
  function EscapeChar(c: CodeUnit): (t: Text)
    ensures |t| == 2 <==> HasShortEscape(c)
    ensures |t| == 6 <==> !HasShortEscape(c) && NeedsUnicodeEscape(c)
    ensures |t| == 1 <==> !HasShortEscape(c) && !NeedsUnicodeEscape(c)
    ensures |t| == 1 ==> t == [c] && c != Backslash && c != Quote
    ensures |t| > 1 ==> t[0] == Backslash
    ensures |t| == 6 ==> t[1] == LetterU && t[2..] == Hex4(c)
    ensures forall i | 0 <= i < |t| :: t[i] >= 32
  {
    if c == Backslash then [Backslash, Backslash]
    else if c == Quote then [Backslash, Quote]
    else if c == CarriageReturn then [Backslash, LetterR]
    else if c == LineFeed then [Backslash, LetterN]
    else if c == Tab then [Backslash, LetterT]
    else if c == Backspace then [Backslash, LetterB]
    else if c == FormFeed then [Backslash, LetterF]
    else if NeedsUnicodeEscape(c) then [Backslash, LetterU] + Hex4(c)
    else [c]
  }

  /** The two-character escapes, one by one. */
  lemma ShortEscapes(c: CodeUnit)
    ensures c == Backslash ==> EscapeChar(c) == [Backslash, Backslash]
    ensures c == Quote ==> EscapeChar(c) == [Backslash, Quote]
    ensures c == CarriageReturn ==> EscapeChar(c) == [Backslash, LetterR]
    ensures c == LineFeed ==> EscapeChar(c) == [Backslash, LetterN]
    ensures c == Tab ==> EscapeChar(c) == [Backslash, LetterT]
    ensures c == Backspace ==> EscapeChar(c) == [Backslash, LetterB]
    ensures c == FormFeed ==> EscapeChar(c) == [Backslash, LetterF]
  {
  }

  /** `ToJsonString`: the text with every character escaped as above. The
      result holds no raw control character, and every quote in it is
      preceded by a backslash. */
  function ToJsonString(s: Text): (r: Text)
    ensures |r| >= |s|
  {
    if |s| == 0 then [] else EscapeChar(s[0]) + ToJsonString(s[1..])
  }

  /** The escaped text holds no raw control character, and every quote in
      it is preceded by a backslash. */
  lemma {:induction false} ToJsonStringIsSafe(s: Text)
    ensures forall i | 0 <= i < |ToJsonString(s)| :: ToJsonString(s)[i] >= 32
    ensures forall i | 0 <= i < |ToJsonString(s)| && ToJsonString(s)[i] == Quote ::
              i > 0 && ToJsonString(s)[i - 1] == Backslash
    decreases |s|
  {
    if |s| > 0 {
      ToJsonStringIsSafe(s[1..]);
      var e := EscapeChar(s[0]);
      var tail := ToJsonString(s[1..]);
      var r := e + tail;
      assert r == ToJsonString(s);
      forall i | 0 <= i < |r|
        ensures r[i] >= 32
      {
        if i >= |e| {
          assert r[i] == tail[i - |e|];
        }
      }
      forall i | 0 <= i < |r| && r[i] == Quote
        ensures i > 0 && r[i - 1] == Backslash
      {
        if i < |e| {
          assert r[i] == e[i];
          assert |e| == 2 && i == 1;
        } else {
          assert tail[i - |e|] == Quote;
          assert r[i - 1] == tail[i - 1 - |e|];
        }
      }
    }
  }

  /** `FromEscapedChar`: the character a two-character escape stands for;
      exactly `" \ / b f n r t` are accepted. */
  function FromEscapedChar(c: CodeUnit): (r: Option<CodeUnit>)
    ensures r.Some? <==> c in {Quote, Backslash, Slash, LetterB, LetterF, LetterN, LetterR, LetterT}
    ensures r.Some? && c != Slash ==> HasShortEscape(r.value) && EscapeChar(r.value) == [Backslash, c]
    ensures c == Slash ==> r == Some(Slash)
  {
    if c == Quote then Some(Quote)
    else if c == Backslash then Some(Backslash)
    else if c == Slash then Some(Slash)
    else if c == LetterB then Some(Backspace)
    else if c == LetterF then Some(FormFeed)
    else if c == LetterN then Some(LineFeed)
    else if c == LetterR then Some(CarriageReturn)
    else if c == LetterT then Some(Tab)
    else None
  }

  /** `FromUnicodeChar`: text of exactly six characters, `\u` and four more
      that `Convert.ToUInt16(_, 16)` accepts. */
  function FromUnicodeChar(value: Text): (r: Option<CodeUnit>)
    ensures r.Some? ==> |value| == 6
    ensures |value| == 6 && AllHexDigits(value[2..]) ==> r == Some(HexValue(value[2..]))
    ensures |value| == 6 && (value[2] == Minus || value[5] == LetterX) ==> r == None
    ensures r.Some? ==> IsHexDigit(value[5])
    ensures r.Some? ==> forall i | 2 <= i < 6 :: IsHexDigit(value[i]) || value[i] == Plus || value[i] == LetterX || value[i] == CapitalX
  {
    if |value| != 6 then None else ParseHex16(value[2..])
  }

  /** `GetStringValue`, started just after an opening quote: the decoded
      text up to the first quote that is not escaped, and the position just
      past that quote. End of input first is an error, and so is a bad
      escape. */
  function GetStringValue(s: Text, pos: nat): (r: Result<(Text, nat), Error>)
    ensures r.Success? ==> pos < r.value.1 <= |s| && s[r.value.1 - 1] == Quote
    ensures r.Success? ==> |r.value.0| < r.value.1 - pos
    ensures pos >= |s| ==> r == Failure(UnterminatedString)
    decreases |s| - pos
  {
    if pos >= |s| then Failure(UnterminatedString)
    else if s[pos] == Backslash then
      if pos + 1 >= |s| then Failure(UnterminatedString)
      else if s[pos + 1] == LetterU then
        if pos + 2 + 4 > |s| then Failure(InvalidEscape(pos + 1))
        else match FromUnicodeChar([Backslash, LetterU] + s[pos + 2..pos + 6])
          case None => Failure(InvalidEscape(pos + 1))
          case Some(c) =>
            var rest :- GetStringValue(s, pos + 6);
            Success(([c] + rest.0, rest.1))
      else match FromEscapedChar(s[pos + 1])
        case None => Failure(InvalidEscape(pos + 1))
        case Some(c) =>
          var rest :- GetStringValue(s, pos + 2);
          Success(([c] + rest.0, rest.1))
    else if s[pos] == Quote then Success(([], pos + 1))
    else
      var rest :- GetStringValue(s, pos + 1);
      Success(([s[pos]] + rest.0, rest.1))
  }

  /** A bad escape is an error at the escape letter: an unknown letter, a
      `\u` with fewer than four characters after it, or a `\u` whose four
      characters `Convert.ToUInt16(_, 16)` refuses. */
  lemma InvalidEscapeFails(s: Text, pos: nat)
    requires pos + 1 < |s| && s[pos] == Backslash
    ensures s[pos + 1] != LetterU && FromEscapedChar(s[pos + 1]).None? ==>
              GetStringValue(s, pos) == Failure(InvalidEscape(pos + 1))
    ensures s[pos + 1] == LetterU && pos + 6 > |s| ==>
              GetStringValue(s, pos) == Failure(InvalidEscape(pos + 1))
    ensures s[pos + 1] == LetterU && pos + 6 <= |s| && FromUnicodeChar(s[pos..pos + 6]).None? ==>
              GetStringValue(s, pos) == Failure(InvalidEscape(pos + 1))
  {
    if s[pos + 1] == LetterU && pos + 6 <= |s| {
      assert [Backslash, LetterU] + s[pos + 2..pos + 6] == s[pos..pos + 6];
    }
  }

  /** A `\u` escape with a character among its four that is neither a hex
      digit nor part of a sign or `0x` prefix is refused, as `\u12g4` is. */
  lemma NonHexUnicodeEscape(s: Text, pos: nat, k: nat)
    requires pos + 6 <= |s| && s[pos] == Backslash && s[pos + 1] == LetterU
    requires pos + 2 <= k < pos + 6
    requires !IsHexDigit(s[k]) && s[k] != Plus && s[k] != LetterX && s[k] != CapitalX
    ensures GetStringValue(s, pos) == Failure(InvalidEscape(pos + 1))
  {
    var value := s[pos..pos + 6];
    assert value[k - pos] == s[k];
    InvalidEscapeFails(s, pos);
  }

  /** Without backslashes, the decoded text is the characters before the
      first quote, and the position is just past that quote. */
  lemma {:induction false} PlainStringValue(s: Text, pos: nat, q: nat)
    requires pos <= q < |s| && s[q] == Quote
    requires forall i | pos <= i < q :: s[i] != Quote && s[i] != Backslash
    ensures GetStringValue(s, pos) == Success((s[pos..q], q + 1))
    decreases q - pos
  {
    if pos < q {
      PlainStringValue(s, pos + 1, q);
      assert GetStringValue(s, pos) == Success(([s[pos]] + s[pos + 1..q], q + 1));
      assert [s[pos]] + s[pos + 1..q] == s[pos..q];
    } else {
      assert s[pos] != Backslash;
      assert s[pos..q] == [];
    }
  }

  /** An escaped character decodes back to itself, consuming exactly its
      escape. */
  lemma DecodeEscapeChar(s: Text, pos: nat, c: CodeUnit)
    requires pos + |EscapeChar(c)| <= |s| && s[pos..pos + |EscapeChar(c)|] == EscapeChar(c)
    requires GetStringValue(s, pos + |EscapeChar(c)|).Success?
    ensures var rest := GetStringValue(s, pos + |EscapeChar(c)|).value;
            GetStringValue(s, pos) == Success(([c] + rest.0, rest.1))
  {
    var e := EscapeChar(c);
    assert s[pos] == e[0];
    if |e| == 6 {
      assert s[pos + 1] == LetterU;
      assert s[pos + 2..pos + 6] == Hex4(c);
      var u := [Backslash, LetterU] + s[pos + 2..pos + 6];
      assert u[2..] == Hex4(c);
      Hex4RoundTrip(c);
    } else if |e| == 2 {
      assert s[pos + 1] == e[1];
    }
  }

  /** Splitting a slice of `s` that spells `a + b`. */
  lemma SliceOfConcat(s: Text, pos: nat, a: Text, b: Text)
    requires pos + |a| + |b| <= |s| && s[pos..pos + |a| + |b|] == a + b
    ensures s[pos..pos + |a|] == a
    ensures s[pos + |a|..pos + |a| + |b|] == b
  {
    assert s[pos..pos + |a|] == (a + b)[..|a|];
    assert s[pos + |a|..pos + |a| + |b|] == (a + b)[|a|..];
  }

  /** Round trip: decoding the escaped text of `t` followed by a quote gives
      back `t` and consumes exactly that text. */
  lemma {:induction false} DecodeToJsonString(s: Text, pos: nat, t: Text, end: nat)
    requires end == pos + |ToJsonString(t)| + 1 <= |s|
    requires s[pos..end - 1] == ToJsonString(t)
    requires s[end - 1] == Quote
    ensures GetStringValue(s, pos) == Success((t, end))
    decreases |t|
  {
    if |t| == 0 {
      PlainStringValue(s, pos, pos);
    } else {
      var mid := SplitEscaped(s, pos, t);
      DecodeToJsonString(s, mid, t[1..], end);
      DecodeFirstThenRest(s, pos, t, end);
    }
  }

  /** Where the escape of the first character ends, and what follows it. */
  lemma SplitEscaped(s: Text, pos: nat, t: Text) returns (mid: nat)
    requires |t| > 0
    requires pos + |ToJsonString(t)| < |s|
    requires s[pos..pos + |ToJsonString(t)|] == ToJsonString(t)
    ensures mid == pos + |EscapeChar(t[0])|
    ensures s[pos..mid] == EscapeChar(t[0])
    ensures mid + |ToJsonString(t[1..])| == pos + |ToJsonString(t)|
    ensures s[mid..mid + |ToJsonString(t[1..])|] == ToJsonString(t[1..])
  {
    var e := EscapeChar(t[0]);
    var tail := ToJsonString(t[1..]);
    assert ToJsonString(t) == e + tail;
    SliceOfConcat(s, pos, e, tail);
    mid := pos + |e|;
  }

  /** One step of the round trip: the first character's escape decodes to
      it and the rest decodes as before. */
  lemma DecodeFirstThenRest(s: Text, pos: nat, t: Text, end: nat)
    requires |t| > 0
    requires pos + |EscapeChar(t[0])| <= |s| && s[pos..pos + |EscapeChar(t[0])|] == EscapeChar(t[0])
    requires GetStringValue(s, pos + |EscapeChar(t[0])|) == Success((t[1..], end))
    ensures GetStringValue(s, pos) == Success((t, end))
  {
    DecodeEscapeChar(s, pos, t[0]);
    assert [t[0]] + t[1..] == t;
  }

  /** The round trip on the text alone: a literal written by `ToJsonString`
      and closed by a quote reads back as the original text. */
  lemma StringRoundTrip(t: Text)
    ensures GetStringValue(ToJsonString(t) + [Quote], 0) == Success((t, |ToJsonString(t)| + 1))
  {
    var e := ToJsonString(t);
    var s := e + [Quote];
    assert s[0..|e|] == e && s[|e|] == Quote;
    DecodeToJsonString(s, 0, t, |e| + 1);
  }

  /** A decoded string reads nothing past its closing quote. */
  lemma {:induction false} GetStringValueReadsTo(s: Text, s2: Text, pos: nat, n: nat)
    requires GetStringValue(s, pos).Success? && SameUpTo(s, s2, n)
    requires GetStringValue(s, pos).value.1 <= n
    ensures GetStringValue(s2, pos) == GetStringValue(s, pos)
    decreases |s| - pos
  {
    if s[pos] == Backslash {
      if s[pos + 1] == LetterU {
        assert FromUnicodeChar([Backslash, LetterU] + s[pos + 2..pos + 6]).Some?;
        GetStringValueReadsTo(s, s2, pos + 6, n);
        assert s2[pos + 2..pos + 6] == s[pos + 2..pos + 6];
      } else {
        GetStringValueReadsTo(s, s2, pos + 2, n);
      }
    } else if s[pos] != Quote {
      GetStringValueReadsTo(s, s2, pos + 1, n);
    }
  }
}
