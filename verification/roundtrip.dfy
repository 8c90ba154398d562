/** Reading back what the renderers write: for value trees the text can
    represent without loss, `JSONArray.FromString(a.ToString())` rebuilds
    the array and `JSONObject.FromString(o.ToString())` the object, in the
    compact and in the indented layout.

    The parse follows the rendered text container by container: each
    element is read by one step of the loop (`ArrayElementStep`,
    `ObjectMemberStep`), each nested container by a call of the body parser
    (`ArrayContainer`, `ObjectContainer`), and the items in between by
    `ArrayItemsFrom` and `ObjectMembersFrom`. */
module RoundTrip {
  import opened Wrappers
  import opened Chars
  import opened Numbers
  import opened Whitespace
  import opened JsonStrings
  import opened Errors
  import opened Values
  import opened Render
  import opened Parser

  /** The trees that survive a rendering and a parse: no decimals or
      doubles (their text is the platform's), no date-times, no string the
      platform would read as a date-time, no 64-bit integer that fits 32
      bits (it reads back as an `int`), containers with the parser's
      whitespace flag, and objects with non-empty, distinct keys (an empty
      key's bare value is dropped before `}`, and `Dictionary.Add` refuses a
      repeated key). */
  predicate Restricted(p: Platform, v: Value) {
    match v
    case Null => true
    case Bool(_) => true
    case Int32(_) => true
    case Int64(l) => !(Int32Min <= l <= Int32Max)
    case Str(t) => p.parseDateTime(t).None?
    case Arr(items, ws) =>
      && ws == p.addWhitespace
      && forall i | 0 <= i < |items| :: Restricted(p, items[i])
    case Obj(members, ws) =>
      && ws == p.addWhitespace
      && UniqueKeys(members)
      && forall i | 0 <= i < |members| :: |members[i].key| > 0 && Restricted(p, members[i].value)
    case Decimal(_) => false
    case Double(_) => false
    case DateTime(_) => false
  }

  /** Text the loops read as one bare value and skipping stops at: not
      empty, no white space, no slash, no character either loop treats
      specially. */
  predicate BareToken(t: Text) {
    |t| > 0 && forall i | 0 <= i < |t| :: IsPlain(t[i]) && !IsWhiteSpace(t[i]) && t[i] != Slash
  }

  predicate IsScalar(v: Value) {
    v.Null? || v.Bool? || v.Int32? || v.Int64?
  }

  /** `null`, the booleans and integers render as bare tokens. */
  lemma ScalarText(p: Platform, v: Value, level: nat)
    requires IsScalar(v)
    ensures BareToken(ElementText(p, v, level))
  {
    match v
    case Null =>
    case Bool(b) =>
    case Int32(i) => IntTextIsToken(i);
    case Int64(l) => IntTextIsToken(l);
  }

  lemma IntTextIsToken(i: int)
    ensures BareToken(IntText(i))
  {
    var n: nat := if i < 0 then -i else i;
    var d := NatText(n);
    assert forall j | 0 <= j < |d| :: IsDigit(d[j]);
    if i < 0 {
      assert IntText(i) == [Minus] + d;
      assert forall j | 1 <= j < |IntText(i)| :: IntText(i)[j] == d[j - 1];
    }
  }

  /** Trailing white space does not change how a bare value classifies. */
  lemma ClassifyIgnoresPadding(p: Platform, t: Text, pad: Text)
    requires |t| > 0 && !IsWhiteSpace(t[|t| - 1])
    requires forall i | 0 <= i < |pad| :: IsWhiteSpace(pad[i])
    ensures ClassifyBare(p, t + pad) == ClassifyBare(p, t)
  {
    TrimEndOfPadded(t, pad);
    TrimEndOfPadded(t, []);
    assert t + [] == t;
  }

  /** A 32-bit integer's text classifies as that integer. */
  lemma Int32Classifies(p: Platform, i: int32)
    ensures ClassifyBare(p, IntText(i)) == Success(Int32(i))
  {
    var t := IntText(i);
    IntTextIsToken(i);
    TrimEndOfPadded(t, []);
    assert t + [] == t;
    assert TrimEnd(t) == t;
    NumberStart(i);
    assert t != NullText && t != TrueText && t != FalseText by {
      assert t[0] != NullText[0] && t[0] != TrueText[0] && t[0] != FalseText[0];
    }
    IntTextSyntax(i);
    assert TryParseInt32(t) == Some(i);
  }

  /** A 64-bit integer's text classifies as that integer when it does not
      fit 32 bits. */
  lemma Int64Classifies(p: Platform, l: int64)
    requires !(Int32Min <= l <= Int32Max)
    ensures ClassifyBare(p, IntText(l)) == Success(Int64(l))
  {
    var t := IntText(l);
    IntTextIsToken(l);
    TrimEndOfPadded(t, []);
    assert t + [] == t;
    assert TrimEnd(t) == t;
    NumberStart(l);
    assert t != NullText && t != TrueText && t != FalseText by {
      assert t[0] != NullText[0] && t[0] != TrueText[0] && t[0] != FalseText[0];
    }
    IntTextSyntax(l);
    assert TryParseInt32(t).None? && TryParseInt64(t) == Some(l);
  }

  /** A scalar's rendering, followed by any white space, classifies back to
      the scalar. */
  lemma ScalarClassifies(p: Platform, v: Value, level: nat, pad: Text)
    requires IsScalar(v) && Restricted(p, v)
    requires forall i | 0 <= i < |pad| :: IsWhiteSpace(pad[i])
    ensures ClassifyBare(p, ElementText(p, v, level) + pad) == Success(v)
  {
    var t := ElementText(p, v, level);
    ScalarText(p, v, level);
    ClassifyIgnoresPadding(p, t, pad);
    match v
    case Null =>
      TrimEndOfPadded(t, []);
      assert t + [] == t;
    case Bool(b) =>
      TrimEndOfPadded(t, []);
      assert t + [] == t;
    case Int32(i) => Int32Classifies(p, i);
    case Int64(l) => Int64Classifies(p, l);
  }

  /** Integer text starts with a minus sign or a digit. */
  lemma NumberStart(i: int)
    ensures IntText(i)[0] == Minus || IsDigit(IntText(i)[0])
  {
  }

  /** Every rendered element starts with a character skipping stops at. */
  lemma ElementStart(p: Platform, v: Value, level: nat)
    requires Restricted(p, v)
    ensures |ElementText(p, v, level)| > 0
    ensures !IsWhiteSpace(ElementText(p, v, level)[0]) && ElementText(p, v, level)[0] != Slash
  {
    if IsScalar(v) {
      ScalarText(p, v, level);
    }
  }

  /** Splitting a slice of `s` that spells `a + b`. */
  lemma Split(s: Text, pos: nat, end: nat, a: Text, b: Text)
    requires pos <= end <= |s| && s[pos..end] == a + b
    ensures pos + |a| <= end
    ensures s[pos..pos + |a|] == a && s[pos + |a|..end] == b
  {
    assert s[pos..pos + |a|] == (a + b)[..|a|];
    assert s[pos + |a|..end] == (a + b)[|a|..];
  }

  /** The pieces of a quoted text found in `s`. */
  lemma QuotedSlices(s: Text, k: nat, j: Text, e: nat)
    requires e == k + |j| + 2 <= |s|
    requires s[k..e] == Quoted(j)
    ensures s[k] == Quote && s[e - 1] == Quote
    ensures s[k + 1..e - 1] == j
  {
    assert s[k] == s[k..e][0];
    assert s[e - 1] == s[k..e][|j| + 1];
    var r := s[k..e];
    forall i | 0 <= i < |j|
      ensures s[k + 1..e - 1][i] == j[i]
    {
      assert s[k + 1..e - 1][i] == r[i + 1];
      assert r[1..|r| - 1][i] == r[i + 1];
    }
  }

  /** A rendered string, read from just after its opening quote, decodes
      to the string and ends just past its closing quote. */
  lemma QuotedStringAt(s: Text, k: nat, t: Text, e: nat)
    requires e == k + |Quoted(ToJsonString(t))| <= |s|
    requires s[k..e] == Quoted(ToJsonString(t))
    ensures s[k] == Quote
    ensures GetStringValue(s, k + 1) == Success((t, e))
  {
    QuotedSlices(s, k, ToJsonString(t), e);
    DecodeToJsonString(s, k + 1, t, e);
  }

  /** What the array loop does at a `,` or `]` after an element: go on to
      the next element, or end the array. */
  function ArrayContinue(p: Platform, s: Text, cpos: nat, items: seq<Value>): Result<(Value, nat), Error>
    requires cpos < |s|
  {
    if s[cpos] == Comma then ArrayLoop(p, s, SkipWhitespace(s, cpos + 1), ArrayReady(items))
    else Success((Arr(items, p.addWhitespace), cpos + 1))
  }

  /** An element read, then `,`: the loop goes on where skipping stops,
      holding one element more. */
  lemma ArrayAdvance(p: Platform, s: Text, pos: nat, e: nat, q: nat, done: seq<Value>, x: Value, after: seq<Value>)
    requires pos <= |s| && e < |s| && s[e] == Comma && SkipWhitespace(s, e + 1) == q && after == done + [x]
    requires ArrayLoop(p, s, pos, ArrayReady(done)) == ArrayContinue(p, s, e, done + [x])
    ensures ArrayLoop(p, s, pos, ArrayReady(done)) == ArrayLoop(p, s, q, ArrayReady(after))
  {
  }

  /** An element read, then `]`: the array ends just past it. */
  lemma ArrayFinish(p: Platform, s: Text, pos: nat, e: nat, done: seq<Value>, x: Value, v: Value)
    requires pos <= |s| && e < |s| && s[e] == RightBracket && v == Arr(done + [x], p.addWhitespace)
    requires ArrayLoop(p, s, pos, ArrayReady(done)) == ArrayContinue(p, s, e, done + [x])
    ensures ArrayLoop(p, s, pos, ArrayReady(done)) == Success((v, e + 1))
  {
  }

  /** The prefix before `i`, then element `i`, is the prefix through `i`. */
  lemma Snoc<T>(xs: seq<T>, i: nat)
    requires i < |xs|
    ensures xs[..i] + [xs[i]] == xs[..i + 1]
  {
  }

  /** After a string or nested element: white space, then `,` or `]`. */
  lemma ArrayAfterValueTail(p: Platform, s: Text, e: nat, cpos: nat, items: seq<Value>)
    requires e <= cpos < |s|
    requires forall i | e <= i < cpos :: IsWhiteSpace(s[i])
    requires s[cpos] == Comma || s[cpos] == RightBracket
    ensures ArrayLoop(p, s, SkipWhitespace(s, e), ArrayAfterValue(items)) == ArrayContinue(p, s, cpos, items)
  {
    SkipWhiteRun(s, e, cpos);
    SkipAtSignificantChar(s, cpos);
    if s[cpos] == Comma {
      ArrayCommaStep(p, s, cpos, ArrayAfterValue(items), items);
    } else {
      ArrayCloseStep(p, s, cpos, ArrayAfterValue(items), items);
    }
  }

  lemma WhiteSlice(s: Text, a: nat, b: nat)
    requires a <= b <= |s|
    requires forall i | a <= i < b :: IsWhiteSpace(s[i])
    ensures forall i | 0 <= i < b - a :: IsWhiteSpace(s[a..b][i])
  {
  }

  /** A bare token followed by white space is one run of plain
      characters. */
  lemma TokenRun(s: Text, k: nat, t: Text, cpos: nat)
    requires BareToken(t)
    requires k + |t| <= cpos <= |s| && s[k..k + |t|] == t
    requires forall i | k + |t| <= i < cpos :: IsWhiteSpace(s[i])
    ensures s[k] == t[0] && IsPlain(s[k])
    ensures forall i | k + 1 <= i < cpos :: IsPlain(s[i])
    ensures [s[k]] + s[k + 1..cpos] == t + s[k + |t|..cpos]
  {
    var e := k + |t|;
    assert s[k] == t[0];
    forall i | k + 1 <= i < cpos
      ensures IsPlain(s[i])
    {
      if i < e {
        assert s[i] == t[i - k];
      }
    }
    assert s[k..cpos] == s[k..e] + s[e..cpos];
    assert [s[k]] + s[k + 1..cpos] == s[k..cpos];
  }

  /** A bare token and the white space after it are gathered as one
      element text, up to the next structural character. */
  lemma ArrayTokenRun(p: Platform, s: Text, k: nat, t: Text, items: seq<Value>, cpos: nat)
    requires BareToken(t)
    requires k + |t| <= cpos <= |s| && s[k..k + |t|] == t
    requires forall i | k + |t| <= i < cpos :: IsWhiteSpace(s[i])
    ensures ArrayLoop(p, s, k, ArrayReady(items)) == ArrayLoop(p, s, cpos, ArrayInValue(t + s[k + |t|..cpos], items))
  {
    TokenRun(s, k, t, cpos);
    ArrayBareStart(p, s, k, items);
    ArrayBareRun(p, s, k + 1, cpos, [s[k]], items);
  }

  /** The same for a member value. */
  lemma ObjectTokenRun(p: Platform, s: Text, k: nat, key: Text, t: Text, done: seq<Member>, cpos: nat)
    requires BareToken(t)
    requires k + |t| <= cpos <= |s| && s[k..k + |t|] == t
    requires forall i | k + |t| <= i < cpos :: IsWhiteSpace(s[i])
    ensures ObjectLoop(p, s, k, ObjectAfterColon(key, done)) == ObjectLoop(p, s, cpos, ObjectInValue(key, t + s[k + |t|..cpos], done))
  {
    TokenRun(s, k, t, cpos);
    ObjectBareStart(p, s, k, key, done);
    ObjectBareRun(p, s, k + 1, cpos, key, [s[k]], done);
  }

  /** A bare scalar element, white space, then `,` or `]`: the element's
      text with the white space is classified back to the scalar. */
  lemma ArrayScalarStep(p: Platform, s: Text, k: nat, v: Value, level: nat, items: seq<Value>, cpos: nat)
    requires IsScalar(v) && Restricted(p, v)
    requires k + |ElementText(p, v, level)| <= cpos < |s|
    requires s[k..k + |ElementText(p, v, level)|] == ElementText(p, v, level)
    requires forall i | k + |ElementText(p, v, level)| <= i < cpos :: IsWhiteSpace(s[i])
    requires s[cpos] == Comma || s[cpos] == RightBracket
    ensures ArrayLoop(p, s, k, ArrayReady(items)) == ArrayContinue(p, s, cpos, items + [v])
  {
    var t := ElementText(p, v, level);
    var pad := s[k + |t|..cpos];
    ScalarText(p, v, level);
    ArrayTokenRun(p, s, k, t, items, cpos);
    WhiteSlice(s, k + |t|, cpos);
    ScalarClassifies(p, v, level, pad);
    var st := ArrayInValue(t + pad, items);
    assert ArrayLoop(p, s, k, ArrayReady(items)) == ArrayLoop(p, s, cpos, st);
    if s[cpos] == Comma {
      ArrayCommaStep(p, s, cpos, st, items + [v]);
    } else {
      ArrayCloseStep(p, s, cpos, st, items + [v]);
    }
  }

  /** A string element, white space, then `,` or `]`. */
  lemma ArrayStringElementStep(p: Platform, s: Text, k: nat, t: Text, level: nat, items: seq<Value>, cpos: nat)
    requires p.parseDateTime(t).None?
    requires k + |ElementText(p, Str(t), level)| <= cpos < |s|
    requires s[k..k + |ElementText(p, Str(t), level)|] == ElementText(p, Str(t), level)
    requires forall i | k + |ElementText(p, Str(t), level)| <= i < cpos :: IsWhiteSpace(s[i])
    requires s[cpos] == Comma || s[cpos] == RightBracket
    ensures ArrayLoop(p, s, k, ArrayReady(items)) == ArrayContinue(p, s, cpos, items + [Str(t)])
  {
    var e := k + |ElementText(p, Str(t), level)|;
    QuotedStringAt(s, k, t, e);
    ArrayStringStep(p, s, k, items, t, e);
    ArrayAfterValueTail(p, s, e, cpos, items + [Str(t)]);
  }

  /** White space written into `s` is skipped as a whole. */
  lemma SkipWritten(s: Text, a: nat, w: Text)
    requires a + |w| <= |s| && s[a..a + |w|] == w
    requires forall i | 0 <= i < |w| :: IsWhiteSpace(w[i])
    ensures forall i | a <= i < a + |w| :: IsWhiteSpace(s[i])
    ensures SkipWhitespace(s, a) == SkipWhitespace(s, a + |w|)
  {
    forall i | a <= i < a + |w|
      ensures IsWhiteSpace(s[i])
    {
      assert s[i] == w[i - a];
    }
    SkipWhiteRun(s, a, a + |w|);
  }

  /** A line break written into `s`, then an element: skipping stops at
      the element. */
  lemma SkipToElement(p: Platform, s: Text, a: nat, ws: bool, level: nat, v: Value, rest: Text)
    requires Restricted(p, v)
    requires a + |LineBreak(ws, level)| + |ElementText(p, v, level)| <= |s|
    requires s[a..a + |LineBreak(ws, level)|] == LineBreak(ws, level)
    requires s[a + |LineBreak(ws, level)|..a + |LineBreak(ws, level)| + |ElementText(p, v, level)|] == ElementText(p, v, level)
    ensures SkipWhitespace(s, a) == a + |LineBreak(ws, level)|
  {
    var q := a + |LineBreak(ws, level)|;
    LineBreakIsWhite(ws, level);
    SkipWritten(s, a, LineBreak(ws, level));
    ElementStart(p, v, level);
    assert s[q] == ElementText(p, v, level)[0];
    SkipAtSignificantChar(s, q);
  }

  /** What follows element `i - 1` of an array rendered at `level`: the
      remaining elements, each after a comma and a line break, then the
      closing line break and `]`. */
  function ArrayTail(p: Platform, items: seq<Value>, ws: bool, level: nat, i: nat): Text
    requires i <= |items|
  {
    Items(ElementTexts(p, items[i..], level + 1), ws, level + 1, false) + LineBreak(ws, level) + [RightBracket]
  }

  /** The element texts from `i` on: element `i`, then the rest. */
  lemma ElementTextsFrom(p: Platform, items: seq<Value>, level: nat, i: nat)
    requires i < |items|
    ensures ElementTexts(p, items[i..], level) == [ElementText(p, items[i], level)] + ElementTexts(p, items[i + 1..], level)
  {
    assert items[i..][0] == items[i];
    assert items[i..][1..] == items[i + 1..];
  }

  /** The array tail after the last element. */
  lemma ArrayTailLast(p: Platform, items: seq<Value>, ws: bool, level: nat)
    ensures ArrayTail(p, items, ws, level, |items|) == LineBreak(ws, level) + [RightBracket]
  {
    assert items[|items|..] == [];
  }

  /** The array tail before element `i`. */
  lemma ArrayTailStep(p: Platform, items: seq<Value>, ws: bool, level: nat, i: nat)
    requires i < |items|
    ensures ArrayTail(p, items, ws, level, i)
            == [Comma] + (LineBreak(ws, level + 1) + (ElementText(p, items[i], level + 1) + ArrayTail(p, items, ws, level, i + 1)))
  {
    var parts := ElementTexts(p, items[i..], level + 1);
    ElementTextsFrom(p, items, level + 1, i);
    ItemsNext(parts, ws, level + 1);
    TailRegroup([Comma], LineBreak(ws, level + 1), parts[0], Items(parts[1..], ws, level + 1, false), LineBreak(ws, level), [RightBracket]);
  }

  /** A later item: a comma, a line break, the item, then the rest. */
  lemma ItemsNext(parts: seq<Text>, ws: bool, level: nat)
    requires |parts| > 0
    ensures Items(parts, ws, level, false) == [Comma] + (LineBreak(ws, level) + (parts[0] + Items(parts[1..], ws, level, false)))
  {
    var rest := Items(parts[1..], ws, level, false);
    assert Items(parts, ws, level, false) == [Comma] + LineBreak(ws, level) + parts[0] + rest;
    Regroup4([Comma], LineBreak(ws, level), parts[0], rest);
  }

  /** Regrouping four texts to the right. */
  lemma Regroup4(a: Text, b: Text, c: Text, d: Text)
    ensures a + b + c + d == a + (b + (c + d))
  {
  }

  /** Regrouping a container tail. */
  lemma TailRegroup(a: Text, b: Text, c: Text, d: Text, e: Text, f: Text)
    ensures (a + (b + (c + d))) + e + f == a + (b + (c + (d + e + f)))
  {
  }

  /** Regrouping a concatenation. */
  lemma RegroupRight(a: Text, b: Text, c: Text, d: Text, e: Text, f: Text)
    ensures a + (b + c + d) + e + f == a + (b + (c + (d + e + f)))
  {
  }

  /** A non-empty array's text: `[`, a line break, the first element and
      the tail after it. */
  lemma ArrayTextFirst(p: Platform, items: seq<Value>, ws: bool, level: nat)
    requires |items| > 0
    ensures ArrayText(p, items, ws, level)
            == [LeftBracket] + (LineBreak(ws, level + 1) + (ElementText(p, items[0], level + 1) + ArrayTail(p, items, ws, level, 1)))
  {
    var parts := ElementTexts(p, items, level + 1);
    var rest := Items(ElementTexts(p, items[1..], level + 1), ws, level + 1, false);
    assert parts[1..] == ElementTexts(p, items[1..], level + 1);
    assert Items(parts, ws, level + 1, true) == LineBreak(ws, level + 1) + ElementText(p, items[0], level + 1) + rest;
    LayoutUnfold(LeftBracket, RightBracket, parts, ws, level);
    RegroupRight([LeftBracket], LineBreak(ws, level + 1), ElementText(p, items[0], level + 1), rest, LineBreak(ws, level), [RightBracket]);
  }

  /** A mark, white space, then a text starting with a character
      skipping stops at: skipping from just after the mark stops at that
      text. */
  lemma MarkThenText(s: Text, a: nat, end: nat, c: CodeUnit, lb: Text, x: Text, rest: Text)
    requires a <= end <= |s| && s[a..end] == [c] + (lb + (x + rest))
    requires forall i | 0 <= i < |lb| :: IsWhiteSpace(lb[i])
    requires |x| > 0 && !IsWhiteSpace(x[0]) && x[0] != Slash
    ensures a < end && s[a] == c
    ensures SkipWhitespace(s, a + 1) == a + 1 + |lb|
    ensures a + 1 + |lb| <= end && s[a + 1 + |lb|..end] == x + rest
  {
    Split(s, a, end, [c], lb + (x + rest));
    Split(s, a + 1, end, lb, x + rest);
    assert s[a] == s[a..a + 1][0];
    SkipWritten(s, a + 1, lb);
    assert s[a + 1 + |lb|] == s[a + 1 + |lb|..end][0];
    SkipAtSignificantChar(s, a + 1 + |lb|);
  }

  /** White space, then a closing mark last. */
  lemma TextThenClose(s: Text, e: nat, end: nat, lb: Text, c: CodeUnit)
    requires e <= end <= |s| && s[e..end] == lb + [c]
    requires forall i | 0 <= i < |lb| :: IsWhiteSpace(lb[i])
    ensures e < end && s[end - 1] == c
    ensures forall i | e <= i < end - 1 :: IsWhiteSpace(s[i])
  {
    Split(s, e, end, lb, [c]);
    assert s[end - 1] == s[e + |lb|..end][0];
    SkipWritten(s, e, lb);
  }

  /** An item, a mark, white space, then a text starting with a character
      skipping stops at: where the item ends, and where skipping after the
      mark stops. */
  lemma ItemThenNext(s: Text, pos: nat, end: nat, t: Text, c: CodeUnit, lb: Text, x: Text, rest: Text) returns (e: nat, q: nat)
    requires pos <= end <= |s| && s[pos..end] == t + ([c] + (lb + (x + rest)))
    requires forall i | 0 <= i < |lb| :: IsWhiteSpace(lb[i])
    requires |x| > 0 && !IsWhiteSpace(x[0]) && x[0] != Slash
    ensures e == pos + |t| && e < |s| && s[e] == c && s[pos..e] == t
    ensures SkipWhitespace(s, e + 1) == q && q <= end && s[q..end] == x + rest
  {
    e := pos + |t|;
    Split(s, pos, end, t, [c] + (lb + (x + rest)));
    MarkThenText(s, e, end, c, lb, x, rest);
    q := e + 1 + |lb|;
  }

  /** An item, white space, then a closing mark last. */
  lemma ItemThenClose(s: Text, pos: nat, end: nat, t: Text, lb: Text, c: CodeUnit)
    requires pos <= end <= |s| && s[pos..end] == t + (lb + [c])
    requires forall i | 0 <= i < |lb| :: IsWhiteSpace(lb[i])
    ensures pos + |t| <= end - 1 && end - 1 < |s| && s[end - 1] == c
    ensures s[pos..pos + |t|] == t
    ensures forall j | pos + |t| <= j < end - 1 :: IsWhiteSpace(s[j])
  {
    Split(s, pos, end, t, lb + [c]);
    TextThenClose(s, pos + |t|, end, lb, c);
  }

  /** Just after the opening mark of a non-empty array's text: skipping
      stops at the first element, and the first element and the tail follow. */
  lemma ArrayOpenText(p: Platform, s: Text, k: nat, end: nat, items: seq<Value>, ws: bool, level: nat) returns (q: nat)
    requires |items| > 0 && Restricted(p, items[0])
    requires k <= end <= |s|
    requires s[k..end] == [LeftBracket] + (LineBreak(ws, level + 1) + (ElementText(p, items[0], level + 1) + ArrayTail(p, items, ws, level, 1)))
    ensures k < q <= end && SkipWhitespace(s, k + 1) == q
    ensures s[q..end] == ElementText(p, items[0], level + 1) + ArrayTail(p, items, ws, level, 1)
  {
    LineBreakIsWhite(ws, level + 1);
    ElementStart(p, items[0], level + 1);
    MarkThenText(s, k, end, LeftBracket, LineBreak(ws, level + 1), ElementText(p, items[0], level + 1), ArrayTail(p, items, ws, level, 1));
    q := k + 1 + |LineBreak(ws, level + 1)|;
  }

  /** One element of an array, read where an element may start, followed
      by white space and `,` or `]`: the loop appends exactly that element.
      Bare scalars, strings and nested containers take different branches
      of the loop. */
  lemma ArrayElementStep(p: Platform, s: Text, k: nat, v: Value, level: nat, items: seq<Value>, cpos: nat)
    requires Restricted(p, v)
    requires k + |ElementText(p, v, level)| <= cpos < |s|
    requires s[k..k + |ElementText(p, v, level)|] == ElementText(p, v, level)
    requires forall i | k + |ElementText(p, v, level)| <= i < cpos :: IsWhiteSpace(s[i])
    requires s[cpos] == Comma || s[cpos] == RightBracket
    ensures ArrayLoop(p, s, k, ArrayReady(items)) == ArrayContinue(p, s, cpos, items + [v])
    decreases v, 3
  {
    if IsScalar(v) {
      ArrayScalarStep(p, s, k, v, level, items, cpos);
    } else if v.Str? {
      ArrayStringElementStep(p, s, k, v.s, level, items, cpos);
    } else {
      var e := k + |ElementText(p, v, level)|;
      NestedParses(p, s, k, v, level);
      ArrayNestedOnlyAsValue(p, s, k, ArrayReady(items), v, e);
      assert ArrayState(false, false, true, [], items + [v]) == ArrayAfterValue(items + [v]);
      ArrayAfterValueTail(p, s, e, cpos, items + [v]);
    }
  }

  /** A nested container's text is read by the body parser of its kind,
      chosen by its first character, and ends where the text ends. */
  lemma NestedParses(p: Platform, s: Text, k: nat, v: Value, level: nat)
    requires (v.Arr? || v.Obj?) && Restricted(p, v)
    requires k + |ElementText(p, v, level)| <= |s|
    requires s[k..k + |ElementText(p, v, level)|] == ElementText(p, v, level)
    ensures k < |s| && (s[k] == LeftBrace || s[k] == LeftBracket)
    ensures (if s[k] == LeftBrace then ObjectBody(p, s, k + 1) else ArrayBody(p, s, k + 1))
            == Success((v, k + |ElementText(p, v, level)|))
    decreases v, 2
  {
    var end := k + |ElementText(p, v, level)|;
    assert s[k] == ElementText(p, v, level)[0];
    if v.Arr? {
      ArrayContainer(p, s, k, end, v, level);
    } else {
      ObjectContainer(p, s, k, end, v, level);
    }
  }

  /** Element `i` of an array's text, not the last: where it ends, the
      comma there, and where skipping after the comma stops. */
  lemma ArrayNextLayout(p: Platform, s: Text, items: seq<Value>, ws: bool, level: nat, i: nat, pos: nat, end: nat) returns (e: nat, q: nat)
    requires i + 1 < |items| && Restricted(p, items[i + 1])
    requires pos <= end <= |s|
    requires s[pos..end] == ElementText(p, items[i], level + 1) + ArrayTail(p, items, ws, level, i + 1)
    ensures e == pos + |ElementText(p, items[i], level + 1)| && e < |s| && s[e] == Comma
    ensures s[pos..e] == ElementText(p, items[i], level + 1)
    ensures SkipWhitespace(s, e + 1) == q && q <= end
    ensures s[q..end] == ElementText(p, items[i + 1], level + 1) + ArrayTail(p, items, ws, level, i + 2)
  {
    ArrayTailStep(p, items, ws, level, i + 1);
    LineBreakIsWhite(ws, level + 1);
    ElementStart(p, items[i + 1], level + 1);
    e, q := ItemThenNext(s, pos, end, ElementText(p, items[i], level + 1), Comma, LineBreak(ws, level + 1),
                         ElementText(p, items[i + 1], level + 1), ArrayTail(p, items, ws, level, i + 2));
  }

  /** The last element of an array's text: it ends before white space and
      the final `]`. */
  lemma ArrayLastLayout(p: Platform, s: Text, items: seq<Value>, ws: bool, level: nat, i: nat, pos: nat, end: nat)
    requires i + 1 == |items|
    requires pos <= end <= |s|
    requires s[pos..end] == ElementText(p, items[i], level + 1) + ArrayTail(p, items, ws, level, i + 1)
    ensures pos + |ElementText(p, items[i], level + 1)| <= end - 1 && end - 1 < |s| && s[end - 1] == RightBracket
    ensures s[pos..pos + |ElementText(p, items[i], level + 1)|] == ElementText(p, items[i], level + 1)
    ensures forall j | pos + |ElementText(p, items[i], level + 1)| <= j < end - 1 :: IsWhiteSpace(s[j])
  {
    ArrayTailLast(p, items, ws, level);
    LineBreakIsWhite(ws, level);
    ItemThenClose(s, pos, end, ElementText(p, items[i], level + 1), LineBreak(ws, level), RightBracket);
  }

  /** `[]` parses back to the empty array. */
  lemma ArrayEmptyContainer(p: Platform, s: Text, k: nat, end: nat, v: Value, level: nat)
    requires v.Arr? && Restricted(p, v) && |v.items| == 0
    requires k <= end <= |s| && s[k..end] == ArrayText(p, v.items, v.addWhitespace, level)
    ensures k < |s|
    ensures ArrayBody(p, s, k + 1) == Success((v, end))
  {
    var e := ArrayText(p, v.items, v.addWhitespace, level);
    assert e == [LeftBracket, RightBracket];
    assert s[k + 1] == e[1];
    SkipAtSignificantChar(s, k + 1);
    ArrayCloseStep(p, s, k + 1, ArrayAfterValue([]), []);
    assert ArrayLoop(p, s, k + 1, ArrayStart) == ArrayClose(p, s, k + 1, ArrayStart);
  }

  /** The body parser is the loop from the first significant character,
      holding no elements. */
  lemma ArrayBodyFrom(p: Platform, s: Text, pos: nat, q: nat, none: seq<Value>)
    requires pos <= |s| && SkipWhitespace(s, pos) == q && none == []
    ensures ArrayBody(p, s, pos) == ArrayLoop(p, s, q, ArrayReady(none))
  {
    assert ArrayReady(none) == ArrayStart;
  }

  /** An array's text, read from just after its `[`, parses back to the
      array and ends just past its `]`. */
  lemma ArrayContainer(p: Platform, s: Text, k: nat, end: nat, v: Value, level: nat)
    requires v.Arr? && Restricted(p, v)
    requires k <= end <= |s| && s[k..end] == ArrayText(p, v.items, v.addWhitespace, level)
    ensures k < |s|
    ensures ArrayBody(p, s, k + 1) == Success((v, end))
    decreases v, 1
  {
    if |v.items| == 0 {
      ArrayEmptyContainer(p, s, k, end, v, level);
    } else {
      ArrayFullContainer(p, s, k, end, v, level);
    }
  }

  /** An array's text up to its first element: the loop starts there with
      nothing gathered. */
  lemma ArrayOpening(p: Platform, s: Text, k: nat, end: nat, v: Value, level: nat) returns (q: nat)
    requires v.Arr? && |v.items| > 0 && Restricted(p, v.items[0])
    requires k <= end <= |s| && s[k..end] == ArrayText(p, v.items, v.addWhitespace, level)
    ensures k < q <= end && ArrayBody(p, s, k + 1) == ArrayLoop(p, s, q, ArrayReady(v.items[..0]))
    ensures s[q..end] == ElementText(p, v.items[0], level + 1) + ArrayTail(p, v.items, v.addWhitespace, level, 1)
  {
    assert s[k..end] == [LeftBracket] + (LineBreak(v.addWhitespace, level + 1) + (ElementText(p, v.items[0], level + 1)
                                     + ArrayTail(p, v.items, v.addWhitespace, level, 1))) by {
      ArrayTextFirst(p, v.items, v.addWhitespace, level);
    }
    q := ArrayOpenText(p, s, k, end, v.items, v.addWhitespace, level);
    ArrayBodyFrom(p, s, k + 1, q, v.items[..0]);
  }

  /** A non-empty array's text: the loop starts at its first element. */
  lemma ArrayFullContainer(p: Platform, s: Text, k: nat, end: nat, v: Value, level: nat)
    requires v.Arr? && Restricted(p, v) && |v.items| > 0
    requires k <= end <= |s| && s[k..end] == ArrayText(p, v.items, v.addWhitespace, level)
    ensures k < |s|
    ensures ArrayBody(p, s, k + 1) == Success((v, end))
    decreases v, 1, 0
  {
    var q := ArrayOpening(p, s, k, end, v, level);
    ArrayItemsFrom(p, s, v, level, 0, q, end);
  }

  /** From element `i` of an array's text on, the loop, holding the
      elements before `i`, ends with the whole array just past its `]`. */
  lemma ArrayItemsFrom(p: Platform, s: Text, v: Value, level: nat, i: nat, pos: nat, end: nat)
    requires v.Arr? && Restricted(p, v) && i < |v.items|
    requires pos <= end <= |s|
    requires s[pos..end] == ElementText(p, v.items[i], level + 1) + ArrayTail(p, v.items, v.addWhitespace, level, i + 1)
    ensures ArrayLoop(p, s, pos, ArrayReady(v.items[..i])) == Success((v, end))
    decreases v, 0, |v.items| - i
  {
    if i + 1 == |v.items| {
      ArrayLastLayout(p, s, v.items, v.addWhitespace, level, i, pos, end);
      ArrayLastItem(p, s, v, level, i, pos, end);
    } else {
      var e, q := ArrayNextLayout(p, s, v.items, v.addWhitespace, level, i, pos, end);
      ArrayNextItem(p, s, v, level, i, pos, e, q);
      ArrayItemsFrom(p, s, v, level, i + 1, q, end);
    }
  }

  /** The last element of an array, then white space and `]` last: the
      loop ends with the whole array. */
  lemma ArrayLastItem(p: Platform, s: Text, v: Value, level: nat, i: nat, pos: nat, end: nat)
    requires v.Arr? && v.addWhitespace == p.addWhitespace && i + 1 == |v.items| && Restricted(p, v.items[i])
    requires pos + |ElementText(p, v.items[i], level + 1)| <= end - 1 && end - 1 < |s| && s[end - 1] == RightBracket
    requires s[pos..pos + |ElementText(p, v.items[i], level + 1)|] == ElementText(p, v.items[i], level + 1)
    requires forall j | pos + |ElementText(p, v.items[i], level + 1)| <= j < end - 1 :: IsWhiteSpace(s[j])
    ensures ArrayLoop(p, s, pos, ArrayReady(v.items[..i])) == Success((v, end))
    decreases v, 0, 0
  {
    ArrayElementStep(p, s, pos, v.items[i], level + 1, v.items[..i], end - 1);
    Snoc(v.items, i);
    ArrayFinish(p, s, pos, end - 1, v.items[..i], v.items[i], v);
  }

  /** An element of an array other than the last, then `,`: the loop goes
      on where skipping after the comma stops, holding one element more. */
  lemma ArrayNextItem(p: Platform, s: Text, v: Value, level: nat, i: nat, pos: nat, e: nat, q: nat)
    requires v.Arr? && i < |v.items| && Restricted(p, v.items[i])
    requires e == pos + |ElementText(p, v.items[i], level + 1)| && e < |s| && s[e] == Comma
    requires s[pos..e] == ElementText(p, v.items[i], level + 1)
    requires SkipWhitespace(s, e + 1) == q
    ensures ArrayLoop(p, s, pos, ArrayReady(v.items[..i])) == ArrayLoop(p, s, q, ArrayReady(v.items[..i + 1]))
    decreases v, 0, |v.items| - i, 0
  {
    ArrayElementStep(p, s, pos, v.items[i], level + 1, v.items[..i], e);
    Snoc(v.items, i);
    ArrayAdvance(p, s, pos, e, q, v.items[..i], v.items[i], v.items[..i + 1]);
  }

  /** What the object loop does at a `,` or `}` after a member: go on to
      the next key, or end the object. */
  function ObjectContinue(p: Platform, s: Text, cpos: nat, members: seq<Member>): Result<(Value, nat), Error>
    requires cpos < |s|
  {
    if s[cpos] == Comma then ObjectLoop(p, s, SkipWhitespace(s, cpos + 1), ObjectReady(members))
    else Success((Obj(members, p.addWhitespace), cpos + 1))
  }

  /** A member read, then `,`: the loop goes on where skipping stops,
      holding one member more. */
  lemma ObjectAdvance(p: Platform, s: Text, pos: nat, e: nat, q: nat, done: seq<Member>, m: Member, after: seq<Member>)
    requires pos <= |s| && e < |s| && s[e] == Comma && SkipWhitespace(s, e + 1) == q && after == done + [m]
    requires ObjectLoop(p, s, pos, ObjectReady(done)) == ObjectContinue(p, s, e, done + [m])
    ensures ObjectLoop(p, s, pos, ObjectReady(done)) == ObjectLoop(p, s, q, ObjectReady(after))
  {
  }

  /** A member read, then `}`: the object ends just past it. */
  lemma ObjectFinish(p: Platform, s: Text, pos: nat, e: nat, done: seq<Member>, m: Member, v: Value)
    requires pos <= |s| && e < |s| && s[e] == RightBrace && v == Obj(done + [m], p.addWhitespace)
    requires ObjectLoop(p, s, pos, ObjectReady(done)) == ObjectContinue(p, s, e, done + [m])
    ensures ObjectLoop(p, s, pos, ObjectReady(done)) == Success((v, e + 1))
  {
  }

  /** After a string or nested member value: white space, then `,` or
      `}`. */
  lemma ObjectAfterValueTail(p: Platform, s: Text, e: nat, cpos: nat, members: seq<Member>)
    requires e <= cpos < |s|
    requires forall i | e <= i < cpos :: IsWhiteSpace(s[i])
    requires s[cpos] == Comma || s[cpos] == RightBrace
    ensures ObjectLoop(p, s, SkipWhitespace(s, e), ObjectAfterValue(members)) == ObjectContinue(p, s, cpos, members)
  {
    SkipWhiteRun(s, e, cpos);
    SkipAtSignificantChar(s, cpos);
    if s[cpos] == Comma {
      ObjectCommaStep(p, s, cpos, ObjectAfterValue(members), members);
    } else {
      ObjectCloseStep(p, s, cpos, ObjectAfterValue(members), members);
    }
  }

  /** A bare value whose text classifies is added under a new key. */
  lemma SaveBareMember(p: Platform, members: seq<Member>, key: Text, text: Text, v: Value)
    requires key !in Keys(members) && ClassifyBare(p, text) == Success(v)
    ensures SaveKeyValue(p, members, key, text, false) == Success(members + [Member(key, v)])
  {
  }

  /** A bare scalar member value, white space, then `,` or `}`. */
  lemma ObjectScalarStep(p: Platform, s: Text, k: nat, key: Text, v: Value, level: nat, done: seq<Member>, cpos: nat)
    requires IsScalar(v) && Restricted(p, v) && |key| > 0 && key !in Keys(done)
    requires k + |ElementText(p, v, level)| <= cpos < |s|
    requires s[k..k + |ElementText(p, v, level)|] == ElementText(p, v, level)
    requires forall i | k + |ElementText(p, v, level)| <= i < cpos :: IsWhiteSpace(s[i])
    requires s[cpos] == Comma || s[cpos] == RightBrace
    ensures ObjectLoop(p, s, k, ObjectAfterColon(key, done)) == ObjectContinue(p, s, cpos, done + [Member(key, v)])
  {
    var t := ElementText(p, v, level);
    var pad := s[k + |t|..cpos];
    ScalarText(p, v, level);
    ObjectTokenRun(p, s, k, key, t, done, cpos);
    WhiteSlice(s, k + |t|, cpos);
    ScalarClassifies(p, v, level, pad);
    SaveBareMember(p, done, key, t + pad, v);
    var st := ObjectInValue(key, t + pad, done);
    assert ObjectLoop(p, s, k, ObjectAfterColon(key, done)) == ObjectLoop(p, s, cpos, st);
    if s[cpos] == Comma {
      ObjectCommaStep(p, s, cpos, st, done + [Member(key, v)]);
    } else {
      ObjectCloseStep(p, s, cpos, st, done + [Member(key, v)]);
    }
  }

  /** A string member value, white space, then `,` or `}`. */
  lemma ObjectStringValueStep(p: Platform, s: Text, k: nat, key: Text, t: Text, level: nat, done: seq<Member>, cpos: nat)
    requires p.parseDateTime(t).None? && key !in Keys(done)
    requires k + |ElementText(p, Str(t), level)| <= cpos < |s|
    requires s[k..k + |ElementText(p, Str(t), level)|] == ElementText(p, Str(t), level)
    requires forall i | k + |ElementText(p, Str(t), level)| <= i < cpos :: IsWhiteSpace(s[i])
    requires s[cpos] == Comma || s[cpos] == RightBrace
    ensures ObjectLoop(p, s, k, ObjectAfterColon(key, done)) == ObjectContinue(p, s, cpos, done + [Member(key, Str(t))])
  {
    var e := k + |ElementText(p, Str(t), level)|;
    QuotedStringAt(s, k, t, e);
    ObjectStringStep(p, s, k, key, done, t, e);
    ObjectAfterValueTail(p, s, e, cpos, done + [Member(key, Str(t))]);
  }

  /** A member's text: the quoted key, a colon, the optional space, the
      value. */
  lemma MemberTextParts(p: Platform, m: Member, ws: bool, level: nat)
    ensures MemberText(p, m, ws, level)
            == Quoted(ToJsonString(m.key)) + ([Colon] + ((if ws then [Space] else []) + (ElementText(p, m.value, level) + [])))
  {
  }

  /** Reading a member's text from its opening quote: the key, then the
      rest of the member from its colon. */
  lemma MemberKeyAt(p: Platform, s: Text, k: nat, m: Member, ws: bool, level: nat) returns (kq: nat)
    requires k + |MemberText(p, m, ws, level)| <= |s|
    requires s[k..k + |MemberText(p, m, ws, level)|] == MemberText(p, m, ws, level)
    ensures s[k] == Quote && GetStringValue(s, k + 1) == Success((m.key, kq))
    ensures kq <= k + |MemberText(p, m, ws, level)|
    ensures s[kq..k + |MemberText(p, m, ws, level)|]
            == [Colon] + ((if ws then [Space] else []) + (ElementText(p, m.value, level) + []))
  {
    var q := Quoted(ToJsonString(m.key));
    MemberTextParts(p, m, ws, level);
    Split(s, k, k + |MemberText(p, m, ws, level)|, q, [Colon] + ((if ws then [Space] else []) + (ElementText(p, m.value, level) + [])));
    kq := k + |q|;
    QuotedStringAt(s, k, m.key, kq);
  }

  /** From a member's colon: the value where skipping stops. */
  lemma MemberValueAt(p: Platform, s: Text, kq: nat, mend: nat, v: Value, ws: bool, level: nat) returns (vpos: nat)
    requires Restricted(p, v)
    requires kq <= mend <= |s|
    requires s[kq..mend] == [Colon] + ((if ws then [Space] else []) + (ElementText(p, v, level) + []))
    ensures kq < |s| && s[kq] == Colon && SkipWhitespace(s, kq) == kq
    ensures SkipWhitespace(s, kq + 1) == vpos
    ensures vpos + |ElementText(p, v, level)| == mend
    ensures s[vpos..mend] == ElementText(p, v, level)
  {
    var sp: Text := if ws then [Space] else [];
    var t := ElementText(p, v, level);
    ElementStart(p, v, level);
    MarkThenText(s, kq, mend, Colon, sp, t, []);
    SkipAtSignificantChar(s, kq);
    vpos := kq + 1 + |sp|;
    assert t + [] == t;
  }

  /** Where a member's text puts its key, its colon and its value. */
  lemma MemberLayout(p: Platform, s: Text, k: nat, m: Member, ws: bool, level: nat) returns (kq: nat, vpos: nat)
    requires Restricted(p, m.value)
    requires k + |MemberText(p, m, ws, level)| <= |s|
    requires s[k..k + |MemberText(p, m, ws, level)|] == MemberText(p, m, ws, level)
    ensures s[k] == Quote && GetStringValue(s, k + 1) == Success((m.key, kq))
    ensures kq < |s| && s[kq] == Colon && SkipWhitespace(s, kq) == kq
    ensures SkipWhitespace(s, kq + 1) == vpos
    ensures vpos + |ElementText(p, m.value, level)| == k + |MemberText(p, m, ws, level)|
    ensures s[vpos..vpos + |ElementText(p, m.value, level)|] == ElementText(p, m.value, level)
  {
    kq := MemberKeyAt(p, s, k, m, ws, level);
    vpos := MemberValueAt(p, s, kq, k + |MemberText(p, m, ws, level)|, m.value, ws, level);
  }

  /** A key is fresh among the members before it when keys are unique. */
  lemma FreshKey(members: seq<Member>, i: nat)
    requires UniqueKeys(members) && i < |members|
    ensures members[i].key !in Keys(members[..i])
  {
    forall j | 0 <= j < i
      ensures members[..i][j].key != members[i].key
    {
      assert members[..i][j] == members[j];
    }
  }

  /** What follows member `i - 1` of an object rendered at `level`. */
  function ObjectTail(p: Platform, members: seq<Member>, ws: bool, level: nat, i: nat): Text
    requires i <= |members|
  {
    Items(MemberTexts(p, members[i..], ws, level + 1), ws, level + 1, false) + LineBreak(ws, level) + [RightBrace]
  }

  /** The member texts from `i` on: member `i`, then the rest. */
  lemma MemberTextsFrom(p: Platform, members: seq<Member>, ws: bool, level: nat, i: nat)
    requires i < |members|
    ensures MemberTexts(p, members[i..], ws, level) == [MemberText(p, members[i], ws, level)] + MemberTexts(p, members[i + 1..], ws, level)
  {
    assert members[i..][0] == members[i];
    assert members[i..][1..] == members[i + 1..];
  }

  /** The object tail after the last member. */
  lemma ObjectTailLast(p: Platform, members: seq<Member>, ws: bool, level: nat)
    ensures ObjectTail(p, members, ws, level, |members|) == LineBreak(ws, level) + [RightBrace]
  {
    assert members[|members|..] == [];
  }

  /** The object tail before member `i`. */
  lemma ObjectTailStep(p: Platform, members: seq<Member>, ws: bool, level: nat, i: nat)
    requires i < |members|
    ensures ObjectTail(p, members, ws, level, i)
            == [Comma] + (LineBreak(ws, level + 1) + (MemberText(p, members[i], ws, level + 1) + ObjectTail(p, members, ws, level, i + 1)))
  {
    var parts := MemberTexts(p, members[i..], ws, level + 1);
    MemberTextsFrom(p, members, ws, level + 1, i);
    ItemsNext(parts, ws, level + 1);
    TailRegroup([Comma], LineBreak(ws, level + 1), parts[0], Items(parts[1..], ws, level + 1, false), LineBreak(ws, level), [RightBrace]);
  }

  /** A non-empty object's text: `{`, a line break, the first member and
      the tail after it. */
  lemma ObjectTextFirst(p: Platform, members: seq<Member>, ws: bool, level: nat)
    requires |members| > 0
    ensures ObjectText(p, members, ws, level)
            == [LeftBrace] + (LineBreak(ws, level + 1) + (MemberText(p, members[0], ws, level + 1) + ObjectTail(p, members, ws, level, 1)))
  {
    var parts := MemberTexts(p, members, ws, level + 1);
    var rest := Items(MemberTexts(p, members[1..], ws, level + 1), ws, level + 1, false);
    assert parts[1..] == MemberTexts(p, members[1..], ws, level + 1);
    assert Items(parts, ws, level + 1, true) == LineBreak(ws, level + 1) + MemberText(p, members[0], ws, level + 1) + rest;
    LayoutUnfold(LeftBrace, RightBrace, parts, ws, level);
    RegroupRight([LeftBrace], LineBreak(ws, level + 1), MemberText(p, members[0], ws, level + 1), rest, LineBreak(ws, level), [RightBrace]);
  }

  /** A member's text starts with its key's opening quote. */
  lemma MemberStart(p: Platform, m: Member, ws: bool, level: nat)
    ensures |MemberText(p, m, ws, level)| > 0 && MemberText(p, m, ws, level)[0] == Quote
  {
    MemberTextParts(p, m, ws, level);
  }

  /** Just after the opening mark of a non-empty object's text: skipping
      stops at the first key, and the first member and the tail follow. */
  lemma ObjectOpenText(p: Platform, s: Text, k: nat, end: nat, members: seq<Member>, ws: bool, level: nat) returns (q: nat)
    requires |members| > 0
    requires k <= end <= |s|
    requires s[k..end] == [LeftBrace] + (LineBreak(ws, level + 1) + (MemberText(p, members[0], ws, level + 1) + ObjectTail(p, members, ws, level, 1)))
    ensures k < q <= end && SkipWhitespace(s, k + 1) == q
    ensures s[q..end] == MemberText(p, members[0], ws, level + 1) + ObjectTail(p, members, ws, level, 1)
  {
    LineBreakIsWhite(ws, level + 1);
    MemberStart(p, members[0], ws, level + 1);
    MarkThenText(s, k, end, LeftBrace, LineBreak(ws, level + 1), MemberText(p, members[0], ws, level + 1), ObjectTail(p, members, ws, level, 1));
    q := k + 1 + |LineBreak(ws, level + 1)|;
  }

  /** Member `i` of an object's text, not the last: where it ends, the
      comma there, and where skipping after the comma stops. */
  lemma ObjectNextLayout(p: Platform, s: Text, members: seq<Member>, ws: bool, level: nat, i: nat, pos: nat, end: nat) returns (e: nat, q: nat)
    requires i + 1 < |members|
    requires pos <= end <= |s|
    requires s[pos..end] == MemberText(p, members[i], ws, level + 1) + ObjectTail(p, members, ws, level, i + 1)
    ensures e == pos + |MemberText(p, members[i], ws, level + 1)| && e < |s| && s[e] == Comma
    ensures s[pos..e] == MemberText(p, members[i], ws, level + 1)
    ensures SkipWhitespace(s, e + 1) == q && q <= end
    ensures s[q..end] == MemberText(p, members[i + 1], ws, level + 1) + ObjectTail(p, members, ws, level, i + 2)
  {
    ObjectTailStep(p, members, ws, level, i + 1);
    LineBreakIsWhite(ws, level + 1);
    MemberStart(p, members[i + 1], ws, level + 1);
    e, q := ItemThenNext(s, pos, end, MemberText(p, members[i], ws, level + 1), Comma, LineBreak(ws, level + 1),
                         MemberText(p, members[i + 1], ws, level + 1), ObjectTail(p, members, ws, level, i + 2));
  }

  /** The last member of an object's text: it ends before white space and
      the final `}`. */
  lemma ObjectLastLayout(p: Platform, s: Text, members: seq<Member>, ws: bool, level: nat, i: nat, pos: nat, end: nat)
    requires i + 1 == |members|
    requires pos <= end <= |s|
    requires s[pos..end] == MemberText(p, members[i], ws, level + 1) + ObjectTail(p, members, ws, level, i + 1)
    ensures pos + |MemberText(p, members[i], ws, level + 1)| <= end - 1 && end - 1 < |s| && s[end - 1] == RightBrace
    ensures s[pos..pos + |MemberText(p, members[i], ws, level + 1)|] == MemberText(p, members[i], ws, level + 1)
    ensures forall j | pos + |MemberText(p, members[i], ws, level + 1)| <= j < end - 1 :: IsWhiteSpace(s[j])
  {
    ObjectTailLast(p, members, ws, level);
    LineBreakIsWhite(ws, level);
    ItemThenClose(s, pos, end, MemberText(p, members[i], ws, level + 1), LineBreak(ws, level), RightBrace);
  }

  /** `{}` parses back to the empty object. */
  lemma ObjectEmptyContainer(p: Platform, s: Text, k: nat, end: nat, v: Value, level: nat)
    requires v.Obj? && Restricted(p, v) && |v.members| == 0
    requires k <= end <= |s| && s[k..end] == ObjectText(p, v.members, v.addWhitespace, level)
    ensures k < |s|
    ensures ObjectBody(p, s, k + 1) == Success((v, end))
  {
    var e := ObjectText(p, v.members, v.addWhitespace, level);
    assert e == [LeftBrace, RightBrace];
    assert s[k + 1] == e[1];
    SkipAtSignificantChar(s, k + 1);
    assert ObjectLoop(p, s, k + 1, ObjectStart) == ObjectClose(p, s, k + 1, ObjectStart);
  }

  /** The object body parser is the loop from the first significant
      character, holding no members. */
  lemma ObjectBodyFrom(p: Platform, s: Text, pos: nat, q: nat, none: seq<Member>)
    requires pos <= |s| && SkipWhitespace(s, pos) == q && none == []
    ensures ObjectBody(p, s, pos) == ObjectLoop(p, s, q, ObjectReady(none))
  {
    assert ObjectReady(none) == ObjectStart;
  }

  /** One member value, read just after its key's colon, followed by white
      space and `,` or `}`: the loop adds exactly that member. */
  lemma ObjectValueStep(p: Platform, s: Text, k: nat, key: Text, v: Value, level: nat, done: seq<Member>, cpos: nat)
    requires Restricted(p, v) && |key| > 0 && key !in Keys(done)
    requires k + |ElementText(p, v, level)| <= cpos < |s|
    requires s[k..k + |ElementText(p, v, level)|] == ElementText(p, v, level)
    requires forall i | k + |ElementText(p, v, level)| <= i < cpos :: IsWhiteSpace(s[i])
    requires s[cpos] == Comma || s[cpos] == RightBrace
    ensures ObjectLoop(p, s, k, ObjectAfterColon(key, done)) == ObjectContinue(p, s, cpos, done + [Member(key, v)])
    decreases v, 3
  {
    if IsScalar(v) {
      ObjectScalarStep(p, s, k, key, v, level, done, cpos);
    } else if v.Str? {
      ObjectStringValueStep(p, s, k, key, v.s, level, done, cpos);
    } else {
      var e := k + |ElementText(p, v, level)|;
      NestedParses(p, s, k, v, level);
      ObjectNestedOnlyAsValue(p, s, k, ObjectAfterColon(key, done), v, e);
      assert ObjectAfterColon(key, done).(readyForValue := false, readyForComma := true, key := [], value := [],
                                          members := done + [Member(key, v)])
             == ObjectAfterValue(done + [Member(key, v)]);
      ObjectAfterValueTail(p, s, e, cpos, done + [Member(key, v)]);
    }
  }

  /** One member, read from its key's opening quote, followed by white
      space and `,` or `}`: the loop adds exactly that member. */
  lemma ObjectMemberStep(p: Platform, s: Text, k: nat, m: Member, ws: bool, level: nat, done: seq<Member>, cpos: nat)
    requires Restricted(p, m.value) && |m.key| > 0 && m.key !in Keys(done)
    requires k + |MemberText(p, m, ws, level)| <= cpos < |s|
    requires s[k..k + |MemberText(p, m, ws, level)|] == MemberText(p, m, ws, level)
    requires forall i | k + |MemberText(p, m, ws, level)| <= i < cpos :: IsWhiteSpace(s[i])
    requires s[cpos] == Comma || s[cpos] == RightBrace
    ensures ObjectLoop(p, s, k, ObjectReady(done)) == ObjectContinue(p, s, cpos, done + [m])
    decreases m, 4
  {
    var kq, vpos := MemberLayout(p, s, k, m, ws, level);
    ObjectKeyStep(p, s, k, done, m.key, kq);
    ObjectColonStep(p, s, kq, m.key, done);
    ObjectValueStep(p, s, vpos, m.key, m.value, level, done, cpos);
    assert Member(m.key, m.value) == m;
  }

  /** An object's text, read from just after its `{`, parses back to the
      object and ends just past its `}`. */
  lemma ObjectContainer(p: Platform, s: Text, k: nat, end: nat, v: Value, level: nat)
    requires v.Obj? && Restricted(p, v)
    requires k <= end <= |s| && s[k..end] == ObjectText(p, v.members, v.addWhitespace, level)
    ensures k < |s|
    ensures ObjectBody(p, s, k + 1) == Success((v, end))
    decreases v, 1
  {
    if |v.members| == 0 {
      ObjectEmptyContainer(p, s, k, end, v, level);
    } else {
      ObjectFullContainer(p, s, k, end, v, level);
    }
  }

  /** An object's text up to its first key: the loop starts there with
      nothing gathered. */
  lemma ObjectOpening(p: Platform, s: Text, k: nat, end: nat, v: Value, level: nat) returns (q: nat)
    requires v.Obj? && |v.members| > 0
    requires k <= end <= |s| && s[k..end] == ObjectText(p, v.members, v.addWhitespace, level)
    ensures k < q <= end && ObjectBody(p, s, k + 1) == ObjectLoop(p, s, q, ObjectReady(v.members[..0]))
    ensures s[q..end] == MemberText(p, v.members[0], v.addWhitespace, level + 1) + ObjectTail(p, v.members, v.addWhitespace, level, 1)
  {
    assert s[k..end] == [LeftBrace] + (LineBreak(v.addWhitespace, level + 1) + (MemberText(p, v.members[0], v.addWhitespace, level + 1)
                                     + ObjectTail(p, v.members, v.addWhitespace, level, 1))) by {
      ObjectTextFirst(p, v.members, v.addWhitespace, level);
    }
    q := ObjectOpenText(p, s, k, end, v.members, v.addWhitespace, level);
    ObjectBodyFrom(p, s, k + 1, q, v.members[..0]);
  }

  /** Every member of a round-trippable object is ready to be read back. */
  lemma ObjectMembersReady(p: Platform, v: Value)
    requires v.Obj? && Restricted(p, v)
    ensures forall j | 0 <= j < |v.members| :: MemberReady(p, v.members, j)
  {
    forall j | 0 <= j < |v.members|
      ensures MemberReady(p, v.members, j)
    {
      FreshKey(v.members, j);
    }
  }

  /** A non-empty object's text: the loop starts at its first key. */
  lemma ObjectFullContainer(p: Platform, s: Text, k: nat, end: nat, v: Value, level: nat)
    requires v.Obj? && Restricted(p, v) && |v.members| > 0
    requires k <= end <= |s| && s[k..end] == ObjectText(p, v.members, v.addWhitespace, level)
    ensures k < |s|
    ensures ObjectBody(p, s, k + 1) == Success((v, end))
    decreases v, 1, 0
  {
    var q := ObjectOpening(p, s, k, end, v, level);
    ObjectMembersReady(p, v);
    ObjectMembersFrom(p, s, v, level, 0, q, end);
  }

  /** Member `j` round-trips and its key is new before it. */
  predicate MemberReady(p: Platform, members: seq<Member>, j: nat)
    requires j < |members|
  {
    Restricted(p, members[j].value) && |members[j].key| > 0 && members[j].key !in Keys(members[..j])
  }

  /** From member `i` of an object's text on, the loop, holding the
      members before `i`, ends with the whole object just past its `}`. */
  lemma ObjectMembersFrom(p: Platform, s: Text, v: Value, level: nat, i: nat, pos: nat, end: nat)
    requires v.Obj? && v.addWhitespace == p.addWhitespace && i < |v.members|
    requires forall j | i <= j < |v.members| :: MemberReady(p, v.members, j)
    requires pos <= end <= |s|
    requires s[pos..end] == MemberText(p, v.members[i], v.addWhitespace, level + 1) + ObjectTail(p, v.members, v.addWhitespace, level, i + 1)
    ensures ObjectLoop(p, s, pos, ObjectReady(v.members[..i])) == Success((v, end))
    decreases v, 0, |v.members| - i
  {
    if i + 1 == |v.members| {
      ObjectLastCase(p, s, v, level, i, pos, end);
    } else {
      var q := ObjectNextCase(p, s, v, level, i, pos, end);
      ObjectMembersFrom(p, s, v, level, i + 1, q, end);
    }
  }

  /** The last member of an object's text, then `}`. */
  lemma ObjectLastCase(p: Platform, s: Text, v: Value, level: nat, i: nat, pos: nat, end: nat)
    requires v.Obj? && v.addWhitespace == p.addWhitespace && i + 1 == |v.members| && MemberReady(p, v.members, i)
    requires pos <= end <= |s|
    requires s[pos..end] == MemberText(p, v.members[i], v.addWhitespace, level + 1) + ObjectTail(p, v.members, v.addWhitespace, level, i + 1)
    ensures ObjectLoop(p, s, pos, ObjectReady(v.members[..i])) == Success((v, end))
    decreases v, 0, 0, 1
  {
    ObjectLastLayout(p, s, v.members, v.addWhitespace, level, i, pos, end);
    ObjectLastMember(p, s, v, level, i, pos, end);
  }

  /** A member of an object's text other than the last, then `,`: the loop
      goes on at the next key holding one member more. */
  lemma ObjectNextCase(p: Platform, s: Text, v: Value, level: nat, i: nat, pos: nat, end: nat) returns (q: nat)
    requires v.Obj? && i + 1 < |v.members| && MemberReady(p, v.members, i)
    requires pos <= end <= |s|
    requires s[pos..end] == MemberText(p, v.members[i], v.addWhitespace, level + 1) + ObjectTail(p, v.members, v.addWhitespace, level, i + 1)
    ensures q <= end
    ensures s[q..end] == MemberText(p, v.members[i + 1], v.addWhitespace, level + 1) + ObjectTail(p, v.members, v.addWhitespace, level, i + 2)
    ensures ObjectLoop(p, s, pos, ObjectReady(v.members[..i])) == ObjectLoop(p, s, q, ObjectReady(v.members[..i + 1]))
    decreases v, 0, |v.members| - i, 1
  {
    var e;
    e, q := ObjectNextLayout(p, s, v.members, v.addWhitespace, level, i, pos, end);
    ObjectNextMember(p, s, v, level, i, pos, e, q);
  }

  /** The last member of an object, then white space and `}` last: the
      loop ends with the whole object. */
  lemma ObjectLastMember(p: Platform, s: Text, v: Value, level: nat, i: nat, pos: nat, end: nat)
    requires v.Obj? && v.addWhitespace == p.addWhitespace && i + 1 == |v.members|
    requires Restricted(p, v.members[i].value) && |v.members[i].key| > 0 && v.members[i].key !in Keys(v.members[..i])
    requires pos + |MemberText(p, v.members[i], v.addWhitespace, level + 1)| <= end - 1 && end - 1 < |s| && s[end - 1] == RightBrace
    requires s[pos..pos + |MemberText(p, v.members[i], v.addWhitespace, level + 1)|] == MemberText(p, v.members[i], v.addWhitespace, level + 1)
    requires forall j | pos + |MemberText(p, v.members[i], v.addWhitespace, level + 1)| <= j < end - 1 :: IsWhiteSpace(s[j])
    ensures ObjectLoop(p, s, pos, ObjectReady(v.members[..i])) == Success((v, end))
    decreases v, 0, 0, 0
  {
    ObjectMemberStep(p, s, pos, v.members[i], v.addWhitespace, level + 1, v.members[..i], end - 1);
    Snoc(v.members, i);
    ObjectFinish(p, s, pos, end - 1, v.members[..i], v.members[i], v);
  }

  /** A member of an object other than the last, then `,`: the loop goes
      on where skipping after the comma stops, holding one member more. */
  lemma ObjectNextMember(p: Platform, s: Text, v: Value, level: nat, i: nat, pos: nat, e: nat, q: nat)
    requires v.Obj? && i < |v.members|
    requires Restricted(p, v.members[i].value) && |v.members[i].key| > 0 && v.members[i].key !in Keys(v.members[..i])
    requires e == pos + |MemberText(p, v.members[i], v.addWhitespace, level + 1)| && e < |s| && s[e] == Comma
    requires s[pos..e] == MemberText(p, v.members[i], v.addWhitespace, level + 1)
    requires SkipWhitespace(s, e + 1) == q
    ensures ObjectLoop(p, s, pos, ObjectReady(v.members[..i])) == ObjectLoop(p, s, q, ObjectReady(v.members[..i + 1]))
    decreases v, 0, |v.members| - i, 0
  {
    ObjectMemberStep(p, s, pos, v.members[i], v.addWhitespace, level + 1, v.members[..i], e);
    Snoc(v.members, i);
    ObjectAdvance(p, s, pos, e, q, v.members[..i], v.members[i], v.members[..i + 1]);
  }

  /** `JSONArray.FromString(a.ToString())` rebuilds `a`: the parse of the
      rendered text succeeds with the array itself. */
  lemma ArrayRoundTrip(p: Platform, v: Value)
    requires v.Arr? && Restricted(p, v)
    ensures ParseArray(p, ArrayText(p, v.items, v.addWhitespace, 0)) == Success(Some(v))
  {
    var s := ArrayText(p, v.items, v.addWhitespace, 0);
    assert s[0..|s|] == s;
    ArrayContainer(p, s, 0, |s|, v, 0);
    SkipAtSignificantChar(s, 0);
    assert ArrayFromString(p, s, 0) == Success(Some((v, |s|)));
  }

  /** `JSONObject.FromString(o.ToString())` rebuilds `o`. */
  lemma ObjectRoundTrip(p: Platform, v: Value)
    requires v.Obj? && Restricted(p, v)
    ensures ParseObject(p, ObjectText(p, v.members, v.addWhitespace, 0)) == Success(Some(v))
  {
    var s := ObjectText(p, v.members, v.addWhitespace, 0);
    assert s[0..|s|] == s;
    ObjectContainer(p, s, 0, |s|, v, 0);
    SkipAtSignificantChar(s, 0);
    assert ObjectFromString(p, s, 0) == Success(Some((v, |s|)));
  }

  /** Text after the closing `]` is never looked at: the array is rebuilt
      whatever follows it, and the parse stops just past its `]`. */
  lemma ArrayRoundTripIgnoresRest(p: Platform, v: Value, rest: Text)
    requires v.Arr? && Restricted(p, v)
    ensures var t := ArrayText(p, v.items, v.addWhitespace, 0);
            ArrayFromString(p, t + rest, 0) == Success(Some((v, |t|)))
  {
    var t := ArrayText(p, v.items, v.addWhitespace, 0);
    var s := t + rest;
    assert s[0..|t|] == t;
    ArrayContainer(p, s, 0, |t|, v, 0);
    SkipAtSignificantChar(s, 0);
  }

  /** The same for objects and their closing `}`. */
  lemma ObjectRoundTripIgnoresRest(p: Platform, v: Value, rest: Text)
    requires v.Obj? && Restricted(p, v)
    ensures var t := ObjectText(p, v.members, v.addWhitespace, 0);
            ObjectFromString(p, t + rest, 0) == Success(Some((v, |t|)))
  {
    var t := ObjectText(p, v.members, v.addWhitespace, 0);
    var s := t + rest;
    assert s[0..|t|] == t;
    ObjectContainer(p, s, 0, |t|, v, 0);
    SkipAtSignificantChar(s, 0);
  }
}
