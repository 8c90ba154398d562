/** The renderers `JSONArray.ToString(level)` and `JSONObject.ToString(level)`:
    compact, or indented with a line break and two spaces per level before
    every element and before the closing bracket of a non-empty container.

    Both renderers run the same loop over their elements; it is modelled
    once, as `Layout`, over the texts of the elements, and the per-element
    type cascade (`ElementText`) is modelled once for both. */
module Render {
  import opened Wrappers
  import opened Chars
  import opened Errors
  import opened Numbers
  import opened JsonStrings
  import opened Values

  /** `Functions.IndentSize`. */
  const IndentSize: nat := 2

  /** `StringBuilder.AppendLine()` writes `Environment.NewLine`; the model
      fixes it as the Windows line terminator. */
  const NewLine: Text := [CarriageReturn, LineFeed]

  /** `new String(' ', n)`. */
  function Spaces(n: nat): (t: Text)
    ensures |t| == n && forall i | 0 <= i < n :: t[i] == Space
  {
    seq(n, _ => Space)
  }

  /** What both renderers write before an element (and before the closing
      bracket) of a container at nesting depth `level`: nothing in compact
      mode, otherwise a new line indented by `level * IndentSize` spaces. */
  function LineBreak(addWhitespace: bool, level: nat): (t: Text)
    ensures !addWhitespace ==> t == []
    ensures addWhitespace ==> |t| == 2 + level * IndentSize && t[..2] == NewLine
    ensures addWhitespace ==> forall i | 2 <= i < |t| :: t[i] == Space
  {
    if addWhitespace then NewLine + Spaces(level * IndentSize) else []
  }

  /** A line break is white space through and through. */
  lemma LineBreakIsWhite(addWhitespace: bool, level: nat)
    ensures forall i | 0 <= i < |LineBreak(addWhitespace, level)| :: IsWhiteSpace(LineBreak(addWhitespace, level)[i])
  {
  }

  function Quoted(t: Text): (r: Text)
    ensures |r| == |t| + 2 && r[0] == Quote && r[|r| - 1] == Quote && r[1..|r| - 1] == t
  {
    [Quote] + t + [Quote]
  }

  /** The loop of both renderers, from element `parts[0]` on: before each
      element a comma unless it is the first (the `addComma` flag), then a
      line break at `level`. */
  function Items(parts: seq<Text>, addWhitespace: bool, level: nat, first: bool): Text {
    if |parts| == 0 then []
    else
      (if first then [] else [Comma]) + LineBreak(addWhitespace, level) + parts[0]
      + Items(parts[1..], addWhitespace, level, false)
  }

  /** A container at depth `level` with the given element texts: the opening
      bracket, the loop one level deeper, a line break at `level` when
      anything was written, and the closing bracket. */
  function Layout(open: CodeUnit, close: CodeUnit, parts: seq<Text>, addWhitespace: bool, level: nat): (t: Text)
    ensures |t| >= 2 && t[0] == open && t[|t| - 1] == close
    ensures |parts| == 0 ==> t == [open, close]
  {
    [open]
    + Items(parts, addWhitespace, level + 1, true)
    + (if |parts| > 0 then LineBreak(addWhitespace, level) else [])
    + [close]
  }

  /** The type cascade both renderers apply to one element; `level` is the
      depth of the element itself, at which a nested container renders. */
  function ElementText(p: Platform, v: Value, level: nat): (t: Text)
    decreases v, 2
  {
    match v
    case Null => NullText
    case Bool(b) => if b then TrueText else FalseText
    case Int32(i) => IntText(i)
    case Int64(l) => IntText(l)
    case Decimal(d) => p.formatDecimal(d)
    case Double(x) => p.formatDouble(x)
    case Obj(members, ws) => ObjectText(p, members, ws, level)
    case Arr(items, ws) => ArrayText(p, items, ws, level)
    case DateTime(t) => Quoted(p.formatDateTime(t))
    case Str(s) => Quoted(ToJsonString(s))
  }

  /** `JSONArray.ToString(level)`. */
  function ArrayText(p: Platform, items: seq<Value>, addWhitespace: bool, level: nat): Text
    decreases items, 1
  {
    Layout(LeftBracket, RightBracket, ElementTexts(p, items, level + 1), addWhitespace, level)
  }

  /** `JSONObject.ToString(level)`. */
  function ObjectText(p: Platform, members: seq<Member>, addWhitespace: bool, level: nat): Text
    decreases members, 1
  {
    Layout(LeftBrace, RightBrace, MemberTexts(p, members, addWhitespace, level + 1), addWhitespace, level)
  }

  /** Each element rendered at `level`, in order. */
  function ElementTexts(p: Platform, items: seq<Value>, level: nat): (ts: seq<Text>)
    ensures |ts| == |items|
    decreases items, 0
  {
    if |items| == 0 then [] else [ElementText(p, items[0], level)] + ElementTexts(p, items[1..], level)
  }

  /** Each member rendered at `level`, in order. */
  function MemberTexts(p: Platform, members: seq<Member>, addWhitespace: bool, level: nat): (ts: seq<Text>)
    ensures |ts| == |members|
    decreases members, 0
  {
    if |members| == 0 then []
    else [MemberText(p, members[0], addWhitespace, level)] + MemberTexts(p, members[1..], addWhitespace, level)
  }

  /** One key and its value: the escaped key in quotes, a colon (and a space
      in indented mode), then the value. */
  function MemberText(p: Platform, m: Member, addWhitespace: bool, level: nat): (t: Text)
    decreases m, 3
  {
    Quoted(ToJsonString(m.key)) + [Colon] + (if addWhitespace then [Space] else [])
    + ElementText(p, m.value, level)
  }

  /** `parts` joined with `sep` between each two: the reference layout the
      renderers are compared with. */
  function Join(parts: seq<Text>, sep: Text): Text {
    if |parts| == 0 then []
    else if |parts| == 1 then parts[0]
    else parts[0] + sep + Join(parts[1..], sep)
  }

  /** The loop writes the separator before every element but the first,
      which gets only the line break. */
  lemma {:induction false} ItemsJoin(parts: seq<Text>, ws: bool, level: nat, first: bool)
    requires |parts| > 0
    ensures Items(parts, ws, level, first)
            == (if first then [] else [Comma]) + LineBreak(ws, level) + Join(parts, [Comma] + LineBreak(ws, level))
    decreases |parts|
  {
    if |parts| > 1 {
      ItemsJoin(parts[1..], ws, level, false);
    }
  }

  /** The loop of a non-empty container: a line break, then the joined
      elements. */
  lemma FirstItemsJoin(parts: seq<Text>, ws: bool, level: nat)
    requires |parts| > 0
    ensures Items(parts, ws, level, true) == LineBreak(ws, level) + Join(parts, [Comma] + LineBreak(ws, level))
  {
    ItemsJoin(parts, ws, level, true);
  }

  /** Regrouping a concatenation. */
  lemma Regroup(a: Text, b: Text, c: Text, d: Text, e: Text)
    ensures a + (b + c) + d + e == a + (b + c + d) + e
  {
  }

  lemma LayoutUnfold(open: CodeUnit, close: CodeUnit, parts: seq<Text>, ws: bool, level: nat)
    requires |parts| > 0
    ensures Layout(open, close, parts, ws, level) == [open] + Items(parts, ws, level + 1, true) + LineBreak(ws, level) + [close]
  {
  }

  /** A container renders as its element texts in order, joined by a comma
      and a line break one level deeper, after a line break one level deeper
      and before a line break at its own level. */
  lemma LayoutJoin(open: CodeUnit, close: CodeUnit, parts: seq<Text>, ws: bool, level: nat)
    ensures Layout(open, close, parts, ws, level)
            == [open]
               + (if |parts| == 0 then []
                  else LineBreak(ws, level + 1) + Join(parts, [Comma] + LineBreak(ws, level + 1)) + LineBreak(ws, level))
               + [close]
  {
    if |parts| > 0 {
      FirstItemsJoin(parts, ws, level + 1);
      LayoutUnfold(open, close, parts, ws, level);
      Regroup([open], LineBreak(ws, level + 1), Join(parts, [Comma] + LineBreak(ws, level + 1)), LineBreak(ws, level), [close]);
    }
  }

  /** In compact mode, a container renders as its element texts joined by
      commas between its brackets. */
  lemma CompactLayoutJoin(open: CodeUnit, close: CodeUnit, parts: seq<Text>, level: nat)
    ensures Layout(open, close, parts, false, level) == [open] + Join(parts, [Comma]) + [close]
  {
    LayoutJoin(open, close, parts, false, level);
    assert [Comma] + LineBreak(false, level + 1) == [Comma];
    if |parts| > 0 {
      assert LineBreak(false, level + 1) + Join(parts, [Comma]) + LineBreak(false, level) == Join(parts, [Comma]);
    }
  }

  /** An array renders as its elements, each rendered one level deeper, in
      list order, joined by a comma and a line break; a line break comes
      after the `[` and before the `]` of a non-empty array, and an empty
      array is `[]` in both modes. In compact mode this is `[`, the elements
      joined by `,`, and `]`. */
  lemma ArrayLayout(p: Platform, items: seq<Value>, ws: bool, level: nat)
    ensures ArrayText(p, items, ws, level)
            == [LeftBracket]
               + (if |items| == 0 then []
                  else LineBreak(ws, level + 1) + Join(ElementTexts(p, items, level + 1), [Comma] + LineBreak(ws, level + 1))
                       + LineBreak(ws, level))
               + [RightBracket]
    ensures !ws ==> ArrayText(p, items, ws, level) == [LeftBracket] + Join(ElementTexts(p, items, level + 1), [Comma]) + [RightBracket]
  {
    LayoutJoin(LeftBracket, RightBracket, ElementTexts(p, items, level + 1), ws, level);
    CompactLayoutJoin(LeftBracket, RightBracket, ElementTexts(p, items, level + 1), level);
  }

  /** An object renders as its members in iteration order, each as
      `"key":value` (`"key": value` when indented) with the value one level
      deeper, joined like array elements; an empty object is `{}`. */
  lemma ObjectLayout(p: Platform, members: seq<Member>, ws: bool, level: nat)
    ensures ObjectText(p, members, ws, level)
            == [LeftBrace]
               + (if |members| == 0 then []
                  else LineBreak(ws, level + 1) + Join(MemberTexts(p, members, ws, level + 1), [Comma] + LineBreak(ws, level + 1))
                       + LineBreak(ws, level))
               + [RightBrace]
    ensures !ws ==> ObjectText(p, members, ws, level) == [LeftBrace] + Join(MemberTexts(p, members, ws, level + 1), [Comma]) + [RightBrace]
  {
    LayoutJoin(LeftBrace, RightBrace, MemberTexts(p, members, ws, level + 1), ws, level);
    CompactLayoutJoin(LeftBrace, RightBrace, MemberTexts(p, members, ws, level + 1), level);
  }

  /** The indented rendering of a one-member object at depth `level`. */
  lemma IndentedSingleMember(p: Platform, key: Text, v: Value, level: nat)
    ensures ObjectText(p, [Member(key, v)], true, level)
            == [LeftBrace] + NewLine + Spaces((level + 1) * IndentSize)
               + ([Quote] + ToJsonString(key) + [Quote, Colon, Space] + ElementText(p, v, level + 1))
               + NewLine + Spaces(level * IndentSize) + [RightBrace]
  {
    var e := MemberText(p, Member(key, v), true, level + 1);
    assert MemberTexts(p, [Member(key, v)], true, level + 1) == [e];
    ObjectLayout(p, [Member(key, v)], true, level);
    assert e == [Quote] + ToJsonString(key) + [Quote, Colon, Space] + ElementText(p, v, level + 1);
    Regroup7([LeftBrace], NewLine, Spaces((level + 1) * IndentSize), e, NewLine, Spaces(level * IndentSize), [RightBrace]);
  }

  /** Regrouping a concatenation. */
  lemma Regroup7(a: Text, b: Text, c: Text, d: Text, e: Text, f: Text, g: Text)
    ensures a + ((b + c) + d + (e + f)) + g == a + b + c + d + e + f + g
  {
  }

  /** `null` and the booleans render as lower-case literals. */
  lemma LiteralTexts(p: Platform, level: nat, b: bool)
    ensures ElementText(p, Null, level) == [LetterN, LetterU, LetterL, LetterL]
    ensures ElementText(p, Bool(b), level) == if b then [LetterT, LetterR, LetterU, LetterE]
                                                  else [LetterF, LetterA, LetterL, LetterS, LetterE]
  {
  }

  /** Integers render as decimal text that reads back as the same value. */
  lemma Int32Text(p: Platform, level: nat, i: int32)
    ensures IntegerSyntax(ElementText(p, Int32(i), level)) == Some(i as int)
  {
    assert ElementText(p, Int32(i), level) == IntText(i as int);
    IntTextSyntax(i);
  }

  /** The same for 64-bit integers. */
  lemma Int64Text(p: Platform, level: nat, l: int64)
    ensures IntegerSyntax(ElementText(p, Int64(l), level)) == Some(l as int)
  {
    assert ElementText(p, Int64(l), level) == IntText(l as int);
    IntTextSyntax(l);
  }

  /** A string renders quoted and escaped: read from just after its opening
      quote, the literal decodes to the string and ends at its closing
      quote. */
  lemma StringText(p: Platform, level: nat, s: Text)
    ensures GetStringValue(ElementText(p, Str(s), level), 1) == Success((s, |ElementText(p, Str(s), level)|))
  {
    var e := Quoted(ToJsonString(s));
    assert e[1..|e| - 1] == ToJsonString(s);
    DecodeToJsonString(e, 1, s, |e|);
  }
}
