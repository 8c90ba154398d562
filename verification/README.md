# Common.JSON in Dafny

A model of the JSON codec in `Common.JSON`, with proofs about it. The codec has three parts:

- **Lexical helpers** (`Functions.cs`):
  - the string escaper `ToJsonString`;
  - the literal decoder `GetStringValue`, with `FromEscapedChar` and `FromUnicodeChar`;
  - the white-space and comment skipper `SkipWhitespace`;
  - the decimal normaliser `NormalizeDecimal`;
  - the pushback character stream `PeekNextChar` / `ReadNextChar` / `PushLastChar`.
- **Renderers**: `JSONArray.ToString(level)` and `JSONObject.ToString(level)`. They are mutually recursive and have a compact and an indented layout.
- **Parsers**: `JSONArray.FromString` and `JSONObject.FromString`. They are mutually recursive, character-driven state machines. Each classifies a value's text with `SaveValue` / `SaveKeyValue` and stores it with `List.Add` / `Dictionary.Add`.

## Modules

One module per concern, in dependency order:

| Module | File | What it holds |
|---|---|---|
| `Wrappers` | `wrappers.dfy` | `Option` and `Result` |
| `Chars` | `chars.dfy` | UTF-16 code units, `char.IsWhiteSpace`, `TrimEnd` |
| `Errors` | `errors.dfy` | The exceptions the source throws, as values |
| `Numbers` | `numbers.dfy` | Integer text (`ToString`, `int.TryParse`, `long.TryParse`) and the hex digits of `\uXXXX` |
| `CharStream` | `stream.dfy` | The pushback stream; the process-wide stack is explicit state |
| `Whitespace` | `whitespace.dfy` | `SkipWhitespace` and its comment loops |
| `JsonStrings` | `strings.dfy` | Escaping and decoding of string literals |
| `Values` | `values.dfy` | The `Value` tree, the `Platform` of library calls, classification, `Dictionary.Add` |
| `Decimals` | `decimals.dfy` | `NormalizeDecimal` |
| `Render` | `render.dfy` | The renderers |
| `Parser` | `parse.dfy` | The parsers and their step lemmas |
| `RoundTrip` | `roundtrip.dfy` | Parsing a rendering gives the tree back |
| `ParseExtent` | `extent.dfy` | How far the parsers read: nothing past a container's closing bracket |

## Modelling decisions

- **Characters.** A .NET `char` is a UTF-16 code unit, surrogate halves included. It is modelled as `CodeUnit`, an integer below `0x10000`, and a string as `seq<CodeUnit>`.
- **Values.** A `JSONArray` is a list of `Value`s. A `JSONObject` is a dictionary, kept here as its members in insertion order, which is the order it iterates in. Each container carries its own `addWhitespace` flag.
- **Library calls.** The .NET calls the code relies on are fields of a `Platform` value that every operation takes as a parameter:
  - `DateTime.TryParse` and `DateTime.ToString("O")`;
  - `decimal.TryParse` and `double.TryParse`;
  - the `ToString()` of decimals and doubles, and the en-US decimal `ToString`.

  Date-times, decimals and doubles are opaque types.
- **`Functions.AddWhitespace` is referenced but not defined** (`JSONArray.cs:16`, `JSONObject.cs:16`). It is modelled as `Platform.addWhitespace`, the flag a container built by the parsers gets.
- **`ToJSONString` vs `ToJsonString`.** The renderers call `Functions.ToJSONString`, but the definition is named `ToJsonString`. Both are read as the one function `ToJsonString`.
- **`SkipWhitespace` does not type-check as written.** It indexes an `object`. It also contains an unfinished block at `Functions.cs:130-145`, and the model leaves that block out on purpose:
  - At a `/`, the block calls `ReadNextChar`, which runs `input[pos++]` (`Functions.cs:62`). That moves the cursor past the `/`.
  - Its three branches are empty, so the comment tests that follow look one character too late.
  - With the end test corrected, `// c` would therefore never be seen as a comment, and skipping would stop at its second `/`.
  - The model follows the intended loop on a string: lines 123-128 and 146-175, with `pos >= |s|` as the end of input.
  - The comments of lines 6-12 state the intent.
  - The `IsEOL` guard of that loop is inverted; see Findings.
- **Nested containers.** The source steps back onto a nested container's bracket (`pos--`) and re-enters `FromString`. That call skips no white space (the bracket is significant) and its bracket check passes. The model therefore calls the body parser (`ArrayBody` / `ObjectBody`) just after the bracket. `Parser.NestedArrayEntry` and `Parser.NestedObjectEntry` prove the two agree.
- **Parser states.** `inStringValue` is false between any two characters: it is set and cleared inside the string branch. It is therefore not part of the loop state.
- **Parser results.** Each parse returns the value and the position just past it, or an `Error` where the source throws. `null` for empty input becomes `Success(None)`.
- **Layout constants.** `Functions.IndentSize` is the constant 2. `StringBuilder.AppendLine()` writes the platform's `Environment.NewLine`; the model fixes it as CRLF (`"\r\n"`), the Windows line terminator.
- **Levels.** `level` is a `nat`. Every call in the source passes 0 or a level one deeper.
- **Integers.** An integer element renders as its decimal digits with a leading `-` when negative, i.e. `Int32`/`Int64` `ToString()` in a culture whose negative sign is `-`. `int.TryParse` and `long.TryParse` follow `NumberStyles.Integer`:
  - optional ASCII white space around the number;
  - an optional sign;
  - ASCII digits;
  - any number of U+0000 characters at the very end, which .NET number parsing accepts after the trailing white space;
  - a range check.
- **`Convert.ToUInt16(_, 16)`** accepts an optional `+` and a `0x`/`0X` prefix. `Numbers.ParseHex16` models that, so `\u+abc` and `\u0x41` decode.
- **Unit tests vs code.** The unit tests expect `[ , , , ]` and `{ , , , }` to parse to empty containers. The parsers as written reject a leading comma, and the model follows the code (`Parser.ArrayLeadingComma`, `Parser.ObjectLeadingComma`).
- **`NormalizeDecimal` is not used by the renderers.** A decimal renders with its plain `ToString()`. `NormalizeDecimal` is modelled on its own.

## Model

| member | source | states |
|---|---|---|
| `CharStream.PeekNextChar` | Common.JSON/Functions.cs:29-38 | The top of the pushback stack if it is not empty, otherwise the character at the cursor. It fails exactly when the stack is empty and the cursor is at the end. |
| `CharStream.ReadNextChar` | Common.JSON/Functions.cs:54-63 | Pops the stack without moving the cursor, or reads at the cursor and moves it by one. The input is never changed. |
| `CharStream.PushLastChar` | Common.JSON/Functions.cs:80-83 | The stack grows by one; the input and the cursor are unchanged. |
| `CharStream.PeekAgreesWithRead` | Common.JSON/Functions.cs:29-63 | Peek succeeds exactly when a read does, and it yields the character the read returns. |
| `CharStream.PushThenRead` | Common.JSON/Functions.cs:54-83 | A read right after pushing `c` returns `c` and gives back the stream exactly as it was before the push. |
| `CharStream.PushedComeBackLastInFirstOut` | Common.JSON/Functions.cs:54-83 | Two pushed characters come back in reverse order, then the original stream is restored. |
| `CharStream.ReadFromInput` | Common.JSON/Functions.cs:60-63 | With an empty stack, a read returns `s[pos]` and advances the cursor by exactly one. |
| `CharStream.IsEol` | Common.JSON/Functions.cs:85-94 | The intended end test: true exactly when peek fails, and exactly when a read fails. |
| `CharStream.IsEolAsWritten` | Common.JSON/Functions.cs:85-94 | `IsEOL` as written agrees with the intended test only while characters are pushed back, or when the cursor is exactly at the end. |
| `CharStream.IsEolAsWrittenBeforeEnd` | Common.JSON/Functions.cs:85-94 | As written, `IsEOL` answers true at every position that still holds a character, where peek succeeds. |
| `CharStream.IsEolAsWrittenExample` | Common.JSON/Functions.cs:91-94 | On the text ` {` at position 0, the written test reports end of input although a space is there to peek. |
| `Whitespace.LineCommentEnd` | Common.JSON/Functions.cs:146-159 | The `//` loop ends just past the first CR or LF, with no break before it, or at the end of the text when there is none. |
| `Whitespace.BlockCommentEnd` | Common.JSON/Functions.cs:161-174 | The intended `/*` loop ends just past the first `*/` after the opener, or at the end of the text when there is none. |
| `Whitespace.BlockCommentEndAsWritten` | Common.JSON/Functions.cs:161-174 | The loop as written always ends where the intended loop would end if started one character early, on the opener's `*`. |
| `Whitespace.BlockCommentEndAsWrittenClosesEarly` | Common.JSON/Functions.cs:161-174 | As written, the block loop closes `/*/ 1 */` at its third character. The intended loop closes it at the real `*/`. |
| `Whitespace.SkipWhitespace` | Common.JSON/Functions.cs:106-177 | Never moves back and never passes the end. It stops at the end or at a character that is neither white space nor the start of a `//` or `/*` comment. The lemmas below pin down what it skips: white runs, line comments, closed and unclosed block comments, and nothing at a significant character. |
| `Whitespace.SkipStopsAtSignificant` | Common.JSON/Functions.cs:124-175 | Skipping does not move at the end, or at a character that is neither white space nor the start of a comment. |
| `Whitespace.BlockCommentThroughClose` | Common.JSON/Functions.cs:161-174 | A `/*` comment is consumed through the first `*/` after its opener, and skipping goes on from just after it. |
| `Whitespace.SkipAtSignificantChar` | Common.JSON/Functions.cs:124-175 | Skipping does not move at a character that is neither white space nor `/`. |
| `Whitespace.SkipWhitespaceIdempotent` | Common.JSON/Functions.cs:106-177 | Skipping again from where a skip stopped does not move. |
| `Whitespace.SkipWhiteRun` | Common.JSON/Functions.cs:124-128 | A run of white space is skipped as a whole. |
| `Whitespace.UnterminatedLineComment` | Common.JSON/Functions.cs:146-159 | A `//` comment with no line break after it runs to the end of the text without error. |
| `Whitespace.UnterminatedBlockComment` | Common.JSON/Functions.cs:161-174 | A `/*` comment with no `*/` after it runs to the end of the text without error. |
| `Whitespace.LineCommentThroughBreak` | Common.JSON/Functions.cs:146-159 | A `//` comment is consumed through its first CR or LF, and skipping goes on from just after it. |
| `JsonStrings.EscapeChar` | Common.JSON/Functions.cs:239-278 | Each character has exactly one of three escapes: two characters for the seven short escapes; `\u` plus four hex digits for characters needing a Unicode escape; otherwise itself. The output holds no raw control character. |
| `JsonStrings.ShortEscapes` | Common.JSON/Functions.cs:241-268 | `\`, `"`, CR, LF, TAB, BS and FF become `\\`, `\"`, `\r`, `\n`, `\t`, `\b` and `\f`. |
| `JsonStrings.ToJsonString` | Common.JSON/Functions.cs:231-281 | The escaped text is never shorter than the input. |
| `JsonStrings.ToJsonStringIsSafe` | Common.JSON/Functions.cs:237-281 | The escaped text holds no character below 32, and every `"` in it follows a backslash. |
| `JsonStrings.FromEscapedChar` | Common.JSON/Functions.cs:337-371 | Exactly `" \ / b f n r t` are accepted. Each one except `/` is the inverse of its short escape. |
| `JsonStrings.FromUnicodeChar` | Common.JSON/Functions.cs:373-383 | Only six-character text is accepted. Four hex digits give their value. When it accepts, the last character is a hex digit and each of the four is a hex digit, `+`, `x` or `X`; so a `-` sign, `x` in the last place, or any other character is refused. |
| `Numbers.ParseHex16` | Common.JSON/Functions.cs:381 | `Convert.ToUInt16(_, 16)`: one to four hex digits give their value. It refuses empty text, a leading `-`, text not ending in a hex digit, and any character other than a hex digit, `+`, `x` or `X`. |
| `Numbers.Hex4` | Common.JSON/Functions.cs:273 | `{0:x4}` writes exactly four hex digits, none of them a quote or a backslash. |
| `Numbers.Hex4RoundTrip` | Common.JSON/Functions.cs:273 | The four digits written for a code unit read back, through `Convert.ToUInt16`, as that code unit. |
| `JsonStrings.GetStringValue` | Common.JSON/Functions.cs:182-229 | On success, the position is just past a quote, and the decoded text is shorter than what was consumed. Starting at the end is an error. |
| `JsonStrings.InvalidEscapeFails` | Common.JSON/Functions.cs:199-210 | A backslash followed by an unknown letter, by `u` with fewer than four characters after it, or by `u` and four characters `FromUnicodeChar` refuses, fails with `InvalidEscape` at that letter. |
| `JsonStrings.NonHexUnicodeEscape` | Common.JSON/Functions.cs:202-210 | A `\u` escape whose four characters include one that is not a hex digit, `+`, `x` or `X`, as in `\u12g4`, fails with `InvalidEscape`. |
| `JsonStrings.PlainStringValue` | Common.JSON/Functions.cs:187-226 | With no backslash before the first quote, the decoded text is everything before that quote, and the position is just past it. |
| `JsonStrings.DecodeEscapeChar` | Common.JSON/Functions.cs:193-218 | An escape written by the escaper decodes to its character and consumes exactly the escape. |
| `JsonStrings.DecodeToJsonString` | Common.JSON/Functions.cs:182-281 | Decoding the escaped text of `t` followed by a quote, at any position of a longer text, gives `t` and stops just past that quote. |
| `JsonStrings.StringRoundTrip` | Common.JSON/Functions.cs:182-281 | `GetStringValue(ToJsonString(t) + "\"")` returns `t` and consumes all of it. |
| `Decimals.StripFraction` | Common.JSON/Functions.cs:403-419 | The stripping loop leaves a prefix. It removes only trailing `0`s, and then at most one `.`, and never cuts into the text before the decimal point. |
| `Decimals.NormalizeText` | Common.JSON/Functions.cs:399-421 | Text without a `.` is unchanged. Otherwise the result is a prefix, and what was removed is trailing zeros and at most the point. Unless the point was removed, the result does not end in `0` or `.`, so every trailing zero has gone. |
| `Decimals.NormalizeExamples` | Common.JSON/Functions.cs:403-419 | `1.50` normalises to `1.5`, and `2.00` to `2`. |
| `Decimals.NormalizeKeepsIntegerPart` | Common.JSON/Functions.cs:403-419 | Everything before the decimal point survives normalisation. |
| `Decimals.NormalizeIdempotent` | Common.JSON/Functions.cs:399-421 | For text with at most one `.`, normalising twice is normalising once. |
| `Decimals.NormalizeDecimal` | Common.JSON/Functions.cs:399-421 | The result is a prefix of the en-US text of the value, and equals it when that text has no point. Otherwise only trailing zeros and at most the point are removed, and, unless the point was removed, the result does not end in `0` or `.`. |
| `Decimals.NormalizeDecimalText` | Common.JSON/Functions.cs:385-397 | Empty text is returned unchanged. Text `decimal.TryParse` refuses is an error. Anything else is the normalised text of the parsed value. |
| `Chars.TrimEnd` | Common.JSON/JSONArray.cs:240-243 | `TrimEnd` leaves a prefix, everything removed is white space, and the result does not end in white space. |
| `Chars.TrimEndOfPadded` | Common.JSON/JSONArray.cs:240-243 | A token that ends in a non-white character, padded with white space, trims back to the token. |
| `Numbers.TryParseInt32` | Common.JSON/JSONArray.cs:268-271 | Succeeds exactly when the text is integer syntax whose value fits 32 bits, and yields that value. |
| `Numbers.TryParseInt64` | Common.JSON/JSONArray.cs:272-275 | The same for 64 bits. |
| `Numbers.TrailingNulsIgnored` | Common.JSON/JSONArray.cs:268-275 | U+0000 characters after a number never change what the text parses as. |
| `Numbers.TrailingNulsAfterInt32` | Common.JSON/JSONArray.cs:268-271 | An int's text followed by U+0000 characters still parses as that int, e.g. `12` then U+0000 gives 12. |
| `Numbers.IntTextSyntax` | Common.JSON/JSONArray.cs:63-67 | An integer's `ToString()` text reads back, as integer syntax, as that integer. |
| `Values.AddMember` | Common.JSON/JSONObject.cs:321-324 | `Dictionary.Add` succeeds exactly when the key is new, appending it last. A repeated key is a `DuplicateKey` error and overwrites nothing. Unique keys stay unique. |
| `Values.AddMemberKeepsKeysUnique` | Common.JSON/JSONObject.cs:321-324 | After an addition the keys are still unique, and the key set grows by exactly the new key. |
| `Values.ClassifyQuoted` | Common.JSON/JSONObject.cs:275-286 | A quoted value is a date-time exactly when the date parser accepts it, and otherwise the text itself. |
| `Values.ClassifyBare` | Common.JSON/JSONObject.cs:271-318 | A bare value is never a string, date-time or container. A failure names the right-trimmed text. |
| `Values.ClassifyTrimmed` | Common.JSON/JSONObject.cs:287-318 | The same, on text already trimmed. |
| `Values.ClassifyBareOrder` | Common.JSON/JSONArray.cs:256-287 | The priority order after trimming: `null`, `true`, `false`, int32, int64, decimal, double. Each reading is taken exactly when every earlier one refused, and the value fails exactly when all refuse. |
| `Parser.SaveValue` | Common.JSON/JSONArray.cs:233-288 | A quoted value is always appended. A bare value is appended exactly when it classifies, as its classification. Earlier elements are untouched. |
| `Parser.SaveKeyValue` | Common.JSON/JSONObject.cs:264-319 | Succeeds exactly when the key is new and the value classifies. It appends under the key, keeps keys unique, and fails with `DuplicateKey` on a repeated key. |
| `Parser.ArrayFromString` | Common.JSON/JSONArray.cs:106-120 | Empty input gives `Success(None)`, no array. Otherwise white space to the end is `UnexpectedEndOfInput`, a first significant character other than `[` is `UnexpectedToken` at its position, and a parse ends after that bracket. |
| `Parser.ObjectFromString` | Common.JSON/JSONObject.cs:115-129 | The same with `{`: empty input gives `Success(None)`, white space to the end is `UnexpectedEndOfInput`, another first significant character is `UnexpectedToken` at its position. A parsed object has unique keys. |
| `Parser.ParseArray` | Common.JSON/JSONArray.cs:100-104 | Parsing from position 0: empty input gives `Success(None)`, white space only is `UnexpectedEndOfInput`, a first significant character other than `[` is `UnexpectedToken`, and a parsed array carries the parser's whitespace flag. |
| `Parser.ParseObject` | Common.JSON/JSONObject.cs:109-113 | Parsing from position 0: empty input gives `Success(None)`, white space only is `UnexpectedEndOfInput`, a first significant character other than `{` is `UnexpectedToken`, and a parsed object has unique keys. |
| `Parser.ArrayBody` | Common.JSON/JSONArray.cs:119-127 | From just after `[`, the result lies within the text and is an array. |
| `Parser.ObjectBody` | Common.JSON/JSONObject.cs:128-138 | From just after `{`, the result lies within the text and is an object with unique keys. |
| `Parser.ArrayLoop` | Common.JSON/JSONArray.cs:127-230 | The loop ends at the end of the text or just past a `]`, never before its start, with an array. |
| `Parser.ArrayString` | Common.JSON/JSONArray.cs:133-151 | A `"` where no element may start is an error. |
| `Parser.ArrayComma` | Common.JSON/JSONArray.cs:153-171 | A `,` that follows no element is an error. |
| `Parser.ArrayClose` | Common.JSON/JSONArray.cs:172-183 | A `]` ends the array just past itself. It is an error only when no state flag is set. With no pending text, the elements are those gathered. |
| `Parser.ArrayNested` | Common.JSON/JSONArray.cs:184-214 | A `{` or `[` where no element may start is an error. |
| `Parser.ArrayBare` | Common.JSON/JSONArray.cs:215-228 | Any other character outside an element, where none may start, is an error. |
| `Parser.ObjectLoop` | Common.JSON/JSONObject.cs:138-261 | The loop ends at the end of the text or just past a `}`, with an object. It keeps its members' keys unique. |
| `Parser.ObjectString` | Common.JSON/JSONObject.cs:143-170 | A `"` where neither a key nor a value may start is an error. |
| `Parser.ObjectColon` | Common.JSON/JSONObject.cs:172-182 | A `:` anywhere but just after a key is an error. |
| `Parser.ObjectComma` | Common.JSON/JSONObject.cs:183-201 | A `,` that follows no value is an error. |
| `Parser.ObjectClose` | Common.JSON/JSONObject.cs:202-213 | A `}` ends the object just past itself. It is an error only when no state flag is set. |
| `Parser.ObjectNested` | Common.JSON/JSONObject.cs:214-245 | A `{` or `[` where no value may start is an error. |
| `Parser.ObjectBare` | Common.JSON/JSONObject.cs:246-259 | Any other character outside a value, where none may start, is an error. |
| `Parser.ArrayBareStep` | Common.JSON/JSONArray.cs:222-226 | Inside a bare element, a plain character is appended to its text. |
| `Parser.ArrayBareRun` | Common.JSON/JSONArray.cs:215-226 | Inside a bare element, a run of plain characters is appended as a whole, white space and slashes included. |
| `Parser.ObjectBareStep` | Common.JSON/JSONObject.cs:253-257 | Inside a bare value, a plain character is appended to its text. |
| `Parser.ObjectBareRun` | Common.JSON/JSONObject.cs:246-257 | Inside a bare value, a run of plain characters is appended as a whole. |
| `Parser.NestedArrayEntry` | Common.JSON/JSONArray.cs:200-207 | Re-entering `FromString` on a `[` gives exactly what the body parser just after it gives, success or error. |
| `Parser.NestedObjectEntry` | Common.JSON/JSONArray.cs:185-192 | The same for `{`. |
| `Parser.ArrayLeadingComma` | Common.JSON/JSONArray.cs:153-158 | A comma before the first element fails at that comma. |
| `Parser.ObjectLeadingComma` | Common.JSON/JSONObject.cs:183-188 | A comma before the first member fails at that comma. |
| `Parser.ArrayCommaStep` | Common.JSON/JSONArray.cs:153-171 | After an element, a comma saves any pending bare element and leads to where the next element may start. |
| `Parser.ArrayDoubledComma` | Common.JSON/JSONArray.cs:153-158 | A second comma, with only white space or comments before it, fails. |
| `Parser.ArrayTrailingComma` | Common.JSON/JSONArray.cs:153-183 | A single comma before `]` adds no element. |
| `Parser.ArrayEndInsideValue` | Common.JSON/JSONArray.cs:215-230 | Running out of text inside a bare element returns the elements gathered so far, without error. |
| `Parser.ArrayNestedOnlyAsValue` | Common.JSON/JSONArray.cs:185-214 | A nested container is refused where no element may start. Elsewhere it is appended, and the loop goes on past it. |
| `Parser.ObjectCommaStep` | Common.JSON/JSONObject.cs:183-201 | After a member, a comma saves any pending bare value and leads to where the next key may start. |
| `Parser.ObjectDoubledComma` | Common.JSON/JSONObject.cs:183-188 | A second comma fails. |
| `Parser.ObjectTrailingComma` | Common.JSON/JSONObject.cs:183-213 | A single comma before `}` adds no member. |
| `Parser.ObjectKeyStep` | Common.JSON/JSONObject.cs:144-153 | A key is read where a key may start, and the loop goes on after it and any white space. |
| `Parser.ObjectColonStep` | Common.JSON/JSONObject.cs:172-182 | A colon after a key leads to where its value may start. |
| `Parser.ObjectCloseAfterKey` | Common.JSON/JSONObject.cs:202-207 | `}` directly after a key fails. |
| `Parser.ObjectCloseAfterColon` | Common.JSON/JSONObject.cs:202-207 | `}` directly after a key's colon fails. |
| `Parser.EmptyKeyKeptBeforeComma` | Common.JSON/JSONObject.cs:183-201 | A bare value under the empty key is kept when a comma follows it. |
| `Parser.EmptyKeyDroppedBeforeClose` | Common.JSON/JSONObject.cs:202-213 | That value is dropped, whatever its text, when `}` follows it. Under a non-empty key it is saved. |
| `Parser.DuplicateKeyFails` | Common.JSON/JSONObject.cs:154-168 | A value under a key already present fails with `DuplicateKey`; nothing is overwritten. |
| `Parser.ObjectEndInsideValue` | Common.JSON/JSONObject.cs:246-261 | Running out of text inside a bare value returns the members gathered so far, without error. |
| `Parser.ObjectNestedOnlyAsValue` | Common.JSON/JSONObject.cs:214-245 | A nested container is refused where no value may start. Otherwise it is added under the key, or fails on a repeated key. |
| `Parser.ArrayBareStart` | Common.JSON/JSONArray.cs:215-226 | A plain character where an element may start begins a bare element. |
| `Parser.ArrayStringStep` | Common.JSON/JSONArray.cs:133-149 | A string element is classified and appended at once, and the loop goes on after it and any white space. |
| `Parser.ArrayCloseStep` | Common.JSON/JSONArray.cs:172-183 | `]` after an element ends the array with that element last. |
| `Parser.ObjectBareStart` | Common.JSON/JSONObject.cs:246-257 | A plain character after a key's colon begins a bare value. |
| `Parser.ObjectStringStep` | Common.JSON/JSONObject.cs:154-168 | A string value under a new key is classified and added at once. |
| `Parser.ObjectCloseStep` | Common.JSON/JSONObject.cs:202-213 | `}` after a member ends the object with that member last. |
| `Render.Spaces` | Common.JSON/JSONArray.cs:43 | `new String(' ', n)` is `n` spaces. |
| `Render.LineBreak` | Common.JSON/JSONArray.cs:40-44 | Nothing in compact mode. Otherwise CRLF and then `level * 2` spaces, every character after the CRLF a space. |
| `Render.LineBreakIsWhite` | Common.JSON/JSONArray.cs:42-43 | Every character of a line break is white space. |
| `Render.Quoted` | Common.JSON/JSONArray.cs:85-87 | The text between two quotes. |
| `Render.Layout` | Common.JSON/JSONArray.cs:29-98 | A container starts with its opening bracket and ends with its closing one. An empty container is exactly the two brackets, in both modes. |
| `Render.ItemsJoin` | Common.JSON/JSONArray.cs:35-54 | The `addComma` loop writes a comma and a line break between elements and only a line break before the first: a join. |
| `Render.LayoutJoin` | Common.JSON/JSONArray.cs:29-98 | A non-empty container is a line break one level deeper, then its element texts joined by a comma and that break, then a break at its own level. |
| `Render.CompactLayoutJoin` | Common.JSON/JSONArray.cs:29-98 | In compact mode, a container is its elements joined by `,` between its brackets. |
| `Render.ArrayLayout` | Common.JSON/JSONArray.cs:29-98 | An array renders as its elements in list order, each one level deeper, laid out as above. |
| `Render.ObjectLayout` | Common.JSON/JSONObject.cs:29-107 | An object renders as `"key":value` members in iteration order (`"key": value` when indented), with escaped keys and values one level deeper. |
| `Render.IndentedSingleMember` | Common.JSON/JSONObject.cs:38-62 | The exact indented text of a one-member object at depth `L`: CRLF and `(L+1)*2` spaces, the member with `": "`, then CRLF and `L*2` spaces before `}`. |
| `Render.LiteralTexts` | Common.JSON/JSONArray.cs:55-62 | `null`, `true` and `false` render in lower case. |
| `Render.Int32Text` | Common.JSON/JSONArray.cs:63-67 | An int renders as text that reads back as the same int. |
| `Render.Int64Text` | Common.JSON/JSONArray.cs:63-67 | The same for longs. |
| `Render.StringText` | Common.JSON/JSONArray.cs:83-88 | A string renders quoted and escaped. Read from after its opening quote, it decodes to the string and ends at its closing quote. |
| `RoundTrip.ScalarClassifies` | Common.JSON/JSONArray.cs:240-275 | The text of `null`, a boolean, an int or an int64 outside the int range classifies back to the value, with any white space after it. |
| `RoundTrip.ArrayScalarStep` | Common.JSON/JSONArray.cs:215-226 | A rendered scalar element, white space, then `,` or `]` is read by the loop as exactly that element. |
| `RoundTrip.ObjectScalarStep` | Common.JSON/JSONObject.cs:246-257 | The same for a member's scalar value. |
| `RoundTrip.NestedParses` | Common.JSON/JSONArray.cs:185-214 | A rendered nested container is parsed by the body parser of its kind and ends where its text ends. |
| `RoundTrip.ArrayElementStep` | Common.JSON/JSONArray.cs:133-214 | One rendered element and what follows it up to `,` or `]` are read as exactly that element. |
| `RoundTrip.ObjectMemberStep` | Common.JSON/JSONObject.cs:143-245 | One rendered member (key, colon, value) is read as exactly that member. |
| `RoundTrip.ArrayItemsFrom` | Common.JSON/JSONArray.cs:127-230 | From element `i` of an array's text on, the loop holding the first `i` elements ends with the whole array, just past its `]`. |
| `RoundTrip.ObjectMembersFrom` | Common.JSON/JSONObject.cs:138-261 | From member `i` of an object's text on, the loop holding the first `i` members ends with the whole object, just past its `}`. |
| `RoundTrip.ArrayContainer` | Common.JSON/JSONArray.cs:119-230 | An array's text, inside any longer text, parses back from just after its `[` to the array, ending just past its `]`. |
| `RoundTrip.ObjectContainer` | Common.JSON/JSONObject.cs:128-261 | The same for an object's text. |
| `RoundTrip.ArrayRoundTrip` | Common.JSON/JSONArray.cs:24-231 | `FromString(a.ToString())` rebuilds `a`, in both layouts, for every tree in `Restricted`. |
| `RoundTrip.ObjectRoundTrip` | Common.JSON/JSONObject.cs:24-262 | `FromString(o.ToString())` rebuilds `o`, in both layouts, for every tree in `Restricted`. |
| `RoundTrip.ArrayRoundTripIgnoresRest` | Common.JSON/JSONArray.cs:106-231 | For a rendered tree in `Restricted`, whatever text follows the closing `]`, the array is rebuilt and the parse ends just past its `]`. The general statement is `ParseExtent.ArrayFromStringIgnoresRest`. |
| `RoundTrip.ObjectRoundTripIgnoresRest` | Common.JSON/JSONObject.cs:115-262 | The same for an object and its `}`; the general statement is `ParseExtent.ObjectFromStringIgnoresRest`. |
| `ParseExtent.ArrayFromStringIgnoresRest` | Common.JSON/JSONArray.cs:106-231 | For any text and any successful parse that ends before the end of the text: every text agreeing with it up to that end parses to the same array, ending at the same place. Nothing past the closing `]` is read. |
| `ParseExtent.ObjectFromStringIgnoresRest` | Common.JSON/JSONObject.cs:115-262 | The same for an object and its `}`. |
| `ParseExtent.ArrayBodyReadsTo` | Common.JSON/JSONArray.cs:119-230 | The array body parser, from just after `[`, reads nothing past where it ends. |
| `ParseExtent.ObjectBodyReadsTo` | Common.JSON/JSONObject.cs:128-261 | The same for the object body parser. |
| `ParseExtent.ArrayLoopReadsTo` | Common.JSON/JSONArray.cs:127-230 | A loop that ends before the end of the text ends past its first character, a further one past it unless that character is `]`, and reads nothing past its end. |
| `ParseExtent.ObjectLoopReadsTo` | Common.JSON/JSONObject.cs:138-261 | The same for the object loop and `}`. |
| `ParseExtent.NestedReadsTo` | Common.JSON/JSONArray.cs:184-214 | A nested container reads nothing past its own closing bracket. |
| `Whitespace.SkipReadsTo` | Common.JSON/Functions.cs:123-175 | A skip that stops inside the agreed part, with the character after a `/` inside it too, stops at the same place on any text that agrees up to there. |
| `Whitespace.LineCommentEndReadsTo` | Common.JSON/Functions.cs:146-159 | A `//` comment closed by a line break inside the agreed part ends at the same place on the other text. |
| `Whitespace.BlockCommentEndReadsTo` | Common.JSON/Functions.cs:161-174 | A `/*` comment closed inside the agreed part ends at the same place on the other text. |
| `JsonStrings.GetStringValueReadsTo` | Common.JSON/Functions.cs:182-229 | A decoded string reads nothing past its closing quote: any text agreeing up to there decodes the same. |

## Left out

- **`TextReader` branches** of `PeekNextChar`, `ReadNextChar` and `IsEOL`. They are I/O, and unreachable, because an exact `GetType()` match against an abstract class never holds. Only the string branch is modelled.
- **Global state.** The process-wide `_charStack`, `IndentSize` and `decimalCulture` are explicit state or constants. The stack becomes `Stream.pushed`; the others are constants.
- **`IsNumericType` and `IsDecimalType`.** They use run-time reflection; the `Value` constructors stand in for them.
- **.NET calls.** Date-time parsing and `"O"` formatting, decimal and double parsing and `ToString()`, and the en-US decimal text are opaque fields of `Platform`. Nothing is proved about what they compute.
- **Exception types and messages.** The exceptions become `Error` values. The model keeps the position or text that identifies each error, not the .NET exception type or message.
- **`FromUnicodeChar`'s null-or-empty test.** It is covered by the length test. `Convert.ToChar` of a `ushort` cannot fail.
- **NUL terminator in the stream.** The string branch of the character stream never looks for a NUL terminator; a .NET string is indexed by its length. Trailing U+0000 after an integer is modelled; see `Numbers.TrailingNulsIgnored`.
- **Text after the top-level container.** It is returned as a position, not examined, as in the source; `ParseExtent.ArrayFromStringIgnoresRest` and `ParseExtent.ObjectFromStringIgnoresRest` prove it is never read.
- **Unit tests and the console program `Test.Common.JSON/Program.cs`.** They are evidence for the intended behaviour, not part of the library.
- `RoundTrip.ArrayRoundTrip`: holds for trees in `Restricted` only. The limits are:
  - no decimals or doubles, whose text belongs to the platform;
  - no date-times, and no string the platform would read as one;
  - no 64-bit integer that fits 32 bits, since it reads back as an `int`;
  - containers carry the parser's whitespace flag.
- `RoundTrip.ObjectRoundTrip`: the same limits as `RoundTrip.ArrayRoundTrip`. In addition, every key is non-empty (an empty key's bare value is dropped before `}`) and keys are distinct.
- `JsonStrings.ToJsonString`: its own contract states only the length bound. The escapes are stated by `JsonStrings.EscapeChar` and `JsonStrings.ShortEscapes`, its safety by `JsonStrings.ToJsonStringIsSafe`, and its inverse by `JsonStrings.StringRoundTrip`.
- `Parser.ArrayLoop`: its contract gives the shape of the result. What each character does is stated by the step lemmas of `Parser` and by the round trip.
- `Parser.ObjectLoop`: the same as `Parser.ArrayLoop`.
- `ParseExtent.ArrayFromStringIgnoresRest`: requires the parse to end before the end of the text. A parse that ends exactly at the end may have stopped for lack of input, since the loop accepts an unclosed container there, and a longer text would then be read further.
- `ParseExtent.ObjectFromStringIgnoresRest`: the same requirement as `ParseExtent.ArrayFromStringIgnoresRest`.

## Findings

| source | as written | input that shows it | evidently intended | confidence | as-written member | corrected member |
|---|---|---|---|---|---|---|
| Common.JSON/Functions.cs:93 | `IsEOL` returns `input.Length >= pos`, which holds at every position inside the text | ` {` at position 0: `IsEOL` is true, so `SkipWhitespace` stops before the space | end of input is `pos >= input.Length` | high; not executed | `CharStream.IsEolAsWrittenBeforeEnd` | `CharStream.IsEol` |
| Common.JSON/Functions.cs:166 | the block-comment loop starts at `pos = start + 2` and tests `input[pos - 1] == '*'`, which is the opener's own `*` | `/*/ 1 */`: the comment closes at the third character, and ` 1 */` is read as content | the comment ends at the first `*/` that begins after the opening `/*` | high; not executed | `Whitespace.BlockCommentEndAsWrittenClosesEarly` | `Whitespace.BlockCommentEnd` |
