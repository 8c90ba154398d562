/** The parsers `JSONArray.FromString(input, ref pos)` and
    `JSONObject.FromString(input, ref pos)`: character-driven state machines
    over the text, one character per step, each nested container parsed by
    a call into the other (or the same) parser.

    The source re-enters `FromString` for a nested container after stepping
    back onto its opening bracket; that call skips no white space (the
    bracket is significant) and passes its bracket check, so it is modelled
    as a direct call of the body parser just after the bracket
    (`ArrayBody` / `ObjectBody`), which makes `|s| - pos` shrink on every
    call. `NestedArrayEntry` and `NestedObjectEntry` state that the two
    agree. */
module Parser {
  import opened Wrappers
  import opened Chars
  import opened Errors
  import opened Whitespace
  import opened JsonStrings
  import opened Values

  /** The flags and the value buffer of `JSONArray.FromString` between two
      characters, with the elements gathered so far. `inStringValue` is
      false at every such point (it is set and cleared within the string
      branch), so it is left out. */
  datatype ArrayState = ArrayState(
    readyForValue: bool,
    inValue: bool,
    readyForComma: bool,
    value: Text,
    items: seq<Value>)

  /** The state just after `[`. */
  const ArrayStart: ArrayState := ArrayState(true, false, false, [], [])

  /** The flags and the key and value buffers of `JSONObject.FromString`
      between two characters, with the members gathered so far. */
  datatype ObjectState = ObjectState(
    readyForKey: bool,
    readyForColon: bool,
    readyForValue: bool,
    inValue: bool,
    readyForComma: bool,
    key: Text,
    value: Text,
    members: seq<Member>)

  /** The state just after `{`. */
  const ObjectStart: ObjectState := ObjectState(true, false, false, false, false, [], [], [])

  /** `JSONArray.SaveValue`: the value's text classified (quoted or bare)
      and appended to the elements. */
  function SaveValue(p: Platform, items: seq<Value>, value: Text, inStringValue: bool): (r: Result<seq<Value>, Error>)
    ensures inStringValue ==> r.Success?
    ensures !inStringValue ==> r.Success? == ClassifyBare(p, value).Success?
    ensures r.Success? ==> |r.value| == |items| + 1 && r.value[..|items|] == items
    ensures r.Success? && !inStringValue ==> r.value[|items|] == ClassifyBare(p, value).value
  {
    if inStringValue then Success(items + [ClassifyQuoted(p, value)])
    else
      var v :- ClassifyBare(p, value);
      Success(items + [v])
  }

  /** `JSONObject.SaveKeyValue`: the value's text classified, then added
      under the key with `Dictionary.Add`. */
  function SaveKeyValue(p: Platform, members: seq<Member>, key: Text, value: Text, inStringValue: bool)
    : (r: Result<seq<Member>, Error>)
    ensures r.Success? <==> key !in Keys(members) && (inStringValue || ClassifyBare(p, value).Success?)
    ensures r.Success? ==> |r.value| == |members| + 1 && r.value[..|members|] == members && r.value[|members|].key == key
    ensures r.Success? && UniqueKeys(members) ==> UniqueKeys(r.value)
    ensures key in Keys(members) && (inStringValue || ClassifyBare(p, value).Success?) ==> r == Failure(DuplicateKey(key))
  {
    var v :- if inStringValue then Success(ClassifyQuoted(p, value)) else ClassifyBare(p, value);
    AddMember(members, key, v)
  }

  /** `JSONArray.FromString(input, ref pos)`: null for empty input;
      otherwise, after white space, a `[` is required, and the array is
      parsed from just after it. The result carries the position just past
      the array. */
  function ArrayFromString(p: Platform, s: Text, pos: nat): (r: Result<Option<(Value, nat)>, Error>)
    ensures r.Success? ==> (r.value.None? <==> |s| == 0)
    ensures r.Success? && r.value.Some? ==>
              && SkipWhitespace(s, pos) < |s| && s[SkipWhitespace(s, pos)] == LeftBracket
              && SkipWhitespace(s, pos) < r.value.value.1 <= |s|
              && r.value.value.0.Arr?
    ensures |s| == 0 ==> r == Success(None)
    ensures |s| > 0 && SkipWhitespace(s, pos) >= |s| ==> r == Failure(UnexpectedEndOfInput)
    ensures |s| > 0 && SkipWhitespace(s, pos) < |s| && s[SkipWhitespace(s, pos)] != LeftBracket ==>
              r == Failure(UnexpectedToken(SkipWhitespace(s, pos)))
  {
    if |s| == 0 then Success(None)
    else
      var q := SkipWhitespace(s, pos);
      if q >= |s| then Failure(UnexpectedEndOfInput)
      else if s[q] != LeftBracket then Failure(UnexpectedToken(q))
      else
        var got :- ArrayBody(p, s, q + 1);
        Success(Some(got))
  }

  /** `JSONObject.FromString(input, ref pos)`, likewise with `{`. */
  function ObjectFromString(p: Platform, s: Text, pos: nat): (r: Result<Option<(Value, nat)>, Error>)
    ensures r.Success? ==> (r.value.None? <==> |s| == 0)
    ensures r.Success? && r.value.Some? ==>
              && SkipWhitespace(s, pos) < |s| && s[SkipWhitespace(s, pos)] == LeftBrace
              && SkipWhitespace(s, pos) < r.value.value.1 <= |s|
              && r.value.value.0.Obj? && UniqueKeys(r.value.value.0.members)
    ensures |s| == 0 ==> r == Success(None)
    ensures |s| > 0 && SkipWhitespace(s, pos) >= |s| ==> r == Failure(UnexpectedEndOfInput)
    ensures |s| > 0 && SkipWhitespace(s, pos) < |s| && s[SkipWhitespace(s, pos)] != LeftBrace ==>
              r == Failure(UnexpectedToken(SkipWhitespace(s, pos)))
  {
    if |s| == 0 then Success(None)
    else
      var q := SkipWhitespace(s, pos);
      if q >= |s| then Failure(UnexpectedEndOfInput)
      else if s[q] != LeftBrace then Failure(UnexpectedToken(q))
      else
        var got :- ObjectBody(p, s, q + 1);
        Success(Some(got))
  }

  /** `JSONArray.FromString(input)`: the whole text from its start. */
  function ParseArray(p: Platform, s: Text): (r: Result<Option<Value>, Error>)
    ensures |s| == 0 ==> r == Success(None)
    ensures r.Success? && r.value.Some? ==> r.value.value.Arr? && r.value.value.addWhitespace == p.addWhitespace
    ensures |s| > 0 && SkipWhitespace(s, 0) >= |s| ==> r == Failure(UnexpectedEndOfInput)
    ensures |s| > 0 && SkipWhitespace(s, 0) < |s| && s[SkipWhitespace(s, 0)] != LeftBracket ==>
              r == Failure(UnexpectedToken(SkipWhitespace(s, 0)))
  {
    var got :- ArrayFromString(p, s, 0);
    match got
    case None => Success(None)
    case Some(x) => Success(Some(x.0))
  }

  /** `JSONObject.FromString(input)`. */
  function ParseObject(p: Platform, s: Text): (r: Result<Option<Value>, Error>)
    ensures |s| == 0 ==> r == Success(None)
    ensures r.Success? && r.value.Some? ==> r.value.value.Obj? && UniqueKeys(r.value.value.members)
    ensures |s| > 0 && SkipWhitespace(s, 0) >= |s| ==> r == Failure(UnexpectedEndOfInput)
    ensures |s| > 0 && SkipWhitespace(s, 0) < |s| && s[SkipWhitespace(s, 0)] != LeftBrace ==>
              r == Failure(UnexpectedToken(SkipWhitespace(s, 0)))
  {
    var got :- ObjectFromString(p, s, 0);
    match got
    case None => Success(None)
    case Some(x) => Success(Some(x.0))
  }

  /** The array parser from just after its `[`: white space, then the loop. */
  function ArrayBody(p: Platform, s: Text, pos: nat): (r: Result<(Value, nat), Error>)
    requires pos <= |s|
    ensures r.Success? ==> pos <= r.value.1 <= |s|
    ensures r.Success? ==> r.value.0.Arr? && r.value.0.addWhitespace == p.addWhitespace
    decreases |s| - pos, 2
  {
    ArrayLoop(p, s, SkipWhitespace(s, pos), ArrayStart)
  }

  /** The object parser from just after its `{`. */
  function ObjectBody(p: Platform, s: Text, pos: nat): (r: Result<(Value, nat), Error>)
    requires pos <= |s|
    ensures r.Success? ==> pos <= r.value.1 <= |s|
    ensures r.Success? ==> r.value.0.Obj? && r.value.0.addWhitespace == p.addWhitespace
    ensures r.Success? ==> UniqueKeys(r.value.0.members)
    decreases |s| - pos, 2
  {
    ObjectLoop(p, s, SkipWhitespace(s, pos), ObjectStart)
  }

  /** The `while (pos < input.Length)` loop of `JSONArray.FromString`, one
      character per call. It ends just past the closing `]`, or at the end
      of the text, where the elements gathered so far are returned and a
      pending bare value is dropped. Each branch of the loop is a function
      of its own. */
  function ArrayLoop(p: Platform, s: Text, pos: nat, st: ArrayState): (r: Result<(Value, nat), Error>)
    requires pos <= |s|
    ensures r.Success? ==> pos <= r.value.1 <= |s|
    ensures r.Success? ==> r.value.1 == |s| || (r.value.1 > 0 && s[r.value.1 - 1] == RightBracket)
    ensures r.Success? ==> r.value.0.Arr? && r.value.0.addWhitespace == p.addWhitespace
    decreases |s| - pos, 1
  {
    if pos == |s| then Success((Arr(st.items, p.addWhitespace), pos))
    else if s[pos] == Quote then ArrayString(p, s, pos, st)
    else if s[pos] == Comma then ArrayComma(p, s, pos, st)
    else if s[pos] == RightBracket then ArrayClose(p, s, pos, st)
    else if s[pos] == LeftBrace || s[pos] == LeftBracket then ArrayNested(p, s, pos, st)
    else ArrayBare(p, s, pos, st)
  }

  /** A `"` in an array: a string element, allowed only where a value may
      start; it is classified and appended at once. */
  function ArrayString(p: Platform, s: Text, pos: nat, st: ArrayState): (r: Result<(Value, nat), Error>)
    requires pos < |s|
    ensures r.Success? ==> pos < r.value.1 <= |s|
    ensures r.Success? ==> r.value.1 == |s| || (r.value.1 > 0 && s[r.value.1 - 1] == RightBracket)
    ensures r.Success? ==> r.value.0.Arr? && r.value.0.addWhitespace == p.addWhitespace
    ensures !st.readyForValue ==> r == Failure(UnexpectedToken(pos))
    decreases |s| - pos, 0
  {
    if !st.readyForValue then Failure(UnexpectedToken(pos))
    else
      var got :- GetStringValue(s, pos + 1);
      var items := SaveValue(p, st.items, st.value + got.0, true).value;
      ArrayLoop(p, s, SkipWhitespace(s, got.1), ArrayState(false, false, true, [], items))
  }

  /** A `,` in an array: allowed only after a value; a pending bare value
      is classified and appended. */
  function ArrayComma(p: Platform, s: Text, pos: nat, st: ArrayState): (r: Result<(Value, nat), Error>)
    requires pos < |s|
    ensures r.Success? ==> pos < r.value.1 <= |s|
    ensures r.Success? ==> r.value.1 == |s| || (r.value.1 > 0 && s[r.value.1 - 1] == RightBracket)
    ensures r.Success? ==> r.value.0.Arr? && r.value.0.addWhitespace == p.addWhitespace
    ensures !st.inValue && !st.readyForComma ==> r == Failure(UnexpectedToken(pos))
    decreases |s| - pos, 0
  {
    if !st.inValue && !st.readyForComma then Failure(UnexpectedToken(pos))
    else
      var items :- if st.inValue then SaveValue(p, st.items, st.value, false) else Success(st.items);
      ArrayLoop(p, s, SkipWhitespace(s, pos + 1), ArrayState(true, false, false, [], items))
  }

  /** A `]`: the end of the array; a pending bare value is saved first.
      The array ends just past it. */
  function ArrayClose(p: Platform, s: Text, pos: nat, st: ArrayState): (r: Result<(Value, nat), Error>)
    requires pos < |s|
    ensures r.Success? ==> r.value.1 == pos + 1
    ensures r.Success? ==> r.value.0.Arr? && r.value.0.addWhitespace == p.addWhitespace
    ensures r.Success? && |st.value| == 0 ==> r.value.0.items == st.items
    ensures !st.readyForValue && !st.inValue && !st.readyForComma ==> r == Failure(UnexpectedToken(pos))
  {
    if !st.readyForValue && !st.inValue && !st.readyForComma then Failure(UnexpectedToken(pos))
    else
      var items :- if |st.value| > 0 then SaveValue(p, st.items, st.value, false) else Success(st.items);
      Success((Arr(items, p.addWhitespace), pos + 1))
  }

  /** A `{` or `[` in an array: a nested container, allowed only where a
      value may start; it is parsed and appended. */
  function ArrayNested(p: Platform, s: Text, pos: nat, st: ArrayState): (r: Result<(Value, nat), Error>)
    requires pos < |s|
    ensures r.Success? ==> pos < r.value.1 <= |s|
    ensures r.Success? ==> r.value.1 == |s| || (r.value.1 > 0 && s[r.value.1 - 1] == RightBracket)
    ensures r.Success? ==> r.value.0.Arr? && r.value.0.addWhitespace == p.addWhitespace
    ensures !st.readyForValue ==> r == Failure(UnexpectedToken(pos))
    decreases |s| - pos, 0
  {
    if !st.readyForValue then Failure(UnexpectedToken(pos))
    else
      var got :- if s[pos] == LeftBrace then ObjectBody(p, s, pos + 1) else ArrayBody(p, s, pos + 1);
      ArrayLoop(p, s, SkipWhitespace(s, got.1),
                st.(readyForValue := false, readyForComma := true, value := [], items := st.items + [got.0]))
  }

  /** Any other character: it starts a bare value where a value may start,
      and is appended to the value text while in one; elsewhere it is an
      error. White space inside a bare value is kept (and trimmed from its
      end when the value is saved). */
  function ArrayBare(p: Platform, s: Text, pos: nat, st: ArrayState): (r: Result<(Value, nat), Error>)
    requires pos < |s|
    ensures r.Success? ==> pos < r.value.1 <= |s|
    ensures r.Success? ==> r.value.1 == |s| || (r.value.1 > 0 && s[r.value.1 - 1] == RightBracket)
    ensures r.Success? ==> r.value.0.Arr? && r.value.0.addWhitespace == p.addWhitespace
    ensures !st.readyForValue && !st.inValue ==> r == Failure(UnexpectedToken(pos))
    decreases |s| - pos, 0
  {
    var st1 := if st.readyForValue then st.(readyForValue := false, inValue := true) else st;
    if st1.inValue then ArrayLoop(p, s, pos + 1, st1.(value := st1.value + [s[pos]]))
    else Failure(UnexpectedToken(pos))
  }

  /** The `while (pos < input.Length)` loop of `JSONObject.FromString`. Its
      members keep unique keys, since every addition goes through
      `Dictionary.Add`. */
  function ObjectLoop(p: Platform, s: Text, pos: nat, st: ObjectState): (r: Result<(Value, nat), Error>)
    requires pos <= |s|
    ensures r.Success? ==> pos <= r.value.1 <= |s|
    ensures r.Success? ==> r.value.1 == |s| || (r.value.1 > 0 && s[r.value.1 - 1] == RightBrace)
    ensures r.Success? ==> r.value.0.Obj? && r.value.0.addWhitespace == p.addWhitespace
    ensures r.Success? && UniqueKeys(st.members) ==> UniqueKeys(r.value.0.members)
    decreases |s| - pos, 1
  {
    if pos == |s| then Success((Obj(st.members, p.addWhitespace), pos))
    else if s[pos] == Quote then ObjectString(p, s, pos, st)
    else if s[pos] == Colon then ObjectColon(p, s, pos, st)
    else if s[pos] == Comma then ObjectComma(p, s, pos, st)
    else if s[pos] == RightBrace then ObjectClose(p, s, pos, st)
    else if s[pos] == LeftBrace || s[pos] == LeftBracket then ObjectNested(p, s, pos, st)
    else ObjectBare(p, s, pos, st)
  }

  /** A `"` in an object: a key where a key may start, a string value
      (classified and added under the key at once) where a value may
      start, an error elsewhere. */
  function ObjectString(p: Platform, s: Text, pos: nat, st: ObjectState): (r: Result<(Value, nat), Error>)
    requires pos < |s|
    ensures r.Success? ==> pos < r.value.1 <= |s|
    ensures r.Success? ==> r.value.1 == |s| || (r.value.1 > 0 && s[r.value.1 - 1] == RightBrace)
    ensures r.Success? ==> r.value.0.Obj? && r.value.0.addWhitespace == p.addWhitespace
    ensures r.Success? && UniqueKeys(st.members) ==> UniqueKeys(r.value.0.members)
    ensures !st.readyForKey && !st.readyForValue ==> r == Failure(UnexpectedToken(pos))
    decreases |s| - pos, 0
  {
    if st.readyForKey then
      var got :- GetStringValue(s, pos + 1);
      ObjectLoop(p, s, SkipWhitespace(s, got.1), st.(readyForKey := false, readyForColon := true, key := st.key + got.0))
    else if st.readyForValue then
      var got :- GetStringValue(s, pos + 1);
      var members :- SaveKeyValue(p, st.members, st.key, st.value + got.0, true);
      ObjectLoop(p, s, SkipWhitespace(s, got.1),
                 st.(readyForValue := false, inValue := false, readyForComma := true, key := [], value := [], members := members))
    else Failure(UnexpectedToken(pos))
  }

  /** A `:`: allowed only just after a key. */
  function ObjectColon(p: Platform, s: Text, pos: nat, st: ObjectState): (r: Result<(Value, nat), Error>)
    requires pos < |s|
    ensures r.Success? ==> pos < r.value.1 <= |s|
    ensures r.Success? ==> r.value.1 == |s| || (r.value.1 > 0 && s[r.value.1 - 1] == RightBrace)
    ensures r.Success? ==> r.value.0.Obj? && r.value.0.addWhitespace == p.addWhitespace
    ensures r.Success? && UniqueKeys(st.members) ==> UniqueKeys(r.value.0.members)
    ensures !st.readyForColon ==> r == Failure(UnexpectedToken(pos))
    decreases |s| - pos, 0
  {
    if !st.readyForColon then Failure(UnexpectedToken(pos))
    else ObjectLoop(p, s, SkipWhitespace(s, pos + 1), st.(readyForValue := true, readyForColon := false))
  }

  /** A `,` in an object: allowed only after a value; a pending bare value
      is classified and added under its key. */
  function ObjectComma(p: Platform, s: Text, pos: nat, st: ObjectState): (r: Result<(Value, nat), Error>)
    requires pos < |s|
    ensures r.Success? ==> pos < r.value.1 <= |s|
    ensures r.Success? ==> r.value.1 == |s| || (r.value.1 > 0 && s[r.value.1 - 1] == RightBrace)
    ensures r.Success? ==> r.value.0.Obj? && r.value.0.addWhitespace == p.addWhitespace
    ensures r.Success? && UniqueKeys(st.members) ==> UniqueKeys(r.value.0.members)
    ensures !st.inValue && !st.readyForComma ==> r == Failure(UnexpectedToken(pos))
    decreases |s| - pos, 0
  {
    if !st.inValue && !st.readyForComma then Failure(UnexpectedToken(pos))
    else
      var members :- if st.inValue then SaveKeyValue(p, st.members, st.key, st.value, false) else Success(st.members);
      ObjectLoop(p, s, SkipWhitespace(s, pos + 1),
                 st.(readyForKey := true, inValue := false, readyForComma := false, key := [], value := [], members := members))
  }

  /** A `}`: the end of the object, refused just after a key or a colon. A
      pending value is saved only when its key is not empty. The object
      ends just past the brace. */
  function ObjectClose(p: Platform, s: Text, pos: nat, st: ObjectState): (r: Result<(Value, nat), Error>)
    requires pos < |s|
    ensures r.Success? ==> r.value.1 == pos + 1
    ensures r.Success? ==> r.value.0.Obj? && r.value.0.addWhitespace == p.addWhitespace
    ensures r.Success? && UniqueKeys(st.members) ==> UniqueKeys(r.value.0.members)
    ensures r.Success? && |st.key| == 0 ==> r.value.0.members == st.members
    ensures !st.readyForKey && !st.inValue && !st.readyForComma ==> r == Failure(UnexpectedToken(pos))
  {
    if !st.readyForKey && !st.inValue && !st.readyForComma then Failure(UnexpectedToken(pos))
    else
      var members :- if |st.key| > 0 then SaveKeyValue(p, st.members, st.key, st.value, false) else Success(st.members);
      Success((Obj(members, p.addWhitespace), pos + 1))
  }

  /** A `{` or `[` in an object: a nested container, allowed only where a
      value may start; it is parsed, then added under the key. */
  function ObjectNested(p: Platform, s: Text, pos: nat, st: ObjectState): (r: Result<(Value, nat), Error>)
    requires pos < |s|
    ensures r.Success? ==> pos < r.value.1 <= |s|
    ensures r.Success? ==> r.value.1 == |s| || (r.value.1 > 0 && s[r.value.1 - 1] == RightBrace)
    ensures r.Success? ==> r.value.0.Obj? && r.value.0.addWhitespace == p.addWhitespace
    ensures r.Success? && UniqueKeys(st.members) ==> UniqueKeys(r.value.0.members)
    ensures !st.readyForValue ==> r == Failure(UnexpectedToken(pos))
    decreases |s| - pos, 0
  {
    if !st.readyForValue then Failure(UnexpectedToken(pos))
    else
      var got :- if s[pos] == LeftBrace then ObjectBody(p, s, pos + 1) else ArrayBody(p, s, pos + 1);
      var members :- AddMember(st.members, st.key, got.0);
      ObjectLoop(p, s, SkipWhitespace(s, got.1),
                 st.(readyForValue := false, readyForComma := true, key := [], value := [], members := members))
  }

  /** Any other character, as in an array. */
  function ObjectBare(p: Platform, s: Text, pos: nat, st: ObjectState): (r: Result<(Value, nat), Error>)
    requires pos < |s|
    ensures r.Success? ==> pos < r.value.1 <= |s|
    ensures r.Success? ==> r.value.1 == |s| || (r.value.1 > 0 && s[r.value.1 - 1] == RightBrace)
    ensures r.Success? ==> r.value.0.Obj? && r.value.0.addWhitespace == p.addWhitespace
    ensures r.Success? && UniqueKeys(st.members) ==> UniqueKeys(r.value.0.members)
    ensures !st.readyForValue && !st.inValue ==> r == Failure(UnexpectedToken(pos))
    decreases |s| - pos, 0
  {
    var st1 := if st.readyForValue then st.(readyForValue := false, inValue := true) else st;
    if st1.inValue then ObjectLoop(p, s, pos + 1, st1.(value := st1.value + [s[pos]]))
    else Failure(UnexpectedToken(pos))
  }

  /** Where an array element may start: just after `[` or a comma. */
  function ArrayReady(items: seq<Value>): ArrayState {
    ArrayState(true, false, false, [], items)
  }

  /** Just after a string or nested element. */
  function ArrayAfterValue(items: seq<Value>): ArrayState {
    ArrayState(false, false, true, [], items)
  }

  /** Inside a bare element whose text so far is `value`. */
  function ArrayInValue(value: Text, items: seq<Value>): ArrayState {
    ArrayState(false, true, false, value, items)
  }

  /** Where a key may start: just after `{` or a comma. */
  function ObjectReady(members: seq<Member>): ObjectState {
    ObjectState(true, false, false, false, false, [], [], members)
  }

  /** Just after a key. */
  function ObjectAfterKey(key: Text, members: seq<Member>): ObjectState {
    ObjectState(false, true, false, false, false, key, [], members)
  }

  /** Just after the colon that follows a key. */
  function ObjectAfterColon(key: Text, members: seq<Member>): ObjectState {
    ObjectState(false, false, true, false, false, key, [], members)
  }

  /** Inside a bare value whose text so far is `value`. */
  function ObjectInValue(key: Text, value: Text, members: seq<Member>): ObjectState {
    ObjectState(false, false, false, true, false, key, value, members)
  }

  /** Just after a string or nested value. */
  function ObjectAfterValue(members: seq<Member>): ObjectState {
    ObjectState(false, false, false, false, true, [], [], members)
  }

  /** A character neither loop treats specially: inside a bare value it is
      simply appended. */
  predicate IsPlain(c: CodeUnit) {
    c != Quote && c != Comma && c != Colon && c != LeftBrace && c != RightBrace && c != LeftBracket && c != RightBracket
  }

  /** Appending the first character of a slice, then the rest of it. */
  lemma AppendFirst(value: Text, s: Text, pos: nat, end: nat)
    requires pos < end <= |s|
    ensures value + [s[pos]] + s[pos + 1..end] == value + s[pos..end]
  {
    assert s[pos..end] == [s[pos]] + s[pos + 1..end];
  }

  /** Inside a bare element, a plain character is appended to its text. */
  lemma ArrayBareStep(p: Platform, s: Text, pos: nat, value: Text, items: seq<Value>)
    requires pos < |s| && IsPlain(s[pos])
    ensures ArrayLoop(p, s, pos, ArrayInValue(value, items)) == ArrayLoop(p, s, pos + 1, ArrayInValue(value + [s[pos]], items))
  {
    assert ArrayLoop(p, s, pos, ArrayInValue(value, items)) == ArrayBare(p, s, pos, ArrayInValue(value, items));
  }

  /** Inside a bare element, a run of plain characters is appended to the
      element's text, white space and slashes included. */
  lemma {:induction false} ArrayBareRun(p: Platform, s: Text, pos: nat, end: nat, value: Text, items: seq<Value>)
    requires pos <= end <= |s|
    requires forall i | pos <= i < end :: IsPlain(s[i])
    ensures ArrayLoop(p, s, pos, ArrayInValue(value, items)) == ArrayLoop(p, s, end, ArrayInValue(value + s[pos..end], items))
    decreases end - pos
  {
    if pos < end {
      ArrayBareStep(p, s, pos, value, items);
      ArrayBareRun(p, s, pos + 1, end, value + [s[pos]], items);
      AppendFirst(value, s, pos, end);
    } else {
      assert value + s[pos..end] == value;
    }
  }

  /** Inside a bare member value, a plain character is appended to its
      text. */
  lemma ObjectBareStep(p: Platform, s: Text, pos: nat, key: Text, value: Text, members: seq<Member>)
    requires pos < |s| && IsPlain(s[pos])
    ensures ObjectLoop(p, s, pos, ObjectInValue(key, value, members))
            == ObjectLoop(p, s, pos + 1, ObjectInValue(key, value + [s[pos]], members))
  {
    assert ObjectLoop(p, s, pos, ObjectInValue(key, value, members)) == ObjectBare(p, s, pos, ObjectInValue(key, value, members));
  }

  /** The same inside a bare member value. */
  lemma {:induction false} ObjectBareRun(p: Platform, s: Text, pos: nat, end: nat, key: Text, value: Text, members: seq<Member>)
    requires pos <= end <= |s|
    requires forall i | pos <= i < end :: IsPlain(s[i])
    ensures ObjectLoop(p, s, pos, ObjectInValue(key, value, members))
            == ObjectLoop(p, s, end, ObjectInValue(key, value + s[pos..end], members))
    decreases end - pos
  {
    if pos < end {
      ObjectBareStep(p, s, pos, key, value, members);
      ObjectBareRun(p, s, pos + 1, end, key, value + [s[pos]], members);
      AppendFirst(value, s, pos, end);
    } else {
      assert value + s[pos..end] == value;
    }
  }

  /** A nested container is parsed by the body parser just after its
      bracket: re-entering `FromString` on the bracket skips nothing and
      passes the bracket check. */
  lemma NestedArrayEntry(p: Platform, s: Text, pos: nat)
    requires pos < |s| && s[pos] == LeftBracket
    ensures ArrayBody(p, s, pos + 1).Success? ==> ArrayFromString(p, s, pos) == Success(Some(ArrayBody(p, s, pos + 1).value))
    ensures ArrayBody(p, s, pos + 1).Failure? ==> ArrayFromString(p, s, pos) == Failure(ArrayBody(p, s, pos + 1).error)
  {
    SkipAtSignificantChar(s, pos);
  }

  /** The same for objects. */
  lemma NestedObjectEntry(p: Platform, s: Text, pos: nat)
    requires pos < |s| && s[pos] == LeftBrace
    ensures ObjectBody(p, s, pos + 1).Success? ==> ObjectFromString(p, s, pos) == Success(Some(ObjectBody(p, s, pos + 1).value))
    ensures ObjectBody(p, s, pos + 1).Failure? ==> ObjectFromString(p, s, pos) == Failure(ObjectBody(p, s, pos + 1).error)
  {
    SkipAtSignificantChar(s, pos);
  }

  /** A comma before the first element fails. */
  lemma ArrayLeadingComma(p: Platform, s: Text, pos: nat, q: nat)
    requires pos <= |s| && q == SkipWhitespace(s, pos) && q < |s| && s[q] == Comma
    ensures ArrayBody(p, s, pos) == Failure(UnexpectedToken(q))
  {
    assert ArrayLoop(p, s, q, ArrayStart) == ArrayComma(p, s, q, ArrayStart);
  }

  /** A comma before the first member fails. */
  lemma ObjectLeadingComma(p: Platform, s: Text, pos: nat, q: nat)
    requires pos <= |s| && q == SkipWhitespace(s, pos) && q < |s| && s[q] == Comma
    ensures ObjectBody(p, s, pos) == Failure(UnexpectedToken(q))
  {
    assert ObjectLoop(p, s, q, ObjectStart) == ObjectComma(p, s, q, ObjectStart);
  }

  /** After an element, a comma leads to where the next element may start;
      a bare element pending there is saved first. */
  lemma ArrayCommaStep(p: Platform, s: Text, pos: nat, st: ArrayState, items: seq<Value>)
    requires pos < |s| && s[pos] == Comma
    requires st == ArrayAfterValue(items) || (st.inValue && !st.readyForValue && SaveValue(p, st.items, st.value, false) == Success(items))
    ensures ArrayLoop(p, s, pos, st) == ArrayLoop(p, s, SkipWhitespace(s, pos + 1), ArrayReady(items))
  {
    assert ArrayLoop(p, s, pos, st) == ArrayComma(p, s, pos, st);
  }

  /** Two commas with only white space or comments between them fail at
      the second. */
  lemma ArrayDoubledComma(p: Platform, s: Text, pos: nat, items: seq<Value>, q: nat)
    requires pos < |s| && s[pos] == Comma
    requires q == SkipWhitespace(s, pos + 1) && q < |s| && s[q] == Comma
    ensures ArrayLoop(p, s, pos, ArrayAfterValue(items)) == Failure(UnexpectedToken(q))
  {
    ArrayCommaStep(p, s, pos, ArrayAfterValue(items), items);
    assert ArrayLoop(p, s, q, ArrayReady(items)) == ArrayComma(p, s, q, ArrayReady(items));
  }

  /** A single comma before the closing `]` adds no element. */
  lemma ArrayTrailingComma(p: Platform, s: Text, pos: nat, items: seq<Value>, q: nat)
    requires pos < |s| && s[pos] == Comma
    requires q == SkipWhitespace(s, pos + 1) && q < |s| && s[q] == RightBracket
    ensures ArrayLoop(p, s, pos, ArrayAfterValue(items)) == Success((Arr(items, p.addWhitespace), q + 1))
    ensures ArrayLoop(p, s, q, ArrayAfterValue(items)) == Success((Arr(items, p.addWhitespace), q + 1))
  {
    ArrayCommaStep(p, s, pos, ArrayAfterValue(items), items);
    assert ArrayLoop(p, s, q, ArrayReady(items)) == ArrayClose(p, s, q, ArrayReady(items));
    assert ArrayLoop(p, s, q, ArrayAfterValue(items)) == ArrayClose(p, s, q, ArrayAfterValue(items));
  }

  /** Running out of text inside a bare element returns the elements
      gathered so far, without error; the pending element is dropped. */
  lemma ArrayEndInsideValue(p: Platform, s: Text, pos: nat, value: Text, items: seq<Value>)
    requires pos <= |s|
    requires forall i | pos <= i < |s| :: IsPlain(s[i])
    ensures ArrayLoop(p, s, pos, ArrayInValue(value, items)) == Success((Arr(items, p.addWhitespace), |s|))
  {
    ArrayBareRun(p, s, pos, |s|, value, items);
  }

  /** A `{` or `[` is refused unless a value may start there; where one
      may, the nested container is parsed and appended, and the loop goes on
      just past it and any white space after it. */
  lemma ArrayNestedOnlyAsValue(p: Platform, s: Text, pos: nat, st: ArrayState, v: Value, end: nat)
    requires pos < |s| && (s[pos] == LeftBrace || s[pos] == LeftBracket)
    requires (if s[pos] == LeftBrace then ObjectBody(p, s, pos + 1) else ArrayBody(p, s, pos + 1)) == Success((v, end))
    ensures !st.readyForValue ==> ArrayLoop(p, s, pos, st) == Failure(UnexpectedToken(pos))
    ensures st.readyForValue ==>
              ArrayLoop(p, s, pos, st)
              == ArrayLoop(p, s, SkipWhitespace(s, end), ArrayState(false, st.inValue, true, [], st.items + [v]))
  {
    assert ArrayLoop(p, s, pos, st) == ArrayNested(p, s, pos, st);
  }

  /** After a member, a comma leads to where the next key may start; a
      bare value pending there is saved first. */
  lemma ObjectCommaStep(p: Platform, s: Text, pos: nat, st: ObjectState, members: seq<Member>)
    requires pos < |s| && s[pos] == Comma
    requires || st == ObjectAfterValue(members)
             || (st.inValue && !st.readyForKey && !st.readyForColon && !st.readyForValue
                 && SaveKeyValue(p, st.members, st.key, st.value, false) == Success(members))
    ensures ObjectLoop(p, s, pos, st) == ObjectLoop(p, s, SkipWhitespace(s, pos + 1), ObjectReady(members))
  {
    assert ObjectLoop(p, s, pos, st) == ObjectComma(p, s, pos, st);
  }

  /** Two commas with only white space or comments between them fail at
      the second. */
  lemma ObjectDoubledComma(p: Platform, s: Text, pos: nat, members: seq<Member>, q: nat)
    requires pos < |s| && s[pos] == Comma
    requires q == SkipWhitespace(s, pos + 1) && q < |s| && s[q] == Comma
    ensures ObjectLoop(p, s, pos, ObjectAfterValue(members)) == Failure(UnexpectedToken(q))
  {
    ObjectCommaStep(p, s, pos, ObjectAfterValue(members), members);
    assert ObjectLoop(p, s, q, ObjectReady(members)) == ObjectComma(p, s, q, ObjectReady(members));
  }

  /** A single comma before the closing `}` adds no member. */
  lemma ObjectTrailingComma(p: Platform, s: Text, pos: nat, members: seq<Member>, q: nat)
    requires pos < |s| && s[pos] == Comma
    requires q == SkipWhitespace(s, pos + 1) && q < |s| && s[q] == RightBrace
    ensures ObjectLoop(p, s, pos, ObjectAfterValue(members)) == Success((Obj(members, p.addWhitespace), q + 1))
    ensures ObjectLoop(p, s, q, ObjectAfterValue(members)) == Success((Obj(members, p.addWhitespace), q + 1))
  {
    ObjectCommaStep(p, s, pos, ObjectAfterValue(members), members);
    assert ObjectLoop(p, s, q, ObjectReady(members)) == ObjectClose(p, s, q, ObjectReady(members));
    assert ObjectLoop(p, s, q, ObjectAfterValue(members)) == ObjectClose(p, s, q, ObjectAfterValue(members));
  }

  /** A key is read where a key may start, and the loop goes on just past
      its closing quote and any white space after it. */
  lemma ObjectKeyStep(p: Platform, s: Text, pos: nat, members: seq<Member>, key: Text, end: nat)
    requires pos < |s| && s[pos] == Quote
    requires GetStringValue(s, pos + 1) == Success((key, end))
    ensures ObjectLoop(p, s, pos, ObjectReady(members)) == ObjectLoop(p, s, SkipWhitespace(s, end), ObjectAfterKey(key, members))
  {
    assert ObjectLoop(p, s, pos, ObjectReady(members)) == ObjectString(p, s, pos, ObjectReady(members));
    assert ObjectReady(members).(readyForKey := false, readyForColon := true, key := [] + key) == ObjectAfterKey(key, members);
  }

  /** A colon follows a key. */
  lemma ObjectColonStep(p: Platform, s: Text, pos: nat, key: Text, members: seq<Member>)
    requires pos < |s| && s[pos] == Colon
    ensures ObjectLoop(p, s, pos, ObjectAfterKey(key, members))
            == ObjectLoop(p, s, SkipWhitespace(s, pos + 1), ObjectAfterColon(key, members))
  {
    assert ObjectLoop(p, s, pos, ObjectAfterKey(key, members)) == ObjectColon(p, s, pos, ObjectAfterKey(key, members));
  }

  /** `}` directly after a key fails. */
  lemma ObjectCloseAfterKey(p: Platform, s: Text, pos: nat, members: seq<Member>, key: Text, end: nat, q: nat)
    requires pos < |s| && s[pos] == Quote
    requires GetStringValue(s, pos + 1) == Success((key, end))
    requires q == SkipWhitespace(s, end) && q < |s| && s[q] == RightBrace
    ensures ObjectLoop(p, s, pos, ObjectReady(members)) == Failure(UnexpectedToken(q))
  {
    ObjectKeyStep(p, s, pos, members, key, end);
    assert ObjectLoop(p, s, q, ObjectAfterKey(key, members)) == ObjectClose(p, s, q, ObjectAfterKey(key, members));
  }

  /** `}` directly after a key's colon fails. */
  lemma ObjectCloseAfterColon(p: Platform, s: Text, pos: nat, key: Text, members: seq<Member>, q: nat)
    requires pos < |s| && s[pos] == Colon
    requires q == SkipWhitespace(s, pos + 1) && q < |s| && s[q] == RightBrace
    ensures ObjectLoop(p, s, pos, ObjectAfterKey(key, members)) == Failure(UnexpectedToken(q))
  {
    ObjectColonStep(p, s, pos, key, members);
    assert ObjectLoop(p, s, q, ObjectAfterColon(key, members)) == ObjectClose(p, s, q, ObjectAfterColon(key, members));
  }

  /** A bare value under the empty key is kept when a comma follows it... */
  lemma EmptyKeyKeptBeforeComma(p: Platform, s: Text, pos: nat, value: Text, members: seq<Member>)
    requires pos < |s| && s[pos] == Comma
    requires ClassifyBare(p, value).Success? && [] !in Keys(members)
    ensures ObjectLoop(p, s, pos, ObjectInValue([], value, members))
            == ObjectLoop(p, s, SkipWhitespace(s, pos + 1), ObjectReady(members + [Member([], ClassifyBare(p, value).value)]))
  {
    ObjectCommaStep(p, s, pos, ObjectInValue([], value, members), members + [Member([], ClassifyBare(p, value).value)]);
  }

  /** ...but dropped, whatever its text, when the closing `}` follows it,
      while under any other key it is saved. */
  lemma EmptyKeyDroppedBeforeClose(p: Platform, s: Text, pos: nat, key: Text, value: Text, members: seq<Member>)
    requires pos < |s| && s[pos] == RightBrace
    ensures |key| == 0 ==> ObjectLoop(p, s, pos, ObjectInValue(key, value, members)) == Success((Obj(members, p.addWhitespace), pos + 1))
    ensures |key| > 0 && SaveKeyValue(p, members, key, value, false).Success? ==>
              ObjectLoop(p, s, pos, ObjectInValue(key, value, members))
              == Success((Obj(SaveKeyValue(p, members, key, value, false).value, p.addWhitespace), pos + 1))
  {
    assert ObjectLoop(p, s, pos, ObjectInValue(key, value, members)) == ObjectClose(p, s, pos, ObjectInValue(key, value, members));
  }

  /** A string value under a key already present fails: nothing is
      overwritten. */
  lemma DuplicateKeyFails(p: Platform, s: Text, pos: nat, key: Text, members: seq<Member>, text: Text, end: nat)
    requires pos < |s| && s[pos] == Quote
    requires GetStringValue(s, pos + 1) == Success((text, end))
    requires key in Keys(members)
    ensures ObjectLoop(p, s, pos, ObjectAfterColon(key, members)) == Failure(DuplicateKey(key))
  {
    assert ObjectLoop(p, s, pos, ObjectAfterColon(key, members)) == ObjectString(p, s, pos, ObjectAfterColon(key, members));
  }

  /** Running out of text inside a bare value returns the members gathered
      so far, without error; the pending member is dropped. */
  lemma ObjectEndInsideValue(p: Platform, s: Text, pos: nat, key: Text, value: Text, members: seq<Member>)
    requires pos <= |s|
    requires forall i | pos <= i < |s| :: IsPlain(s[i])
    ensures ObjectLoop(p, s, pos, ObjectInValue(key, value, members)) == Success((Obj(members, p.addWhitespace), |s|))
  {
    ObjectBareRun(p, s, pos, |s|, key, value, members);
  }

  /** A `{` or `[` is refused unless a value may start there; where one
      may, the nested container is parsed and added under the key. */
  lemma ObjectNestedOnlyAsValue(p: Platform, s: Text, pos: nat, st: ObjectState, v: Value, end: nat)
    requires pos < |s| && (s[pos] == LeftBrace || s[pos] == LeftBracket)
    requires (if s[pos] == LeftBrace then ObjectBody(p, s, pos + 1) else ArrayBody(p, s, pos + 1)) == Success((v, end))
    ensures !st.readyForValue ==> ObjectLoop(p, s, pos, st) == Failure(UnexpectedToken(pos))
    ensures st.readyForValue && st.key !in Keys(st.members) ==>
              ObjectLoop(p, s, pos, st)
              == ObjectLoop(p, s, SkipWhitespace(s, end),
                            st.(readyForValue := false, readyForComma := true, key := [], value := [],
                                members := st.members + [Member(st.key, v)]))
    ensures st.readyForValue && st.key in Keys(st.members) ==> ObjectLoop(p, s, pos, st) == Failure(DuplicateKey(st.key))
  {
    assert ObjectLoop(p, s, pos, st) == ObjectNested(p, s, pos, st);
  }

  /** A plain character where an element may start begins a bare
      element. */
  lemma ArrayBareStart(p: Platform, s: Text, pos: nat, items: seq<Value>)
    requires pos < |s| && IsPlain(s[pos])
    ensures ArrayLoop(p, s, pos, ArrayReady(items)) == ArrayLoop(p, s, pos + 1, ArrayInValue([s[pos]], items))
  {
    assert ArrayLoop(p, s, pos, ArrayReady(items)) == ArrayBare(p, s, pos, ArrayReady(items));
    assert [] + [s[pos]] == [s[pos]];
    assert ArrayReady(items).(readyForValue := false, inValue := true).(value := [] + [s[pos]]) == ArrayInValue([s[pos]], items);
  }

  /** A string element is classified and appended at once. */
  lemma ArrayStringStep(p: Platform, s: Text, pos: nat, items: seq<Value>, text: Text, end: nat)
    requires pos < |s| && s[pos] == Quote
    requires GetStringValue(s, pos + 1) == Success((text, end))
    ensures ArrayLoop(p, s, pos, ArrayReady(items))
            == ArrayLoop(p, s, SkipWhitespace(s, end), ArrayAfterValue(items + [ClassifyQuoted(p, text)]))
  {
    assert ArrayLoop(p, s, pos, ArrayReady(items)) == ArrayString(p, s, pos, ArrayReady(items));
    assert [] + text == text;
  }

  /** `]` after an element ends the array with that element last. */
  lemma ArrayCloseStep(p: Platform, s: Text, pos: nat, st: ArrayState, items: seq<Value>)
    requires pos < |s| && s[pos] == RightBracket
    requires || st == ArrayAfterValue(items)
             || (st == ArrayInValue(st.value, st.items) && |st.value| > 0 && SaveValue(p, st.items, st.value, false) == Success(items))
    ensures ArrayLoop(p, s, pos, st) == Success((Arr(items, p.addWhitespace), pos + 1))
  {
    assert ArrayLoop(p, s, pos, st) == ArrayClose(p, s, pos, st);
  }

  /** A plain character just after a key's colon begins a bare value. */
  lemma ObjectBareStart(p: Platform, s: Text, pos: nat, key: Text, members: seq<Member>)
    requires pos < |s| && IsPlain(s[pos])
    ensures ObjectLoop(p, s, pos, ObjectAfterColon(key, members)) == ObjectLoop(p, s, pos + 1, ObjectInValue(key, [s[pos]], members))
  {
    assert ObjectLoop(p, s, pos, ObjectAfterColon(key, members)) == ObjectBare(p, s, pos, ObjectAfterColon(key, members));
    assert [] + [s[pos]] == [s[pos]];
    assert ObjectAfterColon(key, members).(readyForValue := false, inValue := true).(value := [] + [s[pos]]) == ObjectInValue(key, [s[pos]], members);
  }

  /** A string value is classified and added under its key at once. */
  lemma ObjectStringStep(p: Platform, s: Text, pos: nat, key: Text, members: seq<Member>, text: Text, end: nat)
    requires pos < |s| && s[pos] == Quote
    requires GetStringValue(s, pos + 1) == Success((text, end))
    requires key !in Keys(members)
    ensures ObjectLoop(p, s, pos, ObjectAfterColon(key, members))
            == ObjectLoop(p, s, SkipWhitespace(s, end), ObjectAfterValue(members + [Member(key, ClassifyQuoted(p, text))]))
  {
    assert ObjectLoop(p, s, pos, ObjectAfterColon(key, members)) == ObjectString(p, s, pos, ObjectAfterColon(key, members));
    assert [] + text == text;
  }

  /** `}` after a member ends the object with that member last. */
  lemma ObjectCloseStep(p: Platform, s: Text, pos: nat, st: ObjectState, members: seq<Member>)
    requires pos < |s| && s[pos] == RightBrace
    requires || st == ObjectAfterValue(members)
             || (st == ObjectInValue(st.key, st.value, st.members) && |st.key| > 0
                 && SaveKeyValue(p, st.members, st.key, st.value, false) == Success(members))
    ensures ObjectLoop(p, s, pos, st) == Success((Obj(members, p.addWhitespace), pos + 1))
  {
    assert ObjectLoop(p, s, pos, st) == ObjectClose(p, s, pos, st);
  }
}
