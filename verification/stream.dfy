/** The character stream of Functions.cs: peek, read and push back over a
    string with a cursor. The process-wide pushback stack of the source is
    state of the stream here; its top is the last element of `pushed`. */
module CharStream {
  import opened Wrappers
  import opened Chars
  import opened Errors

  datatype Stream = Stream(input: Text, pos: nat, pushed: seq<CodeUnit>)

  /** `PeekNextChar`: the top of the pushback stack if there is one,
      otherwise the character at the cursor. */
  function PeekNextChar(st: Stream): (r: Result<CodeUnit, Error>)
    ensures r.Failure? <==> |st.pushed| == 0 && st.pos >= |st.input|
    ensures r.Success? && |st.pushed| > 0 ==> r.value == st.pushed[|st.pushed| - 1]
    ensures r.Success? && |st.pushed| == 0 ==> r.value == st.input[st.pos]
  {
    if |st.pushed| > 0 then Success(st.pushed[|st.pushed| - 1])
    else if st.pos < |st.input| then Success(st.input[st.pos])
    else Failure(UnexpectedEndOfInput)
  }

  /** `ReadNextChar`: pops the pushback stack if it is not empty (the cursor
      stays put), otherwise reads the character at the cursor and advances. */
  function ReadNextChar(st: Stream): (r: Result<(CodeUnit, Stream), Error>)
    ensures r.Success? ==> r.value.1.input == st.input
    ensures r.Success? && |st.pushed| > 0 ==> r.value.1.pos == st.pos && |r.value.1.pushed| == |st.pushed| - 1
    ensures r.Success? && |st.pushed| == 0 ==> r.value.1.pos == st.pos + 1 && r.value.1.pushed == []
  {
    if |st.pushed| > 0 then
      Success((st.pushed[|st.pushed| - 1], st.(pushed := st.pushed[..|st.pushed| - 1])))
    else if st.pos < |st.input| then
      Success((st.input[st.pos], st.(pos := st.pos + 1)))
    else
      Failure(UnexpectedEndOfInput)
  }

  /** `PushLastChar`. */
  function PushLastChar(st: Stream, c: CodeUnit): (r: Stream)
    ensures r.input == st.input && r.pos == st.pos && |r.pushed| == |st.pushed| + 1
  {
    st.(pushed := st.pushed + [c])
  }

  /** Peeking reports the character the next read returns; since peeking
      yields no new stream, the cursor and the stack are untouched. */
  lemma PeekAgreesWithRead(st: Stream)
    ensures PeekNextChar(st).Success? <==> ReadNextChar(st).Success?
    ensures PeekNextChar(st).Success? ==> PeekNextChar(st).value == ReadNextChar(st).value.0
  {
  }

  /** A pushed character is the next one read, and reading it restores the
      stream exactly as it was before the push. */
  lemma PushThenRead(st: Stream, c: CodeUnit)
    ensures ReadNextChar(PushLastChar(st, c)) == Success((c, st))
  {
    assert (st.pushed + [c])[..|st.pushed|] == st.pushed;
  }

  /** Pushed characters come back last-in, first-out. */
  lemma PushedComeBackLastInFirstOut(st: Stream, a: CodeUnit, b: CodeUnit)
    ensures var s2 := PushLastChar(PushLastChar(st, a), b);
            && ReadNextChar(s2).Success?
            && ReadNextChar(s2).value.0 == b
            && ReadNextChar(ReadNextChar(s2).value.1) == Success((a, st))
  {
    PushThenRead(PushLastChar(st, a), b);
    PushThenRead(st, a);
  }

  /** With nothing pushed back, a read takes the character at the cursor and
      moves the cursor one place. */
  lemma ReadFromInput(st: Stream)
    requires |st.pushed| == 0 && st.pos < |st.input|
    ensures ReadNextChar(st) == Success((st.input[st.pos], Stream(st.input, st.pos + 1, [])))
  {
  }

  /** `IsEOL` as written: with nothing pushed back it answers
      `input.Length >= pos`. It agrees with the intended test only while
      characters are pushed back or when the cursor is exactly at the end. */
  function IsEolAsWritten(st: Stream): (r: bool)
    ensures r == IsEol(st) <==> |st.pushed| > 0 || st.pos == |st.input|
  {
    if |st.pushed| > 0 then false else |st.input| >= st.pos
  }

  /** The end-of-input test `IsEOL` is meant to be: nothing pushed back and
      the cursor at or past the end. */
  function IsEol(st: Stream): (r: bool)
    ensures r <==> PeekNextChar(st).Failure?
    ensures r <==> ReadNextChar(st).Failure?
  {
    |st.pushed| == 0 && st.pos >= |st.input|
  }

  /** The written test reports end of input at every position that still
      has a character, so a skipping loop guarded by it would stop before
      looking at anything. */
  lemma IsEolAsWrittenBeforeEnd(st: Stream)
    requires |st.pushed| == 0 && st.pos < |st.input|
    ensures IsEolAsWritten(st) && !IsEol(st)
    ensures PeekNextChar(st) == Success(st.input[st.pos])
  {
  }

  /** A concrete instance: the text ` {` at position 0. */
  lemma IsEolAsWrittenExample()
    ensures var st := Stream([Space, LeftBrace], 0, []);
            IsEolAsWritten(st) && PeekNextChar(st) == Success(Space)
  {
  }
}
