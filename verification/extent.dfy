/** How far the parsers read. A parse that ends just past its closing
    bracket, before the end of the text, has looked at nothing from that
    point on: any text that agrees with it up to there parses the same
    way. The source returns the position and leaves the rest alone
    (`JSONArray.FromString` and `JSONObject.FromString` stop at their
    closing bracket).

    Each lemma follows one function of `Parser`. Besides the agreement,
    the loop lemmas say that a parse ending before the end of the text
    ends beyond its starting character, and at least one character further
    unless that character is the closing bracket: this is what lets the
    white-space skipper's one-character look-ahead after a `/` stay inside
    the agreed part. */
module ParseExtent {
  import opened Wrappers
  import opened Chars
  import opened Errors
  import opened Whitespace
  import opened JsonStrings
  import opened Values
  import opened Parser

  /** `JSONArray.FromString(input, ref pos)` reads nothing past the `]`
      that ends the array. */
  lemma ArrayFromStringIgnoresRest(p: Platform, s: Text, s2: Text, pos: nat)
    requires ArrayFromString(p, s, pos).Success? && ArrayFromString(p, s, pos).value.Some?
    requires var e := ArrayFromString(p, s, pos).value.value.1;
             e < |s| && e <= |s2| && s2[..e] == s[..e]
    ensures ArrayFromString(p, s2, pos) == ArrayFromString(p, s, pos)
  {
    var e := ArrayFromString(p, s, pos).value.value.1;
    forall i | 0 <= i < e
      ensures s[i] == s2[i]
    {
      assert s[..e][i] == s2[..e][i];
    }
    var q := SkipWhitespace(s, pos);
    ArrayBodyReadsTo(p, s, s2, q + 1);
    SkipReadsTo(s, s2, pos, e);
  }

  /** `JSONObject.FromString(input, ref pos)` reads nothing past the `}`
      that ends the object. */
  lemma ObjectFromStringIgnoresRest(p: Platform, s: Text, s2: Text, pos: nat)
    requires ObjectFromString(p, s, pos).Success? && ObjectFromString(p, s, pos).value.Some?
    requires var e := ObjectFromString(p, s, pos).value.value.1;
             e < |s| && e <= |s2| && s2[..e] == s[..e]
    ensures ObjectFromString(p, s2, pos) == ObjectFromString(p, s, pos)
  {
    var e := ObjectFromString(p, s, pos).value.value.1;
    forall i | 0 <= i < e
      ensures s[i] == s2[i]
    {
      assert s[..e][i] == s2[..e][i];
    }
    var q := SkipWhitespace(s, pos);
    ObjectBodyReadsTo(p, s, s2, q + 1);
    SkipReadsTo(s, s2, pos, e);
  }

  lemma {:induction false} ArrayBodyReadsTo(p: Platform, s: Text, s2: Text, pos: nat)
    requires pos <= |s| && ArrayBody(p, s, pos).Success?
    requires ArrayBody(p, s, pos).value.1 < |s| && SameUpTo(s, s2, ArrayBody(p, s, pos).value.1)
    ensures ArrayBody(p, s2, pos) == ArrayBody(p, s, pos)
    decreases |s| - pos, 4
  {
    ArrayResumeReadsTo(p, s, s2, pos, ArrayStart);
  }

  lemma {:induction false} ObjectBodyReadsTo(p: Platform, s: Text, s2: Text, pos: nat)
    requires pos <= |s| && ObjectBody(p, s, pos).Success?
    requires ObjectBody(p, s, pos).value.1 < |s| && SameUpTo(s, s2, ObjectBody(p, s, pos).value.1)
    ensures ObjectBody(p, s2, pos) == ObjectBody(p, s, pos)
    decreases |s| - pos, 4
  {
    ObjectResumeReadsTo(p, s, s2, pos, ObjectStart);
  }

  /** Skipping white space and resuming the loop, as every branch that
      does not end the array does: neither reads past the array's end. */
  lemma ArrayResumeReadsTo(p: Platform, s: Text, s2: Text, k: nat, st: ArrayState)
    requires k <= |s| && ArrayLoop(p, s, SkipWhitespace(s, k), st).Success?
    requires ArrayLoop(p, s, SkipWhitespace(s, k), st).value.1 < |s|
    requires SameUpTo(s, s2, ArrayLoop(p, s, SkipWhitespace(s, k), st).value.1)
    ensures k < ArrayLoop(p, s, SkipWhitespace(s, k), st).value.1
    ensures SkipWhitespace(s2, k) == SkipWhitespace(s, k)
    ensures ArrayLoop(p, s2, SkipWhitespace(s, k), st) == ArrayLoop(p, s, SkipWhitespace(s, k), st)
    decreases |s| - k, 3
  {
    var q := SkipWhitespace(s, k);
    var e := ArrayLoop(p, s, q, st).value.1;
    ArrayLoopReadsTo(p, s, s2, q, st);
    assert s[q] == Slash ==> q + 1 < e;
    SkipReadsTo(s, s2, k, e);
  }

  /** The same for objects. */
  lemma ObjectResumeReadsTo(p: Platform, s: Text, s2: Text, k: nat, st: ObjectState)
    requires k <= |s| && ObjectLoop(p, s, SkipWhitespace(s, k), st).Success?
    requires ObjectLoop(p, s, SkipWhitespace(s, k), st).value.1 < |s|
    requires SameUpTo(s, s2, ObjectLoop(p, s, SkipWhitespace(s, k), st).value.1)
    ensures k < ObjectLoop(p, s, SkipWhitespace(s, k), st).value.1
    ensures SkipWhitespace(s2, k) == SkipWhitespace(s, k)
    ensures ObjectLoop(p, s2, SkipWhitespace(s, k), st) == ObjectLoop(p, s, SkipWhitespace(s, k), st)
    decreases |s| - k, 3
  {
    var q := SkipWhitespace(s, k);
    var e := ObjectLoop(p, s, q, st).value.1;
    ObjectLoopReadsTo(p, s, s2, q, st);
    assert s[q] == Slash ==> q + 1 < e;
    SkipReadsTo(s, s2, k, e);
  }

  lemma {:induction false} ArrayLoopReadsTo(p: Platform, s: Text, s2: Text, pos: nat, st: ArrayState)
    requires pos <= |s| && ArrayLoop(p, s, pos, st).Success?
    requires ArrayLoop(p, s, pos, st).value.1 < |s| && SameUpTo(s, s2, ArrayLoop(p, s, pos, st).value.1)
    ensures pos < ArrayLoop(p, s, pos, st).value.1
    ensures s[pos] != RightBracket ==> pos + 1 < ArrayLoop(p, s, pos, st).value.1
    ensures ArrayLoop(p, s2, pos, st) == ArrayLoop(p, s, pos, st)
    decreases |s| - pos, 2
  {
    if s[pos] == Quote {
      ArrayStringReadsTo(p, s, s2, pos, st);
    } else if s[pos] == Comma {
      ArrayCommaReadsTo(p, s, s2, pos, st);
    } else if s[pos] == RightBracket {
    } else if s[pos] == LeftBrace || s[pos] == LeftBracket {
      ArrayNestedReadsTo(p, s, s2, pos, st);
    } else {
      ArrayBareReadsTo(p, s, s2, pos, st);
    }
  }

  lemma {:induction false} ArrayStringReadsTo(p: Platform, s: Text, s2: Text, pos: nat, st: ArrayState)
    requires pos < |s| && ArrayString(p, s, pos, st).Success?
    requires ArrayString(p, s, pos, st).value.1 < |s| && SameUpTo(s, s2, ArrayString(p, s, pos, st).value.1)
    ensures pos + 1 < ArrayString(p, s, pos, st).value.1
    ensures ArrayString(p, s2, pos, st) == ArrayString(p, s, pos, st)
    decreases |s| - pos, 1
  {
    var e := ArrayString(p, s, pos, st).value.1;
    var got := GetStringValue(s, pos + 1).value;
    var next := ArrayState(false, false, true, [], SaveValue(p, st.items, st.value + got.0, true).value);
    ArrayResumeReadsTo(p, s, s2, got.1, next);
    ArrayStringSame(p, s, s2, pos, st, got, next, e);
  }

  /** The string step on the second text, once the string, the skip and
      the rest of the loop are known to agree. */
  lemma ArrayStringSame(p: Platform, s: Text, s2: Text, pos: nat, st: ArrayState, got: (Text, nat), next: ArrayState, n: nat)
    requires pos < |s| && pos < |s2| && st.readyForValue && GetStringValue(s, pos + 1) == Success(got)
    requires got.1 <= n && got.1 <= |s2| && SameUpTo(s, s2, n)
    requires next == ArrayState(false, false, true, [], SaveValue(p, st.items, st.value + got.0, true).value)
    requires SkipWhitespace(s2, got.1) == SkipWhitespace(s, got.1)
    requires ArrayLoop(p, s2, SkipWhitespace(s, got.1), next) == ArrayLoop(p, s, SkipWhitespace(s, got.1), next)
    ensures ArrayString(p, s2, pos, st) == ArrayString(p, s, pos, st)
  {
    GetStringValueReadsTo(s, s2, pos + 1, n);
  }

  lemma {:induction false} ArrayCommaReadsTo(p: Platform, s: Text, s2: Text, pos: nat, st: ArrayState)
    requires pos < |s| && ArrayComma(p, s, pos, st).Success?
    requires ArrayComma(p, s, pos, st).value.1 < |s| && SameUpTo(s, s2, ArrayComma(p, s, pos, st).value.1)
    ensures pos + 1 < ArrayComma(p, s, pos, st).value.1
    ensures ArrayComma(p, s2, pos, st) == ArrayComma(p, s, pos, st)
    decreases |s| - pos, 1
  {
    var items := (if st.inValue then SaveValue(p, st.items, st.value, false) else Success(st.items)).value;
    ArrayResumeReadsTo(p, s, s2, pos + 1, ArrayState(true, false, false, [], items));
  }

  /** A container nested at `pos` reads nothing past its own end. */
  lemma {:induction false} NestedReadsTo(p: Platform, s: Text, s2: Text, pos: nat, n: nat)
    requires pos < |s|
    requires (if s[pos] == LeftBrace then ObjectBody(p, s, pos + 1) else ArrayBody(p, s, pos + 1)).Success?
    requires (if s[pos] == LeftBrace then ObjectBody(p, s, pos + 1) else ArrayBody(p, s, pos + 1)).value.1 <= n < |s|
    requires SameUpTo(s, s2, n)
    ensures pos < |s2| && s2[pos] == s[pos]
    ensures (if s[pos] == LeftBrace then ObjectBody(p, s2, pos + 1) else ArrayBody(p, s2, pos + 1))
         == (if s[pos] == LeftBrace then ObjectBody(p, s, pos + 1) else ArrayBody(p, s, pos + 1))
    decreases |s| - pos, 0
  {
    SameAt(s, s2, n, pos);
    if s[pos] == LeftBrace {
      SameUpToShorter(s, s2, n, ObjectBody(p, s, pos + 1).value.1);
      ObjectBodyReadsTo(p, s, s2, pos + 1);
    } else {
      SameUpToShorter(s, s2, n, ArrayBody(p, s, pos + 1).value.1);
      ArrayBodyReadsTo(p, s, s2, pos + 1);
    }
  }

  lemma {:induction false} ArrayNestedReadsTo(p: Platform, s: Text, s2: Text, pos: nat, st: ArrayState)
    requires pos < |s| && ArrayNested(p, s, pos, st).Success?
    requires ArrayNested(p, s, pos, st).value.1 < |s| && SameUpTo(s, s2, ArrayNested(p, s, pos, st).value.1)
    ensures pos + 1 < ArrayNested(p, s, pos, st).value.1
    ensures ArrayNested(p, s2, pos, st) == ArrayNested(p, s, pos, st)
    decreases |s| - pos, 1
  {
    var e := ArrayNested(p, s, pos, st).value.1;
    var got := (if s[pos] == LeftBrace then ObjectBody(p, s, pos + 1) else ArrayBody(p, s, pos + 1)).value;
    var next := st.(readyForValue := false, readyForComma := true, value := [], items := st.items + [got.0]);
    ArrayResumeReadsTo(p, s, s2, got.1, next);
    NestedReadsTo(p, s, s2, pos, e);
    ArrayNestedSame(p, s, s2, pos, st, got, next);
  }

  /** The nested step on the second text, once the nested container, the
      skip after it and the rest of the loop are known to agree. */
  lemma ArrayNestedSame(p: Platform, s: Text, s2: Text, pos: nat, st: ArrayState, got: (Value, nat), next: ArrayState)
    requires pos < |s| && pos < |s2| && s2[pos] == s[pos] && st.readyForValue
    requires (if s[pos] == LeftBrace then ObjectBody(p, s, pos + 1) else ArrayBody(p, s, pos + 1)) == Success(got)
    requires (if s[pos] == LeftBrace then ObjectBody(p, s2, pos + 1) else ArrayBody(p, s2, pos + 1)) == Success(got)
    requires next == st.(readyForValue := false, readyForComma := true, value := [], items := st.items + [got.0])
    requires got.1 <= |s2| && SkipWhitespace(s2, got.1) == SkipWhitespace(s, got.1)
    requires ArrayLoop(p, s2, SkipWhitespace(s, got.1), next) == ArrayLoop(p, s, SkipWhitespace(s, got.1), next)
    ensures ArrayNested(p, s2, pos, st) == ArrayNested(p, s, pos, st)
  {
  }

  lemma {:induction false} ArrayBareReadsTo(p: Platform, s: Text, s2: Text, pos: nat, st: ArrayState)
    requires pos < |s| && ArrayBare(p, s, pos, st).Success?
    requires ArrayBare(p, s, pos, st).value.1 < |s| && SameUpTo(s, s2, ArrayBare(p, s, pos, st).value.1)
    ensures pos + 1 < ArrayBare(p, s, pos, st).value.1
    ensures ArrayBare(p, s2, pos, st) == ArrayBare(p, s, pos, st)
    decreases |s| - pos, 1
  {
    var st1 := if st.readyForValue then st.(readyForValue := false, inValue := true) else st;
    ArrayLoopReadsTo(p, s, s2, pos + 1, st1.(value := st1.value + [s[pos]]));
  }

  lemma {:induction false} ObjectLoopReadsTo(p: Platform, s: Text, s2: Text, pos: nat, st: ObjectState)
    requires pos <= |s| && ObjectLoop(p, s, pos, st).Success?
    requires ObjectLoop(p, s, pos, st).value.1 < |s| && SameUpTo(s, s2, ObjectLoop(p, s, pos, st).value.1)
    ensures pos < ObjectLoop(p, s, pos, st).value.1
    ensures s[pos] != RightBrace ==> pos + 1 < ObjectLoop(p, s, pos, st).value.1
    ensures ObjectLoop(p, s2, pos, st) == ObjectLoop(p, s, pos, st)
    decreases |s| - pos, 2
  {
    if s[pos] == Quote {
      ObjectStringReadsTo(p, s, s2, pos, st);
    } else if s[pos] == Colon {
      ObjectColonReadsTo(p, s, s2, pos, st);
    } else if s[pos] == Comma {
      ObjectCommaReadsTo(p, s, s2, pos, st);
    } else if s[pos] == RightBrace {
    } else if s[pos] == LeftBrace || s[pos] == LeftBracket {
      ObjectNestedReadsTo(p, s, s2, pos, st);
    } else {
      ObjectBareReadsTo(p, s, s2, pos, st);
    }
  }

  lemma {:induction false} ObjectStringReadsTo(p: Platform, s: Text, s2: Text, pos: nat, st: ObjectState)
    requires pos < |s| && ObjectString(p, s, pos, st).Success?
    requires ObjectString(p, s, pos, st).value.1 < |s| && SameUpTo(s, s2, ObjectString(p, s, pos, st).value.1)
    ensures pos + 1 < ObjectString(p, s, pos, st).value.1
    ensures ObjectString(p, s2, pos, st) == ObjectString(p, s, pos, st)
    decreases |s| - pos, 1
  {
    var e := ObjectString(p, s, pos, st).value.1;
    var got := GetStringValue(s, pos + 1).value;
    if st.readyForKey {
      var next := st.(readyForKey := false, readyForColon := true, key := st.key + got.0);
      ObjectResumeReadsTo(p, s, s2, got.1, next);
      ObjectKeySame(p, s, s2, pos, st, got, next, e);
    } else {
      var next := st.(readyForValue := false, inValue := false, readyForComma := true, key := [], value := [],
                      members := SaveKeyValue(p, st.members, st.key, st.value + got.0, true).value);
      ObjectResumeReadsTo(p, s, s2, got.1, next);
      ObjectValueSame(p, s, s2, pos, st, got, next, e);
    }
  }

  /** A key read as a string, on the second text. */
  lemma ObjectKeySame(p: Platform, s: Text, s2: Text, pos: nat, st: ObjectState, got: (Text, nat), next: ObjectState, n: nat)
    requires pos < |s| && pos < |s2| && st.readyForKey && GetStringValue(s, pos + 1) == Success(got)
    requires got.1 <= n && got.1 <= |s2| && SameUpTo(s, s2, n)
    requires next == st.(readyForKey := false, readyForColon := true, key := st.key + got.0)
    requires SkipWhitespace(s2, got.1) == SkipWhitespace(s, got.1)
    requires ObjectLoop(p, s2, SkipWhitespace(s, got.1), next) == ObjectLoop(p, s, SkipWhitespace(s, got.1), next)
    ensures ObjectString(p, s2, pos, st) == ObjectString(p, s, pos, st)
  {
    GetStringValueReadsTo(s, s2, pos + 1, n);
  }

  /** A value read as a string, on the second text. */
  lemma ObjectValueSame(p: Platform, s: Text, s2: Text, pos: nat, st: ObjectState, got: (Text, nat), next: ObjectState, n: nat)
    requires pos < |s| && pos < |s2| && !st.readyForKey && st.readyForValue && GetStringValue(s, pos + 1) == Success(got)
    requires SaveKeyValue(p, st.members, st.key, st.value + got.0, true).Success?
    requires got.1 <= n && got.1 <= |s2| && SameUpTo(s, s2, n)
    requires next == st.(readyForValue := false, inValue := false, readyForComma := true, key := [], value := [],
                         members := SaveKeyValue(p, st.members, st.key, st.value + got.0, true).value)
    requires SkipWhitespace(s2, got.1) == SkipWhitespace(s, got.1)
    requires ObjectLoop(p, s2, SkipWhitespace(s, got.1), next) == ObjectLoop(p, s, SkipWhitespace(s, got.1), next)
    ensures ObjectString(p, s2, pos, st) == ObjectString(p, s, pos, st)
  {
    GetStringValueReadsTo(s, s2, pos + 1, n);
  }

  lemma {:induction false} ObjectColonReadsTo(p: Platform, s: Text, s2: Text, pos: nat, st: ObjectState)
    requires pos < |s| && ObjectColon(p, s, pos, st).Success?
    requires ObjectColon(p, s, pos, st).value.1 < |s| && SameUpTo(s, s2, ObjectColon(p, s, pos, st).value.1)
    ensures pos + 1 < ObjectColon(p, s, pos, st).value.1
    ensures ObjectColon(p, s2, pos, st) == ObjectColon(p, s, pos, st)
    decreases |s| - pos, 1
  {
    ObjectResumeReadsTo(p, s, s2, pos + 1, st.(readyForValue := true, readyForColon := false));
  }

  lemma {:induction false} ObjectCommaReadsTo(p: Platform, s: Text, s2: Text, pos: nat, st: ObjectState)
    requires pos < |s| && ObjectComma(p, s, pos, st).Success?
    requires ObjectComma(p, s, pos, st).value.1 < |s| && SameUpTo(s, s2, ObjectComma(p, s, pos, st).value.1)
    ensures pos + 1 < ObjectComma(p, s, pos, st).value.1
    ensures ObjectComma(p, s2, pos, st) == ObjectComma(p, s, pos, st)
    decreases |s| - pos, 1
  {
    var members := (if st.inValue then SaveKeyValue(p, st.members, st.key, st.value, false) else Success(st.members)).value;
    ObjectResumeReadsTo(p, s, s2, pos + 1,
                        st.(readyForKey := true, inValue := false, readyForComma := false, key := [], value := [], members := members));
  }

  lemma {:induction false} ObjectNestedReadsTo(p: Platform, s: Text, s2: Text, pos: nat, st: ObjectState)
    requires pos < |s| && ObjectNested(p, s, pos, st).Success?
    requires ObjectNested(p, s, pos, st).value.1 < |s| && SameUpTo(s, s2, ObjectNested(p, s, pos, st).value.1)
    ensures pos + 1 < ObjectNested(p, s, pos, st).value.1
    ensures ObjectNested(p, s2, pos, st) == ObjectNested(p, s, pos, st)
    decreases |s| - pos, 1
  {
    var e := ObjectNested(p, s, pos, st).value.1;
    var got := (if s[pos] == LeftBrace then ObjectBody(p, s, pos + 1) else ArrayBody(p, s, pos + 1)).value;
    var next := st.(readyForValue := false, readyForComma := true, key := [], value := [],
                    members := AddMember(st.members, st.key, got.0).value);
    ObjectResumeReadsTo(p, s, s2, got.1, next);
    NestedReadsTo(p, s, s2, pos, e);
    ObjectNestedSame(p, s, s2, pos, st, got, next);
  }

  /** The nested step on the second text, once the nested container, the
      skip after it and the rest of the loop are known to agree. */
  lemma ObjectNestedSame(p: Platform, s: Text, s2: Text, pos: nat, st: ObjectState, got: (Value, nat), next: ObjectState)
    requires pos < |s| && pos < |s2| && s2[pos] == s[pos] && st.readyForValue
    requires (if s[pos] == LeftBrace then ObjectBody(p, s, pos + 1) else ArrayBody(p, s, pos + 1)) == Success(got)
    requires (if s[pos] == LeftBrace then ObjectBody(p, s2, pos + 1) else ArrayBody(p, s2, pos + 1)) == Success(got)
    requires AddMember(st.members, st.key, got.0).Success?
    requires next == st.(readyForValue := false, readyForComma := true, key := [], value := [],
                         members := AddMember(st.members, st.key, got.0).value)
    requires got.1 <= |s2| && SkipWhitespace(s2, got.1) == SkipWhitespace(s, got.1)
    requires ObjectLoop(p, s2, SkipWhitespace(s, got.1), next) == ObjectLoop(p, s, SkipWhitespace(s, got.1), next)
    ensures ObjectNested(p, s2, pos, st) == ObjectNested(p, s, pos, st)
  {
  }

  lemma {:induction false} ObjectBareReadsTo(p: Platform, s: Text, s2: Text, pos: nat, st: ObjectState)
    requires pos < |s| && ObjectBare(p, s, pos, st).Success?
    requires ObjectBare(p, s, pos, st).value.1 < |s| && SameUpTo(s, s2, ObjectBare(p, s, pos, st).value.1)
    ensures pos + 1 < ObjectBare(p, s, pos, st).value.1
    ensures ObjectBare(p, s2, pos, st) == ObjectBare(p, s, pos, st)
    decreases |s| - pos, 1
  {
    var st1 := if st.readyForValue then st.(readyForValue := false, inValue := true) else st;
    ObjectLoopReadsTo(p, s, s2, pos + 1, st1.(value := st1.value + [s[pos]]));
  }
}
