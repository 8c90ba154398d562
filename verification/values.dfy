/** The value tree (the objects a `JSONArray` or `JSONObject` holds), the
    .NET library calls the codec depends on, and the two steps the parsers
    share: classifying a value's text (`SaveValue` / `SaveKeyValue`) and
    adding a member to an object (`Dictionary.Add`). */
module Values {
  import opened Wrappers
  import opened Chars
  import opened Errors
  import opened Numbers

  /** A `System.DateTime`. */
  type Instant(==)
  /** A `System.Decimal`. */
  type DecimalValue(==)
  /** A `System.Double`. */
  type DoubleValue(==)

  /** What a container may hold. A `JSONArray` is a list in insertion order; a
      `JSONObject` is a dictionary, kept here as its members in insertion
      order, which is the order it iterates and renders them in. Each
      container carries its own whitespace flag (`_addWhitespace`). */
  datatype Value =
    | Null
    | Bool(b: bool)
    | Int32(i: int32)
    | Int64(l: int64)
    | Decimal(d: DecimalValue)
    | Double(x: DoubleValue)
    | Str(s: Text)
    | DateTime(t: Instant)
    | Arr(items: seq<Value>, addWhitespace: bool)
    | Obj(members: seq<Member>, addWhitespace: bool)

  datatype Member = Member(key: Text, value: Value)

  /** The library calls and settings the codec uses but does not define:
      - `addWhitespace`: `Functions.AddWhitespace`, the flag a container
        made by the parsers gets;
      - `parseDateTime`: `DateTime.TryParse(_, InvariantCulture, RoundtripKind)`;
      - `formatDateTime`: `DateTime.ToString("O")`;
      - `parseDecimal`, `parseDouble`: `decimal.TryParse`, `double.TryParse`;
      - `formatDecimal`, `formatDouble`: their `ToString()`;
      - `formatDecimalEnUs`: `decimal.ToString` in the en-US culture. */
  datatype Platform = Platform(
    addWhitespace: bool,
    parseDateTime: Text -> Option<Instant>,
    formatDateTime: Instant -> Text,
    parseDecimal: Text -> Option<DecimalValue>,
    formatDecimal: DecimalValue -> Text,
    formatDecimalEnUs: DecimalValue -> Text,
    parseDouble: Text -> Option<DoubleValue>,
    formatDouble: DoubleValue -> Text)

  function Keys(members: seq<Member>): (ks: set<Text>)
    ensures forall i | 0 <= i < |members| :: members[i].key in ks
    ensures forall k | k in ks :: exists i | 0 <= i < |members| :: members[i].key == k
  {
    set i | 0 <= i < |members| :: members[i].key
  }

  predicate UniqueKeys(members: seq<Member>) {
    forall i, j | 0 <= i < j < |members| :: members[i].key != members[j].key
  }

  /** `Dictionary.Add` (`SaveKeyObject`, and each branch of `SaveKeyValue`):
      a new key is appended; a key already present throws, and nothing is
      overwritten. */
  function AddMember(members: seq<Member>, key: Text, v: Value): (r: Result<seq<Member>, Error>)
    ensures r.Success? <==> key !in Keys(members)
    ensures r.Success? ==> r.value == members + [Member(key, v)]
    ensures r.Failure? ==> r.error == DuplicateKey(key)
    ensures r.Success? && UniqueKeys(members) ==> UniqueKeys(r.value)
  {
    if key in Keys(members) then Failure(DuplicateKey(key)) else Success(members + [Member(key, v)])
  }

  /** Adding keeps the keys of an object unique and adds exactly the new key. */
  lemma AddMemberKeepsKeysUnique(members: seq<Member>, key: Text, v: Value)
    requires UniqueKeys(members)
    requires AddMember(members, key, v).Success?
    ensures UniqueKeys(AddMember(members, key, v).value)
    ensures Keys(AddMember(members, key, v).value) == Keys(members) + {key}
  {
    var r := AddMember(members, key, v).value;
    forall i, j | 0 <= i < j < |r|
      ensures r[i].key != r[j].key
    {
      if j == |members| {
        assert members[i].key in Keys(members);
      }
    }
    assert Keys(r) == Keys(members) + {key} by {
      forall k | k in Keys(r)
        ensures k in Keys(members) + {key}
      {
        var i :| 0 <= i < |r| && r[i].key == k;
        if i < |members| {
          assert members[i].key in Keys(members);
        }
      }
      forall k | k in Keys(members) + {key}
        ensures k in Keys(r)
      {
        if k != key {
          var i :| 0 <= i < |members| && members[i].key == k;
          assert r[i].key == k;
        } else {
          assert r[|members|].key == key;
        }
      }
    }
  }

  /** A quoted value (`SaveValue` / `SaveKeyValue` with `inStringValue`): a
      date-time if `DateTime.TryParse` accepts the decoded text, otherwise the
      text itself. */
  function ClassifyQuoted(p: Platform, text: Text): (v: Value)
    ensures v.DateTime? <==> p.parseDateTime(text).Some?
    ensures v.DateTime? ==> v.t == p.parseDateTime(text).value
    ensures !v.DateTime? ==> v == Str(text)
  {
    match p.parseDateTime(text)
    case Some(t) => DateTime(t)
    case None => Str(text)
  }

  /** A bare value (`SaveValue` / `SaveKeyValue` without `inStringValue`):
      the text is right-trimmed, then tried in a fixed order: `null`, `true`,
      `false`, a 32-bit integer, a 64-bit integer, a decimal, a double.
      `ClassifyBareOrder` states the order. */
  function ClassifyBare(p: Platform, raw: Text): (r: Result<Value, Error>)
    ensures r.Success? ==> !r.value.Str? && !r.value.DateTime? && !r.value.Arr? && !r.value.Obj?
    ensures r.Failure? ==> r.error == InvalidLiteral(TrimEnd(raw))
  {
    ClassifyTrimmed(p, TrimEnd(raw))
  }

  /** The readings of `ClassifyBare`, tried on the right-trimmed text. */
  function ClassifyTrimmed(p: Platform, v: Text): (r: Result<Value, Error>)
    ensures r.Success? ==> !r.value.Str? && !r.value.DateTime? && !r.value.Arr? && !r.value.Obj?
    ensures r.Failure? ==> r.error == InvalidLiteral(v)
  {
    if v == NullText then Success(Null)
    else if v == TrueText then Success(Bool(true))
    else if v == FalseText then Success(Bool(false))
    else match TryParseInt32(v)
      case Some(i) => Success(Int32(i))
      case None =>
        match TryParseInt64(v)
        case Some(l) => Success(Int64(l))
        case None =>
          match p.parseDecimal(v)
          case Some(d) => Success(Decimal(d))
          case None =>
            match p.parseDouble(v)
            case Some(x) => Success(Double(x))
            case None => Failure(InvalidLiteral(v))
  }

  /** The priority order of the bare-value classification: a later reading
      is taken only when every earlier one refused the right-trimmed text,
      and the value fails only when all of them did. */
  lemma ClassifyBareOrder(p: Platform, raw: Text)
    ensures ClassifyBare(p, raw) == Success(Null) <==> TrimEnd(raw) == NullText
    ensures ClassifyBare(p, raw) == Success(Bool(true)) <==> TrimEnd(raw) == TrueText
    ensures ClassifyBare(p, raw) == Success(Bool(false)) <==> TrimEnd(raw) == FalseText
    ensures ClassifyBare(p, raw).Success? && ClassifyBare(p, raw).value.Int32?
            <==> TrimEnd(raw) != NullText && TrimEnd(raw) != TrueText && TrimEnd(raw) != FalseText
                 && TryParseInt32(TrimEnd(raw)).Some?
    ensures ClassifyBare(p, raw).Success? && ClassifyBare(p, raw).value.Int32? ==>
              IntegerSyntax(TrimEnd(raw)) == Some(ClassifyBare(p, raw).value.i as int)
    ensures ClassifyBare(p, raw).Success? && ClassifyBare(p, raw).value.Int64? ==>
              TryParseInt32(TrimEnd(raw)).None? && IntegerSyntax(TrimEnd(raw)) == Some(ClassifyBare(p, raw).value.l as int)
    ensures ClassifyBare(p, raw).Success? && ClassifyBare(p, raw).value.Decimal? ==>
              TryParseInt64(TrimEnd(raw)).None? && p.parseDecimal(TrimEnd(raw)) == Some(ClassifyBare(p, raw).value.d)
    ensures ClassifyBare(p, raw).Success? && ClassifyBare(p, raw).value.Double? ==>
              TryParseInt64(TrimEnd(raw)).None? && p.parseDecimal(TrimEnd(raw)).None?
              && p.parseDouble(TrimEnd(raw)) == Some(ClassifyBare(p, raw).value.x)
    ensures ClassifyBare(p, raw).Failure?
            <==> TrimEnd(raw) != NullText && TrimEnd(raw) != TrueText && TrimEnd(raw) != FalseText
                 && TryParseInt64(TrimEnd(raw)).None? && p.parseDecimal(TrimEnd(raw)).None? && p.parseDouble(TrimEnd(raw)).None?
  {
    var v := TrimEnd(raw);
    var r := ClassifyBare(p, raw);
    assert NullText[0] != TrueText[0] && NullText[0] != FalseText[0] && TrueText[0] != FalseText[0];
    if v == NullText {
      assert r == Success(Null);
    } else if v == TrueText {
      assert r == Success(Bool(true));
    } else if v == FalseText {
      assert r == Success(Bool(false));
    } else if TryParseInt32(v).Some? {
      assert r == Success(Int32(TryParseInt32(v).value));
    } else if TryParseInt64(v).Some? {
      assert r == Success(Int64(TryParseInt64(v).value));
    } else if p.parseDecimal(v).Some? {
      assert r == Success(Decimal(p.parseDecimal(v).value));
    } else if p.parseDouble(v).Some? {
      assert r == Success(Double(p.parseDouble(v).value));
    } else {
      assert r == Failure(InvalidLiteral(v));
    }
  }
}
