/** The token-level services every parser shares (ParserMinimalBase):
  skipping a container, the lenient `getValueAs...` coercions, and the
  checks on unquoted control chars and unknown escapes.

  The parser's state that these read is passed in as a `Current`: the
  token, its text, the exact value of an integer token, and the object of
  an embedded token.  The double conversions of a float token are not
  modelled; what getIntValue/getLongValue answer for one is part of the
  state.
 */
module ParserMinimal {
  import opened Ints
  import opened Wrappers
  import opened JsonToken
  import opened ParserFeatures
  import opened FeatureMask
  import Text
  import NumberInput
  import ParserBase

  const INT_SPACE: int := 0x20

  // ---------------------------------------------------------------------
  // skipChildren

  predicate IsStructStart(t: Token) { t == START_OBJECT || t == START_ARRAY }

  predicate IsStructEnd(t: Token) { t == END_OBJECT || t == END_ARRAY }

  /** How many containers are open after the tokens `ts`, counting from
      inside the one just started. */
  function Open(ts: seq<Token>): int
  {
    if |ts| == 0 then 1
    else
      var t := ts[|ts| - 1];
      Open(ts[..|ts| - 1]) + (if IsStructStart(t) then 1 else if IsStructEnd(t) then -1 else 0)
  }

  /** The container is closed by the `k`-th token and not before. */
  predicate ClosesAt(ts: seq<Token>, k: nat)
  {
    && 0 < k <= |ts|
    && Open(ts[..k]) == 0
    && forall j :: 0 <= j < k ==> Open(ts[..j]) > 0
  }

  /** _handleEOF inside a container. */
  const EOF_IN_CONTAINER: Exc := ParseFailure("Unexpected end-of-input: expected close marker")

  /** skipChildren: nothing to do unless the current token starts a
      container; otherwise read the tokens `next` that nextToken answers,
      counting nesting, up to the end marker matching the start.  Answers
      how many tokens were read; running out of tokens is an error. */
  method SkipChildren(current: Token, next: seq<Token>) returns (r: Result<nat>)
    ensures !IsStructStart(current) ==> r == Success(0)
    ensures IsStructStart(current) && r.Success? ==> ClosesAt(next, r.value)
    ensures IsStructStart(current) ==> (r.Failure? <==> forall k :: 0 <= k <= |next| ==> Open(next[..k]) > 0)
    ensures r.Failure? ==> r.error == EOF_IN_CONTAINER
  {
    if !IsStructStart(current) {
      return Success(0);
    }
    var open := 1;
    var i := 0;
    while i < |next|
      invariant 0 <= i <= |next|
      invariant open == Open(next[..i])
      invariant forall j :: 0 <= j <= i ==> Open(next[..j]) > 0
    {
      var t := next[i];
      assert next[..i + 1][..i] == next[..i];
      if IsStructStart(t) {
        open := open + 1;
      } else if IsStructEnd(t) {
        open := open - 1;
        if open == 0 {
          return Success(i + 1);
        }
      }
      i := i + 1;
    }
    assert next[..|next|] == next;
    return Failure(EOF_IN_CONTAINER);
  }

  /** The closing token is unique: the nesting first reaches zero once. */
  lemma ClosingUnique(ts: seq<Token>, k1: nat, k2: nat)
    requires ClosesAt(ts, k1) && ClosesAt(ts, k2)
    ensures k1 == k2
  {
  }

  /** Nesting moves by one per token, so the closing token is an end
      marker. */
  lemma ClosedByEndMarker(ts: seq<Token>, k: nat)
    requires ClosesAt(ts, k)
    ensures IsStructEnd(ts[k - 1])
  {
    assert ts[..k][..k - 1] == ts[..k - 1];
    assert Open(ts[..k - 1]) > 0;
  }

  // ---------------------------------------------------------------------
  // getValueAs...

  /** The object of an embedded token, as far as the coercions look at it:
      a boxed bool, a number with its `int` and `long` views, or something
      else. */
  datatype Embedded = NoObject | BoolObject(b: bool) | NumberObject(asInt: int32, asLong: int64) | OtherObject

  datatype Current = Current(
    token: Option<Token>,
    text: string,
    number: int,
    floatAsInt: Result<int32>,
    floatAsLong: Result<int64>,
    embedded: Embedded)

  /** _hasTextualNull: the string value "null". */
  predicate HasTextualNull(s: string) { s == "null" }

  /** getIntValue on a number token: an integer parsed into its smallest
      type and converted, or the float's conversion. */
  function IntValueOf(c: Current): (r: Result<int32>)
    ensures c.token == Some(VALUE_NUMBER_INT) ==>
      (r.Success? <==> IsInt(c.number)) && (r.Success? ==> r.value == c.number)
    ensures c.token != Some(VALUE_NUMBER_INT) ==> r == c.floatAsInt
  {
    if c.token == Some(VALUE_NUMBER_INT) then ParserBase.IntValue(ParserBase.Smallest(c.number))
    else c.floatAsInt
  }

  /** getLongValue on a number token. */
  function LongValueOf(c: Current): (r: Result<int64>)
    ensures c.token == Some(VALUE_NUMBER_INT) ==>
      (r.Success? <==> IsLong(c.number)) && (r.Success? ==> r.value == c.number)
    ensures c.token != Some(VALUE_NUMBER_INT) ==> r == c.floatAsLong
  {
    if c.token == Some(VALUE_NUMBER_INT) then ParserBase.LongValue(ParserBase.Smallest(c.number))
    else c.floatAsLong
  }

  /** getValueAsBoolean(def): the literals answer themselves, an integer is
      true when non-zero, a string is read after trimming ("true", "false",
      and "null" as false), a boxed bool answers itself; anything else is
      the default.  The one error is an integer outside the `int` range. */
  function GetValueAsBoolean(c: Current, def: bool): (r: Result<bool>)
    ensures r.Failure? <==> c.token == Some(VALUE_NUMBER_INT) && !IsInt(c.number)
    ensures c.token == Some(VALUE_NUMBER_INT) && IsInt(c.number) ==> r == Success(c.number != 0)
    ensures c.token == Some(VALUE_TRUE) ==> r == Success(true)
    ensures c.token == Some(VALUE_FALSE) || c.token == Some(VALUE_NULL) ==> r == Success(false)
    ensures c.token == Some(VALUE_STRING) ==>
      r == Success(if Text.Trim(c.text) == "true" then true
        else if Text.Trim(c.text) == "false" || Text.Trim(c.text) == "null" then false
        else def)
    ensures c.token.None? || c.token == Some(VALUE_NUMBER_FLOAT) || c.token == Some(START_OBJECT) ==> r == Success(def)
  {
    match c.token
    case None => Success(def)
    case Some(t) =>
      match t
      case VALUE_STRING =>
        var str := Text.Trim(c.text);
        if str == "true" then Success(true)
        else if str == "false" then Success(false)
        else if HasTextualNull(str) then Success(false)
        else Success(def)
      case VALUE_NUMBER_INT =>
        var i :- IntValueOf(c);
        Success(i != 0)
      case VALUE_TRUE => Success(true)
      case VALUE_FALSE => Success(false)
      case VALUE_NULL => Success(false)
      case VALUE_EMBEDDED_OBJECT =>
        if c.embedded.BoolObject? then Success(c.embedded.b) else Success(def)
      case _ => Success(def)
  }

  /** getValueAsInt(def): a number answers getIntValue; "null" as a string
      (untrimmed) answers 0 and any other string is coerced by parseAsInt;
      true is 1, false and null are 0; a boxed number answers its `int`
      view; anything else is the default.  A text that is not a run of
      digits is converted through parseDouble, which the model leaves as
      `ViaDouble`; a digit run beyond the range lets parseAsInt's overflow
      escape. */
  function GetValueAsInt(c: Current, def: int32): (r: Result<NumberInput.Coerced>)
    ensures r.Success? && r.value.Parsed? ==> IsInt(r.value.v)
    ensures c.token == Some(VALUE_NUMBER_INT) ==>
      (r.Success? <==> IsInt(c.number)) && (r.Success? ==> r.value == NumberInput.Parsed(c.number))
    ensures c.token == Some(VALUE_TRUE) ==> r == Success(NumberInput.Parsed(1))
    ensures c.token == Some(VALUE_FALSE) || c.token == Some(VALUE_NULL) ==> r == Success(NumberInput.Parsed(0))
    ensures c.token == Some(VALUE_STRING) && c.text == "null" ==> r == Success(NumberInput.Parsed(0))
    ensures c.token == Some(VALUE_STRING) && c.text != "null" ==>
      r == NumberInput.ParseAsInt(Some(c.text), def)
    ensures c.token.None? || c.token == Some(START_ARRAY) || c.token == Some(FIELD_NAME) ==>
      r == Success(NumberInput.Parsed(def))
  {
    if c.token == Some(VALUE_NUMBER_INT) || c.token == Some(VALUE_NUMBER_FLOAT) then
      var i :- IntValueOf(c);
      Success(NumberInput.Parsed(i))
    else
      match c.token
      case None => Success(NumberInput.Parsed(def))
      case Some(t) =>
        match t
        case VALUE_STRING =>
          if HasTextualNull(c.text) then Success(NumberInput.Parsed(0))
          else NumberInput.ParseAsInt(Some(c.text), def)
        case VALUE_TRUE => Success(NumberInput.Parsed(1))
        case VALUE_FALSE => Success(NumberInput.Parsed(0))
        case VALUE_NULL => Success(NumberInput.Parsed(0))
        case VALUE_EMBEDDED_OBJECT =>
          if c.embedded.NumberObject? then Success(NumberInput.Parsed(c.embedded.asInt))
          else Success(NumberInput.Parsed(def))
        case _ => Success(NumberInput.Parsed(def))
  }

  /** getValueAsInt(): numbers as getIntValue, everything else with 0 as
      the default. */
  function GetValueAsIntOrZero(c: Current): (r: Result<NumberInput.Coerced>)
  {
    if c.token == Some(VALUE_NUMBER_INT) || c.token == Some(VALUE_NUMBER_FLOAT) then
      var i :- IntValueOf(c);
      Success(NumberInput.Parsed(i))
    else GetValueAsInt(c, 0)
  }

  /** getValueAsLong(def): as getValueAsInt(def) with `long` values. */
  function GetValueAsLong(c: Current, def: int64): (r: Result<NumberInput.Coerced>)
    ensures r.Success? && r.value.Parsed? ==> IsLong(r.value.v)
    ensures c.token == Some(VALUE_NUMBER_INT) ==>
      (r.Success? <==> IsLong(c.number)) && (r.Success? ==> r.value == NumberInput.Parsed(c.number))
    ensures c.token == Some(VALUE_TRUE) ==> r == Success(NumberInput.Parsed(1))
    ensures c.token == Some(VALUE_FALSE) || c.token == Some(VALUE_NULL) ==> r == Success(NumberInput.Parsed(0))
    ensures c.token == Some(VALUE_STRING) && c.text == "null" ==> r == Success(NumberInput.Parsed(0))
    ensures c.token == Some(VALUE_STRING) && c.text != "null" ==>
      r == NumberInput.ParseAsLong(Some(c.text), def)
    ensures c.token.None? || c.token == Some(START_ARRAY) || c.token == Some(FIELD_NAME) ==>
      r == Success(NumberInput.Parsed(def))
  {
    if c.token == Some(VALUE_NUMBER_INT) || c.token == Some(VALUE_NUMBER_FLOAT) then
      var l :- LongValueOf(c);
      Success(NumberInput.Parsed(l))
    else
      match c.token
      case None => Success(NumberInput.Parsed(def))
      case Some(t) =>
        match t
        case VALUE_STRING =>
          if HasTextualNull(c.text) then Success(NumberInput.Parsed(0))
          else NumberInput.ParseAsLong(Some(c.text), def)
        case VALUE_TRUE => Success(NumberInput.Parsed(1))
        case VALUE_FALSE => Success(NumberInput.Parsed(0))
        case VALUE_NULL => Success(NumberInput.Parsed(0))
        case VALUE_EMBEDDED_OBJECT =>
          if c.embedded.NumberObject? then Success(NumberInput.Parsed(c.embedded.asLong))
          else Success(NumberInput.Parsed(def))
        case _ => Success(NumberInput.Parsed(def))
  }

  /** getValueAsLong(): numbers as getLongValue, everything else with 0 as
      the default. */
  function GetValueAsLongOrZero(c: Current): (r: Result<NumberInput.Coerced>)
  {
    if c.token == Some(VALUE_NUMBER_INT) || c.token == Some(VALUE_NUMBER_FLOAT) then
      var l :- LongValueOf(c);
      Success(NumberInput.Parsed(l))
    else GetValueAsLong(c, 0)
  }

  /** The overloads without a default are the ones with 0 as the default. */
  lemma OrZeroIsDefaultZero(c: Current)
    ensures GetValueAsIntOrZero(c) == GetValueAsInt(c, 0)
    ensures GetValueAsLongOrZero(c) == GetValueAsLong(c, 0)
  {
  }

  /** A string token holding the decimal text of a value reads back as that
      value, in the `int` and the `long` coercions alike. */
  lemma StringReadsBack(c: Current, v: int32, def: int32)
    requires c.token == Some(VALUE_STRING) && c.text == SignedDecimal(v)
    ensures GetValueAsInt(c, def) == Success(NumberInput.Parsed(v))
    ensures GetValueAsLong(c, def) == Success(NumberInput.Parsed(v))
  {
    NotNullText(v);
    NumberInput.ParseAsIntRoundTrip(v, def);
    NumberInput.ParseAsLongRoundTrip(v, def);
  }

  /** A string token holding a digit run beyond the `long` range (or, for
      the `int` coercion, the `int` range) is not coerced to the default:
      the overflow of parseAsInt / parseAsLong escapes to the caller. */
  lemma StringOverflowEscapes(c: Current, v: nat, idef: int32, ldef: int64)
    requires c.token == Some(VALUE_STRING) && c.text == Decimal(v) && v > MAX_INT
    ensures GetValueAsInt(c, idef) == Failure(Overflow)
    ensures v > MAX_LONG ==> GetValueAsLong(c, ldef) == Failure(Overflow)
  {
    NotNullText(v);
    assert SignedDecimal(v) == Decimal(v);
    NumberInput.ParseAsIntOverflowEscapes(v, idef);
    if v > MAX_LONG {
      NumberInput.ParseAsLongOverflowEscapes(v, ldef);
    }
  }

  /** The decimal text of a number is never the word null. */
  lemma NotNullText(v: int)
    ensures SignedDecimal(v) != "null"
  {
    var s := SignedDecimal(v);
    var w: int := v;
    var mag: nat := if w < 0 then -w else w;
    DecimalLength(mag);
    if w >= 0 {
      assert s == Decimal(mag);
      DecimalDigits(mag);
      assert IsDigit(s[0]);
    }
  }

  /** The decimal text consists of digits. */
  lemma {:induction false} DecimalDigits(n: nat)
    ensures |Decimal(n)| > 0 && AllDigits(Decimal(n))
    decreases n
  {
    DecimalLength(n);
    if n >= 10 {
      DecimalDigits(n / 10);
    }
  }

  /** The boolean and the integer coercion agree on literals and on
      integers: the boolean is whether the integer is non-zero. */
  lemma BooleanAgreesWithInt(c: Current, bdef: bool, idef: int32)
    requires c.token in {Some(VALUE_TRUE), Some(VALUE_FALSE), Some(VALUE_NULL), Some(VALUE_NUMBER_INT)}
    ensures GetValueAsBoolean(c, bdef).Success? <==> GetValueAsInt(c, idef).Success?
    ensures GetValueAsInt(c, idef).Success? ==>
      GetValueAsInt(c, idef).value.Parsed? && GetValueAsBoolean(c, bdef).value == (GetValueAsInt(c, idef).value.v != 0)
  {
  }

  // ---------------------------------------------------------------------
  // Char checks

  /** _throwUnquotedSpace: a control char inside a string or name is an
      error unless ALLOW_UNQUOTED_CONTROL_CHARS is on and the char is at
      most a space. */
  function ThrowUnquotedSpace(flags: Mask, i: int, ctxtDesc: string): (r: Outcome)
    ensures r.Pass? <==> IsEnabled(flags, ALLOW_UNQUOTED_CONTROL_CHARS) && i <= INT_SPACE
    ensures r.Fail? ==> r.error.ParseFailure?
  {
    if !IsEnabled(flags, ALLOW_UNQUOTED_CONTROL_CHARS) || i > INT_SPACE then
      Fail(ParseFailure("Illegal unquoted character: has to be escaped using backslash to be included in " + ctxtDesc))
    else Pass
  }

  /** With the default features every unquoted control char is refused. */
  lemma UnquotedSpaceRefusedByDefault(i: int, ctxtDesc: string)
    ensures ThrowUnquotedSpace(DefaultFeatures(), i, ctxtDesc).Fail?
  {
    DefaultsEnableDefaults(ALLOW_UNQUOTED_CONTROL_CHARS);
  }

  /** _handleUnrecognizedCharacterEscape: a backslash before a char that is
      not a JSON escape keeps the char when escaping any char is allowed, or
      for a single quote when single quotes are allowed; otherwise it is an
      error. */
  function HandleUnrecognizedEscape(flags: Mask, ch: unit16): (r: Result<unit16>)
    ensures r.Success? <==>
      IsEnabled(flags, ALLOW_BACKSLASH_ESCAPING_ANY_CHARACTER)
      || (ch == '\'' as int && IsEnabled(flags, ALLOW_SINGLE_QUOTES))
    ensures r.Success? ==> r.value == ch
    ensures r.Failure? ==> r.error.ParseFailure?
  {
    if IsEnabled(flags, ALLOW_BACKSLASH_ESCAPING_ANY_CHARACTER) then Success(ch)
    else if ch == '\'' as int && IsEnabled(flags, ALLOW_SINGLE_QUOTES) then Success(ch)
    else Failure(ParseFailure("Unrecognized character escape"))
  }

  /** With the default features no unknown escape is accepted. */
  lemma UnknownEscapeRefusedByDefault(ch: unit16)
    ensures HandleUnrecognizedEscape(DefaultFeatures(), ch).Failure?
  {
    DefaultsEnableDefaults(ALLOW_BACKSLASH_ESCAPING_ANY_CHARACTER);
    DefaultsEnableDefaults(ALLOW_SINGLE_QUOTES);
  }
}
