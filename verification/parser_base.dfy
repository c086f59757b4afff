/** The number state and the helpers every parser shares (ParserBase).

  A number token is recorded by its sign and the lengths of its integral,
  fraction and exponent parts; its value is parsed only when asked for,
  into the smallest of `int`, `long` and big integer that holds it, and
  converted between those types on demand with a range check.  Floating
  point values are not modelled: a float token is parsed into a `FloatNr`
  that carries no value.
 */
module ParserBase {
  import opened Ints
  import opened Wrappers
  import opened JsonToken
  import NumberInput
  import B64 = Base64Variant

  // The bits of _numTypesValid.
  const NR_UNKNOWN: int := 0
  const NR_INT: int := 1
  const NR_LONG: int := 2
  const NR_BIGINT: int := 4
  const NR_DOUBLE: int := 8
  const NR_BIGDECIMAL: int := 0x10

  // ---------------------------------------------------------------------
  // Locations

  /** getTokenColumnNr: the stored column is 0-based with -1 for "not
      available"; a column that is known is answered 1-based, in 32-bit
      arithmetic. */
  function TokenColumnNr(col: int32): (r: int32)
    ensures col < 0 ==> r == col
    ensures 0 <= col < MAX_INT ==> r == col + 1
    ensures col == MAX_INT ==> r == MIN_INT
  {
    if col < 0 then col else ToInt32(col + 1)
  }

  /** The 1-based column goes back to the 0-based one: every known column
      short of the 32-bit maximum is answered positive, and distinct
      columns stay distinct. */
  lemma ColumnNrOneBased(a: int32, b: int32)
    requires 0 <= a < MAX_INT && 0 <= b < MAX_INT
    ensures TokenColumnNr(a) > 0 && TokenColumnNr(a) - 1 == a
    ensures TokenColumnNr(a) == TokenColumnNr(b) <==> a == b
    ensures a < b <==> TokenColumnNr(a) < TokenColumnNr(b)
  {
  }

  // ---------------------------------------------------------------------
  // Number state

  datatype NumberState = NumberState(
    negative: bool,
    intLength: int,
    fractLength: int,
    expLength: int,
    numTypesValid: int)

  datatype Reset = Reset(token: Token, state: NumberState)

  /** resetInt: an integer token; no fraction, no exponent, nothing parsed. */
  function ResetInt(negative: bool, intLen: int): (r: Reset)
    ensures r.token == VALUE_NUMBER_INT
    ensures r.state.negative == negative && r.state.intLength == intLen
    ensures r.state.fractLength == 0 && r.state.expLength == 0
    ensures r.state.numTypesValid == NR_UNKNOWN
  {
    Reset(VALUE_NUMBER_INT, NumberState(negative, intLen, 0, 0, NR_UNKNOWN))
  }

  /** resetFloat: a floating-point token keeping all three lengths. */
  function ResetFloat(negative: bool, intLen: int, fractLen: int, expLen: int): (r: Reset)
    ensures r.token == VALUE_NUMBER_FLOAT
    ensures r.state == NumberState(negative, intLen, fractLen, expLen, NR_UNKNOWN)
  {
    Reset(VALUE_NUMBER_FLOAT, NumberState(negative, intLen, fractLen, expLen, NR_UNKNOWN))
  }

  /** reset: an integer token exactly when there is neither a fraction nor
      an exponent; every other number is a float.  Either way the value is
      left to be parsed. */
  function ResetNumber(negative: bool, intLen: int, fractLen: int, expLen: int): (r: Reset)
    ensures r.token == VALUE_NUMBER_INT <==> fractLen < 1 && expLen < 1
    ensures r.token == VALUE_NUMBER_INT || r.token == VALUE_NUMBER_FLOAT
    ensures r.state.negative == negative && r.state.intLength == intLen
    ensures r.state.numTypesValid == NR_UNKNOWN
    ensures r.token == VALUE_NUMBER_FLOAT ==> r.state.fractLength == fractLen && r.state.expLength == expLen
  {
    if fractLen < 1 && expLen < 1 then ResetInt(negative, intLen)
    else ResetFloat(negative, intLen, fractLen, expLen)
  }

  /** An integer reset forgets any (non-positive) fraction and exponent
      lengths, so it is the same as one that never had them. */
  lemma ResetIntegral(negative: bool, intLen: int, fractLen: int, expLen: int)
    requires fractLen < 1 && expLen < 1
    ensures ResetNumber(negative, intLen, fractLen, expLen) == ResetNumber(negative, intLen, 0, 0)
  {
  }

  // ---------------------------------------------------------------------
  // Parsing the value

  /** A parsed number: `_numberInt`, `_numberLong` or `_numberBigInt` with
      its NR_ bit, or a float whose value the model does not carry. */
  datatype NumberValue = IntNr(i: int32) | LongNr(l: int64) | BigIntNr(b: int) | FloatNr

  /** The NR_ bit that is valid after parsing. */
  function TypesValid(n: NumberValue): (bits: int)
    ensures bits in {NR_INT, NR_LONG, NR_BIGINT, NR_DOUBLE}
  {
    match n
    case IntNr(_) => NR_INT
    case LongNr(_) => NR_LONG
    case BigIntNr(_) => NR_BIGINT
    case FloatNr => NR_DOUBLE
  }

  /** The integer a parsed integral number stands for. */
  function ValueOf(n: NumberValue): int
    requires !n.FloatNr?
  {
    match n
    case IntNr(i) => i
    case LongNr(l) => l
    case BigIntNr(b) => b
  }

  /** The smallest type that holds an integer: the reference the parser's
      type selection is measured against. */
  function Smallest(v: int): (n: NumberValue)
    ensures !n.FloatNr? && ValueOf(n) == v
    ensures n.IntNr? <==> IsInt(v)
    ensures n.BigIntNr? <==> !IsLong(v)
  {
    if IsInt(v) then IntNr(v) else if IsLong(v) then LongNr(v) else BigIntNr(v)
  }

  /** The signed value of a digit run. */
  function Signed(negative: bool, digits: string): int
    requires AllDigits(digits)
  {
    var m: int := DigitsValue(digits);
    if negative then -m else m
  }

  /** The digits of a number as the JSON grammar writes them: a lone digit,
      or no leading zero. */
  predicate Canonical(digits: string)
  {
    |digits| > 0 && AllDigits(digits) && (|digits| == 1 || digits[0] != '0')
  }

  /** _parseNumericValue for the current token.  An integer of up to nine
      digits is an `int`; of ten to eighteen a `long`, narrowed to an `int`
      when ten digits fit; longer ones are a `long` when inLongRange allows,
      else a big integer.  A float token parses (without a modelled value);
      any other token is an error.  For digits in the JSON form this picks
      the smallest type, and for any digits it keeps the exact value. */
  method ParseNumericValue(token: Token, negative: bool, digits: string) returns (r: Result<NumberValue>)
    requires token == VALUE_NUMBER_INT ==> |digits| > 0 && AllDigits(digits)
    ensures token == VALUE_NUMBER_INT ==>
      r.Success? && !r.value.FloatNr? && ValueOf(r.value) == Signed(negative, digits)
    ensures token == VALUE_NUMBER_INT && Canonical(digits) ==> r == Success(Smallest(Signed(negative, digits)))
    ensures token == VALUE_NUMBER_FLOAT ==> r == Success(FloatNr)
    ensures token != VALUE_NUMBER_INT && token != VALUE_NUMBER_FLOAT ==> r.Failure? && r.error.ParseFailure?
  {
    if token == VALUE_NUMBER_INT {
      var len := |digits|;
      if len <= 9 {
        var i := NumberInput.ParseIntDigits(digits);
        NumberInput.NineDigitsFit(digits);
        r := Success(IntNr(if negative then -i else i));
        return;
      }
      if len <= 18 {
        var l := NumberInput.ParseLongDigits(digits);
        TenToEighteenDigits(digits);
        if negative {
          l := -l;
        }
        if len == 10 {
          if negative {
            if l >= MIN_INT {
              r := Success(IntNr(l));
              return;
            }
          } else {
            if l <= MAX_INT {
              r := Success(IntNr(l));
              return;
            }
          }
        }
        r := Success(LongNr(l));
        return;
      }
      r := ParseSlowInt(negative, digits);
      return;
    }
    if token == VALUE_NUMBER_FLOAT {
      r := Success(FloatNr);
      return;
    }
    r := Failure(ParseFailure("Current token not numeric, can not use numeric value accessors"));
  }

  /** Ten to eighteen digits: a `long`, and an `int` only when there are
      ten of them (or leading zeros). */
  lemma TenToEighteenDigits(digits: string)
    requires 10 <= |digits| <= 18 && AllDigits(digits)
    ensures DigitsValue(digits) < 1_000_000_000_000_000_000
    ensures |digits| > 10 && digits[0] != '0' ==> DigitsValue(digits) >= 10_000_000_000
  {
    NumberInput.ShortDigitsInRange(digits);
    if |digits| > 10 && digits[0] != '0' {
      NumberInput.LeadingDigitBound(digits);
      Pow10Monotone(10, |digits| - 1);
      Pow10Values();
    }
  }

  /** _parseSlowInt: nineteen digits or more; a `long` when inLongRange
      says so, a big integer otherwise.  The platform parse of the text
      cannot fail on a run of digits. */
  method ParseSlowInt(negative: bool, digits: string) returns (r: Result<NumberValue>)
    requires |digits| >= 19 && AllDigits(digits)
    ensures r.Success? && !r.value.FloatNr? && !r.value.IntNr? && ValueOf(r.value) == Signed(negative, digits)
    ensures digits[0] != '0' ==> r == Success(Smallest(Signed(negative, digits)))
  {
    var v := Signed(negative, digits);
    var fits := NumberInput.InLongRange(digits, negative);
    if digits[0] != '0' {
      NumberInput.LeadingDigitBound(digits);
      Pow10Monotone(18, |digits| - 1);
      Pow10Values();
    }
    if fits {
      if |digits| > 19 {
        assert false;
      }
      r := Success(LongNr(v));
    } else {
      r := Success(BigIntNr(v));
    }
  }

  // ---------------------------------------------------------------------
  // Conversions

  /** convertNumberToInt for integral values: a `long` converts when the
      `(int)` cast round-trips, a big integer when it is within the `int`
      bounds; an `int` alone is not a state it is called in
      (_throwInternal). */
  function ConvertNumberToInt(n: NumberValue): (r: Result<int32>)
    requires !n.FloatNr?
    ensures n.IntNr? ==> r.Failure? && r.error.IllegalState?
    ensures !n.IntNr? ==> (r.Success? <==> IsInt(ValueOf(n)))
    ensures r.Success? ==> r.value == ValueOf(n)
    ensures r.Failure? && !n.IntNr? ==> r.error.ParseFailure?
  {
    match n
    case LongNr(l) =>
      var result := ToInt32(l);
      if result != l then Failure(ParseFailure("Numeric value (" + SignedDecimal(l) + ") out of range of int"))
      else Success(result)
    case BigIntNr(b) =>
      if b < MIN_INT || b > MAX_INT then Failure(OverflowInt(b)) else Success(b)
    case IntNr(_) => Result<int32>.Failure(IllegalState("Internal error: this code path should never get executed"))
  }

  /** reportOverflowInt. */
  function OverflowInt(v: int): (e: Exc)
    ensures e.ParseFailure?
  {
    ParseFailure("Numeric value (" + SignedDecimal(v) + ") out of range of int ("
      + SignedDecimal(MIN_INT) + " - " + SignedDecimal(MAX_INT) + ")")
  }

  /** reportOverflowLong. */
  function OverflowLong(v: int): (e: Exc)
    ensures e.ParseFailure?
  {
    ParseFailure("Numeric value (" + SignedDecimal(v) + ") out of range of long ("
      + SignedDecimal(MIN_LONG) + " - " + SignedDecimal(MAX_LONG) + ")")
  }

  /** The `(int)` round trip is exactly the `int` range check, for every
      `long`: the cast keeps the value iff it is an `int` already. */
  lemma IntCastRoundTrip(l: int64)
    ensures ToInt32(l) == l <==> IsInt(l)
    ensures !IsInt(l) ==> ConvertNumberToInt(LongNr(l)).Failure?
  {
  }

  /** convertNumberToLong for integral values: an `int` widens, a big
      integer converts within the `long` bounds; a `long` alone is not a
      state it is called in. */
  function ConvertNumberToLong(n: NumberValue): (r: Result<int64>)
    requires !n.FloatNr?
    ensures n.LongNr? ==> r.Failure? && r.error.IllegalState?
    ensures !n.LongNr? ==> (r.Success? <==> IsLong(ValueOf(n)))
    ensures r.Success? ==> r.value == ValueOf(n)
  {
    match n
    case IntNr(i) => Success(i)
    case BigIntNr(b) =>
      if b < MIN_LONG || b > MAX_LONG then Failure(OverflowLong(b)) else Success(b)
    case LongNr(_) => Result<int64>.Failure(IllegalState("Internal error: this code path should never get executed"))
  }

  /** getIntValue after parsing: the `int` itself, or a conversion. */
  function IntValue(n: NumberValue): (r: Result<int32>)
    requires !n.FloatNr?
    ensures r.Success? <==> IsInt(ValueOf(n))
    ensures r.Success? ==> r.value == ValueOf(n)
  {
    if n.IntNr? then Success(n.i) else ConvertNumberToInt(n)
  }

  /** getLongValue after parsing: the `long` itself, or a conversion. */
  function LongValue(n: NumberValue): (r: Result<int64>)
    requires !n.FloatNr?
    ensures r.Success? <==> IsLong(ValueOf(n))
    ensures r.Success? ==> r.value == ValueOf(n)
  {
    if n.LongNr? then Success(n.l) else ConvertNumberToLong(n)
  }

  /** getIntValue on an integer token: parse (through the nine-digit fast
      path of _parseIntValue or _parseNumericValue), then convert.  It
      answers the value exactly when the number is an `int`. */
  method GetIntValue(negative: bool, digits: string) returns (r: Result<int32>)
    requires |digits| > 0 && AllDigits(digits)
    ensures r.Success? <==> IsInt(Signed(negative, digits))
    ensures r.Success? ==> r.value == Signed(negative, digits)
  {
    if |digits| <= 9 {
      var i := NumberInput.ParseIntDigits(digits);
      NumberInput.NineDigitsFit(digits);
      r := Success(if negative then -i else i);
      return;
    }
    var n := ParseNumericValue(VALUE_NUMBER_INT, negative, digits);
    r := IntValue(n.value);
  }

  /** getLongValue on an integer token: parse, then convert. */
  method GetLongValue(negative: bool, digits: string) returns (r: Result<int64>)
    requires |digits| > 0 && AllDigits(digits)
    ensures r.Success? <==> IsLong(Signed(negative, digits))
    ensures r.Success? ==> r.value == Signed(negative, digits)
  {
    var n := ParseNumericValue(VALUE_NUMBER_INT, negative, digits);
    r := LongValue(n.value);
  }

  // ---------------------------------------------------------------------
  // Base64 escapes

  /** _decodeBase64Escape: only a backslash may start an escape inside
      base64 content.  The escape is decoded by the concrete parser (given
      here as `unescaped`); escaped white space is skipped (answered -1)
      only as the first char of a unit, and otherwise the unescaped char
      must be an alphabet char. */
  function DecodeBase64Escape(v: B64.Variant, ch: unit16, index: nat, unescaped: Result<unit16>): (r: Result<int>)
    requires B64.Coherent(v)
    ensures ch != '\\' as int ==> r == Failure(B64.InvalidBase64(v, ch, index, None))
    ensures ch == '\\' as int && unescaped.Failure? ==> r == Failure(unescaped.error)
    ensures r == Success(-1) <==> ch == '\\' as int && unescaped.Success? && unescaped.value <= B64.INT_SPACE && index == 0
    ensures r.Success? && r.value != -1 ==> 0 <= r.value < 64 && v.toAsciiC[r.value] == unescaped.value
  {
    if ch != '\\' as int then Failure(B64.InvalidBase64(v, ch, index, None))
    else
      match unescaped
      case Failure(e) => Failure(e)
      case Success(u) =>
        if u <= B64.INT_SPACE && index == 0 then Success(-1)
        else
          var bits := B64.DecodeBase64Char(v, u);
          if bits < 0 then Failure(B64.InvalidBase64(v, u, index, None))
          else Success(bits)
  }

  /** With complete tables an escaped alphabet char decodes to its position,
      and an escaped padding char is refused. */
  lemma EscapedAlphabetChar(v: B64.Variant, i: nat, index: nat)
    requires B64.Coherent(v) && B64.Complete(v) && i < 64
    requires v.toAsciiC[i] > B64.INT_SPACE || index > 0
    ensures DecodeBase64Escape(v, '\\' as int, index, Success(v.toAsciiC[i])) == Success(i)
    ensures v.usesPadding && (v.paddingChar > B64.INT_SPACE || index > 0) ==>
      DecodeBase64Escape(v, '\\' as int, index, Success(v.paddingChar)).Failure?
  {
    B64.DecodeAlphabetChar(v, i);
  }
}
