/** The parser's feature set and its narrowing numeric accessors
  (JsonParser.Feature, getByteValue, getShortValue).

  getByteValue compares against `(int)byte.MinValue`, which is 0 for the
  unsigned C# byte, so the negative half of the range [-128, 255] that the
  accessor documents is refused; `ByteValue` models the code as written and
  `ByteValueIntended` the documented range.
 */
module ParserFeatures {
  import opened Ints
  import opened Wrappers
  import opened FeatureMask

  /** The parser features, in declaration (ordinal) order. */
  datatype Feature =
    | AUTO_CLOSE_SOURCE
    | ALLOW_COMMENTS
    | ALLOW_YAML_COMMENTS
    | ALLOW_UNQUOTED_FIELD_NAMES
    | ALLOW_SINGLE_QUOTES
    | ALLOW_UNQUOTED_CONTROL_CHARS
    | ALLOW_BACKSLASH_ESCAPING_ANY_CHARACTER
    | ALLOW_NUMERIC_LEADING_ZEROS
    | ALLOW_NON_NUMERIC_NUMBERS
    | STRICT_DUPLICATE_DETECTION
    | IGNORE_UNDEFINED

  /** The features listed by ordinal. */
  const ALL: seq<Feature> := [
    AUTO_CLOSE_SOURCE, ALLOW_COMMENTS, ALLOW_YAML_COMMENTS, ALLOW_UNQUOTED_FIELD_NAMES,
    ALLOW_SINGLE_QUOTES, ALLOW_UNQUOTED_CONTROL_CHARS, ALLOW_BACKSLASH_ESCAPING_ANY_CHARACTER,
    ALLOW_NUMERIC_LEADING_ZEROS, ALLOW_NON_NUMERIC_NUMBERS, STRICT_DUPLICATE_DETECTION,
    IGNORE_UNDEFINED]

  function Ordinal(f: Feature): (o: FeatureMask.Ordinal)
    ensures o < |ALL| && ALL[o] == f
  {
    match f
    case AUTO_CLOSE_SOURCE => 0
    case ALLOW_COMMENTS => 1
    case ALLOW_YAML_COMMENTS => 2
    case ALLOW_UNQUOTED_FIELD_NAMES => 3
    case ALLOW_SINGLE_QUOTES => 4
    case ALLOW_UNQUOTED_CONTROL_CHARS => 5
    case ALLOW_BACKSLASH_ESCAPING_ANY_CHARACTER => 6
    case ALLOW_NUMERIC_LEADING_ZEROS => 7
    case ALLOW_NON_NUMERIC_NUMBERS => 8
    case STRICT_DUPLICATE_DETECTION => 9
    case IGNORE_UNDEFINED => 10
  }

  /** Only closing the source is on by default. */
  predicate EnabledByDefault(f: Feature)
  {
    f == AUTO_CLOSE_SOURCE
  }

  /** The default states, by ordinal. */
  function DefaultStates(): (d: seq<bool>)
    ensures |d| == |ALL| && forall i :: 0 <= i < |ALL| ==> d[i] == EnabledByDefault(ALL[i])
  {
    seq(|ALL|, i requires 0 <= i < |ALL| => EnabledByDefault(ALL[i]))
  }

  /** Feature.collectDefaults for the parser. */
  function DefaultFeatures(): Mask
  {
    CollectDefaults(DefaultStates())
  }

  /** isEnabled. */
  predicate IsEnabled(flags: Mask, f: Feature)
  {
    EnabledIn(flags, Ordinal(f))
  }

  /** A parser created with the default mask has exactly the features that
      are enabled by default. */
  lemma DefaultsEnableDefaults(f: Feature)
    ensures IsEnabled(DefaultFeatures(), f) <==> EnabledByDefault(f)
  {
    CollectDefaultsExact(DefaultStates());
    assert InDefaults(DefaultStates(), Ordinal(f)) <==> EnabledByDefault(f);
  }

  /** Distinct features own distinct bits. */
  lemma OrdinalsDistinct(f: Feature, g: Feature)
    ensures Ordinal(f) == Ordinal(g) <==> f == g
  {
  }

  // ---------------------------------------------------------------------
  // Narrowing accessors

  const BYTE_RANGE: Exc := ParseFailure("Numeric value out of range of Java byte")
  const SHORT_RANGE: Exc := ParseFailure("Numeric value out of range of Java short")

  /** getByteValue as written: the lower bound is the unsigned byte's 0. */
  function ByteValue(value: int32): (r: Result<byte>)
    ensures r.Success? <==> 0 <= value <= 255
    ensures r.Success? ==> r.value == value
    ensures r.Failure? ==> r.error.ParseFailure?
  {
    if value < 0 || value > 255 then Failure(BYTE_RANGE)
    else Success(value)
  }

  /** getByteValue as documented: the range [-128, 255], every value of which
      names one byte; the result is the value's low eight bits. */
  function ByteValueIntended(value: int32): (r: Result<byte>)
    ensures r.Success? <==> -128 <= value <= 255
    ensures r.Success? ==> (r.value - value) % 256 == 0
    ensures r.Failure? ==> r.error.ParseFailure?
  {
    if value < -128 || value > 255 then Failure(BYTE_RANGE)
    else Success(value % 256)
  }

  /** Read as a signed byte, the intended result gives back every value of
      the signed range, and as an unsigned one every value of [0, 255]. */
  lemma ByteValueIntendedRoundTrip(value: int32)
    requires -128 <= value <= 255
    ensures var b := ByteValueIntended(value).value;
      value < 128 ==> (if b >= 128 then b - 256 else b) == value
    ensures value >= 0 ==> ByteValueIntended(value).value == value
  {
  }

  /** The discrepancy: -1, a documented byte value, is refused as written. */
  lemma ByteValueRejectsNegative()
    ensures ByteValue(-1).Failure?
    ensures ByteValueIntended(-1) == Success(255)
  {
  }

  /** Both accept [0, 255] and agree there. */
  lemma ByteValueAgreesOnUnsigned(value: int32)
    requires 0 <= value <= 255
    ensures ByteValue(value) == ByteValueIntended(value)
  {
  }

  /** getShortValue: the signed 16-bit range. */
  function ShortValue(value: int32): (r: Result<int>)
    ensures r.Success? <==> -0x8000 <= value <= 0x7FFF
    ensures r.Success? ==> r.value == value
    ensures r.Failure? ==> r.error.ParseFailure?
  {
    if value < -0x8000 || value > 0x7FFF then Failure(SHORT_RANGE)
    else Success(value)
  }
}
