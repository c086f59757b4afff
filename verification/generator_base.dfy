/** The configuration state shared by the generators (GeneratorBase, with
  the escaping limit of JsonGeneratorImpl).

  Three generator features are "derived": turning them on or off also
  updates state kept beside the mask.  WRITE_NUMBERS_AS_STRINGS has its own
  flag, ESCAPE_NON_ASCII sets the highest char written unescaped (127 when
  on, 0 when off), and STRICT_DUPLICATE_DETECTION gives the write context a
  duplicate detector.  Each way of changing the mask keeps that derived
  state in step with it.
 */
module GeneratorBase {
  import opened Ints
  import opened Wrappers
  import opened FeatureMask
  import opened Unicode
  import WriteContext
  import Dup = DupDetector
  import DefaultPrettyPrinter
  import MinimalPrettyPrinter
  import Indenter

  /** JsonGenerator.Feature, in declaration (ordinal) order. */
  datatype Feature =
    | AUTO_CLOSE_TARGET
    | AUTO_CLOSE_JSON_CONTENT
    | FLUSH_PASSED_TO_STREAM
    | QUOTE_FIELD_NAMES
    | QUOTE_NON_NUMERIC_NUMBERS
    | WRITE_NUMBERS_AS_STRINGS
    | WRITE_BIGDECIMAL_AS_PLAIN
    | ESCAPE_NON_ASCII
    | STRICT_DUPLICATE_DETECTION
    | IGNORE_UNKNOWN

  function Ordinal(f: Feature): (o: FeatureMask.Ordinal)
    ensures o < 10
  {
    match f
    case AUTO_CLOSE_TARGET => 0
    case AUTO_CLOSE_JSON_CONTENT => 1
    case FLUSH_PASSED_TO_STREAM => 2
    case QUOTE_FIELD_NAMES => 3
    case QUOTE_NON_NUMERIC_NUMBERS => 4
    case WRITE_NUMBERS_AS_STRINGS => 5
    case WRITE_BIGDECIMAL_AS_PLAIN => 6
    case ESCAPE_NON_ASCII => 7
    case STRICT_DUPLICATE_DETECTION => 8
    case IGNORE_UNKNOWN => 9
  }

  lemma OrdinalInjective(f: Feature, g: Feature)
    ensures Ordinal(f) == Ordinal(g) <==> f == g
  {
  }

  const NUMBERS_AS_STRINGS: FeatureMask.Ordinal := 5
  const ESCAPE_ASCII_ONLY: FeatureMask.Ordinal := 7
  const STRICT_DUPLICATES: FeatureMask.Ordinal := 8

  /** DERIVED_FEATURES_MASK. */
  const DERIVED_FEATURES_MASK: Mask := {NUMBERS_AS_STRINGS, ESCAPE_ASCII_ONLY, STRICT_DUPLICATES}

  /** The printer a generator may carry. */
  datatype PrettyPrinter =
    | DefaultPP(printer: DefaultPrettyPrinter.Printer)
    | MinimalPP(minimal: MinimalPrettyPrinter.Minimal)

  datatype Gen = Gen(
    features: Mask,
    cfgNumbersAsStrings: bool,
    maximumNonEscapedChar: int,
    ctx: WriteContext.WriteCtx,
    prettyPrinter: Option<PrettyPrinter>,
    generatorId: nat)

  /** The derived state agrees with the mask. */
  predicate InStep(g: Gen)
  {
    && WriteContext.Valid(g.ctx)
    && g.cfgNumbersAsStrings == EnabledIn(g.features, NUMBERS_AS_STRINGS)
    && g.maximumNonEscapedChar == (if EnabledIn(g.features, ESCAPE_ASCII_ONLY) then 127 else 0)
    && (g.ctx.dups.Some? <==> EnabledIn(g.features, STRICT_DUPLICATES))
  }

  /** A detector for this generator's names. */
  function RootDetector(g: Gen): (d: Dup.Detector)
    ensures Dup.Valid(d) && Dup.Seen(d) == {}
  {
    Dup.RootDetector(Dup.GeneratorSource(g.generatorId))
  }

  /** The constructors: a root write context, with a detector iff strict
      duplicate detection is on; the numbers flag from the mask; the
      escaping limit 127 iff ESCAPE_NON_ASCII is on. */
  function New(features: Mask, generatorId: nat): (g: Gen)
    ensures InStep(g) && g.features == features && g.prettyPrinter.None?
    ensures g.ctx.dups.Some? ==> Dup.Seen(g.ctx.dups.value) == {}
  {
    var dups := if EnabledIn(features, STRICT_DUPLICATES)
      then Some(Dup.RootDetector(Dup.GeneratorSource(generatorId))) else None;
    Gen(features, EnabledIn(features, NUMBERS_AS_STRINGS),
      if EnabledIn(features, ESCAPE_ASCII_ONLY) then 127 else 0,
      WriteContext.CreateRoot(dups), None, generatorId)
  }

  /** setHighestNonEscapedChar: negative codes count as 0. */
  function SetHighestNonEscapedChar(g: Gen, charCode: int): (r: Gen)
    ensures r.maximumNonEscapedChar >= 0
    ensures charCode >= 0 ==> r.maximumNonEscapedChar == charCode
    ensures r.(maximumNonEscapedChar := g.maximumNonEscapedChar) == g
  {
    g.(maximumNonEscapedChar := if charCode < 0 then 0 else charCode)
  }

  /** withDupDetector on the current write context. */
  function WithDupDetector(g: Gen, dups: Option<Dup.Detector>): (r: Gen)
    requires WriteContext.Valid(g.ctx) && (dups.Some? ==> Dup.Valid(dups.value))
    ensures WriteContext.Valid(r.ctx) && r.ctx.dups == dups
  {
    g.(ctx := g.ctx.(dups := dups))
  }

  /** enable: sets the bit, and for a derived feature its state; a detector
      already present is kept. */
  function Enable(g: Gen, f: Feature): (r: Gen)
    requires WriteContext.Valid(g.ctx)
    ensures r.features == FeatureMask.Enable(g.features, Ordinal(f))
    ensures WriteContext.Valid(r.ctx)
  {
    var o := Ordinal(f);
    var g1 := g.(features := g.features + Bit(o));
    if o !in DERIVED_FEATURES_MASK then g1
    else if f == WRITE_NUMBERS_AS_STRINGS then g1.(cfgNumbersAsStrings := true)
    else if f == ESCAPE_NON_ASCII then SetHighestNonEscapedChar(g1, 127)
    else if g1.ctx.dups.None? then WithDupDetector(g1, Some(RootDetector(g1)))
    else g1
  }

  /** disable: clears the bit, and for a derived feature its state. */
  function Disable(g: Gen, f: Feature): (r: Gen)
    requires WriteContext.Valid(g.ctx)
    ensures r.features == FeatureMask.Disable(g.features, Ordinal(f))
    ensures WriteContext.Valid(r.ctx)
  {
    var o := Ordinal(f);
    var g1 := g.(features := g.features - Bit(o));
    if o !in DERIVED_FEATURES_MASK then g1
    else if f == WRITE_NUMBERS_AS_STRINGS then g1.(cfgNumbersAsStrings := false)
    else if f == ESCAPE_NON_ASCII then SetHighestNonEscapedChar(g1, 0)
    else WithDupDetector(g1, None)
  }

  /** The bits two masks disagree on: `a ^ b`. */
  function Changed(a: Mask, b: Mask): (c: Mask)
    ensures forall j: FeatureMask.Ordinal :: j in c <==> (j in a) != (j in b)
  {
    (a - b) + (b - a)
  }

  /** setFeatureMask: takes the new mask; only when a derived bit changes is
      the derived state recomputed, and then only for the features whose
      bits changed (the numbers flag is recomputed from the mask). */
  function SetFeatureMask(g: Gen, newMask: Mask): (r: Gen)
    requires WriteContext.Valid(g.ctx)
    ensures r.features == newMask && WriteContext.Valid(r.ctx)
    ensures Changed(newMask, g.features) * DERIVED_FEATURES_MASK == {} ==> r == g.(features := newMask)
  {
    var changed := Changed(newMask, g.features);
    var g1 := g.(features := newMask);
    if changed * DERIVED_FEATURES_MASK == {} then g1
    else
      var g2 := g1.(cfgNumbersAsStrings := EnabledIn(newMask, NUMBERS_AS_STRINGS));
      var g3 := if EnabledIn(changed, ESCAPE_ASCII_ONLY)
        then SetHighestNonEscapedChar(g2, if EnabledIn(newMask, ESCAPE_ASCII_ONLY) then 127 else 0)
        else g2;
      if EnabledIn(changed, STRICT_DUPLICATES) then
        if EnabledIn(newMask, STRICT_DUPLICATES) then
          if g3.ctx.dups.None? then WithDupDetector(g3, Some(RootDetector(g3))) else g3
        else WithDupDetector(g3, None)
      else g3
  }

  /** Enabling and disabling keep the derived state in step with the mask. */
  lemma EnableDisableInStep(g: Gen, f: Feature)
    requires InStep(g)
    ensures InStep(Enable(g, f)) && InStep(Disable(g, f))
  {
  }

  /** So does replacing the whole mask. */
  lemma SetFeatureMaskInStep(g: Gen, newMask: Mask)
    requires InStep(g)
    ensures InStep(SetFeatureMask(g, newMask))
  {
    var changed := Changed(newMask, g.features);
    if changed * DERIVED_FEATURES_MASK == {} {
      assert forall j :: j in DERIVED_FEATURES_MASK && j in changed ==> j in changed * DERIVED_FEATURES_MASK;
      assert NUMBERS_AS_STRINGS in DERIVED_FEATURES_MASK && ESCAPE_ASCII_ONLY in DERIVED_FEATURES_MASK;
      assert STRICT_DUPLICATES in DERIVED_FEATURES_MASK;
    } else {
      assert ESCAPE_ASCII_ONLY !in changed ==> (ESCAPE_ASCII_ONLY in newMask <==> ESCAPE_ASCII_ONLY in g.features);
      assert STRICT_DUPLICATES !in changed ==> (STRICT_DUPLICATES in newMask <==> STRICT_DUPLICATES in g.features);
    }
  }

  /** Enabling one feature is the same as setting the mask with its bit
      added, and disabling the same as setting it with the bit cleared. */
  lemma EnableIsSetFeatureMask(g: Gen, f: Feature)
    requires InStep(g)
    ensures SetFeatureMask(g, FeatureMask.Enable(g.features, Ordinal(f))) == Enable(g, f)
    ensures SetFeatureMask(g, FeatureMask.Disable(g.features, Ordinal(f))) == Disable(g, f)
  {
    var o := Ordinal(f);
    assert Changed(FeatureMask.Enable(g.features, o), g.features) == if o in g.features then {} else {o};
    assert Changed(FeatureMask.Disable(g.features, o), g.features) == if o in g.features then {o} else {};
  }

  /** useDefaultPrettyPrinter: a printer already set is kept; otherwise the
      default printer with its default root separator is installed. */
  function UseDefaultPrettyPrinter(g: Gen, systemLinefeed: Indenter.Text): (r: Gen)
    ensures g.prettyPrinter.Some? ==> r == g
    ensures g.prettyPrinter.None? ==> r == g.(prettyPrinter := Some(DefaultPP(
      DefaultPrettyPrinter.New(Some(DefaultPrettyPrinter.DEFAULT_ROOT_VALUE_SEPARATOR), systemLinefeed))))
  {
    if g.prettyPrinter.Some? then g
    else g.(prettyPrinter := Some(DefaultPP(
      DefaultPrettyPrinter.New(Some(DefaultPrettyPrinter.DEFAULT_ROOT_VALUE_SEPARATOR), systemLinefeed))))
  }

  /** Asking twice for the default printer is asking once. */
  lemma UseDefaultIdempotent(g: Gen, lf: Indenter.Text)
    ensures UseDefaultPrettyPrinter(UseDefaultPrettyPrinter(g, lf), lf) == UseDefaultPrettyPrinter(g, lf)
  {
  }

  const INCOMPLETE_SURROGATE: string := "Incomplete surrogate pair"

  /** _decodeSurrogate: the first unit is a high surrogate (callers check
      it); a second unit outside DC00-DFFF is an error, otherwise the pair
      is combined into its code point. */
  function DecodeSurrogate(surr1: int, surr2: int): (r: Result<int>)
    requires IsHigh(surr1)
    ensures r.Failure? <==> !IsLow(surr2)
    ensures r.Failure? ==> r.error == GenerationFailure(INCOMPLETE_SURROGATE)
    ensures r.Success? ==> 0x1_0000 <= r.value <= MAX_CODE_POINT
  {
    if surr2 < SURR2_FIRST || surr2 > SURR2_LAST then Failure(GenerationFailure(INCOMPLETE_SURROGATE))
    else Success(0x1_0000 + (surr1 - SURR1_FIRST) * 0x400 + (surr2 - SURR2_FIRST))
  }

  /** Decoding is the inverse of the UTF-16 split, both ways: a pair decodes
      to a code point whose surrogates it is, and every supplementary code
      point's surrogates decode back to it. */
  lemma DecodeSurrogateInverse(surr1: int, surr2: int, cp: int)
    requires IsHigh(surr1)
    ensures DecodeSurrogate(surr1, surr2) == Success(cp) <==>
      (0x1_0000 <= cp <= MAX_CODE_POINT && surr1 == HighOf(cp) && surr2 == LowOf(cp))
  {
    if IsLow(surr2) {
      SplitCombine(surr1, surr2);
    }
    if 0x1_0000 <= cp <= MAX_CODE_POINT && surr1 == HighOf(cp) && surr2 == LowOf(cp) {
      CombineSplit(cp);
    }
  }
}
