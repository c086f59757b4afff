/** Decimal reading of C# `int` and `long` values (NumberInput).

  The fast paths read the digits themselves; everything else is handed to
  the platform parser `Convert.ToInt32` / `ToInt64`, modelled by
  `Text.PlatformParse`.  The main results: the fast paths agree with the
  platform parser on every input, `inLongRange` is exactly the `long` range
  test for the digit strings the tokenizer produces, and reading back what
  NumberOutput prints gives the original value.
 */
module NumberInput {
  import opened Ints
  import opened Wrappers
  import opened Text

  /** `long.MinValue.ToString()` without its sign, and `long.MaxValue.ToString()`. */
  const MIN_LONG_STR_NO_SIGN: string := Decimal(-MIN_LONG)
  const MAX_LONG_STR: string := Decimal(MAX_LONG)

  /** Appending a digit multiplies by ten and adds it. */
  lemma AppendDigit(p: string, c: char)
    requires AllDigits(p) && IsDigit(c)
    ensures AllDigits(p + [c])
    ensures DigitsValue(p + [c]) == 10 * DigitsValue(p) + DigitValue(c)
  {
    assert (p + [c])[..|p|] == p;
  }

  /** Reading one more digit extends the value of the prefix read so far. */
  lemma PrefixStep(ch: string, k: nat)
    requires k < |ch| && AllDigits(ch)
    ensures AllDigits(ch[..k]) && AllDigits(ch[..k + 1])
    ensures DigitsValue(ch[..k + 1]) == 10 * DigitsValue(ch[..k]) + DigitValue(ch[k])
  {
    assert ch[..k + 1] == ch[..k] + [ch[k]];
    AppendDigit(ch[..k], ch[k]);
  }

  /** One `num = (num * 10) + (ch[++off] - '0')` step of parseInt. */
  method NextDigit(ch: string, num: int, off: nat) returns (num': int, off': nat)
    requires off + 1 < |ch| && AllDigits(ch)
    requires num == DigitsValue(ch[..off + 1])
    ensures off' == off + 1 && num' == DigitsValue(ch[..off' + 1])
  {
    off' := off + 1;
    PrefixStep(ch, off');
    num' := num * 10 + DigitValue(ch[off']);
  }

  /** parseInt(char[], off, len) on the `len` chars `ch`: 1 to 9 digits. */
  method ParseIntDigits(ch: string) returns (num: int)
    requires 1 <= |ch| <= 9 && AllDigits(ch)
    ensures num == DigitsValue(ch)
  {
    var len := |ch|;
    var off: nat := 0;
    PrefixStep(ch, 0);
    num := DigitValue(ch[0]);
    if len > 4 {
      num, off := NextDigit(ch, num, off);
      num, off := NextDigit(ch, num, off);
      num, off := NextDigit(ch, num, off);
      num, off := NextDigit(ch, num, off);
      len := len - 4;
      if len > 4 {
        num, off := NextDigit(ch, num, off);
        num, off := NextDigit(ch, num, off);
        num, off := NextDigit(ch, num, off);
        num, off := NextDigit(ch, num, off);
        assert ch[..off + 1] == ch;
        return;
      }
    }
    if len > 1 {
      num, off := NextDigit(ch, num, off);
      if len > 2 {
        num, off := NextDigit(ch, num, off);
        if len > 3 {
          num, off := NextDigit(ch, num, off);
        }
      }
    }
    assert ch[..off + 1] == ch;
  }

  /** A text that is a sign (or nothing) and then digits needs no white-space stripping. */
  lemma NoNetWhite(s: string)
    requires |s| > 0 && !IsNetWhite(s[0]) && !IsNetWhite(s[|s| - 1])
    ensures StripNetWhite(s) == s
  {
  }

  /** Up to nine digits always fit in an `int`. */
  lemma NineDigitsFit(d: string)
    requires AllDigits(d) && |d| <= 9
    ensures DigitsValue(d) < 1_000_000_000
  {
    DigitsValueBound(d);
    Pow10Values();
    Pow10Monotone(|d|, 9);
  }

  /** parseInt(String): an optional '-' and 1 to 9 digits are read directly,
      anything else goes to `Convert.ToInt32`. */
  method ParseIntText(s: string) returns (r: Result<int>)
    ensures |s| == 0 ==> r == Failure(IndexOutOfRange)
    ensures |s| > 0 ==> r == ConvertToInt32(s)
  {
    if |s| == 0 {
      return Failure(IndexOutOfRange);
    }
    var c := s[0];
    var len := |s|;
    var neg := c == '-';
    var offset := 1;
    if neg {
      if len == 1 || len > 10 {
        return ConvertToInt32(s);
      }
      c := s[offset];
      offset := offset + 1;
    } else if len > 9 {
      return ConvertToInt32(s);
    }
    if !IsDigit(c) {
      return ConvertToInt32(s);
    }
    var start := offset - 1;
    var allDigits, num := ReadDigits(s, start);
    if !allDigits {
      return ConvertToInt32(s);
    }
    DirectParseAgrees(s, neg, start, num);
    r := Success(if neg then -num else num);
  }

  /** The digit loop of parseInt(String), from a digit at `start`: either
      every char from there on is a digit, and `num` is their value, or the
      loop stops at a char that is not. */
  method ReadDigits(s: string, start: nat) returns (ok: bool, num: int)
    requires start < |s| && IsDigit(s[start])
    ensures ok ==> AllDigits(s[start..]) && num == DigitsValue(s[start..])
    ensures !ok ==> !AllDigits(s[start..])
  {
    var offset := start + 1;
    num := DigitValue(s[start]);
    AppendDigit([], s[start]);
    assert s[start..offset] == [] + [s[start]];
    while offset < |s|
      invariant start < offset <= |s|
      invariant AllDigits(s[start..offset]) && num == DigitsValue(s[start..offset])
    {
      var c := s[offset];
      if !IsDigit(c) {
        assert s[start..][offset - start] == c;
        return false, num;
      }
      AppendDigit(s[start..offset], c);
      assert s[start..offset + 1] == s[start..offset] + [c];
      offset := offset + 1;
      num := num * 10 + DigitValue(c);
    }
    assert s[start..] == s[start..offset];
    return true, num;
  }

  /** A sign and at most nine digits read directly give what the platform
      parser gives. */
  lemma DirectParseAgrees(s: string, neg: bool, start: nat, num: int)
    requires start == (if neg then 1 else 0) && start < |s| <= start + 9
    requires neg <==> s[0] == '-'
    requires AllDigits(s[start..]) && num == DigitsValue(s[start..])
    ensures ConvertToInt32(s) == Success(if neg then -num else num)
  {
    NineDigitsFit(s[start..]);
    assert IsDigit(s[|s| - 1]) by {
      assert s[|s| - 1] == s[start..][|s| - 1 - start];
    }
    NoNetWhite(s);
    if !neg {
      assert s[start..] == s;
    }
  }

  /** parseLong(char[], off, len) for 10 to 18 digits: the leading digits
      times a billion plus the last nine. */
  method ParseLongDigits(ch: string) returns (r: int)
    requires 10 <= |ch| <= 18 && AllDigits(ch)
    ensures r == DigitsValue(ch)
  {
    var len1 := |ch| - 9;
    var head := ParseIntDigits(ch[..len1]);
    var tail := ParseIntDigits(ch[len1..]);
    r := head * 1_000_000_000 + tail;
    DigitsValueAppend(ch[..len1], ch[len1..]);
    assert ch[..len1] + ch[len1..] == ch;
    Pow10Values();
  }

  /** For at most nine chars the `int` and `long` platform parsers agree. */
  lemma ShortTextSameParse(s: string)
    requires |s| <= 9
    ensures ConvertToInt32(s) == ConvertToInt64(s)
  {
    var t := StripNetWhite(s);
    var digits := if |t| > 0 && (t[0] == '-' || t[0] == '+') then t[1..] else t;
    if |digits| > 0 && AllDigits(digits) {
      NineDigitsFit(digits);
    }
  }

  /** parseLong(String): short texts through parseInt, the rest through `Convert.ToInt64`. */
  method ParseLongText(s: string) returns (r: Result<int>)
    ensures |s| == 0 ==> r == Failure(IndexOutOfRange)
    ensures |s| > 0 ==> r == ConvertToInt64(s)
  {
    if |s| <= 9 {
      r := ParseIntText(s);
      ShortTextSameParse(s);
      return;
    }
    r := ConvertToInt64(s);
  }

  // ---------------------------------------------------------------------
  // inLongRange

  lemma MulMono(x: int, y: int, p: nat)
    requires x + 1 <= y
    ensures x * p + p <= y * p
  {
    assert (x + 1) * p == x * p + p;
    assert (x + 1) * p <= y * p;
  }

  /** A digit string splits at position `i` into its prefix up to `i`
      (scaled) and the rest, which stays below the scale. */
  lemma ValueSplit(a: string, i: nat)
    requires i < |a| && AllDigits(a)
    ensures AllDigits(a[..i + 1]) && AllDigits(a[i + 1..])
    ensures DigitsValue(a) == DigitsValue(a[..i + 1]) * Pow10(|a| - i - 1) + DigitsValue(a[i + 1..])
    ensures DigitsValue(a[i + 1..]) < Pow10(|a| - i - 1)
  {
    DigitsValueAppend(a[..i + 1], a[i + 1..]);
    assert a[..i + 1] + a[i + 1..] == a;
    DigitsValueBound(a[i + 1..]);
  }

  /** Equal-length digit strings compare as numbers the way they compare
      char by char: the first differing digit decides. */
  lemma LexLess(a: string, b: string, i: nat)
    requires |a| == |b| && i < |a| && AllDigits(a) && AllDigits(b)
    requires a[..i] == b[..i] && a[i] < b[i]
    ensures DigitsValue(a) < DigitsValue(b)
  {
    PrefixStep(a, i);
    PrefixStep(b, i);
    ValueSplit(a, i);
    ValueSplit(b, i);
    MulMono(DigitsValue(a[..i + 1]), DigitsValue(b[..i + 1]), Pow10(|a| - i - 1));
  }

  /** compare digit by digit, as inLongRange's loop does: the first
      difference decides, equal strings are in range. */
  method CompareDigits(s: string, cmp: string) returns (r: bool)
    requires |s| == |cmp| && AllDigits(s) && AllDigits(cmp)
    ensures r <==> DigitsValue(s) <= DigitsValue(cmp)
  {
    var i := 0;
    while i < |cmp|
      invariant 0 <= i <= |cmp|
      invariant s[..i] == cmp[..i]
    {
      var diff := (s[i] as int) - (cmp[i] as int);
      if diff != 0 {
        if diff < 0 {
          LexLess(s, cmp, i);
        } else {
          LexLess(cmp, s, i);
        }
        return diff < 0;
      }
      assert s[..i + 1] == cmp[..i + 1];
      i := i + 1;
    }
    assert s == s[..i] && cmp == cmp[..i];
    return true;
  }

  /** A digit string without a leading zero has a value of at least 10^(n-1). */
  lemma LeadingDigitBound(s: string)
    requires |s| > 0 && AllDigits(s) && s[0] != '0'
    ensures DigitsValue(s) >= Pow10(|s| - 1)
  {
    DigitsValueAppend(s[..1], s[1..]);
    assert s[..1] + s[1..] == s;
    assert DigitsValue(s[..1]) == DigitValue(s[0]) by {
      assert s[..1][..0] == [];
    }
  }

  lemma LongTextLengths()
    ensures |MIN_LONG_STR_NO_SIGN| == 19 && |MAX_LONG_STR| == 19
    ensures DigitsValue(MIN_LONG_STR_NO_SIGN) == -MIN_LONG
    ensures DigitsValue(MAX_LONG_STR) == MAX_LONG
  {
    Pow10Values();
    DecimalLength(-MIN_LONG);
    DecimalLength(MAX_LONG);
    NumDigitsAtLeast(-MIN_LONG, 19);
    NumDigitsAtMost(-MIN_LONG, 19);
    NumDigitsAtLeast(MAX_LONG, 19);
    NumDigitsAtMost(MAX_LONG, 19);
    DecimalValue(-MIN_LONG);
    DecimalValue(MAX_LONG);
  }

  /** inLongRange: whether the digits (a magnitude, the sign given apart) fit
      in a `long`; compared by length first, then digit by digit. */
  method InLongRange(s: string, negative: bool) returns (r: bool)
    requires AllDigits(s)
    ensures |s| < 19 ==> r
    ensures |s| > 19 ==> !r
    ensures (|s| <= 19 || s[0] != '0') ==>
              (r <==> DigitsValue(s) <= (if negative then -MIN_LONG else MAX_LONG))
  {
    var cmp := if negative then MIN_LONG_STR_NO_SIGN else MAX_LONG_STR;
    LongTextLengths();
    var cmpLen := |cmp|;
    if |s| < cmpLen {
      ShortDigitsInRange(s);
      return true;
    }
    if |s| > cmpLen {
      if s[0] != '0' {
        LongDigitsOutOfRange(s);
      }
      return false;
    }
    r := CompareDigits(s, cmp);
  }

  lemma ShortDigitsInRange(s: string)
    requires AllDigits(s) && |s| < 19
    ensures DigitsValue(s) < 1_000_000_000_000_000_000
  {
    DigitsValueBound(s);
    Pow10Monotone(|s|, 18);
    Pow10Values();
  }

  lemma LongDigitsOutOfRange(s: string)
    requires AllDigits(s) && |s| > 19 && s[0] != '0'
    ensures DigitsValue(s) >= 10_000_000_000_000_000_000
  {
    LeadingDigitBound(s);
    Pow10Monotone(19, |s| - 1);
    Pow10Values();
  }

  // ---------------------------------------------------------------------
  // parseAsInt / parseAsLong

  /** What a lenient integer coercion yields: a value, or a text that
      contains a non-digit and is converted through `parseDouble`. */
  datatype Coerced = Parsed(v: int) | ViaDouble(text: string)

  /** The digit check of parseAsInt: from `from` on, only digits. */
  predicate DigitsFrom(t: string, from: nat)
  {
    forall k :: from <= k < |t| ==> IsDigit(t[k])
  }

  /** The text parseAsInt hands to the parsers after trimming and dropping a '+'. */
  function CoercionText(s: string): string
  {
    var t := Trim(s);
    if |t| > 0 && t[0] == '+' then t[1..] else t
  }

  /** parseAsInt / parseAsLong as written: `Convert` is called on a signed
      digit run and only its FormatException falls back to the default, so an
      out-of-range value escapes as OverflowException. */
  function CoerceAsWritten(s: Option<string>, def: int, lo: int, hi: int): (r: Result<Coerced>)
    ensures s.None? ==> r == Success(Parsed(def))
    ensures s.Some? && |Trim(s.value)| == 0 ==> r == Success(Parsed(def))
  {
    if s.None? then Success(Parsed(def))
    else
      var t0 := Trim(s.value);
      if |t0| == 0 then Success(Parsed(def))
      else
        var t := CoercionText(s.value);
        var from := if t0[0] != '+' && t0[0] == '-' then 1 else 0;
        if !DigitsFrom(t, from) then Success(ViaDouble(t))
        else
          match PlatformParse(t, lo, hi)
          case Success(v) => Success(Parsed(v))
          case Failure(Format) => Success(Parsed(def))
          case Failure(e) => Failure(e)
  }

  function ParseAsInt(s: Option<string>, def: int32): (r: Result<Coerced>)
    ensures s.None? || |Trim(s.value)| == 0 ==> r == Success(Parsed(def))
    ensures r.Success? && r.value.Parsed? ==> IsInt(r.value.v)
  {
    CoerceAsWritten(s, def, MIN_INT, MAX_INT)
  }

  function ParseAsLong(s: Option<string>, def: int64): (r: Result<Coerced>)
    ensures s.None? || |Trim(s.value)| == 0 ==> r == Success(Parsed(def))
    ensures r.Success? && r.value.Parsed? ==> IsLong(r.value.v)
  {
    CoerceAsWritten(s, def, MIN_LONG, MAX_LONG)
  }

  /** The coercion as intended (and as the Java original behaves): every
      parse failure of a digit run, overflow included, yields the default. */
  function Coerce(s: Option<string>, def: int, lo: int, hi: int): (r: Coerced)
    ensures CoerceAsWritten(s, def, lo, hi).Success? ==> r == CoerceAsWritten(s, def, lo, hi).value
    ensures CoerceAsWritten(s, def, lo, hi).Failure? ==> r == Parsed(def)
  {
    match CoerceAsWritten(s, def, lo, hi)
    case Success(c) => c
    case Failure(_) => Parsed(def)
  }

  function ParseAsIntIntended(s: Option<string>, def: int32): (r: Coerced)
    ensures s.None? || |Trim(s.value)| == 0 ==> r == Parsed(def)
    ensures r.Parsed? ==> IsInt(r.v)
  {
    Coerce(s, def, MIN_INT, MAX_INT)
  }

  function ParseAsLongIntended(s: Option<string>, def: int64): (r: Coerced)
    ensures s.None? || |Trim(s.value)| == 0 ==> r == Parsed(def)
    ensures r.Parsed? ==> IsLong(r.v)
  {
    Coerce(s, def, MIN_LONG, MAX_LONG)
  }

  /** Trimming and .NET white-space stripping leave a signed digit run unchanged. */
  lemma PlainText(s: string)
    requires |s| > 0 && !IsTrimmable(s[0]) && !IsTrimmable(s[|s| - 1])
    ensures Trim(s) == s && StripNetWhite(s) == s && CoercionText(s) == (if s[0] == '+' then s[1..] else s)
  {
    assert TrimStart(s) == 0;
    assert TrimEnd(s) == |s|;
  }

  /** The as-written coercion lets OverflowException escape on every digit
      run beyond the `int` range, e.g. "2147483648", where the intended one
      yields the default. */
  lemma ParseAsIntOverflowEscapes(v: nat, def: int32)
    requires v > MAX_INT
    ensures ParseAsInt(Some(Decimal(v)), def) == Failure(Overflow)
    ensures ParseAsIntIntended(Some(Decimal(v)), def) == Parsed(def)
  {
    DecimalOverflows(v, def, MIN_INT, MAX_INT);
  }

  /** The same for parseAsLong beyond the `long` range, e.g. "9223372036854775808". */
  lemma ParseAsLongOverflowEscapes(v: nat, def: int64)
    requires v > MAX_LONG
    ensures ParseAsLong(Some(Decimal(v)), def) == Failure(Overflow)
    ensures ParseAsLongIntended(Some(Decimal(v)), def) == Parsed(def)
  {
    DecimalOverflows(v, def, MIN_LONG, MAX_LONG);
  }

  /** A digit run above the upper bound escapes the as-written coercion. */
  lemma DecimalOverflows(v: nat, def: int, lo: int, hi: int)
    requires lo <= 0 <= hi < v
    ensures CoerceAsWritten(Some(Decimal(v)), def, lo, hi) == Failure(Overflow)
  {
    var s := Decimal(v);
    DecimalValue(v);
    PlainText(s);
  }

  /** What the intended coercion makes of an unsigned digit run: its value
      when that fits under the upper bound, and the default otherwise, so
      that an overflowing text reads as if it were blank. */
  lemma CoerceDecimal(v: nat, def: int, lo: int, hi: int)
    requires lo <= 0 <= hi
    ensures Coerce(Some(Decimal(v)), def, lo, hi) == Parsed(if v <= hi then v else def)
  {
    if v <= hi {
      assert SignedDecimal(v) == Decimal(v);
      CoercesSignedDecimal(v, def, lo, hi);
    } else {
      DecimalOverflows(v, def, lo, hi);
    }
  }

  /** Both coercions read back what NumberOutput prints. */
  lemma ParseAsIntRoundTrip(v: int32, def: int32)
    ensures ParseAsInt(Some(SignedDecimal(v)), def) == Success(Parsed(v))
    ensures ParseAsIntIntended(Some(SignedDecimal(v)), def) == Parsed(v)
  {
    CoercesSignedDecimal(v, def, MIN_INT, MAX_INT);
  }

  /** The same for `long` values. */
  lemma ParseAsLongRoundTrip(v: int64, def: int64)
    ensures ParseAsLong(Some(SignedDecimal(v)), def) == Success(Parsed(v))
    ensures ParseAsLongIntended(Some(SignedDecimal(v)), def) == Parsed(v)
  {
    CoercesSignedDecimal(v, def, MIN_LONG, MAX_LONG);
  }

  /** Both coercions read a printed value within their bounds back. */
  lemma CoercesSignedDecimal(w: int, def: int, lo: int, hi: int)
    requires lo <= w <= hi
    ensures CoerceAsWritten(Some(SignedDecimal(w)), def, lo, hi) == Success(Parsed(w))
  {
    var s := SignedDecimal(w);
    var mag: nat := if w < 0 then -w else w;
    DecimalValue(mag);
    PlainText(s);
    if w < 0 {
      assert s[1..] == Decimal(mag);
    }
    SignedDecimalParses(w, lo, hi);
  }

  /** parseInt reads back what toString(int) prints. */
  lemma ParseIntTextRoundTrip(v: int32)
    ensures ConvertToInt32(SignedDecimal(v)) == Success(v)
  {
    SignedDecimalParses(v, MIN_INT, MAX_INT);
  }

  /** parseLong reads back what toString(long) prints. */
  lemma ParseLongTextRoundTrip(v: int64)
    ensures ConvertToInt64(SignedDecimal(v)) == Success(v)
  {
    SignedDecimalParses(v, MIN_LONG, MAX_LONG);
  }

  /** The platform parser reads a printed value within its bounds back. */
  lemma SignedDecimalParses(w: int, lo: int, hi: int)
    requires lo <= w <= hi
    ensures PlatformParse(SignedDecimal(w), lo, hi) == Success(w)
  {
    var s := SignedDecimal(w);
    var mag: nat := if w < 0 then -w else w;
    DecimalValue(mag);
    PlainText(s);
    var digits := if s[0] == '-' || s[0] == '+' then s[1..] else s;
    if w < 0 {
      assert s[1..] == Decimal(mag);
    } else {
      assert s[0] != '-' && s[0] != '+';
    }
    assert digits == Decimal(mag);
  }
}
