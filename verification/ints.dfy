/** C# primitive widths and decimal digits.

  Dafny integers are unbounded; the C# `int`, `long`, `short`, `byte` and
  `char` ranges, the two's-complement narrowing casts and the decimal digit
  strings the number codecs read and write are defined here once.
 */
module Ints {

  const MIN_INT: int := -0x8000_0000
  const MAX_INT: int := 0x7FFF_FFFF
  const MIN_LONG: int := -0x8000_0000_0000_0000
  const MAX_LONG: int := 0x7FFF_FFFF_FFFF_FFFF

  predicate IsInt(x: int) { MIN_INT <= x <= MAX_INT }
  predicate IsLong(x: int) { MIN_LONG <= x <= MAX_LONG }

  type int32 = x: int | MIN_INT <= x <= MAX_INT
  type int64 = x: int | MIN_LONG <= x <= MAX_LONG

  /** A C# `byte`: unsigned, 0..255. */
  type byte = x: int | 0 <= x < 0x100

  /** A C# `char`: one UTF-16 code unit, surrogates included. */
  type unit16 = x: int | 0 <= x < 0x1_0000

  /** The C# `(int)` cast of a wider integer: keep the low 32 bits, two's complement. */
  function ToInt32(x: int): (r: int32)
    ensures (r - x) % 0x1_0000_0000 == 0
    ensures IsInt(x) ==> r == x
  {
    var m := x % 0x1_0000_0000;
    if m > MAX_INT then m - 0x1_0000_0000 else m
  }

  /** The C# `(long)` cast: keep the low 64 bits, two's complement. */
  function ToInt64(x: int): (r: int64)
    ensures (r - x) % 0x1_0000_0000_0000_0000 == 0
    ensures IsLong(x) ==> r == x
  {
    var m := x % 0x1_0000_0000_0000_0000;
    if m > MAX_LONG then m - 0x1_0000_0000_0000_0000 else m
  }

  /** A Dafny string literal of ASCII (or other BMP, non-surrogate) chars as C# code units. */
  function Units(s: string): (u: seq<unit16>)
    requires forall i :: 0 <= i < |s| ==> (s[i] as int) < 0x1_0000
    ensures |u| == |s| && forall i :: 0 <= i < |s| ==> u[i] == s[i] as int
  {
    seq(|s|, i requires 0 <= i < |s| => s[i] as int)
  }

  // ---------------------------------------------------------------------
  // ASCII digits

  predicate IsDigit(c: char) { '0' <= c <= '9' }

  predicate AllDigits(s: string) { forall i :: 0 <= i < |s| ==> IsDigit(s[i]) }

  function DigitValue(c: char): (r: nat)
    requires IsDigit(c)
    ensures r < 10
  {
    (c as int) - ('0' as int)
  }

  function DigitChar(d: nat): (c: char)
    requires d < 10
    ensures IsDigit(c) && DigitValue(c) == d
  {
    (('0' as int) + d) as char
  }

  /** The number a string of decimal digits denotes, most significant first. */
  function DigitsValue(s: string): (r: nat)
    requires AllDigits(s)
  {
    if |s| == 0 then 0 else 10 * DigitsValue(s[..|s| - 1]) + DigitValue(s[|s| - 1])
  }

  /** The canonical decimal form of `n`: no leading zero, "0" for zero. */
  function Decimal(n: nat): (s: string)
    ensures AllDigits(s) && |s| > 0
  {
    if n < 10 then [DigitChar(n)] else Decimal(n / 10) + [DigitChar(n % 10)]
  }

  /** The canonical decimal form of a signed value, as `Int32.ToString()` prints it. */
  function SignedDecimal(v: int): (s: string)
  {
    if v < 0 then "-" + Decimal(-v) else Decimal(v)
  }

  /** Number of digits of `n` in decimal. */
  function NumDigits(n: nat): (k: nat)
    ensures k >= 1
  {
    if n < 10 then 1 else 1 + NumDigits(n / 10)
  }

  function Pow10(k: nat): (p: nat)
    ensures p >= 1
  {
    if k == 0 then 1 else 10 * Pow10(k - 1)
  }

  lemma {:induction false} DecimalLength(n: nat)
    ensures |Decimal(n)| == NumDigits(n)
  {
    if n >= 10 {
      DecimalLength(n / 10);
    }
  }

  /** `Decimal` and `DigitsValue` are inverse: the canonical form denotes `n`. */
  lemma {:induction false} DecimalValue(n: nat)
    ensures DigitsValue(Decimal(n)) == n
  {
    if n >= 10 {
      var s := Decimal(n);
      assert s[..|s| - 1] == Decimal(n / 10);
      DecimalValue(n / 10);
    }
  }

  /** The canonical form never starts with a zero, except for zero itself. */
  lemma {:induction false} DecimalNoLeadingZero(n: nat)
    ensures Decimal(n)[0] == '0' <==> n == 0
  {
    if n >= 10 {
      DecimalNoLeadingZero(n / 10);
    }
  }

  /** `NumDigits(n) == k` exactly when `n` lies in `[10^(k-1), 10^k)`. */
  lemma {:induction false} NumDigitsBounds(n: nat)
    ensures n < Pow10(NumDigits(n))
    ensures NumDigits(n) > 1 ==> Pow10(NumDigits(n) - 1) <= n
  {
    if n >= 10 {
      NumDigitsBounds(n / 10);
    }
  }

  lemma {:induction false} DigitsValueAppend(a: string, b: string)
    requires AllDigits(a) && AllDigits(b)
    ensures AllDigits(a + b)
    ensures DigitsValue(a + b) == DigitsValue(a) * Pow10(|b|) + DigitsValue(b)
    decreases |b|
  {
    assert AllDigits(a + b);
    if |b| > 0 {
      var ab := a + b;
      var b' := b[..|b| - 1];
      assert ab[..|ab| - 1] == a + b';
      assert ab[|ab| - 1] == b[|b| - 1];
      DigitsValueAppend(a, b');
      var x, y, p := DigitsValue(a), DigitsValue(b'), Pow10(|b'|);
      assert DigitsValue(ab) == 10 * (x * p + y) + DigitValue(b[|b| - 1]);
      assert 10 * (x * p) == x * (10 * p) by {
        MulAssoc(x, p);
      }
    } else {
      assert a + b == a;
    }
  }

  lemma MulAssoc(x: int, p: int)
    ensures 10 * (x * p) == x * (10 * p)
  {
  }

  /** The value of a digit string is below `10^|s|`. */
  lemma {:induction false} DigitsValueBound(s: string)
    requires AllDigits(s)
    ensures DigitsValue(s) < Pow10(|s|)
  {
    if |s| > 0 {
      DigitsValueBound(s[..|s| - 1]);
    }
  }

  lemma Pow10Values()
    ensures Pow10(9) == 1_000_000_000
    ensures Pow10(10) == 10_000_000_000
    ensures Pow10(18) == 1_000_000_000_000_000_000
    ensures Pow10(19) == 10_000_000_000_000_000_000
  {
  }

  lemma {:induction false} Pow10Monotone(i: nat, j: nat)
    requires i <= j
    ensures Pow10(i) <= Pow10(j)
  {
    if i < j {
      Pow10Monotone(i, j - 1);
    }
  }

  /** A value of at least 10^(k-1) has at least k digits. */
  lemma {:induction false} NumDigitsAtLeast(v: nat, k: nat)
    requires k >= 1 && v >= Pow10(k - 1)
    ensures NumDigits(v) >= k
  {
    if k > 1 {
      NumDigitsAtLeast(v / 10, k - 1);
    }
  }

  /** A value below 10^k has at most k digits. */
  lemma {:induction false} NumDigitsAtMost(v: nat, k: nat)
    requires k >= 1 && v < Pow10(k)
    ensures NumDigits(v) <= k
  {
    if v >= 10 {
      NumDigitsAtMost(v / 10, k - 1);
    }
  }
}
