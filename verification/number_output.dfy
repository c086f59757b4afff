/** Decimal printing of C# `int` and `long` values (NumberOutput).

  The source writes digits into a caller's buffer and returns the new
  offset; the model returns the characters written, so the returned offset
  is the old one plus the length of the result.  Every printer is proved to
  produce the canonical decimal form `Ints.SignedDecimal`.
 */
module NumberOutput {
  import opened Ints

  const MILLION := 1_000_000
  const BILLION := 1_000_000_000

  /** `long.MinValue.ToString()`: written verbatim because it has no positive counterpart. */
  const SMALLEST_LONG: string := SignedDecimal(MIN_LONG)

  /** The three digits of a triplet `t` with leading zero digits left out
      (the LEAD_3 table, whose ignorable entries are the NUL char). */
  function Leading3(t: nat): (s: string)
    requires t < 1000
    ensures s == Decimal(t)
  {
    var d1, d2, d3 := t / 100, (t / 10) % 10, t % 10;
    Leading3Digits(t);
    (if d1 == 0 then [] else [DigitChar(d1)])
      + (if d1 == 0 && d2 == 0 then [] else [DigitChar(d2)])
      + [DigitChar(d3)]
  }

  /** The canonical form of a triplet is its three digits without leading zeros. */
  lemma Leading3Digits(t: nat)
    requires t < 1000
    ensures Decimal(t) == (if t / 100 == 0 then [] else [DigitChar(t / 100)])
      + (if t / 100 == 0 && (t / 10) % 10 == 0 then [] else [DigitChar((t / 10) % 10)])
      + [DigitChar(t % 10)]
  {
    if t >= 100 {
      assert Decimal(t / 10) == Decimal(t / 100) + [DigitChar((t / 10) % 10)];
    } else if t >= 10 {
      assert Decimal(t) == Decimal(t / 10) + [DigitChar(t % 10)];
    }
  }

  /** The three digits of a triplet `t`, zeros included (the FULL_3 table). */
  function Full3(t: nat): (s: string)
    requires t < 1000
    ensures |s| == 3 && AllDigits(s)
    ensures DigitValue(s[0]) == t / 100 && DigitValue(s[1]) == (t / 10) % 10 && DigitValue(s[2]) == t % 10
  {
    [DigitChar(t / 100), DigitChar((t / 10) % 10), DigitChar(t % 10)]
  }

  /** Appending a full triplet multiplies by a thousand and adds the triplet. */
  lemma Decimal3(x: nat, t: nat)
    requires x >= 1 && t < 1000
    ensures Decimal(x * 1000 + t) == Decimal(x) + Full3(t)
  {
    var n := x * 1000 + t;
    assert n / 10 == x * 100 + t / 10 && n % 10 == t % 10;
    assert (x * 100 + t / 10) / 10 == x * 10 + t / 100;
    assert (x * 100 + t / 10) % 10 == (t / 10) % 10;
    assert (x * 10 + t / 100) / 10 == x && (x * 10 + t / 100) % 10 == t / 100;
    assert Decimal(x * 10 + t / 100) == Decimal(x) + [DigitChar(t / 100)];
  }

  /** Six digits: a leading group followed by two full triplets. */
  lemma Decimal6(x: nat, t1: nat, t2: nat)
    requires x >= 1 && t1 < 1000 && t2 < 1000
    ensures Decimal((x * 1000 + t1) * 1000 + t2) == Decimal(x) + Full3(t1) + Full3(t2)
  {
    Decimal3(x, t1);
    Decimal3(x * 1000 + t1, t2);
  }

  /** Nine digits: a leading group followed by three full triplets. */
  lemma Decimal9(x: nat, t1: nat, t2: nat, t3: nat)
    requires x >= 1 && t1 < 1000 && t2 < 1000 && t3 < 1000
    ensures Decimal(((x * 1000 + t1) * 1000 + t2) * 1000 + t3)
         == Decimal(x) + Full3(t1) + Full3(t2) + Full3(t3)
  {
    Decimal6(x, t1, t2);
    Decimal3((x * 1000 + t1) * 1000 + t2, t3);
  }

  /** The digits outputInt writes after the sign, for `0 <= u <= int.MaxValue`. */
  method IntDigits(u: nat) returns (s: string)
    requires u <= MAX_INT
    ensures s == Decimal(u)
  {
    if u < MILLION {
      if u < 1000 {
        if u < 10 {
          s := [DigitChar(u)];
        } else {
          s := Leading3(u);
        }
      } else {
        var thousands := u / 1000;
        Decimal3(thousands, u - thousands * 1000);
        s := Leading3(thousands) + Full3(u - thousands * 1000);
      }
      return;
    }
    var hasBillions := u >= BILLION;
    var w := u;
    var lead: string := "";
    if hasBillions {
      w := w - BILLION;
      if w >= BILLION {
        w := w - BILLION;
        lead := "2";
      } else {
        lead := "1";
      }
    }
    var newValue := w / 1000;
    var ones := w - newValue * 1000;
    var rest := newValue;
    newValue := newValue / 1000;
    var thousands := rest - newValue * 1000;
    assert w == (newValue * 1000 + thousands) * 1000 + ones;
    if hasBillions {
      var billions := if lead == "2" then 2 else 1;
      assert u == ((billions * 1000 + newValue) * 1000 + thousands) * 1000 + ones;
      Decimal9(billions, newValue, thousands, ones);
      s := lead + Full3(newValue) + Full3(thousands) + Full3(ones);
    } else {
      Decimal6(newValue, thousands, ones);
      s := Leading3(newValue) + Full3(thousands) + Full3(ones);
    }
  }

  /** outputInt: the characters written for `v`. */
  method OutputInt(v: int32) returns (s: string)
    ensures s == SignedDecimal(v)
    decreases if v == MIN_INT then 2 else 0
  {
    if v < 0 {
      if v == MIN_INT {
        s := OutputLong(v);
        return;
      }
      s := IntDigits(-v);
      s := "-" + s;
    } else {
      s := IntDigits(v);
    }
  }

  /** calcLongStrLength: the digit count of a value that does not fit in an `int`. */
  method CalcLongStrLength(v: int) returns (len: nat)
    requires MAX_INT < v <= MAX_LONG
    ensures len == NumDigits(v)
    ensures 10 <= len <= 19
  {
    Pow10Values();
    NumDigitsAtLeast(v, 10);
    NumDigitsAtMost(v, 19);
    len := 10;
    var cmp := Pow10(10);
    while v >= cmp
      invariant 10 <= len <= NumDigits(v)
      invariant cmp == Pow10(len)
      decreases 19 - len
    {
      if len == 19 {
        break;
      }
      NumDigitsAtLeast(v, len + 1);
      len := len + 1;
      cmp := cmp * 10;
    }
    if v < cmp {
      NumDigitsAtMost(v, len);
    }
  }

  lemma Decimal3Length(x: nat, t: nat)
    requires x >= 1 && t < 1000
    ensures NumDigits(x * 1000 + t) == NumDigits(x) + 3
  {
    Decimal3(x, t);
    DecimalLength(x * 1000 + t);
    DecimalLength(x);
  }

  /** One round of outputLong's loops: writing the low triplet of `x` just
      before `ptr` keeps the digits of `v` split between `x` and the buffer. */
  lemma TripletStep(v: nat, x: nat, buf: string, ptr: nat)
    requires x >= 1000 && ptr == NumDigits(x) && ptr <= |buf|
    requires Decimal(v) == Decimal(x) + buf[ptr..]
    ensures ptr >= 3 && x / 1000 >= 1 && ptr - 3 == NumDigits(x / 1000)
    ensures var b := buf[..ptr - 3] + Full3(x % 1000) + buf[ptr..];
      |b| == |buf| && Decimal(v) == Decimal(x / 1000) + b[ptr - 3..]
  {
    SplitTriplet(x);
    var b := buf[..ptr - 3] + Full3(x % 1000) + buf[ptr..];
    assert b[ptr - 3..] == Full3(x % 1000) + buf[ptr..];
  }

  /** The digits of `x` are those of `x / 1000` and then its low triplet. */
  lemma SplitTriplet(x: nat)
    requires x >= 1000
    ensures x / 1000 >= 1 && NumDigits(x) == NumDigits(x / 1000) + 3
    ensures Decimal(x) == Decimal(x / 1000) + Full3(x % 1000)
  {
    var q, t := x / 1000, x % 1000;
    assert x == q * 1000 + t;
    Decimal3(q, t);
    Decimal3Length(q, t);
  }

  /** The digits of a positive value above `int.MaxValue`, written back to front
      into a region of `calcLongStrLength(v)` characters, as outputLong does. */
  method LongDigits(v: int) returns (s: string)
    requires MAX_INT < v <= MAX_LONG
    ensures s == Decimal(v)
  {
    var len := CalcLongStrLength(v);
    DecimalLength(v);
    var buf: string := seq(len, _ => '0');
    var ptr := len;
    var x: nat := v;
    while x > MAX_INT
      invariant 0 <= ptr <= len && |buf| == len
      invariant x >= 1 && ptr == NumDigits(x)
      invariant Decimal(v) == Decimal(x) + buf[ptr..]
    {
      var t := x % 1000;
      TripletStep(v, x, buf, ptr);
      ptr := ptr - 3;
      buf := buf[..ptr] + Full3(t) + buf[ptr + 3..];
      x := x / 1000;
    }
    while x >= 1000
      invariant 0 <= ptr <= len && |buf| == len
      invariant x >= 1 && ptr == NumDigits(x)
      invariant Decimal(v) == Decimal(x) + buf[ptr..]
    {
      var t := x % 1000;
      TripletStep(v, x, buf, ptr);
      ptr := ptr - 3;
      buf := buf[..ptr] + Full3(t) + buf[ptr + 3..];
      x := x / 1000;
    }
    var lead := Leading3(x);
    DecimalLength(x);
    s := lead + buf[ptr..];
  }

  /** outputLong: the characters written for `v`. */
  method OutputLong(v: int64) returns (s: string)
    ensures s == SignedDecimal(v)
    decreases 1
  {
    if v < 0 {
      if v > MIN_INT {
        s := OutputInt(v);
        return;
      }
      if v == MIN_LONG {
        s := SMALLEST_LONG;
        return;
      }
      s := LongDigits(-v);
      s := "-" + s;
    } else {
      if v <= MAX_INT {
        s := OutputInt(v);
        return;
      }
      s := LongDigits(v);
    }
  }

  const SMALL_INT_STRS: seq<string> := ["0", "1", "2", "3", "4", "5", "6", "7", "8", "9", "10"]
  const SMALL_INT_STRS2: seq<string> := ["-1", "-2", "-3", "-4", "-5", "-6", "-7", "-8", "-9", "-10"]

  /** toString(int): a table lookup for -10..10, the platform's formatting otherwise. */
  function ToStringInt(v: int32): (s: string)
    ensures s == SignedDecimal(v)
  {
    var w: int := v;
    if w < |SMALL_INT_STRS| && w >= 0 then
      SMALL_INT_STRS[w]
    else if w < |SMALL_INT_STRS| && -w - 1 < |SMALL_INT_STRS2| then
      SMALL_INT_STRS2[-w - 1]
    else
      SignedDecimal(v)
  }

  /** toString(long): values in `int` range go through the `int` table. */
  function ToStringLong(v: int64): (s: string)
    ensures s == SignedDecimal(v)
  {
    if MIN_INT <= v <= MAX_INT then ToStringInt(v) else SignedDecimal(v)
  }
}
