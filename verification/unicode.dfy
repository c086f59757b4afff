/** UTF-16 surrogate pairs and UTF-8 byte sequences (RFC 3629 section 3).

  The encoders of the library turn C# strings (sequences of UTF-16 code
  units) into UTF-8.  This module holds the reference definitions they are
  proved against: decoding UTF-16 into code points, encoding one code point
  as UTF-8, and the inverse of each.  The source computes the UTF-8 bytes
  with shifts, masks and `|`; on the ranges involved these coincide with the
  division, remainder and addition used here.
 */
module Unicode {
  import opened Ints
  import opened Wrappers
  import CharTypes

  const SURR1_FIRST: int := 0xD800
  const SURR1_LAST: int := 0xDBFF
  const SURR2_FIRST: int := 0xDC00
  const SURR2_LAST: int := 0xDFFF
  const MAX_CODE_POINT: int := 0x10FFFF

  predicate IsHigh(c: int) { SURR1_FIRST <= c <= SURR1_LAST }
  predicate IsLow(c: int) { SURR2_FIRST <= c <= SURR2_LAST }
  predicate IsSurrogate(c: int) { SURR1_FIRST <= c <= SURR2_LAST }

  /** A Unicode scalar value: a code point that is not a surrogate. */
  predicate IsScalar(cp: int) { 0 <= cp <= MAX_CODE_POINT && !IsSurrogate(cp) }

  /** The code point of a surrogate pair: 0x10000 + ((hi - 0xD800) << 10) + (lo - 0xDC00). */
  function Combine(hi: int, lo: int): (cp: int)
    requires IsHigh(hi) && IsLow(lo)
    ensures 0x1_0000 <= cp <= MAX_CODE_POINT
  {
    0x1_0000 + (hi - SURR1_FIRST) * 0x400 + (lo - SURR2_FIRST)
  }

  /** The high and low surrogates of a supplementary code point. */
  function HighOf(cp: int): (hi: unit16)
    requires 0x1_0000 <= cp <= MAX_CODE_POINT
    ensures IsHigh(hi)
  {
    SURR1_FIRST + (cp - 0x1_0000) / 0x400
  }

  function LowOf(cp: int): (lo: unit16)
    requires 0x1_0000 <= cp <= MAX_CODE_POINT
    ensures IsLow(lo)
  {
    SURR2_FIRST + (cp - 0x1_0000) % 0x400
  }

  /** Splitting and combining are inverse, in both directions. */
  lemma CombineSplit(cp: int)
    requires 0x1_0000 <= cp <= MAX_CODE_POINT
    ensures Combine(HighOf(cp), LowOf(cp)) == cp
  {
  }

  lemma SplitCombine(hi: int, lo: int)
    requires IsHigh(hi) && IsLow(lo)
    ensures HighOf(Combine(hi, lo)) == hi && LowOf(Combine(hi, lo)) == lo
  {
    var d := (hi - SURR1_FIRST) * 0x400 + (lo - SURR2_FIRST);
    assert d / 0x400 == hi - SURR1_FIRST && d % 0x400 == lo - SURR2_FIRST;
  }

  // ---------------------------------------------------------------------
  // UTF-16

  /** The UTF-16 code units of a sequence of scalar values. */
  function Utf16(cps: seq<int>): (t: seq<unit16>)
    requires forall k :: 0 <= k < |cps| ==> IsScalar(cps[k])
  {
    if |cps| == 0 then []
    else
      var cp := cps[0];
      assert IsScalar(cp);
      if cp < 0x1_0000 then [cp as unit16] + Utf16(cps[1..])
      else [HighOf(cp), LowOf(cp)] + Utf16(cps[1..])
  }

  /** Decoding UTF-16: a high surrogate must be followed by a low one, and a
      low surrogate may only follow a high one; `None` otherwise. */
  function CodePoints(t: seq<unit16>): (r: Option<seq<int>>)
    ensures r.Some? ==> forall k :: 0 <= k < |r.value| ==> IsScalar(r.value[k])
    decreases |t|
  {
    if |t| == 0 then Some([])
    else if !IsSurrogate(t[0]) then PrependCps([t[0]], CodePoints(t[1..]))
    else if IsLow(t[0]) || |t| == 1 || !IsLow(t[1]) then None
    else PrependCps([Combine(t[0], t[1])], CodePoints(t[2..]))
  }

  function PrependCps(p: seq<int>, r: Option<seq<int>>): (q: Option<seq<int>>)
    ensures q.Some? <==> r.Some?
    ensures q.Some? ==> q.value == p + r.value
  {
    match r
    case Some(x) => Some(p + x)
    case None => None
  }

  lemma PrependEmpty(r: Option<seq<int>>)
    ensures PrependCps([], r) == r
  {
    if r.Some? {
      assert [] + r.value == r.value;
    }
  }

  lemma PrependTwice(p: seq<int>, q: seq<int>, r: Option<seq<int>>)
    ensures PrependCps(p, PrependCps(q, r)) == PrependCps(p + q, r)
  {
    if r.Some? {
      assert p + (q + r.value) == (p + q) + r.value;
    }
  }

  /** Units that are not surrogates decode to themselves, whatever follows. */
  lemma {:induction false} CodePointsPlainPrefix(p: seq<unit16>, rest: seq<unit16>)
    requires forall k :: 0 <= k < |p| ==> !IsSurrogate(p[k])
    ensures CodePoints(p + rest) == PrependCps(p, CodePoints(rest))
    decreases |p|
  {
    if |p| == 0 {
      assert p + rest == rest;
      if CodePoints(rest).Some? {
        assert p + CodePoints(rest).value == CodePoints(rest).value;
      }
    } else {
      assert (p + rest)[1..] == p[1..] + rest;
      CodePointsPlainPrefix(p[1..], rest);
      PrependTwice([p[0]], p[1..], CodePoints(rest));
      assert [p[0]] + p[1..] == p;
    }
  }

  /** A surrogate pair at the front decodes to its combination. */
  lemma CodePointsPairPrefix(t: seq<unit16>)
    requires |t| >= 2 && IsHigh(t[0]) && IsLow(t[1])
    ensures CodePoints(t) == PrependCps([Combine(t[0], t[1])], CodePoints(t[2..]))
  {
  }

  /** Decoding inverts encoding ... */
  lemma {:induction false} CodePointsOfUtf16(cps: seq<int>)
    requires forall k :: 0 <= k < |cps| ==> IsScalar(cps[k])
    ensures CodePoints(Utf16(cps)) == Some(cps)
  {
    if |cps| > 0 {
      var t := Utf16(cps);
      CodePointsOfUtf16(cps[1..]);
      if cps[0] < 0x1_0000 {
        assert t[1..] == Utf16(cps[1..]);
      } else {
        assert t[2..] == Utf16(cps[1..]);
        CombineSplit(cps[0]);
      }
      assert [cps[0]] + cps[1..] == cps;
    }
  }

  /** ... and encoding inverts decoding, so the two describe the same texts. */
  lemma {:induction false} Utf16OfCodePoints(t: seq<unit16>)
    requires CodePoints(t).Some?
    ensures Utf16(CodePoints(t).value) == t
    decreases |t|
  {
    if |t| > 0 {
      var cps := CodePoints(t).value;
      if !IsSurrogate(t[0]) {
        Utf16OfCodePoints(t[1..]);
        assert cps[1..] == CodePoints(t[1..]).value;
      } else {
        Utf16OfCodePoints(t[2..]);
        assert cps[1..] == CodePoints(t[2..]).value;
        SplitCombine(t[0], t[1]);
        assert t == [t[0], t[1]] + t[2..];
      }
    }
  }

  // ---------------------------------------------------------------------
  // UTF-8

  /** The UTF-8 bytes of one code point (surrogate code points included,
      which get the three-byte form). */
  function Utf8(cp: int): (b: seq<byte>)
    requires 0 <= cp <= MAX_CODE_POINT
    ensures |b| == (if cp < 0x80 then 1 else if cp < 0x800 then 2 else if cp < 0x1_0000 then 3 else 4)
  {
    if cp < 0x80 then [cp]
    else if cp < 0x800 then [0xC0 + cp / 0x40, 0x80 + cp % 0x40]
    else if cp < 0x1_0000 then [0xE0 + cp / 0x1000, 0x80 + (cp / 0x40) % 0x40, 0x80 + cp % 0x40]
    else [0xF0 + cp / 0x4_0000, 0x80 + (cp / 0x1000) % 0x40, 0x80 + (cp / 0x40) % 0x40, 0x80 + cp % 0x40]
  }

  /** The UTF-8 bytes of a sequence of code points, in order. */
  function Utf8Of(cps: seq<int>): (b: seq<byte>)
    requires forall k :: 0 <= k < |cps| ==> 0 <= cps[k] <= MAX_CODE_POINT
  {
    if |cps| == 0 then [] else Utf8Of(cps[..|cps| - 1]) + Utf8(cps[|cps| - 1])
  }

  lemma {:induction false} Utf8OfAppend(a: seq<int>, b: seq<int>)
    requires forall k :: 0 <= k < |a| ==> 0 <= a[k] <= MAX_CODE_POINT
    requires forall k :: 0 <= k < |b| ==> 0 <= b[k] <= MAX_CODE_POINT
    ensures Utf8Of(a + b) == Utf8Of(a) + Utf8Of(b)
    decreases |b|
  {
    if |b| == 0 {
      assert a + b == a;
    } else {
      assert (a + b)[..|a + b| - 1] == a + b[..|b| - 1];
      Utf8OfAppend(a, b[..|b| - 1]);
    }
  }

  /** ASCII code points are their own UTF-8 bytes. */
  lemma {:induction false} Utf8OfAscii(p: seq<int>)
    requires forall k :: 0 <= k < |p| ==> 0 <= p[k] < 0x80
    ensures Utf8Of(p) == p
  {
    if |p| > 0 {
      Utf8OfAscii(p[..|p| - 1]);
      assert p == p[..|p| - 1] + [p[|p| - 1]];
    }
  }

  predicate IsContinuation(b: int) { 0x80 <= b < 0xC0 }

  /** Decoding one complete UTF-8 sequence, with the length taken from the
      lead byte as the UTF-8 input table gives it. */
  function Utf8Decode(b: seq<byte>): (r: Option<int>)
  {
    if |b| == 0 then None
    else if b[0] < 0x80 then (if |b| == 1 then Some(b[0]) else None)
    else
      var n := CharTypes.Utf8LeadLength(b[0]);
      if n != |b| || exists k :: 1 <= k < |b| && !IsContinuation(b[k]) then None
      else
        var b0: int, b1: int := b[0], b[1];
        if n == 2 then Some((b0 - 0xC0) * 0x40 + (b1 - 0x80))
        else
          var b2: int := b[2];
          if n == 3 then Some(((b0 - 0xE0) * 0x40 + (b1 - 0x80)) * 0x40 + (b2 - 0x80))
          else
            var b3: int := b[3];
            Some((((b0 - 0xF0) * 0x40 + (b1 - 0x80)) * 0x40 + (b2 - 0x80)) * 0x40 + (b3 - 0x80))
  }

  /** Every encoded code point decodes back to itself. */
  lemma Utf8RoundTrip(cp: int)
    requires 0 <= cp <= MAX_CODE_POINT
    ensures Utf8Decode(Utf8(cp)) == Some(cp)
  {
    var b := Utf8(cp);
    if cp >= 0x1_0000 {
      assert cp / 0x1000 == (cp / 0x4_0000) * 0x40 + (cp / 0x1000) % 0x40;
      assert cp / 0x40 == (cp / 0x1000) * 0x40 + (cp / 0x40) % 0x40;
    } else if cp >= 0x800 {
      assert cp / 0x40 == (cp / 0x1000) * 0x40 + (cp / 0x40) % 0x40;
    }
  }

  /** The first byte of a multi-byte sequence is a lead byte whose table
      entry is the sequence length; the others are continuation bytes. */
  lemma Utf8LeadByte(cp: int)
    requires 0x80 <= cp <= MAX_CODE_POINT
    ensures CharTypes.Utf8LeadLength(Utf8(cp)[0]) == |Utf8(cp)|
    ensures CharTypes.InputCodeUtf8(Utf8(cp)[0]) == |Utf8(cp)|
    ensures forall k :: 1 <= k < |Utf8(cp)| ==> IsContinuation(Utf8(cp)[k])
  {
  }
}
