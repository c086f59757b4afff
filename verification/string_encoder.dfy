/** JSON string quoting and UTF-8 encoding (JsonStringEncoder).

  The source fills segments of a TextBuffer or ByteArrayBuilder; the model
  returns the whole output sequence, which is what `contentsAsArray` and
  `completeAndCoalesce` hand back.  Inputs are C# strings, i.e. sequences of
  UTF-16 code units.  The three encoders are proved against the reference
  definitions of CharTypes (escaping) and Unicode (UTF-16 decoding and UTF-8
  encoding): quoteAsUTF8 is exactly escaping followed by UTF-8 encoding.
 */
module StringEncoder {
  import opened Ints
  import opened Wrappers
  import opened CharTypes
  import opened Unicode

  /** _convert: the code point of a surrogate pair whose first half has
      already been checked; a second half outside DC00-DFFF is an error. */
  function ConvertPair(p1: int, p2: int): (r: Result<int>)
    requires IsHigh(p1)
    ensures r.Success? <==> IsLow(p2)
    ensures r.Success? ==>
      (0x1_0000 <= r.value <= MAX_CODE_POINT && HighOf(r.value) == p1 && LowOf(r.value) == p2)
    ensures r.Failure? ==> r.error.IllegalArgument?
  {
    if p2 < SURR2_FIRST || p2 > SURR2_LAST then
      Failure(IllegalArgument("Broken surrogate pair; illegal combination"))
    else
      SplitCombine(p1, p2);
      Success(0x1_0000 + (p1 - SURR1_FIRST) * 0x400 + (p2 - SURR2_FIRST))
  }

  /** _illegal for a lone surrogate. */
  const ILLEGAL_SURROGATE: Exc := IllegalArgument("Unmatched part of surrogate pair")

  // ---------------------------------------------------------------------
  // quoteAsString

  /** _appendNumeric: backslash, 'u', "00" and two hex digits of a control char. */
  function AppendNumeric(value: nat): (q: seq<unit16>)
    requires value < 256
    ensures |q| == 6
  {
    ['\\' as int, 'u' as int, '0' as int, '0' as int, HexChar(value / 16), HexChar(value % 16)]
  }

  /** _appendNamed: backslash and the short escape char. */
  function AppendNamed(esc: unit16): (q: seq<unit16>)
    ensures |q| == 2
  {
    ['\\' as int, esc]
  }

  /** quoteAsString: the JSON-escaped form of `input`. */
  method QuoteAsString(input: seq<unit16>) returns (out: seq<unit16>)
    ensures out == Escaped(input)
  {
    out := [];
    var inPtr := 0;
    while inPtr < |input|
      invariant 0 <= inPtr <= |input|
      invariant out == Escaped(input[..inPtr])
    {
      var c := input[inPtr];
      assert input[..inPtr + 1][..inPtr] == input[..inPtr];
      if !(c < 128 && OutputEscape(c) != 0) {
        out := out + [c];
      } else {
        var escCode := OutputEscape(c);
        var q := if escCode < 0 then AppendNumeric(c) else AppendNamed(escCode);
        out := out + q;
      }
      inPtr := inPtr + 1;
    }
    assert input[..inPtr] == input;
  }

  // ---------------------------------------------------------------------
  // encodeAsUTF8

  /** The bytes the encoders write for a unit that is not a surrogate:
      one byte up to 0x7F, two up to 0x7FF, three otherwise. */
  function PlainUnitBytes(c: unit16): (b: seq<byte>)
    requires !IsSurrogate(c)
    ensures b == Utf8(c)
  {
    if c <= 0x7F then [c]
    else if c < 0x800 then [0xC0 + c / 0x40, 0x80 + c % 0x40]
    else [0xE0 + c / 0x1000, 0x80 + (c / 0x40) % 0x40, 0x80 + c % 0x40]
  }

  /** The four bytes written for a combined surrogate pair. */
  function PairBytes(cp: int): (b: seq<byte>)
    requires 0x1_0000 <= cp <= MAX_CODE_POINT
    ensures b == Utf8(cp)
  {
    [0xF0 + cp / 0x4_0000, 0x80 + (cp / 0x1000) % 0x40, 0x80 + (cp / 0x40) % 0x40, 0x80 + cp % 0x40]
  }

  /** encodeAsUTF8: succeeds exactly on well-formed UTF-16 and then yields
      the UTF-8 encoding of its code points; a lone surrogate is an
      ArgumentException. */
  method EncodeAsUTF8(text: seq<unit16>) returns (r: Result<seq<byte>>)
    ensures r.Success? <==> CodePoints(text).Some?
    ensures r.Success? ==> r.value == Utf8Of(CodePoints(text).value)
    ensures r.Failure? ==> r.error.IllegalArgument?
  {
    var out: seq<byte> := [];
    ghost var cps: seq<int> := [];
    var inputPtr := 0;
    assert text[inputPtr..] == text;
    PrependEmpty(CodePoints(text));
    while inputPtr < |text|
      invariant 0 <= inputPtr <= |text|
      invariant forall k :: 0 <= k < |cps| ==> IsScalar(cps[k])
      invariant CodePoints(text) == PrependCps(cps, CodePoints(text[inputPtr..]))
      invariant out == Utf8Of(cps)
    {
      var c := text[inputPtr];
      var rest := text[inputPtr..];
      if !IsSurrogate(c) {
        assert rest[1..] == text[inputPtr + 1..];
        DecodeStep(text, inputPtr, cps, c, 1);
        out := out + PlainUnitBytes(c);
        cps := cps + [c];
        inputPtr := inputPtr + 1;
      } else {
        if c > SURR1_LAST {
          return Failure(ILLEGAL_SURROGATE);
        }
        if inputPtr + 1 >= |text| {
          return Failure(ILLEGAL_SURROGATE);
        }
        var conv := ConvertPair(c, text[inputPtr + 1]);
        if conv.Failure? {
          return Failure(conv.error);
        }
        var cp := conv.value;
        CodePointsPairPrefix(rest);
        assert rest[2..] == text[inputPtr + 2..];
        DecodeStep(text, inputPtr, cps, cp, 2);
        out := out + PairBytes(cp);
        cps := cps + [cp];
        inputPtr := inputPtr + 2;
      }
    }
    assert text[inputPtr..] == [];
    assert cps + [] == cps;
    r := Success(out);
  }

  /** One decoded code point moves from the undecoded rest to the decoded
      front, and its bytes extend the encoding of the front. */
  lemma DecodeStep(text: seq<unit16>, i: nat, cps: seq<int>, cp: int, width: nat)
    requires 1 <= width && i + width <= |text| && IsScalar(cp)
    requires forall k :: 0 <= k < |cps| ==> 0 <= cps[k] <= MAX_CODE_POINT && IsScalar(cps[k])
    requires CodePoints(text[i..]) == PrependCps([cp], CodePoints(text[i + width..]))
    requires CodePoints(text) == PrependCps(cps, CodePoints(text[i..]))
    ensures CodePoints(text) == PrependCps(cps + [cp], CodePoints(text[i + width..]))
    ensures var ext := cps + [cp];
      && (forall k :: 0 <= k < |ext| ==> IsScalar(ext[k]))
      && Utf8Of(ext) == Utf8Of(cps) + Utf8(cp)
  {
    PrependTwice(cps, [cp], CodePoints(text[i + width..]));
    var ext := cps + [cp];
    assert ext[..|cps|] == cps;
    assert forall k :: 0 <= k < |ext| ==> IsScalar(ext[k]) by {
      forall k | 0 <= k < |ext|
        ensures IsScalar(ext[k])
      {
        if k < |cps| {
          assert ext[k] == cps[k];
        }
      }
    }
  }

  // ---------------------------------------------------------------------
  // quoteAsUTF8

  /** _appendByte: the escape of an ASCII char as bytes; the branch for codes
      above 0xFF writes their high byte in hex instead of "00". */
  function AppendByte(ch: unit16, esc: int): (b: seq<byte>)
    requires 0 < esc < 128 || esc < 0
  {
    if esc < 0 then
      [ '\\' as int, 'u' as int ]
      + (if ch > 0xFF then [HexChar((ch / 256) / 16), HexChar((ch / 256) % 16)]
         else ['0' as int, '0' as int])
      + [HexChar((ch % 256) / 16), HexChar((ch % 256) % 16)]
    else ['\\' as int, esc]
  }

  /** The bytes quoteAsUTF8 writes for a unit that is not a surrogate: the
      UTF-8 encoding of the unit's escape. */
  function QuotedUnitBytes(c: unit16): (b: seq<byte>)
    requires !IsSurrogate(c)
    ensures forall k :: 0 <= k < |EscapeSeq(c)| ==> !IsSurrogate(EscapeSeq(c)[k])
    ensures b == Utf8Of(EscapeSeq(c))
  {
    if c > 0x7F || OutputEscape(c) == 0 then
      UnescapedBytes(c);
      PlainUnitBytes(c)
    else
      var b := AppendByte(c, OutputEscape(c));
      EscapedBytes(c);
      b
  }

  /** A unit written as itself is its own UTF-8 encoding. */
  lemma UnescapedBytes(c: unit16)
    requires !IsSurrogate(c) && (c > 0x7F || OutputEscape(c) == 0)
    ensures forall k :: 0 <= k < |EscapeSeq(c)| ==> !IsSurrogate(EscapeSeq(c)[k])
    ensures PlainUnitBytes(c) == Utf8Of(EscapeSeq(c))
  {
    assert EscapeSeq(c) == [c];
    assert Utf8Of([c]) == Utf8Of([]) + Utf8(c) by {
      assert [c][..0] == [];
    }
  }

  /** An escaped ASCII unit is written byte for byte. */
  lemma EscapedBytes(c: unit16)
    requires c <= 0x7F && OutputEscape(c) != 0
    ensures forall k :: 0 <= k < |EscapeSeq(c)| ==> !IsSurrogate(EscapeSeq(c)[k])
    ensures AppendByte(c, OutputEscape(c)) == Utf8Of(EscapeSeq(c))
  {
    AppendByteEscapes(c);
    EscapeIsAscii(c);
    Utf8OfAscii(EscapeSeq(c));
  }

  /** For an ASCII unit, _appendByte writes the unit's escape. */
  lemma AppendByteEscapes(c: unit16)
    requires c <= 0x7F && OutputEscape(c) != 0
    ensures AppendByte(c, OutputEscape(c)) == EscapeSeq(c)
  {
    assert c % 256 == c;
  }

  /** The escape of a unit that needs one is ASCII. */
  lemma EscapeIsAscii(c: unit16)
    requires c <= 0x7F && OutputEscape(c) != 0
    ensures forall k :: 0 <= k < |EscapeSeq(c)| ==> 0 <= EscapeSeq(c)[k] < 0x80
  {
    EscapeSeqShape(c);
  }

  /** Decoding the escaped text consumes a plain unit's escape ... */
  lemma QuotePlainStep(rest: seq<unit16>)
    requires |rest| > 0 && !IsSurrogate(rest[0])
    ensures forall k :: 0 <= k < |EscapeSeq(rest[0])| ==> IsScalar(EscapeSeq(rest[0])[k])
    ensures CodePoints(Escaped(rest)) == PrependCps(EscapeSeq(rest[0]), CodePoints(Escaped(rest[1..])))
    ensures CodePoints(rest) == PrependCps([rest[0]], CodePoints(rest[1..]))
  {
    EscapedCons(rest);
    var esc := EscapeSeq(rest[0]);
    var _ := QuotedUnitBytes(rest[0]);
    CodePointsPlainPrefix(esc, Escaped(rest[1..]));
  }

  /** ... and a surrogate pair, which escaping leaves alone. */
  lemma QuotePairStep(rest: seq<unit16>)
    requires |rest| >= 2 && IsHigh(rest[0]) && IsLow(rest[1])
    ensures CodePoints(Escaped(rest)) == PrependCps([Combine(rest[0], rest[1])], CodePoints(Escaped(rest[2..])))
    ensures CodePoints(rest) == PrependCps([Combine(rest[0], rest[1])], CodePoints(rest[2..]))
  {
    EscapedKeepsPair(rest);
    CodePointsPairPrefix(rest);
    CodePointsPairPrefix(Escaped(rest));
  }

  /** Escaping copies a leading surrogate pair as it is. */
  lemma EscapedKeepsPair(rest: seq<unit16>)
    requires |rest| >= 2 && IsHigh(rest[0]) && IsLow(rest[1])
    ensures var e := Escaped(rest);
      |e| >= 2 && e[0] == rest[0] && e[1] == rest[1] && e[2..] == Escaped(rest[2..])
  {
    NeedsEscapeExactly(rest[0]);
    NeedsEscapeExactly(rest[1]);
    EscapedPlainHead(rest);
    EscapedPlainHead(rest[1..]);
    assert rest[1..][1..] == rest[2..];
  }

  /** A lone surrogate stays lone after escaping. */
  lemma QuoteBadStep(rest: seq<unit16>)
    requires |rest| > 0 && IsSurrogate(rest[0])
    requires IsLow(rest[0]) || |rest| == 1 || !IsLow(rest[1])
    ensures CodePoints(rest).None? && CodePoints(Escaped(rest)).None?
  {
    EscapedCons(rest);
    var e := Escaped(rest);
    LoneSurrogate(rest);
    if |rest| > 1 {
      EscapedCons(rest[1..]);
      assert e[1] == EscapeSeq(rest[1])[0];
    } else {
      assert rest[1..] == [];
      assert e == [rest[0]];
    }
    LoneSurrogate(e);
  }

  /** A leading surrogate that does not open a pair makes the text undecodable. */
  lemma LoneSurrogate(t: seq<unit16>)
    requires |t| > 0 && IsSurrogate(t[0])
    requires IsLow(t[0]) || |t| == 1 || !IsLow(t[1])
    ensures CodePoints(t).None?
  {
  }

  /** The loop invariant of quoteAsUTF8: `raw` are the code points of the
      units consumed so far, `cps` those of their escapes, `out` the bytes. */
  ghost predicate QuoteInv(text: seq<unit16>, i: nat, cps: seq<int>, raw: seq<int>, out: seq<byte>)
    requires i <= |text|
  {
    (forall k :: 0 <= k < |cps| ==> IsScalar(cps[k]))
    && CodePoints(text) == PrependCps(raw, CodePoints(text[i..]))
    && CodePoints(Escaped(text)) == PrependCps(cps, CodePoints(Escaped(text[i..])))
    && out == Utf8Of(cps)
  }

  lemma QuotePlainAdvance(text: seq<unit16>, i: nat, cps: seq<int>, raw: seq<int>, out: seq<byte>)
    requires i < |text| && !IsSurrogate(text[i]) && QuoteInv(text, i, cps, raw, out)
    ensures QuoteInv(text, i + 1, cps + EscapeSeq(text[i]), raw + [text[i]], out + QuotedUnitBytes(text[i]))
  {
    var rest := text[i..];
    assert rest[1..] == text[i + 1..];
    QuotePlainStep(rest);
    var esc := EscapeSeq(text[i]);
    PrependTwice(cps, esc, CodePoints(Escaped(rest[1..])));
    PrependTwice(raw, [text[i]], CodePoints(rest[1..]));
    Utf8OfAppend(cps, esc);
  }

  lemma QuotePairAdvance(text: seq<unit16>, i: nat, cps: seq<int>, raw: seq<int>, out: seq<byte>)
    requires i + 1 < |text| && IsHigh(text[i]) && IsLow(text[i + 1]) && QuoteInv(text, i, cps, raw, out)
    ensures var cp := Combine(text[i], text[i + 1]);
      QuoteInv(text, i + 2, cps + [cp], raw + [cp], out + PairBytes(cp))
  {
    var rest := text[i..];
    var cp := Combine(text[i], text[i + 1]);
    QuotePairStep(rest);
    assert rest[2..] == text[i + 2..];
    PrependTwice(cps, [cp], CodePoints(Escaped(rest[2..])));
    PrependTwice(raw, [cp], CodePoints(rest[2..]));
    assert (cps + [cp])[..|cps|] == cps;
  }

  lemma QuoteBadAdvance(text: seq<unit16>, i: nat, cps: seq<int>, raw: seq<int>, out: seq<byte>)
    requires i < |text| && IsSurrogate(text[i]) && QuoteInv(text, i, cps, raw, out)
    requires IsLow(text[i]) || i + 1 == |text| || !IsLow(text[i + 1])
    ensures CodePoints(text).None? && CodePoints(Escaped(text)).None?
  {
    QuoteBadStep(text[i..]);
  }

  lemma QuoteStart(text: seq<unit16>)
    ensures QuoteInv(text, 0, [], [], [])
  {
    assert text[0..] == text;
    PrependEmpty(CodePoints(text));
    PrependEmpty(CodePoints(Escaped(text)));
  }

  lemma QuoteFinish(text: seq<unit16>, cps: seq<int>, raw: seq<int>, out: seq<byte>)
    requires QuoteInv(text, |text|, cps, raw, out)
    ensures CodePoints(text) == Some(raw) && CodePoints(Escaped(text)) == Some(cps)
    ensures out == Utf8Of(cps)
  {
    assert text[|text|..] == [];
    assert Escaped([]) == [];
    assert cps + [] == cps;
    assert raw + [] == raw;
  }

  /** quoteAsUTF8: exactly escaping followed by UTF-8 encoding.  It succeeds
      on the same inputs as encodeAsUTF8, since escapes only touch ASCII. */
  method QuoteAsUTF8(text: seq<unit16>) returns (r: Result<seq<byte>>)
    ensures r.Success? <==> CodePoints(text).Some?
    ensures CodePoints(text).Some? <==> CodePoints(Escaped(text)).Some?
    ensures r.Success? ==> r.value == Utf8Of(CodePoints(Escaped(text)).value)
    ensures r.Failure? ==> r.error.IllegalArgument?
  {
    var out: seq<byte> := [];
    ghost var cps: seq<int> := [];
    ghost var raw: seq<int> := [];
    var inputPtr := 0;
    QuoteStart(text);
    while inputPtr < |text|
      invariant 0 <= inputPtr <= |text|
      invariant QuoteInv(text, inputPtr, cps, raw, out)
    {
      var c := text[inputPtr];
      if !IsSurrogate(c) {
        QuotePlainAdvance(text, inputPtr, cps, raw, out);
        out := out + QuotedUnitBytes(c);
        cps := cps + EscapeSeq(c);
        raw := raw + [c];
        inputPtr := inputPtr + 1;
      } else {
        if c > SURR1_LAST {
          QuoteBadAdvance(text, inputPtr, cps, raw, out);
          return Failure(ILLEGAL_SURROGATE);
        }
        if inputPtr + 1 >= |text| {
          QuoteBadAdvance(text, inputPtr, cps, raw, out);
          return Failure(ILLEGAL_SURROGATE);
        }
        var conv := ConvertPair(c, text[inputPtr + 1]);
        if conv.Failure? {
          QuoteBadAdvance(text, inputPtr, cps, raw, out);
          return Failure(conv.error);
        }
        var cp := conv.value;
        QuotePairAdvance(text, inputPtr, cps, raw, out);
        out := out + PairBytes(cp);
        cps := cps + [cp];
        raw := raw + [cp];
        inputPtr := inputPtr + 2;
      }
    }
    QuoteFinish(text, cps, raw, out);
    r := Success(out);
  }
}
