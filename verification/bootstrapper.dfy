/** Byte-source bootstrapping (ByteSourceJsonBootstrapper, JsonEncoding):
  which Unicode encoding a byte stream uses, and whether it looks like JSON
  at all.

  Encoding detection looks at the first four bytes (two, if that is all
  there is): a byte-order mark decides outright; otherwise the zero bytes
  that an ASCII character leaves in UTF-16 and UTF-32 give the encoding
  away; when nothing matches the input is UTF-8.  The input is the bytes the
  source can deliver, so `ensureLoaded(n)` holds when there are `n` of them.

  The format check reads the first bytes the way a format detector hands
  them out and grades the match.  Its verdict is proved never to change
  once it is conclusive, however much more input follows.
 */
module Bootstrapper {
  import opened Ints
  import opened Wrappers
  import opened DataFormat

  // ---------------------------------------------------------------------
  // Encodings

  /** JsonEncoding.  Its constructor stores the name, byte order and width in
      per-instance fields in intent; the accessors below give each constant
      its own values. */
  datatype JsonEncoding = UTF8 | UTF16_BE | UTF16_LE | UTF32_BE | UTF32_LE

  function JavaName(e: JsonEncoding): string
  {
    match e
    case UTF8 => "UTF-8"
    case UTF16_BE => "UTF-16BE"
    case UTF16_LE => "UTF-16LE"
    case UTF32_BE => "UTF-32BE"
    case UTF32_LE => "UTF-32LE"
  }

  predicate IsBigEndian(e: JsonEncoding)
  {
    e == UTF16_BE || e == UTF32_BE
  }

  function Bits(e: JsonEncoding): nat
  {
    match e
    case UTF8 => 8
    case UTF16_BE => 16
    case UTF16_LE => 16
    case UTF32_BE => 32
    case UTF32_LE => 32
  }

  const UTF8_BOM_1: byte := 0xEF
  const UTF8_BOM_2: byte := 0xBB
  const UTF8_BOM_3: byte := 0xBF

  /** What detection learns: bytes per char and byte order. */
  datatype Layout = Layout(bytesPerChar: nat, bigEndian: bool)

  /** A byte-order mark found: the layout and how many bytes it occupies. */
  datatype Mark = Mark(layout: Layout, length: nat)

  /** handleBOM on the first four bytes, most significant first: the 32-bit
      marks, then the two unsupported UCS-4 byte orders (which are
      refused), then the 16-bit marks in the top half, then the UTF-8 mark in
      the top three bytes. */
  function HandleBom(q: seq<byte>): (r: Result<Option<Mark>>)
    requires |q| == 4
    ensures r.Failure? <==> q == [0, 0, 0xFF, 0xFE] || q == [0xFE, 0xFF, 0, 0]
    ensures r.Failure? ==> r.error.IOFailure?
    ensures r.Success? && r.value.Some? ==>
      r.value.value.length <= 4 && r.value.value.layout.bytesPerChar in {1, 2, 4}
  {
    if q == [0, 0, 0xFE, 0xFF] then Success(Some(Mark(Layout(4, true), 4)))
    else if q == [0xFF, 0xFE, 0, 0] then Success(Some(Mark(Layout(4, false), 4)))
    else if q == [0, 0, 0xFF, 0xFE] then Failure(IOFailure("Unsupported UCS-4 endianness (2143) detected"))
    else if q == [0xFE, 0xFF, 0, 0] then Failure(IOFailure("Unsupported UCS-4 endianness (3412) detected"))
    else if q[0] == 0xFE && q[1] == 0xFF then Success(Some(Mark(Layout(2, true), 2)))
    else if q[0] == 0xFF && q[1] == 0xFE then Success(Some(Mark(Layout(2, false), 2)))
    else if q[..3] == [UTF8_BOM_1, UTF8_BOM_2, UTF8_BOM_3] then Success(Some(Mark(Layout(1, true), 3)))
    else Success(None)
  }

  /** checkUTF32: a quad with a single non-zero byte, the last (big-endian) or
      the first (little-endian), is UTF-32; one whose only non-zero byte is
      the second or the third is UTF-32 in an unsupported order. */
  function CheckUtf32(q: seq<byte>): (r: Result<Option<Layout>>)
    requires |q| == 4
    ensures r.Failure? <==> q[0] == 0 && q[3] == 0 && (q[1] == 0) != (q[2] == 0)
    ensures r.Success? && r.value.Some? ==> r.value.value.bytesPerChar == 4
  {
    if q[0] == 0 && q[1] == 0 && q[2] == 0 then Success(Some(Layout(4, true)))
    else if q[1] == 0 && q[2] == 0 && q[3] == 0 then Success(Some(Layout(4, false)))
    else if q[0] == 0 && q[2] == 0 && q[3] == 0 then Failure(IOFailure("Unsupported UCS-4 endianness (3412) detected"))
    else if q[0] == 0 && q[1] == 0 && q[3] == 0 then Failure(IOFailure("Unsupported UCS-4 endianness (2143) detected"))
    else Success(None)
  }

  /** checkUTF16: a zero high byte means big-endian, a zero low byte
      little-endian. */
  function CheckUtf16(hi: byte, lo: byte): (r: Option<Layout>)
    ensures r.Some? <==> hi == 0 || lo == 0
    ensures r.Some? ==> r.value == Layout(2, hi == 0)
  {
    if hi == 0 then Some(Layout(2, true))
    else if lo == 0 then Some(Layout(2, false))
    else None
  }

  /** The switch on bytes per char that names the encoding. */
  function EncodingOf(layout: Layout): (e: JsonEncoding)
    requires layout.bytesPerChar in {1, 2, 4}
    ensures Bits(e) == 8 * layout.bytesPerChar
    ensures layout.bytesPerChar > 1 ==> (IsBigEndian(e) <==> layout.bigEndian)
  {
    if layout.bytesPerChar == 1 then UTF8
    else if layout.bytesPerChar == 2 then (if layout.bigEndian then UTF16_BE else UTF16_LE)
    else if layout.bigEndian then UTF32_BE else UTF32_LE
  }

  /** The detected encoding and the length of the byte-order mark to skip. */
  datatype Detected = Detected(encoding: JsonEncoding, markLength: nat)

  /** detectEncoding over the bytes the source can deliver. */
  function DetectEncoding(input: seq<byte>): (r: Result<Detected>)
    ensures r.Success? ==> r.value.markLength <= |input|
    ensures |input| < 2 ==> r == Success(Detected(UTF8, 0))
    ensures r.Failure? ==> r.error.IOFailure? && |input| >= 4
  {
    if |input| >= 4 then
      var q := input[..4];
      var mark :- HandleBom(q);
      if mark.Some? then Success(Detected(EncodingOf(mark.value.layout), mark.value.length))
      else
        var wide :- CheckUtf32(q);
        if wide.Some? then Success(Detected(EncodingOf(wide.value), 0))
        else
          var narrow := CheckUtf16(q[0], q[1]);
          if narrow.Some? then Success(Detected(EncodingOf(narrow.value), 0))
          else Success(Detected(UTF8, 0))
    else if |input| >= 2 then
      var narrow := CheckUtf16(input[0], input[1]);
      if narrow.Some? then Success(Detected(EncodingOf(narrow.value), 0))
      else Success(Detected(UTF8, 0))
    else Success(Detected(UTF8, 0))
  }

  // ---------------------------------------------------------------------
  // Partner: how JSON text in each encoding begins

  /** A character JSON text can start with or continue with: 7-bit and not
      NUL. */
  predicate IsAscii(c: byte)
  {
    0 < c < 0x80
  }

  /** One ASCII character in the given encoding. */
  function EncodeChar(e: JsonEncoding, c: byte): (bytes: seq<byte>)
    ensures |bytes| == Bits(e) / 8
  {
    match e
    case UTF8 => [c]
    case UTF16_BE => [0, c]
    case UTF16_LE => [c, 0]
    case UTF32_BE => [0, 0, 0, c]
    case UTF32_LE => [c, 0, 0, 0]
  }

  /** ASCII text in the given encoding. */
  function Encode(e: JsonEncoding, text: seq<byte>): (bytes: seq<byte>)
    ensures |bytes| == |text| * (Bits(e) / 8)
  {
    if |text| == 0 then [] else EncodeChar(e, text[0]) + Encode(e, text[1..])
  }

  /** The byte-order mark of each encoding. */
  function Bom(e: JsonEncoding): seq<byte>
  {
    match e
    case UTF8 => [UTF8_BOM_1, UTF8_BOM_2, UTF8_BOM_3]
    case UTF16_BE => [0xFE, 0xFF]
    case UTF16_LE => [0xFF, 0xFE]
    case UTF32_BE => [0, 0, 0xFE, 0xFF]
    case UTF32_LE => [0xFF, 0xFE, 0, 0]
  }

  /** UTF-8 leaves ASCII text as it is. */
  lemma {:induction false} EncodeUtf8(text: seq<byte>)
    ensures Encode(UTF8, text) == text
  {
    if |text| > 0 {
      EncodeUtf8(text[1..]);
      assert text == [text[0]] + text[1..];
    }
  }

  /** Text of at least two ASCII characters, without a mark, is detected as
      the encoding it was written in. */
  lemma DetectsUnmarkedText(e: JsonEncoding, text: seq<byte>)
    requires |text| >= 2 && IsAscii(text[0]) && IsAscii(text[1])
    requires e == UTF8 && |text| >= 4 ==> IsAscii(text[2]) && IsAscii(text[3])
    ensures DetectEncoding(Encode(e, text)) == Success(Detected(e, 0))
  {
    var bytes := Encode(e, text);
    if e == UTF8 {
      EncodeUtf8(text);
    } else {
      WideHead(e, text);
      var head := EncodeChar(e, text[0]) + EncodeChar(e, text[1]);
      DetectsByHead(bytes);
      DetectsWideHead(e, text[0], text[1]);
      assert bytes[..4] == head[..4];
    }
  }

  /** Detection only looks at the first four bytes. */
  lemma DetectsByHead(input: seq<byte>)
    requires |input| >= 4
    ensures DetectEncoding(input) == DetectEncoding(input[..4])
  {
    assert input[..4][..4] == input[..4];
  }

  /** The first four bytes of two ASCII characters in a wide encoding are
      detected as that encoding. */
  lemma DetectsWideHead(e: JsonEncoding, a: byte, b: byte)
    requires e != UTF8 && IsAscii(a) && IsAscii(b)
    ensures var head := EncodeChar(e, a) + EncodeChar(e, b);
      |head| >= 4 && DetectEncoding(head[..4]) == Success(Detected(e, 0))
  {
    var head := EncodeChar(e, a) + EncodeChar(e, b);
    match e
    case UTF16_BE => assert head[..4] == [0, a, 0, b]; DetectsHead(e, [0, a, 0, b]);
    case UTF16_LE => assert head[..4] == [a, 0, b, 0]; DetectsHead(e, [a, 0, b, 0]);
    case UTF32_BE => assert head[..4] == [0, 0, 0, a]; DetectsHead(e, [0, 0, 0, a]);
    case UTF32_LE => assert head[..4] == [a, 0, 0, 0]; DetectsHead(e, [a, 0, 0, 0]);
  }

  /** The four head patterns of unmarked wide text. */
  lemma DetectsHead(e: JsonEncoding, q: seq<byte>)
    requires |q| == 4 && e != UTF8
    requires e == UTF16_BE ==> q[0] == 0 && IsAscii(q[1]) && q[2] == 0 && IsAscii(q[3])
    requires e == UTF16_LE ==> IsAscii(q[0]) && q[1] == 0 && IsAscii(q[2]) && q[3] == 0
    requires e == UTF32_BE ==> q[0] == 0 && q[1] == 0 && q[2] == 0 && IsAscii(q[3])
    requires e == UTF32_LE ==> IsAscii(q[0]) && q[1] == 0 && q[2] == 0 && q[3] == 0
    ensures DetectEncoding(q) == Success(Detected(e, 0))
  {
    assert q[..4] == q;
  }

  /** The first four bytes of text in a wide encoding are those of its first
      two characters. */
  lemma WideHead(e: JsonEncoding, text: seq<byte>)
    requires |text| >= 2 && e != UTF8
    ensures var head := EncodeChar(e, text[0]) + EncodeChar(e, text[1]);
      |head| >= 4 && |Encode(e, text)| >= 4 && Encode(e, text)[..4] == head[..4]
  {
    var c0, c1, tail := EncodeChar(e, text[0]), EncodeChar(e, text[1]), Encode(e, text[2..]);
    assert text[1..][1..] == text[2..];
    assert Encode(e, text[1..]) == c1 + tail;
    assert Encode(e, text) == c0 + (c1 + tail);
    PrefixOfNested(c0, c1, tail, 4);
  }

  lemma PrefixOfNested(a: seq<byte>, b: seq<byte>, c: seq<byte>, n: nat)
    requires n <= |a| + |b|
    ensures (a + (b + c))[..n] == (a + b)[..n]
  {
    assert a + (b + c) == (a + b) + c;
  }

  /** A single ASCII character, without a mark, is detected as well. */
  lemma DetectsUnmarkedChar(e: JsonEncoding, c: byte)
    requires IsAscii(c)
    ensures DetectEncoding(Encode(e, [c])) == Success(Detected(e, 0))
  {
    assert Encode(e, [c]) == EncodeChar(e, c);
  }

  /** Text after its encoding's mark is detected as that encoding, and the
      whole mark is skipped. */
  lemma DetectsMarkedText(e: JsonEncoding, text: seq<byte>)
    requires |text| >= 1 && IsAscii(text[0])
    ensures DetectEncoding(Bom(e) + Encode(e, text)) == Success(Detected(e, |Bom(e)|))
  {
    var head := Bom(e) + EncodeChar(e, text[0]);
    var bytes := Bom(e) + Encode(e, text);
    assert Encode(e, text) == EncodeChar(e, text[0]) + Encode(e, text[1..]);
    assert bytes == head + Encode(e, text[1..]);
    MarkHeadDetected(e, text[0]);
    PrefixOfConcat(head, Encode(e, text[1..]), 4);
    DetectsByHead(bytes);
  }

  /** The mark and the first char, cut to four bytes, are detected as the
      encoding with its mark. */
  lemma MarkHeadDetected(e: JsonEncoding, c: byte)
    requires IsAscii(c)
    ensures var head := Bom(e) + EncodeChar(e, c);
      |head| >= 4 && DetectEncoding(head[..4]) == Success(Detected(e, |Bom(e)|))
  {
    var q := (Bom(e) + EncodeChar(e, c))[..4];
    match e
    case UTF8 =>
      assert q == [0xEF, 0xBB, 0xBF, c];
      MarkQuadDetected(q, UTF8, 3);
    case UTF16_BE =>
      assert q == [0xFE, 0xFF, 0, c];
      assert q[0] == 0xFE && q[1] == 0xFF && q[3] != 0;
      MarkQuadDetected(q, UTF16_BE, 2);
    case UTF16_LE =>
      assert q == [0xFF, 0xFE, c, 0];
      assert q[0] == 0xFF && q[1] == 0xFE && q[2] != 0;
      MarkQuadDetected(q, UTF16_LE, 2);
    case UTF32_BE =>
      assert q == [0, 0, 0xFE, 0xFF];
      MarkQuadDetected(q, UTF32_BE, 4);
    case UTF32_LE =>
      assert q == [0xFF, 0xFE, 0, 0];
      MarkQuadDetected(q, UTF32_LE, 4);
  }

  /** Four bytes that begin with a mark are detected through the mark alone. */
  lemma MarkQuadDetected(q: seq<byte>, e: JsonEncoding, len: nat)
    requires |q| == 4
    requires HandleBom(q).Success? && HandleBom(q).value.Some?
    requires EncodingOf(HandleBom(q).value.value.layout) == e && HandleBom(q).value.value.length == len
    ensures DetectEncoding(q) == Success(Detected(e, len))
  {
    assert q[..4] == q;
  }

  lemma PrefixOfConcat(a: seq<byte>, b: seq<byte>, n: nat)
    requires n <= |a|
    ensures (a + b)[..n] == a[..n]
  {
  }

  /** The two UCS-4 byte orders that are neither big- nor little-endian are
      refused, with or without a mark. */
  lemma RefusesUnusualUcs4(rest: seq<byte>, c: byte)
    requires c != 0
    ensures DetectEncoding([0, 0, 0xFF, 0xFE] + rest).Failure?
    ensures DetectEncoding([0xFE, 0xFF, 0, 0] + rest).Failure?
    ensures DetectEncoding([0, c, 0, 0] + rest).Failure?
    ensures DetectEncoding([0, 0, c, 0] + rest).Failure?
  {
    UnusualMarks();
    UnusualOrder([0, c, 0, 0]);
    UnusualOrder([0, 0, c, 0]);
    RefusedHead([0, 0, 0xFF, 0xFE], rest);
    RefusedHead([0xFE, 0xFF, 0, 0], rest);
    RefusedHead([0, c, 0, 0], rest);
    RefusedHead([0, 0, c, 0], rest);
  }

  /** The two unsupported UCS-4 marks on their own. */
  lemma UnusualMarks()
    ensures DetectEncoding([0, 0, 0xFF, 0xFE]).Failure?
    ensures DetectEncoding([0xFE, 0xFF, 0, 0]).Failure?
  {
  }

  /** A quad whose only non-zero byte is the second or the third carries no
      mark and is refused by the UTF-32 check. */
  lemma UnusualOrder(q: seq<byte>)
    requires |q| == 4 && q[0] == 0 && q[3] == 0 && (q[1] == 0) != (q[2] == 0)
    ensures DetectEncoding(q).Failure?
  {
    assert q[..4] == q;
    assert q[..3][0] == 0;
    assert HandleBom(q) == Success(None);
  }

  /** A refused four-byte head is refused whatever follows it. */
  lemma RefusedHead(head: seq<byte>, rest: seq<byte>)
    requires |head| == 4
    ensures DetectEncoding(head + rest).Failure? <==> DetectEncoding(head).Failure?
  {
    assert (head + rest)[..4] == head;
    DetectsByHead(head + rest);
  }

  // ---------------------------------------------------------------------
  // hasJSONFormat

  /** The white space skipSpace passes over. */
  predicate IsSpace(b: byte)
  {
    b == 0x20 || b == 0x0D || b == 0x0A || b == 0x09
  }

  /** The first byte at or after `i` that is not white space, and the read
      position after it; None when the input runs out first. */
  datatype Next = Next(ch: byte, pos: nat)

  function SkipSpace(input: seq<byte>, i: nat): (r: Option<Next>)
    ensures r.Some? ==> i < r.value.pos <= |input| && r.value.ch == input[r.value.pos - 1]
    ensures r.Some? ==> !IsSpace(r.value.ch)
    ensures r.Some? ==> forall k :: i <= k < r.value.pos - 1 ==> IsSpace(input[k])
    ensures r.None? ==> forall k :: i <= k < |input| ==> IsSpace(input[k])
    decreases |input| - i
  {
    if i >= |input| then None
    else if !IsSpace(input[i]) then Some(Next(input[i], i + 1))
    else SkipSpace(input, i + 1)
  }

  /** tryMatch: the rest of a literal, byte by byte.  A byte that differs
      from the literal anywhere within the input refuses the match; with no
      differing byte, the literal present in full gives the strength asked
      for and a literal cut short by the end of the input is inconclusive. */
  function TryMatch(input: seq<byte>, pos: nat, rest: string, full: MatchStrength): (r: MatchStrength)
    ensures r == full || r == NO_MATCH || r == INCONCLUSIVE
    ensures Differs(input, pos, rest) ==> r == NO_MATCH
    ensures !Differs(input, pos, rest) ==>
      r == (if |rest| == 0 || pos + |rest| <= |input| then full else INCONCLUSIVE)
    decreases |rest|
  {
    if |rest| == 0 then full
    else if pos >= |input| then INCONCLUSIVE
    else if input[pos] as int != rest[0] as int then
      assert pos + 0 < |input| && input[pos + 0] as int != rest[0] as int;
      NO_MATCH
    else
      assert Differs(input, pos, rest) <==> Differs(input, pos + 1, rest[1..]) by {
        DiffersStep(input, pos, rest);
      }
      TryMatch(input, pos + 1, rest[1..], full)
  }

  /** Some byte of the input from `pos` on differs from the literal. */
  predicate Differs(input: seq<byte>, pos: nat, lit: string)
  {
    exists j :: 0 <= j < |lit| && pos + j < |input| && input[pos + j] as int != lit[j] as int
  }

  lemma DiffersStep(input: seq<byte>, pos: nat, lit: string)
    requires |lit| > 0 && pos < |input| && input[pos] as int == lit[0] as int
    ensures Differs(input, pos, lit) <==> Differs(input, pos + 1, lit[1..])
  {
    if Differs(input, pos, lit) {
      var j :| 0 <= j < |lit| && pos + j < |input| && input[pos + j] as int != lit[j] as int;
      assert lit[1..][j - 1] == lit[j];
    }
    if Differs(input, pos + 1, lit[1..]) {
      var j :| 0 <= j < |lit[1..]| && pos + 1 + j < |input| && input[pos + 1 + j] as int != lit[1..][j] as int;
      assert input[pos + (j + 1)] as int != lit[j + 1] as int;
    }
  }

  predicate IsDigitByte(ch: byte)
  {
    '0' as int <= ch <= '9' as int
  }

  /** A byte that can begin a JSON value (section 3 of RFC 8259): an object,
      an array, a string, a number or one of the three literal names. */
  predicate CanStartValue(ch: byte)
  {
    ch == '{' as int || ch == '[' as int || ch == '"' as int || ch == '-' as int
    || IsDigitByte(ch) || ch == 'n' as int || ch == 't' as int || ch == 'f' as int
  }

  /** hasJSONFormat over the bytes the detector can see.  Without a UTF-8
      mark, the first byte that is not white space decides the coarse
      answer: one that can begin no JSON value is NO_MATCH, a digit or a
      quote is WEAK_MATCH, and white space alone is INCONCLUSIVE.  A mark
      that breaks off after its first byte is NO_MATCH. */
  function HasJsonFormat(input: seq<byte>): (r: MatchStrength)
    ensures |input| == 0 ==> r == INCONCLUSIVE
    ensures r != FULL_MATCH
    ensures |input| > 0 && input[0] != UTF8_BOM_1 ==>
      var first := SkipSpace(input, 0);
      && (first.None? ==> r == INCONCLUSIVE)
      && (first.Some? && !CanStartValue(first.value.ch) ==> r == NO_MATCH)
      && (first.Some? && (IsDigitByte(first.value.ch) || first.value.ch == '"' as int) ==> r == WEAK_MATCH)
    ensures |input| >= 2 && input[0] == UTF8_BOM_1 && input[1] != UTF8_BOM_2 ==> r == NO_MATCH
    ensures |input| >= 3 && input[..2] == [UTF8_BOM_1, UTF8_BOM_2] && input[2] != UTF8_BOM_3 ==> r == NO_MATCH
  {
    if |input| == 0 then INCONCLUSIVE
    else if input[0] == UTF8_BOM_1 then
      if |input| < 2 then INCONCLUSIVE
      else if input[1] != UTF8_BOM_2 then NO_MATCH
      else if |input| < 3 then INCONCLUSIVE
      else if input[2] != UTF8_BOM_3 then NO_MATCH
      else if |input| < 4 then INCONCLUSIVE
      else ValueStart(input, 3)
    else ValueStart(input, 0)
  }

  /** The grading after the optional mark, from the first value byte. */
  function ValueStart(input: seq<byte>, start: nat): (r: MatchStrength)
    ensures r != FULL_MATCH
  {
    var first := SkipSpace(input, start);
    if first.None? then INCONCLUSIVE
    else GradeValue(input, first.value.ch, first.value.pos)
  }

  /** The grading by the first value byte `ch`, with `pos` after it: a byte
      that begins no JSON value is refused, a digit or a quote is a weak
      match, and only the two structures can be a solid one. */
  function GradeValue(input: seq<byte>, ch: byte, pos: nat): (r: MatchStrength)
    ensures r != FULL_MATCH
    ensures !CanStartValue(ch) ==> r == NO_MATCH
    ensures IsDigitByte(ch) || ch == '"' as int ==> r == WEAK_MATCH
    ensures r == SOLID_MATCH ==> ch == '{' as int || ch == '[' as int
  {
    if ch == '{' as int then
      var next := SkipSpace(input, pos);
      if next.None? then INCONCLUSIVE
      else if next.value.ch == '"' as int || next.value.ch == '}' as int then SOLID_MATCH
      else NO_MATCH
    else if ch == '[' as int then
      if SkipSpace(input, pos).None? then INCONCLUSIVE else SOLID_MATCH
    else if ch == '"' as int || IsDigitByte(ch) then WEAK_MATCH
    else if ch == '-' as int then
      var next := SkipSpace(input, pos);
      if next.None? then INCONCLUSIVE
      else if IsDigitByte(next.value.ch) then WEAK_MATCH
      else NO_MATCH
    else if ch == 'n' as int then TryMatch(input, pos, "ull", WEAK_MATCH)
    else if ch == 't' as int then TryMatch(input, pos, "rue", WEAK_MATCH)
    else if ch == 'f' as int then TryMatch(input, pos, "alse", WEAK_MATCH)
    else NO_MATCH
  }

  /** More input after a found byte does not change what skipSpace finds. */
  lemma {:induction false} SkipSpaceExtends(input: seq<byte>, more: seq<byte>, i: nat)
    requires SkipSpace(input, i).Some?
    ensures SkipSpace(input + more, i) == SkipSpace(input, i)
    decreases |input| - i
  {
    if !IsSpace(input[i]) {
      assert (input + more)[i] == input[i];
    } else {
      assert (input + more)[i] == input[i];
      SkipSpaceExtends(input, more, i + 1);
    }
  }

  /** A literal match that has decided stays decided. */
  lemma {:induction false} TryMatchExtends(input: seq<byte>, more: seq<byte>, pos: nat, rest: string, full: MatchStrength)
    requires TryMatch(input, pos, rest, full) != INCONCLUSIVE || full == INCONCLUSIVE
    requires pos + |rest| <= |input| || TryMatch(input, pos, rest, full) != INCONCLUSIVE
    ensures TryMatch(input + more, pos, rest, full) == TryMatch(input, pos, rest, full)
    decreases |rest|
  {
    if |rest| > 0 {
      assert pos < |input|;
      assert (input + more)[pos] == input[pos];
      if input[pos] as int == rest[0] as int {
        TryMatchExtends(input, more, pos + 1, rest[1..], full);
      }
    }
  }

  /** Once the grading is conclusive, further input does not change it. */
  lemma ConclusiveIsFinal(input: seq<byte>, more: seq<byte>)
    requires HasJsonFormat(input) != INCONCLUSIVE
    ensures HasJsonFormat(input + more) == HasJsonFormat(input)
  {
    var all := input + more;
    assert |input| > 0 && all[0] == input[0];
    if input[0] == UTF8_BOM_1 {
      assert all[1] == input[1];
      if |input| >= 3 {
        assert all[2] == input[2];
      }
      if |input| >= 4 && input[1] == UTF8_BOM_2 && input[2] == UTF8_BOM_3 {
        ValueStartExtends(input, more, 3);
      }
    } else {
      ValueStartExtends(input, more, 0);
    }
  }

  lemma ValueStartExtends(input: seq<byte>, more: seq<byte>, start: nat)
    requires ValueStart(input, start) != INCONCLUSIVE
    ensures ValueStart(input + more, start) == ValueStart(input, start)
  {
    var first := SkipSpace(input, start);
    SkipSpaceExtends(input, more, start);
    var pos := first.value.pos;
    if SkipSpace(input, pos).Some? {
      SkipSpaceExtends(input, more, pos);
    }
    var ch := first.value.ch;
    if ch == 'n' as int {
      TryMatchExtends(input, more, pos, "ull", WEAK_MATCH);
    } else if ch == 't' as int {
      TryMatchExtends(input, more, pos, "rue", WEAK_MATCH);
    } else if ch == 'f' as int {
      TryMatchExtends(input, more, pos, "alse", WEAK_MATCH);
    }
  }

  /** A UTF-8 mark in front of the input changes nothing, unless the input
      itself starts like another mark. */
  lemma MarkIsTransparent(input: seq<byte>)
    requires |input| == 0 || input[0] != UTF8_BOM_1
    ensures HasJsonFormat([UTF8_BOM_1, UTF8_BOM_2, UTF8_BOM_3] + input) == HasJsonFormat(input)
  {
    var mark := [UTF8_BOM_1, UTF8_BOM_2, UTF8_BOM_3];
    var all := mark + input;
    assert all[0] == UTF8_BOM_1 && all[1] == UTF8_BOM_2 && all[2] == UTF8_BOM_3;
    if |input| > 0 {
      ValueStartShift(mark, input);
    }
  }

  /** Grading a value behind a prefix is grading it on its own. */
  lemma ValueStartShift(prefix: seq<byte>, input: seq<byte>)
    ensures ValueStart(prefix + input, |prefix|) == ValueStart(input, 0)
  {
    SkipSpaceShift(prefix, input, 0);
    var first := SkipSpace(input, 0);
    if first.Some? {
      var ch, pos := first.value.ch, first.value.pos;
      assert SkipSpace(prefix + input, |prefix|) == Some(Next(ch, |prefix| + pos));
      GradeShift(prefix, input, ch, pos);
    }
  }

  lemma GradeShift(prefix: seq<byte>, input: seq<byte>, ch: byte, pos: nat)
    ensures GradeValue(prefix + input, ch, |prefix| + pos) == GradeValue(input, ch, pos)
  {
    if ch == 'n' as int {
      TryMatchShift(prefix, input, pos, "ull", WEAK_MATCH);
    } else if ch == 't' as int {
      TryMatchShift(prefix, input, pos, "rue", WEAK_MATCH);
    } else if ch == 'f' as int {
      TryMatchShift(prefix, input, pos, "alse", WEAK_MATCH);
    } else {
      SkipSpaceShift(prefix, input, pos);
    }
  }

  /** Skipping space behind a prefix is skipping it in the rest, shifted. */
  lemma {:induction false} SkipSpaceShift(prefix: seq<byte>, input: seq<byte>, i: nat)
    ensures SkipSpace(prefix + input, |prefix| + i) ==
      (if SkipSpace(input, i).None? then None
       else Some(Next(SkipSpace(input, i).value.ch, |prefix| + SkipSpace(input, i).value.pos)))
    decreases |input| - i
  {
    if i < |input| {
      assert (prefix + input)[|prefix| + i] == input[i];
      if IsSpace(input[i]) {
        SkipSpaceShift(prefix, input, i + 1);
      }
    }
  }

  /** The same for literal matching. */
  lemma {:induction false} TryMatchShift(prefix: seq<byte>, input: seq<byte>, pos: nat, rest: string, full: MatchStrength)
    ensures TryMatch(prefix + input, |prefix| + pos, rest, full) == TryMatch(input, pos, rest, full)
    decreases |rest|
  {
    if |rest| > 0 && pos < |input| {
      assert (prefix + input)[|prefix| + pos] == input[pos];
      TryMatchShift(prefix, input, pos + 1, rest[1..], full);
    }
  }

  /** An object that opens with a field name, or is empty, is a solid match
      whatever white space surrounds its first tokens; so is any array. */
  lemma StructuresMatchSolidly(ws1: seq<byte>, ws2: seq<byte>, rest: seq<byte>, open: byte, next: byte)
    requires forall k :: 0 <= k < |ws1| ==> IsSpace(ws1[k])
    requires forall k :: 0 <= k < |ws2| ==> IsSpace(ws2[k])
    requires (open == '{' as int && (next == '"' as int || next == '}' as int)) || (open == '[' as int && !IsSpace(next))
    ensures HasJsonFormat(ws1 + [open] + ws2 + [next] + rest) == SOLID_MATCH
  {
    var input := ws1 + [open] + ws2 + [next] + rest;
    assert input == ws1 + ([open] + ws2 + [next] + rest);
    SkipSpaceOver(ws1, [open] + ws2 + [next] + rest);
    assert ws1 + [open] + ws2 + [next] + rest == (ws1 + [open]) + (ws2 + ([next] + rest));
    SkipSpaceShift(ws1 + [open], ws2 + ([next] + rest), 0);
    SkipSpaceOver(ws2, [next] + rest);
  }

  /** White space followed by a non-space byte: skipSpace lands on it. */
  lemma SkipSpaceOver(ws: seq<byte>, rest: seq<byte>)
    requires forall k :: 0 <= k < |ws| ==> IsSpace(ws[k])
    requires |rest| > 0 && !IsSpace(rest[0])
    ensures SkipSpace(ws + rest, 0) == Some(Next(rest[0], |ws| + 1))
  {
    SkipSpaceShift(ws, rest, 0);
    SkipSpaceWs(ws + rest, |ws|, 0);
  }

  /** skipSpace from inside a run of white space lands where it would from
      the end of the run. */
  lemma {:induction false} SkipSpaceWs(input: seq<byte>, end: nat, i: nat)
    requires i <= end <= |input|
    requires forall k :: i <= k < end ==> IsSpace(input[k])
    ensures SkipSpace(input, i) == SkipSpace(input, end)
    decreases end - i
  {
    if i < end {
      SkipSpaceWs(input, end, i + 1);
    }
  }

  /** The literals and scalars are weak matches: plausible, but so short
      that other formats could produce them too. */
  lemma ScalarsMatchWeakly(rest: seq<byte>)
    ensures HasJsonFormat(Units8("true") + rest) == WEAK_MATCH
    ensures HasJsonFormat(Units8("false") + rest) == WEAK_MATCH
    ensures HasJsonFormat(Units8("null") + rest) == WEAK_MATCH
    ensures HasJsonFormat(Units8("\"") + rest) == WEAK_MATCH
    ensures HasJsonFormat(Units8("-1") + rest) == WEAK_MATCH
  {
    TryMatchPrefix(Units8("true") + rest, 1, "rue");
    TryMatchPrefix(Units8("false") + rest, 1, "alse");
    TryMatchPrefix(Units8("null") + rest, 1, "ull");
  }

  /** A literal present in full matches with the given strength. */
  lemma {:induction false} TryMatchPrefix(input: seq<byte>, pos: nat, lit: string)
    requires pos + |lit| <= |input|
    requires forall k :: 0 <= k < |lit| ==> input[pos + k] as int == lit[k] as int
    ensures TryMatch(input, pos, lit, WEAK_MATCH) == WEAK_MATCH
    decreases |lit|
  {
    if |lit| > 0 {
      assert input[pos] as int == lit[0] as int;
      TryMatchPrefix(input, pos + 1, lit[1..]);
    }
  }

  /** ASCII text as bytes. */
  function Units8(s: string): (b: seq<byte>)
    requires forall k :: 0 <= k < |s| ==> s[k] as int < 0x100
    ensures |b| == |s| && forall k :: 0 <= k < |s| ==> b[k] == s[k] as int
  {
    seq(|s|, k requires 0 <= k < |s| => s[k] as int)
  }
}
