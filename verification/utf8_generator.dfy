/** The byte-oriented JSON generator (UTF8JsonGenerator).

  Every write first asks the write context whether a value (or a field
  name) may come next and which separator precedes it; without a pretty
  printer the generator writes that separator itself, with one it hands
  control to a pretty-printer callback, which the model records by name.
  Strings are written as UTF-8 with the standard JSON escapes: the seven
  short escapes, `\uXXXX` for the other control characters and for lone
  surrogate code units, and plain UTF-8 for everything else.

  The output buffer and its flushing are left out: the model answers the
  bytes written, in order.
 */
module Utf8Generator {
  import opened Ints
  import opened Wrappers
  import opened CharTypes
  import opened Unicode
  import opened StreamContext
  import opened WriteContext

  const BYTE_BACKSLASH: byte := '\\' as int
  const BYTE_U: byte := 'u' as int
  const BYTE_0: byte := '0' as int
  const BYTE_QUOTE: byte := '"' as int
  const BYTE_COMMA: byte := ',' as int
  const BYTE_COLON: byte := ':' as int
  const BYTE_LBRACKET: byte := '[' as int
  const BYTE_RBRACKET: byte := ']' as int
  const BYTE_LCURLY: byte := '{' as int
  const BYTE_RCURLY: byte := '}' as int

  const TRUE_BYTES: seq<byte> := ['t' as int, 'r' as int, 'u' as int, 'e' as int]
  const FALSE_BYTES: seq<byte> := ['f' as int, 'a' as int, 'l' as int, 's' as int, 'e' as int]
  const NULL_BYTES: seq<byte> := ['n' as int, 'u' as int, 'l' as int, 'l' as int]

  // ---------------------------------------------------------------------
  // Escapes

  /** HEX_CHARS: the upper-case hex digit of a nibble, as a byte. */
  function Hex(d: nat): (b: byte)
    requires d < 16
    ensures IsHexUnit(b) && HexValueOf(b) == d
  {
    HexChar(d)
  }

  /** The four upper-case hex digits of a code unit, most significant first. */
  function HexQuad(c: unit16): (q: seq<byte>)
    ensures |q| == 4
  {
    [Hex(c / 0x1000), Hex(c / 0x100 % 16), Hex(c / 16 % 16), Hex(c % 16)]
  }

  /** The value of four hex digits of either case; None unless all four are. */
  function HexQuadValue(q: seq<byte>): (r: Option<unit16>)
    requires |q| == 4
    ensures r.Some? <==> (forall k :: 0 <= k < 4 ==> IsHexUnit(q[k]))
  {
    if IsHexUnit(q[0]) && IsHexUnit(q[1]) && IsHexUnit(q[2]) && IsHexUnit(q[3]) then
      Some(HexValueOf(q[0]) * 0x1000 + HexValueOf(q[1]) * 0x100 + HexValueOf(q[2]) * 16 + HexValueOf(q[3]))
    else None
  }

  /** Four hex digits read back as the code unit they were written for. */
  lemma HexQuadRoundTrip(c: unit16)
    ensures HexQuadValue(HexQuad(c)) == Some(c)
  {
    var a, b, d, e := c / 0x1000, c / 0x100 % 16, c / 16 % 16, c % 16;
    assert c / 0x100 == a * 16 + b;
    assert c / 16 == (c / 0x100) * 16 + d;
    assert c == (c / 16) * 16 + e;
  }

  /** _writeGenericEscape: backslash, 'u', then the high byte's two digits
      (or "00" when there is none) and the low byte's two digits.  Whatever
      the branch, that is the four hex digits of the code unit. */
  function WriteGenericEscape(charToEscape: unit16): (r: seq<byte>)
    ensures r == [BYTE_BACKSLASH, BYTE_U] + HexQuad(charToEscape)
  {
    var c := charToEscape;
    if c > 0xFF then
      var hi := c / 0x100;
      var lo := c % 0x100;
      ByteDigits(c);
      [BYTE_BACKSLASH, BYTE_U, Hex(hi / 16), Hex(hi % 16), Hex(lo / 16), Hex(lo % 16)]
    else
      [BYTE_BACKSLASH, BYTE_U, BYTE_0, BYTE_0, Hex(c / 16), Hex(c % 16)]
  }

  /** The hex digits of a unit's high and low bytes are its four hex digits. */
  lemma ByteDigits(c: unit16)
    ensures c / 0x100 / 16 == c / 0x1000
    ensures c % 0x100 / 16 == c / 16 % 16 && c % 0x100 % 16 == c % 16
  {
    var a, b, d, e := c / 0x1000, c / 0x100 % 16, c / 16 % 16, c % 16;
    assert c / 0x100 == a * 16 + b;
    assert c / 16 == (c / 0x100) * 16 + d;
    assert c == (c / 16) * 16 + e;
    assert c % 0x100 == d * 16 + e;
  }

  /** _outputMultiByteChar, for a code unit above 0x7FF: a surrogate is
      written as a `\u` escape (a pair thus becomes two escapes), anything
      else as its three UTF-8 bytes. */
  function OutputMultiByteChar(ch: unit16): (r: seq<byte>)
    requires ch > 0x7FF
    ensures IsSurrogate(ch) ==> r == [BYTE_BACKSLASH, BYTE_U] + HexQuad(ch)
    ensures !IsSurrogate(ch) ==> r == Utf8(ch)
  {
    TopNibble(ch);
    if SURR1_FIRST <= ch <= SURR2_LAST then
      [BYTE_BACKSLASH, BYTE_U, Hex(ch / 0x1000 % 16), Hex(ch / 0x100 % 16), Hex(ch / 16 % 16), Hex(ch % 16)]
    else
      [0xE0 + ch / 0x1000, 0x80 + ch / 0x40 % 0x40, 0x80 + ch % 0x40]
  }

  /** The top hex digit of a code unit needs no reduction. */
  lemma TopNibble(ch: unit16)
    ensures ch / 0x1000 < 16 && ch / 0x1000 % 16 == ch / 0x1000
  {
  }

  /** One code unit of a string as _writeStringSegment2 writes it with the
      standard escape table: ASCII as is or escaped, the rest as two- or
      three-byte UTF-8, surrogates escaped. */
  function EncodeUnit(ch: unit16): (r: seq<byte>)
    ensures |r| > 0
    ensures NeedsEscape(ch) ==> r[0] == BYTE_BACKSLASH
    ensures !NeedsEscape(ch) && !IsSurrogate(ch) ==> r == Utf8(ch)
    ensures IsSurrogate(ch) || (ch < 32 && OutputEscape(ch) == ESCAPE_STANDARD) ==>
      r == [BYTE_BACKSLASH, BYTE_U] + HexQuad(ch)
  {
    if ch <= 0x7F then
      var escape := OutputEscape(ch);
      if escape == ESCAPE_NONE then [ch]
      else if escape > 0 then [BYTE_BACKSLASH, escape]
      else WriteGenericEscape(ch)
    else if ch <= 0x7FF then
      [0xC0 + ch / 0x40, 0x80 + ch % 0x40]
    else
      OutputMultiByteChar(ch)
  }

  /** A string's content as written between the quotes (_writeStringSegment
      and its slower half, in one or several segments alike). */
  function EncodeString(s: seq<unit16>): (r: seq<byte>)
    decreases |s|
  {
    if |s| == 0 then [] else EncodeUnit(s[0]) + EncodeString(s[1..])
  }

  // ---------------------------------------------------------------------
  // The reading side: JSON string content, as a parser decodes it

  /** The char a two-char escape stands for. */
  function ShortUnescape(e: byte): (r: Option<unit16>)
  {
    if e == '"' as int then Some('"' as int)
    else if e == '\\' as int then Some('\\' as int)
    else if e == '/' as int then Some('/' as int)
    else if e == 'b' as int then Some(0x08)
    else if e == 't' as int then Some(0x09)
    else if e == 'n' as int then Some(0x0A)
    else if e == 'f' as int then Some(0x0C)
    else if e == 'r' as int then Some(0x0D)
    else None
  }

  function Prepend(u: unit16, r: Option<seq<unit16>>): (q: Option<seq<unit16>>)
  {
    if r.None? then None else Some([u] + r.value)
  }

  /** Decoding the bytes between the quotes of a JSON string into UTF-16
      code units: escapes, then ASCII other than the quote and the control
      characters, then UTF-8 sequences of the Basic Multilingual Plane. */
  function DecodeString(b: seq<byte>): (r: Option<seq<unit16>>)
    decreases |b|
  {
    if |b| == 0 then Some([])
    else if b[0] == BYTE_BACKSLASH then
      if |b| < 2 then None
      else if b[1] == BYTE_U then
        if |b| < 6 then None
        else
          var v := HexQuadValue(b[2..6]);
          if v.None? then None else Prepend(v.value, DecodeString(b[6..]))
      else
        var u := ShortUnescape(b[1]);
        if u.None? then None else Prepend(u.value, DecodeString(b[2..]))
    else if b[0] < 0x20 || b[0] == BYTE_QUOTE then None
    else if b[0] < 0x80 then Prepend(b[0], DecodeString(b[1..]))
    else
      var n := Utf8LeadLength(b[0]);
      if n < 2 || n > 3 || |b| < n then None
      else
        var cp := Utf8Decode(b[..n]);
        if cp.None? || cp.value > 0xFFFF || cp.value < 0 then None
        else Prepend(cp.value, DecodeString(b[n..]))
  }

  lemma AfterPrefix(p: seq<byte>, rest: seq<byte>, n: nat)
    requires n == |p|
    ensures (p + rest)[n..] == rest && (p + rest)[..n] == p
  {
  }

  /** Decoding a written code unit followed by anything gives the unit,
      then the decoding of what follows. */
  lemma DecodeUnitFirst(ch: unit16, rest: seq<byte>)
    ensures DecodeString(EncodeUnit(ch) + rest) == Prepend(ch, DecodeString(rest))
  {
    var e := EncodeUnit(ch);
    var b := e + rest;
    AfterPrefix(e, rest, |e|);
    if IsSurrogate(ch) || (ch < 32 && OutputEscape(ch) == ESCAPE_STANDARD) {
      assert b[2..6] == HexQuad(ch);
      HexQuadRoundTrip(ch);
    } else if ch <= 0x7F {
      var escape := OutputEscape(ch);
      if escape != ESCAPE_NONE {
        assert ShortUnescape(b[1]) == Some(ch);
      }
    } else {
      Utf8RoundTrip(ch);
      Utf8LeadByte(ch);
    }
  }

  /** Every string the generator writes decodes back to itself: the
      escapes and the encoding lose nothing, and no raw quote or control
      character reaches the output. */
  lemma {:induction false} EncodeDecode(s: seq<unit16>)
    ensures DecodeString(EncodeString(s)) == Some(s)
    decreases |s|
  {
    if |s| > 0 {
      EncodeDecode(s[1..]);
      DecodeUnitFirst(s[0], EncodeString(s[1..]));
      assert [s[0]] + s[1..] == s;
    }
  }

  /** Text that needs no escaping and is all ASCII is written verbatim. */
  lemma {:induction false} PlainAsciiVerbatim(s: seq<unit16>)
    requires forall k :: 0 <= k < |s| ==> s[k] < 0x80 && !NeedsEscape(s[k])
    ensures EncodeString(s) == s
    decreases |s|
  {
    if |s| > 0 {
      PlainAsciiVerbatim(s[1..]);
      assert [s[0]] + s[1..] == s;
    }
  }

  // ---------------------------------------------------------------------
  // Pre-encoded UTF-8 text (writeUTF8String)

  /** The UTF-8 bytes of a string of Basic Multilingual Plane code units. */
  function StringUtf8(s: seq<unit16>): (b: seq<byte>)
    decreases |s|
  {
    if |s| == 0 then [] else Utf8(s[0]) + StringUtf8(s[1..])
  }

  /** One byte of pre-encoded UTF-8 as the segment writer is evidently meant
      to treat it: bytes of multi-byte sequences (0x80 and up, negative as a
      Java byte) are copied, ASCII is escaped like string content. */
  function RawByte(b: byte): (r: seq<byte>)
    ensures b >= 0x80 || !NeedsEscape(b) ==> r == [b]
  {
    if b >= 0x80 then [b] else EncodeUnit(b)
  }

  /** _writeUTF8Segment with the byte range read as intended. */
  function Utf8Segment(utf8: seq<byte>): (r: seq<byte>)
    decreases |utf8|
  {
    if |utf8| == 0 then [] else RawByte(utf8[0]) + Utf8Segment(utf8[1..])
  }

  lemma {:induction false} Utf8SegmentAppend(a: seq<byte>, b: seq<byte>)
    ensures Utf8Segment(a + b) == Utf8Segment(a) + Utf8Segment(b)
    decreases |a|
  {
    if |a| > 0 {
      assert (a + b)[1..] == a[1..] + b;
      Utf8SegmentAppend(a[1..], b);
    } else {
      assert a + b == b;
    }
  }

  /** A multi-byte sequence passes through unchanged. */
  lemma Utf8PassesThrough(ch: unit16)
    requires ch >= 0x80
    ensures Utf8Segment(Utf8(ch)) == Utf8(ch)
  {
    var u := Utf8(ch);
    if |u| == 2 {
      assert u == [u[0]] + [u[1]];
      assert Utf8Segment([u[1]]) == [u[1]];
      assert u[1..] == [u[1]];
    } else {
      assert u[1..] == [u[1], u[2]];
      assert u[1..][1..] == [u[2]];
      assert Utf8Segment([u[2]]) == [u[2]];
    }
  }

  /** writeUTF8String with the corrected byte handling writes exactly what
      writeString writes for the same text, when the text holds no
      surrogates (which have no three-byte form a decoder accepts). */
  lemma {:induction false} Utf8SegmentMatchesString(s: seq<unit16>)
    requires forall k :: 0 <= k < |s| ==> !IsSurrogate(s[k])
    ensures Utf8Segment(StringUtf8(s)) == EncodeString(s)
    decreases |s|
  {
    if |s| > 0 {
      Utf8SegmentMatchesString(s[1..]);
      Utf8SegmentAppend(Utf8(s[0]), StringUtf8(s[1..]));
      if s[0] < 0x80 {
        assert Utf8(s[0]) == [s[0]];
      } else {
        Utf8PassesThrough(s[0]);
      }
    }
  }

  /** The first loop of _writeUTF8Segment as written: the C# byte is
      unsigned, so the `ch >= 0` guard always holds and a byte of 0x80 or
      more indexes the 128-entry escape table out of range. */
  function ScanAsWritten(utf8: seq<byte>, i: nat): (r: Result<bool>)
    requires i <= |utf8|
    decreases |utf8| - i
  {
    if i == |utf8| then Success(false)
    else if utf8[i] >= 128 then Failure(IndexOutOfRange)
    else if OutputEscape(utf8[i]) != ESCAPE_NONE then Success(true)
    else ScanAsWritten(utf8, i + 1)
  }

  /** _writeUTF8Segment2 as written: the same unsigned read, the same
      out-of-range index. */
  function Segment2AsWritten(utf8: seq<byte>): (r: Result<seq<byte>>)
    decreases |utf8|
  {
    if |utf8| == 0 then Success([])
    else if utf8[0] >= 128 then Failure(IndexOutOfRange)
    else
      var rest := Segment2AsWritten(utf8[1..]);
      if rest.Failure? then rest else Success(EncodeUnit(utf8[0]) + rest.value)
  }

  /** _writeUTF8Segment as written: a copy when nothing needs escaping,
      else the escaping pass. */
  function Utf8SegmentAsWritten(utf8: seq<byte>): (r: Result<seq<byte>>)
  {
    var scan := ScanAsWritten(utf8, 0);
    if scan.Failure? then Failure(scan.error)
    else if scan.value then Segment2AsWritten(utf8)
    else Success(utf8)
  }

  predicate AllAscii(b: seq<byte>)
  {
    forall k :: 0 <= k < |b| ==> b[k] < 0x80
  }

  lemma {:induction false} Segment2AsWrittenFails(utf8: seq<byte>)
    ensures Segment2AsWritten(utf8).Failure? <==> !AllAscii(utf8)
    ensures AllAscii(utf8) ==> Segment2AsWritten(utf8) == Success(Utf8Segment(utf8))
    decreases |utf8|
  {
    if |utf8| > 0 {
      Segment2AsWrittenFails(utf8[1..]);
      if utf8[0] < 0x80 && !AllAscii(utf8[1..]) {
        var k :| 0 <= k < |utf8[1..]| && utf8[1..][k] >= 0x80;
        assert utf8[k + 1] >= 0x80;
      }
    }
  }

  lemma {:induction false} ScanAsWrittenResult(utf8: seq<byte>, i: nat)
    requires i <= |utf8|
    ensures ScanAsWritten(utf8, i) == Success(false) ==>
      forall k :: i <= k < |utf8| ==> utf8[k] < 0x80 && !NeedsEscape(utf8[k])
    ensures ScanAsWritten(utf8, i).Failure? ==> exists k :: i <= k < |utf8| && utf8[k] >= 0x80
    decreases |utf8| - i
  {
    if i < |utf8| && utf8[i] < 128 && OutputEscape(utf8[i]) == ESCAPE_NONE {
      ScanAsWrittenResult(utf8, i + 1);
    }
  }

  /** A copy is right when no byte needs escaping. */
  lemma {:induction false} Utf8SegmentVerbatim(utf8: seq<byte>)
    requires forall k :: 0 <= k < |utf8| ==> utf8[k] < 0x80 && !NeedsEscape(utf8[k])
    ensures Utf8Segment(utf8) == utf8
    decreases |utf8|
  {
    if |utf8| > 0 {
      Utf8SegmentVerbatim(utf8[1..]);
      assert [utf8[0]] + utf8[1..] == utf8;
    }
  }

  /** As written, the segment writer fails exactly on text that is not all
      ASCII, and agrees with the corrected writer on ASCII text. */
  lemma AsWrittenFailsIffNonAscii(utf8: seq<byte>)
    ensures Utf8SegmentAsWritten(utf8).Failure? <==> !AllAscii(utf8)
    ensures AllAscii(utf8) ==> Utf8SegmentAsWritten(utf8) == Success(Utf8Segment(utf8))
  {
    Segment2AsWrittenFails(utf8);
    ScanAsWrittenResult(utf8, 0);
    var scan := ScanAsWritten(utf8, 0);
    if scan == Success(false) {
      Utf8SegmentVerbatim(utf8);
    }
  }

  /** "é" as UTF-8 (0xC3 0xA9) makes the segment writer as written fail,
      where the corrected one copies both bytes. */
  lemma NonAsciiCounterexample()
    ensures Utf8SegmentAsWritten([0xC3, 0xA9]) == Failure(IndexOutOfRange)
    ensures Utf8Segment([0xC3, 0xA9]) == [0xC3, 0xA9]
    ensures Utf8Decode([0xC3, 0xA9]) == Some(0xE9)
  {
    assert Utf8Segment([0xC3, 0xA9][1..]) == [0xA9] by {
      assert [0xC3, 0xA9][1..] == [0xA9];
    }
  }

  // ---------------------------------------------------------------------
  // The generator

  /** The pretty-printer callbacks the generator can hand control to. */
  datatype Callback =
    | RootValueSeparatorCall
    | ArrayValueSeparatorCall
    | ObjectFieldValueSeparatorCall
    | ObjectEntrySeparatorCall
    | BeforeArrayValuesCall
    | BeforeObjectEntriesCall
    | StartArrayCall
    | EndArrayCall(nrOfValues: int)
    | StartObjectCall
    | EndObjectCall(nrOfEntries: int)

  /** A piece of output: bytes the generator writes itself, or a callback. */
  datatype Piece = Raw(bytes: seq<byte>) | Pretty(call: Callback)

  /** The generator's state: its context, whether a pretty printer is set,
      the root value separator as UTF-8 (asUnquotedUTF8), and whether field
      names go unquoted (QUOTE_FIELD_NAMES off). */
  datatype UGen = UGen(ctx: WriteCtx, pretty: bool, rootSeparator: Option<seq<byte>>, unquotedNames: bool)

  datatype Emitted = Emitted(out: seq<Piece>, g: UGen)

  /** A context chain as the generator builds it: the root has no parent,
      every other context has a well-formed one. */
  predicate Nested(c: WriteCtx)
    decreases c
  {
    && Valid(c)
    && (if InRoot(c.kind) then c.parent.None? else c.parent.Some? && Nested(c.parent.value))
  }

  /** The bytes of a run of pieces, callbacks contributing none. */
  function Bytes(ps: seq<Piece>): (b: seq<byte>)
    decreases |ps|
  {
    if |ps| == 0 then [] else (if ps[0].Raw? then ps[0].bytes else []) + Bytes(ps[1..])
  }

  lemma {:induction false} BytesAppend(a: seq<Piece>, b: seq<Piece>)
    ensures Bytes(a + b) == Bytes(a) + Bytes(b)
    decreases |a|
  {
    if |a| > 0 {
      assert (a + b)[1..] == a[1..] + b;
      BytesAppend(a[1..], b);
    } else {
      assert a + b == b;
    }
  }

  predicate AllRaw(ps: seq<Piece>)
  {
    forall k :: 0 <= k < |ps| ==> ps[k].Raw?
  }

  /** _verifyValueWrite: a value in an object without a pending name is an
      error; otherwise the separator the context asks for: a comma between
      array elements, a colon after a name, the root separator between root
      values (when it is set and not empty), or the matching callback of the
      pretty printer. */
  function VerifyValueWrite(g: UGen, typeMsg: string): (r: Result<Emitted>)
    requires Nested(g.ctx)
    ensures r.Failure? <==> InObject(g.ctx.kind) && !g.ctx.gotName
    ensures r.Failure? ==> r.error == GenerationFailure("Can not " + typeMsg + ", expecting field name")
    ensures r.Success? ==> r.value.g == g.(ctx := WriteValue(g.ctx).ctx) && Nested(r.value.g.ctx)
    ensures r.Success? && !g.pretty ==>
      && AllRaw(r.value.out)
      && Bytes(r.value.out) ==
        (if InObject(g.ctx.kind) then [BYTE_COLON]
         else if g.ctx.index < 0 then []
         else if InArray(g.ctx.kind) then [BYTE_COMMA]
         else if g.rootSeparator.Some? then g.rootSeparator.value
         else [])
    ensures r.Success? && g.pretty ==>
      r.value.out ==
        (if InObject(g.ctx.kind) then [Pretty(ObjectFieldValueSeparatorCall)]
         else if InArray(g.ctx.kind) then [Pretty(if g.ctx.index < 0 then BeforeArrayValuesCall else ArrayValueSeparatorCall)]
         else if g.ctx.index < 0 then []
         else [Pretty(RootValueSeparatorCall)])
  {
    var w := WriteValue(g.ctx);
    var status := w.status;
    var g1 := g.(ctx := w.ctx);
    if status == STATUS_EXPECT_NAME then
      Failure(GenerationFailure("Can not " + typeMsg + ", expecting field name"))
    else if !g.pretty then
      if status == STATUS_OK_AFTER_COMMA then Success(Emitted([Raw([BYTE_COMMA])], g1))
      else if status == STATUS_OK_AFTER_COLON then Success(Emitted([Raw([BYTE_COLON])], g1))
      else if status == STATUS_OK_AFTER_SPACE then
        if g.rootSeparator.Some? && |g.rootSeparator.value| > 0 then
          Success(Emitted([Raw(g.rootSeparator.value)], g1))
        else Success(Emitted([], g1))
      else Success(Emitted([], g1))
    else
      VerifyPrettyValueWrite(g1, status)
  }

  /** _verifyPrettyValueWrite: the callback that matches the status; after
      a first value only in an array (an object's first value follows a
      colon). */
  function VerifyPrettyValueWrite(g: UGen, status: int): (r: Result<Emitted>)
    requires 0 <= status <= 3
    ensures r.Success? && r.value.g == g
    ensures status == STATUS_OK_AFTER_COMMA ==> r.value.out == [Pretty(ArrayValueSeparatorCall)]
    ensures status == STATUS_OK_AFTER_COLON ==> r.value.out == [Pretty(ObjectFieldValueSeparatorCall)]
    ensures status == STATUS_OK_AFTER_SPACE ==> r.value.out == [Pretty(RootValueSeparatorCall)]
    ensures status == STATUS_OK_AS_IS && InRoot(g.ctx.kind) ==> r.value.out == []
  {
    if status == STATUS_OK_AFTER_COMMA then Success(Emitted([Pretty(ArrayValueSeparatorCall)], g))
    else if status == STATUS_OK_AFTER_COLON then Success(Emitted([Pretty(ObjectFieldValueSeparatorCall)], g))
    else if status == STATUS_OK_AFTER_SPACE then Success(Emitted([Pretty(RootValueSeparatorCall)], g))
    else if InArray(g.ctx.kind) then Success(Emitted([Pretty(BeforeArrayValuesCall)], g))
    else if InObject(g.ctx.kind) then Success(Emitted([Pretty(BeforeObjectEntriesCall)], g))
    else Success(Emitted([], g))
  }

  /** The scalar values the generator writes with a fixed keyword or as a
      quoted string (writeBoolean, writeNull, writeString). */
  datatype Scalar = Bool(b: bool) | Null | Str(text: seq<unit16>)

  /** The type messages of GeneratorBase. */
  function TypeMsg(v: Scalar): string
  {
    match v
    case Bool(_) => "write a boolean value"
    case Null => "write a null"
    case Str(_) => "write a string"
  }

  /** The bytes of a scalar: a keyword, or the escaped text in quotes. */
  function ScalarBytes(v: Scalar): (b: seq<byte>)
  {
    match v
    case Bool(state) => if state then TRUE_BYTES else FALSE_BYTES
    case Null => NULL_BYTES
    case Str(text) => [BYTE_QUOTE] + EncodeString(text) + [BYTE_QUOTE]
  }

  /** A written string value is a quoted JSON string whose content decodes
      back to the text. */
  lemma StringValueDecodes(text: seq<unit16>)
    ensures var b := ScalarBytes(Str(text));
      && |b| >= 2 && b[0] == BYTE_QUOTE && b[|b| - 1] == BYTE_QUOTE
      && DecodeString(b[1..|b| - 1]) == Some(text)
  {
    var body := EncodeString(text);
    EncodeDecode(text);
    assert ([BYTE_QUOTE] + body + [BYTE_QUOTE])[1..|body| + 1] == body;
  }

  /** writeBoolean / writeNull / writeString: the separator check, then the
      value's bytes. */
  function WriteScalar(g: UGen, v: Scalar): (r: Result<Emitted>)
    requires Nested(g.ctx)
    ensures r.Failure? <==> InObject(g.ctx.kind) && !g.ctx.gotName
    ensures r.Success? ==> Nested(r.value.g.ctx) && r.value.g == VerifyValueWrite(g, TypeMsg(v)).value.g
    ensures r.Success? ==> |r.value.out| > 0 && r.value.out[|r.value.out| - 1] == Raw(ScalarBytes(v))
  {
    var sep :- VerifyValueWrite(g, TypeMsg(v));
    Success(Emitted(sep.out + [Raw(ScalarBytes(v))], sep.g))
  }

  /** writeStartArray: the separator check, a child array context, then the
      bracket or the printer's callback. */
  function WriteStartArray(g: UGen): (r: Result<Emitted>)
    requires Nested(g.ctx)
    ensures r.Failure? <==> InObject(g.ctx.kind) && !g.ctx.gotName
    ensures r.Success? ==> var c := r.value.g.ctx;
      && Nested(c) && InArray(c.kind) && c.index == -1 && |r.value.out| > 0
      && c.parent == Some(WriteValue(g.ctx).ctx)
      && r.value.out[|r.value.out| - 1] == (if g.pretty then Pretty(StartArrayCall) else Raw([BYTE_LBRACKET]))
  {
    var sep :- VerifyValueWrite(g, "start an array");
    var child := FreshChild(sep.g.ctx, TYPE_ARRAY);
    Success(Emitted(sep.out + [if g.pretty then Pretty(StartArrayCall) else Raw([BYTE_LBRACKET])],
                    sep.g.(ctx := child)))
  }

  /** writeStartObject: as writeStartArray, with an object context. */
  function WriteStartObject(g: UGen): (r: Result<Emitted>)
    requires Nested(g.ctx)
    ensures r.Failure? <==> InObject(g.ctx.kind) && !g.ctx.gotName
    ensures r.Success? ==> var c := r.value.g.ctx;
      && Nested(c) && InObject(c.kind) && c.index == -1 && !c.gotName && |r.value.out| > 0
      && c.parent == Some(WriteValue(g.ctx).ctx)
      && r.value.out[|r.value.out| - 1] == (if g.pretty then Pretty(StartObjectCall) else Raw([BYTE_LCURLY]))
  {
    var sep :- VerifyValueWrite(g, "start an object");
    var child := FreshChild(sep.g.ctx, TYPE_OBJECT);
    Success(Emitted(sep.out + [if g.pretty then Pretty(StartObjectCall) else Raw([BYTE_LCURLY])],
                    sep.g.(ctx := child)))
  }

  /** writeEndArray: only an array can be closed; the bracket or the
      printer's callback with the element count, then back to the parent. */
  function WriteEndArray(g: UGen): (r: Result<Emitted>)
    requires Nested(g.ctx)
    ensures r.Failure? <==> !InArray(g.ctx.kind)
    ensures r.Failure? ==> r.error == GenerationFailure("Current context not an ARRAY but " + TypeDesc(g.ctx.kind))
    ensures r.Success? ==> g.ctx.parent.Some? && r.value.g == g.(ctx := g.ctx.parent.value) && Nested(r.value.g.ctx)
    ensures r.Success? ==>
      r.value.out == [if g.pretty then Pretty(EndArrayCall(g.ctx.index + 1)) else Raw([BYTE_RBRACKET])]
  {
    if !InArray(g.ctx.kind) then
      Failure(GenerationFailure("Current context not an ARRAY but " + TypeDesc(g.ctx.kind)))
    else
      var piece := if g.pretty then Pretty(EndArrayCall(EntryCount(g.ctx.index))) else Raw([BYTE_RBRACKET]);
      Success(Emitted([piece], g.(ctx := g.ctx.parent.value)))
  }

  /** writeEndObject: only an object can be closed. */
  function WriteEndObject(g: UGen): (r: Result<Emitted>)
    requires Nested(g.ctx)
    ensures r.Failure? <==> !InObject(g.ctx.kind)
    ensures r.Failure? ==> r.error == GenerationFailure("Current context not an object but " + TypeDesc(g.ctx.kind))
    ensures r.Success? ==> g.ctx.parent.Some? && r.value.g == g.(ctx := g.ctx.parent.value) && Nested(r.value.g.ctx)
    ensures r.Success? ==>
      r.value.out == [if g.pretty then Pretty(EndObjectCall(g.ctx.index + 1)) else Raw([BYTE_RCURLY])]
  {
    if !InObject(g.ctx.kind) then
      Failure(GenerationFailure("Current context not an object but " + TypeDesc(g.ctx.kind)))
    else
      var piece := if g.pretty then Pretty(EndObjectCall(EntryCount(g.ctx.index))) else Raw([BYTE_RCURLY]);
      Success(Emitted([piece], g.(ctx := g.ctx.parent.value)))
  }

  /** writeFieldName (and _writePPFieldName): a second name before a value
      is an error, as is a repeated name under duplicate detection; then a
      comma before every name after the first (or the printer's entry
      separator, or its before-entries callback), then the name, quoted
      unless QUOTE_FIELD_NAMES is off. */
  function WriteFieldName(g: UGen, name: seq<unit16>): (r: Result<Emitted>)
    requires Nested(g.ctx)
    ensures g.ctx.gotName ==> r == Failure(GenerationFailure("Can not write a field name, expecting a value"))
    ensures !g.ctx.gotName && g.ctx.dups.None? ==> r.Success?
    ensures r.Success? ==>
      && Nested(r.value.g.ctx) && r.value.g.ctx.gotName && r.value.g.ctx.currentName == Some(name)
      && r.value.g.ctx.index == g.ctx.index && r.value.g.ctx.parent == g.ctx.parent
      && |r.value.out| > 0 && r.value.out[|r.value.out| - 1] ==
        Raw(if g.unquotedNames then EncodeString(name) else [BYTE_QUOTE] + EncodeString(name) + [BYTE_QUOTE])
    ensures r.Success? && !g.pretty ==>
      && AllRaw(r.value.out[..|r.value.out| - 1])
      && Bytes(r.value.out[..|r.value.out| - 1]) == (if g.ctx.index >= 0 then [BYTE_COMMA] else [])
    ensures r.Success? && g.pretty ==>
      r.value.out[..|r.value.out| - 1] ==
        [Pretty(if g.ctx.index >= 0 then ObjectEntrySeparatorCall else BeforeObjectEntriesCall)]
  {
    var w :- WriteContext.WriteFieldName(g.ctx, name);
    if w.status == STATUS_EXPECT_VALUE then
      Failure(GenerationFailure("Can not write a field name, expecting a value"))
    else
      var sep :=
        if g.pretty then [Pretty(if w.status == STATUS_OK_AFTER_COMMA then ObjectEntrySeparatorCall else BeforeObjectEntriesCall)]
        else if w.status == STATUS_OK_AFTER_COMMA then [Raw([BYTE_COMMA])]
        else [];
      var text := if g.unquotedNames then EncodeString(name) else [BYTE_QUOTE] + EncodeString(name) + [BYTE_QUOTE];
      assert (sep + [Raw(text)])[..|sep|] == sep;
      Success(Emitted(sep + [Raw(text)], g.(ctx := w.ctx)))
  }

  // ---------------------------------------------------------------------
  // Whole arrays

  /** Scalars written one after another. */
  function WriteScalars(g: UGen, vs: seq<Scalar>): (r: Result<Emitted>)
    requires Nested(g.ctx)
    ensures r.Success? ==> Nested(r.value.g.ctx)
    decreases |vs|
  {
    if |vs| == 0 then Success(Emitted([], g))
    else
      var first :- WriteScalar(g, vs[0]);
      var rest :- WriteScalars(first.g, vs[1..]);
      Success(Emitted(first.out + rest.out, rest.g))
  }

  /** writeStartArray, the scalars, writeEndArray. */
  function WriteArray(g: UGen, vs: seq<Scalar>): (r: Result<Emitted>)
    requires Nested(g.ctx)
    ensures r.Success? ==> Nested(r.value.g.ctx)
  {
    var start :- WriteStartArray(g);
    var values :- WriteScalars(start.g, vs);
    var end :- WriteEndArray(values.g);
    Success(Emitted(start.out + values.out + end.out, end.g))
  }

  /** The scalars' bytes joined by commas. */
  function JoinCommas(vs: seq<Scalar>): (b: seq<byte>)
    decreases |vs|
  {
    if |vs| == 0 then []
    else if |vs| == 1 then ScalarBytes(vs[0])
    else ScalarBytes(vs[0]) + [BYTE_COMMA] + JoinCommas(vs[1..])
  }

  /** One scalar inside an array without a pretty printer: a comma unless
      it is the first element, then its bytes; the index moves by one. */
  lemma ScalarInArray(g: UGen, v: Scalar)
    requires Nested(g.ctx) && InArray(g.ctx.kind) && !g.pretty
    ensures var r := WriteScalar(g, v);
      && r.Success?
      && Bytes(r.value.out) == (if g.ctx.index >= 0 then [BYTE_COMMA] else []) + ScalarBytes(v)
      && r.value.g == g.(ctx := g.ctx.(index := g.ctx.index + 1))
  {
    var sep := VerifyValueWrite(g, TypeMsg(v)).value;
    var last := [Raw(ScalarBytes(v))];
    assert WriteScalar(g, v).value.out == sep.out + last;
    BytesAppend(sep.out, last);
    assert Bytes(last) == ScalarBytes(v) by {
      assert last[1..] == [];
    }
  }

  lemma Assoc(x: seq<byte>, y: seq<byte>, z: seq<byte>)
    ensures (x + y) + z == x + (y + z)
  {
  }

  lemma ScalarsStep(g: UGen, vs: seq<Scalar>)
    requires Nested(g.ctx) && |vs| > 0
    requires WriteScalar(g, vs[0]).Success?
    requires WriteScalars(WriteScalar(g, vs[0]).value.g, vs[1..]).Success?
    ensures WriteScalars(g, vs) == Success(Emitted(
      WriteScalar(g, vs[0]).value.out + WriteScalars(WriteScalar(g, vs[0]).value.g, vs[1..]).value.out,
      WriteScalars(WriteScalar(g, vs[0]).value.g, vs[1..]).value.g))
  {
  }

  /** Inside an array without a pretty printer, values are separated by
      commas, preceded by one when the array already has elements, and each
      one counts as an entry. */
  lemma {:induction false} ScalarsInArray(g: UGen, vs: seq<Scalar>)
    requires Nested(g.ctx) && InArray(g.ctx.kind) && !g.pretty
    ensures var r := WriteScalars(g, vs);
      && r.Success?
      && Bytes(r.value.out) == (if g.ctx.index >= 0 && |vs| > 0 then [BYTE_COMMA] else []) + JoinCommas(vs)
      && r.value.g == g.(ctx := g.ctx.(index := g.ctx.index + |vs|))
    decreases |vs|
  {
    if |vs| > 0 {
      ScalarInArray(g, vs[0]);
      var first := WriteScalar(g, vs[0]).value;
      ScalarsInArray(first.g, vs[1..]);
      var rest := WriteScalars(first.g, vs[1..]).value;
      ScalarsStep(g, vs);
      BytesAppend(first.out, rest.out);
      var lead: seq<byte> := if g.ctx.index >= 0 then [BYTE_COMMA] else [];
      var a := ScalarBytes(vs[0]);
      var tail := Bytes(rest.out);
      assert first.g.ctx.index >= 0;
      if |vs| > 1 {
        assert tail == [BYTE_COMMA] + JoinCommas(vs[1..]);
        Assoc(a, [BYTE_COMMA], JoinCommas(vs[1..]));
      } else {
        assert tail == [];
      }
      assert JoinCommas(vs) == a + tail;
      Assoc(lead, a, tail);
    }
  }

  /** Without a pretty printer an array of scalars is written as `[`, the
      values joined by commas, `]`, after the separator the enclosing
      context asks for; the enclosing context then counts one more value. */
  lemma ArrayOfScalars(g: UGen, vs: seq<Scalar>)
    requires Nested(g.ctx) && !g.pretty
    requires !InObject(g.ctx.kind) || g.ctx.gotName
    ensures var r := WriteArray(g, vs);
      && r.Success?
      && Bytes(r.value.out) == Bytes(VerifyValueWrite(g, "start an array").value.out)
        + [BYTE_LBRACKET] + JoinCommas(vs) + [BYTE_RBRACKET]
      && r.value.g == g.(ctx := WriteValue(g.ctx).ctx)
  {
    var start := WriteStartArray(g).value;
    var sep := VerifyValueWrite(g, "start an array").value;
    var s0 := Bytes(sep.out);
    assert start.out == sep.out + [Raw([BYTE_LBRACKET])];
    BytesAppend(sep.out, [Raw([BYTE_LBRACKET])]);
    assert Bytes([Raw([BYTE_LBRACKET])]) == [BYTE_LBRACKET];
    ScalarsInArray(start.g, vs);
    var values := WriteScalars(start.g, vs).value;
    assert Bytes(values.out) == JoinCommas(vs);
    var end := WriteEndArray(values.g).value;
    assert Bytes(end.out) == [BYTE_RBRACKET];
    assert WriteArray(g, vs).value == Emitted(start.out + values.out + end.out, end.g);
    BytesAppend(start.out, values.out);
    BytesAppend(start.out + values.out, end.out);
  }
}
