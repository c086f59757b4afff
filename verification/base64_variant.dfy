/** One Base64 variant (Base64Variant): its alphabet, its padding and its
  line length, and the encoder and decoder built on them.

  A variant holds two tables: the 64 alphabet chars (also as bytes), and a
  128-entry decoding table that maps each ASCII char to its 6-bit value,
  to BASE64_VALUE_PADDING for the padding char, or to BASE64_VALUE_INVALID.
  Chars are C# UTF-16 code units.

  The partner of the encoder is the decoder: what the encoder writes, the
  decoder turns back into the same bytes, provided the alphabet is a proper
  one (64 distinct printable ASCII chars, not the padding char) and no
  line break was inserted.  The line break the encoder writes is the JSON
  escape backslash-n, which the decoder refuses.
 */
module Base64Variant {
  import opened Ints
  import opened Wrappers
  import opened Seqs
  import BAB = ByteArrayBuilder

  const INT_SPACE: int := 0x20

  /** The padding char of a variant without padding. */
  const PADDING_CHAR_NONE: unit16 := 0

  const BASE64_VALUE_INVALID: int := -1
  const BASE64_VALUE_PADDING: int := -2

  datatype Variant = Variant(
    name: string,
    toAsciiC: seq<unit16>,
    toAsciiB: seq<byte>,
    toBase64: seq<int>,
    usesPadding: bool,
    paddingChar: unit16,
    maxLineLength: int)

  predicate Valid(v: Variant)
  {
    |v.toAsciiC| == 64 && |v.toAsciiB| == 64 && |v.toBase64| == 128
  }

  /** The decoding table never names a char other than the one it decodes. */
  predicate Coherent(v: Variant)
  {
    && Valid(v)
    && (forall ch :: 0 <= ch < 128 ==> BASE64_VALUE_PADDING <= v.toBase64[ch] < 64)
    && (forall ch :: 0 <= ch < 128 && v.toBase64[ch] >= 0 ==> v.toAsciiC[v.toBase64[ch]] == ch)
  }

  /** Every alphabet char decodes to its own position, and the padding char,
      if used, decodes as padding. */
  predicate Complete(v: Variant)
    requires Valid(v)
  {
    && (forall i :: 0 <= i < 64 ==> v.toAsciiC[i] < 128 && v.toBase64[v.toAsciiC[i]] == i)
    && (v.usesPadding ==> v.paddingChar < 128 && v.toBase64[v.paddingChar] == BASE64_VALUE_PADDING)
  }

  /** A proper alphabet for the round trip: 64 distinct printable ASCII
      chars, none of them the padding char when there is padding. */
  predicate ProperAlphabet(alphabet: seq<unit16>, usesPadding: bool, paddingChar: unit16)
  {
    && |alphabet| == 64
    && (forall i :: 0 <= i < 64 ==> INT_SPACE < alphabet[i] < 128)
    && (forall i, j :: 0 <= i < j < 64 ==> alphabet[i] != alphabet[j])
    && (usesPadding ==> paddingChar < 128 && forall i :: 0 <= i < 64 ==> alphabet[i] != paddingChar)
  }

  // ---------------------------------------------------------------------
  // Construction

  /** The decoding table after the first `n` rounds of the constructor's
      loop: every alphabet char entered at its position, a later duplicate
      overwriting an earlier one; a char beyond ASCII indexes past the table. */
  function Enter(alphabet: seq<unit16>, n: nat): (r: Result<seq<int>>)
    requires n <= |alphabet|
    ensures r.Success? <==> forall j :: 0 <= j < n ==> alphabet[j] < 128
    ensures r.Failure? ==> r.error == IndexOutOfRange
    ensures r.Success? ==> |r.value| == 128
    ensures r.Success? ==> forall ch :: 0 <= ch < 128 ==>
      && -1 <= r.value[ch] < n
      && (r.value[ch] >= 0 ==> alphabet[r.value[ch]] == ch && forall j :: r.value[ch] < j < n ==> alphabet[j] != ch)
      && (r.value[ch] == -1 ==> forall j :: 0 <= j < n ==> alphabet[j] != ch)
  {
    if n == 0 then Success(Fill(128, BASE64_VALUE_INVALID))
    else
      var table :- Enter(alphabet, n - 1);
      var alpha := alphabet[n - 1];
      if alpha >= 128 then Failure(IndexOutOfRange)
      else Success(table[alpha := n - 1])
  }

  /** The primary constructor: the alphabet must have exactly 64 chars, all
      of them ASCII, and so must the padding char when there is padding. */
  function NewVariant(name: string, alphabet: seq<unit16>, usesPadding: bool, paddingChar: unit16, maxLineLength: int): (r: Result<Variant>)
    ensures |alphabet| != 64 ==> r.Failure? && r.error.IllegalArgument?
    ensures r.Success? <==>
      |alphabet| == 64 && (forall i :: 0 <= i < 64 ==> alphabet[i] < 128) && (usesPadding ==> paddingChar < 128)
    ensures r.Success? ==>
      && Coherent(r.value)
      && r.value.toAsciiC == alphabet
      && r.value.name == name && r.value.usesPadding == usesPadding
      && r.value.paddingChar == paddingChar && r.value.maxLineLength == maxLineLength
  {
    if |alphabet| != 64 then Failure(IllegalArgument("Base64Alphabet length must be exactly 64"))
    else
      var table :- Enter(alphabet, 64);
      if usesPadding && paddingChar >= 128 then Failure(IndexOutOfRange)
      else
        var v := Variant(name, alphabet, seq(64, i requires 0 <= i < 64 => alphabet[i] % 256),
                         BuiltTable(alphabet, usesPadding, paddingChar),
                         usesPadding, paddingChar, maxLineLength);
        CompleteIffProper(v, alphabet);
        Success(v)
  }

  /** The tables the constructor builds are complete exactly when the
      alphabet has distinct chars, none of them the padding char. */
  lemma NewVariantComplete(name: string, alphabet: seq<unit16>, usesPadding: bool, paddingChar: unit16, maxLineLength: int)
    requires NewVariant(name, alphabet, usesPadding, paddingChar, maxLineLength).Success?
    ensures var v := NewVariant(name, alphabet, usesPadding, paddingChar, maxLineLength).value;
      Complete(v) <==> ProperAscii(alphabet, usesPadding, paddingChar)
  {
    var v := NewVariant(name, alphabet, usesPadding, paddingChar, maxLineLength).value;
    CompleteIffProper(v, alphabet);
  }

  /** The part of a proper alphabet that completeness needs: distinct ASCII
      chars, none of them the padding char. */
  predicate ProperAscii(alphabet: seq<unit16>, usesPadding: bool, paddingChar: unit16)
    requires |alphabet| == 64
  {
    && (forall i :: 0 <= i < 64 ==> alphabet[i] < 128)
    && (forall i, j :: 0 <= i < j < 64 ==> alphabet[i] != alphabet[j])
    && (usesPadding ==> paddingChar < 128 && forall i :: 0 <= i < 64 ==> alphabet[i] != paddingChar)
  }

  /** The decoding table the primary constructor builds. */
  function BuiltTable(alphabet: seq<unit16>, usesPadding: bool, paddingChar: unit16): (t: seq<int>)
    requires |alphabet| == 64 && Enter(alphabet, 64).Success? && (usesPadding ==> paddingChar < 128)
    ensures |t| == 128
  {
    var t := Enter(alphabet, 64).value;
    if usesPadding then t[paddingChar := BASE64_VALUE_PADDING] else t
  }

  lemma CompleteIffProper(v: Variant, alphabet: seq<unit16>)
    requires |alphabet| == 64 && Enter(alphabet, 64).Success? && (v.usesPadding ==> v.paddingChar < 128)
    requires v.toAsciiC == alphabet && |v.toAsciiB| == 64
    requires v.toBase64 == BuiltTable(alphabet, v.usesPadding, v.paddingChar)
    ensures Coherent(v)
    ensures Complete(v) <==> ProperAscii(alphabet, v.usesPadding, v.paddingChar)
  {
    if Complete(v) {
      CompleteIsProper(v);
    }
    if ProperAscii(alphabet, v.usesPadding, v.paddingChar) {
      forall i | 0 <= i < 64
        ensures v.toAsciiC[i] < 128 && v.toBase64[v.toAsciiC[i]] == i
      {
        EnteredAt(alphabet, i);
      }
    }
  }

  /** Complete tables mean a proper alphabet: two positions decoding from
      the same char would be the same position. */
  lemma CompleteIsProper(v: Variant)
    requires Valid(v) && Complete(v)
    ensures ProperAscii(v.toAsciiC, v.usesPadding, v.paddingChar)
  {
    forall i, j | 0 <= i < j < 64
      ensures v.toAsciiC[i] != v.toAsciiC[j]
    {
      assert v.toBase64[v.toAsciiC[i]] == i;
      assert v.toBase64[v.toAsciiC[j]] == j;
    }
  }

  /** With distinct chars, each alphabet char's entry is its position. */
  lemma EnteredAt(alphabet: seq<unit16>, i: nat)
    requires |alphabet| == 64 && Enter(alphabet, 64).Success? && i < 64
    requires forall i, j :: 0 <= i < j < 64 ==> alphabet[i] != alphabet[j]
    ensures alphabet[i] < 128 && Enter(alphabet, 64).value[alphabet[i]] == i
  {
    var t := Enter(alphabet, 64).value;
    var ch := alphabet[i];
    assert ch < 128;
    assert t[ch] != -1 by {
      assert alphabet[i] == ch;
    }
    var k := t[ch];
    assert alphabet[k] == ch;
    assert k == i;
  }

  /** The copy constructors: the tables of `base`, with a new name, padding
      and line length.  The decoding table is copied as it is, so a padding
      char that differs from the base's is not entered in it. */
  function CopyVariant(base: Variant, name: string, usesPadding: bool, paddingChar: unit16, maxLineLength: int): (r: Variant)
    requires Coherent(base)
    ensures Coherent(r)
    ensures r.toAsciiC == base.toAsciiC && r.toBase64 == base.toBase64
    ensures r.name == name && r.usesPadding == usesPadding && r.paddingChar == paddingChar && r.maxLineLength == maxLineLength
    ensures Complete(base) && usesPadding == base.usesPadding && paddingChar == base.paddingChar ==> Complete(r)
    ensures Complete(base) && !usesPadding ==> Complete(r)
  {
    Variant(name, base.toAsciiC, base.toAsciiB, base.toBase64, usesPadding, paddingChar, maxLineLength)
  }

  /** The copy constructor that changes only the name and line length. */
  function WithLineLength(base: Variant, name: string, maxLineLength: int): (r: Variant)
    requires Coherent(base)
    ensures Coherent(r) && (Complete(base) ==> Complete(r))
    ensures r == base.(name := name, maxLineLength := maxLineLength)
  {
    CopyVariant(base, name, base.usesPadding, base.paddingChar, maxLineLength)
  }

  // ---------------------------------------------------------------------
  // Decoding single chars

  /** decodeBase64Char: the 6-bit value of an alphabet char, the padding
      marker, or the invalid marker; chars beyond ASCII are invalid. */
  function DecodeBase64Char(v: Variant, c: unit16): (r: int)
    requires Coherent(v)
    ensures BASE64_VALUE_PADDING <= r < 64
    ensures r >= 0 ==> v.toAsciiC[r] == c
    ensures c >= 128 ==> r == BASE64_VALUE_INVALID
  {
    if c <= 127 then v.toBase64[c] else BASE64_VALUE_INVALID
  }

  /** With complete tables, an alphabet char decodes to its position and the
      padding char to the padding marker. */
  lemma DecodeAlphabetChar(v: Variant, i: nat)
    requires Coherent(v) && Complete(v) && i < 64
    ensures DecodeBase64Char(v, v.toAsciiC[i]) == i
    ensures v.usesPadding ==> DecodeBase64Char(v, v.paddingChar) == BASE64_VALUE_PADDING
  {
  }

  /** The overload taking an int: a negative value indexes before the table. */
  function DecodeBase64Int(v: Variant, ch: int): (r: Result<int>)
    requires Coherent(v)
    ensures r.Failure? <==> ch < 0
    ensures r.Success? ==> r.value == DecodeBase64Char(v, if ch < 128 then ch else 128)
  {
    if ch < 0 then Failure(IndexOutOfRange)
    else if ch <= 127 then Success(v.toBase64[ch])
    else Success(BASE64_VALUE_INVALID)
  }

  // ---------------------------------------------------------------------
  // Encoding

  /** The 6-bit groups of a 24-bit value, most significant first:
      `(b24 >> 18) & 0x3F` and so on, with arithmetic shifts. */
  function Sextets(b24: int): (s: seq<int>)
    ensures |s| == 4 && forall k :: 0 <= k < 4 ==> 0 <= s[k] < 64
  {
    [(b24 / 0x4_0000) % 64, (b24 / 0x1000) % 64, (b24 / 64) % 64, b24 % 64]
  }

  /** The alphabet chars of some 6-bit groups. */
  function Chars(v: Variant, groups: seq<int>): (cs: seq<unit16>)
    requires Valid(v) && forall k :: 0 <= k < |groups| ==> 0 <= groups[k] < 64
    ensures |cs| == |groups| && forall k :: 0 <= k < |groups| ==> cs[k] == v.toAsciiC[groups[k]]
  {
    seq(|groups|, k requires 0 <= k < |groups| => v.toAsciiC[groups[k]])
  }

  /** encodeBase64Chunk: four alphabet chars for a 24-bit value. */
  function EncodeChunk(v: Variant, b24: int): (cs: seq<unit16>)
    requires Valid(v)
    ensures |cs| == 4 && forall k :: 0 <= k < 4 ==> cs[k] in v.toAsciiC
  {
    Chars(v, Sextets(b24))
  }

  /** encodeBase64Partial: one or two bytes at the top of `bits` as two or
      three chars, then padding up to four chars when the variant pads. */
  function EncodePartial(v: Variant, bits: int, outputBytes: int): (cs: seq<unit16>)
    requires Valid(v)
    ensures |cs| == (if v.usesPadding then 4 else if outputBytes == 2 then 3 else 2)
    ensures cs[..2] == EncodeChunk(v, bits)[..2]
    ensures v.usesPadding ==> cs[3] == v.paddingChar
    ensures outputBytes == 2 ==> cs[2] == EncodeChunk(v, bits)[2]
    ensures outputBytes != 2 && v.usesPadding ==> cs[2] == v.paddingChar
  {
    var s := Sextets(bits);
    var head := [v.toAsciiC[s[0]], v.toAsciiC[s[1]]];
    if v.usesPadding then
      head + [if outputBytes == 2 then v.toAsciiC[s[2]] else v.paddingChar, v.paddingChar]
    else if outputBytes == 2 then head + [v.toAsciiC[s[2]]]
    else head
  }

  /** The byte-output versions, through the byte table, with the padding char
      cast to a byte. */
  function EncodeChunkBytes(v: Variant, b24: int): (bs: seq<byte>)
    requires Valid(v)
    ensures |bs| == 4 && forall k :: 0 <= k < 4 ==> bs[k] in v.toAsciiB
  {
    var s := Sextets(b24);
    [v.toAsciiB[s[0]], v.toAsciiB[s[1]], v.toAsciiB[s[2]], v.toAsciiB[s[3]]]
  }

  function EncodePartialBytes(v: Variant, bits: int, outputBytes: int): (bs: seq<byte>)
    requires Valid(v)
    ensures |bs| == (if v.usesPadding then 4 else if outputBytes == 2 then 3 else 2)
    ensures bs[..2] == EncodeChunkBytes(v, bits)[..2]
    ensures v.usesPadding ==> bs[3] == v.paddingChar % 256
  {
    var s := Sextets(bits);
    var head := [v.toAsciiB[s[0]], v.toAsciiB[s[1]]];
    var pb := v.paddingChar % 256;
    if v.usesPadding then head + [if outputBytes == 2 then v.toAsciiB[s[2]] else pb, pb]
    else if outputBytes == 2 then head + [v.toAsciiB[s[2]]]
    else head
  }

  /** The byte tables of a variant built by a constructor are its char
      tables cast to bytes, so the two outputs agree on ASCII alphabets. */
  lemma ByteOutputMatchesChars(v: Variant, b24: int)
    requires Valid(v) && forall i :: 0 <= i < 64 ==> v.toAsciiB[i] == v.toAsciiC[i] % 256
    ensures forall k :: 0 <= k < 4 ==> EncodeChunkBytes(v, b24)[k] == EncodeChunk(v, b24)[k] % 256
  {
  }

  /** The 24-bit value of three bytes, first byte highest. */
  function Triple(x0: byte, x1: byte, x2: byte): (b24: int)
    ensures 0 <= b24 < 0x100_0000
  {
    x0 * 0x1_0000 + x1 * 0x100 + x2
  }

  /** The two chars of the JSON escape that stands for a line feed. */
  const LINE_FEED_ESCAPE: seq<unit16> := ['\\' as int, 'n' as int]

  /** encode(input, addQuotes). */
  function Encode(v: Variant, input: seq<byte>, addQuotes: bool): (s: seq<unit16>)
    requires Valid(v)
  {
    var quote: seq<unit16> := if addQuotes then ['"' as int] else [];
    quote + EncodeFrom(v, input, 0, v.maxLineLength / 4) + quote
  }

  /** The encoding loop from input position `ptr`, `chunksBeforeLF` full
      chunks before the next line break. */
  function EncodeFrom(v: Variant, input: seq<byte>, ptr: nat, chunksBeforeLF: int): (s: seq<unit16>)
    requires Valid(v) && ptr <= |input|
    decreases |input| - ptr
  {
    if ptr + 3 <= |input| then
      var chunk := EncodeChunk(v, Triple(input[ptr], input[ptr + 1], input[ptr + 2]));
      if chunksBeforeLF - 1 <= 0 then
        chunk + LINE_FEED_ESCAPE + EncodeFrom(v, input, ptr + 3, v.maxLineLength / 4)
      else chunk + EncodeFrom(v, input, ptr + 3, chunksBeforeLF - 1)
    else if ptr == |input| then []
    else
      var left := |input| - ptr;
      var bits := input[ptr] as int * 0x1_0000 + (if left == 2 then input[ptr + 1] as int * 0x100 else 0);
      EncodePartial(v, bits, left)
  }

  /** The one or two bytes of a partial unit at the top of a 24-bit value. */
  function PartialBits(data: seq<byte>): (bits: int)
    requires 1 <= |data| <= 2
  {
    data[0] as int * 0x1_0000 + (if |data| == 2 then data[1] as int * 0x100 else 0)
  }

  /** Base64 without line breaks: the reference the decoder inverts. */
  function Plain(v: Variant, data: seq<byte>): (s: seq<unit16>)
    requires Valid(v)
    decreases |data|
  {
    if |data| >= 3 then EncodeChunk(v, Triple(data[0], data[1], data[2])) + Plain(v, data[3..])
    else if |data| == 0 then []
    else EncodePartial(v, PartialBits(data), |data|)
  }

  /** The encoding loop writes plain Base64 as long as it does not reach the
      line length: fewer full chunks are left than may precede a break. */
  lemma {:induction false} EncodeFromIsPlain(v: Variant, input: seq<byte>, ptr: nat, chunksBeforeLF: int)
    requires Valid(v) && ptr <= |input|
    requires (|input| - ptr) / 3 == 0 || (|input| - ptr) / 3 < chunksBeforeLF
    ensures EncodeFrom(v, input, ptr, chunksBeforeLF) == Plain(v, input[ptr..])
    decreases |input| - ptr
  {
    var data := input[ptr..];
    if ptr + 3 <= |input| {
      assert data[3..] == input[ptr + 3..];
      assert (|input| - (ptr + 3)) / 3 == (|input| - ptr) / 3 - 1;
      EncodeFromIsPlain(v, input, ptr + 3, chunksBeforeLF - 1);
    }
  }

  /** With quotes the same text is enclosed in double quotes; without a
      line break (short input or unlimited line length) it is plain Base64. */
  lemma EncodeIsPlain(v: Variant, input: seq<byte>)
    requires Valid(v) && (|input| / 3 == 0 || |input| / 3 < v.maxLineLength / 4)
    ensures Encode(v, input, false) == Plain(v, input)
    ensures Encode(v, input, true) == ['"' as int] + Plain(v, input) + ['"' as int]
  {
    EncodeFromIsPlain(v, input, 0, v.maxLineLength / 4);
    assert input[0..] == input;
  }

  /** After every `maxLineLength / 4` full chunks (at least one), the
      encoder writes the line-feed escape. */
  lemma {:induction false} LineBreakAfterFullLine(v: Variant, input: seq<byte>, ptr: nat, k: nat)
    requires Valid(v) && 1 <= k && ptr + 3 * k <= |input|
    ensures EncodeFrom(v, input, ptr, k) ==
      Plain(v, input[ptr..ptr + 3 * k]) + LINE_FEED_ESCAPE + EncodeFrom(v, input, ptr + 3 * k, v.maxLineLength / 4)
    decreases k
  {
    if k == 1 {
      PlainFront(v, input, ptr, k);
      EncodeFromFront(v, input, ptr, k);
    } else {
      LineBreakAfterFullLine(v, input, ptr + 3, k - 1);
      LineBreakStep(v, input, ptr, k);
    }
  }

  /** The inductive step: one more chunk in front of a full line. */
  lemma LineBreakStep(v: Variant, input: seq<byte>, ptr: nat, k: nat)
    requires Valid(v) && 2 <= k && ptr + 3 * k <= |input|
    requires EncodeFrom(v, input, ptr + 3, k - 1) ==
      Plain(v, input[ptr + 3..ptr + 3 * k]) + LINE_FEED_ESCAPE + EncodeFrom(v, input, ptr + 3 * k, v.maxLineLength / 4)
    ensures EncodeFrom(v, input, ptr, k) ==
      Plain(v, input[ptr..ptr + 3 * k]) + LINE_FEED_ESCAPE + EncodeFrom(v, input, ptr + 3 * k, v.maxLineLength / 4)
  {
    var chunk := EncodeChunk(v, Triple(input[ptr], input[ptr + 1], input[ptr + 2]));
    var after := EncodeFrom(v, input, ptr + 3 * k, v.maxLineLength / 4);
    var tail := Plain(v, input[ptr + 3..ptr + 3 * k]);
    PlainFront(v, input, ptr, k);
    EncodeFromFront(v, input, ptr, k);
    assert EncodeFrom(v, input, ptr, k) == chunk + (tail + LINE_FEED_ESCAPE + after);
    Regroup(chunk, tail + LINE_FEED_ESCAPE, after);
    Regroup(chunk, tail, LINE_FEED_ESCAPE);
  }

  /** The encoding loop writes the first chunk, then a line feed once the
      count of chunks before one runs out. */
  lemma EncodeFromFront(v: Variant, input: seq<byte>, ptr: nat, k: nat)
    requires Valid(v) && 1 <= k && ptr + 3 * k <= |input|
    ensures var chunk := EncodeChunk(v, Triple(input[ptr], input[ptr + 1], input[ptr + 2]));
      EncodeFrom(v, input, ptr, k) ==
        if k == 1 then chunk + LINE_FEED_ESCAPE + EncodeFrom(v, input, ptr + 3, v.maxLineLength / 4)
        else chunk + EncodeFrom(v, input, ptr + 3, k - 1)
  {
  }

  /** The plain encoding of whole chunks starts with the first chunk. */
  lemma PlainFront(v: Variant, input: seq<byte>, ptr: nat, k: nat)
    requires Valid(v) && 1 <= k && ptr + 3 * k <= |input|
    ensures var data := input[ptr..ptr + 3 * k];
      && data[3..] == input[ptr + 3..ptr + 3 + 3 * (k - 1)]
      && Plain(v, data) == EncodeChunk(v, Triple(input[ptr], input[ptr + 1], input[ptr + 2])) + Plain(v, data[3..])
      && (k == 1 ==> Plain(v, data[3..]) == [])
  {
    var data := input[ptr..ptr + 3 * k];
    assert data[0] == input[ptr] && data[1] == input[ptr + 1] && data[2] == input[ptr + 2];
    assert data[3..] == input[ptr + 3..ptr + 3 + 3 * (k - 1)];
    if k == 1 {
      assert data[3..] == [];
    }
  }

  // ---------------------------------------------------------------------
  // Decoding

  /** The error for an unusable char, by the rule _reportInvalidBase64
      follows: white space, a misplaced padding char, or any other char;
      the char's hex code is not rendered. */
  function InvalidBase64(v: Variant, ch: unit16, bindex: nat, msg: Option<string>): (e: Exc)
    ensures e.IllegalArgument?
  {
    var unit := "character #" + Decimal(bindex + 1) + " of 4-char base64 unit";
    var base :=
      if ch <= INT_SPACE then "Illegal white space character as " + unit + ": can only used between units"
      else if ch == v.paddingChar then "Unexpected padding character as " + unit + ": padding only legal as 3rd or 4th character"
      else "Illegal character in base64 content";
    IllegalArgument(if msg.Some? then base + ": " + msg.value else base)
  }

  const BASE64_EOF: Exc := IllegalArgument("Unexpected end-of-String in base64 content")

  /** The white-space skip at the start of a unit: the position of the
      unit's first char, or None when the input ends, which it does as soon
      as the char just read is the last one, white space or not. */
  function SkipWhite(s: seq<unit16>, ptr: nat): (p: Option<nat>)
    requires ptr < |s|
    ensures p.Some? ==> ptr <= p.value && p.value + 1 < |s| && s[p.value] > INT_SPACE
    decreases |s| - ptr
  {
    if ptr + 1 >= |s| then None
    else if s[ptr] <= INT_SPACE then SkipWhite(s, ptr + 1)
    else Some(ptr)
  }

  /** The bytes `(byte)(d >> 8), (byte)d` that appendTwoBytes adds. */
  function TwoBytes(d: int): seq<byte>
  {
    [BAB.LowByte(d / 0x100), BAB.LowByte(d)]
  }

  /** The bytes appendThreeBytes adds. */
  function ThreeBytes(d: int): seq<byte>
  {
    [BAB.LowByte(d / 0x1_0000), BAB.LowByte(d / 0x100), BAB.LowByte(d)]
  }

  /** What one unit of two to four chars decodes to: the last bytes of the
      text, the bytes of a complete unit after which decoding goes on, or
      the error. */
  datatype UnitStep = Last(bytes: seq<byte>) | Unit(bytes: seq<byte>) | Refused(error: Exc)

  /** A char of the alphabet, which decodes to its 6-bit value. */
  predicate IsSextet(v: Variant, c: unit16)
    requires Coherent(v)
  {
    DecodeBase64Char(v, c) >= 0
  }

  /** A char the decoding table marks as padding. */
  predicate IsPadding(v: Variant, c: unit16)
    requires Coherent(v)
  {
    DecodeBase64Char(v, c) == BASE64_VALUE_PADDING
  }

  /** A well-formed unit of Base64 for the variant, given as the chars from
      its first one, four or fewer when the text ends: the first two chars
      are alphabet chars; the third is an alphabet char or padding; padding
      in the third position must be followed by the padding char in the
      fourth; after an alphabet char in the third position the fourth is an
      alphabet char or padding; and a unit cut short by the end of the text
      (after its second or third alphabet char) is well formed only for a
      variant that does not use padding. */
  predicate UnitOk(v: Variant, w: seq<unit16>)
    requires Coherent(v) && 2 <= |w| <= 4
  {
    && IsSextet(v, w[0]) && IsSextet(v, w[1])
    && (|w| == 2 ==> !v.usesPadding)
    && (|w| >= 3 && IsSextet(v, w[2]) ==>
          (|w| == 3 ==> !v.usesPadding) && (|w| == 4 ==> IsSextet(v, w[3]) || IsPadding(v, w[3])))
    && (|w| >= 3 && !IsSextet(v, w[2]) ==>
          IsPadding(v, w[2]) && |w| == 4 && w[3] == v.paddingChar)
  }

  /** The body of decode's main loop, on the chars from a unit's first char
      to at most four chars on.  Fewer than four chars means the text ends
      there: without padding that ends the data, with padding it is an
      error.  A unit is refused exactly when it is not well formed. */
  function DecodeUnit(v: Variant, w: seq<unit16>): (st: UnitStep)
    requires Coherent(v) && 2 <= |w| <= 4
    ensures st.Refused? <==> !UnitOk(v, w)
    ensures st.Unit? ==> |w| == 4 && 1 <= |st.bytes| <= 3
    ensures st.Last? ==> !v.usesPadding && |w| < 4 && |st.bytes| == |w| - 1
    ensures st.Refused? ==> st.error.IllegalArgument?
  {
    var b0 := DecodeBase64Char(v, w[0]);
    if b0 < 0 then Refused(InvalidBase64(v, w[0], 0, None))
    else
      var b1 := DecodeBase64Char(v, w[1]);
      if b1 < 0 then Refused(InvalidBase64(v, w[1], 1, None))
      else
        var d := b0 * 64 + b1;
        if |w| == 2 then
          if !v.usesPadding then Last([BAB.LowByte(d / 16)]) else Refused(BASE64_EOF)
        else
          var b2 := DecodeBase64Char(v, w[2]);
          if b2 < 0 then
            if b2 != BASE64_VALUE_PADDING then Refused(InvalidBase64(v, w[2], 2, None))
            else if |w| == 3 then Refused(BASE64_EOF)
            else if w[3] != v.paddingChar then Refused(InvalidBase64(v, w[3], 3, Some("expected padding character")))
            else Unit([BAB.LowByte(d / 16)])
          else
            var d := d * 64 + b2;
            if |w| == 3 then
              if !v.usesPadding then Last(TwoBytes(d / 4)) else Refused(BASE64_EOF)
            else
              var b3 := DecodeBase64Char(v, w[3]);
              if b3 < 0 then
                if b3 != BASE64_VALUE_PADDING then Refused(InvalidBase64(v, w[3], 3, None))
                else Unit(TwoBytes(d / 4))
              else Unit(ThreeBytes(d * 64 + b3))
  }

  /** The chars of the unit that starts at `p`: four, or fewer at the end. */
  function UnitAt(s: seq<unit16>, p: nat): (w: seq<unit16>)
    requires p + 1 < |s|
    ensures 2 <= |w| <= 4 && p + |w| <= |s| && w == s[p..p + |w|]
    ensures |w| < 4 ==> p + |w| == |s|
  {
    if p + 4 <= |s| then s[p..p + 4] else s[p..]
  }

  /** Well-formed Base64 text for the variant, read as the decoding loop
      reads it: white space between units, each unit well formed, and the
      text over after a unit cut short (a single char left after the white
      space is never read). */
  predicate WellFormed(v: Variant, s: seq<unit16>)
    requires Coherent(v)
    decreases |s|
  {
    |s| == 0 || SkipWhite(s, 0).None? ||
      var p := SkipWhite(s, 0).value;
      var w := UnitAt(s, p);
      UnitOk(v, w) && (|w| == 4 ==> WellFormed(v, s[p + 4..]))
  }

  /** decode(str), on the text from the loop's read position on: skip the
      white space, decode one unit, and go on after it.  Decoding fails, with
      an argument error, exactly on text that is not well-formed Base64. */
  function Decode(v: Variant, s: seq<unit16>): (r: Result<seq<byte>>)
    requires Coherent(v)
    ensures r.Failure? <==> !WellFormed(v, s)
    ensures r.Failure? ==> r.error.IllegalArgument?
    decreases |s|
  {
    if |s| == 0 then Success([])
    else
      var start := SkipWhite(s, 0);
      if start.None? then Success([])
      else
        var p := start.value;
        var step := DecodeUnit(v, UnitAt(s, p));
        WellFormedAt(v, s, p);
        if step.Refused? then Failure(step.error)
        else if step.Last? then Success(step.bytes)
        else
          var rest :- Decode(v, s[p + 4..]);
          Success(step.bytes + rest)
  }

  /** Well-formedness of a text whose first unit starts at `p`. */
  lemma WellFormedAt(v: Variant, s: seq<unit16>, p: nat)
    requires Coherent(v) && |s| > 0 && SkipWhite(s, 0) == Some(p)
    ensures WellFormed(v, s) <==>
      UnitOk(v, UnitAt(s, p)) && (|UnitAt(s, p)| == 4 ==> WellFormed(v, s[p + 4..]))
  {
  }

  // ---------------------------------------------------------------------
  // The round trip

  /** The 6-bit groups of a 24-bit value put back together give the value. */
  lemma SextetsJoin(b24: int)
    requires 0 <= b24 < 0x100_0000
    ensures var s := Sextets(b24); ((s[0] * 64 + s[1]) * 64 + s[2]) * 64 + s[3] == b24
  {
    var q1 := b24 / 64;
    var q2 := q1 / 64;
    var q3 := q2 / 64;
    assert b24 == q1 * 64 + b24 % 64;
    assert q1 == q2 * 64 + q1 % 64;
    assert q2 == q3 * 64 + q2 % 64;
    assert q2 == b24 / 0x1000;
    assert q3 == b24 / 0x4_0000;
  }

  /** The bytes of a 24-bit value made of three bytes are those bytes. */
  lemma TripleBytes(x0: byte, x1: byte, x2: byte)
    ensures ThreeBytes(Triple(x0, x1, x2)) == [x0, x1, x2]
  {
    var d := Triple(x0, x1, x2);
    var hi := x0 as int * 0x100 + x1;
    assert d == hi * 0x100 + x2;
    ByteQuotient(hi, x2);
    ByteQuotient(x0, x1);
    assert d / 0x1_0000 == hi / 0x100 == x0;
    assert d / 0x100 == hi && hi % 0x100 == x1 && d % 0x100 == x2;
    assert BAB.LowByte(x0) == x0 && BAB.LowByte(hi) == x1 && BAB.LowByte(d) == x2;
  }

  /** Division by 256 undoes `q * 256 + r` for a byte `r`. */
  lemma ByteQuotient(q: int, r: byte)
    ensures (q * 0x100 + r) / 0x100 == q && (q * 0x100 + r) % 0x100 == r
  {
  }

  /** The alphabet chars of a unit decode to their 6-bit groups, and none of
      them is white space. */
  lemma ChunkCharsDecode(v: Variant, b24: int)
    requires Coherent(v) && Complete(v) && ProperAlphabet(v.toAsciiC, v.usesPadding, v.paddingChar)
    ensures forall k :: 0 <= k < 4 ==> DecodeBase64Char(v, EncodeChunk(v, b24)[k]) == Sextets(b24)[k]
    ensures forall k :: 0 <= k < 4 ==> EncodeChunk(v, b24)[k] > INT_SPACE
  {
    var g := Sextets(b24);
    DecodeAlphabetChar(v, g[0]);
    DecodeAlphabetChar(v, g[1]);
    DecodeAlphabetChar(v, g[2]);
    DecodeAlphabetChar(v, g[3]);
  }

  /** A full unit decodes to its three bytes. */
  lemma ChunkDecodes(v: Variant, x0: byte, x1: byte, x2: byte)
    requires Coherent(v) && Complete(v) && ProperAlphabet(v.toAsciiC, v.usesPadding, v.paddingChar)
    ensures DecodeUnit(v, EncodeChunk(v, Triple(x0, x1, x2))) == Unit([x0, x1, x2])
  {
    var b24 := Triple(x0, x1, x2);
    ChunkCharsDecode(v, b24);
    SextetsJoin(b24);
    TripleBytes(x0, x1, x2);
  }

  /** The groups of a single byte at the top of a 24-bit value. */
  lemma OneByteGroups(x0: byte)
    ensures var g := Sextets(x0 as int * 0x1_0000); g[0] * 64 + g[1] == x0 * 16
  {
    var bits := x0 as int * 0x1_0000;
    var q := x0 / 4;
    var r := x0 % 4;
    assert x0 == 4 * q + r;
    assert bits == 0x4_0000 * q + 0x1_0000 * r;
    var g := Sextets(bits);
    assert g[0] == q by {
      assert bits / 0x4_0000 == q;
    }
    assert g[1] == 16 * r by {
      assert bits / 0x1000 == 64 * q + 16 * r;
    }
  }

  /** The groups of two bytes at the top of a 24-bit value. */
  lemma TwoByteGroups(x0: byte, x1: byte)
    ensures var g := Sextets(x0 as int * 0x1_0000 + x1 as int * 0x100);
      (g[0] * 64 + g[1]) * 64 + g[2] == x0 * 0x400 + x1 * 4
  {
    var bits := x0 as int * 0x1_0000 + x1 as int * 0x100;
    var n := x0 * 0x400 + x1 * 4;
    assert bits == 64 * n;
    assert bits % 64 == 0;
    SextetsJoin(bits);
  }

  /** A one-byte partial unit decodes to its byte. */
  lemma PartialDecodesOne(v: Variant, x0: byte)
    requires Coherent(v) && Complete(v) && ProperAlphabet(v.toAsciiC, v.usesPadding, v.paddingChar)
    ensures DecodeUnit(v, EncodePartial(v, PartialBits([x0]), 1)) ==
      if v.usesPadding then Unit([x0]) else Last([x0])
  {
    var bits := PartialBits([x0]);
    var w := EncodePartial(v, bits, 1);
    var g := Sextets(bits);
    DecodeAlphabetChar(v, g[0]);
    DecodeAlphabetChar(v, g[1]);
    assert DecodeBase64Char(v, w[0]) == g[0];
    assert DecodeBase64Char(v, w[1]) == g[1];
    OneByteGroups(x0);
    assert BAB.LowByte((g[0] * 64 + g[1]) / 16) == x0;
  }

  /** A two-byte partial unit decodes to its bytes. */
  lemma PartialDecodesTwo(v: Variant, x0: byte, x1: byte)
    requires Coherent(v) && Complete(v) && ProperAlphabet(v.toAsciiC, v.usesPadding, v.paddingChar)
    ensures DecodeUnit(v, EncodePartial(v, PartialBits([x0, x1]), 2)) ==
      if v.usesPadding then Unit([x0, x1]) else Last([x0, x1])
  {
    var bits := PartialBits([x0, x1]);
    var w := EncodePartial(v, bits, 2);
    var g := Sextets(bits);
    DecodeAlphabetChar(v, g[0]);
    DecodeAlphabetChar(v, g[1]);
    DecodeAlphabetChar(v, g[2]);
    assert DecodeBase64Char(v, w[0]) == g[0];
    assert DecodeBase64Char(v, w[1]) == g[1];
    assert DecodeBase64Char(v, w[2]) == g[2];
    TwoByteGroups(x0, x1);
    TwoBytesBack((g[0] * 64 + g[1]) * 64 + g[2], x0, x1);
  }

  /** The 18 bits of a two-byte partial unit, shifted down, give the bytes. */
  lemma TwoBytesBack(bits: int, x0: byte, x1: byte)
    requires bits == x0 * 0x400 + x1 * 4
    ensures TwoBytes(bits / 4) == [x0, x1]
  {
    var m := x0 as int * 0x100 + x1;
    assert bits / 4 == m;
    ByteQuotient(x0, x1);
    assert BAB.LowByte(x0) == x0 && BAB.LowByte(m) == x1;
  }

  /** A partial unit decodes to its one or two bytes, as the last bytes of
      the text when there is no padding. */
  lemma PartialDecodes(v: Variant, data: seq<byte>)
    requires Coherent(v) && Complete(v) && ProperAlphabet(v.toAsciiC, v.usesPadding, v.paddingChar)
    requires 1 <= |data| <= 2
    ensures DecodeUnit(v, EncodePartial(v, PartialBits(data), |data|)) ==
      if v.usesPadding then Unit(data) else Last(data)
  {
    if |data| == 1 {
      assert data == [data[0]];
      PartialDecodesOne(v, data[0]);
    } else {
      assert data == [data[0], data[1]];
      PartialDecodesTwo(v, data[0], data[1]);
    }
  }

  /** Decoding a text that starts with a full unit of plain Base64: its
      three bytes, then whatever the rest decodes to. */
  lemma DecodeFirstUnit(v: Variant, data: seq<byte>, tail: seq<unit16>)
    requires Coherent(v) && Complete(v) && ProperAlphabet(v.toAsciiC, v.usesPadding, v.paddingChar)
    requires |data| >= 3
    ensures Decode(v, Plain(v, data) + tail) ==
      (var rest :- Decode(v, Plain(v, data[3..]) + tail); Success(data[..3] + rest))
  {
    var s := Plain(v, data) + tail;
    var chunk := EncodeChunk(v, Triple(data[0], data[1], data[2]));
    var rest := Plain(v, data[3..]) + tail;
    assert s == chunk + rest by {
      Regroup(chunk, Plain(v, data[3..]), tail);
    }
    ChunkCharsDecode(v, Triple(data[0], data[1], data[2]));
    assert SkipWhite(s, 0) == Some(0);
    assert UnitAt(s, 0) == chunk;
    ChunkDecodes(v, data[0], data[1], data[2]);
    assert data[..3] == [data[0], data[1], data[2]];
    assert s[4..] == rest;
  }

  /** A partial unit starts with an alphabet char, which is not white space. */
  lemma PartialStartsPrintable(v: Variant, data: seq<byte>)
    requires Valid(v) && ProperAlphabet(v.toAsciiC, v.usesPadding, v.paddingChar)
    requires 1 <= |data| <= 2
    ensures EncodePartial(v, PartialBits(data), |data|)[0] > INT_SPACE
  {
    var bits := PartialBits(data);
    assert EncodePartial(v, bits, |data|)[0] == EncodeChunk(v, bits)[0] == v.toAsciiC[Sextets(bits)[0]];
  }

  /** Decoding the last, partial unit of plain Base64, followed by nothing
      or, when it is padded, by one stray char. */
  lemma DecodeLastUnit(v: Variant, data: seq<byte>, tail: seq<unit16>)
    requires Coherent(v) && Complete(v) && ProperAlphabet(v.toAsciiC, v.usesPadding, v.paddingChar)
    requires 1 <= |data| <= 2
    requires tail == [] || (|tail| == 1 && v.usesPadding)
    ensures Decode(v, Plain(v, data) + tail) == Success(data)
  {
    var part := EncodePartial(v, PartialBits(data), |data|);
    assert Plain(v, data) == part;
    PartialStartsPrintable(v, data);
    PartialDecodes(v, data);
    if v.usesPadding {
      DecodePaddedLast(v, part, data, tail);
    } else {
      assert part + tail == part;
      DecodeBareLast(v, part, data);
    }
  }

  lemma DecodePaddedLast(v: Variant, part: seq<unit16>, data: seq<byte>, tail: seq<unit16>)
    requires Coherent(v) && |part| == 4 && part[0] > INT_SPACE && |tail| <= 1
    requires DecodeUnit(v, part) == Unit(data)
    ensures Decode(v, part + tail) == Success(data)
  {
    var s := part + tail;
    assert SkipWhite(s, 0) == Some(0);
    assert UnitAt(s, 0) == part;
    assert s[4..] == tail;
    assert Decode(v, tail) == Success([]);
    assert data + [] == data;
  }

  lemma DecodeBareLast(v: Variant, part: seq<unit16>, data: seq<byte>)
    requires Coherent(v) && 2 <= |part| <= 3 && part[0] > INT_SPACE
    requires DecodeUnit(v, part) == Last(data)
    ensures Decode(v, part) == Success(data)
  {
    assert SkipWhite(part, 0) == Some(0);
    assert UnitAt(part, 0) == part;
  }

  /** Plain Base64, followed by nothing or by one stray char when the text
      ends in a complete unit, decodes to the data. */
  lemma {:induction false} DecodePlain(v: Variant, data: seq<byte>, tail: seq<unit16>)
    requires Coherent(v) && Complete(v) && ProperAlphabet(v.toAsciiC, v.usesPadding, v.paddingChar)
    requires tail == [] || (|tail| == 1 && (v.usesPadding || |data| % 3 == 0))
    ensures Decode(v, Plain(v, data) + tail) == Success(data)
    decreases |data|
  {
    if |data| >= 3 {
      ModThree(|data|);
      DecodePlain(v, data[3..], tail);
      DecodePlainStep(v, data, tail);
    } else if |data| > 0 {
      DecodeLastUnit(v, data, tail);
    } else {
      DecodeStray(v, Plain(v, data) + tail);
    }
  }

  /** The step of DecodePlain: the first unit, then the rest as decoded. */
  lemma DecodePlainStep(v: Variant, data: seq<byte>, tail: seq<unit16>)
    requires Coherent(v) && Complete(v) && ProperAlphabet(v.toAsciiC, v.usesPadding, v.paddingChar)
    requires |data| >= 3
    requires Decode(v, Plain(v, data[3..]) + tail) == Success(data[3..])
    ensures Decode(v, Plain(v, data) + tail) == Success(data)
  {
    DecodeFirstUnit(v, data, tail);
    assert data[..3] + data[3..] == data;
  }

  /** Nothing, or a single stray char, decodes to nothing. */
  lemma DecodeStray(v: Variant, s: seq<unit16>)
    requires Coherent(v) && |s| <= 1
    ensures Decode(v, s) == Success([])
  {
  }

  lemma ModThree(n: int)
    requires n >= 3
    ensures (n - 3) % 3 == n % 3
  {
  }

  /** The round trip: decoding what the encoder writes gives back the input,
      whenever the encoder writes no line break. */
  lemma RoundTrip(v: Variant, data: seq<byte>)
    requires Coherent(v) && Complete(v) && ProperAlphabet(v.toAsciiC, v.usesPadding, v.paddingChar)
    requires |data| / 3 == 0 || |data| / 3 < v.maxLineLength / 4
    ensures Decode(v, Encode(v, data, false)) == Success(data)
  {
    EncodeIsPlain(v, data);
    DecodePlain(v, data, []);
    assert Plain(v, data) + [] == Plain(v, data);
  }

  /** A single char after the last complete unit is never read: the
      white-space skip stops as soon as it reads the last char. */
  lemma TrailingCharIgnored(v: Variant, data: seq<byte>, c: unit16)
    requires Coherent(v) && Complete(v) && ProperAlphabet(v.toAsciiC, v.usesPadding, v.paddingChar)
    requires v.usesPadding || |data| % 3 == 0
    ensures Decode(v, Plain(v, data) + [c]) == Success(data)
  {
    DecodePlain(v, data, [c]);
  }

  /** The line-feed escape the encoder writes is not Base64: a text that
      starts with it is refused. */
  lemma LineFeedEscapeRefused(v: Variant, rest: seq<unit16>)
    requires Coherent(v)
    requires forall i :: 0 <= i < 64 ==> v.toAsciiC[i] != '\\' as int
    ensures Decode(v, LINE_FEED_ESCAPE + rest).Failure?
  {
    var s := LINE_FEED_ESCAPE + rest;
    assert s[0] == '\\' as int && s[1] == 'n' as int;
    assert SkipWhite(s, 0) == Some(0);
    assert DecodeBase64Char(v, s[0]) < 0;
  }
}
