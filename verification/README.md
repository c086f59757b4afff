# Jackson streaming core (C# translation), modelled in Dafny

This project models the core of jackson-parser-cs, a C# translation of
Jackson's streaming JSON library. The model covers the codecs, the input
detection, the nesting contexts, the buffers, and the tokenizer and
generator rules:

- **Codecs over sequences.**
  - Base64 variants, with their encoder and decoder.
  - JSON string quoting and UTF-8 encoding, as in section 3 of RFC 3629 and section 7 of RFC 8259.
  - The UTF-8 writer.
  - Decimal printing and parsing of `int` and `long`.
  - JSON Pointer expressions, as in RFC 6901.
  - Maven version strings.
- **Input detection.**
  - Byte-order-mark and encoding detection, as in section 3 of RFC 4627.
  - The "looks like JSON" sniffer.
  - Format selection by match strength.
- **Small state machines.**
  - The read and write nesting contexts, with duplicate-name detection.
  - The token-filter context and the JSON-Pointer-based filter.
  - The default and minimal pretty printers and the default indenter.
  - The parser and generator feature masks.
- **Buffers.**
  - The segmented byte builder and the segmented text buffer.
  - The buffer recycler.
  - The allocation and release protocol of `IOContext`.
- **Tokenizer and generator rules.**
  - Escape decoding.
  - The number grammar, with leading zeros and fraction and exponent digits.
  - Literal matching, close-marker matching and the `int`/`long`/big-integer selection.
  - The lenient `getValueAs...` coercions and `skipChildren`.
  - The UTF-8 generator's separators, escapes and container writes.

The modules follow the C# classes, one class to a module except where noted. Most carry the class's
name; a few carry a shorter one: `Bootstrapper` (ByteSourceJsonBootstrapper),
`ReaderParser` (ReaderBasedJsonParser), `FilterContext` (TokenFilterContext),
`DataFormat` (DataFormatDetector and DataFormatMatcher), `ParserFeatures`
(JsonParser's features and value checks), `ParserMinimal`
(ParserMinimalBase) and `GeneratorBase`. Objects
become immutable datatypes, and each mutating method becomes a function
from the old state to the new one. Exceptions become the `Failure` side of
a `Result` (module `Wrappers`). The failure names the exception's kind:
`IllegalArgument`, `IllegalState`, `IndexOutOfRange`, `NullReference`,
`ParseFailure`, `GenerationFailure`, `IOFailure`, `Overflow`, `Format`. Messages are kept only
where a contract speaks of them.

Modelling choices that apply throughout:

- A C# `char` is a UTF-16 code unit and is modelled as `unit16`, an `int`
  in [0, 0xFFFF]. Dafny's own `char` excludes surrogates, so it cannot
  stand for one. The exceptions are texts that the code only reads as
  decimal digits, signs and separators, which use Dafny's `string`: the
  modules `Version`, `VersionUtil`, `Text` and `NumberInput`, and the digit
  text of `ParserBase`. In these a lone surrogate cannot occur, and
  `Version.CompareOrdinal` orders chars by their scalar value, which agrees
  with the UTF-16 order of `string.CompareOrdinal` only up to U+FFFF (see
  "Left out").
- A C# `byte` is unsigned and is modelled as `byte`, an `int` in [0, 255].
- C# `int` and `long` arithmetic that can wrap is written out with
  `Ints.ToInt32` and `Ints.ToInt64`. These keep the low 32 or 64 bits.
- A buffer filled in place is modelled as the sequence of what has been
  written. Where the source hands its own array to a caller to fill, as
  TextBuffer's raw segment access does, the caller's stores are an
  operation of their own (`TextBuffer.StoreInSegment`).
- Where the translation left a loop bound undeclared, the model reads the
  whole array or string, as the loop evidently intends. This applies to
  `len` at util/TextBuffer.cs:389 and :846, io/CharTypes.cs:305,
  json/ByteSourceJsonBootstrapper.cs:421 and util/VersionUtil.cs:185, and
  to `end` at json/UTF8JsonGenerator.cs:2071.
- Feature masks are modelled as sets of bit positions.
- The translation keeps Java enum idioms that a C# enum does not have:
  `ordinal()`, `values()` and per-constant fields such as `_mask` and
  `_defaultState` (JsonParser.cs:279-321), and a Java-style enum
  constructor for the tokens (JsonToken.cs:151-192). The model gives
  these the Java meaning: the ordinal is the declaration position, and
  each constant carries its own fields.
- Some behaviours of the code are modelled as written and proved as
  lemmas, rather than reported as findings:
  - `Base64Variant.TrailingCharIgnored`: one stray char after the last
    complete unit is never read.
  - `Base64Variant.LineFeedEscapeRefused`: the encoder's line break is the
    two-char JSON escape backslash-n, which the decoder refuses. Round
    trips are therefore stated for output without line breaks.
  - `JsonPointer.TildeSlashKept`: a tilde followed by any char other than
    '0' or '1' is kept as it is.
  - `IOContext.ReleaseTwiceFails`: releasing the same buffer a second
    time, when nothing is owned any more, fails with a null reference.
  - `VersionUtil.ParseVersion`: a text of separators only fails indexing
    its first part, given that the split drops trailing empty pieces as
    Java's `Pattern.split` does (see `VersionUtil.Split` under "Left out").

## Model

| member | source | states |
|---|---|---|
| Base64Variant.Enter | com/fasterxml/jackson/core/Base64Variant.cs:130-138 | filling the decode table fails exactly when an alphabet char lies beyond ASCII; otherwise each ASCII char maps to the last position holding it, or to -1 when absent |
| Base64Variant.NewVariant | com/fasterxml/jackson/core/Base64Variant.cs:98-144 | an alphabet whose length is not 64 is refused with an argument error; a built variant keeps its name, padding, line length and alphabet, and its table never names a char other than the one it decodes |
| Base64Variant.NewVariantComplete | com/fasterxml/jackson/core/Base64Variant.cs:132-143 | the decode table maps alphabet char i back to i and the padding char to the padding marker exactly when the alphabet chars are distinct and differ from the padding char |
| Base64Variant.CompleteIffProper | com/fasterxml/jackson/core/Base64Variant.cs:132-143 | the table the constructor builds is coherent, and complete exactly when the alphabet is proper |
| Base64Variant.CompleteIsProper | com/fasterxml/jackson/core/Base64Variant.cs:132-143 | complete tables imply distinct ASCII alphabet chars, none equal to the padding char |
| Base64Variant.EnteredAt | com/fasterxml/jackson/core/Base64Variant.cs:133-138 | with distinct chars, alphabet char i is entered at position i |
| Base64Variant.CopyVariant | com/fasterxml/jackson/core/Base64Variant.cs:162-175 | the copy constructor copies the base's tables and takes the new name, padding and line length; completeness carries over when padding is unchanged or dropped |
| Base64Variant.WithLineLength | com/fasterxml/jackson/core/Base64Variant.cs:151-155 | the line-length copy differs from its base only in name and line length |
| Base64Variant.DecodeBase64Char | com/fasterxml/jackson/core/Base64Variant.cs:237-241 | the decoded value lies between the padding marker and 63, names its own char, and is the invalid marker for any code above 127 |
| Base64Variant.DecodeAlphabetChar | com/fasterxml/jackson/core/Base64Variant.cs:237-241 | with complete tables an alphabet char decodes to its position and the padding char to the padding marker |
| Base64Variant.DecodeBase64Int | com/fasterxml/jackson/core/Base64Variant.cs:243-246 | the int overload fails on a negative code and otherwise agrees with the char overload, codes above 127 being invalid |
| Base64Variant.Chars | com/fasterxml/jackson/core/Base64Variant.cs:259-262 | each 6-bit group becomes the alphabet char at that position |
| Base64Variant.EncodeChunk | com/fasterxml/jackson/core/Base64Variant.cs:271-278 | a 24-bit value becomes exactly four alphabet chars |
| Base64Variant.EncodePartial | com/fasterxml/jackson/core/Base64Variant.cs:299-318 | one or two bytes give two or three chars, padded to four when the variant pads; the leading chars agree with the full chunk |
| Base64Variant.EncodeChunkBytes | com/fasterxml/jackson/core/Base64Variant.cs:350-358 | the byte version writes four bytes from the byte table |
| Base64Variant.EncodePartialBytes | com/fasterxml/jackson/core/Base64Variant.cs:370-390 | the byte version of the partial unit has the same length rule and the padding char cast to a byte |
| Base64Variant.ByteOutputMatchesChars | com/fasterxml/jackson/core/Base64Variant.cs:350-358 | with the byte table the char table cast to bytes, byte and char chunk output agree |
| Base64Variant.EncodeFromIsPlain | com/fasterxml/jackson/core/Base64Variant.cs:439-466 | before any line break is due the encoding loop writes plain Base64 of the remaining input |
| Base64Variant.EncodeIsPlain | com/fasterxml/jackson/core/Base64Variant.cs:421-472 | without a line break, encode writes plain Base64, enclosed in double quotes exactly when asked |
| Base64Variant.LineBreakAfterFullLine | com/fasterxml/jackson/core/Base64Variant.cs:446-452 | after every maxLineLength/4 full chunks the encoder inserts the two-char line-feed escape and restarts the count |
| Base64Variant.InvalidBase64 | com/fasterxml/jackson/core/Base64Variant.cs:644-679 | an invalid Base64 char is reported as an argument error |
| Base64Variant.SkipWhite | com/fasterxml/jackson/core/Base64Variant.cs:513-521 | the white-space skip stops on a char above space that is not the last char of the input |
| Base64Variant.UnitAt | com/fasterxml/jackson/core/Base64Variant.cs:509-606 | a unit is the next four chars, or fewer only at the end of the input |
| Base64Variant.DecodeUnit | com/fasterxml/jackson/core/Base64Variant.cs:522-607 | a unit is refused exactly when it is not well formed: a first or second char outside the alphabet, a third char that is neither an alphabet char nor padding, padding in the third position not followed by the padding char, a fourth char that is neither, or a unit cut short where the variant requires padding; a complete unit yields one to three bytes, a short final unit one byte fewer than its chars, and every refusal is an argument error |
| Base64Variant.Decode | com/fasterxml/jackson/core/Base64Variant.cs:504-611 | decoding fails exactly when the text is not well-formed Base64 for the variant (white space between units, each unit well formed, nothing read after a unit cut short), and every failure is an argument error |
| Base64Variant.SextetsJoin | com/fasterxml/jackson/core/Base64Variant.cs:271-278 | the four 6-bit groups of a 24-bit value put back together give the value |
| Base64Variant.TripleBytes | com/fasterxml/jackson/core/Base64Variant.cs:442-444 | the three bytes packed into a 24-bit value are what appendThreeBytes writes back |
| Base64Variant.ChunkCharsDecode | com/fasterxml/jackson/core/Base64Variant.cs:522-605 | every char of an encoded chunk decodes to its 6-bit group and is not white space |
| Base64Variant.ChunkDecodes | com/fasterxml/jackson/core/Base64Variant.cs:522-607 | an encoded full chunk decodes to its three bytes |
| Base64Variant.PartialDecodes | com/fasterxml/jackson/core/Base64Variant.cs:541-601 | an encoded partial unit decodes to its one or two bytes, as a last unit when there is no padding |
| Base64Variant.DecodeFirstUnit | com/fasterxml/jackson/core/Base64Variant.cs:509-609 | decoding plain Base64 yields the first three bytes and then what the rest decodes to |
| Base64Variant.DecodeLastUnit | com/fasterxml/jackson/core/Base64Variant.cs:541-601 | the final partial unit decodes to its bytes, with at most one stray char after it when padded |
| Base64Variant.DecodePlain | com/fasterxml/jackson/core/Base64Variant.cs:504-611 | plain Base64 of any data decodes to that data |
| Base64Variant.RoundTrip | com/fasterxml/jackson/core/Base64Variant.cs:421-611 | decode inverts encode whenever the encoder writes no line break |
| Base64Variant.TrailingCharIgnored | com/fasterxml/jackson/core/Base64Variant.cs:513-519 | a single char after the last complete unit is never read, so decoding still yields the data |
| Base64Variant.LineFeedEscapeRefused | com/fasterxml/jackson/core/Base64Variant.cs:522-526 | the line-feed escape the encoder writes is refused by decode when the backslash is not in the alphabet |
| Base64Variants.StdAlphabet | com/fasterxml/jackson/core/Base64Variants.cs:25 | the standard alphabet has 64 characters: A-Z, then a-z, then 0-9, then '+' and '/' |
| Base64Variants.StdAlphabetProper | com/fasterxml/jackson/core/Base64Variants.cs:45-46 | the standard alphabet meets the variant constructor's demands: 64 distinct ASCII characters, none of them the padding '=' |
| Base64Variants.IndexOf | com/fasterxml/jackson/core/Base64Variants.cs:97 | the StringBuilder index lookup returns the first position of the character, or -1 exactly when it is absent |
| Base64Variants.ReplaceFirst | com/fasterxml/jackson/core/Base64Variants.cs:97-98 | setCharAt at the looked-up index replaces the first occurrence; an absent character gives an index-out-of-range failure |
| Base64Variants.ReplacePlus | com/fasterxml/jackson/core/Base64Variants.cs:97 | in the standard alphabet, '+' sits at index 62, so only that index changes |
| Base64Variants.ReplaceSlash | com/fasterxml/jackson/core/Base64Variants.cs:98 | once '+' is replaced, '/' sits at index 63, so only that index changes |
| Base64Variants.UrlAlphabet | com/fasterxml/jackson/core/Base64Variants.cs:93-98 | the URL alphabet is the standard one with '-' at index 62 and '_' at index 63 |
| Base64Variants.UrlCharsProper | com/fasterxml/jackson/core/Base64Variants.cs:102-104 | the URL alphabet has 64 distinct ASCII characters and is accepted without padding |
| Base64Variants.Mime | com/fasterxml/jackson/core/Base64Variants.cs:43-47 | MIME uses the standard alphabet with '=' padding and 76-character lines |
| Base64Variants.MimeNoLinefeeds | com/fasterxml/jackson/core/Base64Variants.cs:59-63 | MIME-NO-LINEFEEDS copies MIME but with unlimited line length |
| Base64Variants.Pem | com/fasterxml/jackson/core/Base64Variants.cs:71-72 | PEM copies MIME but with 64-character lines |
| Base64Variants.ModifiedForUrl | com/fasterxml/jackson/core/Base64Variants.cs:93-105 | MODIFIED-FOR-URL uses the URL alphabet, no padding and unlimited line length |
| Base64Variants.DefaultVariant | com/fasterxml/jackson/core/Base64Variants.cs:117-120 | the default variant is MIME-NO-LINEFEEDS |
| Base64Variants.SharedNamesDistinct | com/fasterxml/jackson/core/Base64Variants.cs:124-141 | the four shared variant names are pairwise distinct, so the lookup order does not matter |
| Base64Variants.ValueOf | com/fasterxml/jackson/core/Base64Variants.cs:124-151 | lookup succeeds exactly for the four shared names and returns the variant of that name; otherwise it fails with "No Base64Variant with name" followed by `<null>` or the quoted name |
| Base64Variants.UrlDiffersInTwoChars | com/fasterxml/jackson/core/Base64Variants.cs:95-98 | the URL alphabet agrees with the standard one everywhere except '+' becomes '-' and '/' becomes '_' |
| Base64Variants.SharedRoundTrip | com/fasterxml/jackson/core/Base64Variants.cs:41-105 | for every shared variant, decoding what was encoded (without quotes and within one line) gives back the original bytes |
| Bootstrapper.HandleBom | com/fasterxml/jackson/core/json/ByteSourceJsonBootstrapper.cs:475-544 | a four-byte mark is refused exactly when it is one of the two unusual UCS-4 orders; a recognised mark names 1, 2 or 4 bytes per char and skips at most four bytes |
| Bootstrapper.CheckUtf32 | com/fasterxml/jackson/core/json/ByteSourceJsonBootstrapper.cs:547-590 | an unmarked quad is refused exactly when its first and last bytes are zero and exactly one of the middle two is zero; an accepted one means four bytes per char |
| Bootstrapper.CheckUtf16 | com/fasterxml/jackson/core/json/ByteSourceJsonBootstrapper.cs:592-610 | two bytes are taken as UTF-16 exactly when one of them is zero, big-endian when the high byte is zero |
| Bootstrapper.EncodingOf | com/fasterxml/jackson/core/json/ByteSourceJsonBootstrapper.cs:176-207 | the encoding named from bytes per char has that char width, and for 2 and 4 bytes its byte order is the one detected |
| Bootstrapper.DetectEncoding | com/fasterxml/jackson/core/json/ByteSourceJsonBootstrapper.cs:120-211 | input shorter than two bytes is UTF-8 with no mark; the skipped mark fits in the input; only an input of four or more bytes can be refused, with an I/O error |
| Bootstrapper.DetectsUnmarkedText | com/fasterxml/jackson/core/json/ByteSourceJsonBootstrapper.cs:120-211 | unmarked ASCII text of two or more chars, written in any supported encoding, is detected as that encoding with nothing skipped |
| Bootstrapper.DetectsUnmarkedChar | com/fasterxml/jackson/core/json/ByteSourceJsonBootstrapper.cs:120-211 | one unmarked ASCII char in any supported encoding is detected as that encoding |
| Bootstrapper.DetectsMarkedText | com/fasterxml/jackson/core/json/ByteSourceJsonBootstrapper.cs:120-211 | ASCII text after its encoding's byte-order mark is detected as that encoding, and the whole mark is skipped |
| Bootstrapper.RefusesUnusualUcs4 | com/fasterxml/jackson/core/json/ByteSourceJsonBootstrapper.cs:499-512 | the 2143 and 3412 UCS-4 orders are refused, whether marked or found from the zero bytes |
| Bootstrapper.SkipSpace | com/fasterxml/jackson/core/json/ByteSourceJsonBootstrapper.cs:436-463 | skipSpace returns the first byte that is not a space, tab, CR or LF, having passed only such bytes, or runs out when the rest is all white space |
| Bootstrapper.TryMatch | com/fasterxml/jackson/core/json/ByteSourceJsonBootstrapper.cs:417-433 | a byte that differs from the literal anywhere within the input gives NO_MATCH; otherwise the literal present in full gives the requested strength and input that runs out first gives INCONCLUSIVE |
| Bootstrapper.HasJsonFormat | com/fasterxml/jackson/core/json/ByteSourceJsonBootstrapper.cs:297-414 | never FULL_MATCH; empty or all-white-space input is INCONCLUSIVE; a first non-space byte that can begin no JSON value is NO_MATCH, and a digit or quote there is WEAK_MATCH; a UTF-8 mark broken off after its first or second byte is NO_MATCH |
| Bootstrapper.ValueStart | com/fasterxml/jackson/core/json/ByteSourceJsonBootstrapper.cs:334-413 | grading from the first value byte never gives FULL_MATCH |
| Bootstrapper.GradeValue | com/fasterxml/jackson/core/json/ByteSourceJsonBootstrapper.cs:343-413 | a value byte that can begin no JSON value is NO_MATCH, a digit or a quote is WEAK_MATCH, and only '{' and '[' can give SOLID_MATCH |
| Bootstrapper.ConclusiveIsFinal | com/fasterxml/jackson/core/json/ByteSourceJsonBootstrapper.cs:297-414 | once the grading is conclusive, more input never changes it |
| Bootstrapper.SkipSpaceExtends | com/fasterxml/jackson/core/json/ByteSourceJsonBootstrapper.cs:446-463 | bytes after the one skipSpace found do not change what it finds |
| Bootstrapper.TryMatchExtends | com/fasterxml/jackson/core/json/ByteSourceJsonBootstrapper.cs:417-433 | a literal match that has decided stays decided as input grows |
| Bootstrapper.ValueStartExtends | com/fasterxml/jackson/core/json/ByteSourceJsonBootstrapper.cs:334-413 | a conclusive grade from the value start stays the same as input grows |
| Bootstrapper.MarkIsTransparent | com/fasterxml/jackson/core/json/ByteSourceJsonBootstrapper.cs:306-332 | a UTF-8 mark in front of the input does not change the grade, unless the input itself starts with the mark's first byte |
| Bootstrapper.SkipSpaceShift | com/fasterxml/jackson/core/json/ByteSourceJsonBootstrapper.cs:446-463 | skipping space after a prefix gives the same result as in the rest alone, with positions shifted |
| Bootstrapper.TryMatchShift | com/fasterxml/jackson/core/json/ByteSourceJsonBootstrapper.cs:417-433 | matching a literal after a prefix gives the same result as in the rest alone |
| Bootstrapper.StructuresMatchSolidly | com/fasterxml/jackson/core/json/ByteSourceJsonBootstrapper.cs:340-370 | '{' followed by a quote or '}', or '[' followed by any non-space byte, is a SOLID_MATCH whatever white space surrounds them |
| Bootstrapper.SkipSpaceOver | com/fasterxml/jackson/core/json/ByteSourceJsonBootstrapper.cs:446-463 | after white space, skipSpace lands on the first non-space byte |
| Bootstrapper.SkipSpaceWs | com/fasterxml/jackson/core/json/ByteSourceJsonBootstrapper.cs:446-463 | starting inside a run of white space gives the same result as starting at its end |
| Bootstrapper.ScalarsMatchWeakly | com/fasterxml/jackson/core/json/ByteSourceJsonBootstrapper.cs:371-412 | true, false, null, a string start and a negative number are only WEAK_MATCHes |
| Bootstrapper.TryMatchPrefix | com/fasterxml/jackson/core/json/ByteSourceJsonBootstrapper.cs:417-433 | a literal that is present in full matches with the given strength |
| BufferRecycler.New | com/fasterxml/jackson/core/util/BufferRecycler.cs:63-92 | a new recycler has four empty byte slots and four empty char slots |
| BufferRecycler.Take | com/fasterxml/jackson/core/util/BufferRecycler.cs:100-116 | the buffer handed out is never shorter than the requested or the default size; a slot buffer that is long enough is taken and its slot emptied, otherwise a fresh buffer of the larger size is made and the slots stay as they were |
| BufferRecycler.AllocByteBuffer | com/fasterxml/jackson/core/util/BufferRecycler.cs:100-116 | a byte buffer from a slot is at least the requested size and the slot's default length, and the char slots are untouched |
| BufferRecycler.ReleaseByteBuffer | com/fasterxml/jackson/core/util/BufferRecycler.cs:119-122 | releasing a byte buffer stores it in its slot and changes no other slot |
| BufferRecycler.AllocCharBuffer | com/fasterxml/jackson/core/util/BufferRecycler.cs:134-150 | a char buffer from a slot is at least the requested size and the slot's default length, and the byte slots are untouched |
| BufferRecycler.ReleaseCharBuffer | com/fasterxml/jackson/core/util/BufferRecycler.cs:153-156 | releasing a char buffer stores it in its slot and changes no other slot |
| BufferRecycler.ReleaseThenAllocByte | com/fasterxml/jackson/core/util/BufferRecycler.cs:100-122 | a released byte buffer that is large enough comes back from the next allocation, and its slot is emptied |
| BufferRecycler.ReleaseThenAllocChar | com/fasterxml/jackson/core/util/BufferRecycler.cs:134-156 | a released char buffer that is large enough comes back from the next allocation, and its slot is emptied |
| BufferRecycler.ShortReleaseIgnored | com/fasterxml/jackson/core/util/BufferRecycler.cs:134-156 | a released char buffer shorter than the default is never handed out again: the next allocation is a fresh default-sized buffer |
| ByteArrayBuilder.LowByte | com/fasterxml/jackson/core/util/ByteArrayBuilder.cs:108-115 | the stored byte agrees with the int modulo 256: the cast keeps the low eight bits |
| ByteArrayBuilder.New | com/fasterxml/jackson/core/util/ByteArrayBuilder.cs:65-76 | a new builder holds no content and writes into the first block it was given |
| ByteArrayBuilder.FreshBlock | com/fasterxml/jackson/core/util/ByteArrayBuilder.cs:65-76 | without a recycler the first block has the requested size, and a negative size is refused |
| ByteArrayBuilder.Reset | com/fasterxml/jackson/core/util/ByteArrayBuilder.cs:78-95 | after reset the builder holds no content and keeps its current block for reuse |
| ByteArrayBuilder.NextBlockSize | com/fasterxml/jackson/core/util/ByteArrayBuilder.cs:290-308 | a new block is half the total so far, but never less than twice the initial block size nor more than the maximum block size |
| ByteArrayBuilder.AllocMore | com/fasterxml/jackson/core/util/ByteArrayBuilder.cs:290-308 | the current block joins the past blocks, an empty block of the next size begins, and a full builder keeps its content |
| ByteArrayBuilder.Append | com/fasterxml/jackson/core/util/ByteArrayBuilder.cs:108-115 | append adds exactly the low byte of its argument to the content |
| ByteArrayBuilder.AppendTwoBytes | com/fasterxml/jackson/core/util/ByteArrayBuilder.cs:117-129 | appendTwoBytes adds the high then the low byte of a 16-bit value to the content |
| ByteArrayBuilder.AppendThreeBytes | com/fasterxml/jackson/core/util/ByteArrayBuilder.cs:131-149 | appendThreeBytes adds the three low bytes of a 24-bit value, high first |
| ByteArrayBuilder.Write | com/fasterxml/jackson/core/util/ByteArrayBuilder.cs:249-268 | write adds exactly the given bytes to the content, however many blocks it spans |
| ByteArrayBuilder.ToByteArray | com/fasterxml/jackson/core/util/ByteArrayBuilder.cs:151-180 | toByteArray returns the whole content; an empty builder is left as it was, a builder that used more than one block is emptied afterwards, and one that used a single block is left as it was |
| ByteArrayBuilder.ResetAndGetFirstSegment | com/fasterxml/jackson/core/util/ByteArrayBuilder.cs:192-201 | the array handed out is the builder's own current block, which the caller then fills, and the builder holds no content |
| ByteArrayBuilder.FinishCurrentSegment | com/fasterxml/jackson/core/util/ByteArrayBuilder.cs:203-216 | the whole current block, with what the caller stored in it, becomes content, and the new array handed out is the builder's empty current block of the next size |
| ByteArrayBuilder.CompleteAndCoalesce | com/fasterxml/jackson/core/util/ByteArrayBuilder.cs:218-222 | a length inside the current block gives the past blocks followed by that many bytes of it, which hold what the caller stored there; a length that cancels the past length gives the empty array through toByteArray's nothing-aggregated shortcut, with the length left as the write position; a negative total is an overflow and any other length outside the block an argument error |
| ByteArrayBuilder.StoreInBlock | com/fasterxml/jackson/core/io/JsonStringEncoder.cs:184-297 | the encoder's `outputBuffer[outputPtr++] = b` stores land in the builder's current block at that position, the rest of the block and of the builder being unchanged |
| ByteArrayBuilder.CompleteAfterStore | com/fasterxml/jackson/core/util/ByteArrayBuilder.cs:218-222 | bytes stored after the content of the current block and committed by completeAndCoalesce with their end are appended to the coalesced content |
| ByteArrayBuilder.FinishAfterStore | com/fasterxml/jackson/core/util/ByteArrayBuilder.cs:203-216 | bytes that fill the current block to its end are appended to the content by finishCurrentSegment, and writing goes on at the start of the next block |
| ByteArrayBuilder.FillAndCoalesce | com/fasterxml/jackson/core/io/JsonStringEncoder.cs:181-297 | resetAndGetFirstSegment, stores from the start of the block and completeAndCoalesce with their count give exactly the stored bytes |
| ByteArrayBuilder.FillFinishFill | com/fasterxml/jackson/core/io/JsonStringEncoder.cs:195-200 | a first block filled to its end and finished, then the next block filled and coalesced, give both runs in order, the next block having the next block size |
| ByteArrayBuilder.AppendsAreWrite | com/fasterxml/jackson/core/util/ByteArrayBuilder.cs:244-272 | appending byte by byte and writing all at once build the same content |
| CharTypes.LeadMasks | com/fasterxml/jackson/core/io/CharTypes.cs:51-88 | the three bit-mask tests of the UTF-8 table pick out exactly the lead-byte ranges C0-DF, E0-EF and F0-F7 |
| CharTypes.BuildInputCodes | com/fasterxml/jackson/core/io/CharTypes.cs:26-43 | the input table marks controls below 32 as -1, the quote and the backslash as 1, and every other char as 0 |
| CharTypes.BuildInputCodesUtf8 | com/fasterxml/jackson/core/io/CharTypes.cs:49-94 | the UTF-8 table copies the input table below 128 and gives 2, 3 or 4 for 110x, 1110x and 11110x lead bytes and -1 for other high bytes |
| CharTypes.BuildInputCodesComment | com/fasterxml/jackson/core/io/CharTypes.cs:150-168 | the comment table marks controls other than tab as -1, reports LF, CR and '*' as themselves, and copies the UTF-8 lead lengths |
| CharTypes.BuildInputCodesWS | com/fasterxml/jackson/core/io/CharTypes.cs:172-194 | the white-space table marks space and tab as 1, reports LF, CR, '/' and '#' as themselves, marks other controls as -1, and copies the UTF-8 lead lengths |
| CharTypes.BuildOutputEscapes | com/fasterxml/jackson/core/io/CharTypes.cs:200-223 | the output escape table gives the standard escape for controls and the short escape for the quote, backslash, \b, \t, \f, \n and \r |
| CharTypes.NeedsEscapeExactly | com/fasterxml/jackson/core/io/CharTypes.cs:200-223 | a char below 128 needs escaping exactly when it is a control, the quote or the backslash |
| CharTypes.HexChar | com/fasterxml/jackson/core/io/CharTypes.cs:7 | the upper-case hex digit of a value below 16 is a hex char that reads back as that value |
| CharTypes.BuildHexValues | com/fasterxml/jackson/core/io/CharTypes.cs:234-248 | the hex table gives 0-15 for the digits and both cases of a-f, and -1 for every other ASCII char |
| CharTypes.CharToHex | com/fasterxml/jackson/core/io/CharTypes.cs:296-299 | charToHex is -1 above 127 and a hex value 0-15 exactly for a hex digit, the digit's upper or lower case form; a negative code indexes outside the table |
| CharTypes.HexRoundTrip | com/fasterxml/jackson/core/io/CharTypes.cs:296-299 | every upper-case hex digit reads back as its value |
| CharTypes.EscapeSeqShape | com/fasterxml/jackson/core/io/CharTypes.cs:301-339 | a char that needs no escape is copied as it is; the short form is a backslash and one char; the generic form is six chars, backslash first |
| CharTypes.EscapedAppend | com/fasterxml/jackson/core/io/CharTypes.cs:301-339 | escaping a concatenation is the concatenation of the escapings, so escaping works char by char |
| CharTypes.EscapedCons | com/fasterxml/jackson/core/io/CharTypes.cs:301-339 | escaping a text is the escape of its first char followed by the escaping of the rest |
| CharTypes.AppendQuoted | com/fasterxml/jackson/core/io/CharTypes.cs:301-339 | appendQuoted appends exactly the escaped form of the whole content to the builder |
| DefaultPrettyPrinter.New | com/fasterxml/jackson/core/util/DefaultPrettyPrinter.cs:113-137 | a new printer indents arrays with a fixed space and objects with the system line feed, keeps the given root separator, puts spaces around the colon, and starts at nesting 0 |
| DefaultPrettyPrinter.CopyWith | com/fasterxml/jackson/core/util/DefaultPrettyPrinter.cs:145-153 | the copy constructor keeps the indenters, the spacing and the nesting, and takes the new root separator |
| DefaultPrettyPrinter.CreateInstance | com/fasterxml/jackson/core/util/DefaultPrettyPrinter.cs:276-280 | createInstance gives a printer equal to this one, nesting included |
| DefaultPrettyPrinter.WithRootSeparator | com/fasterxml/jackson/core/util/DefaultPrettyPrinter.cs:155-165 | only the root separator changes, so an unchanged separator gives back the same printer |
| DefaultPrettyPrinter.OrNop | com/fasterxml/jackson/core/util/DefaultPrettyPrinter.cs:175-187 | a missing indenter stands for the no-op indenter |
| DefaultPrettyPrinter.WithArrayIndenter | com/fasterxml/jackson/core/util/DefaultPrettyPrinter.cs:197-212 | only the array indenter changes, to the given one or the no-op one, so an unchanged indenter gives back the same printer |
| DefaultPrettyPrinter.WithObjectIndenter | com/fasterxml/jackson/core/util/DefaultPrettyPrinter.cs:215-230 | only the object indenter changes, to the given one or the no-op one, so an unchanged indenter gives back the same printer |
| DefaultPrettyPrinter.WithSpaces | com/fasterxml/jackson/core/util/DefaultPrettyPrinter.cs:239-269 | only the spacing flag changes, so an unchanged flag gives back the same printer |
| DefaultPrettyPrinter.WriteRootValueSeparator | com/fasterxml/jackson/core/util/DefaultPrettyPrinter.cs:289-296 | the root separator is written exactly when there is one |
| DefaultPrettyPrinter.WriteStartObject | com/fasterxml/jackson/core/util/DefaultPrettyPrinter.cs:300-309 | writeStartObject writes only '{' and goes one level deeper unless the object indenter is inline; nothing else changes |
| DefaultPrettyPrinter.BeforeObjectEntries | com/fasterxml/jackson/core/util/DefaultPrettyPrinter.cs:311-315 | exactly what the object indenter writes at the current nesting: nothing for the no-op indenter, one space for the fixed-space one, and for a line-feed indenter its line feed followed by nesting copies of its indent |
| DefaultPrettyPrinter.WriteObjectFieldValueSeparator | com/fasterxml/jackson/core/util/DefaultPrettyPrinter.cs:332-343 | the separator is " : " with spaces enabled and ":" otherwise |
| DefaultPrettyPrinter.WriteObjectEntrySeparator | com/fasterxml/jackson/core/util/DefaultPrettyPrinter.cs:360-367 | an entry separator is a comma followed by an indentation at the current level |
| DefaultPrettyPrinter.WriteEndObject | com/fasterxml/jackson/core/util/DefaultPrettyPrinter.cs:369-387 | writeEndObject goes one level back unless inline and ends with '}'; an empty object closes with " }", and one with entries closes on a new indented line |
| DefaultPrettyPrinter.WriteStartArray | com/fasterxml/jackson/core/util/DefaultPrettyPrinter.cs:389-398 | writeStartArray writes only '[' and goes one level deeper unless the array indenter is inline; nothing else changes |
| DefaultPrettyPrinter.BeforeArrayValues | com/fasterxml/jackson/core/util/DefaultPrettyPrinter.cs:400-404 | exactly what the array indenter writes at the current nesting: nothing for the no-op indenter, one space for the fixed-space one, and for a line-feed indenter its line feed followed by nesting copies of its indent |
| DefaultPrettyPrinter.WriteArrayValueSeparator | com/fasterxml/jackson/core/util/DefaultPrettyPrinter.cs:420-426 | a value separator is a comma followed by an indentation at the current level |
| DefaultPrettyPrinter.WriteEndArray | com/fasterxml/jackson/core/util/DefaultPrettyPrinter.cs:428-446 | writeEndArray goes one level back unless inline and ends with ']'; an empty array closes with " ]", and one with values closes on a new indented line |
| DefaultPrettyPrinter.NestingBalanced | com/fasterxml/jackson/core/util/DefaultPrettyPrinter.cs:300-446 | opening and then closing a container gives back the printer as it was, nesting included |
| DefaultPrettyPrinter.EmptyContainers | com/fasterxml/jackson/core/util/DefaultPrettyPrinter.cs:369-446 | an empty object prints as "{ }" and an empty array as "[ ]" |
| DefaultPrettyPrinter.ClosingBraceAligns | com/fasterxml/jackson/core/util/DefaultPrettyPrinter.cs:300-387 | with a line-feed indenter, entries are indented one level below the brace, and the closing brace lines up with the level the object was opened at |
| DupDetector.RootDetector | com/fasterxml/jackson/core/json/DupDetector.cs:31-46 | a root detector has seen no names and reports for the given parser or generator |
| DupDetector.Child | com/fasterxml/jackson/core/json/DupDetector.cs:48-51 | a child detector has seen no names and reports for the same source |
| DupDetector.Reset | com/fasterxml/jackson/core/json/DupDetector.cs:53-58 | reset forgets every name and keeps the source |
| DupDetector.IsDup | com/fasterxml/jackson/core/json/DupDetector.cs:72-100 | isDup answers true exactly when the name was seen since the last reset, and afterwards the name is seen |
| DupDetector.Answers | com/fasterxml/jackson/core/json/DupDetector.cs:72-100 | a run of isDup calls gives one answer per name and leaves a well-formed detector |
| DupDetector.AnswersAreSetSemantics | com/fasterxml/jackson/core/json/DupDetector.cs:92-99 | although the first two names are kept outside the set, every answer over a run is what a plain set would give: a name is a duplicate exactly when it was seen before or earlier in the run |
| FeatureMask.Enable | com/fasterxml/jackson/core/JsonParser.cs:615-620 | enable turns the feature on and leaves every other feature as it was |
| FeatureMask.Disable | com/fasterxml/jackson/core/JsonParser.cs:628-633 | disable turns the feature off and leaves every other feature as it was |
| FeatureMask.Configure | com/fasterxml/jackson/core/JsonParser.cs:641-653 | configure sets the feature to the given state and leaves every other feature as it was |
| FeatureMask.Override | com/fasterxml/jackson/core/JsonParser.cs:708-713 | overrideStdFeatures takes each feature in the mask from the values, and keeps each feature outside the mask |
| FeatureMask.SingleOverride | com/fasterxml/jackson/core/JsonParser.cs:615-653 | enabling or disabling one feature is the same as an override whose mask is that feature's bit |
| FeatureMask.OverrideExtremes | com/fasterxml/jackson/core/JsonParser.cs:688-713 | an override whose mask covers every feature replaces the flags, as setFeatureMask does; an empty mask changes nothing |
| FeatureMask.CollectDefaults | com/fasterxml/jackson/core/JsonParser.cs:290-300 | with no features, the collected mask is empty |
| FeatureMask.CollectDefaultsExact | com/fasterxml/jackson/core/JsonParser.cs:290-300 | the collected mask enables exactly the features that are enabled by default |
| ParserFeatures.Ordinal | com/fasterxml/jackson/core/JsonParser.cs:303-307 | each parser feature owns the bit of its position in the declaration order |
| ParserFeatures.DefaultStates | com/fasterxml/jackson/core/JsonParser.cs:68-276 | the default states are read off the feature declarations, in order |
| ParserFeatures.DefaultsEnableDefaults | com/fasterxml/jackson/core/JsonParser.cs:290-300 | a parser built with the default mask has exactly the features that are enabled by default, which is only AUTO_CLOSE_SOURCE |
| ParserFeatures.OrdinalsDistinct | com/fasterxml/jackson/core/JsonParser.cs:303-307 | distinct features own distinct bits |
| ParserFeatures.ByteValue | com/fasterxml/jackson/core/JsonParser.cs:1411-1421 | as written, a byte value is accepted exactly in [0, 255], because the lower bound is byte.MinValue, and anything else is a parse error |
| ParserFeatures.ByteValueIntended | com/fasterxml/jackson/core/JsonParser.cs:1411-1421 | as documented, a byte value is accepted exactly in [-128, 255], with the result equal to the value modulo 256 |
| ParserFeatures.ByteValueIntendedRoundTrip | com/fasterxml/jackson/core/JsonParser.cs:1411-1421 | under the intended range, a signed value reads back from its byte as signed, and an unsigned one as itself |
| ParserFeatures.ByteValueRejectsNegative | com/fasterxml/jackson/core/JsonParser.cs:20 | -1, a documented byte value, is refused as written but accepted as 255 as intended |
| ParserFeatures.ByteValueAgreesOnUnsigned | com/fasterxml/jackson/core/JsonParser.cs:1411-1421 | the written and the intended checks agree on [0, 255] |
| ParserFeatures.ShortValue | com/fasterxml/jackson/core/JsonParser.cs:1445-1455 | a short value is accepted exactly in the signed 16-bit range and is otherwise a parse error |
| DataFormat.Rank | com/fasterxml/jackson/core/format/MatchStrength.cs:16-23 | the five match strengths compare by their declaration order, NO_MATCH lowest and FULL_MATCH highest |
| DataFormat.RankInjective | com/fasterxml/jackson/core/format/MatchStrength.cs:16-23 | distinct strengths have distinct ranks, so comparing ranks compares strengths |
| DataFormat.New | com/fasterxml/jackson/core/format/DataFormatDetector.cs:68-73 | the public constructor stops at a SOLID_MATCH, accepts down to a WEAK_MATCH, and looks at most 64 bytes ahead |
| DataFormat.WithOptimalMatch | com/fasterxml/jackson/core/format/DataFormatDetector.cs:92-106 | only the optimal strength changes, so an unchanged value gives back the same detector |
| DataFormat.WithMinimalMatch | com/fasterxml/jackson/core/format/DataFormatDetector.cs:108-121 | only the minimal strength changes, so an unchanged value gives back the same detector |
| DataFormat.WithMaxInputLookahead | com/fasterxml/jackson/core/format/DataFormatDetector.cs:123-132 | only the lookahead changes, so an unchanged value gives back the same detector |
| DataFormat.FindFormat | com/fasterxml/jackson/core/format/DataFormatDetector.cs:229-260 | no format is chosen exactly when no candidate reports at least the minimal strength; otherwise the chosen one is the first qualifying candidate that reaches the optimal strength, or else is beaten by no later candidate |
| DataFormat.ChosenExtends | com/fasterxml/jackson/core/format/DataFormatDetector.cs:254-257 | a candidate that reached the optimal strength stays the choice whatever candidates follow it |
| DataFormat.ChosenUnique | com/fasterxml/jackson/core/format/DataFormatDetector.cs:229-260 | at most one candidate meets that description, so it pins down the result |
| DataFormat.FirstStrongestWins | com/fasterxml/jackson/core/format/DataFormatDetector.cs:244-253 | without an early stop, the winner is the strongest qualifying candidate, and every earlier qualifying one is strictly weaker |
| GeneratorBase.Ordinal | com/fasterxml/jackson/core/JsonGenerator.cs:254-258 | each generator feature owns the bit of its position among the ten declared features |
| GeneratorBase.OrdinalInjective | com/fasterxml/jackson/core/JsonGenerator.cs:254-258 | distinct generator features own distinct bits |
| GeneratorBase.RootDetector | com/fasterxml/jackson/core/base/GeneratorBase.cs:95-97 | the detector a generator creates for its names starts empty |
| GeneratorBase.New | com/fasterxml/jackson/core/base/GeneratorBase.cs:77-107 | a new generator keeps the given features, has no pretty printer, has derived state that agrees with the mask, and starts any duplicate detector empty |
| GeneratorBase.SetHighestNonEscapedChar | com/fasterxml/jackson/core/json/JsonGeneratorImpl.cs:111-116 | the escaping limit becomes the given code, or 0 for a negative one, and nothing else changes |
| GeneratorBase.WithDupDetector | com/fasterxml/jackson/core/json/JsonWriteContext.cs:93-97 | the write context takes the given detector, or none, and stays well-formed |
| GeneratorBase.Enable | com/fasterxml/jackson/core/base/GeneratorBase.cs:157-189 | enable sets the feature's bit in the mask and keeps the write context well-formed |
| GeneratorBase.Disable | com/fasterxml/jackson/core/base/GeneratorBase.cs:191-218 | disable clears the feature's bit in the mask and keeps the write context well-formed |
| GeneratorBase.Changed | com/fasterxml/jackson/core/base/GeneratorBase.cs:223 | the changed set holds exactly the features on which the two masks disagree |
| GeneratorBase.SetFeatureMask | com/fasterxml/jackson/core/base/GeneratorBase.cs:220-264 | setFeatureMask installs the new mask, and when no derived feature changes, nothing else changes |
| GeneratorBase.EnableDisableInStep | com/fasterxml/jackson/core/base/GeneratorBase.cs:157-218 | after enable or disable, the numbers-as-strings flag, the escaping limit and the duplicate detector still agree with the mask |
| GeneratorBase.SetFeatureMaskInStep | com/fasterxml/jackson/core/base/GeneratorBase.cs:220-264 | after setFeatureMask, the derived state still agrees with the mask |
| GeneratorBase.EnableIsSetFeatureMask | com/fasterxml/jackson/core/base/GeneratorBase.cs:157-264 | enabling or disabling one feature gives the same generator as setting the mask with that bit added or removed |
| GeneratorBase.UseDefaultPrettyPrinter | com/fasterxml/jackson/core/base/GeneratorBase.cs:266-277 | a pretty printer already set is kept; otherwise the default printer, with the default root separator, is installed |
| GeneratorBase.UseDefaultIdempotent | com/fasterxml/jackson/core/base/GeneratorBase.cs:266-277 | asking twice for the default pretty printer is the same as asking once |
| GeneratorBase.DecodeSurrogate | com/fasterxml/jackson/core/base/GeneratorBase.cs:498-510 | after a high surrogate, a second char outside DC00-DFFF is an incomplete-pair error; otherwise the pair combines into a code point from 0x10000 to 0x10FFFF |
| GeneratorBase.DecodeSurrogateInverse | com/fasterxml/jackson/core/base/GeneratorBase.cs:498-510 | a valid pair decodes to a code point exactly when that code point's two surrogate halves are the pair |
| Indenter.NewDefault | com/fasterxml/jackson/core/util/DefaultIndenter.cs:50-53 | the default indenter indents two spaces per level, breaks lines with the system line feed, and is not inline |
| Indenter.WriteIndentation | com/fasterxml/jackson/core/util/DefaultIndenter.cs:98-114 | writeIndentation writes the line break and then level copies of the indent, even when that needs more than the sixteen stored copies |
| Indenter.ChunkStep | com/fasterxml/jackson/core/util/DefaultIndenter.cs:104-110 | each pass of the loop writes sixteen more copies of the indent, and the remaining count drops by that much |
| Indenter.GetIndent | com/fasterxml/jackson/core/util/DefaultIndenter.cs:121-124 | getIndent returns exactly one level of indentation |
| Indenter.WithLinefeed | com/fasterxml/jackson/core/util/DefaultIndenter.cs:72-80 | only the line break changes and the indent is kept, so an unchanged line break gives back the same indenter |
| Indenter.WithIndent | com/fasterxml/jackson/core/util/DefaultIndenter.cs:82-90 | only the indent changes and the line break is kept, so an unchanged indent gives back the same indenter |
| Indenter.DeeperByOneIndent | com/fasterxml/jackson/core/util/DefaultIndenter.cs:98-114 | one level deeper writes exactly one more indent |
| IOContext.ByteSlot | com/fasterxml/jackson/core/io/IOContext.cs:166-202 | each byte buffer kind uses one of the recycler's four byte slots |
| IOContext.CharSlot | com/fasterxml/jackson/core/io/IOContext.cs:204-231 | each char buffer kind uses one of the recycler's four char slots |
| IOContext.New | com/fasterxml/jackson/core/io/IOContext.cs:91-112 | a new context owns no buffers |
| IOContext.VerifyAlloc | com/fasterxml/jackson/core/io/IOContext.cs:317-324 | an allocation is refused, with an invalid-operation error, exactly when the kind is already owned |
| IOContext.VerifyRelease | com/fasterxml/jackson/core/io/IOContext.cs:326-340 | a release passes exactly when the buffer is the owned one or longer than it; when nothing is owned, reading the owned buffer's length fails with a null reference |
| IOContext.AllocBytes | com/fasterxml/jackson/core/io/IOContext.cs:166-202 | allocating a byte buffer fails exactly when its kind is already owned; otherwise the new buffer is owned, is at least the requested and the default size, and no other kind changes |
| IOContext.AllocChars | com/fasterxml/jackson/core/io/IOContext.cs:204-231 | allocating a char buffer fails exactly when its kind is already owned; otherwise the new buffer is owned, is at least the requested and the default size, and no other kind changes |
| IOContext.ReleaseBytes | com/fasterxml/jackson/core/io/IOContext.cs:237-275 | releasing null changes nothing; otherwise the release succeeds exactly when the check passes, and then the kind is no longer owned and the recycler keeps the buffer |
| IOContext.ReleaseChars | com/fasterxml/jackson/core/io/IOContext.cs:277-310 | releasing null changes nothing; otherwise the release succeeds exactly when the check passes, and then the kind is no longer owned and the recycler keeps the buffer |
| IOContext.AllocReleaseAlloc | com/fasterxml/jackson/core/io/IOContext.cs:204-310 | a second allocation of the same kind fails, but after releasing the buffer a new allocation succeeds and hands back the released contents |
| IOContext.ReleaseTwiceFails | com/fasterxml/jackson/core/io/IOContext.cs:237-249 | releasing the same buffer twice fails the second time, because the kind is no longer owned |
| IOContext.ReleaseReplacement | com/fasterxml/jackson/core/io/IOContext.cs:326-340 | a buffer other than the owned one is accepted back exactly when it is longer |
| JsonPointer.AsString | com/fasterxml/jackson/core/JsonPointer.cs:335-338 | the string form of EMPTY is "" |
| JsonPointer.Segments | com/fasterxml/jackson/core/JsonPointer.cs:41 | a pointer has no segments exactly when it is EMPTY |
| JsonPointer.ParseIndex | com/fasterxml/jackson/core/JsonPointer.cs:367-403 | an index is -1 or a non-negative value no larger than int.MaxValue |
| JsonPointer.ParseIndexIff | com/fasterxml/jackson/core/JsonPointer.cs:367-403 | a segment names index n exactly when it is the canonical decimal form of n and n fits an int, so "", more than ten chars, a leading zero, a non-digit or a value above int.MaxValue all give -1 |
| JsonPointer.ParseDecimal | com/fasterxml/jackson/core/JsonPointer.cs:367-403 | the canonical decimal form of any int from 0 to int.MaxValue parses back to it |
| JsonPointer.ParsedIsCanonical | com/fasterxml/jackson/core/JsonPointer.cs:367-403 | a non-negative index comes only from the canonical decimal form of its value |
| JsonPointer.CanonicalDigits | com/fasterxml/jackson/core/JsonPointer.cs:378-382 | digits without a leading zero are the canonical decimal form of their value |
| JsonPointer.IntFitsTenDigits | com/fasterxml/jackson/core/JsonPointer.cs:372-375 | every value up to int.MaxValue has at most ten digits, so the length check loses no index |
| JsonPointer.AppendEscape | com/fasterxml/jackson/core/JsonPointer.cs:502-520 | "~0" becomes '~', "~1" becomes '/', and any other "~x" is kept as written |
| JsonPointer.MakeSegment | com/fasterxml/jackson/core/JsonPointer.cs:90-108 | a segment keeps the whole input as its text, its name, and the index parsed from the name, and is well formed |
| JsonPointer.ChainOf | com/fasterxml/jackson/core/JsonPointer.cs:405-431 | the chain parsed from what follows a segment has that text, and is EMPTY at the end |
| JsonPointer.ParseTail | com/fasterxml/jackson/core/JsonPointer.cs:405-431 | _parseTail gives a well-formed segment whose text is the input |
| JsonPointer.ScanSegment | com/fasterxml/jackson/core/JsonPointer.cs:410-429 | the plain scanning loop gives a well-formed segment whose text is the input |
| JsonPointer.ParseQuotedTail | com/fasterxml/jackson/core/JsonPointer.cs:439-469 | _parseQuotedTail gives a well-formed segment whose text is the input |
| JsonPointer.QuotedLoop | com/fasterxml/jackson/core/JsonPointer.cs:448-467 | the quoted loop gives a well-formed segment whose text is the input |
| JsonPointer.Compile | com/fasterxml/jackson/core/JsonPointer.cs:127-141 | null and "" compile to EMPTY; any other input fails with an argument error exactly when its first char is not '/'; a compiled pointer is well formed and its string form is the input |
| JsonPointer.CompiledEqualIff | com/fasterxml/jackson/core/JsonPointer.cs:345-360 | two compiled pointers are equal exactly when their input texts are equal |
| JsonPointer.Escape | com/fasterxml/jackson/core/JsonPointer.cs:502-520 | an escaped name is at least as long as the name and contains no slash |
| JsonPointer.Join | com/fasterxml/jackson/core/JsonPointer.cs:405-431 | a pointer text built from names is empty for no names and otherwise starts with '/' |
| JsonPointer.QuotedLoopReads | com/fasterxml/jackson/core/JsonPointer.cs:448-467 | the quoted loop reads one escaped name up to the next slash or the end, and the rest of the chain is parsed from there |
| JsonPointer.ScanSegmentReads | com/fasterxml/jackson/core/JsonPointer.cs:410-429 | the plain scan copies up to the first tilde, and from there the quoted loop reads the rest of the escaped name |
| JsonPointer.ParseTailReads | com/fasterxml/jackson/core/JsonPointer.cs:405-431 | one escaped name after a slash parses back as that name, followed by the chain parsed from the rest |
| JsonPointer.CompileJoin | com/fasterxml/jackson/core/JsonPointer.cs:127-141 | compiling the escaped join of any names succeeds and gives back exactly those names, one per segment, ending in EMPTY |
| JsonPointer.TildeSlashKept | com/fasterxml/jackson/core/JsonPointer.cs:419-423 | a tilde followed by a slash is kept in the name, so that slash does not start a new segment |
| JsonPointer.Tail | com/fasterxml/jackson/core/JsonPointer.cs:180-183 | tail is null exactly when the pointer matches, which only EMPTY does |
| JsonPointer.MatchProperty | com/fasterxml/jackson/core/JsonPointer.cs:258-270 | matchProperty returns the tail exactly when there is a next segment and the name equals this segment's, and null otherwise |
| JsonPointer.MatchElement | com/fasterxml/jackson/core/JsonPointer.cs:278-285 | matchElement returns the tail exactly when the index is non-negative and equals this segment's, and null otherwise |
| JsonPointer.ElementMatchIff | com/fasterxml/jackson/core/JsonPointer.cs:272-276 | a segment matches an element index exactly when its name is the canonical decimal form of that index |
| JsonPointer.MatchFirstName | com/fasterxml/jackson/core/JsonPointer.cs:258-270 | matching the first name of a compiled pointer leaves the compiled pointer of the remaining names |
| JsonPointer.LastSegment | com/fasterxml/jackson/core/JsonPointer.cs:211-225 | the last segment of a non-empty pointer is followed by EMPTY |
| JsonPointer.Last | com/fasterxml/jackson/core/JsonPointer.cs:211-225 | last is null exactly for EMPTY, and is otherwise the single-segment pointer of the final name |
| JsonPointer.LastSegments | com/fasterxml/jackson/core/JsonPointer.cs:211-225 | the last segment holds exactly the final name |
| JsonPointer.LastIsSuffix | com/fasterxml/jackson/core/JsonPointer.cs:471-486 | the last segment's text is a suffix of the pointer's text, so head can cut it off |
| JsonPointer.Head | com/fasterxml/jackson/core/JsonPointer.cs:316-331 | head is null exactly for EMPTY; otherwise it holds every name but the last, and its text followed by the last segment's text is the pointer's text |
| JsonPointer.HeadProperties | com/fasterxml/jackson/core/JsonPointer.cs:471-500 | cutting the last segment's suffix off every segment drops exactly the final name and leaves texts that rebuild the original |
| JsonPointer.JoinAppend | com/fasterxml/jackson/core/JsonPointer.cs:227-251 | the text of two name lists together is the two texts one after the other |
| JsonPointer.AppendNames | com/fasterxml/jackson/core/JsonPointer.cs:227-251 | appending two compiled pointers gives the compiled pointer of all their names, when the first does not end in an empty name |
| JsonPointer.JoinLast | com/fasterxml/jackson/core/JsonPointer.cs:237-242 | a pointer text ends in a slash only when its last name is empty, so append drops a slash only then |
| JsonToken.Make | com/fasterxml/jackson/core/JsonToken.cs:151-192 | a token keeps its text and id, its byte form is its text char for char, and its flags are consistent: never both a start and an end, a scalar is neither, and numbers and booleans are disjoint scalars |
| JsonToken.IdsDistinct | com/fasterxml/jackson/core/JsonToken.cs:26-127 | distinct tokens carry distinct ids |
| JsonToken.Classification | com/fasterxml/jackson/core/JsonToken.cs:180-191 | isStructStart holds exactly for START_OBJECT and START_ARRAY, isStructEnd for END_OBJECT and END_ARRAY, isNumeric for the two number tokens, isBoolean for TRUE and FALSE, and isScalarValue for every token but the struct markers, FIELD_NAME and NOT_AVAILABLE |
| JsonToken.FixedText | com/fasterxml/jackson/core/JsonToken.cs:26-127 | asString is set exactly for the seven fixed tokens ("{", "}", "[", "]", "true", "false", "null") and is null for the rest, and asByteArray is set exactly when asString is |
| MinimalPrettyPrinter.New | com/fasterxml/jackson/core/util/MinimalPrettyPrinter.cs:35-38 | the default root separator is a single space |
| MinimalPrettyPrinter.SetRootValueSeparator | com/fasterxml/jackson/core/util/MinimalPrettyPrinter.cs:50-53 | setRootValueSeparator installs the given separator, null included |
| MinimalPrettyPrinter.WriteRootValueSeparator | com/fasterxml/jackson/core/util/MinimalPrettyPrinter.cs:62-69 | the root separator is written exactly when it is not null |
| MinimalPrettyPrinter.LaterEntries | com/fasterxml/jackson/core/util/MinimalPrettyPrinter.cs:99-122 | after the first entry, each entry is preceded by a bare comma, with ':' between name and value |
| MinimalPrettyPrinter.ObjectIsCompact | com/fasterxml/jackson/core/util/MinimalPrettyPrinter.cs:73-132 | an object written through this printer is its compact JSON form: bare braces, nothing before the entries, ':' and ',' separators |
| MinimalPrettyPrinter.LaterValues | com/fasterxml/jackson/core/util/MinimalPrettyPrinter.cs:160-166 | after the first value, each value is preceded by a bare comma |
| MinimalPrettyPrinter.ArrayIsCompact | com/fasterxml/jackson/core/util/MinimalPrettyPrinter.cs:134-172 | an array written through this printer is its compact JSON form: bare brackets, nothing before the values, ',' separators |
| NumberInput.AppendDigit | com/fasterxml/jackson/core/io/NumberInput.cs:36-66 | reading one more digit multiplies the value so far by ten and adds the digit |
| NumberInput.NextDigit | com/fasterxml/jackson/core/io/NumberInput.cs:37 | one step of the unrolled parse keeps the value equal to the decimal value of the digits read so far |
| NumberInput.ParseIntDigits | com/fasterxml/jackson/core/io/NumberInput.cs:32-68 | parseInt of 1 to 9 digit chars returns their decimal value |
| NumberInput.NineDigitsFit | com/fasterxml/jackson/core/io/NumberInput.cs:32-68 | up to nine digits always fit in an int, so parseInt cannot overflow |
| NumberInput.ParseIntText | com/fasterxml/jackson/core/io/NumberInput.cs:70-135 | parseInt(string) fails on an empty string, and otherwise gives exactly what the platform's Convert.ToInt32 gives: the fast path for an optional '-' and 1 to 9 digits agrees with it |
| NumberInput.ParseLongDigits | com/fasterxml/jackson/core/io/NumberInput.cs:137-143 | parseLong of 10 to 18 digit chars, computed as the leading digits times a billion plus the last nine, is their decimal value |
| NumberInput.ShortTextSameParse | com/fasterxml/jackson/core/io/NumberInput.cs:150-154 | for at most nine chars the int and long platform parsers agree, so the int shortcut changes nothing |
| NumberInput.ParseLongText | com/fasterxml/jackson/core/io/NumberInput.cs:145-157 | parseLong(string) fails on an empty string, and otherwise gives exactly what Convert.ToInt64 gives |
| NumberInput.ValueSplit | com/fasterxml/jackson/core/io/NumberInput.cs:137-143 | a digit string's value is its prefix scaled by a power of ten plus the value of the rest, which stays below that power |
| NumberInput.LexLess | com/fasterxml/jackson/core/io/NumberInput.cs:185-192 | for equal-length digit strings, the first differing digit decides which value is smaller |
| NumberInput.CompareDigits | com/fasterxml/jackson/core/io/NumberInput.cs:185-193 | the digit-by-digit loop answers true exactly when the value is at most the bound's value |
| NumberInput.LeadingDigitBound | com/fasterxml/jackson/core/io/NumberInput.cs:173-184 | a digit string without a leading zero is at least 10^(n-1), so a longer one is larger |
| NumberInput.LongTextLengths | com/fasterxml/jackson/core/io/NumberInput.cs:16-19 | the two bound strings have 19 digits and are the magnitudes of long.MinValue and long.MaxValue |
| NumberInput.InLongRange | com/fasterxml/jackson/core/io/NumberInput.cs:173-194 | a shorter string is in range and a longer one is not; otherwise, and always without leading zeros, the answer is exactly whether the magnitude is within the long range for the given sign |
| NumberInput.ShortDigitsInRange | com/fasterxml/jackson/core/io/NumberInput.cs:177-180 | fewer than 19 digits always fit in a long |
| NumberInput.LongDigitsOutOfRange | com/fasterxml/jackson/core/io/NumberInput.cs:181-184 | more than 19 digits without a leading zero never fit in a long |
| NumberInput.CoerceAsWritten | com/fasterxml/jackson/core/io/NumberInput.cs:231-288 | null or blank text gives the default |
| NumberInput.ParseAsInt | com/fasterxml/jackson/core/io/NumberInput.cs:231-288 | no text or blank text gives the default, and a parsed result is always an int |
| NumberInput.ParseAsLong | com/fasterxml/jackson/core/io/NumberInput.cs:290-347 | no text or blank text gives the default, and a parsed result is always a long |
| NumberInput.CoerceDecimal | com/fasterxml/jackson/core/io/NumberInput.cs:270-287 | the intended coercion reads an unsigned digit run as its value when that fits the upper bound, and as the default when it overflows |
| NumberInput.ParseAsIntIntended | com/fasterxml/jackson/core/io/NumberInput.cs:231-288 | as intended, no text or blank text gives the default, and a parsed result is always an int |
| NumberInput.ParseAsLongIntended | com/fasterxml/jackson/core/io/NumberInput.cs:290-347 | as intended, no text or blank text gives the default, and a parsed result is always a long |
| NumberInput.PlainText | com/fasterxml/jackson/core/io/NumberInput.cs:237-263 | trimming, white-space stripping and sign handling leave a plain signed digit run unchanged, except that a leading '+' is dropped |
| NumberInput.ParseAsIntOverflowEscapes | com/fasterxml/jackson/core/io/NumberInput.cs:280-287 | a digit run above int.MaxValue makes parseAsInt throw an overflow as written, where the default was intended |
| NumberInput.ParseAsLongOverflowEscapes | com/fasterxml/jackson/core/io/NumberInput.cs:339-346 | a digit run above long.MaxValue makes parseAsLong throw an overflow as written, where the default was intended |
| NumberInput.ParseAsIntRoundTrip | com/fasterxml/jackson/core/io/NumberInput.cs:231-288 | parseAsInt, as written and as intended, reads back every int that NumberOutput prints |
| NumberInput.ParseAsLongRoundTrip | com/fasterxml/jackson/core/io/NumberInput.cs:290-347 | parseAsLong, as written and as intended, reads back every long that NumberOutput prints |
| NumberInput.ParseIntTextRoundTrip | com/fasterxml/jackson/core/io/NumberInput.cs:70-135 | parseInt reads back every int printed in decimal |
| NumberInput.ParseLongTextRoundTrip | com/fasterxml/jackson/core/io/NumberInput.cs:145-157 | parseLong reads back every long printed in decimal |
| NumberOutput.Leading3 | com/fasterxml/jackson/core/io/NumberOutput.cs:393-409 | leading3 writes the canonical decimal of a triplet: leading zeros dropped, but at least one digit |
| NumberOutput.Leading3Digits | com/fasterxml/jackson/core/io/NumberOutput.cs:27-55 | the LEAD_3 table entry of a triplet is its three digits with the leading zeros, marked NUL, left out |
| NumberOutput.Full3 | com/fasterxml/jackson/core/io/NumberOutput.cs:429-436 | full3 always writes exactly three digits: hundreds, tens and units of the triplet |
| NumberOutput.Decimal3 | com/fasterxml/jackson/core/io/NumberOutput.cs:429-436 | appending a full triplet to a number's digits gives the digits of that number times a thousand plus the triplet |
| NumberOutput.Decimal6 | com/fasterxml/jackson/core/io/NumberOutput.cs:79-154 | a leading group followed by two full triplets are the digits of the six-digit extension |
| NumberOutput.Decimal9 | com/fasterxml/jackson/core/io/NumberOutput.cs:79-154 | a leading group followed by three full triplets are the digits of the nine-digit extension |
| NumberOutput.IntDigits | com/fasterxml/jackson/core/io/NumberOutput.cs:91-152 | for 0 to int.MaxValue, the triplet-based writing produces exactly the canonical decimal digits |
| NumberOutput.OutputInt | com/fasterxml/jackson/core/io/NumberOutput.cs:79-154 | outputInt writes the canonical decimal of any int, with a '-' for a negative one; int.MinValue goes through outputLong |
| NumberOutput.CalcLongStrLength | com/fasterxml/jackson/core/io/NumberOutput.cs:452-468 | for a value above int.MaxValue, the length computed is its number of digits, from 10 to 19 |
| NumberOutput.Decimal3Length | com/fasterxml/jackson/core/io/NumberOutput.cs:452-468 | a number times a thousand plus a triplet has three more digits |
| NumberOutput.TripletStep | com/fasterxml/jackson/core/io/NumberOutput.cs:252-283 | each round of outputLong's loop writes the low triplet just before the write position, keeping the digits still to be written in front |
| NumberOutput.LongDigits | com/fasterxml/jackson/core/io/NumberOutput.cs:252-283 | writing a value above int.MaxValue back to front, by triplets, into a region of its digit count gives exactly its canonical decimal digits |
| NumberOutput.OutputLong | com/fasterxml/jackson/core/io/NumberOutput.cs:225-284 | outputLong writes the canonical decimal of any long: in-int-range values through outputInt, long.MinValue from its literal text |
| NumberOutput.ToStringInt | com/fasterxml/jackson/core/io/NumberOutput.cs:350-366 | toString(int) is the canonical decimal, whether it comes from the -10..10 tables or from the platform |
| NumberOutput.ToStringLong | com/fasterxml/jackson/core/io/NumberOutput.cs:368-375 | toString(long) is the canonical decimal, and in-int-range values go through toString(int) |
| ParserBase.TokenColumnNr | com/fasterxml/jackson/core/base/ParserBase.cs:524-529 | a negative column stays as it is; any other column becomes one-based, and the 32-bit column MAX_INT wraps around to MIN_INT |
| ParserBase.ColumnNrOneBased | com/fasterxml/jackson/core/base/ParserBase.cs:524-529 | for in-range columns the one-based column is positive, one more than the zero-based one, and keeps both equality and order |
| ParserBase.ResetInt | com/fasterxml/jackson/core/base/ParserBase.cs:664-674 | an integer token keeps the sign and integer length, has no fraction or exponent, and leaves the numeric value unparsed |
| ParserBase.ResetFloat | com/fasterxml/jackson/core/base/ParserBase.cs:676-687 | a floating-point token keeps the sign and all three lengths and leaves the numeric value unparsed |
| ParserBase.ResetNumber | com/fasterxml/jackson/core/base/ParserBase.cs:653-662 | the token is VALUE_NUMBER_INT exactly when there is neither a fraction nor an exponent, and VALUE_NUMBER_FLOAT otherwise |
| ParserBase.ResetIntegral | com/fasterxml/jackson/core/base/ParserBase.cs:653-674 | an integral reset is the same whatever non-positive fraction and exponent lengths it was given |
| ParserBase.Smallest | com/fasterxml/jackson/core/base/ParserBase.cs:921-954 | the reference for number-type selection: the value is an int exactly when it fits 32 bits, and a big integer exactly when it does not fit 64 bits |
| ParserBase.ParseNumericValue | com/fasterxml/jackson/core/base/ParserBase.cs:899-963 | an integer token always parses, keeps its exact signed value, and for canonical digits picks the smallest type; a float token gives a double; any other token is a parse error |
| ParserBase.TenToEighteenDigits | com/fasterxml/jackson/core/base/ParserBase.cs:919-951 | ten to eighteen digits always fit a long, and more than ten digits without a leading zero never fit an int |
| ParserBase.ParseSlowInt | com/fasterxml/jackson/core/base/ParserBase.cs:1032-1057 | nineteen or more digits never give an int, always keep their exact value, and give a long exactly when the value fits 64 bits |
| ParserBase.ConvertNumberToInt | com/fasterxml/jackson/core/base/ParserBase.cs:1065-1120 | converting an integer already held as an int is an internal error; otherwise it succeeds exactly when the value fits 32 bits, and keeps that value |
| ParserBase.OverflowInt | com/fasterxml/jackson/core/base/ParserBase.cs:1316-1321 | an int overflow is reported as a parse error |
| ParserBase.OverflowLong | com/fasterxml/jackson/core/base/ParserBase.cs:1323-1327 | a long overflow is reported as a parse error |
| ParserBase.IntCastRoundTrip | com/fasterxml/jackson/core/base/ParserBase.cs:1068-1077 | for every long, the (int) cast round trip keeps the value exactly when it is in the int range, and otherwise the conversion fails |
| ParserBase.ConvertNumberToLong | com/fasterxml/jackson/core/base/ParserBase.cs:1122-1170 | converting an integer already held as a long is an internal error; otherwise it succeeds exactly when the value fits 64 bits, and keeps that value |
| ParserBase.IntValue | com/fasterxml/jackson/core/base/ParserBase.cs:777-793 | a parsed integer gives its value as an int exactly when it fits 32 bits |
| ParserBase.LongValue | com/fasterxml/jackson/core/base/ParserBase.cs:797-812 | a parsed integer gives its value as a long exactly when it fits 64 bits |
| ParserBase.GetIntValue | com/fasterxml/jackson/core/base/ParserBase.cs:777-793 | for an integer token's digits, getIntValue answers exactly when the signed value fits 32 bits, and answers that value |
| ParserBase.GetLongValue | com/fasterxml/jackson/core/base/ParserBase.cs:797-812 | for an integer token's digits, getLongValue answers exactly when the signed value fits 64 bits, and answers that value |
| ParserBase.DecodeBase64Escape | com/fasterxml/jackson/core/base/ParserBase.cs:1350-1375 | anything other than a backslash is an invalid base64 char; an escaped space is skipped only at the start of a quadruplet; any other success is the alphabet position of the unescaped char |
| ParserBase.EscapedAlphabetChar | com/fasterxml/jackson/core/base/ParserBase.cs:1350-1375 | with complete tables an escaped alphabet char decodes to its position, and an escaped padding char is refused |
| ParserMinimal.SkipChildren | com/fasterxml/jackson/core/base/ParserMinimalBase.cs:167-205 | a scalar token skips nothing; from a container start it stops at the token that brings the nesting back to zero, and it fails with an end-of-input error exactly when the nesting never gets back to zero |
| ParserMinimal.ClosingUnique | com/fasterxml/jackson/core/base/ParserMinimalBase.cs:178-203 | the matching close of a container is unique: the nesting count reaches zero only once |
| ParserMinimal.ClosedByEndMarker | com/fasterxml/jackson/core/base/ParserMinimalBase.cs:193-201 | the token that closes a skipped container is always an end marker |
| ParserMinimal.IntValueOf | com/fasterxml/jackson/core/base/ParserMinimalBase.cs:357-368 | an integer token gives its value exactly when it fits 32 bits; a float token gives the float's own conversion |
| ParserMinimal.LongValueOf | com/fasterxml/jackson/core/base/ParserMinimalBase.cs:427-438 | an integer token gives its value exactly when it fits 64 bits; a float token gives the float's own conversion |
| ParserMinimal.GetValueAsBoolean | com/fasterxml/jackson/core/base/ParserMinimalBase.cs:281-339 | true and false literals, null as false, integers as non-zero, the trimmed strings true, false and null, and the default for everything else; the one failure is an integer beyond the int range |
| ParserMinimal.GetValueAsInt | com/fasterxml/jackson/core/base/ParserMinimalBase.cs:357-409 | numbers through getIntValue, true as 1, false and null as 0, the string null as 0, other strings exactly as parseAsInt answers with the default (its overflow included), anything else the default |
| ParserMinimal.StringOverflowEscapes | com/fasterxml/jackson/core/base/ParserMinimalBase.cs:372-380 | a string token holding a digit run beyond the int range (beyond the long range for the long coercion) makes the coercion fail with the overflow that parseAsInt and parseAsLong let escape |
| ParserMinimal.GetValueAsLong | com/fasterxml/jackson/core/base/ParserMinimalBase.cs:427-470 | as the int coercion, with long values, the long range, and strings exactly as parseAsLong answers |
| ParserMinimal.OrZeroIsDefaultZero | com/fasterxml/jackson/core/base/ParserMinimalBase.cs:342-355 | getValueAsInt() and getValueAsLong() without a default are the coercions with 0 as the default |
| ParserMinimal.StringReadsBack | com/fasterxml/jackson/core/base/ParserMinimalBase.cs:375-384 | a string token holding the decimal text of a value reads back as that value, in both the int and the long coercion |
| ParserMinimal.NotNullText | com/fasterxml/jackson/core/base/ParserMinimalBase.cs:594-597 | the decimal text of a number is never the word null, so the textual-null shortcut never hides a number |
| ParserMinimal.BooleanAgreesWithInt | com/fasterxml/jackson/core/base/ParserMinimalBase.cs:281-409 | on literals and integers the boolean and int coercions succeed together, and the boolean is whether the integer is non-zero |
| ParserMinimal.ThrowUnquotedSpace | com/fasterxml/jackson/core/base/ParserMinimalBase.cs:662-673 | an unquoted char is let through exactly when ALLOW_UNQUOTED_CONTROL_CHARS is on and the char is at most a space; otherwise it is a parse error |
| ParserMinimal.UnquotedSpaceRefusedByDefault | com/fasterxml/jackson/core/base/ParserMinimalBase.cs:662-673 | with the default features every unquoted control char is refused |
| ParserMinimal.HandleUnrecognizedEscape | com/fasterxml/jackson/core/base/ParserMinimalBase.cs:676-690 | an unknown escape is kept exactly when backslash-escaping-anything is on, or it is a single quote and single quotes are allowed; otherwise it is a parse error |
| ParserMinimal.UnknownEscapeRefusedByDefault | com/fasterxml/jackson/core/base/ParserMinimalBase.cs:676-690 | with the default features no unknown escape is accepted |
| ReadContext.CreateRootAt | com/fasterxml/jackson/core/json/JsonReadContext.cs:111-117 | a root context with no parent, no entries yet, at the given position and with the given duplicate detector |
| ReadContext.CreateRoot | com/fasterxml/jackson/core/json/JsonReadContext.cs:125-130 | a root context with no entries yet, starting at line 1, column 0 |
| ReadContext.FreshChild | com/fasterxml/jackson/core/json/JsonReadContext.cs:30-60 | a new child context of the given kind under its parent, with no entries and no name, and a duplicate detector exactly when the parent has one, with nothing seen yet |
| ReadContext.Reset | com/fasterxml/jackson/core/json/JsonReadContext.cs:62-75 | a reused context gets the new kind and position, loses its entries and name, keeps its parent and detector source, and its detector forgets every name |
| ReadContext.ResetIsFresh | com/fasterxml/jackson/core/json/JsonReadContext.cs:132-165 | reusing the child slot gives exactly the context a fresh construction would give |
| ReadContext.CreateChild | com/fasterxml/jackson/core/json/JsonReadContext.cs:132-165 | the child array or object context, new or reused, has the requested kind and position and no entries or name |
| ReadContext.ExpectComma | com/fasterxml/jackson/core/json/JsonReadContext.cs:204-214 | each call counts one more entry, and a comma is expected exactly outside the root and after the first entry |
| ReadContext.SetCurrentName | com/fasterxml/jackson/core/json/JsonReadContext.cs:216-235 | the name becomes current; with a detector a name already seen in this object is a duplicate-field parse error, and a new one is added to the seen names |
| ReadContext.CommasInSequence | com/fasterxml/jackson/core/json/JsonReadContext.cs:204-214 | over n successive entries of a fresh array or object every entry but the first is preceded by a comma, none at the root, and the entry count grows by n |
| ReaderParser.SkipCR | com/fasterxml/jackson/core/json/ReaderBasedJsonParser.cs:2389-2400 | after a CR an immediately following LF is consumed too, the row advances by one, and the new row starts after the break |
| ReaderParser.SkipSpaceCounts | com/fasterxml/jackson/core/json/ReaderBasedJsonParser.cs:2636-2715 | skipping white space stops at the first char above a space or at the end of the input, having skipped only white space, and the row grows by the line ends skipped; it fails exactly on a control char that is not white space |
| ReaderParser.SpaceFailureStep | com/fasterxml/jackson/core/json/ReaderBasedJsonParser.cs:2679-2713 | a bad control char further on is reached from here exactly when the chars in between are white space |
| ReaderParser.LineEndsSplit | com/fasterxml/jackson/core/json/ReaderBasedJsonParser.cs:2659-2669 | line ends over two adjacent stretches of input add up |
| ReaderParser.CrLfIsOneBreak | com/fasterxml/jackson/core/json/ReaderBasedJsonParser.cs:2389-2400 | a CR LF pair is a single line break: the row advances once and the next row starts after the LF |
| ReaderParser.VerifyRootSpace | com/fasterxml/jackson/core/json/ReaderBasedJsonParser.cs:1787-1813 | after a root-level number the next char must be white space, which is consumed (a CR with its LF), and anything else is a missing-root-space error |
| ReaderParser.CloseScope | com/fasterxml/jackson/core/json/ReaderBasedJsonParser.cs:744-763 | ']' is accepted exactly inside an array and '}' exactly inside an object, giving the end token and returning to the parent context; the other marker is a mismatch error |
| ReaderParser.CloseMatchesOpen | com/fasterxml/jackson/core/json/ReaderBasedJsonParser.cs:744-763 | a container opened under a context is closed by its own marker back to that context, and the other marker is refused |
| ReaderParser.InvalidToken | com/fasterxml/jackson/core/json/ReaderBasedJsonParser.cs:3234-3266 | an unrecognized token is a parse error |
| ReaderParser.MatchToken | com/fasterxml/jackson/core/json/ReaderBasedJsonParser.cs:3049-3088 | a literal is accepted exactly when the rest of it is in the input and what follows is the end, a char below '0', a close marker, or a char that is not an identifier part; it answers the position after the literal |
| ReaderParser.LiteralNeedsDelimiter | com/fasterxml/jackson/core/json/ReaderBasedJsonParser.cs:3049-3088 | any literal name whose first char has been read is matched, ending after the name, exactly when the end of the input or a delimiter follows it, and is refused when cut short |
| ReaderParser.HexDigits | com/fasterxml/jackson/core/json/ReaderBasedJsonParser.cs:2959-2978 | the four-digit loop succeeds exactly when all the chars are hex digits, and its value stays below 0x10000 |
| ReaderParser.DecodeEscaped | com/fasterxml/jackson/core/json/ReaderBasedJsonParser.cs:2902-2979 | the end of the input inside an escape is an error; a short escape takes one char and a unicode escape five; any other escaped char goes to the unrecognized-escape rule |
| ReaderParser.ShortEscapeAgrees | com/fasterxml/jackson/core/json/ReaderBasedJsonParser.cs:2912-2946 | each short escape the generator writes reads back as the char it stands for |
| ReaderParser.UnicodeEscapeAgrees | com/fasterxml/jackson/core/json/ReaderBasedJsonParser.cs:2959-2978 | four hex digits of either case read as the value the generator's \uXXXX form gives them, and any other char among them is refused |
| ReaderParser.EscapeRoundTrip | com/fasterxml/jackson/core/json/ReaderBasedJsonParser.cs:2902-2979 | every char the generator escapes, surrogate halves included, reads back from its escape as the same char, whatever follows the escape |
| ReaderParser.UnexpectedNumberChar | com/fasterxml/jackson/core/base/ParserBase.cs:1298-1307 | an unexpected char in a number is a parse error |
| ReaderParser.DigitRun | com/fasterxml/jackson/core/json/ReaderBasedJsonParser.cs:1535-1555 | the integer loop stops at the first non-digit or the end of the input, having read only digits |
| ReaderParser.ZeroRun | com/fasterxml/jackson/core/json/ReaderBasedJsonParser.cs:1700-1717 | the zero-skipping loop stops at the first char that is not '0', having read only zeros |
| ReaderParser.ZeroRunAt | com/fasterxml/jackson/core/json/ReaderBasedJsonParser.cs:1700-1717 | the stop of the zero-skipping loop is fixed by where the zeros end |
| ReaderParser.LeadingZeros | com/fasterxml/jackson/core/json/ReaderBasedJsonParser.cs:1664-1720 | a zero followed by a digit is a leading-zeroes error unless ALLOW_NUMERIC_LEADING_ZEROS is on; otherwise the zeros before the first significant digit are skipped, and only zeros are skipped |
| ReaderParser.VerifyNoLeadingZeroes | com/fasterxml/jackson/core/json/ReaderBasedJsonParser.cs:1664-1720 | the pointer-based loop refuses exactly the inputs the closed form refuses, and otherwise answers the first significant digit and the position after it |
| ReaderParser.Fraction | com/fasterxml/jackson/core/json/ReaderBasedJsonParser.cs:1563-1594 | a decimal point that no digit follows is an error; otherwise the fraction is the point with at least one digit, or absent when no point follows the integer digits |
| ReaderParser.Exponent | com/fasterxml/jackson/core/json/ReaderBasedJsonParser.cs:1596-1644 | an exponent marker needs at least one digit after an optional sign; without a marker the exponent is empty |
| ReaderParser.NonNumeric | com/fasterxml/jackson/core/json/ReaderBasedJsonParser.cs:1740-1767 | a matched non-numeric name such as -INF is accepted exactly when the rest of the name is in the input, delimited, and ALLOW_NON_NUMERIC_NUMBERS is on; it gives a float token |
| ReaderParser.InvalidNumberStart | com/fasterxml/jackson/core/json/ReaderBasedJsonParser.cs:1727-1773 | after a sign only INF and Infinity are recognized, and only with ALLOW_NON_NUMERIC_NUMBERS; the result is a float token for that name and the parser goes on after it |
| ReaderParser.ScanExtent | com/fasterxml/jackson/core/json/ReaderBasedJsonParser.cs:1527-1644 | the integer digits start after any skipped leading zeros, run to the first non-digit, and are followed by an optional fraction with at least one digit and then an optional exponent |
| ReaderParser.Assemble | com/fasterxml/jackson/core/json/ReaderBasedJsonParser.cs:1646-1656 | a scanned number becomes a numeral ending where the scan ended |
| ReaderParser.NumeralFrom | com/fasterxml/jackson/core/json/ReaderBasedJsonParser.cs:1515-1657 | every numeral the parser produces comes from the digits branch, assembled from the scanned extent |
| ReaderParser.DigitText | com/fasterxml/jackson/core/json/ReaderBasedJsonParser.cs:1544 | the digit chars copied into the text buffer keep their length and values |
| ReaderParser.NumberShape | com/fasterxml/jackson/core/json/ReaderBasedJsonParser.cs:1515-1657 | a parsed number keeps its sign; it is an integer token exactly when it has neither a fraction nor an exponent; its integer digits are canonical, so the type selection applies |
| ReaderParser.NumberText | com/fasterxml/jackson/core/json/ReaderBasedJsonParser.cs:1515-1657 | the number's text is its sign followed by the input chars the number was read from, and the integer digits sit at the start of them |
| ReaderParser.AssembledText | com/fasterxml/jackson/core/json/ReaderBasedJsonParser.cs:1519-1656 | the text of an assembled number is the sign followed by the scanned input from the first significant digit on |
| ReaderParser.DigitRunAt | com/fasterxml/jackson/core/json/ReaderBasedJsonParser.cs:1535-1555 | the stop of the integer loop is fixed by where the digits end |
| ReaderParser.ZerosValue | com/fasterxml/jackson/core/json/ReaderBasedJsonParser.cs:1700-1717 | zeros are worth nothing, however many |
| ReaderParser.LeadingZerosKeepValue | com/fasterxml/jackson/core/json/ReaderBasedJsonParser.cs:1681-1720 | skipping leading zeros keeps the value of the integer digits, and without ALLOW_NUMERIC_LEADING_ZEROS nothing is skipped |
| ReaderParser.ZeroPrefixValue | com/fasterxml/jackson/core/json/ReaderBasedJsonParser.cs:1700-1717 | zeros in front of digits do not change their value |
| ReaderParser.RootValueNeedsSpace | com/fasterxml/jackson/core/json/ReaderBasedJsonParser.cs:1646-1653 | at the root a number is accepted exactly when the end of the input or white space follows it, and is then the same number as inside a container; otherwise it is a missing-root-space error |
| ReaderParser.LeadingZeroRefused | com/fasterxml/jackson/core/json/ReaderBasedJsonParser.cs:1692-1696 | without ALLOW_NUMERIC_LEADING_ZEROS a zero followed by a digit is refused |
| ReaderParser.MatchesAtSplit | com/fasterxml/jackson/core/json/ReaderBasedJsonParser.cs:3049-3088 | a literal sits in the input exactly when its first chars and then the rest do |
| ReaderParser.NegativeNames | com/fasterxml/jackson/core/json/ReaderBasedJsonParser.cs:1742-1757 | the names after a minus sign are -INF and -Infinity |
| ReaderParser.InvalidStartNames | com/fasterxml/jackson/core/json/ReaderBasedJsonParser.cs:1727-1773 | after a minus sign, an invalid number start is accepted exactly when ALLOW_NON_NUMERIC_NUMBERS is on and INF or Infinity follows, delimited |
| ReaderParser.NegativeInfinity | com/fasterxml/jackson/core/json/ReaderBasedJsonParser.cs:1446-1463 | a minus sign reads as -INF or -Infinity exactly when the feature is on and the whole name is in the input, delimited; the text is the name and the parser goes on after it |
| ReaderParser.Run | com/fasterxml/jackson/core/json/ReaderBasedJsonParser.cs:1515-1657 | the reference recognizer for the number grammar of section 6 of RFC 8259, with leading zeros refused, only moves forward through the input |
| ReaderParser.RunDigits | com/fasterxml/jackson/core/json/ReaderBasedJsonParser.cs:1535-1555 | in a digit-reading state, the recognizer skips a run of digits and stays in the same state |
| ReaderParser.AfterExponentMarker | com/fasterxml/jackson/core/json/ReaderBasedJsonParser.cs:1596-1644 | after an exponent marker the recognizer accepts exactly when the exponent scan succeeds, and stops where the scan ends |
| ReaderParser.AfterFraction | com/fasterxml/jackson/core/json/ReaderBasedJsonParser.cs:1594-1644 | after the fraction digits the recognizer accepts exactly when the exponent scan succeeds, and stops where it ends |
| ReaderParser.AfterInteger | com/fasterxml/jackson/core/json/ReaderBasedJsonParser.cs:1557-1644 | after the integer digits the recognizer accepts exactly when the fraction and exponent scans succeed, and stops where they end |
| ReaderParser.NumberGrammar | com/fasterxml/jackson/core/json/ReaderBasedJsonParser.cs:1515-1657 | without ALLOW_NUMERIC_LEADING_ZEROS the parser yields a numeral exactly when the grammar recognizer accepts, stops where the recognizer stops, and the text is the number as written |
| ReaderParser.ExtentText | com/fasterxml/jackson/core/json/ReaderBasedJsonParser.cs:1519-1656 | when no zeros are dropped, the text of a number is the input as written, sign included |
| ReaderParser.ScanExtentStrict | com/fasterxml/jackson/core/json/ReaderBasedJsonParser.cs:1527-1644 | without ALLOW_NUMERIC_LEADING_ZEROS the scan succeeds exactly when no zero leads a digit and the fraction and exponent are well formed, and it ends where the exponent ends |
| ReaderParser.ParseFromExtent | com/fasterxml/jackson/core/json/ReaderBasedJsonParser.cs:1515-1657 | inside a container a number that starts with a digit after the optional sign is its scanned extent, or the scan's error |
| SerializedString.New | com/fasterxml/jackson/core/io/SerializedString.cs:29-58 | construction succeeds exactly for a non-null value, which it keeps; a null value is an InvalidOperationException |
| SerializedString.CharLength | com/fasterxml/jackson/core/io/SerializedString.cs:101-104 | the length is the number of UTF-16 units in the value |
| SerializedString.AsQuotedChars | com/fasterxml/jackson/core/io/SerializedString.cs:106-120 | the quoted chars are the JSON-escaped value, and they are cached without changing the value |
| SerializedString.AsQuotedUTF8 | com/fasterxml/jackson/core/io/SerializedString.cs:138-153 | the quoted bytes are the UTF-8 of the escaped value, cached; a broken surrogate pair is an argument error and nothing is cached |
| SerializedString.AsUnquotedUTF8 | com/fasterxml/jackson/core/io/SerializedString.cs:122-136 | the unquoted bytes are the UTF-8 of the value itself, cached; a broken surrogate pair is an argument error |
| SerializedString.CopyInto | com/fasterxml/jackson/core/io/SerializedString.cs:155-171 | -1 with the buffer untouched when the data does not fit; otherwise the data is copied at the offset, its length is answered, and the rest of the buffer is unchanged |
| SerializedString.AppendQuotedUTF8 | com/fasterxml/jackson/core/io/SerializedString.cs:155-171 | the quoted UTF-8 form is copied into the buffer if it fits, else -1 |
| SerializedString.AppendQuoted | com/fasterxml/jackson/core/io/SerializedString.cs:173-189 | the quoted chars are copied into the buffer if they fit, else -1 |
| SerializedString.AppendUnquotedUTF8 | com/fasterxml/jackson/core/io/SerializedString.cs:191-207 | the unquoted UTF-8 form is copied into the buffer if it fits, else -1 |
| SerializedString.AppendUnquoted | com/fasterxml/jackson/core/io/SerializedString.cs:209-220 | the raw chars of the value are copied into the buffer and their count answered, or -1 when they do not fit |
| SerializedString.WriteQuotedUTF8 | com/fasterxml/jackson/core/io/SerializedString.cs:222-235 | the whole quoted UTF-8 form is added to the stream and its length answered |
| SerializedString.WriteUnquotedUTF8 | com/fasterxml/jackson/core/io/SerializedString.cs:237-249 | the whole unquoted UTF-8 form is added to the stream and its length answered |
| SerializedString.PutQuotedUTF8 | com/fasterxml/jackson/core/io/SerializedString.cs:251-267 | the quoted UTF-8 form is put into the byte buffer when it fits in what remains, else -1 with nothing put |
| SerializedString.PutUnquotedUTF8 | com/fasterxml/jackson/core/io/SerializedString.cs:269-285 | the unquoted UTF-8 form is put into the byte buffer when it fits in what remains, else -1 with nothing put |
| SerializedString.EqualMeansSameForms | com/fasterxml/jackson/core/io/SerializedString.cs:302-315 | equality is by value alone, so two equal strings have the same cached forms whatever was computed first |
| SerializedString.PlainTextQuotesToItself | com/fasterxml/jackson/core/io/SerializedString.cs:106-153 | for text with nothing to escape the quoted form is the text itself, and the quoted and unquoted UTF-8 forms coincide |
| StreamContext.TypeDesc | com/fasterxml/jackson/core/JsonStreamContext.cs:97-118 | the description is "?" exactly for a kind that is none of root, array and object |
| ReadContext.EntriesCounted | com/fasterxml/jackson/core/JsonStreamContext.cs:120-130 | after n entries read into a fresh context, getEntryCount is n and getCurrentIndex is the position of the last entry, 0 while there is none |
| WriteContext.ValuesCounted | com/fasterxml/jackson/core/JsonStreamContext.cs:120-130 | after n values written into a fresh array or at the root, getEntryCount is n and getCurrentIndex is the position of the last value, 0 while there is none |
| StreamContext.KindsExclusive | com/fasterxml/jackson/core/JsonStreamContext.cs:68-118 | for each of the three kinds exactly one of inRoot, inArray and inObject holds, and the descriptions tell the kinds apart |
| StringEncoder.ConvertPair | com/fasterxml/jackson/core/io/JsonStringEncoder.cs:469-480 | a high surrogate combines with a second half exactly when that half is in DC00-DFFF, giving the supplementary code point whose halves they are; otherwise it is an argument error |
| StringEncoder.QuoteAsString | com/fasterxml/jackson/core/io/JsonStringEncoder.cs:104-167 | the chars written are the JSON-escaped input: plain chars copied, named escapes as two chars, other controls as the six-char \u00XX form |
| StringEncoder.PlainUnitBytes | com/fasterxml/jackson/core/io/JsonStringEncoder.cs:321-364 | a unit that is not a surrogate is written as its UTF-8 encoding: one, two or three bytes by range |
| StringEncoder.PairBytes | com/fasterxml/jackson/core/io/JsonStringEncoder.cs:384-400 | a combined surrogate pair is written as the four-byte UTF-8 encoding of its code point |
| StringEncoder.EncodeAsUTF8 | com/fasterxml/jackson/core/io/JsonStringEncoder.cs:304-415 | encoding succeeds exactly when the text is well-formed UTF-16, and then gives the UTF-8 of its code points; a lone surrogate is an argument error |
| StringEncoder.QuotedUnitBytes | com/fasterxml/jackson/core/io/JsonStringEncoder.cs:215-249 | for a unit that is not a surrogate, quoteAsUTF8 writes the UTF-8 of the unit's escape, which holds no surrogate |
| StringEncoder.QuoteBadStep | com/fasterxml/jackson/core/io/JsonStringEncoder.cs:250-262 | a lone low surrogate, or a high surrogate that no low one follows, makes both the text and its escaped form ill-formed |
| StringEncoder.QuoteAsUTF8 | com/fasterxml/jackson/core/io/JsonStringEncoder.cs:173-298 | quoting to UTF-8 is exactly escaping followed by UTF-8 encoding, and fails on the same inputs as encodeAsUTF8, since escapes only touch ASCII |
| TextBuffer.New | com/fasterxml/jackson/core/util/TextBuffer.cs:84-113 | a new buffer is empty and not shared |
| TextBuffer.Buf | com/fasterxml/jackson/core/util/TextBuffer.cs:237-245 | a segment is taken from the recycler when there is one, else allocated at the larger of the need and MIN_SEGMENT_LEN; either way it holds at least the need |
| TextBuffer.NextSegmentLength | com/fasterxml/jackson/core/util/TextBuffer.cs:660-687 | the next segment is half as long again as the full one, clamped to MIN_SEGMENT_LEN and MAX_SEGMENT_LEN |
| TextBuffer.Expand | com/fasterxml/jackson/core/util/TextBuffer.cs:785-812 | the whole current segment joins the list and an empty segment of the next length begins, so a full segment's text is kept |
| TextBuffer.Put | com/fasterxml/jackson/core/util/TextBuffer.cs:492-509 | chars that fit in the current segment are added at the end of the text and nothing else changes |
| TextBuffer.Unshare | com/fasterxml/jackson/core/util/TextBuffer.cs:759-783 | a shared slice becomes a private copy in the current segment, with room for the extra chars asked for, and the text is unchanged |
| TextBuffer.ClearSegments | com/fasterxml/jackson/core/util/TextBuffer.cs:247-265 | the segment list is emptied and the current segment kept |
| TextBuffer.ResetWithEmpty | com/fasterxml/jackson/core/util/TextBuffer.cs:153-177 | the text becomes empty and not shared, and the current segment is kept for reuse |
| TextBuffer.ResetWithShared | com/fasterxml/jackson/core/util/TextBuffer.cs:179-193 | the text becomes the slice buf[start..start+len], shared rather than copied |
| TextBuffer.ResetWithString | com/fasterxml/jackson/core/util/TextBuffer.cs:219-235 | the text becomes the given string, held only as the cached string |
| TextBuffer.ResetWithCopy | com/fasterxml/jackson/core/util/TextBuffer.cs:195-217 | the text becomes a private copy of the given chars |
| TextBuffer.AppendSegments | com/fasterxml/jackson/core/util/TextBuffer.cs:510-531 | when the current segment is full, the appended chars are spread over new segments and all land at the end of the text |
| TextBuffer.Append | com/fasterxml/jackson/core/util/TextBuffer.cs:492-531 | appending adds the chars in order at the end of the editable text and drops the cached results; with neither a shared slice nor a segment it is a NullReference |
| TextBuffer.AppendChar | com/fasterxml/jackson/core/util/TextBuffer.cs:473-490 | a single char is added at the end of the editable text, opening a new segment when the current one is full |
| TextBuffer.AppendCharsIsAppend | com/fasterxml/jackson/core/util/TextBuffer.cs:473-531 | appending a run char by char gives the same text as appending it at once, whatever the segment boundaries |
| TextBuffer.Unshared | com/fasterxml/jackson/core/util/TextBuffer.cs:465-471 | making a buffer unshared keeps its editable text and drops the caches |
| TextBuffer.Size | com/fasterxml/jackson/core/util/TextBuffer.cs:267-284 | size is the length of the text contentsAsString would give |
| TextBuffer.ContentsAsString | com/fasterxml/jackson/core/util/TextBuffer.cs:350-403 | the string is the buffer's text, and it is cached without changing the text |
| TextBuffer.ResultArray | com/fasterxml/jackson/core/util/TextBuffer.cs:814-856 | the array built is exactly the buffer's text |
| TextBuffer.ContentsAsArray | com/fasterxml/jackson/core/util/TextBuffer.cs:405-420 | the array is the buffer's text, and it is cached without changing the text |
| TextBuffer.GetTextBuffer | com/fasterxml/jackson/core/util/TextBuffer.cs:321-348 | the array handed out holds the text at getTextOffset, for size chars |
| TextBuffer.GetCurrentSegment | com/fasterxml/jackson/core/util/TextBuffer.cs:580-607 | the array handed out is the buffer's own current segment, with room for at least one more char after the text, which is unchanged |
| TextBuffer.EmptyAndGetCurrentSegment | com/fasterxml/jackson/core/util/TextBuffer.cs:609-630 | the text is emptied, the caches dropped, and the array handed out is the buffer's own non-empty current segment, to be filled from its start |
| TextBuffer.SetCurrentLength | com/fasterxml/jackson/core/util/TextBuffer.cs:637-641 | the text becomes the listed segments followed by the first len chars of the current segment, which hold what the caller stored there; the caches are left as they were |
| TextBuffer.FinishCurrentSegment | com/fasterxml/jackson/core/util/TextBuffer.cs:660-696 | the whole current segment, with the caller's stores, joins the list and an empty segment of the next length is handed out; without a current segment it is a NullReference |
| TextBuffer.StoreInSegment | com/fasterxml/jackson/core/json/ReaderBasedJsonParser.cs:1519-1544 | the caller's `outBuf[outPtr++] = c` writes into the handed-out array land in the current segment at that position, and nothing else in the buffer changes |
| TextBuffer.CommitAfterStore | com/fasterxml/jackson/core/util/TextBuffer.cs:637-641 | storing after the filled part of the current segment and committing the new length appends exactly the stored chars to the text |
| TextBuffer.FillAndCommit | com/fasterxml/jackson/core/json/ReaderBasedJsonParser.cs:1519-1654 | emptyAndGetCurrentSegment, stores from its start and setCurrentLength make the text exactly the stored chars, as a string too |
| TextBuffer.StoreAtEndAppends | com/fasterxml/jackson/core/util/TextBuffer.cs:580-607 | getCurrentSegment, stores after the current text and setCurrentLength append exactly the stored chars |
| TextBuffer.FillFinishFill | com/fasterxml/jackson/core/json/ReaderBasedJsonParser.cs:1538-1544 | a segment filled to its end and finished, then the next segment filled and committed, give both runs in order, the next segment having the next segment length |
| TextBuffer.ExpandCurrentSegment | com/fasterxml/jackson/core/util/TextBuffer.cs:698-721 | the current segment is copied into one half as long again, or a quarter once that would pass MAX_SEGMENT_LEN; its content and the text are kept |
| TextBuffer.ExpandCurrentSegmentTo | com/fasterxml/jackson/core/util/TextBuffer.cs:723-743 | the current segment grows to at least minSize, is kept as it is when already long enough, and keeps its content and the text |
| TextBuffer.ReleaseBuffers | com/fasterxml/jackson/core/util/TextBuffer.cs:128-151 | with a recycler and a segment the text is cleared and the segment goes back to the recycler; without a recycler the text is cleared; with a recycler and no segment nothing changes |
| TextBuffer.ContentsAsStringIdempotent | com/fasterxml/jackson/core/util/TextBuffer.cs:350-360 | reading the text as a string twice gives the same text, and the second read is served from the cache |
| TextBuffer.ResetThenRead | com/fasterxml/jackson/core/util/TextBuffer.cs:179-217 | a copied or shared slice reads back as itself, as a string and as an array, and its size is its length |
| TextBuffer.AppendToShared | com/fasterxml/jackson/core/util/TextBuffer.cs:492-509 | appending to a shared buffer first makes the slice private, so the text continues the slice |
| TextBuffer.AppendAppend | com/fasterxml/jackson/core/util/TextBuffer.cs:492-531 | two appends in a row give the same text as one append of both runs |
| TokenFilter.FromExpression | com/fasterxml/jackson/core/filter/JsonPointerBasedFilter.cs:19-22 | a filter from an expression exists exactly when the expression compiles, and then follows the compiled pointer |
| TokenFilter.Below | com/fasterxml/jackson/core/filter/JsonPointerBasedFilter.cs:31-41 | after a step nothing is included when the pointer does not match, everything when it is used up, and otherwise a filter on the remaining pointer |
| TokenFilter.IncludeProperty | com/fasterxml/jackson/core/filter/JsonPointerBasedFilter.cs:44-57 | INCLUDE_ALL includes every property; the pointer filter includes a property exactly when its current segment names it, and includes the whole subtree exactly when that was the last segment |
| TokenFilter.IncludeElement | com/fasterxml/jackson/core/filter/JsonPointerBasedFilter.cs:29-42 | INCLUDE_ALL includes every element; the pointer filter includes an element exactly when its current segment is that index, and the whole subtree exactly when that was the last segment |
| TokenFilter.IncludeRootValue | com/fasterxml/jackson/core/filter/TokenFilter.cs:268-272 | the root value is handed to the filter itself |
| TokenFilter.FilterStart | com/fasterxml/jackson/core/filter/JsonPointerBasedFilter.cs:59-67 | starting an array or object keeps the filter as it is |
| TokenFilter.IncludeAllKeeps | com/fasterxml/jackson/core/filter/TokenFilter.cs:190-194 | under INCLUDE_ALL every property is included along any path of names |
| TokenFilter.PathLeadsToIncludeAll | com/fasterxml/jackson/core/filter/JsonPointerBasedFilter.cs:44-73 | the pointer filter for a path of names leads, along exactly those names, to INCLUDE_ALL, under which every scalar is included |
| TokenFilter.OtherNameExcluded | com/fasterxml/jackson/core/filter/JsonPointerBasedFilter.cs:44-51 | a name other than the pointer's first segment excludes the property |
| TokenFilter.ElementSelection | com/fasterxml/jackson/core/filter/JsonPointerBasedFilter.cs:29-36 | a pointer filter includes exactly the element whose index its segment writes in canonical decimal |
| FilterContext.CreateRoot | com/fasterxml/jackson/core/filter/TokenFilterContext.cs:97-103 | the root context has no parent, the given filter, no entries or name, and its start counts as handled |
| FilterContext.CreateChild | com/fasterxml/jackson/core/filter/TokenFilterContext.cs:105-130 | a child array or object context, new or reused, sits under its parent with the given filter and start flag, no entries and no pending name |
| FilterContext.SetFieldName | com/fasterxml/jackson/core/filter/TokenFilterContext.cs:137-143 | the name is recorded and marked pending, the filter in force is answered, and nothing else changes |
| FilterContext.CheckValue | com/fasterxml/jackson/core/filter/TokenFilterContext.cs:149-164 | in an object the filter passes through unchanged; in an array the index advances and the element at that index is asked about; at the root the index advances and the filter is kept |
| FilterContext.ArrayCountsElements | com/fasterxml/jackson/core/filter/TokenFilterContext.cs:149-164 | in an array the value checked after n others is asked about as element index + n + 1: the index counts the values seen |
| FilterContext.NextTokenToRead | com/fasterxml/jackson/core/filter/TokenFilterContext.cs:376-395 | an unhandled start is handed out once as START_OBJECT or START_ARRAY; then a pending name in an object is handed out once as FIELD_NAME; then nothing |
| FilterContext.NextTokensSettle | com/fasterxml/jackson/core/filter/TokenFilterContext.cs:376-395 | asked repeatedly, a context hands out at most two tokens and then nothing, and once it says nothing it stays unchanged |
| FilterContext.NameIsReadOnce | com/fasterxml/jackson/core/filter/TokenFilterContext.cs:137-143 | a name set in a started object is read back as exactly one FIELD_NAME |
| FilterContext.Close | com/fasterxml/jackson/core/filter/TokenFilterContext.cs:301-330 | closing writes the end marker exactly when the start was written, notifies the filter exactly when it is neither null nor INCLUDE_ALL, and returns the parent |
| FilterContext.OpenCloseReturns | com/fasterxml/jackson/core/filter/TokenFilterContext.cs:105-130 | opening a child and closing it again returns to the parent, writing the end marker exactly when the start was written |
| FilterContext.ChainLinks | com/fasterxml/jackson/core/filter/TokenFilterContext.cs:356-359 | each context of the ancestor chain has the next one as its parent, and the last has none |
| FilterContext.FindChildOf | com/fasterxml/jackson/core/filter/TokenFilterContext.cs:397-416 | the answer is the nearest of the context and its ancestors whose parent is the target, and null exactly when there is none |
| FilterContext.SkipParentChecksAsWritten | com/fasterxml/jackson/core/filter/TokenFilterContext.cs:332-345 | the loop as written clears only the context's own filter and its parent's, however long the chain, and the rest keep theirs |
| FilterContext.SkipParentChecks | com/fasterxml/jackson/core/filter/TokenFilterContext.cs:332-345 | as intended, every context from this one up to the root loses its filter and nothing else changes |
| FilterContext.SkipClearsAll | com/fasterxml/jackson/core/filter/TokenFilterContext.cs:332-345 | after the intended skip no context of the chain checks a filter |
| FilterContext.GrandparentKeepsFilter | com/fasterxml/jackson/core/filter/TokenFilterContext.cs:336-340 | in a chain of three filtering contexts the loop as written leaves the root's filter in force, where the intended one clears it |
| Unicode.Combine | com/fasterxml/jackson/core/io/JsonStringEncoder.cs:469-480 | a high and a low surrogate combine into a supplementary code point, between 0x10000 and 0x10FFFF |
| Unicode.CombineSplit | com/fasterxml/jackson/core/io/JsonStringEncoder.cs:469-480 | splitting a supplementary code point into its halves and combining them gives it back |
| Unicode.SplitCombine | com/fasterxml/jackson/core/io/UTF8Writer.cs:440-453 | combining a pair and splitting the result gives back the same two halves |
| Unicode.CodePointsOfUtf16 | com/fasterxml/jackson/core/io/JsonStringEncoder.cs:366-378 | decoding the UTF-16 of scalar values gives them back |
| Unicode.Utf16OfCodePoints | com/fasterxml/jackson/core/io/JsonStringEncoder.cs:366-378 | encoding the code points of well-formed UTF-16 text gives the text back |
| Unicode.Utf8 | com/fasterxml/jackson/core/io/UTF8Writer.cs:255-300 | a code point takes one UTF-8 byte below 0x80, two below 0x800, three below 0x10000 and four above |
| Unicode.Utf8RoundTrip | com/fasterxml/jackson/core/io/CharTypes.cs:49-94 | every code point's UTF-8 bytes decode back to it, with the length the UTF-8 input table gives its lead byte |
| Unicode.Utf8LeadByte | com/fasterxml/jackson/core/io/CharTypes.cs:49-94 | the first byte of a multi-byte encoding has the sequence length as its UTF-8 table entry, and the other bytes are continuation bytes |
| Utf8Generator.Hex | com/fasterxml/jackson/core/json/UTF8JsonGenerator.cs:2463-2485 | each nibble is written as an upper-case hex digit that reads back as the nibble |
| Utf8Generator.HexQuad | com/fasterxml/jackson/core/json/UTF8JsonGenerator.cs:2463-2485 | a code unit's escape digits are always four characters, the four hex digits of a Unicode escape |
| Utf8Generator.HexQuadValue | com/fasterxml/jackson/core/json/UTF8JsonGenerator.cs:2463-2485 | four chars have a hex value exactly when all four are hex digits |
| Utf8Generator.HexQuadRoundTrip | com/fasterxml/jackson/core/json/UTF8JsonGenerator.cs:2463-2485 | the four hex digits written for a code unit read back as that code unit |
| Utf8Generator.WriteGenericEscape | com/fasterxml/jackson/core/json/UTF8JsonGenerator.cs:2463-2485 | the generic escape is a backslash, 'u' and the four upper-case hex digits of the code unit, "00" first for codes up to 0xFF |
| Utf8Generator.OutputMultiByteChar | com/fasterxml/jackson/core/json/UTF8JsonGenerator.cs:2425-2448 | a code unit above 0x7FF in the surrogate range is written as \uXXXX, and any other as its three UTF-8 bytes |
| Utf8Generator.EncodeUnit | com/fasterxml/jackson/core/json/UTF8JsonGenerator.cs:1509-1647 | a string char that needs escaping starts with a backslash; control chars without a short escape and surrogate halves get \uXXXX; other chars are written as UTF-8 |
| Utf8Generator.DecodeUnitFirst | com/fasterxml/jackson/core/json/UTF8JsonGenerator.cs:1509-1647 | what is written for a code unit decodes back to that unit, whatever follows it |
| Utf8Generator.EncodeDecode | com/fasterxml/jackson/core/json/UTF8JsonGenerator.cs:496-525 | the string content the generator writes decodes back to the original text, so every character reaches the output |
| Utf8Generator.PlainAsciiVerbatim | com/fasterxml/jackson/core/json/UTF8JsonGenerator.cs:1509-1551 | text that is all ASCII and needs no escaping is written verbatim |
| Utf8Generator.RawByte | com/fasterxml/jackson/core/json/UTF8JsonGenerator.cs:2094-2137 | in a UTF-8 segment, bytes of multi-byte sequences and ASCII that needs no escape are copied as they are |
| Utf8Generator.Utf8SegmentAppend | com/fasterxml/jackson/core/json/UTF8JsonGenerator.cs:2053-2063 | writing a UTF-8 string in several segments gives the same bytes as writing it whole |
| Utf8Generator.Utf8PassesThrough | com/fasterxml/jackson/core/json/UTF8JsonGenerator.cs:2094-2137 | the UTF-8 bytes of a non-ASCII code point pass through the corrected segment writer unchanged |
| Utf8Generator.Utf8SegmentMatchesString | com/fasterxml/jackson/core/json/UTF8JsonGenerator.cs:601-630 | writing the UTF-8 of a text through writeUTF8String gives the same bytes as writing the text through writeString |
| Utf8Generator.Segment2AsWrittenFails | com/fasterxml/jackson/core/json/UTF8JsonGenerator.cs:2094-2137 | as written, the escaping pass reads bytes as unsigned and fails on the first byte at or above 0x80, and otherwise agrees with the corrected pass |
| Utf8Generator.ScanAsWrittenResult | com/fasterxml/jackson/core/json/UTF8JsonGenerator.cs:2067-2092 | as written, the scan answers "no escape needed" only for all-ASCII bytes that need no escape, and fails only when a byte at or above 0x80 is present |
| Utf8Generator.Utf8SegmentVerbatim | com/fasterxml/jackson/core/json/UTF8JsonGenerator.cs:2067-2092 | copying the segment unchanged is right when no byte needs escaping |
| Utf8Generator.AsWrittenFailsIffNonAscii | com/fasterxml/jackson/core/json/UTF8JsonGenerator.cs:2067-2137 | as written, the UTF-8 segment writer fails exactly on text that is not all ASCII, and agrees with the corrected writer on ASCII text |
| Utf8Generator.NonAsciiCounterexample | com/fasterxml/jackson/core/json/UTF8JsonGenerator.cs:2074-2077 | the two bytes of U+00E9 make the segment writer as written index out of range, where the corrected writer copies both bytes |
| Utf8Generator.VerifyValueWrite | com/fasterxml/jackson/core/json/UTF8JsonGenerator.cs:1149-1204 | a value in an object without a field name is an error; otherwise the context counts the value and, without a pretty printer, a colon, a comma or the root separator is written as the context asks |
| Utf8Generator.VerifyPrettyValueWrite | com/fasterxml/jackson/core/json/UTF8JsonGenerator.cs:1206-1259 | with a pretty printer the separator status becomes the matching printer callback: array value separator, field-value separator, root value separator, or before-values callback |
| Utf8Generator.StringValueDecodes | com/fasterxml/jackson/core/json/UTF8JsonGenerator.cs:496-525 | a written string value is a quoted JSON string whose content decodes back to the text |
| Utf8Generator.WriteScalar | com/fasterxml/jackson/core/json/UTF8JsonGenerator.cs:1122-1147 | a boolean, null or string value passes the separator check and is written as its keyword or quoted escaped text |
| Utf8Generator.WriteStartArray | com/fasterxml/jackson/core/json/UTF8JsonGenerator.cs:310-327 | after the separator check a child array context with no entries opens under the counted parent, and '[' or the printer's callback is written |
| Utf8Generator.WriteStartObject | com/fasterxml/jackson/core/json/UTF8JsonGenerator.cs:352-369 | after the separator check a child object context with no entries or name opens, and '{' or the printer's callback is written |
| Utf8Generator.WriteEndArray | com/fasterxml/jackson/core/json/UTF8JsonGenerator.cs:329-350 | only an array can be closed, with an error naming the current context otherwise; ']' or the printer's callback with the element count is written and the parent becomes current |
| Utf8Generator.WriteEndObject | com/fasterxml/jackson/core/json/UTF8JsonGenerator.cs:371-396 | only an object can be closed, with an error naming the current context otherwise; '}' or the printer's callback with the entry count is written and the parent becomes current |
| Utf8Generator.WriteFieldName | com/fasterxml/jackson/core/json/UTF8JsonGenerator.cs:177-240 | a field name where a value is expected is an error; otherwise the name is recorded and written escaped, in quotes unless QUOTE_FIELD_NAMES is off, after a comma when it is not the first |
| Utf8Generator.ScalarInArray | com/fasterxml/jackson/core/json/UTF8JsonGenerator.cs:1149-1204 | inside an array without a printer a scalar is preceded by a comma unless it is the first element, and the index moves by one |
| Utf8Generator.ScalarsInArray | com/fasterxml/jackson/core/json/UTF8JsonGenerator.cs:1149-1204 | a run of scalars inside an array is written joined by commas, with a leading comma only after earlier elements, and each counts as an entry |
| Utf8Generator.ArrayOfScalars | com/fasterxml/jackson/core/json/UTF8JsonGenerator.cs:310-350 | an array of scalars without a printer is written as its separator, '[', the scalars joined by commas and ']', and the enclosing context counts one more value |
| Utf8Writer.ConvertSurrogate | com/fasterxml/jackson/core/io/UTF8Writer.cs:440-453 | the pending first half combines with the second part exactly when that part is a low surrogate, giving the code point whose halves they are; otherwise an IOException |
| Utf8Writer.EncodeCode | com/fasterxml/jackson/core/io/UTF8Writer.cs:251-302 | a code point up to 0x10FFFF is written as its UTF-8 bytes, and one above is an IOException |
| Utf8Writer.PairBytes | com/fasterxml/jackson/core/io/UTF8Writer.cs:106-227 | the bulk loop writes a combined pair as the four-byte UTF-8 of its code point |
| Utf8Writer.WriteInt | com/fasterxml/jackson/core/io/UTF8Writer.cs:229-302 | a first half is held back; a second half with nothing pending is an IOException; a scalar value is written as its UTF-8; a pending first half combines with a low surrogate or fails |
| Utf8Writer.WriteText | com/fasterxml/jackson/core/io/UTF8Writer.cs:106-227 | the bulk writer, including a leftover first half from the previous call, writes exactly what writing the chars one at a time would |
| Utf8Writer.EncodeNext | com/fasterxml/jackson/core/io/UTF8Writer.cs:130-225 | each iteration of the bulk loop either moves forward without changing what the rest will write, or stops with the final result |
| Utf8Writer.EncodeRest | com/fasterxml/jackson/core/io/UTF8Writer.cs:130-225 | the rest of the bulk loop writes what writing its chars one at a time would |
| Utf8Writer.WriteCharsAppend | com/fasterxml/jackson/core/io/UTF8Writer.cs:238-249 | writing in two calls is writing the concatenation, even with a surrogate pair split between the calls |
| Utf8Writer.WriteWellFormed | com/fasterxml/jackson/core/io/UTF8Writer.cs:229-302 | any well-formed UTF-16 text is written as the UTF-8 of the code points it encodes |
| Utf8Writer.Close | com/fasterxml/jackson/core/io/UTF8Writer.cs:55-84 | closing flushes everything written, and reports an orphaned first half, after closing, exactly when one is pending |
| Version.New | com/fasterxml/jackson/core/Version.cs:49-58 | the three numbers and the snapshot tag are kept as given, and a missing group or artifact id becomes the empty string |
| VersionUtil.PrintedFormDetermines | com/fasterxml/jackson/core/Version.cs:109-120 | two versions with non-negative numbers that print the same have the same three numbers and, for a snapshot, the same tag |
| Version.FullStringSplits | com/fasterxml/jackson/core/Version.cs:104-107 | for ids without a slash, the full form determines the group id, the artifact id and the printed version |
| Version.CompareTo | com/fasterxml/jackson/core/Version.cs:148-172 | compareTo answers zero exactly when Equals holds: same ids and the same three numbers, whatever the snapshot tags |
| Version.CompareToAntisymmetric | com/fasterxml/jackson/core/Version.cs:148-172 | for versions with non-negative numbers, a sorts before b exactly when b sorts after a |
| Version.CompareToOrdersNumbers | com/fasterxml/jackson/core/Version.cs:160-167 | between versions of one artifact with non-negative numbers, compareTo orders by major, then minor, then patch level |
| VersionUtil.RawSplit | com/fasterxml/jackson/core/util/VersionUtil.cs:25-26 | the text between separators of the class [-_./;:] contains no separator, and there is always at least one piece |
| VersionUtil.SplitThenJoin | com/fasterxml/jackson/core/util/VersionUtil.cs:25-26 | the pieces and the separators between them rebuild the original text, one more piece than separators |
| VersionUtil.JoinThenSplit | com/fasterxml/jackson/core/util/VersionUtil.cs:25-26 | separator-free pieces joined by separators split back into exactly those pieces |
| VersionUtil.SplitAllEmpty | com/fasterxml/jackson/core/util/VersionUtil.cs:25-26 | every piece is empty exactly when the text consists of separators only |
| VersionUtil.DropTrailingEmpty | com/fasterxml/jackson/core/util/VersionUtil.cs:173 | the split result is a prefix of the pieces that drops exactly the trailing empty ones, and is empty only when every piece is |
| VersionUtil.Split | com/fasterxml/jackson/core/util/VersionUtil.cs:173 | splitting answers no parts exactly when the text is all separators, and otherwise a prefix of the pieces |
| VersionUtil.ParseVersionPart | com/fasterxml/jackson/core/util/VersionUtil.cs:182-195 | a part's value is that of its leading digits, 0 when there are none, wrapped to a 32-bit int; it is the plain value when that fits |
| VersionUtil.ReadDecimal | com/fasterxml/jackson/core/util/VersionUtil.cs:182-195 | the decimal form of any non-negative int reads back as that int |
| VersionUtil.ParseVersion | com/fasterxml/jackson/core/util/VersionUtil.cs:169-180 | no text or blank text gives no version; text of separators only fails indexing the first part, since the split drops trailing empty pieces; otherwise major, minor and patch come from the first three parts, 0 when missing, and the fourth part is the snapshot tag |
| VersionUtil.ToStringPieces | com/fasterxml/jackson/core/Version.cs:109-120 | a printed version is its three decimal numbers, plus the tag for a snapshot, joined by separators |
| VersionUtil.ParseToString | com/fasterxml/jackson/core/util/VersionUtil.cs:169-180 | parsing a printed version with non-negative numbers gives the same version back, given ids and a separator-free tag |
| WriteContext.CreateRoot | com/fasterxml/jackson/core/json/JsonWriteContext.cs:122-126 | a root context starts before its first value, with no parent and the given duplicate detector |
| WriteContext.FreshChild | com/fasterxml/jackson/core/json/JsonWriteContext.cs:48-76 | a new child context is empty, has the given kind and parent, and has a child detector exactly when the parent has a detector |
| WriteContext.Reset | com/fasterxml/jackson/core/json/JsonWriteContext.cs:78-91 | a reused context takes the new kind and forgets its entries, its name and the names its detector saw, keeping parent and detector source |
| WriteContext.ResetIsFresh | com/fasterxml/jackson/core/json/JsonWriteContext.cs:128-152 | reusing the child slot gives exactly the state a newly made child would have, so the reuse is invisible |
| WriteContext.CreateChild | com/fasterxml/jackson/core/json/JsonWriteContext.cs:128-152 | createChildArrayContext and createChildObjectContext give an empty context of the asked kind, whether made fresh or reused |
| WriteContext.WriteFieldName | com/fasterxml/jackson/core/json/JsonWriteContext.cs:172-196 | a second name before a value asks for a value; a duplicate name is a generation error when detection is on; otherwise the name is recorded and needs a comma unless it is the first entry |
| WriteContext.WriteValue | com/fasterxml/jackson/core/json/JsonWriteContext.cs:198-222 | in an object a value without a name asks for a name, else follows a colon; in an array it follows a comma after the first; at the root it follows a space after the first; the index counts each value |
| WriteContext.SeparatorsInSequence | com/fasterxml/jackson/core/json/JsonWriteContext.cs:198-222 | n values in an array or the root are separated by commas or spaces except before the first, and the index moves by n |
| WriteContext.ObjectEntry | com/fasterxml/jackson/core/json/JsonWriteContext.cs:172-222 | a name then a value make one object entry: the name after a comma unless first, the value after a colon, and the index counts the entry |

## Left out

- ByteArrayBuilder release, getCurrentSegment, setCurrentSegmentLength, getCurrentSegmentLength, close and flush: they only hand a block back to the recycler, expose a field, or do nothing, so they state nothing beyond the fields the model already has.
- CharTypes sInputCodesJsNames, sInputCodesUtf8JsNames, copyHexChars and copyHexBytes: the identifier tables serve unquoted field names, which the parser model does not read, and the copies return the hex table unchanged.
- DupDetector findLocation: it asks the source parser for its location, which is outside this model.
- DataFormatDetector findFormat(stream or bytes) and ToString: they wrap the input in an accessor and build a matcher; the model takes each candidate's reported strength as input, because the factories' format checks are not part of it.
- GeneratorBase version, get/setCurrentValue, setCodec, getCodec, getOutputContext, the writeRawValue/writeBinary/writeObject/writeTree overloads, close and isClosed: they delegate to the codec, the tree model or the subclass's writers, which are outside this model.
- IOContext setEncoding, withEncoding, getSourceReference, getEncoding, isResourceManaged and constructTextBuffer: they only store or return fields or build a fresh text buffer.
- NumberInput parseAsDouble, parseDouble and parseBigDecimal: floating-point and big-decimal parsing. parseAsInt and parseAsLong hand any text with a non-digit to parseDouble; the model stops there with a ViaDouble result naming that text.
- NumberOutput outputInt(byte[]) and outputLong(byte[]): under the invariant culture assumed below they write the same characters as the char[] versions, one byte each; the model gives the character sequence once. Under another culture the byte version of long.MinValue casts the culture's sign char to its low byte (NumberOutput.cs:297-300).
- NumberOutput.OutputLong: long.MinValue is written from the literal "-9223372036854775808", where the source takes long.MinValue.ToString() (NumberOutput.cs:21), which uses the current culture's negative sign; the model assumes the invariant culture, whose sign is an ASCII '-'.
- NumberOutput.ToStringInt: outside -10..10 the source formats through Sharpen.Extensions.ToString (NumberOutput.cs:365), which follows the current culture; the model assumes the invariant culture and writes an ASCII '-' (a culture such as sv-SE would give U+2212).
- NumberOutput.ToStringLong: System.Convert.ToString(long) (NumberOutput.cs:374) follows the current culture; the model assumes the invariant culture and writes an ASCII '-'.
- VersionUtil.Split: the separator pattern is a Sharpen.Pattern (VersionUtil.cs:25, :174), and the Sharpen runtime is not part of this model. The model assumes it splits as Java's Pattern.split does, dropping trailing empty pieces. Were it to keep them, as .NET's Regex.Split does, a text of separators only would give version 0.0.0 instead of failing, and "1.2.3." would carry the snapshot tag "".
- Text.Trim: Sharpen.Extensions.Trim (VersionUtil.cs:172, NumberInput.cs:237, :296, :355) is assumed to trim as Java's String.trim does, every char up to and including the space; .NET's own String.Trim trims Unicode white space instead.
- Text.PlatformParse: System.Convert.ToInt32 and ToInt64 (NumberInput.cs:86-156, :282, :341) read the sign and white space of the current culture; the model assumes the invariant culture, whose signs are ASCII '-' and '+'.
- NumberOutput toString(double) and toString(float): floating-point formatting.
- TextBuffer contentsAsDecimal and contentsAsDouble: floating-point and big-decimal conversion of the text.
- TextBuffer hasTextAsCharacters, getCurrentSegmentSize, setCurrentAndReturn and ToString: they report a field, or combine setCurrentLength with contentsAsString, both of which are modelled.
- TokenFilter filterFinishObject, filterFinishArray, ToString and the includeBoolean/includeNull/includeString/includeNumber/includeBinary/includeRawValue/includeEmbeddedValue/includeValue family: the finish calls do nothing, and every scalar check answers _includeScalar, which is modelled once.
- TokenFilterContext writePath, writeImmediatePath, _writePath, appendDesc, ToString and get/setCurrentValue: they write through a generator or build a description; the generator is outside this model.
- UTF8Writer Append(char), write(char[]), write(string), write(string, off, len) and flush: the first three delegate to modelled writers; the string loop is the char-array loop over a string, modelled once as WriteText; flush only hands the buffered bytes to the stream.
- UTF8JsonGenerator writeNumber, writeRaw, writeRawValue, writeBinary, writeRawUTF8String and the SerializableString overloads of writeFieldName and writeString: numbers go through NumberOutput, which is modelled on its own; raw and binary output bypass the escaping modelled here or go through Base64Variant.
- UTF8JsonGenerator custom character escapes (_writeCustomStringSegment2, _writeCustomEscape, _handleLongCustomEscape) and the highest-non-escaped-char cut-off: the model writes with the standard escape table; the printer's field-name callback is recorded like the other callbacks.
- UTF8JsonGenerator flush, close, _flushBuffer, _releaseBuffers and getOutputBuffered: output buffering and stream handling; the model answers the bytes written, in order.
- Version unknownVersion, isUknownVersion, the getters and GetHashCode: identity and accessors with nothing to state beyond the fields.
- Version.CompareTo: the .NET ordinal string comparison is modelled only by its sign, and the subtraction of the numbers wraps to 32 bits; ordering lemmas assume non-negative numbers, as version numbers are. The ids are Dafny strings, so chars above U+FFFF are compared by scalar value where .NET compares their UTF-16 units, and lone surrogates do not occur.
- FilterContext.SkipParentChecks: the source's contexts are shared objects, and skipParentChecks clears the filters of the parent objects in place; the model takes the chain as a sequence of context values and clears each entry's filter, while the `parent` copy held inside an entry keeps the filter it had. FilterContext.SkipParentChecksAsWritten is modelled the same way.
- FilterContext.FindChildOf: the source compares contexts by reference; the model compares context values, so two equal contexts in one chain are not told apart.
- VersionUtil version, versionFor, packageVersionFor, mavenVersionFor, _close and throwInternal: class loading, reflection and resource reading.
- VersionUtil.ParseVersionPart: the loop bound `len` is not declared in the source; the model reads the whole part.
- JsonWriteContext withDupDetector, getCurrentValue, setCurrentValue, getParent, getCurrentName, getDupDetector, appendDesc and ToString: accessors and diagnostics.
- Base64Variant readResolve, the getters, ToString, Equals, GetHashCode, encodeBase64BitsAsChar/AsByte, decodeBase64Byte, the StringBuilder overloads of encodeBase64Chunk/Partial, encode(input) and decode(input): accessors, serialization hooks, or one-line wrappers of members that are modelled.
- Base64Variants: the translated class declares its static initialiser three times and initialises PEM before MIME, on which PEM is built; the model builds the variants in the order the static fields are evidently meant to be built.
- JsonPointer valueOf, fromSegment, getMatchingProperty, getMatchingIndex, mayMatchProperty and GetHashCode: aliases, accessors and hashing; fromSegment builds expression text that the modelled join already covers.
- ParserBase.ConvertNumberToInt: the double and BigDecimal branches are not modelled; a float token is outside the conversions.
- ParserBase.ConvertNumberToLong: the double and BigDecimal branches are not modelled; a float token is outside the conversions.
- ParserBase resetAsNaN, convertNumberToBigInteger, convertNumberToDouble, convertNumberToBigDecimal, _parseSlowFloat and the getters of BigInteger, float, double and decimal values, getNumberValue and getNumberType: floating-point and big-decimal values. _parseIntValue is the int branch of GetIntValue.
- ParserBase version, get/setCurrentValue, enable, disable, setFeatureMask, getCurrentName, overrideCurrentName, close, isClosed, the location getters other than getTokenColumnNr, getEmbeddedObject, loadMoreGuaranteed, _handleEOF, _eofAsNextChar, _releaseBuffers and the report* helpers: stream handling, accessors and message building. The feature operations are those of the FeatureMask module.
- ParserMinimalBase getValueAsDouble, getValueAsString, _decodeBase64, _hasTextualNull, the token accessors, nextValue and the _report*/_construct*/_wrap* helpers: floating point, delegation to the subclass, or message building. The token, text and embedded object that the coercions read are inputs of the model.
- ReaderBasedJsonParser loadMore, getNextChar, _closeInput, _releaseBuffers, releaseBuffered and getInputSource: buffer refills and stream handling. The scanners read on through the whole input instead.
- ReaderBasedJsonParser nextToken, _nextAfterName, _nextTokenNotInObject, nextFieldName, nextTextValue, nextIntValue, nextLongValue and nextBooleanValue: the token loop that drives the modelled scanners; it needs the name canonicalizer and the string scanner, which are not part of this model.
- ReaderBasedJsonParser _parseName, _parseName2, _handleOddName, _handleOddName2, _parseAposName, _handleOddValue, _handleApos, _finishString, _finishString2, _skipString, getText, _getText2, getTextCharacters, getTextLength, getTextOffset, getValueAsString, getBinaryValue, readBinaryValue, _readBinary and _decodeBase64: name and string scanning go through the symbol table and the text buffer's segment handling; the escape decoding they rely on is modelled.
- ReaderBasedJsonParser _skipColon, _skipColon2, _skipComma, _skipAfterComma2, _skipComment, _skipCComment, _skipYAMLComment and _skipLine: separators and comments. ReaderParser.SkipSpace models the white-space loop of _skipWSOrEnd and stops at any char above the space, where a slash or hash would start a comment.
- ReaderParser.MatchToken: the platform's identifier test (isJavaIdentifierPart) is a parameter; the lemmas about it assume only that ASCII letters, digits, '_', '$' and DEL pass it.
- ReaderParser.InvalidToken: _reportInvalidToken extends the reported token with the following identifier chars; the model answers a parse failure with a fixed message.
- ParserBase.DecodeBase64Escape: the subclass's _decodeEscaped is a parameter, the outcome of decoding the escape.
- IOContext: releasing null is a no-op, and _verifyRelease with nothing owned dereferences null; both are modelled as written.
- UTF8Writer: a write after close uses the released buffer and fails with a null reference; the model does not track the closed state.

## Findings

| source | as written | input that shows it | evidently intended | confidence | as-written member | corrected member |
|---|---|---|---|---|---|---|
| com/fasterxml/jackson/core/JsonParser.cs:1411-1421 | getByteValue's lower bound MIN_BYTE_I is `(int)byte.MinValue` (line 20), which is 0 because a C# `byte` is unsigned, so negative byte values are refused | an int token -1 | the range [-128, 255] that the comment at lines 1415-1416 documents (Java's byte minimum is -128) | not executed | ParserFeatures.ByteValue, shown by ParserFeatures.ByteValueRejectsNegative | ParserFeatures.ByteValueIntended, with ParserFeatures.ByteValueIntendedRoundTrip |
| com/fasterxml/jackson/core/io/NumberInput.cs:280-287 | parseAsInt catches only FormatException around `Convert.ToInt32`, so the OverflowException for a digit run outside the int range escapes; parseAsLong does the same at lines 339-346 | "2147483648" (for parseAsLong, "9223372036854775808") | the default value, as for every other text that does not parse | not executed | NumberInput.ParseAsInt and NumberInput.ParseAsLong, shown by NumberInput.ParseAsIntOverflowEscapes and NumberInput.ParseAsLongOverflowEscapes; ParserMinimal.GetValueAsInt and ParserMinimal.GetValueAsLong call them as the source does, shown by ParserMinimal.StringOverflowEscapes | NumberInput.ParseAsIntIntended and NumberInput.ParseAsLongIntended, with NumberInput.ParseAsIntRoundTrip and NumberInput.ParseAsLongRoundTrip |
| com/fasterxml/jackson/core/json/UTF8JsonGenerator.cs:2067-2137 | _writeUTF8Segment and _writeUTF8Segment2 test `ch >= 0` before indexing the 128-entry escape table with a byte; in C# a byte is never negative, so every byte at or above 0x80 indexes past the table | writeUTF8String on the UTF-8 of "é", the bytes 0xC3 0xA9 | bytes of multi-byte sequences are copied unchanged, as in Java where such bytes are negative | not executed | Utf8Generator.Utf8SegmentAsWritten, shown by Utf8Generator.NonAsciiCounterexample and Utf8Generator.AsWrittenFailsIffNonAscii | Utf8Generator.Utf8Segment, with Utf8Generator.Utf8PassesThrough and Utf8Generator.Utf8SegmentMatchesString |
| com/fasterxml/jackson/core/filter/TokenFilterContext.cs:332-345 | skipParentChecks walks up the chain but clears `_parent._filter` of the starting context on every step, so only this context and its parent lose their filters | a chain of three contexts, each with a filter | every context from this one up to the root stops checking a filter | not executed | FilterContext.SkipParentChecksAsWritten, shown by FilterContext.GrandparentKeepsFilter | FilterContext.SkipParentChecks, with FilterContext.SkipClearsAll |
