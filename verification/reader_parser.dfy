/** The char-level scanning of the reader-based JSON parser
  (ReaderBasedJsonParser): numbers, escapes, literal tokens, close markers,
  line breaks and the space that must follow a root-level value.

  The input is the rest of the char stream, UTF-16 code units, read from a
  position; where the parser refills its buffer the model simply reads on,
  so a fast path that gives up at a buffer boundary and re-scans on the
  slow path is the slow path here.  Each scanner answers the position it
  stops at and, where lines are counted, the updated location.
 */
module ReaderParser {
  import opened Ints
  import opened Wrappers
  import opened JsonToken
  import opened FeatureMask
  import opened ParserFeatures
  import opened CharTypes
  import opened StreamContext
  import opened ReadContext
  import ParserBase
  import ParserMinimal
  import Utf8Generator
  import Unicode

  const CH_SPACE: unit16 := ' ' as int
  const CH_TAB: unit16 := '\t' as int
  const CH_LF: unit16 := '\n' as int
  const CH_CR: unit16 := '\r' as int
  const CH_MINUS: unit16 := '-' as int
  const CH_PLUS: unit16 := '+' as int
  const CH_PERIOD: unit16 := '.' as int
  const CH_ZERO: unit16 := '0' as int
  const CH_NINE: unit16 := '9' as int
  const CH_LOWER_E: unit16 := 'e' as int
  const CH_UPPER_E: unit16 := 'E' as int
  const CH_RBRACKET: unit16 := ']' as int
  const CH_RCURLY: unit16 := '}' as int
  const CH_BACKSLASH: unit16 := '\\' as int

  predicate IsDigitU(c: int) { CH_ZERO <= c <= CH_NINE }

  // ---------------------------------------------------------------------
  // Line counting

  /** The current row and the input offset at which it starts. */
  datatype Location = Location(row: int, rowStart: int)

  /** _skipCR, with the CR just read and `p` at the char after it: an LF
      right after it belongs to the same line break.  Either way the row
      advances by one and starts after the break. */
  function SkipCR(s: seq<unit16>, p: nat, loc: Location): (r: (nat, Location))
    requires p <= |s|
    ensures r.0 == (if p < |s| && s[p] == CH_LF then p + 1 else p)
    ensures r.1 == Location(loc.row + 1, r.0)
  {
    var q := if p < |s| && s[p] == CH_LF then p + 1 else p;
    (q, Location(loc.row + 1, q))
  }

  /** The white space allowed between tokens. */
  predicate IsSpace(c: int) { c == CH_SPACE || c == CH_TAB || c == CH_LF || c == CH_CR }

  /** A line ends at `i` on an LF, or on a CR that no LF follows. */
  predicate LineEndAt(s: seq<unit16>, i: nat)
    requires i < |s|
  {
    s[i] == CH_LF || (s[i] == CH_CR && (i + 1 == |s| || s[i + 1] != CH_LF))
  }

  /** The number of line ends in `s[i..j]`. */
  function LineEnds(s: seq<unit16>, i: nat, j: nat): nat
    requires i <= j <= |s|
    decreases j - i
  {
    if i == j then 0 else (if LineEndAt(s, i) then 1 else 0) + LineEnds(s, i + 1, j)
  }

  /** _throwInvalidSpace. */
  const INVALID_SPACE: Exc := ParseFailure("Illegal character: only regular white space (\\r, \\n, \\t) is allowed between tokens")

  /** The white-space loop of _skipWSOrEnd: spaces and tabs are skipped,
      an LF or a CR (through _skipCR) starts a new row, any other control
      char is an error; it stops at the first char above the space, or at
      the end of the input. */
  function SkipSpace(s: seq<unit16>, p: nat, loc: Location): (r: Result<(nat, Location)>)
    requires p <= |s|
    decreases |s| - p
  {
    if p >= |s| || s[p] > CH_SPACE then Success((p, loc))
    else
      var c := s[p];
      if c == CH_SPACE || c == CH_TAB then SkipSpace(s, p + 1, loc)
      else if c == CH_LF then SkipSpace(s, p + 1, Location(loc.row + 1, p + 1))
      else if c == CH_CR then
        var w := SkipCR(s, p + 1, loc);
        SkipSpace(s, w.0, w.1)
      else Failure(INVALID_SPACE)
  }

  /** Before any char that ends the white space, a control char that is
      not white space. */
  predicate BadSpaceFrom(s: seq<unit16>, p: nat)
  {
    exists k :: p <= k < |s| && s[k] <= CH_SPACE && !IsSpace(s[k]) && AllSpace(s, p, k)
  }

  predicate AllSpace(s: seq<unit16>, p: nat, q: nat)
  {
    forall j :: p <= j < q && j < |s| ==> IsSpace(s[j])
  }

  /** Skipping white space counts every line end exactly once, a CR LF
      pair included, and stops at the first char that is not white space;
      it fails exactly on a control char that is not white space. */
  lemma {:induction false} SkipSpaceCounts(s: seq<unit16>, p: nat, loc: Location)
    requires p <= |s|
    ensures SkipSpace(s, p, loc).Failure? <==> BadSpaceFrom(s, p)
    ensures var r := SkipSpace(s, p, loc);
      r.Success? ==>
        && p <= r.value.0 <= |s|
        && AllSpace(s, p, r.value.0)
        && (r.value.0 == |s| || s[r.value.0] > CH_SPACE)
        && r.value.1.row == loc.row + LineEnds(s, p, r.value.0)
    decreases |s| - p
  {
    if p >= |s| || s[p] > CH_SPACE {
      SkipSpaceStops(s, p, loc);
    } else {
      if IsSpace(s[p]) {
        var q, next := SpaceAdvance(s, p, loc);
        SkipSpaceCounts(s, q, next);
        SkipSpaceStep(s, p, loc, q, next);
      } else {
        SkipSpaceRefuses(s, p, loc);
      }
    }
  }

  /** At a char above the space, or at the end, nothing is skipped. */
  lemma SkipSpaceStops(s: seq<unit16>, p: nat, loc: Location)
    requires p <= |s| && (p == |s| || s[p] > CH_SPACE)
    ensures SkipSpace(s, p, loc) == Success((p, loc)) && !BadSpaceFrom(s, p)
    ensures AllSpace(s, p, p) && LineEnds(s, p, p) == 0
  {
    if p < |s| {
      forall k | p < k < |s|
        ensures !AllSpace(s, p, k)
      {
        assert !IsSpace(s[p]);
      }
    }
  }

  /** A control char that is not white space is refused where it stands. */
  lemma SkipSpaceRefuses(s: seq<unit16>, p: nat, loc: Location)
    requires p < |s| && s[p] <= CH_SPACE && !IsSpace(s[p])
    ensures SkipSpace(s, p, loc).Failure? && BadSpaceFrom(s, p)
  {
    assert AllSpace(s, p, p);
  }

  /** One white-space char, or a CR LF pair, skipped: the location gains
      the line ends passed over. */
  lemma SpaceAdvance(s: seq<unit16>, p: nat, loc: Location) returns (q: nat, next: Location)
    requires p < |s| && IsSpace(s[p])
    ensures p < q <= |s| && AllSpace(s, p, q)
    ensures SkipSpace(s, p, loc) == SkipSpace(s, q, next)
    ensures next.row == loc.row + LineEnds(s, p, q)
  {
    var c := s[p];
    if c == CH_SPACE || c == CH_TAB {
      q, next := p + 1, loc;
      assert LineEnds(s, p, p + 1) == 0;
    } else if c == CH_LF {
      q, next := p + 1, Location(loc.row + 1, p + 1);
      assert LineEnds(s, p, p + 1) == 1;
    } else {
      var w := SkipCR(s, p + 1, loc);
      q, next := w.0, w.1;
      if q == p + 2 {
        assert !LineEndAt(s, p);
        assert LineEnds(s, p + 1, p + 2) == 1;
      }
      assert LineEnds(s, p, q) == 1;
    }
  }

  /** Skipping white space from `p` goes on as from `q` when the chars in
      between are white space holding the line ends the location gained. */
  lemma SkipSpaceStep(s: seq<unit16>, p: nat, loc: Location, q: nat, next: Location)
    requires p < q <= |s| && AllSpace(s, p, q)
    requires SkipSpace(s, p, loc) == SkipSpace(s, q, next)
    requires next.row == loc.row + LineEnds(s, p, q)
    requires SkipSpace(s, q, next).Failure? <==> BadSpaceFrom(s, q)
    requires var r := SkipSpace(s, q, next);
      r.Success? ==>
        && q <= r.value.0 <= |s|
        && AllSpace(s, q, r.value.0)
        && (r.value.0 == |s| || s[r.value.0] > CH_SPACE)
        && r.value.1.row == next.row + LineEnds(s, q, r.value.0)
    ensures SkipSpace(s, p, loc).Failure? <==> BadSpaceFrom(s, p)
    ensures var r := SkipSpace(s, p, loc);
      r.Success? ==>
        && p <= r.value.0 <= |s|
        && AllSpace(s, p, r.value.0)
        && (r.value.0 == |s| || s[r.value.0] > CH_SPACE)
        && r.value.1.row == loc.row + LineEnds(s, p, r.value.0)
  {
    SpaceFailureStep(s, p, q);
    var r := SkipSpace(s, q, next);
    if r.Success? {
      LineEndsSplit(s, p, q, r.value.0);
    }
  }

  /** A failure further on is a failure from here when the chars skipped
      in between are white space. */
  lemma SpaceFailureStep(s: seq<unit16>, p: nat, q: nat)
    requires p < q <= |s| && AllSpace(s, p, q)
    ensures BadSpaceFrom(s, p) <==> BadSpaceFrom(s, q)
  {
    if BadSpaceFrom(s, p) {
      var k :| p <= k < |s| && s[k] <= CH_SPACE && !IsSpace(s[k]) && AllSpace(s, p, k);
      assert k >= q;
      assert AllSpace(s, q, k);
    }
    if BadSpaceFrom(s, q) {
      var k :| q <= k < |s| && s[k] <= CH_SPACE && !IsSpace(s[k]) && AllSpace(s, q, k);
      assert AllSpace(s, p, k);
    }
  }

  lemma {:induction false} LineEndsSplit(s: seq<unit16>, i: nat, j: nat, k: nat)
    requires i <= j <= k <= |s|
    ensures LineEnds(s, i, k) == LineEnds(s, i, j) + LineEnds(s, j, k)
    decreases j - i
  {
    if i < j {
      LineEndsSplit(s, i + 1, j, k);
    }
  }

  /** A CR LF pair is a single line break: the row advances once and the
      next row starts after the LF. */
  lemma CrLfIsOneBreak(s: seq<unit16>, p: nat, loc: Location)
    requires p + 2 <= |s| && s[p] == CH_CR && s[p + 1] == CH_LF
    ensures SkipSpace(s, p, loc) == SkipSpace(s, p + 2, Location(loc.row + 1, p + 2))
    ensures LineEnds(s, p, p + 2) == 1
  {
    assert !LineEndAt(s, p) && LineEndAt(s, p + 1);
    assert LineEnds(s, p + 2, p + 2) == 0;
  }

  /** _verifyRootSpace, with `p` at the char after a root-level number:
      that char must be white space, which is consumed (a line break
      counted). */
  const MISSING_ROOT_WS: Exc := ParseFailure("Unexpected character: Expected space separating root-level values")

  function VerifyRootSpace(s: seq<unit16>, p: nat, loc: Location): (r: Result<(nat, Location)>)
    requires p < |s|
    ensures r.Success? <==> IsSpace(s[p])
    ensures r.Failure? ==> r.error == MISSING_ROOT_WS
    ensures r.Success? ==> p < r.value.0 <= |s| && r.value.1.row == loc.row + LineEnds(s, p, r.value.0)
  {
    var c := s[p];
    if c == CH_SPACE || c == CH_TAB then Success((p + 1, loc))
    else if c == CH_CR then
      var w := SkipCR(s, p + 1, loc);
      assert LineEnds(s, w.0, w.0) == 0;
      Success(w)
    else if c == CH_LF then Success((p + 1, Location(loc.row + 1, p + 1)))
    else Failure(MISSING_ROOT_WS)
  }

  // ---------------------------------------------------------------------
  // Close markers

  /** The close-marker branch of nextToken: ']' must close an array and
      '}' an object; the context returns to the parent. */
  function CloseScope(ctx: ReadCtx, marker: unit16): (r: Result<(Token, Option<ReadCtx>)>)
    requires marker == CH_RBRACKET || marker == CH_RCURLY
    ensures r.Success? <==> (if marker == CH_RBRACKET then InArray(ctx.kind) else InObject(ctx.kind))
    ensures r.Success? ==> r.value.1 == ctx.parent
    ensures r.Success? ==> r.value.0 == (if marker == CH_RBRACKET then END_ARRAY else END_OBJECT)
    ensures r.Failure? ==> r.error.ParseFailure?
  {
    if marker == CH_RBRACKET then
      if !InArray(ctx.kind) then Failure(ParseFailure("Unexpected close marker ']': expected '}'"))
      else Success((END_ARRAY, ctx.parent))
    else
      if !InObject(ctx.kind) then Failure(ParseFailure("Unexpected close marker '}': expected ']'"))
      else Success((END_OBJECT, ctx.parent))
  }

  /** A container opened under a context is closed by its own marker back
      to that context, and the other marker is refused. */
  lemma CloseMatchesOpen(parent: ReadCtx, lineNr: int, colNr: int)
    requires ReadContext.Valid(parent)
    ensures CloseScope(FreshChild(parent, TYPE_ARRAY, lineNr, colNr), CH_RBRACKET) == Success((END_ARRAY, Some(parent)))
    ensures CloseScope(FreshChild(parent, TYPE_OBJECT, lineNr, colNr), CH_RCURLY) == Success((END_OBJECT, Some(parent)))
    ensures CloseScope(FreshChild(parent, TYPE_ARRAY, lineNr, colNr), CH_RCURLY).Failure?
    ensures CloseScope(FreshChild(parent, TYPE_OBJECT, lineNr, colNr), CH_RBRACKET).Failure?
  {
  }

  // ---------------------------------------------------------------------
  // Literal tokens

  /** `t` sits in the input at `pos`. */
  predicate MatchesAt(s: seq<unit16>, pos: nat, t: seq<unit16>)
  {
    pos + |t| <= |s| && s[pos..pos + |t|] == t
  }

  /** What may follow a literal: the end of the input, a char below '0',
      a close marker, or a char that is not part of an identifier. */
  predicate Delimited(s: seq<unit16>, q: nat, identPart: unit16 -> bool)
  {
    q >= |s| || s[q] < CH_ZERO || s[q] == CH_RBRACKET || s[q] == CH_RCURLY || !identPart(s[q])
  }

  /** _reportInvalidToken (without the heuristic that extends the quoted
      text by the identifier chars that follow). */
  function InvalidToken(matched: seq<unit16>): (e: Exc)
    ensures e.ParseFailure?
  {
    ParseFailure("Unrecognized token: was expecting 'null', 'true', 'false' or NaN")
  }

  /** _matchToken: with the first `i` chars of `matchStr` already read and
      the input at `pos`, the rest must follow char by char, and then the
      token must end; `identPart` is the platform's
      `char.isJavaIdentifierPart`.  Answers the position after the token. */
  function MatchToken(s: seq<unit16>, pos: nat, matchStr: seq<unit16>, i: nat, identPart: unit16 -> bool): (r: Result<nat>)
    requires i < |matchStr|
    ensures r.Success? <==> MatchesAt(s, pos, matchStr[i..]) && Delimited(s, pos + |matchStr| - i, identPart)
    ensures r.Success? ==> r.value == pos + |matchStr| - i
    ensures r.Failure? ==> r.error.ParseFailure?
    decreases |matchStr| - i
  {
    if pos >= |s| || s[pos] != matchStr[i] then
      Failure(InvalidToken(matchStr[..i]))
    else if i + 1 < |matchStr| then
      var r := MatchToken(s, pos + 1, matchStr, i + 1, identPart);
      MatchStep(s, pos, matchStr, i);
      r
    else
      var p := pos + 1;
      assert matchStr[i..] == [matchStr[i]];
      if p >= |s| then Success(p)
      else
        var c := s[p];
        if c < CH_ZERO || c == CH_RBRACKET || c == CH_RCURLY then Success(p)
        else if identPart(c) then Failure(InvalidToken(matchStr))
        else Success(p)
  }

  /** Once the char at `pos` agrees, the rest of the token must follow it. */
  lemma MatchStep(s: seq<unit16>, pos: nat, matchStr: seq<unit16>, i: nat)
    requires pos < |s| && i + 1 < |matchStr| && s[pos] == matchStr[i]
    ensures MatchesAt(s, pos, matchStr[i..]) <==> MatchesAt(s, pos + 1, matchStr[i + 1..])
  {
    var t := matchStr[i..];
    MatchesAtSplit(s, pos, t, 1);
    assert t[..1] == [s[pos]] == s[pos..pos + 1];
    assert t[1..] == matchStr[i + 1..];
  }

  /** The ASCII identifier chars: letters, digits, the underscore, the
      dollar sign and the ignorable DEL. */
  predicate AsciiIdentPart(c: unit16)
  {
    ('a' as int <= c <= 'z' as int) || ('A' as int <= c <= 'Z' as int) || IsDigitU(c)
    || c == '_' as int || c == '$' as int || c == 0x7F
  }

  /** A literal name (true, false, null, NaN, ...) whose first char has been
      read is matched exactly when the chars after it are the end of the
      input or begin with a delimiter; a literal cut short by the end of
      the input is refused. */
  lemma LiteralNeedsDelimiter(lit: seq<unit16>, rest: seq<unit16>, identPart: unit16 -> bool)
    requires |lit| >= 2
    ensures var r := MatchToken(lit + rest, 1, lit, 1, identPart);
      && (r.Success? <==> |rest| == 0 || rest[0] < CH_ZERO || rest[0] == CH_RBRACKET
                          || rest[0] == CH_RCURLY || !identPart(rest[0]))
      && (r.Success? ==> r.value == |lit|)
    ensures forall k :: 1 <= k < |lit| ==> MatchToken(lit[..k], 1, lit, 1, identPart).Failure?
  {
    assert (lit + rest)[1..|lit|] == lit[1..];
    assert |rest| > 0 ==> (lit + rest)[|lit|] == rest[0];
  }

  // ---------------------------------------------------------------------
  // Escapes

  const ESCAPE_EOF: Exc := ParseFailure("Unexpected end-of-input in character escape sequence")
  const ESCAPE_NOT_HEX: Exc := ParseFailure("Unexpected character: expected a hex-digit for character escape sequence")

  /** The hex loop of _decodeEscaped: `n` more hex digits from `p`, each
      shifted in below the value so far. */
  function HexDigits(s: seq<unit16>, p: nat, n: nat, value: nat): (r: Result<nat>)
    requires n <= 4 && value < Pow16(4 - n) && p <= |s|
    ensures r.Success? ==> r.value < 0x1_0000
    ensures r.Success? <==> p + n <= |s| && forall k :: p <= k < p + n ==> IsHexUnit(s[k])
    decreases n
  {
    if n == 0 then
      assert Pow16(4) == 0x1_0000;
      Success(value)
    else if p >= |s| then Failure(ESCAPE_EOF)
    else
      var digit := CharToHex(s[p]).v;
      if digit < 0 then Failure(ESCAPE_NOT_HEX)
      else HexDigits(s, p + 1, n - 1, value * 16 + digit)
  }

  function Pow16(k: nat): (p: nat)
    ensures p >= 1
  {
    if k == 0 then 1 else 16 * Pow16(k - 1)
  }

  /** _decodeEscaped, with the backslash read and `p` at the char after
      it: the short escapes, the three chars that stand for themselves,
      a `u` with four hex digits, and otherwise the unrecognized-escape
      rule.  Answers the char and the position after the escape. */
  function DecodeEscaped(flags: Mask, s: seq<unit16>, p: nat): (r: Result<(unit16, nat)>)
    ensures p >= |s| ==> r == Failure(ESCAPE_EOF)
    ensures r.Success? ==> r.value.1 == (if s[p] == 'u' as int then p + 5 else p + 1)
    ensures p < |s| && (s[p] >= 0x100 || Utf8Generator.ShortUnescape(s[p]) == None) && s[p] != 'u' as int ==>
      r == (match ParserMinimal.HandleUnrecognizedEscape(flags, s[p])
            case Success(c) => Success((c, p + 1))
            case Failure(e) => Failure(e))
  {
    if p >= |s| then Failure(ESCAPE_EOF)
    else
      var c := s[p];
      if c == 'b' as int then Success((0x08, p + 1))
      else if c == 't' as int then Success((0x09, p + 1))
      else if c == 'n' as int then Success((0x0A, p + 1))
      else if c == 'f' as int then Success((0x0C, p + 1))
      else if c == 'r' as int then Success((0x0D, p + 1))
      else if c == '"' as int || c == '/' as int || c == '\\' as int then Success((c, p + 1))
      else if c == 'u' as int then
        var value :- HexDigits(s, p + 1, 4, 0);
        Success((value, p + 5))
      else
        var ch :- ParserMinimal.HandleUnrecognizedEscape(flags, c);
        Success((ch, p + 1))
  }

  /** An escape the generator's short-escape table writes reads back as
      the char it stands for. */
  lemma ShortEscapeAgrees(flags: Mask, s: seq<unit16>, p: nat, u: unit16)
    requires p < |s| && s[p] < 0x100 && Utf8Generator.ShortUnescape(s[p]) == Some(u)
    ensures DecodeEscaped(flags, s, p) == Success((u, p + 1))
  {
  }

  /** Four hex digits of either case read as the value the generator's
      `\uXXXX` reading gives them; any other char among them is refused. */
  lemma {:induction false} UnicodeEscapeAgrees(s: seq<unit16>, p: nat)
    requires p + 4 <= |s|
    ensures HexDigits(s, p, 4, 0).Success? <==> forall k :: p <= k < p + 4 ==> IsHexUnit(s[k])
    ensures HexDigits(s, p, 4, 0).Success? ==>
      var q: seq<byte> := s[p..p + 4];
      HexDigits(s, p, 4, 0) == Success(Utf8Generator.HexQuadValue(q).value)
  {
    if forall k :: p <= k < p + 4 ==> IsHexUnit(s[k]) {
      var q: seq<byte> := s[p..p + 4];
      assert q[0] == s[p] && q[1] == s[p + 1] && q[2] == s[p + 2] && q[3] == s[p + 3];
      HexFour(s, p);
    }
  }

  /** Reading four hex digits folds their values most significant first. */
  lemma HexFour(s: seq<unit16>, p: nat)
    requires p + 4 <= |s| && forall k :: p <= k < p + 4 ==> IsHexUnit(s[k])
    ensures HexDigits(s, p, 4, 0) == Success(HexValueOf(s[p]) * 0x1000 + HexValueOf(s[p + 1]) * 0x100
                                             + HexValueOf(s[p + 2]) * 16 + HexValueOf(s[p + 3]))
  {
    var d0, d1, d2, d3 := HexValueOf(s[p]), HexValueOf(s[p + 1]), HexValueOf(s[p + 2]), HexValueOf(s[p + 3]);
    var v := ((d0 * 16 + d1) * 16 + d2) * 16 + d3;
    assert HexDigits(s, p + 4, 0, v) == Success(v);
    assert HexDigits(s, p + 3, 1, (d0 * 16 + d1) * 16 + d2) == Success(v);
    assert HexDigits(s, p + 2, 2, d0 * 16 + d1) == Success(v);
    assert HexDigits(s, p + 1, 3, d0) == Success(v);
  }

  /** Every escape the generator writes (a short escape, or `\u` and four
      hex digits for other control chars and surrogates) reads back, after
      its backslash, as the char it was written for, whatever follows it. */
  lemma EscapeRoundTrip(flags: Mask, ch: unit16, rest: seq<unit16>)
    requires NeedsEscape(ch) || Unicode.IsSurrogate(ch)
    ensures var e := Utf8Generator.EncodeUnit(ch);
      e[0] == Utf8Generator.BYTE_BACKSLASH &&
      var t: seq<unit16> := e[1..];
      DecodeEscaped(flags, t + rest, 0) == Success((ch, |e| - 1))
  {
    var e := Utf8Generator.EncodeUnit(ch);
    var t: seq<unit16> := e[1..];
    var s := t + rest;
    if Unicode.IsSurrogate(ch) || (ch < 32 && OutputEscape(ch) == ESCAPE_STANDARD) {
      assert e == [Utf8Generator.BYTE_BACKSLASH, Utf8Generator.BYTE_U] + Utf8Generator.HexQuad(ch);
      assert s[0] == 'u' as int;
      var q: seq<byte> := s[1..5];
      assert q == Utf8Generator.HexQuad(ch);
      Utf8Generator.HexQuadRoundTrip(ch);
      UnicodeEscapeAgrees(s, 1);
    } else {
      Utf8Generator.DecodeUnitFirst(ch, []);
      assert |e| == 2 && e[1] < 0x80;
      assert Utf8Generator.ShortUnescape(e[1]) == Some(ch);
      ShortEscapeAgrees(flags, s, 0, ch);
    }
  }

  // ---------------------------------------------------------------------
  // Numbers

  const NO_DIGIT_AFTER_MINUS: Exc := ParseFailure("Unexpected end-of-input: No digit following minus sign")
  const EOF_IN_VALUE: Exc := ParseFailure("Unexpected end-of-input in a value")
  const EXPONENT_EOF: Exc := ParseFailure("Unexpected end-of-input: expected a digit for number exponent")
  const LEADING_ZEROES: Exc := ParseFailure("Invalid numeric value: Leading zeroes not allowed")
  const NON_STANDARD: Exc := ParseFailure("Non-standard token: enable JsonParser.Feature.ALLOW_NON_NUMERIC_NUMBERS to allow")

  /** reportUnexpectedNumberChar, without the description of the char. */
  function UnexpectedNumberChar(comment: string): (e: Exc)
    ensures e.ParseFailure?
  {
    ParseFailure("Unexpected character in numeric value: " + comment)
  }

  const NO_FRACTION_DIGIT: Exc := UnexpectedNumberChar("Decimal point not followed by a digit")
  const NO_EXPONENT_DIGIT: Exc := UnexpectedNumberChar("Exponent indicator not followed by a digit")
  const EXPECTED_DIGIT: Exc := UnexpectedNumberChar("expected digit (0-9) to follow minus sign, for valid numeric value")

  predicate IsExpMarker(c: int) { c == CH_LOWER_E || c == CH_UPPER_E }

  /** The position after the longest run of digits from `p`. */
  function DigitRun(s: seq<unit16>, p: nat): (r: nat)
    requires p <= |s|
    ensures p <= r <= |s|
    ensures forall k :: p <= k < r ==> IsDigitU(s[k])
    ensures r == |s| || !IsDigitU(s[r])
    decreases |s| - p
  {
    if p < |s| && IsDigitU(s[p]) then DigitRun(s, p + 1) else p
  }

  /** The position after the longest run of zeros from `p`. */
  function ZeroRun(s: seq<unit16>, p: nat): (r: nat)
    requires p <= |s|
    ensures p <= r <= |s|
    ensures forall k :: p <= k < r ==> s[k] == CH_ZERO
    ensures r == |s| || s[r] != CH_ZERO
    decreases |s| - p
  {
    if p < |s| && s[p] == CH_ZERO then ZeroRun(s, p + 1) else p
  }

  /** A run of zeros is determined by where it stops. */
  lemma ZeroRunAt(s: seq<unit16>, p: nat, j: nat)
    requires p <= j <= |s|
    requires forall k :: p <= k < j ==> s[k] == CH_ZERO
    requires j == |s| || s[j] != CH_ZERO
    ensures ZeroRun(s, p) == j
  {
  }

  /** The digits from `z` on have no leading zero, a lone zero aside. */
  predicate NoLeadingZeroAt(s: seq<unit16>, z: nat)
    requires z < |s|
  {
    s[z] != CH_ZERO || z + 1 == |s| || !IsDigitU(s[z + 1])
  }

  /** Where the integer digits start once the zero at `p` has been looked
      past: a zero that a digit follows is refused unless
      ALLOW_NUMERIC_LEADING_ZEROS is on, in which case the zeros are
      dropped, all of them when a digit follows them and all but one when
      anything else does. */
  function LeadingZeros(flags: Mask, s: seq<unit16>, p: nat): (r: Result<nat>)
    requires p < |s| && s[p] == CH_ZERO
    ensures r.Failure? <==>
      p + 1 < |s| && IsDigitU(s[p + 1]) && !IsEnabled(flags, ALLOW_NUMERIC_LEADING_ZEROS)
    ensures r.Failure? ==> r.error == LEADING_ZEROES
    ensures r.Success? ==> p <= r.value < |s| && IsDigitU(s[r.value]) && NoLeadingZeroAt(s, r.value)
    ensures r.Success? ==> forall k :: p <= k < r.value ==> s[k] == CH_ZERO
  {
    if p + 1 >= |s| || !IsDigitU(s[p + 1]) then Success(p)
    else if !IsEnabled(flags, ALLOW_NUMERIC_LEADING_ZEROS) then Failure(LEADING_ZEROES)
    else
      var k := ZeroRun(s, p);
      if k < |s| && IsDigitU(s[k]) then Success(k) else Success(k - 1)
  }

  /** _verifyNoLeadingZeroes with _verifyNLZ2, as the parser runs them
      with the zero at `p` just read: answers the char the integer loop
      goes on with and the position after it. */
  method VerifyNoLeadingZeroes(flags: Mask, s: seq<unit16>, p: nat) returns (r: Result<(unit16, nat)>)
    requires p < |s| && s[p] == CH_ZERO
    ensures r.Failure? <==> LeadingZeros(flags, s, p).Failure?
    ensures r.Failure? ==> r.error == LEADING_ZEROES
    ensures r.Success? ==>
      var z := LeadingZeros(flags, s, p).value;
      r.value == (s[z], z + 1)
  {
    var ptr := p + 1;
    if ptr >= |s| || !IsDigitU(s[ptr]) {
      return Success((CH_ZERO, ptr));
    }
    if !IsEnabled(flags, ALLOW_NUMERIC_LEADING_ZEROS) {
      return Failure(LEADING_ZEROES);
    }
    var ch := s[ptr];
    ptr := ptr + 1;
    if ch == CH_ZERO {
      while ptr < |s|
        invariant p + 2 <= ptr <= |s|
        invariant forall k :: p <= k < ptr ==> s[k] == CH_ZERO
        invariant ch == CH_ZERO
        decreases |s| - ptr
      {
        ch := s[ptr];
        if !IsDigitU(ch) {
          ZeroRunAt(s, p, ptr);
          return Success((CH_ZERO, ptr));
        }
        ptr := ptr + 1;
        if ch != CH_ZERO {
          ZeroRunAt(s, p, ptr - 1);
          return Success((ch, ptr));
        }
      }
      ZeroRunAt(s, p, |s|);
    } else {
      ZeroRunAt(s, p, p + 1);
    }
    return Success((ch, ptr));
  }

  /** The fraction after the integer digits ending at `ie`: a decimal
      point needs at least one digit.  Answers where the fraction ends. */
  function Fraction(s: seq<unit16>, ie: nat): (r: Result<nat>)
    requires ie <= |s|
    ensures r.Failure? <==> ie < |s| && s[ie] == CH_PERIOD && (ie + 1 == |s| || !IsDigitU(s[ie + 1]))
    ensures r.Failure? ==> r.error == NO_FRACTION_DIGIT
    ensures r.Success? && r.value != ie ==> ie + 2 <= r.value <= |s| && s[ie] == CH_PERIOD
    ensures r.Success? && r.value == ie ==> ie == |s| || s[ie] != CH_PERIOD
  {
    if ie < |s| && s[ie] == CH_PERIOD then
      var fe := DigitRun(s, ie + 1);
      if fe == ie + 1 then Failure(NO_FRACTION_DIGIT) else Success(fe)
    else Success(ie)
  }

  /** The exponent after position `fe`: an `e` or `E`, an optional sign,
      then at least one digit.  Answers where its digits start and end
      (both `fe` when there is none). */
  function Exponent(s: seq<unit16>, fe: nat): (r: Result<(nat, nat)>)
    requires fe <= |s|
    ensures r.Success? ==> fe <= r.value.0 <= r.value.1 <= |s|
    ensures r.Success? && r.value.1 == fe ==> fe == |s| || !IsExpMarker(s[fe])
    ensures r.Failure? ==> r.error == EXPONENT_EOF || r.error == NO_EXPONENT_DIGIT
  {
    if fe < |s| && IsExpMarker(s[fe]) then
      var q := fe + 1;
      if q >= |s| then Failure(EXPONENT_EOF)
      else
        var d := if s[q] == CH_MINUS || s[q] == CH_PLUS then q + 1 else q;
        if d >= |s| then Failure(EXPONENT_EOF)
        else
          var ee := DigitRun(s, d);
          if ee == d then Failure(NO_EXPONENT_DIGIT) else Success((d, ee))
    else Success((fe, fe))
  }

  /** A number just read: a numeral (its sign, the integer digits kept once
      leading zeros are dropped, the lengths of fraction and exponent), or
      one of the non-numeric names. */
  datatype Numeral =
    | Numeral(negative: bool, intDigits: seq<unit16>, fractLen: nat, expLen: nat)
    | NotANumber(name: seq<unit16>)

  /** The outcome of reading a number: its token, the numeral, the text the
      text buffer keeps for it, where it ends in the input, and the position
      and location the parser goes on from. */
  datatype NumberScan = NumberScan(token: Token, numeral: Numeral, text: seq<unit16>, end: nat, next: nat, loc: Location)

  /** The non-numeric name with the given sign. */
  function SignedName(negative: bool, name: string): (u: seq<unit16>)
    requires forall i :: 0 <= i < |name| ==> (name[i] as int) < 0x80
  {
    Units((if negative then "-" else "+") + name)
  }

  /** A matched non-numeric name, with the first three chars read and the
      input at `pos`: accepted only with ALLOW_NON_NUMERIC_NUMBERS. */
  function NonNumeric(flags: Mask, s: seq<unit16>, pos: nat, name: seq<unit16>, loc: Location, identPart: unit16 -> bool): (r: Result<NumberScan>)
    requires |name| > 3
    ensures r.Success? <==>
      MatchesAt(s, pos, name[3..]) && Delimited(s, pos + |name| - 3, identPart) && IsEnabled(flags, ALLOW_NON_NUMERIC_NUMBERS)
    ensures r.Success? ==>
      r.value == NumberScan(VALUE_NUMBER_FLOAT, NotANumber(name), name, pos + |name| - 3, pos + |name| - 3, loc)
  {
    var end :- MatchToken(s, pos, name, 3, identPart);
    if IsEnabled(flags, ALLOW_NON_NUMERIC_NUMBERS) then
      Success(NumberScan(VALUE_NUMBER_FLOAT, NotANumber(name), name, end, end, loc))
    else Failure(NON_STANDARD)
  }

  /** _handleInvalidNumberStart, with the offending char at `q`: only
      `INF` and `Infinity` (after the sign) are recognized. */
  function InvalidNumberStart(flags: Mask, s: seq<unit16>, q: nat, negative: bool, loc: Location, identPart: unit16 -> bool): (r: Result<NumberScan>)
    requires q < |s|
    ensures r.Success? ==> IsEnabled(flags, ALLOW_NON_NUMERIC_NUMBERS)
    ensures r.Success? ==> r.value.numeral.NotANumber? && r.value.token == VALUE_NUMBER_FLOAT
    ensures r.Success? ==>
      var n := r.value.numeral.name;
      (n == SignedName(negative, "INF") || n == SignedName(negative, "Infinity"))
      && MatchesAt(s, q, n[1..]) && r.value.next == q + |n| - 1 && Delimited(s, r.value.next, identPart)
  {
    if s[q] == 'I' as int then
      if q + 1 >= |s| then Failure(EOF_IN_VALUE)
      else if s[q + 1] == 'N' as int then
        var n := SignedName(negative, "INF");
        MatchesAfterTwo(s, q, n);
        NonNumeric(flags, s, q + 2, n, loc, identPart)
      else if s[q + 1] == 'n' as int then
        var n := SignedName(negative, "Infinity");
        MatchesAfterTwo(s, q, n);
        NonNumeric(flags, s, q + 2, n, loc, identPart)
      else Failure(EXPECTED_DIGIT)
    else Failure(EXPECTED_DIGIT)
  }

  /** A name whose second and third chars have been read at `q` matches
      from `q` once its rest matches from `q + 2`. */
  lemma MatchesAfterTwo(s: seq<unit16>, q: nat, n: seq<unit16>)
    requires q + 2 <= |s| && |n| > 3 && s[q] == n[1] && s[q + 1] == n[2]
    ensures MatchesAt(s, q + 2, n[3..]) ==> MatchesAt(s, q, n[1..])
  {
    MatchesAtSplit(s, q, n[1..], 2);
    assert n[1..][..2] == [n[1], n[2]] == s[q..q + 2];
    assert n[1..][2..] == n[3..];
  }

  /** Where the parts of a number lie: the integer digits kept run from
      `z` to `ie`, the fraction (point included) up to `fe`, the exponent
      digits from `ed` to `end`. */
  datatype Extent = Extent(z: nat, ie: nat, fe: nat, ed: nat, end: nat)

  /** The integer digits from `p` (with _verifyNoLeadingZeroes), an
      optional fraction and an optional exponent. */
  function ScanExtent(flags: Mask, s: seq<unit16>, p: nat): (r: Result<Extent>)
    requires p < |s| && IsDigitU(s[p])
    ensures r.Success? ==>
      var x := r.value;
      && p <= x.z < x.ie <= x.fe <= x.ed <= x.end <= |s|
      && x.ie == DigitRun(s, x.z) && NoLeadingZeroAt(s, x.z)
      && (forall k :: p <= k < x.z ==> s[k] == CH_ZERO)
      && (x.fe == x.ie || x.ie + 2 <= x.fe)
  {
    var z :- if s[p] == CH_ZERO then LeadingZeros(flags, s, p) else Success(p);
    var ie := DigitRun(s, z);
    var fe :- Fraction(s, ie);
    var ex :- Exponent(s, fe);
    Success(Extent(z, ie, fe, ex.0, ex.1))
  }

  /** Reading a number from `start`, at a minus sign or a digit
      (_parsePosNumber, _parseNegNumber, _parseFloat and _parseNumber2,
      whose results agree when no buffer boundary intervenes): the integer
      digits, an optional fraction, an optional exponent; a root-level value
      must be followed by white space, which is consumed. */
  function ParseNumber(flags: Mask, inRoot: bool, s: seq<unit16>, start: nat, loc: Location, identPart: unit16 -> bool): (r: Result<NumberScan>)
    requires start < |s| && (s[start] == CH_MINUS || IsDigitU(s[start]))
  {
    var negative := s[start] == CH_MINUS;
    var p := if negative then start + 1 else start;
    if p >= |s| then Failure(NO_DIGIT_AFTER_MINUS)
    else if !IsDigitU(s[p]) then InvalidNumberStart(flags, s, p, negative, loc, identPart)
    else
      var x :- ScanExtent(flags, s, p);
      var after :- if inRoot && x.end < |s| then VerifyRootSpace(s, x.end, loc) else Success((x.end, loc));
      Success(Assemble(negative, s, x, after.0, after.1))
  }

  /** The token, numeral and text for a number whose parts lie at `x`. */
  function Assemble(negative: bool, s: seq<unit16>, x: Extent, next: nat, loc: Location): (r: NumberScan)
    requires x.z <= x.ie <= x.fe <= x.ed <= x.end <= |s|
    ensures r.numeral.Numeral? && r.end == x.end && r.next == next
  {
    var fractLen := if x.fe == x.ie then 0 else x.fe - x.ie - 1;
    var reset := ParserBase.ResetNumber(negative, x.ie - x.z, fractLen, x.end - x.ed);
    var text := (if negative then [CH_MINUS] else []) + s[x.z..x.end];
    NumberScan(reset.token, Numeral(negative, s[x.z..x.ie], fractLen, x.end - x.ed), text, x.end, next, loc)
  }

  /** A numeral comes only from the digits branch, assembled from its
      extent. */
  lemma NumeralFrom(flags: Mask, inRoot: bool, s: seq<unit16>, start: nat, loc: Location, identPart: unit16 -> bool)
    requires start < |s| && (s[start] == CH_MINUS || IsDigitU(s[start]))
    ensures var r := ParseNumber(flags, inRoot, s, start, loc, identPart);
      var p := if s[start] == CH_MINUS then start + 1 else start;
      r.Success? && r.value.numeral.Numeral? ==>
        && p < |s| && IsDigitU(s[p]) && ScanExtent(flags, s, p).Success?
        && var x := ScanExtent(flags, s, p).value;
        && x.end <= r.value.next <= |s|
        && r.value == Assemble(s[start] == CH_MINUS, s, x, r.value.next, r.value.loc)
  {
  }

  /** The digits of a numeral as a string. */
  function DigitText(u: seq<unit16>): (t: string)
    requires forall k :: 0 <= k < |u| ==> IsDigitU(u[k])
    ensures |t| == |u| && AllDigits(t)
    ensures forall k :: 0 <= k < |u| ==> t[k] as int == u[k]
  {
    seq(|u|, k requires 0 <= k < |u| => if IsDigitU(u[k]) then u[k] as char else '0')
  }

  /** What a numeral read holds: an integer token exactly when there is
      neither fraction nor exponent, and integer digits without a leading
      zero, so canonical in the sense the value parser relies on. */
  lemma NumberShape(flags: Mask, inRoot: bool, s: seq<unit16>, start: nat, loc: Location, identPart: unit16 -> bool)
    requires start < |s| && (s[start] == CH_MINUS || IsDigitU(s[start]))
    ensures var r := ParseNumber(flags, inRoot, s, start, loc, identPart);
      r.Success? && r.value.numeral.Numeral? ==> NumeralShape(r.value, s[start] == CH_MINUS)
  {
    var r := ParseNumber(flags, inRoot, s, start, loc, identPart);
    var p := if s[start] == CH_MINUS then start + 1 else start;
    NumeralFrom(flags, inRoot, s, start, loc, identPart);
    if r.Success? && r.value.numeral.Numeral? {
      var x := ScanExtent(flags, s, p).value;
      AssembledShape(s[start] == CH_MINUS, s, x, r.value.next, r.value.loc);
    }
  }

  /** The shape of a numeral read with the given sign: an integer token
      exactly when there is neither fraction nor exponent, and canonical
      integer digits. */
  predicate NumeralShape(v: NumberScan, negative: bool)
    requires v.numeral.Numeral?
  {
    var n := v.numeral;
    && n.negative == negative
    && (v.token == VALUE_NUMBER_INT <==> n.fractLen == 0 && n.expLen == 0)
    && (v.token == VALUE_NUMBER_INT || v.token == VALUE_NUMBER_FLOAT)
    && (forall k :: 0 <= k < |n.intDigits| ==> IsDigitU(n.intDigits[k]))
    && ParserBase.Canonical(DigitText(n.intDigits))
  }

  /** NumberShape for the scan assembled from an extent the scanner found. */
  lemma AssembledShape(negative: bool, s: seq<unit16>, x: Extent, next: nat, loc: Location)
    requires x.z < x.ie <= x.fe <= x.ed <= x.end <= |s|
    requires x.ie == DigitRun(s, x.z) && NoLeadingZeroAt(s, x.z)
    requires x.fe == x.ie || x.ie + 2 <= x.fe
    ensures NumeralShape(Assemble(negative, s, x, next, loc), negative)
  {
    var n := Assemble(negative, s, x, next, loc).numeral;
    assert n.intDigits == s[x.z..x.ie];
    var t := DigitText(n.intDigits);
    assert t[0] as int == s[x.z];
    assert |t| > 1 ==> t[1] as int == s[x.z + 1];
  }

  /** The text kept for a numeral is its sign and the number as read with
      only leading zeros left out, and the parser goes on at or past the
      end of the number. */
  lemma NumberText(flags: Mask, inRoot: bool, s: seq<unit16>, start: nat, loc: Location, identPart: unit16 -> bool)
    requires start < |s| && (s[start] == CH_MINUS || IsDigitU(s[start]))
    ensures var r := ParseNumber(flags, inRoot, s, start, loc, identPart);
      r.Success? && r.value.numeral.Numeral? ==> KeptText(s, start, r.value)
  {
    var r := ParseNumber(flags, inRoot, s, start, loc, identPart);
    var negative := s[start] == CH_MINUS;
    var p := if negative then start + 1 else start;
    NumeralFrom(flags, inRoot, s, start, loc, identPart);
    if r.Success? && r.value.numeral.Numeral? {
      var x := ScanExtent(flags, s, p).value;
      AssembledNumberText(negative, s, start, x, r.value.next, r.value.loc);
    }
  }

  /** The text kept for a numeral read from `start`: its sign, then the
      digits from the first one that is not a leading zero up to where the
      number ends; only zeros are skipped. */
  predicate KeptText(s: seq<unit16>, start: nat, v: NumberScan)
    requires v.numeral.Numeral?
  {
    var n := v.numeral;
    var sign: seq<unit16> := if n.negative then [CH_MINUS] else [];
    var d := |v.text| - |sign|;
    && start + |sign| + |n.intDigits| <= v.end <= v.next <= |s|
    && |sign| <= |v.text| && v.text[..|sign|] == sign
    && start + |sign| <= v.end - d && |n.intDigits| <= d
    && v.text[|sign|..] == s[v.end - d..v.end]
    && s[v.end - d..v.end - d + |n.intDigits|] == n.intDigits
    && (forall k :: start + |sign| <= k < v.end - d ==> s[k] == CH_ZERO)
  }

  /** NumberText for the scan assembled from an extent. */
  lemma AssembledNumberText(negative: bool, s: seq<unit16>, start: nat, x: Extent, next: nat, loc: Location)
    requires start <= x.z <= x.ie <= x.fe <= x.ed <= x.end <= next <= |s|
    requires negative ==> start + 1 <= x.z
    requires forall k :: (if negative then start + 1 else start) <= k < x.z ==> s[k] == CH_ZERO
    ensures KeptText(s, start, Assemble(negative, s, x, next, loc))
  {
    var v := Assemble(negative, s, x, next, loc);
    AssembledText(negative, s, x, next, loc);
    var sign: seq<unit16> := if negative then [CH_MINUS] else [];
    assert v.numeral.negative == negative;
    assert |v.text| - |sign| == x.end - x.z;
  }

  lemma AssembledText(negative: bool, s: seq<unit16>, x: Extent, next: nat, loc: Location)
    requires x.z <= x.ie <= x.fe <= x.ed <= x.end <= |s|
    ensures var r := Assemble(negative, s, x, next, loc);
      var sign: seq<unit16> := if negative then [CH_MINUS] else [];
      && |r.text| == |sign| + (x.end - x.z)
      && r.text[..|sign|] == sign && r.text[|sign|..] == s[x.z..x.end]
      && r.numeral.intDigits == s[x.z..x.ie]
  {
  }

  /** A run of digits is determined by where it stops. */
  lemma DigitRunAt(s: seq<unit16>, p: nat, j: nat)
    requires p <= j <= |s|
    requires forall k :: p <= k < j ==> IsDigitU(s[k])
    requires j == |s| || !IsDigitU(s[j])
    ensures DigitRun(s, p) == j
  {
  }

  /** Zeros are worth nothing, however many. */
  lemma {:induction false} ZerosValue(t: string)
    requires forall k :: 0 <= k < |t| ==> t[k] == '0'
    ensures AllDigits(t) && DigitsValue(t) == 0
  {
    if |t| > 0 {
      ZerosValue(t[..|t| - 1]);
    }
  }

  /** Dropping leading zeros (with ALLOW_NUMERIC_LEADING_ZEROS on) keeps
      the value of the integer digits; with it off the integer digits are
      exactly those read. */
  lemma LeadingZerosKeepValue(flags: Mask, inRoot: bool, s: seq<unit16>, start: nat, loc: Location, identPart: unit16 -> bool)
    requires start < |s| && (s[start] == CH_MINUS || IsDigitU(s[start]))
    ensures var r := ParseNumber(flags, inRoot, s, start, loc, identPart);
      var p := if s[start] == CH_MINUS then start + 1 else start;
      r.Success? && r.value.numeral.Numeral? ==> p <= |s| && IntDigitsRead(flags, s, p, r.value.numeral.intDigits)
  {
    var r := ParseNumber(flags, inRoot, s, start, loc, identPart);
    var p := if s[start] == CH_MINUS then start + 1 else start;
    NumeralFrom(flags, inRoot, s, start, loc, identPart);
    if r.Success? && r.value.numeral.Numeral? {
      ExtentIntValue(flags, s[start] == CH_MINUS, s, p, r.value.next, r.value.loc);
    }
  }

  /** LeadingZerosKeepValue for a successful extent scan from `p`. */
  lemma ExtentIntValue(flags: Mask, negative: bool, s: seq<unit16>, p: nat, next: nat, loc: Location)
    requires p < |s| && IsDigitU(s[p]) && ScanExtent(flags, s, p).Success?
    ensures IntDigitsRead(flags, s, p, Assemble(negative, s, ScanExtent(flags, s, p).value, next, loc).numeral.intDigits)
  {
    var x := ScanExtent(flags, s, p).value;
    AssembledIntValue(negative, s, p, x, next, loc);
    if !IsEnabled(flags, ALLOW_NUMERIC_LEADING_ZEROS) {
      ScanExtentStrict(flags, s, p);
    }
  }

  /** The integer digits kept for the digit run from `p`: the same value,
      and the very digits read unless leading zeros are allowed. */
  predicate IntDigitsRead(flags: Mask, s: seq<unit16>, p: nat, digits: seq<unit16>)
    requires p <= |s|
  {
    && SameIntValue(s, p, digits)
    && (!IsEnabled(flags, ALLOW_NUMERIC_LEADING_ZEROS) ==> digits == s[p..DigitRun(s, p)])
  }

  /** The integer digits kept denote the same value as the digit run read
      from `p`. */
  predicate SameIntValue(s: seq<unit16>, p: nat, digits: seq<unit16>)
    requires p <= |s|
  {
    var raw := s[p..DigitRun(s, p)];
    && (forall k :: 0 <= k < |raw| ==> IsDigitU(raw[k]))
    && (forall k :: 0 <= k < |digits| ==> IsDigitU(digits[k]))
    && DigitsValue(DigitText(raw)) == DigitsValue(DigitText(digits))
  }

  /** LeadingZerosKeepValue for the scan assembled from an extent. */
  lemma AssembledIntValue(negative: bool, s: seq<unit16>, p: nat, x: Extent, next: nat, loc: Location)
    requires p <= x.z < x.ie <= x.fe <= x.ed <= x.end <= |s|
    requires x.ie == DigitRun(s, x.z) && forall k :: p <= k < x.z ==> s[k] == CH_ZERO
    ensures var n := Assemble(negative, s, x, next, loc).numeral;
      && SameIntValue(s, p, n.intDigits)
      && (x.z == p ==> n.intDigits == s[p..DigitRun(s, p)])
  {
    DigitRunAt(s, p, x.ie);
    ZeroPrefixValue(s, p, x.z, x.ie);
  }

  /** Zeros in front of digits do not change their value. */
  lemma ZeroPrefixValue(s: seq<unit16>, p: nat, z: nat, e: nat)
    requires p <= z <= e <= |s|
    requires forall k :: p <= k < z ==> s[k] == CH_ZERO
    requires forall k :: z <= k < e ==> IsDigitU(s[k])
    ensures DigitsValue(DigitText(s[p..e])) == DigitsValue(DigitText(s[z..e]))
  {
    var zeros, kept := s[p..z], s[z..e];
    var tz, tk := DigitText(zeros), DigitText(kept);
    assert DigitText(s[p..e]) == tz + tk;
    ZerosValue(tz);
    DigitsValueAppend(tz, tk);
  }

  /** A root-level number must be followed by white space or the end of
      the input, and is otherwise refused; nothing else differs from the
      same number inside a container. */
  lemma RootValueNeedsSpace(flags: Mask, s: seq<unit16>, start: nat, loc: Location, identPart: unit16 -> bool)
    requires start < |s| && (s[start] == CH_MINUS || IsDigitU(s[start]))
    ensures var inner := ParseNumber(flags, false, s, start, loc, identPart);
      var root := ParseNumber(flags, true, s, start, loc, identPart);
      inner.Success? && inner.value.numeral.Numeral? ==>
        && (root.Success? <==> inner.value.end == |s| || IsSpace(s[inner.value.end]))
        && (root.Failure? ==> root.error == MISSING_ROOT_WS)
        && (root.Success? ==>
              && root.value.numeral == inner.value.numeral && root.value.text == inner.value.text
              && root.value.end == inner.value.end && root.value.token == inner.value.token)
    ensures var inner := ParseNumber(flags, false, s, start, loc, identPart);
      var root := ParseNumber(flags, true, s, start, loc, identPart);
      inner.Failure? || inner.value.numeral.NotANumber? ==> root == inner
  {
    NumeralFrom(flags, false, s, start, loc, identPart);
    NumeralFrom(flags, true, s, start, loc, identPart);
  }

  /** Without ALLOW_NUMERIC_LEADING_ZEROS a zero that a digit follows is
      refused. */
  lemma LeadingZeroRefused(flags: Mask, inRoot: bool, s: seq<unit16>, start: nat, loc: Location, identPart: unit16 -> bool)
    requires start < |s| && (s[start] == CH_MINUS || IsDigitU(s[start]))
    requires !IsEnabled(flags, ALLOW_NUMERIC_LEADING_ZEROS)
    requires var p := if s[start] == CH_MINUS then start + 1 else start;
      p + 1 < |s| && s[p] == CH_ZERO && IsDigitU(s[p + 1])
    ensures ParseNumber(flags, inRoot, s, start, loc, identPart) == Failure(LEADING_ZEROES)
  {
  }

  /** `t` at `pos` is its first `i` chars there followed by the rest. */
  lemma MatchesAtSplit(s: seq<unit16>, pos: nat, t: seq<unit16>, i: nat)
    requires i <= |t| && pos + i <= |s|
    ensures MatchesAt(s, pos, t) <==> s[pos..pos + i] == t[..i] && MatchesAt(s, pos + i, t[i..])
  {
    if MatchesAt(s, pos, t) {
      assert s[pos..pos + i] == s[pos..pos + |t|][..i];
      assert s[pos + i..pos + |t|] == s[pos..pos + |t|][i..];
    }
    if s[pos..pos + i] == t[..i] && MatchesAt(s, pos + i, t[i..]) {
      assert s[pos..pos + |t|] == s[pos..pos + i] + s[pos + i..pos + |t|];
      assert t == t[..i] + t[i..];
    }
  }

  /** The two non-numeric names after a minus sign, char by char. */
  /** The two non-numeric names after a minus sign. */
  const NEG_INF: seq<unit16> := SignedName(true, "INF")
  const NEG_INFINITY: seq<unit16> := SignedName(true, "Infinity")

  lemma NegativeNames()
    ensures NEG_INF == [CH_MINUS, 'I' as int, 'N' as int, 'F' as int]
    ensures var n := NEG_INFINITY;
      |n| == 9 && n[0] == CH_MINUS && n[1] == 'I' as int && n[2] == 'n' as int
  {
    assert "-" + "INF" == "-INF";
    assert "-" + "Infinity" == "-Infinity";
  }

  /** After a minus sign, at the char `q` that is not a digit: "INF" or
      "Infinity" read as a non-numeric name exactly when
      ALLOW_NON_NUMERIC_NUMBERS is on and the name ends there. */
  lemma InvalidStartNames(flags: Mask, s: seq<unit16>, q: nat, loc: Location, identPart: unit16 -> bool)
    requires q < |s|
    ensures var r := InvalidNumberStart(flags, s, q, true, loc, identPart);
      var inf, infinity := NEG_INF, NEG_INFINITY;
      r.Success? <==>
        IsEnabled(flags, ALLOW_NON_NUMERIC_NUMBERS) &&
        ((MatchesAt(s, q, inf[1..]) && Delimited(s, q + 3, identPart)) ||
         (MatchesAt(s, q, infinity[1..]) && Delimited(s, q + 8, identPart)))
  {
    var inf, infinity := NEG_INF, NEG_INFINITY;
    NegativeNames();
    NameAfterSign(s, q, inf);
    NameAfterSign(s, q, infinity);
  }

  /** A token matches exactly when its first char does and the rest
      follows. */
  lemma MatchesAfterFirst(s: seq<unit16>, pos: nat, t: seq<unit16>)
    requires pos < |s| && |t| > 0
    ensures MatchesAt(s, pos, t) <==> s[pos] == t[0] && MatchesAt(s, pos + 1, t[1..])
  {
    MatchesAtSplit(s, pos, t, 1);
    assert s[pos..pos + 1] == [s[pos]];
    assert t[..1] == [t[0]];
  }

  /** A name matches after its sign exactly when its second and third
      chars come first and the rest follows them. */
  lemma NameAfterSign(s: seq<unit16>, q: nat, n: seq<unit16>)
    requires |n| > 3
    ensures MatchesAt(s, q, n[1..]) <==>
      q + 2 <= |s| && s[q] == n[1] && s[q + 1] == n[2] && MatchesAt(s, q + 2, n[3..])
  {
    if q + 2 <= |s| {
      MatchesAtSplit(s, q, n[1..], 2);
      assert n[1..][2..] == n[3..];
      assert n[1..][..2] == [n[1], n[2]];
      assert s[q..q + 2] == [s[q], s[q + 1]];
    }
  }

  /** After a minus sign, "INF" and "Infinity" read as non-numeric names
      exactly when ALLOW_NON_NUMERIC_NUMBERS is on and the name ends
      there; the parser goes on after the name. */
  lemma NegativeInfinity(flags: Mask, inRoot: bool, s: seq<unit16>, start: nat, loc: Location, identPart: unit16 -> bool)
    requires start < |s| && s[start] == CH_MINUS
    ensures var r := ParseNumber(flags, inRoot, s, start, loc, identPart);
      var inf, infinity := NEG_INF, NEG_INFINITY;
      && (r.Success? && r.value.numeral.NotANumber? <==>
            IsEnabled(flags, ALLOW_NON_NUMERIC_NUMBERS) &&
            ((MatchesAt(s, start, inf) && Delimited(s, start + 4, identPart)) ||
             (MatchesAt(s, start, infinity) && Delimited(s, start + 9, identPart))))
      && (r.Success? && r.value.numeral.NotANumber? ==>
            var n := r.value.numeral.name;
            (n == inf || n == infinity) && r.value.text == n && r.value.next == start + |n|
            && r.value.token == VALUE_NUMBER_FLOAT)
  {
    var inf, infinity := NEG_INF, NEG_INFINITY;
    var q := start + 1;
    NegativeNames();
    if q < |s| {
      MatchesAfterFirst(s, start, inf);
      MatchesAfterFirst(s, start, infinity);
      if IsDigitU(s[q]) {
        NameAfterSign(s, q, inf);
        NameAfterSign(s, q, infinity);
      } else {
        InvalidStartNames(flags, s, q, loc, identPart);
      }
    } else {
      assert !MatchesAt(s, start, inf) && !MatchesAt(s, start, infinity);
    }
  }

  // ---------------------------------------------------------------------
  // The number grammar as an automaton

  /** The states of a recognizer for the number grammar of section 6 of
      RFC 8259 (an optional minus, an integer part that is a single zero or
      does not start with one, an optional fraction, an optional exponent),
      with the refusal of a digit after a leading zero as the dead state
      Bad. */
  datatype NumState = Begin | Minus | Zero | IntDigits | Dot | Frac | Exp | ExpSign | ExpDigits | Bad

  function Step(st: NumState, c: unit16): Option<NumState>
  {
    match st
    case Begin =>
      if c == CH_MINUS then Some(Minus)
      else if c == CH_ZERO then Some(Zero)
      else if IsDigitU(c) then Some(IntDigits)
      else None
    case Minus =>
      if c == CH_ZERO then Some(Zero) else if IsDigitU(c) then Some(IntDigits) else None
    case Zero =>
      if IsDigitU(c) then Some(Bad)
      else if c == CH_PERIOD then Some(Dot)
      else if IsExpMarker(c) then Some(Exp)
      else None
    case IntDigits =>
      if IsDigitU(c) then Some(IntDigits)
      else if c == CH_PERIOD then Some(Dot)
      else if IsExpMarker(c) then Some(Exp)
      else None
    case Dot => if IsDigitU(c) then Some(Frac) else None
    case Frac =>
      if IsDigitU(c) then Some(Frac) else if IsExpMarker(c) then Some(Exp) else None
    case Exp =>
      if c == CH_MINUS || c == CH_PLUS then Some(ExpSign)
      else if IsDigitU(c) then Some(ExpDigits)
      else None
    case ExpSign => if IsDigitU(c) then Some(ExpDigits) else None
    case ExpDigits => if IsDigitU(c) then Some(ExpDigits) else None
    case Bad => None
  }

  /** The states in which what has been read is a whole number. */
  predicate Accepting(st: NumState)
  {
    st == Zero || st == IntDigits || st == Frac || st == ExpDigits
  }

  /** Runs the recognizer from `i` as long as it can move: the position it
      stops at and its state there. */
  function Run(s: seq<unit16>, i: nat, st: NumState): (r: (nat, NumState))
    requires i <= |s|
    ensures i <= r.0 <= |s|
    decreases |s| - i
  {
    if i < |s| && Step(st, s[i]).Some? then Run(s, i + 1, Step(st, s[i]).value) else (i, st)
  }

  /** The states that stay put on a digit. */
  predicate DigitLoop(st: NumState) { st == IntDigits || st == Frac || st == ExpDigits }

  lemma {:induction false} RunDigits(s: seq<unit16>, i: nat, st: NumState)
    requires i <= |s| && DigitLoop(st)
    ensures Run(s, i, st) == Run(s, DigitRun(s, i), st)
    decreases |s| - i
  {
    if i < |s| && IsDigitU(s[i]) {
      RunDigits(s, i + 1, st);
    }
  }

  /** From an exponent marker at `fe` the recognizer accepts exactly when
      the exponent scan succeeds, and stops where it ends. */
  lemma AfterExponentMarker(s: seq<unit16>, fe: nat)
    requires fe < |s| && IsExpMarker(s[fe])
    ensures var run := Run(s, fe + 1, Exp);
      && (Accepting(run.1) <==> Exponent(s, fe).Success?)
      && (Accepting(run.1) ==> run.0 == Exponent(s, fe).value.1)
  {
    var q := fe + 1;
    if q < |s| {
      var d := if s[q] == CH_MINUS || s[q] == CH_PLUS then q + 1 else q;
      if d < |s| && IsDigitU(s[d]) {
        ExponentDigitsRun(s, q, d);
      } else if d < |s| {
        assert Run(s, q, Exp) == Run(s, d, if d == q then Exp else ExpSign);
      }
    }
  }

  /** An exponent's digits, after an optional sign, are run through to
      their end. */
  lemma ExponentDigitsRun(s: seq<unit16>, q: nat, d: nat)
    requires q < |s| && d == (if s[q] == CH_MINUS || s[q] == CH_PLUS then q + 1 else q)
    requires d < |s| && IsDigitU(s[d])
    ensures Run(s, q, Exp) == Run(s, DigitRun(s, d), ExpDigits)
    ensures DigitRun(s, d) > d
  {
    assert Run(s, q, Exp) == Run(s, d + 1, ExpDigits);
    RunDigits(s, d + 1, ExpDigits);
    assert DigitRun(s, d) == DigitRun(s, d + 1);
  }

  /** After the fraction digits ending at `fe`: an exponent may follow. */
  lemma AfterFraction(s: seq<unit16>, fe: nat)
    requires fe <= |s| && (fe == |s| || !IsDigitU(s[fe]))
    ensures var run := Run(s, fe, Frac);
      && (Accepting(run.1) <==> Exponent(s, fe).Success?)
      && (Accepting(run.1) ==> run.0 == Exponent(s, fe).value.1)
  {
    if fe < |s| && IsExpMarker(s[fe]) {
      AfterExponentMarker(s, fe);
    }
  }

  /** After the integer digits ending at `ie`, read in state `st`: a
      fraction and then an exponent may follow. */
  lemma AfterInteger(s: seq<unit16>, ie: nat, st: NumState)
    requires st == Zero || st == IntDigits
    requires ie <= |s| && (ie == |s| || !IsDigitU(s[ie]))
    ensures var run := Run(s, ie, st);
      && (Accepting(run.1) <==> Fraction(s, ie).Success? && Exponent(s, Fraction(s, ie).value).Success?)
      && (Accepting(run.1) ==> run.0 == Exponent(s, Fraction(s, ie).value).value.1)
  {
    if ie < |s| && s[ie] == CH_PERIOD {
      if ie + 1 < |s| && IsDigitU(s[ie + 1]) {
        assert Run(s, ie, st) == Run(s, ie + 2, Frac);
        RunDigits(s, ie + 2, Frac);
        assert DigitRun(s, ie + 1) == DigitRun(s, ie + 2);
        AfterFraction(s, DigitRun(s, ie + 1));
      }
    } else if ie < |s| && IsExpMarker(s[ie]) {
      AfterExponentMarker(s, ie);
    }
  }

  /** With leading zeros refused and inside a container, a numeral is read
      exactly when the recognizer accepts; the number then ends where the
      recognizer stops, the parser goes on from there, and the text kept
      is the number as written. */
  lemma NumberGrammar(flags: Mask, s: seq<unit16>, start: nat, loc: Location, identPart: unit16 -> bool)
    requires start < |s| && (s[start] == CH_MINUS || IsDigitU(s[start]))
    requires !IsEnabled(flags, ALLOW_NUMERIC_LEADING_ZEROS)
    ensures var r := ParseNumber(flags, false, s, start, loc, identPart);
      var run := Run(s, start, Begin);
      && ((r.Success? && r.value.numeral.Numeral?) <==> Accepting(run.1))
      && (r.Success? && r.value.numeral.Numeral? ==>
            r.value.end == run.0 && r.value.next == run.0 && r.value.text == s[start..run.0])
  {
    var negative := s[start] == CH_MINUS;
    var p := if negative then start + 1 else start;
    var s0 := if negative then Minus else Begin;
    assert Run(s, start, Begin) == Run(s, p, s0);
    if p < |s| && IsDigitU(s[p]) {
      var sc := ScanExtent(flags, s, p);
      RunMatchesExtent(flags, s, p, s0);
      ParseFromExtent(flags, s, start, loc, identPart);
      if sc.Success? {
        ExtentText(negative, s, start, sc.value, loc);
      }
    }
  }

  /** From the first digit, the recognizer accepts exactly when the extent
      scan succeeds, and stops where the number ends. */
  lemma RunMatchesExtent(flags: Mask, s: seq<unit16>, p: nat, s0: NumState)
    requires p < |s| && IsDigitU(s[p]) && (s0 == Begin || s0 == Minus)
    requires !IsEnabled(flags, ALLOW_NUMERIC_LEADING_ZEROS)
    ensures var run := Run(s, p, s0);
      var sc := ScanExtent(flags, s, p);
      && (sc.Success? <==> Accepting(run.1))
      && (sc.Success? ==> sc.value.z == p && run.0 == sc.value.end)
  {
    RunIntegerPart(s, p, s0);
    ScanExtentStrict(flags, s, p);
  }

  /** The recognizer over the integer part: dead after a leading zero
      followed by a digit, otherwise it goes on as after the digit run. */
  lemma RunIntegerPart(s: seq<unit16>, p: nat, s0: NumState)
    requires p < |s| && IsDigitU(s[p]) && (s0 == Begin || s0 == Minus)
    ensures var run := Run(s, p, s0);
      var ie := DigitRun(s, p);
      && (Accepting(run.1) <==>
            && (s[p] == CH_ZERO ==> !(p + 1 < |s| && IsDigitU(s[p + 1])))
            && Fraction(s, ie).Success? && Exponent(s, Fraction(s, ie).value).Success?)
      && (Accepting(run.1) ==> run.0 == Exponent(s, Fraction(s, ie).value).value.1)
  {
    if s[p] == CH_ZERO {
      assert Run(s, p, s0) == Run(s, p + 1, Zero);
      if p + 1 < |s| && IsDigitU(s[p + 1]) {
        assert Run(s, p + 1, Zero) == (p + 2, Bad);
      } else {
        DigitRunAt(s, p, p + 1);
        AfterInteger(s, p + 1, Zero);
      }
    } else {
      assert Run(s, p, s0) == Run(s, p + 1, IntDigits);
      RunDigits(s, p + 1, IntDigits);
      assert DigitRun(s, p) == DigitRun(s, p + 1);
      AfterInteger(s, DigitRun(s, p + 1), IntDigits);
    }
  }

  /** The text of a number read without dropping zeros is the number as
      written, sign included. */
  lemma ExtentText(negative: bool, s: seq<unit16>, start: nat, x: Extent, loc: Location)
    requires start < |s| && (s[start] == CH_MINUS <==> negative)
    requires x.z == (if negative then start + 1 else start)
    requires x.z <= x.ie <= x.fe <= x.ed <= x.end <= |s|
    ensures Assemble(negative, s, x, x.end, loc).text == s[start..x.end]
  {
    var v := Assemble(negative, s, x, x.end, loc);
    AssembledText(negative, s, x, x.end, loc);
    var sign: seq<unit16> := if negative then [CH_MINUS] else [];
    assert v.text == sign + s[x.z..x.end] by {
      assert v.text == v.text[..|sign|] + v.text[|sign|..];
    }
    assert s[start..x.end] == sign + s[x.z..x.end] by {
      if negative {
        assert s[start..x.end] == [s[start]] + s[start + 1..x.end];
      }
    }
  }

  lemma ScanExtentStrict(flags: Mask, s: seq<unit16>, p: nat)
    requires p < |s| && IsDigitU(s[p])
    requires !IsEnabled(flags, ALLOW_NUMERIC_LEADING_ZEROS)
    ensures var sc := ScanExtent(flags, s, p);
      && (sc.Success? ==> sc.value.z == p && sc.value.ie == DigitRun(s, p))
      && (sc.Success? <==>
            && (s[p] == CH_ZERO ==> !(p + 1 < |s| && IsDigitU(s[p + 1])))
            && Fraction(s, DigitRun(s, p)).Success?
            && Exponent(s, Fraction(s, DigitRun(s, p)).value).Success?)
      && (sc.Success? ==> sc.value.end == Exponent(s, Fraction(s, DigitRun(s, p)).value).value.1)
  {
  }

  lemma ParseFromExtent(flags: Mask, s: seq<unit16>, start: nat, loc: Location, identPart: unit16 -> bool)
    requires start < |s| && (s[start] == CH_MINUS || IsDigitU(s[start]))
    requires var p := if s[start] == CH_MINUS then start + 1 else start;
      p < |s| && IsDigitU(s[p])
    ensures var r := ParseNumber(flags, false, s, start, loc, identPart);
      var p := if s[start] == CH_MINUS then start + 1 else start;
      var sc := ScanExtent(flags, s, p);
      && (sc.Failure? ==> r == Failure(sc.error))
      && (sc.Success? ==> r == Success(Assemble(s[start] == CH_MINUS, s, sc.value, sc.value.end, loc)))
  {
  }
}
