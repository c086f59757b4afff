/** The character classification tables (CharTypes).

  Each table is given twice: as the classification it encodes (the
  `...Code` functions below, one entry per code) and as the loops of the
  static constructors that fill it (the `Build...` methods), which are
  proved to produce exactly that classification.  The per-char JSON escape
  `EscapeSeq` is the one `appendQuoted` and `JsonStringEncoder` share.
 */
module CharTypes {
  import opened Ints
  import Seqs

  /** CharacterEscapes.ESCAPE_NONE / ESCAPE_STANDARD. */
  const ESCAPE_NONE: int := 0
  const ESCAPE_STANDARD: int := -1

  /** C# `c & mask` on a non-negative `int` below 256. */
  function And8(c: nat, mask: nat): nat
    requires c < 256 && mask < 256
  {
    ((c as bv8) & (mask as bv8)) as nat
  }

  // ---------------------------------------------------------------------
  // Input tables

  /** sInputCodes: controls are not allowed unquoted (-1), the quote and the
      backslash end a plain run (1), every other char is plain (0). */
  function InputCode(c: nat): (r: int)
    requires c < 256
  {
    if c < 32 then -1 else if c == '"' as int || c == '\\' as int then 1 else 0
  }

  /** The length of the UTF-8 sequence a lead byte starts (RFC 3629 section 3):
      110xxxxx starts 2 bytes, 1110xxxx 3 and 11110xxx 4. */
  function Utf8LeadLength(c: nat): (r: int)
    requires 128 <= c < 256
  {
    if 0xC0 <= c < 0xE0 then 2
    else if 0xE0 <= c < 0xF0 then 3
    else if 0xF0 <= c < 0xF8 then 4
    else -1
  }

  /** sInputCodesUTF8: sInputCodes for ASCII, the lead-byte length above it. */
  function InputCodeUtf8(c: nat): (r: int)
    requires c < 256
  {
    if c < 128 then InputCode(c) else Utf8LeadLength(c)
  }

  /** sInputCodesComment: inside a comment, controls other than tab are
      invalid, LF, CR and '*' are reported as themselves. */
  function CommentCode(c: nat): (r: int)
    requires c < 256
  {
    if c >= 128 then Utf8LeadLength(c)
    else if c == '\t' as int then 0
    else if c == '\n' as int || c == '\r' as int then c
    else if c < 32 then -1
    else if c == '*' as int then c
    else 0
  }

  /** sInputCodesWS: space and tab are white space (1), LF, CR, '/' and '#'
      are reported as themselves, other controls are invalid. */
  function WhiteSpaceCode(c: nat): (r: int)
    requires c < 256
  {
    if c >= 128 then Utf8LeadLength(c)
    else if c == ' ' as int || c == '\t' as int then 1
    else if c == '\n' as int || c == '\r' as int then c
    else if c < 32 then -1
    else if c == '/' as int || c == '#' as int then c
    else 0
  }

  /** The mask tests of the UTF-8 table pick out the lead-byte ranges. */
  lemma LeadMasks(c: nat)
    requires 128 <= c < 256
    ensures And8(c, 0xE0) == 0xC0 <==> 0xC0 <= c < 0xE0
    ensures And8(c, 0xF0) == 0xE0 <==> 0xE0 <= c < 0xF0
    ensures And8(c, 0xF8) == 0xF0 <==> 0xF0 <= c < 0xF8
  {
    var b := c as bv8;
    assert (b & 0xE0 == 0xC0) <==> (0xC0 <= b < 0xE0);
    assert (b & 0xF0 == 0xE0) <==> (0xE0 <= b < 0xF0);
    assert (b & 0xF8 == 0xF0) <==> (0xF0 <= b < 0xF8);
  }

  /** The static constructor of sInputCodes. */
  method BuildInputCodes() returns (table: seq<int>)
    ensures |table| == 256
    ensures forall c :: 0 <= c < 256 ==> table[c] == InputCode(c)
  {
    table := seq(256, _ => 0);
    var i := 0;
    while i < 32
      invariant 0 <= i <= 32 && |table| == 256
      invariant forall c :: 0 <= c < i ==> table[c] == -1
      invariant forall c :: i <= c < 256 ==> table[c] == 0
    {
      table := table[i := -1];
      i := i + 1;
    }
    table := table['"' as int := 1];
    table := table['\\' as int := 1];
  }

  /** The static constructor of sInputCodesUTF8: a copy of sInputCodes with
      the lead-byte lengths filled in from 128 on. */
  method BuildInputCodesUtf8() returns (table: seq<int>)
    ensures |table| == 256
    ensures forall c :: 0 <= c < 256 ==> table[c] == InputCodeUtf8(c)
  {
    table := BuildInputCodes();
    var c := 128;
    while c < 256
      invariant 128 <= c <= 256 && |table| == 256
      invariant forall k :: 0 <= k < c ==> table[k] == InputCodeUtf8(k)
      invariant forall k :: c <= k < 256 ==> table[k] == InputCode(k)
    {
      var code;
      LeadMasks(c);
      if And8(c, 0xE0) == 0xC0 {
        code := 2;
      } else if And8(c, 0xF0) == 0xE0 {
        code := 3;
      } else if And8(c, 0xF8) == 0xF0 {
        code := 4;
      } else {
        code := -1;
      }
      table := table[c := code];
      c := c + 1;
    }
  }

  /** The static constructor of sInputCodesComment. */
  method BuildInputCodesComment() returns (buf: seq<int>)
    ensures |buf| == 256
    ensures forall c :: 0 <= c < 256 ==> buf[c] == CommentCode(c)
  {
    var utf8 := BuildInputCodesUtf8();
    buf := seq(128, _ => 0) + utf8[128..];
    var i := 0;
    while i < 32
      invariant 0 <= i <= 32 && |buf| == 256
      invariant forall c :: 0 <= c < i ==> buf[c] == -1
      invariant forall c :: i <= c < 128 ==> buf[c] == 0
      invariant forall c :: 128 <= c < 256 ==> buf[c] == Utf8LeadLength(c)
    {
      buf := buf[i := -1];
      i := i + 1;
    }
    buf := buf['\t' as int := 0];
    buf := buf['\n' as int := '\n' as int];
    buf := buf['\r' as int := '\r' as int];
    buf := buf['*' as int := '*' as int];
  }

  /** The static constructor of sInputCodesWS. */
  method BuildInputCodesWS() returns (buf: seq<int>)
    ensures |buf| == 256
    ensures forall c :: 0 <= c < 256 ==> buf[c] == WhiteSpaceCode(c)
  {
    var utf8 := BuildInputCodesUtf8();
    buf := seq(128, _ => 0) + utf8[128..];
    var i := 0;
    while i < 32
      invariant 0 <= i <= 32 && |buf| == 256
      invariant forall c :: 0 <= c < i ==> buf[c] == -1
      invariant forall c :: i <= c < 128 ==> buf[c] == 0
      invariant forall c :: 128 <= c < 256 ==> buf[c] == Utf8LeadLength(c)
    {
      buf := buf[i := -1];
      i := i + 1;
    }
    buf := buf[' ' as int := 1];
    buf := buf['\t' as int := 1];
    buf := buf['\n' as int := '\n' as int];
    buf := buf['\r' as int := '\r' as int];
    buf := buf['/' as int := '/' as int];
    buf := buf['#' as int := '#' as int];
  }

  // ---------------------------------------------------------------------
  // Output escapes

  /** sOutputEscapes128: the char written after the backslash for the
      quote, the backslash and the five controls with a short form,
      ESCAPE_STANDARD (a \u escape) for the other controls, and ESCAPE_NONE
      for every other ASCII char. */
  function OutputEscape(c: nat): (r: int)
    requires c < 128
  {
    if c == '"' as int then '"' as int
    else if c == '\\' as int then '\\' as int
    else if c == 0x08 then 'b' as int
    else if c == 0x09 then 't' as int
    else if c == 0x0C then 'f' as int
    else if c == 0x0A then 'n' as int
    else if c == 0x0D then 'r' as int
    else if c < 32 then ESCAPE_STANDARD
    else ESCAPE_NONE
  }

  /** The static constructor of sOutputEscapes128. */
  method BuildOutputEscapes() returns (table: seq<int>)
    ensures |table| == 128
    ensures forall c :: 0 <= c < 128 ==> table[c] == OutputEscape(c)
  {
    table := seq(128, _ => 0);
    var i := 0;
    while i < 32
      invariant 0 <= i <= 32 && |table| == 128
      invariant forall c :: 0 <= c < i ==> table[c] == ESCAPE_STANDARD
      invariant forall c :: i <= c < 128 ==> table[c] == 0
    {
      table := table[i := ESCAPE_STANDARD];
      i := i + 1;
    }
    table := table['"' as int := '"' as int];
    table := table['\\' as int := '\\' as int];
    table := table[0x08 := 'b' as int];
    table := table[0x09 := 't' as int];
    table := table[0x0C := 'f' as int];
    table := table[0x0A := 'n' as int];
    table := table[0x0D := 'r' as int];
  }

  /** Which code units a JSON string cannot carry verbatim: the entries of
      sOutputEscapes128 that are not ESCAPE_NONE. */
  predicate NeedsEscape(c: unit16)
  {
    c < 128 && OutputEscape(c) != ESCAPE_NONE
  }

  lemma NeedsEscapeExactly(c: unit16)
    ensures NeedsEscape(c) <==> c < 32 || c == '"' as int || c == '\\' as int
  {
  }

  /** HC: the upper-case hex digit of a value below 16. */
  function HexChar(d: nat): (u: unit16)
    requires d < 16
    ensures IsHexUnit(u) && HexValueOf(u) == d
  {
    if d < 10 then '0' as int + d else 'A' as int + d - 10
  }

  /** sHexValues: the value of an ASCII hex digit, either case, -1 otherwise. */
  function HexValue(c: nat): (r: int)
    requires c < 128
  {
    if '0' as int <= c <= '9' as int then c - '0' as int
    else if 'a' as int <= c <= 'f' as int then c - 'a' as int + 10
    else if 'A' as int <= c <= 'F' as int then c - 'A' as int + 10
    else -1
  }

  predicate IsHexUnit(u: int)
  {
    0 <= u < 128 && HexValue(u) >= 0
  }

  function HexValueOf(u: int): (r: nat)
    requires IsHexUnit(u)
    ensures r < 16
  {
    HexValue(u)
  }

  /** The static constructor of sHexValues. */
  method BuildHexValues() returns (table: seq<int>)
    ensures |table| == 128
    ensures forall c :: 0 <= c < 128 ==> table[c] == HexValue(c)
  {
    table := seq(128, _ => -1);
    var i := 0;
    while i < 10
      invariant 0 <= i <= 10 && |table| == 128
      invariant forall c :: 0 <= c < 128 ==>
        table[c] == (if '0' as int <= c < '0' as int + i then c - '0' as int else -1)
    {
      table := table['0' as int + i := i];
      i := i + 1;
    }
    var j := 0;
    while j < 6
      invariant 0 <= j <= 6 && |table| == 128
      invariant forall c :: 0 <= c < 128 ==>
        table[c] == (if '0' as int <= c <= '9' as int then c - '0' as int
                     else if 'a' as int <= c < 'a' as int + j then c - 'a' as int + 10
                     else if 'A' as int <= c < 'A' as int + j then c - 'A' as int + 10
                     else -1)
    {
      table := table['a' as int + j := 10 + j];
      table := table['A' as int + j := 10 + j];
      j := j + 1;
    }
  }

  /** charToHex: -1 above 127; a negative code indexes before the table. */
  function CharToHex(ch: int): (r: Lookup)
    ensures ch < 0 <==> r.OutOfRange?
    ensures r.Value? ==> -1 <= r.v < 16
    ensures r.Value? && r.v >= 0 <==> IsHexUnit(ch)
    ensures r.Value? && r.v >= 0 ==> HexChar(r.v) == ch || HexChar(r.v) + 32 == ch
  {
    if ch < 0 then OutOfRange
    else if ch > 127 then Value(-1)
    else Value(HexValue(ch))
  }

  /** The outcome of a table lookup that may index out of range. */
  datatype Lookup = Value(v: int) | OutOfRange

  /** Every upper-case hex digit reads back as its value. */
  lemma HexRoundTrip(d: nat)
    requires d < 16
    ensures CharToHex(HexChar(d)) == Value(d)
  {
  }

  // ---------------------------------------------------------------------
  // appendQuoted

  /** The escape sequence for one code unit, as appendQuoted writes it:
      unchanged when no escape is needed, backslash plus the short form, or
      backslash, 'u', "00" and two upper-case hex digits. */
  function EscapeSeq(c: unit16): (r: seq<unit16>)
  {
    if !NeedsEscape(c) then [c]
    else if OutputEscape(c) < 0 then
      ['\\' as int, 'u' as int, '0' as int, '0' as int, HexChar(c / 16), HexChar(c % 16)]
    else ['\\' as int, OutputEscape(c)]
  }

  /** The JSON-escaped form of a whole text: the escapes of its units, in order. */
  function Escaped(s: seq<unit16>): (r: seq<unit16>)
    ensures |r| >= |s|
  {
    if |s| == 0 then [] else Escaped(s[..|s| - 1]) + EscapeSeq(s[|s| - 1])
  }

  /** The three forms an escape takes. */
  lemma EscapeSeqShape(c: unit16)
    ensures !NeedsEscape(c) ==> EscapeSeq(c) == [c]
    ensures NeedsEscape(c) && c < 32 && OutputEscape(c) < 0 ==> |EscapeSeq(c)| == 6
    ensures NeedsEscape(c) && OutputEscape(c) > 0 ==> |EscapeSeq(c)| == 2
    ensures NeedsEscape(c) ==> EscapeSeq(c)[0] == '\\' as int
    ensures forall k :: 0 <= k < |EscapeSeq(c)| ==> EscapeSeq(c)[k] < 128 || !NeedsEscape(c)
  {
  }

  lemma {:induction false} EscapedAppend(a: seq<unit16>, b: seq<unit16>)
    ensures Escaped(a + b) == Escaped(a) + Escaped(b)
    decreases |b|
  {
    if |b| == 0 {
      assert a + b == a;
    } else {
      var c, front, last := a + b, b[..|b| - 1], b[|b| - 1];
      calc {
        Escaped(c);
        == { assert c[..|c| - 1] == a + front && c[|c| - 1] == last; }
        Escaped(a + front) + EscapeSeq(last);
        == { EscapedAppend(a, front); }
        Escaped(a) + Escaped(front) + EscapeSeq(last);
        == { Seqs.Regroup(Escaped(a), Escaped(front), EscapeSeq(last)); }
        Escaped(a) + (Escaped(front) + EscapeSeq(last));
        == { assert Escaped(b) == Escaped(front) + EscapeSeq(last); }
        Escaped(a) + Escaped(b);
      }
    }
  }

  /** A unit that needs no escape leads its text's escaped form unchanged. */
  lemma EscapedPlainHead(s: seq<unit16>)
    requires |s| > 0 && !NeedsEscape(s[0])
    ensures var e := Escaped(s);
      |e| >= 1 && e[0] == s[0] && e[1..] == Escaped(s[1..])
  {
    EscapedCons(s);
    EscapeSeqShape(s[0]);
    var e, t := Escaped(s), Escaped(s[1..]);
    assert e == [s[0]] + t;
    assert e[1..] == t;
  }

  /** Escaping works unit by unit from the front as well. */
  lemma EscapedCons(s: seq<unit16>)
    requires |s| > 0
    ensures Escaped(s) == EscapeSeq(s[0]) + Escaped(s[1..])
  {
    var x, tail := s[0], s[1..];
    calc {
      Escaped(s);
      == { assert s == [x] + tail; }
      Escaped([x] + tail);
      == { EscapedAppend([x], tail); }
      Escaped([x]) + Escaped(tail);
      == { EscapedSingle(x); }
      EscapeSeq(x) + Escaped(tail);
    }
  }

  lemma EscapedSingle(x: unit16)
    ensures Escaped([x]) == EscapeSeq(x)
  {
    assert [x][..0] == [];
  }

  /** The body of appendQuoted's loop for one char: the char itself, its
      two-char escape, or the six-char `\u00XX` form. */
  method AppendQuotedChar(c: unit16) returns (esc: seq<unit16>)
    ensures esc == EscapeSeq(c)
    ensures |esc| == 1 <==> !NeedsEscape(c)
  {
    if c >= 128 || OutputEscape(c) == 0 {
      esc := [c];
    } else {
      var escCode := OutputEscape(c);
      if escCode < 0 {
        esc := ['\\' as int, 'u' as int, '0' as int, '0' as int, HexChar(c / 16), HexChar(c % 16)];
      } else {
        esc := ['\\' as int, escCode];
      }
    }
  }

  /** Escaping one more unit of a prefix appends that unit's escape. */
  lemma EscapedPrefix(s: seq<unit16>, i: nat)
    requires i < |s|
    ensures Escaped(s[..i + 1]) == Escaped(s[..i]) + EscapeSeq(s[i])
  {
    assert s[..i + 1][..i] == s[..i];
  }

  /** appendQuoted(sb, content): the chars appended to `sb`. */
  method AppendQuoted(sb: seq<unit16>, content: seq<unit16>) returns (out: seq<unit16>)
    ensures out == sb + Escaped(content)
  {
    out := sb;
    var i := 0;
    while i < |content|
      invariant 0 <= i <= |content|
      invariant out == sb + Escaped(content[..i])
    {
      EscapedPrefix(content, i);
      var esc := AppendQuotedChar(content[i]);
      out := out + esc;
      i := i + 1;
    }
    assert content[..i] == content;
  }
}
