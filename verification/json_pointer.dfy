/** JSON Pointer expressions (JsonPointer), as in RFC 6901.

  A compiled pointer is a chain of segments ending in the empty pointer.
  Each segment keeps the text of the expression from its own slash on, its
  unescaped property name, and the array index that name denotes (or -1).
  The parser reads the escape pairs "~0" and "~1" as '~' and '/', and keeps
  any other tilde pair, or a tilde at the very end, as it is.

  The partner of the parser is the escaper: joining any segments, each
  escaped, and compiling the result gives back exactly those segments.  The
  index parser's partner is the canonical decimal form.
 */
module JsonPointer {
  import opened Ints
  import opened Wrappers

  const SLASH: unit16 := '/' as int
  const TILDE: unit16 := '~' as int
  const ZERO: unit16 := '0' as int
  const ONE: unit16 := '1' as int
  const NINE: unit16 := '9' as int

  /** EMPTY, or a segment: the expression from this segment's slash on, the
      property name, the index it parses as, and the rest of the chain. */
  datatype Pointer =
    | Empty
    | Segment(asString: seq<unit16>, property: seq<unit16>, index: int, next: Pointer)

  /** ToString: the text the pointer was compiled from; EMPTY's is "". */
  function AsString(p: Pointer): (s: seq<unit16>)
    ensures p.Empty? ==> s == []
  {
    if p.Empty? then [] else p.asString
  }

  /** The property names of the chain, in order. */
  function Segments(p: Pointer): (segs: seq<seq<unit16>>)
    ensures p.Empty? <==> |segs| == 0
  {
    if p.Empty? then [] else [p.property] + Segments(p.next)
  }

  /** What the parser guarantees of every chain: each segment's text starts
      with a slash and ends with the text of the rest of the chain. */
  predicate WellFormed(p: Pointer)
  {
    p.Segment? ==>
      && |p.asString| > |AsString(p.next)|
      && p.asString[0] == SLASH
      && p.asString[|p.asString| - |AsString(p.next)|..] == AsString(p.next)
      && WellFormed(p.next)
  }

  // ---------------------------------------------------------------------
  // Array indices

  predicate IsDigitUnit(u: unit16) { ZERO <= u <= NINE }

  predicate AllDigitUnits(s: seq<unit16>) { forall i :: 0 <= i < |s| ==> IsDigitUnit(s[i]) }

  /** Digit units as the digit chars they are. */
  function DigitText(s: seq<unit16>): (t: string)
    requires AllDigitUnits(s)
    ensures |t| == |s| && AllDigits(t)
    ensures forall i :: 0 <= i < |s| ==> t[i] as int == s[i]
  {
    seq(|s|, i requires 0 <= i < |s| => s[i] as char)
  }

  /** _parseIndex: the index a segment names, or -1.  Refused: the empty
      text, more than ten chars, a leading zero (other than "0" itself), a
      non-digit, and a ten-digit value above int.MaxValue. */
  function ParseIndex(s: seq<unit16>): (r: int)
    ensures -1 <= r <= MAX_INT
  {
    if |s| == 0 || |s| > 10 then -1
    else if s[0] <= ZERO then (if |s| == 1 && s[0] == ZERO then 0 else -1)
    else if s[0] > NINE then -1
    else if !AllDigitUnits(s[1..]) then -1
    else
      assert AllDigitUnits(s) by {
        assert forall i :: 1 <= i < |s| ==> s[i] == s[1..][i - 1];
      }
      var value := DigitsValue(DigitText(s));
      if value > MAX_INT then -1
      else value
  }

  /** The canonical decimal form of a number, as units. */
  function DecimalUnits(n: nat): (u: seq<unit16>)
  {
    Units(Decimal(n))
  }

  /** A digit string without a leading zero is the canonical form of its value. */
  lemma {:induction false} CanonicalDigits(s: string)
    requires |s| > 0 && AllDigits(s) && (s[0] != '0' || |s| == 1)
    ensures Decimal(DigitsValue(s)) == s
    ensures s[0] != '0' ==> DigitsValue(s) >= 1
    decreases |s|
  {
    if |s| > 1 {
      var init := s[..|s| - 1];
      assert init[0] == s[0];
      CanonicalDigits(init);
      var n := DigitsValue(s);
      assert n / 10 == DigitsValue(init) && n % 10 == DigitValue(s[|s| - 1]);
      assert Decimal(n) == Decimal(n / 10) + [DigitChar(n % 10)];
      assert s == init + [s[|s| - 1]];
    }
  }

  /** A value of at most int.MaxValue has at most ten digits. */
  lemma IntFitsTenDigits(n: nat)
    requires n <= MAX_INT
    ensures |Decimal(n)| <= 10
  {
    DecimalLength(n);
    Pow10Values();
    NumDigitsAtMost(n, 10);
  }

  /** The canonical decimal form of an int parses as that int. */
  lemma ParseDecimal(n: nat)
    requires n <= MAX_INT
    ensures ParseIndex(DecimalUnits(n)) == n
  {
    var d := Decimal(n);
    var u := DecimalUnits(n);
    IntFitsTenDigits(n);
    DecimalNoLeadingZero(n);
    DecimalValue(n);
    assert AllDigitUnits(u);
    assert DigitText(u) == d;
    if n == 0 {
      assert d == [DigitChar(0)];
    }
  }

  /** A non-negative index comes only from the canonical form of its value. */
  lemma ParsedIsCanonical(s: seq<unit16>)
    requires ParseIndex(s) >= 0
    ensures s == DecimalUnits(ParseIndex(s))
  {
    if s[0] == ZERO {
      assert s == [ZERO];
      assert Decimal(0) == [DigitChar(0)];
    } else {
      assert AllDigitUnits(s) by {
        assert forall i :: 1 <= i < |s| ==> s[i] == s[1..][i - 1];
      }
      var t := DigitText(s);
      CanonicalDigits(t);
      assert Units(Decimal(DigitsValue(t))) == s;
    }
  }

  /** Both directions: a text names index `n` exactly when it is the
      canonical decimal form of `n` and `n` fits an int. */
  lemma ParseIndexIff(s: seq<unit16>, n: nat)
    ensures ParseIndex(s) == n <==> (s == DecimalUnits(n) && n <= MAX_INT)
  {
    if ParseIndex(s) == n {
      ParsedIsCanonical(s);
    }
    if s == DecimalUnits(n) && n <= MAX_INT {
      ParseDecimal(n);
    }
  }

  // ---------------------------------------------------------------------
  // Parsing

  /** _appendEscape: "~0" is a tilde, "~1" a slash, and any other pair is
      kept as written. */
  function AppendEscape(sb: seq<unit16>, c: unit16): (r: seq<unit16>)
    ensures c == ZERO ==> r == sb + [TILDE]
    ensures c == ONE ==> r == sb + [SLASH]
    ensures c != ZERO && c != ONE ==> r == sb + [TILDE, c]
  {
    if c == ZERO then sb + [TILDE]
    else if c == ONE then sb + [SLASH]
    else sb + [TILDE, c]
  }

  /** A segment of `input` that ends here: its name is `name`, the rest of
      the chain is parsed from `rest`. */
  function MakeSegment(input: seq<unit16>, name: seq<unit16>, rest: seq<unit16>): (p: Pointer)
    requires |rest| < |input| && input[0] == SLASH && input[|input| - |rest|..] == rest
    requires |rest| == 0 || rest[0] == SLASH
    ensures p.Segment? && p.asString == input && p.property == name && p.index == ParseIndex(name)
    ensures WellFormed(p)
    decreases |input|, 0, 0
  {
    Segment(input, name, ParseIndex(name), ChainOf(rest))
  }

  /** The chain parsed from what follows a segment: EMPTY at the end. */
  function ChainOf(rest: seq<unit16>): (p: Pointer)
    requires |rest| == 0 || rest[0] == SLASH
    ensures AsString(p) == rest && WellFormed(p)
    decreases |rest|, 3, 0
  {
    if |rest| == 0 then Empty else ParseTail(rest)
  }

  /** _parseTail on an expression that starts with a slash. */
  function ParseTail(input: seq<unit16>): (p: Pointer)
    requires |input| >= 1 && input[0] == SLASH
    ensures p.Segment? && p.asString == input && WellFormed(p)
    decreases |input|, 2, 0
  {
    ScanSegment(input, 1)
  }

  /** The loop of _parseTail at position `i`, no escape seen yet. */
  function ScanSegment(input: seq<unit16>, i: nat): (p: Pointer)
    requires 1 <= i <= |input| && input[0] == SLASH
    ensures p.Segment? && p.asString == input && WellFormed(p)
    decreases |input|, 1, |input| - i
  {
    if i == |input| then MakeSegment(input, input[1..], [])
    else
      var c := input[i];
      if c == SLASH then MakeSegment(input, input[1..i], input[i..])
      else if c == TILDE && i + 1 < |input| then ParseQuotedTail(input, i + 1)
      else ScanSegment(input, i + 1)
  }

  /** _parseQuotedTail, `i` just past the first tilde: the chars read so far,
      then the escape, then the quoted loop. */
  function ParseQuotedTail(input: seq<unit16>, i: nat): (p: Pointer)
    requires 2 <= i < |input| && input[0] == SLASH
    ensures p.Segment? && p.asString == input && WellFormed(p)
    decreases |input|, 1, |input| - i
  {
    var sb := input[1..i - 1];
    QuotedLoop(input, i + 1, AppendEscape(sb, input[i]))
  }

  /** The loop of _parseQuotedTail at position `i` with name `sb` so far. */
  function QuotedLoop(input: seq<unit16>, i: nat, sb: seq<unit16>): (p: Pointer)
    requires 1 <= i <= |input| && input[0] == SLASH
    ensures p.Segment? && p.asString == input && WellFormed(p)
    decreases |input|, 1, |input| - i
  {
    if i == |input| then MakeSegment(input, sb, [])
    else
      var c := input[i];
      if c == SLASH then MakeSegment(input, sb, input[i..])
      else if c == TILDE && i + 1 < |input| then QuotedLoop(input, i + 2, AppendEscape(sb, input[i + 1]))
      else QuotedLoop(input, i + 1, sb + [c])
  }

  const INVALID_START: string := "Invalid input: JSON Pointer expression must start with '/'"

  /** compile: null and "" give EMPTY; anything else must start with a
      slash.  ToString of the result is the input. */
  function Compile(input: Option<seq<unit16>>): (r: Result<Pointer>)
    ensures r.Failure? <==> input.Some? && |input.value| > 0 && input.value[0] != SLASH
    ensures r.Failure? ==> r.error == IllegalArgument(INVALID_START)
    ensures r.Success? ==> WellFormed(r.value) && AsString(r.value) == input.GetOr([])
    ensures r.Success? && (input.None? || |input.value| == 0) ==> r.value == Empty
  {
    if input.None? || |input.value| == 0 then Success(Empty)
    else if input.value[0] != SLASH then Failure(IllegalArgument(INVALID_START))
    else Success(ParseTail(input.value))
  }

  /** Equals: by string form. */
  predicate Equal(p: Pointer, q: Pointer)
  {
    AsString(p) == AsString(q)
  }

  /** Compiled pointers are equal exactly when their texts are. */
  lemma CompiledEqualIff(a: seq<unit16>, b: seq<unit16>)
    requires Compile(Some(a)).Success? && Compile(Some(b)).Success?
    ensures Equal(Compile(Some(a)).value, Compile(Some(b)).value) <==> a == b
    ensures a == b ==> Compile(Some(a)).value == Compile(Some(b)).value
  {
  }

  // ---------------------------------------------------------------------
  // The escaper and the round trip

  /** The RFC 6901 escape of one name: '~' as "~0", '/' as "~1". */
  function Escape(s: seq<unit16>): (e: seq<unit16>)
    ensures |e| >= |s|
    ensures SLASH !in e
  {
    if |s| == 0 then []
    else
      var head := if s[0] == TILDE then [TILDE, ZERO] else if s[0] == SLASH then [TILDE, ONE] else [s[0]];
      head + Escape(s[1..])
  }

  /** The expression of some names: each one escaped, after a slash. */
  function Join(segs: seq<seq<unit16>>): (s: seq<unit16>)
    ensures |segs| > 0 ==> |s| > 0 && s[0] == SLASH
    ensures |segs| == 0 ==> s == []
  {
    if |segs| == 0 then [] else [SLASH] + Escape(segs[0]) + Join(segs[1..])
  }

  /** The quoted loop reads an escaped name up to the next slash or the end. */
  lemma {:induction false} QuotedLoopReads(input: seq<unit16>, i: nat, sb: seq<unit16>, t: seq<unit16>, rest: seq<unit16>)
    requires 1 <= i <= |input| && input[0] == SLASH
    requires input[i..] == Escape(t) + rest && (|rest| == 0 || rest[0] == SLASH)
    ensures QuotedLoop(input, i, sb).property == sb + t
    ensures QuotedLoop(input, i, sb).next == ChainOf(rest)
    decreases |t|
  {
    var e := Escape(t);
    if |t| == 0 {
      assert input[i..] == rest;
      assert sb + t == sb;
      if |rest| > 0 {
        assert input[i] == SLASH;
      }
    } else if t[0] == TILDE || t[0] == SLASH {
      EscapePairAt(input, i, t, rest);
      assert QuotedLoop(input, i, sb) == QuotedLoop(input, i + 2, sb + [t[0]]);
      QuotedLoopReads(input, i + 2, sb + [t[0]], t[1..], rest);
      AppendFirst(sb, t);
    } else {
      PlainAt(input, i, t, rest);
      assert QuotedLoop(input, i, sb) == QuotedLoop(input, i + 1, sb + [t[0]]);
      QuotedLoopReads(input, i + 1, sb + [t[0]], t[1..], rest);
      AppendFirst(sb, t);
    }
  }

  lemma AppendFirst(sb: seq<unit16>, t: seq<unit16>)
    requires |t| > 0
    ensures sb + [t[0]] + t[1..] == sb + t
  {
    assert [t[0]] + t[1..] == t;
  }

  /** The plain scan stops at a slash or at the end of the input. */
  lemma ScanAtEnd(input: seq<unit16>, i: nat, rest: seq<unit16>)
    requires 1 <= i <= |input| && input[0] == SLASH
    requires input[i..] == rest && (|rest| == 0 || rest[0] == SLASH)
    ensures ScanSegment(input, i).property == input[1..i]
    ensures ScanSegment(input, i).next == ChainOf(rest)
  {
    if |rest| > 0 {
      assert input[i] == SLASH;
      assert ScanSegment(input, i) == MakeSegment(input, input[1..i], input[i..]);
    } else {
      assert i == |input| && input[1..i] == input[1..];
      assert ScanSegment(input, i) == MakeSegment(input, input[1..], []);
    }
  }

  /** Where an escaped name starts with an escape pair: the tilde, the
      pair's code, then the rest of the escaped name. */
  lemma EscapePairAt(input: seq<unit16>, i: nat, t: seq<unit16>, rest: seq<unit16>)
    requires i <= |input|
    requires |t| > 0 && (t[0] == TILDE || t[0] == SLASH)
    requires input[i..] == Escape(t) + rest
    ensures i + 1 < |input| && input[i] == TILDE
    ensures input[i + 1] == (if t[0] == TILDE then ZERO else ONE)
    ensures input[i + 2..] == Escape(t[1..]) + rest
  {
    var x := if t[0] == TILDE then ZERO else ONE;
    var e := Escape(t);
    assert e == [TILDE, x] + Escape(t[1..]);
    assert e[0] == TILDE && e[1] == x && e[2..] == Escape(t[1..]);
    assert input[i] == input[i..][0] && input[i + 1] == input[i..][1];
    assert input[i + 2..] == input[i..][2..];
    DropConcat(e, rest, 2);
  }

  /** Dropping a prefix of the first part of a concatenation. */
  lemma DropConcat(a: seq<unit16>, b: seq<unit16>, k: nat)
    requires k <= |a|
    ensures (a + b)[k..] == a[k..] + b
  {
  }

  /** Where an escaped name starts with a char that needs no escape: that
      char, then the rest of the escaped name. */
  lemma PlainCharAt(input: seq<unit16>, i: nat, t: seq<unit16>, rest: seq<unit16>)
    requires 1 <= i <= |input|
    requires |t| > 0 && t[0] != TILDE && t[0] != SLASH
    requires input[i..] == Escape(t) + rest
    requires SLASH !in input[1..i]
    ensures i < |input| && input[i] == t[0]
    ensures input[i + 1..] == Escape(t[1..]) + rest
    ensures input[1..i + 1] == input[1..i] + [t[0]] && SLASH !in input[1..i + 1]
  {
    PlainAt(input, i, t, rest);
    ExtendSlashFree(input, i);
  }

  /** Where an escaped name starts with a plain char: that char, then the
      rest of the escaped name. */
  lemma PlainAt(input: seq<unit16>, i: nat, t: seq<unit16>, rest: seq<unit16>)
    requires i <= |input|
    requires |t| > 0 && t[0] != TILDE && t[0] != SLASH
    requires input[i..] == Escape(t) + rest
    ensures i < |input| && input[i] == t[0]
    ensures input[i + 1..] == Escape(t[1..]) + rest
  {
    var e := Escape(t);
    assert e == [t[0]] + Escape(t[1..]);
    assert e[0] == t[0] && e[1..] == Escape(t[1..]);
    assert input[i] == input[i..][0];
    assert input[i + 1..] == input[i..][1..];
    DropConcat(e, rest, 1);
  }

  /** Extending a slash-free slice by one non-slash unit keeps it slash-free. */
  lemma ExtendSlashFree(input: seq<unit16>, i: nat)
    requires 1 <= i < |input| && input[i] != SLASH
    requires SLASH !in input[1..i]
    ensures input[1..i + 1] == input[1..i] + [input[i]] && SLASH !in input[1..i + 1]
  {
    assert input[1..i + 1] == input[1..i] + [input[i]];
  }

  /** At the first escape pair the plain scan hands over to the quoted loop
      with the name read so far and the escaped char. */
  lemma ScanEscape(input: seq<unit16>, i: nat, t: seq<unit16>, rest: seq<unit16>)
    requires 1 <= i <= |input| && input[0] == SLASH
    requires |t| > 0 && (t[0] == TILDE || t[0] == SLASH)
    requires input[i..] == Escape(t) + rest && (|rest| == 0 || rest[0] == SLASH)
    ensures ScanSegment(input, i).property == input[1..i] + [t[0]] + t[1..]
    ensures ScanSegment(input, i).next == ChainOf(rest)
  {
    EscapePairAt(input, i, t, rest);
    assert ScanSegment(input, i) == ParseQuotedTail(input, i + 1);
    assert input[1..i + 1 - 1] == input[1..i];
    QuotedLoopReads(input, i + 2, input[1..i] + [t[0]], t[1..], rest);
  }

  /** The plain scan reads an escaped name the same way: up to the first
      tilde it copies, from there the quoted loop takes over. */
  lemma {:induction false} ScanSegmentReads(input: seq<unit16>, i: nat, t: seq<unit16>, rest: seq<unit16>)
    requires 1 <= i <= |input| && input[0] == SLASH
    requires input[i..] == Escape(t) + rest && (|rest| == 0 || rest[0] == SLASH)
    requires SLASH !in input[1..i]
    ensures ScanSegment(input, i).property == input[1..i] + t
    ensures ScanSegment(input, i).next == ChainOf(rest)
    decreases |t|
  {
    if |t| == 0 {
      assert input[i..] == rest;
      ScanAtEnd(input, i, rest);
      assert input[1..i] + t == input[1..i];
    } else if t[0] == TILDE || t[0] == SLASH {
      ScanEscape(input, i, t, rest);
      AppendFirst(input[1..i], t);
    } else {
      PlainCharAt(input, i, t, rest);
      assert ScanSegment(input, i) == ScanSegment(input, i + 1);
      ScanSegmentReads(input, i + 1, t[1..], rest);
      AppendFirst(input[1..i], t);
    }
  }

  /** One escaped name after a slash parses as that name, followed by the
      chain parsed from the rest. */
  lemma ParseTailReads(t: seq<unit16>, rest: seq<unit16>)
    requires |rest| == 0 || rest[0] == SLASH
    ensures ParseTail([SLASH] + Escape(t) + rest).property == t
    ensures ParseTail([SLASH] + Escape(t) + rest).next == ChainOf(rest)
  {
    var e := Escape(t);
    var input := [SLASH] + e + rest;
    AfterSlash(e, rest);
    ScanSegmentReads(input, 1, t, rest);
    assert input[1..1] + t == t;
  }

  /** The text after a leading slash. */
  lemma AfterSlash(e: seq<unit16>, rest: seq<unit16>)
    ensures var input := [SLASH] + e + rest;
      |input| >= 1 && input[0] == SLASH && input[1..] == e + rest && input[1..1] == []
  {
    var input := [SLASH] + e + rest;
    assert input == [SLASH] + (e + rest);
  }

  /** The round trip: compiling the escaped join of any names gives a
      pointer with exactly those names, whose text is the join. */
  lemma {:induction false} CompileJoin(segs: seq<seq<unit16>>)
    ensures Compile(Some(Join(segs))).Success?
    ensures Segments(Compile(Some(Join(segs))).value) == segs
    decreases |segs|
  {
    if |segs| > 0 {
      var rest := Join(segs[1..]);
      var input := [SLASH] + Escape(segs[0]) + rest;
      assert Join(segs) == input;
      ParseTailReads(segs[0], rest);
      CompileJoin(segs[1..]);
      assert Compile(Some(rest)).value == ChainOf(rest);
      var p := ParseTail(input);
      assert Compile(Some(input)).value == p;
      assert Segments(p) == [segs[0]] + Segments(ChainOf(rest));
    }
  }

  /** A tilde followed by a slash is kept in the name, so that slash does
      not start a new segment. */
  lemma TildeSlashKept()
    ensures var input := [SLASH, 'a' as int, TILDE, SLASH, 'b' as int];
      Segments(Compile(Some(input)).value) == [['a' as int, TILDE, SLASH, 'b' as int]]
  {
    var input := [SLASH, 'a' as int, TILDE, SLASH, 'b' as int];
    var name := ['a' as int, TILDE, SLASH, 'b' as int];
    assert ScanSegment(input, 1) == ScanSegment(input, 2) == ParseQuotedTail(input, 3);
    assert input[1..2] == ['a' as int];
    assert AppendEscape(input[1..2], input[3]) == ['a' as int, TILDE, SLASH];
    assert ParseQuotedTail(input, 3) == QuotedLoop(input, 4, ['a' as int, TILDE, SLASH]);
    assert input[4] != SLASH && input[4] != TILDE;
    assert ['a' as int, TILDE, SLASH] + [input[4]] == name;
    assert QuotedLoop(input, 4, ['a' as int, TILDE, SLASH]) == QuotedLoop(input, 5, name);
    assert QuotedLoop(input, 5, name) == MakeSegment(input, name, []);
  }

  // ---------------------------------------------------------------------
  // Matching

  /** matches: only EMPTY, which has no next segment, matches. */
  predicate Matches(p: Pointer)
  {
    p.Empty?
  }

  /** tail: the rest of the chain, or null for EMPTY. */
  function Tail(p: Pointer): (r: Option<Pointer>)
    ensures r.None? <==> Matches(p)
  {
    if p.Empty? then None else Some(p.next)
  }

  /** matchesProperty: a next segment exists and the name is this one's. */
  predicate MatchesProperty(p: Pointer, name: seq<unit16>)
  {
    p.Segment? && p.property == name
  }

  /** matchProperty: the rest of the chain when the name matches, else null. */
  function MatchProperty(p: Pointer, name: seq<unit16>): (r: Option<Pointer>)
    ensures r.Some? <==> MatchesProperty(p, name)
    ensures r.Some? ==> Some(r.value) == Tail(p)
  {
    if p.Segment? && p.property == name then Some(p.next) else None
  }

  /** matchesElement: the index is non-negative and this segment's. */
  predicate MatchesElement(p: Pointer, index: int)
  {
    index == (if p.Empty? then -1 else p.index) && index >= 0
  }

  /** matchElement: the rest of the chain when the index matches, else null. */
  function MatchElement(p: Pointer, index: int): (r: Option<Pointer>)
    ensures r.Some? <==> MatchesElement(p, index)
    ensures r.Some? ==> Some(r.value) == Tail(p)
  {
    var own := if p.Empty? then -1 else p.index;
    if index != own || index < 0 then None else Tail(p)
  }

  /** mayMatchElement. */
  predicate MayMatchElement(p: Pointer)
  {
    p.Segment? && p.index >= 0
  }

  /** A segment matches an element index exactly when its name is the
      canonical decimal form of that index. */
  lemma ElementMatchIff(p: Pointer, index: int)
    requires p.Segment? && p.index == ParseIndex(p.property)
    ensures MatchesElement(p, index) <==> index >= 0 && index <= MAX_INT && p.property == DecimalUnits(index)
  {
    if index >= 0 {
      ParseIndexIff(p.property, index);
    }
  }

  /** Walking a compiled pointer by its first name leaves the pointer of the
      remaining names. */
  lemma MatchFirstName(segs: seq<seq<unit16>>)
    requires |segs| > 0
    ensures MatchProperty(Compile(Some(Join(segs))).value, segs[0]) == Some(Compile(Some(Join(segs[1..]))).value)
  {
    var rest := Join(segs[1..]);
    ParseTailReads(segs[0], rest);
    assert Join(segs) == [SLASH] + Escape(segs[0]) + rest;
  }

  // ---------------------------------------------------------------------
  // last and head

  /** The last segment of a non-empty chain. */
  function LastSegment(p: Pointer): (r: Pointer)
    requires p.Segment?
    ensures r.Segment? && r.next.Empty?
  {
    if p.next.Empty? then p else LastSegment(p.next)
  }

  /** last: null for EMPTY, else the segment whose next is EMPTY. */
  function Last(p: Pointer): (r: Option<Pointer>)
    ensures r.None? <==> p.Empty?
    ensures r.Some? ==> r.value.Segment? && Segments(r.value) == [Segments(p)[|Segments(p)| - 1]]
  {
    if p.Empty? then None
    else
      LastSegments(p);
      Some(LastSegment(p))
  }

  lemma {:induction false} LastSegments(p: Pointer)
    requires p.Segment?
    ensures Segments(LastSegment(p)) == [Segments(p)[|Segments(p)| - 1]]
  {
    if p.next.Segment? {
      LastSegments(p.next);
    }
  }

  /** The text of the last segment is a suffix of every segment's text. */
  lemma {:induction false} LastIsSuffix(p: Pointer)
    requires p.Segment? && WellFormed(p)
    ensures |LastSegment(p).asString| <= |p.asString|
    ensures p.asString[|p.asString| - |LastSegment(p).asString|..] == LastSegment(p).asString
  {
    if p.next.Segment? {
      LastIsSuffix(p.next);
      var n := p.next.asString;
      var l := LastSegment(p).asString;
      assert p.asString[|p.asString| - |n|..] == n;
      assert p.asString[|p.asString| - |l|..] == n[|n| - |l|..];
    }
  }

  /** _constructHead(suffixLength, last) along the chain: each segment's
      text with the last segment's text cut off, until the last segment,
      which is dropped. */
  function HeadFrom(p: Pointer, suffixLength: nat): (r: Pointer)
    requires p.Segment? && WellFormed(p) && suffixLength <= |LastSegment(p).asString|
  {
    if p.next.Empty? then Empty
    else
      LastIsSuffix(p);
      Segment(p.asString[..|p.asString| - suffixLength], p.property, p.index, HeadFrom(p.next, suffixLength))
  }

  /** head: null for EMPTY; else the pointer without its last segment. */
  function Head(p: Pointer): (r: Option<Pointer>)
    requires WellFormed(p)
    ensures r.None? <==> p.Empty?
    ensures r.Some? ==> Segments(r.value) == Segments(p)[..|Segments(p)| - 1]
    ensures r.Some? ==> AsString(r.value) + AsString(LastSegment(p)) == p.asString
  {
    if p.Empty? then None
    else
      var suffixLength := |LastSegment(p).asString|;
      HeadProperties(p, suffixLength);
      Some(HeadFrom(p, suffixLength))
  }

  lemma {:induction false} HeadProperties(p: Pointer, suffixLength: nat)
    requires p.Segment? && WellFormed(p) && suffixLength == |LastSegment(p).asString|
    ensures Segments(HeadFrom(p, suffixLength)) == Segments(p)[..|Segments(p)| - 1]
    ensures AsString(HeadFrom(p, suffixLength)) + AsString(LastSegment(p)) == p.asString
  {
    LastIsSuffix(p);
    if p.next.Segment? {
      HeadProperties(p.next, suffixLength);
      assert Segments(p) == [p.property] + Segments(p.next);
      assert p.asString == p.asString[..|p.asString| - suffixLength] + p.asString[|p.asString| - suffixLength..];
    } else {
      assert Segments(p) == [p.property];
    }
  }

  // ---------------------------------------------------------------------
  // append

  /** append: EMPTY on either side gives the other; otherwise the two texts
      are joined, one trailing slash of the first dropped, and compiled. */
  function Append(p: Pointer, tail: Pointer): (r: Result<Pointer>)
    requires WellFormed(tail)
  {
    if p.Empty? then Success(tail)
    else if tail.Empty? then Success(p)
    else
      var cur := p.asString;
      var cur := if |cur| > 0 && cur[|cur| - 1] == SLASH then cur[..|cur| - 1] else cur;
      Compile(Some(cur + tail.asString))
  }

  lemma JoinAppend(a: seq<seq<unit16>>, b: seq<seq<unit16>>)
    ensures Join(a + b) == Join(a) + Join(b)
  {
    if |a| > 0 {
      assert (a + b)[1..] == a[1..] + b;
      JoinAppend(a[1..], b);
    } else {
      assert a + b == b;
    }
  }

  /** Appending compiled pointers appends their names, as long as the last
      name of the first is not empty (an empty last name ends the text in a
      slash, which append drops). */
  lemma AppendNames(a: seq<seq<unit16>>, b: seq<seq<unit16>>)
    requires |a| > 0 && |b| > 0 && |a[|a| - 1]| > 0
    ensures Append(Compile(Some(Join(a))).value, Compile(Some(Join(b))).value) == Compile(Some(Join(a + b)))
  {
    var ja, jb := Join(a), Join(b);
    JoinAppend(a, b);
    JoinLast(a);
    var pa, pb := Compile(Some(ja)).value, Compile(Some(jb)).value;
    assert pa == ParseTail(ja) && pb == ParseTail(jb);
    assert pa.asString == ja && pb.asString == jb;
    assert Append(pa, pb) == Compile(Some(ja + jb));
  }

  /** The join ends in a slash only when its last name is empty. */
  lemma {:induction false} JoinLast(a: seq<seq<unit16>>)
    requires |a| > 0 && |a[|a| - 1]| > 0
    ensures Join(a)[|Join(a)| - 1] != SLASH
  {
    if |a| > 1 {
      JoinLast(a[1..]);
      assert Join(a) == [SLASH] + Escape(a[0]) + Join(a[1..]);
    } else {
      assert Join(a) == [SLASH] + Escape(a[0]);
      assert Escape(a[0])[|Escape(a[0])| - 1] in Escape(a[0]);
    }
  }
}
