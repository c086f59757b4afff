/** The UTF-8 encoding writer (UTF8Writer).

  The writer's observable state is the byte sequence it has produced so far
  (what sits in its buffer plus what it has already flushed to the stream)
  and a pending high surrogate, 0 when there is none.  `write(int)` is the
  reference step; the bulk `write(string, off, len)` loop is proved to
  produce exactly what writing its chars one by one produces, so a pair may
  be split across calls.
 */
module Utf8Writer {
  import opened Ints
  import opened Wrappers
  import opened Unicode

  datatype Writer = Writer(out: seq<byte>, surrogate: int)

  /** A freshly constructed writer. */
  const INITIAL: Writer := Writer([], 0)

  /** illegalSurrogateDesc: the message for a code that cannot be written. */
  function IllegalSurrogateDesc(code: int): string
  {
    if code > MAX_CODE_POINT then "Illegal character point to output; max is 0x10FFFF as per RFC 4627"
    else if code >= SURR1_FIRST then
      (if code <= SURR1_LAST then "Unmatched first part of surrogate pair"
       else "Unmatched second part of surrogate pair")
    else "Illegal character point to output"
  }

  /** convertSurrogate: combine the pending first half with `secondPart`;
      an IOException unless the second part is a low surrogate. */
  function ConvertSurrogate(firstPart: int, secondPart: int): (r: Result<int>)
    requires IsHigh(firstPart)
    ensures r.Success? <==> IsLow(secondPart)
    ensures r.Success? ==> 0x1_0000 <= r.value <= MAX_CODE_POINT
    ensures r.Success? ==> HighOf(r.value) == firstPart && LowOf(r.value) == secondPart
    ensures r.Failure? ==> r.error.IOFailure?
  {
    if secondPart < SURR2_FIRST || secondPart > SURR2_LAST then
      Failure(IOFailure("Broken surrogate pair; illegal combination"))
    else
      SplitCombine(firstPart, secondPart);
      Success(0x1_0000 + (firstPart - SURR1_FIRST) * 0x400 + (secondPart - SURR2_FIRST))
  }

  /** The bytes write(int) emits for a code point once surrogates are dealt
      with: one byte (the low 8 bits, for any value below 0x80), two, three
      or four; above 0x10FFFF an IOException. */
  function EncodeCode(c: int): (r: Result<seq<byte>>)
    ensures 0 <= c <= MAX_CODE_POINT ==> r == Success(Utf8(c))
    ensures c > MAX_CODE_POINT ==> r.Failure? && r.error.IOFailure?
    ensures c < 0 ==> r == Success([c % 256])
  {
    if c < 0x80 then Success([c % 256])
    else if c < 0x800 then Success([0xC0 + c / 0x40, 0x80 + c % 0x40])
    else if c <= 0xFFFF then Success([0xE0 + c / 0x1000, 0x80 + (c / 0x40) % 0x40, 0x80 + c % 0x40])
    else if c > MAX_CODE_POINT then Failure(IOFailure(IllegalSurrogateDesc(c)))
    else Success([0xF0 + c / 0x4_0000, 0x80 + (c / 0x1000) % 0x40, 0x80 + (c / 0x40) % 0x40, 0x80 + c % 0x40])
  }

  /** The four bytes of a combined pair, as the bulk loop writes them. */
  function PairBytes(c: int): (b: seq<byte>)
    requires 0x1_0000 <= c <= MAX_CODE_POINT
    ensures b == Utf8(c)
  {
    [0xF0 + c / 0x4_0000, 0x80 + (c / 0x1000) % 0x40, 0x80 + (c / 0x40) % 0x40, 0x80 + c % 0x40]
  }

  predicate Valid(w: Writer) { w.surrogate == 0 || IsHigh(w.surrogate) }

  /** write(int): a pending first half is combined with `c`; otherwise a high
      surrogate is held back and a low one is an error; everything else is
      encoded and appended. */
  function WriteInt(w: Writer, c: int32): (r: Result<Writer>)
    requires Valid(w)
    ensures r.Success? ==> Valid(r.value) && w.out <= r.value.out
    ensures w.surrogate == 0 && IsHigh(c) ==> r == Success(w.(surrogate := c))
    ensures w.surrogate == 0 && IsLow(c) ==> r.Failure? && r.error.IOFailure?
    ensures w.surrogate == 0 && IsScalar(c) ==> r == Success(Writer(w.out + Utf8(c), 0))
    ensures w.surrogate > 0 && IsLow(c) ==> r == Success(Writer(w.out + Utf8(Combine(w.surrogate, c)), 0))
    ensures w.surrogate > 0 && !IsLow(c) ==> r.Failure? && r.error.IOFailure?
  {
    if w.surrogate > 0 then
      var conv :- ConvertSurrogate(w.surrogate, c);
      Success(Writer(w.out + PairBytes(conv), 0))
    else if c >= SURR1_FIRST && c <= SURR2_LAST then
      if c > SURR1_LAST then Failure(IOFailure(IllegalSurrogateDesc(c)))
      else Success(w.(surrogate := c))
    else
      var bytes :- EncodeCode(c);
      Success(Writer(w.out + bytes, 0))
  }

  /** Writing chars one at a time: the reference for the bulk writers. */
  function WriteChars(w: Writer, s: seq<unit16>): (r: Result<Writer>)
    requires Valid(w)
    ensures r.Success? ==> Valid(r.value)
    decreases |s|
  {
    if |s| == 0 then Success(w)
    else
      var w' :- WriteInt(w, s[0]);
      WriteChars(w', s[1..])
  }

  /** One char outside the surrogate range, with nothing pending. */
  lemma StepPlain(cur: Writer, s: seq<unit16>, i: nat)
    requires cur.surrogate == 0 && i < |s| && IsScalar(s[i])
    ensures WriteChars(cur, s[i..]) == WriteChars(Writer(cur.out + Utf8(s[i]), 0), s[i + 1..])
  {
    assert s[i..][0] == s[i] && s[i..][1..] == s[i + 1..];
  }

  /** A second half with nothing pending fails the whole write. */
  lemma StepLow(cur: Writer, s: seq<unit16>, i: nat)
    requires cur.surrogate == 0 && i < |s| && IsLow(s[i])
    ensures WriteChars(cur, s[i..]) == Failure(IOFailure(IllegalSurrogateDesc(s[i])))
  {
    assert s[i..][0] == s[i];
  }

  /** A first half at the very end is held back. */
  lemma StepHighLast(cur: Writer, s: seq<unit16>, i: nat)
    requires cur.surrogate == 0 && i == |s| - 1 && IsHigh(s[i])
    ensures WriteChars(cur, s[i..]) == Success(cur.(surrogate := s[i]))
  {
    assert s[i..][0] == s[i] && s[i..][1..] == [];
  }

  /** A first half followed by anything: the pair, or the conversion's error. */
  lemma StepPair(cur: Writer, s: seq<unit16>, i: nat)
    requires cur.surrogate == 0 && i + 1 < |s| && IsHigh(s[i])
    ensures var conv := ConvertSurrogate(s[i], s[i + 1]);
      WriteChars(cur, s[i..]) ==
        if conv.Failure? then Failure(conv.error)
        else WriteChars(Writer(cur.out + PairBytes(conv.value), 0), s[i + 2..])
  {
    var wh := cur.(surrogate := s[i]);
    assert s[i..][0] == s[i] && s[i..][1..] == s[i + 1..];
    assert WriteChars(cur, s[i..]) == WriteChars(wh, s[i + 1..]);
    assert s[i + 1..][0] == s[i + 1] && s[i + 1..][1..] == s[i + 2..];
  }

  /** write(string, off, len) / write(char[], off, len) on the `len` chars
      `s`: one or no char goes through write(int); otherwise a pending half is
      completed with the first char and the rest is encoded in one loop that
      holds a trailing high surrogate back.  Equal to writing char by char. */
  method WriteText(w: Writer, s: seq<unit16>) returns (r: Result<Writer>)
    requires Valid(w)
    ensures r == WriteChars(w, s)
  {
    if |s| < 2 {
      if |s| == 1 {
        r := WriteInt(w, s[0]);
        assert s[1..] == [];
      } else {
        r := Success(w);
      }
      return;
    }
    var off := 0;
    var cur := w;
    if w.surrogate > 0 {
      var second := s[0];
      off := 1;
      var conv := ConvertSurrogate(w.surrogate, second);
      if conv.Failure? {
        return Failure(conv.error);
      }
      cur := Writer(w.out + PairBytes(conv.value), 0);
      assert s[1..] == s[off..];
    }
    r := EncodeRest(cur, s, off);
  }

  /** Where the bulk loop stands after one char (or pair): still going, or done. */
  datatype Step = Continue(cur: Writer, off: nat) | Stop(result: Result<Writer>)

  /** One iteration of the bulk loop, starting at `off` with nothing pending. */
  method EncodeNext(cur: Writer, s: seq<unit16>, off: nat) returns (st: Step)
    requires cur.surrogate == 0 && off < |s|
    ensures st.Continue? ==> off < st.off <= |s| && st.cur.surrogate == 0
    ensures st.Continue? ==> WriteChars(cur, s[off..]) == WriteChars(st.cur, s[st.off..])
    ensures st.Stop? ==> WriteChars(cur, s[off..]) == st.result
  {
    var c := s[off];
    if c < 0x80 {
      StepPlain(cur, s, off);
      st := Continue(Writer(cur.out + [c], 0), off + 1);
    } else if c < 0x800 {
      StepPlain(cur, s, off);
      st := Continue(Writer(cur.out + [0xC0 + c / 0x40, 0x80 + c % 0x40], 0), off + 1);
    } else if c < SURR1_FIRST || c > SURR2_LAST {
      StepPlain(cur, s, off);
      st := Continue(Writer(cur.out + [0xE0 + c / 0x1000, 0x80 + (c / 0x40) % 0x40, 0x80 + c % 0x40], 0), off + 1);
    } else if c > SURR1_LAST {
      StepLow(cur, s, off);
      st := Stop(Failure(IOFailure(IllegalSurrogateDesc(c))));
    } else if off + 1 >= |s| {
      StepHighLast(cur, s, off);
      st := Stop(Success(cur.(surrogate := c)));
    } else {
      var conv := ConvertSurrogate(c, s[off + 1]);
      StepPair(cur, s, off);
      if conv.Failure? {
        st := Stop(Failure(conv.error));
      } else {
        st := Continue(Writer(cur.out + PairBytes(conv.value), 0), off + 2);
      }
    }
  }

  /** The bulk loop proper, from `from` on, with nothing pending. */
  method EncodeRest(start: Writer, s: seq<unit16>, from: nat) returns (r: Result<Writer>)
    requires start.surrogate == 0 && from <= |s|
    ensures r == WriteChars(start, s[from..])
  {
    var off := from;
    var cur := start;
    while off < |s|
      invariant 0 <= off <= |s| && cur.surrogate == 0
      invariant WriteChars(start, s[from..]) == WriteChars(cur, s[off..])
      decreases |s| - off
    {
      var st := EncodeNext(cur, s, off);
      if st.Stop? {
        return st.result;
      }
      cur, off := st.cur, st.off;
    }
    assert s[off..] == [];
    r := Success(cur);
  }

  /** Writing in two calls is writing the concatenation: a pair may be split
      between calls. */
  lemma {:induction false} WriteCharsAppend(w: Writer, a: seq<unit16>, b: seq<unit16>)
    requires Valid(w)
    ensures WriteChars(w, a + b) ==
      (match WriteChars(w, a)
       case Success(w') => WriteChars(w', b)
       case Failure(e) => Failure(e))
    decreases |a|
  {
    if |a| == 0 {
      assert a + b == b;
    } else {
      assert (a + b)[0] == a[0] && (a + b)[1..] == a[1..] + b;
      match WriteInt(w, a[0])
      case Success(w') =>
        WriteCharsAppend(w', a[1..], b);
      case Failure(_) =>
    }
  }

  /** The first code point of well-formed text is written whole. */
  lemma WriteFirstCodePoint(w: Writer, cps: seq<int>)
    requires w.surrogate == 0 && |cps| > 0
    requires forall k :: 0 <= k < |cps| ==> IsScalar(cps[k])
    ensures WriteChars(w, Utf16(cps)) == WriteChars(Writer(w.out + Utf8(cps[0]), 0), Utf16(cps[1..]))
  {
    var cp := cps[0];
    var t := Utf16(cps);
    if cp < 0x1_0000 {
      assert t == [cp] + Utf16(cps[1..]);
      assert t[1..] == Utf16(cps[1..]);
    } else {
      assert t == [HighOf(cp), LowOf(cp)] + Utf16(cps[1..]);
      CombineSplit(cp);
      var wh := w.(surrogate := HighOf(cp));
      assert WriteChars(w, t) == WriteChars(wh, t[1..]);
      assert t[1..][0] == LowOf(cp) && t[1..][1..] == Utf16(cps[1..]);
    }
  }

  lemma Utf8OfCons(cps: seq<int>)
    requires |cps| > 0
    requires forall k :: 0 <= k < |cps| ==> 0 <= cps[k] <= MAX_CODE_POINT
    ensures Utf8Of(cps) == Utf8(cps[0]) + Utf8Of(cps[1..])
  {
    var head, rest := [cps[0]], cps[1..];
    Utf8OfAppend(head, rest);
    Utf8OfSingle(cps[0]);
    assert head + rest == cps;
  }

  lemma Utf8OfSingle(c: int)
    requires 0 <= c <= MAX_CODE_POINT
    ensures Utf8Of([c]) == Utf8(c)
  {
    assert [c][..0] == [];
  }

  /** Well-formed UTF-16 text is written as the UTF-8 of its code points. */
  lemma {:induction false} WriteCharsUtf16(w: Writer, cps: seq<int>)
    requires w.surrogate == 0
    requires forall k :: 0 <= k < |cps| ==> IsScalar(cps[k])
    ensures WriteChars(w, Utf16(cps)) == Success(Writer(w.out + Utf8Of(cps), 0))
    decreases |cps|
  {
    if |cps| == 0 {
      assert w.out + Utf8Of(cps) == w.out;
    } else {
      var w1 := Writer(w.out + Utf8(cps[0]), 0);
      WriteFirstCodePoint(w, cps);
      WriteCharsUtf16(w1, cps[1..]);
      Utf8OfCons(cps);
      assert w1.out + Utf8Of(cps[1..]) == w.out + Utf8Of(cps);
    }
  }

  /** Any well-formed UTF-16 text is written as the UTF-8 of the code points it encodes. */
  lemma WriteWellFormed(w: Writer, t: seq<unit16>)
    requires w.surrogate == 0 && CodePoints(t).Some?
    ensures WriteChars(w, t) == Success(Writer(w.out + Utf8Of(CodePoints(t).value), 0))
  {
    Utf16OfCodePoints(t);
    WriteCharsUtf16(w, CodePoints(t).value);
  }

  /** What close hands over: everything written reaches the stream, then a
      pending first half is reported. */
  datatype Closing = Closing(flushed: seq<byte>, error: Option<Exc>)

  /** close: flush, release the buffer, close the stream, and only then
      report an orphaned first half of a surrogate pair. */
  function Close(w: Writer): (r: Closing)
    ensures r.flushed == w.out
    ensures r.error.Some? <==> w.surrogate > 0
    ensures r.error.Some? ==> r.error.value == IOFailure(IllegalSurrogateDesc(w.surrogate))
  {
    var code := w.surrogate;
    if code > 0 then Closing(w.out, Some(IOFailure(IllegalSurrogateDesc(code))))
    else Closing(w.out, None)
  }
}
