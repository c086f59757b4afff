/** The parser's text accumulator (TextBuffer).

  A buffer is in one of two modes.  In shared mode it only points at a slice
  of the parser's input buffer.  Otherwise it holds a list of full segments
  followed by the filled prefix of a current segment.  Either way a cached
  string or array of the whole text may sit on top and then takes precedence,
  as `size` and the accessors check it.  `Contents` is that text; every
  mutator is specified by what it does to `Contents`.

  `_hasSegments` is modelled as "the segment list is not empty" and
  `_segmentSize` as the total length of the listed segments, which is what
  every assignment to them keeps.  Char arrays are `seq<unit16>`.
 */
module TextBuffer {
  import opened Ints
  import opened Wrappers
  import opened Seqs
  import BR = BufferRecycler

  const MIN_SEGMENT_LEN: nat := 1000
  const MAX_SEGMENT_LEN: nat := 0x4_0000

  type Chars = seq<unit16>

  datatype Buffer = Buffer(
    allocator: Option<BR.Recycler>,
    inputBuffer: Option<Chars>,
    inputStart: int,
    inputLen: int,
    segments: seq<Chars>,
    currentSegment: Option<Chars>,
    currentSize: int,
    resultString: Option<Chars>,
    resultArray: Option<Chars>)

  /** `_inputStart >= 0`: the text is a slice of the caller's buffer. */
  predicate Shared(tb: Buffer)
  {
    tb.inputStart >= 0
  }

  predicate Valid(tb: Buffer)
  {
    && (tb.allocator.Some? ==> BR.Valid(tb.allocator.value))
    && (Shared(tb) ==>
          && tb.inputBuffer.Some? && 0 <= tb.inputLen
          && tb.inputStart + tb.inputLen <= |tb.inputBuffer.value|
          && |tb.segments| == 0)
    && 0 <= tb.currentSize
    && (tb.currentSegment.None? ==> tb.currentSize == 0 && |tb.segments| == 0)
    && (tb.currentSegment.Some? ==> 0 < |tb.currentSegment.value| && tb.currentSize <= |tb.currentSegment.value|)
    && (tb.resultString.Some? && tb.resultArray.Some? ==> tb.resultString == tb.resultArray)
    && (Shared(tb) && tb.resultString.Some? ==> tb.resultString.value == Slice(tb))
    && (Shared(tb) && tb.resultArray.Some? ==> tb.resultArray.value == Slice(tb))
  }

  /** The shared slice `_inputBuffer[_inputStart .. _inputStart + _inputLen]`. */
  function Slice(tb: Buffer): Chars
    requires Shared(tb) && tb.inputBuffer.Some? && 0 <= tb.inputLen
    requires tb.inputStart + tb.inputLen <= |tb.inputBuffer.value|
  {
    tb.inputBuffer.value[tb.inputStart..tb.inputStart + tb.inputLen]
  }

  /** The filled part of the current segment. */
  function Filled(tb: Buffer): Chars
    requires Valid(tb)
  {
    if tb.currentSegment.None? then [] else tb.currentSegment.value[..tb.currentSize]
  }

  /** The text held by the segments, ignoring any cached result. */
  function Segmented(tb: Buffer): Chars
    requires Valid(tb)
  {
    Flatten(tb.segments) + Filled(tb)
  }

  /** The text a mutator works on: the shared slice or the segments. */
  function Editable(tb: Buffer): Chars
    requires Valid(tb)
  {
    if Shared(tb) then Slice(tb) else Segmented(tb)
  }

  /** The buffer's text, by the precedence `size` and the accessors use. */
  function Contents(tb: Buffer): Chars
    requires Valid(tb)
  {
    if Shared(tb) then Slice(tb)
    else if tb.resultArray.Some? then tb.resultArray.value
    else if tb.resultString.Some? then tb.resultString.value
    else Segmented(tb)
  }

  /** A new empty buffer, with or without a buffer recycler. */
  function New(allocator: Option<BR.Recycler>): (tb: Buffer)
    requires allocator.Some? ==> BR.Valid(allocator.value)
    ensures Valid(tb) && Contents(tb) == [] && !Shared(tb)
  {
    Buffer(allocator, None, -1, 0, [], None, 0, None, None)
  }

  // ---------------------------------------------------------------------
  // Allocation and growth

  datatype Allocated = Allocated(chars: Chars, allocator: Option<BR.Recycler>)

  /** buf(needed): a recycled text buffer, or a fresh one of at least the
      minimum segment length. */
  function Buf(allocator: Option<BR.Recycler>, needed: int): (a: Allocated)
    requires allocator.Some? ==> BR.Valid(allocator.value)
    ensures a.allocator.Some? <==> allocator.Some?
    ensures a.allocator.Some? ==> BR.Valid(a.allocator.value)
    ensures |a.chars| >= needed && |a.chars| >= BR.CHAR_BUFFER_LENGTHS[BR.CHAR_TEXT_BUFFER]
    ensures allocator.None? ==> |a.chars| == (if needed < MIN_SEGMENT_LEN then MIN_SEGMENT_LEN else needed)
  {
    if allocator.Some? then
      var (chars, r) := BR.AllocCharBuffer(allocator.value, BR.CHAR_TEXT_BUFFER, needed);
      Allocated(chars, Some(r))
    else
      Allocated(Fill(if needed < MIN_SEGMENT_LEN then MIN_SEGMENT_LEN else needed, 0), None)
  }

  /** The length of the segment that follows a full one: half as long again,
      at least MIN_SEGMENT_LEN and at most MAX_SEGMENT_LEN. */
  function NextSegmentLength(oldLen: nat): (n: nat)
    ensures MIN_SEGMENT_LEN <= n <= MAX_SEGMENT_LEN
    ensures MIN_SEGMENT_LEN <= oldLen + oldLen / 2 <= MAX_SEGMENT_LEN ==> n == oldLen + oldLen / 2
  {
    var newLen := oldLen + oldLen / 2;
    if newLen < MIN_SEGMENT_LEN then MIN_SEGMENT_LEN
    else if newLen > MAX_SEGMENT_LEN then MAX_SEGMENT_LEN
    else newLen
  }

  /** expand: the whole current segment joins the list and an empty segment
      of the next length begins. */
  function Expand(tb: Buffer): (r: Buffer)
    requires Valid(tb) && !Shared(tb) && tb.currentSegment.Some?
    ensures Valid(r) && !Shared(r) && r.currentSegment.Some? && r.currentSize == 0
    ensures |r.currentSegment.value| == NextSegmentLength(|tb.currentSegment.value|)
    ensures Segmented(r) == Flatten(tb.segments) + tb.currentSegment.value
    ensures tb.currentSize == |tb.currentSegment.value| ==> Segmented(r) == Segmented(tb)
    ensures r.resultString == tb.resultString && r.resultArray == tb.resultArray
    ensures r.allocator == tb.allocator
  {
    var curr := tb.currentSegment.value;
    var r := tb.(segments := tb.segments + [curr], currentSize := 0,
                 currentSegment := Some(Fill(NextSegmentLength(|curr|), 0)));
    assert Filled(r) == [];
    assert curr[..tb.currentSize] == curr ==> Filled(tb) == curr;
    r
  }

  /** Chars copied to the write position of a current segment with room. */
  function Put(tb: Buffer, cs: Chars): (r: Buffer)
    requires Valid(tb) && !Shared(tb) && tb.currentSegment.Some?
    requires tb.currentSize + |cs| <= |tb.currentSegment.value|
    ensures Valid(r) && !Shared(r) && r.currentSegment.Some?
    ensures Segmented(r) == Segmented(tb) + cs
    ensures |r.currentSegment.value| == |tb.currentSegment.value| && r.currentSize == tb.currentSize + |cs|
    ensures r.segments == tb.segments && r.allocator == tb.allocator
    ensures r.resultString == tb.resultString && r.resultArray == tb.resultArray
  {
    var curr := tb.currentSegment.value;
    var p := tb.currentSize;
    var seg := curr[..p] + cs + curr[p + |cs|..];
    assert seg[..p + |cs|] == curr[..p] + cs;
    tb.(currentSegment := Some(seg), currentSize := p + |cs|)
  }

  /** unshare(needExtra): the shared slice is copied into the current
      segment, reallocated when it cannot hold the slice plus `needExtra`. */
  function Unshare(tb: Buffer, needExtra: nat): (r: Buffer)
    requires Valid(tb) && Shared(tb)
    ensures Valid(r) && !Shared(r) && r.currentSegment.Some?
    ensures Segmented(r) == Slice(tb) && Contents(r) == Contents(tb)
    ensures r.currentSize + needExtra <= |r.currentSegment.value|
    ensures r.resultString == tb.resultString && r.resultArray == tb.resultArray
  {
    var sharedLen := tb.inputLen;
    var slice := Slice(tb);
    var needed := sharedLen + needExtra;
    var a := if tb.currentSegment.None? || needed > |tb.currentSegment.value| then Buf(tb.allocator, needed)
             else Allocated(tb.currentSegment.value, tb.allocator);
    var seg := slice + a.chars[sharedLen..];
    assert seg[..sharedLen] == slice;
    Buffer(a.allocator, None, -1, 0, tb.segments, Some(seg), sharedLen, tb.resultString, tb.resultArray)
  }

  // ---------------------------------------------------------------------
  // Resets

  /** The segment list emptied (clearSegments, when there are segments). */
  function ClearSegments(tb: Buffer): (r: Buffer)
    requires Valid(tb)
    ensures r.segments == [] && r.currentSegment == tb.currentSegment
  {
    if |tb.segments| > 0 then tb.(segments := [], currentSize := 0) else tb
  }

  /** resetWithEmpty: no text, no shared slice, no cached results; the
      current segment is kept for reuse. */
  function ResetWithEmpty(tb: Buffer): (r: Buffer)
    requires Valid(tb)
    ensures Valid(r) && !Shared(r) && Contents(r) == []
    ensures r.currentSegment == tb.currentSegment && r.allocator == tb.allocator
  {
    ClearSegments(tb.(inputStart := -1, currentSize := 0, inputLen := 0, inputBuffer := None,
                      resultString := None, resultArray := None))
  }

  /** resetWithShared: the text becomes the slice `buf[start .. start + len]`,
      without copying. */
  function ResetWithShared(tb: Buffer, buf: Chars, start: nat, len: nat): (r: Buffer)
    requires Valid(tb) && start + len <= |buf|
    ensures Valid(r) && Shared(r) && Contents(r) == buf[start..start + len]
    ensures r.currentSegment == tb.currentSegment && r.allocator == tb.allocator
  {
    var t := ClearSegments(tb);
    t.(resultString := None, resultArray := None, inputBuffer := Some(buf), inputStart := start, inputLen := len)
  }

  /** resetWithString: the text becomes `value`, held as the cached string. */
  function ResetWithString(tb: Buffer, value: Chars): (r: Buffer)
    requires Valid(tb)
    ensures Valid(r) && !Shared(r) && Contents(r) == value && Segmented(r) == []
  {
    var t := ClearSegments(tb.(inputBuffer := None, inputStart := -1, inputLen := 0,
                               resultString := Some(value), resultArray := None));
    t.(currentSize := 0)
  }

  /** resetWithCopy: the text becomes a private copy of `cs`. */
  function ResetWithCopy(tb: Buffer, cs: Chars): (r: Buffer)
    requires Valid(tb)
    ensures Valid(r) && !Shared(r) && Contents(r) == cs
  {
    var t0 := tb.(inputBuffer := None, inputStart := -1, inputLen := 0, resultString := None, resultArray := None);
    var t1 := if |t0.segments| > 0 then ClearSegments(t0)
              else if t0.currentSegment.None? then
                var a := Buf(t0.allocator, |cs|);
                t0.(currentSegment := Some(a.chars), allocator := a.allocator)
              else t0;
    var t := t1.(currentSize := 0);
    assert Segmented(t) == [];
    var r := Append(t, cs);
    r.value
  }

  // ---------------------------------------------------------------------
  // Appending

  /** The appends after the current segment filled up: open a segment, copy
      as much as fits, repeat while chars remain. */
  function AppendSegments(tb: Buffer, rest: Chars): (r: Buffer)
    requires Valid(tb) && !Shared(tb) && tb.currentSegment.Some?
    requires tb.currentSize == |tb.currentSegment.value| && |rest| > 0
    ensures Valid(r) && !Shared(r) && r.currentSegment.Some?
    ensures Segmented(r) == Segmented(tb) + rest
    ensures r.resultString == tb.resultString && r.resultArray == tb.resultArray
    decreases |rest|
  {
    var t := Expand(tb);
    assert Segmented(t) == Segmented(tb);
    var room := |t.currentSegment.value|;
    var amount := if room < |rest| then room else |rest|;
    var t' := Put(t, rest[..amount]);
    if amount == |rest| then
      assert rest[..amount] == rest;
      t'
    else
      var r := AppendSegments(t', rest[amount..]);
      JoinSplit(Segmented(tb), rest, amount);
      r
  }

  /** Appending a prefix and then the remainder appends the whole. */
  lemma JoinSplit(a: Chars, rest: Chars, amount: nat)
    requires amount <= |rest|
    ensures a + rest[..amount] + rest[amount..] == a + rest
  {
    assert rest == rest[..amount] + rest[amount..];
  }

  /** append(char[], start, len) and append(string, offset, len), of the
      slice `cs`.  A buffer that was never given a segment and is not shared
      has no array to copy into. */
  function Append(tb: Buffer, cs: Chars): (r: Result<Buffer>)
    requires Valid(tb)
    ensures r.Failure? <==> !Shared(tb) && tb.currentSegment.None?
    ensures r.Failure? ==> r.error == NullReference
    ensures r.Success? ==> Valid(r.value) && !Shared(r.value) && r.value.currentSegment.Some?
    ensures r.Success? ==> Contents(r.value) == Editable(tb) + cs
    ensures r.Success? ==> r.value.resultString.None? && r.value.resultArray.None?
  {
    var t0 := if Shared(tb) then Unshare(tb, |cs|) else tb;
    if t0.currentSegment.None? then Failure(NullReference)
    else
      var t := t0.(resultString := None, resultArray := None);
      assert Segmented(t) == Editable(tb);
      var room := |t.currentSegment.value| - t.currentSize;
      if room >= |cs| then Success(Put(t, cs))
      else
        var t1 := if room > 0 then Put(t, cs[..room]) else t;
        assert Segmented(t1) == Segmented(t) + cs[..room] by {
          if room == 0 { assert Segmented(t) + cs[..room] == Segmented(t); }
        }
        JoinSplit(Segmented(t), cs, room);
        Success(AppendSegments(t1, cs[room..]))
  }

  /** append(char): one char, after opening a new segment if the current one
      is full. */
  function AppendChar(tb: Buffer, c: unit16): (r: Result<Buffer>)
    requires Valid(tb)
    ensures r.Failure? <==> !Shared(tb) && tb.currentSegment.None?
    ensures r.Failure? ==> r.error == NullReference
    ensures r.Success? ==> Valid(r.value) && !Shared(r.value) && r.value.currentSegment.Some?
    ensures r.Success? ==> Contents(r.value) == Editable(tb) + [c]
    ensures r.Success? ==> r.value.resultString.None? && r.value.resultArray.None?
  {
    var t0 := if Shared(tb) then Unshare(tb, 16) else tb;
    if t0.currentSegment.None? then Failure(NullReference)
    else
      var t1 := t0.(resultString := None, resultArray := None);
      var t := if t1.currentSize >= |t1.currentSegment.value| then Expand(t1) else t1;
      Success(Put(t, [c]))
  }

  /** Appending a run char by char gives the same text as appending it at
      once, whatever the segment boundaries. */
  lemma {:induction false} AppendCharsIsAppend(tb: Buffer, cs: Chars)
    requires Valid(tb) && (Shared(tb) || tb.currentSegment.Some?)
    ensures AppendChars(tb, cs).Success? && Append(tb, cs).Success?
    ensures Contents(AppendChars(tb, cs).value) == Editable(tb) + cs == Contents(Append(tb, cs).value)
    decreases |cs|
  {
    if |cs| > 0 {
      var init := cs[..|cs| - 1];
      AppendCharsIsAppend(tb, init);
      var prefix := AppendChars(tb, init).value;
      assert Editable(prefix) == Contents(prefix) == Editable(tb) + init;
      var r := AppendChar(prefix, cs[|cs| - 1]);
      assert r.Success? && Contents(r.value) == Editable(tb) + init + [cs[|cs| - 1]];
      Regroup(Editable(tb), init, [cs[|cs| - 1]]);
      SplitLast(cs);
    }
  }

  /** A run of single-char appends. */
  function AppendChars(tb: Buffer, cs: Chars): (r: Result<Buffer>)
    requires Valid(tb)
    ensures r.Success? ==> Valid(r.value) && !Shared(r.value) && r.value.currentSegment.Some?
    ensures r.Success? ==> r.value.resultString.None? && r.value.resultArray.None?
    decreases |cs|
  {
    if |cs| == 0 then
      if Shared(tb) || tb.currentSegment.Some? then Success(Unshared(tb)) else Failure(NullReference)
    else
      var prefix :- AppendChars(tb, cs[..|cs| - 1]);
      AppendChar(prefix, cs[|cs| - 1])
  }

  /** The buffer with its editable text as plain segments and no caches,
      which is what any append leaves behind. */
  function Unshared(tb: Buffer): (r: Buffer)
    requires Valid(tb) && (Shared(tb) || tb.currentSegment.Some?)
    ensures Valid(r) && !Shared(r) && r.currentSegment.Some? && Contents(r) == Editable(tb)
    ensures r.resultString.None? && r.resultArray.None?
  {
    var t := if Shared(tb) then Unshare(tb, 0) else tb;
    t.(resultString := None, resultArray := None)
  }

  // ---------------------------------------------------------------------
  // Accessors

  /** size. */
  function Size(tb: Buffer): (n: nat)
    requires Valid(tb)
    ensures n == |Contents(tb)|
  {
    if Shared(tb) then tb.inputLen
    else if tb.resultArray.Some? then |tb.resultArray.value|
    else if tb.resultString.Some? then |tb.resultString.value|
    else |Flatten(tb.segments)| + tb.currentSize
  }

  /** getTextOffset: where the text starts in the array getTextBuffer hands
      out. */
  function GetTextOffset(tb: Buffer): (n: nat)
  {
    if tb.inputStart >= 0 then tb.inputStart else 0
  }

  datatype Returned = Returned(chars: Chars, buffer: Buffer)

  /** contentsAsString: the text, cached as the result string. */
  function ContentsAsString(tb: Buffer): (r: Returned)
    requires Valid(tb)
    ensures Valid(r.buffer) && r.chars == Contents(tb) && Contents(r.buffer) == Contents(tb)
    ensures r.buffer.resultString == Some(r.chars)
  {
    if tb.resultString.Some? then Returned(tb.resultString.value, tb)
    else
      var s :=
        if tb.resultArray.Some? then tb.resultArray.value
        else if Shared(tb) then (if tb.inputLen < 1 then [] else Slice(tb))
        else if |Flatten(tb.segments)| == 0 then (if tb.currentSize == 0 then [] else Filled(tb))
        else Flatten(tb.segments) + Filled(tb);
      Returned(s, tb.(resultString := Some(s)))
  }

  /** resultArray: a fresh copy of the text. */
  function ResultArray(tb: Buffer): (r: Chars)
    requires Valid(tb) && tb.resultArray.None?
    ensures r == Contents(tb)
  {
    if tb.resultString.Some? then tb.resultString.value
    else if Shared(tb) then (if tb.inputLen < 1 then [] else Slice(tb))
    else if Size(tb) < 1 then []
    else Flatten(tb.segments) + Filled(tb)
  }

  /** contentsAsArray: the text, cached as the result array. */
  function ContentsAsArray(tb: Buffer): (r: Returned)
    requires Valid(tb)
    ensures Valid(r.buffer) && r.chars == Contents(tb) && Contents(r.buffer) == Contents(tb)
    ensures r.buffer.resultArray == Some(r.chars)
  {
    if tb.resultArray.Some? then Returned(tb.resultArray.value, tb)
    else
      var a := ResultArray(tb);
      Returned(a, tb.(resultArray := Some(a)))
  }

  /** getTextBuffer: an array in which the text starts at getTextOffset; in
      shared mode it is the caller's own buffer, with one segment it is that
      segment, otherwise a combined copy. */
  function GetTextBuffer(tb: Buffer): (r: Returned)
    requires Valid(tb)
    ensures Valid(r.buffer) && Contents(r.buffer) == Contents(tb)
    ensures GetTextOffset(tb) + Size(tb) <= |r.chars|
    ensures r.chars[GetTextOffset(tb)..GetTextOffset(tb) + Size(tb)] == Contents(tb)
  {
    if Shared(tb) then Returned(tb.inputBuffer.value, tb)
    else if tb.resultArray.Some? then Returned(tb.resultArray.value, tb)
    else if tb.resultString.Some? then
      Returned(tb.resultString.value, tb.(resultArray := tb.resultString))
    else if |tb.segments| == 0 then
      Returned(if tb.currentSegment.None? then [] else tb.currentSegment.value, tb)
    else ContentsAsArray(tb)
  }

  // ---------------------------------------------------------------------
  // Raw segment access

  /** getCurrentSegment: the current segment, with room for at least one
      more char, after unsharing or allocating it if need be. */
  function GetCurrentSegment(tb: Buffer): (r: Returned)
    requires Valid(tb)
    ensures Valid(r.buffer) && !Shared(r.buffer) && r.buffer.currentSegment == Some(r.chars)
    ensures r.buffer.currentSize < |r.chars|
    ensures Contents(r.buffer) == Contents(tb) && Segmented(r.buffer) == Editable(tb)
    ensures r.buffer.resultString == tb.resultString && r.buffer.resultArray == tb.resultArray
  {
    var t :=
      if Shared(tb) then Unshare(tb, 1)
      else if tb.currentSegment.None? then
        var a := Buf(tb.allocator, 0);
        tb.(currentSegment := Some(a.chars), allocator := a.allocator)
      else if tb.currentSize >= |tb.currentSegment.value| then Expand(tb)
      else tb;
    Returned(t.currentSegment.value, t)
  }

  /** emptyAndGetCurrentSegment: resetWithEmpty, then the (possibly newly
      allocated) current segment, to be filled from its start. */
  function EmptyAndGetCurrentSegment(tb: Buffer): (r: Returned)
    requires Valid(tb)
    ensures Valid(r.buffer) && !Shared(r.buffer) && Contents(r.buffer) == []
    ensures r.buffer.currentSegment == Some(r.chars) && |r.chars| > 0 && r.buffer.currentSize == 0
    ensures r.buffer.resultString.None? && r.buffer.resultArray.None? && r.buffer.segments == []
  {
    var t := ResetWithEmpty(tb);
    if t.currentSegment.None? then
      var a := Buf(t.allocator, 0);
      Returned(a.chars, t.(currentSegment := Some(a.chars), allocator := a.allocator))
    else Returned(t.currentSegment.value, t)
  }

  /** setCurrentLength: the caller has filled the first `len` chars of the
      current segment. */
  function SetCurrentLength(tb: Buffer, len: nat): (r: Buffer)
    requires Valid(tb) && !Shared(tb) && tb.currentSegment.Some? && len <= |tb.currentSegment.value|
    ensures Valid(r) && Segmented(r) == Flatten(tb.segments) + tb.currentSegment.value[..len]
    ensures r.resultString == tb.resultString && r.resultArray == tb.resultArray
  {
    tb.(currentSize := len)
  }

  /** finishCurrentSegment: the caller has filled the whole current segment;
      it joins the list and the next, longer one is handed out. */
  function FinishCurrentSegment(tb: Buffer): (r: Result<Returned>)
    requires Valid(tb) && !Shared(tb)
    ensures r.Failure? <==> tb.currentSegment.None?
    ensures r.Failure? ==> r.error == NullReference
    ensures r.Success? ==> Valid(r.value.buffer) && r.value.buffer.currentSegment == Some(r.value.chars)
    ensures r.Success? ==> Segmented(r.value.buffer) == Flatten(tb.segments) + tb.currentSegment.value
    ensures r.Success? ==> |r.value.chars| == NextSegmentLength(|tb.currentSegment.value|)
    ensures r.Success? ==> r.value.buffer.currentSize == 0
  {
    if tb.currentSegment.None? then Failure(NullReference)
    else
      var t := Expand(tb);
      Success(Returned(t.currentSegment.value, t))
  }

  /** The caller's stores into the array that getCurrentSegment,
      emptyAndGetCurrentSegment or finishCurrentSegment handed out, as
      `outBuf[outPtr++] = c` does.  That array is the buffer's own
      `_currentSegment`, so the chars land in the current segment at `at`;
      the committed length is left to setCurrentLength. */
  function StoreInSegment(tb: Buffer, at: nat, cs: Chars): (r: Buffer)
    requires Valid(tb) && !Shared(tb) && tb.currentSegment.Some?
    requires at + |cs| <= |tb.currentSegment.value|
    ensures Valid(r) && !Shared(r) && r.currentSegment.Some?
    ensures |r.currentSegment.value| == |tb.currentSegment.value|
    ensures r.currentSegment.value[at..at + |cs|] == cs
    ensures forall i :: 0 <= i < |tb.currentSegment.value| && !(at <= i < at + |cs|) ==>
      r.currentSegment.value[i] == tb.currentSegment.value[i]
    ensures r == tb.(currentSegment := r.currentSegment)
  {
    var seg := tb.currentSegment.value;
    var stored := seg[..at] + cs + seg[at + |cs|..];
    assert stored[at..at + |cs|] == cs;
    tb.(currentSegment := Some(stored))
  }

  /** Filling the segment emptyAndGetCurrentSegment hands out and then
      committing the filled length makes exactly the stored chars the text. */
  lemma FillAndCommit(tb: Buffer, filled: Chars)
    requires Valid(tb) && |filled| <= |EmptyAndGetCurrentSegment(tb).chars|
    ensures var e := EmptyAndGetCurrentSegment(tb);
      var f := SetCurrentLength(StoreInSegment(e.buffer, 0, filled), |filled|);
      Contents(f) == filled && ContentsAsString(f).chars == filled && Size(f) == |filled|
  {
    var e := EmptyAndGetCurrentSegment(tb);
    var t := StoreInSegment(e.buffer, 0, filled);
    assert t.currentSegment.value[..|filled|] == filled;
  }

  /** Storing after the filled part of the current segment and committing
      the new length appends the stored chars to the text. */
  lemma CommitAfterStore(u: Buffer, cs: Chars)
    requires Valid(u) && !Shared(u) && u.currentSegment.Some?
    requires u.resultString.None? && u.resultArray.None?
    requires u.currentSize + |cs| <= |u.currentSegment.value|
    ensures Contents(SetCurrentLength(StoreInSegment(u, u.currentSize, cs), u.currentSize + |cs|)) == Segmented(u) + cs
  {
    var p := u.currentSize;
    var t := StoreInSegment(u, p, cs);
    assert t.currentSegment.value[..p + |cs|] == u.currentSegment.value[..p] + cs;
  }

  /** Storing after the existing text in the segment getCurrentSegment hands
      out, and committing the new length, appends the stored chars. */
  lemma StoreAtEndAppends(tb: Buffer, cs: Chars)
    requires Valid(tb) && tb.resultString.None? && tb.resultArray.None?
    requires var g := GetCurrentSegment(tb); g.buffer.currentSize + |cs| <= |g.chars|
    ensures var g := GetCurrentSegment(tb);
      var p := g.buffer.currentSize;
      Contents(SetCurrentLength(StoreInSegment(g.buffer, p, cs), p + |cs|)) == Editable(tb) + cs
  {
    CommitAfterStore(GetCurrentSegment(tb).buffer, cs);
  }

  /** A segment filled to its end and finished, followed by a second fill of
      the next segment and a commit, gives both runs in order: the pattern
      of a number or string that outgrows its first segment. */
  lemma FillFinishFill(tb: Buffer, a: Chars, b: Chars)
    requires Valid(tb) && |a| == |EmptyAndGetCurrentSegment(tb).chars|
    requires |b| <= NextSegmentLength(|a|)
    ensures var t := StoreInSegment(EmptyAndGetCurrentSegment(tb).buffer, 0, a);
      && FinishCurrentSegment(t).Success?
      && var n := FinishCurrentSegment(t).value;
         |n.chars| == NextSegmentLength(|a|)
         && Contents(SetCurrentLength(StoreInSegment(n.buffer, 0, b), |b|)) == a + b
  {
    var e := EmptyAndGetCurrentSegment(tb);
    var t := StoreInSegment(e.buffer, 0, a);
    assert t.currentSegment.value == a by { assert t.currentSegment.value[0..|a|] == a; }
    var n := FinishCurrentSegment(t).value;
    assert Segmented(n.buffer) == a;
    var u := StoreInSegment(n.buffer, 0, b);
    assert u.currentSegment.value[..|b|] == b;
    assert Flatten(u.segments) == a;
  }

  /** expandCurrentSegment(): the current segment copied into one half as
      long again, or a quarter once that would pass MAX_SEGMENT_LEN. */
  function ExpandCurrentSegment(tb: Buffer): (r: Result<Returned>)
    requires Valid(tb)
    ensures r.Failure? <==> tb.currentSegment.None?
    ensures r.Success? ==> Valid(r.value.buffer) && r.value.buffer.currentSegment == Some(r.value.chars)
    ensures r.Success? ==>
      var prev := tb.currentSegment.value;
      && |prev| <= |r.value.chars| && r.value.chars[..|prev|] == prev
      && (|prev| + |prev| / 2 <= MAX_SEGMENT_LEN ==> |r.value.chars| == |prev| + |prev| / 2)
      && (|prev| + |prev| / 2 > MAX_SEGMENT_LEN ==> |r.value.chars| == |prev| + |prev| / 4)
    ensures r.Success? ==> Contents(r.value.buffer) == Contents(tb)
  {
    if tb.currentSegment.None? then Failure(NullReference)
    else
      var curr := tb.currentSegment.value;
      var len := |curr|;
      var newLen := if len + len / 2 > MAX_SEGMENT_LEN then len + len / 4 else len + len / 2;
      var grown := curr + Fill(newLen - len, 0);
      assert grown[..len] == curr;
      assert grown[..tb.currentSize] == curr[..tb.currentSize];
      Success(Returned(grown, tb.(currentSegment := Some(grown))))
  }

  /** expandCurrentSegment(minSize): at least `minSize` long, content kept. */
  function ExpandCurrentSegmentTo(tb: Buffer, minSize: int): (r: Result<Returned>)
    requires Valid(tb)
    ensures r.Failure? <==> tb.currentSegment.None?
    ensures r.Success? ==> Valid(r.value.buffer) && r.value.buffer.currentSegment == Some(r.value.chars)
    ensures r.Success? ==>
      var prev := tb.currentSegment.value;
      && |r.value.chars| >= minSize && |prev| <= |r.value.chars| && r.value.chars[..|prev|] == prev
      && (|prev| >= minSize ==> r.value.chars == prev)
    ensures r.Success? ==> Contents(r.value.buffer) == Contents(tb)
  {
    if tb.currentSegment.None? then Failure(NullReference)
    else
      var curr := tb.currentSegment.value;
      if |curr| >= minSize then Success(Returned(curr, tb))
      else
        var grown := curr + Fill(minSize - |curr|, 0);
        assert grown[..|curr|] == curr;
        assert grown[..tb.currentSize] == curr[..tb.currentSize];
        Success(Returned(grown, tb.(currentSegment := Some(grown))))
  }

  /** releaseBuffers: with a recycler the current segment goes back to it;
      without one, or when there is no segment to return, the text is
      cleared or, with a recycler and no segment, left alone. */
  function ReleaseBuffers(tb: Buffer): (r: Buffer)
    requires Valid(tb)
    ensures Valid(r)
    ensures tb.allocator.None? || tb.currentSegment.Some? ==> Contents(r) == [] && !Shared(r)
    ensures tb.allocator.Some? && tb.currentSegment.Some? ==>
      r.currentSegment.None? && r.allocator.Some? &&
      r.allocator.value.charBuffers[BR.CHAR_TEXT_BUFFER] == tb.currentSegment
    ensures tb.allocator.Some? && tb.currentSegment.None? ==> r == tb
  {
    if tb.allocator.None? then ResetWithEmpty(tb)
    else if tb.currentSegment.Some? then
      var t := ResetWithEmpty(tb);
      var released := BR.ReleaseCharBuffer(tb.allocator.value, BR.CHAR_TEXT_BUFFER, tb.currentSegment.value);
      t.(currentSegment := None, allocator := Some(released))
    else tb
  }

  // ---------------------------------------------------------------------
  // Properties relating several operations

  /** Reading the text as a string twice gives the same text, and the
      second read is served from the cache. */
  lemma ContentsAsStringIdempotent(tb: Buffer)
    requires Valid(tb)
    ensures var r := ContentsAsString(tb);
      ContentsAsString(r.buffer) == Returned(r.chars, r.buffer)
  {
  }

  /** A copied slice reads back as itself, as a string and as an array, and
      so does a shared one. */
  lemma ResetThenRead(tb: Buffer, buf: Chars, start: nat, len: nat)
    requires Valid(tb) && start + len <= |buf|
    ensures ContentsAsString(ResetWithCopy(tb, buf[start..start + len])).chars == buf[start..start + len]
    ensures ContentsAsString(ResetWithShared(tb, buf, start, len)).chars == buf[start..start + len]
    ensures ContentsAsArray(ResetWithShared(tb, buf, start, len)).chars == buf[start..start + len]
    ensures Size(ResetWithShared(tb, buf, start, len)) == len
  {
  }

  /** Appending to a shared buffer first makes the slice private, so the
      text continues the slice. */
  lemma AppendToShared(tb: Buffer, buf: Chars, start: nat, len: nat, cs: Chars)
    requires Valid(tb) && start + len <= |buf|
    ensures Append(ResetWithShared(tb, buf, start, len), cs).Success?
    ensures Contents(Append(ResetWithShared(tb, buf, start, len), cs).value) == buf[start..start + len] + cs
  {
  }

  /** Two appends in a row are one append of both runs. */
  lemma AppendAppend(tb: Buffer, a: Chars, b: Chars)
    requires Valid(tb) && Append(tb, a).Success?
    ensures Append(Append(tb, a).value, b).Success? && Append(tb, a + b).Success?
    ensures Contents(Append(Append(tb, a).value, b).value) == Contents(Append(tb, a + b).value)
  {
    var x := Append(tb, a).value;
    assert Editable(x) == Contents(x) == Editable(tb) + a;
    var y := Append(x, b);
    assert y.Success? && Contents(y.value) == Editable(tb) + a + b;
    var z := Append(tb, a + b);
    assert z.Success? && Contents(z.value) == Editable(tb) + (a + b);
    Regroup(Editable(tb), a, b);
  }
}
