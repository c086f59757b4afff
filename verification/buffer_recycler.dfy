/** Per-thread buffer reuse (BufferRecycler).

  The recycler keeps at most one released buffer per slot.  Allocating from
  a slot hands out the kept buffer when it is large enough, emptying the
  slot, and otherwise a fresh buffer of the requested size, but never smaller
  than the slot's default length.
 */
module BufferRecycler {
  import opened Ints
  import opened Wrappers

  const BYTE_READ_IO_BUFFER: nat := 0
  const BYTE_WRITE_ENCODING_BUFFER: nat := 1
  const BYTE_WRITE_CONCAT_BUFFER: nat := 2
  const BYTE_BASE64_CODEC_BUFFER: nat := 3

  const CHAR_TOKEN_BUFFER: nat := 0
  const CHAR_CONCAT_BUFFER: nat := 1
  const CHAR_TEXT_BUFFER: nat := 2
  const CHAR_NAME_COPY_BUFFER: nat := 3

  const BYTE_BUFFER_LENGTHS: seq<nat> := [8000, 8000, 2000, 2000]
  const CHAR_BUFFER_LENGTHS: seq<nat> := [4000, 4000, 200, 200]

  datatype Recycler = Recycler(byteBuffers: seq<Option<seq<byte>>>, charBuffers: seq<Option<seq<unit16>>>)

  predicate Valid(r: Recycler)
  {
    |r.byteBuffers| == |BYTE_BUFFER_LENGTHS| && |r.charBuffers| == |CHAR_BUFFER_LENGTHS|
  }

  /** A new recycler: four empty byte slots and four empty char slots. */
  function New(): (r: Recycler)
    ensures Valid(r)
    ensures forall ix :: 0 <= ix < 4 ==> r.byteBuffers[ix].None? && r.charBuffers[ix].None?
  {
    Recycler([None, None, None, None], [None, None, None, None])
  }

  datatype Taken<T> = Taken(buffer: seq<T>, slots: seq<Option<seq<T>>>)

  /** The allocation rule shared by both kinds of slot. */
  function Take<T>(slots: seq<Option<seq<T>>>, ix: nat, minSize: int, defSize: nat, zero: T): (t: Taken<T>)
    requires ix < |slots|
    ensures |t.slots| == |slots|
    ensures |t.buffer| >= minSize && |t.buffer| >= defSize
    ensures forall j :: 0 <= j < |slots| && j != ix ==> t.slots[j] == slots[j]
    ensures slots[ix].Some? && |slots[ix].value| >= minSize && |slots[ix].value| >= defSize ==>
      t.buffer == slots[ix].value && t.slots[ix].None?
    ensures !(slots[ix].Some? && |slots[ix].value| >= minSize && |slots[ix].value| >= defSize) ==>
      t.slots == slots && |t.buffer| == (if minSize < defSize then defSize else minSize)
  {
    var size: nat := if minSize < defSize then defSize else minSize;
    var kept := slots[ix];
    if kept.None? || |kept.value| < size then Taken(seq(size, _ => zero), slots)
    else Taken(kept.value, slots[ix := None])
  }

  /** allocByteBuffer(ix, minSize). */
  function AllocByteBuffer(r: Recycler, ix: nat, minSize: int): (t: (seq<byte>, Recycler))
    requires Valid(r) && ix < 4
    ensures Valid(t.1) && t.1.charBuffers == r.charBuffers
    ensures |t.0| >= minSize && |t.0| >= BYTE_BUFFER_LENGTHS[ix]
  {
    var taken := Take(r.byteBuffers, ix, minSize, BYTE_BUFFER_LENGTHS[ix], 0);
    (taken.buffer, r.(byteBuffers := taken.slots))
  }

  /** releaseByteBuffer: the buffer replaces whatever the slot held. */
  function ReleaseByteBuffer(r: Recycler, ix: nat, buffer: seq<byte>): (r': Recycler)
    requires Valid(r) && ix < 4
    ensures Valid(r') && r'.byteBuffers[ix] == Some(buffer) && r'.charBuffers == r.charBuffers
    ensures forall j :: 0 <= j < 4 && j != ix ==> r'.byteBuffers[j] == r.byteBuffers[j]
  {
    r.(byteBuffers := r.byteBuffers[ix := Some(buffer)])
  }

  /** allocCharBuffer(ix, minSize). */
  function AllocCharBuffer(r: Recycler, ix: nat, minSize: int): (t: (seq<unit16>, Recycler))
    requires Valid(r) && ix < 4
    ensures Valid(t.1) && t.1.byteBuffers == r.byteBuffers
    ensures |t.0| >= minSize && |t.0| >= CHAR_BUFFER_LENGTHS[ix]
  {
    var taken := Take(r.charBuffers, ix, minSize, CHAR_BUFFER_LENGTHS[ix], 0);
    (taken.buffer, r.(charBuffers := taken.slots))
  }

  /** releaseCharBuffer. */
  function ReleaseCharBuffer(r: Recycler, ix: nat, buffer: seq<unit16>): (r': Recycler)
    requires Valid(r) && ix < 4
    ensures Valid(r') && r'.charBuffers[ix] == Some(buffer) && r'.byteBuffers == r.byteBuffers
    ensures forall j :: 0 <= j < 4 && j != ix ==> r'.charBuffers[j] == r.charBuffers[j]
  {
    r.(charBuffers := r.charBuffers[ix := Some(buffer)])
  }

  /** A released buffer of at least the default length comes back from the
      next allocation that fits it, and the slot is empty again. */
  lemma ReleaseThenAllocByte(r: Recycler, ix: nat, buffer: seq<byte>, minSize: int)
    requires Valid(r) && ix < 4
    requires |buffer| >= BYTE_BUFFER_LENGTHS[ix] && |buffer| >= minSize
    ensures var (got, r') := AllocByteBuffer(ReleaseByteBuffer(r, ix, buffer), ix, minSize);
      got == buffer && r'.byteBuffers == r.byteBuffers[ix := None]
  {
  }

  /** The same for char buffers. */
  lemma ReleaseThenAllocChar(r: Recycler, ix: nat, buffer: seq<unit16>, minSize: int)
    requires Valid(r) && ix < 4
    requires |buffer| >= CHAR_BUFFER_LENGTHS[ix] && |buffer| >= minSize
    ensures var (got, r') := AllocCharBuffer(ReleaseCharBuffer(r, ix, buffer), ix, minSize);
      got == buffer && r'.charBuffers == r.charBuffers[ix := None]
  {
  }

  /** A buffer shorter than the default is never handed out again: the next
      allocation is a fresh default-sized one. */
  lemma ShortReleaseIgnored(r: Recycler, ix: nat, buffer: seq<unit16>)
    requires Valid(r) && ix < 4 && |buffer| < CHAR_BUFFER_LENGTHS[ix]
    ensures |AllocCharBuffer(ReleaseCharBuffer(r, ix, buffer), ix, 0).0| == CHAR_BUFFER_LENGTHS[ix]
  {
  }
}
