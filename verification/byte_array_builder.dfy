/** A segmented byte buffer (ByteArrayBuilder).

  Content lives in a list of full past blocks followed by the filled prefix
  of the current block; when the current block is full a new one is added,
  half the size of everything so far but at least 1000 and at most 256k
  bytes.  Every append and write is proved to extend `Contents` by exactly
  the bytes given, whichever path (fast or via a new block) it takes.
 */
module ByteArrayBuilder {
  import opened Ints
  import opened Wrappers
  import opened Seqs

  const INITIAL_BLOCK_SIZE: nat := 500
  const MAX_BLOCK_SIZE: nat := 0x4_0000

  datatype Builder = Builder(
    pastBlocks: seq<seq<byte>>,
    pastLen: int,
    currBlock: seq<byte>,
    currBlockPtr: int)

  /** The write position lies inside the current block.  Only
      completeAndCoalesce can move it outside (see there). */
  predicate Valid(b: Builder)
  {
    b.pastLen == |Flatten(b.pastBlocks)| && 0 <= b.currBlockPtr <= |b.currBlock|
  }

  /** Everything appended since the last reset. */
  function Contents(b: Builder): seq<byte>
    requires Valid(b)
  {
    Flatten(b.pastBlocks) + b.currBlock[..b.currBlockPtr]
  }

  /** The byte `(byte)i`: the low eight bits of an int. */
  function LowByte(i: int): (r: byte)
    ensures (r - i) % 256 == 0
  {
    i % 256
  }

  /** The constructor, given the first block: a fresh one of the requested
      size, or the one the buffer recycler hands out. */
  function New(firstBlock: seq<byte>): (b: Builder)
    ensures Valid(b) && Contents(b) == [] && b.currBlock == firstBlock
  {
    Builder([], 0, firstBlock, 0)
  }

  /** The first block of a builder without a recycler: `firstBlockSize`
      zeros; a negative size is refused as `new byte[n]` refuses it. */
  function FreshBlock(firstBlockSize: int): (r: Result<seq<byte>>)
    ensures r.Success? <==> firstBlockSize >= 0
    ensures r.Success? ==> |r.value| == firstBlockSize
  {
    if firstBlockSize < 0 then Failure(Overflow) else Success(Fill(firstBlockSize, 0))
  }

  /** reset: empty, keeping the current block for reuse. */
  function Reset(b: Builder): (r: Builder)
    ensures Valid(r) && Contents(r) == [] && r.currBlock == b.currBlock
  {
    b.(pastLen := 0, currBlockPtr := 0, pastBlocks := [])
  }

  /** The size of the next block: half the total so far, at least twice the
      initial block size, at most the maximum block size. */
  function NextBlockSize(pastLen: int): (n: nat)
    ensures 2 * INITIAL_BLOCK_SIZE <= n <= MAX_BLOCK_SIZE
    ensures 2 * INITIAL_BLOCK_SIZE <= pastLen / 2 <= MAX_BLOCK_SIZE ==> n == pastLen / 2
  {
    var half := pastLen / 2;
    var n := if half > 2 * INITIAL_BLOCK_SIZE then half else 2 * INITIAL_BLOCK_SIZE;
    if n > MAX_BLOCK_SIZE then MAX_BLOCK_SIZE else n
  }

  /** _allocMore: the whole current block joins the past blocks and an empty
      new block begins. */
  function AllocMore(b: Builder): (r: Builder)
    requires Valid(b)
    ensures Valid(r) && r.currBlockPtr == 0
    ensures Flatten(r.pastBlocks) == Flatten(b.pastBlocks) + b.currBlock
    ensures |r.currBlock| == NextBlockSize(r.pastLen) && |r.currBlock| >= 1000
    ensures b.currBlockPtr == |b.currBlock| ==> Contents(r) == Contents(b)
  {
    var pastLen := b.pastLen + |b.currBlock|;
    Builder(b.pastBlocks + [b.currBlock], pastLen, Fill(NextBlockSize(pastLen), 0), 0)
  }

  /** Bytes stored at the write position of a block with room for them. */
  function Put(b: Builder, bytes: seq<byte>): (r: Builder)
    requires Valid(b) && b.currBlockPtr + |bytes| <= |b.currBlock|
    ensures Valid(r) && Contents(r) == Contents(b) + bytes
    ensures r.pastBlocks == b.pastBlocks && |r.currBlock| == |b.currBlock|
  {
    var p := b.currBlockPtr;
    var block := b.currBlock[..p] + bytes + b.currBlock[p + |bytes|..];
    assert block[..p + |bytes|] == b.currBlock[..p] + bytes;
    b.(currBlock := block, currBlockPtr := p + |bytes|)
  }

  /** append: one byte, after opening a new block if the current one is full. */
  function Append(b: Builder, i: int): (r: Builder)
    requires Valid(b)
    ensures Valid(r) && Contents(r) == Contents(b) + [LowByte(i)]
  {
    var c := if b.currBlockPtr >= |b.currBlock| then AllocMore(b) else b;
    Put(c, [LowByte(i)])
  }

  /** appendTwoBytes: the high then the low byte of a 16-bit value, in place
      when two bytes fit and through `append` otherwise. */
  function AppendTwoBytes(b: Builder, b16: int): (r: Builder)
    requires Valid(b)
    ensures Valid(r) && Contents(r) == Contents(b) + [LowByte(b16 / 0x100), LowByte(b16)]
  {
    if b.currBlockPtr + 1 < |b.currBlock| then Put(b, [LowByte(b16 / 0x100), LowByte(b16)])
    else Append(Append(b, b16 / 0x100), b16)
  }

  /** appendThreeBytes: the three low bytes of a 24-bit value, high first. */
  function AppendThreeBytes(b: Builder, b24: int): (r: Builder)
    requires Valid(b)
    ensures Valid(r)
    ensures Contents(r) == Contents(b) + [LowByte(b24 / 0x1_0000), LowByte(b24 / 0x100), LowByte(b24)]
  {
    if b.currBlockPtr + 2 < |b.currBlock| then
      Put(b, [LowByte(b24 / 0x1_0000), LowByte(b24 / 0x100), LowByte(b24)])
    else Append(Append(Append(b, b24 / 0x1_0000), b24 / 0x100), b24)
  }

  /** write(byte[], off, len) of the slice `data`: fill the current block,
      open a new one, and repeat until all is copied. */
  method Write(b: Builder, data: seq<byte>) returns (r: Builder)
    requires Valid(b)
    ensures Valid(r) && Contents(r) == Contents(b) + data
  {
    r := b;
    var off := 0;
    while true
      invariant Valid(r) && off <= |data|
      invariant Contents(r) == Contents(b) + data[..off]
      decreases |data| - off, if r.currBlockPtr < |r.currBlock| then 0 else 1
    {
      var room := |r.currBlock| - r.currBlockPtr;
      var toCopy := if room < |data| - off then room else |data| - off;
      if toCopy > 0 {
        r := Put(r, data[off..off + toCopy]);
        assert data[..off + toCopy] == data[..off] + data[off..off + toCopy];
        off := off + toCopy;
      }
      if off == |data| {
        break;
      }
      r := AllocMore(r);
    }
    assert data[..off] == data;
  }

  datatype Coalesced = Coalesced(bytes: seq<byte>, builder: Builder)

  /** toByteArray: the whole content as one array; nothing at all is
      answered with the shared empty array and leaves the builder alone, and
      otherwise a builder that used more than one block is reset afterwards. */
  function ToByteArray(b: Builder): (r: Coalesced)
    requires Valid(b)
    ensures r.bytes == Contents(b) && Valid(r.builder)
    ensures |b.pastBlocks| > 0 ==> Contents(r.builder) == []
    ensures |b.pastBlocks| == 0 || Contents(b) == [] ==> r.builder == b
  {
    if b.pastLen + b.currBlockPtr == 0 then Coalesced([], b)
    else
      var result := Flatten(b.pastBlocks) + b.currBlock[..b.currBlockPtr];
      Coalesced(result, if |b.pastBlocks| > 0 then Reset(b) else b)
  }

  /** resetAndGetFirstSegment: reset, then hand out the current block; the
      caller's stores into it are StoreInBlock. */
  function ResetAndGetFirstSegment(b: Builder): (r: (seq<byte>, Builder))
    ensures Valid(r.1) && Contents(r.1) == [] && r.0 == b.currBlock == r.1.currBlock
  {
    var c := Reset(b);
    (c.currBlock, c)
  }

  /** finishCurrentSegment: the caller has filled the whole current block;
      it becomes content and a new empty block is handed out. */
  function FinishCurrentSegment(b: Builder): (r: (seq<byte>, Builder))
    requires Valid(b)
    ensures Valid(r.1) && Contents(r.1) == Flatten(b.pastBlocks) + b.currBlock
    ensures r.0 == r.1.currBlock && r.1.currBlockPtr == 0
  {
    var c := AllocMore(b);
    (c.currBlock, c)
  }

  /** completeAndCoalesce: the caller's fill length of the current block
      becomes the write position, unchecked, and then toByteArray runs.  A
      length that cancels the past blocks exactly hits the nothing-aggregated
      shortcut and answers the empty array, leaving that position in place;
      a negative total makes the array allocation throw, and any other length
      outside the block makes the array copy throw. */
  function CompleteAndCoalesce(b: Builder, lastBlockLength: int): (r: Result<Coalesced>)
    requires Valid(b)
    ensures r.Success? <==> b.pastLen + lastBlockLength == 0 || 0 <= lastBlockLength <= |b.currBlock|
    ensures 0 <= lastBlockLength <= |b.currBlock| ==>
      r.Success? && r.value.bytes == Flatten(b.pastBlocks) + b.currBlock[..lastBlockLength]
    ensures b.pastLen + lastBlockLength == 0 ==>
      r == Success(Coalesced([], b.(currBlockPtr := lastBlockLength)))
    ensures b.pastLen + lastBlockLength < 0 ==> r.Failure? && r.error.Overflow?
    ensures b.pastLen + lastBlockLength > 0 && r.Failure? ==> r.error.IllegalArgument?
  {
    var c := b.(currBlockPtr := lastBlockLength);
    if b.pastLen + lastBlockLength == 0 then Success(Coalesced([], c))
    else if b.pastLen + lastBlockLength < 0 then Failure(Overflow)
    else if lastBlockLength < 0 || lastBlockLength > |b.currBlock| then Failure(IllegalArgument("Array.Copy length"))
    else Success(ToByteArray(c))
  }

  /** The caller's stores `outputBuffer[outputPtr++] = b` into the block
      that resetAndGetFirstSegment or finishCurrentSegment handed out: that
      array is the builder's own current block, so the bytes land there,
      and the write position is left alone until completeAndCoalesce. */
  function StoreInBlock(b: Builder, at: nat, bytes: seq<byte>): (r: Builder)
    requires Valid(b) && at + |bytes| <= |b.currBlock|
    ensures Valid(r) && |r.currBlock| == |b.currBlock|
    ensures r.currBlock[at..at + |bytes|] == bytes
    ensures forall i :: 0 <= i < |b.currBlock| && !(at <= i < at + |bytes|) ==>
      r.currBlock[i] == b.currBlock[i]
    ensures r == b.(currBlock := r.currBlock)
  {
    var block := b.currBlock[..at] + bytes + b.currBlock[at + |bytes|..];
    assert block[at..at + |bytes|] == bytes;
    b.(currBlock := block)
  }

  /** Bytes stored after the content of the current block and committed
      with their end as the last block length are appended to the content. */
  lemma CompleteAfterStore(b: Builder, bytes: seq<byte>)
    requires Valid(b) && b.currBlockPtr + |bytes| <= |b.currBlock|
    ensures var r := CompleteAndCoalesce(StoreInBlock(b, b.currBlockPtr, bytes), b.currBlockPtr + |bytes|);
      r.Success? && r.value.bytes == Contents(b) + bytes
  {
    var p := b.currBlockPtr;
    var t := StoreInBlock(b, p, bytes);
    assert t.currBlock[..p + |bytes|] == b.currBlock[..p] + bytes by {
      assert t.currBlock[..p + |bytes|] == t.currBlock[..p] + t.currBlock[p..p + |bytes|];
    }
  }

  /** Bytes that fill the current block to its end, followed by
      finishCurrentSegment, are appended to the content, and writing goes on
      at the start of the next block. */
  lemma FinishAfterStore(b: Builder, bytes: seq<byte>)
    requires Valid(b) && b.currBlockPtr + |bytes| == |b.currBlock|
    ensures var f := FinishCurrentSegment(StoreInBlock(b, b.currBlockPtr, bytes));
      Contents(f.1) == Contents(b) + bytes && f.1.currBlockPtr == 0
      && f.0 == f.1.currBlock && |f.0| == NextBlockSize(f.1.pastLen)
  {
    var p := b.currBlockPtr;
    var t := StoreInBlock(b, p, bytes);
    assert t.currBlock == b.currBlock[..p] + bytes by {
      assert t.currBlock == t.currBlock[..p] + t.currBlock[p..p + |bytes|];
    }
  }

  /** The manual output protocol: resetAndGetFirstSegment, stores from the
      start of the block and completeAndCoalesce with their count give
      exactly the bytes stored. */
  lemma FillAndCoalesce(b: Builder, filled: seq<byte>)
    requires |filled| <= |b.currBlock|
    ensures var c := ResetAndGetFirstSegment(b).1;
      var r := CompleteAndCoalesce(StoreInBlock(c, 0, filled), |filled|);
      r.Success? && r.value.bytes == filled
  {
    CompleteAfterStore(ResetAndGetFirstSegment(b).1, filled);
  }

  /** A first block filled to its end and finished, then the next block
      filled and coalesced, give both runs in order. */
  lemma FillFinishFill(b: Builder, first: seq<byte>, second: seq<byte>)
    requires |first| == |b.currBlock|
    requires |second| <= NextBlockSize(|first|)
    ensures var f := FinishCurrentSegment(StoreInBlock(ResetAndGetFirstSegment(b).1, 0, first));
      |f.0| == NextBlockSize(|first|)
      && var r := CompleteAndCoalesce(StoreInBlock(f.1, 0, second), |second|);
      r.Success? && r.value.bytes == first + second
  {
    var c := ResetAndGetFirstSegment(b).1;
    FinishAfterStore(c, first);
    var f := FinishCurrentSegment(StoreInBlock(c, 0, first));
    assert f.1.pastLen == |first|;
    CompleteAfterStore(f.1, second);
  }

  /** Appending byte by byte and writing all at once build the same content. */
  lemma {:induction false} AppendsAreWrite(b: Builder, data: seq<byte>)
    requires Valid(b)
    ensures Contents(Appends(b, data)) == Contents(b) + data
    decreases |data|
  {
    if |data| > 0 {
      AppendsAreWrite(b, data[..|data| - 1]);
      assert data == data[..|data| - 1] + [data[|data| - 1]];
    }
  }

  /** A run of single-byte appends. */
  function Appends(b: Builder, data: seq<byte>): (r: Builder)
    requires Valid(b)
    ensures Valid(r)
  {
    if |data| == 0 then b else Append(Appends(b, data[..|data| - 1]), data[|data| - 1])
  }
}
