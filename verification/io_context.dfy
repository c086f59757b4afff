/** Buffer ownership of one parser or generator (IOContext).

  A context owns at most one buffer of each kind at a time.  Allocating a
  kind it already owns is refused; releasing checks that the buffer handed
  back is the owned one, or at least a larger replacement, and then returns
  it to the recycler.  Array identity matters to that check, so a buffer is
  modelled as a reference: a number that tells allocations apart, with the
  contents.  Each allocation draws a new number from the context.
 */
module IOContext {
  import opened Ints
  import opened Wrappers
  import BR = BufferRecycler

  /** The byte buffers a context hands out. */
  datatype ByteKind = ReadIO | WriteEncoding | Base64

  /** The char buffers a context hands out. */
  datatype CharKind = Token | Concat | NameCopy

  /** The recycler slot of each kind. */
  function ByteSlot(k: ByteKind): (ix: nat)
    ensures ix < 4
  {
    match k
    case ReadIO => BR.BYTE_READ_IO_BUFFER
    case WriteEncoding => BR.BYTE_WRITE_ENCODING_BUFFER
    case Base64 => BR.BYTE_BASE64_CODEC_BUFFER
  }

  function CharSlot(k: CharKind): (ix: nat)
    ensures ix < 4
  {
    match k
    case Token => BR.CHAR_TOKEN_BUFFER
    case Concat => BR.CHAR_CONCAT_BUFFER
    case NameCopy => BR.CHAR_NAME_COPY_BUFFER
  }

  /** An array reference: its identity and its contents. */
  datatype Ref<T> = Ref(id: nat, items: seq<T>)

  datatype Context = Context(
    recycler: BR.Recycler,
    nextId: nat,
    ownedBytes: map<ByteKind, Ref<byte>>,
    ownedChars: map<CharKind, Ref<unit16>>)

  predicate Valid(ctx: Context)
  {
    BR.Valid(ctx.recycler)
  }

  /** A new context owns nothing. */
  function New(recycler: BR.Recycler): (ctx: Context)
    requires BR.Valid(recycler)
    ensures Valid(ctx) && ctx.ownedBytes == map[] && ctx.ownedChars == map[]
  {
    Context(recycler, 0, map[], map[])
  }

  datatype Grant<T> = Grant(buffer: Ref<T>, context: Context)

  /** _verifyAlloc: refused when the kind is already owned. */
  function VerifyAlloc<K, T>(owned: map<K, T>, k: K): (r: Outcome)
    ensures r.Pass? <==> k !in owned
    ensures r.Fail? ==> r.error.IllegalState?
  {
    if k in owned then Fail(IllegalState("Trying to call same allocXxx() method second time")) else Pass
  }

  /** _verifyRelease: refused when the buffer is neither the owned one nor
      longer than it.  Nothing owned means no array to compare against. */
  function VerifyRelease<T>(toRelease: Ref<T>, src: Option<Ref<T>>): (r: Outcome)
    ensures r.Pass? <==> src.Some? && (toRelease.id == src.value.id || |toRelease.items| > |src.value.items|)
    ensures src.None? ==> r == Fail(NullReference)
    ensures src.Some? && r.Fail? ==> r.error.IllegalArgument?
  {
    if src.None? then Fail(NullReference)
    else if toRelease.id != src.value.id && |toRelease.items| <= |src.value.items| then
      Fail(IllegalArgument("Trying to release buffer not owned by the context"))
    else Pass
  }

  function Lookup<K, T>(owned: map<K, T>, k: K): Option<T>
  {
    if k in owned then Some(owned[k]) else None
  }

  /** allocReadIOBuffer, allocWriteEncodingBuffer and allocBase64Buffer; the
      overloads without a minimum size pass 0. */
  function AllocBytes(ctx: Context, k: ByteKind, minSize: int): (r: Result<Grant<byte>>)
    requires Valid(ctx)
    ensures r.Failure? <==> k in ctx.ownedBytes
    ensures r.Failure? ==> r.error.IllegalState?
    ensures r.Success? ==>
      var g := r.value;
      && Valid(g.context)
      && g.context.ownedBytes == ctx.ownedBytes[k := g.buffer]
      && g.context.ownedChars == ctx.ownedChars
      && |g.buffer.items| >= minSize && |g.buffer.items| >= BR.BYTE_BUFFER_LENGTHS[ByteSlot(k)]
      && g.buffer.id == ctx.nextId < g.context.nextId
  {
    match VerifyAlloc(ctx.ownedBytes, k)
    case Fail(e) => Failure(e)
    case Pass =>
      var (items, recycler) := BR.AllocByteBuffer(ctx.recycler, ByteSlot(k), minSize);
      var buffer := Ref(ctx.nextId, items);
      Success(Grant(buffer, ctx.(recycler := recycler, nextId := ctx.nextId + 1,
                                 ownedBytes := ctx.ownedBytes[k := buffer])))
  }

  /** allocTokenBuffer, allocConcatBuffer and allocNameCopyBuffer. */
  function AllocChars(ctx: Context, k: CharKind, minSize: int): (r: Result<Grant<unit16>>)
    requires Valid(ctx)
    ensures r.Failure? <==> k in ctx.ownedChars
    ensures r.Failure? ==> r.error.IllegalState?
    ensures r.Success? ==>
      var g := r.value;
      && Valid(g.context)
      && g.context.ownedChars == ctx.ownedChars[k := g.buffer]
      && g.context.ownedBytes == ctx.ownedBytes
      && |g.buffer.items| >= minSize && |g.buffer.items| >= BR.CHAR_BUFFER_LENGTHS[CharSlot(k)]
      && g.buffer.id == ctx.nextId < g.context.nextId
  {
    match VerifyAlloc(ctx.ownedChars, k)
    case Fail(e) => Failure(e)
    case Pass =>
      var (items, recycler) := BR.AllocCharBuffer(ctx.recycler, CharSlot(k), minSize);
      var buffer := Ref(ctx.nextId, items);
      Success(Grant(buffer, ctx.(recycler := recycler, nextId := ctx.nextId + 1,
                                 ownedChars := ctx.ownedChars[k := buffer])))
  }

  /** releaseReadIOBuffer, releaseWriteEncodingBuffer, releaseBase64Buffer:
      null is ignored; otherwise the buffer is verified, the kind is no
      longer owned and the recycler keeps the buffer. */
  function ReleaseBytes(ctx: Context, k: ByteKind, buf: Option<Ref<byte>>): (r: Result<Context>)
    requires Valid(ctx)
    ensures buf.None? ==> r == Success(ctx)
    ensures buf.Some? ==> (r.Success? <==> VerifyRelease(buf.value, Lookup(ctx.ownedBytes, k)).Pass?)
    ensures buf.Some? && r.Success? ==>
      && Valid(r.value)
      && r.value.ownedBytes == ctx.ownedBytes - {k}
      && r.value.ownedChars == ctx.ownedChars
      && r.value.recycler.byteBuffers[ByteSlot(k)] == Some(buf.value.items)
  {
    if buf.None? then Success(ctx)
    else
      match VerifyRelease(buf.value, Lookup(ctx.ownedBytes, k))
      case Fail(e) => Failure(e)
      case Pass =>
        Success(ctx.(ownedBytes := ctx.ownedBytes - {k},
                     recycler := BR.ReleaseByteBuffer(ctx.recycler, ByteSlot(k), buf.value.items)))
  }

  /** releaseTokenBuffer, releaseConcatBuffer, releaseNameCopyBuffer. */
  function ReleaseChars(ctx: Context, k: CharKind, buf: Option<Ref<unit16>>): (r: Result<Context>)
    requires Valid(ctx)
    ensures buf.None? ==> r == Success(ctx)
    ensures buf.Some? ==> (r.Success? <==> VerifyRelease(buf.value, Lookup(ctx.ownedChars, k)).Pass?)
    ensures buf.Some? && r.Success? ==>
      && Valid(r.value)
      && r.value.ownedChars == ctx.ownedChars - {k}
      && r.value.ownedBytes == ctx.ownedBytes
      && r.value.recycler.charBuffers[CharSlot(k)] == Some(buf.value.items)
  {
    if buf.None? then Success(ctx)
    else
      match VerifyRelease(buf.value, Lookup(ctx.ownedChars, k))
      case Fail(e) => Failure(e)
      case Pass =>
        Success(ctx.(ownedChars := ctx.ownedChars - {k},
                     recycler := BR.ReleaseCharBuffer(ctx.recycler, CharSlot(k), buf.value.items)))
  }

  // ---------------------------------------------------------------------
  // The once-and-only-once protocol

  /** A second allocation of the same kind is refused until the first buffer
      is released; after the release the same kind can be allocated again,
      and it is the released buffer's contents that come back. */
  lemma AllocReleaseAlloc(ctx: Context, k: CharKind, minSize: int)
    requires Valid(ctx) && k !in ctx.ownedChars
    ensures var g := AllocChars(ctx, k, minSize).value;
      && AllocChars(g.context, k, minSize).Failure?
      && ReleaseChars(g.context, k, Some(g.buffer)).Success?
      && var c := ReleaseChars(g.context, k, Some(g.buffer)).value;
         AllocChars(c, k, minSize).Success? && AllocChars(c, k, minSize).value.buffer.items == g.buffer.items
  {
    var g := AllocChars(ctx, k, minSize).value;
    var c := ReleaseChars(g.context, k, Some(g.buffer)).value;
    BR.ReleaseThenAllocChar(g.context.recycler, CharSlot(k), g.buffer.items, minSize);
  }

  /** Releasing the same buffer twice is refused the second time: the kind
      is no longer owned. */
  lemma ReleaseTwiceFails(ctx: Context, k: ByteKind, minSize: int)
    requires Valid(ctx) && k !in ctx.ownedBytes
    ensures var g := AllocBytes(ctx, k, minSize).value;
      var c := ReleaseBytes(g.context, k, Some(g.buffer));
      c.Success? && ReleaseBytes(c.value, k, Some(g.buffer)) == Failure(NullReference)
  {
  }

  /** A buffer other than the owned one is accepted back exactly when it is
      longer, which lets a caller hand back an enlarged copy. */
  lemma ReleaseReplacement(ctx: Context, k: CharKind, owned: Ref<unit16>, other: Ref<unit16>)
    requires Valid(ctx) && Lookup(ctx.ownedChars, k) == Some(owned) && other.id != owned.id
    ensures ReleaseChars(ctx, k, Some(other)).Success? <==> |other.items| > |owned.items|
  {
  }
}
