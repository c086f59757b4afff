/** The generator's nesting context (JsonWriteContext).

  A context knows its kind, the index of its last value, the pending field
  name, and an optional duplicate detector; the status codes it returns tell
  the generator which separator to write before the next token.  The reuse
  of a single child instance is modelled by `Reset`, proved to give the same
  state as a fresh child.
 */
module WriteContext {
  import opened Wrappers
  import opened StreamContext
  import Dup = DupDetector

  const STATUS_OK_AS_IS: int := 0
  const STATUS_OK_AFTER_COMMA: int := 1
  const STATUS_OK_AFTER_COLON: int := 2
  const STATUS_OK_AFTER_SPACE: int := 3
  const STATUS_EXPECT_VALUE: int := 4
  const STATUS_EXPECT_NAME: int := 5

  datatype WriteCtx = WriteCtx(
    kind: int,
    index: int,
    currentName: Option<Dup.Name>,
    gotName: bool,
    dups: Option<Dup.Detector>,
    parent: Option<WriteCtx>)

  predicate Valid(c: WriteCtx)
  {
    0 <= c.kind <= 2 && c.index >= -1 && (c.dups.Some? ==> Dup.Valid(c.dups.value))
  }

  /** createRootContext. */
  function CreateRoot(dd: Option<Dup.Detector>): (c: WriteCtx)
    requires dd.Some? ==> Dup.Valid(dd.value)
    ensures Valid(c) && InRoot(c.kind) && c.index == -1 && c.parent.None? && c.dups == dd
  {
    WriteCtx(TYPE_ROOT, -1, None, false, dd, None)
  }

  /** A newly constructed child of `parent`: empty, with a child detector iff
      the parent has one. */
  function FreshChild(parent: WriteCtx, kind: int): (c: WriteCtx)
    requires Valid(parent) && (kind == TYPE_ARRAY || kind == TYPE_OBJECT)
    ensures Valid(c) && c.kind == kind && c.index == -1 && !c.gotName && c.currentName.None?
    ensures c.parent == Some(parent)
    ensures c.dups.Some? <==> parent.dups.Some?
    ensures c.dups.Some? ==> Dup.Seen(c.dups.value) == {}
  {
    WriteCtx(kind, -1, None, false, if parent.dups.None? then None else Some(Dup.Child(parent.dups.value)), Some(parent))
  }

  /** reset: the reused child takes the new kind and forgets its entries,
      its name and the names its detector saw. */
  function Reset(c: WriteCtx, kind: int): (r: WriteCtx)
    requires Valid(c) && 0 <= kind <= 2
    ensures Valid(r) && r.kind == kind && r.index == -1 && r.currentName.None? && !r.gotName
    ensures r.parent == c.parent && (r.dups.Some? <==> c.dups.Some?)
    ensures r.dups.Some? ==> Dup.Seen(r.dups.value) == {} && r.dups.value.source == c.dups.value.source
  {
    c.(kind := kind, index := -1, currentName := None, gotName := false,
       dups := if c.dups.None? then None else Some(Dup.Reset(c.dups.value)))
  }

  /** Reusing a child of the same parent gives exactly the state a fresh child
      would have, so the reuse slot is invisible. */
  lemma ResetIsFresh(parent: WriteCtx, reused: WriteCtx, kind: int)
    requires Valid(parent) && Valid(reused) && (kind == TYPE_ARRAY || kind == TYPE_OBJECT)
    requires reused.parent == Some(parent)
    requires reused.dups.Some? <==> parent.dups.Some?
    requires reused.dups.Some? ==> reused.dups.value.source == parent.dups.value.source
    ensures Reset(reused, kind) == FreshChild(parent, kind)
  {
  }

  /** createChildArrayContext / createChildObjectContext, given the child
      slot's current occupant, if any. */
  function CreateChild(parent: WriteCtx, slot: Option<WriteCtx>, kind: int): (c: WriteCtx)
    requires Valid(parent) && (kind == TYPE_ARRAY || kind == TYPE_OBJECT)
    requires slot.Some? ==> Valid(slot.value)
    ensures Valid(c) && c.kind == kind && c.index == -1 && !c.gotName && c.currentName.None?
  {
    if slot.None? then FreshChild(parent, kind) else Reset(slot.value, kind)
  }

  datatype Written = Written(status: int, ctx: WriteCtx)

  /** writeFieldName: a second name without a value in between is refused
      with EXPECT_VALUE; otherwise the name is recorded (a repeated one is an
      error when a detector is present) and the status says whether a comma
      is needed. */
  function WriteFieldName(c: WriteCtx, name: Dup.Name): (r: Result<Written>)
    requires Valid(c)
    ensures c.gotName ==> r == Success(Written(STATUS_EXPECT_VALUE, c))
    ensures !c.gotName && c.dups.Some? && name in Dup.Seen(c.dups.value) ==>
      r.Failure? && r.error.GenerationFailure?
    ensures r.Success? && !c.gotName ==> (
      && Valid(r.value.ctx) && r.value.ctx.gotName && r.value.ctx.currentName == Some(name)
      && r.value.ctx.index == c.index && r.value.ctx.kind == c.kind
      && (r.value.status == STATUS_OK_AS_IS <==> c.index < 0)
      && (r.value.status == STATUS_OK_AFTER_COMMA <==> c.index >= 0))
    ensures !c.gotName && (c.dups.None? || name !in Dup.Seen(c.dups.value)) ==> r.Success?
  {
    if c.gotName then Success(Written(STATUS_EXPECT_VALUE, c))
    else
      var c1 := c.(gotName := true, currentName := Some(name));
      if c.dups.Some? && Dup.IsDup(c.dups.value, name).0 then
        Failure(GenerationFailure("Duplicate field"))
      else
        var c2 := if c.dups.None? then c1 else c1.(dups := Some(Dup.IsDup(c.dups.value, name).1));
        Success(Written(if c.index < 0 then STATUS_OK_AS_IS else STATUS_OK_AFTER_COMMA, c2))
  }

  /** writeValue: in an object a value needs a pending name and follows a
      colon; in an array it follows a comma after the first; at the root it
      follows a space after the first. */
  function WriteValue(c: WriteCtx): (r: Written)
    requires Valid(c)
    ensures Valid(r.ctx) && r.ctx.kind == c.kind
    ensures InObject(c.kind) && !c.gotName ==> r == Written(STATUS_EXPECT_NAME, c)
    ensures InObject(c.kind) && c.gotName ==>
      r.status == STATUS_OK_AFTER_COLON && !r.ctx.gotName && r.ctx.index == c.index + 1
    ensures !InObject(c.kind) ==> r.ctx.index == c.index + 1
    ensures InArray(c.kind) ==> r.status == (if c.index < 0 then STATUS_OK_AS_IS else STATUS_OK_AFTER_COMMA)
    ensures InRoot(c.kind) ==> r.status == (if c.index < 0 then STATUS_OK_AS_IS else STATUS_OK_AFTER_SPACE)
  {
    if c.kind == TYPE_OBJECT then
      if !c.gotName then Written(STATUS_EXPECT_NAME, c)
      else Written(STATUS_OK_AFTER_COLON, c.(gotName := false, index := c.index + 1))
    else if c.kind == TYPE_ARRAY then
      var ix := c.index;
      Written(if ix < 0 then STATUS_OK_AS_IS else STATUS_OK_AFTER_COMMA, c.(index := c.index + 1))
    else
      var index := c.index + 1;
      Written(if index == 0 then STATUS_OK_AS_IS else STATUS_OK_AFTER_SPACE, c.(index := index))
  }

  /** The statuses of `n` values written one after another. */
  function WriteValues(c: WriteCtx, n: nat): (r: (seq<int>, WriteCtx))
    requires Valid(c)
    ensures |r.0| == n && Valid(r.1)
    decreases n
  {
    if n == 0 then ([], c)
    else
      var w := WriteValue(c);
      var (rest, last) := WriteValues(w.ctx, n - 1);
      ([w.status] + rest, last)
  }

  /** In an array the first value is written as is and every later one after
      a comma (at the root, after a space); the entry count is the number of
      values. */
  lemma {:induction false} SeparatorsInSequence(c: WriteCtx, n: nat)
    requires Valid(c) && !InObject(c.kind)
    ensures var (statuses, last) := WriteValues(c, n);
      && last.index == c.index + n
      && forall i :: 0 <= i < n ==>
        statuses[i] == (if c.index + i < 0 then STATUS_OK_AS_IS
                        else if InArray(c.kind) then STATUS_OK_AFTER_COMMA
                        else STATUS_OK_AFTER_SPACE)
    decreases n
  {
    if n > 0 {
      var w := WriteValue(c);
      SeparatorsInSequence(w.ctx, n - 1);
      var rest := WriteValues(w.ctx, n - 1).0;
      assert WriteValues(c, n).0 == [w.status] + rest;
      forall i | 1 <= i < n
        ensures WriteValues(c, n).0[i] == rest[i - 1]
      {
      }
    }
  }

  /** After `n` values written into a fresh array or at the root,
      getEntryCount answers `n` and getCurrentIndex the position of the last
      value (0 while there is none). */
  lemma ValuesCounted(c: WriteCtx, n: nat)
    requires Valid(c) && !InObject(c.kind) && c.index == -1
    ensures var last := WriteValues(c, n).1;
      && EntryCount(last.index) == n
      && CurrentIndex(last.index) == (if n == 0 then 0 else n - 1)
  {
    SeparatorsInSequence(c, n);
  }

  /** One object entry: a name then a value, the name after a comma unless it
      is the first, the value after a colon; the index then counts the entry. */
  lemma ObjectEntry(c: WriteCtx, name: Dup.Name)
    requires Valid(c) && InObject(c.kind) && !c.gotName
    requires c.dups.None?
    ensures var r := WriteFieldName(c, name);
      && r.Success?
      && r.value.status == (if c.index < 0 then STATUS_OK_AS_IS else STATUS_OK_AFTER_COMMA)
      && WriteValue(r.value.ctx).status == STATUS_OK_AFTER_COLON
      && WriteValue(r.value.ctx).ctx.index == c.index + 1
      && !WriteValue(r.value.ctx).ctx.gotName
  {
  }
}
