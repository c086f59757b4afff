/** The parser's nesting context (JsonReadContext).

  Besides kind and index, a read context records where its container started
  (line and column) and the current field name; `ExpectComma` both answers
  whether a comma must precede the next entry and counts that entry.
 */
module ReadContext {
  import opened Wrappers
  import opened StreamContext
  import Dup = DupDetector

  datatype ReadCtx = ReadCtx(
    kind: int,
    index: int,
    currentName: Option<Dup.Name>,
    lineNr: int,
    columnNr: int,
    dups: Option<Dup.Detector>,
    parent: Option<ReadCtx>)

  predicate Valid(c: ReadCtx)
  {
    0 <= c.kind <= 2 && c.index >= -1 && (c.dups.Some? ==> Dup.Valid(c.dups.value))
  }

  /** createRootContext(lineNr, colNr, dups). */
  function CreateRootAt(lineNr: int, colNr: int, dups: Option<Dup.Detector>): (c: ReadCtx)
    requires dups.Some? ==> Dup.Valid(dups.value)
    ensures Valid(c) && InRoot(c.kind) && c.index == -1 && c.parent.None?
    ensures c.lineNr == lineNr && c.columnNr == colNr && c.dups == dups
  {
    ReadCtx(TYPE_ROOT, -1, None, lineNr, colNr, dups, None)
  }

  /** createRootContext(dups): the root starts at line 1, column 0. */
  function CreateRoot(dups: Option<Dup.Detector>): (c: ReadCtx)
    requires dups.Some? ==> Dup.Valid(dups.value)
    ensures Valid(c) && InRoot(c.kind) && c.index == -1 && c.lineNr == 1 && c.columnNr == 0
    ensures EntryCount(c.index) == 0
  {
    CreateRootAt(1, 0, dups)
  }

  /** A newly constructed child context. */
  function FreshChild(parent: ReadCtx, kind: int, lineNr: int, colNr: int): (c: ReadCtx)
    requires Valid(parent) && (kind == TYPE_ARRAY || kind == TYPE_OBJECT)
    ensures Valid(c) && c.kind == kind && c.index == -1 && c.currentName.None?
    ensures c.lineNr == lineNr && c.columnNr == colNr && c.parent == Some(parent)
    ensures c.dups.Some? <==> parent.dups.Some?
    ensures c.dups.Some? ==> Dup.Seen(c.dups.value) == {}
  {
    ReadCtx(kind, -1, None, lineNr, colNr,
      if parent.dups.None? then None else Some(Dup.Child(parent.dups.value)), Some(parent))
  }

  /** reset: the reused child is re-kinded, re-positioned and emptied. */
  function Reset(c: ReadCtx, kind: int, lineNr: int, colNr: int): (r: ReadCtx)
    requires Valid(c) && 0 <= kind <= 2
    ensures Valid(r) && r.kind == kind && r.index == -1 && r.currentName.None?
    ensures r.lineNr == lineNr && r.columnNr == colNr && r.parent == c.parent
    ensures r.dups.Some? <==> c.dups.Some?
    ensures r.dups.Some? ==> Dup.Seen(r.dups.value) == {} && r.dups.value.source == c.dups.value.source
  {
    c.(kind := kind, index := -1, lineNr := lineNr, columnNr := colNr, currentName := None,
       dups := if c.dups.None? then None else Some(Dup.Reset(c.dups.value)))
  }

  /** A reused child is indistinguishable from a fresh one. */
  lemma ResetIsFresh(parent: ReadCtx, reused: ReadCtx, kind: int, lineNr: int, colNr: int)
    requires Valid(parent) && Valid(reused) && (kind == TYPE_ARRAY || kind == TYPE_OBJECT)
    requires reused.parent == Some(parent)
    requires reused.dups.Some? <==> parent.dups.Some?
    requires reused.dups.Some? ==> reused.dups.value.source == parent.dups.value.source
    ensures Reset(reused, kind, lineNr, colNr) == FreshChild(parent, kind, lineNr, colNr)
  {
  }

  /** createChildArrayContext / createChildObjectContext given the reuse slot. */
  function CreateChild(parent: ReadCtx, slot: Option<ReadCtx>, kind: int, lineNr: int, colNr: int): (c: ReadCtx)
    requires Valid(parent) && (kind == TYPE_ARRAY || kind == TYPE_OBJECT)
    requires slot.Some? ==> Valid(slot.value)
    ensures Valid(c) && c.kind == kind && c.index == -1 && c.currentName.None?
    ensures c.lineNr == lineNr && c.columnNr == colNr
  {
    if slot.None? then FreshChild(parent, kind, lineNr, colNr) else Reset(slot.value, kind, lineNr, colNr)
  }

  /** expectComma: counts the entry about to be read, and says whether a comma
      precedes it (never at the root, never before the first). */
  function ExpectComma(c: ReadCtx): (r: (bool, ReadCtx))
    requires Valid(c)
    ensures Valid(r.1) && r.1 == c.(index := c.index + 1)
    ensures r.0 <==> !InRoot(c.kind) && c.index >= 0
  {
    var ix := c.index + 1;
    (c.kind != TYPE_ROOT && ix > 0, c.(index := ix))
  }

  /** setCurrentName: records the name; with a detector a repeated name is a
      parse error. */
  function SetCurrentName(c: ReadCtx, name: Dup.Name): (r: Result<ReadCtx>)
    requires Valid(c)
    ensures c.dups.Some? && name in Dup.Seen(c.dups.value) ==> r.Failure? && r.error.ParseFailure?
    ensures (c.dups.None? || name !in Dup.Seen(c.dups.value)) ==> r.Success?
    ensures r.Success? ==> (Valid(r.value) && r.value.currentName == Some(name)
      && r.value.index == c.index && r.value.kind == c.kind
      && (r.value.dups.Some? <==> c.dups.Some?))
    ensures r.Success? && c.dups.Some? ==> Dup.Seen(r.value.dups.value) == Dup.Seen(c.dups.value) + {name}
  {
    if c.dups.None? then Success(c.(currentName := Some(name)))
    else
      var (dup, d) := Dup.IsDup(c.dups.value, name);
      if dup then Failure(ParseFailure("Duplicate field"))
      else Success(c.(currentName := Some(name), dups := Some(d)))
  }

  /** The answers of `n` successive expectComma calls. */
  function Commas(c: ReadCtx, n: nat): (r: (seq<bool>, ReadCtx))
    requires Valid(c)
    ensures |r.0| == n && Valid(r.1)
    decreases n
  {
    if n == 0 then ([], c)
    else
      var (comma, c') := ExpectComma(c);
      var (rest, last) := Commas(c', n - 1);
      ([comma] + rest, last)
  }

  /** After `n` entries read into a fresh context, getEntryCount answers
      `n` and getCurrentIndex the position of the last entry (0 while there
      is none). */
  lemma EntriesCounted(c: ReadCtx, n: nat)
    requires Valid(c) && c.index == -1
    ensures var last := Commas(c, n).1;
      && EntryCount(last.index) == n
      && CurrentIndex(last.index) == (if n == 0 then 0 else n - 1)
  {
    CommasInSequence(c, n);
  }

  /** In a fresh array or object every entry but the first is preceded by a
      comma; at the root none is; the entry count is the number of entries. */
  lemma {:induction false} CommasInSequence(c: ReadCtx, n: nat)
    requires Valid(c)
    ensures var (commas, last) := Commas(c, n);
      && last.index == c.index + n
      && forall i :: 0 <= i < n ==> (commas[i] <==> !InRoot(c.kind) && c.index + i >= 0)
    decreases n
  {
    if n > 0 {
      var (comma, c') := ExpectComma(c);
      CommasInSequence(c', n - 1);
      var rest := Commas(c', n - 1).0;
      assert Commas(c, n).0 == [comma] + rest;
      forall i | 1 <= i < n
        ensures Commas(c, n).0[i] == rest[i - 1]
      {
      }
    }
  }
}
