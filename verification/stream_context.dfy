/** What every nesting context shares (JsonStreamContext): its kind, as
  the integer constants ROOT, ARRAY and OBJECT, and the index of its current
  entry, -1 before the first one.
 */
module StreamContext {

  const TYPE_ROOT: int := 0
  const TYPE_ARRAY: int := 1
  const TYPE_OBJECT: int := 2

  predicate InArray(kind: int) { kind == TYPE_ARRAY }
  predicate InRoot(kind: int) { kind == TYPE_ROOT }
  predicate InObject(kind: int) { kind == TYPE_OBJECT }

  /** getTypeDesc: the name of the kind, "?" for an unknown one. */
  function TypeDesc(kind: int): (d: string)
    ensures d == "?" <==> !(InRoot(kind) || InArray(kind) || InObject(kind))
  {
    if kind == TYPE_ROOT then "ROOT"
    else if kind == TYPE_ARRAY then "ARRAY"
    else if kind == TYPE_OBJECT then "OBJECT"
    else "?"
  }

  /** getEntryCount: the number of entries seen so far. */
  function EntryCount(index: int): (n: int)
    ensures index >= -1 ==> n >= 0
    ensures n - 1 == index
  {
    index + 1
  }

  /** getCurrentIndex: the index, never negative. */
  function CurrentIndex(index: int): (i: int)
    ensures i >= 0
    ensures index >= 0 ==> i == index
    ensures index < 0 ==> i == 0
  {
    if index < 0 then 0 else index
  }

  /** For each of the three kinds exactly one of the tests holds, and the
      description tells the kinds apart. */
  lemma KindsExclusive(kind: int)
    requires 0 <= kind <= 2
    ensures (InRoot(kind) ==> !InArray(kind) && !InObject(kind))
    ensures (InArray(kind) ==> !InObject(kind))
    ensures InRoot(kind) || InArray(kind) || InObject(kind)
    ensures forall other :: 0 <= other <= 2 && TypeDesc(other) == TypeDesc(kind) ==> other == kind
  {
  }
}
