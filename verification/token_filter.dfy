/** Token filters (TokenFilter, JsonPointerBasedFilter).

  The model has the two filters the library itself builds: INCLUDE_ALL, the
  base filter that includes everything, and the filter that follows one
  JSON Pointer.  Asking a filter about a property or an array element gives
  the filter for what lies below it, or null when nothing below is wanted.
 */
module TokenFilter {
  import opened Ints
  import opened Wrappers
  import opened JsonPointer

  datatype Filter =
    | IncludeAll
    | PointerBased(pathToMatch: Pointer)

  /** new JsonPointerBasedFilter(ptrExpr): compiles the expression first. */
  function FromExpression(ptrExpr: Option<seq<unit16>>): (r: Result<Filter>)
    ensures r.Success? <==> Compile(ptrExpr).Success?
    ensures r.Success? ==> r.value == PointerBased(Compile(ptrExpr).value)
  {
    var p :- Compile(ptrExpr);
    Success(PointerBased(p))
  }

  /** What is left to match below a step: nothing (null), the whole subtree
      when the pointer is used up, or a filter on the remaining pointer. */
  function Below(next: Option<Pointer>): (r: Option<Filter>)
    ensures r.None? <==> next.None?
    ensures r == Some(IncludeAll) <==> next == Some(Empty)
  {
    if next.None? then None
    else if Matches(next.value) then Some(IncludeAll)
    else Some(PointerBased(next.value))
  }

  /** includeProperty: the base filter answers itself; the pointer filter
      steps into the property it names. */
  function IncludeProperty(f: Filter, name: seq<unit16>): (r: Option<Filter>)
    ensures f.IncludeAll? ==> r == Some(IncludeAll)
    ensures f.PointerBased? ==> (r.Some? <==> MatchesProperty(f.pathToMatch, name))
    ensures f.PointerBased? && r.Some? ==> (r.value.IncludeAll? <==> f.pathToMatch.next.Empty?)
  {
    match f
    case IncludeAll => Some(f)
    case PointerBased(path) => Below(MatchProperty(path, name))
  }

  /** includeElement: the same for array indices. */
  function IncludeElement(f: Filter, index: int): (r: Option<Filter>)
    ensures f.IncludeAll? ==> r == Some(IncludeAll)
    ensures f.PointerBased? ==> (r.Some? <==> MatchesElement(f.pathToMatch, index))
    ensures f.PointerBased? && r.Some? ==> (r.value.IncludeAll? <==> f.pathToMatch.next.Empty?)
  {
    match f
    case IncludeAll => Some(f)
    case PointerBased(path) => Below(MatchElement(path, index))
  }

  /** includeRootValue: neither filter looks at the root index. */
  function IncludeRootValue(f: Filter, index: int): (r: Option<Filter>)
    ensures r == Some(f)
  {
    Some(f)
  }

  /** filterStartArray / filterStartObject: both filters keep themselves. */
  function FilterStart(f: Filter): (r: Filter)
    ensures r == f
  {
    f
  }

  /** _includeScalar, the answer of includeValue, includeString and the other
      scalar checks: the base filter includes every scalar; the pointer
      filter only once its pointer is used up. */
  predicate IncludeScalar(f: Filter)
  {
    match f
    case IncludeAll => true
    case PointerBased(path) => Matches(path)
  }

  /** Following a path of property names from a filter. */
  function FollowNames(f: Filter, names: seq<seq<unit16>>): (r: Option<Filter>)
    decreases |names|
  {
    if |names| == 0 then Some(f)
    else
      match IncludeProperty(f, names[0])
      case None => None
      case Some(g) => FollowNames(g, names[1..])
  }

  /** INCLUDE_ALL stays INCLUDE_ALL whatever path is followed. */
  lemma {:induction false} IncludeAllKeeps(names: seq<seq<unit16>>)
    ensures FollowNames(IncludeAll, names) == Some(IncludeAll)
    decreases |names|
  {
    if |names| > 0 {
      IncludeAllKeeps(names[1..]);
    }
  }

  /** The pointer filter for the names `segs` leads, along exactly those
      names, to INCLUDE_ALL, under which every scalar is included. */
  lemma {:induction false} PathLeadsToIncludeAll(segs: seq<seq<unit16>>)
    requires |segs| > 0
    ensures FollowNames(PointerBased(Compile(Some(Join(segs))).value), segs) == Some(IncludeAll)
    decreases |segs|
  {
    var p := Compile(Some(Join(segs))).value;
    MatchFirstName(segs);
    var rest := Compile(Some(Join(segs[1..]))).value;
    assert MatchProperty(p, segs[0]) == Some(rest);
    if |segs| == 1 {
      assert rest == Empty;
      assert segs[1..] == [];
    } else {
      CompileJoin(segs[1..]);
      assert rest.Segment?;
      assert Join(segs[1..]) == AsString(rest);
      assert Compile(Some(Join(segs[1..]))) == Success(rest);
      PathLeadsToIncludeAll(segs[1..]);
    }
  }

  /** A name other than the pointer's first one excludes the property. */
  lemma OtherNameExcluded(segs: seq<seq<unit16>>, name: seq<unit16>)
    requires |segs| > 0 && name != segs[0]
    ensures IncludeProperty(PointerBased(Compile(Some(Join(segs))).value), name).None?
  {
    CompileJoin(segs);
  }

  /** A pointer filter includes exactly the element whose index its segment
      names in canonical decimal. */
  lemma ElementSelection(p: Pointer, k: int)
    requires p.Segment? && p.index == ParseIndex(p.property)
    ensures IncludeElement(PointerBased(p), k).Some? <==>
      (0 <= k <= MAX_INT && p.property == DecimalUnits(k))
  {
    ElementMatchIff(p, k);
  }
}
