/** The nesting context of a filtering parser or generator
  (TokenFilterContext).

  Besides its kind and entry index a context remembers the filter in force,
  whether its start marker has been handled (read or written), and a field
  name still waiting to be handled.  Contexts hold their parent, so a chain
  of them is the path from the current context to the root.
 */
module FilterContext {
  import opened Wrappers
  import opened StreamContext
  import opened JsonToken
  import opened TokenFilter
  import Dup = DupDetector

  datatype FilterCtx = FilterCtx(
    kind: int,
    parent: Option<FilterCtx>,
    filter: Option<Filter>,
    index: int,
    currentName: Option<Dup.Name>,
    startHandled: bool,
    needToHandleName: bool)

  /** createRootContext: no start marker to handle at the root. */
  function CreateRoot(f: Filter): (c: FilterCtx)
    ensures InRoot(c.kind) && c.parent.None? && c.filter == Some(f)
    ensures c.index == -1 && c.startHandled && !c.needToHandleName && c.currentName.None?
  {
    FilterCtx(TYPE_ROOT, None, Some(f), -1, None, true, false)
  }

  /** createChildArrayContext / createChildObjectContext.  A reused child is
      reset to the same fields a new one gets, so both are this value. */
  function CreateChild(parent: FilterCtx, kind: int, f: Filter, startHandled: bool): (c: FilterCtx)
    requires kind == TYPE_ARRAY || kind == TYPE_OBJECT
    ensures c.kind == kind && c.parent == Some(parent) && c.filter == Some(f)
    ensures c.index == -1 && c.startHandled == startHandled && !c.needToHandleName && c.currentName.None?
  {
    FilterCtx(kind, Some(parent), Some(f), -1, None, startHandled, false)
  }

  datatype Named = Named(filter: Option<Filter>, ctx: FilterCtx)

  /** setFieldName: records the name as pending and answers the filter in
      force; nothing else changes. */
  function SetFieldName(c: FilterCtx, name: Dup.Name): (r: Named)
    ensures r.filter == c.filter
    ensures r.ctx.currentName == Some(name) && r.ctx.needToHandleName
    ensures r.ctx.(currentName := c.currentName, needToHandleName := c.needToHandleName) == c
  {
    Named(c.filter, c.(currentName := Some(name), needToHandleName := true))
  }

  datatype Checked = Checked(filter: Option<Filter>, ctx: FilterCtx)

  /** checkValue: in an object the filter has already seen the name and is
      passed through; in an array the index moves to the next element, which
      the filter is asked about; at the root the filter is asked about the
      next root value. */
  function CheckValue(c: FilterCtx, f: Filter): (r: Checked)
    ensures InObject(c.kind) ==> r == Checked(Some(f), c)
    ensures !InObject(c.kind) ==> r.ctx == c.(index := c.index + 1)
    ensures InArray(c.kind) ==> r.filter == IncludeElement(f, c.index + 1)
    ensures InRoot(c.kind) ==> r.filter == Some(f)
  {
    if c.kind == TYPE_OBJECT then Checked(Some(f), c)
    else
      var ix := c.index + 1;
      var c1 := c.(index := ix);
      if c.kind == TYPE_ARRAY then Checked(IncludeElement(f, ix), c1)
      else Checked(IncludeRootValue(f, ix), c1)
  }

  /** The context after `n` values checked against the same filter. */
  function CheckValues(c: FilterCtx, f: Filter, n: nat): (r: FilterCtx)
    decreases n
  {
    if n == 0 then c else CheckValues(CheckValue(c, f).ctx, f, n - 1)
  }

  /** In an array the value checked after `n` others is asked about as
      element `n` of the array: the index counts the values seen. */
  lemma {:induction false} ArrayCountsElements(c: FilterCtx, f: Filter, n: nat)
    requires InArray(c.kind)
    ensures CheckValues(c, f, n) == c.(index := c.index + n)
    ensures CheckValue(CheckValues(c, f, n), f).filter == IncludeElement(f, c.index + n + 1)
    decreases n
  {
    if n > 0 {
      var c1 := CheckValue(c, f).ctx;
      ArrayCountsElements(c1, f, n - 1);
    }
  }

  datatype Next = Next(token: Option<Token>, ctx: FilterCtx)

  /** nextTokenToRead: the start marker, once, if not yet handled (an object
      start in an object, an array start otherwise); then, in an object, the
      pending field name, once; then nothing. */
  function NextTokenToRead(c: FilterCtx): (r: Next)
    ensures !c.startHandled ==> r.token == Some(if InObject(c.kind) then START_OBJECT else START_ARRAY)
    ensures !c.startHandled ==> r.ctx == c.(startHandled := true)
    ensures c.startHandled && c.needToHandleName && InObject(c.kind) ==>
      r == Next(Some(FIELD_NAME), c.(needToHandleName := false))
    ensures c.startHandled && !(c.needToHandleName && InObject(c.kind)) ==> r == Next(None, c)
  {
    if !c.startHandled then
      Next(Some(if c.kind == TYPE_OBJECT then START_OBJECT else START_ARRAY), c.(startHandled := true))
    else if c.needToHandleName && c.kind == TYPE_OBJECT then
      Next(Some(FIELD_NAME), c.(needToHandleName := false))
    else Next(None, c)
  }

  /** Asked repeatedly, a context hands out at most two tokens and then
      nothing, and asking again once it has said nothing changes nothing. */
  lemma NextTokensSettle(c: FilterCtx)
    ensures var r1 := NextTokenToRead(c);
      var r2 := NextTokenToRead(r1.ctx);
      var r3 := NextTokenToRead(r2.ctx);
      r3 == Next(None, r2.ctx)
    ensures NextTokenToRead(c).token.None? ==> NextTokenToRead(c).ctx == c
  {
  }

  /** A name set in a started object is read back as one FIELD_NAME. */
  lemma NameIsReadOnce(c: FilterCtx, name: Dup.Name)
    requires InObject(c.kind) && c.startHandled
    ensures var c1 := SetFieldName(c, name).ctx;
      NextTokenToRead(c1).token == Some(FIELD_NAME)
      && NextTokenToRead(NextTokenToRead(c1).ctx).token.None?
  {
  }

  datatype Closed = Closed(endWritten: bool, finishNotified: bool, parent: Option<FilterCtx>)

  /** closeArray / closeObject: the end marker is written iff the start was
      handled; a filter other than INCLUDE_ALL is told the container ended;
      the parent becomes current. */
  function Close(c: FilterCtx): (r: Closed)
    ensures r.endWritten <==> c.startHandled
    ensures r.finishNotified <==> c.filter.Some? && c.filter.value != IncludeAll
    ensures r.parent == c.parent
  {
    Closed(c.startHandled, c.filter.Some? && c.filter != Some(IncludeAll), c.parent)
  }

  /** Opening a child and closing it again returns to the parent, writing
      the end marker exactly when the start was written. */
  lemma OpenCloseReturns(parent: FilterCtx, kind: int, f: Filter, writeStart: bool)
    requires kind == TYPE_ARRAY || kind == TYPE_OBJECT
    ensures Close(CreateChild(parent, kind, f, writeStart)).parent == Some(parent)
    ensures Close(CreateChild(parent, kind, f, writeStart)).endWritten == writeStart
  {
  }

  // ---------------------------------------------------------------------
  // The chain of contexts

  /** The context and its ancestors, nearest first. */
  function Chain(c: FilterCtx): (s: seq<FilterCtx>)
    ensures |s| > 0 && s[0] == c
    decreases c
  {
    [c] + (if c.parent.None? then [] else Chain(c.parent.value))
  }

  /** Each context of the chain has the next one as its parent; the last has
      none. */
  lemma {:induction false} ChainLinks(c: FilterCtx, k: nat)
    requires k < |Chain(c)|
    ensures Chain(c)[k].parent == (if k + 1 < |Chain(c)| then Some(Chain(c)[k + 1]) else None)
    decreases c
  {
    if k > 0 {
      ChainLinks(c.parent.value, k - 1);
    }
  }

  /** findChildOf: the nearest of the context and its ancestors whose parent
      is `target`, or null when there is none. */
  method FindChildOf(c: FilterCtx, target: Option<FilterCtx>) returns (r: Option<FilterCtx>)
    ensures r.Some? ==> exists k :: 0 <= k < |Chain(c)| && Chain(c)[k] == r.value && r.value.parent == target
    ensures r.Some? ==> forall k :: 0 <= k < |Chain(c)| && Chain(c)[k] == r.value ==>
      forall j :: 0 <= j < k ==> Chain(c)[j].parent != target
    ensures r.None? <==> forall k :: 0 <= k < |Chain(c)| ==> Chain(c)[k].parent != target
  {
    var chain := Chain(c);
    if c.parent == target {
      DistinctInChain(c, 0);
      return Some(c);
    }
    var curr := c.parent;
    var k := 1;
    ChainLinks(c, 0);
    while curr.Some?
      invariant 1 <= k <= |chain|
      invariant curr.Some? <==> k < |chain|
      invariant curr.Some? ==> curr.value == chain[k]
      invariant forall j :: 0 <= j < k ==> chain[j].parent != target
      decreases |chain| - k
    {
      ChainLinks(c, k);
      var p := curr.value.parent;
      if p == target {
        DistinctInChain(c, k);
        return curr;
      }
      curr := p;
      k := k + 1;
    }
    return None;
  }

  /** Each context sits at a single place in its own chain. */
  lemma DistinctInChain(c: FilterCtx, k: nat)
    requires k < |Chain(c)|
    ensures forall j :: 0 <= j < |Chain(c)| && Chain(c)[j] == Chain(c)[k] ==> j == k
  {
    forall j | 0 <= j < |Chain(c)| && Chain(c)[j] == Chain(c)[k]
      ensures j == k
    {
      ChainShrinks(c, j);
      ChainShrinks(c, k);
    }
  }

  /** The farther up the chain, the shorter the chain from there. */
  lemma {:induction false} ChainShrinks(c: FilterCtx, k: nat)
    requires k < |Chain(c)|
    ensures Chain(Chain(c)[k]) == Chain(c)[k..]
    decreases c
  {
    if k > 0 {
      ChainShrinks(c.parent.value, k - 1);
    }
  }

  // ---------------------------------------------------------------------
  // skipParentChecks

  /** The filters of a chain, nearest first. */
  function Filters(chain: seq<FilterCtx>): (fs: seq<Option<Filter>>)
    ensures |fs| == |chain|
    ensures forall k :: 0 <= k < |chain| ==> fs[k] == chain[k].filter
  {
    seq(|chain|, k requires 0 <= k < |chain| => chain[k].filter)
  }

  function ClearFilter(c: FilterCtx): (r: FilterCtx)
    ensures r.filter.None? && r.(filter := c.filter) == c
  {
    c.(filter := None)
  }

  /** skipParentChecks as written: the loop walks up the ancestors but
      clears the immediate parent's filter on every turn, so the filters of
      the context and its parent are cleared and the rest keep theirs. */
  function SkipParentChecksAsWritten(chain: seq<FilterCtx>): (r: seq<FilterCtx>)
    requires |chain| > 0
    ensures |r| == |chain|
    ensures forall k :: 0 <= k < |r| ==> (r[k].filter.None? || k >= 2) && r[k].(filter := chain[k].filter) == chain[k]
    ensures forall k :: 2 <= k < |r| ==> r[k] == chain[k]
  {
    if |chain| == 1 then [ClearFilter(chain[0])]
    else [ClearFilter(chain[0]), ClearFilter(chain[1])] + chain[2..]
  }

  /** skipParentChecks as intended: every filter up to the root cleared. */
  function SkipParentChecks(chain: seq<FilterCtx>): (r: seq<FilterCtx>)
    ensures |r| == |chain|
    ensures forall k :: 0 <= k < |r| ==> r[k] == ClearFilter(chain[k])
    decreases |chain|
  {
    if |chain| == 0 then [] else [ClearFilter(chain[0])] + SkipParentChecks(chain[1..])
  }

  /** After the intended skip no context of the chain checks a filter. */
  lemma SkipClearsAll(chain: seq<FilterCtx>)
    ensures forall k :: 0 <= k < |chain| ==> SkipParentChecks(chain)[k].filter.None?
    ensures Filters(SkipParentChecks(chain)) == seq(|chain|, k => None)
  {
  }

  /** The written loop leaves the grandparent's filter in force: a chain of
      three contexts that all filter keeps a filter at the root. */
  lemma GrandparentKeepsFilter(f: Filter)
    ensures var root := CreateRoot(f);
      var a := CreateChild(root, TYPE_OBJECT, f, true);
      var b := CreateChild(a, TYPE_ARRAY, f, true);
      Chain(b) == [b, a, root]
      && SkipParentChecksAsWritten(Chain(b))[2].filter == Some(f)
      && SkipParentChecks(Chain(b))[2].filter.None?
  {
    var root := CreateRoot(f);
    var a := CreateChild(root, TYPE_OBJECT, f, true);
    var b := CreateChild(a, TYPE_ARRAY, f, true);
    assert Chain(root) == [root];
    assert Chain(a) == [a] + Chain(root);
    assert Chain(b) == [b] + Chain(a) == [b, a, root];
  }
}
