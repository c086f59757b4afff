/** The default pretty printer (DefaultPrettyPrinter).

  Arrays are indented with single spaces and objects with a line break and
  two spaces per level, entries of an object read `name : value`, and root
  values are separated by a space.  Each callback answers the raw text it
  writes and the printer with its updated nesting level; the nesting moves
  only for indenters that are not inline.
 */
module DefaultPrettyPrinter {
  import opened Ints
  import opened Wrappers
  import opened Indenter

  const OPEN_OBJECT: unit16 := '{' as int
  const CLOSE_OBJECT: unit16 := '}' as int
  const OPEN_ARRAY: unit16 := '[' as int
  const CLOSE_ARRAY: unit16 := ']' as int
  const COMMA: unit16 := ',' as int
  const COLON: unit16 := ':' as int

  /** DEFAULT_ROOT_VALUE_SEPARATOR: a single space. */
  const DEFAULT_ROOT_VALUE_SEPARATOR: Text := [SPACE]

  datatype Printer = Printer(
    arrayIndenter: Indenter,
    objectIndenter: Indenter,
    rootSeparator: Option<Text>,
    spacesInObjectEntries: bool,
    nesting: int)

  datatype Out = Out(text: Text, pp: Printer)

  /** new DefaultPrettyPrinter(rootSeparator): fixed spaces for arrays, the
      system line-feed indenter for objects, spaces around colons. */
  function New(rootSeparator: Option<Text>, systemLinefeed: Text): (p: Printer)
    ensures p.arrayIndenter == FixedSpace && p.objectIndenter == NewDefault(systemLinefeed)
    ensures p.rootSeparator == rootSeparator && p.spacesInObjectEntries && p.nesting == 0
  {
    Printer(FixedSpace, NewDefault(systemLinefeed), rootSeparator, true, 0)
  }

  /** The copy constructor: everything, nesting included, with a new root
      separator. */
  function CopyWith(base: Printer, rootSeparator: Option<Text>): (p: Printer)
    ensures p == base.(rootSeparator := rootSeparator)
  {
    Printer(base.arrayIndenter, base.objectIndenter, rootSeparator, base.spacesInObjectEntries, base.nesting)
  }

  /** createInstance: a copy, nesting level included. */
  function CreateInstance(base: Printer): (p: Printer)
    ensures p == base
  {
    CopyWith(base, base.rootSeparator)
  }

  /** withRootSeparator: the same printer when the separator is unchanged. */
  function WithRootSeparator(p: Printer, sep: Option<Text>): (r: Printer)
    ensures r.rootSeparator == sep && r.(rootSeparator := p.rootSeparator) == p
  {
    if p.rootSeparator == sep then p else CopyWith(p, sep)
  }

  /** A missing indenter stands for the no-op one. */
  function OrNop(i: Option<Indenter>): (r: Indenter)
    ensures i.None? ==> r == Nop
    ensures i.Some? ==> r == i.value
  {
    if i.None? then Nop else i.value
  }

  /** withArrayIndenter (and indentArraysWith, which sets it in place). */
  function WithArrayIndenter(p: Printer, i: Option<Indenter>): (r: Printer)
    ensures r.arrayIndenter == OrNop(i) && r.(arrayIndenter := p.arrayIndenter) == p
  {
    var i := OrNop(i);
    if p.arrayIndenter == i then p else CopyWith(p, p.rootSeparator).(arrayIndenter := i)
  }

  /** withObjectIndenter (and indentObjectsWith). */
  function WithObjectIndenter(p: Printer, i: Option<Indenter>): (r: Printer)
    ensures r.objectIndenter == OrNop(i) && r.(objectIndenter := p.objectIndenter) == p
  {
    var i := OrNop(i);
    if p.objectIndenter == i then p else CopyWith(p, p.rootSeparator).(objectIndenter := i)
  }

  /** withSpacesInObjectEntries / withoutSpacesInObjectEntries (_withSpaces). */
  function WithSpaces(p: Printer, state: bool): (r: Printer)
    ensures r.spacesInObjectEntries == state && r.(spacesInObjectEntries := p.spacesInObjectEntries) == p
  {
    if p.spacesInObjectEntries == state then p else CopyWith(p, p.rootSeparator).(spacesInObjectEntries := state)
  }

  /** writeRootValueSeparator: the separator, if there is one. */
  function WriteRootValueSeparator(p: Printer): (t: Text)
    ensures p.rootSeparator.None? <==> t == [] && p.rootSeparator != Some([])
    ensures p.rootSeparator.Some? ==> t == p.rootSeparator.value
  {
    if p.rootSeparator.None? then [] else p.rootSeparator.value
  }

  /** The nesting after opening a container indented by `i`. */
  function Deeper(p: Printer, i: Indenter): (r: Printer)
  {
    if IsInline(i) then p else p.(nesting := p.nesting + 1)
  }

  /** The nesting after closing a container indented by `i`. */
  function Shallower(p: Printer, i: Indenter): (r: Printer)
  {
    if IsInline(i) then p else p.(nesting := p.nesting - 1)
  }

  /** writeStartObject: the brace; one level deeper unless inline. */
  function WriteStartObject(p: Printer): (r: Out)
    ensures r.text == [OPEN_OBJECT]
    ensures r.pp.nesting == p.nesting + (if IsInline(p.objectIndenter) then 0 else 1)
    ensures r.pp.(nesting := p.nesting) == p
  {
    Out([OPEN_OBJECT], Deeper(p, p.objectIndenter))
  }

  /** beforeObjectEntries: what the object indenter writes at the current level
      (Indenter.WriteIndentation): nothing for the no-op indenter, one space
      for the fixed-space one, and for a line-feed indenter the line break
      followed by one indent per nesting level. */
  function BeforeObjectEntries(p: Printer): (t: Text)
    ensures t == IndentText(p.objectIndenter, p.nesting)
    ensures p.objectIndenter == Nop ==> t == []
    ensures p.objectIndenter == FixedSpace ==> t == [SPACE]
    ensures p.objectIndenter.Lined? ==>
      var eol, indent := p.objectIndenter.eol, p.objectIndenter.indent;
      && t[..|eol|] == eol
      && |t| == |eol| + (if p.nesting > 0 then p.nesting * |indent| else 0)
  {
    IndentText(p.objectIndenter, p.nesting)
  }

  /** writeObjectFieldValueSeparator: " : " with spaces, else ":". */
  function WriteObjectFieldValueSeparator(p: Printer): (t: Text)
    ensures COLON in t
    ensures t == [COLON] <==> !p.spacesInObjectEntries
    ensures p.spacesInObjectEntries ==> t == [SPACE, COLON, SPACE]
  {
    if p.spacesInObjectEntries then [SPACE, COLON, SPACE] else [COLON]
  }

  /** writeObjectEntrySeparator: a comma, then an indentation. */
  function WriteObjectEntrySeparator(p: Printer): (t: Text)
    ensures |t| > 0 && t[0] == COMMA && t[1..] == BeforeObjectEntries(p)
  {
    [COMMA] + IndentText(p.objectIndenter, p.nesting)
  }

  /** writeEndObject: back one level unless inline; then an indentation at
      that level after some entries, or a single space after none; then the
      brace. */
  function WriteEndObject(p: Printer, nrOfEntries: int): (r: Out)
    ensures r.pp.nesting == p.nesting - (if IsInline(p.objectIndenter) then 0 else 1)
    ensures r.pp.(nesting := p.nesting) == p
    ensures |r.text| > 0 && r.text[|r.text| - 1] == CLOSE_OBJECT
    ensures nrOfEntries <= 0 ==> r.text == [SPACE, CLOSE_OBJECT]
    ensures nrOfEntries > 0 ==> r.text == IndentText(p.objectIndenter, r.pp.nesting) + [CLOSE_OBJECT]
  {
    var q := Shallower(p, p.objectIndenter);
    var gap := if nrOfEntries > 0 then IndentText(q.objectIndenter, q.nesting) else [SPACE];
    Out(gap + [CLOSE_OBJECT], q)
  }

  /** writeStartArray: one level deeper unless inline; the bracket. */
  function WriteStartArray(p: Printer): (r: Out)
    ensures r.text == [OPEN_ARRAY]
    ensures r.pp.nesting == p.nesting + (if IsInline(p.arrayIndenter) then 0 else 1)
    ensures r.pp.(nesting := p.nesting) == p
  {
    Out([OPEN_ARRAY], Deeper(p, p.arrayIndenter))
  }

  /** beforeArrayValues: what the array indenter writes at the current level
      (Indenter.WriteIndentation): nothing for the no-op indenter, one space
      for the fixed-space one, and for a line-feed indenter the line break
      followed by one indent per nesting level. */
  function BeforeArrayValues(p: Printer): (t: Text)
    ensures t == IndentText(p.arrayIndenter, p.nesting)
    ensures p.arrayIndenter == Nop ==> t == []
    ensures p.arrayIndenter == FixedSpace ==> t == [SPACE]
    ensures p.arrayIndenter.Lined? ==>
      var eol, indent := p.arrayIndenter.eol, p.arrayIndenter.indent;
      && t[..|eol|] == eol
      && |t| == |eol| + (if p.nesting > 0 then p.nesting * |indent| else 0)
  {
    IndentText(p.arrayIndenter, p.nesting)
  }

  /** writeArrayValueSeparator: a comma, then an indentation. */
  function WriteArrayValueSeparator(p: Printer): (t: Text)
    ensures |t| > 0 && t[0] == COMMA && t[1..] == BeforeArrayValues(p)
  {
    [COMMA] + IndentText(p.arrayIndenter, p.nesting)
  }

  /** writeEndArray: as writeEndObject, with the bracket. */
  function WriteEndArray(p: Printer, nrOfValues: int): (r: Out)
    ensures r.pp.nesting == p.nesting - (if IsInline(p.arrayIndenter) then 0 else 1)
    ensures r.pp.(nesting := p.nesting) == p
    ensures |r.text| > 0 && r.text[|r.text| - 1] == CLOSE_ARRAY
    ensures nrOfValues <= 0 ==> r.text == [SPACE, CLOSE_ARRAY]
    ensures nrOfValues > 0 ==> r.text == IndentText(p.arrayIndenter, r.pp.nesting) + [CLOSE_ARRAY]
  {
    var q := Shallower(p, p.arrayIndenter);
    var gap := if nrOfValues > 0 then IndentText(q.arrayIndenter, q.nesting) else [SPACE];
    Out(gap + [CLOSE_ARRAY], q)
  }

  /** Opening and closing a container leaves the nesting where it was,
      whatever the indenters. */
  lemma NestingBalanced(p: Printer, entries: int)
    ensures WriteEndObject(WriteStartObject(p).pp, entries).pp == p
    ensures WriteEndArray(WriteStartArray(p).pp, entries).pp == p
  {
  }

  /** An empty object prints as "{ }" and an empty array as "[ ]". */
  lemma EmptyContainers(p: Printer)
    ensures WriteStartObject(p).text + WriteEndObject(WriteStartObject(p).pp, 0).text
      == [OPEN_OBJECT, SPACE, CLOSE_OBJECT]
    ensures WriteStartArray(p).text + WriteEndArray(WriteStartArray(p).pp, 0).text
      == [OPEN_ARRAY, SPACE, CLOSE_ARRAY]
  {
  }

  /** With the default object indenter, the entries of an object sit one
      indent deeper than its closing brace, which returns to the level the
      object was opened at. */
  lemma ClosingBraceAligns(p: Printer)
    requires p.objectIndenter.Lined? && p.nesting >= 0
    ensures var inner := WriteStartObject(p).pp;
      var closed := WriteEndObject(inner, 1);
      && BeforeObjectEntries(inner) == IndentText(p.objectIndenter, p.nesting) + p.objectIndenter.indent
      && closed.text == IndentText(p.objectIndenter, p.nesting) + [CLOSE_OBJECT]
      && closed.pp == p
  {
    DeeperByOneIndent(p.objectIndenter, p.nesting);
  }
}
