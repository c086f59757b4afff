/** The minimal pretty printer (MinimalPrettyPrinter): fixed one-char
  separators and bare markers, no indentation at all, and a configurable
  separator between root values.  Its output for an object is the compact
  JSON form.
 */
module MinimalPrettyPrinter {
  import opened Ints
  import opened Wrappers
  import opened Indenter
  import DefaultPrettyPrinter

  const OPEN_OBJECT: unit16 := DefaultPrettyPrinter.OPEN_OBJECT
  const CLOSE_OBJECT: unit16 := DefaultPrettyPrinter.CLOSE_OBJECT
  const OPEN_ARRAY: unit16 := DefaultPrettyPrinter.OPEN_ARRAY
  const CLOSE_ARRAY: unit16 := DefaultPrettyPrinter.CLOSE_ARRAY
  const COMMA: unit16 := DefaultPrettyPrinter.COMMA
  const COLON: unit16 := DefaultPrettyPrinter.COLON

  /** DEFAULT_ROOT_VALUE_SEPARATOR: a single space. */
  const DEFAULT_ROOT_VALUE_SEPARATOR: Text := [SPACE]

  datatype Minimal = Minimal(rootValueSeparator: Option<Text>)

  /** The default constructor. */
  function New(): (m: Minimal)
    ensures m.rootValueSeparator == Some([SPACE])
  {
    Minimal(Some(DEFAULT_ROOT_VALUE_SEPARATOR))
  }

  /** setRootValueSeparator. */
  function SetRootValueSeparator(m: Minimal, sep: Option<Text>): (r: Minimal)
    ensures r.rootValueSeparator == sep
  {
    m.(rootValueSeparator := sep)
  }

  /** writeRootValueSeparator: the separator, or nothing when it is null. */
  function WriteRootValueSeparator(m: Minimal): (t: Text)
    ensures m.rootValueSeparator.None? ==> t == []
    ensures m.rootValueSeparator.Some? ==> t == m.rootValueSeparator.value
  {
    if m.rootValueSeparator.None? then [] else m.rootValueSeparator.value
  }

  function WriteStartObject(m: Minimal): Text { [OPEN_OBJECT] }
  function BeforeObjectEntries(m: Minimal): Text { [] }
  function WriteObjectFieldValueSeparator(m: Minimal): Text { [COLON] }
  function WriteObjectEntrySeparator(m: Minimal): Text { [COMMA] }
  function WriteEndObject(m: Minimal, nrOfEntries: int): Text { [CLOSE_OBJECT] }
  function WriteStartArray(m: Minimal): Text { [OPEN_ARRAY] }
  function BeforeArrayValues(m: Minimal): Text { [] }
  function WriteArrayValueSeparator(m: Minimal): Text { [COMMA] }
  function WriteEndArray(m: Minimal, nrOfValues: int): Text { [CLOSE_ARRAY] }

  datatype Entry = Entry(name: Text, value: Text)

  /** The entries of an object as the generator writes them through a
      printer: a separator before each entry after the first, then name,
      field/value separator, value. */
  function EntriesText(m: Minimal, entries: seq<Entry>, first: bool): Text
    decreases |entries|
  {
    if |entries| == 0 then []
    else
      (if first then [] else WriteObjectEntrySeparator(m))
      + entries[0].name + WriteObjectFieldValueSeparator(m) + entries[0].value
      + EntriesText(m, entries[1..], false)
  }

  /** A whole object written through the printer. */
  function ObjectText(m: Minimal, entries: seq<Entry>): Text
  {
    WriteStartObject(m) + BeforeObjectEntries(m) + EntriesText(m, entries, true) + WriteEndObject(m, |entries|)
  }

  /** The compact JSON form of some entries: name:value, joined by commas. */
  function Compact(entries: seq<Entry>): Text
    decreases |entries|
  {
    if |entries| == 0 then []
    else if |entries| == 1 then entries[0].name + [COLON] + entries[0].value
    else entries[0].name + [COLON] + entries[0].value + [COMMA] + Compact(entries[1..])
  }

  /** After the first entry each one is preceded by a comma. */
  lemma {:induction false} LaterEntries(m: Minimal, entries: seq<Entry>)
    requires |entries| > 0
    ensures EntriesText(m, entries, false) == [COMMA] + Compact(entries)
    decreases |entries|
  {
    var e := entries[0];
    if |entries| > 1 {
      LaterEntries(m, entries[1..]);
      assert EntriesText(m, entries, false) == [COMMA] + e.name + [COLON] + e.value + ([COMMA] + Compact(entries[1..]));
    } else {
      assert EntriesText(m, entries[1..], false) == [];
    }
  }

  /** The printer writes an object in its compact JSON form. */
  lemma ObjectIsCompact(m: Minimal, entries: seq<Entry>)
    ensures ObjectText(m, entries) == [OPEN_OBJECT] + Compact(entries) + [CLOSE_OBJECT]
  {
    if |entries| > 1 {
      var e := entries[0];
      LaterEntries(m, entries[1..]);
      assert EntriesText(m, entries, true) == e.name + [COLON] + e.value + ([COMMA] + Compact(entries[1..]));
    } else if |entries| == 1 {
      assert EntriesText(m, entries[1..], false) == [];
    }
  }

  /** The values of an array as the generator writes them through a
      printer: a separator before each value after the first. */
  function ValuesText(m: Minimal, values: seq<Text>, first: bool): Text
    decreases |values|
  {
    if |values| == 0 then []
    else
      (if first then [] else WriteArrayValueSeparator(m))
      + values[0] + ValuesText(m, values[1..], false)
  }

  /** A whole array written through the printer. */
  function ArrayText(m: Minimal, values: seq<Text>): Text
  {
    WriteStartArray(m) + BeforeArrayValues(m) + ValuesText(m, values, true) + WriteEndArray(m, |values|)
  }

  /** The compact JSON form of some values, joined by commas. */
  function CompactValues(values: seq<Text>): Text
    decreases |values|
  {
    if |values| == 0 then []
    else if |values| == 1 then values[0]
    else values[0] + [COMMA] + CompactValues(values[1..])
  }

  /** After the first value each one is preceded by a comma. */
  lemma {:induction false} LaterValues(m: Minimal, values: seq<Text>)
    requires |values| > 0
    ensures ValuesText(m, values, false) == [COMMA] + CompactValues(values)
    decreases |values|
  {
    if |values| > 1 {
      LaterValues(m, values[1..]);
      assert ValuesText(m, values, false) == [COMMA] + values[0] + ([COMMA] + CompactValues(values[1..]));
    } else {
      assert ValuesText(m, values[1..], false) == [];
    }
  }

  /** The printer writes an array in its compact JSON form. */
  lemma ArrayIsCompact(m: Minimal, values: seq<Text>)
    ensures ArrayText(m, values) == [OPEN_ARRAY] + CompactValues(values) + [CLOSE_ARRAY]
  {
    if |values| > 1 {
      LaterValues(m, values[1..]);
      assert ValuesText(m, values, true) == values[0] + ([COMMA] + CompactValues(values[1..]));
    } else if |values| == 1 {
      assert ValuesText(m, values[1..], false) == [];
    }
  }
}
