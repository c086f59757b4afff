/** The token kinds a JSON parser returns (JsonToken, JsonTokenId).

  Each token is built from an optional fixed serialization and its numeric
  id; the classification flags are all derived from the id alone.
 */
module JsonToken {
  import opened Ints
  import opened Wrappers

  const ID_NOT_AVAILABLE: int := -1
  const ID_NO_TOKEN: int := 0
  const ID_START_OBJECT: int := 1
  const ID_END_OBJECT: int := 2
  const ID_START_ARRAY: int := 3
  const ID_END_ARRAY: int := 4
  const ID_FIELD_NAME: int := 5
  const ID_STRING: int := 6
  const ID_NUMBER_INT: int := 7
  const ID_NUMBER_FLOAT: int := 8
  const ID_TRUE: int := 9
  const ID_FALSE: int := 10
  const ID_NULL: int := 11
  const ID_EMBEDDED_OBJECT: int := 12

  datatype Token =
    | NOT_AVAILABLE | START_OBJECT | END_OBJECT | START_ARRAY | END_ARRAY | FIELD_NAME
    | VALUE_EMBEDDED_OBJECT | VALUE_STRING | VALUE_NUMBER_INT | VALUE_NUMBER_FLOAT
    | VALUE_TRUE | VALUE_FALSE | VALUE_NULL

  /** The id each token is declared with. */
  function Id(t: Token): int
  {
    match t
    case NOT_AVAILABLE => ID_NOT_AVAILABLE
    case START_OBJECT => ID_START_OBJECT
    case END_OBJECT => ID_END_OBJECT
    case START_ARRAY => ID_START_ARRAY
    case END_ARRAY => ID_END_ARRAY
    case FIELD_NAME => ID_FIELD_NAME
    case VALUE_EMBEDDED_OBJECT => ID_EMBEDDED_OBJECT
    case VALUE_STRING => ID_STRING
    case VALUE_NUMBER_INT => ID_NUMBER_INT
    case VALUE_NUMBER_FLOAT => ID_NUMBER_FLOAT
    case VALUE_TRUE => ID_TRUE
    case VALUE_FALSE => ID_FALSE
    case VALUE_NULL => ID_NULL
  }

  /** The fixed text each token is declared with, if it has one. */
  function Declared(t: Token): Option<string>
  {
    match t
    case START_OBJECT => Some("{")
    case END_OBJECT => Some("}")
    case START_ARRAY => Some("[")
    case END_ARRAY => Some("]")
    case VALUE_TRUE => Some("true")
    case VALUE_FALSE => Some("false")
    case VALUE_NULL => Some("null")
    case _ => None
  }

  predicate IsAscii(s: string) { forall i :: 0 <= i < |s| ==> (s[i] as int) < 0x80 }

  /** What the constructor stores for one token. */
  datatype Info = Info(
    serialized: Option<string>,
    serializedBytes: Option<seq<byte>>,
    id: int,
    isStructStart: bool,
    isStructEnd: bool,
    isNumber: bool,
    isBoolean: bool,
    isScalar: bool)

  /** The constructor: the text is copied to bytes char by char (it is all
      ASCII), and the flags are derived from the id. */
  function Make(token: Option<string>, id: int): (r: Info)
    requires token.Some? ==> IsAscii(token.value)
    ensures r.serialized == token && r.id == id
    ensures r.serializedBytes.Some? <==> token.Some?
    ensures token.Some? ==> (|r.serializedBytes.value| == |token.value| &&
      forall i :: 0 <= i < |token.value| ==> r.serializedBytes.value[i] == token.value[i] as int)
    ensures !(r.isStructStart && r.isStructEnd)
    ensures r.isScalar ==> !r.isStructStart && !r.isStructEnd
    ensures r.isNumber || r.isBoolean ==> r.isScalar
    ensures !(r.isNumber && r.isBoolean)
  {
    var bytes := if token.None? then None
      else Some(seq(|token.value|, i requires 0 <= i < |token.value| => token.value[i] as int as byte));
    var isStructStart := id == ID_START_OBJECT || id == ID_START_ARRAY;
    var isStructEnd := id == ID_END_OBJECT || id == ID_END_ARRAY;
    Info(token, bytes, id,
      isStructStart,
      isStructEnd,
      id == ID_NUMBER_INT || id == ID_NUMBER_FLOAT,
      id == ID_FALSE || id == ID_TRUE,
      !isStructStart && !isStructEnd && id != ID_FIELD_NAME && id != ID_NOT_AVAILABLE)
  }

  function InfoOf(t: Token): Info
  {
    Make(Declared(t), Id(t))
  }

  /** Distinct tokens carry distinct ids. */
  lemma IdsDistinct(a: Token, b: Token)
    ensures Id(a) == Id(b) <==> a == b
  {
  }

  /** The accessors agree with the token identities they are documented by. */
  lemma Classification(t: Token)
    ensures InfoOf(t).isStructStart <==> t == START_OBJECT || t == START_ARRAY
    ensures InfoOf(t).isStructEnd <==> t == END_OBJECT || t == END_ARRAY
    ensures InfoOf(t).isNumber <==> t == VALUE_NUMBER_INT || t == VALUE_NUMBER_FLOAT
    ensures InfoOf(t).isBoolean <==> t == VALUE_TRUE || t == VALUE_FALSE
    ensures InfoOf(t).isScalar <==>
      !(t == START_OBJECT || t == START_ARRAY || t == END_OBJECT || t == END_ARRAY
        || t == FIELD_NAME || t == NOT_AVAILABLE)
  {
  }

  /** asString: the fixed text of the seven fixed tokens, null for the rest;
      asByteArray holds the same characters. */
  lemma FixedText(t: Token)
    ensures InfoOf(t).serialized.Some? <==>
      t in {START_OBJECT, END_OBJECT, START_ARRAY, END_ARRAY, VALUE_TRUE, VALUE_FALSE, VALUE_NULL}
    ensures InfoOf(t).serializedBytes.Some? <==> InfoOf(t).serialized.Some?
    ensures t == VALUE_NULL ==> InfoOf(t).serialized == Some("null")
  {
  }
}
