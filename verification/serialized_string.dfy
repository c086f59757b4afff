/** A string with its quoted and UTF-8 forms computed once (SerializedString).

  The three lazily filled caches are part of the state; `Valid` says each one,
  once filled, holds what the encoder produces for the value, so reading a
  form through the cache or afresh gives the same answer.
 */
module SerializedString {
  import opened Ints
  import opened Wrappers
  import opened CharTypes
  import opened Unicode
  import Enc = StringEncoder

  datatype SerStr = SerStr(
    value: seq<unit16>,
    quotedUtf8: Option<seq<byte>>,
    unquotedUtf8: Option<seq<byte>>,
    quotedChars: Option<seq<unit16>>)

  /** The quoted UTF-8 form of `v`: the UTF-8 of its escaped text, or nothing
      when `v` holds a broken surrogate pair. */
  function QuotedUtf8Of(v: seq<unit16>): Option<seq<byte>>
  {
    var cps := CodePoints(Escaped(v));
    if cps.Some? then Some(Utf8Of(cps.value)) else None
  }

  /** The unquoted UTF-8 form of `v`, or nothing for a broken surrogate pair. */
  function UnquotedUtf8Of(v: seq<unit16>): Option<seq<byte>>
  {
    var cps := CodePoints(v);
    if cps.Some? then Some(Utf8Of(cps.value)) else None
  }

  predicate Valid(s: SerStr)
  {
    && (s.quotedUtf8.Some? ==> QuotedUtf8Of(s.value) == s.quotedUtf8)
    && (s.unquotedUtf8.Some? ==> UnquotedUtf8Of(s.value) == s.unquotedUtf8)
    && (s.quotedChars.Some? ==> s.quotedChars.value == Escaped(s.value))
  }

  /** The constructor: a null value is refused. */
  function New(v: Option<seq<unit16>>): (r: Result<SerStr>)
    ensures r.Success? <==> v.Some?
    ensures r.Failure? ==> r.error.IllegalState?
    ensures r.Success? ==> Valid(r.value) && r.value.value == v.value
  {
    if v.None? then Failure(IllegalState("Null String illegal for SerializedString"))
    else Success(SerStr(v.value, None, None, None))
  }

  /** charLength: the length of the value in UTF-16 units. */
  function CharLength(s: SerStr): (n: nat)
    ensures n == |s.value|
  {
    |s.value|
  }

  /** asQuotedChars: the escaped value, computed once. */
  method AsQuotedChars(s: SerStr) returns (chars: seq<unit16>, s': SerStr)
    requires Valid(s)
    ensures Valid(s') && s'.value == s.value
    ensures chars == Escaped(s.value) && s'.quotedChars == Some(chars)
  {
    if s.quotedChars.Some? {
      return s.quotedChars.value, s;
    }
    chars := Enc.QuoteAsString(s.value);
    s' := s.(quotedChars := Some(chars));
  }

  /** asQuotedUTF8: the UTF-8 of the escaped value, computed once; an
      encoding error leaves the cache empty. */
  method AsQuotedUTF8(s: SerStr) returns (r: Result<seq<byte>>, s': SerStr)
    requires Valid(s)
    ensures Valid(s') && s'.value == s.value
    ensures r.Success? <==> QuotedUtf8Of(s.value).Some?
    ensures r.Success? ==> Some(r.value) == QuotedUtf8Of(s.value) && s'.quotedUtf8 == Some(r.value)
    ensures r.Failure? ==> r.error.IllegalArgument?
  {
    if s.quotedUtf8.Some? {
      return Success(s.quotedUtf8.value), s;
    }
    r := Enc.QuoteAsUTF8(s.value);
    if r.Success? {
      s' := s.(quotedUtf8 := Some(r.value));
    } else {
      s' := s;
    }
  }

  /** asUnquotedUTF8: the UTF-8 of the value, computed once. */
  method AsUnquotedUTF8(s: SerStr) returns (r: Result<seq<byte>>, s': SerStr)
    requires Valid(s)
    ensures Valid(s') && s'.value == s.value
    ensures r.Success? <==> UnquotedUtf8Of(s.value).Some?
    ensures r.Success? ==> Some(r.value) == UnquotedUtf8Of(s.value) && s'.unquotedUtf8 == Some(r.value)
    ensures r.Failure? ==> r.error.IllegalArgument?
  {
    if s.unquotedUtf8.Some? {
      return Success(s.unquotedUtf8.value), s;
    }
    r := Enc.EncodeAsUTF8(s.value);
    if r.Success? {
      s' := s.(unquotedUtf8 := Some(r.value));
    } else {
      s' := s;
    }
  }

  /** The outcome of copying into a caller's buffer: the count copied (-1
      when it does not fit) and the buffer afterwards. */
  datatype Copied<T> = Copied(count: int, buffer: seq<T>)

  /** The shared tail of the append* methods: -1 if `data` does not fit at
      `offset`, else the buffer with `data` copied in. */
  function CopyInto<T>(buffer: seq<T>, offset: int, data: seq<T>): (r: Result<Copied<T>>)
    ensures offset + |data| > |buffer| ==> r == Success(Copied(-1, buffer))
    ensures offset + |data| <= |buffer| && offset < 0 ==> r.Failure?
    ensures 0 <= offset && offset + |data| <= |buffer| ==> (r.Success?
      && r.value.count == |data|
      && |r.value.buffer| == |buffer|
      && r.value.buffer[offset..offset + |data|] == data
      && r.value.buffer[..offset] == buffer[..offset]
      && r.value.buffer[offset + |data|..] == buffer[offset + |data|..])
  {
    if offset + |data| > |buffer| then Success(Copied(-1, buffer))
    else if offset < 0 then Failure(IndexOutOfRange)
    else
      var b := buffer[..offset] + data + buffer[offset + |data|..];
      assert b[offset..offset + |data|] == data;
      Success(Copied(|data|, b))
  }

  /** appendQuotedUTF8. */
  method AppendQuotedUTF8(s: SerStr, buffer: seq<byte>, offset: int) returns (r: Result<Copied<byte>>, s': SerStr)
    requires Valid(s)
    ensures Valid(s') && s'.value == s.value
    ensures QuotedUtf8Of(s.value).None? ==> r.Failure?
    ensures QuotedUtf8Of(s.value).Some? ==> r == CopyInto(buffer, offset, QuotedUtf8Of(s.value).value)
  {
    var bytes;
    bytes, s' := AsQuotedUTF8(s);
    if bytes.Failure? {
      return Failure(bytes.error), s';
    }
    r := CopyInto(buffer, offset, bytes.value);
  }

  /** appendQuoted. */
  method AppendQuoted(s: SerStr, buffer: seq<unit16>, offset: int) returns (r: Result<Copied<unit16>>, s': SerStr)
    requires Valid(s)
    ensures Valid(s') && s'.value == s.value
    ensures r == CopyInto(buffer, offset, Escaped(s.value))
  {
    var chars;
    chars, s' := AsQuotedChars(s);
    r := CopyInto(buffer, offset, chars);
  }

  /** appendUnquotedUTF8. */
  method AppendUnquotedUTF8(s: SerStr, buffer: seq<byte>, offset: int) returns (r: Result<Copied<byte>>, s': SerStr)
    requires Valid(s)
    ensures Valid(s') && s'.value == s.value
    ensures UnquotedUtf8Of(s.value).None? ==> r.Failure?
    ensures UnquotedUtf8Of(s.value).Some? ==> r == CopyInto(buffer, offset, UnquotedUtf8Of(s.value).value)
  {
    var bytes;
    bytes, s' := AsUnquotedUTF8(s);
    if bytes.Failure? {
      return Failure(bytes.error), s';
    }
    r := CopyInto(buffer, offset, bytes.value);
  }

  /** appendUnquoted: the raw chars of the value. */
  function AppendUnquoted(s: SerStr, buffer: seq<unit16>, offset: int): (r: Result<Copied<unit16>>)
    ensures offset + |s.value| > |buffer| ==> r == Success(Copied(-1, buffer))
    ensures 0 <= offset && offset + |s.value| <= |buffer| ==> (r.Success?
      && r.value.count == |s.value| && |r.value.buffer| == |buffer|
      && r.value.buffer[offset..offset + |s.value|] == s.value)
  {
    CopyInto(buffer, offset, s.value)
  }

  /** writeQuotedUTF8: the whole quoted form goes to the stream. */
  method WriteQuotedUTF8(s: SerStr, out: seq<byte>) returns (r: Result<(int, seq<byte>)>, s': SerStr)
    requires Valid(s)
    ensures Valid(s') && s'.value == s.value
    ensures r.Success? <==> QuotedUtf8Of(s.value).Some?
    ensures r.Success? ==> (r.value.1 == out + QuotedUtf8Of(s.value).value
      && r.value.0 == |QuotedUtf8Of(s.value).value|)
  {
    var bytes;
    bytes, s' := AsQuotedUTF8(s);
    if bytes.Failure? {
      return Failure(bytes.error), s';
    }
    r := Success((|bytes.value|, out + bytes.value));
  }

  /** writeUnquotedUTF8. */
  method WriteUnquotedUTF8(s: SerStr, out: seq<byte>) returns (r: Result<(int, seq<byte>)>, s': SerStr)
    requires Valid(s)
    ensures Valid(s') && s'.value == s.value
    ensures r.Success? <==> UnquotedUtf8Of(s.value).Some?
    ensures r.Success? ==> (r.value.1 == out + UnquotedUtf8Of(s.value).value
      && r.value.0 == |UnquotedUtf8Of(s.value).value|)
  {
    var bytes;
    bytes, s' := AsUnquotedUTF8(s);
    if bytes.Failure? {
      return Failure(bytes.error), s';
    }
    r := Success((|bytes.value|, out + bytes.value));
  }

  /** putQuotedUTF8: -1 unless the quoted form fits in what the byte
      buffer has left. */
  method PutQuotedUTF8(s: SerStr, remaining: nat, out: seq<byte>) returns (r: Result<(int, seq<byte>)>, s': SerStr)
    requires Valid(s)
    ensures Valid(s') && s'.value == s.value
    ensures r.Success? <==> QuotedUtf8Of(s.value).Some?
    ensures r.Success? ==> var q := QuotedUtf8Of(s.value).value;
      (|q| > remaining ==> r.value == (-1, out)) && (|q| <= remaining ==> r.value == (|q|, out + q))
  {
    var bytes;
    bytes, s' := AsQuotedUTF8(s);
    if bytes.Failure? {
      return Failure(bytes.error), s';
    }
    if |bytes.value| > remaining {
      return Success((-1, out)), s';
    }
    r := Success((|bytes.value|, out + bytes.value));
  }

  /** putUnquotedUTF8. */
  method PutUnquotedUTF8(s: SerStr, remaining: nat, out: seq<byte>) returns (r: Result<(int, seq<byte>)>, s': SerStr)
    requires Valid(s)
    ensures Valid(s') && s'.value == s.value
    ensures r.Success? <==> UnquotedUtf8Of(s.value).Some?
    ensures r.Success? ==> var q := UnquotedUtf8Of(s.value).value;
      (|q| > remaining ==> r.value == (-1, out)) && (|q| <= remaining ==> r.value == (|q|, out + q))
  {
    var bytes;
    bytes, s' := AsUnquotedUTF8(s);
    if bytes.Failure? {
      return Failure(bytes.error), s';
    }
    if |bytes.value| > remaining {
      return Success((-1, out)), s';
    }
    r := Success((|bytes.value|, out + bytes.value));
  }

  /** Equals: by value alone, whatever the caches hold. */
  predicate Equal(a: SerStr, b: SerStr)
  {
    a.value == b.value
  }

  /** Two strings equal by value have the same forms, so caching never
      changes what an equal string produces. */
  lemma EqualMeansSameForms(a: SerStr, b: SerStr)
    requires Valid(a) && Valid(b) && Equal(a, b)
    ensures a.quotedUtf8.Some? && b.quotedUtf8.Some? ==> a.quotedUtf8 == b.quotedUtf8
    ensures a.unquotedUtf8.Some? && b.unquotedUtf8.Some? ==> a.unquotedUtf8 == b.unquotedUtf8
    ensures a.quotedChars.Some? && b.quotedChars.Some? ==> a.quotedChars == b.quotedChars
  {
  }

  /** For text without chars that need escaping the quoted and unquoted UTF-8
      forms coincide. */
  lemma {:induction false} PlainTextQuotesToItself(v: seq<unit16>)
    requires forall i :: 0 <= i < |v| ==> !NeedsEscape(v[i])
    ensures Escaped(v) == v
    ensures QuotedUtf8Of(v) == UnquotedUtf8Of(v)
    decreases |v|
  {
    if |v| > 0 {
      PlainTextQuotesToItself(v[..|v| - 1]);
      assert v[..|v| - 1] + [v[|v| - 1]] == v;
    }
  }
}
