/** The shared Base64 variants (Base64Variants): MIME, MIME without line
  feeds, PEM and the URL-safe variant, the default variant and the lookup
  by name.

  Each shared variant is built from the standard alphabet the way the
  static initialisers build it, and each is shown to have a proper alphabet
  and complete tables, so the encoder's round trip applies to all four.
 */
module Base64Variants {
  import opened Ints
  import opened Wrappers
  import B = Base64Variant

  const UPPER_LETTERS: string := "ABCDEFGHIJKLMNOPQRSTUVWXYZ"
  const LOWER_LETTERS: string := "abcdefghijklmnopqrstuvwxyz"
  const DECIMAL_DIGITS: string := "0123456789"

  /** STD_BASE64_ALPHABET, written as its four runs. */
  const STD_BASE64_ALPHABET: string := UPPER_LETTERS + LOWER_LETTERS + DECIMAL_DIGITS + "+/"

  /** The char at each position of the standard alphabet. */
  function StdChar(i: nat): (c: unit16)
    requires i < 64
  {
    if i < 26 then 'A' as int + i
    else if i < 52 then 'a' as int + (i - 26)
    else if i < 62 then '0' as int + (i - 52)
    else if i == 62 then '+' as int
    else '/' as int
  }

  lemma StdAlphabetChars()
    ensures |STD_BASE64_ALPHABET| == 64
    ensures forall i :: 0 <= i < 64 ==> STD_BASE64_ALPHABET[i] as int == StdChar(i)
  {
    assert forall k :: 0 <= k < 26 ==> UPPER_LETTERS[k] as int == 'A' as int + k;
    assert forall k :: 0 <= k < 26 ==> LOWER_LETTERS[k] as int == 'a' as int + k;
    assert forall k :: 0 <= k < 10 ==> DECIMAL_DIGITS[k] as int == '0' as int + k;
  }

  /** The standard alphabet as C# chars. */
  function StdAlphabet(): (a: seq<unit16>)
    ensures |a| == 64 && forall i :: 0 <= i < 64 ==> a[i] == StdChar(i)
  {
    StdAlphabetChars();
    Units(STD_BASE64_ALPHABET)
  }

  const PADDING: unit16 := '=' as int

  /** The standard alphabet is proper with '=' as the padding char. */
  lemma StdAlphabetProper()
    ensures B.ProperAlphabet(StdAlphabet(), true, PADDING)
  {
  }

  // ---------------------------------------------------------------------
  // The URL-safe alphabet

  /** StringBuilder.indexOf for one char: its first position, or -1. */
  function IndexOf(s: seq<unit16>, c: unit16): (r: int)
    ensures -1 <= r < |s|
    ensures r >= 0 ==> s[r] == c && forall k :: 0 <= k < r ==> s[k] != c
    ensures r == -1 <==> c !in s
    decreases |s|
  {
    if |s| == 0 then -1
    else if s[0] == c then 0
    else
      var r := IndexOf(s[1..], c);
      if r < 0 then -1 else r + 1
  }

  /** setCharAt at the first occurrence of `c`: refused when there is none,
      since the position is then -1. */
  function ReplaceFirst(s: seq<unit16>, c: unit16, d: unit16): (r: Result<seq<unit16>>)
    ensures r.Failure? <==> c !in s
    ensures r.Failure? ==> r.error == IndexOutOfRange
    ensures r.Success? ==> var p := IndexOf(s, c); 0 <= p < |s| && r.value == s[p := d]
  {
    var p := IndexOf(s, c);
    if p < 0 then Failure(IndexOutOfRange) else Success(s[p := d])
  }

  /** Replacing the first '+' of the standard alphabet replaces its 63rd
      char. */
  lemma ReplacePlus(s: seq<unit16>, minus: unit16)
    requires |s| == 64 && forall i :: 0 <= i < 64 ==> s[i] == StdChar(i)
    ensures ReplaceFirst(s, '+' as int, minus) == Success(s[62 := minus])
  {
    assert s[62] == '+' as int;
    var p := IndexOf(s, '+' as int);
    assert s[p] == StdChar(p);
  }

  /** Then replacing the first '/' replaces the 64th. */
  lemma ReplaceSlash(s: seq<unit16>, underscore: unit16)
    requires |s| == 64 && forall i :: 0 <= i < 62 ==> s[i] == StdChar(i)
    requires s[62] == '-' as int && s[63] == '/' as int
    ensures ReplaceFirst(s, '/' as int, underscore) == Success(s[63 := underscore])
  {
    var p := IndexOf(s, '/' as int);
    assert p >= 0;
  }

  /** The URL-safe alphabet: the standard one with '-' for '+' and '_' for
      '/', replaced in a copy of the standard alphabet. */
  method UrlAlphabet() returns (a: seq<unit16>)
    ensures |a| == 64 && forall i :: 0 <= i < 64 ==> a[i] == UrlChar(i)
  {
    var std := StdAlphabet();
    UrlFromStd(std);
    var plusReplaced := ReplaceFirst(std, '+' as int, '-' as int).value;
    a := ReplaceFirst(plusReplaced, '/' as int, '_' as int).value;
  }

  /** The two replacements turn the standard alphabet into the URL-safe one. */
  lemma UrlFromStd(std: seq<unit16>)
    requires |std| == 64 && forall i :: 0 <= i < 64 ==> std[i] == StdChar(i)
    ensures ReplaceFirst(std, '+' as int, '-' as int).Success?
    ensures var p := ReplaceFirst(std, '+' as int, '-' as int).value;
      && ReplaceFirst(p, '/' as int, '_' as int).Success?
      && var a := ReplaceFirst(p, '/' as int, '_' as int).value;
      && |a| == 64 && forall i :: 0 <= i < 64 ==> a[i] == UrlChar(i)
  {
    ReplacePlus(std, '-' as int);
    var p := std[62 := '-' as int];
    ReplaceSlash(p, '_' as int);
    var a := p[63 := '_' as int];
    forall i | 0 <= i < 64
      ensures a[i] == UrlChar(i)
    {
      if i < 62 {
        assert a[i] == std[i];
      }
    }
  }

  /** The char at each position of the URL-safe alphabet. */
  function UrlChar(i: nat): (c: unit16)
    requires i < 64
  {
    if i < 62 then StdChar(i) else if i == 62 then '-' as int else '_' as int
  }

  lemma UrlCharsDistinct(i: nat, j: nat)
    requires i < j < 64
    ensures UrlChar(i) != UrlChar(j)
  {
  }

  /** The chars of the URL-safe alphabet are distinct printable ASCII. */
  lemma UrlCharsProper(a: seq<unit16>)
    requires |a| == 64 && forall i :: 0 <= i < 64 ==> a[i] == UrlChar(i)
    ensures B.ProperAlphabet(a, false, B.PADDING_CHAR_NONE)
  {
    forall i, j | 0 <= i < j < 64
      ensures a[i] != a[j]
    {
      UrlCharsDistinct(i, j);
    }
  }

  // ---------------------------------------------------------------------
  // The shared variants

  const MIME_NAME: string := "MIME"
  const MIME_NO_LINEFEEDS_NAME: string := "MIME-NO-LINEFEEDS"
  const PEM_NAME: string := "PEM"
  const MODIFIED_FOR_URL_NAME: string := "MODIFIED-FOR-URL"

  /** What a caller of any shared variant may rely on: consistent and
      complete tables over a proper alphabet, so the round trip holds. */
  predicate Usable(v: B.Variant)
  {
    B.Coherent(v) && B.Complete(v) && B.ProperAlphabet(v.toAsciiC, v.usesPadding, v.paddingChar)
  }

  /** MIME: the standard alphabet, '=' padding, 76-char lines. */
  method Mime() returns (v: B.Variant)
    ensures Usable(v) && v.name == MIME_NAME && v.toAsciiC == StdAlphabet()
    ensures v.usesPadding && v.paddingChar == PADDING && v.maxLineLength == 76
  {
    var alphabet := StdAlphabet();
    StdAlphabetProper();
    ProperVariantUsable(MIME_NAME, alphabet, true, PADDING, 76);
    v := B.NewVariant(MIME_NAME, alphabet, true, PADDING, 76).value;
  }

  /** A variant built on a proper alphabet is usable. */
  lemma ProperVariantUsable(name: string, alphabet: seq<unit16>, usesPadding: bool, paddingChar: unit16, maxLineLength: int)
    requires B.ProperAlphabet(alphabet, usesPadding, paddingChar)
    ensures var r := B.NewVariant(name, alphabet, usesPadding, paddingChar, maxLineLength);
      r.Success? && Usable(r.value)
  {
    B.NewVariantComplete(name, alphabet, usesPadding, paddingChar, maxLineLength);
  }

  /** MIME_NO_LINEFEEDS: MIME with the largest int as the line length. */
  method MimeNoLinefeeds() returns (v: B.Variant)
    ensures Usable(v) && v.name == MIME_NO_LINEFEEDS_NAME && v.toAsciiC == StdAlphabet()
    ensures v.usesPadding && v.paddingChar == PADDING && v.maxLineLength == MAX_INT
  {
    var mime := Mime();
    v := B.WithLineLength(mime, MIME_NO_LINEFEEDS_NAME, MAX_INT);
  }

  /** PEM: MIME's tables and padding with 64-char lines. */
  method Pem() returns (v: B.Variant)
    ensures Usable(v) && v.name == PEM_NAME && v.toAsciiC == StdAlphabet()
    ensures v.usesPadding && v.paddingChar == PADDING && v.maxLineLength == 64
  {
    var mime := Mime();
    v := B.CopyVariant(mime, PEM_NAME, true, PADDING, 64);
  }

  /** MODIFIED_FOR_URL: the URL-safe alphabet, no padding, no line breaks. */
  method ModifiedForUrl() returns (v: B.Variant)
    ensures Usable(v) && v.name == MODIFIED_FOR_URL_NAME
    ensures |v.toAsciiC| == 64 && forall i :: 0 <= i < 64 ==> v.toAsciiC[i] == UrlChar(i)
    ensures !v.usesPadding && v.maxLineLength == MAX_INT
  {
    var alphabet := UrlAlphabet();
    UrlCharsProper(alphabet);
    ProperVariantUsable(MODIFIED_FOR_URL_NAME, alphabet, false, B.PADDING_CHAR_NONE, MAX_INT);
    v := B.NewVariant(MODIFIED_FOR_URL_NAME, alphabet, false, B.PADDING_CHAR_NONE, MAX_INT).value;
  }

  /** getDefaultVariant: the variant without line feeds, since a line feed
      in a JSON string has to be escaped. */
  method DefaultVariant() returns (v: B.Variant)
    ensures Usable(v) && v.name == MIME_NO_LINEFEEDS_NAME && v.toAsciiC == StdAlphabet()
    ensures v.usesPadding && v.maxLineLength == MAX_INT
  {
    v := MimeNoLinefeeds();
  }

  const SHARED_NAMES: seq<string> := [MIME_NAME, MIME_NO_LINEFEEDS_NAME, PEM_NAME, MODIFIED_FOR_URL_NAME]

  /** The shared names are distinct. */
  lemma SharedNamesDistinct()
    ensures forall i, j :: 0 <= i < j < 4 ==> SHARED_NAMES[i] != SHARED_NAMES[j]
  {
  }

  /** The line length each shared variant is built with. */
  function LineLengthOf(name: string): int
  {
    if name == MIME_NAME then 76 else if name == PEM_NAME then 64 else MAX_INT
  }

  /** valueOf: the shared variant with the given name; a missing name or an
      unknown one is refused. */
  method ValueOf(name: Option<string>) returns (r: Result<B.Variant>)
    ensures r.Success? <==> name.Some? && name.value in SHARED_NAMES
    ensures r.Success? ==> Usable(r.value) && r.value.name == name.value
    ensures r.Success? ==> r.value.maxLineLength == LineLengthOf(name.value)
    ensures r.Success? ==> (r.value.usesPadding <==> name.value != MODIFIED_FOR_URL_NAME)
    ensures r.Success? && name.value != MODIFIED_FOR_URL_NAME ==> r.value.toAsciiC == StdAlphabet()
    ensures name.None? ==> r == Failure(IllegalArgument("No Base64Variant with name " + "<null>"))
    ensures name.Some? && r.Failure? ==> r == Failure(IllegalArgument("No Base64Variant with name " + ("'" + name.value + "'")))
  {
    var mime := Mime();
    if name == Some(mime.name) {
      return Success(mime);
    }
    var mimeNoLinefeeds := MimeNoLinefeeds();
    if name == Some(mimeNoLinefeeds.name) {
      return Success(mimeNoLinefeeds);
    }
    var pem := Pem();
    if name == Some(pem.name) {
      return Success(pem);
    }
    var url := ModifiedForUrl();
    if name == Some(url.name) {
      return Success(url);
    }
    var shown := if name.None? then "<null>" else "'" + name.value + "'";
    r := Failure(IllegalArgument("No Base64Variant with name " + shown));
  }

  /** The URL-safe alphabet differs from the standard one only in the two
      chars that need quoting in a URL. */
  lemma UrlDiffersInTwoChars()
    ensures forall i :: 0 <= i < 62 ==> UrlChar(i) == StdAlphabet()[i]
    ensures StdAlphabet()[62] == '+' as int && UrlChar(62) == '-' as int
    ensures StdAlphabet()[63] == '/' as int && UrlChar(63) == '_' as int
  {
  }

  /** Every shared variant decodes what it encodes, as long as the encoder
      writes no line break. */
  lemma SharedRoundTrip(v: B.Variant, data: seq<byte>)
    requires Usable(v)
    requires |data| / 3 == 0 || |data| / 3 < v.maxLineLength / 4
    ensures B.Decode(v, B.Encode(v, data, false)) == Success(data)
  {
    B.RoundTrip(v, data);
  }
}
