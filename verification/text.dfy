/** Text helpers shared by the parsers: trimming and the .NET integer parser.

  `Trim` follows the Java `String.trim` rule that the translated code keeps
  (every char up to and including the space is trimmed).  `PlatformParse`
  models `System.Convert.ToInt32` / `ToInt64`, which the number readers fall
  back to: optional .NET white space around an optional sign and at least
  one decimal digit, with the invariant culture's ASCII signs.
 */
module Text {
  import opened Ints
  import opened Wrappers

  predicate IsTrimmable(c: char) { c <= ' ' }

  /** Index of the first char that is not trimmable (|s| if none). */
  function TrimStart(s: string): (i: nat)
    ensures i <= |s|
    ensures forall k :: 0 <= k < i ==> IsTrimmable(s[k])
    ensures i < |s| ==> !IsTrimmable(s[i])
  {
    if |s| == 0 || !IsTrimmable(s[0]) then 0 else 1 + TrimStart(s[1..])
  }

  /** One past the last char that is not trimmable (0 if none). */
  function TrimEnd(s: string): (j: nat)
    ensures j <= |s|
    ensures forall k :: j <= k < |s| ==> IsTrimmable(s[k])
    ensures j > 0 ==> !IsTrimmable(s[j - 1])
  {
    if |s| == 0 || !IsTrimmable(s[|s| - 1]) then |s| else TrimEnd(s[..|s| - 1])
  }

  /** `s` without its leading and trailing trimmable chars. */
  function Trim(s: string): (t: string)
    ensures |t| > 0 ==> !IsTrimmable(t[0]) && !IsTrimmable(t[|t| - 1])
    ensures |t| == 0 <==> forall k :: 0 <= k < |s| ==> IsTrimmable(s[k])
  {
    var i := TrimStart(s);
    var j := TrimEnd(s);
    if i < j then s[i..j] else ""
  }

  /** White space that .NET's integer parser skips around the number. */
  predicate IsNetWhite(c: char) { c == ' ' || '\t' <= c <= '\r' }

  function StripNetWhite(s: string): (t: string)
    ensures |t| <= |s|
    decreases |s|
  {
    if |s| > 0 && IsNetWhite(s[0]) then StripNetWhite(s[1..])
    else if |s| > 0 && IsNetWhite(s[|s| - 1]) then StripNetWhite(s[..|s| - 1])
    else s
  }

  /** `Convert.ToInt32(s)` for `lo, hi` the `int` bounds, `Convert.ToInt64(s)` for the `long` ones:
      FormatException unless the text is a signed run of digits,
      OverflowException when the value is outside `[lo, hi]`. */
  function PlatformParse(s: string, lo: int, hi: int): (r: Result<int>)
    ensures r.Success? ==> lo <= r.value <= hi
  {
    var t := StripNetWhite(s);
    var neg := |t| > 0 && t[0] == '-';
    var digits := if |t| > 0 && (t[0] == '-' || t[0] == '+') then t[1..] else t;
    if |digits| == 0 || !AllDigits(digits) then Failure(Format)
    else
      var d: int := DigitsValue(digits);
      var v := if neg then -d else d;
      if lo <= v <= hi then Success(v) else Failure(Overflow)
  }

  function ConvertToInt32(s: string): (r: Result<int>)
    ensures r.Success? ==> IsInt(r.value)
  {
    PlatformParse(s, MIN_INT, MAX_INT)
  }

  function ConvertToInt64(s: string): (r: Result<int>)
    ensures r.Success? ==> IsLong(r.value)
  {
    PlatformParse(s, MIN_LONG, MAX_LONG)
  }
}
