/** Parsing of Maven version strings (VersionUtil.parseVersion).

  The trimmed text is split on any of `-_./;:` with the Java `String.split`
  rule (trailing empty parts are dropped); the first three parts give the
  numbers, read as their leading decimal digits with C# `int` wrap-around,
  and the fourth, if any, is the snapshot tag.
 */
module VersionUtil {
  import opened Ints
  import opened Wrappers
  import opened Text
  import V = Version

  /** The separator class `[-_./;:]`. */
  predicate IsSep(c: char)
  {
    c == '-' || c == '_' || c == '.' || c == '/' || c == ';' || c == ':'
  }

  predicate NoSep(s: string)
  {
    forall k :: 0 <= k < |s| ==> !IsSep(s[k])
  }

  /** The separators of `s`, in order. */
  function Seps(s: string): (t: string)
    ensures forall k :: 0 <= k < |t| ==> IsSep(t[k])
  {
    if |s| == 0 then ""
    else if IsSep(s[0]) then [s[0]] + Seps(s[1..])
    else Seps(s[1..])
  }

  /** Every piece between separators, empty ones included. */
  function RawSplit(s: string): (parts: seq<string>)
    ensures |parts| >= 1
    ensures forall i :: 0 <= i < |parts| ==> NoSep(parts[i])
  {
    if |s| == 0 then [""]
    else
      var rest := RawSplit(s[1..]);
      if IsSep(s[0]) then [""] + rest
      else [[s[0]] + rest[0]] + rest[1..]
  }

  /** Pieces glued back together with the given separators between them. */
  function Interleave(parts: seq<string>, seps: string): (s: string)
    requires |parts| == |seps| + 1
    decreases |seps|
  {
    if |seps| == 0 then parts[0]
    else parts[0] + [seps[0]] + Interleave(parts[1..], seps[1..])
  }

  /** Splitting loses nothing: the pieces and the separators rebuild `s`. */
  lemma {:induction false} SplitThenJoin(s: string)
    ensures |RawSplit(s)| == |Seps(s)| + 1
    ensures Interleave(RawSplit(s), Seps(s)) == s
  {
    if |s| > 0 {
      SplitThenJoin(s[1..]);
      var rest := RawSplit(s[1..]);
      var seps := Seps(s[1..]);
      if IsSep(s[0]) {
        assert RawSplit(s)[1..] == rest;
        assert s == [s[0]] + s[1..];
      } else if |seps| == 0 {
        assert s == [s[0]] + rest[0];
      } else {
        var parts := RawSplit(s);
        assert parts[1..] == rest[1..];
        assert Interleave(rest, seps) == rest[0] + [seps[0]] + Interleave(rest[1..], seps[1..]);
        assert s == [s[0]] + s[1..];
      }
    }
  }

  /** A separator-free prefix joins the first piece. */
  lemma {:induction false} SplitPrefix(a: string, b: string)
    requires NoSep(a)
    ensures RawSplit(a + b) == [a + RawSplit(b)[0]] + RawSplit(b)[1..]
  {
    if |a| > 0 {
      var ab := a + b;
      assert ab[0] == a[0] && !IsSep(ab[0]);
      assert ab[1..] == a[1..] + b;
      SplitPrefix(a[1..], b);
      var rest := RawSplit(ab[1..]);
      assert rest == [a[1..] + RawSplit(b)[0]] + RawSplit(b)[1..];
      assert RawSplit(ab) == [[ab[0]] + rest[0]] + rest[1..];
      assert [a[0]] + (a[1..] + RawSplit(b)[0]) == a + RawSplit(b)[0];
    } else {
      assert a + b == b && a + RawSplit(b)[0] == RawSplit(b)[0];
      assert RawSplit(b) == [RawSplit(b)[0]] + RawSplit(b)[1..];
    }
  }

  /** Joining separator-free pieces and then splitting gives the pieces back. */
  lemma {:induction false} JoinThenSplit(parts: seq<string>, seps: string)
    requires |parts| == |seps| + 1
    requires forall i :: 0 <= i < |parts| ==> NoSep(parts[i])
    requires forall k :: 0 <= k < |seps| ==> IsSep(seps[k])
    ensures RawSplit(Interleave(parts, seps)) == parts
    decreases |seps|
  {
    if |seps| == 0 {
      SplitPrefix(parts[0], "");
      assert parts[0] + "" == parts[0];
    } else {
      var tail := Interleave(parts[1..], seps[1..]);
      JoinThenSplit(parts[1..], seps[1..]);
      var t := [seps[0]] + tail;
      assert RawSplit(t) == [""] + parts[1..] by {
        assert t[1..] == tail;
      }
      assert parts[0] + [seps[0]] + tail == parts[0] + t;
      SplitPrefix(parts[0], t);
      assert parts[0] + "" == parts[0];
    }
  }

  predicate AllEmpty(parts: seq<string>)
  {
    forall i :: 0 <= i < |parts| ==> parts[i] == ""
  }

  predicate AllSeps(s: string)
  {
    forall k :: 0 <= k < |s| ==> IsSep(s[k])
  }

  /** Every piece is empty exactly when the text is nothing but separators. */
  lemma {:induction false} SplitAllEmpty(s: string)
    ensures AllEmpty(RawSplit(s)) <==> AllSeps(s)
  {
    if |s| > 0 {
      SplitAllEmpty(s[1..]);
      var rest := RawSplit(s[1..]);
      if IsSep(s[0]) {
        assert RawSplit(s) == [""] + rest;
        assert AllEmpty(RawSplit(s)) <==> AllEmpty(rest) by {
          if AllEmpty(rest) {
            forall i | 0 < i < |RawSplit(s)| ensures RawSplit(s)[i] == "" {
              assert RawSplit(s)[i] == rest[i - 1];
            }
          }
          if AllEmpty(RawSplit(s)) {
            forall i | 0 <= i < |rest| ensures rest[i] == "" {
              assert RawSplit(s)[i + 1] == rest[i];
            }
          }
        }
        assert AllSeps(s[1..]) <==> AllSeps(s) by {
          if AllSeps(s[1..]) {
            forall k | 0 < k < |s| ensures IsSep(s[k]) {
              assert s[k] == s[1..][k - 1];
            }
          }
          if AllSeps(s) {
            forall k | 0 <= k < |s| - 1 ensures IsSep(s[1..][k]) {
              assert s[1..][k] == s[k + 1];
            }
          }
        }
      } else {
        assert RawSplit(s)[0] != "" by {
          assert RawSplit(s)[0][0] == s[0];
        }
      }
    }
  }

  /** Java's `split` drops the trailing empty pieces. */
  function DropTrailingEmpty(parts: seq<string>): (r: seq<string>)
    ensures |r| <= |parts| && r == parts[..|r|]
    ensures forall i :: |r| <= i < |parts| ==> parts[i] == ""
    ensures |r| > 0 ==> r[|r| - 1] != ""
    ensures |r| == 0 <==> AllEmpty(parts)
  {
    if |parts| == 0 then []
    else if parts[|parts| - 1] == "" then DropTrailingEmpty(parts[..|parts| - 1])
    else parts
  }

  /** Pattern.split(s) for the separator class. */
  function Split(s: string): (parts: seq<string>)
    ensures |parts| == 0 <==> AllSeps(s)
    ensures |parts| <= |RawSplit(s)| && parts == RawSplit(s)[..|parts|]
  {
    SplitAllEmpty(s);
    DropTrailingEmpty(RawSplit(s))
  }

  // ---------------------------------------------------------------------
  // Version parts

  /** The length of the run of digits `s` starts with. */
  function DigitRun(s: string): (n: nat)
    ensures n <= |s| && AllDigits(s[..n])
    ensures n < |s| ==> !IsDigit(s[n])
  {
    if |s| == 0 || !IsDigit(s[0]) then 0
    else
      var n := 1 + DigitRun(s[1..]);
      assert forall k :: 0 < k < n ==> s[..n][k] == s[1..][..n - 1][k - 1];
      n
  }

  /** The loop of parseVersionPart from index `i`, with `number` so far. */
  function PartFrom(s: string, i: nat, number: int32): int32
    requires i <= |s|
    decreases |s| - i
  {
    if i == |s| || !IsDigit(s[i]) then number
    else PartFrom(s, i + 1, ToInt32(number * 10 + DigitValue(s[i])))
  }

  /** parseVersionPart: the value of the leading digits, 0 if there are none,
      wrapped to a C# int as the loop's arithmetic does. */
  function ParseVersionPart(s: string): (r: int32)
    ensures r == ToInt32(DigitsValue(s[..DigitRun(s)]))
    ensures DigitRun(s) == 0 ==> r == 0
    ensures IsInt(DigitsValue(s[..DigitRun(s)])) ==> r == DigitsValue(s[..DigitRun(s)])
  {
    PartFromValue(s, 0, 0);
    PartFrom(s, 0, 0)
  }

  /** Wrapping after every step is the same as wrapping once at the end. */
  lemma StepWraps(x: int, d: int)
    ensures ToInt32(ToInt32(x) * 10 + d) == ToInt32(x * 10 + d)
  {
    var m := 0x1_0000_0000;
    var y := ToInt32(x);
    var q := (y - x) / m;
    assert y - x == q * m;
    assert (y * 10 + d) - (x * 10 + d) == (10 * q) * m;
    ToInt32Congruent(y * 10 + d, x * 10 + d, 10 * q);
  }

  lemma ToInt32Congruent(a: int, b: int, q: int)
    requires a - b == q * 0x1_0000_0000
    ensures ToInt32(a) == ToInt32(b)
  {
    assert a % 0x1_0000_0000 == b % 0x1_0000_0000;
  }

  lemma {:induction false} PartFromValue(s: string, i: nat, number: int32)
    requires i <= DigitRun(s)
    requires number == ToInt32(DigitsValue(s[..i]))
    ensures PartFrom(s, i, number) == ToInt32(DigitsValue(s[..DigitRun(s)]))
    decreases |s| - i
  {
    if i < DigitRun(s) {
      var next := PartStep(s, i, number);
      PartFromValue(s, i + 1, next);
    }
  }

  /** One digit of the run: the wrapped running value stays the wrapped
      value of the digits read so far. */
  lemma PartStep(s: string, i: nat, number: int32) returns (next: int32)
    requires i < DigitRun(s)
    requires number == ToInt32(DigitsValue(s[..i]))
    ensures next == ToInt32(DigitsValue(s[..i + 1]))
    ensures PartFrom(s, i, number) == PartFrom(s, i + 1, next)
  {
    var v, d := DigitsValue(s[..i]), DigitValue(s[i]);
    assert DigitsValue(s[..i + 1]) == v * 10 + d by {
      assert s[..i + 1][..i] == s[..i] && s[..i + 1][i] == s[i];
    }
    StepWraps(v, d);
    next := ToInt32(number * 10 + d);
  }

  // ---------------------------------------------------------------------
  // parseVersion

  /** parseVersion: nothing for a missing or blank string; otherwise the
      parts, with minor and patch defaulting to 0.  A string of separators
      only splits into no parts, and reading the first one fails. */
  function ParseVersion(s: Option<string>, groupId: Option<string>, artifactId: Option<string>)
    : (r: Result<Option<V.Version>>)
    ensures s.None? || |Trim(s.value)| == 0 ==> r == Success(None)
    ensures r.Failure? <==> s.Some? && |Trim(s.value)| > 0 && AllSeps(Trim(s.value))
    ensures r.Failure? ==> r.error == IndexOutOfRange
    ensures r.Success? && r.value.Some? ==> (
      var parts := Split(Trim(s.value));
      && r.value.value.major == ParseVersionPart(parts[0])
      && r.value.value.minor == (if |parts| > 1 then ParseVersionPart(parts[1]) else 0)
      && r.value.value.patch == (if |parts| > 2 then ParseVersionPart(parts[2]) else 0)
      && r.value.value.snapshotInfo == (if |parts| > 3 then Some(parts[3]) else None))
  {
    if s.None? then Success(None)
    else
      var t := Trim(s.value);
      if |t| == 0 then Success(None)
      else
        var parts := Split(t);
        if |parts| == 0 then Failure(IndexOutOfRange)
        else
          Success(Some(V.New(
            ParseVersionPart(parts[0]),
            if |parts| > 1 then ParseVersionPart(parts[1]) else 0,
            if |parts| > 2 then ParseVersionPart(parts[2]) else 0,
            if |parts| > 3 then Some(parts[3]) else None,
            groupId, artifactId)))
  }

  /** A decimal rendering contains no separator. */
  lemma DecimalNoSep(n: nat)
    ensures NoSep(Decimal(n)) && |Decimal(n)| > 0 && !IsTrimmable(Decimal(n)[0])
  {
    var d := Decimal(n);
    assert forall k :: 0 <= k < |d| ==> IsDigit(d[k]);
  }

  /** An all-digit string is read back as its value. */
  lemma ReadDecimal(n: nat)
    requires n <= MAX_INT
    ensures ParseVersionPart(Decimal(n)) == n
  {
    DecimalValue(n);
    assert Decimal(n)[..|Decimal(n)|] == Decimal(n);
    DigitRunAll(Decimal(n));
  }

  lemma DigitRunAll(s: string)
    requires AllDigits(s)
    ensures DigitRun(s) == |s|
  {
    if |s| > 0 {
      assert AllDigits(s[1..]) by {
        forall k | 0 <= k < |s| - 1 ensures IsDigit(s[1..][k]) {
          assert s[1..][k] == s[k + 1];
        }
      }
      DigitRunAll(s[1..]);
    }
  }

  lemma TrimUntouched(t: string)
    requires |t| > 0 && !IsTrimmable(t[0]) && !IsTrimmable(t[|t| - 1])
    ensures Trim(t) == t
  {
    assert TrimStart(t) == 0;
    assert TrimEnd(t) == |t|;
  }

  /** Version.ToString as separator-free pieces joined by separators. */
  lemma ToStringPieces(v: V.Version) returns (parts: seq<string>, seps: string)
    requires v.major >= 0 && v.minor >= 0 && v.patch >= 0
    ensures |parts| == |seps| + 1 && V.ToString(v) == Interleave(parts, seps)
    ensures forall k :: 0 <= k < |seps| ==> IsSep(seps[k])
    ensures |parts| == (if V.IsSnapshot(v) then 4 else 3)
    ensures parts[0] == Decimal(v.major) && parts[1] == Decimal(v.minor) && parts[2] == Decimal(v.patch)
    ensures V.IsSnapshot(v) ==> parts[3] == v.snapshotInfo.value
  {
    var a, b, c := Decimal(v.major), Decimal(v.minor), Decimal(v.patch);
    if V.IsSnapshot(v) {
      var d := v.snapshotInfo.value;
      parts, seps := [a, b, c, d], "..-";
      InterleaveFour(a, b, c, d);
    } else {
      parts, seps := [a, b, c], "..";
      InterleaveThree(a, b, c);
    }
  }

  lemma InterleaveThree(a: string, b: string, c: string)
    ensures Interleave([a, b, c], "..") == a + "." + b + "." + c
  {
    var parts, seps := [a, b, c], "..";
    assert Interleave(parts[2..], seps[2..]) == c;
    assert Interleave(parts[1..], seps[1..]) == b + "." + c;
  }

  lemma InterleaveFour(a: string, b: string, c: string, d: string)
    ensures Interleave([a, b, c, d], "..-") == a + "." + b + "." + c + "-" + d
  {
    var parts, seps := [a, b, c, d], "..-";
    assert Interleave(parts[3..], seps[3..]) == d;
    assert Interleave(parts[2..], seps[2..]) == c + "-" + d;
    assert Interleave(parts[1..], seps[1..]) == b + "." + (c + "-" + d);
  }

  /** A printed version is untouched by trimming and splits into its pieces. */
  lemma SplitToString(v: V.Version) returns (parts: seq<string>)
    requires v.major >= 0 && v.minor >= 0 && v.patch >= 0
    requires V.IsSnapshot(v) ==>
      (NoSep(v.snapshotInfo.value) && !IsTrimmable(v.snapshotInfo.value[|v.snapshotInfo.value| - 1]))
    ensures Trim(V.ToString(v)) == V.ToString(v) && Split(V.ToString(v)) == parts
    ensures |parts| == (if V.IsSnapshot(v) then 4 else 3)
    ensures parts[0] == Decimal(v.major) && parts[1] == Decimal(v.minor) && parts[2] == Decimal(v.patch)
    ensures V.IsSnapshot(v) ==> parts[3] == v.snapshotInfo.value
  {
    DecimalNoSep(v.major);
    DecimalNoSep(v.minor);
    DecimalNoSep(v.patch);
    var seps;
    parts, seps := ToStringPieces(v);
    var t := V.ToString(v);
    JoinThenSplit(parts, seps);
    assert t[0] == parts[0][0];
    assert t[|t| - 1] == parts[|parts| - 1][|parts[|parts| - 1]| - 1];
    TrimUntouched(t);
    assert Split(t) == parts;
  }

  /** A trimmed text whose first three parts read as given numbers gives the
      version made of them, with the fourth part, if any, as the tag. */
  lemma ParseThreeParts(t: string, parts: seq<string>, major: int32, minor: int32, patch: int32,
                        snapshot: Option<string>, groupId: Option<string>, artifactId: Option<string>)
    requires |t| > 0 && Trim(t) == t && Split(t) == parts && |parts| >= 3
    requires ParseVersionPart(parts[0]) == major && ParseVersionPart(parts[1]) == minor
    requires ParseVersionPart(parts[2]) == patch
    requires snapshot == (if |parts| > 3 then Some(parts[3]) else None)
    ensures ParseVersion(Some(t), groupId, artifactId)
      == Success(Some(V.New(major, minor, patch, snapshot, groupId, artifactId)))
  {
  }

  /** parseVersion reads back what Version.ToString prints, for non-negative
      numbers and a snapshot tag free of separators that does not end in
      white space. */
  lemma ParseToString(v: V.Version, groupId: Option<string>, artifactId: Option<string>)
    requires v.major >= 0 && v.minor >= 0 && v.patch >= 0
    requires V.IsSnapshot(v) ==>
      (NoSep(v.snapshotInfo.value) && !IsTrimmable(v.snapshotInfo.value[|v.snapshotInfo.value| - 1]))
    ensures ParseVersion(Some(V.ToString(v)), groupId, artifactId)
      == Success(Some(V.New(v.major, v.minor, v.patch,
           if V.IsSnapshot(v) then v.snapshotInfo else None, groupId, artifactId)))
  {
    var parts := SplitToString(v);
    ReadDecimal(v.major);
    ReadDecimal(v.minor);
    ReadDecimal(v.patch);
    ParseThreeParts(V.ToString(v), parts, v.major, v.minor, v.patch,
      if V.IsSnapshot(v) then v.snapshotInfo else None, groupId, artifactId);
  }

  /** The printed form determines the version: two versions that print the
      same (under the conditions of the round trip) have the same numbers
      and, for a snapshot, the same tag. */
  lemma PrintedFormDetermines(a: V.Version, b: V.Version)
    requires a.major >= 0 && a.minor >= 0 && a.patch >= 0
    requires b.major >= 0 && b.minor >= 0 && b.patch >= 0
    requires V.IsSnapshot(a) ==>
      (NoSep(a.snapshotInfo.value) && !IsTrimmable(a.snapshotInfo.value[|a.snapshotInfo.value| - 1]))
    requires V.IsSnapshot(b) ==>
      (NoSep(b.snapshotInfo.value) && !IsTrimmable(b.snapshotInfo.value[|b.snapshotInfo.value| - 1]))
    requires V.ToString(a) == V.ToString(b)
    ensures a.major == b.major && a.minor == b.minor && a.patch == b.patch
    ensures V.IsSnapshot(a) == V.IsSnapshot(b)
    ensures V.IsSnapshot(a) ==> a.snapshotInfo == b.snapshotInfo
  {
    ParseToString(a, None, None);
    ParseToString(b, None, None);
  }
}
