/** Component versions (Version): three numbers, an optional snapshot tag,
  and the Maven group and artifact ids.

  Equality ignores the snapshot tag; ordering compares the ids ordinally,
  then the numbers by C# `int` subtraction, which wraps.
 */
module Version {
  import opened Ints
  import opened Wrappers

  datatype Version = Version(
    major: int32,
    minor: int32,
    patch: int32,
    snapshotInfo: Option<string>,
    groupId: string,
    artifactId: string)

  /** The constructor: null ids become empty strings. */
  function New(major: int32, minor: int32, patch: int32, snapshotInfo: Option<string>,
               groupId: Option<string>, artifactId: Option<string>): (v: Version)
    ensures v.major == major && v.minor == minor && v.patch == patch && v.snapshotInfo == snapshotInfo
    ensures v.groupId == (if groupId.None? then "" else groupId.value)
    ensures v.artifactId == (if artifactId.None? then "" else artifactId.value)
  {
    Version(major, minor, patch, snapshotInfo,
      if groupId.None? then "" else groupId.value,
      if artifactId.None? then "" else artifactId.value)
  }

  /** unknownVersion: 0.0.0 with no snapshot and empty ids. */
  const UNKNOWN_VERSION: Version := New(0, 0, 0, None, None, None)

  /** isSnapshot: a non-empty snapshot tag is present. */
  predicate IsSnapshot(v: Version)
  {
    v.snapshotInfo.Some? && |v.snapshotInfo.value| > 0
  }

  /** ToString: "major.minor.patch", then "-tag" for a snapshot. */
  function ToString(v: Version): (s: string)
    ensures IsSnapshot(v) ==>
      (s == SignedDecimal(v.major) + "." + SignedDecimal(v.minor) + "."
            + SignedDecimal(v.patch) + "-" + v.snapshotInfo.value)
    ensures !IsSnapshot(v) ==>
      (s == SignedDecimal(v.major) + "." + SignedDecimal(v.minor) + "." + SignedDecimal(v.patch))
  {
    var core := SignedDecimal(v.major) + "." + SignedDecimal(v.minor) + "." + SignedDecimal(v.patch);
    if IsSnapshot(v) then core + "-" + v.snapshotInfo.value else core
  }

  /** toFullString: "group/artifact/" then the version. */
  function ToFullString(v: Version): (s: string)
    ensures s == v.groupId + "/" + v.artifactId + "/" + ToString(v)
  {
    v.groupId + "/" + v.artifactId + "/" + ToString(v)
  }

  /** The first slash of "id/rest" ends the id when the id has none. */
  lemma SlashSplit(g1: string, r1: string, g2: string, r2: string)
    requires '/' !in g1 && '/' !in g2
    requires g1 + "/" + r1 == g2 + "/" + r2
    ensures g1 == g2 && r1 == r2
  {
    var s := g1 + "/" + r1;
    assert s[|g1|] == '/' && forall i :: 0 <= i < |g1| ==> s[i] == g1[i] != '/';
    assert s[|g2|] == '/' && forall i :: 0 <= i < |g2| ==> s[i] == g2[i] != '/';
    assert g1 == s[..|g1|] == g2;
    assert r1 == s[|g1| + 1..] == r2;
  }

  /** The full form can be read back: for ids without a slash, the group
      id, the artifact id and the printed version are each recovered from
      the full string. */
  lemma FullStringSplits(a: Version, b: Version)
    requires '/' !in a.groupId && '/' !in a.artifactId
    requires '/' !in b.groupId && '/' !in b.artifactId
    requires ToFullString(a) == ToFullString(b)
    ensures a.groupId == b.groupId && a.artifactId == b.artifactId && ToString(a) == ToString(b)
  {
    var ta, tb := ToString(a), ToString(b);
    SlashAssoc(a.groupId, a.artifactId, ta);
    SlashAssoc(b.groupId, b.artifactId, tb);
    SlashSplit(a.groupId, a.artifactId + "/" + ta, b.groupId, b.artifactId + "/" + tb);
    SlashSplit(a.artifactId, ta, b.artifactId, tb);
  }

  lemma SlashAssoc(g: string, x: string, t: string)
    ensures g + "/" + x + "/" + t == g + "/" + (x + "/" + t)
  {
  }

  /** Equals: the five identifying fields; the snapshot tag is ignored. */
  predicate Equal(a: Version, b: Version)
  {
    a.major == b.major && a.minor == b.minor && a.patch == b.patch
    && a.artifactId == b.artifactId && a.groupId == b.groupId
  }

  /** string.CompareOrdinal, of which only the sign is specified: the first
      differing char decides, else the shorter string is the smaller. */
  function CompareOrdinal(a: string, b: string): (d: int)
    ensures -1 <= d <= 1
    decreases |a|
  {
    if |a| == 0 || |b| == 0 then Sign(|a| - |b|)
    else if a[0] != b[0] then Sign((a[0] as int) - (b[0] as int))
    else CompareOrdinal(a[1..], b[1..])
  }

  function Sign(x: int): (s: int)
    ensures s == 0 <==> x == 0
    ensures s < 0 <==> x < 0
    ensures -1 <= s <= 1
  {
    if x < 0 then -1 else if x > 0 then 1 else 0
  }

  lemma {:induction false} CompareOrdinalZero(a: string, b: string)
    ensures CompareOrdinal(a, b) == 0 <==> a == b
    decreases |a|
  {
    if |a| > 0 && |b| > 0 && a[0] == b[0] {
      CompareOrdinalZero(a[1..], b[1..]);
      assert a == [a[0]] + a[1..] && b == [b[0]] + b[1..];
    }
  }

  lemma {:induction false} CompareOrdinalAntisymmetric(a: string, b: string)
    ensures CompareOrdinal(a, b) == -CompareOrdinal(b, a)
    decreases |a|
  {
    if |a| > 0 && |b| > 0 && a[0] == b[0] {
      CompareOrdinalAntisymmetric(a[1..], b[1..]);
    }
  }

  /** compareTo: ids first, then major, minor and patch by wrapping
      subtraction. */
  function CompareTo(a: Version, b: Version): (d: int32)
    ensures d == 0 <==> Equal(a, b)
  {
    var g := CompareOrdinal(a.groupId, b.groupId);
    CompareOrdinalZero(a.groupId, b.groupId);
    CompareOrdinalZero(a.artifactId, b.artifactId);
    if g != 0 then g
    else
      var art := CompareOrdinal(a.artifactId, b.artifactId);
      if art != 0 then art
      else if a.major != b.major then WrapDiff(a.major, b.major)
      else if a.minor != b.minor then WrapDiff(a.minor, b.minor)
      else WrapDiff(a.patch, b.patch)
  }

  /** `x - y` on C# ints; it is zero only when the operands are equal. */
  function WrapDiff(x: int32, y: int32): (d: int32)
    ensures d == 0 <==> x == y
    ensures 0 <= x && 0 <= y ==> d == x - y
  {
    ToInt32(x - y)
  }

  /** The ordering is antisymmetric for versions whose numbers are not
      negative (as every parsed or released version is) : swapping the operands flips the
      sign. */
  lemma CompareToAntisymmetric(a: Version, b: Version)
    requires a.major >= 0 && a.minor >= 0 && a.patch >= 0
    requires b.major >= 0 && b.minor >= 0 && b.patch >= 0
    ensures (CompareTo(a, b) < 0 <==> CompareTo(b, a) > 0)
  {
    CompareOrdinalAntisymmetric(a.groupId, b.groupId);
    CompareOrdinalAntisymmetric(a.artifactId, b.artifactId);
  }

  /** Numeric precedence of two versions: major, then minor, then patch. */
  predicate NumericallyBefore(a: Version, b: Version)
  {
    a.major < b.major
    || (a.major == b.major && a.minor < b.minor)
    || (a.major == b.major && a.minor == b.minor && a.patch < b.patch)
  }

  /** Between versions of one artifact with non-negative numbers, compareTo
      orders exactly by numeric precedence. */
  lemma CompareToOrdersNumbers(a: Version, b: Version)
    requires a.groupId == b.groupId && a.artifactId == b.artifactId
    requires a.major >= 0 && a.minor >= 0 && a.patch >= 0
    requires b.major >= 0 && b.minor >= 0 && b.patch >= 0
    ensures CompareTo(a, b) < 0 <==> NumericallyBefore(a, b)
    ensures CompareTo(a, b) > 0 <==> NumericallyBefore(b, a)
  {
    CompareOrdinalZero(a.groupId, b.groupId);
    CompareOrdinalZero(a.artifactId, b.artifactId);
  }
}
