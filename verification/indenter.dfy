/** The indenters a pretty printer uses between tokens
  (DefaultPrettyPrinter.NopIndenter, DefaultPrettyPrinter.FixedSpaceIndenter,
  DefaultIndenter).

  The no-op indenter writes nothing, the fixed-space one a single space;
  both are inline, so they do not count nesting.  The default indenter
  starts a new line and repeats its indent once per level; it keeps sixteen
  copies of the indent at hand and writes deeper levels in chunks.  Text is
  a sequence of UTF-16 code units.
 */
module Indenter {
  import opened Ints

  type Text = seq<unit16>

  const SPACE: unit16 := ' ' as int
  const LF: unit16 := '\n' as int
  const INDENT_LEVELS: nat := 16

  datatype Indenter =
    | Nop
    | FixedSpace
    | Lined(indent: Text, eol: Text)

  /** The text repeated `n` times. */
  function Repeat(s: Text, n: nat): (r: Text)
    ensures |r| == n * |s|
  {
    if n == 0 then [] else Repeat(s, n - 1) + s
  }

  lemma {:induction false} RepeatAdd(s: Text, a: nat, b: nat)
    ensures Repeat(s, a + b) == Repeat(s, a) + Repeat(s, b)
    decreases b
  {
    if b > 0 {
      RepeatAdd(s, a, b - 1);
    }
  }

  /** A prefix of whole copies of a repetition is a shorter repetition. */
  lemma RepeatPrefix(s: Text, k: nat, n: nat)
    requires k <= n
    ensures Repeat(s, n)[..k * |s|] == Repeat(s, k)
  {
    RepeatAdd(s, k, n - k);
  }

  /** isInline: only the default indenter tracks nesting. */
  predicate IsInline(i: Indenter)
  {
    !i.Lined?
  }

  /** new DefaultIndenter(): two spaces per level and the platform line
      separator, which the model takes as a parameter. */
  function NewDefault(systemLinefeed: Text): (i: Indenter)
    ensures i.Lined? && i.indent == [SPACE, SPACE] && i.eol == systemLinefeed && !IsInline(i)
  {
    Lined([SPACE, SPACE], systemLinefeed)
  }

  /** The text one indentation at `level` writes: nothing, one space, or a
      line break and `level` copies of the indent (none for a level of zero
      or below). */
  function IndentText(i: Indenter, level: int): (t: Text)
  {
    match i
    case Nop => []
    case FixedSpace => [SPACE]
    case Lined(indent, eol) => eol + (if level > 0 then Repeat(indent, level) else [])
  }

  /** DefaultIndenter.writeIndentation, as the source writes it: the line
      break, then level * charsPerLevel chars of the sixteen-fold indent,
      in whole chunks while more are needed than it holds.  The result is
      the line break and `level` copies of the indent. */
  method WriteIndentation(i: Indenter, level: int) returns (out: Text)
    ensures out == IndentText(i, level)
    ensures i.Lined? ==> out[..|i.eol|] == i.eol
    ensures i.Lined? && level > 0 ==> |out| == |i.eol| + level * |i.indent|
  {
    match i {
      case Nop => out := [];
      case FixedSpace => out := [SPACE];
      case Lined(indent, eol) =>
        out := eol;
        if level > 0 {
          var cpl := |indent|;
          var indents := Repeat(indent, INDENT_LEVELS);
          var n := level * cpl;
          ghost var left: nat := level;
          while n > |indents|
            invariant 0 <= left <= level
            invariant n == left * cpl
            invariant out == eol + Repeat(indent, level - left)
            decreases n
          {
            ChunkStep(indent, level - left, left);
            out := out + indents;
            n := n - |indents|;
            left := left - INDENT_LEVELS;
          }
          LastChunk(indent, level, left, n);
          out := out + indents[..n];
          assert out == eol + Repeat(indent, level);
        }
    }
  }

  /** The partial last chunk completes the repetition. */
  lemma LastChunk(indent: Text, level: nat, left: nat, n: nat)
    requires left <= level && n == left * |indent| && n <= |Repeat(indent, INDENT_LEVELS)|
    ensures Repeat(indent, level - left) + Repeat(indent, INDENT_LEVELS)[..n] == Repeat(indent, level)
  {
    var indents := Repeat(indent, INDENT_LEVELS);
    if |indent| == 0 {
      EmptyRepeat(indent, left);
      RepeatAdd(indent, level - left, left);
      assert indents[..n] == [];
    } else {
      assert left <= INDENT_LEVELS;
      RepeatPrefix(indent, left, INDENT_LEVELS);
      RepeatAdd(indent, level - left, left);
    }
  }

  /** One chunk of sixteen copies carries the repetition forward. */
  lemma ChunkStep(indent: Text, done: nat, left: nat)
    requires left * |indent| > INDENT_LEVELS * |indent|
    ensures left >= INDENT_LEVELS
    ensures Repeat(indent, done) + Repeat(indent, INDENT_LEVELS) == Repeat(indent, done + INDENT_LEVELS)
    ensures (left - INDENT_LEVELS) * |indent| == left * |indent| - INDENT_LEVELS * |indent|
  {
    RepeatAdd(indent, done, INDENT_LEVELS);
  }

  lemma {:induction false} EmptyRepeat(s: Text, n: nat)
    requires |s| == 0
    ensures Repeat(s, n) == []
  {
    assert |Repeat(s, n)| == n * 0;
  }

  /** getIndent: the first charsPerLevel chars of the sixteen-fold indent,
      which is the indent itself. */
  function GetIndent(i: Indenter): (r: Text)
    requires i.Lined?
    ensures r == IndentText(i, 1)[|i.eol|..]
  {
    var cpl := |i.indent|;
    RepeatPrefix(i.indent, 1, INDENT_LEVELS);
    Repeat(i.indent, INDENT_LEVELS)[..cpl]
  }

  /** withLinefeed: the same indenter when the line break is unchanged,
      else one with the new line break and the same indent. */
  function WithLinefeed(i: Indenter, lf: Text): (r: Indenter)
    requires i.Lined?
    ensures r.Lined? && r.eol == lf && GetIndent(r) == GetIndent(i)
    ensures lf == i.eol ==> r == i
  {
    if lf == i.eol then i else Lined(GetIndent(i), lf)
  }

  /** withIndent: the same indenter when the indent is unchanged, else one
      with the new indent and the same line break. */
  function WithIndent(i: Indenter, indent: Text): (r: Indenter)
    requires i.Lined?
    ensures r.Lined? && GetIndent(r) == indent && r.eol == i.eol
    ensures indent == GetIndent(i) ==> r == i
  {
    if indent == GetIndent(i) then i else Lined(indent, i.eol)
  }

  /** Indentation deepens by one indent per level. */
  lemma DeeperByOneIndent(i: Indenter, level: nat)
    requires i.Lined?
    ensures IndentText(i, level + 1) == IndentText(i, level) + i.indent
  {
    if level == 0 {
      assert Repeat(i.indent, 1) == i.indent;
    }
  }
}
