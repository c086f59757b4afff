/** Choosing a data format from the match strengths of the candidate
  factories (MatchStrength, DataFormatDetector).

  Each candidate reports how strongly the input looks like its format, or
  nothing at all.  The detector keeps the first candidate that beats the
  minimal strength and every candidate before it, and stops early at the
  first one that reaches the optimal strength.  The reports are the model's
  input: what each factory's format check answers is not modelled here.
 */
module DataFormat {
  import opened Wrappers

  /** MatchStrength, in increasing order. */
  datatype MatchStrength = NO_MATCH | INCONCLUSIVE | WEAK_MATCH | SOLID_MATCH | FULL_MATCH

  /** The enum's ordinal, which the detector compares. */
  function Rank(s: MatchStrength): (r: nat)
    ensures r < 5
  {
    match s
    case NO_MATCH => 0
    case INCONCLUSIVE => 1
    case WEAK_MATCH => 2
    case SOLID_MATCH => 3
    case FULL_MATCH => 4
  }

  lemma RankInjective(a: MatchStrength, b: MatchStrength)
    ensures Rank(a) == Rank(b) <==> a == b
  {
  }

  const DEFAULT_MAX_INPUT_LOOKAHEAD: int := 64

  datatype Detector = Detector(optimalMatch: MatchStrength, minimalMatch: MatchStrength, maxInputLookahead: int)

  /** The public constructor: stop at a solid match, accept a weak one, look
      at most 64 bytes ahead. */
  function New(): (d: Detector)
    ensures d.optimalMatch == SOLID_MATCH && d.minimalMatch == WEAK_MATCH
    ensures d.maxInputLookahead == DEFAULT_MAX_INPUT_LOOKAHEAD
  {
    Detector(SOLID_MATCH, WEAK_MATCH, DEFAULT_MAX_INPUT_LOOKAHEAD)
  }

  /** withOptimalMatch: the same detector when nothing changes. */
  function WithOptimalMatch(d: Detector, optMatch: MatchStrength): (r: Detector)
    ensures r.optimalMatch == optMatch
    ensures r.minimalMatch == d.minimalMatch && r.maxInputLookahead == d.maxInputLookahead
    ensures optMatch == d.optimalMatch ==> r == d
  {
    if optMatch == d.optimalMatch then d else Detector(optMatch, d.minimalMatch, d.maxInputLookahead)
  }

  /** withMinimalMatch. */
  function WithMinimalMatch(d: Detector, minMatch: MatchStrength): (r: Detector)
    ensures r.minimalMatch == minMatch
    ensures r.optimalMatch == d.optimalMatch && r.maxInputLookahead == d.maxInputLookahead
    ensures minMatch == d.minimalMatch ==> r == d
  {
    if minMatch == d.minimalMatch then d else Detector(d.optimalMatch, minMatch, d.maxInputLookahead)
  }

  /** withMaxInputLookahead. */
  function WithMaxInputLookahead(d: Detector, lookaheadBytes: int): (r: Detector)
    ensures r.maxInputLookahead == lookaheadBytes
    ensures r.optimalMatch == d.optimalMatch && r.minimalMatch == d.minimalMatch
    ensures lookaheadBytes == d.maxInputLookahead ==> r == d
  {
    if lookaheadBytes == d.maxInputLookahead then d else Detector(d.optimalMatch, d.minimalMatch, lookaheadBytes)
  }

  /** A report that is present and at least the minimal strength. */
  predicate Qualifies(d: Detector, s: Option<MatchStrength>)
  {
    s.Some? && Rank(s.value) >= Rank(d.minimalMatch)
  }

  /** The winning candidate and its strength. */
  datatype Match = Match(index: nat, strength: MatchStrength)

  /** What the choice of `m` promises: it qualifies; every earlier qualifying
      candidate is weaker than it and below the optimal strength; and either
      it reaches the optimal strength or no later candidate beats it. */
  predicate Chosen(d: Detector, reports: seq<Option<MatchStrength>>, m: Match)
  {
    && m.index < |reports|
    && reports[m.index] == Some(m.strength)
    && Rank(m.strength) >= Rank(d.minimalMatch)
    && (forall j :: 0 <= j < m.index && Qualifies(d, reports[j]) ==>
          Rank(reports[j].value) < Rank(m.strength) && Rank(reports[j].value) < Rank(d.optimalMatch))
    && (Rank(m.strength) >= Rank(d.optimalMatch) ||
        forall j :: m.index < j < |reports| && Qualifies(d, reports[j]) ==> Rank(reports[j].value) <= Rank(m.strength))
  }

  /** _findFormat over the candidates' reports, in order. */
  method FindFormat(d: Detector, reports: seq<Option<MatchStrength>>) returns (best: Option<Match>)
    ensures best.None? <==> forall j :: 0 <= j < |reports| ==> !Qualifies(d, reports[j])
    ensures best.Some? ==> Chosen(d, reports, best.value)
  {
    best := None;
    var i := 0;
    while i < |reports|
      invariant 0 <= i <= |reports|
      invariant best.None? <==> forall j :: 0 <= j < i ==> !Qualifies(d, reports[j])
      invariant best.Some? ==> Chosen(d, reports[..i], best.value)
      invariant best.Some? ==> Rank(best.value.strength) < Rank(d.optimalMatch)
    {
      var strength := reports[i];
      if strength.None? || Rank(strength.value) < Rank(d.minimalMatch) {
        i := i + 1;
        continue;
      }
      if best.Some? && Rank(best.value.strength) >= Rank(strength.value) {
        i := i + 1;
        continue;
      }
      best := Some(Match(i, strength.value));
      if Rank(strength.value) >= Rank(d.optimalMatch) {
        assert Chosen(d, reports[..i + 1], best.value);
        ChosenExtends(d, reports, i + 1, best.value);
        return;
      }
      i := i + 1;
    }
    assert reports[..i] == reports;
  }

  /** A choice that reached the optimal strength stays the choice whatever
      candidates follow. */
  lemma ChosenExtends(d: Detector, reports: seq<Option<MatchStrength>>, n: nat, m: Match)
    requires n <= |reports| && Chosen(d, reports[..n], m) && Rank(m.strength) >= Rank(d.optimalMatch)
    ensures Chosen(d, reports, m)
  {
    assert forall j :: 0 <= j < m.index ==> reports[..n][j] == reports[j];
  }

  /** At most one candidate meets the promise, so it pins down the result. */
  lemma ChosenUnique(d: Detector, reports: seq<Option<MatchStrength>>, a: Match, b: Match)
    requires Chosen(d, reports, a) && Chosen(d, reports, b)
    ensures a == b
  {
  }

  /** Without an early stop the winner is the first of the strongest
      qualifying candidates. */
  lemma FirstStrongestWins(d: Detector, reports: seq<Option<MatchStrength>>, m: Match)
    requires Chosen(d, reports, m) && Rank(m.strength) < Rank(d.optimalMatch)
    ensures forall j :: 0 <= j < |reports| && Qualifies(d, reports[j]) ==> Rank(reports[j].value) <= Rank(m.strength)
    ensures forall j :: 0 <= j < m.index && Qualifies(d, reports[j]) ==> Rank(reports[j].value) < Rank(m.strength)
  {
  }
}
