/** Duplicate field-name detection (DupDetector).

  The detector remembers the first two names in fields of their own and only
  creates a hash set once a third distinct name arrives; the names it has seen
  are, in every state, exactly those of `Seen`.
 */
module DupDetector {
  import opened Ints
  import opened Wrappers

  type Name = seq<unit16>

  /** Who a detector reports for: only a parser can supply a location. */
  datatype Source = ParserSource(parserId: nat) | GeneratorSource(generatorId: nat)

  datatype Detector = Detector(source: Source, first: Option<Name>, second: Option<Name>, seen: Option<set<Name>>)

  /** The names the detector has recorded. */
  function Seen(d: Detector): set<Name>
  {
    (if d.first.Some? then {d.first.value} else {})
    + (if d.second.Some? then {d.second.value} else {})
    + (if d.seen.Some? then d.seen.value else {})
  }

  /** The second slot is filled only after the first, the set only after both,
      and once created the set holds both. */
  predicate Valid(d: Detector)
  {
    && (d.second.Some? ==> d.first.Some? && d.first.value != d.second.value)
    && (d.seen.Some? ==> d.second.Some? && d.first.value in d.seen.value && d.second.value in d.seen.value)
  }

  /** rootDetector: an empty detector for a parser or a generator. */
  function RootDetector(source: Source): (d: Detector)
    ensures Valid(d) && Seen(d) == {} && d.source == source
  {
    Detector(source, None, None, None)
  }

  /** child: an empty detector reporting for the same source. */
  function Child(d: Detector): (c: Detector)
    ensures Valid(c) && Seen(c) == {} && c.source == d.source
  {
    Detector(d.source, None, None, None)
  }

  /** reset: forget every name. */
  function Reset(d: Detector): (r: Detector)
    ensures Valid(r) && Seen(r) == {} && r.source == d.source
  {
    d.(first := None, second := None, seen := None)
  }

  /** isDup: whether `name` was seen before; either way it is seen afterwards. */
  function IsDup(d: Detector, name: Name): (r: (bool, Detector))
    requires Valid(d)
    ensures Valid(r.1) && r.1.source == d.source
    ensures r.0 <==> name in Seen(d)
    ensures Seen(r.1) == Seen(d) + {name}
  {
    if d.first.None? then
      (false, d.(first := Some(name)))
    else if name == d.first.value then
      (true, d)
    else if d.second.None? then
      (false, d.(second := Some(name)))
    else if name == d.second.value then
      (true, d)
    else
      var seen := if d.seen.None? then {d.first.value, d.second.value} else d.seen.value;
      (name in seen, d.(seen := Some(seen + {name})))
  }

  /** The answers to a run of isDup calls. */
  function Answers(d: Detector, names: seq<Name>): (r: (seq<bool>, Detector))
    requires Valid(d)
    ensures Valid(r.1) && |r.0| == |names|
    decreases |names|
  {
    if |names| == 0 then ([], d)
    else
      var (dup, d') := IsDup(d, names[0]);
      var (rest, d'') := Answers(d', names[1..]);
      ([dup] + rest, d'')
  }

  /** Over any run of names the detector answers exactly as a set would:
      a name is a duplicate iff it was seen before or occurs earlier in the run. */
  lemma {:induction false} AnswersAreSetSemantics(d: Detector, names: seq<Name>)
    requires Valid(d)
    ensures forall i :: 0 <= i < |names| ==>
      (Answers(d, names).0[i] <==> names[i] in Seen(d) || names[i] in names[..i])
    ensures Seen(Answers(d, names).1) == Seen(d) + set i | 0 <= i < |names| :: names[i]
    decreases |names|
  {
    if |names| > 0 {
      var (dup, d') := IsDup(d, names[0]);
      var tail := names[1..];
      AnswersAreSetSemantics(d', tail);
      var answers := Answers(d, names).0;
      assert answers == [dup] + Answers(d', tail).0;
      forall i | 0 <= i < |names|
        ensures answers[i] <==> names[i] in Seen(d) || names[i] in names[..i]
      {
        if i > 0 {
          assert answers[i] == Answers(d', tail).0[i - 1];
          assert tail[i - 1] == names[i];
          assert names[..i] == [names[0]] + tail[..i - 1];
        }
      }
      ElementsCons(names);
    }
  }

  /** The names of a run are its first name and the names of the rest. */
  lemma ElementsCons(names: seq<Name>)
    requires |names| > 0
    ensures (set i | 0 <= i < |names| :: names[i]) ==
      {names[0]} + set i | 0 <= i < |names[1..]| :: names[1..][i]
  {
    var tail := names[1..];
    var all := set i | 0 <= i < |names| :: names[i];
    var later := set i | 0 <= i < |tail| :: tail[i];
    forall x | x in all ensures x in {names[0]} + later {
      var i :| 0 <= i < |names| && names[i] == x;
      if i > 0 {
        assert tail[i - 1] == x;
      }
    }
    forall x | x in later ensures x in all {
      var i :| 0 <= i < |tail| && tail[i] == x;
      assert names[i + 1] == x;
    }
  }
}
