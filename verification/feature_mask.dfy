/** Feature flags as bit masks (JsonParser.Feature / JsonGenerator.Feature).

  Every feature owns the bit `1 << ordinal` of a 32-bit mask.  A mask is
  modelled as the set of the positions of its one bits, so `|` is union,
  `& ~` is difference and `&` is intersection.  Enabling sets a feature's
  bit, disabling clears it, `Override` replaces the bits a mask selects; each
  operation changes its own bits and no others.
 */
module FeatureMask {
  /** A feature's position in its enumeration, which is its bit number. */
  type Ordinal = o: nat | o < 32

  /** A 32-bit mask, as the set of its one bits. */
  type Mask = set<Ordinal>

  /** getMask: the feature's own bit. */
  function Bit(ordinal: Ordinal): (m: Mask)
  {
    {ordinal}
  }

  /** enabledIn: `(flags & mask) != 0`, that is, the feature's bit is set. */
  predicate EnabledIn(flags: Mask, ordinal: Ordinal)
  {
    ordinal in flags
  }

  /** enable: `flags | mask`. */
  function Enable(flags: Mask, ordinal: Ordinal): (r: Mask)
    ensures EnabledIn(r, ordinal)
    ensures forall j: Ordinal :: j != ordinal ==> (EnabledIn(r, j) <==> EnabledIn(flags, j))
  {
    flags + Bit(ordinal)
  }

  /** disable: `flags & ~mask`. */
  function Disable(flags: Mask, ordinal: Ordinal): (r: Mask)
    ensures !EnabledIn(r, ordinal)
    ensures forall j: Ordinal :: j != ordinal ==> (EnabledIn(r, j) <==> EnabledIn(flags, j))
  {
    flags - Bit(ordinal)
  }

  /** configure: enable or disable by `state`. */
  function Configure(flags: Mask, ordinal: Ordinal, state: bool): (r: Mask)
    ensures EnabledIn(r, ordinal) == state
    ensures forall j: Ordinal :: j != ordinal ==> (EnabledIn(r, j) <==> EnabledIn(flags, j))
  {
    if state then Enable(flags, ordinal) else Disable(flags, ordinal)
  }

  /** overrideStdFeatures: `(flags & ~mask) | (values & mask)`. */
  function Override(flags: Mask, values: Mask, mask: Mask): (r: Mask)
    ensures forall j: Ordinal :: EnabledIn(r, j) <==>
      (if EnabledIn(mask, j) then EnabledIn(values, j) else EnabledIn(flags, j))
  {
    (flags - mask) + (values * mask)
  }

  /** Enabling or disabling one feature is an override restricted to its bit. */
  lemma SingleOverride(flags: Mask, ordinal: Ordinal, state: bool)
    ensures Configure(flags, ordinal, state) == Override(flags, if state then Bit(ordinal) else {}, Bit(ordinal))
  {
  }

  /** An override whose mask has every bit set replaces every feature, as
      setFeatureMask does; with an empty mask it changes nothing. */
  lemma OverrideExtremes(flags: Mask, values: Mask, full: Mask)
    requires forall j: Ordinal :: EnabledIn(full, j)
    ensures Override(flags, values, full) == values
    ensures Override(flags, values, {}) == flags
  {
    forall j: Ordinal | j in values ensures j in full {
      assert EnabledIn(full, j);
    }
    assert values * full == values;
    assert flags - full == {} by {
      forall j: Ordinal | j in flags ensures j in full {
        assert EnabledIn(full, j);
      }
    }
  }

  /** Whether the feature at `j` is enabled by default. */
  predicate InDefaults(defaults: seq<bool>, j: Ordinal)
  {
    j < |defaults| && defaults[j]
  }

  /** collectDefaults: the union of the bits of the features, in ordinal
      order, that are enabled by default. */
  function CollectDefaults(defaults: seq<bool>): (r: Mask)
    requires |defaults| <= 32
    ensures |defaults| == 0 ==> r == {}
  {
    if |defaults| == 0 then {}
    else
      var n := |defaults| - 1;
      var prefix := CollectDefaults(defaults[..n]);
      if defaults[n] then Enable(prefix, n) else prefix
  }

  /** The collected mask enables exactly the features enabled by default. */
  lemma {:induction false} CollectDefaultsExact(defaults: seq<bool>)
    requires |defaults| <= 32
    ensures forall j: Ordinal :: EnabledIn(CollectDefaults(defaults), j) <==> InDefaults(defaults, j)
  {
    if |defaults| > 0 {
      var n := |defaults| - 1;
      CollectDefaultsExact(defaults[..n]);
      forall j: Ordinal | j != n
        ensures InDefaults(defaults[..n], j) <==> InDefaults(defaults, j)
      {
      }
    }
  }
}
