/** A state as both delta pipes send it: in full, or as the difference from a reference state. */
module StateWire {
  import opened BitStream
  import opened Schemas
  import opened CodecSpec
  import opened FullExact
  import opened FullLimits
  import opened DeltaRoundTrip
  import opened DeltaExact
  import opened DeltaLimits
  import opened Wrappers

  function Wire(s: Schema, reference: Option<Value>, state: Value): Bits
  {
    if reference.Some? then Delta(s, state, reference.value) else Full(s, state)
  }

  ghost function TakeWire(s: Schema, reference: Option<Value>, bits: Bits): Option<(Value, Bits)>
  {
    if reference.Some? then TakeDelta(s, reference.value, bits) else TakeFull(s, Default(s), bits)
  }

  ghost predicate StateShaped(s: Schema, state: Option<Value>)
  {
    state.Some? ==> Shaped(s, state.value)
  }

  lemma FitsShaped(s: Schema, v: Value)
    requires Fits(s, v)
    ensures Shaped(s, v) && Sendable(s, v, None)
  {
  }

  lemma WireBack(s: Schema, reference: Option<Value>, state: Value, padding: Bits)
    requires s.WellFormed() && Shaped(s, state) && StateShaped(s, reference) && Sendable(s, state, reference)
    ensures TakeWire(s, reference, Wire(s, reference, state) + padding) == Some((state, padding))
  {
    hide TakeFull, TakeDelta, Full, Delta, Fits, DeltaFits, Shaped;
    if reference.Some? {
      DeltaRoundTrip.DeltaRoundTrip(s, state, reference.value, padding);
    } else {
      DecodeOverDefault(s, state, padding);
    }
  }

  /** Any other state behind a message that ends on a byte boundary is not received. */
  lemma WireLost(s: Schema, reference: Option<Value>, state: Value)
    requires s.WellFormed() && Shaped(s, state) && StateShaped(s, reference) && !Sendable(s, state, reference)
    ensures
      var r := TakeWire(s, reference, Wire(s, reference, state) + []);
      r.None? || r.value.0 != state
  {
    hide TakeFull, TakeDelta, Full, Delta, Fits, DeltaFits, Shaped;
    var r := TakeWire(s, reference, Wire(s, reference, state) + []);
    if reference == Some(state) {
      DeltaSilence(s, state, state);
      NothingToDecode(s, state);
      assert Delta(s, state, state) + [] == [];
    } else if r.Some? && r.value.0 == state {
      if reference.Some? {
        OnlyFittingDelta(s, state, reference.value, []);
      } else {
        OnlyFitting(s, state, []);
      }
    }
  }
}
