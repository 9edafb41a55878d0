/** NetPipeDeltaStateReliable: every state is sent as the difference from the one before,
    over a reliable channel without acknowledgements. */
module ReliablePipe {
  import opened BitStream
  import opened BitReader
  import opened BitWriter
  import opened StreamRuns
  import opened Schemas
  import opened CodecSpec
  import opened DeltaLimits
  import opened DecodeShape
  import opened Serializer
  import opened DeltaSerializer
  import opened Deserializer
  import opened DeltaDeserializer
  import opened StateWire
  import opened Wrappers

  /** The messages of a run of syncs, each with the padding of its last byte. */
  function Wires(s: Schema, last: Option<Value>, states: seq<Value>, paddings: seq<Bits>): (msgs: seq<Bits>)
    requires |paddings| == |states|
    ensures |msgs| == |states|
    decreases |states|
  {
    if states == [] then []
    else [Wire(s, last, states[0]) + paddings[0]] + Wires(s, Some(states[0]), states[1..], paddings[1..])
  }

  /** What the receiver hands to its callback for them. */
  ghost function Received(s: Schema, last: Option<Value>, msgs: seq<Bits>): Option<seq<Value>>
    decreases |msgs|
  {
    if msgs == [] then Some([])
    else
      var r := TakeWire(s, last, msgs[0]);
      if r.None? then None
      else
        var more := Received(s, Some(r.value.0), msgs[1..]);
        if more.None? then None else Some([r.value.0] + more.value)
  }

  /** Every state can be sent against the one before. */
  ghost predicate AllSendable(s: Schema, last: Option<Value>, states: seq<Value>)
    decreases |states|
  {
    states != [] ==> Sendable(s, states[0], last) && AllSendable(s, Some(states[0]), states[1..])
  }

  lemma {:induction false} LockstepHolds(s: Schema, last: Option<Value>, states: seq<Value>, paddings: seq<Bits>)
    requires s.WellFormed() && AllShaped(s, states) && StateShaped(s, last)
    requires |paddings| == |states| && AllSendable(s, last, states)
    ensures Received(s, last, Wires(s, last, states, paddings)) == Some(states)
    decreases |states|
  {
    hide TakeWire, Wire, Sendable, Shaped;
    if states != [] {
      var msgs := Wires(s, last, states, paddings);
      WireBack(s, last, states[0], paddings[0]);
      LockstepHolds(s, Some(states[0]), states[1..], paddings[1..]);
      assert msgs[1..] == Wires(s, Some(states[0]), states[1..], paddings[1..]);
      assert [states[0]] + states[1..] == states;
    }
  }

  lemma {:induction false} LockstepLost(s: Schema, last: Option<Value>, states: seq<Value>)
    requires s.WellFormed() && AllShaped(s, states) && StateShaped(s, last)
    requires !AllSendable(s, last, states)
    ensures Received(s, last, Wires(s, last, states, seq(|states|, _ => []))) != Some(states)
    decreases |states|
  {
    hide TakeWire, Wire, Sendable, Shaped;
    var paddings: seq<Bits> := seq(|states|, _ => []);
    var msgs := Wires(s, last, states, paddings);
    if !Sendable(s, states[0], last) {
      WireLost(s, last, states[0]);
    } else {
      WireBack(s, last, states[0], []);
      LockstepLost(s, Some(states[0]), states[1..]);
      assert paddings[1..] == seq(|states| - 1, _ => []);
      assert msgs[1..] == Wires(s, Some(states[0]), states[1..], paddings[1..]);
    }
  }

  /** The two ends stay in step, whatever the padding of the messages, if and only if every
      state can be sent against the one before. */
  lemma Lockstep(s: Schema, states: seq<Value>)
    requires s.WellFormed() && AllShaped(s, states)
    ensures
      (forall paddings: seq<Bits> :: |paddings| == |states| ==>
         Received(s, None, Wires(s, None, states, paddings)) == Some(states))
      <==> AllSendable(s, None, states)
  {
    hide Received, Wires, Shaped, AllSendable;
    if AllSendable(s, None, states) {
      forall paddings: seq<Bits> | |paddings| == |states|
        ensures Received(s, None, Wires(s, None, states, paddings)) == Some(states)
      {
        LockstepHolds(s, None, states, paddings);
      }
    } else {
      LockstepLost(s, None, states);
      var paddings: seq<Bits> := seq(|states|, _ => []);
      assert Received(s, None, Wires(s, None, states, paddings)) != Some(states);
    }
  }

  // ----- the two ends -----

  class ReliableSender {
    const schema: Schema
    var lastSyncedState: Option<Value>

    ghost predicate Valid()
      reads this
    {
      schema.WellFormed() && (lastSyncedState.Some? ==> Shaped(schema, lastSyncedState.value))
    }

    constructor (schema: Schema)
      requires schema.WellFormed()
      ensures Valid() && this.schema == schema && lastSyncedState.None?
    {
      this.schema := schema;
      lastSyncedState := None;
    }

    method SyncState(current_state: Value, writer: BitWriterVector)
      requires Valid() && Shaped(schema, current_state) && writer.Valid()
      modifies this, writer
      ensures Valid() && writer.Valid() && lastSyncedState == Some(current_state)
      ensures writer.stream == old(writer.stream)
        + if old(lastSyncedState).Some? then Delta(schema, current_state, old(lastSyncedState).value)
          else Full(schema, current_state)
    {
      hide BitWriterVector.Valid, Full, Delta, Shaped;
      if lastSyncedState.Some? {
        var wrote := SerializeValueDelta(schema, current_state, lastSyncedState.value, writer);
      } else {
        SerializeValue(schema, current_state, writer);
      }
      lastSyncedState := Some(current_state);
    }
  }

  class ReliableReceiver {
    const schema: Schema
    var referenceState: Option<Value>

    ghost predicate Valid()
      reads this
    {
      schema.WellFormed() && (referenceState.Some? ==> Shaped(schema, referenceState.value))
    }

    constructor (schema: Schema)
      requires schema.WellFormed()
      ensures Valid() && this.schema == schema && referenceState.None?
    {
      this.schema := schema;
      referenceState := None;
    }

    method GotMessage(reader: BitReaderBuffer) returns (update: Option<Value>)
      requires Valid() && reader.Valid()
      modifies this, reader
      ensures Valid()
      ensures Decoded(update, reader, TakeWire(schema, old(referenceState), old(reader.rest)))
      ensures referenceState == if update.Some? then update else old(referenceState)
    {
      hide BitReaderBuffer.Valid, TakeFull, TakeDelta, Shaped, Default;
      ghost var before := reader.rest;
      if referenceState.Some? {
        update := DeserializeValueDelta(schema, referenceState.value, reader);
        if update.None? {
          return;
        }
        DeltaShaped(schema, referenceState.value, before);
      } else {
        DefaultShaped(schema);
        update := DeserializeValue(schema, Default(schema), reader);
        if update.None? {
          return;
        }
        FullShaped(schema, Default(schema), before);
      }
      referenceState := update;
    }
  }

  /** A whole run: every state is synced, sent as bytes and received in turn. */
  method Mirror(s: Schema, states: seq<Value>) returns (updates: seq<Value>)
    requires s.WellFormed() && AllShaped(s, states) && AllSendable(s, None, states)
    ensures updates == states
  {
    hide Shaped, AllSendable;
    var sender := new ReliableSender(s);
    var receiver := new ReliableReceiver(s);
    updates := [];
    assert states[0..] == states;
    while |updates| < |states|
      invariant |updates| <= |states| && updates == states[..|updates|]
      invariant sender.Valid() && receiver.Valid() && sender.schema == receiver.schema == s
      invariant sender.lastSyncedState == receiver.referenceState
             == if updates == [] then None else Some(states[|updates| - 1])
      invariant AllSendable(s, sender.lastSyncedState, states[|updates|..])
    {
      var k := |updates|;
      SendableNext(s, sender.lastSyncedState, states[k..]);
      assert states[k..][1..] == states[k + 1..];
      var update := SendOne(sender, receiver, s, states[k]);
      updates := updates + [update.value];
    }
  }

  lemma SendableNext(s: Schema, last: Option<Value>, states: seq<Value>)
    requires states != [] && AllSendable(s, last, states)
    ensures Sendable(s, states[0], last) && AllSendable(s, Some(states[0]), states[1..])
  {
    hide Sendable;
  }

  method SendOne(sender: ReliableSender, receiver: ReliableReceiver, s: Schema, state: Value)
    returns (update: Option<Value>)
    requires sender.Valid() && receiver.Valid() && sender.schema == receiver.schema == s
    requires sender.lastSyncedState == receiver.referenceState
    requires Shaped(s, state) && Sendable(s, state, sender.lastSyncedState)
    modifies sender, receiver
    ensures sender.Valid() && receiver.Valid()
    ensures update == Some(state) && sender.lastSyncedState == receiver.referenceState == Some(state)
  {
    hide Sendable, Shaped, Full, Delta, TakeWire, BitWriterVector.Valid, BitReaderBuffer.Valid;
    var writer := new BitWriterVector();
    ghost var last := sender.lastSyncedState;
    sender.SyncState(state, writer);
    assert [] + Wire(s, last, state) == Wire(s, last, state);
    WrittenBuffer(writer);
    ghost var padding := Padding(writer.buffer, writer.stream);
    WireBack(s, last, state, padding);
    var reader := new BitReaderBuffer(writer.buffer);
    update := receiver.GotMessage(reader);
  }
}
