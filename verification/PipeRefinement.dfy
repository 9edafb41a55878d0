/** The sender and receiver objects take the steps of the pipe model, over a lossy channel as
    over a reliable one. */
module PipeRefinement {
  import opened BitUtil
  import opened BitStream
  import opened BitReader
  import opened BitWriter
  import opened StreamRuns
  import opened Schemas
  import opened CodecSpec
  import opened FullRoundTrip
  import opened DeltaStatePipe
  import opened LossyPipe
  import opened MirrorPipe
  import opened PipeModel
  import opened Wrappers

  /** The two objects are in the state the model says. */
  ghost predicate Mirrors(sender: Sender, receiver: Receiver, s: Schema, size: nat, p: Pipe)
    reads sender, sender.stateStore, sender.stateStore.store
    reads receiver, receiver.stateStore, receiver.stateStore.store
  {
    && sender.Valid() && sender.schema == s && sender.size == size
    && sender.lastAckedState == p.lastAcked && sender.nextStateSlot == p.nextSlot
    && sender.stateStore.store[..] == p.store
    && receiver.Valid() && receiver.schema == s && receiver.size == size
    && receiver.stateStore.store[..] == p.copies
    && receiver.stateStore.store != sender.stateStore.store
  }

  /** A sync puts the bytes of the model's message into the channel. */
  method SyncOver(sender: Sender, receiver: Receiver, s: Schema, size: nat, ghost p: Pipe, state: Value)
    returns (sent: bool, message: seq<Byte>, ghost p': Pipe)
    requires size > 0 && Mirrors(sender, receiver, s, size, p) && Shaped(s, state)
    modifies sender, sender.stateStore.store
    ensures Mirrors(sender, receiver, s, size, p')
    ensures sent <==> !Refused(size, p)
    ensures !sent ==> p' == p
    ensures sent ==> exists padding: Bits :: |padding| < 8 && p' == SyncStep(s, size, p, state, padding)
    ensures sent ==> p'.flight == p.flight + [BytesToBits(message)]
  {
    hide BitWriterVector.Valid, Message, Shaped, Full, Delta, ToBits, RequiredBits;
    var writer := new BitWriterVector();
    sent := sender.SyncState(state, writer);
    message := writer.buffer;
    p' := p;
    if sent {
      WrittenBuffer(writer);
      ghost var padding := Padding(writer.buffer, writer.stream);
      p' := SyncStep(s, size, p, state, padding);
      assert [] + Message(s, size, sender.nextStateSlot, sender.lastAckedState, state, Reference(p))
        == Message(s, size, sender.nextStateSlot, sender.lastAckedState, state, Reference(p));
    }
  }

  /** A delivered message leaves the receiver in the model's next state, whether it can be
      decoded or not. */
  method DeliverOver(sender: Sender, receiver: Receiver, s: Schema, size: nat, ghost p: Pipe, message: seq<Byte>)
    returns (update: Option<Value>, ack: seq<Byte>, ghost p': Pipe)
    requires size > 0 && Mirrors(sender, receiver, s, size, p)
    requires p.flight != [] && p.log.flight != [] && p.flight[0] == BytesToBits(message)
    requires Addressed(size, p.copies, p.flight[0])
    modifies receiver.stateStore.store
    ensures p' == DeliverStep(s, size, p) && Mirrors(sender, receiver, s, size, p')
    ensures
      var r := Receive(s, size, p.copies, p.flight[0]);
      update == if r.Some? then Some(r.value.1) else None
    ensures p'.delivered == if update.Some? then p.delivered + [update.value] else p.delivered
    ensures update.Some? ==>
      |p'.acks| == |p.acks| + 1 && ToBits(p'.acks[|p.acks|], RequiredBits(size - 1)) <= BytesToBits(ack)
  {
    hide BitWriterVector.Valid, BitReaderBuffer.Valid, Receive, Shaped, TakeHeader, Addressed;
    var reader := new BitReaderBuffer(message);
    var writer := new BitWriterVector();
    update := receiver.GotMessage(reader, writer);
    ack := writer.buffer;
    p' := DeliverStep(s, size, p);
    WrittenBuffer(writer);
    if update.Some? {
      ghost var padding := Padding(writer.buffer, writer.stream);
      ghost var slot_bits := ToBits(p'.acks[|p.acks|], RequiredBits(size - 1));
      assert [] + slot_bits == slot_bits;
    }
  }

  /** An acknowledgement that arrives, in turn or not, selects the model's next reference. */
  method AckOver(sender: Sender, receiver: Receiver, s: Schema, size: nat, ghost p: Pipe, ack: seq<Byte>,
      ghost slot: nat, ghost step: Step)
    returns (ghost p': Pipe)
    requires size > 0 && Mirrors(sender, receiver, s, size, p) && slot < size
    requires step == StrayAck(slot) || (step == Ack && p.acks != [] && p.log.acks != [] && p.acks[0] == slot)
    requires ToBits(slot, RequiredBits(size - 1)) <= BytesToBits(ack)
    modifies sender
    ensures p' == Next(s, size, p, step) && Mirrors(sender, receiver, s, size, p')
  {
    hide BitReaderBuffer.Valid, Shaped, SyncStep, DeliverStep;
    ghost var width := RequiredBits(size - 1);
    ghost var rest := BytesToBits(ack)[width..];
    assert BytesToBits(ack) == ToBits(slot, width) + rest;
    TakeCountBack(slot, size - 1, rest);
    var reader := new BitReaderBuffer(ack);
    var ok := sender.GotAck(reader);
    p' := Next(s, size, p, step);
  }

  // ----- the messages of a run are fit for the objects -----

  lemma DecodedAddressed(s: Schema, size: nat, store: seq<Option<Value>>, bits: Bits)
    requires |store| == size > 0 && Receive(s, size, store, bits).Some?
    ensures Addressed(size, store, bits)
  {
    hide TakeHeader, TakeFull, TakeDelta;
  }

  /** Over a lossy channel: the next message names slots that are there, and so does the next
      acknowledgement. */
  lemma LossyAddressed(s: Schema, size: nat, p: Pipe)
    requires s.WellFormed() && size > 0 && RequiredBits(size - 1) == RequiredBits(size) && Inv(s, size, p)
    ensures |p.copies| == size && |p.flight| == |p.log.flight| && |p.acks| == |p.log.acks|
    ensures p.flight != [] ==> Addressed(size, p.copies, p.flight[0])
    ensures p.acks != [] ==> p.acks[0] < size
  {
    hide Receive, Shaped, SenderInv, FlightInv;
    if p.flight != [] {
      DeliveredState(s, size, p);
      DecodedAddressed(s, size, p.copies, p.flight[0]);
    }
  }

  /** And over a reliable one. */
  lemma MirrorAddressed(s: Schema, size: nat, p: Pipe)
    requires s.WellFormed() && size > 0 && RequiredBits(size - 1) == RequiredBits(size) && MirrorInv(s, size, p)
    ensures |p.copies| == size && |p.flight| == |p.log.flight| && |p.acks| == |p.log.acks|
    ensures p.flight != [] ==> Addressed(size, p.copies, p.flight[0])
    ensures p.acks != [] ==> p.acks[0] < size
  {
    hide Receive, StoreShaped, PacketInv;
    if p.flight != [] {
      FrontPacket(s, size, p);
      PacketBack(s, size, p.log.sent, |p.delivered|, p.log.flight[0], p.flight[0]);
      DecodedAddressed(s, size, p.copies, p.flight[0]);
    }
  }
}
