/** Runs of a delta state pipe over a reliable channel: messages arrive once and in order,
    acknowledgements at any time, in any order, repeated or not at all. */
module MirrorPipe {
  import opened BitUtil
  import opened BitStream
  import opened Schemas
  import opened DeltaLimits
  import opened DeltaStatePipe
  import opened PipeModel
  import opened Wrappers

  /** A slot store after the first `k` of the states sent. */
  function StoreAfter(size: nat, sent: seq<Value>, k: nat): (slots: seq<Option<Value>>)
    requires k <= |sent|
    ensures |slots| == size
  {
    if k == 0 then seq(size, _ => None)
    else
      var before := StoreAfter(size, sent, k - 1);
      if size > 0 then before[(k - 1) % size := Some(sent[k - 1])] else before
  }

  predicate Used(slots: seq<Option<Value>>, slot: nat)
  {
    slot < |slots| && slots[slot].Some?
  }

  /** No message is lost, an acknowledgement names a slot that has been used, and a state can
      be sent against its reference. */
  ghost predicate Possible(s: Schema, size: nat, p: Pipe, step: Step)
    requires size > 0
  {
    match step
    case Sync(state, _) => Shaped(s, state) && (!Refused(size, p) ==> Sendable(s, state, Reference(p)))
    case Drop => false
    case StrayAck(slot) => Used(p.store, slot)
    case _ => true
  }

  /** Message `k` was encoded against a state in the sender's store after `k` sends. */
  ghost predicate PacketInv(s: Schema, size: nat, sent: seq<Value>, k: nat, e: Flight, bits: Bits)
    requires size > 0 && k < |sent|
  {
    var slots := StoreAfter(size, sent, k);
    && Shaped(s, sent[k]) && StoreShaped(s, slots) && -1 <= e.slot < size
    && (e.slot >= 0 ==> slots[e.slot].Some?) && Sendable(s, sent[k], SlotAt(slots, e.slot))
    && bits == Message(s, size, k % size, e.slot, sent[k], SlotAt(slots, e.slot)) + e.padding
  }

  /** Every acknowledgement under way names a used slot. */
  predicate AcksUsed(p: Pipe)
  {
    |p.acks| == |p.log.acks| && forall i :: 0 <= i < |p.acks| ==> Used(p.store, p.acks[i])
  }

  ghost predicate PacketsInv(s: Schema, size: nat, p: Pipe)
    requires size > 0
  {
    var n, k := |p.log.sent|, |p.delivered|;
    && k <= n && |p.flight| == |p.log.flight| == n - k
    && forall i :: 0 <= i < n - k ==> PacketInv(s, size, p.log.sent, k + i, p.log.flight[i], p.flight[i])
  }

  /** The receiver's store after `k` messages is the sender's store after `k` sends, and the
      states delivered are the first `k` sent. */
  ghost predicate MirrorInv(s: Schema, size: nat, p: Pipe)
    requires size > 0
  {
    var n, k := |p.log.sent|, |p.delivered|;
    && k <= n && p.delivered == p.log.sent[..k]
    && p.nextSlot == SlotOf(n - 1, size)
    && p.store == StoreAfter(size, p.log.sent, n) && StoreShaped(s, p.store)
    && p.copies == StoreAfter(size, p.log.sent, k)
    && -1 <= p.lastAcked < size && (p.lastAcked >= 0 ==> Used(p.store, p.lastAcked))
    && AcksUsed(p) && PacketsInv(s, size, p)
  }

  lemma {:induction false} StoreAfterMore(size: nat, sent: seq<Value>, state: Value, k: nat)
    requires k <= |sent|
    ensures StoreAfter(size, sent + [state], k) == StoreAfter(size, sent, k)
    decreases k
  {
    if k > 0 { StoreAfterMore(size, sent, state, k - 1); }
  }

  /** Every slot a state has been put into stays used. */
  lemma {:induction false} StaysUsed(size: nat, sent: seq<Value>, j: nat, k: nat)
    requires size > 0 && j < k <= |sent|
    ensures Used(StoreAfter(size, sent, k), j % size)
    decreases k
  {
    if j < k - 1 { StaysUsed(size, sent, j, k - 1); }
  }

  lemma StoreShapedPut(s: Schema, slots: seq<Option<Value>>, i: nat, state: Value)
    requires StoreShaped(s, slots) && i < |slots| && Shaped(s, state)
    ensures StoreShaped(s, slots[i := Some(state)])
  {
    hide Shaped;
  }

  /** What a sync adds. */
  lemma SyncParts(s: Schema, size: nat, p: Pipe, state: Value, padding: Bits)
    requires size > 0 && |p.store| == size && p.nextSlot == SlotOf(|p.log.sent| - 1, size) && !Refused(size, p)
    ensures
      var n, p' := |p.log.sent|, SyncStep(s, size, p, state, padding);
      && p'.log.sent == p.log.sent + [state] && p'.delivered == p.delivered
      && p'.log.flight == p.log.flight + [Flight(n, p.log.acked, p.lastAcked, Reference(p), padding)]
      && p'.flight == p.flight + [Message(s, size, n % size, p.lastAcked, state, Reference(p)) + padding]
  {
    hide Message;
    NextSlot(|p.log.sent|, size);
  }

  lemma SyncKeepsPackets(s: Schema, size: nat, p: Pipe, state: Value, padding: Bits)
    requires size > 0 && MirrorInv(s, size, p) && Possible(s, size, p, Sync(state, padding)) && !Refused(size, p)
    ensures PacketsInv(s, size, SyncStep(s, size, p, state, padding))
  {
    hide Shaped, Sendable, Message, StoreShaped, PacketInv, AcksUsed, SyncStep, Refused, StoreAfter, Used, Reference;
    var n, k, p' := |p.log.sent|, |p.delivered|, SyncStep(s, size, p, state, padding);
    SyncParts(s, size, p, state, padding);
    forall i | 0 <= i < n + 1 - k
      ensures PacketInv(s, size, p'.log.sent, k + i, p'.log.flight[i], p'.flight[i])
    {
      if i < n - k {
        PacketKept(s, size, p.log.sent, state, k + i, p.log.flight[i], p.flight[i]);
      } else {
        NewPacket(s, size, p, state, padding);
      }
    }
  }

  lemma PacketKept(s: Schema, size: nat, sent: seq<Value>, state: Value, k: nat, e: Flight, bits: Bits)
    requires size > 0 && k < |sent| && PacketInv(s, size, sent, k, e, bits)
    ensures PacketInv(s, size, sent + [state], k, e, bits)
  {
    hide Shaped, Sendable, Message, StoreShaped;
    StoreAfterMore(size, sent, state, k);
  }

  lemma NewPacket(s: Schema, size: nat, p: Pipe, state: Value, padding: Bits)
    requires size > 0 && MirrorInv(s, size, p) && Possible(s, size, p, Sync(state, padding)) && !Refused(size, p)
    ensures
      var n := |p.log.sent|;
      PacketInv(s, size, p.log.sent + [state], n, Flight(n, p.log.acked, p.lastAcked, Reference(p), padding),
        Message(s, size, n % size, p.lastAcked, state, Reference(p)) + padding)
  {
    hide Shaped, Sendable, Message, StoreShaped, StoreAfter, PacketsInv, AcksUsed;
    StoreAfterMore(size, p.log.sent, state, |p.log.sent|);
  }

  lemma SyncKeepsMirror(s: Schema, size: nat, p: Pipe, state: Value, padding: Bits)
    requires size > 0 && MirrorInv(s, size, p) && Possible(s, size, p, Sync(state, padding))
    ensures MirrorInv(s, size, SyncStep(s, size, p, state, padding))
  {
    hide Shaped, Sendable, Message, StoreShaped, PacketsInv;
    var n, k := |p.log.sent|, |p.delivered|;
    NextSlot(n, size);
    if !Refused(size, p) {
      var p' := SyncStep(s, size, p, state, padding);
      assert p'.log.sent[..k] == p.log.sent[..k];
      StoreAfterMore(size, p.log.sent, state, n);
      StoreAfterMore(size, p.log.sent, state, k);
      StoreShapedPut(s, p.store, n % size, state);
      SyncKeepsPackets(s, size, p, state, padding);
    }
  }

  lemma DeliverKeepsMirror(s: Schema, size: nat, p: Pipe)
    requires s.WellFormed() && size > 0 && RequiredBits(size - 1) == RequiredBits(size) && MirrorInv(s, size, p)
    ensures MirrorInv(s, size, DeliverStep(s, size, p))
    ensures p.flight != [] ==>
      |p.delivered| < |p.log.sent|
      && DeliverStep(s, size, p).delivered == p.delivered + [p.log.sent[|p.delivered|]]
  {
    hide Shaped, Message, StoreShaped, Receive, PacketInv, PacketsInv;
    if p.flight != [] {
      FrontPacket(s, size, p);
      var k, p' := |p.delivered|, DeliverStep(s, size, p);
      PacketBack(s, size, p.log.sent, k, p.log.flight[0], p.flight[0]);
      StaysUsed(size, p.log.sent, k, |p.log.sent|);
      assert p.log.sent[..k + 1] == p.log.sent[..k] + [p.log.sent[k]];
      PacketsShift(s, size, p, p');
    }
  }

  lemma PacketsShift(s: Schema, size: nat, p: Pipe, p': Pipe)
    requires size > 0 && PacketsInv(s, size, p) && p.flight != []
    requires p'.log.sent == p.log.sent && |p'.delivered| == |p.delivered| + 1
    requires p'.flight == p.flight[1..] && p'.log.flight == p.log.flight[1..]
    ensures PacketsInv(s, size, p')
  {
    hide PacketInv;
    var k := |p.delivered|;
    forall i | 0 <= i < |p.log.sent| - k - 1
      ensures PacketInv(s, size, p'.log.sent, k + 1 + i, p'.log.flight[i], p'.flight[i])
    {
      assert PacketInv(s, size, p.log.sent, k + (i + 1), p.log.flight[i + 1], p.flight[i + 1]);
    }
  }

  lemma FrontPacket(s: Schema, size: nat, p: Pipe)
    requires size > 0 && PacketsInv(s, size, p) && p.flight != []
    ensures |p.delivered| < |p.log.sent| && |p.log.flight| > 0
    ensures PacketInv(s, size, p.log.sent, |p.delivered|, p.log.flight[0], p.flight[0])
  {
    hide PacketInv;
    assert PacketInv(s, size, p.log.sent, |p.delivered| + 0, p.log.flight[0], p.flight[0]);
  }

  lemma PacketBack(s: Schema, size: nat, sent: seq<Value>, k: nat, e: Flight, bits: Bits)
    requires s.WellFormed() && size > 0 && RequiredBits(size - 1) == RequiredBits(size)
    requires k < |sent| && PacketInv(s, size, sent, k, e, bits)
    ensures Receive(s, size, StoreAfter(size, sent, k), bits) == Some((k % size, sent[k], e.padding))
  {
    hide Shaped, Message, Receive, StoreAfter, Sendable;
    var slots := StoreAfter(size, sent, k);
    MessageBack(s, size, k % size, e.slot, sent[k], SlotAt(slots, e.slot), slots, e.padding);
  }

  lemma AckKeepsMirror(s: Schema, size: nat, p: Pipe, step: Step)
    requires size > 0 && MirrorInv(s, size, p) && Possible(s, size, p, step)
    requires step.Ack? || step.DropAck? || step.StrayAck?
    ensures MirrorInv(s, size, Next(s, size, p, step))
  {
    hide Shaped, StoreShaped, PacketInv, StoreAfter, SyncStep, DeliverStep;
  }

  // ----- whole runs -----

  ghost predicate AllPossible(s: Schema, size: nat, p: Pipe, steps: seq<Step>)
    requires size > 0
    decreases |steps|
  {
    steps != [] ==> Possible(s, size, p, steps[0]) && AllPossible(s, size, Next(s, size, p, steps[0]), steps[1..])
  }

  lemma MirrorStep(s: Schema, size: nat, p: Pipe, step: Step)
    requires s.WellFormed() && size > 0 && RequiredBits(size - 1) == RequiredBits(size)
    requires MirrorInv(s, size, p) && Possible(s, size, p, step)
    ensures MirrorInv(s, size, Next(s, size, p, step))
  {
    hide MirrorInv, Shaped, Sendable, SyncStep, DeliverStep;
    match step
    case Sync(state, padding) => SyncKeepsMirror(s, size, p, state, padding);
    case Deliver => DeliverKeepsMirror(s, size, p);
    case Drop =>
    case Ack => AckKeepsMirror(s, size, p, step);
    case DropAck => AckKeepsMirror(s, size, p, step);
    case StrayAck(_) => AckKeepsMirror(s, size, p, step);
  }

  lemma {:induction false} MirrorKept(s: Schema, size: nat, p: Pipe, steps: seq<Step>)
    requires s.WellFormed() && size > 0 && RequiredBits(size - 1) == RequiredBits(size)
    requires MirrorInv(s, size, p) && AllPossible(s, size, p, steps)
    ensures MirrorInv(s, size, Run(s, size, p, steps))
    decreases |steps|
  {
    hide MirrorInv, Possible, Next;
    if steps != [] {
      MirrorStep(s, size, p, steps[0]);
      MirrorKept(s, size, Next(s, size, p, steps[0]), steps[1..]);
    }
  }

  /** For every run: the receiver's store after `k` messages equals the sender's store after
      `k` sends, and the callback has seen exactly the first `k` states. */
  lemma ReliableMirror(s: Schema, size: nat, steps: seq<Step>)
    requires s.WellFormed() && size > 0 && RequiredBits(size - 1) == RequiredBits(size)
    requires AllPossible(s, size, Initial(size), steps)
    ensures
      var p := Run(s, size, Initial(size), steps);
      && p.delivered <= p.log.sent
      && p.store == StoreAfter(size, p.log.sent, |p.log.sent|)
      && p.copies == StoreAfter(size, p.log.sent, |p.delivered|)
      && (p.flight == [] ==> p.delivered == p.log.sent && p.copies == p.store)
  {
    hide Shaped, AllPossible, Run, PacketInv;
    assert MirrorInv(s, size, Initial(size));
    MirrorKept(s, size, Initial(size), steps);
  }
}
