/** Runs of a delta state pipe over a channel that may drop messages and acknowledgements
    but neither reorders nor repeats them. */
module LossyPipe {
  import opened BitUtil
  import opened BitStream
  import opened Schemas
  import opened DeltaLimits
  import opened DeltaStatePipe
  import opened PipeModel
  import opened Wrappers

  /** The channel neither repeats nor reorders, at most `early` states are synced before the
      first acknowledgement arrives, and each can be sent against its reference. */
  ghost predicate Allowed(s: Schema, size: nat, early: nat, p: Pipe, step: Step)
    requires size > 0
  {
    match step
    case Sync(state, _) =>
      && Shaped(s, state)
      && (p.lastAcked < 0 ==> |p.log.sent| < early)
      && (!Refused(size, p) ==> Sendable(s, state, Reference(p)))
    case StrayAck(_) => false
    case _ => true
  }

  // ----- the invariant -----

  /** The number of the last state delivered, -1 before the first. */
  function LastOf(numbers: seq<nat>): int
  {
    if numbers == [] then -1 else numbers[|numbers| - 1]
  }

  ghost predicate Ascending(numbers: seq<nat>)
  {
    forall i, j :: 0 <= i < j < |numbers| ==> numbers[i] < numbers[j]
  }

  ghost predicate SenderInv(s: Schema, size: nat, p: Pipe)
    requires size > 0
  {
    var n := |p.log.sent|;
    && |p.store| == size && p.nextSlot == SlotOf(n - 1, size)
    && (forall i :: 0 <= i < n ==> Shaped(s, p.log.sent[i]))
    && (forall i :: 0 <= i < n && n - size <= i ==> p.store[i % size] == Some(p.log.sent[i]))
    && -1 <= p.log.acked < n && p.lastAcked == SlotOf(p.log.acked, size)
    // Fewer than `size` states lie past the last acknowledged one.
    && n - 1 - p.log.acked < (if p.log.acked < 0 then size + 1 else size)
  }

  ghost predicate AcksInv(size: nat, p: Pipe)
    requires size > 0
  {
    && |p.acks| == |p.log.acks|
    && Ascending(p.log.acks) && Ascending(p.log.delivered)
    && (forall i :: 0 <= i < |p.log.acks| ==>
          && p.log.acked < p.log.acks[i] <= LastOf(p.log.delivered)
          && p.log.acks[i] in p.log.delivered && p.acks[i] == p.log.acks[i] % size)
    && p.log.acked <= LastOf(p.log.delivered) < |p.log.sent|
    && (p.log.acked >= 0 ==> p.log.acked in p.log.delivered)
  }

  ghost predicate ReceiverInv(size: nat, p: Pipe)
    requires size > 0
  {
    && |p.copies| == size && |p.delivered| == |p.log.delivered|
    && (forall i :: 0 <= i < |p.log.delivered| ==>
          p.log.delivered[i] < |p.log.sent| && p.delivered[i] == p.log.sent[p.log.delivered[i]])
    && (forall j :: j in p.log.delivered && j > LastOf(p.log.delivered) - size ==>
          j < |p.log.sent| && p.copies[j % size] == Some(p.log.sent[j]))
  }

  /** The bits of a message under way, and the window its reference lies in. */
  ghost predicate FlightInv(s: Schema, size: nat, sent: seq<Value>, last: int, delivered: seq<nat>, e: Flight,
        bits: Bits)
    requires size > 0
  {
    && e.number < |sent| && -1 <= e.ref < e.number && e.number > last
    && (e.ref >= 0 ==> e.number - e.ref < size && e.ref in delivered)
    && e.slot == SlotOf(e.ref, size) && e.against == (if e.ref >= 0 then Some(sent[e.ref]) else None)
    && Sendable(s, sent[e.number], e.against)
    && bits == Message(s, size, e.number % size, e.slot, sent[e.number], e.against) + e.padding
  }

  ghost predicate ChannelInv(s: Schema, size: nat, p: Pipe)
    requires size > 0
  {
    && |p.flight| == |p.log.flight|
    && (forall i :: 0 <= i < |p.flight| ==>
          FlightInv(s, size, p.log.sent, LastOf(p.log.delivered), p.log.delivered, p.log.flight[i], p.flight[i]))
    && (forall i, j :: 0 <= i < j < |p.flight| ==> p.log.flight[i].number < p.log.flight[j].number)
  }

  ghost predicate Inv(s: Schema, size: nat, p: Pipe)
    requires size > 0
  {
    SenderInv(s, size, p) && AcksInv(size, p) && ReceiverInv(size, p) && ChannelInv(s, size, p)
  }

  // ----- every step keeps the invariant -----

  lemma InitialInv(s: Schema, size: nat)
    requires size > 0
    ensures Inv(s, size, Initial(size))
  {
  }

  /** The sender's reference slot holds the state that was acknowledged last. */
  lemma ReferenceKept(s: Schema, size: nat, p: Pipe)
    requires size > 0 && SenderInv(s, size, p) && p.log.acked >= 0
    ensures Reference(p) == Some(p.log.sent[p.log.acked])
  {
    hide Shaped, Sendable;
    assert p.log.acked >= |p.log.sent| - size;
  }

  lemma NotRefused(s: Schema, size: nat, p: Pipe)
    requires size > 0 && SenderInv(s, size, p)
    ensures (p.nextSlot + 1) % size == |p.log.sent| % size
    ensures Refused(size, p) <==> p.log.acked >= 0 && |p.log.sent| - p.log.acked == size
  {
    hide Shaped, Sendable;
    var n := |p.log.sent|;
    NextSlot(n, size);
    if p.log.acked >= 0 {
      if n - p.log.acked == size {
        SlotAgain(p.log.acked, size);
      } else {
        SlotsDiffer(p.log.acked, n, size);
      }
    }
  }

  lemma SyncKeepsSender(s: Schema, size: nat, p: Pipe, state: Value, padding: Bits)
    requires size > 0 && SenderInv(s, size, p) && Shaped(s, state) && !Refused(size, p)
    requires p.lastAcked < 0 ==> |p.log.sent| < size
    ensures SenderInv(s, size, SyncStep(s, size, p, state, padding))
  {
    hide Shaped, Sendable, Message;
    var n, p' := |p.log.sent|, SyncStep(s, size, p, state, padding);
    NotRefused(s, size, p);
    forall i | 0 <= i < n + 1 && n + 1 - size <= i
      ensures p'.store[i % size] == Some(p'.log.sent[i])
    {
      if i < n { SlotsDiffer(i, n, size); }
    }
  }

  lemma SyncKeepsChannel(s: Schema, size: nat, p: Pipe, state: Value, padding: Bits)
    requires size > 0 && SenderInv(s, size, p) && AcksInv(size, p) && ChannelInv(s, size, p)
    requires Allowed(s, size, size, p, Sync(state, padding)) && !Refused(size, p)
    ensures ChannelInv(s, size, SyncStep(s, size, p, state, padding))
  {
    hide Shaped, Sendable, Message;
    var n, p' := |p.log.sent|, SyncStep(s, size, p, state, padding);
    NotRefused(s, size, p);
    if p.log.acked >= 0 { ReferenceKept(s, size, p); }
    forall i | 0 <= i < |p'.flight|
      ensures FlightInv(s, size, p'.log.sent, LastOf(p'.log.delivered), p'.log.delivered, p'.log.flight[i],
        p'.flight[i])
    {
      if i < |p.flight| {
        assert FlightInv(s, size, p.log.sent, LastOf(p.log.delivered), p.log.delivered, p.log.flight[i], p.flight[i]);
      }
    }
    forall i, j | 0 <= i < j < |p'.flight| ensures p'.log.flight[i].number < p'.log.flight[j].number {
      assert FlightInv(s, size, p.log.sent, LastOf(p.log.delivered), p.log.delivered, p.log.flight[i], p.flight[i]);
    }
  }

  lemma SyncKeepsReceiver(s: Schema, size: nat, p: Pipe, state: Value, padding: Bits)
    requires size > 0 && ReceiverInv(size, p) && AcksInv(size, p)
    ensures ReceiverInv(size, SyncStep(s, size, p, state, padding))
    ensures AcksInv(size, SyncStep(s, size, p, state, padding))
  {
    hide Message, LastOf, Ascending;
  }

  lemma SyncKeeps(s: Schema, size: nat, p: Pipe, state: Value, padding: Bits)
    requires size > 0 && Inv(s, size, p) && Allowed(s, size, size, p, Sync(state, padding))
    ensures Inv(s, size, SyncStep(s, size, p, state, padding))
  {
    if Refused(size, p) {
    } else {
      hide SenderInv, ChannelInv, AcksInv, ReceiverInv, SyncStep, Shaped, Sendable;
      SyncKeepsSender(s, size, p, state, padding);
      SyncKeepsChannel(s, size, p, state, padding);
      SyncKeepsReceiver(s, size, p, state, padding);
    }
  }

  /** The message in front is decoded against the very state it was encoded against: both
      ends hold it in the slot the message names. */
  lemma ReferenceShared(s: Schema, size: nat, p: Pipe)
    requires size > 0 && Inv(s, size, p)
    ensures ReferenceAgrees(p)
  {
    hide Shaped, Sendable, Message;
    if p.flight != [] {
      assert FlightInv(s, size, p.log.sent, LastOf(p.log.delivered), p.log.delivered, p.log.flight[0], p.flight[0]);
    }
  }

  lemma DeliveredState(s: Schema, size: nat, p: Pipe)
    requires s.WellFormed() && size > 0 && RequiredBits(size - 1) == RequiredBits(size)
    requires Inv(s, size, p) && p.flight != []
    ensures
      var e := p.log.flight[0];
      && e.number < |p.log.sent|
      && Receive(s, size, p.copies, p.flight[0]) == Some((e.number % size, p.log.sent[e.number], e.padding))
  {
    hide Shaped, Sendable, Message, Receive;
    var e := p.log.flight[0];
    assert FlightInv(s, size, p.log.sent, LastOf(p.log.delivered), p.log.delivered, e, p.flight[0]);
    ReferenceShared(s, size, p);
    assert e.against == if e.slot >= 0 then p.copies[e.slot] else None;
    MessageBack(s, size, e.number % size, e.slot, p.log.sent[e.number], e.against, p.copies, e.padding);
  }

  lemma DropKeeps(s: Schema, size: nat, p: Pipe)
    requires size > 0 && Inv(s, size, p)
    ensures Inv(s, size, Next(s, size, p, Drop))
  {
    hide Shaped, Sendable, FlightInv;
  }

  lemma DeliverKeepsReceiver(s: Schema, size: nat, p: Pipe, p': Pipe)
    requires size > 0 && ReceiverInv(size, p) && AcksInv(size, p) && p.log.flight != []
    requires
      var n := p.log.flight[0].number;
      && LastOf(p.log.delivered) < n < |p.log.sent| && p'.log.sent == p.log.sent
      && p'.copies == p.copies[n % size := Some(p.log.sent[n])]
      && p'.delivered == p.delivered + [p.log.sent[n]]
      && p'.log.delivered == p.log.delivered + [n]
    ensures ReceiverInv(size, p')
  {
    var n := p.log.flight[0].number;
    forall j | j in p'.log.delivered && j > n - size
      ensures j < |p.log.sent| && p'.copies[j % size] == Some(p.log.sent[j])
    {
      if j != n {
        AscendingLast(p.log.delivered, j);
        SlotsDiffer(j, n, size);
      }
    }
  }

  lemma AscendingLast(numbers: seq<nat>, j: nat)
    requires Ascending(numbers) && j in numbers
    ensures j <= LastOf(numbers)
  {
  }

  lemma DeliverKeepsAcks(s: Schema, size: nat, p: Pipe, p': Pipe)
    requires size > 0 && AcksInv(size, p) && p.log.flight != []
    requires
      var n := p.log.flight[0].number;
      && LastOf(p.log.delivered) < n < |p.log.sent| && p'.log.sent == p.log.sent && p'.log.acked == p.log.acked
      && p'.acks == p.acks + [n % size] && p'.log.acks == p.log.acks + [n]
      && p'.log.delivered == p.log.delivered + [n]
    ensures AcksInv(size, p')
  {
    var n := p.log.flight[0].number;
    forall i | 0 <= i < |p.log.delivered| ensures p.log.delivered[i] < n {
      AscendingLast(p.log.delivered, p.log.delivered[i]);
    }
  }

  lemma DeliverKeepsChannel(s: Schema, size: nat, p: Pipe, p': Pipe)
    requires size > 0 && ChannelInv(s, size, p) && p.log.flight != []
    requires
      && p'.log.sent == p.log.sent && p'.flight == p.flight[1..] && p'.log.flight == p.log.flight[1..]
      && p'.log.delivered == p.log.delivered + [p.log.flight[0].number]
    ensures ChannelInv(s, size, p')
  {
    hide Message;
    forall i | 0 <= i < |p'.flight|
      ensures FlightInv(s, size, p'.log.sent, LastOf(p'.log.delivered), p'.log.delivered, p'.log.flight[i],
        p'.flight[i])
    {
      assert FlightInv(s, size, p.log.sent, LastOf(p.log.delivered), p.log.delivered, p.log.flight[i + 1],
          p.flight[i + 1]);
    }
  }

  lemma DeliverKeeps(s: Schema, size: nat, p: Pipe)
    requires s.WellFormed() && size > 0 && RequiredBits(size - 1) == RequiredBits(size) && Inv(s, size, p)
    ensures Inv(s, size, DeliverStep(s, size, p))
  {
    hide Receive, Shaped, Sendable, FlightInv, ReceiverInv, AcksInv;
    if p.flight != [] {
      var p' := DeliverStep(s, size, p);
      DeliveredState(s, size, p);
      FrontAhead(s, size, p);
      Lengths(s, size, p);
      DeliverKeepsReceiver(s, size, p, p');
      DeliverKeepsAcks(s, size, p, p');
      DeliverKeepsChannel(s, size, p, p');
    }
  }

  lemma FrontAhead(s: Schema, size: nat, p: Pipe)
    requires size > 0 && ChannelInv(s, size, p) && p.flight != []
    ensures LastOf(p.log.delivered) < p.log.flight[0].number < |p.log.sent|
  {
    assert FlightInv(s, size, p.log.sent, LastOf(p.log.delivered), p.log.delivered, p.log.flight[0], p.flight[0]);
  }

  lemma Lengths(s: Schema, size: nat, p: Pipe)
    requires size > 0 && ReceiverInv(size, p) && ChannelInv(s, size, p)
    ensures |p.copies| == size && |p.flight| == |p.log.flight|
  {
    hide FlightInv;
  }

  lemma AckKeepsSender(s: Schema, size: nat, p: Pipe)
    requires size > 0 && SenderInv(s, size, p) && AcksInv(size, p)
    ensures SenderInv(s, size, Next(s, size, p, Ack)) && SenderInv(s, size, Next(s, size, p, DropAck))
  {
    hide Shaped, Sendable, SyncStep, DeliverStep, Ascending;
  }

  lemma AckKeepsAcks(s: Schema, size: nat, p: Pipe)
    requires size > 0 && AcksInv(size, p)
    ensures AcksInv(size, Next(s, size, p, Ack)) && AcksInv(size, Next(s, size, p, DropAck))
  {
    hide SyncStep, DeliverStep;
  }

  lemma AckKeepsOthers(s: Schema, size: nat, p: Pipe, step: Step)
    requires size > 0 && ReceiverInv(size, p) && ChannelInv(s, size, p) && (step.Ack? || step.DropAck?)
    ensures ReceiverInv(size, Next(s, size, p, step)) && ChannelInv(s, size, Next(s, size, p, step))
  {
    hide SyncStep, DeliverStep, FlightInv, LastOf;
  }

  lemma AckKeeps(s: Schema, size: nat, p: Pipe)
    requires size > 0 && Inv(s, size, p)
    ensures Inv(s, size, Next(s, size, p, Ack)) && Inv(s, size, Next(s, size, p, DropAck))
  {
    hide SenderInv, AcksInv, ReceiverInv, ChannelInv, Next;
    AckKeepsSender(s, size, p);
    AckKeepsAcks(s, size, p);
    AckKeepsOthers(s, size, p, Ack);
    AckKeepsOthers(s, size, p, DropAck);
  }

  lemma StepKeeps(s: Schema, size: nat, p: Pipe, step: Step)
    requires s.WellFormed() && size > 0 && RequiredBits(size - 1) == RequiredBits(size)
    requires Inv(s, size, p) && Allowed(s, size, size, p, step)
    ensures Inv(s, size, Next(s, size, p, step))
  {
    hide Inv, Shaped, Sendable, SyncStep, DeliverStep;
    match step
    case Sync(state, padding) => SyncKeeps(s, size, p, state, padding);
    case Deliver => DeliverKeeps(s, size, p);
    case Drop => DropKeeps(s, size, p);
    case Ack => AckKeeps(s, size, p);
    case DropAck => AckKeeps(s, size, p);
    case StrayAck(_) =>
  }

  // ----- whole runs -----

  ghost predicate AllAllowed(s: Schema, size: nat, early: nat, p: Pipe, steps: seq<Step>)
    requires size > 0
    decreases |steps|
  {
    steps != [] ==>
      Allowed(s, size, early, p, steps[0]) && AllAllowed(s, size, early, Next(s, size, p, steps[0]), steps[1..])
  }

  lemma {:induction false} AllowedOn(s: Schema, size: nat, early: nat, p: Pipe, steps: seq<Step>, more: seq<Step>)
    requires size > 0 && AllAllowed(s, size, early, p, steps)
    requires AllAllowed(s, size, early, Run(s, size, p, steps), more)
    ensures AllAllowed(s, size, early, p, steps + more)
    decreases |steps|
  {
    hide Next, Allowed;
    if steps == [] {
      assert steps + more == more;
    } else {
      assert (steps + more)[1..] == steps[1..] + more;
      AllowedOn(s, size, early, Next(s, size, p, steps[0]), steps[1..], more);
    }
  }

  lemma OneStep(s: Schema, size: nat, early: nat, p: Pipe, step: Step, more: seq<Step>)
    requires size > 0 && Allowed(s, size, early, p, step)
    requires AllAllowed(s, size, early, Next(s, size, p, step), more)
    ensures AllAllowed(s, size, early, p, [step] + more)
    ensures Run(s, size, p, [step] + more) == Run(s, size, Next(s, size, p, step), more)
  {
    hide Next, Allowed;
    assert ([step] + more)[1..] == more;
  }

  lemma {:induction false} RunKeeps(s: Schema, size: nat, p: Pipe, steps: seq<Step>)
    requires s.WellFormed() && size > 0 && RequiredBits(size - 1) == RequiredBits(size)
    requires Inv(s, size, p) && AllAllowed(s, size, size, p, steps)
    ensures Inv(s, size, Run(s, size, p, steps))
    decreases |steps|
  {
    hide Inv, Allowed, Next;
    if steps != [] {
      StepKeeps(s, size, p, steps[0]);
      RunKeeps(s, size, Next(s, size, p, steps[0]), steps[1..]);
    }
  }

  /** The states handed to the callback are some of those synced, in the order they were synced. */
  ghost predicate InOrderSubsequence(part: seq<Value>, whole: seq<Value>)
  {
    exists numbers: seq<nat> :: Picks(part, whole, numbers)
  }

  ghost predicate Picks(part: seq<Value>, whole: seq<Value>, numbers: seq<nat>)
  {
    && |numbers| == |part| && Ascending(numbers)
    && forall i :: 0 <= i < |part| ==> numbers[i] < |whole| && part[i] == whole[numbers[i]]
  }

  /** Safety of the lossy pipe, for every run: the callback sees an in-order subsequence of
      the states synced, and the next message in the channel will be decoded correctly. */
  lemma LossySafety(s: Schema, size: nat, steps: seq<Step>)
    requires s.WellFormed() && size > 0 && RequiredBits(size - 1) == RequiredBits(size)
    requires AllAllowed(s, size, size, Initial(size), steps)
    ensures
      var p := Run(s, size, Initial(size), steps);
      && InOrderSubsequence(p.delivered, p.log.sent)
      && (p.flight != [] ==>
            && |p.log.flight| > 0
            && Receive(s, size, p.copies, p.flight[0]).Some?
            && p.log.flight[0].number < |p.log.sent|
            && Receive(s, size, p.copies, p.flight[0]).value.1 == p.log.sent[p.log.flight[0].number])
  {
    hide Shaped, Sendable, Receive, FlightInv, SenderInv, Next, Run, AllAllowed;
    var p := Run(s, size, Initial(size), steps);
    InitialInv(s, size);
    RunKeeps(s, size, Initial(size), steps);
    assert Picks(p.delivered, p.log.sent, p.log.delivered);
    if p.flight != [] { DeliveredState(s, size, p); }
  }
}
