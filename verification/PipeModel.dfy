/** The delta state pipe as a step system: sender, receiver and the channel between them. */
module PipeModel {
  import opened BitStream
  import opened Schemas
  import opened DeltaStatePipe
  import opened Wrappers

  /** A message under way: the number of the state it carries and of the state acknowledged
      when it was sent (-1 for none), the slot and the state it was encoded against, and the
      padding of its last byte. */
  datatype Flight = Flight(number: nat, ref: int, slot: int, against: Option<Value>, padding: Bits)

  /** Numbers of states, in the order they were synced.  Nothing in the protocol looks at
      these: slots are all it has. */
  datatype Log = Log(sent: seq<Value>, acked: int, flight: seq<Flight>, acks: seq<nat>, delivered: seq<nat>)

  datatype Pipe = Pipe(
    lastAcked: int, nextSlot: int, store: seq<Option<Value>>,  // the sender
    copies: seq<Option<Value>>, delivered: seq<Value>,         // the receiver and its callback
    flight: seq<Bits>, acks: seq<nat>,                         // the channel: messages and slots
    log: Log)

  datatype Step =
    | Sync(state: Value, padding: Bits)
    | Deliver
    | Drop
    | Ack
    | DropAck
    | StrayAck(slot: nat)  // late, repeated or out of order

  function Initial(size: nat): Pipe
  {
    Pipe(-1, -1, seq(size, _ => None), seq(size, _ => None), [], [], [], Log([], -1, [], [], []))
  }

  /** The next slot is the one acknowledged last. */
  predicate Refused(size: nat, p: Pipe)
    requires size > 0
  {
    (p.nextSlot + 1) % size == p.lastAcked
  }

  function SlotAt(slots: seq<Option<Value>>, slot: int): Option<Value>
  {
    if 0 <= slot < |slots| then slots[slot] else None
  }

  function Reference(p: Pipe): Option<Value>
  {
    SlotAt(p.store, p.lastAcked)
  }

  function SyncStep(s: Schema, size: nat, p: Pipe, state: Value, padding: Bits): Pipe
    requires size > 0
  {
    var slot: nat := (p.nextSlot + 1) % size;
    if Refused(size, p) || slot >= |p.store| then p
    else
      p.(nextSlot := slot,
         store := p.store[slot := Some(state)],
         flight := p.flight + [Message(s, size, slot, p.lastAcked, state, Reference(p)) + padding],
         log := p.log.(sent := p.log.sent + [state],
                       flight := p.log.flight
                         + [Flight(|p.log.sent|, p.log.acked, p.lastAcked, Reference(p), padding)]))
  }

  ghost function DeliverStep(s: Schema, size: nat, p: Pipe): Pipe
    requires size > 0
  {
    if p.flight == [] || p.log.flight == [] then p
    else
      var r := Receive(s, size, p.copies, p.flight[0]);
      var popped := p.(flight := p.flight[1..], log := p.log.(flight := p.log.flight[1..]));
      if r.None? || r.value.0 >= |p.copies| then popped
      else
        popped.(copies := p.copies[r.value.0 := Some(r.value.1)],
                delivered := p.delivered + [r.value.1],
                acks := p.acks + [r.value.0],
                log := popped.log.(acks := p.log.acks + [p.log.flight[0].number],
                                   delivered := p.log.delivered + [p.log.flight[0].number]))
  }

  ghost function Next(s: Schema, size: nat, p: Pipe, step: Step): Pipe
    requires size > 0
  {
    match step
    case Sync(state, padding) => SyncStep(s, size, p, state, padding)
    case Deliver => DeliverStep(s, size, p)
    case Drop =>
      if p.flight == [] || p.log.flight == [] then p
      else p.(flight := p.flight[1..], log := p.log.(flight := p.log.flight[1..]))
    case Ack =>
      if p.acks == [] || p.log.acks == [] then p
      else p.(lastAcked := p.acks[0], acks := p.acks[1..],
              log := p.log.(acked := p.log.acks[0], acks := p.log.acks[1..]))
    case DropAck =>
      if p.acks == [] || p.log.acks == [] then p
      else p.(acks := p.acks[1..], log := p.log.(acks := p.log.acks[1..]))
    case StrayAck(slot) => p.(lastAcked := slot)
  }

  ghost function Run(s: Schema, size: nat, p: Pipe, steps: seq<Step>): Pipe
    requires size > 0
    decreases |steps|
  {
    if steps == [] then p else Run(s, size, Next(s, size, p, steps[0]), steps[1..])
  }

  lemma {:induction false} RunOn(s: Schema, size: nat, p: Pipe, steps: seq<Step>, more: seq<Step>)
    requires size > 0
    ensures Run(s, size, p, steps + more) == Run(s, size, Run(s, size, p, steps), more)
    decreases |steps|
  {
    hide Next;
    if steps == [] {
      assert steps + more == more;
    } else {
      assert (steps + more)[1..] == steps[1..] + more;
      RunOn(s, size, Next(s, size, p, steps[0]), steps[1..], more);
    }
  }

  /** The two ends mean the same state by the reference slot of the next message. */
  ghost predicate ReferenceAgrees(p: Pipe)
  {
    p.flight != [] && p.log.flight != [] && p.log.flight[0].slot >= 0 ==>
      SlotAt(p.copies, p.log.flight[0].slot) == p.log.flight[0].against
  }
}
