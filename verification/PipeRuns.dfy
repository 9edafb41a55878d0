/** Sender and receiver objects over whole runs, with the bytes of messages and acknowledgements
    in between. */
module PipeRuns {
  import opened BitUtil
  import opened BitStream
  import opened BitWriter
  import opened StreamRuns
  import opened Schemas
  import opened DeltaLimits
  import opened DeltaStatePipe
  import opened LossyPipe
  import opened MirrorPipe
  import opened PipeModel
  import opened PipeRefinement
  import opened Serializer
  import opened Wrappers

  /** What the user of the pipe and the channel do. */
  datatype Action =
    | Send(state: Value)
    | Arrive
    | Lose
    | ArriveAck
    | LoseAck
    | Acknowledge(slot: nat)  // once more, or out of turn

  /** The model's step, which also has the padding of a message. */
  ghost predicate StepFor(step: Step, action: Action)
  {
    match action
    case Send(state) => step.Sync? && step.state == state && |step.padding| < 8
    case Arrive => step == Deliver
    case Lose => step == Drop
    case ArriveAck => step == Ack
    case LoseAck => step == DropAck
    case Acknowledge(slot) => step == StrayAck(slot)
  }

  ghost predicate StepsFor(steps: seq<Step>, actions: seq<Action>)
  {
    |steps| == |actions| && forall i :: 0 <= i < |steps| ==> StepFor(steps[i], actions[i])
  }

  /** The bytes in the channel are the model's messages and acknowledgements. */
  ghost predicate Channel(size: nat, p: Pipe, messages: seq<seq<Byte>>, acks: seq<seq<Byte>>)
    requires size > 0
  {
    && |messages| == |p.flight| == |p.log.flight|
    && (forall i :: 0 <= i < |messages| ==> p.flight[i] == BytesToBits(messages[i]))
    && |acks| == |p.acks| == |p.log.acks|
    && (forall i :: 0 <= i < |acks| ==>
          p.acks[i] < size && ToBits(p.acks[i], RequiredBits(size - 1)) <= BytesToBits(acks[i]))
  }

  /** What the objects ask for. */
  ghost predicate Ready(s: Schema, size: nat, p: Pipe, action: Action)
    requires size > 0
  {
    match action
    case Send(state) => Shaped(s, state)
    case Arrive => p.flight != [] ==> Addressed(size, p.copies, p.flight[0])
    case Acknowledge(slot) => slot < size
    case _ => true
  }

  ghost predicate AllReady(s: Schema, size: nat, p: Pipe, actions: seq<Action>)
    requires size > 0
    decreases |actions|
  {
    actions != [] ==>
      && Ready(s, size, p, actions[0])
      && forall step :: StepFor(step, actions[0]) ==> AllReady(s, size, Next(s, size, p, step), actions[1..])
  }

  /** What a sync does not touch. */
  lemma SyncLeaves(s: Schema, size: nat, p: Pipe, state: Value, padding: Bits)
    requires size > 0
    ensures
      var p' := SyncStep(s, size, p, state, padding);
      && p'.delivered == p.delivered && p'.acks == p.acks && p'.log.acks == p.log.acks
      && |p'.flight| - |p.flight| == |p'.log.flight| - |p.log.flight|
    ensures Refused(size, p) ==> SyncStep(s, size, p, state, padding) == p
  {
    hide Message;
  }

  method SendOver(sender: Sender, receiver: Receiver, s: Schema, size: nat, ghost p: Pipe,
      messages: seq<seq<Byte>>, acks: seq<seq<Byte>>, state: Value)
    returns (messages': seq<seq<Byte>>, ghost step: Step)
    requires size > 0 && Mirrors(sender, receiver, s, size, p) && Channel(size, p, messages, acks) && Shaped(s, state)
    modifies sender, sender.stateStore.store
    ensures StepFor(step, Send(state))
    ensures Mirrors(sender, receiver, s, size, Next(s, size, p, step))
    ensures Channel(size, Next(s, size, p, step), messages', acks)
    ensures Next(s, size, p, step).delivered == p.delivered
  {
    hide Mirrors, Shaped, SyncStep, Refused;
    var sent, message;
    ghost var p';
    sent, message, p' := SyncOver(sender, receiver, s, size, p, state);
    messages' := messages;
    step := Sync(state, []);
    SyncLeaves(s, size, p, state, []);
    if sent {
      ghost var padding: Bits :| |padding| < 8 && p' == SyncStep(s, size, p, state, padding);
      SyncLeaves(s, size, p, state, padding);
      step := Sync(state, padding);
      messages' := messages + [message];
    }
  }

  lemma SizesAgree(sender: Sender, receiver: Receiver, s: Schema, size: nat, p: Pipe)
    requires Mirrors(sender, receiver, s, size, p)
    ensures 1 <= size < 0x8000_0000 && |p.store| == |p.copies| == size
  {
  }

  lemma SlotReceived(s: Schema, size: nat, store: seq<Option<Value>>, bits: Bits)
    requires size > 0
    ensures
      var r := Receive(s, size, store, bits);
      r.Some? ==> r.value.0 < size
  {
    hide TakeHeader;
  }

  method ArriveOver(sender: Sender, receiver: Receiver, s: Schema, size: nat, ghost p: Pipe,
      messages: seq<seq<Byte>>, acks: seq<seq<Byte>>)
    returns (update: Option<Value>, messages': seq<seq<Byte>>, acks': seq<seq<Byte>>)
    requires size > 0 && Mirrors(sender, receiver, s, size, p) && Channel(size, p, messages, acks)
    requires Ready(s, size, p, Arrive)
    modifies receiver.stateStore.store
    ensures Mirrors(sender, receiver, s, size, DeliverStep(s, size, p))
    ensures Channel(size, DeliverStep(s, size, p), messages', acks')
    ensures DeliverStep(s, size, p).delivered == if update.Some? then p.delivered + [update.value] else p.delivered
  {
    hide Mirrors, Addressed, Receive;
    SizesAgree(sender, receiver, s, size, p);
    if p.flight != [] { SlotReceived(s, size, p.copies, p.flight[0]); }
    update, messages', acks' := None, messages, acks;
    if messages != [] {
      var ack;
      ghost var p';
      update, ack, p' := DeliverOver(sender, receiver, s, size, p, messages[0]);
      messages' := messages[1..];
      if update.Some? {
        acks' := acks + [ack];
      }
    }
  }

  /** An acknowledgement sent once more, or out of turn. */
  method AcknowledgeOver(sender: Sender, receiver: Receiver, s: Schema, size: nat, ghost p: Pipe, slot: nat)
    requires size > 0 && Mirrors(sender, receiver, s, size, p) && slot < size
    modifies sender
    ensures Mirrors(sender, receiver, s, size, Next(s, size, p, StrayAck(slot)))
  {
    hide BitWriterVector.Valid, SyncStep, DeliverStep, Mirrors;
    SizesAgree(sender, receiver, s, size, p);
    var writer := new BitWriterVector();
    writer.WriteBits(slot, FieldWidth(size - 1));
    assert [] + ToBits(slot, RequiredBits(size - 1)) == ToBits(slot, RequiredBits(size - 1));
    WrittenBuffer(writer);
    ghost var padding := Padding(writer.buffer, writer.stream);
    ghost var p' := AckOver(sender, receiver, s, size, p, writer.buffer, slot, StrayAck(slot));
  }

  /** One action: the objects and the channel are left as the model's step leaves them. */
  method Act(sender: Sender, receiver: Receiver, s: Schema, size: nat, ghost p: Pipe,
      messages: seq<seq<Byte>>, acks: seq<seq<Byte>>, action: Action)
    returns (update: Option<Value>, messages': seq<seq<Byte>>, acks': seq<seq<Byte>>, ghost step: Step)
    requires size > 0 && Mirrors(sender, receiver, s, size, p) && Channel(size, p, messages, acks)
    requires Ready(s, size, p, action)
    modifies sender, sender.stateStore.store, receiver.stateStore.store
    ensures StepFor(step, action)
    ensures Mirrors(sender, receiver, s, size, Next(s, size, p, step))
    ensures Channel(size, Next(s, size, p, step), messages', acks')
    ensures Next(s, size, p, step).delivered == if update.Some? then p.delivered + [update.value] else p.delivered
  {
    hide Addressed, SyncStep, DeliverStep;
    update, messages', acks' := None, messages, acks;
    match action {
      case Send(state) =>
        messages', step := SendOver(sender, receiver, s, size, p, messages, acks, state);
      case Arrive =>
        step := Deliver;
        update, messages', acks' := ArriveOver(sender, receiver, s, size, p, messages, acks);
      case Lose =>
        step := Drop;
        messages' := if messages == [] then [] else messages[1..];
      case ArriveAck =>
        step := Ack;
        if acks != [] {
          ghost var p' := AckOver(sender, receiver, s, size, p, acks[0], p.acks[0], Ack);
          acks' := acks[1..];
        }
      case LoseAck =>
        step := DropAck;
        acks' := if acks == [] then [] else acks[1..];
      case Acknowledge(slot) =>
        step := StrayAck(slot);
        AcknowledgeOver(sender, receiver, s, size, p, slot);
    }
  }

  /** Any run of actions is a run of the model, which the objects end in the state of. */
  method Drive(sender: Sender, receiver: Receiver, s: Schema, size: nat, ghost p: Pipe,
      messages: seq<seq<Byte>>, acks: seq<seq<Byte>>, actions: seq<Action>)
    returns (updates: seq<Value>, ghost steps: seq<Step>)
    requires size > 0 && Mirrors(sender, receiver, s, size, p) && Channel(size, p, messages, acks)
    requires AllReady(s, size, p, actions)
    modifies sender, sender.stateStore.store, receiver.stateStore.store
    ensures StepsFor(steps, actions)
    ensures Mirrors(sender, receiver, s, size, Run(s, size, p, steps))
    ensures Run(s, size, p, steps).delivered == p.delivered + updates
    decreases |actions|
  {
    hide Mirrors, Channel, Ready, Next, StepFor;
    updates, steps := [], [];
    if actions != [] {
      var update, messages', acks';
      ghost var step, more;
      update, messages', acks', step := Act(sender, receiver, s, size, p, messages, acks, actions[0]);
      updates, more := Drive(sender, receiver, s, size, Next(s, size, p, step), messages', acks', actions[1..]);
      steps := [step] + more;
      assert steps[1..] == more;
      updates := (if update.Some? then [update.value] else []) + updates;
    }
  }

  /** Two new objects with nothing between them. */
  method Connect(s: Schema, size: nat) returns (sender: Sender, receiver: Receiver)
    requires s.WellFormed() && 1 <= size < 0x8000_0000
    ensures Mirrors(sender, receiver, s, size, Initial(size))
    ensures fresh(sender) && fresh(sender.stateStore.store) && fresh(receiver.stateStore.store)
  {
    sender := new Sender(s, size);
    receiver := new Receiver(s, size);
    assert sender.stateStore.store[..] == Initial(size).store;
    assert receiver.stateStore.store[..] == Initial(size).copies;
  }

  // ----- a lossy channel -----

  /** Whatever the padding of the messages, the rules for a lossy channel are kept. */
  ghost predicate LossyUse(s: Schema, size: nat, p: Pipe, actions: seq<Action>)
    requires size > 0
    decreases |actions|
  {
    actions != [] ==> forall step :: StepFor(step, actions[0]) ==>
      Allowed(s, size, size, p, step) && LossyUse(s, size, Next(s, size, p, step), actions[1..])
  }

  /** The step for an action when nothing pads its message. */
  function Unpadded(action: Action): (step: Step)
    ensures StepFor(step, action)
  {
    match action
    case Send(state) => Sync(state, [])
    case Arrive => Deliver
    case Lose => Drop
    case ArriveAck => Ack
    case LoseAck => DropAck
    case Acknowledge(slot) => StrayAck(slot)
  }

  lemma AllowedReady(s: Schema, size: nat, p: Pipe, action: Action)
    requires s.WellFormed() && size > 0 && RequiredBits(size - 1) == RequiredBits(size)
    requires Inv(s, size, p) && Allowed(s, size, size, p, Unpadded(action))
    ensures Ready(s, size, p, action)
  {
    hide Inv, Shaped, Sendable, Addressed;
    LossyAddressed(s, size, p);
  }

  lemma {:induction false} LossyReady(s: Schema, size: nat, p: Pipe, actions: seq<Action>)
    requires s.WellFormed() && size > 0 && RequiredBits(size - 1) == RequiredBits(size)
    requires Inv(s, size, p) && LossyUse(s, size, p, actions)
    ensures AllReady(s, size, p, actions)
    decreases |actions|
  {
    hide Inv, Allowed, Ready, Next, StepFor;
    if actions != [] {
      assert StepFor(Unpadded(actions[0]), actions[0]);
      AllowedReady(s, size, p, actions[0]);
      forall step | StepFor(step, actions[0]) ensures AllReady(s, size, Next(s, size, p, step), actions[1..]) {
        StepKeeps(s, size, p, step);
        LossyReady(s, size, Next(s, size, p, step), actions[1..]);
      }
    }
  }

  lemma {:induction false} LossyAllowed(s: Schema, size: nat, p: Pipe, actions: seq<Action>, steps: seq<Step>)
    requires size > 0 && LossyUse(s, size, p, actions) && StepsFor(steps, actions)
    ensures AllAllowed(s, size, size, p, steps)
    decreases |actions|
  {
    hide Allowed, Next, StepFor;
    if actions != [] {
      assert StepFor(steps[0], actions[0]);
      LossyAllowed(s, size, Next(s, size, p, steps[0]), actions[1..], steps[1..]);
    }
  }

  /** A whole run over a lossy channel, in bytes: the updates are an in-order subsequence of
      the states sent. */
  method LossyRun(s: Schema, size: nat, actions: seq<Action>) returns (updates: seq<Value>)
    requires s.WellFormed() && 1 <= size < 0x8000_0000 && RequiredBits(size - 1) == RequiredBits(size)
    requires LossyUse(s, size, Initial(size), actions)
    ensures exists steps ::
      && StepsFor(steps, actions) && updates == Run(s, size, Initial(size), steps).delivered
      && InOrderSubsequence(updates, Run(s, size, Initial(size), steps).log.sent)
  {
    hide Mirrors, AllReady, LossyUse, AllAllowed, Run, StepsFor, Receive, InOrderSubsequence;
    InitialInv(s, size);
    LossyReady(s, size, Initial(size), actions);
    var sender, receiver := Connect(s, size);
    ghost var steps;
    updates, steps := Drive(sender, receiver, s, size, Initial(size), [], [], actions);
    assert [] + updates == updates;
    LossyAllowed(s, size, Initial(size), actions, steps);
    LossySafety(s, size, steps);
  }

  // ----- a reliable channel -----

  ghost predicate ReliableUse(s: Schema, size: nat, p: Pipe, actions: seq<Action>)
    requires size > 0
    decreases |actions|
  {
    actions != [] ==> forall step :: StepFor(step, actions[0]) ==>
      Possible(s, size, p, step) && ReliableUse(s, size, Next(s, size, p, step), actions[1..])
  }

  lemma PossibleReady(s: Schema, size: nat, p: Pipe, action: Action)
    requires s.WellFormed() && size > 0 && RequiredBits(size - 1) == RequiredBits(size)
    requires MirrorInv(s, size, p) && Possible(s, size, p, Unpadded(action))
    ensures Ready(s, size, p, action)
  {
    hide PacketsInv, StoreShaped, Shaped, Sendable, Addressed;
    MirrorAddressed(s, size, p);
  }

  lemma {:induction false} ReliableReady(s: Schema, size: nat, p: Pipe, actions: seq<Action>)
    requires s.WellFormed() && size > 0 && RequiredBits(size - 1) == RequiredBits(size)
    requires MirrorInv(s, size, p) && ReliableUse(s, size, p, actions)
    ensures AllReady(s, size, p, actions)
    decreases |actions|
  {
    hide MirrorInv, Possible, Ready, Next, StepFor;
    if actions != [] {
      assert StepFor(Unpadded(actions[0]), actions[0]);
      PossibleReady(s, size, p, actions[0]);
      forall step | StepFor(step, actions[0]) ensures AllReady(s, size, Next(s, size, p, step), actions[1..]) {
        MirrorStep(s, size, p, step);
        ReliableReady(s, size, Next(s, size, p, step), actions[1..]);
      }
    }
  }

  lemma {:induction false} ReliablePossible(s: Schema, size: nat, p: Pipe, actions: seq<Action>, steps: seq<Step>)
    requires size > 0 && ReliableUse(s, size, p, actions) && StepsFor(steps, actions)
    ensures AllPossible(s, size, p, steps)
    decreases |actions|
  {
    hide Possible, Next, StepFor;
    if actions != [] {
      assert StepFor(steps[0], actions[0]);
      ReliablePossible(s, size, Next(s, size, p, steps[0]), actions[1..], steps[1..]);
    }
  }

  /** A whole run over a reliable channel, in bytes: the updates are the first states sent. */
  method ReliableRun(s: Schema, size: nat, actions: seq<Action>) returns (updates: seq<Value>)
    requires s.WellFormed() && 1 <= size < 0x8000_0000 && RequiredBits(size - 1) == RequiredBits(size)
    requires ReliableUse(s, size, Initial(size), actions)
    ensures exists steps ::
      && StepsFor(steps, actions) && updates == Run(s, size, Initial(size), steps).delivered
      && updates <= Run(s, size, Initial(size), steps).log.sent
  {
    hide Mirrors, AllReady, ReliableUse, AllPossible, Run, StepsFor, Receive;
    InitialMirror(s, size);
    ReliableReady(s, size, Initial(size), actions);
    var sender, receiver := Connect(s, size);
    ghost var steps;
    updates, steps := Drive(sender, receiver, s, size, Initial(size), [], [], actions);
    assert [] + updates == updates;
    ReliablePossible(s, size, Initial(size), actions, steps);
    ReliableMirror(s, size, steps);
  }

  lemma InitialMirror(s: Schema, size: nat)
    requires size > 0
    ensures MirrorInv(s, size, Initial(size))
  {
    hide Shaped;
  }
}
