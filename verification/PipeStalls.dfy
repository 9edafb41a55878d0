/** When a lossy run has stopped for good. */
module PipeStalls {
  import opened BitUtil
  import opened Schemas
  import opened DeltaLimits
  import opened DeltaStatePipe
  import opened PipeModel
  import opened LossyPipe
  import opened StateWire
  import opened Wrappers

  // ----- there is always something to send -----

  /** A type with more than one value. */
  predicate Varied(s: Schema)
  {
    match s
    case Ranged(lo, hi) => lo < hi
    case FixedArray(e, n) => n >= 1 && Varied(e)
    case Struct(fs) => exists f <- fs :: Varied(f)
    case ArrayList(_, max) => max >= 1
    case _ => true
  }

  /** Any other type has nothing to send but its one value. */
  lemma {:induction false} OneValue(s: Schema, a: Value, b: Value)
    requires s.WellFormed() && !Varied(s) && Shaped(s, a) && Shaped(s, b)
    ensures a == b
    decreases s
  {
    match s
    case FixedArray(e, n) =>
      forall i | 0 <= i < n ensures a.items[i] == b.items[i] { OneValue(e, a.items[i], b.items[i]); }
    case Struct(fs) =>
      forall i | 0 <= i < |fs| ensures a.items[i] == b.items[i] { OneValue(fs[i], a.items[i], b.items[i]); }
    case _ =>
  }

  lemma {:induction false} DefaultFits(s: Schema)
    requires s.WellFormed()
    ensures Fits(s, Default(s))
    decreases s
  {
    match s
    case FixedArray(e, _) => DefaultFits(e);
    case Struct(fs) => forall i | 0 <= i < |fs| ensures Fits(fs[i], Default(fs[i])) { DefaultFits(fs[i]); }
    case Map(_, max) => WidthHolds(max);
    case SparseList(_, max) => WidthHolds(max);
    case _ =>
  }

  /** A leaf's value other than the default one. */
  function Second(s: Schema): Value
  {
    match s
    case Pod(n) => Bytes(seq(n, _ => 1))
    case Bool => Flag(true)
    case Ranged(lo, hi) => Number(if Clamp(0, lo, hi) == lo then hi else lo)
    case _ => Bytes([1])
  }

  lemma SecondFits(s: Schema)
    requires s.Leaf() && s.WellFormed() && Varied(s)
    ensures Fits(s, Second(s)) && Second(s) != Default(s)
  {
    if s.Pod? { assert Second(s).bytes[0] != Default(s).bytes[0]; }
  }

  /** Something that can be sent against a state. */
  lemma {:induction false} AnotherValue(s: Schema, from: Value) returns (to: Value)
    requires s.WellFormed() && Varied(s) && Shaped(s, from)
    ensures Shaped(s, to) && Sendable(s, to, Some(from))
    decreases s
  {
    match s
    case FixedArray(e, n) => to := AnotherArray(e, n, from);
    case Struct(fs) => to := AnotherStruct(fs, from.items);
    case ArrayList(e, max) =>
      DefaultFits(e);
      to := Items(if from.items == [] then [Default(e)] else []);
    case Map(e, max) =>
      var m := AnotherMap(e, max, from.entries);
      to := Entries(m);
    case SparseList(e, max) =>
      var m := AnotherList(e, max, from.entries);
      to := Entries(m);
    case _ =>
      DefaultFits(s);
      SecondFits(s);
      to := if from == Default(s) then Second(s) else Default(s);
  }

  lemma AnotherArray(elem: Schema, n: nat, from: Value) returns (to: Value)
    requires FixedArray(elem, n).WellFormed() && Varied(elem)
    ensures Shaped(FixedArray(elem, n), to) && Sendable(FixedArray(elem, n), to, Some(from))
  {
    DefaultFits(FixedArray(elem, n));
    SecondFits(elem);
    to := Default(FixedArray(elem, n));
    if from == to {
      to := Items(seq(n, _ => Second(elem)));
      assert to.items[0] != from.items[0];
      assert AllFit(elem, to.items);
    }
  }

  lemma {:induction false} AnotherStruct(fields: seq<Schema>, from: seq<Value>) returns (to: Value)
    requires Struct(fields).WellFormed() && Varied(Struct(fields)) && Shaped(Struct(fields), Items(from))
    ensures Shaped(Struct(fields), to) && Sendable(Struct(fields), to, Some(Items(from)))
    decreases fields
  {
    hide Fits;
    var i :| 0 <= i < |fields| && Varied(fields[i]);
    var v := AnotherValue(fields[i], from[i]);
    to := Items(from[i := v]);
    assert to.items[i] != from[i];
    forall j | 0 <= j < |fields| ensures DeltaFits(fields[j], to.items[j], from[j]) {
      SameFits(fields[j], from[j]);
    }
    StructFits(fields, to.items, from);
  }

  lemma SameFits(s: Schema, v: Value)
    ensures DeltaFits(s, v, v)
  {
  }

  lemma StructFits(fields: seq<Schema>, to: seq<Value>, from: seq<Value>)
    requires |to| == |from| == |fields|
    requires forall j :: 0 <= j < |fields| ==> DeltaFits(fields[j], to[j], from[j])
    ensures DeltaFits(Struct(fields), Items(to), Items(from))
  {
    hide Fits;
  }

  lemma AnotherMap(elem: Schema, max: nat, from: map<nat, Value>) returns (to: map<nat, Value>)
    requires Map(elem, max).WellFormed() && MapShaped(elem, from)
    ensures MapShaped(elem, to) && Sendable(Map(elem, max), Entries(to), Some(Entries(from)))
  {
    hide Fits, Shaped, Default, HighestIndex, MapBound;
    DefaultShaped(elem);
    DefaultFits(elem);
    WidthHolds(max);
    to := if 0 in from then Without(from, 0) else from[0 := Default(elem)];
    assert forall k: nat :: k > 0 ==> SameAt(to, from, k);
    FirstKeyApart(to, from, MapBound(to, from));
    assert !SameAt(to, from, 0);
    assert MapDeltaFits(elem, max, to, from);
    MapFits(elem, max, to, from);
  }

  lemma MapFits(elem: Schema, max: nat, to: map<nat, Value>, from: map<nat, Value>)
    ensures MapDeltaFits(elem, max, to, from) ==> DeltaFits(Map(elem, max), Entries(to), Entries(from))
    ensures SparseDeltaFits(elem, max, to, from) ==> DeltaFits(SparseList(elem, max), Entries(to), Entries(from))
  {
    hide MapDeltaFits, SparseDeltaFits;
  }

  lemma {:induction false} FirstKeyApart(to: map<nat, Value>, from: map<nat, Value>, bound: nat)
    requires forall k: nat :: k > 0 ==> SameAt(to, from, k)
    ensures Distance(to, from, bound) <= 1
    decreases bound
  {
    if bound > 1 { FirstKeyApart(to, from, bound - 1); }
  }

  lemma AnotherList(elem: Schema, max: nat, from: map<nat, Value>) returns (to: map<nat, Value>)
    requires SparseList(elem, max).WellFormed() && MapShaped(elem, from)
    ensures Shaped(SparseList(elem, max), Entries(to))
    ensures Sendable(SparseList(elem, max), Entries(to), Some(Entries(from)))
  {
    hide Fits, Default, HighestIndex;
    DefaultShaped(elem);
    DefaultFits(elem);
    WidthHolds(max);
    to := if from == map[] then map[0 := Default(elem)] else map[];
    assert HighestIndex(to) <= 0;
    if from != map[] { EmptyApart(from); }
    assert from == map[] ==> 0 in to;
    assert SparseDeltaFits(elem, max, to, from);
    MapFits(elem, max, to, from);
  }

  lemma EmptyApart(m: map<nat, Value>)
    requires m != map[]
    ensures Entries(m) != Entries(map[])
  {
  }

  /** Whatever the reference, some state can be sent against it. */
  lemma SomethingToSend(s: Schema, reference: Option<Value>) returns (state: Value)
    requires s.WellFormed() && Varied(s) && StateShaped(s, reference)
    ensures Shaped(s, state) && Sendable(s, state, reference)
  {
    hide Fits, Shaped, DeltaFits, Default;
    if reference.Some? {
      state := AnotherValue(s, reference.value);
    } else {
      DefaultFits(s);
      FitsShaped(s, Default(s));
      state := Default(s);
    }
  }

  // ----- stalls -----

  /** No sync can be made: it would be refused, or use a slot again before the first
      acknowledgement. */
  predicate Blocked(size: nat, p: Pipe)
    requires size > 0
  {
    Refused(size, p) || (p.lastAcked < 0 && |p.log.sent| >= size)
  }

  /** Nothing is under way that could change this: no message, and no acknowledgement but for
      the slot to be used next. */
  predicate Stalled(size: nat, p: Pipe)
    requires size > 0
  {
    p.flight == [] && Blocked(size, p) && forall a <- p.acks :: a == (p.nextSlot + 1) % size
  }

  lemma StaysStalled(s: Schema, size: nat, p: Pipe, step: Step)
    requires size > 0 && Stalled(size, p) && Allowed(s, size, size, p, step)
    ensures
      var p' := Next(s, size, p, step);
      Stalled(size, p') && p'.delivered == p.delivered && p'.log.sent == p.log.sent
  {
    hide Shaped, Sendable, Receive, Message;
    if p.acks != [] {
      assert p.acks[0] in p.acks;
      assert forall a <- p.acks[1..] :: a in p.acks;
    }
  }

  /** A stalled pipe stays so: nothing is sent or handed to the callback any more. */
  lemma {:induction false} StalledForever(s: Schema, size: nat, p: Pipe, steps: seq<Step>)
    requires size > 0 && Stalled(size, p) && AllAllowed(s, size, size, p, steps)
    ensures
      var p' := Run(s, size, p, steps);
      Stalled(size, p') && p'.delivered == p.delivered && p'.log.sent == p.log.sent
    decreases |steps|
  {
    hide Stalled, Allowed, Next;
    if steps != [] {
      StaysStalled(s, size, p, steps[0]);
      StalledForever(s, size, Next(s, size, p, steps[0]), steps[1..]);
    }
  }

  lemma SyncReady(s: Schema, size: nat, p: Pipe) returns (step: Step)
    requires s.WellFormed() && size > 0 && Varied(s) && SenderInv(s, size, p) && !Blocked(size, p)
    ensures step.Sync? && Allowed(s, size, size, p, step) && !Refused(size, p)
  {
    hide Shaped, Sendable, SlotOf;
    if p.log.acked >= 0 { ReferenceKept(s, size, p); }
    assert StateShaped(s, Reference(p)) by { ReferenceShaped(s, size, p); }
    var state := SomethingToSend(s, Reference(p));
    step := Sync(state, []);
  }

  lemma ReferenceShaped(s: Schema, size: nat, p: Pipe)
    requires size > 0 && SenderInv(s, size, p)
    ensures StateShaped(s, Reference(p))
  {
    hide Shaped;
    if p.log.acked >= 0 { ReferenceKept(s, size, p); }
  }

  /** One message in the channel is one state for the callback. */
  lemma DeliverHandsOn(s: Schema, size: nat, p: Pipe)
    requires s.WellFormed() && size > 0 && RequiredBits(size - 1) == RequiredBits(size)
    requires Inv(s, size, p) && p.flight != []
    ensures |Next(s, size, p, Deliver).delivered| == |p.delivered| + 1
  {
    hide Shaped, Sendable, Receive, FlightInv, SenderInv, AcksInv;
    DeliveredState(s, size, p);
    Lengths(s, size, p);
  }

  lemma DeliverNow(s: Schema, size: nat, p: Pipe) returns (more: seq<Step>)
    requires s.WellFormed() && size > 0 && RequiredBits(size - 1) == RequiredBits(size)
    requires Inv(s, size, p) && p.flight != []
    ensures AllAllowed(s, size, size, p, more) && |Run(s, size, p, more).delivered| > |p.delivered|
  {
    hide Inv, Next;
    more := [Deliver];
    DeliverHandsOn(s, size, p);
    assert [Deliver] + [] == [Deliver];
    OneStep(s, size, size, p, Deliver, []);
  }

  lemma SyncAndDeliver(s: Schema, size: nat, p: Pipe) returns (more: seq<Step>)
    requires s.WellFormed() && size > 0 && RequiredBits(size - 1) == RequiredBits(size) && Varied(s)
    requires Inv(s, size, p) && !Blocked(size, p)
    ensures AllAllowed(s, size, size, p, more) && |Run(s, size, p, more).delivered| > |p.delivered|
  {
    hide Inv, Allowed, Blocked, SyncStep;
    assert SenderInv(s, size, p) by { HasSender(s, size, p); }
    var step := SyncReady(s, size, p);
    StepKeeps(s, size, p, step);
    SyncSends(s, size, p, step);
    var rest := DeliverNow(s, size, Next(s, size, p, step));
    more := [step] + rest;
    OneStep(s, size, size, p, step, rest);
  }

  lemma HasSender(s: Schema, size: nat, p: Pipe)
    requires size > 0 && Inv(s, size, p)
    ensures SenderInv(s, size, p) && AcksInv(size, p) && |p.flight| == |p.log.flight|
  {
  }

  lemma SyncSends(s: Schema, size: nat, p: Pipe, step: Step)
    requires size > 0 && SenderInv(s, size, p) && step.Sync? && !Refused(size, p)
    ensures
      var p' := Next(s, size, p, step);
      && |p'.flight| == |p.flight| + 1 && p'.delivered == p.delivered && p'.acks == p.acks
      && |p'.log.sent| == |p.log.sent| + 1 && p'.log.acked == p.log.acked
  {
    hide Shaped, Message;
  }

  /** An acknowledgement for another slot than the next frees the next one. */
  lemma AckUnblocks(s: Schema, size: nat, p: Pipe)
    requires size > 0 && SenderInv(s, size, p) && AcksInv(size, p)
    requires p.acks != [] && p.acks[0] != (p.nextSlot + 1) % size
    ensures !Blocked(size, Next(s, size, p, Ack))
  {
    hide Shaped, LastOf, Ascending, SyncStep, DeliverStep;
  }

  /** Acknowledgements for the next slot come first: skipping them leaves the others. */
  lemma {:induction false} Unblock(s: Schema, size: nat, p: Pipe) returns (more: seq<Step>)
    requires s.WellFormed() && size > 0 && RequiredBits(size - 1) == RequiredBits(size) && Varied(s)
    requires Inv(s, size, p) && exists a <- p.acks :: a != (p.nextSlot + 1) % size
    ensures AllAllowed(s, size, size, p, more) && |Run(s, size, p, more).delivered| > |p.delivered|
    decreases |p.acks|
  {
    hide Inv, Next, Blocked;
    HasSender(s, size, p);
    var step := if p.acks[0] != (p.nextSlot + 1) % size then Ack else DropAck;
    StepKeeps(s, size, p, step);
    AckTakes(s, size, p, step);
    var p', rest := Next(s, size, p, step), [];
    if step.Ack? {
      AckUnblocks(s, size, p);
      rest := SyncAndDeliver(s, size, p');
    } else {
      OtherAck(p.acks, (p.nextSlot + 1) % size);
      rest := Unblock(s, size, p');
    }
    more := [step] + rest;
    OneStep(s, size, size, p, step, rest);
  }

  lemma AckTakes(s: Schema, size: nat, p: Pipe, step: Step)
    requires size > 0 && AcksInv(size, p) && p.acks != [] && (step.Ack? || step.DropAck?)
    ensures
      var p' := Next(s, size, p, step);
      p'.acks == p.acks[1..] && p'.nextSlot == p.nextSlot && p'.delivered == p.delivered && p'.flight == p.flight
      && p'.log.sent == p.log.sent
    ensures Allowed(s, size, size, p, step)
  {
    hide SyncStep, DeliverStep, Ascending, LastOf;
  }

  lemma OtherAck(acks: seq<nat>, slot: nat)
    requires acks != [] && acks[0] == slot && exists a <- acks :: a != slot
    ensures exists a <- acks[1..] :: a != slot
  {
    var a :| a in acks && a != slot;
    assert acks == [acks[0]] + acks[1..];
    assert a in acks[1..];
  }

  /** From a reachable state some run hands another state to the callback if and only if the
      pipe is not stalled. */
  lemma StallExact(s: Schema, size: nat, p: Pipe)
    requires s.WellFormed() && size > 0 && RequiredBits(size - 1) == RequiredBits(size) && Varied(s)
    requires Inv(s, size, p)
    ensures
      (exists more: seq<Step> ::
         AllAllowed(s, size, size, p, more) && |Run(s, size, p, more).delivered| > |p.delivered|)
      <==> !Stalled(size, p)
  {
    hide Inv, Run, AllAllowed, Blocked;
    if Stalled(size, p) {
      forall more: seq<Step> | AllAllowed(s, size, size, p, more)
        ensures Run(s, size, p, more).delivered == p.delivered
      {
        StalledForever(s, size, p, more);
      }
    } else {
      var more: seq<Step>;
      if p.flight != [] {
        more := DeliverNow(s, size, p);
      } else if !Blocked(size, p) {
        more := SyncAndDeliver(s, size, p);
      } else {
        more := Unblock(s, size, p);
      }
    }
  }

  /** The same from the start: after any run that keeps the rules. */
  lemma RunStallExact(s: Schema, size: nat, steps: seq<Step>)
    requires s.WellFormed() && size > 0 && RequiredBits(size - 1) == RequiredBits(size) && Varied(s)
    requires AllAllowed(s, size, size, Initial(size), steps)
    ensures
      var p := Run(s, size, Initial(size), steps);
      (exists more: seq<Step> ::
         AllAllowed(s, size, size, p, more) && |Run(s, size, p, more).delivered| > |p.delivered|)
      <==> !Stalled(size, p)
  {
    hide Inv, Run, AllAllowed, Stalled;
    InitialInv(s, size);
    RunKeeps(s, size, Initial(size), steps);
    StallExact(s, size, Run(s, size, Initial(size), steps));
  }

  // ----- losing everything -----

  /** How many states can be synced before an acknowledgement is needed. */
  function Room(size: nat, p: Pipe): int
  {
    size + (if p.log.acked >= 0 then p.log.acked else 0) - |p.log.sent|
  }

  lemma RoomLeft(s: Schema, size: nat, p: Pipe)
    requires size > 0 && SenderInv(s, size, p)
    ensures Room(size, p) >= 0 && (!Blocked(size, p) ==> Room(size, p) > 0)
  {
    hide Shaped;
    NotRefused(s, size, p);
  }

  lemma Dropped(s: Schema, size: nat, p: Pipe)
    requires size > 0 && p.flight != [] && |p.flight| == |p.log.flight|
    ensures
      var p' := Next(s, size, p, Drop);
      && Allowed(s, size, size, p, Drop)
      && |p'.flight| == |p.flight| - 1 && p'.acks == p.acks && Room(size, p') == Room(size, p)
      && p'.delivered == p.delivered
  {
    hide SyncStep, DeliverStep;
  }

  lemma AckDropped(s: Schema, size: nat, p: Pipe)
    requires size > 0 && AcksInv(size, p) && p.acks != []
    ensures Room(size, Next(s, size, p, DropAck)) == Room(size, p)
  {
    hide SyncStep, DeliverStep;
  }

  /** From every reachable state losses alone can stall the pipe, without another state
      reaching the callback. */
  lemma {:induction false} CanStall(s: Schema, size: nat, p: Pipe) returns (more: seq<Step>)
    requires s.WellFormed() && size > 0 && RequiredBits(size - 1) == RequiredBits(size) && Varied(s)
    requires Inv(s, size, p)
    ensures AllAllowed(s, size, size, p, more)
    ensures Stalled(size, Run(s, size, p, more)) && Run(s, size, p, more).delivered == p.delivered
    decreases Room(size, p), |p.flight|, |p.acks|
  {
    hide Inv, Next, Room, Blocked, SenderInv, AcksInv, Allowed, AllAllowed, Run;
    HasSender(s, size, p);
    RoomLeft(s, size, p);
    if p.flight == [] && p.acks == [] && Blocked(size, p) {
      more := [];
      NoSteps(s, size, p);
    } else {
      var step := Drop;
      if p.flight != [] {
        Dropped(s, size, p);
      } else if p.acks != [] {
        step := DropAck;
        AckTakes(s, size, p, step);
        AckDropped(s, size, p);
      } else {
        step := SyncReady(s, size, p);
        SyncSends(s, size, p, step);
        LessRoom(s, size, p, Next(s, size, p, step));
      }
      StepKeeps(s, size, p, step);
      HasSender(s, size, Next(s, size, p, step));
      RoomLeft(s, size, Next(s, size, p, step));
      var rest := CanStall(s, size, Next(s, size, p, step));
      more := [step] + rest;
      OneStep(s, size, size, p, step, rest);
    }
  }

  lemma LessRoom(s: Schema, size: nat, p: Pipe, p': Pipe)
    requires |p'.log.sent| == |p.log.sent| + 1 && p'.log.acked == p.log.acked
    ensures Room(size, p') == Room(size, p) - 1
  {
  }

  lemma NoSteps(s: Schema, size: nat, p: Pipe)
    requires size > 0
    ensures AllAllowed(s, size, size, p, []) && Run(s, size, p, []) == p
  {
  }
}
