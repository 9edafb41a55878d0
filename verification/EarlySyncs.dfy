/** How many states may be synced before the first acknowledgement arrives. */
module EarlySyncs {
  import opened BitUtil
  import opened Schemas
  import opened CodecSpec
  import opened DeltaLimits
  import opened DeltaStatePipe
  import opened PipeModel
  import opened LossyPipe
  import opened StateWire
  import opened Wrappers

  // ----- a store of one slot -----

  /** Once its only slot is acknowledged everything is refused, so nothing is ever sent as a
      difference. */
  predicate OneSlot(p: Pipe)
  {
    && -1 <= p.lastAcked <= 0
    && (forall i :: 0 <= i < |p.acks| ==> p.acks[i] == 0)
    && (forall i :: 0 <= i < |p.log.flight| ==> p.log.flight[i].slot == -1)
  }

  lemma OneSlotKept(s: Schema, p: Pipe, step: Step)
    requires OneSlot(p) && !step.StrayAck?
    ensures OneSlot(Next(s, 1, p, step))
  {
    hide Message, TakeHeader, TakeWire;
  }

  lemma {:induction false} OneSlotRun(s: Schema, early: nat, p: Pipe, steps: seq<Step>)
    requires OneSlot(p) && AllAllowed(s, 1, early, p, steps)
    ensures OneSlot(Run(s, 1, p, steps))
    decreases |steps|
  {
    hide OneSlot, Next, Sendable, Shaped;
    if steps != [] {
      OneSlotKept(s, p, steps[0]);
      OneSlotRun(s, early, Next(s, 1, p, steps[0]), steps[1..]);
    }
  }

  // ----- a run that wraps around too early -----

  function FillSteps(a: Value, n: nat): seq<Step>
  {
    if n == 0 then [] else [Sync(a, []), Drop] + FillSteps(a, n - 1)
  }

  /** The first state arrives, those in the other slots do not.  The first slot is used again,
      and only then does the acknowledgement of the first state arrive. */
  function EarlySteps(size: nat, a: Value, b: Value, c: Value): seq<Step>
    requires size > 0
  {
    [Sync(a, []), Deliver] + (FillSteps(a, size - 1) + [Sync(b, []), Drop, Ack, Sync(c, [])])
  }

  /** `i` states are synced, the first of them delivered and its acknowledgement under way. */
  predicate Waiting(size: nat, p: Pipe, i: nat, a: Value)
    requires 0 < size
  {
    && 1 <= i <= size && p.lastAcked == -1 && p.nextSlot == i - 1
    && |p.log.sent| == i && (forall v <- p.log.sent :: v == a)
    && |p.store| == |p.copies| == size && p.copies[0] == Some(a)
    && p.flight == [] && p.log.flight == [] && p.acks == [0] && |p.log.acks| == 1
  }

  lemma TwoSteps(s: Schema, size: nat, early: nat, p: Pipe, x: Step, y: Step)
    requires size > 0 && Allowed(s, size, early, p, x) && Allowed(s, size, early, Next(s, size, p, x), y)
    ensures AllAllowed(s, size, early, p, [x, y])
    ensures Run(s, size, p, [x, y]) == Next(s, size, Next(s, size, p, x), y)
  {
    hide Next, Allowed;
    var none: seq<Step> := [];
    assert [y] + none == [y] && [x] + [y] == [x, y];
    OneStep(s, size, early, Next(s, size, p, x), y, none);
    OneStep(s, size, early, p, x, [y]);
  }

  predicate FirstUnderway(s: Schema, size: nat, p: Pipe, a: Value)
    requires size > 0
  {
    && p.lastAcked == -1 && p.nextSlot == 0 && p.log.sent == [a]
    && |p.store| == |p.copies| == size && p.delivered == [] && p.acks == [] && p.log.acks == []
    && p.flight == [Message(s, size, 0, -1, a, None) + []] && |p.log.flight| == 1
  }

  lemma FirstSynced(s: Schema, size: nat, a: Value)
    requires size > 0
    ensures FirstUnderway(s, size, Next(s, size, Initial(size), Sync(a, [])), a)
  {
    hide Message, Receive;
    assert 0 % size == 0;
  }

  lemma FirstArrived(s: Schema, size: nat, p: Pipe, a: Value)
    requires s.WellFormed() && size > 0 && RequiredBits(size - 1) == RequiredBits(size) && Fits(s, a)
    requires FirstUnderway(s, size, p, a)
    ensures Waiting(size, Next(s, size, p, Deliver), 1, a)
  {
    hide Message, Receive, Fits, Shaped, Sendable;
    FitsShaped(s, a);
    MessageBack(s, size, 0, -1, a, None, p.copies, []);
  }

  lemma FirstDelivered(s: Schema, size: nat, early: nat, a: Value)
    requires s.WellFormed() && size > 0 && RequiredBits(size - 1) == RequiredBits(size) && early > 0 && Fits(s, a)
    ensures
      var steps := [Sync(a, []), Deliver];
      AllAllowed(s, size, early, Initial(size), steps) && Waiting(size, Run(s, size, Initial(size), steps), 1, a)
  {
    hide Next, Fits, Shaped, Sendable, Waiting;
    FitsShaped(s, a);
    FirstSynced(s, size, a);
    FirstArrived(s, size, Next(s, size, Initial(size), Sync(a, [])), a);
    TwoSteps(s, size, early, Initial(size), Sync(a, []), Deliver);
  }

  lemma Filled(s: Schema, size: nat, early: nat, p: Pipe, i: nat, a: Value)
    requires 0 < size && Waiting(size, p, i, a) && i < size && i < early && Fits(s, a)
    ensures
      var steps := [Sync(a, []), Drop];
      AllAllowed(s, size, early, p, steps) && Waiting(size, Run(s, size, p, steps), i + 1, a)
  {
    hide Message, Receive, Fits, Shaped, Sendable;
    FitsShaped(s, a);
    assert i % size == i;
    TwoSteps(s, size, early, p, Sync(a, []), Drop);
  }

  lemma {:induction false} AllFilled(s: Schema, size: nat, early: nat, p: Pipe, i: nat, a: Value)
    requires 0 < size && Waiting(size, p, i, a) && size <= early && Fits(s, a)
    ensures
      var steps := FillSteps(a, size - i);
      AllAllowed(s, size, early, p, steps) && Waiting(size, Run(s, size, p, steps), size, a)
    decreases size - i
  {
    hide Fits, Waiting, Next, Allowed;
    assert 1 <= i <= size by { WaitingBound(size, p, i, a); }
    if i < size {
      var two, more := [Sync(a, []), Drop], FillSteps(a, size - i - 1);
      Filled(s, size, early, p, i, a);
      var p' := Run(s, size, p, two);
      AllFilled(s, size, early, p', i + 1, a);
      AllowedOn(s, size, early, p, two, more);
      RunOn(s, size, p, two, more);
    }
  }

  lemma WaitingBound(size: nat, p: Pipe, i: nat, a: Value)
    requires 0 < size && Waiting(size, p, i, a)
    ensures 1 <= i <= size
  {
  }

  /** The sender holds `b` in the slot that the receiver has acknowledged for `a`. */
  ghost predicate Parted(s: Schema, size: nat, p: Pipe, a: Value, b: Value, c: Value)
    requires size > 0
  {
    && p.flight == [Message(s, size, 1, 0, c, Some(b)) + []]
    && |p.log.flight| == 1 && p.log.flight[0].slot == 0 && p.log.flight[0].against == Some(b)
    && |p.log.sent| == size + 2 && p.log.flight[0].number == size + 1 && p.log.sent[size + 1] == c
    && (forall v <- p.log.sent :: v == a || v == b || v == c)
    && |p.copies| == size && p.copies[0] == Some(a)
  }

  /** The first slot holds `b` at the sender, with the acknowledgement of `a` under way. */
  predicate Reused(size: nat, p: Pipe, a: Value, b: Value)
  {
    && p.lastAcked == -1 && p.nextSlot == 0
    && |p.log.sent| == size + 1 && (forall v <- p.log.sent :: v == a || v == b)
    && |p.store| == |p.copies| == size > 0 && p.store[0] == Some(b) && p.copies[0] == Some(a)
    && p.flight == [] && p.log.flight == [] && p.acks == [0] && |p.log.acks| == 1
  }

  lemma SlotReused(s: Schema, size: nat, early: nat, p: Pipe, a: Value, b: Value)
    requires size >= 2 && Waiting(size, p, size, a) && size < early && Fits(s, b)
    ensures
      var steps := [Sync(b, []), Drop];
      AllAllowed(s, size, early, p, steps) && Reused(size, Run(s, size, p, steps), a, b)
  {
    hide Message, Receive, Fits, Shaped, Sendable;
    FitsShaped(s, b);
    assert size % size == 0;
    TwoSteps(s, size, early, p, Sync(b, []), Drop);
  }

  lemma NextParted(s: Schema, size: nat, early: nat, p: Pipe, a: Value, b: Value, c: Value)
    requires size >= 2 && Reused(size, p, a, b) && Shaped(s, c) && Sendable(s, c, Some(b))
    ensures
      var steps := [Ack, Sync(c, [])];
      AllAllowed(s, size, early, p, steps) && Parted(s, size, Run(s, size, p, steps), a, b, c)
  {
    hide Message, Receive, Sendable, Shaped;
    assert 1 % size == 1;
    TwoSteps(s, size, early, p, Ack, Sync(c, []));
  }

  lemma Wrapped(s: Schema, size: nat, early: nat, p: Pipe, a: Value, b: Value, c: Value)
    requires size >= 2 && Waiting(size, p, size, a) && size < early
    requires Fits(s, b) && Shaped(s, c) && Sendable(s, c, Some(b))
    ensures
      var steps := [Sync(b, []), Drop, Ack, Sync(c, [])];
      AllAllowed(s, size, early, p, steps) && Parted(s, size, Run(s, size, p, steps), a, b, c)
  {
    hide Fits, Shaped, Sendable, Waiting, Reused, Parted, Run, AllAllowed;
    var two, more := [Sync(b, []), Drop], [Ack, Sync(c, [])];
    SlotReused(s, size, early, p, a, b);
    NextParted(s, size, early, Run(s, size, p, two), a, b, c);
    assert two + more == [Sync(b, []), Drop, Ack, Sync(c, [])];
    AllowedOn(s, size, early, p, two, more);
    RunOn(s, size, p, two, more);
  }

  /** One sync more than there are slots before the first acknowledgement: a run after which
      the next message refers to `b` at the sender and to `a` at the receiver. */
  lemma WrappedTooEarly(s: Schema, size: nat, early: nat, a: Value, b: Value, c: Value)
    requires s.WellFormed() && size >= 2 && RequiredBits(size - 1) == RequiredBits(size) && early > size
    requires Fits(s, a) && Fits(s, b) && Shaped(s, c) && Sendable(s, c, Some(b))
    ensures AllAllowed(s, size, early, Initial(size), EarlySteps(size, a, b, c))
    ensures Parted(s, size, Run(s, size, Initial(size), EarlySteps(size, a, b, c)), a, b, c)
  {
    hide Fits, Waiting, Next, Allowed, Parted, Sendable, Initial;
    var first, fill, last := [Sync(a, []), Deliver], FillSteps(a, size - 1), [Sync(b, []), Drop, Ack, Sync(c, [])];
    FirstDelivered(s, size, early, a);
    var p := Run(s, size, Initial(size), first);
    AllFilled(s, size, early, p, 1, a);
    var p' := Run(s, size, p, fill);
    Wrapped(s, size, early, p', a, b, c);
    AllowedOn(s, size, early, p, fill, last);
    RunOn(s, size, p, fill, last);
    AllowedOn(s, size, early, Initial(size), first, fill + last);
    RunOn(s, size, Initial(size), first, fill + last);
  }

  // ----- exactly -----

  lemma {:induction false} FewerAllowed(s: Schema, size: nat, early: nat, p: Pipe, steps: seq<Step>)
    requires size > 0 && early <= size && AllAllowed(s, size, early, p, steps)
    ensures AllAllowed(s, size, size, p, steps)
    decreases |steps|
  {
    hide Next, Sendable, Shaped;
    if steps != [] { FewerAllowed(s, size, early, Next(s, size, p, steps[0]), steps[1..]); }
  }

  /** Every run with at most `early` syncs before the first acknowledgement keeps the two ends
      agreed on the reference of the next message if and only if there are as many slots, or
      only one. */
  lemma EarlySyncsExact(s: Schema, size: nat, early: nat, a: Value, b: Value)
    requires s.WellFormed() && size > 0 && RequiredBits(size - 1) == RequiredBits(size)
    requires Fits(s, a) && Fits(s, b) && Sendable(s, a, Some(b))
    ensures
      (forall steps: seq<Step> :: AllAllowed(s, size, early, Initial(size), steps) ==>
         ReferenceAgrees(Run(s, size, Initial(size), steps)))
      <==> early <= size || size == 1
  {
    assert a != b;
    hide Fits, Shaped, Sendable, Run, AllAllowed, ReferenceAgrees;
    if early <= size || size == 1 {
      forall steps: seq<Step> | AllAllowed(s, size, early, Initial(size), steps)
        ensures ReferenceAgrees(Run(s, size, Initial(size), steps))
      {
        EarlyEnough(s, size, early, steps);
      }
    } else {
      var steps := EarlySteps(size, a, b, a);
      FitsShaped(s, a);
      WrappedTooEarly(s, size, early, a, b, a);
      PartedDisagrees(s, size, Run(s, size, Initial(size), steps), a, b, a);
      assert AllAllowed(s, size, early, Initial(size), steps);
    }
  }

  lemma EarlyEnough(s: Schema, size: nat, early: nat, steps: seq<Step>)
    requires s.WellFormed() && size > 0 && RequiredBits(size - 1) == RequiredBits(size)
    requires (early <= size || size == 1) && AllAllowed(s, size, early, Initial(size), steps)
    ensures ReferenceAgrees(Run(s, size, Initial(size), steps))
  {
    hide Shaped, Sendable, Run, AllAllowed, Inv;
    if size == 1 {
      OneSlotRun(s, early, Initial(1), steps);
    } else {
      FewerAllowed(s, size, early, Initial(size), steps);
      InitialInv(s, size);
      RunKeeps(s, size, Initial(size), steps);
      ReferenceShared(s, size, Run(s, size, Initial(size), steps));
    }
  }

  lemma PartedDisagrees(s: Schema, size: nat, p: Pipe, a: Value, b: Value, c: Value)
    requires size > 0 && Parted(s, size, p, a, b, c) && a != b
    ensures !ReferenceAgrees(p)
  {
    hide Message;
  }

  // ----- a state nobody synced -----

  function Pair(x: bool, y: bool): Value
  {
    Items([Flag(x), Flag(y)])
  }

  function Pairs(): Schema
  {
    Struct([Bool, Bool])
  }

  /** For two booleans: `(true, false)` is sent and `(false, false)`, which is none of the
      states synced, is handed to the callback. */
  lemma WrongState(size: nat, p: Pipe)
    requires size >= 2 && RequiredBits(size - 1) == RequiredBits(size)
    requires p == Run(Pairs(), size, Initial(size),
      EarlySteps(size, Pair(false, true), Pair(true, true), Pair(true, false)))
    ensures AllAllowed(Pairs(), size, size + 1, Initial(size),
      EarlySteps(size, Pair(false, true), Pair(true, true), Pair(true, false)))
    ensures p.flight != [] && p.log.flight != [] && p.log.flight[0].number < |p.log.sent|
    ensures p.log.sent[p.log.flight[0].number] == Pair(true, false) && Pair(false, false) !in p.log.sent
    ensures Receive(Pairs(), size, p.copies, p.flight[0]) == Some((1, Pair(false, false), []))
  {
    hide Fits, DeltaFits, Shaped, Run, AllAllowed, Receive, Message, Delta, TakeDelta;
    PairFits();
    WrappedTooEarly(Pairs(), size, size + 1, Pair(false, true), Pair(true, true), Pair(true, false));
    SecondCleared(size, p.copies);
  }

  lemma PairFits()
    ensures Pairs().WellFormed()
    ensures forall x, y :: Fits(Pairs(), Pair(x, y)) && Shaped(Pairs(), Pair(x, y))
    ensures forall x, y, x', y' :: DeltaFits(Pairs(), Pair(x, y), Pair(x', y'))
  {
    hide Fits, Shaped, DeltaFits;
    forall x, y ensures Fits(Pairs(), Pair(x, y)) && Shaped(Pairs(), Pair(x, y)) {
      OnePairFits(x, y);
    }
    forall x, y, x', y' ensures DeltaFits(Pairs(), Pair(x, y), Pair(x', y')) {
      ChangeFits(x, y, x', y');
    }
  }

  lemma OnePairFits(x: bool, y: bool)
    ensures Fits(Pairs(), Pair(x, y)) && Shaped(Pairs(), Pair(x, y))
  {
    assert forall v :: Fits(Bool, Flag(v));
  }

  lemma ChangeFits(x: bool, y: bool, x': bool, y': bool)
    ensures DeltaFits(Pairs(), Pair(x, y), Pair(x', y'))
  {
    assert forall v, w :: DeltaFits(Bool, Flag(v), Flag(w));
  }

  /** The same bits say that the second of two booleans has become `false`. */
  lemma SameDelta()
    ensures Delta(Pairs(), Pair(true, false), Pair(true, true)) == Delta(Pairs(), Pair(false, false), Pair(false, true))
  {
    var fields := [Bool, Bool];
    var here, there := FieldDeltas(fields, [Flag(true), Flag(false)], [Flag(true), Flag(true)]),
        FieldDeltas(fields, [Flag(false), Flag(false)], [Flag(false), Flag(true)]);
    assert here == there;
  }

  lemma SecondCleared(size: nat, copies: seq<Option<Value>>)
    requires size >= 2 && RequiredBits(size - 1) == RequiredBits(size)
    requires |copies| == size && copies[0] == Some(Pair(false, true))
    ensures Receive(Pairs(), size, copies, Message(Pairs(), size, 1, 0, Pair(true, false), Some(Pair(true, true))) + [])
         == Some((1, Pair(false, false), []))
  {
    hide Receive, Delta, Header, Fits, DeltaFits, Shaped;
    PairFits();
    SameDelta();
    MessageBack(Pairs(), size, 1, 0, Pair(false, false), Some(Pair(false, true)), copies, []);
  }
}
