/** NetPipeDeltaState: states are sent as differences against an acknowledged state that
    both ends keep in a numbered slot. */
module DeltaStatePipe {
  import opened BitUtil
  import opened BitStream
  import opened BitWriter
  import opened BitReader
  import opened Schemas
  import opened CodecSpec
  import opened FullRoundTrip
  import opened DecodeShape
  import opened DeltaLimits
  import opened Serializer
  import opened DeltaSerializer
  import opened Deserializer
  import opened DeltaDeserializer
  import opened StateWire
  import opened Wrappers

  // ----- messages -----

  /** The slot to store into and the slot encoded against, `size` for none.  Both are written
      with the width of a slot. */
  function Header(size: nat, slot: nat, ref: nat): Bits
    requires size > 0
  {
    ToBits(slot, RequiredBits(size - 1)) + ToBits(ref, RequiredBits(size - 1))
  }

  /** The receiver reads the second number with the width of `size`. */
  function TakeHeader(size: nat, bits: Bits): Option<(nat, nat, Bits)>
    requires size > 0
  {
    var (slot, b) :- TakeNum(bits, RequiredBits(size - 1));
    var (ref, rest) :- TakeNum(b, RequiredBits(size));
    Some((slot, ref, rest))
  }

  /** A state, in full or as the difference from the reference state. */
  function Message(s: Schema, size: nat, slot: nat, last_acked: int, state: Value, reference: Option<Value>): Bits
    requires size > 0
  {
    Header(size, slot, if last_acked >= 0 then last_acked else size)
      + Wire(s, reference, state)
  }

  /** The slots a message names exist, and there is a state in the one it refers to. */
  ghost predicate Addressed(size: nat, store: seq<Option<Value>>, bits: Bits)
    requires size > 0
  {
    var header := TakeHeader(size, bits);
    header.Some? ==>
      && header.value.0 < size <= |store|
      && (header.value.1 == size || (header.value.1 < size && store[header.value.1].Some?))
  }

  /** What the receiver makes of a message: the slot, the state and the bits left over. */
  ghost function Receive(s: Schema, size: nat, store: seq<Option<Value>>, bits: Bits): Option<(nat, Value, Bits)>
    requires size > 0
  {
    var header := TakeHeader(size, bits);
    if header.None? then None
    else ReceiveBody(s, size, store, header.value.0, header.value.1, header.value.2)
  }

  /** What it makes of the bits behind the header. */
  ghost function ReceiveBody(s: Schema, size: nat, store: seq<Option<Value>>, slot: nat, ref: nat, bits: Bits)
    : Option<(nat, Value, Bits)>
  {
    if slot >= size || (ref != size && (ref >= |store| || store[ref].None?)) then None
    else
      var decoded := TakeWire(s, if ref != size then store[ref] else None, bits);
      if decoded.None? then None else Some((slot, decoded.value.0, decoded.value.1))
  }

  // ----- header widths -----

  /** The header comes back for every slot and reference if and only if the two widths agree. */
  lemma HeaderExact(size: nat)
    requires size > 0
    ensures
      (forall slot: nat, ref: nat, rest: Bits :: slot < size && ref <= size ==>
         TakeHeader(size, Header(size, slot, ref) + rest) == Some((slot, ref, rest)))
      <==> RequiredBits(size - 1) == RequiredBits(size)
  {
    hide TakeHeader, Header;
    if RequiredBits(size - 1) == RequiredBits(size) {
      forall slot: nat, ref: nat, rest: Bits | slot < size && ref <= size
        ensures TakeHeader(size, Header(size, slot, ref) + rest) == Some((slot, ref, rest))
      {
        HeaderBack(size, slot, ref, rest);
      }
    } else {
      HeaderMisread(size, 0, 0, [true]);
      assert TakeHeader(size, Header(size, 0, 0) + [true]) != Some((0, 0, [true]));
    }
  }

  lemma HeaderBack(size: nat, slot: nat, ref: nat, rest: Bits)
    requires size > 0 && RequiredBits(size - 1) == RequiredBits(size) && slot < size && ref <= size
    ensures TakeHeader(size, Header(size, slot, ref) + rest) == Some((slot, ref, rest))
  {
    hide TakeNum, ToBits;
    var width := RequiredBits(size);
    ConcatAssoc(ToBits(slot, width), ToBits(ref, width), rest);
    TakeCountBack(slot, size - 1, ToBits(ref, width) + rest);
    TakeCountBack(ref, size, rest);
  }

  /** When the widths differ, every header is misread: the reference takes the first bit behind
      it as its own highest, and what follows starts one bit late. */
  lemma HeaderMisread(size: nat, slot: nat, ref: nat, rest: Bits)
    requires size > 0 && RequiredBits(size - 1) != RequiredBits(size) && slot < size && ref <= size
    ensures TakeHeader(size, Header(size, slot, ref) + rest)
         == if rest == [] then None else Some((slot, ref % size + (if rest[0] then size else 0), rest[1..]))
    ensures TakeHeader(size, Header(size, slot, ref) + rest) != Some((slot, ref, rest))
  {
    hide TakeNum, ToBits, FromBits;
    var narrow := RequiredBits(size - 1);
    WidthsApart(size);
    ConcatAssoc(ToBits(slot, narrow), ToBits(ref, narrow), rest);
    TakeCountBack(slot, size - 1, ToBits(ref, narrow) + rest);
    TakeOneMore(ref, narrow, rest);
    TruncIsRemainder(ref, narrow);
  }

  /** A power of two takes one bit more than the number below it. */
  lemma WidthsApart(size: nat)
    requires size > 0 && RequiredBits(size - 1) != RequiredBits(size)
    ensures RequiredBits(size) == RequiredBits(size - 1) + 1 && size == Pow2(RequiredBits(size - 1))
  {
    var narrow := RequiredBits(size - 1);
    RequiredBitsFit(size - 1);
    RequiredBitsFit(size);
    RequiredBitsCharacterized(size, narrow);
    RequiredBitsCharacterized(size, narrow + 1);
    RequiredBitsCharacterized(size - 1, RequiredBits(size));
  }

  lemma OneBit(b: bool)
    ensures FromBits([b]) == if b then 1 else 0
  {
    assert [b][1..] == [];
  }

  /** A number read one bit wider than it was written. */
  lemma TakeOneMore(v: nat, n: nat, rest: Bits)
    ensures TakeNum(ToBits(v, n) + rest, n + 1)
         == if rest == [] then None else Some((Trunc(v, n) + (if rest[0] then Pow2(n) else 0), rest[1..]))
  {
    hide ToBits, FromBits;
    if rest != [] {
      var bits := ToBits(v, n) + rest;
      assert bits[..n + 1] == ToBits(v, n) + [rest[0]] && bits[n + 1..] == rest[1..];
      FromBitsConcat(ToBits(v, n), [rest[0]]);
      FromToBits(v, n);
      OneBit(rest[0]);
    }
  }

  /** The widths differ exactly for the powers of two from 2 on. */
  lemma WidthsDiffer(size: nat)
    requires size > 0
    ensures RequiredBits(size - 1) != RequiredBits(size) <==> exists k: nat :: k >= 1 && size == Pow2(k)
  {
    var narrow := RequiredBits(size - 1);
    RequiredBitsFit(size - 1);
    RequiredBitsFit(size);
    RequiredBitsCharacterized(size, narrow);
    RequiredBitsCharacterized(size - 1, RequiredBits(size));
    if RequiredBits(size) != narrow {
      assert narrow >= 1 && size == Pow2(narrow);
    }
    if k: nat :| k >= 1 && size == Pow2(k) {
      RequiredBitsCharacterized(size - 1, k);
      RequiredBitsCharacterized(size, k);
    }
  }

  // ----- slots -----

  /** The slot of the state with a number, -1 for none. */
  function SlotOf(number: int, size: nat): int
    requires size > 0
  {
    if number < 0 then -1 else number % size
  }

  /** Two numbers less than `size` apart have different slots. */
  lemma SlotsDiffer(i: nat, j: nat, size: nat)
    requires i < j < i + size
    ensures i % size != j % size
  {
    var q, r := i / size, i % size;
    if r + (j - i) < size {
      QuotientUnique(j, q, r + (j - i), size);
    } else {
      NextMultiple(q, size);
      QuotientUnique(j, q + 1, r + (j - i) - size, size);
    }
  }

  lemma NextMultiple(q: nat, size: nat)
    ensures (q + 1) * size == q * size + size
  {
  }

  lemma SlotAgain(i: nat, size: nat)
    requires size > 0
    ensures (i + size) % size == i % size
  {
    var q, r := i / size, i % size;
    NextMultiple(q, size);
    QuotientUnique(i + size, q + 1, r, size);
  }

  lemma NextSlot(n: nat, size: nat)
    requires size > 0
    ensures (SlotOf(n - 1, size) + 1) % size == n % size
  {
    if n == 0 {
      assert n % size == 0;
    } else {
      var q, r := (n - 1) / size, (n - 1) % size;
      if r + 1 < size {
        QuotientUnique(n, q, r + 1, size);
        QuotientUnique(r + 1, 0, r + 1, size);
      } else {
        NextMultiple(q, size);
        QuotientUnique(n, q + 1, 0, size);
        QuotientUnique(size, 1, 0, size);
      }
    }
  }

  // ----- one message -----

  /** A message decoded against the state it was encoded against gives the state back,
      whatever padding follows. */
  lemma MessageBack(s: Schema, size: nat, slot: nat, last_acked: int, state: Value, reference: Option<Value>,
      store: seq<Option<Value>>, padding: Bits)
    requires slot < size <= |store| && -1 <= last_acked < size
    requires s.WellFormed() && Shaped(s, state) && RequiredBits(size - 1) == RequiredBits(size)
    requires reference == if last_acked >= 0 then store[last_acked] else None
    requires last_acked >= 0 ==> reference.Some?
    requires StateShaped(s, reference) && Sendable(s, state, reference)
    ensures Receive(s, size, store, Message(s, size, slot, last_acked, state, reference) + padding)
         == Some((slot, state, padding))
  {
    hide TakeHeader, Header, Wire, TakeWire, Shaped, Sendable;
    var ref := if last_acked >= 0 then last_acked else size;
    ConcatAssoc(Header(size, slot, ref), Wire(s, reference, state), padding);
    HeaderBack(size, slot, ref, Wire(s, reference, state) + padding);
    WireBack(s, reference, state, padding);
  }

  /** With agreeing header widths a message is decoded to its state, whatever padding
      follows, if and only if the state can be sent against its reference. */
  lemma MessageExact(s: Schema, size: nat, slot: nat, last_acked: int, state: Value, store: seq<Option<Value>>)
    requires slot < size == |store| && -1 <= last_acked < size
    requires s.WellFormed() && Shaped(s, state) && RequiredBits(size - 1) == RequiredBits(size)
    requires last_acked >= 0 ==> store[last_acked].Some? && Shaped(s, store[last_acked].value)
    ensures
      var reference := if last_acked >= 0 then store[last_acked] else None;
      (forall padding: Bits ::
         Receive(s, size, store, Message(s, size, slot, last_acked, state, reference) + padding)
           == Some((slot, state, padding)))
      <==> Sendable(s, state, reference)
  {
    hide Receive, Message, Shaped, Sendable;
    var reference := if last_acked >= 0 then store[last_acked] else None;
    if Sendable(s, state, reference) {
      forall padding: Bits
        ensures Receive(s, size, store, Message(s, size, slot, last_acked, state, reference) + padding)
             == Some((slot, state, padding))
      {
        MessageBack(s, size, slot, last_acked, state, reference, store, padding);
      }
    } else {
      MessageLost(s, size, slot, last_acked, state, reference, store);
      var none: Bits := [];
      assert Receive(s, size, store, Message(s, size, slot, last_acked, state, reference) + none)
        != Some((slot, state, none));
    }
  }

  lemma MessageLost(s: Schema, size: nat, slot: nat, last_acked: int, state: Value, reference: Option<Value>,
      store: seq<Option<Value>>)
    requires slot < size <= |store| && -1 <= last_acked < size
    requires s.WellFormed() && Shaped(s, state) && RequiredBits(size - 1) == RequiredBits(size)
    requires reference == if last_acked >= 0 then store[last_acked] else None
    requires last_acked >= 0 ==> reference.Some?
    requires StateShaped(s, reference) && !Sendable(s, state, reference)
    ensures Receive(s, size, store, Message(s, size, slot, last_acked, state, reference) + [])
         != Some((slot, state, []))
  {
    hide TakeHeader, Header, Wire, TakeWire, Shaped, Sendable;
    var ref := if last_acked >= 0 then last_acked else size;
    ConcatAssoc(Header(size, slot, ref), Wire(s, reference, state), []);
    HeaderBack(size, slot, ref, Wire(s, reference, state) + []);
    WireLost(s, reference, state);
  }

  /** When the widths differ: what the receiver makes of any message. */
  lemma MessageMisread(s: Schema, size: nat, slot: nat, last_acked: int, state: Value, reference: Option<Value>,
      store: seq<Option<Value>>, padding: Bits)
    requires slot < size && -1 <= last_acked < size && RequiredBits(size - 1) != RequiredBits(size)
    ensures
      var body := Wire(s, reference, state) + padding;
      var ref := if last_acked >= 0 then last_acked else 0;
      Receive(s, size, store, Message(s, size, slot, last_acked, state, reference) + padding)
        == if body == [] then None
           else ReceiveBody(s, size, store, slot, ref + (if body[0] then size else 0), body[1..])
  {
    hide TakeHeader, Header, Wire, ReceiveBody;
    var ref := if last_acked >= 0 then last_acked else size;
    var body := Wire(s, reference, state) + padding;
    ConcatAssoc(Header(size, slot, ref), Wire(s, reference, state), padding);
    HeaderMisread(size, slot, ref, body);
    if last_acked >= 0 {
      QuotientUnique(ref, 0, ref, size);
    } else {
      QuotientUnique(ref, 1, 0, size);
    }
  }

  /** So the first message of a pipe whose size is a power of two: with a leading 0 it refers
      to an empty slot, and with a leading 1 the state behind is decoded one bit late. */
  lemma FirstMessageMisread(s: Schema, size: nat, store: seq<Option<Value>>, state: Value, padding: Bits)
    requires |store| == size > 0 && RequiredBits(size - 1) != RequiredBits(size)
    requires store[0].None?
    ensures
      var body := Full(s, state) + padding;
      Receive(s, size, store, Message(s, size, 0, -1, state, None) + padding)
        == if body == [] || !body[0] then None
           else
             var r := TakeFull(s, Default(s), body[1..]);
             if r.None? then None else Some((0, r.value.0, r.value.1))
  {
    hide Receive, Message, Full, TakeFull, Default;
    MessageMisread(s, size, 0, -1, state, None, store, padding);
  }

  /** A pipe of a power of two never delivers a boolean as its first state: `true` arrives as
      `false`, or not at all when nothing pads the message, and `false` does not arrive. */
  lemma FirstBooleanLost(size: nat, store: seq<Option<Value>>, b: bool, zeros: nat)
    requires |store| == size > 0 && RequiredBits(size - 1) != RequiredBits(size)
    requires store[0].None?
    ensures
      var r := Receive(Bool, size, store, Message(Bool, size, 0, -1, Flag(b), None) + Zeros(zeros));
      r == if b && zeros > 0 then Some((0, Flag(false), Zeros(zeros - 1))) else None
  {
    hide Receive, Message;
    FirstMessageMisread(Bool, size, store, Flag(b), Zeros(zeros));
    var body := Full(Bool, Flag(b)) + Zeros(zeros);
    assert body[0] == b && body[1..] == Zeros(zeros);
    if zeros > 0 {
      assert Zeros(zeros) == ToBits(0, 1) + Zeros(zeros - 1);
      TakeFlagBack(false, Zeros(zeros - 1));
    }
  }

  // ----- the two ends -----

  /** NetStateStore */
  class StateStore {
    const store: array<Option<Value>>

    constructor (size: nat)
      ensures store.Length == size && fresh(store) && forall i :: 0 <= i < size ==> store[i].None?
    {
      store := new Option<Value>[size](_ => None);
    }

    method StoreState(state: Value, index: nat)
      requires index < store.Length
      modifies store
      ensures store[..] == old(store[..])[index := Some(state)]
    {
      store[index] := Some(state);
    }

    /** The null pointer is `None`. */
    method Get(index: nat) returns (state: Option<Value>)
      requires index < store.Length
      ensures state == store[index]
    {
      state := store[index];
    }
  }

  ghost predicate StoreShaped(s: Schema, slots: seq<Option<Value>>)
  {
    forall i :: 0 <= i < |slots| ==> StateShaped(s, slots[i])
  }

  class Sender {
    const schema: Schema
    const size: nat
    const stateStore: StateStore
    var lastAckedState: int
    var nextStateSlot: int

    ghost predicate Valid()
      reads this, stateStore, stateStore.store
    {
      && schema.WellFormed() && 1 <= size < 0x8000_0000 && stateStore.store.Length == size
      && -1 <= nextStateSlot < size && -1 <= lastAckedState < size
      && StoreShaped(schema, stateStore.store[..])
    }

    constructor (schema: Schema, size: nat)
      requires schema.WellFormed() && 1 <= size < 0x8000_0000
      ensures Valid() && fresh(stateStore) && fresh(stateStore.store)
      ensures this.schema == schema && this.size == size
      ensures lastAckedState == -1 && nextStateSlot == -1
      ensures forall i :: 0 <= i < size ==> stateStore.store[i].None?
    {
      this.schema, this.size := schema, size;
      lastAckedState, nextStateSlot := -1, -1;
      stateStore := new StateStore(size);
    }

    /** Refused when the next slot is the one the receiver acknowledged last. */
    method SyncState(current_state: Value, writer: BitWriterVector) returns (sent: bool)
      requires Valid() && Shaped(schema, current_state) && writer.Valid()
      modifies `nextStateSlot, stateStore.store, writer
      ensures Valid() && writer.Valid()
      ensures sent <==> (old(nextStateSlot) + 1) % size != lastAckedState
      ensures !sent ==>
        && nextStateSlot == old(nextStateSlot) && writer.stream == old(writer.stream)
        && stateStore.store[..] == old(stateStore.store[..])
      ensures sent ==>
        && nextStateSlot == (old(nextStateSlot) + 1) % size
        && stateStore.store[..] == old(stateStore.store[..])[nextStateSlot := Some(current_state)]
        && writer.stream == old(writer.stream)
          + Message(schema, size, nextStateSlot, lastAckedState, current_state,
              if lastAckedState >= 0 then old(stateStore.store[lastAckedState]) else None)
      ensures
        var w := RequiredBits(size - 1);
        var reference := if lastAckedState >= 0 then old(stateStore.store[lastAckedState]) else None;
        sent ==>
          writer.stream == old(writer.stream)
            + (ToBits(nextStateSlot, w) + ToBits(if lastAckedState >= 0 then lastAckedState else size, w)
               + if reference.Some? then Delta(schema, current_state, reference.value) else Full(schema, current_state))
    {
      hide BitWriterVector.Valid, Full, Delta, Shaped;
      var reference_state := None;
      if lastAckedState != -1 {
        reference_state := stateStore.Get(lastAckedState);
      }
      var next_state_slot := (nextStateSlot + 1) % size;
      if next_state_slot == lastAckedState {
        return false;
      }
      nextStateSlot := next_state_slot;
      stateStore.StoreState(current_state, nextStateSlot);
      SendState(current_state, reference_state, writer);
      sent := true;
    }

    method SendState(current_state: Value, reference_state: Option<Value>, writer: BitWriterVector)
      requires Valid() && Shaped(schema, current_state) && writer.Valid() && nextStateSlot >= 0
      requires reference_state.Some? ==> Shaped(schema, reference_state.value)
      modifies writer
      ensures writer.Valid()
      ensures writer.stream == old(writer.stream)
        + Message(schema, size, nextStateSlot, lastAckedState, current_state, reference_state)
    {
      hide BitWriterVector.Valid, Full, Delta, Shaped, FieldWidth;
      ghost var before, slot_bits := writer.stream, RequiredBits(size - 1);
      ghost var ref: nat := if lastAckedState >= 0 then lastAckedState else size;
      ConcatAssoc(before, ToBits(nextStateSlot, slot_bits), ToBits(ref, slot_bits));
      ConcatAssoc(before, Header(size, nextStateSlot, ref), Wire(schema, reference_state, current_state));
      writer.WriteBits(nextStateSlot, FieldWidth(size - 1));
      writer.WriteBits(if lastAckedState != -1 then lastAckedState else size, FieldWidth(size - 1));
      if reference_state.Some? {
        var wrote := SerializeValueDelta(schema, current_state, reference_state.value, writer);
      } else {
        SerializeValue(schema, current_state, writer);
      }
    }

    /** An acknowledgement names a slot of the store. */
    method GotAck(reader: BitReaderBuffer) returns (ok: bool)
      requires Valid() && reader.Valid()
      requires
        var ack := TakeNum(reader.rest, RequiredBits(size - 1));
        ack.Some? ==> ack.value.0 < size
      modifies `lastAckedState, reader
      ensures Valid() && reader.Valid()
      ensures ok <==> TakeNum(old(reader.rest), RequiredBits(size - 1)).Some?
      ensures lastAckedState == if ok then TakeNum(old(reader.rest), RequiredBits(size - 1)).value.0
        else old(lastAckedState)
    {
      hide BitReaderBuffer.Valid, FieldWidth, TakeNum;
      var ack := reader.ReadUBits(FieldWidth(size - 1));
      if ack.None? {
        return false;
      }
      lastAckedState := ack.value;
      ok := true;
    }
  }

  class Receiver {
    const schema: Schema
    const size: nat
    const stateStore: StateStore

    ghost predicate Valid()
      reads this, stateStore, stateStore.store
    {
      && schema.WellFormed() && 1 <= size < 0x8000_0000 && stateStore.store.Length == size
      && StoreShaped(schema, stateStore.store[..])
    }

    constructor (schema: Schema, size: nat)
      requires schema.WellFormed() && 1 <= size < 0x8000_0000
      ensures Valid() && fresh(stateStore) && fresh(stateStore.store)
      ensures this.schema == schema && this.size == size
      ensures forall i :: 0 <= i < size ==> stateStore.store[i].None?
    {
      this.schema, this.size := schema, size;
      stateStore := new StateStore(size);
    }

    /** Stores the state, hands it to the callback as `update` and acknowledges its slot. */
    method GotMessage(reader: BitReaderBuffer, ack: BitWriterVector) returns (update: Option<Value>)
      requires Valid() && reader.Valid() && ack.Valid()
      requires Addressed(size, stateStore.store[..], reader.rest)
      modifies stateStore.store, reader, ack
      ensures Valid() && reader.Valid() && ack.Valid()
      ensures
        var r := Receive(schema, size, old(stateStore.store[..]), old(reader.rest));
        && (update.None? <==> r.None?)
        && (update.None? ==> stateStore.store[..] == old(stateStore.store[..]) && ack.stream == old(ack.stream))
        && (update.Some? ==>
             && r == Some((r.value.0, update.value, reader.rest)) && r.value.0 < size
             && stateStore.store[..] == old(stateStore.store[..])[r.value.0 := update]
             && ack.stream == old(ack.stream) + ToBits(r.value.0, RequiredBits(size - 1)))
    {
      hide BitReaderBuffer.Valid, BitWriterVector.Valid, FieldWidth, TakeNum, Shaped, TakeFull, TakeDelta, Default;
      var state_slot := reader.ReadUBits(FieldWidth(size - 1));
      if state_slot.None? {
        return None;
      }
      var ref_slot := reader.ReadUBits(FieldWidth(size));
      if ref_slot.None? {
        return None;
      }
      ghost var before := reader.rest;
      var inst;
      if ref_slot.value != size {
        var reference_state := stateStore.Get(ref_slot.value);
        inst := DeserializeValueDelta(schema, reference_state.value, reader);
        if inst.None? {
          return None;
        }
        DeltaShaped(schema, reference_state.value, before);
      } else {
        DefaultShaped(schema);
        inst := DeserializeValue(schema, Default(schema), reader);
        if inst.None? {
          return None;
        }
        FullShaped(schema, Default(schema), before);
      }
      stateStore.StoreState(inst.value, state_slot.value);
      ack.WriteBits(state_slot.value, FieldWidth(size - 1));
      update := inst;
    }
  }
}
