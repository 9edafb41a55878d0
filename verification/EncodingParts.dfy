/** The parts encodings consist of. */
module EncodingParts {
  import opened BitUtil
  import opened BitStream
  import opened Joins
  import opened Schemas
  import opened CodecSpec

  lemma FullArray(elem: Schema, n: nat, items: seq<Value>)
    ensures Full(FixedArray(elem, n), Items(items)) == JoinAll(ItemParts(elem, items))
  {
  }

  lemma FullStruct(fields: seq<Schema>, items: seq<Value>)
    ensures Full(Struct(fields), Items(items)) == JoinAll(FieldParts(fields, items))
  {
  }

  lemma FullList(elem: Schema, max: nat, items: seq<Value>)
    ensures Full(ArrayList(elem, max), Items(items))
         == ToBits(|items|, RequiredBits(max)) + JoinAll(ItemParts(elem, items))
  {
  }

  lemma FullMap(elem: Schema, max: nat, m: map<nat, Value>)
    ensures Full(Map(elem, max), Entries(m))
         == ToBits(|m|, RequiredBits(max)) + JoinAll(EntryParts(elem, RequiredBits(max), m, HighestIndex(m) + 1))
    ensures Full(SparseList(elem, max), Entries(m)) == Full(Map(elem, max), Entries(m))
  {
  }

  lemma FullNumber(low: int, high: int, n: int)
    requires low <= n <= high
    ensures Full(Ranged(low, high), Number(n)) == ToBits(n - low, RequiredBits(high - low))
  {
  }

  lemma FullFlag(b: bool)
    ensures Full(Bool, Flag(b)) == ToBits(if b then 1 else 0, 1)
  {
  }

  lemma FullBytes(n: nat, bytes: seq<Byte>)
    ensures Full(Pod(n), Bytes(bytes)) == BytesToBits(bytes)
    ensures Full(Text, Bytes(bytes)) == TextHeader(|bytes|) + BytesToBits(bytes)
  {
    hide TextHeader, BytesToBits;
  }

  lemma JoinNothing(base: Bits, parts: seq<Bits>)
    ensures base + Join(parts, 0, 0) == base && Nonempty(parts, 0, 0) == 0
  {
  }

  lemma PartNonempty(elem: Schema, key_bits: nat, m: map<nat, Value>, bound: nat, i: nat)
    requires key_bits > 0 && i in m && i < bound
    ensures EntryParts(elem, key_bits, m, bound)[i] == ToBits(i, key_bits) + Full(elem, m[i])
    ensures EntryParts(elem, key_bits, m, bound)[i] != []
  {
    hide Full;
  }

  /** Nothing is written between two consecutive keys. */
  lemma EmptyParts(elem: Schema, key_bits: nat, m: map<nat, Value>, bound: nat, i: nat, j: nat)
    requires i <= j <= bound && forall k :: i <= k < j ==> k !in m
    ensures
      var parts := EntryParts(elem, key_bits, m, bound);
      Join(parts, 0, i) == Join(parts, 0, j) && Nonempty(parts, 0, i) == Nonempty(parts, 0, j)
  {
    hide Full;
    JoinSkip(EntryParts(elem, key_bits, m, bound), i, j);
  }

  lemma EntriesCounted(elem: Schema, key_bits: nat, m: map<nat, Value>, bound: nat)
    requires key_bits > 0 && forall k :: k in m ==> k < bound
    ensures |m| == CountAll(EntryParts(elem, key_bits, m, bound))
  {
    hide Full;
    forall k | 0 <= k < bound ensures EntryParts(elem, key_bits, m, bound)[k] != [] <==> k in m {
      if k in m { PartNonempty(elem, key_bits, m, bound, k); }
    }
    AllKeysCounted(m, EntryParts(elem, key_bits, m, bound));
  }

  // ----- parts of a delta -----

  lemma FieldDeltaAt(fields: seq<Schema>, to: seq<Value>, from: seq<Value>, i: nat)
    requires i < |fields| == |to| == |from|
    ensures FieldDeltas(fields, to, from)[i] == if to[i] == from[i] then []
      else ToBits(i, RequiredBits(|fields|)) + Delta(fields[i], to[i], from[i])
    ensures FieldDeltas(fields, to, from)[i] == [] <==> to[i] == from[i]
  {
    hide Delta;
  }

  lemma {:induction false} SomeFieldChanged(fields: seq<Schema>, to: seq<Value>, from: seq<Value>)
    requires |fields| == |to| == |from|
    ensures CountAll(FieldDeltas(fields, to, from)) == 0 <==> to == from
  {
    hide Delta, FieldDeltas;
    var parts := FieldDeltas(fields, to, from);
    NonemptyZero(parts, 0, |fields|);
    forall i | 0 <= i < |fields| ensures parts[i] == [] <==> to[i] == from[i] {
      FieldDeltaAt(fields, to, from, i);
    }
    if CountAll(parts) == 0 {
      assert forall i :: 0 <= i < |to| ==> parts[i] == [] && to[i] == from[i];
    }
  }

  lemma ItemDeltaAt(elem: Schema, to: seq<Value>, from: seq<Value>, i: nat)
    requires i < |to|
    ensures ItemDeltas(elem, to, from)[i] == if i >= |from| then Full(elem, to[i])
      else ToBits(if to[i] == from[i] then 0 else 1, 1) + Delta(elem, to[i], from[i])
    ensures i < |from| && to[i] == from[i] ==> Delta(elem, to[i], from[i]) == []
  {
    hide Full;
  }

  lemma EntryDeltaAt(elem: Schema, key_bits: nat, to: map<nat, Value>, from: map<nat, Value>, bound: nat, k: nat)
    requires k < bound
    ensures EntryDeltas(elem, key_bits, to, from, bound)[k] == EntryDelta(elem, key_bits, to, from, k)
  {
    hide EntryDelta;
  }

  lemma EntryDeltaEmpty(elem: Schema, key_bits: nat, to: map<nat, Value>, from: map<nat, Value>, k: nat)
    requires key_bits > 0
    ensures EntryDelta(elem, key_bits, to, from, k) == [] <==> SameAt(to, from, k)
  {
    hide Delta, Full;
  }
}
