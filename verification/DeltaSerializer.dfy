/** The delta encoders: speculative writes behind reserved cursors, which are patched when
    something has changed and rolled back when nothing has. */
module DeltaSerializer {
  import opened BitUtil
  import opened BitStream
  import opened BitWriter
  import opened Joins
  import opened Schemas
  import opened CodecSpec
  import opened EncodingParts
  import opened Serializer
  import opened WireLayouts

  /** A cursor over `n` bits reserved behind `before` and not written to yet. */
  ghost predicate Reserved(cursor: BitWriterCursor, before: Bits, n: nat, drift: int)
    reads cursor
  {
    && cursor.Valid() && !cursor.wrote && cursor.size == n
    && cursor.Pos() == |before| && cursor.totalBits == |before| + drift
  }

  /** Gives up everything written since the cursor was reserved. */
  method RollBackTo(writer: BitWriterVector, cursor: BitWriterCursor, ghost before: Bits, ghost n: nat,
        ghost tail: Bits)
    requires writer.Valid() && Reserved(cursor, before, n, writer.Drift())
    requires writer.stream == before + Zeros(n) + tail
    modifies writer
    ensures writer.Valid() && writer.Drift() == old(writer.Drift())
    ensures writer.stream == before
  {
    hide BitWriterVector.Valid;
    assert (before + Zeros(n) + tail)[..|before|] == before;
    var ok := writer.RollBack(cursor);
  }

  /** Writes the difference if there is one; `wrote` says so.  An unchanged value leaves
      nothing behind: neither bits nor a moved write position nor a changed bit count. */
  method SerializeValueDelta(s: Schema, to: Value, from: Value, writer: BitWriterVector) returns (wrote: bool)
    requires s.WellFormed() && Shaped(s, to) && Shaped(s, from) && writer.Valid()
    modifies writer
    ensures writer.Valid() && writer.Drift() == old(writer.Drift())
    ensures wrote <==> to != from
    ensures writer.stream == old(writer.stream) + Delta(s, to, from)
    ensures !wrote ==>
      && writer.stream == old(writer.stream) && |writer.buffer| == |old(writer.buffer)|
      && writer.bit == old(writer.bit) && writer.totalBits == old(writer.totalBits)
    decreases s, 1
  {
    hide BitWriterVector.Valid, Delta, StructDelta, ListDelta, MapDelta, SparseDelta;
    writer.Position();
    wrote := SerializeDeltaOf(s, to, from, writer);
    writer.Position();
    NoDelta(s, to, from, old(writer.stream));
  }

  lemma NoDelta(s: Schema, to: Value, from: Value, before: Bits)
    ensures to == from ==> before + Delta(s, to, from) == before
  {
  }

  /** The specializations of `NetSerializerDelta`. */
  method SerializeDeltaOf(s: Schema, to: Value, from: Value, writer: BitWriterVector) returns (wrote: bool)
    requires s.WellFormed() && Shaped(s, to) && Shaped(s, from) && writer.Valid()
    modifies writer
    ensures writer.Valid() && writer.Drift() == old(writer.Drift())
    ensures wrote <==> to != from
    ensures writer.stream == old(writer.stream) + Delta(s, to, from)
    decreases s, 0
  {
    hide BitWriterVector.Valid, Delta, StructDelta, ListDelta, MapDelta, SparseDelta;
    match s
    case Struct(fs) => wrote := SerializeStructDelta(fs, to.items, from.items, writer);
    case ArrayList(e, max) => wrote := SerializeListDelta(e, max, to.items, from.items, writer);
    case Map(e, max) => wrote := SerializeMapDelta(e, max, to.entries, from.entries, writer);
    case SparseList(e, max) => wrote := SerializeSparseDelta(e, max, to.entries, from.entries, writer);
    case FixedArray(e, n) => wrote := SerializeArrayDelta(e, n, to.items, from.items, writer);
    case _ => wrote := SerializeLeafDelta(s, to, from, writer);
  }

  method SerializeLeafDelta(s: Schema, to: Value, from: Value, writer: BitWriterVector) returns (wrote: bool)
    requires s.Leaf() && s.WellFormed() && Shaped(s, to) && writer.Valid()
    modifies writer
    ensures writer.Valid() && writer.Drift() == old(writer.Drift())
    ensures wrote <==> to != from
    ensures writer.stream == old(writer.stream) + Delta(s, to, from)
  {
    hide BitWriterVector.Valid, Full;
    if to == from {
      return false;
    }
    SerializeValue(s, to, writer);
    wrote := true;
  }

  method SerializeArrayDelta(elem: Schema, n: nat, to: seq<Value>, from: seq<Value>, writer: BitWriterVector)
    returns (wrote: bool)
    requires elem.WellFormed() && AllShaped(elem, to) && writer.Valid() && |to| == |from| == n
    modifies writer
    ensures writer.Valid() && writer.Drift() == old(writer.Drift())
    ensures wrote <==> to != from
    ensures writer.stream == old(writer.stream) + Delta(FixedArray(elem, n), Items(to), Items(from))
  {
    hide BitWriterVector.Valid, Full, Shaped, Delta;
    ghost var before, parts := writer.stream, ItemParts(elem, to);
    var cursor := writer.Reserve(0);
    assert before + Zeros(0) == before;
    var num_differ := SerializeDiffering(elem, n, to, from, writer);
    ArrayDelta(elem, n, to, from);
    if num_differ == 0 {
      RollBackTo(writer, cursor, before, 0, JoinAll(parts));
      assert before + [] == before;
      return false;
    }
    wrote := true;
  }

  method SerializeDiffering(elem: Schema, n: nat, to: seq<Value>, from: seq<Value>, writer: BitWriterVector)
    returns (num_differ: nat)
    requires elem.WellFormed() && AllShaped(elem, to) && writer.Valid() && |to| == |from| == n
    modifies writer
    ensures writer.Valid() && writer.Drift() == old(writer.Drift())
    ensures num_differ == 0 <==> to == from
    ensures writer.stream == old(writer.stream) + JoinAll(ItemParts(elem, to))
  {
    hide BitWriterVector.Valid, Full, Shaped;
    ghost var base, parts := writer.stream, ItemParts(elem, to);
    num_differ := 0;
    JoinNothing(base, parts);
    var index := 0;
    while index < n
      invariant 0 <= index <= n && writer.Valid() && writer.Drift() == old(writer.Drift())
      invariant writer.stream == base + Join(parts, 0, index)
      invariant num_differ == 0 <==> forall j :: 0 <= j < index ==> to[j] == from[j]
    {
      if to[index] != from[index] {
        num_differ := num_differ + 1;
      }
      JoinNext(base, parts, index);
      SerializeValue(elem, to[index], writer);
      index := index + 1;
    }
  }

  lemma ArrayDelta(elem: Schema, n: nat, to: seq<Value>, from: seq<Value>)
    ensures Delta(FixedArray(elem, n), Items(to), Items(from))
        == if to == from then [] else JoinAll(ItemParts(elem, to))
  {
    hide Full;
    FullArray(elem, n, to);
  }

  // ----- structs -----

  method SerializeFieldDelta(fields: seq<Schema>, to: seq<Value>, from: seq<Value>, field_index: nat,
        writer: BitWriterVector)
    returns (wrote: bool)
    requires Struct(fields).WellFormed() && field_index < |fields| && writer.Valid()
    requires Shaped(Struct(fields), Items(to)) && Shaped(Struct(fields), Items(from))
    modifies writer
    ensures writer.Valid() && writer.Drift() == old(writer.Drift())
    ensures wrote <==> to[field_index] != from[field_index]
    ensures writer.stream == old(writer.stream) + FieldDeltas(fields, to, from)[field_index]
    decreases fields, 0
  {
    hide BitWriterVector.Valid, Delta, FieldDeltas, FieldWidth;
    ghost var before := writer.stream;
    FieldDeltaAt(fields, to, from, field_index);
    var required_bits := FieldWidth(|fields|);
    var cursor := writer.Reserve(required_bits);
    wrote := SerializeValueDelta(fields[field_index], to[field_index], from[field_index], writer);
    ghost var delta := Delta(fields[field_index], to[field_index], from[field_index]);
    if wrote {
      FillHeader(writer, cursor, field_index, required_bits, before, delta);
    } else {
      RollBackTo(writer, cursor, before, required_bits, delta);
      assert before + [] == before;
    }
  }

  method SerializeStructDelta(fields: seq<Schema>, to: seq<Value>, from: seq<Value>, writer: BitWriterVector)
    returns (wrote: bool)
    requires Struct(fields).WellFormed() && writer.Valid()
    requires Shaped(Struct(fields), Items(to)) && Shaped(Struct(fields), Items(from))
    modifies writer
    ensures writer.Valid() && writer.Drift() == old(writer.Drift())
    ensures wrote <==> to != from
    ensures writer.stream == old(writer.stream) + Delta(Struct(fields), Items(to), Items(from))
    decreases fields, 1
  {
    hide BitWriterVector.Valid, Delta, FieldDeltas, FieldWidth, StructDelta, Shaped;
    ghost var before, parts := writer.stream, FieldDeltas(fields, to, from);
    var num_wrote := 0;
    var required_bits := FieldWidth(|fields|);
    var cursor := writer.Reserve(required_bits);
    ghost var base := writer.stream;
    JoinNothing(base, parts);
    StructSizes(fields, to, from);
    var field_index := 0;
    while field_index < |fields|
      invariant 0 <= field_index <= |fields| && num_wrote == Nonempty(parts, 0, field_index)
      invariant writer.Valid() && writer.Drift() == old(writer.Drift())
      invariant writer.stream == base + Join(parts, 0, field_index)
      invariant Reserved(cursor, before, required_bits, writer.Drift())
    {
      FieldDeltaAt(fields, to, from, field_index);
      JoinNext(base, parts, field_index);
      var changed := SerializeFieldDelta(fields, to, from, field_index, writer);
      if changed {
        num_wrote := num_wrote + 1;
      }
      field_index := field_index + 1;
    }
    SomeFieldChanged(fields, to, from);
    StructForm(fields, to, from);
    if num_wrote > 0 {
      FillHeader(writer, cursor, num_wrote, required_bits, before, JoinAll(parts));
      return true;
    }
    RollBackTo(writer, cursor, before, required_bits, JoinAll(parts));
    assert before + [] == before;
    wrote := false;
  }

  lemma StructSizes(fields: seq<Schema>, to: seq<Value>, from: seq<Value>)
    requires Shaped(Struct(fields), Items(to)) && Shaped(Struct(fields), Items(from))
    ensures |to| == |from| == |fields|
  {
  }

  lemma StructForm(fields: seq<Schema>, to: seq<Value>, from: seq<Value>)
    ensures
      var parts := FieldDeltas(fields, to, from);
      Delta(Struct(fields), Items(to), Items(from))
        == if to == from then [] else ToBits(CountAll(parts), RequiredBits(|fields|)) + JoinAll(parts)
  {
    hide FieldDeltas;
  }

  // ----- array lists -----

  method SerializeItemDelta(elem: Schema, to: seq<Value>, from: seq<Value>, index: nat, writer: BitWriterVector)
    returns (changed: bool)
    requires elem.WellFormed() && AllShaped(elem, to) && AllShaped(elem, from)
    requires index < |to| && index < |from| && writer.Valid()
    modifies writer
    ensures writer.Valid() && writer.Drift() == old(writer.Drift())
    ensures changed <==> to[index] != from[index]
    ensures writer.stream == old(writer.stream) + ItemDeltas(elem, to, from)[index]
    decreases elem, 2
  {
    hide BitWriterVector.Valid, Delta, ItemDeltas, Shaped;
    ghost var before := writer.stream;
    ItemDeltaAt(elem, to, from, index);
    var cursor := writer.Reserve(1);
    changed := SerializeValueDelta(elem, to[index], from[index], writer);
    FillHeader(writer, cursor, if changed then 1 else 0, 1, before, Delta(elem, to[index], from[index]));
  }

  method SerializeListDelta(elem: Schema, max: nat, to: seq<Value>, from: seq<Value>, writer: BitWriterVector)
    returns (wrote: bool)
    requires ArrayList(elem, max).WellFormed() && AllShaped(elem, to) && AllShaped(elem, from) && writer.Valid()
    modifies writer
    ensures writer.Valid() && writer.Drift() == old(writer.Drift())
    ensures wrote <==> to != from
    ensures writer.stream == old(writer.stream) + Delta(ArrayList(elem, max), Items(to), Items(from))
    decreases elem, 4
  {
    hide BitWriterVector.Valid, Delta, ItemDeltas, ListDelta, AllShaped;
    ListForm(elem, max, to, from);
    if |to| != |from| {
      SerializeResized(elem, max, to, from, writer);
      return true;
    }
    ghost var before, parts := writer.stream, ItemDeltas(elem, to, from);
    var begin_cursor := writer.Reserve(1);
    var num_wrote := SerializeItemDeltas(elem, to, from, writer);
    if num_wrote > 0 {
      FillHeader(writer, begin_cursor, 0, 1, before, JoinAll(parts));
      return true;
    }
    RollBackTo(writer, begin_cursor, before, 1, JoinAll(parts));
    assert before + [] == before;
    wrote := false;
  }

  lemma ListForm(elem: Schema, max: nat, to: seq<Value>, from: seq<Value>)
    ensures Delta(ArrayList(elem, max), Items(to), Items(from))
         == if to == from then [] else ListDelta(elem, max, to, from)
    ensures ListDelta(elem, max, to, from)
         == (if |to| == |from| then ToBits(0, 1) else ToBits(1, 1) + ToBits(|to|, RequiredBits(max)))
            + JoinAll(ItemDeltas(elem, to, from))
  {
    hide ItemDeltas;
  }

  method SerializeResized(elem: Schema, max: nat, to: seq<Value>, from: seq<Value>, writer: BitWriterVector)
    requires ArrayList(elem, max).WellFormed() && AllShaped(elem, to) && AllShaped(elem, from)
    requires writer.Valid() && |to| != |from|
    modifies writer
    ensures writer.Valid() && writer.Drift() == old(writer.Drift())
    ensures writer.stream == old(writer.stream) + ListDelta(elem, max, to, from)
    decreases elem, 3
  {
    hide BitWriterVector.Valid, Full, Delta, ItemDeltas, ListDelta, FieldWidth, Shaped;
    ghost var before, parts := writer.stream, ItemDeltas(elem, to, from);
    var required_bits := FieldWidth(max);
    ListForm(elem, max, to, from);
    ConcatAssoc(before, ToBits(1, 1) + ToBits(|to|, required_bits), JoinAll(parts));
    ConcatAssoc(before, ToBits(1, 1), ToBits(|to|, required_bits));
    writer.WriteBits(1, 1);
    writer.WriteBits(|to|, required_bits);
    ghost var base := writer.stream;
    JoinNothing(base, parts);
    var index := 0;
    while index < |to|
      invariant 0 <= index <= |to| && writer.Valid() && writer.Drift() == old(writer.Drift())
      invariant writer.stream == base + Join(parts, 0, index)
    {
      JoinNext(base, parts, index);
      if index >= |from| {
        ItemDeltaAt(elem, to, from, index);
        SerializeValue(elem, to[index], writer);
      } else {
        var changed := SerializeItemDelta(elem, to, from, index, writer);
      }
      index := index + 1;
    }
  }

  method SerializeItemDeltas(elem: Schema, to: seq<Value>, from: seq<Value>, writer: BitWriterVector)
    returns (num_wrote: nat)
    requires elem.WellFormed() && AllShaped(elem, to) && AllShaped(elem, from) && writer.Valid() && |to| == |from|
    modifies writer
    ensures writer.Valid() && writer.Drift() == old(writer.Drift())
    ensures num_wrote == 0 <==> to == from
    ensures writer.stream == old(writer.stream) + JoinAll(ItemDeltas(elem, to, from))
    decreases elem, 3
  {
    hide BitWriterVector.Valid, Delta, ItemDeltas, AllShaped;
    ghost var base, parts := writer.stream, ItemDeltas(elem, to, from);
    num_wrote := 0;
    JoinNothing(base, parts);
    var index := 0;
    while index < |to|
      invariant 0 <= index <= |to| && writer.Valid() && writer.Drift() == old(writer.Drift())
      invariant writer.stream == base + Join(parts, 0, index)
      invariant num_wrote == 0 <==> forall j :: 0 <= j < index ==> to[j] == from[j]
    {
      JoinNext(base, parts, index);
      var changed := SerializeItemDelta(elem, to, from, index, writer);
      if changed {
        num_wrote := num_wrote + 1;
      }
      index := index + 1;
    }
  }

  // ----- sparse lists -----

  /** The width of an index field; a highest index of -1 asks for 32 bits. */
  function IndexWidth(highest: int): (k: nat)
    requires -1 <= highest < 0x8000_0000
    ensures k == IndexBits(highest) && 1 <= k <= 32
  {
    IndexBitsRange(highest);
    GetRequiredBits32(highest)
  }

  lemma IndexBitsRange(highest: int)
    requires -1 <= highest < 0x8000_0000
    ensures highest < Pow2(31) && 1 <= IndexBits(highest) <= 32
  {
    HalfWordConstants();
    WordConstants();
    if highest >= 0 { RequiredBitsCharacterized(highest, 31); }
  }

  /** One index: a full value, a removal, or a delta behind a second cursor. */
  method SerializeIndexDelta(elem: Schema, required_bits: nat, to: map<nat, Value>, from: map<nat, Value>, index: nat,
      writer: BitWriterVector)
    returns (wrote: bool)
    requires elem.WellFormed() && MapShaped(elem, to) && MapShaped(elem, from)
    requires writer.Valid() && 1 <= required_bits <= 63
    modifies writer
    ensures writer.Valid() && writer.Drift() == old(writer.Drift())
    ensures wrote <==> !SameAt(to, from, index)
    ensures writer.stream == old(writer.stream) + EntryDelta(elem, required_bits, to, from, index)
    decreases elem, 4
  {
    hide BitWriterVector.Valid, Delta, Full, MapShaped;
    ghost var before, key := writer.stream, ToBits(index, required_bits);
    var index_cursor := writer.Reserve(required_bits);
    if index in to && index !in from {
      assert before + Zeros(required_bits) + [] == before + Zeros(required_bits);
      FillHeader(writer, index_cursor, index, required_bits, before, []);
      ConcatAssoc(before, key, Full(elem, to[index]));
      assert before + (key + []) == before + key;
      SerializeInside(elem, to, index, writer);
      return true;
    } else if index !in to && index in from {
      assert before + Zeros(required_bits) + [] == before + Zeros(required_bits);
      FillHeader(writer, index_cursor, index, required_bits, before, []);
      ConcatAssoc(before, key, ToBits(0, 1));
      assert before + (key + []) == before + key;
      writer.WriteBits(0, 1);
      return true;
    } else {
      wrote := SerializeExisting(elem, required_bits, to, from, index, index_cursor, writer, before);
    }
  }

  method SerializeInside(elem: Schema, m: map<nat, Value>, key: nat, writer: BitWriterVector)
    requires elem.WellFormed() && MapShaped(elem, m) && key in m && writer.Valid()
    modifies writer
    ensures writer.Valid() && writer.Drift() == old(writer.Drift())
    ensures writer.stream == old(writer.stream) + Full(elem, m[key])
  {
    hide BitWriterVector.Valid, Full, Shaped;
    SerializeValue(elem, m[key], writer);
  }

  method SerializeChange(elem: Schema, to: map<nat, Value>, from: map<nat, Value>, key: nat, writer: BitWriterVector)
    returns (changed: bool)
    requires elem.WellFormed() && MapShaped(elem, to) && MapShaped(elem, from)
    requires key in to && key in from && writer.Valid()
    modifies writer
    ensures writer.Valid() && writer.Drift() == old(writer.Drift())
    ensures changed <==> to[key] != from[key]
    ensures writer.stream == old(writer.stream) + Delta(elem, to[key], from[key])
    decreases elem, 2
  {
    hide BitWriterVector.Valid, Delta, Shaped;
    changed := SerializeValueDelta(elem, to[key], from[key], writer);
  }

  /** An index both lists have or both lack, behind its reserved cursor. */
  method SerializeExisting(elem: Schema, required_bits: nat, to: map<nat, Value>, from: map<nat, Value>, index: nat,
      index_cursor: BitWriterCursor, writer: BitWriterVector, ghost before: Bits)
    returns (wrote: bool)
    requires elem.WellFormed() && MapShaped(elem, to) && MapShaped(elem, from) && (index in to <==> index in from)
    requires writer.Valid() && 1 <= required_bits <= 63
    requires writer.stream == before + Zeros(required_bits)
    requires Reserved(index_cursor, before, required_bits, writer.Drift())
    modifies writer, index_cursor
    ensures writer.Valid() && writer.Drift() == old(writer.Drift())
    ensures wrote <==> !SameAt(to, from, index)
    ensures writer.stream == before + EntryDelta(elem, required_bits, to, from, index)
    decreases elem, 3
  {
    hide BitWriterVector.Valid, Delta, Full, MapShaped;
    ghost var key := ToBits(index, required_bits);
    var new_elem_cursor := writer.Reserve(1);
    if index !in to {
      RollBackTo(writer, index_cursor, before, required_bits, Zeros(1));
      assert before + [] == before;
      return false;
    }
    var changed := SerializeChange(elem, to, from, index, writer);
    ghost var delta := Delta(elem, to[index], from[index]);
    ConcatAssoc(before + Zeros(required_bits), Zeros(1), delta);
    if !changed {
      RollBackTo(writer, index_cursor, before, required_bits, Zeros(1) + delta);
      assert before + [] == before;
      return false;
    }
    FillHeader(writer, index_cursor, index, required_bits, before, Zeros(1) + delta);
    ConcatAssoc(before, key, Zeros(1) + delta);
    ConcatAssoc(before + key, Zeros(1), delta);
    FillHeader(writer, new_elem_cursor, 1, 1, before + key, delta);
    ConcatAssoc(before, key, ToBits(1, 1) + delta);
    ConcatAssoc(key, ToBits(1, 1), delta);
    wrote := true;
  }

  method SerializeIndexDeltas(elem: Schema, required_bits: nat, to: map<nat, Value>, from: map<nat, Value>,
      highest: int, writer: BitWriterVector)
    returns (num_wrote: nat)
    requires elem.WellFormed() && MapShaped(elem, to) && MapShaped(elem, from)
    requires writer.Valid() && 1 <= required_bits <= 63 && highest >= -1
    modifies writer
    ensures writer.Valid() && writer.Drift() == old(writer.Drift())
    ensures num_wrote == CountAll(EntryDeltas(elem, required_bits, to, from, highest + 1))
    ensures writer.stream == old(writer.stream) + JoinAll(EntryDeltas(elem, required_bits, to, from, highest + 1))
    decreases elem, 5
  {
    hide BitWriterVector.Valid, EntryDelta, EntryDeltas, MapShaped, SameAt;
    ghost var base, parts := writer.stream, EntryDeltas(elem, required_bits, to, from, highest + 1);
    num_wrote := 0;
    JoinNothing(base, parts);
    var index := 0;
    while index <= highest
      invariant 0 <= index <= highest + 1 && num_wrote == Nonempty(parts, 0, index)
      invariant writer.Valid() && writer.Drift() == old(writer.Drift())
      invariant writer.stream == base + Join(parts, 0, index)
    {
      EntryDeltaAt(elem, required_bits, to, from, highest + 1, index);
      EntryDeltaEmpty(elem, required_bits, to, from, index);
      JoinNext(base, parts, index);
      var wrote := SerializeIndexDelta(elem, required_bits, to, from, index, writer);
      if wrote {
        num_wrote := num_wrote + 1;
      }
      index := index + 1;
    }
  }

  method SerializeSparseDelta(elem: Schema, max: nat, to: map<nat, Value>, from: map<nat, Value>,
        writer: BitWriterVector)
    returns (wrote: bool)
    requires SparseList(elem, max).WellFormed() && writer.Valid()
    requires Shaped(SparseList(elem, max), Entries(to)) && Shaped(SparseList(elem, max), Entries(from))
    modifies writer
    ensures writer.Valid() && writer.Drift() == old(writer.Drift())
    ensures wrote <==> to != from
    ensures writer.stream == old(writer.stream) + Delta(SparseList(elem, max), Entries(to), Entries(from))
    ensures forall k: nat :: DifferAt(to, from, k) && HighestIndex(to) == HighestIndex(from) ==>
      var h := HighestIndex(to);
      h >= 0 && writer.stream == old(writer.stream)
        + ([false] + ToBits(1, RequiredBits(h + 1)) + (ToBits(k, RequiredBits(h))
           + if k !in to then [false]
             else if k !in from then Full(elem, to[k])
             else [true] + Delta(elem, to[k], from[k])))
    ensures forall k: nat :: k in to && k > HighestIndex(from) && to == from[k := to[k]] ==>
      writer.stream == old(writer.stream)
        + ([true] + ToBits(k + 1, RequiredBits(max)) + ToBits(1, RequiredBits(k + 1))
           + (ToBits(k, RequiredBits(k)) + Full(elem, to[k])))
    decreases elem, 7
  {
    wrote := SerializeSparseRecords(elem, max, to, from, writer);
    hide BitWriterVector.Valid, Delta, Full, HighestIndex, ToBits, RequiredBits, DifferAt;
    forall k: nat | DifferAt(to, from, k) && HighestIndex(to) == HighestIndex(from)
      ensures
        var h := HighestIndex(to);
        h >= 0 && Delta(SparseList(elem, max), Entries(to), Entries(from))
          == [false] + ToBits(1, RequiredBits(h + 1)) + (ToBits(k, RequiredBits(h))
             + if k !in to then [false]
               else if k !in from then Full(elem, to[k])
               else [true] + Delta(elem, to[k], from[k]))
    {
      SparseChangeLayout(elem, max, to, from, k);
    }
    forall k: nat | k in to && k > HighestIndex(from) && to == from[k := to[k]]
      ensures Delta(SparseList(elem, max), Entries(to), Entries(from))
        == [true] + ToBits(k + 1, RequiredBits(max)) + ToBits(1, RequiredBits(k + 1))
           + (ToBits(k, RequiredBits(k)) + Full(elem, to[k]))
    {
      SparseAppendLayout(elem, max, to, from, k);
    }
  }

  method SerializeSparseRecords(elem: Schema, max: nat, to: map<nat, Value>, from: map<nat, Value>,
        writer: BitWriterVector)
    returns (wrote: bool)
    requires SparseList(elem, max).WellFormed() && writer.Valid()
    requires Shaped(SparseList(elem, max), Entries(to)) && Shaped(SparseList(elem, max), Entries(from))
    modifies writer
    ensures writer.Valid() && writer.Drift() == old(writer.Drift())
    ensures wrote <==> to != from
    ensures writer.stream == old(writer.stream) + Delta(SparseList(elem, max), Entries(to), Entries(from))
    decreases elem, 6
  {
    hide BitWriterVector.Valid, Delta, SparseDelta, EntryDeltas, MapShaped, FieldWidth, IndexWidth, HighestIndex,
          JoinAll, CountAll;
    var highest, other := HighestIndex(to), HighestIndex(from);
    ghost var before, header := writer.stream, SparseHeader(max, highest, other);
    var begin_cursor := writer.Reserve(1);
    var size_change := highest != other;
    if size_change {
      SparseResize(writer, begin_cursor, max, highest, other, before);
    }
    ghost var middle := if size_change then before + header else before + Zeros(1);
    var required_bits := IndexWidth(highest);
    var required_size_bits := FieldWidth(highest + 1);
    var size_cursor := writer.Reserve(required_size_bits);
    var num_wrote := SerializeIndexDeltas(elem, required_bits, to, from, highest, writer);
    ghost var body := JoinAll(EntryDeltas(elem, required_bits, to, from, highest + 1));
    SparseForm(elem, max, to, from);
    if num_wrote == 0 && !size_change {
      ConcatAssoc(before + Zeros(1), Zeros(required_size_bits), body);
      RollBackTo(writer, begin_cursor, before, 1, Zeros(required_size_bits) + body);
      assert before + [] == before;
      return false;
    }
    if !size_change {
      SparseUnresized(writer, begin_cursor, max, highest, before, required_size_bits, body);
    }
    FillHeader(writer, size_cursor, num_wrote, required_size_bits, before + header, body);
    ConcatAssoc(before, header, ToBits(num_wrote, required_size_bits) + body);
    ConcatAssoc(header, ToBits(num_wrote, required_size_bits), body);
    wrote := true;
  }

  /** The flag of a changed size and the new size behind it. */
  method SparseResize(writer: BitWriterVector, begin_cursor: BitWriterCursor, max: nat, highest: int, other: int,
        ghost before: Bits)
    requires writer.Valid() && Reserved(begin_cursor, before, 1, writer.Drift())
    requires max < 0x8000_0000 && highest >= -1 && highest != other && writer.stream == before + Zeros(1)
    modifies writer, begin_cursor
    ensures writer.Valid() && writer.Drift() == old(writer.Drift())
    ensures writer.stream == before + SparseHeader(max, highest, other)
  {
    hide BitWriterVector.Valid, FieldWidth;
    assert before + Zeros(1) + [] == before + Zeros(1);
    FillHeader(writer, begin_cursor, 1, 1, before, []);
    assert before + (ToBits(1, 1) + []) == before + ToBits(1, 1);
    ConcatAssoc(before, ToBits(1, 1), ToBits(highest + 1, RequiredBits(max)));
    writer.WriteBits(highest + 1, FieldWidth(max));
  }

  /** The flag of an unchanged size, patched behind the records. */
  method SparseUnresized(writer: BitWriterVector, begin_cursor: BitWriterCursor, max: nat, highest: int,
      ghost before: Bits, ghost n: nat, ghost body: Bits)
    requires writer.Valid() && Reserved(begin_cursor, before, 1, writer.Drift()) && highest >= -1
    requires writer.stream == before + Zeros(1) + Zeros(n) + body
    modifies writer, begin_cursor
    ensures writer.Valid() && writer.Drift() == old(writer.Drift())
    ensures writer.stream == before + SparseHeader(max, highest, highest) + Zeros(n) + body
  {
    hide BitWriterVector.Valid;
    ConcatAssoc(before + Zeros(1), Zeros(n), body);
    FillHeader(writer, begin_cursor, 0, 1, before, Zeros(n) + body);
    ConcatAssoc(before, ToBits(0, 1), Zeros(n) + body);
    ConcatAssoc(before + ToBits(0, 1), Zeros(n), body);
  }

  lemma SparseForm(elem: Schema, max: nat, to: map<nat, Value>, from: map<nat, Value>)
    ensures
      var h := HighestIndex(to);
      var parts := EntryDeltas(elem, IndexBits(h), to, from, h + 1);
      && (to == from <==> h == HighestIndex(from) && CountAll(parts) == 0)
      && Delta(SparseList(elem, max), Entries(to), Entries(from)) == if to == from then []
           else SparseHeader(max, h, HighestIndex(from)) + ToBits(CountAll(parts), RequiredBits(h + 1)) + JoinAll(parts)
  {
    hide EntryDeltas, HighestIndex, CountAll, JoinAll, SparseHeader;
    var h := HighestIndex(to);
    if h == HighestIndex(from) {
      IndexBitsPositive(h);
      NoEntryChanged(elem, IndexBits(h), to, from, h + 1);
    }
  }

  lemma IndexBitsPositive(h: int)
    ensures IndexBits(h) > 0
  {
  }

  lemma NoEntryChanged(elem: Schema, key_bits: nat, to: map<nat, Value>, from: map<nat, Value>, bound: nat)
    requires key_bits > 0
    requires forall k :: k in to ==> k < bound
    requires forall k :: k in from ==> k < bound
    ensures CountAll(EntryDeltas(elem, key_bits, to, from, bound)) == 0 <==> to == from
  {
    hide EntryDeltas, EntryDelta;
    var parts := EntryDeltas(elem, key_bits, to, from, bound);
    NonemptyZero(parts, 0, bound);
    forall k | 0 <= k < bound ensures parts[k] == [] <==> SameAt(to, from, k) {
      EntryDeltaAt(elem, key_bits, to, from, bound, k);
      EntryDeltaEmpty(elem, key_bits, to, from, k);
    }
    if CountAll(parts) == 0 {
      forall k | k in to || k in from ensures SameAt(to, from, k) {
        assert parts[k] == [];
      }
      assert to == from;
    }
  }

  // ----- maps -----

  /** Two iterators walking over the keys of `to` and `from`, `end` standing for both end
      iterators: everything below the nearer one has been written. */
  ghost predicate Merging(writer: BitWriterVector, base: Bits, drift: int, elem: Schema, key_bits: nat,
      to: map<nat, Value>, from: map<nat, Value>, end: nat, itr: nat, other_itr: nat, num_wrote: nat)
    reads writer
  {
    && writer.Valid() && writer.Drift() == drift
    && itr <= end && other_itr <= end
    && (itr < end ==> itr in to) && (other_itr < end ==> other_itr in from)
    && (forall k :: other_itr <= k < itr ==> k !in to)
    && (forall k :: itr <= k < other_itr ==> k !in from)
    && var parts, passed := EntryDeltas(elem, key_bits, to, from, end), Min(itr, other_itr);
      writer.stream == base + Join(parts, 0, passed) && num_wrote == Nonempty(parts, 0, passed)
  }

  /** Passing one key: the records of the keys skipped over are empty. */
  lemma PassKey(base: Bits, elem: Schema, key_bits: nat, to: map<nat, Value>, from: map<nat, Value>, end: nat,
        k: nat, k': nat)
    requires key_bits > 0 && k < k' <= end
    requires forall j :: k < j < k' ==> j !in to && j !in from
    ensures
      var parts := EntryDeltas(elem, key_bits, to, from, end);
      && base + Join(parts, 0, k) + EntryDelta(elem, key_bits, to, from, k) == base + Join(parts, 0, k')
      && Nonempty(parts, 0, k') == Nonempty(parts, 0, k) + if SameAt(to, from, k) then 0 else 1
  {
    hide EntryDeltas, EntryDelta;
    var parts := EntryDeltas(elem, key_bits, to, from, end);
    EntryDeltaAt(elem, key_bits, to, from, end, k);
    EntryDeltaEmpty(elem, key_bits, to, from, k);
    JoinNext(base, parts, k);
    forall j | k < j < k' ensures parts[j] == [] {
      EntryDeltaAt(elem, key_bits, to, from, end, j);
      EntryDeltaEmpty(elem, key_bits, to, from, j);
    }
    JoinSkip(parts, k + 1, k');
  }

  method MergeRemoved(writer: BitWriterVector, elem: Schema, key_bits: nat, to: map<nat, Value>, from: map<nat, Value>,
      end: nat, itr: nat, other_itr: nat, num_wrote: nat, ghost base: Bits, ghost drift: int)
    returns (other_next: nat, count: nat)
    requires Merging(writer, base, drift, elem, key_bits, to, from, end, itr, other_itr, num_wrote)
    requires key_bits > 0 && other_itr < itr
    modifies writer
    ensures Merging(writer, base, drift, elem, key_bits, to, from, end, itr, other_next, count)
    ensures other_itr < other_next <= end
  {
    hide BitWriterVector.Valid, EntryDeltas, Delta, Full, Join, Nonempty;
    other_next := NextKey(from, other_itr + 1, end);
    PassKey(base, elem, key_bits, to, from, end, other_itr, Min(itr, other_next));
    ConcatAssoc(writer.stream, ToBits(other_itr, key_bits), ToBits(0, 1));
    writer.WriteBits(other_itr, key_bits);
    writer.WriteBits(0, 1);
    count := num_wrote + 1;
  }

  method MergeNew(writer: BitWriterVector, elem: Schema, key_bits: nat, to: map<nat, Value>, from: map<nat, Value>,
      end: nat, itr: nat, other_itr: nat, num_wrote: nat, ghost base: Bits, ghost drift: int)
    returns (next: nat, count: nat)
    requires Merging(writer, base, drift, elem, key_bits, to, from, end, itr, other_itr, num_wrote)
    requires key_bits > 0 && itr < other_itr && elem.WellFormed() && MapShaped(elem, to)
    modifies writer
    ensures Merging(writer, base, drift, elem, key_bits, to, from, end, next, other_itr, count)
    ensures itr < next <= end
  {
    hide BitWriterVector.Valid, EntryDeltas, Delta, Full, MapShaped, Join, Nonempty;
    next := NextKey(to, itr + 1, end);
    PassKey(base, elem, key_bits, to, from, end, itr, Min(next, other_itr));
    SerializeEntry(elem, key_bits, to, itr, writer);
    count := num_wrote + 1;
  }

  method MergeCommon(writer: BitWriterVector, elem: Schema, key_bits: nat, to: map<nat, Value>, from: map<nat, Value>,
      end: nat, itr: nat, num_wrote: nat, ghost base: Bits, ghost drift: int)
    returns (next: nat, other_next: nat, count: nat)
    requires Merging(writer, base, drift, elem, key_bits, to, from, end, itr, itr, num_wrote)
    requires 1 <= key_bits <= 62 && itr < end && elem.WellFormed() && MapShaped(elem, to) && MapShaped(elem, from)
    modifies writer
    ensures Merging(writer, base, drift, elem, key_bits, to, from, end, next, other_next, count)
    ensures itr < next <= end && itr < other_next <= end
    decreases elem, 4
  {
    hide BitWriterVector.Valid, EntryDeltas, EntryDelta, MapShaped, Join, Nonempty;
    next, other_next := NextKey(to, itr + 1, end), NextKey(from, itr + 1, end);
    PassKey(base, elem, key_bits, to, from, end, itr, Min(next, other_next));
    var changed := SerializeCommon(elem, key_bits, to, from, itr, writer);
    count := if changed then num_wrote + 1 else num_wrote;
  }

  /** Two writes through one cursor: a key and the flag behind it. */
  method FillKeyAndFlag(writer: BitWriterVector, cursor: BitWriterCursor, key: nat, key_bits: nat,
      ghost before: Bits, ghost body: Bits)
    requires writer.Valid() && cursor.Valid() && key_bits <= 62
    requires cursor.Pos() == |before| && cursor.size == key_bits + 1
    requires writer.stream == before + Zeros(key_bits + 1) + body
    modifies writer, cursor
    ensures writer.Valid() && writer.Drift() == old(writer.Drift())
    ensures writer.stream == before + (ToBits(key, key_bits) + ToBits(1, 1) + body)
  {
    hide BitWriterVector.Valid;
    ghost var k := ToBits(key, key_bits);
    OverwriteHeader(before, key_bits + 1, k, body);
    var ok := writer.WriteBitsAt(cursor, key, key_bits);
    assert before + (k + Zeros(1) + body) == before + k + Zeros(1) + body;
    OverwriteHeader(before + k, 1, ToBits(1, 1), body);
    HeaderFilled(before + k, ToBits(1, 1), body);
    ok := writer.WriteBitsAt(cursor, 1, 1);
    assert before + k + (ToBits(1, 1) + body) == before + (k + ToBits(1, 1) + body);
  }

  /** A key both maps have: one cursor holds the key and the flag behind it. */
  method SerializeCommon(elem: Schema, key_bits: nat, to: map<nat, Value>, from: map<nat, Value>, key: nat,
      writer: BitWriterVector)
    returns (changed: bool)
    requires elem.WellFormed() && MapShaped(elem, to) && MapShaped(elem, from) && key in to && key in from
    requires writer.Valid() && 1 <= key_bits <= 62
    modifies writer
    ensures writer.Valid() && writer.Drift() == old(writer.Drift())
    ensures changed <==> !SameAt(to, from, key)
    ensures writer.stream == old(writer.stream) + EntryDelta(elem, key_bits, to, from, key)
    decreases elem, 3
  {
    hide BitWriterVector.Valid, Delta, Full, MapShaped;
    ghost var before, k := writer.stream, ToBits(key, key_bits);
    var index_cursor := writer.Reserve(key_bits + 1);
    changed := SerializeChange(elem, to, from, key, writer);
    ghost var delta := Delta(elem, to[key], from[key]);
    if changed {
      FillKeyAndFlag(writer, index_cursor, key, key_bits, before, delta);
    } else {
      RollBackTo(writer, index_cursor, before, key_bits + 1, delta);
      assert before + [] == before;
    }
  }

  method SerializeMapDelta(elem: Schema, max: nat, to: map<nat, Value>, from: map<nat, Value>, writer: BitWriterVector)
    returns (wrote: bool)
    requires Map(elem, max).WellFormed() && MapShaped(elem, to) && MapShaped(elem, from) && writer.Valid()
    modifies writer
    ensures writer.Valid() && writer.Drift() == old(writer.Drift())
    ensures wrote <==> to != from
    ensures writer.stream == old(writer.stream) + Delta(Map(elem, max), Entries(to), Entries(from))
    decreases elem, 6
  {
    hide BitWriterVector.Valid, Delta, EntryDeltas, FieldWidth, MapShaped, MapBound, JoinAll, CountAll;
    ghost var before := writer.stream;
    var required_bits := FieldWidth(max);
    var end := MapBound(to, from);
    ghost var parts := EntryDeltas(elem, required_bits, to, from, end);
    var size_cursor := writer.Reserve(required_bits);
    var num_wrote := SerializeMerge(elem, required_bits, to, from, end, writer);
    MapForm(elem, max, to, from);
    if num_wrote == 0 {
      RollBackTo(writer, size_cursor, before, required_bits, JoinAll(parts));
      assert before + [] == before;
      return false;
    }
    FillHeader(writer, size_cursor, num_wrote, required_bits, before, JoinAll(parts));
    wrote := true;
  }

  lemma MapForm(elem: Schema, max: nat, to: map<nat, Value>, from: map<nat, Value>)
    ensures
      var parts := EntryDeltas(elem, RequiredBits(max), to, from, MapBound(to, from));
      && (to == from <==> CountAll(parts) == 0)
      && Delta(Map(elem, max), Entries(to), Entries(from)) == if to == from then []
           else ToBits(CountAll(parts), RequiredBits(max)) + JoinAll(parts)
  {
    hide EntryDeltas, HighestIndex, CountAll, JoinAll;
    NoEntryChanged(elem, RequiredBits(max), to, from, MapBound(to, from));
  }

  /** The merge walk over both maps. */
  method SerializeMerge(elem: Schema, key_bits: nat, to: map<nat, Value>, from: map<nat, Value>, end: nat,
      writer: BitWriterVector)
    returns (num_wrote: nat)
    requires elem.WellFormed() && MapShaped(elem, to) && MapShaped(elem, from)
    requires writer.Valid() && 1 <= key_bits <= 62
    modifies writer
    ensures writer.Valid() && writer.Drift() == old(writer.Drift())
    ensures num_wrote == CountAll(EntryDeltas(elem, key_bits, to, from, end))
    ensures writer.stream == old(writer.stream) + JoinAll(EntryDeltas(elem, key_bits, to, from, end))
    decreases elem, 5
  {
    hide BitWriterVector.Valid, EntryDeltas, MapShaped, Join, Nonempty, Merging;
    ghost var base, drift := writer.stream, writer.Drift();
    var itr: nat, other_itr: nat := NextKey(to, 0, end), NextKey(from, 0, end);
    num_wrote := 0;
    MergeStart(writer, elem, key_bits, to, from, end, itr, other_itr);
    while itr != end
      invariant itr <= end && other_itr <= end
      invariant Merging(writer, base, drift, elem, key_bits, to, from, end, itr, other_itr, num_wrote)
      decreases end - itr
    {
      ghost var start := itr;
      while other_itr != end && other_itr < itr
        invariant other_itr <= end
        invariant Merging(writer, base, drift, elem, key_bits, to, from, end, itr, other_itr, num_wrote)
        decreases end - other_itr
      {
        other_itr, num_wrote := MergeRemoved(writer, elem, key_bits, to, from, end, itr, other_itr, num_wrote,
          base, drift);
      }

      while itr != end && other_itr != end && other_itr == itr
        invariant Merging(writer, base, drift, elem, key_bits, to, from, end, itr, other_itr, num_wrote)
        invariant start <= itr <= end && other_itr <= end
        invariant itr == start ==> other_itr >= itr
        decreases end - itr
      {
        itr, other_itr, num_wrote := MergeCommon(writer, elem, key_bits, to, from, end, itr, num_wrote, base, drift);
      }

      while itr != end && (other_itr == end || itr < other_itr)
        invariant Merging(writer, base, drift, elem, key_bits, to, from, end, itr, other_itr, num_wrote)
        invariant start <= itr <= end && other_itr <= end
        invariant itr == start ==> other_itr > itr
        decreases end - itr
      {
        itr, num_wrote := MergeNew(writer, elem, key_bits, to, from, end, itr, other_itr, num_wrote, base, drift);
      }
    }

    while other_itr != end
      invariant itr == end && other_itr <= end
      invariant Merging(writer, base, drift, elem, key_bits, to, from, end, itr, other_itr, num_wrote)
      decreases end - other_itr
    {
      other_itr, num_wrote := MergeRemoved(writer, elem, key_bits, to, from, end, itr, other_itr, num_wrote,
        base, drift);
    }
    MergeDone(writer, base, drift, elem, key_bits, to, from, end, num_wrote);
  }

  lemma MergeStart(writer: BitWriterVector, elem: Schema, key_bits: nat, to: map<nat, Value>, from: map<nat, Value>,
      end: nat, itr: nat, other_itr: nat)
    requires writer.Valid() && key_bits > 0
    requires itr == NextKey(to, 0, end) && other_itr == NextKey(from, 0, end)
    ensures Merging(writer, writer.stream, writer.Drift(), elem, key_bits, to, from, end, itr, other_itr, 0)
  {
    hide BitWriterVector.Valid, EntryDeltas, EntryDelta;
    var parts, p := EntryDeltas(elem, key_bits, to, from, end), Min(itr, other_itr);
    forall k | 0 <= k < p ensures parts[k] == [] {
      EntryDeltaAt(elem, key_bits, to, from, end, k);
      EntryDeltaEmpty(elem, key_bits, to, from, k);
    }
    JoinNothing(writer.stream, parts);
    JoinSkip(parts, 0, p);
  }

  lemma MergeDone(writer: BitWriterVector, base: Bits, drift: int, elem: Schema, key_bits: nat,
      to: map<nat, Value>, from: map<nat, Value>, end: nat, num_wrote: nat)
    requires Merging(writer, base, drift, elem, key_bits, to, from, end, end, end, num_wrote)
    ensures writer.Valid() && writer.Drift() == drift
    ensures writer.stream == base + JoinAll(EntryDeltas(elem, key_bits, to, from, end))
    ensures num_wrote == CountAll(EntryDeltas(elem, key_bits, to, from, end))
  {
    hide BitWriterVector.Valid, EntryDeltas;
  }
}
