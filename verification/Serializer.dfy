/** The full encoders: what each `NetSerializer` appends to a bit writer. */
module Serializer {
  import opened BitUtil
  import opened BitStream
  import opened BitWriter
  import opened Joins
  import opened Schemas
  import opened CodecSpec
  import opened EncodingParts
  import opened WireLayouts

  /** Appends the encoding and nothing else. */
  method SerializeValue(s: Schema, v: Value, writer: BitWriterVector)
    requires s.WellFormed() && Shaped(s, v) && writer.Valid()
    modifies writer
    ensures writer.Valid() && writer.Drift() == old(writer.Drift())
    ensures writer.stream == old(writer.stream) + Full(s, v)
    decreases s, 1
  {
    hide BitWriterVector.Valid, Full, FullEntries, ItemParts, FieldParts, JoinAll;
    match s
    case Pod(_) => SerializeLeaf(s, v, writer);
    case Bool => SerializeLeaf(s, v, writer);
    case Ranged(_, _) => SerializeLeaf(s, v, writer);
    case Text => SerializeLeaf(s, v, writer);
    case FixedArray(e, n) =>
      SerializeItems(e, v.items, writer);
      FullArray(e, n, v.items);
    case Struct(fs) =>
      SerializeFields(fs, v.items, writer);
      FullStruct(fs, v.items);
    case ArrayList(e, max) => SerializeList(e, max, v.items, writer);
    case Map(e, max) => SerializeMap(e, max, v.entries, writer);
    case SparseList(e, max) => SerializeSparse(e, max, v.entries, writer);
  }

  method SerializeLeaf(s: Schema, v: Value, writer: BitWriterVector)
    requires s.Leaf() && s.WellFormed() && Shaped(s, v) && writer.Valid()
    modifies writer
    ensures writer.Valid() && writer.Drift() == old(writer.Drift())
    ensures writer.stream == old(writer.stream) + Full(s, v)
  {
    hide BitWriterVector.Valid, NumberWidth, TextHeader, Full;
    match s
    case Pod(n) =>
      FullBytes(n, v.bytes);
      SerializeBytes(v.bytes, writer);
    case Bool =>
      FullFlag(v.b);
      writer.WriteBits(if v.b then 1 else 0, 1);
    case Ranged(lo, hi) =>
      FullNumber(lo, hi, v.n);
      writer.WriteBits(v.n - lo, NumberWidth(hi - lo));
    case Text =>
      SerializeText(v.bytes, writer);
  }

  /** The width of a field that holds numbers up to `max`. */
  function FieldWidth(max: nat): (k: nat)
    requires max < 0x8000_0000
    ensures k == RequiredBits(max) && 1 <= k <= 31
  {
    WordBounds(max);
    RequiredBitsCharacterized(max, 31);
    GetRequiredBits64(max)
  }

  /** The width of a number in a range of up to 2^63 numbers. */
  function NumberWidth(range: nat): (k: nat)
    requires range < 0x8000_0000_0000_0000
    ensures k == RequiredBits(range) && 1 <= k <= 63
  {
    WordConstants();
    RequiredBitsCharacterized(range, 63);
    GetRequiredBits64(range)
  }

  lemma WordBounds(n: nat)
    requires n < 0x8000_0000
    ensures n < Pow2(31) < Pow2(64)
  {
    HalfWordConstants();
    WordConstants();
  }

  method SerializeBytes(bytes: seq<Byte>, writer: BitWriterVector)
    requires writer.Valid()
    modifies writer
    ensures writer.Valid() && writer.Drift() == old(writer.Drift())
    ensures writer.stream == old(writer.stream) + BytesToBits(bytes)
  {
    hide BitWriterVector.Valid;
    ghost var base := writer.stream;
    var i := 0;
    assert base + BytesToBits(bytes[..0]) == base;
    while i < |bytes|
      invariant 0 <= i <= |bytes| && writer.Valid() && writer.Drift() == old(writer.Drift())
      invariant writer.stream == base + BytesToBits(bytes[..i])
    {
      WrittenBytes(base, bytes, i, i + 1);
      assert bytes[i..i + 1] == [bytes[i]];
      BytesToBitsOne(bytes[i]);
      writer.WriteBits(bytes[i], 8);
      i := i + 1;
    }
    assert bytes[..|bytes|] == bytes;
  }

  /** A length of 15 bits behind a set flag, of 7 bits otherwise; longer strings lose the
      high bits of their length. */
  method SerializeText(text: seq<Byte>, writer: BitWriterVector)
    requires writer.Valid()
    modifies writer
    ensures writer.Valid() && writer.Drift() == old(writer.Drift())
    ensures writer.stream == old(writer.stream) + Full(Text, Bytes(text))
    ensures
      var t, w := writer.stream[|old(writer.stream)|..], if |text| < 128 then 7 else 15;
      && old(writer.stream) <= writer.stream && |t| == 1 + w + 8 * |text|
      && (t[0] <==> |text| >= 128) && FromBits(t[1..1 + w]) == |text| % 0x8000
      && t[1 + w..] == BytesToBits(text)
  {
    hide BitWriterVector.Valid, Full;
    FullBytes(0, text);
    TextLayout(text);
    ghost var base := writer.stream;
    if |text| > 127 {
      writer.WriteBits(1, 1);
      writer.WriteBits(|text|, 15);
      ConcatAssoc(base, ToBits(1, 1), ToBits(|text|, 15));
    } else {
      writer.WriteBits(0, 1);
      writer.WriteBits(|text|, 7);
      ConcatAssoc(base, ToBits(0, 1), ToBits(|text|, 7));
    }
    SerializeBytes(text, writer);
    ConcatAssoc(base, TextHeader(|text|), BytesToBits(text));
    assert writer.stream[|base|..] == Full(Text, Bytes(text));
  }

  method SerializeItems(elem: Schema, items: seq<Value>, writer: BitWriterVector)
    requires elem.WellFormed() && AllShaped(elem, items) && writer.Valid()
    modifies writer
    ensures writer.Valid() && writer.Drift() == old(writer.Drift())
    ensures writer.stream == old(writer.stream) + JoinAll(ItemParts(elem, items))
    decreases elem, 2
  {
    hide BitWriterVector.Valid, Full, Shaped;
    ghost var base, parts := writer.stream, ItemParts(elem, items);
    var index := 0;
    JoinNothing(base, parts);
    while index < |items|
      invariant 0 <= index <= |items| && writer.Valid() && writer.Drift() == old(writer.Drift())
      invariant writer.stream == base + Join(parts, 0, index)
    {
      JoinNext(base, parts, index);
      SerializeValue(elem, items[index], writer);
      index := index + 1;
    }
  }

  method SerializeFields(fields: seq<Schema>, items: seq<Value>, writer: BitWriterVector)
    requires Struct(fields).WellFormed() && Shaped(Struct(fields), Items(items)) && writer.Valid()
    modifies writer
    ensures writer.Valid() && writer.Drift() == old(writer.Drift())
    ensures writer.stream == old(writer.stream) + JoinAll(FieldParts(fields, items))
    decreases fields, 0
  {
    hide BitWriterVector.Valid, Full;
    ghost var base, parts := writer.stream, FieldParts(fields, items);
    var index := 0;
    JoinNothing(base, parts);
    while index < |fields|
      invariant 0 <= index <= |fields| && writer.Valid() && writer.Drift() == old(writer.Drift())
      invariant writer.stream == base + Join(parts, 0, index)
    {
      JoinNext(base, parts, index);
      SerializeValue(fields[index], items[index], writer);
      index := index + 1;
    }
  }

  method SerializeList(elem: Schema, max: nat, items: seq<Value>, writer: BitWriterVector)
    requires ArrayList(elem, max).WellFormed() && AllShaped(elem, items) && writer.Valid()
    modifies writer
    ensures writer.Valid() && writer.Drift() == old(writer.Drift())
    ensures writer.stream == old(writer.stream) + Full(ArrayList(elem, max), Items(items))
    decreases elem, 3
  {
    hide BitWriterVector.Valid, Full, Shaped, FieldWidth, ItemParts;
    FullList(elem, max, items);
    ConcatAssoc(writer.stream, ToBits(|items|, RequiredBits(max)), JoinAll(ItemParts(elem, items)));
    writer.WriteBits(|items|, FieldWidth(max));
    SerializeItems(elem, items, writer);
  }

  // ----- maps -----

  /** `std::map::lower_bound`: the first key from `k` on, or `end`. */
  function NextKey<T>(m: map<nat, T>, k: nat, end: nat): (key: nat)
    requires k <= end
    ensures k <= key <= end && (key < end ==> key in m)
    ensures forall j :: k <= j < key ==> j !in m
    decreases end - k
  {
    if k == end || k in m then k else NextKey(m, k + 1, end)
  }

  method SerializeMap(elem: Schema, max: nat, m: map<nat, Value>, writer: BitWriterVector)
    requires Map(elem, max).WellFormed() && MapShaped(elem, m) && writer.Valid()
    modifies writer
    ensures writer.Valid() && writer.Drift() == old(writer.Drift())
    ensures writer.stream == old(writer.stream) + Full(Map(elem, max), Entries(m))
    decreases elem, 4
  {
    hide BitWriterVector.Valid, MapShaped, FieldWidth, EntryParts, Full, HighestIndex;
    FullMap(elem, max, m);
    var key_bits := FieldWidth(max);
    ConcatAssoc(writer.stream, ToBits(|m|, key_bits), JoinAll(EntryParts(elem, key_bits, m, HighestIndex(m) + 1)));
    writer.WriteBits(|m|, key_bits);
    SerializeEntries(elem, key_bits, m, HighestIndex(m) + 1, writer);
  }

  /** Iterates over the map; `end` stands for the end iterator and is past all keys. */
  method SerializeEntries(elem: Schema, key_bits: nat, m: map<nat, Value>, end: nat, writer: BitWriterVector)
    requires elem.WellFormed() && MapShaped(elem, m) && writer.Valid() && key_bits > 0
    modifies writer
    ensures writer.Valid() && writer.Drift() == old(writer.Drift())
    ensures writer.stream == old(writer.stream) + JoinAll(EntryParts(elem, key_bits, m, end))
    decreases elem, 3
  {
    hide BitWriterVector.Valid, Full, MapShaped, EntryParts;
    ghost var base, parts := writer.stream, EntryParts(elem, key_bits, m, end);
    JoinNothing(base, parts);
    var itr := NextKey(m, 0, end);
    EmptyParts(elem, key_bits, m, end, 0, itr);
    while itr != end
      invariant 0 <= itr <= end && (itr < end ==> itr in m)
      invariant writer.Valid() && writer.Drift() == old(writer.Drift())
      invariant writer.stream == base + Join(parts, 0, itr)
      decreases end - itr
    {
      SerializeEntry(elem, key_bits, m, itr, writer);
      PartNonempty(elem, key_bits, m, end, itr);
      JoinNext(base, parts, itr);
      EmptyParts(elem, key_bits, m, end, itr + 1, NextKey(m, itr + 1, end));
      itr := NextKey(m, itr + 1, end);
    }
  }

  method SerializeEntry(elem: Schema, key_bits: nat, m: map<nat, Value>, key: nat, writer: BitWriterVector)
    requires elem.WellFormed() && MapShaped(elem, m) && key in m && writer.Valid()
    modifies writer
    ensures writer.Valid() && writer.Drift() == old(writer.Drift())
    ensures writer.stream == old(writer.stream) + (ToBits(key, key_bits) + Full(elem, m[key]))
    decreases elem, 2
  {
    hide BitWriterVector.Valid, Full, Shaped;
    ConcatAssoc(writer.stream, ToBits(key, key_bits), Full(elem, m[key]));
    writer.WriteBits(key, key_bits);
    SerializeValue(elem, m[key], writer);
  }

  // ----- sparse lists -----

  /** The number of elements is patched in once they are written. */
  method SerializeSparse(elem: Schema, max: nat, m: map<nat, Value>, writer: BitWriterVector)
    requires SparseList(elem, max).WellFormed() && MapShaped(elem, m) && writer.Valid()
    modifies writer
    ensures writer.Valid() && writer.Drift() == old(writer.Drift())
    ensures writer.stream == old(writer.stream) + Full(SparseList(elem, max), Entries(m))
    decreases elem, 4
  {
    hide BitWriterVector.Valid, MapShaped, EntryParts, FieldWidth, Full, HighestIndex;
    FullMap(elem, max, m);
    var key_bits := FieldWidth(max);
    ghost var before, parts := writer.stream, EntryParts(elem, key_bits, m, HighestIndex(m) + 1);
    var size_cursor := writer.Reserve(key_bits);
    var num_elements := SerializeElements(elem, key_bits, m, HighestIndex(m), writer);
    EntriesCounted(elem, key_bits, m, HighestIndex(m) + 1);
    FillHeader(writer, size_cursor, num_elements, key_bits, before, JoinAll(parts));
  }

  method SerializeElements(elem: Schema, key_bits: nat, m: map<nat, Value>, size: int, writer: BitWriterVector)
    returns (num_elements: nat)
    requires elem.WellFormed() && MapShaped(elem, m) && writer.Valid() && key_bits > 0 && size >= -1
    modifies writer
    ensures writer.Valid() && writer.Drift() == old(writer.Drift())
    ensures writer.stream == old(writer.stream) + JoinAll(EntryParts(elem, key_bits, m, size + 1))
    ensures num_elements == CountAll(EntryParts(elem, key_bits, m, size + 1))
    decreases elem, 3
  {
    hide BitWriterVector.Valid, Full, MapShaped, EntryParts;
    ghost var base, parts := writer.stream, EntryParts(elem, key_bits, m, size + 1);
    num_elements := 0;
    JoinNothing(base, parts);
    var index := 0;
    while index <= size
      invariant 0 <= index <= size + 1 && num_elements == Nonempty(parts, 0, index)
      invariant writer.Valid() && writer.Drift() == old(writer.Drift())
      invariant writer.stream == base + Join(parts, 0, index)
    {
      if index in m {
        SerializeEntry(elem, key_bits, m, index, writer);
        PartNonempty(elem, key_bits, m, size + 1, index);
        num_elements := num_elements + 1;
        JoinNext(base, parts, index);
      } else {
        EmptyParts(elem, key_bits, m, size + 1, index, index + 1);
      }
      index := index + 1;
    }
  }

  /** Patches a header of `n` reserved bits that has `body` behind it. */
  method FillHeader(writer: BitWriterVector, cursor: BitWriterCursor, val: nat, n: nat, ghost before: Bits,
        ghost body: Bits)
    requires writer.Valid() && cursor.Valid() && n <= 63
    requires cursor.Pos() == |before| && cursor.size == n
    requires writer.stream == before + Zeros(n) + body
    modifies writer, cursor
    ensures writer.Valid() && writer.Drift() == old(writer.Drift())
    ensures writer.stream == before + (ToBits(val, n) + body)
  {
    hide BitWriterVector.Valid;
    OverwriteHeader(before, n, ToBits(val, n), body);
    HeaderFilled(before, ToBits(val, n), body);
    var ok := writer.WriteBitsAt(cursor, val, n);
  }

  lemma HeaderFilled(before: Bits, patch: Bits, body: Bits)
    ensures before + (patch + Zeros(0) + body) == before + (patch + body)
  {
    assert patch + Zeros(0) == patch;
  }
}
