/** The sparse list codecs on the container itself, which grows, shrinks and is updated in
    place while a message is read. */
module SparseCodec {
  import opened BitStream
  import opened BitReader
  import opened BitWriter
  import opened Schemas
  import opened CodecSpec
  import opened DecodeShape
  import opened Serializer
  import opened DeltaRoundTrip
  import opened DeltaSerializer
  import opened Deserializer
  import opened DeltaDeserializer
  import opened SparseLists
  import opened Wrappers

  /** The list holds values of its element type. */
  ghost predicate ListShaped(elem: Schema, list: SparseList<Value>)
    reads list, list.values
  {
    list.Valid() && MapShaped(elem, list.Contents())
  }

  // ----- delta -----

  /** One record: an index the list does not have is filled, one it has is changed or removed. */
  method ReadRecord(list: SparseList<Value>, elem: Schema, key_bits: nat, reader: BitReaderBuffer) returns (ok: bool)
    requires elem.WellFormed() && ListShaped(elem, list) && reader.Valid() && key_bits <= 32
    modifies list, list.values, reader
    ensures reader.Valid() && list.Valid() && (list.values == old(list.values) || fresh(list.values))
    ensures
      var r := TakeRecord(elem, key_bits, old(list.Contents()), old(reader.rest));
      && (ok <==> r.Some?)
      && (ok ==> r == Some((list.Contents(), reader.rest)) && ListShaped(elem, list))
  {
    hide BitReaderBuffer.Valid, SparseList.Valid, SparseList.Contents, TakeDelta, TakeFull, TakeNum, Shaped, Default,
      DropRange;
    ghost var before, all := list.Contents(), reader.rest;
    var input := reader.ReadUBits(key_bits);
    if input.None? {
      return false;
    }
    var index := input.value;
    var element := list.TryGet(index);
    if element.None? {
      ok := ReadNew(list, elem, index, reader);
    } else {
      var existing_elem := reader.ReadUBits(1);
      if existing_elem.None? {
        return false;
      }
      if existing_elem.value != 0 {
        ok := ReadChange(list, elem, index, element.value, reader);
      } else {
        list.RemoveAt(index);
        ok := true;
      }
    }
    if ok { RecordShaped(elem, key_bits, before, all); }
  }

  method ReadNew(list: SparseList<Value>, elem: Schema, index: nat, reader: BitReaderBuffer) returns (ok: bool)
    requires elem.WellFormed() && list.Valid() && reader.Valid()
    modifies list, list.values, reader
    ensures reader.Valid() && list.Valid() && (list.values == old(list.values) || fresh(list.values))
    ensures
      var r := TakeFull(elem, Default(elem), old(reader.rest));
      && (ok <==> r.Some?)
      && (ok ==> list.Contents() == old(list.Contents())[index := r.value.0] && reader.rest == r.value.1)
  {
    hide BitReaderBuffer.Valid, SparseList.Valid, SparseList.Contents, TakeFull, Shaped, Default;
    DefaultShaped(elem);
    var v := DeserializeValue(elem, Default(elem), reader);
    if v.None? {
      return false;
    }
    list.EmplaceAt(index, v.value);
    ok := true;
  }

  method ReadChange(list: SparseList<Value>, elem: Schema, index: nat, element: Value, reader: BitReaderBuffer)
    returns (ok: bool)
    requires elem.WellFormed() && ListShaped(elem, list) && reader.Valid()
    requires index in list.Contents() && list.Contents()[index] == element
    modifies list, list.values, reader
    ensures reader.Valid() && list.Valid() && (list.values == old(list.values) || fresh(list.values))
    ensures
      var r := TakeDelta(elem, element, old(reader.rest));
      && (ok <==> r.Some?)
      && (ok ==> list.Contents() == old(list.Contents())[index := r.value.0] && reader.rest == r.value.1)
  {
    hide BitReaderBuffer.Valid, SparseList.Valid, SparseList.Contents, TakeDelta, Shaped;
    var v := DeserializeValueDelta(elem, element, reader);
    if v.None? {
      return false;
    }
    list.EmplaceAt(index, v.value);
    ok := true;
  }

  method ReadRecords(list: SparseList<Value>, elem: Schema, key_bits: nat, size: nat, reader: BitReaderBuffer)
    returns (ok: bool)
    requires elem.WellFormed() && ListShaped(elem, list) && reader.Valid() && key_bits <= 32
    modifies list, list.values, reader
    ensures reader.Valid() && list.Valid() && (list.values == old(list.values) || fresh(list.values))
    ensures
      var r := TakeRecords(elem, key_bits, old(list.Contents()), size, old(reader.rest));
      && (ok <==> r.Some?)
      && (ok ==> r == Some((list.Contents(), reader.rest)) && ListShaped(elem, list))
  {
    hide BitReaderBuffer.Valid, SparseList.Valid, SparseList.Contents, TakeRecord, MapShaped;
    ghost var before, all := list.Contents(), reader.rest;
    var elem_count := 0;
    while elem_count < size
      invariant 0 <= elem_count <= size && reader.Valid() && ListShaped(elem, list)
      invariant list.values == old(list.values) || fresh(list.values)
      invariant TakeRecords(elem, key_bits, before, size, all)
             == TakeRecords(elem, key_bits, list.Contents(), size - elem_count, reader.rest)
    {
      ok := ReadRecord(list, elem, key_bits, reader);
      if !ok {
        return;
      }
      elem_count := elem_count + 1;
    }
    ok := true;
  }

  /** Removes from the highest index down to just above `highest`. */
  method TrimAbove(list: SparseList<Value>, highest: int)
    requires list.Valid() && highest >= -1
    modifies list, list.values
    ensures list.Valid() && list.values == old(list.values)
    ensures list.Contents() == Below(old(list.Contents()), highest + 1)
  {
    hide SparseList.Contents, SparseList.Valid;
    ghost var before := list.Contents();
    list.HighestIsLargest();
    var index := list.highestIndex;
    assert Below(before, index + 1) == before;
    while index > highest
      invariant list.Valid() && list.values == old(list.values)
      invariant list.Contents() == Below(before, index + 1) && (index >= highest || index == HighestIndex(before))
      decreases index - highest
    {
      assert Without(Below(before, index + 1), index) == Below(before, index);
      list.RemoveAt(index);
      index := index - 1;
    }
    assert index < highest ==> Below(before, highest + 1) == before;
  }

  /** The delta decoder on the list: its own highest index is the one an unchanged size means. */
  method ReadDelta(list: SparseList<Value>, elem: Schema, max: nat, reader: BitReaderBuffer) returns (ok: bool)
    requires Schema.SparseList(elem, max).WellFormed() && list.Valid() && reader.Valid()
    requires Shaped(Schema.SparseList(elem, max), Entries(list.Contents()))
    modifies list, list.values, reader
    ensures list.Valid() && reader.Valid()
    ensures
      var r := TakeDelta(Schema.SparseList(elem, max), Entries(old(list.Contents())), old(reader.rest));
      && (ok <==> r.Some?)
      && (ok ==> r == Some((Entries(list.Contents()), reader.rest)))
  {
    hide BitReaderBuffer.Valid, SparseList.Valid, SparseList.Contents, TakeRecords, TakeNum, MapShaped, FieldWidth,
      IndexWidth, HighestIndex, TakeSparseHeader, Below;
    ghost var before, all := list.Contents(), reader.rest;
    list.HighestIsLargest();
    var header := DeserializeHeader(max, list.highestIndex, reader);
    if header.None? {
      return false;
    }
    var highest_index := header.value;
    SparseHeaderRange(elem, max, before, all);
    var size := reader.ReadUBits(FieldWidth(highest_index + 1));
    if size.None? {
      return false;
    }
    ok := ReadRecords(list, elem, IndexWidth(highest_index), size.value, reader);
    if ok {
      TrimAbove(list, highest_index);
    }
  }

  /** A list is brought up to date in place by the delta between its contents and `to`. */
  method Update(list: SparseList<Value>, elem: Schema, max: nat, reader: BitReaderBuffer,
      ghost to: map<nat, Value>, ghost rest: Bits)
    requires list.Valid() && reader.Valid() && Schema.SparseList(elem, max).WellFormed()
    requires Shaped(Schema.SparseList(elem, max), Entries(list.Contents()))
    requires Shaped(Schema.SparseList(elem, max), Entries(to)) && to != list.Contents()
    requires DeltaFits(Schema.SparseList(elem, max), Entries(to), Entries(list.Contents()))
    requires reader.rest == Delta(Schema.SparseList(elem, max), Entries(to), Entries(list.Contents())) + rest
    modifies list, list.values, reader
    ensures list.Valid() && list.Contents() == to
    ensures reader.Valid() && reader.rest == rest
  {
    hide BitReaderBuffer.Valid, SparseList.Valid, SparseList.Contents, Delta, TakeDelta, SparseDeltaFits;
    DeltaRoundTrip.DeltaRoundTrip(Schema.SparseList(elem, max), Entries(to), Entries(list.Contents()), rest);
    var ok := ReadDelta(list, elem, max, reader);
  }

  // ----- full -----

  /** Removes the entries below `input` that have not been read. */
  method RemoveUpTo(list: SparseList<Value>, start: nat, input: nat) returns (current_index: nat)
    requires list.Valid()
    modifies list, list.values
    ensures list.Valid() && list.values == old(list.values)
    ensures current_index == Max(start, input)
    ensures list.Contents() == DropRange(old(list.Contents()), start, current_index)
  {
    hide SparseList.Contents, SparseList.Valid;
    ghost var before := list.Contents();
    current_index := start;
    assert DropRange(before, start, start) == before;
    while current_index < input
      invariant list.Valid() && list.values == old(list.values)
      invariant start <= current_index <= Max(start, input)
      invariant list.Contents() == DropRange(before, start, current_index)
    {
      EraseNext(before, start, current_index, current_index);
      list.RemoveAt(current_index);
      current_index := current_index + 1;
    }
  }

  method ReadElement(list: SparseList<Value>, elem: Schema, key_bits: nat, start: nat, reader: BitReaderBuffer)
    returns (ok: bool, current_index: nat)
    requires elem.WellFormed() && ListShaped(elem, list) && reader.Valid() && key_bits <= 31
    modifies list, list.values, reader
    ensures reader.Valid() && list.Valid() && (list.values == old(list.values) || fresh(list.values))
    ensures ok ==> ListShaped(elem, list)
    ensures TakeEntry(elem, key_bits, true, old(list.Contents()), start, old(reader.rest))
         == if ok then Walk(list.Contents(), current_index, reader.rest) else Thrown
  {
    hide BitReaderBuffer.Valid, SparseList.Valid, SparseList.Contents, TakeFull, TakeNum, MapShaped, DropRange, Default;
    ghost var before := list.Contents();
    var input_index := reader.ReadUBits(key_bits);
    if input_index.None? {
      return false, start;
    }
    current_index := RemoveUpTo(list, start, input_index.value);
    DropShaped(elem, before, start, current_index);
    ErasedEntry(elem, before, start, current_index);
    DropNothing(before, start, input_index.value);
    ok := ReadOver(list, elem, current_index, reader);
    if ok {
      current_index := current_index + 1;
    }
  }

  lemma PutTwice<T>(m: map<nat, T>, k: nat, a: T, b: T)
    ensures m[k := a][k := b] == m[k := b]
  {
  }

  /** Decodes over the element at an index, which is created first if there is none. */
  method ReadOver(list: SparseList<Value>, elem: Schema, index: nat, reader: BitReaderBuffer) returns (ok: bool)
    requires elem.WellFormed() && ListShaped(elem, list) && reader.Valid()
    modifies list, list.values, reader
    ensures reader.Valid() && list.Valid() && (list.values == old(list.values) || fresh(list.values))
    ensures
      var r := TakeFull(elem, EntryOrDefault(elem, old(list.Contents()), index), old(reader.rest));
      && (ok <==> r.Some?)
      && (ok ==> list.Contents() == old(list.Contents())[index := r.value.0] && reader.rest == r.value.1)
      && (ok ==> ListShaped(elem, list))
  {
    hide BitReaderBuffer.Valid, SparseList.Valid, SparseList.Contents, TakeFull, Shaped, Default;
    ghost var before, all := list.Contents(), reader.rest;
    DefaultShaped(elem);
    var has := list.HasAt(index);
    if !has {
      list.EmplaceAt(index, Default(elem));
    }
    var element := list.TryGet(index);
    var v := DeserializeValue(elem, element.value, reader);
    if v.None? {
      return false;
    }
    FullShaped(elem, element.value, all);
    list.EmplaceAt(index, v.value);
    PutTwice(before, index, Default(elem), v.value);
    ok := true;
  }

  /** The last loop stops one short of the highest index. */
  method RemoveBehind(list: SparseList<Value>, start: nat)
    requires list.Valid()
    modifies list, list.values
    ensures list.Valid()
    ensures list.Contents() == DropRange(old(list.Contents()), start, HighestIndex(old(list.Contents())))
  {
    hide SparseList.Contents, SparseList.Valid, HighestIndex;
    ghost var before := list.Contents();
    var current_index := start;
    assert DropRange(before, start, start) == before;
    list.HighestIsLargest();
    while current_index < list.highestIndex
      invariant list.Valid() && list.values == old(list.values)
      invariant start <= current_index && list.Contents() == DropRange(before, start, current_index)
      invariant list.highestIndex == HighestIndex(list.Contents()) == HighestIndex(before)
      decreases HighestIndex(before) - current_index
    {
      EraseNext(before, start, current_index, current_index);
      HighestKept(list.Contents(), current_index);
      list.RemoveAt(current_index);
      list.HighestIsLargest();
      current_index := current_index + 1;
    }
    DropToHighest(before, start, current_index);
  }

  /** The full decoder on an existing list. */
  method ReadFull(list: SparseList<Value>, elem: Schema, max: nat, reader: BitReaderBuffer) returns (ok: bool)
    requires Schema.SparseList(elem, max).WellFormed() && ListShaped(elem, list) && reader.Valid()
    modifies list, list.values, reader
    ensures list.Valid() && reader.Valid()
    ensures
      var r := TakeFull(Schema.SparseList(elem, max), Entries(old(list.Contents())), old(reader.rest));
      && (ok <==> r.Some?)
      && (ok ==> r == Some((Entries(list.Contents()), reader.rest)))
  {
    hide BitReaderBuffer.Valid, SparseList.Valid, SparseList.Contents, TakeEntry, MapShaped, TakeNum, HighestIndex,
      FieldWidth;
    ghost var before := list.Contents();
    var key_bits := FieldWidth(max);
    var count := reader.ReadUBits(key_bits);
    if count.None? {
      return false;
    }
    ghost var all := reader.rest;
    var num_elements := count.value;
    var current_index: nat := 0;
    while num_elements > 0
      invariant reader.Valid() && ListShaped(elem, list)
      invariant list.values == old(list.values) || fresh(list.values)
      invariant TakeEntries(elem, key_bits, true, before, 0, count.value, all)
             == TakeEntries(elem, key_bits, true, list.Contents(), current_index, num_elements, reader.rest)
      decreases num_elements
    {
      ok, current_index := ReadElement(list, elem, key_bits, current_index, reader);
      if !ok {
        return;
      }
      num_elements := num_elements - 1;
    }
    RemoveBehind(list, current_index);
    ok := true;
  }
}
