/** The delta decoders, which update the reference value. */
module DeltaDeserializer {
  import opened BitStream
  import opened BitReader
  import opened BitWriter
  import opened Schemas
  import opened CodecSpec
  import opened DecodeShape
  import opened Serializer
  import opened DeltaSerializer
  import opened Deserializer
  import opened Wrappers

  method DeserializeValueDelta(s: Schema, val: Value, reader: BitReaderBuffer) returns (r: Option<Value>)
    requires s.WellFormed() && Shaped(s, val) && reader.Valid()
    modifies reader
    ensures Decoded(r, reader, TakeDelta(s, val, old(reader.rest)))
    decreases s, 1
  {
    hide BitReaderBuffer.Valid, TakeStructDelta, TakeListDelta, TakeMapDelta, TakeSparseDelta, TakeFull;
    match s
    case Struct(fs) => r := DeserializeStructDelta(fs, val.items, reader);
    case ArrayList(e, max) =>
      var items := DeserializeListDelta(e, max, val.items, reader);
      r := if items.None? then None else Some(Items(items.value));
    case Map(e, max) => r := DeserializeMapDelta(e, max, val.entries, reader);
    case SparseList(e, max) => r := DeserializeSparseDelta(e, max, val.entries, reader);
    case _ => r := DeserializeValue(s, val, reader);
  }

  // ----- structs -----

  /** Visits every field; `next_index` is the one the next change belongs to. */
  method DeserializeStructDelta(fields: seq<Schema>, val: seq<Value>, reader: BitReaderBuffer)
    returns (r: Option<Value>)
    requires Struct(fields).WellFormed() && FieldsAre(fields, val) && reader.Valid()
    modifies reader
    ensures Decoded(r, reader, TakeStructDelta(fields, val, old(reader.rest)))
    decreases fields, 1
  {
    hide BitReaderBuffer.Valid, TakeFieldDeltas, TakeNum, FieldWidth, Shaped;
    var required_bits := FieldWidth(|fields|);
    var num_elements := reader.ReadUBits(required_bits);
    if num_elements.None? {
      return None;
    }
    var first_index := reader.ReadUBits(required_bits);
    if first_index.None? {
      return None;
    }
    var items := DeserializeFieldDeltas(fields, val, num_elements.value, first_index.value, reader);
    r := if items.None? then None else Some(Items(items.value));
  }

  method DeserializeFieldDeltas(fields: seq<Schema>, val: seq<Value>, num_elements: nat, first_index: nat,
        reader: BitReaderBuffer)
    returns (r: Option<seq<Value>>)
    requires |fields| < 0x8000_0000 && FieldsAre(fields, val) && reader.Valid()
    modifies reader
    ensures Decoded(r, reader, TakeFieldDeltas(fields, val, 0, num_elements, first_index, old(reader.rest)))
    decreases fields, 0
  {
    hide BitReaderBuffer.Valid, TakeDelta, TakeNum, FieldWidth, Shaped;
    ghost var all := reader.rest;
    var items := val;
    var num_remaining: nat, next_index: nat := num_elements, first_index;
    var field_index := 0;
    while field_index < |fields|
      invariant reader.Valid() && 0 <= field_index <= |fields| && FieldsAre(fields, items)
      invariant TakeFieldDeltas(fields, val, 0, num_elements, first_index, all)
             == TakeFieldDeltas(fields, items, field_index, num_remaining, next_index, reader.rest)
    {
      if num_remaining != 0 && field_index == next_index {
        ghost var before := reader.rest;
        var v := DeserializeValueDelta(fields[field_index], items[field_index], reader);
        if v.None? {
          return None;
        }
        DeltaShaped(fields[field_index], items[field_index], before);
        items := items[field_index := v.value];
        num_remaining := num_remaining - 1;
        if num_remaining != 0 {
          var next := reader.ReadUBits(FieldWidth(|fields|));
          if next.None? {
            return None;
          }
          next_index := next.value;
        }
      }
      field_index := field_index + 1;
    }
    r := Some(items);
  }

  // ----- array lists -----

  method DeserializeListDelta(elem: Schema, max: nat, val: seq<Value>, reader: BitReaderBuffer)
    returns (r: Option<seq<Value>>)
    requires ArrayList(elem, max).WellFormed() && AllShaped(elem, val) && reader.Valid()
    modifies reader
    ensures Decoded(r, reader, TakeListDelta(elem, max, val, old(reader.rest)))
    decreases elem, 3
  {
    hide BitReaderBuffer.Valid, TakeItemDeltas, TakeNewItems, TakeNum, FieldWidth, Shaped;
    var size_change := reader.ReadUBits(1);
    if size_change.None? {
      return None;
    }
    if size_change.value != 0 {
      var new_size := reader.ReadUBits(FieldWidth(max));
      if new_size.None? {
        return None;
      }
      var min_size := Min(|val|, new_size.value);
      ghost var before := reader.rest;
      var items := DeserializeItemDeltas(elem, val, min_size, reader);
      if items.None? {
        return None;
      }
      ItemDeltasShaped(elem, val, 0, min_size, before);
      PrefixShaped(elem, items.value, min_size);
      var kept := RemoveFrom(items.value, min_size);
      r := DeserializeNewItems(elem, max, kept, new_size.value, reader);
      return;
    }
    r := DeserializeItemDeltas(elem, val, |val|, reader);
  }

  method DeserializeItemDeltas(elem: Schema, val: seq<Value>, n: nat, reader: BitReaderBuffer)
    returns (r: Option<seq<Value>>)
    requires elem.WellFormed() && AllShaped(elem, val) && n <= |val| && reader.Valid()
    modifies reader
    ensures Decoded(r, reader, TakeItemDeltas(elem, val, 0, n, old(reader.rest)))
    decreases elem, 2
  {
    hide BitReaderBuffer.Valid, TakeDelta, TakeNum, Shaped;
    ghost var all := reader.rest;
    var items := val;
    var index := 0;
    while index < n
      invariant reader.Valid() && 0 <= index <= n <= |items| && AllShaped(elem, items)
      invariant TakeItemDeltas(elem, val, 0, n, all) == TakeItemDeltas(elem, items, index, n, reader.rest)
    {
      var val_changed := reader.ReadUBits(1);
      if val_changed.None? {
        return None;
      }
      if val_changed.value != 0 {
        ghost var before := reader.rest;
        var v := DeserializeValueDelta(elem, items[index], reader);
        if v.None? {
          return None;
        }
        DeltaShaped(elem, items[index], before);
        items := items[index := v.value];
      }
      index := index + 1;
    }
    r := Some(items);
  }

  /** Removes the items from the end of the list down to `min_size`. */
  method RemoveFrom(val: seq<Value>, min_size: nat) returns (items: seq<Value>)
    requires min_size <= |val|
    ensures items == val[..min_size]
  {
    items := val;
    var index := |val| - 1;
    while index >= min_size
      invariant min_size - 1 <= index < |val| && items == val[..index + 1]
      decreases index
    {
      items := items[..index];
      index := index - 1;
    }
  }

  method DeserializeNewItems(elem: Schema, max: nat, val: seq<Value>, new_size: nat, reader: BitReaderBuffer)
    returns (r: Option<seq<Value>>)
    requires elem.WellFormed() && AllShaped(elem, val) && reader.Valid()
    modifies reader
    ensures Decoded(r, reader, TakeNewItems(elem, max, val, new_size, old(reader.rest)))
  {
    hide BitReaderBuffer.Valid, TakeFull, Shaped, Default;
    ghost var all := reader.rest;
    var items := val;
    while |items| < new_size
      invariant reader.Valid()
      invariant TakeNewItems(elem, max, val, new_size, all) == TakeNewItems(elem, max, items, new_size, reader.rest)
      decreases new_size - |items|
    {
      if |items| >= max {
        return None;
      }
      DefaultShaped(elem);
      var v := DeserializeValue(elem, Default(elem), reader);
      if v.None? {
        return None;
      }
      items := items + [v.value];
    }
    r := Some(items);
  }

  // ----- maps and sparse lists -----

  /** One record: a full value for a new key, a delta or a removal for an existing one. */
  method DeserializeRecord(elem: Schema, key_bits: nat, m: map<nat, Value>, reader: BitReaderBuffer)
    returns (r: Option<map<nat, Value>>)
    requires elem.WellFormed() && MapShaped(elem, m) && reader.Valid() && key_bits <= 32
    modifies reader
    ensures Decoded(r, reader, TakeRecord(elem, key_bits, m, old(reader.rest)))
    decreases elem, 2
  {
    hide BitReaderBuffer.Valid, TakeDelta, TakeFull, TakeNum, Shaped, Default, DropRange;
    var index := reader.ReadUBits(key_bits);
    if index.None? {
      return None;
    }
    var key := index.value;
    if key !in m {
      DefaultShaped(elem);
      var v := DeserializeValue(elem, Default(elem), reader);
      r := if v.None? then None else Some(m[key := v.value]);
    } else {
      var existing_elem := reader.ReadUBits(1);
      if existing_elem.None? {
        return None;
      }
      if existing_elem.value != 0 {
        var v := DeserializeValueDelta(elem, m[key], reader);
        r := if v.None? then None else Some(m[key := v.value]);
      } else {
        r := Some(Without(m, key));
      }
    }
  }

  method DeserializeRecords(elem: Schema, key_bits: nat, m: map<nat, Value>, size: nat, reader: BitReaderBuffer)
    returns (r: Option<map<nat, Value>>)
    requires elem.WellFormed() && MapShaped(elem, m) && reader.Valid() && key_bits <= 32
    modifies reader
    ensures Decoded(r, reader, TakeRecords(elem, key_bits, m, size, old(reader.rest)))
    decreases elem, 3
  {
    hide BitReaderBuffer.Valid, TakeRecord, MapShaped;
    ghost var all := reader.rest;
    var val := m;
    var elem_count := 0;
    while elem_count < size
      invariant reader.Valid() && 0 <= elem_count <= size && MapShaped(elem, val)
      invariant TakeRecords(elem, key_bits, m, size, all)
             == TakeRecords(elem, key_bits, val, size - elem_count, reader.rest)
    {
      ghost var before := reader.rest;
      var v := DeserializeRecord(elem, key_bits, val, reader);
      if v.None? {
        return None;
      }
      RecordShaped(elem, key_bits, val, before);
      val := v.value;
      elem_count := elem_count + 1;
    }
    r := Some(val);
  }

  method DeserializeMapDelta(elem: Schema, max: nat, m: map<nat, Value>, reader: BitReaderBuffer)
    returns (r: Option<Value>)
    requires Map(elem, max).WellFormed() && MapShaped(elem, m) && reader.Valid()
    modifies reader
    ensures Decoded(r, reader, TakeMapDelta(elem, max, m, old(reader.rest)))
    decreases elem, 4
  {
    hide BitReaderBuffer.Valid, TakeRecords, TakeNum, MapShaped, FieldWidth;
    var required_bits := FieldWidth(max);
    var size := reader.ReadUBits(required_bits);
    if size.None? {
      return None;
    }
    var val := DeserializeRecords(elem, required_bits, m, size.value, reader);
    r := if val.None? then None else Some(Entries(val.value));
  }

  method DeserializeSparseDelta(elem: Schema, max: nat, m: map<nat, Value>, reader: BitReaderBuffer)
    returns (r: Option<Value>)
    requires SparseList(elem, max).WellFormed() && Shaped(SparseList(elem, max), Entries(m)) && reader.Valid()
    modifies reader
    ensures Decoded(r, reader, TakeSparseDelta(elem, max, m, old(reader.rest)))
    decreases elem, 4
  {
    hide BitReaderBuffer.Valid, TakeRecords, TakeNum, MapShaped, FieldWidth, IndexWidth, HighestIndex,
          TakeSparseHeader, Below;
    ghost var all := reader.rest;
    var header := DeserializeHeader(max, HighestIndex(m), reader);
    if header.None? {
      return None;
    }
    var highest_index := header.value;
    SparseHeaderRange(elem, max, m, all);
    var size := reader.ReadUBits(FieldWidth(highest_index + 1));
    if size.None? {
      return None;
    }
    var val := DeserializeRecords(elem, IndexWidth(highest_index), m, size.value, reader);
    if val.None? {
      return None;
    }
    var trimmed := RemoveAbove(val.value, highest_index);
    r := Some(Entries(trimmed));
  }

  method DeserializeHeader(max: nat, current: int, reader: BitReaderBuffer) returns (r: Option<int>)
    requires reader.Valid() && max < 0x4000_0000 && current >= -1
    modifies reader
    ensures Decoded(r, reader, TakeSparseHeader(max, current, old(reader.rest)))
  {
    hide BitReaderBuffer.Valid, TakeNum, FieldWidth;
    var size_change := reader.ReadUBits(1);
    if size_change.None? {
      return None;
    }
    if size_change.value == 0 {
      return Some(current);
    }
    var size := reader.ReadUBits(FieldWidth(max));
    if size.None? {
      return None;
    }
    var highest := (size.value as int) - 1;
    r := Some(highest);
  }

  /** Removes from the highest index down to just above `highest`. */
  method RemoveAbove(m: map<nat, Value>, highest: int) returns (val: map<nat, Value>)
    requires highest >= -1
    ensures val == Below(m, highest + 1)
  {
    val := m;
    var index := HighestIndex(m);
    assert Below(m, index + 1) == m;
    while index > highest
      invariant val == Below(m, index + 1) && (index >= highest || index == HighestIndex(m))
      decreases index - highest
    {
      assert Without(Below(m, index + 1), index) == Below(m, index);
      val := Without(val, index);
      index := index - 1;
    }
    assert index < highest ==> Below(m, highest + 1) == m;
  }
}
