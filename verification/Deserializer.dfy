/** The full decoders: what each `NetDeserializer` makes of the bits in a reader. */
module Deserializer {
  import opened BitUtil
  import opened BitStream
  import opened BitReader
  import opened BitWriter
  import opened Schemas
  import opened CodecSpec
  import opened DecodeShape
  import opened Serializer
  import opened Wrappers

  /** A decoder's outcome and the reader it leaves behind are what the format says; `None`
      is the reader's or the container's exception. */
  ghost predicate Decoded<T>(r: Option<T>, reader: BitReaderBuffer, expected: Option<(T, Bits)>)
    reads reader
  {
    reader.Valid() && expected == if r.None? then None else Some((r.value, reader.rest))
  }

  /** Decodes over an existing value. */
  method DeserializeValue(s: Schema, val: Value, reader: BitReaderBuffer) returns (r: Option<Value>)
    requires s.WellFormed() && Shaped(s, val) && reader.Valid()
    modifies reader
    ensures Decoded(r, reader, TakeFull(s, val, old(reader.rest)))
    decreases s, 1
  {
    hide BitReaderBuffer.Valid, TakeFull;
    match s
    case FixedArray(e, n) => r := DeserializeArray(e, n, val.items, reader);
    case Struct(fs) => r := DeserializeStruct(fs, val.items, reader);
    case ArrayList(e, max) => r := DeserializeList(e, max, val.items, reader);
    case Map(e, max) => r := DeserializeMap(e, max, val.entries, reader);
    case SparseList(e, max) => r := DeserializeSparse(e, max, val.entries, reader);
    case _ => r := DeserializeLeaf(s, val, reader);
  }

  method DeserializeLeaf(s: Schema, val: Value, reader: BitReaderBuffer) returns (r: Option<Value>)
    requires s.Leaf() && s.WellFormed() && reader.Valid()
    modifies reader
    ensures Decoded(r, reader, TakeFull(s, val, old(reader.rest)))
  {
    hide BitReaderBuffer.Valid, TakeText, TakeBytes, NumberWidth, TakeNum;
    match s
    case Pod(n) =>
      var bytes := DeserializeBytes(n, reader);
      r := if bytes.None? then None else Some(Bytes(bytes.value));
    case Bool =>
      var b := reader.ReadUBits(1);
      r := if b.None? then None else Some(Flag(b.value != 0));
    case Ranged(lo, hi) =>
      var ranged_val := reader.ReadUBits(NumberWidth(hi - lo));
      r := if ranged_val.None? then None else Some(Number(Clamp(ranged_val.value + lo, lo, hi)));
    case Text => r := DeserializeText(reader);
  }

  // ----- bytes and strings -----

  ghost function Prefixed(start: seq<Byte>, more: Option<(seq<Byte>, Bits)>): Option<(seq<Byte>, Bits)>
  {
    if more.None? then None else Some((start + more.value.0, more.value.1))
  }

  lemma PrefixedNothing(more: Option<(seq<Byte>, Bits)>)
    ensures Prefixed([], more) == more
  {
    if more.Some? { assert [] + more.value.0 == more.value.0; }
  }

  lemma PrefixedStep(start: seq<Byte>, b: Byte, more: Option<(seq<Byte>, Bits)>)
    ensures Prefixed(start, Prefixed([b], more)) == Prefixed(start + [b], more)
  {
    if more.Some? { assert start + ([b] + more.value.0) == start + [b] + more.value.0; }
  }

  method DeserializeBytes(n: nat, reader: BitReaderBuffer) returns (r: Option<seq<Byte>>)
    requires reader.Valid()
    modifies reader
    ensures Decoded(r, reader, TakeBytes(old(reader.rest), n))
  {
    hide BitReaderBuffer.Valid, TakeNum;
    ghost var all := reader.rest;
    var bytes: seq<Byte> := [];
    PrefixedNothing(TakeBytes(all, n));
    while |bytes| < n
      invariant reader.Valid() && |bytes| <= n
      invariant TakeBytes(all, n) == Prefixed(bytes, TakeBytes(reader.rest, n - |bytes|))
    {
      var b := reader.ReadUBits(8);
      if b.None? {
        return None;
      }
      PrefixedStep(bytes, LowByte(b.value), TakeBytes(reader.rest, n - |bytes| - 1));
      bytes := bytes + [LowByte(b.value)];
    }
    assert bytes + [] == bytes;
    r := Some(bytes);
  }

  method DeserializeText(reader: BitReaderBuffer) returns (r: Option<Value>)
    requires reader.Valid()
    modifies reader
    ensures Decoded(r, reader, TakeText(old(reader.rest)))
  {
    hide BitReaderBuffer.Valid, TakeNum, TakeBytes;
    var long_string := reader.ReadUBits(1);
    if long_string.None? {
      return None;
    }
    var length := reader.ReadUBits(if long_string.value != 0 then 15 else 7);
    if length.None? {
      return None;
    }
    var str := DeserializeChars(length.value, reader);
    r := if str.None? then None else Some(Bytes(str.value));
  }

  /** Characters are read as signed 8-bit numbers; their bytes are the bytes written. */
  method DeserializeChars(length: nat, reader: BitReaderBuffer) returns (r: Option<seq<Byte>>)
    requires reader.Valid()
    modifies reader
    ensures Decoded(r, reader, TakeBytes(old(reader.rest), length))
  {
    hide BitReaderBuffer.Valid, TakeNum;
    ghost var all := reader.rest;
    var str: seq<Byte> := [];
    PrefixedNothing(TakeBytes(all, length));
    while |str| < length
      invariant reader.Valid() && |str| <= length
      invariant TakeBytes(all, length) == Prefixed(str, TakeBytes(reader.rest, length - |str|))
    {
      ghost var before := reader.rest;
      var c := reader.ReadSBits(8);
      if c.None? {
        return None;
      }
      CharByte(before);
      PrefixedStep(str, CharToByte(c.value), TakeBytes(reader.rest, length - |str| - 1));
      str := str + [CharToByte(c.value)];
    }
    assert str + [] == str;
    r := Some(str);
  }

  function CharToByte(c: int): Byte
  {
    LowByte(c % 256)
  }

  lemma CharByte(bits: Bits)
    requires TakeNum(bits, 8).Some?
    ensures
      var v := TakeNum(bits, 8).value.0;
      CharToByte(SignExtend(v, 8)) == LowByte(v)
  {
    ByteBound();
    NumBound(bits, 8);
  }

  // ----- arrays, structs and lists -----

  method DeserializeArray(elem: Schema, n: nat, val: seq<Value>, reader: BitReaderBuffer) returns (r: Option<Value>)
    requires elem.WellFormed() && AllShaped(elem, val) && reader.Valid()
    modifies reader
    ensures Decoded(r, reader, TakeFull(FixedArray(elem, n), Items(val), old(reader.rest)))
    decreases elem, 3
  {
    hide BitReaderBuffer.Valid, TakeItems, AllShaped;
    var items := DeserializeItems(elem, val, reader);
    r := if items.None? then None else Some(Items(items.value));
  }

  method DeserializeStruct(fields: seq<Schema>, val: seq<Value>, reader: BitReaderBuffer) returns (r: Option<Value>)
    requires FieldsAre(fields, val) && reader.Valid()
    modifies reader
    ensures Decoded(r, reader, TakeFull(Struct(fields), Items(val), old(reader.rest)))
    decreases fields, 1
  {
    hide BitReaderBuffer.Valid, TakeFields;
    var items := DeserializeFields(fields, val, reader);
    r := if items.None? then None else Some(Items(items.value));
  }

  method DeserializeItems(elem: Schema, val: seq<Value>, reader: BitReaderBuffer) returns (r: Option<seq<Value>>)
    requires elem.WellFormed() && AllShaped(elem, val) && reader.Valid()
    modifies reader
    ensures Decoded(r, reader, TakeItems(elem, val, 0, old(reader.rest)))
    decreases elem, 2
  {
    hide BitReaderBuffer.Valid, TakeFull, Shaped;
    ghost var all := reader.rest;
    var items := val;
    var index := 0;
    while index < |items|
      invariant reader.Valid() && 0 <= index <= |items| && AllShaped(elem, items)
      invariant TakeItems(elem, val, 0, all) == TakeItems(elem, items, index, reader.rest)
    {
      ghost var before := reader.rest;
      var v := DeserializeValue(elem, items[index], reader);
      if v.None? {
        return None;
      }
      FullShaped(elem, items[index], before);
      items := items[index := v.value];
      index := index + 1;
    }
    r := Some(items);
  }

  method DeserializeFields(fields: seq<Schema>, val: seq<Value>, reader: BitReaderBuffer)
    returns (r: Option<seq<Value>>)
    requires FieldsAre(fields, val) && reader.Valid()
    modifies reader
    ensures Decoded(r, reader, TakeFields(fields, val, 0, old(reader.rest)))
    decreases fields, 0
  {
    hide BitReaderBuffer.Valid, TakeFull, Shaped;
    ghost var all := reader.rest;
    var items := val;
    var index := 0;
    while index < |fields|
      invariant reader.Valid() && 0 <= index <= |fields| && FieldsAre(fields, items)
      invariant TakeFields(fields, val, 0, all) == TakeFields(fields, items, index, reader.rest)
    {
      ghost var before := reader.rest;
      var v := DeserializeValue(fields[index], items[index], reader);
      if v.None? {
        return None;
      }
      FullShaped(fields[index], items[index], before);
      items := items[index := v.value];
      index := index + 1;
    }
    r := Some(items);
  }

  method DeserializeList(elem: Schema, max: nat, val: seq<Value>, reader: BitReaderBuffer) returns (r: Option<Value>)
    requires ArrayList(elem, max).WellFormed() && AllShaped(elem, val) && reader.Valid()
    modifies reader
    ensures Decoded(r, reader, TakeFull(ArrayList(elem, max), Items(val), old(reader.rest)))
    decreases elem, 3
  {
    hide BitReaderBuffer.Valid, TakeItems, Shaped, FieldWidth, TakeNum;
    var size := reader.ReadUBits(FieldWidth(max));
    if size.None? || size.value > max {
      return None;
    }
    DefaultShaped(elem);
    var items := DeserializeItems(elem, Resize(elem, val, size.value), reader);
    r := if items.None? then None else Some(Items(items.value));
  }

  // ----- maps -----

  /** The first key from `k` on; `None` is the end iterator. */
  function LowerBound<T>(m: map<nat, T>, k: nat): (itr: Option<nat>)
    ensures itr.None? ==> KeysBelow(m, k)
    ensures itr.Some? ==> itr.value in m && itr.value >= k && forall j :: k <= j < itr.value ==> j !in m
    decreases KeyBound(m) - k
  {
    if KeysBelow(m, k) then None else if k in m then Some(k) else LowerBound(m, k + 1)
  }

  lemma {:induction false} LowerBoundIs<T>(m: map<nat, T>, k: nat, itr: Option<nat>)
    requires itr.None? ==> KeysBelow(m, k)
    requires itr.Some? ==> itr.value in m && itr.value >= k && forall j :: k <= j < itr.value ==> j !in m
    ensures LowerBound(m, k) == itr
  {
  }

  lemma EraseNext<T>(m: map<nat, T>, cur: nat, p: nat, k: nat)
    requires cur <= p <= k && forall j :: p <= j < k ==> j !in DropRange(m, cur, p)
    ensures Without(DropRange(m, cur, p), k) == DropRange(m, cur, k + 1)
  {
    var a, b := Without(DropRange(m, cur, p), k), DropRange(m, cur, k + 1);
    forall j: nat ensures j in a <==> j in b {
      if j in b && cur <= j { assert j > k; }
      if p <= j < k { assert j !in DropRange(m, cur, p); }
    }
  }

  /** Moves on to `input`, erasing the entries passed over. */
  method EraseBelow(m: map<nat, Value>, itr: Option<nat>, input: nat, ghost cur: nat)
    returns (val: map<nat, Value>, current: Option<nat>)
    requires itr == LowerBound(m, cur)
    ensures val == DropRange(m, cur, input) && current == LowerBound(val, Max(cur, input))
  {
    val, current := m, itr;
    ghost var p := cur;
    assert DropRange(m, cur, cur) == m;
    while current.Some? && current.value < input
      invariant cur <= p && (p == cur || p <= input)
      invariant val == DropRange(m, cur, p) && current == LowerBound(val, p)
      decreases input - p
    {
      var dead := current.value;
      EraseNext(m, cur, p, dead);
      val := Without(val, dead);
      current := LowerBound(val, dead + 1);
      p := dead + 1;
    }
    NothingBetween(m, cur, p, input, current);
  }

  lemma NothingBetween<T>(m: map<nat, T>, cur: nat, p: nat, input: nat, itr: Option<nat>)
    requires cur <= p && (p == cur || p <= input)
    requires itr == LowerBound(DropRange(m, cur, p), p) && (itr.Some? ==> itr.value >= input)
    ensures DropRange(m, cur, p) == DropRange(m, cur, input)
    ensures itr == LowerBound(DropRange(m, cur, input), Max(cur, input))
  {
    var val := DropRange(m, cur, p);
    forall j: nat | p <= j < input ensures j !in m {
      assert j in val <==> j in m;
    }
    assert DropRange(m, cur, input) == val;
    LowerBoundIs(val, Max(cur, input), itr);
  }

  /** Decodes over the entry of a key, or over a new one. */
  method DeserializeInto(elem: Schema, m: map<nat, Value>, key: nat, reader: BitReaderBuffer) returns (r: Option<Value>)
    requires elem.WellFormed() && MapShaped(elem, m) && reader.Valid()
    modifies reader
    ensures Decoded(r, reader, TakeFull(elem, EntryOrDefault(elem, m, key), old(reader.rest)))
    ensures r.Some? ==> MapShaped(elem, m[key := r.value])
    decreases elem, 2
  {
    hide BitReaderBuffer.Valid, TakeFull, Shaped, Default;
    ghost var before := reader.rest;
    DefaultShaped(elem);
    r := DeserializeValue(elem, EntryOrDefault(elem, m, key), reader);
    if r.Some? { FullShaped(elem, EntryOrDefault(elem, m, key), before); }
  }

  /** One entry behind the iterator, which stays in front of everything not yet visited. */
  method DeserializeEntry(elem: Schema, key_bits: nat, m: map<nat, Value>, itr: Option<nat>, ghost cur: nat,
      reader: BitReaderBuffer)
    returns (ok: bool, val: map<nat, Value>, next: Option<nat>, ghost next_cur: nat)
    requires elem.WellFormed() && MapShaped(elem, m) && reader.Valid() && key_bits <= 31
    requires itr == LowerBound(m, cur)
    modifies reader
    ensures reader.Valid() && MapShaped(elem, val) && next == LowerBound(val, next_cur)
    ensures TakeEntry(elem, key_bits, false, m, cur, old(reader.rest))
         == if ok then Walk(val, next_cur, reader.rest) else Thrown
    decreases elem, 3
  {
    hide BitReaderBuffer.Valid, TakeFull, MapShaped, TakeNum, EntryOrDefault, LowerBound, DropRange;
    val, next, next_cur := m, itr, cur;
    var input_index := reader.ReadUBits(key_bits);
    if input_index.None? {
      return false, val, next, next_cur;
    }
    var input := input_index.value;
    var current;
    val, current := EraseBelow(m, itr, input, cur);
    DropShaped(elem, m, cur, input);
    ErasedEntry(elem, m, cur, input);
    next := current;
    next_cur := Max(cur, input);
    var v := DeserializeInto(elem, val, input, reader);
    if v.None? {
      return false, val, next, next_cur;
    }
    if current.None? || current.value != input {
      ItrInserted(val, cur, input, v.value);
      val := val[input := v.value];
    } else {
      ItrPassed(val, cur, input, v.value);
      val := val[input := v.value];
      next := LowerBound(val, input + 1);
    }
    next_cur := NextIndex(cur, input);
    ok := true;
  }

  lemma DropShaped(elem: Schema, m: map<nat, Value>, lo: nat, hi: nat)
    requires MapShaped(elem, m)
    ensures MapShaped(elem, DropRange(m, lo, hi))
  {
    hide Shaped;
  }

  lemma ErasedEntry(elem: Schema, m: map<nat, Value>, cur: nat, k: nat)
    ensures EntryOrDefault(elem, DropRange(m, cur, k), k) == EntryOrDefault(elem, m, k)
  {
    hide Default;
  }

  /** An entry put in front of the iterator does not move it. */
  lemma ItrInserted<T>(m: map<nat, T>, cur: nat, k: nat, v: T)
    requires var itr := LowerBound(m, Max(cur, k)); itr.None? || itr.value != k
    ensures LowerBound(m[k := v], NextIndex(cur, k)) == LowerBound(m, Max(cur, k))
  {
    LowerBoundIs(m[k := v], NextIndex(cur, k), LowerBound(m, Max(cur, k)));
  }

  lemma ItrPassed<T>(m: map<nat, T>, cur: nat, k: nat, v: T)
    requires var itr := LowerBound(m, Max(cur, k)); itr == Some(k)
    ensures LowerBound(m[k := v], k + 1) == LowerBound(m[k := v], NextIndex(cur, k))
  {
  }

  method DeserializeMap(elem: Schema, max: nat, m: map<nat, Value>, reader: BitReaderBuffer) returns (r: Option<Value>)
    requires Map(elem, max).WellFormed() && MapShaped(elem, m) && reader.Valid()
    modifies reader
    ensures Decoded(r, reader, TakeFull(Map(elem, max), Entries(m), old(reader.rest)))
    decreases elem, 5
  {
    hide BitReaderBuffer.Valid, TakeAllEntries, MapShaped;
    var val := MergeMap(elem, max, m, reader);
    r := if val.None? then None else Some(Entries(val.value));
  }

  method MergeMap(elem: Schema, max: nat, m: map<nat, Value>, reader: BitReaderBuffer)
    returns (r: Option<map<nat, Value>>)
    requires Map(elem, max).WellFormed() && MapShaped(elem, m) && reader.Valid()
    modifies reader
    ensures Decoded(r, reader, TakeAllEntries(elem, RequiredBits(max), false, m, old(reader.rest)))
    decreases elem, 4
  {
    hide BitReaderBuffer.Valid, TakeEntry, MapShaped, TakeNum, LowerBound, FieldWidth;
    var key_bits := FieldWidth(max);
    var count := reader.ReadUBits(key_bits);
    if count.None? {
      return None;
    }
    ghost var all := reader.rest;
    var val, num_elements := m, count.value;
    var current_itr := LowerBound(val, 0);
    ghost var cur := 0;
    while num_elements > 0
      invariant reader.Valid() && MapShaped(elem, val) && current_itr == LowerBound(val, cur)
      invariant TakeEntries(elem, key_bits, false, m, 0, count.value, all)
             == TakeEntries(elem, key_bits, false, val, cur, num_elements, reader.rest)
      decreases num_elements
    {
      var ok;
      ok, val, current_itr, cur := DeserializeEntry(elem, key_bits, val, current_itr, cur, reader);
      if !ok {
        return None;
      }
      num_elements := num_elements - 1;
    }
    val := EraseRest(val, current_itr, cur);
    r := Some(val);
  }

  method EraseRest(m: map<nat, Value>, itr: Option<nat>, ghost cur: nat) returns (val: map<nat, Value>)
    requires itr == LowerBound(m, cur)
    ensures val == Below(m, cur)
  {
    val := m;
    var current := itr;
    ghost var p := cur;
    assert DropRange(m, cur, cur) == m;
    while current.Some?
      invariant cur <= p && val == DropRange(m, cur, p) && current == LowerBound(val, p)
      decreases KeyBound(m) - p
    {
      var dead := current.value;
      EraseNext(m, cur, p, dead);
      val := Without(val, dead);
      current := LowerBound(val, dead + 1);
      p := dead + 1;
    }
    forall j: nat | p <= j ensures j !in m {
      assert j in val <==> j in m;
    }
    assert val == Below(m, cur);
  }

  // ----- sparse lists -----

  method DeserializeElement(elem: Schema, key_bits: nat, m: map<nat, Value>, start: nat, reader: BitReaderBuffer)
    returns (ok: bool, val: map<nat, Value>, current_index: nat)
    requires elem.WellFormed() && MapShaped(elem, m) && reader.Valid() && key_bits <= 31
    modifies reader
    ensures reader.Valid() && MapShaped(elem, val)
    ensures TakeEntry(elem, key_bits, true, m, start, old(reader.rest))
         == if ok then Walk(val, current_index, reader.rest) else Thrown
    decreases elem, 3
  {
    hide BitReaderBuffer.Valid, TakeFull, MapShaped, TakeNum, EntryOrDefault, DropRange;
    val, current_index := m, start;
    var input_index := reader.ReadUBits(key_bits);
    if input_index.None? {
      return false, val, current_index;
    }
    val, current_index := RemoveBelow(m, start, input_index.value);
    DropShaped(elem, m, start, current_index);
    ErasedEntry(elem, m, start, current_index);
    DropNothing(m, start, input_index.value);
    var v := DeserializeInto(elem, val, current_index, reader);
    if v.None? {
      return false, val, current_index;
    }
    val := val[current_index := v.value];
    current_index := current_index + 1;
    ok := true;
  }

  lemma DropNothing<T>(m: map<nat, T>, lo: nat, hi: nat)
    ensures DropRange(m, lo, Max(lo, hi)) == DropRange(m, lo, hi)
  {
  }

  method RemoveBelow(m: map<nat, Value>, start: nat, input: nat) returns (val: map<nat, Value>, current_index: nat)
    ensures current_index == Max(start, input) && val == DropRange(m, start, current_index)
  {
    val, current_index := m, start;
    assert DropRange(m, start, start) == m;
    while current_index < input
      invariant start <= current_index <= Max(start, input) && val == DropRange(m, start, current_index)
    {
      EraseNext(m, start, current_index, current_index);
      val := Without(val, current_index);
      current_index := current_index + 1;
    }
  }

  method DeserializeSparse(elem: Schema, max: nat, m: map<nat, Value>, reader: BitReaderBuffer)
    returns (r: Option<Value>)
    requires SparseList(elem, max).WellFormed() && MapShaped(elem, m) && reader.Valid()
    modifies reader
    ensures Decoded(r, reader, TakeFull(SparseList(elem, max), Entries(m), old(reader.rest)))
    decreases elem, 5
  {
    hide BitReaderBuffer.Valid, TakeAllEntries, MapShaped;
    var val := MergeSparse(elem, max, m, reader);
    r := if val.None? then None else Some(Entries(val.value));
  }

  method MergeSparse(elem: Schema, max: nat, m: map<nat, Value>, reader: BitReaderBuffer)
    returns (r: Option<map<nat, Value>>)
    requires SparseList(elem, max).WellFormed() && MapShaped(elem, m) && reader.Valid()
    modifies reader
    ensures Decoded(r, reader, TakeAllEntries(elem, RequiredBits(max), true, m, old(reader.rest)))
    decreases elem, 4
  {
    hide BitReaderBuffer.Valid, TakeEntry, MapShaped, TakeNum, HighestIndex, FieldWidth;
    var key_bits := FieldWidth(max);
    var count := reader.ReadUBits(key_bits);
    if count.None? {
      return None;
    }
    ghost var all := reader.rest;
    var val, num_elements := m, count.value;
    var current_index: nat := 0;
    while num_elements > 0
      invariant reader.Valid() && MapShaped(elem, val)
      invariant TakeEntries(elem, key_bits, true, m, 0, count.value, all)
             == TakeEntries(elem, key_bits, true, val, current_index, num_elements, reader.rest)
      decreases num_elements
    {
      var ok;
      ok, val, current_index := DeserializeElement(elem, key_bits, val, current_index, reader);
      if !ok {
        return None;
      }
      num_elements := num_elements - 1;
    }
    val := RemoveRest(val, current_index);
    r := Some(val);
  }

  /** Removes what lies between the last element read and the highest index, which stays. */
  method RemoveRest(m: map<nat, Value>, start: nat) returns (val: map<nat, Value>)
    ensures val == DropRange(m, start, HighestIndex(m))
  {
    val := m;
    var current_index := start;
    assert DropRange(m, start, start) == m;
    while current_index < HighestIndex(val)
      invariant start <= current_index && val == DropRange(m, start, current_index)
      invariant HighestIndex(val) == HighestIndex(m)
      decreases HighestIndex(m) - current_index
    {
      EraseNext(m, start, current_index, current_index);
      HighestKept(val, current_index);
      val := Without(val, current_index);
      current_index := current_index + 1;
    }
    DropToHighest(m, start, current_index);
  }

  lemma HighestIs<T>(m: map<nat, T>, h: int)
    requires h >= -1 && (h >= 0 ==> h in m) && forall k :: k in m ==> k <= h
    ensures HighestIndex(m) == h
  {
  }

  lemma HighestKept<T>(m: map<nat, T>, k: nat)
    requires k < HighestIndex(m)
    ensures HighestIndex(Without(m, k)) == HighestIndex(m)
  {
    HighestIs(Without(m, k), HighestIndex(m));
  }

  lemma DropToHighest<T>(m: map<nat, T>, start: nat, p: nat)
    requires start <= p && HighestIndex(DropRange(m, start, p)) == HighestIndex(m) <= p
    ensures DropRange(m, start, p) == DropRange(m, start, HighestIndex(m))
  {
    var h := HighestIndex(m);
    assert h >= 0 ==> h in DropRange(m, start, p);
  }
}
