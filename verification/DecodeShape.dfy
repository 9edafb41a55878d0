/** Whatever bits arrive, decoding over a value of a type gives a value of that type. */
module DecodeShape {
  import opened BitUtil
  import opened BitStream
  import opened Schemas
  import opened CodecSpec
  import opened Wrappers

  // ----- full decoding -----

  lemma {:induction false} FullShaped(s: Schema, val: Value, bits: Bits)
    requires s.WellFormed() && Shaped(s, val) && TakeFull(s, val, bits).Some?
    ensures Shaped(s, TakeFull(s, val, bits).value.0)
    decreases s, 1
  {
    match s
    case FixedArray(e, _) => ItemsShaped(e, val.items, 0, bits);
    case Struct(fs) => FieldsShaped(fs, val.items, 0, bits);
    case ArrayList(e, max) => ListShaped(e, max, val.items, bits);
    case Map(e, max) => AllEntriesShaped(e, max, false, val.entries, bits);
    case SparseList(e, max) => AllEntriesShaped(e, max, true, val.entries, bits);
    case _ =>
  }

  lemma {:induction false} ListShaped(elem: Schema, max: nat, items: seq<Value>, bits: Bits)
    requires elem.WellFormed() && AllShaped(elem, items)
    requires TakeFull(ArrayList(elem, max), Items(items), bits).Some?
    ensures Shaped(ArrayList(elem, max), TakeFull(ArrayList(elem, max), Items(items), bits).value.0)
    decreases elem, 3
  {
    hide TakeItems, Default;
    var (n, b) := TakeNum(bits, RequiredBits(max)).value;
    DefaultShaped(elem);
    ItemsShaped(elem, Resize(elem, items, n), 0, b);
  }

  lemma {:induction false} ItemsShaped(elem: Schema, items: seq<Value>, i: nat, bits: Bits)
    requires elem.WellFormed() && AllShaped(elem, items) && i <= |items|
    requires TakeItems(elem, items, i, bits).Some?
    ensures AllShaped(elem, TakeItems(elem, items, i, bits).value.0)
    decreases elem, 2, |items| - i
  {
    hide TakeFull, Shaped;
    if i < |items| {
      FullShaped(elem, items[i], bits);
      var (v, rest) := TakeFull(elem, items[i], bits).value;
      ItemsShaped(elem, items[i := v], i + 1, rest);
    }
  }

  lemma {:induction false} FieldsShaped(fields: seq<Schema>, items: seq<Value>, i: nat, bits: Bits)
    requires FieldsAre(fields, items) && i <= |items|
    requires TakeFields(fields, items, i, bits).Some?
    ensures FieldsAre(fields, TakeFields(fields, items, i, bits).value.0)
    decreases fields, 0, |items| - i
  {
    hide TakeFull, Shaped;
    if i < |items| {
      FullShaped(fields[i], items[i], bits);
      var (v, rest) := TakeFull(fields[i], items[i], bits).value;
      FieldsShaped(fields, items[i := v], i + 1, rest);
    }
  }

  lemma {:induction false} EntryShaped(elem: Schema, key_bits: nat, sparse: bool, val: map<nat, Value>, cur: nat,
        bits: Bits)
    requires elem.WellFormed() && MapShaped(elem, val)
    requires TakeEntry(elem, key_bits, sparse, val, cur, bits).Walk?
    ensures
      var walk := TakeEntry(elem, key_bits, sparse, val, cur, bits);
      && MapShaped(elem, walk.m)
      && (walk.cur <= cur + 1 || walk.cur <= Pow2(key_bits))
      && forall k :: k in walk.m ==> k in val || k <= cur || k < Pow2(key_bits)
    decreases elem, 2, 1
  {
    hide TakeFull, Shaped, TakeNum, Default;
    var (k, b) := TakeNum(bits, key_bits).value;
    NumBound(bits, key_bits);
    var index := if sparse && k < cur then cur else k;
    DefaultShaped(elem);
    FullShaped(elem, EntryOrDefault(elem, val, index), b);
  }

  lemma {:induction false} EntriesShaped(elem: Schema, key_bits: nat, sparse: bool, val: map<nat, Value>, cur: nat,
      n: nat, bits: Bits, limit: nat)
    requires elem.WellFormed() && MapShaped(elem, val)
    requires TakeEntries(elem, key_bits, sparse, val, cur, n, bits).Walk?
    requires sparse ==> KeysBelow(val, limit) && cur + n <= limit && Pow2(key_bits) + n <= limit
    ensures
      var walk := TakeEntries(elem, key_bits, sparse, val, cur, n, bits);
      MapShaped(elem, walk.m) && (sparse ==> KeysBelow(walk.m, limit))
    decreases elem, 3, n
  {
    hide TakeEntry, MapShaped;
    if n > 0 {
      EntryShaped(elem, key_bits, sparse, val, cur, bits);
      var walk := TakeEntry(elem, key_bits, sparse, val, cur, bits);
      EntriesShaped(elem, key_bits, sparse, walk.m, walk.cur, n - 1, walk.rest, limit);
    }
  }

  lemma SparseLimit(max: nat)
    requires max < 0x4000_0000
    ensures 2 * Pow2(RequiredBits(max)) <= 0x8000_0000
  {
    WordConstants();
    HalfWordConstants();
    assert 2 * Pow2(30) == Pow2(31) && 2 * Pow2(31) == Pow2(32);
    RequiredBitsCharacterized(max, 30);
    Pow2Monotone(RequiredBits(max), 30);
  }

  lemma {:induction false} AllEntriesShaped(elem: Schema, max: nat, sparse: bool, val: map<nat, Value>, bits: Bits)
    requires elem.WellFormed() && MapShaped(elem, val)
    requires sparse ==> max < 0x4000_0000 && KeysBelow(val, 0x7FFF_FFFF)
    requires TakeAllEntries(elem, RequiredBits(max), sparse, val, bits).Some?
    ensures
      var m := TakeAllEntries(elem, RequiredBits(max), sparse, val, bits).value.0;
      MapShaped(elem, m) && (sparse ==> KeysBelow(m, 0x7FFF_FFFF))
    decreases elem, 4
  {
    hide TakeEntries, Shaped, TakeNum, HighestIndex;
    var (n, b) := TakeNum(bits, RequiredBits(max)).value;
    NumBound(bits, RequiredBits(max));
    if sparse { SparseLimit(max); }
    EntriesShaped(elem, RequiredBits(max), sparse, val, 0, n, b, 0x7FFF_FFFF);
  }

  // ----- delta decoding -----

  lemma {:induction false} DeltaShaped(s: Schema, val: Value, bits: Bits)
    requires s.WellFormed() && Shaped(s, val) && TakeDelta(s, val, bits).Some?
    ensures Shaped(s, TakeDelta(s, val, bits).value.0)
    decreases s, 1
  {
    hide TakeStructDelta, TakeListDelta, TakeMapDelta, TakeSparseDelta, TakeFull;
    match s
    case Struct(fs) => StructDeltaShaped(fs, val.items, bits);
    case ArrayList(e, max) => ListDeltaShaped(e, max, val.items, bits);
    case Map(e, max) => MapDeltaShaped(e, max, val.entries, bits);
    case SparseList(e, max) => SparseDeltaShaped(e, max, val.entries, bits);
    case _ => FullShaped(s, val, bits);
  }

  lemma {:induction false} StructDeltaShaped(fields: seq<Schema>, items: seq<Value>, bits: Bits)
    requires FieldsAre(fields, items) && TakeStructDelta(fields, items, bits).Some?
    ensures Shaped(Struct(fields), TakeStructDelta(fields, items, bits).value.0)
    decreases fields, 1
  {
    hide TakeFieldDeltas, TakeNum;
    var (n, b) := TakeNum(bits, RequiredBits(|fields|)).value;
    var (next, b') := TakeNum(b, RequiredBits(|fields|)).value;
    FieldDeltasShaped(fields, items, 0, n, next, b');
  }

  lemma {:induction false} FieldDeltasShaped(fields: seq<Schema>, items: seq<Value>, i: nat, remaining: nat,
        next: nat, bits: Bits)
    requires FieldsAre(fields, items) && i <= |items|
    requires TakeFieldDeltas(fields, items, i, remaining, next, bits).Some?
    ensures FieldsAre(fields, TakeFieldDeltas(fields, items, i, remaining, next, bits).value.0)
    decreases fields, 0, |items| - i
  {
    hide TakeDelta, Shaped, TakeNum;
    if i == |items| {
    } else if remaining == 0 || i != next {
      FieldDeltasShaped(fields, items, i + 1, remaining, next, bits);
    } else {
      DeltaShaped(fields[i], items[i], bits);
      var (v, b) := TakeDelta(fields[i], items[i], bits).value;
      if remaining == 1 {
        FieldDeltasShaped(fields, items[i := v], i + 1, 0, next, b);
      } else {
        var (next', rest) := TakeNum(b, RequiredBits(|fields|)).value;
        FieldDeltasShaped(fields, items[i := v], i + 1, remaining - 1, next', rest);
      }
    }
  }

  lemma {:induction false} ListDeltaShaped(elem: Schema, max: nat, items: seq<Value>, bits: Bits)
    requires elem.WellFormed() && AllShaped(elem, items) && |items| <= max
    requires TakeListDelta(elem, max, items, bits).Some?
    ensures
      var r := TakeListDelta(elem, max, items, bits).value.0;
      AllShaped(elem, r) && |r| <= max
    decreases elem, 4
  {
    hide TakeItemDeltas, TakeNewItems, TakeNum, Shaped;
    var (resized, b) := TakeNum(bits, 1).value;
    if resized == 0 {
      ItemDeltasShaped(elem, items, 0, |items|, b);
    } else {
      var (n, b') := TakeNum(b, RequiredBits(max)).value;
      var common := if |items| < n then |items| else n;
      ItemDeltasShaped(elem, items, 0, common, b');
      var (items', b'') := TakeItemDeltas(elem, items, 0, common, b').value;
      PrefixShaped(elem, items', common);
      NewItemsShaped(elem, max, items'[..common], n, b'');
    }
  }

  lemma PrefixShaped(elem: Schema, items: seq<Value>, n: nat)
    requires AllShaped(elem, items) && n <= |items|
    ensures AllShaped(elem, items[..n])
  {
  }

  lemma {:induction false} ItemDeltasShaped(elem: Schema, items: seq<Value>, i: nat, n: nat, bits: Bits)
    requires elem.WellFormed() && AllShaped(elem, items) && i <= n <= |items|
    requires TakeItemDeltas(elem, items, i, n, bits).Some?
    ensures AllShaped(elem, TakeItemDeltas(elem, items, i, n, bits).value.0)
    decreases elem, 2, n - i
  {
    hide TakeDelta, Shaped, TakeNum;
    if i < n {
      var (changed, b) := TakeNum(bits, 1).value;
      if changed == 0 {
        ItemDeltasShaped(elem, items, i + 1, n, b);
      } else {
        DeltaShaped(elem, items[i], b);
        var (v, rest) := TakeDelta(elem, items[i], b).value;
        ItemDeltasShaped(elem, items[i := v], i + 1, n, rest);
      }
    }
  }

  lemma {:induction false} NewItemsShaped(elem: Schema, max: nat, items: seq<Value>, n: nat, bits: Bits)
    requires elem.WellFormed() && AllShaped(elem, items) && |items| <= max
    requires TakeNewItems(elem, max, items, n, bits).Some?
    ensures
      var r := TakeNewItems(elem, max, items, n, bits).value.0;
      AllShaped(elem, r) && |r| <= max
    decreases n - |items|
  {
    hide TakeFull, Shaped, Default;
    if |items| < n {
      DefaultShaped(elem);
      FullShaped(elem, Default(elem), bits);
      var (v, rest) := TakeFull(elem, Default(elem), bits).value;
      NewItemsShaped(elem, max, items + [v], n, rest);
    }
  }

  lemma {:induction false} MapDeltaShaped(elem: Schema, max: nat, val: map<nat, Value>, bits: Bits)
    requires elem.WellFormed() && MapShaped(elem, val) && TakeMapDelta(elem, max, val, bits).Some?
    ensures Shaped(Map(elem, max), TakeMapDelta(elem, max, val, bits).value.0)
    decreases elem, 4
  {
    hide TakeRecords, TakeNum, MapShaped;
    var (n, b) := TakeNum(bits, RequiredBits(max)).value;
    RecordsShaped(elem, RequiredBits(max), val, n, b);
  }

  lemma {:induction false} SparseDeltaShaped(elem: Schema, max: nat, val: map<nat, Value>, bits: Bits)
    requires elem.WellFormed() && max < 0x4000_0000 && Shaped(SparseList(elem, max), Entries(val))
    requires TakeSparseDelta(elem, max, val, bits).Some?
    ensures Shaped(SparseList(elem, max), TakeSparseDelta(elem, max, val, bits).value.0)
    decreases elem, 4
  {
    hide TakeRecords, TakeNum, Shaped, TakeSparseHeader, HighestIndex;
    SparseHeaderRange(elem, max, val, bits);
    var (highest, b) := TakeSparseHeader(max, HighestIndex(val), bits).value;
    var (n, b') := TakeNum(b, RequiredBits(highest + 1)).value;
    SparseShape(elem, max, val);
    RecordsShaped(elem, IndexBits(highest), val, n, b');
    var r := TakeRecords(elem, IndexBits(highest), val, n, b').value.0;
    SparseShape(elem, max, Below(r, highest + 1));
  }

  lemma SparseShape(elem: Schema, max: nat, m: map<nat, Value>)
    ensures Shaped(SparseList(elem, max), Entries(m)) <==> MapShaped(elem, m) && KeysBelow(m, 0x7FFF_FFFF)
  {
  }

  /** The highest index a delta announces is one the list can have. */
  lemma SparseHeaderRange(elem: Schema, max: nat, val: map<nat, Value>, bits: Bits)
    requires max < 0x4000_0000 && Shaped(SparseList(elem, max), Entries(val))
    requires TakeSparseHeader(max, HighestIndex(val), bits).Some?
    ensures -1 <= TakeSparseHeader(max, HighestIndex(val), bits).value.0 < 0x7FFF_FFFF
  {
    hide MapShaped, TakeNum;
    var (resized, b) := TakeNum(bits, 1).value;
    if resized != 0 {
      NumBound(b, RequiredBits(max));
      SparseLimit(max);
    }
  }

  lemma {:induction false} RecordsShaped(elem: Schema, key_bits: nat, val: map<nat, Value>, n: nat, bits: Bits)
    requires elem.WellFormed() && MapShaped(elem, val) && TakeRecords(elem, key_bits, val, n, bits).Some?
    ensures MapShaped(elem, TakeRecords(elem, key_bits, val, n, bits).value.0)
    decreases elem, 3, n
  {
    hide TakeRecord, MapShaped;
    if n > 0 {
      RecordShaped(elem, key_bits, val, bits);
      var (val', rest) := TakeRecord(elem, key_bits, val, bits).value;
      RecordsShaped(elem, key_bits, val', n - 1, rest);
    }
  }

  lemma {:induction false} RecordShaped(elem: Schema, key_bits: nat, val: map<nat, Value>, bits: Bits)
    requires elem.WellFormed() && MapShaped(elem, val) && TakeRecord(elem, key_bits, val, bits).Some?
    ensures MapShaped(elem, TakeRecord(elem, key_bits, val, bits).value.0)
    decreases elem, 2
  {
    hide TakeDelta, TakeFull, Shaped, TakeNum, Default;
    var (k, b) := TakeNum(bits, key_bits).value;
    if k !in val {
      DefaultShaped(elem);
      FullShaped(elem, Default(elem), b);
    } else {
      var (existing, b') := TakeNum(b, 1).value;
      if existing != 0 { DeltaShaped(elem, val[k], b'); }
    }
  }
}
