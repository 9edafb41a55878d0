/** Full decoding of a full encoding, over any existing value. */
module FullRoundTrip {
  import opened BitUtil
  import opened BitStream
  import opened Joins
  import opened Schemas
  import opened CodecSpec
  import opened EncodingParts
  import opened Wrappers

  /** What decoding `v` over `old_val` leaves: `v` itself, except that a sparse list keeps its
      old highest index when that lies above every index of the new list. */
  function Merged(s: Schema, old_val: Value, v: Value): Value
    decreases s, 1
  {
    match (s, old_val, v)
    case (FixedArray(e, _), Items(ys), Items(xs)) => Items(MergedItems(e, ys, xs))
    case (Struct(fs), Items(ys), Items(xs)) => Items(MergedFields(fs, ys, xs))
    case (ArrayList(e, _), Items(ys), Items(xs)) => Items(MergedItems(e, Resize(e, ys, |xs|), xs))
    case (Map(e, _), Entries(old_m), Entries(m)) => Entries(MergedEntries(e, old_m, m))
    case (SparseList(e, _), Entries(old_m), Entries(m)) =>
      Entries(WithStray(MergedEntries(e, old_m, m), old_m, HighestIndex(m)))
    case _ => v
  }

  function MergedItems(elem: Schema, old_items: seq<Value>, items: seq<Value>): (r: seq<Value>)
    ensures |r| == |items|
    decreases elem, 2
  {
    seq(|items|, j requires 0 <= j < |items| =>
      if j < |old_items| then Merged(elem, old_items[j], items[j]) else items[j])
  }

  function MergedFields(fields: seq<Schema>, old_items: seq<Value>, items: seq<Value>): (r: seq<Value>)
    ensures |r| == |items|
    decreases fields, 0
  {
    seq(|items|, j requires 0 <= j < |items| =>
      if j < |old_items| && j < |fields| then Merged(fields[j], old_items[j], items[j]) else items[j])
  }

  function MergedEntries(elem: Schema, old_m: map<nat, Value>, m: map<nat, Value>): (r: map<nat, Value>)
    ensures forall k :: k in r <==> k in m
    decreases elem, 2
  {
    map k | k in m :: Merged(elem, EntryOrDefault(elem, old_m, k), m[k])
  }

  /** The new list and, when it lies higher, the highest entry of the old one. */
  function WithStray(merged: map<nat, Value>, old_m: map<nat, Value>, highest: int): map<nat, Value>
  {
    var h := HighestIndex(old_m);
    if h > highest && h >= 0 then merged[h := old_m[h]] else merged
  }

  // ----- leaves -----

  lemma TakeByteBack(b: Byte, rest: Bits)
    ensures TakeNum(ToBits(b, 8) + rest, 8) == Some((b, rest))
  {
    ByteBound();
    TakeWritten(b, 8, rest);
  }

  lemma {:induction false} TakeBytesBack(bytes: seq<Byte>, rest: Bits)
    ensures TakeBytes(BytesToBits(bytes) + rest, |bytes|) == Some((bytes, rest))
    decreases |bytes|
  {
    if bytes == [] {
      assert BytesToBits(bytes) + rest == rest;
    } else {
      ConcatAssoc(ToBits(bytes[0], 8), BytesToBits(bytes[1..]), rest);
      TakeByteBack(bytes[0], BytesToBits(bytes[1..]) + rest);
      TakeBytesBack(bytes[1..], rest);
      assert [bytes[0]] + bytes[1..] == bytes;
    }
  }

  lemma TakeTextBack(bytes: seq<Byte>, rest: Bits)
    requires |bytes| < 0x8000
    ensures TakeText(TextHeader(|bytes|) + BytesToBits(bytes) + rest) == Some((Bytes(bytes), rest))
  {
    var n := |bytes|;
    var long: nat := if n > 127 then 1 else 0;
    var width := if n > 127 then 15 else 7;
    var tail := BytesToBits(bytes) + rest;
    ConcatAssoc(TextHeader(n), BytesToBits(bytes), rest);
    ConcatAssoc(ToBits(long, 1), ToBits(n, width), tail);
    TextWidths();
    TakeFlagBack(n > 127, ToBits(n, width) + tail);
    TakeWritten(n, width, tail);
    TakeBytesBack(bytes, rest);
  }

  lemma TextWidths()
    ensures Pow2(7) == 128 && Pow2(15) == 0x8000
  {
    ByteBound();
    assert 2 * Pow2(7) == Pow2(8);
    HalfWordConstants();
    assert 2 * Pow2(15) == Pow2(16);
  }

  lemma TakeFlagBack(b: bool, rest: Bits)
    ensures TakeNum(ToBits(if b then 1 else 0, 1) + rest, 1) == Some((if b then 1 else 0, rest))
  {
    assert Pow2(1) == 2;
    TakeWritten(if b then 1 else 0, 1, rest);
  }

  lemma TakeCountBack(n: nat, max: nat, rest: Bits)
    requires n <= max
    ensures TakeNum(ToBits(n, RequiredBits(max)) + rest, RequiredBits(max)) == Some((n, rest))
  {
    RequiredBitsFit(max);
    TakeWritten(n, RequiredBits(max), rest);
  }

  lemma LeafRoundTrip(s: Schema, val: Value, v: Value, rest: Bits)
    requires s.Leaf() && s.WellFormed() && Fits(s, v)
    ensures TakeFull(s, val, Full(s, v) + rest) == Some((v, rest))
  {
    hide TakeNum, TakeBytes, TakeText, TextHeader, BytesToBits, ToBits;
    match s
    case Pod(_) => TakeBytesBack(v.bytes, rest);
    case Bool => TakeFlagBack(v.b, rest);
    case Ranged(lo, hi) => TakeCountBack(v.n - lo, hi - lo, rest);
    case Text => TakeTextBack(v.bytes, rest);
  }

  // ----- every schema -----

  /** Decoding consumes exactly the bits of the encoding, whatever follows them, and leaves
      the merge of the old value and the encoded one. */
  lemma {:induction false} FullRoundTrip(s: Schema, val: Value, v: Value, rest: Bits)
    requires s.WellFormed() && Shaped(s, val) && Fits(s, v)
    ensures TakeFull(s, val, Full(s, v) + rest) == Some((Merged(s, val, v), rest))
    decreases s, 1
  {
    match s
    case Pod(_) => LeafRoundTrip(s, val, v, rest);
    case Bool => LeafRoundTrip(s, val, v, rest);
    case Ranged(_, _) => LeafRoundTrip(s, val, v, rest);
    case Text => LeafRoundTrip(s, val, v, rest);
    case FixedArray(e, _) => ItemsBack(e, val.items, v.items, rest);
    case Struct(fs) => FieldsBack(fs, val.items, v.items, rest);
    case ArrayList(e, max) => ListBack(e, max, val.items, v.items, rest);
    case Map(e, max) => MapBack(e, max, val.entries, v.entries, rest);
    case SparseList(e, max) => SparseBack(e, max, val.entries, v.entries, rest);
  }

  lemma {:induction false} MapBack(elem: Schema, max: nat, old_m: map<nat, Value>, m: map<nat, Value>, rest: Bits)
    requires elem.WellFormed() && MapShaped(elem, old_m) && EntriesFit(elem, max, false, m)
    ensures TakeFull(Map(elem, max), Entries(old_m), Full(Map(elem, max), Entries(m)) + rest)
         == Some((Merged(Map(elem, max), Entries(old_m), Entries(m)), rest))
    decreases elem, 5
  {
    hide TakeAllEntries, TakeFull, FullEntries, Full, Blend, MergedEntries, Finish, EntriesFit, MapShaped, HighestIndex;
    var merged, h := MergedEntries(elem, old_m, m), HighestIndex(m);
    var bits := FullEntries(elem, RequiredBits(max), m) + rest;
    MergedKeys(elem, old_m, m);
    NothingRemains(merged, old_m, h);
    EntriesBack(elem, max, false, old_m, m, h + 1, rest);
    TakeMapStep(elem, max, old_m, m, bits, merged, rest);
  }

  lemma TakeMapStep(elem: Schema, max: nat, old_m: map<nat, Value>, m: map<nat, Value>, bits: Bits,
        r: map<nat, Value>, rest: Bits)
    requires bits == FullEntries(elem, RequiredBits(max), m) + rest
    requires TakeAllEntries(elem, RequiredBits(max), false, old_m, bits) == Some((r, rest))
    ensures TakeFull(Map(elem, max), Entries(old_m), Full(Map(elem, max), Entries(m)) + rest)
        == Some((Entries(r), rest))
  {
    hide TakeAllEntries, FullEntries;
  }

  lemma TakeSparseStep(elem: Schema, max: nat, old_m: map<nat, Value>, m: map<nat, Value>, bits: Bits,
        r: map<nat, Value>, rest: Bits)
    requires bits == FullEntries(elem, RequiredBits(max), m) + rest
    requires TakeAllEntries(elem, RequiredBits(max), true, old_m, bits) == Some((r, rest))
    ensures TakeFull(SparseList(elem, max), Entries(old_m), Full(SparseList(elem, max), Entries(m)) + rest)
         == Some((Entries(r), rest))
  {
    hide TakeAllEntries, FullEntries;
  }

  lemma {:induction false} SparseBack(elem: Schema, max: nat, old_m: map<nat, Value>, m: map<nat, Value>, rest: Bits)
    requires elem.WellFormed() && MapShaped(elem, old_m) && EntriesFit(elem, max, true, m)
    ensures TakeFull(SparseList(elem, max), Entries(old_m), Full(SparseList(elem, max), Entries(m)) + rest)
         == Some((Merged(SparseList(elem, max), Entries(old_m), Entries(m)), rest))
    decreases elem, 5
  {
    hide TakeAllEntries, TakeFull, FullEntries, Full, Blend, MergedEntries, Finish, WithStray, EntriesFit, MapShaped,
          HighestIndex;
    var h := HighestIndex(m);
    var merged := MergedEntries(elem, old_m, m);
    var all := WithStray(merged, old_m, h);
    var bits := FullEntries(elem, RequiredBits(max), m) + rest;
    MergedKeys(elem, old_m, m);
    StrayRemains(merged, old_m, h);
    EntriesBack(elem, max, true, old_m, m, h + 1, rest);
    TakeSparseStep(elem, max, old_m, m, bits, all, rest);
  }

  lemma {:induction false} ListBack(elem: Schema, max: nat, old_items: seq<Value>, items: seq<Value>, rest: Bits)
    requires elem.WellFormed() && AllShaped(elem, old_items) && AllFit(elem, items) && |items| <= max
    ensures TakeFull(ArrayList(elem, max), Items(old_items), Full(ArrayList(elem, max), Items(items)) + rest)
         == Some((Merged(ArrayList(elem, max), Items(old_items), Items(items)), rest))
    decreases elem, 4
  {
    hide TakeItems, MergedItems, ItemParts, Shaped, Fits;
    var n, parts := |items|, ItemParts(elem, items);
    ConcatAssoc(ToBits(n, RequiredBits(max)), JoinAll(parts), rest);
    TakeCountBack(n, max, JoinAll(parts) + rest);
    DefaultShaped(elem);
    ItemsBack(elem, Resize(elem, old_items, n), items, rest);
  }

  lemma {:induction false} ItemsBack(elem: Schema, old_items: seq<Value>, items: seq<Value>, rest: Bits)
    requires elem.WellFormed() && |old_items| == |items| && AllShaped(elem, old_items) && AllFit(elem, items)
    ensures TakeItems(elem, old_items, 0, JoinAll(ItemParts(elem, items)) + rest)
         == Some((MergedItems(elem, old_items, items), rest))
    decreases elem, 3
  {
    BlendItemsEnds(MergedItems(elem, old_items, items), old_items);
    ItemsBackFrom(elem, old_items, items, 0, rest);
  }

  lemma {:induction false} ItemsBackFrom(elem: Schema, old_items: seq<Value>, items: seq<Value>, i: nat, rest: Bits)
    requires elem.WellFormed() && |old_items| == |items| && AllShaped(elem, old_items) && AllFit(elem, items)
    requires i <= |items|
    ensures
      var merged := MergedItems(elem, old_items, items);
      TakeItems(elem, BlendItems(merged, old_items, i), i, Join(ItemParts(elem, items), i, |items|) + rest)
        == Some((merged, rest))
    decreases elem, 2, |items| - i
  {
    hide TakeFull, Full, Merged, Fits, Shaped;
    var parts, merged := ItemParts(elem, items), MergedItems(elem, old_items, items);
    if i == |items| {
      JoinEnd(parts, |items|, rest);
      BlendItemsEnds(merged, old_items);
    } else {
      JoinFrom(parts, i, |items|, rest);
      FullRoundTrip(elem, old_items[i], items[i], Join(parts, i + 1, |items|) + rest);
      BlendItemsStep(merged, old_items, i);
      ItemsBackFrom(elem, old_items, items, i + 1, rest);
    }
  }

  lemma {:induction false} FieldsBack(fields: seq<Schema>, old_items: seq<Value>, items: seq<Value>, rest: Bits)
    requires Struct(fields).WellFormed() && Shaped(Struct(fields), Items(old_items))
    requires Fits(Struct(fields), Items(items))
    ensures TakeFields(fields, old_items, 0, JoinAll(FieldParts(fields, items)) + rest)
         == Some((MergedFields(fields, old_items, items), rest))
    decreases fields, 2
  {
    BlendItemsEnds(MergedFields(fields, old_items, items), old_items);
    FieldsBackFrom(fields, old_items, items, 0, rest);
  }

  lemma {:induction false} FieldsBackFrom(fields: seq<Schema>, old_items: seq<Value>, items: seq<Value>, i: nat,
        rest: Bits)
    requires Struct(fields).WellFormed() && Shaped(Struct(fields), Items(old_items))
    requires Fits(Struct(fields), Items(items))
    requires i <= |items|
    ensures
      var merged := MergedFields(fields, old_items, items);
      TakeFields(fields, BlendItems(merged, old_items, i), i, Join(FieldParts(fields, items), i, |items|) + rest)
        == Some((merged, rest))
    decreases fields, 1, |items| - i
  {
    hide TakeFull, Full, Merged;
    var parts, merged := FieldParts(fields, items), MergedFields(fields, old_items, items);
    if i == |items| {
      JoinEnd(parts, |items|, rest);
      BlendItemsEnds(merged, old_items);
    } else {
      JoinFrom(parts, i, |items|, rest);
      FullRoundTrip(fields[i], old_items[i], items[i], Join(parts, i + 1, |items|) + rest);
      BlendItemsStep(merged, old_items, i);
      FieldsBackFrom(fields, old_items, items, i + 1, rest);
    }
  }

  // ----- maps and sparse lists -----

  lemma TakeEntryStep(elem: Schema, key_bits: nat, sparse: bool, val: map<nat, Value>, cur: nat, bits: Bits,
      k: nat, index: nat, b: Bits, v: Value, rest: Bits)
    requires TakeNum(bits, key_bits) == Some((k, b))
    requires index >= cur && index == if sparse && k < cur then cur else k
    requires TakeFull(elem, EntryOrDefault(elem, val, index), b) == Some((v, rest))
    ensures TakeEntry(elem, key_bits, sparse, val, cur, bits)
         == Walk(DropRange(val, cur, index)[index := v], index + 1, rest)
  {
  }

  /** The key read, and the index it stands for behind the entries already read. */
  lemma KeyBack(max: nat, sparse: bool, cur: nat, i: nat, tail: Bits)
    requires i >= cur && (i < Pow2(RequiredBits(max)) || (sparse && i == cur))
    ensures
      var key := TakeNum(ToBits(i, RequiredBits(max)) + tail, RequiredBits(max));
      && key == Some((Trunc(i, RequiredBits(max)), tail))
      && i == if sparse && key.value.0 < cur then cur else key.value.0
  {
    hide TakeNum, ToBits;
    var width := RequiredBits(max);
    TakeWritten(i, width, tail);
    TruncBound(i, width);
  }

  lemma {:induction false} EntryBack(elem: Schema, max: nat, sparse: bool, old_m: map<nat, Value>, m: map<nat, Value>,
      cur: nat, i: nat, tail: Bits)
    requires elem.WellFormed() && MapShaped(elem, old_m) && i in m && Fits(elem, m[i])
    requires cur <= i && (forall k :: cur <= k < i ==> k !in m)
    requires i < Pow2(RequiredBits(max)) || (sparse && i == cur)
    ensures
      var merged, key_bits := MergedEntries(elem, old_m, m), RequiredBits(max);
      TakeEntry(elem, key_bits, sparse, Blend(merged, old_m, cur), cur, ToBits(i, key_bits) + Full(elem, m[i]) + tail)
        == Walk(Blend(merged, old_m, i + 1), i + 1, tail)
    decreases elem, 2, 0
  {
    hide TakeEntry, TakeFull, TakeNum, ToBits, Full, Merged, Blend, Fits, Shaped, Default;
    var key_bits, merged := RequiredBits(max), MergedEntries(elem, old_m, m);
    ConcatAssoc(ToBits(i, key_bits), Full(elem, m[i]), tail);
    KeyBack(max, sparse, cur, i, Full(elem, m[i]) + tail);
    DefaultShaped(elem);
    FullRoundTrip(elem, EntryOrDefault(elem, old_m, i), m[i], tail);
    BlendAt(merged, old_m, cur, i);
    TakeEntryStep(elem, key_bits, sparse, Blend(merged, old_m, cur), cur, ToBits(i, key_bits) + Full(elem, m[i]) + tail,
      Trunc(i, key_bits), i, Full(elem, m[i]) + tail, merged[i], tail);
    BlendStep(merged, old_m, cur, i);
  }

  lemma TakeEntriesEnd(elem: Schema, key_bits: nat, sparse: bool, val: map<nat, Value>, cur: nat, bits: Bits)
    ensures TakeEntries(elem, key_bits, sparse, val, cur, 0, bits) == Walk(val, cur, bits)
  {
  }

  lemma TakeEntriesStep(elem: Schema, key_bits: nat, sparse: bool, val: map<nat, Value>, cur: nat, n: nat, bits: Bits,
      val': map<nat, Value>, cur': nat, rest: Bits)
    requires n > 0 && TakeEntry(elem, key_bits, sparse, val, cur, bits) == Walk(val', cur', rest)
    ensures TakeEntries(elem, key_bits, sparse, val, cur, n, bits)
         == TakeEntries(elem, key_bits, sparse, val', cur', n - 1, rest)
  {
    hide TakeEntry;
  }

  ghost predicate WalkStep(elem: Schema, key_bits: nat, sparse: bool, parts: seq<Bits>,
      m: map<nat, Value>, cur: nat, m': map<nat, Value>, cur': nat, j: nat, rest: Bits)
    requires j < |parts|
  {
    var tail := Join(parts, j + 1, |parts|) + rest;
    if parts[j] == [] then m' == m && cur' == cur
    else TakeEntry(elem, key_bits, sparse, m, cur, parts[j] + tail) == Walk(m', cur', tail)
  }

  lemma WalkOn(elem: Schema, key_bits: nat, sparse: bool, parts: seq<Bits>,
      m: map<nat, Value>, cur: nat, m': map<nat, Value>, cur': nat, j: nat, rest: Bits)
    requires j < |parts| && WalkStep(elem, key_bits, sparse, parts, m, cur, m', cur', j, rest)
    ensures TakeEntries(elem, key_bits, sparse, m, cur, Nonempty(parts, j, |parts|), Join(parts, j, |parts|) + rest)
         == TakeEntries(elem, key_bits, sparse, m', cur', Nonempty(parts, j + 1, |parts|),
             Join(parts, j + 1, |parts|) + rest)
  {
    hide TakeEntry, TakeEntries;
    JoinFrom(parts, j, |parts|, rest);
    if parts[j] != [] {
      TakeEntriesStep(elem, key_bits, sparse, m, cur, Nonempty(parts, j, |parts|), Join(parts, j, |parts|) + rest,
        m', cur', Join(parts, j + 1, |parts|) + rest);
    } else {
      JoinFromEmpty(parts, j, |parts|);
    }
  }

  /** How far the walk has got once the entries below `j` are read: just past the last of them. */
  function Passed(m: map<nat, Value>, j: nat): (cur: nat)
    ensures cur <= j && forall k :: cur <= k < j ==> k !in m
    ensures j > 0 && j - 1 in m ==> cur == j
  {
    if j == 0 then 0 else if j - 1 in m then j else Passed(m, j - 1)
  }

  lemma {:induction false} EntryWalks(elem: Schema, max: nat, sparse: bool, old_m: map<nat, Value>, m: map<nat, Value>,
      bound: nat, j: nat, rest: Bits)
    requires elem.WellFormed() && MapShaped(elem, old_m) && EntriesFit(elem, max, sparse, m) && j < bound
    ensures
      var parts, merged := EntryParts(elem, RequiredBits(max), m, bound), MergedEntries(elem, old_m, m);
      WalkStep(elem, RequiredBits(max), sparse, parts, Blend(merged, old_m, Passed(m, j)), Passed(m, j),
        Blend(merged, old_m, Passed(m, j + 1)), Passed(m, j + 1), j, rest)
    decreases elem, 2, 1
  {
    hide TakeEntry, TakeEntries, Merged, MergedEntries, Blend, Full, Fits, MapShaped;
    var key_bits := RequiredBits(max);
    if j in m {
      PartNonempty(elem, key_bits, m, bound, j);
      EntryBack(elem, max, sparse, old_m, m, Passed(m, j), j,
        Join(EntryParts(elem, key_bits, m, bound), j + 1, bound) + rest);
    } else {
      assert EntryParts(elem, key_bits, m, bound)[j] == [];
    }
  }

  lemma {:induction false} EntriesWalk(elem: Schema, max: nat, sparse: bool, old_m: map<nat, Value>, m: map<nat, Value>,
      bound: nat, j: nat, rest: Bits)
    requires elem.WellFormed() && MapShaped(elem, old_m) && EntriesFit(elem, max, sparse, m)
    requires j <= bound && (bound > 0 ==> bound - 1 in m)
    ensures
      var parts, merged := EntryParts(elem, RequiredBits(max), m, bound), MergedEntries(elem, old_m, m);
      TakeEntries(elem, RequiredBits(max), sparse, Blend(merged, old_m, Passed(m, j)), Passed(m, j),
          Nonempty(parts, j, bound), Join(parts, j, bound) + rest)
        == Walk(Blend(merged, old_m, bound), bound, rest)
    decreases elem, 3, bound - j
  {
    hide TakeEntry, TakeEntries, MergedEntries, EntriesFit, MapShaped, WalkStep, EntryParts, Blend;
    var key_bits, merged := RequiredBits(max), MergedEntries(elem, old_m, m);
    var parts := EntryParts(elem, key_bits, m, bound);
    if j == bound {
      JoinEnd(parts, j, rest);
      TakeEntriesEnd(elem, key_bits, sparse, Blend(merged, old_m, bound), bound, rest);
    } else {
      EntryWalks(elem, max, sparse, old_m, m, bound, j, rest);
      WalkOn(elem, key_bits, sparse, parts, Blend(merged, old_m, Passed(m, j)), Passed(m, j),
        Blend(merged, old_m, Passed(m, j + 1)), Passed(m, j + 1), j, rest);
      EntriesWalk(elem, max, sparse, old_m, m, bound, j + 1, rest);
    }
  }

  lemma {:induction false} EntriesBack(elem: Schema, max: nat, sparse: bool, old_m: map<nat, Value>, m: map<nat, Value>,
      bound: nat, rest: Bits)
    requires elem.WellFormed() && MapShaped(elem, old_m) && EntriesFit(elem, max, sparse, m)
    requires bound == HighestIndex(m) + 1
    ensures TakeAllEntries(elem, RequiredBits(max), sparse, old_m, FullEntries(elem, RequiredBits(max), m) + rest)
         == Some((Finish(sparse, Blend(MergedEntries(elem, old_m, m), old_m, bound), bound), rest))
    decreases elem, 4
  {
    CountedEntriesBack(elem, max, sparse, old_m, m, bound, rest);
    TakeAllStep(elem, RequiredBits(max), sparse, old_m, FullEntries(elem, RequiredBits(max), m) + rest,
      |m|, JoinAll(EntryParts(elem, RequiredBits(max), m, bound)) + rest,
      Blend(MergedEntries(elem, old_m, m), old_m, bound), bound, rest);
  }

  lemma TakeAllStep(elem: Schema, key_bits: nat, sparse: bool, val: map<nat, Value>, bits: Bits,
      n: nat, b: Bits, m: map<nat, Value>, cur: nat, rest: Bits)
    requires TakeNum(bits, key_bits) == Some((n, b))
    requires TakeEntries(elem, key_bits, sparse, val, 0, n, b) == Walk(m, cur, rest)
    ensures TakeAllEntries(elem, key_bits, sparse, val, bits) == Some((Finish(sparse, m, cur), rest))
  {
  }

  lemma {:induction false} CountedEntriesBack(elem: Schema, max: nat, sparse: bool, old_m: map<nat, Value>,
      m: map<nat, Value>, bound: nat, rest: Bits)
    requires elem.WellFormed() && MapShaped(elem, old_m) && EntriesFit(elem, max, sparse, m)
    requires (forall k :: k in m ==> k < bound) && (bound > 0 ==> bound - 1 in m)
    ensures
      var key_bits, parts := RequiredBits(max), EntryParts(elem, RequiredBits(max), m, bound);
      && TakeNum(ToBits(|m|, key_bits) + JoinAll(parts) + rest, key_bits) == Some((|m|, JoinAll(parts) + rest))
      && TakeEntries(elem, key_bits, sparse, old_m, 0, |m|, JoinAll(parts) + rest)
           == Walk(Blend(MergedEntries(elem, old_m, m), old_m, bound), bound, rest)
    decreases elem, 4, 0
  {
    var key_bits, parts := RequiredBits(max), EntryParts(elem, RequiredBits(max), m, bound);
    EntriesCounted(elem, key_bits, m, bound);
    ConcatAssoc(ToBits(|m|, key_bits), JoinAll(parts), rest);
    TakeWritten(|m|, key_bits, JoinAll(parts) + rest);
    EntriesWalk(elem, max, sparse, old_m, m, bound, 0, rest);
  }

  lemma MergedKeys(elem: Schema, old_m: map<nat, Value>, m: map<nat, Value>)
    ensures forall k :: k in MergedEntries(elem, old_m, m) ==> k <= HighestIndex(m)
    ensures HighestIndex(m) >= 0 ==> HighestIndex(m) in MergedEntries(elem, old_m, m)
  {
    hide Merged;
  }

  lemma NothingRemains(merged: map<nat, Value>, old_m: map<nat, Value>, highest: int)
    requires highest >= -1 && (forall k :: k in merged ==> k <= highest)
    ensures Finish(false, Blend(merged, old_m, highest + 1), highest + 1) == merged
  {
    BlendAll(merged, old_m, highest + 1);
  }

  /** The trailing loop of a sparse list clears everything past the new list but its last index. */
  lemma StrayRemains(merged: map<nat, Value>, old_m: map<nat, Value>, highest: int)
    requires highest >= -1 && (forall k :: k in merged ==> k <= highest)
    requires highest >= 0 ==> highest in merged
    ensures
      Finish(true, Blend(merged, old_m, highest + 1), highest + 1) == WithStray(merged, old_m, highest)
  {
    var mixed, h := Blend(merged, old_m, highest + 1), HighestIndex(old_m);
    forall k: nat
      ensures k in mixed <==> if k <= highest then k in merged else k in old_m
      ensures k in mixed ==> mixed[k] == if k <= highest then merged[k] else old_m[k]
    {
      BlendAt(merged, old_m, highest + 1, k);
    }
    assert HighestIndex(mixed) == if h > highest then h else highest;
  }
}
