/** Exactly which values the full format carries. */
module FullLimits {
  import opened BitUtil
  import opened BitStream
  import opened Joins
  import opened Schemas
  import opened CodecSpec
  import opened EncodingParts
  import opened FullRoundTrip
  import opened FullExact
  import opened Wrappers

  // ----- strings -----

  /** A string comes back exactly when its length fits the 15-bit field. */
  lemma TextExact(text: seq<Byte>, rest: Bits)
    ensures TakeText(TextHeader(|text|) + BytesToBits(text) + rest) == Some((Bytes(text), rest))
       <==> |text| < 0x8000
  {
    if |text| < 0x8000 {
      TakeTextBack(text, rest);
    } else {
      LongText(text, rest);
    }
  }

  /** The length of a longer string is cut to 15 bits. */
  lemma LongText(text: seq<Byte>, rest: Bits)
    requires |text| >= 0x8000
    ensures Trunc(|text|, 15) < |text|
    ensures
      var bytes := TakeBytes(BytesToBits(text) + rest, Trunc(|text|, 15));
      TakeText(TextHeader(|text|) + BytesToBits(text) + rest)
        == if bytes.None? then None else Some((Bytes(bytes.value.0), bytes.value.1))
  {
    hide TakeBytes, TakeNum;
    var n, tail := |text|, BytesToBits(text) + rest;
    ConcatAssoc(TextHeader(n), BytesToBits(text), rest);
    ConcatAssoc(ToBits(1, 1), ToBits(n, 15), tail);
    TextWidths();
    TruncBound(n, 15);
    TakeFlagBack(true, ToBits(n, 15) + tail);
    TakeWritten(n, 15, tail);
  }

  /** The shortest string that is lost comes back empty. */
  lemma LostText(text: seq<Byte>, rest: Bits)
    requires |text| == 0x8000
    ensures TakeText(TextHeader(|text|) + BytesToBits(text) + rest) == Some((Bytes([]), BytesToBits(text) + rest))
  {
    hide TakeText, TextHeader;
    LongText(text, rest);
    TextWidths();
    TruncIsRemainder(0x8000, 15);
  }

  // ----- the number of entries -----

  lemma {:induction false} SubmapSize<T>(a: map<nat, T>, b: map<nat, T>)
    requires forall k :: k in a ==> k in b
    ensures |a| <= |b|
    ensures |a| == |b| ==> forall k :: k in b ==> k in a
    decreases |a|
  {
    if a == map[] {
      if |b| == 0 { assert b == map[]; }
    } else {
      var x :| x in a;
      var a', b' := Without(a, x), Without(b, x);
      assert a == a'[x := a[x]] && b == b'[x := b[x]];
      SubmapSize(a', b');
      if |a| == |b| {
        forall k | k in b ensures k in a {
          assert k == x || k in b';
        }
      }
    }
  }

  lemma EntrySize(elem: Schema, key_bits: nat, sparse: bool, val: map<nat, Value>, cur: nat, bits: Bits)
    requires TakeEntry(elem, key_bits, sparse, val, cur, bits).Walk?
    ensures
      var m := TakeEntry(elem, key_bits, sparse, val, cur, bits).m;
      && |m| <= |val| + 1
      && (|m| == |val| + 1 ==> forall k :: k in val ==> k in m && m[k] == val[k])
  {
    hide TakeFull, TakeNum, Default;
    var (k, _) := TakeNum(bits, key_bits).value;
    var index := if sparse && k < cur then cur else k;
    SubmapSize(DropRange(val, cur, index), val);
  }

  /** Every entry read adds at most one; if each of them did, none that was there has changed. */
  lemma {:induction false} EntriesSize(elem: Schema, key_bits: nat, sparse: bool, val: map<nat, Value>, cur: nat,
      n: nat, bits: Bits)
    requires TakeEntries(elem, key_bits, sparse, val, cur, n, bits).Walk?
    ensures
      var m := TakeEntries(elem, key_bits, sparse, val, cur, n, bits).m;
      && |m| <= |val| + n
      && (|m| == |val| + n ==> forall k :: k in val ==> k in m && m[k] == val[k])
    decreases n
  {
    hide TakeEntry;
    if n > 0 {
      EntrySize(elem, key_bits, sparse, val, cur, bits);
      var walk := TakeEntry(elem, key_bits, sparse, val, cur, bits);
      EntriesSize(elem, key_bits, sparse, walk.m, walk.cur, n - 1, walk.rest);
    }
  }

  lemma FinishSize(sparse: bool, m: map<nat, Value>, cur: nat)
    ensures |Finish(sparse, m, cur)| <= |m|
    ensures |Finish(sparse, m, cur)| == |m| ==> Finish(sparse, m, cur) == m
  {
    hide HighestIndex;
    SubmapSize(Finish(sparse, m, cur), m);
  }

  // ----- keys -----

  /** What an empty map or list can have become. */
  ghost predicate KeysTaken(max: nat, sparse: bool, m: map<nat, Value>, cur: nat)
  {
    && (forall k :: k in m ==> KeyFits(max, sparse, m, k))
    && (sparse ==> KeysBelow(m, cur) && (cur > 0 ==> cur - 1 in m))
  }

  lemma EntryKey(elem: Schema, max: nat, sparse: bool, val: map<nat, Value>, cur: nat, bits: Bits)
    requires KeysTaken(max, sparse, val, cur)
    requires TakeEntry(elem, RequiredBits(max), sparse, val, cur, bits).Walk?
    ensures
      var walk := TakeEntry(elem, RequiredBits(max), sparse, val, cur, bits);
      KeysTaken(max, sparse, walk.m, walk.cur)
  {
    hide TakeFull, TakeNum, Default, KeysTaken, DropRange, NextIndex;
    NumBound(bits, RequiredBits(max));
    var k := TakeNum(bits, RequiredBits(max)).value.0;
    var walk := TakeEntry(elem, RequiredBits(max), sparse, val, cur, bits);
    var index := if sparse && k < cur then cur else k;
    KeyTaken(max, sparse, val, cur, index, walk.m[index]);
  }

  lemma KeyTaken(max: nat, sparse: bool, val: map<nat, Value>, cur: nat, index: nat, v: Value)
    requires KeysTaken(max, sparse, val, cur) && (sparse ==> index >= cur)
    requires index < Pow2(RequiredBits(max)) || (sparse && index == cur)
    ensures KeysTaken(max, sparse, DropRange(val, cur, index)[index := v], NextIndex(cur, index))
  {
    hide Pow2, RequiredBits;
  }

  lemma {:induction false} EntriesKeys(elem: Schema, max: nat, sparse: bool, val: map<nat, Value>, cur: nat,
      n: nat, bits: Bits)
    requires KeysTaken(max, sparse, val, cur)
    requires TakeEntries(elem, RequiredBits(max), sparse, val, cur, n, bits).Walk?
    ensures
      var walk := TakeEntries(elem, RequiredBits(max), sparse, val, cur, n, bits);
      KeysTaken(max, sparse, walk.m, walk.cur)
    decreases n
  {
    hide TakeEntry, KeysTaken;
    if n > 0 {
      EntryKey(elem, max, sparse, val, cur, bits);
      var walk := TakeEntry(elem, RequiredBits(max), sparse, val, cur, bits);
      EntriesKeys(elem, max, sparse, walk.m, walk.cur, n - 1, walk.rest);
    }
  }

  // ----- only values that fit come back -----

  /** Whatever schema: a value that comes back over a value-initialized object fits. */
  lemma {:induction false} OnlyFitting(s: Schema, v: Value, rest: Bits)
    requires s.WellFormed() && Shaped(s, v) && TakeFull(s, Default(s), Full(s, v) + rest).Some?
    requires TakeFull(s, Default(s), Full(s, v) + rest).value.0 == v
    ensures Fits(s, v)
    decreases s, 1
  {
    hide TakeItems, TakeFields, TakeAllEntries, TakeText, TakeBytes, TakeNum, Join;
    match s
    case Text => TextFits(v.bytes, rest);
    case FixedArray(e, n) => ItemsFit(e, Default(s).items, v.items, 0, rest);
    case Struct(fs) => FieldsFit(fs, Default(s).items, v.items, 0, rest);
    case ArrayList(e, max) => ListFits(e, max, v.items, rest);
    case Map(e, max) => AllEntriesFit(e, max, false, v.entries, rest);
    case SparseList(e, max) => AllEntriesFit(e, max, true, v.entries, rest);
    case _ =>
  }

  lemma TextFits(text: seq<Byte>, rest: Bits)
    requires TakeText(TextHeader(|text|) + BytesToBits(text) + rest).Some?
    requires TakeText(TextHeader(|text|) + BytesToBits(text) + rest).value.0 == Bytes(text)
    ensures |text| < 0x8000
  {
    hide TakeText, TextHeader, TakeBytes, BytesToBits, Trunc;
    if |text| >= 0x8000 { LongText(text, rest); }
  }

  lemma {:induction false} ItemsKept(elem: Schema, items: seq<Value>, i: nat, bits: Bits)
    requires i <= |items| && TakeItems(elem, items, i, bits).Some?
    ensures forall j :: 0 <= j < i ==> TakeItems(elem, items, i, bits).value.0[j] == items[j]
    decreases |items| - i
  {
    hide TakeFull;
    if i < |items| {
      var (v, rest) := TakeFull(elem, items[i], bits).value;
      ItemsKept(elem, items[i := v], i + 1, rest);
    }
  }

  lemma {:induction false} ItemsFit(elem: Schema, olds: seq<Value>, items: seq<Value>, i: nat, rest: Bits)
    requires elem.WellFormed() && AllShaped(elem, items) && |olds| == |items| && i <= |items|
    requires forall j :: i <= j < |items| ==> olds[j] == Default(elem)
    requires
      var r := TakeItems(elem, olds, i, Join(ItemParts(elem, items), i, |items|) + rest);
      r.Some? && r.value.0 == items
    ensures forall j :: i <= j < |items| ==> Fits(elem, items[j])
    decreases elem, 2, |items| - i
  {
    hide TakeFull, Full, Default, Shaped, Fits;
    if i < |items| {
      var parts := ItemParts(elem, items);
      var tail := Join(parts, i + 1, |items|) + rest;
      JoinFrom(parts, i, |items|, rest);
      var (v, r) := TakeFull(elem, olds[i], Full(elem, items[i]) + tail).value;
      ItemsKept(elem, olds[i := v], i + 1, r);
      OnlyFitting(elem, items[i], tail);
      DecodeOverDefault(elem, items[i], tail);
      ItemsFit(elem, olds[i := v], items, i + 1, rest);
    }
  }

  lemma {:induction false} FieldsKept(fields: seq<Schema>, items: seq<Value>, i: nat, bits: Bits)
    requires i <= |items| == |fields| && TakeFields(fields, items, i, bits).Some?
    ensures forall j :: 0 <= j < i ==> TakeFields(fields, items, i, bits).value.0[j] == items[j]
    decreases |items| - i
  {
    hide TakeFull;
    if i < |items| {
      var (v, rest) := TakeFull(fields[i], items[i], bits).value;
      FieldsKept(fields, items[i := v], i + 1, rest);
    }
  }

  lemma {:induction false} FieldsFit(fields: seq<Schema>, olds: seq<Value>, items: seq<Value>, i: nat, rest: Bits)
    requires Struct(fields).WellFormed() && Shaped(Struct(fields), Items(items)) && |olds| == |items| && i <= |items|
    requires forall j :: i <= j < |items| ==> olds[j] == Default(fields[j])
    requires
      var r := TakeFields(fields, olds, i, Join(FieldParts(fields, items), i, |items|) + rest);
      r.Some? && r.value.0 == items
    ensures forall j :: i <= j < |items| ==> Fits(fields[j], items[j])
    decreases fields, 0, |items| - i
  {
    hide TakeFull, Full, Default, Fits;
    if i < |items| {
      var parts := FieldParts(fields, items);
      var tail := Join(parts, i + 1, |items|) + rest;
      JoinFrom(parts, i, |items|, rest);
      var (v, r) := TakeFull(fields[i], olds[i], Full(fields[i], items[i]) + tail).value;
      FieldsKept(fields, olds[i := v], i + 1, r);
      OnlyFitting(fields[i], items[i], tail);
      DecodeOverDefault(fields[i], items[i], tail);
      FieldsFit(fields, olds[i := v], items, i + 1, rest);
    }
  }

  lemma {:induction false} ListFits(elem: Schema, max: nat, items: seq<Value>, rest: Bits)
    requires elem.WellFormed() && AllShaped(elem, items) && |items| <= max
    requires
      var s := ArrayList(elem, max);
      var r := TakeFull(s, Items([]), Full(s, Items(items)) + rest);
      r.Some? && r.value.0 == Items(items)
    ensures forall j :: 0 <= j < |items| ==> Fits(elem, items[j])
    decreases elem, 3
  {
    hide TakeItems, TakeNum, ItemParts, ToBits, Default, Shaped, Fits;
    var n, parts := |items|, ItemParts(elem, items);
    ConcatAssoc(ToBits(n, RequiredBits(max)), JoinAll(parts), rest);
    TakeCountBack(n, max, JoinAll(parts) + rest);
    ItemsFit(elem, Resize(elem, [], n), items, 0, rest);
  }

  // ----- maps and sparse lists -----

  lemma {:induction false} AllEntriesFit(elem: Schema, max: nat, sparse: bool, m: map<nat, Value>, rest: Bits)
    requires elem.WellFormed() && MapShaped(elem, m)
    requires
      var r := TakeAllEntries(elem, RequiredBits(max), sparse, map[], FullEntries(elem, RequiredBits(max), m) + rest);
      r.Some? && r.value.0 == m
    ensures EntriesFit(elem, max, sparse, m)
    decreases elem, 4
  {
    hide TakeEntries, TakeNum, ToBits, EntryParts, MapShaped, Fits, HighestIndex, Finish, KeysTaken, KeyFits, Trunc,
          Pow2, RequiredBits;
    var width, bound := RequiredBits(max), HighestIndex(m) + 1;
    var parts := EntryParts(elem, width, m, bound);
    var n, tail := Trunc(|m|, width), JoinAll(parts) + rest;
    ConcatAssoc(ToBits(|m|, width), JoinAll(parts), rest);
    TakeWritten(|m|, width, tail);
    var walk := TakeEntries(elem, width, sparse, map[], 0, n, tail);
    FinishSize(sparse, walk.m, walk.cur);
    EntriesSize(elem, width, sparse, map[], 0, n, tail);
    TruncBelow(|m|, width);
    EntriesCounted(elem, width, m, bound);
    EmptyTaken(max, sparse);
    EntriesKeys(elem, max, sparse, map[], 0, n, tail);
    TakenFit(max, sparse, m, walk.cur);
    assert Below(m, 0) == map[];
    ElementsFit(elem, max, sparse, m, bound, 0, rest);
  }

  lemma TruncBelow(v: nat, n: nat)
    ensures Trunc(v, n) <= v && (Trunc(v, n) == v ==> v < Pow2(n))
  {
    TruncIsRemainder(v, n);
    TruncBound(v, n);
  }

  lemma EmptyTaken(max: nat, sparse: bool)
    ensures KeysTaken(max, sparse, map[], 0)
  {
  }

  lemma TakenFit(max: nat, sparse: bool, m: map<nat, Value>, cur: nat)
    requires KeysTaken(max, sparse, m, cur)
    ensures forall k :: k in m ==> KeyFits(max, sparse, m, k)
  {
  }

  /** With as many entries as were read, none was decoded over another, and the walk meets
      every element where its encoding starts. */
  lemma {:induction false} ElementsFit(elem: Schema, max: nat, sparse: bool, m: map<nat, Value>, bound: nat, j: nat,
      rest: Bits)
    requires elem.WellFormed() && MapShaped(elem, m) && j <= bound
    requires forall k :: k in m ==> k < bound && KeyFits(max, sparse, m, k)
    requires
      var parts := EntryParts(elem, RequiredBits(max), m, bound);
      var n := Nonempty(parts, j, bound);
      var walk := TakeEntries(elem, RequiredBits(max), sparse, Below(m, j), Passed(m, j), n,
        Join(parts, j, bound) + rest);
      walk.Walk? && walk.m == m && |m| == |Below(m, j)| + n
    ensures forall k :: k in m && k >= j ==> Fits(elem, m[k])
    decreases elem, 3, bound - j
  {
    hide TakeEntries, TakeEntry, EntryParts, MapShaped, Fits, KeyFits, Join, Nonempty, Below;
    if j < bound {
      BelowNext(m, j);
      if j in m {
        ElementFits(elem, max, sparse, m, bound, j, rest);
      } else {
        EmptyPart(elem, RequiredBits(max), m, bound, j);
      }
      ElementsFit(elem, max, sparse, m, bound, j + 1, rest);
    }
  }

  lemma BelowNext<T>(m: map<nat, T>, j: nat)
    ensures Below(m, j + 1) == if j in m then Below(m, j)[j := m[j]] else Below(m, j)
    ensures j !in Below(m, j) && |Below(m, j + 1)| == |Below(m, j)| + if j in m then 1 else 0
  {
  }

  lemma EmptyPart(elem: Schema, key_bits: nat, m: map<nat, Value>, bound: nat, j: nat)
    requires j < bound && j !in m
    ensures
      var parts := EntryParts(elem, key_bits, m, bound);
      Join(parts, j, bound) == Join(parts, j + 1, bound) && Nonempty(parts, j, bound) == Nonempty(parts, j + 1, bound)
  {
    hide Full;
    JoinFromEmpty(EntryParts(elem, key_bits, m, bound), j, bound);
  }

  lemma FirstPart(elem: Schema, key_bits: nat, m: map<nat, Value>, bound: nat, j: nat, rest: Bits)
    requires key_bits > 0 && j < bound && j in m
    ensures
      var parts := EntryParts(elem, key_bits, m, bound);
      && Join(parts, j, bound) + rest == ToBits(j, key_bits) + (Full(elem, m[j]) + (Join(parts, j + 1, bound) + rest))
      && Nonempty(parts, j, bound) == Nonempty(parts, j + 1, bound) + 1
  {
    hide Full, EntryParts, ToBits;
    var parts := EntryParts(elem, key_bits, m, bound);
    PartNonempty(elem, key_bits, m, bound, j);
    JoinFrom(parts, j, bound, rest);
    ConcatAssoc(ToBits(j, key_bits), Full(elem, m[j]), Join(parts, j + 1, bound) + rest);
  }

  lemma {:induction false} ElementFits(elem: Schema, max: nat, sparse: bool, m: map<nat, Value>, bound: nat, j: nat,
      rest: Bits)
    requires elem.WellFormed() && MapShaped(elem, m) && j < bound && j in m && KeyFits(max, sparse, m, j)
    requires
      var parts := EntryParts(elem, RequiredBits(max), m, bound);
      var n := Nonempty(parts, j, bound);
      var walk := TakeEntries(elem, RequiredBits(max), sparse, Below(m, j), Passed(m, j), n,
        Join(parts, j, bound) + rest);
      walk.Walk? && walk.m == m && |m| == |Below(m, j)| + n
    ensures Fits(elem, m[j])
    ensures
      var parts := EntryParts(elem, RequiredBits(max), m, bound);
      && Nonempty(parts, j, bound) == Nonempty(parts, j + 1, bound) + 1
      && TakeEntries(elem, RequiredBits(max), sparse, Below(m, j), Passed(m, j), Nonempty(parts, j, bound),
             Join(parts, j, bound) + rest)
           == TakeEntries(elem, RequiredBits(max), sparse, Below(m, j + 1), Passed(m, j + 1),
                Nonempty(parts, j + 1, bound), Join(parts, j + 1, bound) + rest)
    decreases elem, 2
  {
    hide TakeEntries, TakeFull, EntryParts, MapShaped, Fits, Full, Default, Join, Nonempty, KeyFits, Below,
          RequiredBits;
    var width := RequiredBits(max);
    var parts := EntryParts(elem, width, m, bound);
    var tail := Join(parts, j + 1, bound) + rest;
    FirstEntryRead(elem, max, sparse, m, bound, j, rest);
    var (v, r) := TakeFull(elem, Default(elem), Full(elem, m[j]) + tail).value;
    BelowNext(m, j);
    EntriesSize(elem, width, sparse, Below(m, j)[j := v], j + 1, Nonempty(parts, j + 1, bound), r);
    assert j in Below(m, j)[j := v];
    ValueShaped(elem, m, j);
    OnlyFitting(elem, m[j], tail);
    DecodeOverDefault(elem, m[j], tail);
  }

  /** The first of the entries ahead is read where it was written, over a new element. */
  lemma FirstEntryRead(elem: Schema, max: nat, sparse: bool, m: map<nat, Value>, bound: nat, j: nat, rest: Bits)
    requires j < bound && j in m && KeyFits(max, sparse, m, j)
    requires
      var parts := EntryParts(elem, RequiredBits(max), m, bound);
      TakeEntries(elem, RequiredBits(max), sparse, Below(m, j), Passed(m, j), Nonempty(parts, j, bound),
        Join(parts, j, bound) + rest).Walk?
    ensures
      var parts := EntryParts(elem, RequiredBits(max), m, bound);
      var r := TakeFull(elem, Default(elem), Full(elem, m[j]) + (Join(parts, j + 1, bound) + rest));
      && r.Some?
      && Nonempty(parts, j, bound) == Nonempty(parts, j + 1, bound) + 1
      && TakeEntries(elem, RequiredBits(max), sparse, Below(m, j), Passed(m, j), Nonempty(parts, j, bound),
             Join(parts, j, bound) + rest)
           == TakeEntries(elem, RequiredBits(max), sparse, Below(m, j)[j := r.value.0], j + 1,
                Nonempty(parts, j + 1, bound), r.value.1)
  {
    hide TakeEntries, TakeFull, TakeNum, EntryParts, ToBits, Full, Default, Join, Nonempty, Pow2, RequiredBits, Trunc;
    var width := RequiredBits(max);
    var parts := EntryParts(elem, width, m, bound);
    var body := Full(elem, m[j]) + (Join(parts, j + 1, bound) + rest);
    FirstPart(elem, width, m, bound, j, rest);
    KeyBack(max, sparse, Passed(m, j), j, body);
    DropNone(m, j);
    OverDefault(elem, m, j);
    EntryWalked(elem, width, sparse, Below(m, j), Passed(m, j), Nonempty(parts, j, bound), Join(parts, j, bound) + rest,
      Trunc(j, width), j, body);
  }

  lemma ValueShaped(elem: Schema, m: map<nat, Value>, j: nat)
    requires MapShaped(elem, m) && j in m
    ensures Shaped(elem, m[j])
  {
  }

  lemma DropNone(m: map<nat, Value>, j: nat)
    ensures DropRange(Below(m, j), Passed(m, j), j) == Below(m, j)
  {
  }

  lemma OverDefault(elem: Schema, m: map<nat, Value>, j: nat)
    ensures EntryOrDefault(elem, Below(m, j), j) == Default(elem)
  {
    hide Default;
  }

  /** A walk that got through has read its first entry. */
  lemma EntryWalked(elem: Schema, key_bits: nat, sparse: bool, val: map<nat, Value>, cur: nat, n: nat, bits: Bits,
      k: nat, index: nat, b: Bits)
    requires n > 0 && TakeEntries(elem, key_bits, sparse, val, cur, n, bits).Walk?
    requires TakeNum(bits, key_bits) == Some((k, b))
    requires index >= cur && index == if sparse && k < cur then cur else k
    ensures
      var r := TakeFull(elem, EntryOrDefault(elem, val, index), b);
      && r.Some?
      && TakeEntries(elem, key_bits, sparse, val, cur, n, bits)
           == TakeEntries(elem, key_bits, sparse, DropRange(val, cur, index)[index := r.value.0], index + 1, n - 1,
                r.value.1)
  {
    hide TakeNum, TakeFull, EntryOrDefault;
  }

  // ----- exactly -----

  /** For every schema: a value comes back over a value-initialized object, and its encoding
      is consumed exactly, if and only if it fits. */
  lemma FullExactly(s: Schema, v: Value, rest: Bits)
    requires s.WellFormed() && Shaped(s, v)
    ensures TakeFull(s, Default(s), Full(s, v) + rest) == Some((v, rest)) <==> Fits(s, v)
  {
    hide TakeFull, Full, Default, Fits, Shaped;
    if Fits(s, v) {
      DecodeOverDefault(s, v, rest);
    } else if TakeFull(s, Default(s), Full(s, v) + rest) == Some((v, rest)) {
      OnlyFitting(s, v, rest);
    }
  }

  /** For maps: fewer entries than the count field holds, and every key within the key width. */
  lemma MapKeysExact(elem: Schema, max: nat, m: map<nat, Value>, rest: Bits)
    requires Map(elem, max).WellFormed() && forall k :: k in m ==> Fits(elem, m[k])
    ensures TakeFull(Map(elem, max), Entries(map[]), Full(Map(elem, max), Entries(m)) + rest)
         == Some((Entries(m), rest))
       <==> |m| < Pow2(RequiredBits(max)) && forall k :: k in m ==> k < Pow2(RequiredBits(max))
  {
    hide TakeFull, Full, Fits;
    FitsShaped(elem, m);
    FullExactly(Map(elem, max), Entries(m), rest);
    MapFits(elem, max, false, m);
  }

  /** A map whose only key is the first beyond the key width arrives with the key 0 instead. */
  lemma LostKey(elem: Schema, max: nat, v: Value, rest: Bits)
    requires Map(elem, max).WellFormed() && Fits(elem, v)
    ensures
      var key := Pow2(RequiredBits(max));
      TakeFull(Map(elem, max), Entries(map[]), Full(Map(elem, max), Entries(map[key := v])) + rest)
        == Some((Entries(map[0 := v]), rest))
  {
    hide TakeFull, TakeEntries, TakeEntry, TakeNum, Full, FullEntries, EntryParts, ToBits, HighestIndex, Fits, Default,
          Join, Pow2;
    var width, key := RequiredBits(max), Pow2(RequiredBits(max));
    var m, none: map<nat, Value>, zero: map<nat, Value> := map[key := v], map[], map[0 := v];
    var tail := Full(elem, v) + rest;
    OneEntry(elem, width, m, key, v, rest);
    WidthHolds(max);
    TakeWritten(1, width, ToBits(key, width) + tail);
    TakeWritten(key, width, tail);
    TruncBound(1, width);
    TruncAll(width);
    DecodeOverDefault(elem, v, rest);
    TakeEntryStep(elem, width, false, none, 0, ToBits(key, width) + tail, 0, 0, tail, v, rest);
    assert DropRange(none, 0, 0)[0 := v] == zero;
    TakeEntriesStep(elem, width, false, none, 0, 1, ToBits(key, width) + tail, zero, 1, rest);
    TakeEntriesEnd(elem, width, false, zero, 1, rest);
    TakeAllStep(elem, width, false, none, FullEntries(elem, width, m) + rest, 1, ToBits(key, width) + tail, zero,
      1, rest);
    assert Finish(false, zero, 1) == zero;
    TakeMapStep(elem, max, none, m, FullEntries(elem, width, m) + rest, zero, rest);
  }

  /** The encoding of a single entry. */
  lemma OneEntry(elem: Schema, key_bits: nat, m: map<nat, Value>, key: nat, v: Value, rest: Bits)
    requires key_bits > 0 && m == map[key := v]
    ensures FullEntries(elem, key_bits, m) + rest
         == ToBits(1, key_bits) + (ToBits(key, key_bits) + (Full(elem, v) + rest))
  {
    hide Full, EntryParts, ToBits, HighestIndex;
    var bound := HighestIndex(m) + 1;
    var parts := EntryParts(elem, key_bits, m, bound);
    assert key in m && HighestIndex(m) in m;
    assert m == map[][key := v];
    SkipEmpty(elem, key_bits, m, bound, 0, key);
    FirstPart(elem, key_bits, m, bound, key, rest);
    JoinEnd(parts, bound, rest);
    ConcatAssoc(ToBits(1, key_bits), JoinAll(parts), rest);
  }

  lemma {:induction false} SkipEmpty(elem: Schema, key_bits: nat, m: map<nat, Value>, bound: nat, i: nat, j: nat)
    requires i <= j <= bound && forall k :: i <= k < j ==> k !in m
    ensures
      var parts := EntryParts(elem, key_bits, m, bound);
      Join(parts, i, bound) == Join(parts, j, bound)
    decreases j - i
  {
    hide EntryParts, Join;
    if i < j {
      EmptyPart(elem, key_bits, m, bound, i);
      SkipEmpty(elem, key_bits, m, bound, i + 1, j);
    }
  }

  /** For sparse lists: an index beyond the key width arrives right behind another. */
  lemma SparseKeysExact(elem: Schema, max: nat, m: map<nat, Value>, rest: Bits)
    requires SparseList(elem, max).WellFormed() && KeysBelow(m, 0x7FFF_FFFF) && forall k :: k in m ==> Fits(elem, m[k])
    ensures
      TakeFull(SparseList(elem, max), Entries(map[]), Full(SparseList(elem, max), Entries(m)) + rest)
        == Some((Entries(m), rest))
      <==>
      && |m| < Pow2(RequiredBits(max))
      && forall k :: k in m ==> k < Pow2(RequiredBits(max)) || (k > 0 && k - 1 in m)
  {
    hide TakeFull, Full, Fits;
    FitsShaped(elem, m);
    FullExactly(SparseList(elem, max), Entries(m), rest);
    MapFits(elem, max, true, m);
  }

  lemma FitsShaped(elem: Schema, m: map<nat, Value>)
    requires forall k :: k in m ==> Fits(elem, m[k])
    ensures MapShaped(elem, m)
  {
  }

  lemma MapFits(elem: Schema, max: nat, sparse: bool, m: map<nat, Value>)
    requires MapShaped(elem, m) && (sparse ==> KeysBelow(m, 0x7FFF_FFFF))
    ensures Fits(if sparse then SparseList(elem, max) else Map(elem, max), Entries(m))
       <==> EntriesFit(elem, max, sparse, m)
  {
  }
}
