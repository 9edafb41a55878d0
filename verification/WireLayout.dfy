/** What the two formats look like on the wire: widths, flags, counts and order. */
module WireLayouts {
  import opened BitUtil
  import opened BitStream
  import opened Joins
  import opened Schemas
  import opened CodecSpec
  import opened EncodingParts
  import opened Wrappers

  // ----- leaves -----

  lemma FlagLayout(b: bool)
    ensures Full(Bool, Flag(b)) == [b]
  {
    FullFlag(b);
    OneBit(b);
  }

  lemma OneBit(b: bool)
    ensures ToBits(if b then 1 else 0, 1) == [b]
  {
    ToBitsAt(if b then 1 else 0, 1, 0);
  }

  /** The distance from the lower bound, in the width of the whole range. */
  lemma NumberLayout(low: int, high: int, n: int)
    requires low <= n <= high
    ensures |Full(Ranged(low, high), Number(n))| == RequiredBits(high - low)
    ensures FromBits(Full(Ranged(low, high), Number(n))) == n - low
  {
    hide ToBits, FromBits, RequiredBits;
    FullNumber(low, high, n);
    RequiredBitsFit(high - low);
    FromToBits(n - low, RequiredBits(high - low));
    TruncBound(n - low, RequiredBits(high - low));
  }

  lemma BytesLayout(bytes: seq<Byte>, i: nat)
    requires i < 8 * |bytes|
    ensures |Full(Pod(|bytes|), Bytes(bytes))| == 8 * |bytes|
    ensures Full(Pod(|bytes|), Bytes(bytes))[i] == BitAt(bytes[i / 8], i % 8)
  {
    FullBytes(|bytes|, bytes);
    BytesToBitsAt(bytes, i);
  }

  /** A string below 128 bytes has a header of one byte, any other one of two: the flag says
      which, and the length, cut to 15 bits, is behind it. */
  lemma TextLayout(text: seq<Byte>)
    ensures
      var t, w := Full(Text, Bytes(text)), if |text| < 128 then 7 else 15;
      && |t| == 1 + w + 8 * |text| && (t[0] <==> |text| >= 128)
      && FromBits(t[1..1 + w]) == |text| % 0x8000
      && t[1 + w..] == BytesToBits(text)
  {
    hide ToBits, FromBits, BytesToBits, Pow2, Full;
    var n, w := |text|, if |text| < 128 then 7 else 15;
    var length := ToBits(n, w);
    FullBytes(n, text);
    OneBit(n >= 128);
    assert TextHeader(n) == [n >= 128] + length;
    HeaderParts([n >= 128], length, BytesToBits(text));
    FromToBits(n, w);
    TruncIsRemainder(n, w);
    FieldWidths();
    if n < 128 {
      QuotientUnique(n, 0, n, 128);
      QuotientUnique(n, 0, n, 0x8000);
    }
  }

  lemma FieldWidths()
    ensures Pow2(7) == 128 && Pow2(15) == 0x8000
  {
    ByteBound();
    HalfWordConstants();
    assert 2 * Pow2(7) == Pow2(8) && 2 * Pow2(15) == Pow2(16);
  }

  lemma HeaderParts(flag: Bits, length: Bits, body: Bits)
    requires |flag| == 1
    ensures
      var t := flag + length + body;
      t[0] == flag[0] && t[1..1 + |length|] == length && t[1 + |length|..] == body
  {
  }

  // ----- order -----

  /** One more item at the end of an array is encoded behind the others. */
  lemma ItemsInOrder(elem: Schema, n: nat, items: seq<Value>, x: Value)
    ensures Full(FixedArray(elem, n + 1), Items(items + [x])) == Full(FixedArray(elem, n), Items(items)) + Full(elem, x)
  {
    hide Full;
    FullArray(elem, n, items);
    FullArray(elem, n + 1, items + [x]);
    OneMorePart(ItemParts(elem, items), ItemParts(elem, items + [x]), Full(elem, x));
  }

  lemma FieldsInOrder(fields: seq<Schema>, f: Schema, items: seq<Value>, x: Value)
    requires |items| == |fields|
    ensures Full(Struct(fields + [f]), Items(items + [x])) == Full(Struct(fields), Items(items)) + Full(f, x)
  {
    hide Full;
    FullStruct(fields, items);
    FullStruct(fields + [f], items + [x]);
    OneMorePart(FieldParts(fields, items), FieldParts(fields + [f], items + [x]), Full(f, x));
  }

  lemma OneMorePart(parts: seq<Bits>, more: seq<Bits>, last: Bits)
    requires more == parts + [last]
    ensures JoinAll(more) == JoinAll(parts) + last
  {
    JoinSnoc(more, 0, |parts|);
    SamePrefix(parts, more, 0, |parts|);
  }

  lemma {:induction false} SamePrefix(a: seq<Bits>, b: seq<Bits>, lo: nat, hi: nat)
    requires lo <= hi <= |a| && hi <= |b| && forall i :: lo <= i < hi ==> a[i] == b[i]
    ensures Join(a, lo, hi) == Join(b, lo, hi) && Nonempty(a, lo, hi) == Nonempty(b, lo, hi)
    decreases hi - lo
  {
    if lo < hi { SamePrefix(a, b, lo + 1, hi); }
  }

  /** A list starts with its length, in the width of its maximum size. */
  lemma ListLayout(elem: Schema, max: nat, items: seq<Value>)
    requires |items| <= max
    ensures
      var t, w := Full(ArrayList(elem, max), Items(items)), RequiredBits(max);
      && w <= |t| && FromBits(t[..w]) == |items|
      && t[w..] == Full(FixedArray(elem, |items|), Items(items))
  {
    hide Full, ToBits, FromBits, RequiredBits;
    FullList(elem, max, items);
    FullArray(elem, |items|, items);
    RequiredBitsFit(max);
    CountRead(|items|, RequiredBits(max));
  }

  lemma CountRead(n: nat, w: nat)
    requires n < Pow2(w)
    ensures FromBits(ToBits(n, w)) == n
  {
    FromToBits(n, w);
    TruncBound(n, w);
  }

  /** A map or sparse list starts with the number of its entries; an entry with a larger key
      than all others comes last, behind its key. */
  lemma EntriesLayout(elem: Schema, max: nat, m: map<nat, Value>, k: nat, v: Value)
    requires forall j :: j in m ==> j < k
    ensures
      var w, t, t' := RequiredBits(max), Full(Map(elem, max), Entries(m)), Full(Map(elem, max), Entries(m[k := v]));
      && w <= |t| && FromBits(t[..w]) == |m| % Pow2(w)
      && w <= |t'| && t'[w..] == t[w..] + (ToBits(k, w) + Full(elem, v))
    ensures forall m' :: Full(SparseList(elem, max), Entries(m')) == Full(Map(elem, max), Entries(m'))
  {
    hide Full, ToBits, FromBits, RequiredBits, HighestIndex, EntryParts;
    var w, m' := RequiredBits(max), m[k := v];
    FullMap(elem, max, m);
    FullMap(elem, max, m');
    FromToBits(|m|, w);
    TruncIsRemainder(|m|, w);
    forall x ensures Full(SparseList(elem, max), Entries(x)) == Full(Map(elem, max), Entries(x)) {
      FullMap(elem, max, x);
    }
    assert HighestIndex(m') == k by { assert k in m'; }
    LastEntry(elem, w, m, k, v);
  }

  lemma LastEntry(elem: Schema, w: nat, m: map<nat, Value>, k: nat, v: Value)
    requires forall j :: j in m ==> j < k
    ensures JoinAll(EntryParts(elem, w, m[k := v], k + 1))
      == JoinAll(EntryParts(elem, w, m, HighestIndex(m) + 1)) + (ToBits(k, w) + Full(elem, v))
  {
    hide Full, ToBits, HighestIndex, EntryParts;
    var m', h := m[k := v], HighestIndex(m) + 1;
    var parts, more := EntryParts(elem, w, m, h), EntryParts(elem, w, m', k + 1);
    forall i | 0 <= i < h ensures parts[i] == more[i] {
      EntryPartAt(elem, w, m, h, i);
      EntryPartAt(elem, w, m', k + 1, i);
    }
    forall i | h <= i < k ensures more[i] == [] { EntryPartAt(elem, w, m', k + 1, i); }
    EntryPartAt(elem, w, m', k + 1, k);
    SamePrefix(parts, more, 0, h);
    JoinSkip(more, h, k);
    JoinSnoc(more, 0, k);
  }

  lemma EntryPartAt(elem: Schema, w: nat, m: map<nat, Value>, bound: nat, k: nat)
    requires k < bound
    ensures EntryParts(elem, w, m, bound)[k] == if k in m then ToBits(k, w) + Full(elem, m[k]) else []
  {
    hide Full, ToBits;
  }

  // ----- one part -----

  /** A single nonempty part is all there is. */
  lemma OnlyPart(parts: seq<Bits>, i: nat)
    requires i < |parts| && parts[i] != [] && forall j :: 0 <= j < |parts| && j != i ==> parts[j] == []
    ensures JoinAll(parts) == parts[i] && CountAll(parts) == 1
  {
    JoinSkip(parts, 0, i);
    JoinSnoc(parts, 0, i);
    JoinSkip(parts, i + 1, |parts|);
  }

  lemma OneRecord(elem: Schema, w: nat, to: map<nat, Value>, from: map<nat, Value>, bound: nat, k: nat)
    requires w > 0 && k < bound && DifferAt(to, from, k)
    ensures CountAll(EntryDeltas(elem, w, to, from, bound)) == 1
    ensures JoinAll(EntryDeltas(elem, w, to, from, bound)) == EntryDelta(elem, w, to, from, k)
  {
    hide EntryDelta, EntryDeltas;
    var parts := EntryDeltas(elem, w, to, from, bound);
    forall j | 0 <= j < bound ensures parts[j] == [] <==> j != k {
      EntryDeltaAt(elem, w, to, from, bound, j);
      EntryDeltaEmpty(elem, w, to, from, j);
    }
    EntryDeltaAt(elem, w, to, from, bound, k);
    OnlyPart(parts, k);
  }

  /** What follows the index in a record: a new value in full, a 0 for a removal, and a 1 with
      the difference for a change. */
  lemma RecordLayout(elem: Schema, w: nat, to: map<nat, Value>, from: map<nat, Value>, k: nat)
    ensures k in to && k !in from ==> EntryDelta(elem, w, to, from, k) == ToBits(k, w) + Full(elem, to[k])
    ensures k !in to && k in from ==> EntryDelta(elem, w, to, from, k) == ToBits(k, w) + [false]
    ensures k in to && k in from && to[k] != from[k] ==>
      EntryDelta(elem, w, to, from, k) == ToBits(k, w) + [true] + Delta(elem, to[k], from[k])
  {
    hide Full, Delta;
    OneBit(false);
    OneBit(true);
  }

  // ----- structs -----

  /** A struct starts with the number of changed fields; a single one follows behind its index. */
  lemma StructLayout(fields: seq<Schema>, to: seq<Value>, from: seq<Value>, i: nat)
    requires i < |fields| == |to| == |from| && to[i] != from[i]
    requires forall j :: 0 <= j < |fields| && j != i ==> to[j] == from[j]
    ensures
      var w := RequiredBits(|fields|);
      Delta(Struct(fields), Items(to), Items(from)) == ToBits(1, w) + (ToBits(i, w) + Delta(fields[i], to[i], from[i]))
  {
    hide FieldDeltas, ToBits;
    var parts := FieldDeltas(fields, to, from);
    forall j | 0 <= j < |fields| ensures parts[j] == [] <==> j != i {
      FieldDeltaAt(fields, to, from, j);
    }
    FieldDeltaAt(fields, to, from, i);
    OnlyPart(parts, i);
  }

  /** How many fields have changed. */
  lemma StructCount(fields: seq<Schema>, to: seq<Value>, from: seq<Value>)
    requires |fields| == |to| == |from| && to != from
    ensures
      var d, w := Delta(Struct(fields), Items(to), Items(from)), RequiredBits(|fields|);
      w <= |d| && FromBits(d[..w]) == |set i: nat | i < |fields| && to[i] != from[i]|
  {
    hide FieldDeltas, ToBits, FromBits, RequiredBits, Nonempty;
    assert ChangedBelow(to, from, |fields|) == set i: nat | i < |fields| && to[i] != from[i];
    var parts, w := FieldDeltas(fields, to, from), RequiredBits(|fields|);
    ChangedCounted(fields, to, from, |fields|);
    CountBelow(parts);
    RequiredBitsFit(|fields|);
    CountRead(CountAll(parts), w);
    DeltaOfStruct(fields, to, from);
  }

  lemma CountBelow(parts: seq<Bits>)
    ensures CountAll(parts) <= |parts|
  {
  }

  lemma DeltaOfStruct(fields: seq<Schema>, to: seq<Value>, from: seq<Value>)
    requires to != from
    ensures
      var parts, w := FieldDeltas(fields, to, from), RequiredBits(|fields|);
      Delta(Struct(fields), Items(to), Items(from)) == ToBits(CountAll(parts), w) + JoinAll(parts)
  {
    hide FieldDeltas;
  }

  ghost function ChangedBelow(to: seq<Value>, from: seq<Value>, n: nat): set<nat>
    requires n <= |to| == |from|
  {
    set i: nat | i < n && to[i] != from[i]
  }

  lemma ChangedNext(to: seq<Value>, from: seq<Value>, n: nat)
    requires n < |to| == |from|
    ensures |ChangedBelow(to, from, n + 1)| == |ChangedBelow(to, from, n)| + if to[n] == from[n] then 0 else 1
  {
    var before := ChangedBelow(to, from, n);
    if to[n] == from[n] {
      assert ChangedBelow(to, from, n + 1) == before;
    } else {
      assert ChangedBelow(to, from, n + 1) == before + {n};
    }
  }

  lemma {:induction false} ChangedCounted(fields: seq<Schema>, to: seq<Value>, from: seq<Value>, n: nat)
    requires n <= |fields| == |to| == |from|
    ensures Nonempty(FieldDeltas(fields, to, from), 0, n) == |ChangedBelow(to, from, n)|
    decreases n
  {
    hide FieldDeltas, ChangedBelow;
    if n == 0 {
      NoneChanged(to, from);
    } else {
      ChangedCounted(fields, to, from, n - 1);
      JoinSnoc(FieldDeltas(fields, to, from), 0, n - 1);
      FieldDeltaAt(fields, to, from, n - 1);
      ChangedNext(to, from, n - 1);
    }
  }

  lemma NoneChanged(to: seq<Value>, from: seq<Value>)
    requires |to| == |from|
    ensures ChangedBelow(to, from, 0) == {}
  {
  }

  // ----- array lists -----

  lemma {:induction false} SameItems(elem: Schema, to: seq<Value>, from: seq<Value>, i: nat, j: nat)
    requires i <= j <= |to| && j <= |from| && forall k :: i <= k < j ==> to[k] == from[k]
    ensures Join(ItemDeltas(elem, to, from), i, j) == Zeros(j - i)
    decreases j - i
  {
    hide ItemDeltas, ToBits;
    if i < j {
      SameItems(elem, to, from, i + 1, j);
      ItemDeltaAt(elem, to, from, i);
      OneBit(false);
    }
  }

  /** A list of the same length: a 0, and then one flag for each item, with the difference
      behind a 1. */
  lemma ListChangeLayout(elem: Schema, max: nat, to: seq<Value>, from: seq<Value>, i: nat)
    requires i < |to| == |from| && to[i] != from[i]
    requires forall j :: 0 <= j < |to| && j != i ==> to[j] == from[j]
    ensures Delta(ArrayList(elem, max), Items(to), Items(from))
         == [false] + (Zeros(i) + ([true] + Delta(elem, to[i], from[i])) + Zeros(|to| - i - 1))
  {
    hide ItemDeltas, ToBits;
    var parts := ItemDeltas(elem, to, from);
    OneBit(false);
    OneBit(true);
    SameItems(elem, to, from, 0, i);
    ItemDeltaAt(elem, to, from, i);
    JoinSnoc(parts, 0, i);
    SameItems(elem, to, from, i + 1, |to|);
    JoinSplit(parts, 0, i + 1, |to|);
  }

  lemma {:induction false} JoinSplit(parts: seq<Bits>, lo: nat, mid: nat, hi: nat)
    requires lo <= mid <= hi <= |parts|
    ensures Join(parts, lo, hi) == Join(parts, lo, mid) + Join(parts, mid, hi)
    decreases mid - lo
  {
    if lo < mid {
      JoinSplit(parts, lo + 1, mid, hi);
      ConcatAssoc(parts[lo], Join(parts, lo + 1, mid), Join(parts, mid, hi));
    }
  }

  /** A longer list: a 1, the new length, a flag for each old item and the new one in full. */
  lemma ListAppendLayout(elem: Schema, max: nat, from: seq<Value>, x: Value)
    ensures Delta(ArrayList(elem, max), Items(from + [x]), Items(from))
         == [true] + ToBits(|from| + 1, RequiredBits(max)) + (Zeros(|from|) + Full(elem, x))
  {
    hide ItemDeltas, ToBits, Full;
    var to := from + [x];
    var parts := ItemDeltas(elem, to, from);
    OneBit(true);
    assert to != from && |to| != |from|;
    SameItems(elem, to, from, 0, |from|);
    ItemDeltaAt(elem, to, from, |from|);
    JoinSnoc(parts, 0, |from|);
    ListDeltaParts(elem, max, to, from);
  }

  lemma ListDeltaParts(elem: Schema, max: nat, to: seq<Value>, from: seq<Value>)
    requires |to| != |from|
    ensures Delta(ArrayList(elem, max), Items(to), Items(from))
         == ToBits(1, 1) + ToBits(|to|, RequiredBits(max)) + JoinAll(ItemDeltas(elem, to, from))
  {
    hide ItemDeltas;
  }

  /** A list cut short: a 1, the new length and a flag for each item that is left. */
  lemma ListCutLayout(elem: Schema, max: nat, from: seq<Value>, n: nat)
    requires n < |from|
    ensures Delta(ArrayList(elem, max), Items(from[..n]), Items(from))
         == [true] + ToBits(n, RequiredBits(max)) + Zeros(n)
  {
    hide ItemDeltas, ToBits;
    OneBit(true);
    SameItems(elem, from[..n], from, 0, n);
    ListDeltaParts(elem, max, from[..n], from);
  }

  // ----- maps and sparse lists -----

  /** A map that differs at one key: the count 1, the key and what has become of it. */
  lemma MapChangeLayout(elem: Schema, max: nat, to: map<nat, Value>, from: map<nat, Value>, k: nat)
    requires DifferAt(to, from, k)
    ensures
      var w := RequiredBits(max);
      Delta(Map(elem, max), Entries(to), Entries(from)) == ToBits(1, w) + EntryDelta(elem, w, to, from, k)
  {
    hide EntryDeltas, EntryDelta, ToBits, HighestIndex;
    BoundAbove(to, from, k);
    OneRecord(elem, RequiredBits(max), to, from, MapBound(to, from), k);
  }

  lemma BoundAbove(to: map<nat, Value>, from: map<nat, Value>, k: nat)
    requires !SameAt(to, from, k)
    ensures k < MapBound(to, from)
  {
    hide HighestIndex;
    assert k in to || k in from;
  }

  /** A sparse list whose highest index `h` is what it was and that differs at one index: a 0,
      the count 1 in the width of `h + 1`, the index in the width of `h`, and a 0 for a removal,
      a new value in full or a 1 with the difference. */
  lemma SparseChangeLayout(elem: Schema, max: nat, to: map<nat, Value>, from: map<nat, Value>, k: nat)
    requires DifferAt(to, from, k) && HighestIndex(to) == HighestIndex(from)
    ensures
      var h := HighestIndex(to);
      && h >= 0
      && Delta(SparseList(elem, max), Entries(to), Entries(from))
           == [false] + ToBits(1, RequiredBits(h + 1)) + (ToBits(k, RequiredBits(h))
              + if k !in to then [false]
                else if k !in from then Full(elem, to[k])
                else [true] + Delta(elem, to[k], from[k]))
  {
    hide EntryDeltas, EntryDelta, ToBits, HighestIndex, Full, Delta;
    var h := HighestIndex(to);
    assert k in to || k in from;
    OneBit(false);
    OneRecord(elem, RequiredBits(h), to, from, h + 1, k);
    RecordLayout(elem, RequiredBits(h), to, from, k);
    SparseDeltaParts(elem, max, to, from);
    ConcatAssoc(ToBits(k, RequiredBits(h)), [true], if k in to && k in from then Delta(elem, to[k], from[k]) else []);
  }

  lemma SparseDeltaParts(elem: Schema, max: nat, to: map<nat, Value>, from: map<nat, Value>)
    requires to != from && HighestIndex(to) >= 0
    ensures
      var h := HighestIndex(to);
      var parts := EntryDeltas(elem, RequiredBits(h), to, from, h + 1);
      Delta(SparseList(elem, max), Entries(to), Entries(from))
        == (if h == HighestIndex(from) then ToBits(0, 1) else ToBits(1, 1) + ToBits(h + 1, RequiredBits(max)))
           + ToBits(CountAll(parts), RequiredBits(h + 1)) + JoinAll(parts)
  {
    hide EntryDeltas, HighestIndex;
  }

  /** A sparse list with a new highest index `k`: a 1, the size `k + 1`, the count 1 in the
      width of `k + 1`, `k` in its own width and the new value in full. */
  lemma SparseAppendLayout(elem: Schema, max: nat, to: map<nat, Value>, from: map<nat, Value>, k: nat)
    requires k in to && to == from[k := to[k]] && k > HighestIndex(from)
    ensures Delta(SparseList(elem, max), Entries(to), Entries(from))
         == [true] + ToBits(k + 1, RequiredBits(max)) + ToBits(1, RequiredBits(k + 1))
            + (ToBits(k, RequiredBits(k)) + Full(elem, to[k]))
  {
    hide EntryDeltas, EntryDelta, ToBits, HighestIndex, Full, Delta;
    assert k !in from && HighestIndex(to) == k;
    OneBit(true);
    assert forall j: nat :: j != k ==> SameAt(to, from, j);
    OneRecord(elem, RequiredBits(k), to, from, k + 1, k);
    RecordLayout(elem, RequiredBits(k), to, from, k);
    SparseDeltaParts(elem, max, to, from);
  }

  /** A sparse list cut below its highest index, with its other entries as they were: a 1, the
      size `h + 1` and no records. */
  lemma SparseCutLayout(elem: Schema, max: nat, from: map<nat, Value>, n: nat)
    requires HighestIndex(from) >= n
    ensures
      var to := Below(from, n);
      var h := HighestIndex(to);
      Delta(SparseList(elem, max), Entries(to), Entries(from))
        == [true] + ToBits(h + 1, RequiredBits(max)) + ToBits(0, RequiredBits(h + 1))
  {
    hide EntryDeltas, EntryDelta, ToBits, HighestIndex;
    var to := Below(from, n);
    var h := HighestIndex(to);
    var parts := EntryDeltas(elem, IndexBits(h), to, from, h + 1);
    assert h < n && HighestIndex(from) in from && HighestIndex(from) !in to;
    OneBit(true);
    NothingChanged(elem, IndexBits(h), to, from, h + 1);
  }

  lemma NothingChanged(elem: Schema, w: nat, to: map<nat, Value>, from: map<nat, Value>, bound: nat)
    requires w > 0 && forall j: nat :: j < bound ==> SameAt(to, from, j)
    ensures JoinAll(EntryDeltas(elem, w, to, from, bound)) == [] && CountAll(EntryDeltas(elem, w, to, from, bound)) == 0
  {
    hide EntryDelta, EntryDeltas;
    var parts := EntryDeltas(elem, w, to, from, bound);
    forall j | 0 <= j < bound ensures parts[j] == [] {
      EntryDeltaAt(elem, w, to, from, bound, j);
      EntryDeltaEmpty(elem, w, to, from, j);
    }
    NonemptyZero(parts, 0, bound);
  }

  // ----- the order of records -----

  /** `to` with the key `k` left as it is in `from`. */
  function Reverted(to: map<nat, Value>, from: map<nat, Value>, k: nat): map<nat, Value>
  {
    if k in from then to[k := from[k]] else Without(to, k)
  }

  lemma RevertedAt(to: map<nat, Value>, from: map<nat, Value>, k: nat, j: nat)
    ensures SameAt(Reverted(to, from, k), if j == k then from else to, j)
  {
  }

  lemma SameRecord(elem: Schema, w: nat, a: map<nat, Value>, b: map<nat, Value>, from: map<nat, Value>, k: nat)
    requires SameAt(a, b, k)
    ensures EntryDelta(elem, w, a, from, k) == EntryDelta(elem, w, b, from, k)
  {
    hide Full, Delta, ToBits;
    assert k in a <==> k in b;
  }

  /** The record of the last key below `bound` that the maps disagree on comes last. */
  lemma LastRecord(elem: Schema, w: nat, to: map<nat, Value>, from: map<nat, Value>, bound: nat, k: nat)
    requires w > 0 && k < bound && !SameAt(to, from, k)
    requires forall j: nat :: k < j < bound ==> SameAt(to, from, j)
    ensures
      var parts := EntryDeltas(elem, w, to, from, bound);
      var fewer := EntryDeltas(elem, w, Reverted(to, from, k), from, bound);
      && JoinAll(parts) == JoinAll(fewer) + EntryDelta(elem, w, to, from, k)
      && CountAll(parts) == CountAll(fewer) + 1
  {
    hide EntryDelta, EntryDeltas, Reverted, SameAt;
    var less := Reverted(to, from, k);
    var parts, fewer := EntryDeltas(elem, w, to, from, bound), EntryDeltas(elem, w, less, from, bound);
    forall j: nat | j < bound
      ensures j != k ==> parts[j] == fewer[j]
      ensures j > k ==> parts[j] == []
      ensures fewer[k] == [] && parts[k] == EntryDelta(elem, w, to, from, k) && parts[k] != []
    {
      RevertedAt(to, from, k, j);
      RevertedAt(to, from, k, k);
      EntryDeltaAt(elem, w, to, from, bound, j);
      EntryDeltaAt(elem, w, to, from, bound, k);
      EntryDeltaAt(elem, w, less, from, bound, j);
      EntryDeltaAt(elem, w, less, from, bound, k);
      if j != k { SameRecord(elem, w, less, to, from, j); }
      EntryDeltaEmpty(elem, w, to, from, j);
      EntryDeltaEmpty(elem, w, to, from, k);
      EntryDeltaEmpty(elem, w, less, from, k);
    }
    SamePrefix(parts, fewer, 0, k);
    JoinSnoc(parts, 0, k);
    JoinSkip(parts, k + 1, bound);
    JoinSkip(fewer, k, bound);
  }

  lemma SpareBound(elem: Schema, w: nat, to: map<nat, Value>, from: map<nat, Value>, b: nat, bound: nat)
    requires w > 0 && b <= bound && forall j: nat :: b <= j < bound ==> SameAt(to, from, j)
    ensures
      var parts, more := EntryDeltas(elem, w, to, from, b), EntryDeltas(elem, w, to, from, bound);
      JoinAll(parts) == JoinAll(more) && CountAll(parts) == CountAll(more)
  {
    hide EntryDelta, EntryDeltas, SameAt;
    var parts, more := EntryDeltas(elem, w, to, from, b), EntryDeltas(elem, w, to, from, bound);
    forall j: nat | j < bound ensures if j < b then parts[j] == more[j] else more[j] == [] {
      if j < b { EntryDeltaAt(elem, w, to, from, b, j); }
      EntryDeltaAt(elem, w, to, from, bound, j);
      EntryDeltaEmpty(elem, w, to, from, j);
    }
    SamePrefix(parts, more, 0, b);
    JoinSkip(more, b, bound);
  }

  /** The differing keys of a map are written in ascending order, and each counts. */
  lemma MapRecordOrder(elem: Schema, max: nat, to: map<nat, Value>, from: map<nat, Value>, k: nat)
    requires !SameAt(to, from, k) && (forall j: nat :: j > k ==> SameAt(to, from, j)) && Reverted(to, from, k) != from
    ensures
      var w, d := RequiredBits(max), Delta(Map(elem, max), Entries(to), Entries(from));
      var d0 := Delta(Map(elem, max), Entries(Reverted(to, from, k)), Entries(from));
      && |d0| >= w && |d| >= w && d[w..] == d0[w..] + EntryDelta(elem, w, to, from, k)
      && FromBits(d[..w]) == (FromBits(d0[..w]) + 1) % Pow2(w)
  {
    hide EntryDelta, EntryDeltas, Reverted, SameAt, MapBound, ToBits, FromBits, RequiredBits, Delta;
    var w, less := RequiredBits(max), Reverted(to, from, k);
    RequiredBitsFit(max);
    RevertedBound(to, from, k);
    LastRecord(elem, w, to, from, MapBound(to, from), k);
    SpareBound(elem, w, less, from, MapBound(less, from), MapBound(to, from));
    DifferentMaps(to, from, k);
    MapDeltaParts(elem, max, to, from);
    MapDeltaParts(elem, max, less, from);
    CountedOnce(CountAll(EntryDeltas(elem, w, less, from, MapBound(less, from))), w);
  }

  lemma DifferentMaps(to: map<nat, Value>, from: map<nat, Value>, k: nat)
    requires !SameAt(to, from, k)
    ensures to != from
  {
  }

  lemma MapDeltaParts(elem: Schema, max: nat, to: map<nat, Value>, from: map<nat, Value>)
    requires to != from
    ensures
      var parts := EntryDeltas(elem, RequiredBits(max), to, from, MapBound(to, from));
      Delta(Map(elem, max), Entries(to), Entries(from)) == ToBits(CountAll(parts), RequiredBits(max)) + JoinAll(parts)
  {
    hide EntryDeltas, MapBound;
  }

  /** One more than a count, as far as its field can hold it. */
  lemma CountedOnce(n: nat, w: nat)
    ensures FromBits(ToBits(n + 1, w)) == (FromBits(ToBits(n, w)) + 1) % Pow2(w)
  {
    hide ToBits, FromBits;
    FromToBits(n, w);
    FromToBits(n + 1, w);
    TruncIsRemainder(n, w);
    TruncIsRemainder(n + 1, w);
    RemainderNext(n, Pow2(w));
  }

  lemma RemainderNext(n: nat, d: nat)
    requires d > 0
    ensures (n + 1) % d == (n % d + 1) % d
  {
    var q, r := n / d, n % d;
    if r + 1 < d {
      QuotientUnique(n + 1, q, r + 1, d);
      QuotientUnique(r + 1, 0, r + 1, d);
    } else {
      assert (q + 1) * d == q * d + d;
      QuotientUnique(n + 1, q + 1, 0, d);
      QuotientUnique(d, 1, 0, d);
    }
  }

  lemma RevertedBound(to: map<nat, Value>, from: map<nat, Value>, k: nat)
    requires !SameAt(to, from, k)
    ensures k < MapBound(to, from) && MapBound(Reverted(to, from, k), from) <= MapBound(to, from)
    ensures forall j: nat :: j >= MapBound(Reverted(to, from, k), from) ==> SameAt(Reverted(to, from, k), from, j)
  {
    hide HighestIndex;
    BoundAbove(to, from, k);
    var less := Reverted(to, from, k);
    assert forall j :: j in less ==> j in to || j in from;
  }

  /** The same for a sparse list that keeps its highest index, behind the flag and the size. */
  lemma SparseRecordOrder(elem: Schema, max: nat, to: map<nat, Value>, from: map<nat, Value>, k: nat)
    requires !SameAt(to, from, k) && k <= HighestIndex(to) == HighestIndex(Reverted(to, from, k))
    requires (forall j: nat :: k < j <= HighestIndex(to) ==> SameAt(to, from, j)) && Reverted(to, from, k) != from
    ensures
      var h, d := HighestIndex(to), Delta(SparseList(elem, max), Entries(to), Entries(from));
      var d0 := Delta(SparseList(elem, max), Entries(Reverted(to, from, k)), Entries(from));
      var l, w := (if h == HighestIndex(from) then 1 else 1 + RequiredBits(max)), RequiredBits(h + 1);
      && |d0| >= l + w && |d| >= l + w && d[..l] == d0[..l]
      && d[l + w..] == d0[l + w..] + EntryDelta(elem, RequiredBits(h), to, from, k)
      && FromBits(d[l..l + w]) == (FromBits(d0[l..l + w]) + 1) % Pow2(w)
  {
    hide EntryDelta, EntryDeltas, Reverted, SameAt, HighestIndex, ToBits, FromBits, RequiredBits, Delta;
    var h, less := HighestIndex(to), Reverted(to, from, k);
    var w := RequiredBits(h + 1);
    RequiredBitsFit(h);
    DifferentMaps(to, from, k);
    LastRecord(elem, RequiredBits(h), to, from, h + 1, k);
    SparseDeltaParts(elem, max, to, from);
    SparseDeltaParts(elem, max, less, from);
    var parts := EntryDeltas(elem, RequiredBits(h), to, from, h + 1);
    var fewer := EntryDeltas(elem, RequiredBits(h), less, from, h + 1);
    CountedOnce(CountAll(fewer), w);
    var header := if h == HighestIndex(from) then ToBits(0, 1) else ToBits(1, 1) + ToBits(h + 1, RequiredBits(max));
    ThreeParts(header, ToBits(CountAll(parts), w), JoinAll(parts));
    ThreeParts(header, ToBits(CountAll(fewer), w), JoinAll(fewer));
  }

  lemma ThreeParts(a: Bits, b: Bits, c: Bits)
    ensures
      var t := a + b + c;
      t[..|a|] == a && t[|a|..|a| + |b|] == b && t[|a| + |b|..] == c
  {
  }

  /** The index width of an empty list, on the decoder's side: a record that nobody sends is
      read with an index of 32 bits. */
  lemma EmptyIndexWidth(elem: Schema, max: nat, rest: Bits)
    ensures TakeDelta(SparseList(elem, max), Entries(map[]), [false, true] + rest)
         == if |rest| < 32 then None
            else
              var r := TakeFull(elem, Default(elem), rest[32..]);
              if r.None? then None else Some((Entries(map[]), r.value.1))
  {
    hide TakeFull, Default, HighestIndex, FromBits, TakeRecords, IndexBits;
    var none: map<nat, Value> := map[];
    var bits := [false, true] + rest;
    assert HighestIndex(none) == -1;
    assert bits[..1] == [false] && bits[1..] == [true] + rest;
    assert bits[1..][..1] == [true] && bits[1..][1..] == rest;
    BitRead(false);
    BitRead(true);
    assert RequiredBits(0) == 1;
    EmptyWidth();
    OneRecordRead(elem, none, rest, IndexBits(-1));
    forall m: map<nat, Value> ensures Below(m, 0) == none {
    }
  }

  lemma EmptyWidth()
    ensures IndexBits(-1) == 32
  {
  }

  lemma BitRead(b: bool)
    ensures FromBits([b]) == if b then 1 else 0
  {
    assert [b][1..] == [];
  }

  lemma OneRecordRead(elem: Schema, m: map<nat, Value>, rest: Bits, w: nat)
    requires m == map[]
    ensures TakeRecords(elem, w, m, 1, rest)
         == if |rest| < w then None
            else
              var r := TakeFull(elem, Default(elem), rest[w..]);
              if r.None? then None else Some((m[FromBits(rest[..w]) := r.value.0], r.value.1))
  {
    hide TakeFull, Default, FromBits;
    RecordsOfOne(elem, w, m, rest, 1);
  }

  lemma RecordsOfOne(elem: Schema, w: nat, m: map<nat, Value>, bits: Bits, n: nat)
    requires n == 1
    ensures TakeRecords(elem, w, m, n, bits) == TakeRecord(elem, w, m, bits)
  {
    hide TakeRecord;
    var r := TakeRecord(elem, w, m, bits);
    if r.Some? { NoRecords(elem, w, r.value.0, r.value.1, n - 1); }
  }

  lemma NoRecords(elem: Schema, w: nat, m: map<nat, Value>, bits: Bits, n: nat)
    requires n == 0
    ensures TakeRecords(elem, w, m, n, bits) == Some((m, bits))
  {
    hide TakeRecord;
  }
}
