/** Exactly which changes the delta format carries. */
module DeltaExact {
  import opened BitUtil
  import opened BitStream
  import opened Joins
  import opened Schemas
  import opened CodecSpec
  import opened EncodingParts
  import opened FullRoundTrip
  import opened FullLimits
  import opened DeltaRoundTrip
  import opened Wrappers

  /** Whatever schema: a changed value that comes back from its delta fits the format. */
  lemma {:induction false} OnlyFittingDelta(s: Schema, to: Value, from: Value, rest: Bits)
    requires s.WellFormed() && Shaped(s, to) && Shaped(s, from) && to != from
    requires
      var r := TakeDelta(s, from, Delta(s, to, from) + rest);
      r.Some? && r.value.0 == to
    ensures DeltaFits(s, to, from)
    decreases s, 1
  {
    match s
    case FixedArray(e, n) => ArrayFits(e, n, to.items, from.items, rest);
    case Struct(fs) => StructFits(fs, to.items, from.items, rest);
    case ArrayList(e, max) => ListDeltaFits(e, max, to.items, from.items, rest);
    case Map(e, max) => MapChangeFits(e, max, to.entries, from.entries, rest);
    case SparseList(e, max) => SparseChangeFits(e, max, to.entries, from.entries, rest);
    case _ => LeafFits(s, to, from, rest);
  }

  // ----- types without a delta format -----

  lemma LeafFits(s: Schema, v: Value, old_val: Value, rest: Bits)
    requires s.Leaf() && s.WellFormed() && Shaped(s, v)
    requires TakeFull(s, old_val, Full(s, v) + rest).Some? && TakeFull(s, old_val, Full(s, v) + rest).value.0 == v
    ensures Fits(s, v)
  {
    hide TakeText, TextHeader, TakeBytes, TakeNum;
    if s.Text? { TextFits(v.bytes, rest); }
  }

  /** Leaves are decoded over anything alike. */
  lemma {:induction false} OldItemsIgnored(elem: Schema, a: seq<Value>, b: seq<Value>, i: nat, bits: Bits)
    requires elem.Leaf() && i <= |a| == |b| && a[..i] == b[..i]
    ensures TakeItems(elem, a, i, bits) == TakeItems(elem, b, i, bits)
    decreases |a| - i
  {
    hide TakeText, TakeBytes, TakeNum;
    if i == |a| {
      assert a == a[..i] && b == b[..i];
    } else if TakeFull(elem, a[i], bits).Some? {
      var (v, rest) := TakeFull(elem, a[i], bits).value;
      assert a[i := v][..i + 1] == a[..i] + [v] && b[i := v][..i + 1] == b[..i] + [v];
      OldItemsIgnored(elem, a[i := v], b[i := v], i + 1, rest);
    }
  }

  lemma ArrayFits(elem: Schema, n: nat, to: seq<Value>, from: seq<Value>, rest: Bits)
    requires FixedArray(elem, n).WellFormed() && |to| == |from| == n && AllShaped(elem, to)
    requires
      var s := FixedArray(elem, n);
      var r := TakeFull(s, Items(from), Full(s, Items(to)) + rest);
      r.Some? && r.value.0 == Items(to)
    ensures Fits(FixedArray(elem, n), Items(to))
  {
    hide TakeItems, Full, Fits;
    var s := FixedArray(elem, n);
    OldItemsIgnored(elem, from, Default(s).items, 0, Full(s, Items(to)) + rest);
    OnlyFitting(s, Items(to), rest);
  }

  // ----- structs -----

  lemma {:induction false} FieldDeltasKept(fields: seq<Schema>, items: seq<Value>, i: nat, remaining: nat, next: nat,
      bits: Bits)
    requires i <= |items| == |fields| && TakeFieldDeltas(fields, items, i, remaining, next, bits).Some?
    ensures
      var r := TakeFieldDeltas(fields, items, i, remaining, next, bits).value.0;
      |r| == |items| && forall j :: 0 <= j < i ==> r[j] == items[j]
    decreases |items| - i
  {
    hide TakeDelta, TakeNum;
    if i == |items| {
    } else if remaining == 0 || i != next {
      FieldDeltasKept(fields, items, i + 1, remaining, next, bits);
    } else {
      var (v, b) := TakeDelta(fields[i], items[i], bits).value;
      if remaining == 1 {
        FieldDeltasKept(fields, items[i := v], i + 1, 0, next, b);
      } else {
        var (next', rest) := TakeNum(b, RequiredBits(|fields|)).value;
        FieldDeltasKept(fields, items[i := v], i + 1, remaining - 1, next', rest);
      }
    }
  }

  /** A walk that got through has decoded its next field for good. */
  lemma FieldRead(fields: seq<Schema>, items: seq<Value>, i: nat, remaining: nat, bits: Bits, b: Bits)
    requires i < |items| == |fields| && remaining > 0
    requires TakeNum(bits, RequiredBits(|fields|)) == Some((i, b))
    requires TakeNextField(fields, items, i, remaining, bits).Some?
    ensures
      var d, r := TakeDelta(fields[i], items[i], b), TakeNextField(fields, items, i, remaining, bits).value.0;
      d.Some? && |r| == |items| && r[i] == d.value.0
  {
    hide TakeDelta, TakeNum;
    var (v, b') := TakeDelta(fields[i], items[i], b).value;
    if remaining == 1 {
      FieldDeltasKept(fields, items[i := v], i + 1, 0, i, b');
    } else {
      var (next', rest) := TakeNum(b', RequiredBits(|fields|)).value;
      FieldDeltasKept(fields, items[i := v], i + 1, remaining - 1, next', rest);
    }
  }

  lemma {:induction false} FieldFits(fields: seq<Schema>, to: seq<Value>, from: seq<Value>, i: nat, rest: Bits)
    requires FieldsAre(fields, to) && FieldsAre(fields, from) && i < |fields| && to[i] != from[i]
    requires
      var parts := FieldDeltas(fields, to, from);
      var r := TakeNextField(fields, BlendItems(to, from, i), i, Nonempty(parts, i, |fields|),
        Join(parts, i, |fields|) + rest);
      r.Some? && r.value.0 == to
    ensures FieldDeltaFits(fields[i], to[i], from[i])
    decreases fields, 1
  {
    hide TakeDelta, Delta, FieldDeltas, TakeNum, TakeNextField, Shaped, DeltaFits;
    var parts := FieldDeltas(fields, to, from);
    var delta, tail := Delta(fields[i], to[i], from[i]), Join(parts, i + 1, |fields|) + rest;
    FieldDeltaAt(fields, to, from, i);
    JoinFrom(parts, i, |fields|, rest);
    TakeIndexBack(i, |fields|, delta, tail);
    FieldRead(fields, BlendItems(to, from, i), i, Nonempty(parts, i, |fields|), Join(parts, i, |fields|) + rest,
      delta + tail);
    OnlyFittingDelta(fields[i], to[i], from[i], tail);
  }

  lemma {:induction false} FieldsFitFrom(fields: seq<Schema>, to: seq<Value>, from: seq<Value>, i: nat, rest: Bits)
    requires FieldsAre(fields, to) && FieldsAre(fields, from) && i <= |fields|
    requires
      var parts := FieldDeltas(fields, to, from);
      var r := TakeNextField(fields, BlendItems(to, from, i), i, Nonempty(parts, i, |fields|),
        Join(parts, i, |fields|) + rest);
      r.Some? && r.value.0 == to
    ensures forall j :: i <= j < |fields| ==> DeltaFits(fields[j], to[j], from[j])
    decreases fields, 2, |fields| - i
  {
    hide TakeDelta, Delta, TakeFieldDeltas, FieldDeltas, TakeNum, TakeNextField, Shaped;
    var parts := FieldDeltas(fields, to, from);
    if i < |fields| {
      var tail := Join(parts, i + 1, |fields|) + rest;
      FieldDeltaAt(fields, to, from, i);
      if to[i] == from[i] {
        JoinFromEmpty(parts, i, |fields|);
        if Nonempty(parts, i + 1, |fields|) > 0 { NextFieldAhead(fields, to, from, i + 1, rest); }
        SkipFieldStep(fields, BlendItems(to, from, i), i, Nonempty(parts, i, |fields|), tail);
        BlendItemsSame(to, from, i);
      } else {
        FieldFits(fields, to, from, i, rest);
        ChangedFieldBack(fields, to, from, i, rest);
      }
      FieldsFitFrom(fields, to, from, i + 1, rest);
    }
  }

  lemma {:induction false} StructFits(fields: seq<Schema>, to: seq<Value>, from: seq<Value>, rest: Bits)
    requires FieldsAre(fields, to) && FieldsAre(fields, from) && to != from
    requires
      var s := Struct(fields);
      var r := TakeDelta(s, Items(from), Delta(s, Items(to), Items(from)) + rest);
      r.Some? && r.value.0 == Items(to)
    ensures forall j :: 0 <= j < |fields| ==> DeltaFits(fields[j], to[j], from[j])
    decreases fields, 3
  {
    hide TakeDelta, TakeFieldDeltas, FieldDeltas, TakeNum, TakeNextField, Shaped, DeltaFits;
    var parts := FieldDeltas(fields, to, from);
    var n := CountAll(parts);
    SomeFieldChanged(fields, to, from);
    TakeIndexBack(n, |fields|, JoinAll(parts), rest);
    BlendItemsEnds(to, from);
    TakeStructStep(fields, from, ToBits(n, RequiredBits(|fields|)) + JoinAll(parts) + rest, n, JoinAll(parts) + rest);
    FieldsFitFrom(fields, to, from, 0, rest);
  }

  // ----- array lists -----

  lemma {:induction false} ItemDeltasKept(elem: Schema, items: seq<Value>, i: nat, n: nat, bits: Bits)
    requires i <= n <= |items| && TakeItemDeltas(elem, items, i, n, bits).Some?
    ensures forall j :: 0 <= j < i ==> TakeItemDeltas(elem, items, i, n, bits).value.0[j] == items[j]
    decreases n - i
  {
    hide TakeDelta, TakeNum;
    if i < n {
      var (changed, b) := TakeNum(bits, 1).value;
      if changed == 0 {
        ItemDeltasKept(elem, items, i + 1, n, b);
      } else {
        var (v, rest) := TakeDelta(elem, items[i], b).value;
        ItemDeltasKept(elem, items[i := v], i + 1, n, rest);
      }
    }
  }

  lemma ItemRead(elem: Schema, items: seq<Value>, i: nat, n: nat, bits: Bits, b: Bits)
    requires i < n <= |items| && TakeItemDeltas(elem, items, i, n, bits).Some? && TakeNum(bits, 1) == Some((1, b))
    ensures
      var d, r := TakeDelta(elem, items[i], b), TakeItemDeltas(elem, items, i, n, bits).value.0;
      d.Some? && r[i] == d.value.0
  {
    hide TakeDelta, TakeNum;
    var (v, rest) := TakeDelta(elem, items[i], b).value;
    ItemDeltasKept(elem, items[i := v], i + 1, n, rest);
  }

  lemma {:induction false} CommonItemFits(elem: Schema, to: seq<Value>, from: seq<Value>, i: nat, n: nat, tail: Bits)
    requires elem.WellFormed() && AllShaped(elem, to) && AllShaped(elem, from) && i < n <= |to| && n <= |from|
    requires
      var r := TakeItemDeltas(elem, to[..i] + from[i..], i, n, ItemDeltas(elem, to, from)[i] + tail);
      r.Some? && r.value.0[i] == to[i]
    ensures DeltaFits(elem, to[i], from[i])
    decreases elem, 2
  {
    hide TakeItemDeltas, ItemDeltas, TakeNum, Shaped, ToBits, Delta, TakeDelta;
    if to[i] != from[i] {
      var delta := Delta(elem, to[i], from[i]);
      ItemDeltaAt(elem, to, from, i);
      MixedItems(to, from, i);
      ConcatAssoc(ToBits(1, 1), delta, tail);
      TakeFlagBack(true, delta + tail);
      ItemRead(elem, to[..i] + from[i..], i, n, ToBits(1, 1) + delta + tail, delta + tail);
      OnlyFittingDelta(elem, to[i], from[i], tail);
    }
  }

  lemma {:induction false} CommonItemsFit(elem: Schema, to: seq<Value>, from: seq<Value>, i: nat, n: nat, rest: Bits)
    requires elem.WellFormed() && AllShaped(elem, to) && AllShaped(elem, from) && i <= n <= |to| && n <= |from|
    requires
      var r := TakeItemDeltas(elem, to[..i] + from[i..], i, n, Join(ItemDeltas(elem, to, from), i, |to|) + rest);
      r.Some? && forall j :: i <= j < n ==> r.value.0[j] == to[j]
    ensures forall j :: i <= j < n ==> DeltaFits(elem, to[j], from[j])
    decreases elem, 3, n - i
  {
    hide ItemDeltas, TakeItemDeltas, TakeNum, AllShaped, TakeDelta, DeltaFits;
    if i < n {
      var parts := ItemDeltas(elem, to, from);
      JoinFrom(parts, i, |to|, rest);
      CommonItemFits(elem, to, from, i, n, Join(parts, i + 1, |to|) + rest);
      CommonItemBack(elem, to, from, i, n, Join(parts, i + 1, |to|) + rest);
      CommonItemsFit(elem, to, from, i + 1, n, rest);
    }
  }

  lemma {:induction false} NewItemsKept(elem: Schema, max: nat, items: seq<Value>, n: nat, bits: Bits)
    requires TakeNewItems(elem, max, items, n, bits).Some?
    ensures items <= TakeNewItems(elem, max, items, n, bits).value.0
    decreases n - |items|
  {
    hide TakeFull, Default;
    if |items| < n {
      var (v, rest) := TakeFull(elem, Default(elem), bits).value;
      NewItemsKept(elem, max, items + [v], n, rest);
      assert items <= items + [v];
    }
  }

  lemma NewItemRead(elem: Schema, max: nat, items: seq<Value>, n: nat, bits: Bits)
    requires |items| < n && TakeNewItems(elem, max, items, n, bits).Some?
    ensures
      var d, r := TakeFull(elem, Default(elem), bits), TakeNewItems(elem, max, items, n, bits).value.0;
      d.Some? && |items| < |r| && r[|items|] == d.value.0
  {
    hide TakeFull, Default;
    var (v, rest) := TakeFull(elem, Default(elem), bits).value;
    NewItemsKept(elem, max, items + [v], n, rest);
    assert (items + [v])[|items|] == v;
  }

  lemma {:induction false} NewItemsFit(elem: Schema, max: nat, to: seq<Value>, from: seq<Value>, i: nat, rest: Bits)
    requires elem.WellFormed() && AllShaped(elem, to) && i <= |to| <= max && (i < |to| ==> i >= |from|)
    requires
      var r := TakeNewItems(elem, max, to[..i], |to|, Join(ItemDeltas(elem, to, from), i, |to|) + rest);
      r.Some? && r.value.0 == to
    ensures forall j :: i <= j < |to| ==> Fits(elem, to[j])
    decreases |to| - i
  {
    hide ItemDeltas, TakeNewItems, Shaped, Fits, Full, TakeFull, Delta, Default, ToBits;
    if i < |to| {
      var parts := ItemDeltas(elem, to, from);
      var tail := Join(parts, i + 1, |to|) + rest;
      JoinFrom(parts, i, |to|, rest);
      ItemDeltaAt(elem, to, from, i);
      NewItemRead(elem, max, to[..i], |to|, Full(elem, to[i]) + tail);
      OnlyFitting(elem, to[i], tail);
      FullExactly(elem, to[i], tail);
      TakeNewItem(elem, max, to[..i], |to|, Full(elem, to[i]) + tail, to[i], tail);
      assert to[..i] + [to[i]] == to[..i + 1];
      NewItemsFit(elem, max, to, from, i + 1, rest);
    }
  }

  lemma PrefixSame(a: seq<Value>, b: seq<Value>, n: nat)
    requires n <= |a| && a[..n] <= b
    ensures forall j :: 0 <= j < n ==> a[j] == b[j]
  {
    forall j | 0 <= j < n ensures a[j] == b[j] {
      assert a[..n][j] == b[j];
    }
  }

  /** A list delta that got through, behind its header. */
  lemma {:induction false} ListBodyFits(elem: Schema, max: nat, to: seq<Value>, from: seq<Value>, rest: Bits)
    requires elem.WellFormed() && AllShaped(elem, to) && AllShaped(elem, from) && |to| <= max
    requires
      var common := if |from| < |to| then |from| else |to|;
      var r := TakeItemDeltas(elem, from, 0, common, JoinAll(ItemDeltas(elem, to, from)) + rest);
      r.Some? &&
      var r' := TakeNewItems(elem, max, r.value.0[..common], |to|, r.value.1);
      r'.Some? && r'.value.0 == to
    ensures ItemDeltasFit(elem, to, from)
    decreases elem, 4
  {
    hide TakeItemDeltas, ItemDeltas, TakeNum, Fits, DeltaFits, AllShaped, TakeNewItems, Join;
    var common := if |from| < |to| then |from| else |to|;
    var bits := JoinAll(ItemDeltas(elem, to, from)) + rest;
    var (items, b) := TakeItemDeltas(elem, from, 0, common, bits).value;
    NewItemsKept(elem, max, items[..common], |to|, b);
    assert to[..0] + from[0..] == from;
    PrefixSame(items, to, common);
    CommonItemsFit(elem, to, from, 0, common, rest);
    CommonItemsBack(elem, to, from, 0, common, rest);
    assert (to[..common] + from[common..])[..common] == to[..common];
    NewItemsFit(elem, max, to, from, common, rest);
  }

  lemma {:induction false} ListDeltaFits(elem: Schema, max: nat, to: seq<Value>, from: seq<Value>, rest: Bits)
    requires elem.WellFormed() && AllShaped(elem, to) && AllShaped(elem, from) && |to| <= max && to != from
    requires
      var s := ArrayList(elem, max);
      var r := TakeDelta(s, Items(from), Delta(s, Items(to), Items(from)) + rest);
      r.Some? && r.value.0 == Items(to)
    ensures ItemDeltasFit(elem, to, from)
    decreases elem, 5
  {
    hide TakeItemDeltas, TakeNewItems, ItemDeltas, TakeNum, AllShaped, ToBits, ItemDeltasFit;
    var body, n := JoinAll(ItemDeltas(elem, to, from)), |to|;
    if n == |from| {
      ConcatAssoc(ToBits(0, 1), body, rest);
      TakeFlagBack(false, body + rest);
      var (items, b) := TakeItemDeltas(elem, from, 0, n, body + rest).value;
      assert items[..n] == items;
      TakeNoNewItems(elem, max, items, b);
      ListBodyFits(elem, max, to, from, rest);
    } else {
      var size := ToBits(n, RequiredBits(max));
      ConcatAssoc(ToBits(1, 1) + size, body, rest);
      ConcatAssoc(ToBits(1, 1), size, body + rest);
      TakeFlagBack(true, size + (body + rest));
      TakeCountBack(n, max, body + rest);
      ListBodyFits(elem, max, to, from, rest);
    }
  }

  // ----- how far two maps are apart -----

  /** Changing one key changes what two maps disagree on there and nowhere else. */
  lemma {:induction false} DistanceAt(to: map<nat, Value>, a: map<nat, Value>, b: map<nat, Value>, k: nat, bound: nat)
    requires forall j: nat :: j != k ==> SameAt(a, b, j)
    ensures Distance(to, b, bound) + (if k < bound && !SameAt(to, a, k) then 1 else 0)
         == Distance(to, a, bound) + (if k < bound && !SameAt(to, b, k) then 1 else 0)
    decreases bound
  {
    if bound > 0 {
      DistanceAt(to, a, b, k, bound - 1);
      if bound - 1 != k { assert SameAt(a, b, bound - 1); }
    }
  }

  lemma {:induction false} DistanceZero(to: map<nat, Value>, m: map<nat, Value>, bound: nat)
    requires forall j: nat :: j < bound ==> SameAt(to, m, j)
    ensures Distance(to, m, bound) == 0
    decreases bound
  {
    if bound > 0 { DistanceZero(to, m, bound - 1); }
  }

  lemma BlendHas(to: map<nat, Value>, from: map<nat, Value>, k: nat)
    ensures forall j: nat :: At(Blend(to, from, k), j) == if j < k then At(to, j) else At(from, j)
  {
    forall j: nat ensures At(Blend(to, from, k), j) == if j < k then At(to, j) else At(from, j) {
      BlendAt(to, from, k, j);
    }
  }

  /** Half way through the records, only what lies ahead is left to change. */
  lemma {:induction false} DistanceAhead(elem: Schema, key_bits: nat, to: map<nat, Value>, from: map<nat, Value>,
      bound: nat, k: nat)
    requires key_bits > 0 && k <= bound
    ensures Distance(to, Blend(to, from, k), bound) == Nonempty(EntryDeltas(elem, key_bits, to, from, bound), k, bound)
    decreases bound - k
  {
    hide EntryDeltas, EntryDelta, Blend, At;
    BlendHas(to, from, k);
    if k == bound {
      DistanceZero(to, Blend(to, from, k), bound);
    } else {
      BlendHas(to, from, k + 1);
      EntryDeltaAt(elem, key_bits, to, from, bound, k);
      EntryDeltaEmpty(elem, key_bits, to, from, k);
      DistanceAt(to, Blend(to, from, k + 1), Blend(to, from, k), k, bound);
      DistanceAhead(elem, key_bits, to, from, bound, k + 1);
    }
  }

  // ----- what records can do -----

  /** One record changes at most one key, one of the key width. */
  lemma RecordReach(elem: Schema, key_bits: nat, val: map<nat, Value>, bits: Bits)
    requires TakeRecord(elem, key_bits, val, bits).Some?
    ensures
      var key := TakeNum(bits, key_bits);
      && key.Some? && key.value.0 < Pow2(key_bits)
      && forall j: nat :: j != key.value.0 ==> SameAt(val, TakeRecord(elem, key_bits, val, bits).value.0, j)
  {
    hide TakeNum, TakeFull, TakeDelta, Default;
    NumBound(bits, key_bits);
  }

  /** `n` records bring a map at most `n` keys closer to another, and leave every larger key alone. */
  lemma {:induction false} RecordsReach(elem: Schema, key_bits: nat, to: map<nat, Value>, val: map<nat, Value>, n: nat,
      bits: Bits, bound: nat)
    requires TakeRecords(elem, key_bits, val, n, bits).Some?
    ensures
      var r := TakeRecords(elem, key_bits, val, n, bits).value.0;
      && Distance(to, val, bound) <= Distance(to, r, bound) + n
      && forall j: nat :: j >= Pow2(key_bits) ==> SameAt(r, val, j)
    decreases n
  {
    hide TakeRecord, TakeNum, At, Distance;
    if n > 0 {
      RecordReach(elem, key_bits, val, bits);
      var (val', rest) := TakeRecord(elem, key_bits, val, bits).value;
      DistanceAt(to, val, val', TakeNum(bits, key_bits).value.0, bound);
      RecordsReach(elem, key_bits, to, val', n - 1, rest, bound);
      var (r, _) := TakeRecords(elem, key_bits, val', n - 1, rest).value;
      forall j: nat | j >= Pow2(key_bits) ensures SameAt(r, val, j) {
        assert SameAt(val, val', j) && SameAt(r, val', j);
      }
    }
  }

  /** What the record of a key made of it. */
  lemma {:induction false} RecordFitsFrom(elem: Schema, key_bits: nat, to: map<nat, Value>, from: map<nat, Value>,
      k: nat, tail: Bits)
    requires elem.WellFormed() && k < Pow2(key_bits) && !SameAt(to, from, k)
    requires (k in to ==> Shaped(elem, to[k])) && (k in from ==> Shaped(elem, from[k]))
    requires
      var r := TakeRecord(elem, key_bits, Blend(to, from, k), EntryDelta(elem, key_bits, to, from, k) + tail);
      r.Some? && SameAt(to, r.value.0, k)
    ensures EntryDeltaFits(elem, to, from, k)
    decreases elem, 2
  {
    hide TakeNum, TakeFull, TakeDelta, Shaped, ToBits, Delta, Full, Blend, DropRange, Default, Fits, DeltaFits;
    var key, val := ToBits(k, key_bits), Blend(to, from, k);
    BlendAt(to, from, k, k);
    if k in to && k !in from {
      ConcatAssoc(key, Full(elem, to[k]), tail);
      TakeWritten(k, key_bits, Full(elem, to[k]) + tail);
      OnlyFitting(elem, to[k], tail);
    } else if k in to {
      var flag, delta := ToBits(1, 1), Delta(elem, to[k], from[k]);
      ConcatAssoc(key + flag, delta, tail);
      ConcatAssoc(key, flag, delta + tail);
      TakeWritten(k, key_bits, flag + (delta + tail));
      TakeFlagBack(true, delta + tail);
      OnlyFittingDelta(elem, to[k], from[k], tail);
    }
  }

  /** The first of the records ahead: it has to bring its key to what it is in `to`. */
  lemma {:induction false} RecordAheadFits(elem: Schema, key_bits: nat, to: map<nat, Value>, from: map<nat, Value>,
      bound: nat, k: nat, rest: Bits)
    requires elem.WellFormed() && MapShaped(elem, to) && MapShaped(elem, from)
    requires key_bits > 0 && k < bound && k < Pow2(key_bits) && !SameAt(to, from, k)
    requires
      var parts := EntryDeltas(elem, key_bits, to, from, bound);
      var r := TakeRecords(elem, key_bits, Blend(to, from, k), Nonempty(parts, k, bound), Join(parts, k, bound) + rest);
      r.Some? && Distance(to, r.value.0, bound) == 0
    ensures EntryDeltaFits(elem, to, from, k)
    decreases elem, 3
  {
    hide EntryDeltas, EntryDelta, TakeRecord, TakeNum, Shaped, Blend, At, Distance, ToBits, EntryDeltaFits;
    var parts, val := EntryDeltas(elem, key_bits, to, from, bound), Blend(to, from, k);
    var tail, n := Join(parts, k + 1, bound) + rest, Nonempty(parts, k, bound);
    JoinFrom(parts, k, bound, rest);
    EntryDeltaAt(elem, key_bits, to, from, bound, k);
    EntryDeltaEmpty(elem, key_bits, to, from, k);
    var (val', tail') := TakeRecord(elem, key_bits, val, parts[k] + tail).value;
    RecordReach(elem, key_bits, val, parts[k] + tail);
    RecordKey(elem, key_bits, to, from, k, tail);
    RecordsReach(elem, key_bits, to, val', n - 1, tail', bound);
    DistanceAhead(elem, key_bits, to, from, bound, k);
    DistanceAt(to, val, val', k, bound);
    BlendHas(to, from, k);
    RecordFitsFrom(elem, key_bits, to, from, k, tail);
  }

  lemma RecordKey(elem: Schema, key_bits: nat, to: map<nat, Value>, from: map<nat, Value>, k: nat, tail: Bits)
    requires k < Pow2(key_bits) && !SameAt(to, from, k)
    ensures
      var key := TakeNum(EntryDelta(elem, key_bits, to, from, k) + tail, key_bits);
      key.Some? && key.value.0 == k
  {
    hide TakeNum, ToBits, Delta, Full;
    var key := ToBits(k, key_bits);
    if k in to && k !in from {
      ConcatAssoc(key, Full(elem, to[k]), tail);
      TakeWritten(k, key_bits, Full(elem, to[k]) + tail);
    } else if k !in to {
      ConcatAssoc(key, ToBits(0, 1), tail);
      TakeWritten(k, key_bits, ToBits(0, 1) + tail);
    } else {
      var flag, delta := ToBits(1, 1), Delta(elem, to[k], from[k]);
      ConcatAssoc(key + flag, delta, tail);
      ConcatAssoc(key, flag, delta + tail);
      TakeWritten(k, key_bits, flag + (delta + tail));
    }
  }

  lemma {:induction false} RecordsFitFrom(elem: Schema, key_bits: nat, to: map<nat, Value>, from: map<nat, Value>,
      bound: nat, k: nat, rest: Bits)
    requires elem.WellFormed() && MapShaped(elem, to) && MapShaped(elem, from)
    requires key_bits > 0 && k <= bound
    requires forall j: nat :: j < bound && !SameAt(to, from, j) ==> j < Pow2(key_bits)
    requires
      var parts := EntryDeltas(elem, key_bits, to, from, bound);
      var r := TakeRecords(elem, key_bits, Blend(to, from, k), Nonempty(parts, k, bound), Join(parts, k, bound) + rest);
      r.Some? && Distance(to, r.value.0, bound) == 0
    ensures forall j: nat :: k <= j < bound && !SameAt(to, from, j) ==> EntryDeltaFits(elem, to, from, j)
    decreases elem, 4, bound - k
  {
    hide EntryDeltas, EntryDelta, TakeRecords, TakeRecord, MapShaped, Blend, SameAt, Distance, EntryDeltaFits,
          RecordFits;
    if k < bound {
      var parts := EntryDeltas(elem, key_bits, to, from, bound);
      var tail := Join(parts, k + 1, bound) + rest;
      EntryDeltaAt(elem, key_bits, to, from, bound, k);
      EntryDeltaEmpty(elem, key_bits, to, from, k);
      JoinFrom(parts, k, bound, rest);
      if SameAt(to, from, k) {
        JoinFromEmpty(parts, k, bound);
        BlendSame(to, from, k);
      } else {
        RecordAheadFits(elem, key_bits, to, from, bound, k, rest);
        OneRecordFits(elem, key_bits, to, from, k);
        RecordBack(elem, key_bits, to, from, k, tail);
        TakeRecordsStep(elem, key_bits, Blend(to, from, k), Nonempty(parts, k, bound), Join(parts, k, bound) + rest,
          Blend(to, from, k + 1), tail);
      }
      RecordsFitFrom(elem, key_bits, to, from, bound, k + 1, rest);
    }
  }

  lemma OneRecordFits(elem: Schema, key_bits: nat, to: map<nat, Value>, from: map<nat, Value>, k: nat)
    requires MapShaped(elem, to) && MapShaped(elem, from)
    requires k < Pow2(key_bits) && EntryDeltaFits(elem, to, from, k)
    ensures RecordFits(elem, key_bits, to, from, k)
  {
    hide Shaped, EntryDeltaFits;
  }

  // ----- maps -----

  lemma {:induction false} MapChangeFits(elem: Schema, max: nat, to: map<nat, Value>, from: map<nat, Value>, rest: Bits)
    requires elem.WellFormed() && MapShaped(elem, to) && MapShaped(elem, from)
    requires
      var s := Map(elem, max);
      var r := TakeMapDelta(elem, max, from, MapDelta(elem, max, to, from) + rest);
      r.Some? && r.value.0 == Entries(to)
    ensures MapDeltaFits(elem, max, to, from)
    decreases elem, 5
  {
    hide TakeNum, TakeRecords, EntryDeltas, ToBits, MapShaped, Blend, MapBound, Distance, At, EntryDeltaFits;
    var key_bits, bound := RequiredBits(max), MapBound(to, from);
    var parts := EntryDeltas(elem, key_bits, to, from, bound);
    var n, bits := CountAll(parts), JoinAll(parts) + rest;
    ConcatAssoc(ToBits(n, key_bits), JoinAll(parts), rest);
    TakeWritten(n, key_bits, bits);
    TruncBelow(n, key_bits);
    RecordsCounted(elem, key_bits, to, from, bound, bound);
    RecordsReach(elem, key_bits, to, from, Trunc(n, key_bits), bits, bound);
    DistanceZero(to, to, bound);
    BlendNothing(to, from);
    RecordsFitFrom(elem, key_bits, to, from, bound, 0, rest);
    BeyondBound(to, from);
  }

  lemma BeyondBound(to: map<nat, Value>, from: map<nat, Value>)
    ensures forall j: nat :: !SameAt(to, from, j) ==> j < MapBound(to, from)
  {
    hide HighestIndex;
  }

  // ----- sparse lists -----

  /** What a sparse list's delta starts with. */
  lemma SparseParts(elem: Schema, max: nat, to: map<nat, Value>, from: map<nat, Value>, rest: Bits)
    ensures
      var h := HighestIndex(to);
      var header, parts := SparseHeader(max, h, HighestIndex(from)), EntryDeltas(elem, IndexBits(h), to, from, h + 1);
      SparseDelta(elem, max, to, from) + rest
        == header + (ToBits(CountAll(parts), RequiredBits(h + 1)) + (JoinAll(parts) + rest))
  {
    hide EntryDeltas, ToBits, HighestIndex, IndexBits, SparseHeader;
    var h := HighestIndex(to);
    var header, parts := SparseHeader(max, h, HighestIndex(from)), EntryDeltas(elem, IndexBits(h), to, from, h + 1);
    var count := ToBits(CountAll(parts), RequiredBits(h + 1));
    ConcatAssoc(header + count, JoinAll(parts), rest);
    ConcatAssoc(header, count, JoinAll(parts) + rest);
  }

  /** A decoder that ends with the new list has read its size. */
  lemma SizeFits(elem: Schema, max: nat, to: map<nat, Value>, from: map<nat, Value>, bits: Bits, tail: Bits)
    requires bits == SparseHeader(max, HighestIndex(to), HighestIndex(from)) + tail
    requires TakeSparseDelta(elem, max, from, bits).Some?
    requires TakeSparseDelta(elem, max, from, bits).value.0 == Entries(to)
    ensures TakeSparseHeader(max, HighestIndex(from), bits) == Some((HighestIndex(to), tail))
    ensures HighestIndex(to) == HighestIndex(from) || HighestIndex(to) + 1 < Pow2(RequiredBits(max))
  {
    hide TakeNum, TakeRecords, HighestIndex, IndexBits, SparseHeader, TakeSparseHeader, Below;
    SizeRead(max, HighestIndex(to), HighestIndex(from), tail);
    var (highest, b) := TakeSparseHeader(max, HighestIndex(from), bits).value;
    var (n, b') := TakeNum(b, RequiredBits(highest + 1)).value;
    var (m, _) := TakeRecords(elem, IndexBits(highest), from, n, b').value;
    BelowHighest(to, m, highest);
  }

  /** The records behind header and count. */
  lemma {:induction false} SparseBodyFits(elem: Schema, to: map<nat, Value>, from: map<nat, Value>, rest: Bits)
    requires elem.WellFormed() && MapShaped(elem, to) && MapShaped(elem, from)
    requires
      var h := HighestIndex(to);
      var parts := EntryDeltas(elem, IndexBits(h), to, from, h + 1);
      var r := TakeRecords(elem, IndexBits(h), from, CountAll(parts), JoinAll(parts) + rest);
      r.Some? && Below(r.value.0, h + 1) == to
    ensures forall k: nat :: !SameAt(to, from, k) ==> EntryDeltaFits(elem, to, from, k)
    decreases elem, 5
  {
    hide TakeRecords, EntryDeltas, HighestIndex, Blend, IndexBits, Below, MapShaped, EntryDeltaFits, SameAt, Distance;
    var h := HighestIndex(to);
    var parts := EntryDeltas(elem, IndexBits(h), to, from, h + 1);
    var (m, _) := TakeRecords(elem, IndexBits(h), from, CountAll(parts), JoinAll(parts) + rest).value;
    IndexBitsFit(h);
    CutSame(to, m, h + 1);
    DistanceZero(to, m, h + 1);
    BlendNothing(to, from);
    RecordsFitFrom(elem, IndexBits(h), to, from, h + 1, 0, rest);
    NothingBeyond(elem, to, from, h + 1);
  }

  lemma {:induction false} SparseChangeFits(elem: Schema, max: nat, to: map<nat, Value>, from: map<nat, Value>,
      rest: Bits)
    requires elem.WellFormed() && MapShaped(elem, to) && MapShaped(elem, from)
    requires
      var r := TakeSparseDelta(elem, max, from, SparseDelta(elem, max, to, from) + rest);
      r.Some? && r.value.0 == Entries(to)
    ensures SparseDeltaFits(elem, max, to, from)
    decreases elem, 6
  {
    hide TakeNum, TakeRecords, EntryDeltas, ToBits, HighestIndex, IndexBits, SparseHeader, TakeSparseHeader,
          SparseDelta, Below, MapShaped, EntryDeltaFits, SameAt;
    var h := HighestIndex(to);
    var parts := EntryDeltas(elem, IndexBits(h), to, from, h + 1);
    var n, bits := CountAll(parts), SparseDelta(elem, max, to, from) + rest;
    var body := JoinAll(parts) + rest;
    SparseParts(elem, max, to, from, rest);
    SizeFits(elem, max, to, from, bits, ToBits(n, RequiredBits(h + 1)) + body);
    TakeCountBack(n, h + 1, body);
    SparseBodyFits(elem, to, from, rest);
  }

  /** The size in the header, cut to its width. */
  lemma SizeRead(max: nat, to: int, from: int, tail: Bits)
    requires to >= -1 && from >= -1
    ensures TakeSparseHeader(max, from, SparseHeader(max, to, from) + tail)
         == Some((if to == from then to else Trunc(to + 1, RequiredBits(max)) - 1, tail))
    ensures Trunc(to + 1, RequiredBits(max)) <= to + 1
    ensures Trunc(to + 1, RequiredBits(max)) == to + 1 ==> to + 1 < Pow2(RequiredBits(max))
  {
    hide TakeNum, ToBits;
    var key_bits := RequiredBits(max);
    TruncBelow(to + 1, key_bits);
    if to != from {
      ConcatAssoc(ToBits(1, 1), ToBits(to + 1, key_bits), tail);
      TakeFlagBack(true, ToBits(to + 1, key_bits) + tail);
      TakeWritten(to + 1, key_bits, tail);
    } else {
      TakeFlagBack(false, tail);
    }
  }

  /** A list cut below its highest index is another list. */
  lemma BelowHighest(to: map<nat, Value>, m: map<nat, Value>, highest: int)
    requires highest >= -1 && Below(m, highest + 1) == to
    ensures highest >= HighestIndex(to)
  {
    var h := HighestIndex(to);
    assert h >= 0 ==> h in Below(m, highest + 1);
  }

  lemma CutSame(to: map<nat, Value>, m: map<nat, Value>, bound: nat)
    requires Below(m, bound) == to
    ensures forall j: nat :: j < bound ==> SameAt(to, m, j)
  {
  }

  lemma NothingBeyond(elem: Schema, to: map<nat, Value>, from: map<nat, Value>, bound: nat)
    requires forall j :: j in to ==> j < bound
    ensures forall j: nat :: j >= bound ==> EntryDeltaFits(elem, to, from, j)
  {
    hide Fits, DeltaFits;
  }

  // ----- exactly -----

  /** For every schema and every two different values: the new value comes back from its
      delta, which is consumed exactly, if and only if the difference fits. */
  lemma DeltaExactly(s: Schema, to: Value, from: Value, rest: Bits)
    requires s.WellFormed() && Shaped(s, to) && Shaped(s, from) && to != from
    ensures TakeDelta(s, from, Delta(s, to, from) + rest) == Some((to, rest)) <==> DeltaFits(s, to, from)
  {
    hide TakeDelta, Delta, DeltaFits, Shaped;
    if DeltaFits(s, to, from) {
      DeltaRoundTrip.DeltaRoundTrip(s, to, from, rest);
    } else if TakeDelta(s, from, Delta(s, to, from) + rest) == Some((to, rest)) {
      OnlyFittingDelta(s, to, from, rest);
    }
  }

  /** For maps: every changed key within the key width, and fewer of them than the count field holds. */
  lemma MapDeltaExact(elem: Schema, max: nat, to: map<nat, Value>, from: map<nat, Value>, rest: Bits)
    requires Map(elem, max).WellFormed() && MapShaped(elem, to) && MapShaped(elem, from) && to != from
    requires forall k: nat :: !SameAt(to, from, k) ==> EntryDeltaFits(elem, to, from, k)
    ensures
      TakeDelta(Map(elem, max), Entries(from), Delta(Map(elem, max), Entries(to), Entries(from)) + rest)
        == Some((Entries(to), rest))
      <==>
      && Distance(to, from, MapBound(to, from)) < Pow2(RequiredBits(max))
      && forall k: nat :: !SameAt(to, from, k) ==> k < Pow2(RequiredBits(max))
  {
    hide TakeDelta, Delta, EntryDeltaFits, MapShaped, SameAt, Distance, MapBound;
    DeltaExactly(Map(elem, max), Entries(to), Entries(from), rest);
  }

  /** For sparse lists: the highest index unchanged, or a size within the key width. */
  lemma SparseDeltaExact(elem: Schema, max: nat, to: map<nat, Value>, from: map<nat, Value>, rest: Bits)
    requires SparseList(elem, max).WellFormed() && to != from
    requires Shaped(SparseList(elem, max), Entries(to)) && Shaped(SparseList(elem, max), Entries(from))
    requires forall k: nat :: !SameAt(to, from, k) ==> EntryDeltaFits(elem, to, from, k)
    ensures
      TakeDelta(SparseList(elem, max), Entries(from), Delta(SparseList(elem, max), Entries(to), Entries(from)) + rest)
        == Some((Entries(to), rest))
      <==> HighestIndex(to) == HighestIndex(from) || HighestIndex(to) + 1 < Pow2(RequiredBits(max))
  {
    hide TakeDelta, Delta, EntryDeltaFits, Shaped, SameAt, HighestIndex;
    DeltaExactly(SparseList(elem, max), Entries(to), Entries(from), rest);
  }

  /** A list whose highest index has become the largest the key width holds: its size reads
      as none, and nothing but an empty list can come of it. */
  lemma LostHighest(elem: Schema, max: nat, to: map<nat, Value>, from: map<nat, Value>, rest: Bits)
    requires HighestIndex(to) == Pow2(RequiredBits(max)) - 1 && HighestIndex(from) != HighestIndex(to)
    ensures
      var r := TakeDelta(SparseList(elem, max), Entries(from),
        Delta(SparseList(elem, max), Entries(to), Entries(from)) + rest);
      r.Some? ==> r.value.0 == Entries(map[])
  {
    hide TakeNum, TakeRecords, EntryDeltas, ToBits, HighestIndex, IndexBits, SparseHeader, TakeSparseHeader,
          SparseDelta, TakeSparseDelta, TakeDelta, Delta;
    var h, width := HighestIndex(to), RequiredBits(max);
    var parts := EntryDeltas(elem, IndexBits(h), to, from, h + 1);
    SparseParts(elem, max, to, from, rest);
    SizeRead(max, h, HighestIndex(from), ToBits(CountAll(parts), RequiredBits(h + 1)) + (JoinAll(parts) + rest));
    TruncAll(width);
    TakeDeltaSparse(elem, max, to, from, rest);
    NoneLeft(elem, max, from, SparseDelta(elem, max, to, from) + rest);
  }

  lemma TakeDeltaSparse(elem: Schema, max: nat, to: map<nat, Value>, from: map<nat, Value>, rest: Bits)
    requires to != from
    ensures TakeDelta(SparseList(elem, max), Entries(from),
              Delta(SparseList(elem, max), Entries(to), Entries(from)) + rest)
         == TakeSparseDelta(elem, max, from, SparseDelta(elem, max, to, from) + rest)
  {
    hide SparseDelta, TakeSparseDelta;
  }

  lemma NoneLeft(elem: Schema, max: nat, from: map<nat, Value>, bits: Bits)
    requires
      var header := TakeSparseHeader(max, HighestIndex(from), bits);
      header.Some? && header.value.0 == -1
    ensures
      var r := TakeSparseDelta(elem, max, from, bits);
      r.Some? ==> r.value.0 == Entries(map[])
  {
    hide TakeNum, TakeRecords, HighestIndex, IndexBits, TakeSparseHeader;
    forall m: map<nat, Value> ensures Below(m, 0) == map[] {
    }
  }
}
