/** Decoding a delta into a copy of its reference value gives the encoded value. */
module DeltaRoundTrip {
  import opened BitUtil
  import opened BitStream
  import opened Joins
  import opened Schemas
  import opened CodecSpec
  import opened EncodingParts
  import opened FullRoundTrip
  import opened FullExact
  import opened Wrappers

  /** For every schema and every two different values of it whose difference fits, whatever
      bits follow. */
  lemma {:induction false} DeltaRoundTrip(s: Schema, to: Value, from: Value, rest: Bits)
    requires s.WellFormed() && Shaped(s, to) && Shaped(s, from) && DeltaFits(s, to, from) && to != from
    ensures TakeDelta(s, from, Delta(s, to, from) + rest) == Some((to, rest))
    decreases s, 1
  {
    match s
    case Struct(fs) => StructBack(fs, to.items, from.items, rest);
    case ArrayList(e, max) => ListDeltaBack(e, max, to.items, from.items, rest);
    case Map(e, max) => MapDeltaBack(e, max, to.entries, from.entries, rest);
    case SparseList(e, max) => SparseDeltaBack(e, max, to.entries, from.entries, rest);
    case _ => FlatBack(s, to, from, rest);
  }

  /** Types without a delta format of their own send the new value in full. */
  lemma FlatBack(s: Schema, to: Value, from: Value, rest: Bits)
    requires s.WellFormed() && Fits(s, to) && Shaped(s, from) && to != from
    requires s.Leaf() || s.FixedArray?
    ensures TakeDelta(s, from, Delta(s, to, from) + rest) == Some((to, rest))
  {
    hide TakeFull, Full;
    assert NoSparse(s) by {
      if s.FixedArray? { assert NoSparse(s.elem); }
    }
    DecodeWithoutSparse(s, from, to, rest);
  }

  // ----- structs -----

  /** The decoder between two fields: the next index is read while any changes remain. */
  function TakeNextField(fields: seq<Schema>, items: seq<Value>, i: nat, remaining: nat, bits: Bits)
    : Option<(seq<Value>, Bits)>
    requires i <= |items| == |fields|
  {
    if remaining == 0 then Some((items, bits))
    else
      var (next, b) :- TakeNum(bits, RequiredBits(|fields|));
      TakeFieldDeltas(fields, items, i, remaining, next, b)
  }

  lemma {:induction false} NoneRemaining(fields: seq<Schema>, items: seq<Value>, i: nat, next: nat, bits: Bits)
    requires i <= |items| == |fields|
    ensures TakeFieldDeltas(fields, items, i, 0, next, bits) == Some((items, bits))
    decreases |items| - i
  {
    hide TakeDelta;
    if i < |items| { NoneRemaining(fields, items, i + 1, next, bits); }
  }

  /** A field that has changed. */
  lemma TakeFieldStep(fields: seq<Schema>, items: seq<Value>, i: nat, remaining: nat, bits: Bits,
      b: Bits, v: Value, tail: Bits)
    requires i < |items| == |fields| && remaining > 0
    requires TakeNum(bits, RequiredBits(|fields|)) == Some((i, b))
    requires TakeDelta(fields[i], items[i], b) == Some((v, tail))
    ensures TakeNextField(fields, items, i, remaining, bits)
         == TakeNextField(fields, items[i := v], i + 1, remaining - 1, tail)
  {
    hide TakeDelta;
    if remaining == 1 { NoneRemaining(fields, items[i := v], i + 1, i, tail); }
  }

  /** A field that has not: the next index lies beyond it. */
  lemma SkipFieldStep(fields: seq<Schema>, items: seq<Value>, i: nat, remaining: nat, bits: Bits)
    requires i < |items| == |fields|
    requires remaining > 0 ==>
      var r := TakeNum(bits, RequiredBits(|fields|));
      r.Some? && r.value.0 > i
    ensures TakeNextField(fields, items, i, remaining, bits)
         == TakeNextField(fields, items, i + 1, remaining, bits)
  {
    hide TakeDelta;
  }

  lemma TakeIndexBack(i: nat, n: nat, body: Bits, tail: Bits)
    requires i <= n
    ensures TakeNum(ToBits(i, RequiredBits(n)) + body + tail, RequiredBits(n)) == Some((i, body + tail))
  {
    ConcatAssoc(ToBits(i, RequiredBits(n)), body, tail);
    TakeCountBack(i, n, body + tail);
  }

  /** While changes remain, the stream goes on with an index that has not been passed. */
  lemma {:induction false} NextFieldAhead(fields: seq<Schema>, to: seq<Value>, from: seq<Value>, i: nat, rest: Bits)
    requires i <= |fields| == |to| == |from|
    requires Nonempty(FieldDeltas(fields, to, from), i, |fields|) > 0
    ensures
      var r := TakeNum(Join(FieldDeltas(fields, to, from), i, |fields|) + rest, RequiredBits(|fields|));
      r.Some? && r.value.0 >= i
    decreases |fields| - i
  {
    hide Delta, FieldDeltas, TakeNum;
    var parts := FieldDeltas(fields, to, from);
    FieldDeltaAt(fields, to, from, i);
    if to[i] == from[i] {
      JoinFromEmpty(parts, i, |fields|);
      NextFieldAhead(fields, to, from, i + 1, rest);
    } else {
      JoinFrom(parts, i, |fields|, rest);
      TakeIndexBack(i, |fields|, Delta(fields[i], to[i], from[i]), Join(parts, i + 1, |fields|) + rest);
    }
  }

  lemma BlendItemsSame(to: seq<Value>, from: seq<Value>, i: nat)
    requires i < |to| == |from| && to[i] == from[i]
    ensures BlendItems(to, from, i) == BlendItems(to, from, i + 1)
  {
  }

  ghost predicate FieldDeltaFits(s: Schema, to: Value, from: Value)
  {
    s.WellFormed() && Shaped(s, to) && Shaped(s, from) && DeltaFits(s, to, from)
  }

  ghost predicate FieldDeltasFit(fields: seq<Schema>, to: seq<Value>, from: seq<Value>)
  {
    |to| == |from| == |fields| && forall i :: 0 <= i < |fields| ==> FieldDeltaFits(fields[i], to[i], from[i])
  }

  lemma {:induction false} FieldDeltasBack(fields: seq<Schema>, to: seq<Value>, from: seq<Value>, i: nat, rest: Bits)
    requires FieldDeltasFit(fields, to, from) && i <= |fields|
    ensures
      var parts := FieldDeltas(fields, to, from);
      TakeNextField(fields, BlendItems(to, from, i), i, Nonempty(parts, i, |fields|), Join(parts, i, |fields|) + rest)
        == Some((to, rest))
    decreases fields, 1, |fields| - i
  {
    hide TakeDelta, Delta, TakeFieldDeltas, FieldDeltas, TakeNum, FieldDeltaFits, TakeNextField;
    var parts := FieldDeltas(fields, to, from);
    if i == |fields| {
      JoinEnd(parts, i, rest);
      BlendItemsEnds(to, from);
      NextFieldEnd(fields, to, i, rest);
    } else {
      var tail := Join(parts, i + 1, |fields|) + rest;
      FieldDeltaAt(fields, to, from, i);
      if to[i] == from[i] {
        JoinFromEmpty(parts, i, |fields|);
        if Nonempty(parts, i + 1, |fields|) > 0 { NextFieldAhead(fields, to, from, i + 1, rest); }
        SkipFieldStep(fields, BlendItems(to, from, i), i, Nonempty(parts, i, |fields|), tail);
        BlendItemsSame(to, from, i);
      } else {
        ChangedFieldBack(fields, to, from, i, rest);
      }
      FieldDeltasBack(fields, to, from, i + 1, rest);
    }
  }

  lemma NextFieldEnd(fields: seq<Schema>, items: seq<Value>, i: nat, bits: Bits)
    requires i <= |items| == |fields|
    ensures TakeNextField(fields, items, i, 0, bits) == Some((items, bits))
  {
    hide TakeFieldDeltas;
  }

  lemma {:induction false} ChangedFieldBack(fields: seq<Schema>, to: seq<Value>, from: seq<Value>, i: nat, rest: Bits)
    requires i < |fields| == |to| == |from| && FieldDeltaFits(fields[i], to[i], from[i]) && to[i] != from[i]
    ensures
      var parts := FieldDeltas(fields, to, from);
      TakeNextField(fields, BlendItems(to, from, i), i, Nonempty(parts, i, |fields|), Join(parts, i, |fields|) + rest)
        == TakeNextField(fields, BlendItems(to, from, i + 1), i + 1, Nonempty(parts, i + 1, |fields|),
             Join(parts, i + 1, |fields|) + rest)
    decreases fields, 0
  {
    hide TakeDelta, Delta, TakeFieldDeltas, FieldDeltas, TakeNum, Shaped, DeltaFits, TakeNextField;
    var parts := FieldDeltas(fields, to, from);
    var delta, tail := Delta(fields[i], to[i], from[i]), Join(parts, i + 1, |fields|) + rest;
    FieldDeltaAt(fields, to, from, i);
    JoinFrom(parts, i, |fields|, rest);
    TakeIndexBack(i, |fields|, delta, tail);
    DeltaRoundTrip(fields[i], to[i], from[i], tail);
    BlendItemsStep(to, from, i);
    TakeFieldStep(fields, BlendItems(to, from, i), i, Nonempty(parts, i, |fields|), Join(parts, i, |fields|) + rest,
      delta + tail, to[i], tail);
  }

  lemma TakeStructStep(fields: seq<Schema>, items: seq<Value>, bits: Bits, n: nat, b: Bits)
    requires |items| == |fields| && n > 0
    requires TakeNum(bits, RequiredBits(|fields|)) == Some((n, b))
    ensures
      var r := TakeNextField(fields, items, 0, n, b);
      TakeDelta(Struct(fields), Items(items), bits)
        == if r.None? then None else Some((Items(r.value.0), r.value.1))
  {
    hide TakeFieldDeltas;
  }

  lemma {:induction false} StructBack(fields: seq<Schema>, to: seq<Value>, from: seq<Value>, rest: Bits)
    requires FieldDeltasFit(fields, to, from) && to != from
    ensures TakeDelta(Struct(fields), Items(from), Delta(Struct(fields), Items(to), Items(from)) + rest)
         == Some((Items(to), rest))
    decreases fields, 2
  {
    hide TakeDelta, TakeFieldDeltas, FieldDeltas, TakeNum, FieldDeltaFits, TakeNextField;
    var parts := FieldDeltas(fields, to, from);
    var n := CountAll(parts);
    SomeFieldChanged(fields, to, from);
    TakeIndexBack(n, |fields|, JoinAll(parts), rest);
    BlendItemsEnds(to, from);
    FieldDeltasBack(fields, to, from, 0, rest);
    TakeStructStep(fields, from, ToBits(n, RequiredBits(|fields|)) + JoinAll(parts) + rest, n, JoinAll(parts) + rest);
  }

  // ----- array lists -----

  lemma {:induction false} ListDeltaBack(elem: Schema, max: nat, to: seq<Value>, from: seq<Value>, rest: Bits)
    requires elem.WellFormed() && AllShaped(elem, to) && AllShaped(elem, from)
    requires ItemDeltasFit(elem, to, from) && |to| <= max && to != from
    ensures TakeDelta(ArrayList(elem, max), Items(from), Delta(ArrayList(elem, max), Items(to), Items(from)) + rest)
         == Some((Items(to), rest))
    decreases elem, 5
  {
    hide TakeListDelta, ItemDeltas, TakeNum, Fits, DeltaFits, Shaped, ToBits;
    var body, n := JoinAll(ItemDeltas(elem, to, from)), |to|;
    if n == |from| {
      ConcatAssoc(ToBits(0, 1), body, rest);
      TakeFlagBack(false, body + rest);
      SameSizeBack(elem, max, to, from, ToBits(0, 1) + body + rest, rest);
    } else {
      var size := ToBits(n, RequiredBits(max));
      ConcatAssoc(ToBits(1, 1) + size, body, rest);
      ConcatAssoc(ToBits(1, 1), size, body + rest);
      TakeFlagBack(true, size + (body + rest));
      TakeCountBack(n, max, body + rest);
      NewSizeBack(elem, max, to, from, ToBits(1, 1) + size + body + rest, size + (body + rest), rest);
    }
  }

  lemma {:induction false} SameSizeBack(elem: Schema, max: nat, to: seq<Value>, from: seq<Value>, bits: Bits,
        rest: Bits)
    requires elem.WellFormed() && AllShaped(elem, to) && AllShaped(elem, from)
    requires ItemDeltasFit(elem, to, from) && |to| == |from|
    requires TakeNum(bits, 1) == Some((0, JoinAll(ItemDeltas(elem, to, from)) + rest))
    ensures TakeListDelta(elem, max, from, bits) == Some((to, rest))
    decreases elem, 4
  {
    hide TakeItemDeltas, ItemDeltas, TakeNum, Fits, DeltaFits, Shaped, TakeNewItems;
    var parts := ItemDeltas(elem, to, from);
    CommonItemsBack(elem, to, from, 0, |to|, rest);
    assert to[..0] + from[0..] == from && to[..|to|] + from[|to|..] == to;
    JoinEnd(parts, |to|, rest);
  }

  lemma {:induction false} NewSizeBack(elem: Schema, max: nat, to: seq<Value>, from: seq<Value>, bits: Bits,
        b: Bits, rest: Bits)
    requires elem.WellFormed() && AllShaped(elem, to) && AllShaped(elem, from)
    requires ItemDeltasFit(elem, to, from) && |to| <= max
    requires TakeNum(bits, 1) == Some((1, b))
    requires TakeNum(b, RequiredBits(max)) == Some((|to|, JoinAll(ItemDeltas(elem, to, from)) + rest))
    ensures TakeListDelta(elem, max, from, bits) == Some((to, rest))
    decreases elem, 4
  {
    hide TakeItemDeltas, ItemDeltas, TakeNum, Fits, DeltaFits, Shaped, TakeNewItems;
    var parts := ItemDeltas(elem, to, from);
    var common := if |from| < |to| then |from| else |to|;
    CommonItemsBack(elem, to, from, 0, common, rest);
    assert to[..0] + from[0..] == from && (to[..common] + from[common..])[..common] == to[..common];
    NewItemsBack(elem, max, to, from, common, rest);
  }

  lemma TakeChangedItem(elem: Schema, items: seq<Value>, i: nat, n: nat, bits: Bits, b: Bits, v: Value, tail: Bits)
    requires i < n <= |items|
    requires TakeNum(bits, 1) == Some((1, b)) && TakeDelta(elem, items[i], b) == Some((v, tail))
    ensures TakeItemDeltas(elem, items, i, n, bits) == TakeItemDeltas(elem, items[i := v], i + 1, n, tail)
  {
    hide TakeDelta, TakeNum;
  }

  lemma TakeSameItem(elem: Schema, items: seq<Value>, i: nat, n: nat, bits: Bits, tail: Bits)
    requires i < n <= |items| && TakeNum(bits, 1) == Some((0, tail))
    ensures TakeItemDeltas(elem, items, i, n, bits) == TakeItemDeltas(elem, items, i + 1, n, tail)
  {
    hide TakeDelta, TakeNum;
  }

  lemma MixedItems(to: seq<Value>, from: seq<Value>, i: nat)
    requires i < |to| && i < |from|
    ensures (to[..i] + from[i..])[i] == from[i]
    ensures (to[..i] + from[i..])[i := to[i]] == to[..i + 1] + from[i + 1..]
    ensures to[i] == from[i] ==> to[..i] + from[i..] == to[..i + 1] + from[i + 1..]
  {
    if to[i] == from[i] { assert (to[..i] + from[i..])[i := to[i]] == to[..i] + from[i..]; }
  }

  /** One item both lists have: from `i` items of the new list to `i + 1`. */
  lemma {:induction false} CommonItemBack(elem: Schema, to: seq<Value>, from: seq<Value>, i: nat, n: nat, tail: Bits)
    requires elem.WellFormed() && AllShaped(elem, to) && AllShaped(elem, from)
    requires i < n <= |to| && n <= |from| && DeltaFits(elem, to[i], from[i])
    ensures TakeItemDeltas(elem, to[..i] + from[i..], i, n, ItemDeltas(elem, to, from)[i] + tail)
         == TakeItemDeltas(elem, to[..i + 1] + from[i + 1..], i + 1, n, tail)
    decreases elem, 2
  {
    hide TakeItemDeltas, ItemDeltas, TakeNum, Fits, DeltaFits, Shaped, ToBits, Delta;
    var items, delta := to[..i] + from[i..], Delta(elem, to[i], from[i]);
    ItemDeltaAt(elem, to, from, i);
    MixedItems(to, from, i);
    if to[i] == from[i] {
      assert ToBits(0, 1) + delta == ToBits(0, 1);
      TakeFlagBack(false, tail);
      TakeSameItem(elem, items, i, n, ToBits(0, 1) + tail, tail);
    } else {
      ConcatAssoc(ToBits(1, 1), delta, tail);
      TakeFlagBack(true, delta + tail);
      DeltaRoundTrip(elem, to[i], from[i], tail);
      TakeChangedItem(elem, items, i, n, ToBits(1, 1) + delta + tail, delta + tail, to[i], tail);
    }
  }

  lemma {:induction false} CommonItemsBack(elem: Schema, to: seq<Value>, from: seq<Value>, i: nat, n: nat, rest: Bits)
    requires elem.WellFormed() && AllShaped(elem, to) && AllShaped(elem, from)
    requires i <= n <= |to| && n <= |from| && forall j :: i <= j < n ==> DeltaFits(elem, to[j], from[j])
    ensures
      var parts := ItemDeltas(elem, to, from);
      TakeItemDeltas(elem, to[..i] + from[i..], i, n, Join(parts, i, |to|) + rest)
        == Some((to[..n] + from[n..], Join(parts, n, |to|) + rest))
    decreases elem, 3, n - i
  {
    hide ItemDeltas, TakeNum, AllShaped, DeltaFits, TakeDelta;
    var parts := ItemDeltas(elem, to, from);
    if i < n {
      JoinFrom(parts, i, |to|, rest);
      CommonItemBack(elem, to, from, i, n, Join(parts, i + 1, |to|) + rest);
      CommonItemsBack(elem, to, from, i + 1, n, rest);
    }
  }

  lemma TakeNewItem(elem: Schema, max: nat, items: seq<Value>, n: nat, bits: Bits, v: Value, tail: Bits)
    requires |items| < n <= max && TakeFull(elem, Default(elem), bits) == Some((v, tail))
    ensures TakeNewItems(elem, max, items, n, bits) == TakeNewItems(elem, max, items + [v], n, tail)
  {
    hide TakeFull, Default;
  }

  lemma TakeNoNewItems(elem: Schema, max: nat, items: seq<Value>, bits: Bits)
    ensures TakeNewItems(elem, max, items, |items|, bits) == Some((items, bits))
  {
    hide TakeFull, Default;
  }

  lemma {:induction false} NewItemsBack(elem: Schema, max: nat, to: seq<Value>, from: seq<Value>, i: nat, rest: Bits)
    requires elem.WellFormed() && ItemDeltasFit(elem, to, from) && i <= |to| <= max && (i < |to| ==> i >= |from|)
    ensures TakeNewItems(elem, max, to[..i], |to|, Join(ItemDeltas(elem, to, from), i, |to|) + rest) == Some((to, rest))
    decreases |to| - i
  {
    hide ItemDeltas, TakeNewItems, Fits, Full, TakeFull, Delta, Default, ToBits;
    var parts := ItemDeltas(elem, to, from);
    if i == |to| {
      assert to[..i] == to;
      JoinEnd(parts, i, rest);
      TakeNoNewItems(elem, max, to, rest);
    } else {
      var tail := Join(parts, i + 1, |to|) + rest;
      JoinFrom(parts, i, |to|, rest);
      ItemDeltaAt(elem, to, from, i);
      DecodeOverDefault(elem, to[i], tail);
      TakeNewItem(elem, max, to[..i], |to|, Full(elem, to[i]) + tail, to[i], tail);
      assert to[..i] + [to[i]] == to[..i + 1];
      NewItemsBack(elem, max, to, from, i + 1, rest);
    }
  }

  // ----- maps and sparse lists -----

  lemma BlendSame<T>(to: map<nat, T>, from: map<nat, T>, k: nat)
    requires SameAt(to, from, k)
    ensures Blend(to, from, k + 1) == Blend(to, from, k)
  {
    BlendAt(to, from, k, k);
  }

  lemma BlendPut<T>(to: map<nat, T>, from: map<nat, T>, k: nat)
    requires k in to
    ensures Blend(to, from, k)[k := to[k]] == Blend(to, from, k + 1)
  {
  }

  lemma BlendDrop<T>(to: map<nat, T>, from: map<nat, T>, k: nat)
    requires k !in to
    ensures DropRange(Blend(to, from, k), k, k + 1) == Blend(to, from, k + 1)
  {
  }

  lemma TakeNewRecord(elem: Schema, key_bits: nat, val: map<nat, Value>, bits: Bits, k: nat, b: Bits, v: Value,
        tail: Bits)
    requires TakeNum(bits, key_bits) == Some((k, b)) && k !in val
    requires TakeFull(elem, Default(elem), b) == Some((v, tail))
    ensures TakeRecord(elem, key_bits, val, bits) == Some((val[k := v], tail))
  {
    hide TakeNum, TakeFull, Default;
  }

  lemma TakeRemovalRecord(elem: Schema, key_bits: nat, val: map<nat, Value>, bits: Bits, k: nat, b: Bits, tail: Bits)
    requires TakeNum(bits, key_bits) == Some((k, b)) && k in val
    requires TakeNum(b, 1) == Some((0, tail))
    ensures TakeRecord(elem, key_bits, val, bits) == Some((DropRange(val, k, k + 1), tail))
  {
    hide TakeNum, TakeFull, TakeDelta, DropRange;
  }

  lemma TakeChangeRecord(elem: Schema, key_bits: nat, val: map<nat, Value>, bits: Bits, k: nat, b: Bits,
      b': Bits, v: Value, tail: Bits)
    requires TakeNum(bits, key_bits) == Some((k, b)) && k in val
    requires TakeNum(b, 1) == Some((1, b')) && TakeDelta(elem, val[k], b') == Some((v, tail))
    ensures TakeRecord(elem, key_bits, val, bits) == Some((val[k := v], tail))
  {
    hide TakeNum, TakeFull, TakeDelta, DropRange;
  }

  ghost predicate RecordFits(elem: Schema, key_bits: nat, to: map<nat, Value>, from: map<nat, Value>, k: nat)
  {
    && (k in to ==> Shaped(elem, to[k])) && (k in from ==> Shaped(elem, from[k]))
    && (!SameAt(to, from, k) ==> k < Pow2(key_bits) && EntryDeltaFits(elem, to, from, k))
  }

  /** The record of an index takes the decoder's map from `to` below the index and `from`
      from there on to `to` up to and including it. */
  lemma {:induction false} RecordBack(elem: Schema, key_bits: nat, to: map<nat, Value>, from: map<nat, Value>,
        k: nat, tail: Bits)
    requires elem.WellFormed() && RecordFits(elem, key_bits, to, from, k) && !SameAt(to, from, k)
    ensures TakeRecord(elem, key_bits, Blend(to, from, k), EntryDelta(elem, key_bits, to, from, k) + tail)
         == Some((Blend(to, from, k + 1), tail))
    decreases elem, 2, 1
  {
    hide TakeNum, TakeRecord, Fits, DeltaFits, Shaped, ToBits, Delta, Full, Blend, DropRange;
    var key, val := ToBits(k, key_bits), Blend(to, from, k);
    BlendAt(to, from, k, k);
    if k !in from {
      NewRecordBack(elem, key_bits, to, from, k, tail);
    } else if k !in to {
      ConcatAssoc(key, ToBits(0, 1), tail);
      TakeWritten(k, key_bits, ToBits(0, 1) + tail);
      TakeFlagBack(false, tail);
      TakeRemovalRecord(elem, key_bits, val, key + ToBits(0, 1) + tail, k, ToBits(0, 1) + tail, tail);
      BlendDrop(to, from, k);
    } else {
      ChangeRecordBack(elem, key_bits, to, from, k, tail);
    }
  }

  lemma NewRecordBack(elem: Schema, key_bits: nat, to: map<nat, Value>, from: map<nat, Value>, k: nat, tail: Bits)
    requires elem.WellFormed() && RecordFits(elem, key_bits, to, from, k)
    requires k in to && k !in Blend(to, from, k) && k !in from
    ensures TakeRecord(elem, key_bits, Blend(to, from, k), EntryDelta(elem, key_bits, to, from, k) + tail)
         == Some((Blend(to, from, k + 1), tail))
  {
    hide TakeNum, TakeRecord, Fits, DeltaFits, Shaped, ToBits, Delta, Full, Blend;
    var key, full := ToBits(k, key_bits), Full(elem, to[k]);
    ConcatAssoc(key, full, tail);
    TakeWritten(k, key_bits, full + tail);
    DecodeOverDefault(elem, to[k], tail);
    TakeNewRecord(elem, key_bits, Blend(to, from, k), key + full + tail, k, full + tail, to[k], tail);
    BlendPut(to, from, k);
  }

  lemma {:induction false} ChangeRecordBack(elem: Schema, key_bits: nat, to: map<nat, Value>,
        from: map<nat, Value>, k: nat, tail: Bits)
    requires elem.WellFormed() && RecordFits(elem, key_bits, to, from, k)
    requires k in to && k in from && to[k] != from[k]
    requires k in Blend(to, from, k) && Blend(to, from, k)[k] == from[k]
    ensures TakeRecord(elem, key_bits, Blend(to, from, k), EntryDelta(elem, key_bits, to, from, k) + tail)
         == Some((Blend(to, from, k + 1), tail))
    decreases elem, 2, 0
  {
    hide TakeNum, TakeRecord, TakeDelta, Fits, DeltaFits, Shaped, ToBits, Delta, Full, Blend;
    var key, flag, delta := ToBits(k, key_bits), ToBits(1, 1), Delta(elem, to[k], from[k]);
    ConcatAssoc(key + flag, delta, tail);
    ConcatAssoc(key, flag, delta + tail);
    TakeWritten(k, key_bits, flag + (delta + tail));
    TakeFlagBack(true, delta + tail);
    DeltaRoundTrip(elem, to[k], from[k], tail);
    TakeChangeRecord(elem, key_bits, Blend(to, from, k), key + flag + delta + tail, k, flag + (delta + tail),
      delta + tail, to[k], tail);
    BlendPut(to, from, k);
  }

  lemma TakeRecordsStep(elem: Schema, key_bits: nat, val: map<nat, Value>, n: nat, bits: Bits,
        val': map<nat, Value>, tail: Bits)
    requires n > 0 && TakeRecord(elem, key_bits, val, bits) == Some((val', tail))
    ensures TakeRecords(elem, key_bits, val, n, bits) == TakeRecords(elem, key_bits, val', n - 1, tail)
  {
    hide TakeRecord;
  }

  lemma TakeNoRecords(elem: Schema, key_bits: nat, val: map<nat, Value>, bits: Bits)
    ensures TakeRecords(elem, key_bits, val, 0, bits) == Some((val, bits))
  {
    hide TakeRecord;
  }

  lemma {:induction false} RecordsBack(elem: Schema, key_bits: nat, to: map<nat, Value>, from: map<nat, Value>,
      bound: nat, k: nat, rest: Bits)
    requires elem.WellFormed() && k <= bound && key_bits > 0
    requires forall j: nat :: j < bound ==> RecordFits(elem, key_bits, to, from, j)
    ensures
      var parts := EntryDeltas(elem, key_bits, to, from, bound);
      TakeRecords(elem, key_bits, Blend(to, from, k), Nonempty(parts, k, bound), Join(parts, k, bound) + rest)
        == Some((Blend(to, from, bound), rest))
    decreases elem, 3, bound - k
  {
    hide EntryDeltas, EntryDelta, TakeRecords, TakeRecord, RecordFits, Blend, SameAt;
    var parts := EntryDeltas(elem, key_bits, to, from, bound);
    if k == bound {
      JoinEnd(parts, k, rest);
      TakeNoRecords(elem, key_bits, Blend(to, from, k), rest);
    } else {
      var tail := Join(parts, k + 1, bound) + rest;
      EntryDeltaAt(elem, key_bits, to, from, bound, k);
      EntryDeltaEmpty(elem, key_bits, to, from, k);
      JoinFrom(parts, k, bound, rest);
      if SameAt(to, from, k) {
        JoinFromEmpty(parts, k, bound);
        BlendSame(to, from, k);
      } else {
        RecordBack(elem, key_bits, to, from, k, tail);
        TakeRecordsStep(elem, key_bits, Blend(to, from, k), Nonempty(parts, k, bound), Join(parts, k, bound) + rest,
          Blend(to, from, k + 1), tail);
      }
      RecordsBack(elem, key_bits, to, from, bound, k + 1, rest);
    }
  }

  lemma TakeMapDeltaStep(elem: Schema, max: nat, val: map<nat, Value>, bits: Bits, n: nat, b: Bits,
        r: map<nat, Value>, rest: Bits)
    requires TakeNum(bits, RequiredBits(max)) == Some((n, b))
    requires TakeRecords(elem, RequiredBits(max), val, n, b) == Some((r, rest))
    ensures TakeDelta(Map(elem, max), Entries(val), bits) == Some((Entries(r), rest))
  {
    hide TakeNum, TakeRecords;
  }

  lemma BlendWhole<T>(to: map<nat, T>, from: map<nat, T>, bound: nat)
    requires KeysBelow(to, bound) && KeysBelow(from, bound)
    ensures Blend(to, from, bound) == to
  {
    BlendAll(to, from, bound);
    forall k: nat ensures k in Blend(to, from, bound) ==> k < bound {
      BlendAt(to, from, bound, k);
    }
    assert Below(Blend(to, from, bound), bound) == Blend(to, from, bound);
  }

  lemma MapBoundCovers(to: map<nat, Value>, from: map<nat, Value>)
    ensures KeysBelow(to, MapBound(to, from)) && KeysBelow(from, MapBound(to, from))
  {
  }

  /** There is one record for each key that differs. */
  lemma {:induction false} RecordsCounted(elem: Schema, key_bits: nat, to: map<nat, Value>, from: map<nat, Value>,
      bound: nat, k: nat)
    requires key_bits > 0 && k <= bound
    ensures Nonempty(EntryDeltas(elem, key_bits, to, from, bound), 0, k) == Distance(to, from, k)
    decreases k
  {
    hide EntryDeltas, EntryDelta, SameAt;
    if k > 0 {
      RecordsCounted(elem, key_bits, to, from, bound, k - 1);
      JoinSnoc(EntryDeltas(elem, key_bits, to, from, bound), 0, k - 1);
      EntryDeltaAt(elem, key_bits, to, from, bound, k - 1);
      EntryDeltaEmpty(elem, key_bits, to, from, k - 1);
    }
  }

  lemma RecordsFit(elem: Schema, max: nat, to: map<nat, Value>, from: map<nat, Value>)
    requires MapShaped(elem, to) && MapShaped(elem, from)
    requires MapDeltaFits(elem, max, to, from)
    ensures forall k: nat :: RecordFits(elem, RequiredBits(max), to, from, k)
  {
    hide Shaped, EntryDeltaFits, SameAt;
  }

  lemma {:induction false} MapDeltaBack(elem: Schema, max: nat, to: map<nat, Value>, from: map<nat, Value>, rest: Bits)
    requires elem.WellFormed() && MapShaped(elem, to) && MapShaped(elem, from)
    requires MapDeltaFits(elem, max, to, from) && to != from
    ensures TakeDelta(Map(elem, max), Entries(from), Delta(Map(elem, max), Entries(to), Entries(from)) + rest)
         == Some((Entries(to), rest))
    decreases elem, 4
  {
    hide TakeNum, TakeRecords, EntryDeltas, ToBits, TakeDelta, HighestIndex, Blend, MapBound, KeysBelow, MapShaped,
          EntryDeltaFits, RecordFits;
    var key_bits, bound := RequiredBits(max), MapBound(to, from);
    var parts := EntryDeltas(elem, key_bits, to, from, bound);
    var n := CountAll(parts);
    MapBoundCovers(to, from);
    RecordsCounted(elem, key_bits, to, from, bound, bound);
    ConcatAssoc(ToBits(n, key_bits), JoinAll(parts), rest);
    TakeWritten(n, key_bits, JoinAll(parts) + rest);
    RecordsFit(elem, max, to, from);
    RecordsBack(elem, key_bits, to, from, bound, 0, rest);
    BlendNothing(to, from);
    BlendWhole(to, from, bound);
    TakeMapDeltaStep(elem, max, from, ToBits(n, key_bits) + JoinAll(parts) + rest, n, JoinAll(parts) + rest, to, rest);
  }

  lemma BlendNothing<T>(to: map<nat, T>, from: map<nat, T>)
    ensures Blend(to, from, 0) == from
  {
  }

  lemma SparseHeaderBack(max: nat, to: int, from: int, tail: Bits)
    requires to >= -1 && from >= -1 && (to == from || to + 1 < Pow2(RequiredBits(max)))
    ensures TakeSparseHeader(max, from, SparseHeader(max, to, from) + tail) == Some((to, tail))
  {
    hide TakeNum, ToBits;
    var key_bits := RequiredBits(max);
    if to != from {
      ConcatAssoc(ToBits(1, 1), ToBits(to + 1, key_bits), tail);
      TakeFlagBack(true, ToBits(to + 1, key_bits) + tail);
      TakeWritten(to + 1, key_bits, tail);
    } else {
      TakeFlagBack(false, tail);
    }
  }

  lemma TakeSparseDeltaStep(elem: Schema, max: nat, val: map<nat, Value>, bits: Bits, h: int, b: Bits, n: nat, b': Bits,
      r: map<nat, Value>, rest: Bits)
    requires h >= -1 && TakeSparseHeader(max, HighestIndex(val), bits) == Some((h, b))
    requires TakeNum(b, RequiredBits(h + 1)) == Some((n, b'))
    requires TakeRecords(elem, IndexBits(h), val, n, b') == Some((r, rest))
    ensures TakeDelta(SparseList(elem, max), Entries(val), bits) == Some((Entries(Below(r, h + 1)), rest))
  {
    hide TakeNum, TakeRecords, TakeSparseHeader, HighestIndex;
  }

  lemma IndexBitsFit(h: int)
    requires h >= -1
    ensures IndexBits(h) > 0 && h + 1 <= Pow2(IndexBits(h))
  {
    if h >= 0 { RequiredBitsFit(h); }
  }

  lemma HighestBelow<T>(m: map<nat, T>)
    ensures forall k :: k in m ==> k < HighestIndex(m) + 1
  {
  }

  lemma SparseRecordsFit(elem: Schema, max: nat, to: map<nat, Value>, from: map<nat, Value>)
    requires MapShaped(elem, to) && MapShaped(elem, from)
    requires SparseDeltaFits(elem, max, to, from)
    ensures
      var h := HighestIndex(to);
      forall k: nat :: k < h + 1 ==> RecordFits(elem, IndexBits(h), to, from, k)
  {
    hide Shaped, EntryDeltaFits, SameAt, HighestIndex, IndexBits;
    IndexBitsFit(HighestIndex(to));
  }

  lemma {:induction false} SparseDeltaBack(elem: Schema, max: nat, to: map<nat, Value>, from: map<nat, Value>,
        rest: Bits)
    requires elem.WellFormed() && MapShaped(elem, to) && MapShaped(elem, from)
    requires SparseDeltaFits(elem, max, to, from) && to != from
    ensures TakeDelta(SparseList(elem, max), Entries(from),
      Delta(SparseList(elem, max), Entries(to), Entries(from)) + rest)
         == Some((Entries(to), rest))
    decreases elem, 4
  {
    hide TakeNum, TakeRecords, EntryDeltas, ToBits, TakeDelta, HighestIndex, Blend, IndexBits, SparseHeader,
          TakeSparseHeader, Below, MapShaped, EntryDeltaFits, RecordFits;
    var h := HighestIndex(to);
    var header, parts := SparseHeader(max, h, HighestIndex(from)), EntryDeltas(elem, IndexBits(h), to, from, h + 1);
    var n := CountAll(parts);
    var count, body := ToBits(n, RequiredBits(h + 1)), JoinAll(parts) + rest;
    ConcatAssoc(header + count, JoinAll(parts), rest);
    ConcatAssoc(header, count, body);
    SparseHeaderBack(max, h, HighestIndex(from), count + body);
    TakeCountBack(n, h + 1, body);
    IndexBitsFit(h);
    SparseRecordsFit(elem, max, to, from);
    HighestBelow(to);
    RecordsBack(elem, IndexBits(h), to, from, h + 1, 0, rest);
    BlendNothing(to, from);
    BlendAll(to, from, h + 1);
    TakeSparseDeltaStep(elem, max, from, header + count + JoinAll(parts) + rest, h, count + body, n, body,
      Blend(to, from, h + 1), rest);
  }
}
