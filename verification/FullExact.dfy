/** When full decoding over an existing value gives exactly the encoded value. */
module FullExact {
  import opened BitStream
  import opened Schemas
  import opened CodecSpec
  import opened FullRoundTrip
  import opened Wrappers

  /** No sparse list inside `old_val` has a higher index than its counterpart in `v`. */
  ghost predicate NoLongerList(s: Schema, old_val: Value, v: Value)
    decreases s, 1
  {
    match (s, old_val, v)
    case (FixedArray(e, _), Items(ys), Items(xs)) => ItemsNoLonger(e, ys, xs)
    case (Struct(fs), Items(ys), Items(xs)) =>
      forall j :: 0 <= j < |fs| && j < |xs| && j < |ys| ==> NoLongerList(fs[j], ys[j], xs[j])
    case (ArrayList(e, _), Items(ys), Items(xs)) => ItemsNoLonger(e, ys, xs)
    case (Map(e, _), Entries(old_m), Entries(m)) => EntriesNoLonger(e, old_m, m)
    case (SparseList(e, _), Entries(old_m), Entries(m)) =>
      HighestIndex(old_m) <= HighestIndex(m) && EntriesNoLonger(e, old_m, m)
    case _ => true
  }

  ghost predicate ItemsNoLonger(elem: Schema, old_items: seq<Value>, items: seq<Value>)
    decreases elem, 2
  {
    forall j :: 0 <= j < |items| && j < |old_items| ==> NoLongerList(elem, old_items[j], items[j])
  }

  ghost predicate EntriesNoLonger(elem: Schema, old_m: map<nat, Value>, m: map<nat, Value>)
    decreases elem, 2
  {
    forall k :: k in m && k in old_m ==> NoLongerList(elem, old_m[k], m[k])
  }

  lemma {:induction false} DefaultNoLonger(s: Schema, v: Value)
    ensures NoLongerList(s, Default(s), v)
    decreases s
  {
    match (s, v)
    case (FixedArray(e, n), Items(xs)) =>
      forall j | 0 <= j < |xs| && j < n ensures NoLongerList(e, Default(e), xs[j]) {
        DefaultNoLonger(e, xs[j]);
      }
    case (Struct(fs), Items(xs)) =>
      forall j | 0 <= j < |fs| && j < |xs| ensures NoLongerList(fs[j], Default(fs[j]), xs[j]) {
        DefaultNoLonger(fs[j], xs[j]);
      }
    case _ =>
  }

  /** The merge is the encoded value exactly when no old list is longer. */
  lemma {:induction false} MergedExact(s: Schema, old_val: Value, v: Value)
    ensures Merged(s, old_val, v) == v <==> NoLongerList(s, old_val, v)
    decreases s, 1
  {
    match (s, old_val, v)
    case (FixedArray(e, _), Items(ys), Items(xs)) => ItemsExact(e, ys, xs);
    case (Struct(fs), Items(ys), Items(xs)) => FieldsExact(fs, ys, xs);
    case (ArrayList(e, _), Items(ys), Items(xs)) => ListExact(e, ys, xs);
    case (Map(e, _), Entries(old_m), Entries(m)) => EntriesExact(e, old_m, m);
    case (SparseList(e, _), Entries(old_m), Entries(m)) =>
      EntriesExact(e, old_m, m);
      StrayExact(e, old_m, m);
    case _ =>
  }

  lemma {:induction false} ItemsExact(elem: Schema, old_items: seq<Value>, items: seq<Value>)
    ensures MergedItems(elem, old_items, items) == items <==> ItemsNoLonger(elem, old_items, items)
    decreases elem, 2
  {
    hide Merged, NoLongerList;
    var merged := MergedItems(elem, old_items, items);
    forall j | 0 <= j < |items| && j < |old_items|
      ensures merged[j] == items[j] <==> NoLongerList(elem, old_items[j], items[j])
    {
      MergedExact(elem, old_items[j], items[j]);
    }
    assert ItemsNoLonger(elem, old_items, items) ==> forall j :: 0 <= j < |items| ==> merged[j] == items[j];
  }

  lemma {:induction false} ListExact(elem: Schema, old_items: seq<Value>, items: seq<Value>)
    ensures MergedItems(elem, Resize(elem, old_items, |items|), items) == items
       <==> ItemsNoLonger(elem, old_items, items)
    decreases elem, 3
  {
    hide NoLongerList, MergedItems;
    var sized := Resize(elem, old_items, |items|);
    ItemsExact(elem, sized, items);
    forall j | 0 <= j < |items|
      ensures NoLongerList(elem, sized[j], items[j]) <==> j >= |old_items| || NoLongerList(elem, old_items[j], items[j])
    {
      DefaultNoLonger(elem, items[j]);
    }
  }

  lemma {:induction false} FieldsExact(fields: seq<Schema>, old_items: seq<Value>, items: seq<Value>)
    ensures MergedFields(fields, old_items, items) == items
       <==> NoLongerList(Struct(fields), Items(old_items), Items(items))
    decreases fields, 2
  {
    hide Merged;
    var merged := MergedFields(fields, old_items, items);
    forall j | 0 <= j < |fields| && j < |items| && j < |old_items|
      ensures merged[j] == items[j] <==> NoLongerList(fields[j], old_items[j], items[j])
    {
      MergedExact(fields[j], old_items[j], items[j]);
    }
    if NoLongerList(Struct(fields), Items(old_items), Items(items)) {
      assert forall j :: 0 <= j < |items| ==> merged[j] == items[j];
    }
  }

  lemma {:induction false} EntriesExact(elem: Schema, old_m: map<nat, Value>, m: map<nat, Value>)
    ensures MergedEntries(elem, old_m, m) == m <==> EntriesNoLonger(elem, old_m, m)
    decreases elem, 2
  {
    hide Merged, NoLongerList;
    var merged := MergedEntries(elem, old_m, m);
    forall k | k in m
      ensures merged[k] == m[k] <==> k !in old_m || NoLongerList(elem, old_m[k], m[k])
    {
      MergedExact(elem, EntryOrDefault(elem, old_m, k), m[k]);
      DefaultNoLonger(elem, m[k]);
    }
  }

  lemma StrayExact(elem: Schema, old_m: map<nat, Value>, m: map<nat, Value>)
    ensures
      var h, merged := HighestIndex(m), MergedEntries(elem, old_m, m);
      WithStray(merged, old_m, h) == m <==> HighestIndex(old_m) <= h && merged == m
  {
    hide Merged;
    var h, merged := HighestIndex(m), MergedEntries(elem, old_m, m);
    if HighestIndex(old_m) > h {
      assert HighestIndex(old_m) in WithStray(merged, old_m, h);
    }
  }

  /** A full decode over any existing value of the type gives back the encoded value, and
      consumes exactly its bits, if and only if no sparse list in the existing value is
      longer than its counterpart. */
  lemma DecodeExact(s: Schema, old_val: Value, v: Value, rest: Bits)
    requires s.WellFormed() && Shaped(s, old_val) && Fits(s, v)
    ensures TakeFull(s, old_val, Full(s, v) + rest) == Some((v, rest)) <==> NoLongerList(s, old_val, v)
  {
    hide TakeFull, Full, Merged, NoLongerList, Shaped, Fits;
    FullRoundTrip.FullRoundTrip(s, old_val, v, rest);
    MergedExact(s, old_val, v);
  }

  /** Over a value-initialized object the decode is always exact. */
  lemma DecodeOverDefault(s: Schema, v: Value, rest: Bits)
    requires s.WellFormed() && Fits(s, v)
    ensures TakeFull(s, Default(s), Full(s, v) + rest) == Some((v, rest))
  {
    hide TakeFull, Full, NoLongerList, Shaped, Fits;
    DefaultShaped(s);
    DefaultNoLonger(s, v);
    DecodeExact(s, Default(s), v, rest);
  }

  /** A schema without sparse lists, such as a map of leaves. */
  predicate NoSparse(s: Schema)
  {
    match s
    case FixedArray(e, _) => NoSparse(e)
    case Struct(fs) => forall f <- fs :: NoSparse(f)
    case ArrayList(e, _) => NoSparse(e)
    case Map(e, _) => NoSparse(e)
    case SparseList(_, _) => false
    case _ => true
  }

  lemma {:induction false} NoSparseNoLonger(s: Schema, old_val: Value, v: Value)
    requires NoSparse(s)
    ensures NoLongerList(s, old_val, v)
    decreases s
  {
    match (s, old_val, v)
    case (FixedArray(e, _), Items(ys), Items(xs)) =>
      forall j | 0 <= j < |xs| && j < |ys| ensures NoLongerList(e, ys[j], xs[j]) {
        NoSparseNoLonger(e, ys[j], xs[j]);
      }
    case (Struct(fs), Items(ys), Items(xs)) =>
      forall j | 0 <= j < |fs| && j < |xs| && j < |ys| ensures NoLongerList(fs[j], ys[j], xs[j]) {
        NoSparseNoLonger(fs[j], ys[j], xs[j]);
      }
    case (ArrayList(e, _), Items(ys), Items(xs)) =>
      forall j | 0 <= j < |xs| && j < |ys| ensures NoLongerList(e, ys[j], xs[j]) {
        NoSparseNoLonger(e, ys[j], xs[j]);
      }
    case (Map(e, _), Entries(old_m), Entries(m)) =>
      forall k | k in m && k in old_m ensures NoLongerList(e, old_m[k], m[k]) {
        NoSparseNoLonger(e, old_m[k], m[k]);
      }
    case _ =>
  }

  /** Without sparse lists a full decode over any existing value is exact. */
  lemma DecodeWithoutSparse(s: Schema, old_val: Value, v: Value, rest: Bits)
    requires NoSparse(s) && s.WellFormed() && Shaped(s, old_val) && Fits(s, v)
    ensures TakeFull(s, old_val, Full(s, v) + rest) == Some((v, rest))
  {
    hide TakeFull, Full, NoLongerList, Shaped, Fits;
    NoSparseNoLonger(s, old_val, v);
    DecodeExact(s, old_val, v, rest);
  }
}
