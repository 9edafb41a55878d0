/** What the delta format leaves out, which values are within every limit, and what a sparse
    list keeps of an old one. */
module DeltaLimits {
  import opened BitUtil
  import opened BitStream
  import opened Schemas
  import opened CodecSpec
  import opened EncodingParts
  import opened FullRoundTrip
  import opened FullExact
  import opened DeltaExact
  import opened Wrappers

  // ----- unchanged values -----

  lemma LeafNonempty(s: Schema, v: Value)
    requires s.Leaf() && s.WellFormed() && Shaped(s, v)
    ensures Full(s, v) != []
  {
    match s
    case Pod(n) => FullBytes(n, v.bytes);
    case Bool => FullFlag(v.b);
    case Ranged(lo, hi) => FullNumber(lo, hi, v.n);
    case Text => FullBytes(0, v.bytes);
  }

  lemma ArrayNonempty(elem: Schema, n: nat, items: seq<Value>)
    requires elem.Leaf() && elem.WellFormed() && AllShaped(elem, items) && |items| > 0
    ensures Full(FixedArray(elem, n), Items(items)) != []
  {
    hide Full;
    FullArray(elem, n, items);
    LeafNonempty(elem, items[0]);
  }

  /** An encoder leaves no bits exactly when the value is unchanged. */
  lemma DeltaSilence(s: Schema, to: Value, from: Value)
    requires s.WellFormed() && Shaped(s, to) && Shaped(s, from)
    ensures Delta(s, to, from) == [] <==> to == from
  {
    hide Full, FieldDeltas, EntryDeltas, ItemDeltas, HighestIndex;
    match s
    case FixedArray(e, n) => if to != from { ArrayNonempty(e, n, to.items); }
    case Struct(_) =>
    case ArrayList(_, _) =>
    case Map(_, _) =>
    case SparseList(_, _) =>
    case _ => LeafNonempty(s, to);
  }

  /** A decoder that is called all the same finds nothing to decode. */
  lemma NothingToDecode(s: Schema, v: Value)
    requires s.WellFormed() && Shaped(s, v)
    ensures TakeDelta(s, v, []).None?
  {
    hide Full, TakeItems;
    match s
    case FixedArray(e, n) => NoItems(e, v.items);
    case _ =>
  }

  lemma NoItems(elem: Schema, items: seq<Value>)
    requires elem.Leaf() && elem.WellFormed() && AllShaped(elem, items) && |items| > 0
    ensures TakeItems(elem, items, 0, []).None?
  {
    NoLeaf(elem, items[0]);
  }

  lemma NoLeaf(s: Schema, v: Value)
    requires s.Leaf() && s.WellFormed()
    ensures TakeFull(s, v, []).None?
  {
  }

  /** A value can be sent against a reference, or in full when there is none. */
  ghost predicate Sendable(s: Schema, state: Value, reference: Option<Value>)
  {
    if reference.None? then Fits(s, state)
    else state != reference.value && DeltaFits(s, state, reference.value)
  }

  /** A delta survives whatever padding follows it if and only if there is a difference and
      the difference fits. */
  lemma DeliveredExactly(s: Schema, to: Value, from: Value)
    requires s.WellFormed() && Shaped(s, to) && Shaped(s, from)
    ensures (forall padding: Bits :: TakeDelta(s, from, Delta(s, to, from) + padding) == Some((to, padding)))
       <==> Sendable(s, to, Some(from))
  {
    hide TakeDelta, Delta, DeltaFits, Shaped;
    if to == from {
      DeltaSilence(s, to, from);
      NothingToDecode(s, from);
      assert Delta(s, to, from) + [] == [];
    } else {
      forall padding: Bits
        ensures TakeDelta(s, from, Delta(s, to, from) + padding) == Some((to, padding)) <==> DeltaFits(s, to, from)
      {
        DeltaExactly(s, to, from, padding);
      }
      var none: Bits := [];
      assert TakeDelta(s, from, Delta(s, to, from) + none) == Some((to, none)) <==> DeltaFits(s, to, from);
    }
  }

  // ----- values within the maximum sizes -----

  lemma CountBound(max: nat)
    ensures max < Pow2(RequiredBits(max))
  {
    RequiredBitsFit(max);
  }

  lemma {:induction false} SizesFit(s: Schema, v: Value)
    requires WithinSizes(s, v)
    ensures Fits(s, v)
    decreases s, 0
  {
    match s
    case FixedArray(e, _) =>
      forall i | 0 <= i < |v.items| ensures Fits(e, v.items[i]) { SizesFit(e, v.items[i]); }
    case Struct(fs) =>
      forall i | 0 <= i < |fs| ensures Fits(fs[i], v.items[i]) { SizesFit(fs[i], v.items[i]); }
    case ArrayList(e, _) =>
      forall i | 0 <= i < |v.items| ensures Fits(e, v.items[i]) { SizesFit(e, v.items[i]); }
    case Map(e, max) => EntrySizesFit(e, max, v.entries);
    case SparseList(e, max) => EntrySizesFit(e, max, v.entries);
    case _ =>
  }

  lemma {:induction false} EntrySizesFit(elem: Schema, max: nat, m: map<nat, Value>)
    requires KeysBelow(m, max) && EntriesWithin(elem, m)
    ensures EntriesFit(elem, max, false, m) && EntriesFit(elem, max, true, m)
    decreases elem, 1
  {
    hide Fits, WithinSizes;
    CountBound(max);
    CountFits(m, max);
    forall k | k in m ensures Fits(elem, m[k]) { SizesFit(elem, m[k]); }
  }

  lemma {:induction false} SizesDeltaFit(s: Schema, to: Value, from: Value)
    requires s.WellFormed() && WithinSizes(s, to) && WithinSizes(s, from)
    ensures DeltaFits(s, to, from)
    decreases s, 0
  {
    hide Fits;
    match s
    case Struct(fs) =>
      forall i | 0 <= i < |fs| ensures DeltaFits(fs[i], to.items[i], from.items[i]) {
        SizesDeltaFit(fs[i], to.items[i], from.items[i]);
      }
    case ArrayList(e, _) =>
      forall i | 0 <= i < |to.items|
        ensures if i < |from.items| then DeltaFits(e, to.items[i], from.items[i]) else Fits(e, to.items[i])
      {
        SizesFit(e, to.items[i]);
        if i < |from.items| { SizesDeltaFit(e, to.items[i], from.items[i]); }
      }
    case Map(e, max) => EntrySizesDeltaFit(e, max, to.entries, from.entries);
    case SparseList(e, max) => EntrySizesDeltaFit(e, max, to.entries, from.entries);
    case _ => SizesFit(s, to);
  }

  lemma {:induction false} EntrySizesDeltaFit(elem: Schema, max: nat, to: map<nat, Value>, from: map<nat, Value>)
    requires elem.WellFormed() && KeysBelow(to, max) && KeysBelow(from, max)
    requires EntriesWithin(elem, to) && EntriesWithin(elem, from)
    ensures MapDeltaFits(elem, max, to, from) && SparseDeltaFits(elem, max, to, from)
    decreases elem, 2
  {
    hide Fits, DeltaFits, WithinSizes, Distance, SameAt, HighestIndex, KeysBelow, MapBound, EntryDeltaFits;
    CountBound(max);
    KeysWithin(to, from, max);
    DistanceBound(to, from, MapBound(to, from));
    forall k: nat ensures EntryDeltaFits(elem, to, from, k) {
      EntryWithinFits(elem, to, from, k);
    }
  }

  lemma {:induction false} EntryWithinFits(elem: Schema, to: map<nat, Value>, from: map<nat, Value>, k: nat)
    requires elem.WellFormed() && EntriesWithin(elem, to) && EntriesWithin(elem, from)
    ensures EntryDeltaFits(elem, to, from, k)
    decreases elem, 1
  {
    hide Fits, DeltaFits, WithinSizes;
    if k in to {
      SizesFit(elem, to[k]);
      if k in from { SizesDeltaFit(elem, to[k], from[k]); }
    }
  }

  lemma KeysWithin(to: map<nat, Value>, from: map<nat, Value>, max: nat)
    requires KeysBelow(to, max) && KeysBelow(from, max)
    ensures MapBound(to, from) <= max && HighestIndex(to) + 1 <= max
    ensures forall k: nat :: !SameAt(to, from, k) ==> k < max
  {
  }

  lemma {:induction false} DistanceBound(to: map<nat, Value>, from: map<nat, Value>, bound: nat)
    ensures Distance(to, from, bound) <= bound
    decreases bound
  {
    if bound > 0 { DistanceBound(to, from, bound - 1); }
  }

  /** Strings of fewer than 2^15 bytes and keys below the maximum sizes are enough: every such
      value comes back from its full encoding and from its delta against any other. */
  lemma SizesEnough(s: Schema, to: Value, from: Value, rest: Bits)
    requires s.WellFormed() && WithinSizes(s, to) && WithinSizes(s, from)
    ensures TakeFull(s, Default(s), Full(s, to) + rest) == Some((to, rest))
    ensures to != from ==> TakeDelta(s, from, Delta(s, to, from) + rest) == Some((to, rest))
  {
    hide TakeFull, Full, TakeDelta, Delta, Fits, DeltaFits;
    SizesFit(s, to);
    SizesDeltaFit(s, to, from);
    DecodeOverDefault(s, to, rest);
    if to != from { DeltaExactly(s, to, from, rest); }
  }

  // ----- sparse lists -----

  /** An empty list decoded over a list with one entry leaves the entry. */
  lemma StrayEntry(rest: Bits)
    ensures
      var s, old_val, v := SparseList(Bool, 4), Entries(map[1 := Flag(true)]), Entries(map[]);
      TakeFull(s, old_val, Full(s, v) + rest) == Some((old_val, rest))
  {
    hide TakeFull, Full;
    var s := SparseList(Bool, 4);
    var old_m: map<nat, Value>, m: map<nat, Value> := map[1 := Flag(true)], map[];
    FullRoundTrip.FullRoundTrip(s, Entries(old_m), Entries(m), rest);
    HighestSingle(old_m, 1);
    assert MergedEntries(Bool, old_m, m) == map[];
  }

  lemma HighestSingle<T>(m: map<nat, T>, k: nat)
    requires k in m && forall j :: j in m ==> j == k
    ensures HighestIndex(m) == k
  {
  }
}
