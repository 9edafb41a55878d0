/** The types the codecs are generated for, and their values.  A schema stands for a C++
    type; fields of a struct are listed in declaration order. */
module Schemas {
  import opened BitUtil
  import opened Wrappers

  datatype Schema =
    | Pod(size: nat)                                // plain memory, written byte by byte
    | Bool
    | Ranged(low: int, high: int)                   // NetRangedNumber
    | Text                                          // std::string
    | FixedArray(elem: Schema, length: nat)         // T[N]
    | Struct(fields: seq<Schema>)
    | ArrayList(elem: Schema, maxSize: nat)         // NetArrayList
    | Map(elem: Schema, maxSize: nat)               // NetMap with integer keys
    | SparseList(elem: Schema, maxSize: nat)        // NetSparseList
  {
    predicate Leaf() {
      Pod? || Bool? || Ranged? || Text?
    }

    /** The limits the C++ types put on their parameters: 64-bit numbers, `int` counts and
        indices, sparse lists whose capacity, a power of two, is an `int`, and array elements
        that have `!=`. */
    predicate WellFormed() {
      match this
      case Pod(n) => n >= 1
      case Bool => true
      case Ranged(lo, hi) => lo <= hi < lo + 0x8000_0000_0000_0000
      case Text => true
      case FixedArray(e, n) => n >= 1 && e.Leaf() && e.WellFormed()
      case Struct(fs) => |fs| < 0x8000_0000 && forall f <- fs :: f.WellFormed()
      case ArrayList(e, max) => max < 0x8000_0000 && e.WellFormed()
      case Map(e, max) => max < 0x8000_0000 && e.WellFormed()
      case SparseList(e, max) => max < 0x4000_0000 && e.WellFormed()
    }
  }

  datatype Value =
    | Bytes(bytes: seq<Byte>)
    | Flag(b: bool)
    | Number(n: int)
    | Items(items: seq<Value>)
    | Entries(entries: map<nat, Value>)

  /** `v` is a value of type `s`. */
  ghost predicate Shaped(s: Schema, v: Value)
    decreases s, 0
  {
    match s
    case Pod(n) => v.Bytes? && |v.bytes| == n
    case Bool => v.Flag?
    case Ranged(lo, hi) => v.Number? && lo <= v.n <= hi
    case Text => v.Bytes?
    case FixedArray(e, n) => v.Items? && |v.items| == n && AllShaped(e, v.items)
    case Struct(fs) =>
      v.Items? && |v.items| == |fs| && forall i :: 0 <= i < |fs| ==> Shaped(fs[i], v.items[i])
    case ArrayList(e, max) => v.Items? && |v.items| <= max && AllShaped(e, v.items)
    case Map(e, _) => v.Entries? && MapShaped(e, v.entries)
    case SparseList(e, _) => v.Entries? && MapShaped(e, v.entries) && KeysBelow(v.entries, 0x7FFF_FFFF)
  }

  ghost predicate AllShaped(elem: Schema, items: seq<Value>)
    decreases elem, 1
  {
    forall i :: 0 <= i < |items| ==> Shaped(elem, items[i])
  }

  ghost predicate MapShaped(elem: Schema, m: map<nat, Value>)
    decreases elem, 1
  {
    forall k :: k in m ==> Shaped(elem, m[k])
  }

  /** Values for the fields of a struct. */
  ghost predicate FieldsAre(fields: seq<Schema>, items: seq<Value>)
  {
    |items| == |fields| && forall i :: 0 <= i < |fields| ==> fields[i].WellFormed() && Shaped(fields[i], items[i])
  }

  /** A value of type `s` that the full format can carry: strings shorter than 2^15 bytes,
      and maps and sparse lists whose entries fit. */
  ghost predicate Fits(s: Schema, v: Value)
    decreases s, 0
  {
    Shaped(s, v) &&
    match s
    case Pod(_) => true
    case Bool => true
    case Ranged(_, _) => true
    case Text => |v.bytes| < 0x8000
    case FixedArray(e, _) => AllFit(e, v.items)
    case Struct(fs) => forall i :: 0 <= i < |fs| ==> Fits(fs[i], v.items[i])
    case ArrayList(e, _) => AllFit(e, v.items)
    case Map(e, max) => EntriesFit(e, max, false, v.entries)
    case SparseList(e, max) => EntriesFit(e, max, true, v.entries)
  }

  ghost predicate AllFit(elem: Schema, items: seq<Value>)
    decreases elem, 1
  {
    forall i :: 0 <= i < |items| ==> Fits(elem, items[i])
  }

  /** Fewer entries than the count field can hold, each with a key that fits. */
  ghost predicate EntriesFit(elem: Schema, max: nat, sparse: bool, m: map<nat, Value>)
    decreases elem, 1
  {
    && |m| < Pow2(RequiredBits(max))
    && forall k :: k in m ==> KeyFits(max, sparse, m, k) && Fits(elem, m[k])
  }

  /** A key of at most the key width.  A decoder of sparse lists pushes an index that it has
      already passed up to the next one, so a larger index arrives as well, right behind
      another. */
  predicate KeyFits<T>(max: nat, sparse: bool, m: map<nat, T>, k: nat)
  {
    k < Pow2(RequiredBits(max)) || (sparse && k > 0 && k - 1 in m)
  }

  /** What the delta format can carry from one value to another.  Only what has changed is
      limited: strings, the keys of a map and how many of them there are, and the highest
      index of a sparse list. */
  ghost predicate DeltaFits(s: Schema, to: Value, from: Value)
    decreases s, 2
  {
    to == from ||
    match s
    case Struct(fs) =>
      && to.Items? && from.Items? && |to.items| == |from.items| == |fs|
      && forall i :: 0 <= i < |fs| ==> DeltaFits(fs[i], to.items[i], from.items[i])
    case ArrayList(e, _) => to.Items? && from.Items? && ItemDeltasFit(e, to.items, from.items)
    case Map(e, max) => to.Entries? && from.Entries? && MapDeltaFits(e, max, to.entries, from.entries)
    case SparseList(e, max) => to.Entries? && from.Entries? && SparseDeltaFits(e, max, to.entries, from.entries)
    case _ => Fits(s, to)
  }

  ghost predicate ItemDeltasFit(elem: Schema, to: seq<Value>, from: seq<Value>)
    decreases elem, 3
  {
    forall i :: 0 <= i < |to| ==> if i < |from| then DeltaFits(elem, to[i], from[i]) else Fits(elem, to[i])
  }

  ghost predicate MapDeltaFits(elem: Schema, max: nat, to: map<nat, Value>, from: map<nat, Value>)
    decreases elem, 4
  {
    && Distance(to, from, MapBound(to, from)) < Pow2(RequiredBits(max))
    && forall k: nat :: !SameAt(to, from, k) ==> k < Pow2(RequiredBits(max)) && EntryDeltaFits(elem, to, from, k)
  }

  ghost predicate SparseDeltaFits(elem: Schema, max: nat, to: map<nat, Value>, from: map<nat, Value>)
    decreases elem, 4
  {
    && (HighestIndex(to) == HighestIndex(from) || HighestIndex(to) + 1 < Pow2(RequiredBits(max)))
    && forall k: nat :: !SameAt(to, from, k) ==> EntryDeltaFits(elem, to, from, k)
  }

  ghost predicate EntryDeltaFits(elem: Schema, to: map<nat, Value>, from: map<nat, Value>, k: nat)
    decreases elem, 3
  {
    k in to ==> if k in from then DeltaFits(elem, to[k], from[k]) else Fits(elem, to[k])
  }

  /** Strings shorter than 2^15 bytes, keys and indices below the maximum sizes. */
  ghost predicate WithinSizes(s: Schema, v: Value)
    decreases s, 0
  {
    Shaped(s, v) &&
    match s
    case Text => |v.bytes| < 0x8000
    case FixedArray(e, _) => forall i :: 0 <= i < |v.items| ==> WithinSizes(e, v.items[i])
    case Struct(fs) => forall i :: 0 <= i < |fs| ==> WithinSizes(fs[i], v.items[i])
    case ArrayList(e, _) => forall i :: 0 <= i < |v.items| ==> WithinSizes(e, v.items[i])
    case Map(e, max) => KeysBelow(v.entries, max) && EntriesWithin(e, v.entries)
    case SparseList(e, max) => KeysBelow(v.entries, max) && EntriesWithin(e, v.entries)
    case _ => true
  }

  ghost predicate EntriesWithin(elem: Schema, m: map<nat, Value>)
    decreases elem, 1
  {
    forall k :: k in m ==> WithinSizes(elem, m[k])
  }

  /** The nearest number of a range. */
  function Clamp(n: int, low: int, high: int): (r: int)
    ensures low <= n <= high ==> r == n
    ensures n < low <= high ==> r == low
    ensures low <= high < n ==> r == high
  {
    var capped := if n < high then n else high;
    if low < capped then capped else low
  }

  /** A value-initialized object. */
  function Default(s: Schema): Value
    decreases s
  {
    match s
    case Pod(n) => Bytes(seq(n, _ => 0))
    case Bool => Flag(false)
    case Ranged(lo, hi) => Number(Clamp(0, lo, hi))
    case Text => Bytes([])
    case FixedArray(e, n) => Items(seq(n, _ => Default(e)))
    case Struct(fs) => Items(seq(|fs|, i requires 0 <= i < |fs| => Default(fs[i])))
    case ArrayList(_, _) => Items([])
    case Map(_, _) => Entries(map[])
    case SparseList(_, _) => Entries(map[])
  }

  /** Zeroes, `false`, the number of the range nearest to 0, and nothing in any container. */
  lemma {:induction false} DefaultShaped(s: Schema)
    requires s.WellFormed()
    ensures Shaped(s, Default(s))
    ensures s.Pod? ==> forall b <- Default(s).bytes :: b == 0
    ensures s.Bool? ==> !Default(s).b
    ensures s.Ranged? ==> Default(s).n == if s.low > 0 then s.low else if s.high < 0 then s.high else 0
    ensures s.Text? ==> Default(s).bytes == []
    ensures s.FixedArray? ==> forall x <- Default(s).items :: x == Default(s.elem)
    ensures s.Struct? ==> forall i :: 0 <= i < |s.fields| ==> Default(s).items[i] == Default(s.fields[i])
    ensures s.ArrayList? ==> Default(s).items == []
    ensures s.Map? || s.SparseList? ==> Default(s).entries == map[]
    decreases s
  {
    match s
    case FixedArray(e, n) => DefaultShaped(e);
    case Struct(fs) =>
      forall i | 0 <= i < |fs| ensures Shaped(fs[i], Default(s).items[i]) {
        DefaultShaped(fs[i]);
      }
    case _ =>
  }

  // ----- index ranges of maps -----

  ghost predicate AllBelow(keys: set<nat>, b: nat)
  {
    forall k :: k in keys ==> k < b
  }

  lemma {:induction false} KeysBounded(keys: set<nat>)
    ensures exists b: nat :: AllBelow(keys, b)
    decreases |keys|
  {
    if keys == {} {
      assert AllBelow(keys, 0);
    } else {
      var x :| x in keys;
      KeysBounded(keys - {x});
      var b: nat :| AllBelow(keys - {x}, b);
      var top := if x < b then b else x + 1;
      forall k | k in keys ensures k < top {
        assert k == x || k in keys - {x};
      }
      assert AllBelow(keys, top);
    }
  }

  predicate KeysBelow<T>(m: map<nat, T>, b: nat)
  {
    forall k :: k in m ==> k < b
  }

  ghost function KeyBound<T>(m: map<nat, T>): (b: nat)
    ensures KeysBelow(m, b)
  {
    KeysBounded(m.Keys);
    var b: nat :| AllBelow(m.Keys, b);
    b
  }

  /** The largest index in use, -1 for none. */
  function HighestIndex<T>(m: map<nat, T>): (h: int)
    ensures h >= -1
    ensures h >= 0 ==> h in m
    ensures forall k :: k in m ==> k <= h
  {
    HighestFrom(m, 0)
  }

  /** Looks for the first bound above all keys, from `i` on. */
  function HighestFrom<T>(m: map<nat, T>, i: nat): (h: int)
    requires i > 0 ==> exists k :: k in m && k >= i - 1
    ensures h >= -1
    ensures h >= 0 ==> h in m
    ensures KeysBelow(m, h + 1)
    decreases KeyBound(m) - i
  {
    if KeysBelow(m, i) then i - 1 else HighestFrom(m, i + 1)
  }

  /** A bound above the keys of both. */
  function MapBound<T>(to: map<nat, T>, from: map<nat, T>): nat
  {
    var a, b := HighestIndex(to), HighestIndex(from);
    (if a < b then b else a) + 1
  }

  function At<T>(m: map<nat, T>, k: nat): Option<T>
  {
    if k in m then Some(m[k]) else None
  }

  /** Both maps have the same at `k`. */
  predicate SameAt<T(==)>(to: map<nat, T>, from: map<nat, T>, k: nat)
  {
    At(to, k) == At(from, k)
  }

  /** `k` is the only key they disagree on. */
  ghost predicate DifferAt<T>(to: map<nat, T>, from: map<nat, T>, k: nat)
  {
    !SameAt(to, from, k) && forall j: nat :: j != k ==> SameAt(to, from, j)
  }

  /** On how many keys below `bound` two maps disagree. */
  function Distance<T(==)>(to: map<nat, T>, from: map<nat, T>, bound: nat): nat
  {
    if bound == 0 then 0
    else Distance(to, from, bound - 1) + if SameAt(to, from, bound - 1) then 0 else 1
  }

  function Below<T>(m: map<nat, T>, bound: int): map<nat, T>
  {
    map k | k in m && k < bound :: m[k]
  }

  /** `m` without the keys from `lo` up to but not including `hi`. */
  function DropRange<T>(m: map<nat, T>, lo: int, hi: int): map<nat, T>
  {
    map k | k in m && !(lo <= k < hi) :: m[k]
  }

  function Without<T>(m: map<nat, T>, k: nat): map<nat, T>
  {
    DropRange(m, k, k + 1)
  }

  /** `low` below the cut and `high` from there on. */
  function Blend<T>(low: map<nat, T>, high: map<nat, T>, cut: nat): map<nat, T>
  {
    if cut == 0 then high
    else if cut - 1 in low then Blend(low, high, cut - 1)[cut - 1 := low[cut - 1]]
    else DropRange(Blend(low, high, cut - 1), cut - 1, cut)
  }

  lemma {:induction false} BlendAt<T>(low: map<nat, T>, high: map<nat, T>, cut: nat, k: nat)
    ensures k in Blend(low, high, cut) <==> if k < cut then k in low else k in high
    ensures k in Blend(low, high, cut) ==>
      Blend(low, high, cut)[k] == if k < cut then low[k] else high[k]
    decreases cut
  {
    if cut > 0 { BlendAt(low, high, cut - 1, k); }
  }

  lemma BlendStep<T>(low: map<nat, T>, high: map<nat, T>, cur: nat, i: nat)
    requires cur <= i && i in low && forall k :: cur <= k < i ==> k !in low
    ensures DropRange(Blend(low, high, cur), cur, i)[i := low[i]] == Blend(low, high, i + 1)
  {
    var r := DropRange(Blend(low, high, cur), cur, i)[i := low[i]];
    forall k: nat
      ensures k in r <==> k in Blend(low, high, i + 1)
      ensures k in r ==> r[k] == Blend(low, high, i + 1)[k]
    {
      BlendAt(low, high, cur, k);
      BlendAt(low, high, i + 1, k);
    }
  }

  lemma BlendAll<T>(low: map<nat, T>, high: map<nat, T>, cut: nat)
    requires forall k :: k in low ==> k < cut
    ensures Below(Blend(low, high, cut), cut) == low
  {
    forall k: nat
      ensures k in Blend(low, high, cut) <==> if k < cut then k in low else k in high
      ensures k in Blend(low, high, cut) ==>
        Blend(low, high, cut)[k] == if k < cut then low[k] else high[k]
    {
      BlendAt(low, high, cut, k);
    }
  }

  function BlendItems<T>(low: seq<T>, high: seq<T>, cut: nat): seq<T>
    requires cut <= |low| == |high|
  {
    low[..cut] + high[cut..]
  }

  lemma BlendItemsStep<T>(low: seq<T>, high: seq<T>, i: nat)
    requires i < |low| == |high|
    ensures BlendItems(low, high, i)[i := low[i]] == BlendItems(low, high, i + 1)
    ensures BlendItems(low, high, i)[i] == high[i]
  {
  }

  lemma BlendItemsEnds<T>(low: seq<T>, high: seq<T>)
    requires |low| == |high|
    ensures BlendItems(low, high, 0) == high && BlendItems(low, high, |low|) == low
  {
  }

  lemma {:induction false} CountFits<T>(m: map<nat, T>, bound: nat)
    requires forall k :: k in m ==> k < bound
    ensures |m| <= bound
    decreases bound
  {
    if bound == 0 {
      assert m == map[];
    } else if bound - 1 in m {
      var smaller := m - {bound - 1};
      assert m == smaller[bound - 1 := m[bound - 1]];
      CountFits(smaller, bound - 1);
    } else {
      CountFits(m, bound - 1);
    }
  }
}
