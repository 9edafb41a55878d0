/** The formats, as functions between values and bit sequences: full encoding and delta
    encoding, and what a decoder makes of an arbitrary bit sequence.  Values that are not of
    the schema's type have no encoding and nothing is decoded over them. */
module CodecSpec {
  import opened BitUtil
  import opened BitStream
  import opened Joins
  import opened Schemas
  import opened Wrappers

  // ----- full encoding -----

  function Full(s: Schema, v: Value): Bits
    decreases s, 1
  {
    match s
    case Pod(_) => if v.Bytes? then BytesToBits(v.bytes) else []
    case Bool => if v.Flag? then ToBits(if v.b then 1 else 0, 1) else []
    case Ranged(lo, hi) =>
      if v.Number? && lo <= v.n && lo <= hi then ToBits(v.n - lo, RequiredBits(hi - lo)) else []
    case Text => if v.Bytes? then TextHeader(|v.bytes|) + BytesToBits(v.bytes) else []
    case FixedArray(e, _) => if v.Items? then JoinAll(ItemParts(e, v.items)) else []
    case Struct(fs) => if v.Items? then JoinAll(FieldParts(fs, v.items)) else []
    case ArrayList(e, max) =>
      if v.Items? then ToBits(|v.items|, RequiredBits(max)) + JoinAll(ItemParts(e, v.items)) else []
    case Map(e, max) => if v.Entries? then FullEntries(e, RequiredBits(max), v.entries) else []
    case SparseList(e, max) => if v.Entries? then FullEntries(e, RequiredBits(max), v.entries) else []
  }

  function TextHeader(length: nat): Bits
  {
    if length > 127 then ToBits(1, 1) + ToBits(length, 15) else ToBits(0, 1) + ToBits(length, 7)
  }

  function ItemParts(elem: Schema, items: seq<Value>): (parts: seq<Bits>)
    ensures |parts| == |items|
    decreases elem, 2
  {
    seq(|items|, i requires 0 <= i < |items| => Full(elem, items[i]))
  }

  function FieldParts(fields: seq<Schema>, items: seq<Value>): (parts: seq<Bits>)
    ensures |parts| == |fields|
    decreases fields, 0
  {
    seq(|fields|, i requires 0 <= i < |fields| => if i < |items| then Full(fields[i], items[i]) else [])
  }

  /** A count and then the entries in ascending order, each behind its key. */
  function FullEntries(elem: Schema, key_bits: nat, m: map<nat, Value>): Bits
    decreases elem, 3
  {
    ToBits(|m|, key_bits) + JoinAll(EntryParts(elem, key_bits, m, HighestIndex(m) + 1))
  }

  function EntryParts(elem: Schema, key_bits: nat, m: map<nat, Value>, bound: nat): (parts: seq<Bits>)
    ensures |parts| == bound
    decreases elem, 2
  {
    seq(bound, k requires 0 <= k => if k in m then ToBits(k, key_bits) + Full(elem, m[k]) else [])
  }

  // ----- delta encoding -----

  /** Empty for an unchanged value. */
  function Delta(s: Schema, to: Value, from: Value): Bits
    decreases s, 3
  {
    if to == from then []
    else match s
      case Struct(fs) => if to.Items? && from.Items? then StructDelta(fs, to.items, from.items) else []
      case ArrayList(e, max) => if to.Items? && from.Items? then ListDelta(e, max, to.items, from.items) else []
      case Map(e, max) => if to.Entries? && from.Entries? then MapDelta(e, max, to.entries, from.entries) else []
      case SparseList(e, max) =>
        if to.Entries? && from.Entries? then SparseDelta(e, max, to.entries, from.entries) else []
      case _ => Full(s, to)
  }

  function StructDelta(fields: seq<Schema>, to: seq<Value>, from: seq<Value>): Bits
    decreases fields, 1
  {
    var parts := FieldDeltas(fields, to, from);
    ToBits(CountAll(parts), RequiredBits(|fields|)) + JoinAll(parts)
  }

  function ListDelta(elem: Schema, max: nat, to: seq<Value>, from: seq<Value>): Bits
    decreases elem, 6
  {
    if |to| == |from| then ToBits(0, 1) + JoinAll(ItemDeltas(elem, to, from))
    else ToBits(1, 1) + ToBits(|to|, RequiredBits(max)) + JoinAll(ItemDeltas(elem, to, from))
  }

  function MapDelta(elem: Schema, max: nat, to: map<nat, Value>, from: map<nat, Value>): Bits
    decreases elem, 6
  {
    var parts := EntryDeltas(elem, RequiredBits(max), to, from, MapBound(to, from));
    ToBits(CountAll(parts), RequiredBits(max)) + JoinAll(parts)
  }

  function SparseDelta(elem: Schema, max: nat, to: map<nat, Value>, from: map<nat, Value>): Bits
    decreases elem, 6
  {
    var h := HighestIndex(to);
    var parts := EntryDeltas(elem, IndexBits(h), to, from, h + 1);
    SparseHeader(max, h, HighestIndex(from)) + ToBits(CountAll(parts), RequiredBits(h + 1)) + JoinAll(parts)
  }

  /** `GetRequiredBits` of a highest index, an `int` that is -1 for an empty list. */
  function IndexBits(highest: int): nat
  {
    if highest < 0 then 32 else RequiredBits(highest)
  }

  function SparseHeader(max: nat, to: int, from: int): Bits
    requires to >= -1
  {
    if to != from then ToBits(1, 1) + ToBits(to + 1, RequiredBits(max)) else ToBits(0, 1)
  }

  function FieldDeltas(fields: seq<Schema>, to: seq<Value>, from: seq<Value>): (parts: seq<Bits>)
    ensures |parts| == |fields|
    decreases fields, 0
  {
    seq(|fields|, i requires 0 <= i < |fields| =>
      if i >= |to| || i >= |from| || to[i] == from[i] then []
      else ToBits(i, RequiredBits(|fields|)) + Delta(fields[i], to[i], from[i]))
  }

  /** Items both lists have carry a changed flag; items past the end of `from` come in full. */
  function ItemDeltas(elem: Schema, to: seq<Value>, from: seq<Value>): (parts: seq<Bits>)
    ensures |parts| == |to|
    decreases elem, 4
  {
    seq(|to|, i requires 0 <= i < |to| =>
      if i >= |from| then Full(elem, to[i])
      else ToBits(if to[i] == from[i] then 0 else 1, 1) + Delta(elem, to[i], from[i]))
  }

  /** One record for each index below `bound` that the two maps disagree on. */
  function EntryDeltas(elem: Schema, bits: nat, to: map<nat, Value>, from: map<nat, Value>, bound: nat)
    : (parts: seq<Bits>)
    ensures |parts| == bound
    decreases elem, 5
  {
    seq(bound, k requires 0 <= k => EntryDelta(elem, bits, to, from, k))
  }

  function EntryDelta(elem: Schema, bits: nat, to: map<nat, Value>, from: map<nat, Value>, k: nat): Bits
    decreases elem, 4
  {
    if k in to && k !in from then ToBits(k, bits) + Full(elem, to[k])
    else if k !in to && k in from then ToBits(k, bits) + ToBits(0, 1)
    else if k in to && to[k] != from[k] then
      ToBits(k, bits) + ToBits(1, 1) + Delta(elem, to[k], from[k])
    else []
  }

  // ----- full decoding -----

  function TakeBytes(bits: Bits, n: nat): (r: Option<(seq<Byte>, Bits)>)
    ensures r.Some? ==> |r.value.0| == n
  {
    if n == 0 then Some(([], bits))
    else
      var (b, rest) :- TakeNum(bits, 8);
      var (bs, rest') :- TakeBytes(rest, n - 1);
      Some(([LowByte(b)] + bs, rest'))
  }

  /** Decodes over the existing value `val`; `None` is an exception. */
  function TakeFull(s: Schema, val: Value, bits: Bits): Option<(Value, Bits)>
    decreases s, 1, 0
  {
    match s
    case Pod(n) =>
      var (bs, rest) :- TakeBytes(bits, n);
      Some((Bytes(bs), rest))
    case Bool =>
      var (b, rest) :- TakeNum(bits, 1);
      Some((Flag(b != 0), rest))
    case Ranged(lo, hi) =>
      if lo > hi then None
      else
        var (n, rest) :- TakeNum(bits, RequiredBits(hi - lo));
        Some((Number(Clamp(n + lo, lo, hi)), rest))
    case Text => TakeText(bits)
    case FixedArray(e, n) =>
      if !val.Items? then None
      else
        var (items, rest) :- TakeItems(e, val.items, 0, bits);
        Some((Items(items), rest))
    case Struct(fs) =>
      if !val.Items? || |val.items| != |fs| then None
      else
        var (items, rest) :- TakeFields(fs, val.items, 0, bits);
        Some((Items(items), rest))
    case ArrayList(e, max) =>
      if !val.Items? then None
      else
        var (n, b) :- TakeNum(bits, RequiredBits(max));
        if n > max then None
        else
          var (items, rest) :- TakeItems(e, Resize(e, val.items, n), 0, b);
          Some((Items(items), rest))
    case Map(e, max) =>
      if !val.Entries? then None
      else
        var (m, rest) :- TakeAllEntries(e, RequiredBits(max), false, val.entries, bits);
        Some((Entries(m), rest))
    case SparseList(e, max) =>
      if !val.Entries? then None
      else
        var (m, rest) :- TakeAllEntries(e, RequiredBits(max), true, val.entries, bits);
        Some((Entries(m), rest))
  }

  function TakeText(bits: Bits): Option<(Value, Bits)>
  {
    var (long, b) :- TakeNum(bits, 1);
    var (length, b') :- TakeNum(b, if long != 0 then 15 else 7);
    var (bs, rest) :- TakeBytes(b', length);
    Some((Bytes(bs), rest))
  }

  /** `std::vector::resize` */
  function Resize(elem: Schema, items: seq<Value>, n: nat): (r: seq<Value>)
    ensures |r| == n
    ensures forall i :: 0 <= i < n ==> r[i] == if i < |items| then items[i] else Default(elem)
  {
    if n <= |items| then items[..n] else items + seq(n - |items|, _ => Default(elem))
  }

  /** Decodes over the items from `i` on. */
  function TakeItems(elem: Schema, items: seq<Value>, i: nat, bits: Bits): (r: Option<(seq<Value>, Bits)>)
    requires i <= |items|
    ensures r.Some? ==> |r.value.0| == |items|
    decreases elem, 2, |items| - i
  {
    if i == |items| then Some((items, bits))
    else
      var (v, rest) :- TakeFull(elem, items[i], bits);
      TakeItems(elem, items[i := v], i + 1, rest)
  }

  function TakeFields(fields: seq<Schema>, items: seq<Value>, i: nat, bits: Bits): (r: Option<(seq<Value>, Bits)>)
    requires i <= |items| == |fields|
    ensures r.Some? ==> |r.value.0| == |items|
    decreases fields, 0, |items| - i
  {
    if i == |items| then Some((items, bits))
    else
      var (v, rest) :- TakeFull(fields[i], items[i], bits);
      TakeFields(fields, items[i := v], i + 1, rest)
  }

  function TakeAllEntries(elem: Schema, key_bits: nat, sparse: bool, val: map<nat, Value>, bits: Bits)
    : Option<(map<nat, Value>, Bits)>
    decreases elem, 4, 0
  {
    var (n, b) :- TakeNum(bits, key_bits);
    match TakeEntries(elem, key_bits, sparse, val, 0, n, b)
    case Thrown => None
    case Walk(m, cur, rest) => Some((Finish(sparse, m, cur), rest))
  }

  /** A map or sparse list that has been gone through below `cur`, and what is left to read. */
  datatype EntryWalk = Thrown | Walk(m: map<nat, Value>, cur: nat, rest: Bits)

  /** Merges `n` entries into an existing map or sparse list. */
  function TakeEntries(elem: Schema, key_bits: nat, sparse: bool, val: map<nat, Value>, cur: nat, n: nat, bits: Bits)
    : EntryWalk
    decreases elem, 3, n
  {
    if n == 0 then Walk(val, cur, bits)
    else
      match TakeEntry(elem, key_bits, sparse, val, cur, bits)
      case Thrown => Thrown
      case Walk(val', cur', rest) => TakeEntries(elem, key_bits, sparse, val', cur', n - 1, rest)
  }

  /** One entry.  Existing entries the walk passes over are removed.  A key out of order is
      decoded in place by a map and pushed up to the next index by a list. */
  function TakeEntry(elem: Schema, key_bits: nat, sparse: bool, val: map<nat, Value>, cur: nat, bits: Bits): EntryWalk
    decreases elem, 2, 0
  {
    match TakeNum(bits, key_bits)
    case None => Thrown
    case Some((k, b)) =>
      var index := if sparse && k < cur then cur else k;
      match TakeFull(elem, EntryOrDefault(elem, val, index), b)
      case None => Thrown
      case Some((v, rest)) => Walk(DropRange(val, cur, index)[index := v], NextIndex(cur, index), rest)
  }

  function NextIndex(cur: nat, index: nat): nat
  {
    if index < cur then cur else index + 1
  }

  function EntryOrDefault(elem: Schema, val: map<nat, Value>, k: nat): Value
  {
    if k in val then val[k] else Default(elem)
  }

  /** What is left over is removed: everything by a map, all but the highest index by a
      sparse list, whose loop stops one short. */
  function Finish(sparse: bool, val: map<nat, Value>, cur: nat): map<nat, Value>
  {
    if sparse then DropRange(val, cur, HighestIndex(val)) else Below(val, cur)
  }

  // ----- delta decoding -----

  function TakeDelta(s: Schema, val: Value, bits: Bits): Option<(Value, Bits)>
    decreases s, 1, 1
  {
    match s
    case Struct(fs) => if val.Items? then TakeStructDelta(fs, val.items, bits) else None
    case ArrayList(e, max) =>
      if !val.Items? then None
      else
        var (items', rest) :- TakeListDelta(e, max, val.items, bits);
        Some((Items(items'), rest))
    case Map(e, max) => if val.Entries? then TakeMapDelta(e, max, val.entries, bits) else None
    case SparseList(e, max) => if val.Entries? then TakeSparseDelta(e, max, val.entries, bits) else None
    case _ => TakeFull(s, val, bits)
  }

  function TakeStructDelta(fields: seq<Schema>, items: seq<Value>, bits: Bits): Option<(Value, Bits)>
    decreases fields, 1, 0
  {
    if |items| != |fields| then None
    else
      var (n, b) :- TakeNum(bits, RequiredBits(|fields|));
      var (next, b') :- TakeNum(b, RequiredBits(|fields|));
      var (items', rest) :- TakeFieldDeltas(fields, items, 0, n, next, b');
      Some((Items(items'), rest))
  }

  function TakeMapDelta(elem: Schema, max: nat, m: map<nat, Value>, bits: Bits): Option<(Value, Bits)>
    decreases elem, 4, 0
  {
    var (n, b) :- TakeNum(bits, RequiredBits(max));
    var (m', rest) :- TakeRecords(elem, RequiredBits(max), m, n, b);
    Some((Entries(m'), rest))
  }

  function TakeSparseDelta(elem: Schema, max: nat, m: map<nat, Value>, bits: Bits): Option<(Value, Bits)>
    decreases elem, 4, 0
  {
    var (highest, b) :- TakeSparseHeader(max, HighestIndex(m), bits);
    var (n, b') :- TakeNum(b, RequiredBits(highest + 1));
    var (m', rest) :- TakeRecords(elem, IndexBits(highest), m, n, b');
    Some((Entries(Below(m', highest + 1)), rest))
  }

  function TakeSparseHeader(max: nat, current: int, bits: Bits): (r: Option<(int, Bits)>)
    requires current >= -1
    ensures r.Some? ==> r.value.0 >= -1
  {
    var (resized, b) :- TakeNum(bits, 1);
    if resized == 0 then Some((current, b))
    else
      var (size, rest) :- TakeNum(b, RequiredBits(max));
      Some((size - 1, rest))
  }

  /** Visits the fields from `i` on; `next` is the next one to decode while any remain. */
  function TakeFieldDeltas(fields: seq<Schema>, items: seq<Value>, i: nat, remaining: nat, next: nat, bits: Bits)
    : (r: Option<(seq<Value>, Bits)>)
    requires i <= |items| == |fields|
    decreases fields, 0, |items| - i
  {
    if i == |items| then Some((items, bits))
    else if remaining == 0 || i != next then TakeFieldDeltas(fields, items, i + 1, remaining, next, bits)
    else
      var (v, b) :- TakeDelta(fields[i], items[i], bits);
      if remaining == 1 then TakeFieldDeltas(fields, items[i := v], i + 1, 0, next, b)
      else
        var (next', rest) :- TakeNum(b, RequiredBits(|fields|));
        TakeFieldDeltas(fields, items[i := v], i + 1, remaining - 1, next', rest)
  }

  function TakeListDelta(elem: Schema, max: nat, items: seq<Value>, bits: Bits): Option<(seq<Value>, Bits)>
    decreases elem, 4, 0
  {
    var (resized, b) :- TakeNum(bits, 1);
    if resized == 0 then TakeItemDeltas(elem, items, 0, |items|, b)
    else
      var (n, b') :- TakeNum(b, RequiredBits(max));
      var common := if |items| < n then |items| else n;
      var (items', b'') :- TakeItemDeltas(elem, items, 0, common, b');
      TakeNewItems(elem, max, items'[..common], n, b'')
  }

  function TakeItemDeltas(elem: Schema, items: seq<Value>, i: nat, n: nat, bits: Bits)
    : (r: Option<(seq<Value>, Bits)>)
    requires i <= n <= |items|
    ensures r.Some? ==> |r.value.0| == |items|
    decreases elem, 2, n - i
  {
    if i == n then Some((items, bits))
    else
      var (changed, b) :- TakeNum(bits, 1);
      if changed == 0 then TakeItemDeltas(elem, items, i + 1, n, b)
      else
        var (v, rest) :- TakeDelta(elem, items[i], b);
        TakeItemDeltas(elem, items[i := v], i + 1, n, rest)
  }

  /** Appends full items up to size `n`; beyond the list's maximum size it throws. */
  function TakeNewItems(elem: Schema, max: nat, items: seq<Value>, n: nat, bits: Bits): Option<(seq<Value>, Bits)>
    decreases elem, 2, n - |items|
  {
    if |items| >= n then Some((items, bits))
    else if |items| >= max then None
    else
      var (v, rest) :- TakeFull(elem, Default(elem), bits);
      TakeNewItems(elem, max, items + [v], n, rest)
  }

  /** `n` records: a full value for a new index, a flag and then a delta or a removal for an
      existing one. */
  function TakeRecords(elem: Schema, key_bits: nat, val: map<nat, Value>, n: nat, bits: Bits)
    : Option<(map<nat, Value>, Bits)>
    decreases elem, 3, n
  {
    if n == 0 then Some((val, bits))
    else
      var (val', rest) :- TakeRecord(elem, key_bits, val, bits);
      TakeRecords(elem, key_bits, val', n - 1, rest)
  }

  function TakeRecord(elem: Schema, key_bits: nat, val: map<nat, Value>, bits: Bits)
    : Option<(map<nat, Value>, Bits)>
    decreases elem, 2, 0
  {
    var (k, b) :- TakeNum(bits, key_bits);
    if k !in val then
      var (v, rest) :- TakeFull(elem, Default(elem), b);
      Some((val[k := v], rest))
    else
      var (existing, b') :- TakeNum(b, 1);
      if existing == 0 then Some((DropRange(val, k, k + 1), b'))
      else
        var (v, rest) :- TakeDelta(elem, val[k], b');
        Some((val[k := v], rest))
  }
}
