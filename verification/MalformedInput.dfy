/** What the decoders make of input that no encoder has written. */
module MalformedInput {
  import opened BitUtil
  import opened BitStream
  import opened Schemas
  import opened CodecSpec
  import opened FullRoundTrip
  import opened FullExact
  import opened DeltaRoundTrip
  import opened Wrappers

  /** A number above its range is cut to the upper end; one below it cannot be sent. */
  lemma NumberRead(low: int, high: int, val: Value, bits: Bits)
    requires low <= high
    ensures
      var w := RequiredBits(high - low);
      TakeFull(Ranged(low, high), val, bits)
        == if |bits| < w then None
           else
             var n := low + FromBits(bits[..w]);
             Some((Number(if n > high then high else n), bits[w..]))
  {
    hide FromBits, RequiredBits;
  }

  /** A list longer than its maximum size throws. */
  lemma ListTooLong(elem: Schema, max: nat, items: seq<Value>, bits: Bits)
    requires |bits| >= RequiredBits(max) && FromBits(bits[..RequiredBits(max)]) > max
    ensures TakeFull(ArrayList(elem, max), Items(items), bits).None?
  {
    hide FromBits, RequiredBits;
  }

  /** So does a change of length past the maximum size, once its items have been read up to it. */
  lemma ListDeltaTooLong(elem: Schema, max: nat, items: seq<Value>, bits: Bits)
    requires |items| <= max
    requires |bits| >= RequiredBits(max) && FromBits(bits[..RequiredBits(max)]) > max
    ensures TakeDelta(ArrayList(elem, max), Items(items), [true] + bits).None?
  {
    hide RequiredBits, TakeItemDeltas, TakeNewItems;
    var w := RequiredBits(max);
    assert ([true] + bits)[..1] == [true] && ([true] + bits)[1..] == bits;
    assert [true][1..] == [];
    assert FromBits([true]) == 1;
    var n := FromBits(bits[..w]);
    var read := TakeItemDeltas(elem, items, 0, |items|, bits[w..]);
    if read.Some? {
      assert read.value.0[..|items|] == read.value.0;
      TooManyNew(elem, max, read.value.0, n, read.value.1);
    }
  }

  lemma {:induction false} TooManyNew(elem: Schema, max: nat, items: seq<Value>, n: nat, bits: Bits)
    requires |items| <= max < n
    ensures TakeNewItems(elem, max, items, n, bits).None?
    decreases max - |items|
  {
    hide TakeFull, Default;
    if |items| < max {
      var r := TakeFull(elem, Default(elem), bits);
      if r.Some? { TooManyNew(elem, max, items + [r.value.0], n, r.value.1); }
    }
  }

  // ----- structs -----

  /** No field is decoded for an index that has been passed or that no field has. */
  lemma {:induction false} FieldsUntouched(fields: seq<Schema>, items: seq<Value>, i: nat, remaining: nat, next: nat,
      bits: Bits)
    requires i <= |items| == |fields| && (next < i || next >= |fields|)
    ensures TakeFieldDeltas(fields, items, i, remaining, next, bits) == Some((items, bits))
    decreases |items| - i
  {
    hide TakeDelta;
    if i < |items| { FieldsUntouched(fields, items, i + 1, remaining, next, bits); }
  }

  lemma {:induction false} SkipTo(fields: seq<Schema>, items: seq<Value>, i: nat, remaining: nat, next: nat, bits: Bits)
    requires i <= next < |items| == |fields|
    ensures TakeFieldDeltas(fields, items, i, remaining, next, bits)
         == TakeFieldDeltas(fields, items, next, remaining, next, bits)
    decreases next - i
  {
    hide TakeDelta;
    if i < next { SkipTo(fields, items, i + 1, remaining, next, bits); }
  }

  /** A struct whose second index is not behind the first: the first field changes, and the
      decoder stops right behind that index, however many more changes were announced. */
  lemma IndexNotAhead(fields: seq<Schema>, items: seq<Value>, to: Value, n: nat, i: nat, next: nat, rest: Bits)
    requires i < |fields| == |items| && 2 <= n < Pow2(RequiredBits(|fields|)) && next <= i
    requires fields[i].WellFormed() && Shaped(fields[i], items[i]) && DeltaFits(fields[i], to, items[i])
    requires Shaped(fields[i], to) && to != items[i]
    ensures
      var w := RequiredBits(|fields|);
      TakeDelta(Struct(fields), Items(items),
          ToBits(n, w) + (ToBits(i, w) + (Delta(fields[i], to, items[i]) + (ToBits(next, w) + rest))))
        == Some((Items(items[i := to]), rest))
  {
    hide Delta, TakeDelta, ToBits, FromBits, RequiredBits, Shaped, DeltaFits, TakeNum;
    var w := RequiredBits(|fields|);
    var tail := ToBits(next, w) + rest;
    var body := Delta(fields[i], to, items[i]) + tail;
    RequiredBitsFit(|fields|);
    TakeWritten(n, w, ToBits(i, w) + body);
    TakeCountBack(i, |fields|, body);
    SkipTo(fields, items, 0, n, i, body);
    DeltaRoundTrip.DeltaRoundTrip(fields[i], to, items[i], tail);
    TakeCountBack(next, |fields|, rest);
    FieldsUntouched(fields, items[i := to], i + 1, n - 1, next, rest);
    OneFieldRead(fields, items, i, n, body, to, tail, next, rest);
    StructRead(fields, items, ToBits(n, w) + (ToBits(i, w) + body), n, ToBits(i, w) + body, i, body);
  }

  lemma OneFieldRead(fields: seq<Schema>, items: seq<Value>, i: nat, n: nat, body: Bits, to: Value, tail: Bits,
      next: nat, rest: Bits)
    requires i < |fields| == |items| && n >= 2
    requires TakeDelta(fields[i], items[i], body) == Some((to, tail))
    requires TakeNum(tail, RequiredBits(|fields|)) == Some((next, rest))
    ensures TakeFieldDeltas(fields, items, i, n, i, body)
         == TakeFieldDeltas(fields, items[i := to], i + 1, n - 1, next, rest)
  {
    hide TakeDelta, TakeNum, RequiredBits;
  }

  lemma StructRead(fields: seq<Schema>, items: seq<Value>, bits: Bits, n: nat, b: Bits, next: nat, body: Bits)
    requires |items| == |fields|
    requires TakeNum(bits, RequiredBits(|fields|)) == Some((n, b))
    requires TakeNum(b, RequiredBits(|fields|)) == Some((next, body))
    ensures TakeDelta(Struct(fields), Items(items), bits)
         == var r := TakeFieldDeltas(fields, items, 0, n, next, body);
            if r.None? then None else Some((Items(r.value.0), r.value.1))
  {
    hide TakeNum, RequiredBits, TakeFieldDeltas;
  }

  // ----- maps in any order -----

  /** The entries as they come, each behind its key. */
  function EntryStream(elem: Schema, w: nat, es: seq<(nat, Value)>): Bits
  {
    if es == [] then []
    else ToBits(es[0].0, w) + (Full(elem, es[0].1) + EntryStream(elem, w, es[1..]))
  }

  /** The map they leave when each is assigned in turn. */
  function Assigned(m: map<nat, Value>, es: seq<(nat, Value)>): map<nat, Value>
    decreases |es|
  {
    if es == [] then m else Assigned(m[es[0].0 := es[0].1], es[1..])
  }

  ghost predicate CanBeRead(elem: Schema, w: nat, es: seq<(nat, Value)>)
  {
    forall e <- es :: e.0 < Pow2(w) && Fits(elem, e.1)
  }

  lemma EntryAssigned(m: map<nat, Value>, val: map<nat, Value>, cur: nat, k: nat, v: Value)
    requires KeysBelow(m, cur)
    ensures DropRange(Blend(m, val, cur), cur, k)[k := v] == Blend(m[k := v], val, NextIndex(cur, k))
  {
    hide Blend;
    var next := NextIndex(cur, k);
    var a, b := DropRange(Blend(m, val, cur), cur, k)[k := v], Blend(m[k := v], val, next);
    forall j: nat
      ensures j in a <==> j in b
      ensures j in a ==> a[j] == b[j]
    {
      BlendAt(m, val, cur, j);
      BlendAt(m[k := v], val, next, j);
    }
  }

  /** One entry, wherever its key lies. */
  lemma EntryRead(elem: Schema, w: nat, m: map<nat, Value>, val: map<nat, Value>, cur: nat, k: nat, v: Value,
      rest: Bits)
    requires elem.WellFormed() && NoSparse(elem) && MapShaped(elem, m) && MapShaped(elem, val)
    requires KeysBelow(m, cur) && k < Pow2(w) && Fits(elem, v)
    ensures TakeEntry(elem, w, false, Blend(m, val, cur), cur, ToBits(k, w) + (Full(elem, v) + rest))
         == Walk(Blend(m[k := v], val, NextIndex(cur, k)), NextIndex(cur, k), rest)
  {
    hide TakeFull, TakeNum, ToBits, Full, Blend, Fits, Shaped, Default, NextIndex, NoSparse;
    TakeWritten(k, w, Full(elem, v) + rest);
    DefaultShaped(elem);
    BlendAt(m, val, cur, k);
    DecodeWithoutSparse(elem, EntryOrDefault(elem, Blend(m, val, cur), k), v, rest);
    EntryAssigned(m, val, cur, k, v);
  }

  lemma {:induction false} EntriesRead(elem: Schema, w: nat, m: map<nat, Value>, val: map<nat, Value>, cur: nat,
      es: seq<(nat, Value)>, rest: Bits)
    requires elem.WellFormed() && NoSparse(elem) && MapShaped(elem, m) && MapShaped(elem, val)
    requires KeysBelow(m, cur) && CanBeRead(elem, w, es)
    ensures
      var r := TakeEntries(elem, w, false, Blend(m, val, cur), cur, |es|, EntryStream(elem, w, es) + rest);
      && r.Walk? && r.rest == rest && KeysBelow(Assigned(m, es), r.cur)
      && r.m == Blend(Assigned(m, es), val, r.cur)
    decreases |es|
  {
    hide TakeEntry, TakeEntries, Full, Blend, Fits, Shaped, ToBits, NoSparse;
    if es == [] {
      assert EntryStream(elem, w, es) + rest == rest;
      TakeEntriesEnd(elem, w, false, Blend(m, val, cur), cur, rest);
    } else {
      var k, v, more := es[0].0, es[0].1, EntryStream(elem, w, es[1..]) + rest;
      assert es[0] in es && forall e <- es[1..] :: e in es;
      EntryRead(elem, w, m, val, cur, k, v, more);
      StreamFront(elem, w, es, rest);
      var next := NextIndex(cur, k);
      TakeEntriesStep(elem, w, false, Blend(m, val, cur), cur, |es|, EntryStream(elem, w, es) + rest,
        Blend(m[k := v], val, next), next, more);
      FitsShaped(elem, v);
      EntriesRead(elem, w, m[k := v], val, next, es[1..], rest);
    }
  }

  lemma FitsShaped(elem: Schema, v: Value)
    requires Fits(elem, v)
    ensures Shaped(elem, v)
  {
  }

  lemma StreamFront(elem: Schema, w: nat, es: seq<(nat, Value)>, rest: Bits)
    requires es != []
    ensures EntryStream(elem, w, es) + rest
         == ToBits(es[0].0, w) + (Full(elem, es[0].1) + (EntryStream(elem, w, es[1..]) + rest))
  {
    hide ToBits, Full;
    var key, value, more := ToBits(es[0].0, w), Full(elem, es[0].1), EntryStream(elem, w, es[1..]);
    ConcatAssoc(key, value + more, rest);
    ConcatAssoc(value, more, rest);
  }

  /** A map decodes its entries in whatever order they come and however often a key is
      repeated: over any existing map they leave what assigning them in turn leaves. */
  lemma MapAnyOrder(elem: Schema, max: nat, val: map<nat, Value>, es: seq<(nat, Value)>, rest: Bits)
    requires elem.WellFormed() && NoSparse(elem) && MapShaped(elem, val)
    requires |es| < Pow2(RequiredBits(max)) && CanBeRead(elem, RequiredBits(max), es)
    ensures
      var w := RequiredBits(max);
      TakeFull(Map(elem, max), Entries(val), ToBits(|es|, w) + (EntryStream(elem, w, es) + rest))
        == Some((Entries(Assigned(map[], es)), rest))
  {
    hide TakeEntries, EntryStream, Blend, ToBits, TakeNum, Assigned, CanBeRead, NoSparse, MapShaped;
    var w, none, stream := RequiredBits(max), map[], EntryStream(elem, RequiredBits(max), es) + rest;
    NothingBlended(val);
    TakeWritten(|es|, w, stream);
    NoneShaped(elem);
    EntriesRead(elem, w, none, val, 0, es, rest);
    var r := TakeEntries(elem, w, false, val, 0, |es|, stream);
    TakeAllStep(elem, w, false, val, ToBits(|es|, w) + stream, |es|, stream, r.m, r.cur, rest);
    BlendAll(Assigned(none, es), val, r.cur);
    assert Finish(false, r.m, r.cur) == Assigned(none, es);
  }

  lemma NothingBlended(val: map<nat, Value>)
    ensures Blend(map[], val, 0) == val
  {
  }

  lemma NoneShaped(elem: Schema)
    ensures MapShaped(elem, map[])
  {
  }
}
