/** NetSparseList: an array of slots, some of them valid, with the highest valid index. */
module SparseLists {
  import opened BitUtil
  import opened Schemas
  import opened Wrappers

  /** The entries a slot array holds. */
  function SlotEntries<T>(slots: seq<Option<T>>): (m: map<nat, T>)
    ensures forall i :: i in m <==> 0 <= i < |slots| && slots[i].Some?
    ensures forall i :: i in m ==> m[i] == slots[i].value
  {
    map i: nat | 0 <= i < |slots| && slots[i].Some? :: slots[i].value
  }

  lemma SameEntries<T>(a: seq<Option<T>>, b: seq<Option<T>>, n: nat)
    requires n <= |a| && n <= |b| && a[..n] == b[..n]
    requires forall i :: n <= i < |a| ==> a[i].None?
    requires forall i :: n <= i < |b| ==> b[i].None?
    ensures SlotEntries(a) == SlotEntries(b)
  {
    forall i: nat
      ensures i in SlotEntries(a) <==> i in SlotEntries(b)
      ensures i in SlotEntries(a) ==> SlotEntries(a)[i] == SlotEntries(b)[i]
    {
      if i < n { assert a[..n][i] == b[..n][i]; }
    }
  }

  lemma EntryPut<T>(slots: seq<Option<T>>, i: nat, val: T)
    requires i < |slots|
    ensures SlotEntries(slots[i := Some(val)]) == SlotEntries(slots)[i := val]
  {
  }

  lemma EntryDropped<T>(slots: seq<Option<T>>, i: nat)
    ensures i < |slots| ==> SlotEntries(slots[i := None]) == Without(SlotEntries(slots), i)
    ensures i < |slots| && slots[i].None? ==> SlotEntries(slots) == Without(SlotEntries(slots), i)
    ensures i >= |slots| ==> SlotEntries(slots) == Without(SlotEntries(slots), i)
  {
  }

  lemma BelowNothing<T>(m: map<nat, T>)
    ensures |Below(m, 0)| == 0
  {
    assert Below(m, 0) == map[];
  }

  lemma BelowStep<T>(m: map<nat, T>, k: nat)
    ensures |Below(m, k + 1)| == |Below(m, k)| + if k in m then 1 else 0
  {
    if k in m {
      assert Below(m, k + 1) == Below(m, k)[k := m[k]];
    } else {
      assert Below(m, k + 1) == Below(m, k);
    }
  }

  lemma BelowAll<T>(m: map<nat, T>, bound: nat)
    requires KeysBelow(m, bound)
    ensures Below(m, bound) == m
  {
  }

  /** `grown` is `capacity` doubled some number of times. */
  ghost predicate Doubled(capacity: nat, grown: nat)
  {
    exists k: nat :: grown == capacity * Pow2(k)
  }

  lemma DoubleOnce(capacity: nat)
    ensures Doubled(capacity, capacity * 2)
  {
    assert Pow2(1) == 2;
  }

  lemma DoubleAgain(capacity: nat, grown: nat)
    requires Doubled(capacity, grown)
    ensures Doubled(capacity, grown * 2)
  {
    var k: nat :| grown == capacity * Pow2(k);
    assert capacity * Pow2(k + 1) == capacity * Pow2(k) * 2;
  }

  class SparseList<T(==)> {
    var highestIndex: int
    var values: array<Option<T>>

    /** No slot above the highest index is valid, and that one is. */
    ghost predicate Valid()
      reads this, values
    {
      && -1 <= highestIndex < values.Length
      && (highestIndex >= 0 ==> values[highestIndex].Some?)
      && forall i :: highestIndex < i < values.Length ==> values[i].None?
    }

    ghost function Contents(): map<nat, T>
      reads this, values
    {
      SlotEntries(values[..])
    }

    /** The highest index is the largest index in use, -1 for none. */
    lemma HighestIsLargest()
      requires Valid()
      ensures highestIndex == HighestIndex(Contents())
    {
    }

    constructor ()
      ensures Valid() && fresh(values) && Contents() == map[] && highestIndex == -1
    {
      highestIndex := -1;
      values := new Option<T>[0];
    }

    // ----- growth -----

    method GrowTo(requested_size: nat)
      requires Valid() && requested_size > highestIndex
      modifies this`values
      ensures Valid() && fresh(values) && values.Length == requested_size
      ensures Contents() == old(Contents())
    {
      hide SlotEntries;
      var grown := new Option<T>[requested_size];
      var index := 0;
      while index <= highestIndex
        invariant 0 <= index <= highestIndex + 1 && Valid() && values[..] == old(values[..])
        invariant grown[..index] == values[..index]
      {
        grown[index] := values[index];
        index := index + 1;
      }
      while index < requested_size
        invariant highestIndex + 1 <= index <= requested_size && Valid() && values[..] == old(values[..])
        invariant grown[..highestIndex + 1] == values[..highestIndex + 1]
        invariant forall j :: highestIndex < j < index ==> grown[j].None?
      {
        grown[index] := None;
        index := index + 1;
      }
      SameEntries(values[..], grown[..], highestIndex + 1);
      values := grown;
    }

    method Grow()
      requires Valid()
      modifies this`values
      ensures Valid() && fresh(values)
      ensures values.Length == if old(values.Length) == 0 then 1 else 2 * old(values.Length)
      ensures Contents() == old(Contents())
    {
      if values.Length == 0 {
        GrowTo(1);
      } else {
        GrowTo(values.Length * 2);
      }
    }

    /** The capacity is doubled until the index fits, and no further. */
    method GrowToFit(logical_index: nat)
      requires Valid()
      modifies this`values
      ensures Valid() && values.Length > logical_index
      ensures values == old(values) || fresh(values)
      ensures old(values.Length) > logical_index ==> values == old(values)
      ensures old(values.Length) == 0 ==> values.Length == logical_index + 1
      ensures 0 < old(values.Length) <= logical_index ==>
        Doubled(old(values.Length), values.Length) && values.Length <= 2 * logical_index
      ensures Contents() == old(Contents())
    {
      hide Doubled, SlotEntries, SparseList.Contents;
      if logical_index >= values.Length {
        if values.Length == 0 {
          GrowTo(logical_index + 1);
        } else {
          var new_capacity := values.Length * 2;
          DoubleOnce(values.Length);
          while new_capacity <= logical_index
            invariant unchanged(this) && unchanged(values)
            invariant 2 * values.Length <= new_capacity <= 2 * logical_index
            invariant Doubled(values.Length, new_capacity)
          {
            DoubleAgain(values.Length, new_capacity);
            new_capacity := new_capacity * 2;
          }
          GrowTo(new_capacity);
        }
      }
    }

    method Reserve(size: nat)
      requires Valid()
      modifies this`values
      ensures Valid() && values.Length >= size && (values == old(values) || fresh(values))
      ensures Contents() == old(Contents())
    {
      if size > values.Length {
        GrowTo(size);
      }
    }

    // ----- putting elements in -----

    method EmplaceAt(logical_index: nat, val: T)
      requires Valid()
      modifies this, values
      ensures Valid() && (values == old(values) || fresh(values))
      ensures Contents() == old(Contents())[logical_index := val]
    {
      GrowToFit(logical_index);
      EntryPut(values[..], logical_index, val);
      highestIndex := if highestIndex == -1 || logical_index > highestIndex then logical_index else highestIndex;
      values[logical_index] := Some(val);
    }

    method EmplaceBack(val: T)
      requires Valid()
      modifies this, values
      ensures Valid() && (values == old(values) || fresh(values))
      ensures highestIndex == old(highestIndex) + 1
      ensures Contents() == old(Contents())[old(highestIndex) + 1 := val]
    {
      if highestIndex + 1 == values.Length {
        Grow();
      }
      EntryPut(values[..], highestIndex + 1, val);
      highestIndex := highestIndex + 1;
      values[highestIndex] := Some(val);
    }

    /** Takes the first free index. */
    method Emplace(val: T) returns (index: nat)
      requires Valid()
      modifies this, values
      ensures Valid() && (values == old(values) || fresh(values))
      ensures index !in old(Contents()) && forall j: nat :: j < index ==> j in old(Contents())
      ensures Contents() == old(Contents())[index := val]
    {
      index := 0;
      while index < values.Length
        invariant unchanged(this) && unchanged(values)
        invariant 0 <= index <= values.Length && forall j: nat :: j < index ==> j in Contents()
      {
        if values[index].None? {
          EmplaceAt(index, val);
          return;
        }
        index := index + 1;
      }
      assert values.Length > 0 ==> values.Length - 1 in Contents();
      assert highestIndex == values.Length - 1;
      EmplaceBack(val);
      index := highestIndex;
    }

    // ----- taking elements out -----

    method RemoveAt(logical_index: nat)
      requires Valid()
      modifies this`highestIndex, values
      ensures Valid() && Contents() == Without(old(Contents()), logical_index)
    {
      EntryDropped(values[..], logical_index);
      if logical_index >= values.Length {
        return;
      }
      if values[logical_index].Some? {
        values[logical_index] := None;
        assert values[..] == old(values[..])[logical_index := None];
        while highestIndex >= 0 && values[highestIndex].None?
          invariant -1 <= highestIndex < values.Length
          invariant values[..] == old(values[..])[logical_index := None]
          invariant forall i :: highestIndex < i < values.Length ==> values[i].None?
        {
          highestIndex := highestIndex - 1;
        }
      }
    }

    method Clear()
      requires Valid()
      modifies this`highestIndex, values
      ensures Valid() && Contents() == map[]
    {
      var index := 0;
      while index <= highestIndex
        invariant 0 <= index <= highestIndex + 1 && highestIndex == old(highestIndex)
        invariant forall j :: 0 <= j < index ==> values[j].None?
        invariant forall j :: highestIndex < j < values.Length ==> values[j].None?
      {
        values[index] := None;
        index := index + 1;
      }
      highestIndex := -1;
    }

    // ----- looking elements up -----

    method HasAt(index: nat) returns (b: bool)
      requires Valid()
      ensures b <==> index in Contents()
    {
      if highestIndex == -1 {
        return false;
      }
      if index > highestIndex {
        return false;
      }
      b := values[index].Some?;
    }

    /** `None` is the null pointer of `TryGet` and the exception of `GetAt`. */
    method TryGet(index: nat) returns (r: Option<T>)
      requires Valid()
      ensures r == if index in Contents() then Some(Contents()[index]) else None
    {
      if highestIndex == -1 || index > highestIndex {
        return None;
      }
      r := values[index];
    }

    method Size() returns (count: nat)
      requires Valid()
      ensures count == |Contents()|
    {
      hide Below;
      count := 0;
      var index := 0;
      BelowNothing(Contents());
      while index <= highestIndex
        invariant 0 <= index <= highestIndex + 1 && count == |Below(Contents(), index)|
      {
        BelowStep(Contents(), index);
        if values[index].Some? {
          count := count + 1;
        }
        index := index + 1;
      }
      BelowAll(Contents(), highestIndex + 1);
    }

    // ----- iteration -----

    /** The iterator's physical index: the first valid index from `from` on, or one past
        the highest. */
    ghost predicate At(itr: int, from: int)
      reads this, values
    {
      && from <= itr <= highestIndex + 1
      && (itr <= highestIndex ==> itr >= 0 && itr in Contents())
      && forall j :: from <= j < itr ==> j !in Contents()
    }

    method Begin() returns (itr: int)
      requires Valid()
      ensures At(itr, 0)
    {
      itr := 0;
      while itr <= highestIndex && values[itr].None?
        invariant 0 <= itr <= highestIndex + 1 && forall j :: 0 <= j < itr ==> j !in Contents()
      {
        itr := itr + 1;
      }
    }

    method Next(from: int) returns (itr: int)
      requires Valid() && 0 <= from <= highestIndex
      ensures At(itr, from + 1)
    {
      itr := from + 1;
      while itr <= highestIndex && values[itr].None?
        invariant from < itr <= highestIndex + 1 && forall j :: from < j < itr ==> j !in Contents()
      {
        itr := itr + 1;
      }
    }

    /** Iterating from `begin` to `end` visits every index in use once, in ascending order. */
    method Visit() returns (visited: seq<nat>)
      requires Valid()
      ensures forall i, j :: 0 <= i < j < |visited| ==> visited[i] < visited[j]
      ensures forall k :: k in visited <==> k in Contents()
    {
      visited := [];
      var itr := Begin();
      while itr != highestIndex + 1
        invariant 0 <= itr <= highestIndex + 1 && (itr <= highestIndex ==> itr in Contents())
        invariant forall i, j :: 0 <= i < j < |visited| ==> visited[i] < visited[j]
        invariant forall i :: 0 <= i < |visited| ==> visited[i] < itr
        invariant forall k :: k in visited <==> k in Contents() && k < itr
        decreases highestIndex + 1 - itr
      {
        visited := visited + [itr];
        itr := Next(itr);
      }
    }

    /** `==`: the two lists hold the same entries. */
    method Equals(rhs: SparseList<T>) returns (b: bool)
      requires Valid() && rhs.Valid()
      ensures b <==> Contents() == rhs.Contents()
    {
      if highestIndex != rhs.highestIndex {
        DifferentHighest(rhs);
        return false;
      }
      var itr1 := Begin();
      var itr2 := rhs.Begin();
      ghost var passed, a, b' := 0, Contents(), rhs.Contents();
      AgreeNothing(a, b');
      while itr1 != highestIndex + 1
        invariant 0 <= passed <= highestIndex + 1 && At(itr1, passed) && rhs.At(itr2, passed)
        invariant Agree(a, b', passed)
        decreases highestIndex + 1 - passed
      {
        if itr1 == itr2 && values[itr1].value == rhs.values[itr2].value {
          AgreeMore(a, b', passed, itr1 + 1);
          passed := itr1 + 1;
          itr1 := Next(itr1);
          itr2 := rhs.Next(itr2);
        } else {
          assert a != b' by {
            assert itr1 < itr2 ==> itr1 in a && itr1 !in b';
            assert itr2 < itr1 ==> itr2 in b' && itr2 !in a;
          }
          return false;
        }
      }
      AgreeMore(a, b', passed, highestIndex + 1);
      AgreeAll(a, b', highestIndex + 1);
      b := true;
    }

    lemma DifferentHighest(rhs: SparseList<T>)
      requires Valid() && rhs.Valid() && highestIndex != rhs.highestIndex
      ensures Contents() != rhs.Contents()
    {
      HighestIsLargest();
      rhs.HighestIsLargest();
    }

    // ----- whole lists -----

    /** Assignment.  Assigning a list to itself would copy destroyed elements. */
    method Copy(rhs: SparseList<T>)
      requires Valid() && rhs.Valid() && this != rhs && values != rhs.values
      modifies this, values
      ensures Valid() && (values == old(values) || fresh(values))
      ensures Contents() == rhs.Contents() == old(rhs.Contents())
    {
      hide SlotEntries;
      if rhs.highestIndex >= values.Length {
        values := new Option<T>[rhs.values.Length];
      }
      CopySlots(rhs);
      FreeFrom(rhs.highestIndex + 1);
      SameEntries(values[..], rhs.values[..], rhs.highestIndex + 1);
      highestIndex := rhs.highestIndex;
    }

    method CopySlots(rhs: SparseList<T>)
      requires rhs.Valid() && rhs.highestIndex < values.Length && values != rhs.values
      modifies values
      ensures values[..rhs.highestIndex + 1] == rhs.values[..rhs.highestIndex + 1]
    {
      var index := 0;
      while index <= rhs.highestIndex
        invariant 0 <= index <= rhs.highestIndex + 1
        invariant values[..index] == rhs.values[..index]
      {
        values[index] := rhs.values[index];
        index := index + 1;
      }
    }

    method FreeFrom(n: nat)
      requires n <= values.Length
      modifies values
      ensures values[..n] == old(values[..n])
      ensures forall j :: n <= j < values.Length ==> values[j].None?
    {
      var index := n;
      while index < values.Length
        invariant n <= index <= values.Length && values[..n] == old(values[..n])
        invariant forall j :: n <= j < index ==> values[j].None?
      {
        values[index] := None;
        index := index + 1;
      }
    }

    /** Moves each element down to the slot given by the number of elements before it, but
        leaves the highest index as it is: the list is still valid exactly when it had no gaps
        to begin with. */
    method Compress()
      requires Valid()
      modifies values
      ensures values[..] == Compacted(old(values[..]))
      ensures Packed(old(Contents()), values[..])
      ensures Valid() <==> forall j: nat :: j <= highestIndex ==> j in old(Contents())
    {
      hide Compressing, Compacted, Packed;
      var empty_index := -1;
      var index := 0;
      ghost var slots := values[..];
      CompressStart(slots);
      while index < values.Length
        invariant 0 <= index <= values.Length && -1 <= empty_index < index
        invariant Compressing(slots, values[..], index, if empty_index == -1 then index else empty_index)
      {
        CompressStep(slots, values[..], index, if empty_index == -1 then index else empty_index);
        if values[index].Some? {
          if empty_index != -1 {
            values[empty_index] := values[index];
            values[index] := None;
            empty_index := empty_index + 1;
          }
        } else {
          if empty_index == -1 {
            empty_index := index;
          }
        }
        index := index + 1;
      }
      CompressDone(slots, values[..], if empty_index == -1 then index else empty_index);
      HighestAfter(slots, highestIndex);
      MovedDown(slots);
      assert forall j: nat :: j <= highestIndex ==> (slots[j].Some? <==> j in old(Contents()));
      assert forall i :: 0 <= i < values.Length ==> values[i] == Compacted(slots)[i];
    }
  }

  /** The two maps have the same entries below `n`. */
  ghost predicate Agree<T>(a: map<nat, T>, b: map<nat, T>, n: int)
  {
    forall j: nat :: j < n ==> (j in a <==> j in b) && (j in a ==> a[j] == b[j])
  }

  lemma AgreeNothing<T>(a: map<nat, T>, b: map<nat, T>)
    ensures Agree(a, b, 0)
  {
  }

  lemma AgreeMore<T>(a: map<nat, T>, b: map<nat, T>, n: int, n': int)
    requires Agree(a, b, n)
    requires forall j: nat :: n <= j < n' ==> (j in a <==> j in b) && (j in a ==> a[j] == b[j])
    ensures Agree(a, b, n')
  {
  }

  lemma AgreeAll<T>(a: map<nat, T>, b: map<nat, T>, n: int)
    requires Agree(a, b, n)
    requires (forall j :: j in a ==> j < n) && (forall j :: j in b ==> j < n)
    ensures a == b
  {
  }

  // ----- Compress -----

  /** The valid slots, in order. */
  function Used<T>(slots: seq<Option<T>>): (r: seq<Option<T>>)
    ensures |r| <= |slots| && forall i :: 0 <= i < |r| ==> r[i].Some?
  {
    if slots == [] then []
    else Used(slots[..|slots| - 1]) + if slots[|slots| - 1].Some? then [slots[|slots| - 1]] else []
  }

  lemma UsedSnoc<T>(slots: seq<Option<T>>, i: nat)
    requires i < |slots|
    ensures Used(slots[..i + 1]) == Used(slots[..i]) + if slots[i].Some? then [slots[i]] else []
  {
    assert slots[..i + 1][..i] == slots[..i];
  }

  function Compacted<T>(slots: seq<Option<T>>): (r: seq<Option<T>>)
    ensures |r| == |slots|
  {
    Used(slots) + seq(|slots| - |Used(slots)|, _ => None)
  }

  /** Halfway: the slots below `e` hold what was used below `i`, those up to `i` are free,
      and the rest has not been touched. */
  ghost predicate Compressing<T>(slots: seq<Option<T>>, now: seq<Option<T>>, i: nat, e: nat)
  {
    && |now| == |slots| && e <= i <= |slots|
    && now[..e] == Used(slots[..i])
    && (forall j :: e <= j < i ==> now[j].None?)
    && now[i..] == slots[i..]
  }

  lemma CompressStart<T>(slots: seq<Option<T>>)
    ensures Compressing(slots, slots, 0, 0)
  {
  }

  lemma CompressDone<T>(slots: seq<Option<T>>, now: seq<Option<T>>, e: nat)
    requires Compressing(slots, now, |slots|, e)
    ensures now == Compacted(slots)
  {
    assert slots[..|slots|] == slots;
    assert now == now[..e] + now[e..];
  }

  lemma CompressStep<T>(slots: seq<Option<T>>, now: seq<Option<T>>, i: nat, e: nat)
    requires Compressing(slots, now, i, e) && i < |slots|
    ensures now[i] == slots[i]
    ensures now[i].None? ==> Compressing(slots, now, i + 1, e)
    ensures now[i].Some? ==> Compressing(slots, now[i := None][e := now[i]], i + 1, e + 1)
    ensures now[i].Some? && e == i ==> now[i := None][e := now[i]] == now
    ensures now[i].Some? && e < i ==> now[i := None][e := now[i]] == now[e := now[i]][i := None]
  {
    UsedSnoc(slots, i);
    assert now[i] == now[i..][0] == slots[i..][0] == slots[i];
    assert now[i + 1..] == now[i..][1..] == slots[i + 1..];
    if now[i].Some? {
      var moved := now[i := None][e := now[i]];
      assert moved[..e + 1] == now[..e] + [now[i]];
      assert moved[i + 1..] == now[i + 1..];
    }
  }

  lemma {:induction false} AllUsed<T>(slots: seq<Option<T>>)
    ensures |Used(slots)| == |slots| <==> forall i :: 0 <= i < |slots| ==> slots[i].Some?
    decreases |slots|
  {
    if slots != [] { AllUsed(slots[..|slots| - 1]); }
  }

  lemma {:induction false} UsedBelow<T>(slots: seq<Option<T>>, n: nat)
    requires n <= |slots| && forall i :: n <= i < |slots| ==> slots[i].None?
    ensures Used(slots) == Used(slots[..n])
    decreases |slots|
  {
    if n < |slots| {
      UsedBelow(slots[..|slots| - 1], n);
      assert slots[..|slots| - 1][..n] == slots[..n];
    } else {
      assert slots[..n] == slots;
    }
  }

  lemma {:induction false} UsedCount<T>(slots: seq<Option<T>>, i: nat)
    requires i <= |slots|
    ensures |Used(slots[..i])| == |Below(SlotEntries(slots), i)|
  {
    hide Below, Used;
    if i == 0 {
      BelowNothing(SlotEntries(slots));
    } else {
      UsedCount(slots, i - 1);
      UsedSnoc(slots, i - 1);
      BelowStep(SlotEntries(slots), i - 1);
    }
  }

  lemma {:induction false} UsedAt<T>(slots: seq<Option<T>>, k: nat, n: nat)
    requires k < n <= |slots| && slots[k].Some?
    ensures |Used(slots[..k])| < |Used(slots[..n])| && Used(slots[..n])[|Used(slots[..k])|] == slots[k]
    decreases n
  {
    UsedSnoc(slots, n - 1);
    if k < n - 1 {
      UsedAt(slots, k, n - 1);
    }
  }

  /** Each entry is in the slot given by the number of entries before it, and the slots
      behind the last one are free. */
  ghost predicate Packed<T>(entries: map<nat, T>, slots: seq<Option<T>>)
  {
    && (forall k :: k in entries ==>
      |Below(entries, k)| < |slots| && slots[|Below(entries, k)|] == Some(entries[k]))
    && forall j :: |entries| <= j < |slots| ==> slots[j].None?
  }

  lemma MovedDown<T>(slots: seq<Option<T>>)
    ensures Packed(SlotEntries(slots), Compacted(slots))
  {
    hide Below;
    var entries := SlotEntries(slots);
    assert slots[..|slots|] == slots;
    forall k | k in entries
      ensures |Below(entries, k)| < |slots| && Compacted(slots)[|Below(entries, k)|] == Some(entries[k])
    {
      UsedCount(slots, k);
      UsedAt(slots, k, |slots|);
    }
    UsedCount(slots, |slots|);
    BelowAll(entries, |slots|);
  }

  /** After the move the old highest slot is free unless every slot up to it was valid. */
  lemma HighestAfter<T>(slots: seq<Option<T>>, highest: int)
    requires -1 <= highest < |slots|
    requires forall i :: highest < i < |slots| ==> slots[i].None?
    ensures forall i :: highest < i < |slots| ==> Compacted(slots)[i].None?
    ensures highest >= 0 ==>
      (Compacted(slots)[highest].Some? <==> forall i :: 0 <= i <= highest ==> slots[i].Some?)
  {
    UsedBelow(slots, highest + 1);
    AllUsed(slots[..highest + 1]);
  }
}
