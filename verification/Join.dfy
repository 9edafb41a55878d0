/** Streams made of consecutive parts, one for each field, element or index. */
module Joins {
  import opened BitStream
  import opened Schemas

  /** The parts from `lo` up to but not including `hi`, one after the other. */
  function Join(parts: seq<Bits>, lo: nat, hi: nat): Bits
    requires lo <= hi <= |parts|
    decreases hi - lo
  {
    if lo == hi then [] else parts[lo] + Join(parts, lo + 1, hi)
  }

  /** How many of them put anything into the stream. */
  function Nonempty(parts: seq<Bits>, lo: nat, hi: nat): (n: nat)
    requires lo <= hi <= |parts|
    ensures n <= hi - lo
    decreases hi - lo
  {
    if lo == hi then 0 else (if parts[lo] == [] then 0 else 1) + Nonempty(parts, lo + 1, hi)
  }

  function JoinAll(parts: seq<Bits>): Bits
  {
    Join(parts, 0, |parts|)
  }

  function CountAll(parts: seq<Bits>): nat
  {
    Nonempty(parts, 0, |parts|)
  }

  /** One more part at the end of a stream. */
  lemma {:induction false} JoinSnoc(parts: seq<Bits>, lo: nat, hi: nat)
    requires lo <= hi < |parts|
    ensures Join(parts, lo, hi + 1) == Join(parts, lo, hi) + parts[hi]
    ensures Nonempty(parts, lo, hi + 1) == Nonempty(parts, lo, hi) + if parts[hi] == [] then 0 else 1
    decreases hi - lo
  {
    if lo == hi {
      assert Join(parts, lo + 1, hi + 1) == [];
    } else {
      JoinSnoc(parts, lo + 1, hi);
      ConcatAssoc(parts[lo], Join(parts, lo + 1, hi), parts[hi]);
    }
  }

  lemma JoinNext(base: Bits, parts: seq<Bits>, i: nat)
    requires i < |parts|
    ensures base + Join(parts, 0, i) + parts[i] == base + Join(parts, 0, i + 1)
    ensures Nonempty(parts, 0, i + 1) == Nonempty(parts, 0, i) + if parts[i] == [] then 0 else 1
  {
    JoinSnoc(parts, 0, i);
    ConcatAssoc(base, Join(parts, 0, i), parts[i]);
  }

  /** The next part at the front of a stream. */
  lemma JoinFrom(parts: seq<Bits>, i: nat, hi: nat, rest: Bits)
    requires i < hi <= |parts|
    ensures Join(parts, i, hi) + rest == parts[i] + (Join(parts, i + 1, hi) + rest)
  {
    ConcatAssoc(parts[i], Join(parts, i + 1, hi), rest);
  }

  lemma JoinFromEmpty(parts: seq<Bits>, i: nat, hi: nat)
    requires i < hi <= |parts| && parts[i] == []
    ensures Join(parts, i, hi) == Join(parts, i + 1, hi)
  {
  }

  lemma JoinEnd(parts: seq<Bits>, hi: nat, rest: Bits)
    requires hi <= |parts|
    ensures Join(parts, hi, hi) + rest == rest
  {
  }

  /** Without any nonempty part from `i` to `j` the stream does not grow. */
  lemma {:induction false} JoinSkip(parts: seq<Bits>, i: nat, j: nat)
    requires i <= j <= |parts|
    requires forall k :: i <= k < j ==> parts[k] == []
    ensures Join(parts, 0, i) == Join(parts, 0, j) && Nonempty(parts, 0, i) == Nonempty(parts, 0, j)
    decreases j - i
  {
    if i < j {
      JoinSkip(parts, i, j - 1);
      JoinSnoc(parts, 0, j - 1);
    }
  }

  lemma {:induction false} NonemptyZero(parts: seq<Bits>, lo: nat, hi: nat)
    requires lo <= hi <= |parts|
    ensures Nonempty(parts, lo, hi) == 0 <==> forall i :: lo <= i < hi ==> parts[i] == []
    ensures Nonempty(parts, lo, hi) == 0 ==> Join(parts, lo, hi) == []
    decreases hi - lo
  {
    if lo < hi { NonemptyZero(parts, lo + 1, hi); }
  }

  /** With a nonempty part for each key and none for the other indices, the parts count the keys. */
  lemma {:induction false} KeysCounted<T>(m: map<nat, T>, parts: seq<Bits>, i: nat)
    requires i <= |parts|
    requires forall k :: 0 <= k < |parts| ==> (parts[k] != [] <==> k in m)
    ensures |Below(m, i)| == Nonempty(parts, 0, i)
    decreases i
  {
    if i == 0 {
      assert Below(m, 0) == map[];
    } else {
      KeysCounted(m, parts, i - 1);
      JoinSnoc(parts, 0, i - 1);
      if i - 1 in m {
        assert Below(m, i) == Below(m, i - 1)[i - 1 := m[i - 1]];
      } else {
        assert Below(m, i) == Below(m, i - 1);
      }
    }
  }

  lemma AllKeysCounted<T>(m: map<nat, T>, parts: seq<Bits>)
    requires forall k :: 0 <= k < |parts| ==> (parts[k] != [] <==> k in m)
    requires forall k :: k in m ==> k < |parts|
    ensures |m| == CountAll(parts)
  {
    KeysCounted(m, parts, |parts|);
    assert Below(m, |parts|) == m;
  }
}
