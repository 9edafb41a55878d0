/** The plain view of a bit stream: a sequence of bits, least significant first,
    and how byte buffers and numbers appear in it. */
module BitStream {
  import opened BitUtil
  import opened Wrappers

  type Bits = seq<bool>

  /** The low `n` bits of `v`. */
  function ToBits(v: nat, n: nat): (b: Bits)
    ensures |b| == n
  {
    seq(n, i requires 0 <= i < n => BitAt(v, i))
  }

  /** The number whose binary digits are `b`. */
  function FromBits(b: Bits): (v: nat)
    ensures v < Pow2(|b|)
  {
    if b == [] then 0 else (if b[0] then 1 else 0) + 2 * FromBits(b[1..])
  }

  lemma ConcatAssoc(a: Bits, b: Bits, c: Bits)
    ensures a + b + c == a + (b + c)
  {
  }

  function Zeros(n: nat): (b: Bits)
    ensures |b| == n
  {
    seq(n, _ => false)
  }

  lemma ToBitsAt(v: nat, n: nat, i: nat)
    requires i < n
    ensures ToBits(v, n)[i] == BitAt(v, i)
  {
  }

  lemma {:induction false} FromToBits(v: nat, n: nat)
    ensures FromBits(ToBits(v, n)) == Trunc(v, n)
    ensures v < Pow2(n) ==> FromBits(ToBits(v, n)) == v
    decreases n
  {
    if n > 0 {
      assert ToBits(v, n)[1..] == ToBits(v / 2, n - 1);
      FromToBits(v / 2, n - 1);
    }
    TruncBound(v, n);
  }

  lemma {:induction false} BitAtFromBits(b: Bits, i: nat)
    ensures BitAt(FromBits(b), i) == (i < |b| && b[i])
    decreases |b|
  {
    if b == [] {
      BitAtZero(i);
    } else if i > 0 {
      BitAtFromBits(b[1..], i - 1);
    }
  }

  lemma ToFromBits(b: Bits)
    ensures ToBits(FromBits(b), |b|) == b
  {
    forall i | 0 <= i < |b| ensures ToBits(FromBits(b), |b|)[i] == b[i] {
      BitAtFromBits(b, i);
      ToBitsAt(FromBits(b), |b|, i);
    }
  }

  lemma ToBitsZero(n: nat)
    ensures ToBits(0, n) == Zeros(n)
  {
    forall i: nat | i < n ensures ToBits(0, n)[i] == Zeros(n)[i] {
      BitAtZero(i);
      ToBitsAt(0, n, i);
    }
  }

  /** Reading an `n`-bit number off the front of a stream; past its end the reader throws. */
  function TakeNum(bits: Bits, n: nat): Option<(nat, Bits)>
  {
    if n <= |bits| then Some((FromBits(bits[..n]), bits[n..])) else None
  }

  lemma NumBound(bits: Bits, n: nat)
    requires TakeNum(bits, n).Some?
    ensures TakeNum(bits, n).value.0 < Pow2(n)
  {
  }

  /** Reading back what was written. */
  lemma TakeWritten(v: nat, n: nat, rest: Bits)
    ensures TakeNum(ToBits(v, n) + rest, n) == Some((Trunc(v, n), rest))
    ensures v < Pow2(n) ==> TakeNum(ToBits(v, n) + rest, n) == Some((v, rest))
  {
    assert (ToBits(v, n) + rest)[..n] == ToBits(v, n);
    assert (ToBits(v, n) + rest)[n..] == rest;
    FromToBits(v, n);
  }

  /** Writing `n` bits is writing `k` bits and then the rest of the shifted value. */
  lemma ToBitsSplit(v: nat, n: nat, k: nat)
    requires k <= n
    ensures ToBits(v, n) == ToBits(v, k) + ToBits(Shr(v, k), n - k)
  {
    var parts := ToBits(v, k) + ToBits(Shr(v, k), n - k);
    forall i: nat | i < n ensures ToBits(v, n)[i] == parts[i] {
      ToBitsAt(v, n, i);
      if i < k {
        ToBitsAt(v, k, i);
      } else {
        ToBitsAt(Shr(v, k), n - k, i - k);
        BitAtShr(v, k, i - k);
      }
    }
  }

  /** `bits` with the stretch from `at` on replaced by `patch`. */
  function Overwrite(bits: Bits, at: nat, patch: Bits): (r: Bits)
    requires at + |patch| <= |bits|
    ensures |r| == |bits|
    decreases |patch|
  {
    if patch == [] then bits
    else Overwrite(bits[at := patch[0]], at + 1, patch[1..])
  }

  lemma {:induction false} OverwriteAt(bits: Bits, at: nat, patch: Bits, i: nat)
    requires at + |patch| <= |bits| && i < |bits|
    ensures Overwrite(bits, at, patch)[i]
         == if at <= i < at + |patch| then patch[i - at] else bits[i]
    decreases |patch|
  {
    if patch != [] { OverwriteAt(bits[at := patch[0]], at + 1, patch[1..], i); }
  }

  lemma {:induction false} OverwriteConcat(bits: Bits, at: nat, a: Bits, b: Bits)
    requires at + |a| + |b| <= |bits|
    ensures Overwrite(bits, at, a + b) == Overwrite(Overwrite(bits, at, a), at + |a|, b)
    decreases |a|
  {
    if a == [] {
      assert a + b == b;
    } else {
      assert (a + b)[1..] == a[1..] + b;
      OverwriteConcat(bits[at := a[0]], at + 1, a[1..], b);
    }
  }

  /** Overwriting behind a prefix leaves the prefix alone. */
  lemma {:induction false} OverwriteBehind(a: Bits, b: Bits, at: nat, patch: Bits)
    requires at + |patch| <= |b|
    ensures Overwrite(a + b, |a| + at, patch) == a + Overwrite(b, at, patch)
    decreases |patch|
  {
    if patch != [] {
      assert (a + b)[|a| + at := patch[0]] == a + b[at := patch[0]];
      OverwriteBehind(a, b[at := patch[0]], at + 1, patch[1..]);
    }
  }

  /** Overwriting in front of a suffix leaves the suffix alone. */
  lemma {:induction false} OverwriteBefore(a: Bits, b: Bits, at: nat, patch: Bits)
    requires at + |patch| <= |a|
    ensures Overwrite(a + b, at, patch) == Overwrite(a, at, patch) + b
    decreases |patch|
  {
    if patch != [] {
      assert (a + b)[at := patch[0]] == a[at := patch[0]] + b;
      OverwriteBefore(a[at := patch[0]], b, at + 1, patch[1..]);
    }
  }

  lemma OverwriteZeros(n: nat, patch: Bits)
    requires |patch| <= n
    ensures Overwrite(Zeros(n), 0, patch) == patch + Zeros(n - |patch|)
  {
    hide Overwrite;
    var r := patch + Zeros(n - |patch|);
    forall i: nat | i < n ensures Overwrite(Zeros(n), 0, patch)[i] == r[i] {
      OverwriteAt(Zeros(n), 0, patch, i);
    }
  }

  /** Patching a reserved header that has a prefix before it and a body behind it. */
  lemma OverwriteHeader(before: Bits, reserved: nat, patch: Bits, body: Bits)
    requires |patch| <= reserved
    ensures Overwrite(before + Zeros(reserved) + body, |before|, patch)
         == before + (patch + Zeros(reserved - |patch|) + body)
  {
    hide Overwrite;
    ConcatAssoc(before, Zeros(reserved), body);
    OverwriteBehind(before, Zeros(reserved) + body, 0, patch);
    OverwriteBefore(Zeros(reserved), body, 0, patch);
    OverwriteZeros(reserved, patch);
  }

  // ----- bytes -----

  function BufferBit(buffer: seq<Byte>, i: nat): bool
    requires i < 8 * |buffer|
  {
    BitAt(buffer[i / 8], i % 8)
  }

  lemma BufferBitIn(buffer: seq<Byte>, index: nat, k: nat)
    requires index < |buffer| && k < 8
    ensures BufferBit(buffer, 8 * index + k) == BitAt(buffer[index], k)
  {
    assert (8 * index + k) / 8 == index && (8 * index + k) % 8 == k;
  }

  /** `stream` is what the first bits of the buffer spell out. */
  ghost predicate Represents(buffer: seq<Byte>, stream: Bits)
  {
    |stream| <= 8 * |buffer| && RepresentsBelow(buffer, stream, |stream|)
  }

  ghost predicate RepresentsBelow(buffer: seq<Byte>, stream: Bits, n: nat)
    requires n <= |stream| <= 8 * |buffer|
  {
    n == 0 || (stream[n - 1] == BufferBit(buffer, n - 1) && RepresentsBelow(buffer, stream, n - 1))
  }

  lemma {:induction false} RepresentsBelowAt(buffer: seq<Byte>, stream: Bits, n: nat, i: nat)
    requires i < n <= |stream| <= 8 * |buffer| && RepresentsBelow(buffer, stream, n)
    ensures stream[i] == BufferBit(buffer, i)
    decreases n
  {
    if i < n - 1 { RepresentsBelowAt(buffer, stream, n - 1, i); }
  }

  lemma RepresentsAt(buffer: seq<Byte>, stream: Bits, i: nat)
    requires Represents(buffer, stream) && i < |stream|
    ensures |stream| <= 8 * |buffer| && stream[i] == BufferBit(buffer, i)
  {
    RepresentsBelowAt(buffer, stream, |stream|, i);
  }

  lemma {:induction false} RepresentsBelowIntro(buffer: seq<Byte>, stream: Bits, n: nat)
    requires n <= |stream| <= 8 * |buffer|
    requires forall i :: 0 <= i < |stream| ==> stream[i] == BufferBit(buffer, i)
    ensures RepresentsBelow(buffer, stream, n)
    decreases n
  {
    if n > 0 { RepresentsBelowIntro(buffer, stream, n - 1); }
  }

  lemma RepresentsIntro(buffer: seq<Byte>, stream: Bits)
    requires |stream| <= 8 * |buffer|
    requires forall i :: 0 <= i < |stream| ==> stream[i] == BufferBit(buffer, i)
    ensures Represents(buffer, stream)
  {
    RepresentsBelowIntro(buffer, stream, |stream|);
  }

  /** The bits of a list of bytes, byte after byte. */
  function BytesToBits(bytes: seq<Byte>): (b: Bits)
    ensures |b| == 8 * |bytes|
  {
    if bytes == [] then [] else ToBits(bytes[0], 8) + BytesToBits(bytes[1..])
  }

  lemma TailBit(bytes: seq<Byte>, i: nat)
    requires 8 <= i < 8 * |bytes|
    ensures BufferBit(bytes[1..], i - 8) == BufferBit(bytes, i)
  {
    assert (i - 8) / 8 == i / 8 - 1 && (i - 8) % 8 == i % 8;
  }

  lemma {:induction false} BytesToBitsAt(bytes: seq<Byte>, i: nat)
    requires i < 8 * |bytes|
    ensures BytesToBits(bytes)[i] == BufferBit(bytes, i)
    decreases |bytes|
  {
    if i < 8 {
      ToBitsAt(bytes[0], 8, i);
    } else {
      BytesToBitsAt(bytes[1..], i - 8);
      TailBit(bytes, i);
    }
  }

  lemma {:induction false} BytesToBitsConcat(a: seq<Byte>, b: seq<Byte>)
    ensures BytesToBits(a + b) == BytesToBits(a) + BytesToBits(b)
    decreases |a|
  {
    if a == [] {
      assert a + b == b;
    } else {
      assert (a + b)[1..] == a[1..] + b;
      BytesToBitsConcat(a[1..], b);
    }
  }

  /** The little-endian load of the bytes as one unsigned word. */
  function LoadWord(bytes: seq<Byte>): nat
  {
    if bytes == [] then 0 else bytes[0] + 256 * LoadWord(bytes[1..])
  }

  lemma {:induction false} BitAtLoadWord(bytes: seq<Byte>, i: nat)
    ensures BitAt(LoadWord(bytes), i) == (i < 8 * |bytes| && BufferBit(bytes, i))
    decreases |bytes|
  {
    if bytes == [] {
      BitAtZero(i);
    } else {
      var lo, hi := bytes[0], LoadWord(bytes[1..]);
      BitAtLowHigh(lo, hi, i);
      if i >= 8 {
        BitAtLoadWord(bytes[1..], i - 8);
        if i < 8 * |bytes| { TailBit(bytes, i); }
      }
    }
  }

  lemma BitAtLowHigh(lo: Byte, hi: nat, i: nat)
    ensures BitAt(lo + 256 * hi, i) == if i < 8 then BitAt(lo, i) else BitAt(hi, i - 8)
  {
    SplitLowHigh(lo, hi, 8, i);
  }

  lemma {:induction false} SplitLowHigh(lo: nat, hi: nat, n: nat, i: nat)
    requires lo < Pow2(n)
    ensures BitAt(lo + Pow2(n) * hi, i) == if i < n then BitAt(lo, i) else BitAt(hi, i - n)
    decreases n
  {
    if n > 0 {
      assert Pow2(n) * hi == 2 * (Pow2(n - 1) * hi);
      if i > 0 {
        assert (lo + Pow2(n) * hi) / 2 == lo / 2 + Pow2(n - 1) * hi;
        SplitLowHigh(lo / 2, hi, n - 1, i - 1);
      }
    }
  }

  lemma {:induction false} LoadWordBound(bytes: seq<Byte>)
    ensures LoadWord(bytes) < Pow2(8 * |bytes|)
    decreases |bytes|
  {
    if bytes != [] {
      LoadWordBound(bytes[1..]);
      ByteBound();
      Pow2Sum(8, 8 * |bytes[1..]|);
    }
  }

  /** A whole-word write lays down the bytes in memory order. */
  lemma ToBitsLoadWord(bytes: seq<Byte>, n: nat)
    requires n == 8 * |bytes|
    ensures ToBits(LoadWord(bytes), n) == BytesToBits(bytes)
  {
    forall i: nat | i < n ensures ToBits(LoadWord(bytes), n)[i] == BytesToBits(bytes)[i] {
      ToBitsAt(LoadWord(bytes), n, i);
      BitAtLoadWord(bytes, i);
      BytesToBitsAt(bytes, i);
    }
  }

  lemma BytesToBitsOne(b: Byte)
    ensures BytesToBits([b]) == ToBits(b, 8)
  {
    assert [b][1..] == [];
    assert ToBits(b, 8) + [] == ToBits(b, 8);
  }

  /** The little-endian bytes of an `n`-byte word, as a store writes them. */
  function StoreWord(v: nat, n: nat): (bytes: seq<Byte>)
    ensures |bytes| == n
  {
    if n == 0 then [] else [LowByte(v)] + StoreWord(v / 256, n - 1)
  }

  lemma {:induction false} StoreWordBits(bits: Bits, n: nat)
    requires |bits| == 8 * n
    ensures BytesToBits(StoreWord(FromBits(bits), n)) == bits
    decreases n
  {
    if n > 0 {
      var v := FromBits(bits);
      FromBitsSplit(bits, 8);
      ByteBound();
      var low := FromBits(bits[..8]);
      assert v % 256 == low && v / 256 == FromBits(bits[8..]) by {
        QuotientUnique(v, FromBits(bits[8..]), low, 256);
      }
      assert StoreWord(v, n)[1..] == StoreWord(v / 256, n - 1);
      StoreWordBits(bits[8..], n - 1);
      ToFromBits(bits[..8]);
      assert bits == bits[..8] + bits[8..];
    }
  }

  lemma {:induction false} FromBitsConcat(a: Bits, b: Bits)
    ensures FromBits(a + b) == FromBits(a) + FromBits(b) * Pow2(|a|)
    decreases |a|
  {
    if a == [] {
      assert a + b == b;
    } else {
      FromBitsConcat(a[1..], b);
      assert (a + b)[1..] == a[1..] + b;
      TimesTwice(FromBits(b), Pow2(|a| - 1));
    }
  }

  lemma FromBitsSplit(bits: Bits, k: nat)
    requires k <= |bits|
    ensures FromBits(bits) == FromBits(bits[..k]) + FromBits(bits[k..]) * Pow2(k)
  {
    assert bits == bits[..k] + bits[k..];
    FromBitsConcat(bits[..k], bits[k..]);
  }

  /** The buffer behind a stream starts with the stream. */
  lemma RepresentedPrefix(buffer: seq<Byte>, stream: Bits)
    requires Represents(buffer, stream)
    ensures |stream| <= 8 * |buffer| && BytesToBits(buffer)[..|stream|] == stream
  {
    assert |stream| <= 8 * |buffer|;
    forall i: nat | i < |stream| ensures BytesToBits(buffer)[i] == stream[i] {
      RepresentsAt(buffer, stream, i);
      BytesToBitsAt(buffer, i);
    }
  }
}
