/** NetBitReaderBuffer: reads numbers of any width off a byte buffer, with a separate
    path for whole 64-bit words. */
module BitReader {
  import opened BitUtil
  import opened BitStream
  import opened Wrappers

  /** The bits of `data` from bit `bit` of byte `offset` on. */
  function BitsFrom(data: seq<Byte>, offset: nat, bit: nat): (rest: Bits)
    requires 8 * offset + bit <= 8 * |data|
    ensures |rest| == 8 * |data| - 8 * offset - bit
  {
    BytesToBits(data)[8 * offset + bit..]
  }

  lemma BitsFromAt(data: seq<Byte>, offset: nat, bit: nat, i: nat)
    requires 8 * offset + bit + i < 8 * |data|
    ensures BitsFrom(data, offset, bit)[i] == BufferBit(data, 8 * offset + bit + i)
  {
    BytesToBitsAt(data, 8 * offset + bit + i);
  }

  lemma BitsFromDrop(data: seq<Byte>, offset: nat, bit: nat, n: nat, offset': nat, bit': nat)
    requires 8 * offset + bit + n <= 8 * |data|
    requires 8 * offset' + bit' == 8 * offset + bit + n
    ensures BitsFrom(data, offset', bit') == BitsFrom(data, offset, bit)[n..]
  {
  }

  // ----- the pieces of a read -----

  /** A read that stays inside one byte. */
  lemma ReadWithinByte(data: seq<Byte>, offset: nat, bit: nat, n: nat)
    requires offset < |data| && bit + n <= 8
    ensures And(Shr(data[offset], bit), Mask(n)) == FromBits(BitsFrom(data, offset, bit)[..n])
  {
    var read := And(Shr(data[offset], bit), Mask(n));
    var bits := BitsFrom(data, offset, bit)[..n];
    AndBound(Shr(data[offset], bit), Mask(n));
    forall i: nat | i < n ensures BitAt(read, i) == BitAt(FromBits(bits), i) {
      ReadBit(data, offset, bit, n, i);
      BitAtFromBits(bits, i);
      BitsFromAt(data, offset, bit, i);
    }
    BitsDetermine(read, FromBits(bits), n);
  }

  lemma ReadBit(data: seq<Byte>, offset: nat, bit: nat, n: nat, i: nat)
    requires offset < |data| && bit + i < 8
    ensures BitAt(And(Shr(data[offset], bit), Mask(n)), i)
         == (i < n && BufferBit(data, 8 * offset + bit + i))
  {
    BitAtAnd(Shr(data[offset], bit), Mask(n), i);
    BitAtMask(n, i);
    BitAtShr(data[offset], bit, i);
    BufferBitIn(data, offset, bit + i);
  }

  /** The rest of this byte below whatever the following bytes contribute. */
  lemma ReadAcrossByte(data: seq<Byte>, offset: nat, bit: nat, n: nat, high: nat)
    requires offset < |data| && bit < 8 && 8 <= bit + n
    requires n <= |BitsFrom(data, offset, bit)|
    requires high == FromBits(BitsFrom(data, offset + 1, 0)[..n - (8 - bit)])
    ensures Or(And(Shr(data[offset], bit), Mask(n)), Shl(high, 8 - bit))
         == FromBits(BitsFrom(data, offset, bit)[..n])
  {
    var k := 8 - bit;
    var low := And(Shr(data[offset], bit), Mask(n));
    var bits, tail := BitsFrom(data, offset, bit)[..n], BitsFrom(data, offset + 1, 0)[..n - k];
    AndBound(Shr(data[offset], bit), Mask(n));
    ShlBound(high, k, n - k);
    OrBound(low, Shl(high, k), n);
    forall i: nat | i < n ensures BitAt(Or(low, Shl(high, k)), i) == BitAt(FromBits(bits), i) {
      BitAtOr(low, Shl(high, k), i);
      BitAtShl(high, k, i);
      BitAtFromBits(bits, i);
      BitsFromAt(data, offset, bit, i);
      if i < k {
        ReadBit(data, offset, bit, n, i);
      } else {
        BeyondByte(data, offset, bit, n, i);
        BitAtFromBits(tail, i - k);
        BitsFromAt(data, offset + 1, 0, i - k);
      }
    }
    BitsDetermine(Or(low, Shl(high, k)), FromBits(bits), n);
  }

  lemma BeyondByte(data: seq<Byte>, offset: nat, bit: nat, n: nat, i: nat)
    requires offset < |data| && bit < 8 && bit + i >= 8
    ensures !BitAt(And(Shr(data[offset], bit), Mask(n)), i)
  {
    BitAtAnd(Shr(data[offset], bit), Mask(n), i);
    BitAtShr(data[offset], bit, i);
    ByteBound();
    BitAtHigh(data[offset], 8, i + bit);
  }

  lemma {:induction false} BitAtHigh(v: nat, n: nat, i: nat)
    requires v < Pow2(n) && i >= n
    ensures !BitAt(v, i)
    decreases n
  {
    if n == 0 {
      BitAtZero(i);
    } else {
      BitAtHigh(v / 2, n - 1, i - 1);
    }
  }

  /** The word path: an unaligned 64-bit load completed by the low bits of the byte after it. */
  function ReadWord(data: seq<Byte>, offset: nat, bit: nat): nat
    requires bit < 8 && 8 * offset + bit + 64 <= 8 * |data|
  {
    var word := LoadWord(data[offset..offset + 8]);
    var next := if bit == 0 then 0 else And(data[offset + 8], Mask(bit));
    Or(Shr(word, bit), Shl(next, 64 - bit))
  }

  lemma WordPathBit(data: seq<Byte>, offset: nat, bit: nat, i: nat)
    requires bit < 8 && 8 * offset + bit + 64 <= 8 * |data| && i < 64
    ensures BitAt(ReadWord(data, offset, bit), i) == BufferBit(data, 8 * offset + bit + i)
  {
    var bytes := data[offset..offset + 8];
    var word := LoadWord(bytes);
    var next := if bit == 0 then 0 else And(data[offset + 8], Mask(bit));
    BitAtOr(Shr(word, bit), Shl(next, 64 - bit), i);
    BitAtShr(word, bit, i);
    BitAtLoadWord(bytes, i + bit);
    BitAtShl(next, 64 - bit, i);
    if i + bit < 64 {
      BufferBitSlice(data, offset, i + bit);
    } else {
      BitAtAnd(data[offset + 8], Mask(bit), i + bit - 64);
      BitAtMask(bit, i + bit - 64);
      BufferBitIn(data, offset + 8, i + bit - 64);
    }
  }

  lemma BufferBitSlice(data: seq<Byte>, offset: nat, i: nat)
    requires offset + 8 <= |data| && i < 64
    ensures BufferBit(data[offset..offset + 8], i) == BufferBit(data, 8 * offset + i)
  {
    assert (8 * offset + i) / 8 == offset + i / 8;
  }

  lemma ReadWordBound(data: seq<Byte>, offset: nat, bit: nat)
    requires bit < 8 && 8 * offset + bit + 64 <= 8 * |data|
    ensures ReadWord(data, offset, bit) < Pow2(64)
  {
    hide Pow2, Shl, Shr, And;
    var word := LoadWord(data[offset..offset + 8]);
    LoadWordBound(data[offset..offset + 8]);
    var next := if bit == 0 then 0 else And(data[offset + 8], Mask(bit));
    if bit > 0 { AndBound(data[offset + 8], Mask(bit)); }
    ShlBound(next, 64 - bit, bit);
    OrBound(Shr(word, bit), Shl(next, 64 - bit), 64);
  }

  /** The word path agrees with reading the 64 bits one after the other. */
  lemma WordPathReads(data: seq<Byte>, offset: nat, bit: nat)
    requires bit < 8 && 8 * offset + bit + 64 <= 8 * |data|
    ensures ReadWord(data, offset, bit) == FromBits(BitsFrom(data, offset, bit)[..64])
  {
    var bits := BitsFrom(data, offset, bit)[..64];
    forall i: nat | i < 64
      ensures BitAt(ReadWord(data, offset, bit), i) == BitAt(FromBits(bits), i)
    {
      WordPathBit(data, offset, bit, i);
      BitAtFromBits(bits, i);
      BitsFromAt(data, offset, bit, i);
    }
    ReadWordBound(data, offset, bit);
    BitsDetermine(ReadWord(data, offset, bit), FromBits(bits), 64);
  }

  lemma CopiedOut(data: seq<Byte>, offset: nat, n: nat)
    requires offset + n <= |data|
    ensures BytesToBits(data[offset..offset + n]) == BitsFrom(data, offset, 0)[..8 * n]
  {
    var copied := data[offset..offset + n];
    forall i: nat | i < 8 * n ensures BytesToBits(copied)[i] == BitsFrom(data, offset, 0)[i] {
      BytesToBitsAt(copied, i);
      BitsFromAt(data, offset, 0, i);
      assert (8 * offset + i) / 8 == offset + i / 8;
    }
  }

  lemma ReadMore(all: Bits, got: seq<Byte>, more: seq<Byte>)
    requires 8 * |got + more| <= |all|
    requires BytesToBits(got) == all[..8 * |got|]
    requires BytesToBits(more) == all[8 * |got|..][..8 * |more|]
    ensures BytesToBits(got + more) == all[..8 * |got + more|]
    ensures all[8 * |got|..][8 * |more|..] == all[8 * |got + more|..]
  {
    hide BytesToBits;
    BytesToBitsConcat(got, more);
    assert all[..8 * |got|] + all[8 * |got|..][..8 * |more|] == all[..8 * |got + more|];
  }

  lemma ByteRead(bits: Bits, v: nat)
    requires |bits| == 8 && v == FromBits(bits)
    ensures BytesToBits([LowByte(v)]) == bits
  {
    ByteBound();
    BytesToBitsOne(LowByte(v));
    ToFromBits(bits);
  }

  /** Whether reading bytes word by word reaches a whole word with only a partial byte to
      spare, where the word path looks at the byte after the buffer. */
  predicate ReadsPastEnd(remaining: nat, num_bytes: nat)
  {
    remaining % 64 > 56 && remaining / 64 < num_bytes / 8
  }

  lemma WordStep(remaining: nat, left: nat)
    requires !ReadsPastEnd(remaining, left) && left >= 8
    ensures !(56 < remaining < 64)
    ensures remaining >= 64 ==> !ReadsPastEnd(remaining - 64, left - 8)
  {
    assert remaining >= 64 ==> (remaining - 64) % 64 == remaining % 64 && (remaining - 64) / 64 == remaining / 64 - 1;
    assert (left - 8) / 8 == left / 8 - 1;
  }

  /** `SignExtend`, as the two's complement value of its result. */
  function SignExtend(val: nat, bits: nat): int
    requires 1 <= bits <= 63
  {
    if BitAt(val, bits - 1) then val - Pow2(bits) else val
  }

  class BitReaderBuffer {
    const data: seq<Byte>
    var offset: nat
    var numBytes: nat
    var bit: nat
    var totalBits: int
    ghost var rest: Bits  // what has not been read yet

    ghost predicate Valid()
      reads this
    {
      && offset + numBytes == |data|
      && bit < 8 && (bit > 0 ==> numBytes > 0)
      && rest == BitsFrom(data, offset, bit)
    }

    constructor (data: seq<Byte>)
      ensures Valid() && this.data == data && rest == BytesToBits(data) && offset == bit == 0
    {
      this.data := data;
      offset, numBytes, bit, totalBits := 0, |data|, 0, 0;
      rest := BytesToBits(data);
    }

    method ReadUBits(num_bits: nat) returns (r: Option<nat>)
      requires Valid() && num_bits <= 64
      requires num_bits == 64 ==> !(56 < |rest| < 64)
      modifies this
      ensures Valid()
      ensures r.None? <==> TakeNum(old(rest), num_bits).None?
      ensures r.Some? ==> TakeNum(old(rest), num_bits) == Some((r.value, rest))
      ensures r.Some? ==> totalBits == old(totalBits) + num_bits
    {
      totalBits := totalBits + num_bits;
      r := ReadBitsInternal(num_bits);
    }

    method ReadSBits(num_bits: nat) returns (r: Option<int>)
      requires Valid() && 1 <= num_bits <= 63
      modifies this
      ensures Valid()
      ensures r.None? <==> TakeNum(old(rest), num_bits).None?
      ensures r.Some? ==>
        var (v, rest') := TakeNum(old(rest), num_bits).value;
        r.value == SignExtend(v, num_bits) && rest == rest'
    {
      var u :- ReadUBits(num_bits);
      r := Some(SignExtend(u, num_bits));
    }

    /** Reads whole bytes: a plain copy on a byte boundary, word by word otherwise. */
    method ReadBuffer(num_bytes: nat) returns (r: Option<seq<Byte>>)
      requires Valid() && !ReadsPastEnd(|rest|, num_bytes)
      modifies this
      ensures Valid()
      ensures r.None? <==> |old(rest)| < 8 * num_bytes
      ensures r.Some? ==>
        && |r.value| == num_bytes && BytesToBits(r.value) == old(rest)[..8 * num_bytes]
        && rest == old(rest)[8 * num_bytes..]
    {
      hide BytesToBits, ReadsPastEnd;
      if bit == 0 && numBytes >= num_bytes {
        var copied := data[offset..offset + num_bytes];
        CopiedOut(data, offset, num_bytes);
        BitsFromDrop(data, offset, 0, 8 * num_bytes, offset + num_bytes, 0);
        rest := rest[8 * num_bytes..];
        offset := offset + num_bytes;
        numBytes := numBytes - num_bytes;
        totalBits := totalBits + num_bytes * 8;
        r := Some(copied);
      } else {
        r := ReadWords(num_bytes);
      }
    }

    method ReadWords(num_bytes: nat) returns (r: Option<seq<Byte>>)
      requires Valid() && !ReadsPastEnd(|rest|, num_bytes)
      modifies this
      ensures Valid()
      ensures r.None? <==> |old(rest)| < 8 * num_bytes
      ensures r.Some? ==>
        && |r.value| == num_bytes && BytesToBits(r.value) == old(rest)[..8 * num_bytes]
        && rest == old(rest)[8 * num_bytes..]
    {
      ghost var all := rest;
      var buffer: seq<Byte> := [];
      var left: nat := num_bytes;
      while left >= 8
        invariant Valid() && |buffer| + left == num_bytes
        invariant !ReadsPastEnd(|rest|, left)
        invariant 8 * |buffer| <= |all| && BytesToBits(buffer) == all[..8 * |buffer|]
        invariant rest == all[8 * |buffer|..]
      {
        WordStep(|rest|, left);
        ghost var before := rest;
        var word :- ReadUBits(64);
        StoreWordBits(before[..64], 8);
        ReadMore(all, buffer, StoreWord(word, 8));
        buffer := buffer + StoreWord(word, 8);
        left := left - 8;
      }
      r := ReadBytes(buffer, left, all);
    }

    method ReadBytes(start: seq<Byte>, num_bytes: nat, ghost all: Bits) returns (r: Option<seq<Byte>>)
      requires Valid()
      requires 8 * |start| <= |all| && BytesToBits(start) == all[..8 * |start|]
      requires rest == all[8 * |start|..]
      modifies this
      ensures Valid()
      ensures r.None? <==> |all| < 8 * (|start| + num_bytes)
      ensures r.Some? ==>
        && |r.value| == |start| + num_bytes && BytesToBits(r.value) == all[..8 * |r.value|]
        && rest == all[8 * |r.value|..]
    {
      var buffer := start;
      var left: nat := num_bytes;
      while left > 0
        invariant Valid() && |buffer| + left == |start| + num_bytes
        invariant 8 * |buffer| <= |all| && BytesToBits(buffer) == all[..8 * |buffer|]
        invariant rest == all[8 * |buffer|..]
      {
        ghost var before := rest;
        var v :- ReadUBits(8);
        ByteRead(before[..8], v);
        ReadMore(all, buffer, [LowByte(v)]);
        buffer := buffer + [LowByte(v)];
        left := left - 1;
      }
      r := Some(buffer);
    }

    method IsEmpty() returns (b: bool)
      requires Valid()
      ensures b <==> |rest| <= 8 - bit
    {
      b := numBytes <= 1;
    }

    /** The word path reads one byte past the eight; with exactly eight bytes left and a
        bit offset that byte is outside the buffer, and the call is excluded. */
    method ReadBitsInternal(num_bits: nat) returns (r: Option<nat>)
      requires Valid() && num_bits <= 64
      requires num_bits == 64 ==> !(56 < |rest| < 64)
      modifies `offset, `numBytes, `bit, `rest
      ensures Valid()
      ensures r.None? <==> TakeNum(old(rest), num_bits).None?
      ensures r.Some? ==> TakeNum(old(rest), num_bits) == Some((r.value, rest))
      decreases num_bits
    {
      hide BytesToBits, Pow2, Shr, And, ReadWord;
      if num_bits == 0 {
        return Some(0);
      }

      if num_bits == 64 && numBytes >= 8 {
        WordPathReads(data, offset, bit);
        var val := ReadWord(data, offset, bit);
        BitsFromDrop(data, offset, bit, 64, offset + 8, bit);
        rest := rest[64..];
        numBytes := numBytes - 8;
        offset := offset + 8;
        return Some(val);
      }

      if numBytes == 0 {
        return None;
      }

      var mask_bits := Mask(num_bits);
      var val := Shr(data[offset], bit);
      if bit + num_bits >= 8 {
        var read_bits := 8 - bit;
        r := ReadAcross(num_bits, read_bits, And(val, mask_bits));
        return;
      }

      ReadWithinByte(data, offset, bit, num_bits);
      BitsFromDrop(data, offset, bit, num_bits, offset, bit + num_bits);
      rest := rest[num_bits..];
      bit := bit + num_bits;
      r := Some(And(val, mask_bits));
    }

    /** The end of this byte and, recursively, the bits after it. */
    method ReadAcross(num_bits: nat, read_bits: nat, low: nat) returns (r: Option<nat>)
      requires Valid() && num_bits <= 64 && numBytes > 0
      requires read_bits == 8 - bit <= num_bits
      requires low == And(Shr(data[offset], bit), Mask(num_bits))
      modifies `offset, `numBytes, `bit, `rest
      ensures Valid()
      ensures r.None? <==> TakeNum(old(rest), num_bits).None?
      ensures r.Some? ==> TakeNum(old(rest), num_bits) == Some((r.value, rest))
      decreases num_bits, 0
    {
      ghost var before, offset0, bit0 := rest, offset, bit;
      BitsFromDrop(data, offset, bit, read_bits, offset + 1, 0);
      rest := rest[read_bits..];
      bit := 0;
      numBytes := numBytes - 1;
      offset := offset + 1;
      ghost var middle := rest;
      var high := ReadBitsInternal(num_bits - read_bits);
      if high.None? {
        return None;
      }
      assert middle[num_bits - read_bits..] == before[num_bits..];
      ReadAcrossByte(data, offset0, bit0, num_bits, high.value);
      r := Some(Or(low, Shl(high.value, read_bits)));
    }
  }
}
