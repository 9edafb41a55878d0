/** NetBitWriterVector: a growing byte vector with a write position inside its last
    byte, cursors over reserved bits, and truncation back to a cursor. */
module BitWriter {
  import opened BitUtil
  import opened BitStream

  function Min(a: int, b: int): int
  {
    if a < b then a else b
  }

  function Max(a: int, b: int): int
  {
    if a < b then b else a
  }

  // ----- one byte, bit by bit -----

  /** The byte stored when `val` goes into the free bits above the `bit` used ones. */
  function AppendToByte(old_byte: Byte, val: nat, bit: nat): nat
    requires bit <= 8
  {
    var used_bit_mask := Mask(bit);
    var masked_bits := And(val, Mask(8 - bit));
    Or(And(old_byte, used_bit_mask), Shl(masked_bits, bit))
  }

  /** Appending keeps the used bits, whatever stood above them. */
  lemma AppendedByte(old_byte: Byte, val: nat, bit: nat)
    requires 1 <= bit < 8
    ensures AppendToByte(old_byte, val, bit) < 256
    ensures forall i: nat :: i < 8 ==>
      BitAt(AppendToByte(old_byte, val, bit), i)
      == if i < bit then BitAt(old_byte, i) else BitAt(val, i - bit)
  {
    var kept := And(old_byte, Mask(bit));
    var masked := And(val, Mask(8 - bit));
    AndBound(old_byte, Mask(bit));
    AndBound(val, Mask(8 - bit));
    ShlBound(masked, bit, 8 - bit);
    ByteBound();
    OrBound(kept, Shl(masked, bit), 8);
    forall i: nat | i < 8
      ensures BitAt(AppendToByte(old_byte, val, bit), i)
           == if i < bit then BitAt(old_byte, i) else BitAt(val, i - bit)
    {
      BitAtOr(kept, Shl(masked, bit), i);
      BitAtAnd(old_byte, Mask(bit), i);
      BitAtMask(bit, i);
      BitAtShl(masked, bit, i);
      if i >= bit {
        BitAtAnd(val, Mask(8 - bit), i - bit);
        BitAtMask(8 - bit, i - bit);
      }
    }
  }

  /** The mask of the low `n` bits as an 8-bit word. */
  function WriteMask(n: nat): Byte
  {
    LowByte(Mask(n))
  }

  /** The byte stored when `n` bits of `val` are patched in from bit `at` on. */
  function PatchByte(old_byte: Byte, val: nat, at: nat, n: nat): nat
  {
    var target_bit_mask := LowByte(Shl(WriteMask(n), at));
    var target_bits := LowByte(Shl(And(WriteMask(n), val), at));
    var save_bit_mask := NotByte(target_bit_mask);
    Or(And(old_byte, save_bit_mask), target_bits)
  }

  lemma PatchedBit(old_byte: Byte, val: nat, at: nat, n: nat, i: nat)
    requires at < 8 && i < 8
    ensures BitAt(PatchByte(old_byte, val, at, n), i)
         == if at <= i < at + n then BitAt(val, i - at) else BitAt(old_byte, i)
  {
    var write_mask := WriteMask(n);
    var target_mask := LowByte(Shl(write_mask, at));
    var target := LowByte(Shl(And(write_mask, val), at));
    BitAtOr(And(old_byte, NotByte(target_mask)), target, i);
    BitAtAnd(old_byte, NotByte(target_mask), i);
    BitAtNotByte(target_mask, i);
    BitAtLowByte(Shl(write_mask, at), i);
    BitAtShl(write_mask, at, i);
    BitAtLowByte(Shl(And(write_mask, val), at), i);
    BitAtShl(And(write_mask, val), at, i);
    if i >= at {
      BitAtLowByte(Mask(n), i - at);
      BitAtMask(n, i - at);
      BitAtAnd(write_mask, val, i - at);
    }
  }

  /** Patching leaves the bits below `at` and from `at + n` on alone. */
  lemma PatchedByte(old_byte: Byte, val: nat, at: nat, n: nat)
    requires at < 8
    ensures PatchByte(old_byte, val, at, n) < 256
    ensures forall i: nat :: i < 8 ==>
      BitAt(PatchByte(old_byte, val, at, n), i)
      == if at <= i < at + n then BitAt(val, i - at) else BitAt(old_byte, i)
  {
    var target_mask := LowByte(Shl(WriteMask(n), at));
    AndBound(old_byte, NotByte(target_mask));
    ByteBound();
    OrBound(And(old_byte, NotByte(target_mask)), LowByte(Shl(And(WriteMask(n), val), at)), 8);
    forall i: nat | i < 8
      ensures BitAt(PatchByte(old_byte, val, at, n), i)
           == if at <= i < at + n then BitAt(val, i - at) else BitAt(old_byte, i)
    {
      PatchedBit(old_byte, val, at, n, i);
    }
  }

  /** The patch when a whole byte is free: no shift is needed. */
  function PatchWholeByte(old_byte: Byte, val: nat, n: nat): nat
  {
    var target_bits := And(WriteMask(n), val);
    var save_bit_mask := NotByte(WriteMask(n));
    Or(And(old_byte, save_bit_mask), target_bits)
  }

  lemma UnshiftedPatch(old_byte: Byte, val: nat, n: nat)
    ensures PatchByte(old_byte, val, 0, n) == PatchWholeByte(old_byte, val, n)
  {
    var mask, target := WriteMask(n), And(WriteMask(n), val);
    AndBound(mask, val);
    SmallByte(mask);
    SmallByte(target);
  }

  lemma SmallByte(b: nat)
    requires b < 256
    ensures LowByte(Shl(b, 0)) == b
  {
  }

  // ----- one byte inside the buffer -----

  lemma PushedByte(buffer: seq<Byte>, stream: Bits, val: nat, k: nat)
    requires k <= 8 && |stream| == 8 * |buffer| && Represents(buffer, stream)
    ensures Represents(buffer + [LowByte(val)], stream + ToBits(val, k))
  {
    var grown := buffer + [LowByte(val)];
    var longer := stream + ToBits(val, k);
    forall i | 0 <= i < |longer| ensures longer[i] == BufferBit(grown, i) {
      if i < |stream| {
        RepresentsAt(buffer, stream, i);
        OldBit(buffer, LowByte(val), i);
      } else {
        PushedBit(buffer, val, i - |stream|);
        ToBitsAt(val, k, i - |stream|);
      }
    }
    RepresentsIntro(grown, longer);
  }

  lemma PushedBit(buffer: seq<Byte>, val: nat, j: nat)
    requires j < 8
    ensures BufferBit(buffer + [LowByte(val)], 8 * |buffer| + j) == BitAt(val, j)
  {
    hide BufferBit, BitAt, LowByte;
    BufferBitIn(buffer + [LowByte(val)], |buffer|, j);
    BitAtLowByte(val, j);
  }

  lemma OldBit(buffer: seq<Byte>, b: Byte, i: nat)
    requires i < 8 * |buffer|
    ensures BufferBit(buffer + [b], i) == BufferBit(buffer, i)
  {
    assert i / 8 < |buffer|;
  }

  lemma FilledByte(buffer: seq<Byte>, stream: Bits, val: nat, bit: nat, k: nat)
    requires |buffer| > 0 && 1 <= bit < 8 && bit + k <= 8
    requires |stream| == 8 * (|buffer| - 1) + bit && Represents(buffer, stream)
    ensures AppendToByte(buffer[|buffer| - 1], val, bit) < 256
    ensures Represents(buffer[|buffer| - 1 := AppendToByte(buffer[|buffer| - 1], val, bit)],
                       stream + ToBits(val, k))
  {
    var last := |buffer| - 1;
    AppendedByte(buffer[last], val, bit);
    var filled := buffer[last := AppendToByte(buffer[last], val, bit)];
    var longer := stream + ToBits(val, k);
    forall i | 0 <= i < |longer| ensures longer[i] == BufferBit(filled, i) {
      if i < |stream| { RepresentsAt(buffer, stream, i); }
      if i >= 8 * last {
        BufferBitIn(filled, last, i - 8 * last);
        BufferBitIn(buffer, last, i - 8 * last);
        if i >= |stream| { ToBitsAt(val, k, i - |stream|); }
      } else {
        OtherByte(buffer, last, filled[last], i);
      }
    }
    RepresentsIntro(filled, longer);
  }

  lemma OtherByte(buffer: seq<Byte>, index: nat, b: Byte, i: nat)
    requires index < |buffer| && i < 8 * |buffer| && !(8 * index <= i < 8 * index + 8)
    ensures BufferBit(buffer[index := b], i) == BufferBit(buffer, i)
  {
  }

  lemma PatchedBuffer(buffer: seq<Byte>, stream: Bits, val: nat, index: nat, at: nat, num_bits: nat)
    requires index < |buffer| && at < 8 && Represents(buffer, stream)
    requires 8 * index + at + Min(8 - at, num_bits) <= |stream|
    ensures PatchByte(buffer[index], val, at, num_bits) < 256
    ensures Represents(buffer[index := PatchByte(buffer[index], val, at, num_bits)],
                       Overwrite(stream, 8 * index + at, ToBits(val, Min(8 - at, num_bits))))
  {
    hide PatchByte, Represents, Overwrite, BitAt;
    PatchedByte(buffer[index], val, at, num_bits);
    StoredByte(buffer, stream, PatchByte(buffer[index], val, at, num_bits),
      ToBits(val, Min(8 - at, num_bits)), index, at);
  }

  /** A byte that differs from the stored one in a patch puts the patch into the stream. */
  lemma StoredByte(buffer: seq<Byte>, stream: Bits, b: Byte, patch: Bits, index: nat, at: nat)
    requires index < |buffer| && Represents(buffer, stream)
    requires 8 * index + at + |patch| <= |stream| && at + |patch| <= 8
    requires forall j: nat :: j < 8 ==>
      BitAt(b, j) == if at <= j < at + |patch| then patch[j - at] else BitAt(buffer[index], j)
    ensures Represents(buffer[index := b], Overwrite(stream, 8 * index + at, patch))
  {
    var patched, longer := buffer[index := b], Overwrite(stream, 8 * index + at, patch);
    forall i | 0 <= i < |longer| ensures longer[i] == BufferBit(patched, i) {
      StoredBit(buffer, stream, b, patch, index, at, i);
    }
    RepresentsIntro(patched, longer);
  }

  lemma StoredBit(buffer: seq<Byte>, stream: Bits, b: Byte, patch: Bits, index: nat, at: nat, i: nat)
    requires index < |buffer| && Represents(buffer, stream)
    requires 8 * index + at + |patch| <= |stream| && at + |patch| <= 8 && i < |stream|
    requires forall j: nat :: j < 8 ==>
      BitAt(b, j) == if at <= j < at + |patch| then patch[j - at] else BitAt(buffer[index], j)
    ensures Overwrite(stream, 8 * index + at, patch)[i] == BufferBit(buffer[index := b], i)
  {
    RepresentsAt(buffer, stream, i);
    OverwriteAt(stream, 8 * index + at, patch, i);
    if 8 * index <= i < 8 * index + 8 {
      var j := i - 8 * index;
      BufferBitIn(buffer[index := b], index, j);
      BufferBitIn(buffer, index, j);
    } else {
      OtherByte(buffer, index, b, i);
    }
  }

  lemma PatchedNextBuffer(buffer: seq<Byte>, stream: Bits, val: nat, index: nat, num_bits: nat)
    requires index < |buffer| && Represents(buffer, stream)
    requires 8 * index + Min(8, num_bits) <= |stream|
    ensures PatchWholeByte(buffer[index], val, num_bits) < 256
    ensures Represents(buffer[index := PatchWholeByte(buffer[index], val, num_bits)],
                       Overwrite(stream, 8 * index, ToBits(val, Min(8, num_bits))))
  {
    hide PatchByte, PatchWholeByte, Overwrite, Represents, ToBits;
    UnshiftedPatch(buffer[index], val, num_bits);
    PatchedBuffer(buffer, stream, val, index, 0, num_bits);
  }

  /** Once the value is used up it does not matter how far it has been shifted. */
  lemma ShiftedPastEnd(val: nat, shift: nat, n: nat)
    ensures ToBits(Shr(val, shift), n - Min(n, shift)) == ToBits(Shr(val, Min(n, shift)), n - Min(n, shift))
  {
  }

  lemma TruncatedBuffer(buffer: seq<Byte>, stream: Bits, size: nat, at: nat)
    requires Represents(buffer, stream)
    requires size <= |buffer| && at <= 8 * size && at <= |stream|
    ensures Represents(buffer[..size], stream[..at])
  {
    forall i | 0 <= i < at ensures stream[..at][i] == BufferBit(buffer[..size], i) {
      RepresentsAt(buffer, stream, i);
      assert i / 8 < size;
    }
    RepresentsIntro(buffer[..size], stream[..at]);
  }

  lemma AppendTwice(bits: Bits, val: nat, k: nat, n: nat)
    requires k <= n
    ensures bits + ToBits(val, k) + ToBits(Shr(val, k), n - k) == bits + ToBits(val, n)
  {
    ToBitsSplit(val, n, k);
  }

  lemma OverwriteTwice(bits: Bits, at: nat, val: nat, k: nat, n: nat)
    requires k <= n && at + n <= |bits|
    ensures Overwrite(Overwrite(bits, at, ToBits(val, k)), at + k, ToBits(Shr(val, k), n - k))
         == Overwrite(bits, at, ToBits(val, n))
  {
    ToBitsSplit(val, n, k);
    OverwriteConcat(bits, at, ToBits(val, k), ToBits(Shr(val, k), n - k));
  }

  lemma CopiedBytes(buffer: seq<Byte>, stream: Bits, data: seq<Byte>)
    requires |stream| == 8 * |buffer| && Represents(buffer, stream)
    ensures Represents(buffer + data, stream + BytesToBits(data))
  {
    var longer := stream + BytesToBits(data);
    forall i | 0 <= i < |longer| ensures longer[i] == BufferBit(buffer + data, i) {
      if i < |stream| {
        RepresentsAt(buffer, stream, i);
        assert i / 8 < |buffer|;
      } else {
        BytesToBitsAt(data, i - |stream|);
        assert i / 8 == |buffer| + (i - |stream|) / 8;
      }
    }
    RepresentsIntro(buffer + data, longer);
  }

  lemma WrittenBytes(before: Bits, data: seq<Byte>, i: nat, j: nat)
    requires i <= j <= |data|
    ensures before + BytesToBits(data[..i]) + BytesToBits(data[i..j]) == before + BytesToBits(data[..j])
  {
    hide BytesToBits;
    assert data[..j] == data[..i] + data[i..j];
    ConcatAssoc(before, BytesToBits(data[..i]), BytesToBits(data[i..j]));
    BytesToBitsConcat(data[..i], data[i..j]);
  }

  /** A position handed out by `Reserve`: the next bit to patch is bit `bit` of byte
      `byte`, or the first bit of the next byte when `bit` is 8.  On an empty buffer the
      `size_t` that holds `byte` wraps below zero; here it is -1. */
  class BitWriterCursor {
    var byte: int
    var bit: nat
    var size: int
    var wrote: bool
    var totalBits: int

    constructor (byte: int, bit: nat, size: int, totalBits: int)
      ensures this.byte == byte && this.bit == bit && this.size == size
      ensures !wrote && this.totalBits == totalBits
    {
      this.byte, this.bit, this.size, this.totalBits := byte, bit, size, totalBits;
      wrote := false;
    }

    ghost predicate Valid()
      reads this
    {
      byte >= -1 && 1 <= bit <= 8 && (byte == -1 ==> bit == 8)
    }

    /** The position in the bit stream. */
    ghost function Pos(): int
      reads this
    {
      8 * byte + bit
    }
  }

  class BitWriterVector {
    var buffer: seq<Byte>
    var bit: nat
    var totalBits: int
    ghost var stream: Bits  // everything written so far

    ghost predicate Valid()
      reads this
    {
      && 1 <= bit <= 8
      && (buffer == [] ==> bit == 8)
      && |stream| == 8 * (|buffer| - 1) + bit
      && Represents(buffer, stream)
    }

    /** Zero exactly when `GetTotalBits` reports the number of bits in the stream. */
    ghost function Drift(): int
      reads this
    {
      totalBits - |stream|
    }

    /** The write position is determined by the number of bits written. */
    lemma Position()
      requires Valid()
      ensures |buffer| == (|stream| + 7) / 8 && bit == (|stream| + 7) % 8 + 1
    {
    }

    constructor ()
      ensures Valid() && stream == [] && Drift() == 0
    {
      buffer, bit, totalBits := [], 8, 0;
      stream := [];
    }

    method Reset()
      modifies this
      ensures Valid() && stream == [] && Drift() == 0
    {
      buffer, bit, totalBits := [], 8, 0;
      stream := [];
    }

    method GetTotalBits() returns (n: int)
      ensures n == totalBits
    {
      n := totalBits;
    }

    method WriteBits(val: nat, num_bits: nat)
      requires Valid()
      modifies this
      ensures Valid()
      ensures stream == old(stream) + ToBits(val, num_bits)
      ensures Drift() == old(Drift())
    {
      totalBits := totalBits + num_bits;
      WriteBitsInternal(val, num_bits);
    }

    /** The conversion of a negative `val` to `uint64_t` keeps its low bits. */
    method WriteSBits(val: int, num_bits: nat)
      requires Valid() && -0x8000_0000_0000_0000 <= val < 0x8000_0000_0000_0000
      modifies this
      ensures Valid()
      ensures stream == old(stream)
        + ToBits(if val >= 0 then val else val + 0x1_0000_0000_0000_0000, num_bits)
      ensures Drift() == old(Drift())
    {
      WriteBits(if val >= 0 then val else val + 0x1_0000_0000_0000_0000, num_bits);
    }

    /** Appends whole bytes: a plain copy on a byte boundary, word by word otherwise.  The
        copy does not count its bits: `GetTotalBits` falls behind by the bits copied. */
    method WriteBuffer(data: seq<Byte>)
      requires Valid()
      modifies this
      ensures Valid()
      ensures stream == old(stream) + BytesToBits(data)
      ensures Drift() == old(Drift()) - if old(bit) == 8 && |data| >= 64 then 8 * |data| else 0
    {
      if bit == 8 && |data| >= 64 {
        CopiedBytes(buffer, stream, data);
        buffer := buffer + data;
        stream := stream + BytesToBits(data);
      } else {
        WriteWords(data);
      }
    }

    method WriteWords(data: seq<Byte>)
      requires Valid()
      modifies this
      ensures Valid()
      ensures stream == old(stream) + BytesToBits(data) && Drift() == old(Drift())
    {
      hide Valid, LoadWord, ToBits;
      var ptr: nat, num_bytes: nat := 0, |data|;
      assert data[..0] == [];
      while num_bytes >= 8
        invariant Valid() && ptr + num_bytes == |data|
        invariant stream == old(stream) + BytesToBits(data[..ptr]) && Drift() == old(Drift())
      {
        WriteBits(LoadWord(data[ptr..ptr + 8]), 64);
        ToBitsLoadWord(data[ptr..ptr + 8], 64);
        WrittenBytes(old(stream), data, ptr, ptr + 8);
        ptr := ptr + 8;
        num_bytes := num_bytes - 8;
      }
      while num_bytes > 0
        invariant Valid() && ptr + num_bytes == |data|
        invariant stream == old(stream) + BytesToBits(data[..ptr]) && Drift() == old(Drift())
      {
        WriteBits(data[ptr], 8);
        BytesToBitsOne(data[ptr]);
        assert data[ptr..ptr + 1] == [data[ptr]];
        WrittenBytes(old(stream), data, ptr, ptr + 1);
        ptr := ptr + 1;
        num_bytes := num_bytes - 1;
      }
      assert data[..ptr] == data;
    }

    method WriteBitsInternal(val: nat, num_bits: int)
      requires Valid()
      modifies this
      ensures Valid() && totalBits == old(totalBits)
      ensures stream == old(stream) + ToBits(val, if num_bits <= 0 then 0 else num_bits)
      decreases num_bits
    {
      if num_bits <= 0 {
        return;
      }
      var free_bits := 8 - bit;
      ghost var before := stream;
      if free_bits == 0 {
        AppendTwice(before, val, Min(8, num_bits), num_bits);
        PushByte(val, num_bits);
        WriteBitsInternal(Shr(val, 8), num_bits - 8);
        return;
      }
      AppendTwice(before, val, Min(free_bits, num_bits), num_bits);
      FillByte(val, num_bits);
      WriteBitsInternal(Shr(val, free_bits), num_bits - Min(num_bits, free_bits));
    }

    method PushByte(val: nat, num_bits: nat)
      requires Valid() && bit == 8 && num_bits > 0
      modifies this
      ensures Valid() && totalBits == old(totalBits)
      ensures stream == old(stream) + ToBits(val, Min(8, num_bits))
    {
      PushedByte(buffer, stream, val, Min(8, num_bits));
      buffer := buffer + [LowByte(val)];
      bit := Min(8, num_bits);
      stream := stream + ToBits(val, Min(8, num_bits));
    }

    method FillByte(val: nat, num_bits: nat)
      requires Valid() && bit < 8 && num_bits > 0
      modifies this
      ensures Valid() && totalBits == old(totalBits)
      ensures stream == old(stream) + ToBits(val, Min(8 - old(bit), num_bits))
    {
      ghost var k := Min(8 - bit, num_bits);
      FilledByte(buffer, stream, val, bit, k);
      buffer := buffer[|buffer| - 1 := AppendToByte(buffer[|buffer| - 1], val, bit)];
      bit := Min(8, bit + num_bits);
      stream := stream + ToBits(val, k);
    }

    /** Patches reserved bits.  A patch longer than the cursor's size throws before
        anything is touched: `ok` is false. */
    method WriteBitsAt(cursor: BitWriterCursor, val: nat, num_bits: nat) returns (ok: bool)
      requires Valid() && cursor.Valid()
      requires num_bits <= 63 && cursor.Pos() + num_bits <= |stream|
      modifies `buffer, `stream, cursor`byte, cursor`bit, cursor`size, cursor`wrote
      ensures Valid() && cursor.Valid()
      ensures ok <==> num_bits <= old(cursor.size) || num_bits == 0
      ensures !ok ==> unchanged(this) && unchanged(cursor)
      ensures ok ==>
        && stream == Overwrite(old(stream), old(cursor.Pos()), ToBits(val, num_bits))
        && cursor.Pos() == old(cursor.Pos()) + num_bits
        && cursor.size >= old(cursor.size) - num_bits
        && cursor.wrote == (old(cursor.wrote) || num_bits > 0)
    {
      if num_bits > 0 && num_bits > cursor.size {
        return false;
      }
      PatchBits(cursor, val, num_bits);
      ok := true;
    }

    /** The recursion behind a cursor write.  Every recursive call again finds the rest
        of the value within the cursor's size, so the overflow test cannot fire half way. */
    method PatchBits(cursor: BitWriterCursor, val: nat, num_bits: nat)
      requires Valid() && cursor.Valid()
      requires num_bits <= 63 && (num_bits == 0 || num_bits <= cursor.size)
      requires cursor.Pos() + num_bits <= |stream|
      modifies `buffer, `stream, cursor`byte, cursor`bit, cursor`size, cursor`wrote
      ensures Valid() && cursor.Valid()
      ensures stream == Overwrite(old(stream), old(cursor.Pos()), ToBits(val, num_bits))
      ensures cursor.Pos() == old(cursor.Pos()) + num_bits
      ensures cursor.size >= old(cursor.size) - num_bits
      ensures cursor.wrote == (old(cursor.wrote) || num_bits > 0)
      decreases num_bits
    {
      if num_bits == 0 {
        return;
      }
      hide Overwrite, Shr;
      cursor.wrote := true;
      ghost var before, at := stream, cursor.Pos();
      var free_bits := PatchByteAt(cursor, val, num_bits);
      PatchBits(cursor, Shr(val, free_bits), num_bits - Min(num_bits, free_bits));
      ShiftedPastEnd(val, free_bits, num_bits);
      OverwriteTwice(before, at, val, Min(num_bits, free_bits), num_bits);
    }

    /** Patches as much as fits into one byte: the next one when this one is full. */
    method PatchByteAt(cursor: BitWriterCursor, val: nat, num_bits: nat) returns (free_bits: nat)
      requires Valid() && cursor.Valid()
      requires 0 < num_bits && cursor.Pos() + num_bits <= |stream|
      modifies `buffer, `stream, cursor`byte, cursor`bit, cursor`size
      ensures Valid() && cursor.Valid() && free_bits > 0
      ensures stream == Overwrite(old(stream), old(cursor.Pos()), ToBits(val, Min(num_bits, free_bits)))
      ensures cursor.Pos() == old(cursor.Pos()) + Min(num_bits, free_bits)
      ensures cursor.size >= old(cursor.size) - Min(num_bits, free_bits)
    {
      free_bits := 8 - cursor.bit;
      if free_bits == 0 {
        PatchNextByte(cursor, val, num_bits);
        free_bits := 8;
      } else {
        PatchThisByte(cursor, val, num_bits);
      }
    }

    method PatchNextByte(cursor: BitWriterCursor, val: nat, num_bits: nat)
      requires Valid() && cursor.Valid() && cursor.bit == 8
      requires 0 < num_bits && cursor.Pos() + num_bits <= |stream|
      modifies `buffer, `stream, cursor`byte, cursor`bit, cursor`size
      ensures Valid() && cursor.Valid()
      ensures stream == Overwrite(old(stream), old(cursor.Pos()), ToBits(val, Min(8, num_bits)))
      ensures cursor.Pos() == old(cursor.Pos()) + Min(8, num_bits)
      ensures cursor.size >= old(cursor.size)
    {
      var index := cursor.byte + 1;
      PatchedNextBuffer(buffer, stream, val, index, num_bits);
      stream := Overwrite(stream, 8 * index, ToBits(val, Min(8, num_bits)));
      buffer := buffer[index := PatchWholeByte(buffer[index], val, num_bits)];

      cursor.byte := index;
      var new_bit := Min(8, num_bits);
      cursor.size := cursor.size - (new_bit - cursor.bit);
      cursor.bit := new_bit;
    }

    method PatchThisByte(cursor: BitWriterCursor, val: nat, num_bits: nat)
      requires Valid() && cursor.Valid() && cursor.bit < 8
      requires 0 < num_bits && cursor.Pos() + num_bits <= |stream|
      modifies `buffer, `stream, cursor`bit, cursor`size
      ensures Valid() && cursor.Valid()
      ensures stream == Overwrite(old(stream), old(cursor.Pos()), ToBits(val, Min(8 - old(cursor.bit), num_bits)))
      ensures cursor.Pos() == old(cursor.Pos()) + Min(8 - old(cursor.bit), num_bits)
      ensures cursor.size == old(cursor.size) - Min(8 - old(cursor.bit), num_bits)
    {
      var index, at := cursor.byte, cursor.bit;
      PatchedBuffer(buffer, stream, val, index, at, num_bits);
      stream := Overwrite(stream, 8 * index + at, ToBits(val, Min(8 - at, num_bits)));
      buffer := buffer[index := PatchByte(buffer[index], val, at, num_bits)];
      var new_bit := Min(8, at + num_bits);
      cursor.size := cursor.size - (new_bit - at);
      cursor.bit := new_bit;
    }

    method Reserve(num_bits: nat) returns (cursor: BitWriterCursor)
      requires Valid()
      modifies this
      ensures Valid() && fresh(cursor) && cursor.Valid()
      ensures stream == old(stream) + Zeros(num_bits)
      ensures Drift() == old(Drift())
      ensures cursor.Pos() == |old(stream)| && cursor.size == num_bits
      ensures !cursor.wrote && cursor.totalBits == old(totalBits)
    {
      cursor := new BitWriterCursor(|buffer| - 1, bit, num_bits, totalBits);
      WriteBits(0, num_bits);
      ToBitsZero(num_bits);
    }

    /** Truncates to the cursor, unless the cursor has been written to (an exception). */
    method RollBack(cursor: BitWriterCursor) returns (ok: bool)
      requires Valid() && cursor.Valid() && cursor.Pos() <= |stream|
      modifies this
      ensures Valid() && ok == !cursor.wrote
      ensures !ok ==>
        && buffer == old(buffer) && bit == old(bit)
        && stream == old(stream) && totalBits == old(totalBits)
      ensures ok ==>
        && stream == old(stream)[..cursor.Pos()]
        && bit == cursor.bit && totalBits == cursor.totalBits
    {
      if cursor.wrote {
        return false;
      }
      TruncatedBuffer(buffer, stream, cursor.byte + 1, cursor.Pos());
      buffer := buffer[..cursor.byte + 1];
      bit := cursor.bit;
      totalBits := cursor.totalBits;
      stream := stream[..cursor.Pos()];
      ok := true;
    }
  }
}
