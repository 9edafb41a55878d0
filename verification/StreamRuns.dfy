/** Lists of numbers over the bit streams: patched into reserved bits, written at any offset
    and read back. */
module StreamRuns {
  import opened BitUtil
  import opened BitStream
  import opened BitWriter
  import opened BitReader

  /** A number and the width it is written with. */
  datatype Field = Field(val: nat, width: nat)

  function FieldBits(fields: seq<Field>): Bits
  {
    if fields == [] then []
    else ToBits(fields[0].val, fields[0].width) + FieldBits(fields[1..])
  }

  // ----- patches -----

  method RunPatches(writer: BitWriterVector, cursor: BitWriterCursor, patches: seq<Field>)
    requires writer.Valid() && cursor.Valid()
    requires forall p <- patches :: p.width <= 63
    requires cursor.Pos() + |FieldBits(patches)| <= |writer.stream|
    requires |FieldBits(patches)| <= cursor.size
    modifies writer`buffer, writer`stream, cursor
    ensures writer.Valid() && writer.Drift() == old(writer.Drift())
    ensures writer.stream == Overwrite(old(writer.stream), old(cursor.Pos()), FieldBits(patches))
    decreases |patches|
  {
    if patches != [] {
      var p := patches[0];
      var ok := writer.WriteBitsAt(cursor, p.val, p.width);
      assert ok;
      OverwriteConcat(old(writer.stream), old(cursor.Pos()), ToBits(p.val, p.width), FieldBits(patches[1..]));
      RunPatches(writer, cursor, patches[1..]);
    }
  }

  // ----- numbers out and back -----

  /** The values a reader returns for the fields: each modulo its width. */
  function ReadValues(fields: seq<Field>): (vals: seq<nat>)
    ensures |vals| == |fields|
  {
    if fields == [] then [] else [Trunc(fields[0].val, fields[0].width)] + ReadValues(fields[1..])
  }

  lemma {:induction false} ReadValuesAt(fields: seq<Field>, i: nat)
    requires i < |fields|
    ensures ReadValues(fields)[i] == fields[i].val % Pow2(fields[i].width)
    decreases |fields|
  {
    if i == 0 {
      TruncIsRemainder(fields[0].val, fields[0].width);
    } else {
      ReadValuesAt(fields[1..], i - 1);
    }
  }

  method WriteFields(writer: BitWriterVector, fields: seq<Field>)
    requires writer.Valid()
    modifies writer
    ensures writer.Valid() && writer.stream == old(writer.stream) + FieldBits(fields)
    decreases |fields|
  {
    if fields != [] {
      ConcatAssoc(writer.stream, ToBits(fields[0].val, fields[0].width), FieldBits(fields[1..]));
      writer.WriteBits(fields[0].val, fields[0].width);
      WriteFields(writer, fields[1..]);
    }
  }

  /** From any position of a stream that continues with the fields, reading their widths
      gives their values and stops right behind them. */
  method ReadFields(reader: BitReaderBuffer, fields: seq<Field>, ghost rest: Bits) returns (vals: seq<nat>)
    requires reader.Valid() && reader.rest == FieldBits(fields) + rest
    requires forall f <- fields :: f.width <= 64
    modifies reader
    ensures reader.Valid() && reader.rest == rest && vals == ReadValues(fields)
    decreases |fields|
  {
    if fields == [] {
      assert reader.rest == rest;
      return [];
    }
    var f := fields[0];
    TakeWritten(f.val, f.width, FieldBits(fields[1..]) + rest);
    assert reader.rest == ToBits(f.val, f.width) + (FieldBits(fields[1..]) + rest);
    var v := reader.ReadUBits(f.width);
    var vs := ReadFields(reader, fields[1..], rest);
    vals := [v.value] + vs;
  }

  /** The unused bits of the last byte behind a stream. */
  ghost function Padding(buffer: seq<Byte>, stream: Bits): (padding: Bits)
    requires Represents(buffer, stream)
    ensures BytesToBits(buffer) == stream + padding
  {
    RepresentedPrefix(buffer, stream);
    BytesToBits(buffer)[|stream|..]
  }

  lemma WrittenBuffer(writer: BitWriterVector)
    requires writer.Valid()
    ensures Represents(writer.buffer, writer.stream) && 8 * |writer.buffer| < |writer.stream| + 8
  {
  }

  /** Reader inverts writer: the second list sits at whatever bit offset the first list
      leaves, and once both are read the reader reports the end of the buffer. */
  method WriteThenRead(first: seq<Field>, second: seq<Field>) returns (got: seq<nat>, empty: bool)
    requires forall f <- first + second :: f.width <= 64
    ensures got == ReadValues(second) && empty
  {
    assert forall f <- first :: f in first + second;
    assert forall f <- second :: f in first + second;
    var writer := new BitWriterVector();
    WriteFields(writer, first);
    assert [] + FieldBits(first) == FieldBits(first);
    WriteFields(writer, second);
    got, empty := ReadSecond(writer.buffer, first, second);
  }

  method ReadSecond(buffer: seq<Byte>, first: seq<Field>, second: seq<Field>)
    returns (got: seq<nat>, empty: bool)
    requires (forall f <- first :: f.width <= 64) && (forall f <- second :: f.width <= 64)
    requires Represents(buffer, FieldBits(first) + FieldBits(second))
    requires 8 * |buffer| < |FieldBits(first) + FieldBits(second)| + 8
    ensures got == ReadValues(second) && empty
  {
    hide FieldBits, ReadValues, BytesToBits;
    var reader := new BitReaderBuffer(buffer);
    ghost var padding := Padding(buffer, FieldBits(first) + FieldBits(second));
    ConcatAssoc(FieldBits(first), FieldBits(second), padding);
    var skipped := ReadFields(reader, first, FieldBits(second) + padding);
    got := ReadFields(reader, second, padding);
    empty := reader.IsEmpty();
  }

  // ----- bulk data -----

  lemma {:induction false} BytesDetermined(a: seq<Byte>, b: seq<Byte>)
    requires |a| == |b| && BytesToBits(a) == BytesToBits(b)
    ensures a == b
    decreases |a|
  {
    if a != [] {
      var x, y := ToBits(a[0], 8), ToBits(b[0], 8);
      assert x == BytesToBits(a)[..8] == BytesToBits(b)[..8] == y;
      assert BytesToBits(a[1..]) == BytesToBits(a)[8..] == BytesToBits(b)[8..] == BytesToBits(b[1..]);
      ByteBack(a[0]);
      ByteBack(b[0]);
      BytesDetermined(a[1..], b[1..]);
      assert a == [a[0]] + a[1..] && b == [b[0]] + b[1..];
    }
  }

  lemma ByteBack(b: Byte)
    ensures FromBits(ToBits(b, 8)) == b
  {
    FromToBits(b, 8);
    ByteBound();
    ShrTrunc(b, 8);
    TruncIsRemainder(b, 8);
    QuotientUnique(b, 0, b, 256);
  }

  /** Bulk data written at any bit offset is read back; no word is read past the end. */
  method WriteThenReadBuffer(first: seq<Field>, data: seq<Byte>) returns (got: seq<Byte>)
    requires forall f <- first :: f.width <= 64
    ensures got == data
  {
    hide BitWriterVector.Valid;
    var writer := new BitWriterVector();
    WriteFields(writer, first);
    assert [] + FieldBits(first) == FieldBits(first);
    writer.WriteBuffer(data);
    WrittenBuffer(writer);
    got := ReadBehind(writer.buffer, first, data);
  }

  method ReadBehind(buffer: seq<Byte>, first: seq<Field>, data: seq<Byte>) returns (got: seq<Byte>)
    requires forall f <- first :: f.width <= 64
    requires Represents(buffer, FieldBits(first) + BytesToBits(data))
    requires 8 * |buffer| < |FieldBits(first) + BytesToBits(data)| + 8
    ensures got == data
  {
    hide BitReaderBuffer.Valid, BytesToBits, Represents;
    var reader := new BitReaderBuffer(buffer);
    ghost var padding := Padding(buffer, FieldBits(first) + BytesToBits(data));
    ConcatAssoc(FieldBits(first), BytesToBits(data), padding);
    var skipped := ReadFields(reader, first, BytesToBits(data) + padding);
    NotPastEnd(|data|, |padding|);
    ghost var rest := reader.rest;
    var r := reader.ReadBuffer(|data|);
    got := r.value;
    assert rest[..8 * |data|] == BytesToBits(data);
    BytesDetermined(got, data);
  }

  lemma NotPastEnd(n: nat, p: nat)
    requires p < 8
    ensures !ReadsPastEnd(8 * n + p, n)
  {
  }

  // ----- signed numbers -----

  /** What `WriteSBits` hands to `WriteBits`. */
  function AsUnsigned(val: int): (u: nat)
    requires -0x8000_0000_0000_0000 <= val < 0x8000_0000_0000_0000
    ensures u % 0x1_0000_0000_0000_0000 == val % 0x1_0000_0000_0000_0000
  {
    if val >= 0 then val else val + 0x1_0000_0000_0000_0000
  }

  predicate InSignedRange(val: int, half: int)
  {
    -half <= val < half
  }

  lemma {:induction false} TopBit(v: nat, n: nat)
    requires n >= 1 && v < Pow2(n)
    ensures BitAt(v, n - 1) <==> v >= Pow2(n - 1)
    decreases n
  {
    if n > 1 {
      TopBit(v / 2, n - 1);
    } else {
      assert Pow2(1) == 2;
    }
  }

  /** A signed number of width 1..63 comes back exactly when it is in the width's range. */
  lemma SignedRoundTrip(val: int, n: nat)
    requires 1 <= n <= 63
    requires -0x8000_0000_0000_0000 <= val < 0x8000_0000_0000_0000
    ensures SignExtend(Trunc(AsUnsigned(val), n), n) == val <==> InSignedRange(val, Pow2(n - 1))
  {
    var t := Trunc(AsUnsigned(val), n);
    TruncBound(AsUnsigned(val), n);
    TopBit(t, n);
    assert Pow2(n) == 2 * Pow2(n - 1);
    if 0 <= val < Pow2(n - 1) {
      assert t == val;
    } else if val < 0 && InSignedRange(val, Pow2(n - 1)) {
      WordConstants();
      Pow2Sum(64 - n, n);
      TruncIsRemainder(AsUnsigned(val), n);
      assert Pow2(63) >= Pow2(n) by { Pow2Monotone(n, 63); }
      TimesMinusOne(Pow2(64 - n), Pow2(n));
      QuotientUnique(AsUnsigned(val), Pow2(64 - n) - 1, val + Pow2(n), Pow2(n));
    }
  }

  lemma TimesMinusOne(a: int, b: int)
    ensures (a - 1) * b == a * b - b
  {
  }
}
