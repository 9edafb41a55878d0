/** NetReflectionBitBuffer: a bit stream carried inside another one behind a 16-bit length. */
module BitBuffer {
  import opened BitUtil
  import opened BitStream
  import opened BitWriter
  import opened BitReader
  import opened Wrappers

  /** The encoding of a nested bit stream. */
  function Nested(inner: Bits): Bits
  {
    ToBits(|inner|, 16) + inner
  }

  function TakeNested(bits: Bits): Option<(Bits, Bits)>
  {
    var (n, b) :- TakeNum(bits, 16);
    if n <= |b| then Some((b[..n], b[n..])) else None
  }

  /** A nested stream comes back, with the same bits and length, exactly when its length
      fits the 16-bit field. */
  lemma NestedRoundTrip(inner: Bits, rest: Bits)
    ensures TakeNested(Nested(inner) + rest) == Some((inner, rest)) <==> |inner| < 65536
  {
    HalfWordConstants();
    TruncBound(|inner|, 16);
    TakeWritten(|inner|, 16, inner + rest);
    assert Nested(inner) + rest == ToBits(|inner|, 16) + (inner + rest);
    if |inner| < 65536 {
      assert (inner + rest)[..|inner|] == inner;
      assert (inner + rest)[|inner|..] == rest;
    }
  }

  /** The bytes of the buffer, read as words or bytes, are stretches of the stream. */
  lemma StreamBytes(buffer: seq<Byte>, stream: Bits, p: nat, k: nat)
    requires Represents(buffer, stream) && 8 * (p + k) <= |stream|
    ensures p + k <= |buffer| && BytesToBits(buffer[p..p + k]) == stream[8 * p..8 * (p + k)]
  {
    var bytes, part := buffer[p..p + k], stream[8 * p..8 * (p + k)];
    forall i: nat | i < 8 * k ensures BytesToBits(bytes)[i] == part[i] {
      BytesToBitsAt(bytes, i);
      RepresentsAt(buffer, stream, 8 * p + i);
      InnerBit(buffer, p, k, i);
    }
  }

  lemma InnerBit(buffer: seq<Byte>, p: nat, k: nat, i: nat)
    requires p + k <= |buffer| && i < 8 * k
    ensures BufferBit(buffer[p..p + k], i) == BufferBit(buffer, 8 * p + i)
  {
    assert (8 * p + i) / 8 == p + i / 8;
  }

  lemma StreamTail(buffer: seq<Byte>, stream: Bits, p: nat, n: nat)
    requires Represents(buffer, stream) && 0 < n < 8 && 8 * p + n <= |stream|
    ensures p < |buffer| && ToBits(buffer[p], n) == stream[8 * p..8 * p + n]
  {
    var tail := stream[8 * p..8 * p + n];
    forall i: nat | i < n ensures tail[i] == ToBits(buffer[p], n)[i] {
      RepresentsAt(buffer, stream, 8 * p + i);
      BufferBitIn(buffer, p, i);
    }
  }

  lemma AppendSlice(base: Bits, stream: Bits, i: nat, j: nat)
    requires i <= j <= |stream|
    ensures base + stream[..i] + stream[i..j] == base + stream[..j]
  {
  }

  /** Writes as many of the nested bits as are counted, which is all of them unless the count
      has missed some. */
  method Serialize(val: BitWriterVector, writer: BitWriterVector)
    requires val != writer && val.Valid() && 0 <= val.totalBits <= |val.stream| && writer.Valid()
    modifies writer
    ensures writer.Valid()
    ensures writer.stream == old(writer.stream) + (ToBits(val.totalBits, 16) + val.stream[..val.totalBits])
    ensures writer.Drift() == old(writer.Drift())
  {
    hide ToBits, BytesToBits, FromBits;
    var bits := val.GetTotalBits();
    ghost var total, base := bits, writer.stream + ToBits(bits, 16);
    ConcatAssoc(writer.stream, ToBits(bits, 16), val.stream[..total]);
    writer.WriteBits(bits, 16);
    if bits == 0 {
      assert base + val.stream[..0] == base;
      return;
    }
    var ptr: nat := 0;
    assert base + val.stream[..0] == base;
    while bits >= 64
      invariant writer.Valid() && writer.Drift() == old(writer.Drift())
      invariant bits == total - 8 * ptr && 8 * ptr <= total
      invariant writer.stream == base + val.stream[..8 * ptr]
    {
      CopyWord(val, writer, ptr, base);
      ptr := ptr + 8;
      bits := bits - 64;
    }
    while bits >= 8
      invariant writer.Valid() && writer.Drift() == old(writer.Drift())
      invariant bits == total - 8 * ptr && 8 * ptr <= total
      invariant writer.stream == base + val.stream[..8 * ptr]
    {
      CopyByte(val, writer, ptr, base);
      ptr := ptr + 1;
      bits := bits - 8;
    }
    if bits > 0 {
      StreamTail(val.buffer, val.stream, ptr, bits);
    }
    AppendSlice(base, val.stream, 8 * ptr, total);
    // The byte looked at when nothing is left does not matter.
    writer.WriteBits(if bits > 0 then val.buffer[ptr] else 0, bits);
  }

  method CopyWord(val: BitWriterVector, writer: BitWriterVector, ptr: nat, ghost base: Bits)
    requires val != writer && val.Valid() && writer.Valid() && 8 * (ptr + 8) <= |val.stream|
    requires writer.stream == base + val.stream[..8 * ptr]
    modifies writer
    ensures writer.Valid() && writer.stream == base + val.stream[..8 * (ptr + 8)]
    ensures writer.Drift() == old(writer.Drift())
  {
    StreamBytes(val.buffer, val.stream, ptr, 8);
    ToBitsLoadWord(val.buffer[ptr..ptr + 8], 64);
    AppendSlice(base, val.stream, 8 * ptr, 8 * (ptr + 8));
    writer.WriteBits(LoadWord(val.buffer[ptr..ptr + 8]), 64);
  }

  method CopyByte(val: BitWriterVector, writer: BitWriterVector, ptr: nat, ghost base: Bits)
    requires val != writer && val.Valid() && writer.Valid() && 8 * (ptr + 1) <= |val.stream|
    requires writer.stream == base + val.stream[..8 * ptr]
    modifies writer
    ensures writer.Valid() && writer.stream == base + val.stream[..8 * (ptr + 1)]
    ensures writer.Drift() == old(writer.Drift())
  {
    StreamBytes(val.buffer, val.stream, ptr, 1);
    BytesToBitsOne(val.buffer[ptr]);
    assert val.buffer[ptr..ptr + 1] == [val.buffer[ptr]];
    AppendSlice(base, val.stream, 8 * ptr, 8 * (ptr + 1));
    writer.WriteBits(val.buffer[ptr], 8);
  }

  /** A message cut short inside the nested bits can reach the word path's over-read, and is
      excluded; one that ends inside the length throws. */
  method Deserialize(val: BitWriterVector, reader: BitReaderBuffer) returns (ok: bool)
    requires val.Valid() && reader.Valid()
    requires TakeNum(reader.rest, 16).Some? ==> TakeNested(reader.rest).Some?
    modifies val, reader
    ensures val.Valid() && reader.Valid()
    ensures ok <==> TakeNested(old(reader.rest)).Some?
    ensures ok ==>
      && TakeNested(old(reader.rest)) == Some((val.stream, reader.rest))
      && val.Drift() == 0
  {
    var length := reader.ReadUBits(16);
    if length.None? {
      return false;
    }
    var bits := length.value;
    ghost var inner, rest := reader.rest[..bits], reader.rest[bits..];
    assert TakeNested(old(reader.rest)) == Some((inner, rest));
    val.Reset();
    if bits > 0 {
      ReadInto(val, reader, bits, inner, rest);
    }
    ok := true;
  }

  method ReadInto(val: BitWriterVector, reader: BitReaderBuffer, size: nat, ghost inner: Bits, ghost rest: Bits)
    requires val.Valid() && reader.Valid() && val.stream == [] && val.Drift() == 0
    requires size == |inner| && reader.rest == inner + rest
    modifies val, reader
    ensures val.Valid() && reader.Valid() && val.Drift() == 0
    ensures val.stream == inner && reader.rest == rest
  {
    var bits := size;
    while bits >= 64
      invariant val.Valid() && val.Drift() == 0 && reader.Valid()
      invariant |val.stream| + bits == |inner| && val.stream == inner[..|val.stream|]
      invariant reader.rest == inner[|val.stream|..] + rest
    {
      MoveBits(val, reader, 64, inner, rest);
      bits := bits - 64;
    }
    while bits >= 8
      invariant val.Valid() && val.Drift() == 0 && reader.Valid()
      invariant |val.stream| + bits == |inner| && val.stream == inner[..|val.stream|]
      invariant reader.rest == inner[|val.stream|..] + rest
    {
      MoveBits(val, reader, 8, inner, rest);
      bits := bits - 8;
    }
    MoveBits(val, reader, bits, inner, rest);
  }

  method MoveBits(val: BitWriterVector, reader: BitReaderBuffer, k: nat, ghost inner: Bits, ghost rest: Bits)
    requires val.Valid() && reader.Valid() && k <= 64
    requires |val.stream| + k <= |inner| && val.stream == inner[..|val.stream|]
    requires reader.rest == inner[|val.stream|..] + rest
    modifies val, reader
    ensures val.Valid() && reader.Valid() && val.Drift() == old(val.Drift())
    ensures |val.stream| == |old(val.stream)| + k && val.stream == inner[..|val.stream|]
    ensures reader.rest == inner[|val.stream|..] + rest
  {
    hide BitWriterVector.Valid, BitReaderBuffer.Valid, ToBits, FromBits, Pow2;
    NextBits(inner, |val.stream|, k, rest);
    var v := reader.ReadUBits(k);
    val.WriteBits(v.value, k);
  }

  lemma NextBits(inner: Bits, at: nat, k: nat, rest: Bits)
    requires at + k <= |inner|
    ensures (inner[at..] + rest)[..k] == inner[at..at + k]
    ensures (inner[at..] + rest)[k..] == inner[at + k..] + rest
    ensures inner[..at] + ToBits(FromBits(inner[at..at + k]), k) == inner[..at + k]
  {
    ToFromBits(inner[at..at + k]);
  }
}
