/** A value sent as a difference, from the writer's bytes to the reader's copy. */
module DeltaExchange {
  import opened BitUtil
  import opened BitStream
  import opened BitWriter
  import opened BitReader
  import opened StreamRuns
  import opened Schemas
  import opened CodecSpec
  import opened DeltaRoundTrip
  import opened DeltaLimits
  import opened DeltaSerializer
  import opened DeltaDeserializer
  import opened Wrappers

  /** Whatever stands before the delta in the message, and so at any bit offset, and
      whatever stands behind it: the receiver's copy of `from` becomes `to`, and the numbers
      behind the delta are read back as well. */
  method Exchange(s: Schema, to: Value, from: Value, before: seq<Field>, after: seq<Field>)
    returns (copy: Value, got: seq<nat>, empty: bool)
    requires s.WellFormed() && Shaped(s, to) && Shaped(s, from) && Sendable(s, to, Some(from))
    requires forall f <- before + after :: f.width <= 64
    ensures copy == to && got == ReadValues(after) && empty
  {
    hide BitWriterVector.Valid, Delta, Shaped, FieldBits, DeltaFits;
    assert forall f <- before :: f in before + after;
    assert forall f <- after :: f in before + after;
    var writer := new BitWriterVector();
    WriteFields(writer, before);
    assert [] + FieldBits(before) == FieldBits(before);
    var wrote := SerializeValueDelta(s, to, from, writer);
    WriteFields(writer, after);
    WrittenBuffer(writer);
    copy, got, empty := Receive(writer.buffer, s, to, from, before, after);
  }

  method Receive(buffer: seq<Byte>, s: Schema, to: Value, from: Value, before: seq<Field>, after: seq<Field>)
    returns (copy: Value, got: seq<nat>, empty: bool)
    requires s.WellFormed() && Shaped(s, to) && Shaped(s, from) && Sendable(s, to, Some(from))
    requires (forall f <- before :: f.width <= 64) && (forall f <- after :: f.width <= 64)
    requires Represents(buffer, FieldBits(before) + Delta(s, to, from) + FieldBits(after))
    requires 8 * |buffer| < |FieldBits(before) + Delta(s, to, from) + FieldBits(after)| + 8
    ensures copy == to && got == ReadValues(after) && empty
  {
    hide Delta, TakeDelta, Shaped, FieldBits, DeltaFits;
    var reader := new BitReaderBuffer(buffer);
    ghost var stream := FieldBits(before) + Delta(s, to, from) + FieldBits(after);
    ghost var padding := Padding(buffer, stream);
    copy, got := ReadAll(reader, s, to, from, before, after, padding);
    empty := reader.IsEmpty();
  }

  method ReadAll(reader: BitReaderBuffer, s: Schema, to: Value, from: Value, before: seq<Field>, after: seq<Field>,
      ghost padding: Bits)
    returns (copy: Value, got: seq<nat>)
    requires s.WellFormed() && Shaped(s, to) && Shaped(s, from) && Sendable(s, to, Some(from)) && reader.Valid()
    requires (forall f <- before :: f.width <= 64) && (forall f <- after :: f.width <= 64)
    requires reader.rest == FieldBits(before) + Delta(s, to, from) + FieldBits(after) + padding
    modifies reader
    ensures reader.Valid() && reader.rest == padding
    ensures copy == to && got == ReadValues(after)
  {
    hide Delta, TakeDelta, Shaped, FieldBits, DeltaFits, BitReaderBuffer.Valid;
    ghost var tail := FieldBits(after) + padding;
    ConcatAssoc(FieldBits(before) + Delta(s, to, from), FieldBits(after), padding);
    ConcatAssoc(FieldBits(before), Delta(s, to, from), tail);
    var skipped := ReadFields(reader, before, Delta(s, to, from) + tail);
    DeltaRoundTrip.DeltaRoundTrip(s, to, from, tail);
    var decoded := DeserializeValueDelta(s, from, reader);
    copy := decoded.value;
    got := ReadFields(reader, after, padding);
  }
}
