# Network state library: bit streams, delta codecs and pipes

A Dafny model of the library's core.  Bytes plus a bit position refine a plain sequence of
bits; the codecs for nested values refine functions between values and bit sequences; the
delta pipes are step systems over both.  Every method is proved against such a function,
and the laws are proved about the functions.

| file | models |
|---|---|
| `BitUtil.dfy` | machine words and the width computation |
| `BitStream.dfy` | bit sequences, numbers and bytes in them |
| `BitWriter.dfy`, `BitReader.dfy` | the bit writer with its cursors, the bit reader |
| `StreamRuns.dfy`, `WriterRuns.dfy` | numbers and bytes through both, runs of the writer with live cursors |
| `BitBuffer.dfy` | bit streams nested in others |
| `Schema.dfy`, `CodecSpec.dfy`, `EncodingParts.dfy`, `Join.dfy` | types, values and the two formats |
| `WireLayout.dfy` | what the formats look like on the wire: widths, flags, counts and order |
| `FullRoundTrip.dfy`, `FullExact.dfy`, `FullLimits.dfy` | full decoding over existing values, and which values it gives back |
| `DeltaRoundTrip.dfy`, `DeltaExact.dfy`, `DeltaLimits.dfy` | delta decoding, and which changes it carries |
| `DecodeShape.dfy`, `MalformedInput.dfy` | arbitrary input, and input no encoder has written |
| `Serializer.dfy`, `DeltaSerializer.dfy` | the encoders on the writer |
| `Deserializer.dfy`, `DeltaDeserializer.dfy`, `DeltaExchange.dfy` | the decoders on the reader, end to end |
| `SparseList.dfy`, `SparseCodec.dfy` | the sparse list container, and messages decoded into it in place |
| `StateWire.dfy` | a state in full or as a difference |
| `DeltaStatePipe.dfy`, `PipeModel.dfy` | the acknowledged delta pipe: its two ends, and as one step system |
| `LossyPipe.dfy`, `EarlySyncs.dfy`, `PipeStalls.dfy`, `MirrorPipe.dfy` | its runs over lossy and reliable channels |
| `PipeRefinement.dfy`, `PipeRuns.dfy` | the two ends taking the system's steps, one by one and over whole runs |
| `ReliablePipe.dfy` | the delta pipe without acknowledgements |
| `PoolAllocator.dfy`, `FixedPoint.dfy`, `TypeDatabase.dfy` | the pool allocator, 64-bit fixed point, type ids |

The release build is modelled, on a little-endian machine with a 64-bit `long`.  An
exception is an `Option` or a flag.  A schema stands for a C++ type: plain memory,
booleans, ranged numbers, strings, fixed arrays of these, structs, array lists, maps with
integer keys and sparse lists, nested in any way.

`Fits` and `DeltaFits` are the limits of the two formats: a value comes back from its full
encoding, and a new value from its delta, exactly when they hold.  Strings are shorter than
2^15 bytes; a map or sparse list has fewer entries than its count field can count, and keys
within the key width, which `MaxSize` sets.  (A decoder of sparse lists pushes an index it
has already passed up to the next one, so a larger index directly behind another arrives all
the same.)  Of a delta only what has changed is limited, and of a sparse list's delta only
its size.  Every value with keys below `MaxSize` and short strings is within both.

Some things the code does differ from what its names suggest; the model follows the code,
and the lemmas say exactly when the expected law holds:

- A full decode of a sparse list keeps the highest entry of a longer old list
  (`FullExact.DecodeExact`, `DeltaLimits.StrayEntry`).
- `MaxSize` of a map limits the width of its keys, not only their number
  (`FullLimits.MapKeysExact`, `FullLimits.LostKey`, `DeltaExact.MapDeltaExact`).
- The highest index of a sparse list may not become the largest of its width
  (`DeltaExact.SparseDeltaExact`, `DeltaExact.LostHighest`).
- Strings of 2^15 bytes and more lose the high bits of their length (`FullLimits.TextExact`).
- The delta pipe writes its reference slot narrower than it reads it when the store size is
  a power of two (`DeltaStatePipe.HeaderExact`, `DeltaStatePipe.WidthsDiffer`), so messages
  are misread from the first one on (`DeltaStatePipe.MessageMisread`,
  `DeltaStatePipe.FirstMessageMisread`).
- An unchanged state writes nothing but is decoded all the same
  (`DeltaStatePipe.MessageExact`, `ReliablePipe.Lockstep`).
- Using a slot again before the first acknowledgement arrives can leave the two ends with
  different states in it, and the next difference is then decoded to a wrong state
  (`EarlySyncs.EarlySyncsExact`, `EarlySyncs.WrongState`).
- A pipe that has used every slot since the last acknowledgement refuses every further state;
  when nothing is under way any more, it has stopped for good (`PipeStalls.RunStallExact`), and
  losses alone can bring it there from any state (`PipeStalls.CanStall`).
- A type does not inherit through an abstract parent, which has no id
  (`TypeDatabases.InheritsAsDeclared`).
- `Compress` does not update the highest index (`SparseLists.SparseList.Compress`).
- With more than 32 fractional bits the two product branches can differ
  (`FixedPoint.MultiplyBranchesAgree`, `FixedPoint.BranchesDiffer`).
- A bit buffer of 65536 bits or more does not survive nesting (`BitBuffer.NestedRoundTrip`).

`hide` statements in the proofs only keep definitions from the solver that a step does not
need.

## Model

| member | source | states |
|---|---|---|
| BitUtil.GetRequiredBits64 | NetBitUtil.h:9-39 | the binary search for leading zeros of a 64-bit word gives the least width, at least 1, whose range holds the number |
| BitUtil.GetRequiredBits32 | NetBitUtil.h:41-64 | the same for 32-bit arguments; a negative `int` asks for 32 bits |
| BitUtil.RequiredBitsCharacterized | NetBitUtil.h:142-146 | a width k holds a number if and only if `GetRequiredBits` of it is at most k: widths are enough and minimal |
| BitWriter.AppendedByte | NetBitWriterVector.cpp:199-203 | filling up a byte keeps the used bits and takes the new ones, whatever stale bits stood above them |
| BitWriter.PatchedByte | NetBitWriterVector.cpp:71-94 | a cursor write changes exactly the bits it covers in a byte |
| BitWriter.BitWriterVector.WriteBits | NetBitWriterVector.cpp:14-18 | appends the low bits of the value to the stream; the bit count grows with it |
| BitWriter.BitWriterVector.WriteBitsInternal | NetBitWriterVector.cpp:169-207 | the byte-by-byte recursion refines appending to a plain bit sequence, keeps the write position in 1..8 and the position equal to the stream's length |
| BitWriter.BitWriterVector.WriteSBits | NetBitWriterVector.cpp:20-37 | a signed number appends the low bits of its two's complement |
| BitWriter.BitWriterVector.WriteBuffer | NetBitWriterVector.cpp:123-136 | appends exactly the bits of the bytes, copied or word by word; the bit count misses exactly the copied ones |
| BitWriter.BitWriterVector.WriteWords | NetBitWriter.cpp:4-22 | the word and byte loops append the bits of the bytes at any bit offset |
| BitWriter.BitWriterVector.WriteBitsAt | NetBitWriterVector.cpp:39-63 | a cursor write overwrites the reserved bits in place and nothing else; it is refused, before anything is touched, exactly when it is longer than the cursor's size |
| BitWriter.BitWriterVector.PatchBits | NetBitWriterVector.cpp:65-101 | the recursion never runs into the overflow check half way: the size never falls below what is still to be written |
| BitWriter.BitWriterVector.Reserve | NetBitWriterVector.cpp:138-143 | appends zeros and hands out a cursor to their start |
| BitWriter.BitWriterVector.RollBack | NetBitWriterVector.cpp:145-155 | truncates stream, position and bit count to the cursor; throws exactly for a cursor that has been written to |
| BitWriter.BitWriterVector.Position | NetBitWriterVector.cpp:138-155 | buffer size and bit position are determined by the number of bits written |
| BitReader.WordPathReads | NetBitReaderBuffer.cpp:53-65 | the unaligned 64-bit load, completed from the ninth byte, reads the same 64 bits as the byte-wise recursion |
| BitReader.ReadAcrossByte | NetBitReaderBuffer.cpp:72-85 | the end of a byte and the recursively read rest combine to the number the bits stand for |
| BitReader.BitReaderBuffer.ReadBitsInternal | NetBitReaderBuffer.cpp:46-90 | reads the next bits as a number and stops right behind them; throws exactly when too few are left |
| BitReader.BitReaderBuffer.ReadUBits | NetBitReaderBuffer.cpp:14-18 | the same, counting the bits read |
| BitReader.BitReaderBuffer.ReadSBits | NetBitReaderBuffer.cpp:20-23 | the sign-extended number of widths 1 to 63 |
| BitReader.BitReaderBuffer.ReadBuffer | NetBitReaderBuffer.cpp:25-39 | reads exactly the bytes of the next bits, copied or word by word |
| BitReader.BitReaderBuffer.ReadWords | NetBitReader.cpp:16-34 | the word and byte loops read the bytes at any bit offset |
| BitReader.BitReaderBuffer.IsEmpty | NetBitReaderBuffer.cpp:41-44 | true exactly when no more than the unread part of one byte is left |
| WriterRuns.RunOps | NetBitWriterVector.cpp:39-155 | every run of writes, bulk writes, reservations, cursor writes at any time through any live cursor, and roll-backs to any of them leaves exactly the stream and the bit count of an abstract machine; no cursor write is refused and no roll-back throws |
| WriterRuns.Undone | NetBitWriterVector.cpp:138-155 | a speculative write is undone: whatever is appended, reserved, patched and rolled back behind a cursor, rolling back to it restores the stream, the bit count and the other cursors |
| WriterRuns.CountRepaired | NetBitWriterVector.cpp:123-155 | a bulk copy makes the bit count lag, and rolling back behind it repairs the count |
| WriterRuns.PatchAnytime | NetBitWriterVector.cpp:39-101 | a cursor write before or after any run behind its cursor gives the same stream |
| WriterRuns.SectionsRun | NetBitWriterVector.cpp:138-155 | nested sections append their patched headers and bodies, abandoned ones nothing |
| WriterRuns.Run | NetBitWriterVector.cpp:138-155 | and so does the writer for any nesting |
| StreamRuns.RunPatches | NetBitWriterVector.cpp:39-101 | any sequence of cursor writes within the reserved length overwrites exactly those bits, after whatever was appended since |
| StreamRuns.WriteThenRead | NetBitReaderBuffer.cpp:14-90 | numbers written at any bit offset with widths 0 to 64 are read back modulo their widths, and the reader is then empty |
| StreamRuns.ReadValuesAt | NetBitReaderBuffer.cpp:14-18 | what is read back is each value modulo 2^width |
| StreamRuns.SignedRoundTrip | NetBitReader.cpp:4-14 | a signed number of width 1 to 63 comes back if and only if it is in the width's range |
| StreamRuns.WriteThenReadBuffer | NetBitReader.cpp:16-34 | `ReadBuffer` inverts `WriteBuffer` at any bit offset |
| BitBuffer.NestedRoundTrip | NetReflectionBitBuffer.h:70-134 | a nested bit buffer comes back with the same bits and length if and only if it has fewer than 65536 bits |
| BitBuffer.Serialize | NetReflectionBitBuffer.h:70-102 | writes the length and then the nested bits that are counted, by words, bytes and the rest |
| BitBuffer.Deserialize | NetReflectionBitBuffer.h:104-134 | rebuilds the nested stream from its bits |
| WireLayouts.FlagLayout | NetSerialize.h:69-76 | a boolean is its bit |
| WireLayouts.BytesLayout | NetSerialize.h:17-35 | plain memory is the bits of its bytes, each from the lowest up |
| WireLayouts.NumberLayout | NetReflectionNumber.h:258-266 | a ranged number is its distance from the lower bound in the width of the whole range |
| WireLayouts.TextLayout | NetReflectionString.h:15-29 | a string below 128 bytes has a one-byte header, any other a two-byte one; the first bit says which, 7 or 15 bits of the length are behind it, and then the bytes |
| WireLayouts.ItemsInOrder | NetSerialize.h:78-88 | array elements follow one another in order |
| WireLayouts.FieldsInOrder | NetSerialize.h:45-56 | fields follow one another in declaration order |
| WireLayouts.ListLayout | NetReflectionArrayList.h:240-245 | a list is its length in the width of the maximum size, and then its elements |
| WireLayouts.EntriesLayout | NetReflectionMap.h:158-170 | a map or sparse list is its number of entries, modulo the width of the maximum size, and then the entries in ascending order, each behind its key in that width |
| WireLayouts.StructLayout | NetSerializeDelta.h:22-43 | a struct with one changed field: the count 1 and the field's index in the width of the number of fields, then its difference |
| WireLayouts.StructCount | NetSerializeDelta.h:62-82 | the count is the number of fields that have changed |
| WireLayouts.ListChangeLayout | NetReflectionArrayList.h:284-303 | a list of the same length with one changed item: a 0 and then one flag for each item, with the difference behind the 1 |
| WireLayouts.ListAppendLayout | NetReflectionArrayList.h:256-282 | a list with one more item: a 1, the new length, a 0 for each old item and the new one in full |
| WireLayouts.ListCutLayout | NetReflectionArrayList.h:256-282 | a list cut short: a 1, the new length and a 0 for each item left |
| WireLayouts.RecordLayout | NetReflectionMap.h:186-232 | a record is its key and then a new value in full, a 0 for a removal, or a 1 and the difference |
| WireLayouts.MapChangeLayout | NetReflectionMap.h:173-242 | a map that differs at one key: the count 1 in the width of the maximum size and the key's record |
| WireLayouts.MapRecordOrder | NetReflectionMap.h:186-232 | the record of the largest key that differs comes last, behind the difference without it, and adds one to the count: records are in ascending order, one for each key |
| WireLayouts.SparseChangeLayout | NetReflectionSparseList.h:738-803 | a sparse list that differs at one index and keeps its highest index h: a 0, the count 1 in `GetRequiredBits(h + 1)` bits, the index in `GetRequiredBits(h)` bits, and a 0 for a removal, a new value in full or a 1 and the difference |
| WireLayouts.SparseAppendLayout | NetReflectionSparseList.h:738-803 | a new highest index k: a 1, the size k + 1 in the width of the maximum size, the count 1 in the width of k + 1, k in its own width and the new value in full |
| WireLayouts.SparseCutLayout | NetReflectionSparseList.h:738-803 | a sparse list cut below its highest index: a 1, the size and the count 0 |
| WireLayouts.SparseRecordOrder | NetReflectionSparseList.h:757-787 | records are in ascending order of their indices, one for each index up to the highest that differs |
| WireLayouts.EmptyIndexWidth | NetReflectionSparseList.h:844-858 | `GetRequiredBits(-1)`: over an empty list a record is read with an index of 32 bits |
| Schemas.DefaultShaped | NetReflectionNumber.h:18-21 | a value-initialized object is a value of its type: zeroes, `false`, the number of the range nearest to 0, and nothing in any container |
| FullRoundTrip.FullRoundTrip | NetDeserialize.h:60-87 | for every schema, decoding a full encoding over any existing value consumes exactly its bits and leaves the merge of the two |
| FullRoundTrip.MapBack | NetReflectionMap.h:245-288 | the iterator walk erases, keeps and inserts keys in one ascending pass |
| FullRoundTrip.SparseBack | NetReflectionSparseList.h:806-841 | the same for sparse lists, up to the old highest index, which the last loop leaves in place |
| FullRoundTrip.EntryBack | NetReflectionMap.h:257-277 | after an entry the container agrees with the new one up to its key and with the old one above |
| FullRoundTrip.LeafRoundTrip | NetSerialize.h:21-35 | plain memory, booleans, ranged numbers and strings come back |
| FullExact.MergedExact | NetReflectionSparseList.h:835-839 | the merge is the encoded value if and only if no old sparse list is longer than its counterpart |
| FullExact.DecodeExact | NetReflectionSparseList.h:806-841 | a full decode over any value gives back the encoded value if and only if no sparse list in it is longer than its counterpart |
| FullExact.DecodeOverDefault | NetReflectionMap.h:315-319 | over a value-initialized object it always does |
| FullLimits.FullExactly | NetDeserialize.h:60-87 | for every schema: a value comes back over a value-initialized object, its bits consumed exactly, if and only if it fits |
| FullLimits.OnlyFitting | NetDeserialize.h:60-87 | nothing else comes back at all, whatever is consumed: an entry count or a key that is cut leaves another value |
| FullLimits.MapKeysExact | NetReflectionMap.h:155-171 | a map of fitting elements comes back if and only if it has fewer entries than the count field can count and every key is within the key width |
| FullLimits.LostKey | NetReflectionMap.h:155-171 | a map whose only key is the first beyond the width arrives with the key 0 |
| FullLimits.SparseKeysExact | NetReflectionSparseList.h:806-841 | for a sparse list an index beyond the width comes back as well if and only if it follows directly behind another |
| FullLimits.TextExact | NetReflectionString.h:8-61 | a string comes back if and only if its length is below 2^15 |
| FullLimits.LostText | NetReflectionString.h:15-19 | a string of 2^15 bytes comes back empty |
| FullExact.DecodeWithoutSparse | NetReflectionMap.h:245-288 | without sparse lists it does over any existing value, whatever keys it holds |
| DeltaRoundTrip.DeltaRoundTrip | NetDeserializeDelta.h:8-13 | for every schema and any two different values whose difference fits, decoding the delta over the reference gives the new value and consumes exactly the bits written, whatever follows |
| DeltaRoundTrip.StructBack | NetDeserializeDelta.h:64-74 | the field visitor finds every changed field by its index |
| DeltaRoundTrip.FieldDeltasBack | NetDeserializeDelta.h:29-53 | after each field the value agrees with the new one up to it and with the old one beyond |
| DeltaRoundTrip.ListDeltaBack | NetReflectionArrayList.h:327-372 | both forms of a list delta, with and without a new size |
| DeltaRoundTrip.RecordBack | NetReflectionMap.h:298-320 | a record takes the decoder from agreeing with the new container below its key to agreeing up to and including it: its own test for an existing entry matches the encoder's branch |
| DeltaRoundTrip.MapDeltaBack | NetReflectionMap.h:290-322 | all records together give the new map |
| DeltaRoundTrip.SparseDeltaBack | NetReflectionSparseList.h:844-883 | all records and the trimming loop give the new list, as it grows or shrinks |
| DeltaLimits.DeltaSilence | NetSerializeDelta.h:46-82 | a delta is empty if and only if the value is unchanged |
| DeltaLimits.NothingToDecode | NetDeserializeDelta.h:58-74 | decoding a delta from nothing throws |
| DeltaLimits.DeliveredExactly | NetDeserializeDelta.h:8-13 | a delta survives whatever padding follows it if and only if the value has changed and the change fits |
| DeltaLimits.SizesEnough | NetReflectionMap.h:155-171 | strings below 2^15 bytes and keys below `MaxSize` are enough for both formats |
| DeltaExact.DeltaExactly | NetDeserializeDelta.h:8-13 | for every schema and any two different values: the new one comes back from its delta, consumed exactly, if and only if the difference fits |
| DeltaExact.OnlyFittingDelta | NetDeserializeDelta.h:8-13 | no other change comes back, whatever is consumed: as many records as keys that differ have to mend one key each |
| DeltaExact.MapDeltaExact | NetReflectionMap.h:173-242 | for a map: every changed key within the key width and fewer of them than the count field can count |
| DeltaExact.SparseDeltaExact | NetReflectionSparseList.h:738-803 | for a sparse list: the highest index unchanged or its successor within the width, whatever other indices there are |
| DeltaExact.LostHighest | NetReflectionSparseList.h:844-883 | a list whose highest index becomes the largest of the width arrives empty or not at all |
| DeltaLimits.StrayEntry | NetReflectionSparseList.h:835-839 | an empty sparse list decoded over one with an entry leaves the entry |
| MalformedInput.NumberRead | NetReflectionNumber.h:268-276 | a number above its range is cut to the upper end |
| MalformedInput.ListTooLong | NetReflectionArrayList.h:312-325 | a list longer than its maximum size throws |
| MalformedInput.ListDeltaTooLong | NetReflectionArrayList.h:327-358 | and so does a change of length past it |
| MalformedInput.IndexNotAhead | NetDeserializeDelta.h:29-53 | a struct whose second index is not behind the first keeps all fields but the first changed one, and the decoder stops there however many changes were announced |
| MalformedInput.MapAnyOrder | NetReflectionMap.h:245-288 | a map decodes entries in any order and with repeated keys: over any existing map they leave what assigning them in turn leaves |
| DecodeShape.FullShaped | NetDeserialize.h:60-87 | whatever bits arrive, a full decode that does not throw gives a value of the type |
| DecodeShape.DeltaShaped | NetDeserializeDelta.h:64-74 | and so does a delta decode |
| Serializer.SerializeValue | NetSerialize.h:14-88 | the full encoders append the encoding and nothing else |
| Serializer.SerializeText | NetReflectionString.h:8-31 | the stream grows by the bytes and a header of 8 or 16 bits; its first bit is set if and only if there are 128 bytes or more, the other 7 or 15 read as the length modulo 2^15, and the bytes follow |
| Serializer.SerializeMap | NetReflectionMap.h:155-171 | the map encoder, iterating in key order |
| Serializer.SerializeSparse | NetReflectionSparseList.h:712-736 | the sparse list encoder, which patches the number of elements in afterwards |
| DeltaSerializer.SerializeValueDelta | NetSerializeDelta.h:8-13 | for every schema: returns false exactly for an unchanged value, and then stream, bit position and bit count are what they were; otherwise appends the delta |
| DeltaSerializer.SerializeArrayDelta | NetSerializeDelta.h:93-119 | an array is written speculatively and rolled back when no element differs |
| DeltaSerializer.SerializeFieldDelta | NetSerializeDelta.h:22-43 | a field is written behind a reserved index that is patched or rolled back |
| DeltaSerializer.SerializeStructDelta | NetSerializeDelta.h:62-82 | the number of changed fields is patched in, or everything is rolled back |
| DeltaSerializer.SerializeListDelta | NetReflectionArrayList.h:249-310 | flags and deltas of a list whose size is kept, or the new size and items |
| DeltaSerializer.SerializeIndexDelta | NetReflectionSparseList.h:757-787 | a new value, a removal or a change behind two cursors; silent for an index both lists agree on |
| DeltaSerializer.SerializeSparseDelta | NetReflectionSparseList.h:738-803 | appends the difference of two sparse lists, and for one removed, added or changed index, below the highest or a new highest one, these very bits: flag, size, count, index and body in their widths |
| DeltaSerializer.SerializeMerge | NetReflectionMap.h:186-232 | the merge walk of two iterators in nested loops writes one record for each key the maps disagree on, in ascending order |
| DeltaSerializer.SerializeCommon | NetReflectionMap.h:197-213 | a key both maps have: one cursor takes the key and the flag behind it |
| DeltaSerializer.SerializeMapDelta | NetReflectionMap.h:173-242 | count and records of a map |
| Deserializer.DeserializeValue | NetDeserialize.h:13-87 | the full decoders leave the value and the reader the format says, and throw exactly when it says so |
| Deserializer.DeserializeChars | NetReflectionString.h:54-57 | characters read as signed numbers are the bytes written |
| Deserializer.DeserializeEntry | NetReflectionMap.h:255-278 | one step of the iterator walk over an existing map |
| Deserializer.MergeMap | NetReflectionMap.h:245-288 | the whole walk, including keys out of order |
| Deserializer.MergeSparse | NetReflectionSparseList.h:806-841 | the index loops over an existing sparse list |
| DeltaDeserializer.DeserializeValueDelta | NetDeserializeDelta.h:8-13 | the delta decoders leave the value and the reader the format says, and throw exactly when it says so |
| DeltaDeserializer.DeserializeFieldDeltas | NetDeserializeDelta.h:29-53 | the visitor with its remaining count and next index |
| DeltaDeserializer.DeserializeListDelta | NetReflectionArrayList.h:327-372 | the list decoder, which throws beyond the maximum size |
| DeltaDeserializer.DeserializeRecord | NetReflectionMap.h:298-320 | one record of a map or sparse list |
| DeltaDeserializer.DeserializeSparseDelta | NetReflectionSparseList.h:844-883 | the sparse list decoder with its trimming loop |
| DeltaExchange.Exchange | NetSerializeDelta.h:8-13 | end to end over a writer's bytes: at any bit offset and with anything behind it, the receiver's copy of the reference becomes the new value |
| SparseLists.SparseList.HighestIsLargest | NetReflectionSparseList.h:296-299 | the highest index is the largest index in use, -1 for none |
| SparseLists.SparseList.GrowTo | NetReflectionSparseList.h:601-627 | growth loses nothing |
| SparseLists.SparseList.GrowToFit | NetReflectionSparseList.h:580-599 | an empty list takes exactly the room for the index; any other capacity is doubled until the index fits and no further |
| SparseLists.SparseList.Emplace | NetReflectionSparseList.h:183-196 | fills the smallest free index and nothing else |
| SparseLists.SparseList.EmplaceBack | NetReflectionSparseList.h:213-226 | adds behind the highest index |
| SparseLists.SparseList.EmplaceAt | NetReflectionSparseList.h:248-266 | puts or replaces one entry |
| SparseLists.SparseList.RemoveAt | NetReflectionSparseList.h:278-294 | removes one entry and lowers the highest index past the gaps |
| SparseLists.SparseList.Clear | NetReflectionSparseList.h:169-173 | leaves no entry |
| SparseLists.SparseList.HasAt | NetReflectionSparseList.h:328-346 | whether an index is in use |
| SparseLists.SparseList.TryGet | NetReflectionSparseList.h:428-446 | the entry at an index, or none |
| SparseLists.SparseList.Size | NetReflectionSparseList.h:468-480 | the number of entries |
| SparseLists.SparseList.Visit | NetReflectionSparseList.h:487-503 | iteration visits every index in use once, in ascending order |
| SparseLists.SparseList.Equals | NetReflectionSparseList.h:523-548 | `==` holds exactly when the two lists hold the same entries |
| SparseLists.SparseList.Copy | NetReflectionSparseList.h:652-679 | assignment leaves the same entries in both lists |
| SparseLists.SparseList.Compress | NetReflectionSparseList.h:301-326 | moves each entry to the slot given by the number of entries before it and leaves the rest free; the highest index is still right if and only if there were no gaps |
| SparseCodec.ReadRecord | NetReflectionSparseList.h:855-876 | one record read into the container itself: filled, changed or removed in place, whatever that does to its highest index and capacity |
| SparseCodec.ReadDelta | NetReflectionSparseList.h:844-883 | the delta decoder on the container leaves exactly the contents the format says |
| SparseCodec.ReadFull | NetReflectionSparseList.h:806-841 | and so does the full decoder, with its loop that stops one short |
| SparseCodec.Update | NetReflectionSparseList.h:844-883 | a list is brought up to date in place by the delta between its contents and the new ones |
| DeltaStatePipe.HeaderExact | NetPipeDeltaState.h:59-60 | the header comes back for every slot and reference if and only if the width written equals the width read |
| DeltaStatePipe.WidthsDiffer | NetPipeDeltaState.h:140-141 | the widths differ exactly for store sizes that are powers of two from 2 on |
| DeltaStatePipe.HeaderMisread | NetPipeDeltaState.h:140-141 | then every header is misread: the reference takes the first bit of the body as its highest, and the body starts one bit late |
| DeltaStatePipe.MessageMisread | NetPipeDeltaState.h:138-157 | what the receiver makes of any message of such a pipe |
| DeltaStatePipe.FirstMessageMisread | NetPipeDeltaState.h:145-157 | its first message refers to an empty slot or is decoded one bit late |
| DeltaStatePipe.FirstBooleanLost | NetPipeDeltaState.h:138-168 | a first boolean never arrives: `true` becomes `false`, `false` does not arrive |
| DeltaStatePipe.MessageBack | NetPipeDeltaState.h:138-157 | a message decoded against the state it was encoded against gives its state |
| DeltaStatePipe.MessageExact | NetPipeDeltaState.h:62-90 | with agreeing widths a message survives any padding if and only if its state differs from the reference and the change fits |
| StateWire.WireLost | NetPipeDeltaState.h:62-90 | any other state is not received when its message ends on a byte boundary |
| DeltaStatePipe.StateStore.StoreState | NetStateStore.h:10-13 | overwrites one slot |
| DeltaStatePipe.StateStore.Get | NetStateStore.h:15-18 | reads one slot |
| DeltaStatePipe.Sender.SyncState | NetPipeDeltaState.h:43-93 | refuses exactly when the next slot is the acknowledged one; otherwise stores the state in it and writes that slot, the acknowledged one or the store size, each in the width of a slot, and the state in full or as the difference from the acknowledged one |
| DeltaStatePipe.Sender.GotAck | NetPipeDeltaState.h:95-98 | the acknowledged slot becomes the reference |
| DeltaStatePipe.Receiver.GotMessage | NetPipeDeltaState.h:138-168 | decodes, stores, hands on and acknowledges a state |
| LossyPipe.StepKeeps | NetPipeDeltaState.h:43-98 | every sync, delivery, loss and acknowledgement keeps the invariant: fewer states than slots lie past the last acknowledged one, and both ends mean the same state by its slot |
| LossyPipe.ReferenceShared | NetPipeDeltaState.h:145-151 | the reference slot of the next message holds the same state at both ends |
| LossyPipe.LossySafety | NetPipeDeltaState.h:138-168 | for every run with losses: the callback sees an in-order subsequence of the states synced, and the next message will be decoded to its state |
| PipeStalls.RunStallExact | NetPipeDeltaState.h:48-54 | after any run with losses, another state can reach the callback if and only if the pipe is not stalled: a sync is possible, a message is under way, or an acknowledgement for another slot than the next |
| PipeStalls.StallExact | NetPipeDeltaState.h:48-54 | the same from any state with the invariant |
| PipeStalls.StalledForever | NetPipeDeltaState.h:48-54 | a stalled pipe never sends or hands on anything again |
| PipeStalls.CanStall | NetPipeDeltaState.h:43-98 | from every reachable state losses alone can stall it |
| PipeStalls.AnotherValue | NetSerializeDelta.h:8-13 | for every type with more than one value and every reference there is a state that can be sent against it |
| EarlySyncs.EarlySyncsExact | NetPipeDeltaState.h:46-57 | all runs with at most n syncs before the first acknowledgement keep the ends agreed on the reference of the next message if and only if there are at least n slots, or only one |
| EarlySyncs.WrappedTooEarly | NetPipeDeltaState.h:46-60 | with one sync more, a run from the start whose next message refers to a slot that holds another state at the receiver than at the sender |
| EarlySyncs.WrongState | NetPipeDeltaState.h:138-168 | for two booleans that run hands a state to the callback that nobody synced |
| PipeRefinement.SyncOver | NetPipeDeltaState.h:43-93 | the sender object takes the model's step |
| PipeRefinement.DeliverOver | NetPipeDeltaState.h:138-168 | the receiver object takes the model's step, whether the message can be decoded or not, and hands on the state decoded |
| PipeRefinement.AckOver | NetPipeDeltaState.h:95-98 | an acknowledgement's bytes, in turn or not, take the sender to the model's next state |
| PipeRefinement.LossyAddressed | NetPipeDeltaState.h:138-151 | messages and acknowledgements of a lossy run name slots that are there |
| PipeRefinement.MirrorAddressed | NetPipeDeltaState.h:138-151 | and so do those of a reliable run |
| PipeRuns.Drive | NetPipeDeltaState.h:43-168 | over any list of actions the two objects end in the state of a run of the model, with the model's messages and acknowledgements as bytes between them |
| PipeRuns.LossyRun | NetPipeDeltaState.h:43-168 | a whole run over a lossy channel in bytes: the updates are an in-order subsequence of the states sent |
| PipeRuns.ReliableRun | NetPipeDeltaState.h:43-168 | and over a reliable channel the first of them |
| MirrorPipe.ReliableMirror | NetPipeDeltaState.h:43-98 | over a reliable channel, acknowledgements in any order, lost or repeated: the receiver's store after k messages is the sender's after k sends, and the callback has seen the first k states |
| MirrorPipe.DeliverKeepsMirror | NetPipeDeltaState.h:138-168 | each delivery hands on the next state synced |
| ReliablePipe.Lockstep | NetPipeDeltaStateReliable.h:32-48 | the pipe without acknowledgements delivers every state, whatever the padding, if and only if each differs from the one before and the change fits |
| ReliablePipe.ReliableSender.SyncState | NetPipeDeltaStateReliable.h:32-48 | writes the first state in full and any other as the difference from the last one, and remembers it |
| ReliablePipe.ReliableReceiver.GotMessage | NetPipeDeltaStateReliable.h:87-107 | decodes over the last state and remembers the result |
| ReliablePipe.Mirror | NetPipeDeltaStateReliable.h:87-107 | the two objects over a whole run of syncs: the updates are the states |
| PoolAllocators.PoolAllocator.Allocate | NetPoolAllocator.h:47-59 | hands out a slot that is not live; free and live slots stay a partition of all slots and the count stays right |
| PoolAllocators.PoolAllocator.Deallocate | NetPoolAllocator.h:61-70 | a live slot becomes the first free one |
| PoolAllocators.PoolAllocator.Grow | NetPoolAllocator.h:75-90 | a new block is cut into slots that are linked in front of the free list |
| PoolAllocators.PoolAllocator.NoOverlap | NetPoolAllocator.h:81-89 | slots do not overlap and stay inside their block |
| PoolAllocators.PoolAllocator.constructor | NetPoolAllocator.h:112-121 | a slot is as large as the larger of an object and a pointer, a block holds the slots behind its own pointer, and no more would fit |
| PoolAllocators.HeldApart | NetPoolAllocator.h:81-121 | objects held at once do not overlap, and none reaches beyond its block |
| PoolAllocators.Serve | NetPoolAllocator.h:47-121 | over every run of requests the objects held are distinct, exactly the live slots, and counted; any two lie at least an object apart or in different blocks, and each within the block |
| FixedPoint.MultiplySplitExact | NetReflectionFixedPoint.h:40-61 | the split-word product is the exact one, rounded down and modulo 2^64, if and only if the product of the fractional parts fits 64 bits |
| FixedPoint.MultiplySplitCorrect | NetReflectionFixedPoint.h:40-61 | with up to 32 fractional bits it always is |
| FixedPoint.MultiplyHiLoCorrect | NetReflectionFixedPoint.h:26-37 | the branch with a 128-bit product is exact for 1 to 63 fractional bits |
| FixedPoint.MultiplyFloor | NetReflectionFixedPoint.h:22-64 | when the exact product lies between q units and the next, both branches give q, or what 64 bits leave of it |
| FixedPoint.MultiplyBranchesAgree | NetReflectionFixedPoint.h:22-64 | the branches agree under the same condition |
| FixedPoint.BranchesDiffer | NetReflectionFixedPoint.h:22-64 | with 33 fractional bits they differ at the largest number below one |
| FixedPoint.ReduceDivider | NetReflectionFixedPoint.h:99-104 | taking factors of 16 out of the divider keeps the quotient |
| FixedPoint.ProgressStep | NetReflectionFixedPoint.h:106-119 | one round of the division loop keeps dividend = quotient * divider + remainder * 2^position |
| FixedPoint.DivideLoop | NetReflectionFixedPoint.h:106-136 | the loop terminates with the whole quotient, without overflow as long as it fits |
| FixedPoint.DivideWide | NetReflectionFixedPoint.h:81-147 | throws exactly for a zero divisor; the result times the divisor is nearest to the dividend, signs included and at a tie farther from zero, if and only if the rounded magnitude fits |
| FixedPoint.RoundedError | NetReflectionFixedPoint.h:138-140 | the rounded quotient is off by at most half a unit |
| FixedPoint.QuotientNearest | NetReflectionFixedPoint.h:138-144 | the rounded quotient is the one number whose product with the divisor is off by at most half of it, at a tie the one farther from zero: its sign follows |
| TypeDatabases.TypeDatabase.AddClass | NetReflectionTypeDatabase.cpp:14-28 | registers in front of the list; throws after the ids have been handed out |
| TypeDatabases.TypeDatabase.FinalizeList | NetReflectionTypeDatabase.cpp:104-158 | sorts the concrete types by name and fills in ids and parent ids |
| TypeDatabases.IdsIgnoreOrder | NetReflectionTypeDatabase.cpp:104-158 | two orders of registering the same distinctly named types give the same ids and parent ids |
| TypeDatabases.IdsFollowNames | NetReflectionTypeDatabase.cpp:118-132 | one id is smaller than another if and only if its name is a proper prefix of the other or has the smaller character where they first differ |
| TypeDatabases.LessExact | NetReflectionTypeDatabase.cpp:118-121 | the comparison of names decides at the first character that differs |
| TypeDatabases.DatabaseEntries | NetReflectionTypeDatabase.cpp:104-156 | the database has every concrete type as it was registered but for its two ids, and nothing else |
| TypeDatabases.InheritsUp | NetReflectionTypeDatabase.cpp:89-102 | a class inherits from itself and from what its parent inherits from, and from nothing else |
| TypeDatabases.ParentIds | NetReflectionTypeDatabase.cpp:134-145 | a parent id is an id if and only if it is that of the concrete type with the parent's hash; otherwise there is none |
| TypeDatabases.DatabaseEnds | NetReflectionTypeDatabase.cpp:104-158 | registered types without a cycle of parent hashes give a database whose parents end |
| TypeDatabases.InheritsAsDeclared | NetReflectionTypeDatabase.cpp:89-102 | inheritance by ids is following parent hashes among the concrete types |
| TypeDatabases.AskInheritance | NetReflectionTypeDatabase.cpp:14-102 | types registered in any order and then asked about: the answer is what they declare, none for a type that is not registered |
| TypeDatabases.TypeDatabase.GetClassId | NetReflectionTypeDatabase.cpp:35-51 | finds a type's id, finishing the database on first use |
| TypeDatabases.TypeDatabase.InheritsFrom | NetReflectionTypeDatabase.cpp:89-102 | terminates for acyclic parents and holds exactly when the base is the class or an ancestor |

## Left out

- BitWriter.BitWriterVector.WriteBitsAt: cursor writes of 64 bits, whose mask shifts by the word width; the remaining size of a cursor is only bounded from below, as the code keeps it.
- BitReader.BitReaderBuffer.ReadUBits: excludes a 64-bit read with a bit offset and exactly eight bytes left, which looks at the byte after the buffer.
- BitReader.BitReaderBuffer.ReadSBits: 64-bit signed reads, whose sign mask shifts by the word width.
- BitBuffer.Deserialize: excludes messages cut short inside the nested bits, which can reach the same read past the end.
- Serializer.SerializeValue: values are immutable trees, so aliasing between a container and its elements is not modelled; neither are parent object pointers and user-defined serializers, nor floating-point members, whose `==` is not equality of bytes.
- Serializer.SerializeMap: keys are natural numbers; negative keys, whose high bits the format drops, are left out.
- Deserializer.DeserializeValue: the part of a value already overwritten when a decoder throws is not described; neither is a ranged number in a malformed message that overflows its type before it is clamped.
- DeltaDeserializer.DeserializeSparseDelta: indices of 2^31 and more in malformed messages, which C++ narrows to `int`.
- DeltaStatePipe.Sender.SyncState: the store holds values; a caller that goes on changing the state it has synced is not modelled, nor is the header left in the writer by a refused sync.
- DeltaStatePipe.Sender.GotAck: acknowledgements naming a slot past the end of the store.
- DeltaStatePipe.Receiver.GotMessage: messages naming a slot that does not exist or holds nothing, which the code reads anyway.
- LossyPipe.LossySafety: messages reordered or repeated by the channel, which the slot protocol does not cover.
- SparseLists.SparseList.Copy: excludes assigning a list to itself.
- PoolAllocators.PoolAllocator.Allocate: moving allocators and freeing all blocks.
- FixedPoint.MultiplySplitExact: signed overflow of the partial products is taken to wrap around.
- FixedPoint.DivideWide: excludes the smallest 64-bit number as an operand.
- TypeDatabases.IdsIgnoreOrder: says nothing about the default type, which is the first concrete type registered.
- Arrays whose elements are themselves arrays, structs or containers; fields annotated `static`, optionals, pointers, pairs, tuples and polymorphic values; user-defined default constructors.
- Transmitters, channels, sockets, files, callbacks and reflection; the channel is a sequence of messages.
- Fixed-point roots, trigonometry, conversions and text; random numbers, interpolation and the replay reader.
