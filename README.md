# protobj-ts codec core, in Dafny

A model of the encoding core of protobj-ts, a Protocol-Buffers-style binary
codec written in TypeScript, with proofs about it. The codec writes fields as
a varint tag (`makeTag(fieldNumber, wireType)`, with wire types 3/4/5 added
for FIXED8/FIXED16/FIXED32) followed by the value: base-128 varints,
ZigZag for signed values, little-endian fixed-width words, and
length-delimited UTF-8 strings, nested messages and collections.

What is modelled, one module per source file or component:

- `WireFormat`, `ZigZag`, `Varints`: tag arithmetic, ZigZag encoding, the
  varint encoding with `computeRawVarint32Size`, and the decoders
  `readRawVarint32` and `readRawVarint64`, proved against the encoding.
- `LinkedBuffers`, `Session`: the write side as an arena of blocks
  (`LinkedBuffer`: an array, `start`, `offset`, `next`) owned by a
  `WriteSession` class with `head`, `tail`, `size` and `nextBufferSize`.
  Its invariant `Valid()` says the blocks from `head` form a linked chain
  ending at `tail` and `size` is the sum of `offset - start` over it;
  `Contents()` is what `toByteArray()` returns.
- `WriteSinks`, `IntSerializer`, `BlockEdits`, `Framing`: the byte
  emitters of `WriteSink_BUFFERED` (growing the chain, splitting a copy,
  splicing a donor array in without copying), the little-endian stores,
  and the in-place edits `writeMessage` and the string writer make.
  Each emitter is proved to append exactly its bytes to the chain.
- `Extension`, `Utf8`, `StringSerializers`: the surrogate tests,
  `toCodePoint`, `arraycopy`, the UTF-8 encoding of UTF-16 units (proved
  to decode back under the decoder of section 3 of RFC 3629), and the
  length-prefixed string writer with its prefix-width bands and the
  left shift when it over-reserved.
- `Output`, `OutputCollections`: every tagged and packed scalar writer of
  `ProtobjOutput`, `writeMessage` with its three framing paths, and the
  collection writers; each leaves the session valid with exactly its
  bytes appended.
- `Input`: `ProtobjInput` as a class over a cursor (`offset`, `limit`,
  `lastTag`, `packedLimit`), every read proved against a specification
  function on the array and the cursor, errors included.
- `RoundTrips`: what the writers append, the readers read back.

The arena stands for the object graph: a block index is a `LinkedBuffer`'s
identity, a storage index a `Uint8Array`'s. 64-bit values are
`(low, high)` pairs of unsigned 32-bit words (a Long's signed `low` is
Findings row 9), bytes are 0..255, UTF-16
strings are sequences of code units 0..0xFFFF. `src/index.ts` bundles the
same modules line for line; the model follows the module files.

## Model

Where the source contradicts its own comments (the rows of "## Findings"),
the members below model the intended behaviour, and the code as written has
members of its own, named in the Findings table. The rows of the writers and
readers built on a corrected operation state that correction:
`Input.ProtobjInput.ReadRawVarint32` (Findings row 2); `Output.WriteI16`,
`Output.WriteI16Packed` and `WriteSinks.WriteInt16LE` (row 3);
`Output.WriteI32`, `Output.WriteI32Packed` and `Output.WriteI32Value`
(row 4); `Output.WriteSTRING` and `Output.WriteSTRINGPacked` (rows 5 and 6);
`OutputCollections.WriteBOOLArray` and `OutputCollections.WriteBOOLList`
(row 7); `Input.ProtobjInput.SkipField` and
`Input.ProtobjInput.HandleUnknownField` (row 8); and the 64-bit varint
writers (row 9).

| member | source | states |
|---|---|---|
| WireFormat.GetTagWireType | src/WireFormat.ts:17-19 | the wire type of any tag lies in 0..7 and is the low three bits of the tag read as an unsigned word |
| WireFormat.GetTagFieldNumber | src/WireFormat.ts:21-23 | the unsigned shift gives a field number in [0, 2^29) for every tag, and the tag is that number times 8 plus its wire type |
| WireFormat.MakeTag | src/WireFormat.ts:25-27 | for a wire-type constant, the tag as an unsigned word is the field number times 8 plus the wire type, wrapped to 32 bits |
| WireFormat.WireTypeRoundTrip | src/WireFormat.ts:17-27 | the wire type of `makeTag(f, w)` is `w` for every field number |
| WireFormat.FieldNumberRoundTrip | src/WireFormat.ts:21-27 | the field number of `makeTag(f, w)` is `f` when `0 <= f < 2^29` |
| WireFormat.SmallFieldTagIsOneByte | src/WireFormat.ts:25-27 | for field numbers 1..15 a length-delimited tag is below 128, so it is one varint byte |
| ZigZag.EncodeZigZag32 | src/ProtobjOutput.ts:364-367 | `encodeZigZag32`: `(n << 1) ^ (n >> 31)` on the 32-bit word, the arithmetic shift spreading the sign bit; ZigZag32Meaning and ZigZag32RoundTrip are proved about it |
| ZigZag.DecodeZigZag32 | src/ProtobjInput.ts:394-397 | the decode of `readS32_NoCheck`: `(n >>> 1) ^ -(n & 1)` on the 32-bit word; ZigZag32RoundTrip and ZigZag32Bijective prove it is the inverse of EncodeZigZag32 |
| ZigZag.ZigZag32Meaning | src/ProtobjOutput.ts:364-367 | `encodeZigZag32` maps v >= 0 to 2v and v < 0 to -2v - 1 |
| ZigZag.ZigZag32RoundTrip | src/ProtobjInput.ts:388-392 | `readS32`'s decode undoes `encodeZigZag32` on every 32-bit word |
| ZigZag.ZigZag32Bijective | src/ProtobjOutput.ts:364-367 | encoding undoes decoding too, so the map is a bijection on 32-bit words |
| ZigZag.ZigZag32Examples | src/ProtobjOutput.ts:364-367 | -1 maps to 1, 1 to 2, -2 to 3, and the extremes to the two largest words |
| ZigZag.EncodeZigZag64 | src/ProtobjOutput.ts:357-362 | `encodeZigZag64` on the (low, high) pair: the sign mask `high >> 31`, the high word shifted with the carry of low's top bit, both words xor the mask; ZigZag64Meaning proves it is the 64-bit zigzag of the signed value |
| ZigZag.DecodeZigZag64 | src/ProtobjInput.ts:404-410 | the decode of `readS64_NoCheck` on the pair: mask `-(low & 1)`, low takes high's bottom bit, both words xor the mask; ZigZag64RoundTrip and ZigZag64Bijective prove it inverts EncodeZigZag64 |
| ZigZag.ZigZag64Meaning | src/ProtobjOutput.ts:357-362 | `encodeZigZag64` on the (low, high) pair is the 64-bit ZigZag map of the signed value |
| ZigZag.ZigZag64RoundTrip | src/ProtobjInput.ts:404-410 | the paired-word decode in `readS64_NoCheck` undoes `encodeZigZag64` on every pair |
| ZigZag.ZigZag64Bijective | src/ProtobjOutput.ts:357-362 | encoding undoes the paired-word decode, so the 64-bit map is a bijection |
| ZigZag.ZigZag64Examples | src/ProtobjOutput.ts:357-362 | all ones maps to 1, 1 to 2, 2^30 to 2^31 and 2^31 to 2^32 |
| Extension.IsHighSurrogate | src/extension.ts:110-112 | the intended test 0xD800 <= ch <= 0xDBFF (Findings row 6); ToCodePoint and SurrogatesOfCodePoint are stated with it |
| Extension.IsLowSurrogate | src/extension.ts:114-116 | the intended test 0xDC00 <= ch <= 0xDFFF (Findings row 6); ToCodePoint and SurrogatesOfCodePoint are stated with it |
| Extension.ToCodePoint | src/extension.ts:118-122 | with the intended surrogate bounds, the code point is 0x10000 + (h - 0xD800) * 1024 + (l - 0xDC00) and lies in [0x10000, 0x10FFFF] |
| Extension.CodePointRoundTrip | src/extension.ts:118-122 | a surrogate pair is recovered from the code point it makes |
| Extension.SurrogatesOfCodePoint | src/extension.ts:118-122 | every supplementary code point is made by exactly one surrogate pair |
| Extension.ParseHexUnit | src/extension.ts:96-105 | `parseInt(s, 16)` of one UTF-16 unit is finite exactly for a hexadecimal digit, and is then below 16 |
| Extension.IsHighSurrogateAsWritten | src/extension.ts:96-112 | `isHighSurrogate` as written: comparisons against `parseInt('\uD800', 16)` and `parseInt('\uDBFF', 16) + 1`, with JavaScript's NaN comparison rules; SurrogateTestsAsWrittenNeverHold proves it false for every unit |
| Extension.IsLowSurrogateAsWritten | src/extension.ts:102-116 | `isLowSurrogate` as written, on the bounds `parseInt('\uDC00', 16)` and `parseInt('\uDFFF', 16) + 1`; SurrogateTestsAsWrittenNeverHold proves it false for every unit |
| Extension.SurrogateTestsAsWrittenNeverHold | src/extension.ts:96-116 | as written, both surrogate tests are false for every unit, while the intended tests accept the pair of U+1F600 |
| Extension.ArrayCopy | src/extension.ts:124-126 | `dest` gets `src[srcPos..srcPos+length)` at `destPos`, taken before the store, and nothing else in `dest` changes |
| IntSerializer.LE16 | src/WriteSink.ts:187-199 | the two bytes the sink's `writeInt16LE` reserves, low byte first, as `readRawLittleEndian16` assembles them (the corrected layout of Findings row 3); the result has 2 bytes, and LE16RoundTrip and LE16Inverse tie it to FromLE16 |
| IntSerializer.LE32 | src/IntSerializer.ts:17-22 | `(value >>> 8k) & 0xFF` for k = 0..3, least significant byte first; the result has 4 bytes, and LE32RoundTrip and LE32Inverse tie it to FromLE32 |
| IntSerializer.LE64 | src/IntSerializer.ts:27-28 | `value.toBytesLE()`: the low word's four bytes, then the high word's; the result has 8 bytes, and LE64RoundTrip and LE64Inverse tie it to FromLE64 |
| IntSerializer.FromLE32 | src/ProtobjInput.ts:163-176 | `readRawLittleEndian32`'s assembly `b1 \| b2 << 8 \| b3 << 16 \| b4 << 24` as a signed word; LE32RoundTrip and LE32Inverse prove it inverts LE32 |
| IntSerializer.FromLE64 | src/ProtobjInput.ts:147-160 | `Long.fromBytesLE` of the eight bytes as a (low, high) pair of unsigned words; LE64RoundTrip and LE64Inverse prove it inverts LE64 |
| IntSerializer.LE32RoundTrip | src/IntSerializer.ts:17-22 | the four bytes `writeInt32LE` stores read back, least significant first, as the value's signed 32-bit word |
| IntSerializer.LE32Inverse | src/ProtobjInput.ts:163-176 | every four bytes are the layout of the word `readRawLittleEndian32` assembles from them |
| IntSerializer.LE16RoundTrip | src/ProtobjInput.ts:482-491 | the intended two-byte layout reads back as the low 16 bits of the value |
| IntSerializer.LE16Inverse | src/ProtobjInput.ts:482-491 | every two bytes are the layout of the value `readRawLittleEndian16` assembles from them |
| IntSerializer.LE64RoundTrip | src/IntSerializer.ts:27-28 | the eight bytes of `toBytesLE()` read back as the same (low, high) pair |
| IntSerializer.LE64Inverse | src/ProtobjInput.ts:147-161 | every eight bytes are the layout of the pair `readRawLittleEndian64` assembles from them |
| IntSerializer.FromLE16 | src/ProtobjInput.ts:482-491 | two bytes assembled low first give an unsigned value below 0x10000 |
| IntSerializer.WriteInt32LE | src/IntSerializer.ts:17-22 | the four little-endian bytes of the value are stored at `offset` and nothing else in the buffer changes |
| IntSerializer.WriteInt64LE | src/IntSerializer.ts:27-28 | the eight little-endian bytes of the pair are stored at `offset` and nothing else changes |
| IntSerializer.WriteInt16LEAsWritten | src/IntSerializer.ts:9-11 | as written, only `(value >>> 8) & 0xFF` is stored, at `offset`; `offset + 1` keeps its old byte |
| IntSerializer.WriteInt16LEAsWrittenLosesLowByte | src/IntSerializer.ts:9-11 | on zeroed bytes, the as-written store of 0x0102 reads back as 0x0001, while the intended layout reads back as 0x0102 |
| IntSerializer.WriteInt16LE | src/WriteSink.ts:187-199 | the intended store: two bytes, least significant first, at `offset`, and nothing else changes |
| LinkedBuffers.NewLinkedBuffer | src/LinkedBuffer.ts:11-20 | the new block stores the given array, start and offset and has no successor; the append target, if any, now links to it, and every other block is unchanged |
| LinkedBuffers.NewLinkedBufferAsWritten | src/LinkedBuffer.ts:11-20 | as written: the new block's `next` is the append target (or none), and every existing block, the target included, is unchanged |
| LinkedBuffers.LinkDirectionAsWritten | src/LinkedBuffer.ts:15-16 | growing a one-block chain with the intended link makes the walk from the head visit both blocks (content [7, 9]); with the link as written it visits only the head (content [7]) |
| LinkedBuffers.ClearBlock | src/LinkedBuffer.ts:22-26 | `clear` unlinks the block and sets offset to start, keeps its array and start, leaves it empty and changes no other block |
| LinkedBuffers.Allocate | src/LinkedBuffer.ts:28-33 | a fresh, empty, unlinked block on a new array of max(size, 256) bytes; no existing block or array changes |
| LinkedBuffers.ContentLength | src/WriteSession.ts:33-49 | the concatenated data of a chain is as long as the sum of `offset - start` over its blocks |
| LinkedBuffers.WalkLinked | src/WriteSession.ts:39-47 | following `next` from any block of a linked chain visits exactly the rest of the chain, in order |
| LinkedBuffers.PutAppended | src/WriteSink.ts:98-103 | copying bytes after the last block's data, where they fit, appends exactly those bytes and advances its offset by their count |
| LinkedBuffers.AttachThenGrow | src/WriteSink.ts:66-73 | the zero-copy splice onto a full block: the donor range wrapped as a block, then a fresh block, appends exactly the donor range, and the donor array itself becomes the block's storage |
| LinkedBuffers.AttachThenView | src/WriteSink.ts:66-78 | the zero-copy splice onto a block with room: the donor block, then an empty view of the rest of the last block's array, appends exactly the donor range |
| LinkedBuffers.AppendedTrans | src/WriteSink.ts:59-104 | two appends in a row are one append of both byte strings |
| Session.WriteSession.constructor | src/WriteSession.ts:19-24 | head and tail are the given block, size is 0, nextBufferSize is the given one (512 by default), and the content is empty |
| Session.WriteSession.Clear | src/WriteSession.ts:27-31 | the head is cleared and becomes the tail again, size is 0, the chain is the head alone and the content is empty |
| Session.WriteSession.ToByteArray | src/WriteSession.ts:33-49 | a new array of exactly `size` bytes holding the data of every block from the head on, in chain order; the session is unchanged |
| Session.SetRange | src/WriteSession.ts:44 | `buf.set(data, at)` keeps what is before `at` and puts `data` right after it |
| Session.ContentStep | src/WriteSession.ts:39-47 | each step of the walk adds the next block's `[start, offset)` to the bytes copied so far, and never runs past the total |
| Session.ClearedIsEmpty | src/WriteSession.ts:27-49 | after `clear`, the head alone is a linked chain of size 0 and `toByteArray` gives no bytes |
| Session.ChainNext | src/WriteSession.ts:47 | in a linked chain a block's successor is the next block of the chain, and only the last block has none, so the walk stops there |
| Session.UsedAppended | src/WriteSink.ts:48-199 | an append of `data` grows the sum of `offset - start` over the chain by exactly `\|data\|`, which keeps `size` equal to that sum |
| Session.AppendedLinked | src/WriteSink.ts:59-104 | an append keeps a linked chain linked from the same head |
| WriteSinks.GrowBlock | src/WriteSink.ts:52 | a fresh zeroed array of `nextBufferSize` bytes becomes an empty block linked after `lb`; nothing is appended and size is unchanged |
| WriteSinks.Emit | src/WriteSink.ts:107-118 | a fixed-width store never splits: when the bytes do not fit, a fresh block is started first; the bytes are appended in either case |
| WriteSinks.WriteByte | src/WriteSink.ts:47-57 | appends `ToUint8(value)`, growing when the block is full; size grows by 1 |
| WriteSinks.WriteInt16LE | src/WriteSink.ts:187-199 | appends the two little-endian bytes of the value without splitting them; size grows by 2 (intended; Findings row 3) |
| WriteSinks.WriteInt32LE | src/WriteSink.ts:107-119 | appends the four little-endian bytes without splitting them; size grows by 4 |
| WriteSinks.WriteInt64LE | src/WriteSink.ts:121-133 | appends the eight little-endian bytes of the pair without splitting them; size grows by 8 |
| WriteSinks.WriteVarInt32 | src/WriteSink.ts:139-155 | appends the base-128 groups of the unsigned word, low group first, 0x80 on all but the last; size grows by the number of bytes |
| WriteSinks.Varint64Step | src/WriteSink.ts:165-168 | while `high` is non-zero, one emitted group is `low & 127 \| 128` and the shifted pair holds the 64-bit value divided by 128 |
| WriteSinks.LowWordBound | src/WriteSink.ts:167 | the new low word `low >>> 7 \| high << 25` fits 32 bits, since the two operands occupy different bits |
| WriteSinks.HighGroups | src/WriteSink.ts:161-169 | the first loop appends the groups taken while `high` is non-zero, and what remains to append is the varint of the low word left |
| WriteSinks.LowGroups | src/WriteSink.ts:170-183 | the second loop and the last store append the varint of the remaining low word, taken as unsigned (the intended reading; the signed word the source can pass here is Findings row 9) |
| WriteSinks.WriteVarInt64 | src/WriteSink.ts:157-184 | appends the base-128 groups of the pair's unsigned 64-bit value, low group first; size grows by the number of bytes. This is the intended writer; the source's one-byte result for a zero high word and a low word of 2^31 or more is Findings row 9 |
| WriteSinks.LowLoopVarint | src/WriteSink.ts:170-183 | on a non-negative low word, the second loop and the last store as written produce the varint of the word |
| WriteSinks.HighLoopVarint | src/WriteSink.ts:161-183 | the first loop as written, then the second, produce the varint of the pair's 64-bit value whenever the high word is non-zero |
| WriteSinks.Varint64AsWritten | src/WriteSink.ts:157-184 | `writeVarInt64` as written, on the Long's signed `low`: the high loop while `high` is non-zero, then the low loop; Varint64AsWrittenAgrees states where it differs from the varint |
| WriteSinks.HighLoopAsWritten | src/WriteSink.ts:161-182 | the `while (high)` loop, a group `low & 127 \| 128` per turn with seven bits shifted from high into low, followed by the low loop on the unsigned low word; HighLoopVarint proves the whole is the varint of the pair |
| WriteSinks.LowLoopAsWritten | src/WriteSink.ts:170-182 | the `while (low > 127)` loop and the final store of `low`, on a low word that may be negative; LowLoopVarint and NegativeLow state its result for each sign |
| WriteSinks.Varint64AsWrittenAgrees | src/WriteSink.ts:157-184 | `writeVarInt64` as written, on the signed `low` a Long holds, gives the varint of the value unless the high word is zero and the low word is 2^31 or more; then it gives the single byte `low & 0xFF` |
| WriteSinks.NegativeLow | src/WriteSink.ts:170-182 | a low word of 2^31 or more, negative as a Long holds it, skips the second loop and is stored as its low eight bits |
| WriteSinks.Varint64AsWrittenLosesHighBit | src/WriteSink.ts:170-182 | as written, 2^31 with a zero high word becomes the single byte 0, the varint of 0, where its varint is 80 80 80 80 08 |
| WriteSinks.Varint64AsWrittenLosesLargeLow | src/WriteSink.ts:170-182 | as written, 3000000000 with a zero high word also becomes the single byte 0, where its varint takes five bytes |
| WriteSinks.WriteByteArray | src/WriteSink.ts:59-104 | appends `value[offset..offset+valueLen)` and grows size by `valueLen`: nothing happens for length 0, the chain is unchanged when the bytes fit, one block is added when they fit with the next block, and otherwise two blocks are added, the first being the donor array itself |
| WriteSinks.Splice | src/WriteSink.ts:66-78 | the zero-copy branch: the donor range is appended through a block on the donor array, followed by a fresh block or by an empty view of `lb`'s array |
| WriteSinks.CopySplit | src/WriteSink.ts:80-95 | the first `available` bytes fill `lb`, and the rest go to offset 0 of exactly one new block |
| Varints.Varint | src/WriteSink.ts:139-155 | the base-128 encoding `writeVarInt32` emits has `VarintSize(v)` bytes and its last byte is below 128 |
| Varints.VarintValue | src/WriteSink.ts:147-153 | the groups of the encoding, low group first, spell the value again |
| Varints.VarintSize | src/WriteSink.ts:139-155 | the number of groups `writeVarInt32` emits, at least one; VarintLength and ComputeRawVarint32Size give its bands and tie it to `computeRawVarint32Size` |
| Varints.VarintLength | src/ProtobjOutput.ts:394-405 | an encoding has k bytes exactly when 128^(k-1) <= v < 128^k |
| Varints.VarintBounds | src/WriteSink.ts:139-184 | a 32-bit value takes one to five bytes and a 64-bit value at most ten |
| Varints.ComputeRawVarint32Size | src/ProtobjOutput.ts:394-405 | the result is 1..5 and equals the byte count of the encoding of the unsigned word; it is 1 exactly for 0..127 and 5 for every negative value |
| Varints.SizeExamples | src/ProtobjOutput.ts:394-405 | the byte count changes exactly at 128, 16384, 2097152 and 268435456, and -1 takes five bytes |
| Varints.DecodeGroups32 | src/ProtobjInput.ts:112-145 | reading from group k on consumes at least one and at most 10 - k bytes |
| Varints.DiscardUpper | src/ProtobjInput.ts:133-139 | the discard loop consumes at least one and at most n bytes, and with no bytes left to try it fails with malformedVarint |
| Varints.ReadRawVarint32 | src/ProtobjInput.ts:112-145 | a successful read consumes between one and ten bytes |
| Varints.ReadRawVarint32Varint | src/ProtobjInput.ts:112-145 | the encoding of any value of at most ten bytes reads back as its low 32 bits as a signed word, and the offset lands just past it |
| Varints.Varint32RoundTrip | src/ProtobjInput.ts:112-145 | the varint `writeVarInt32` writes for a word reads back as that word, signed, and consumes exactly its bytes |
| Varints.SignExtendedRoundTrip | src/ProtobjInput.ts:131-139 | a negative int32 sign-extended to 64 bits is ten bytes long, and the discard loop brings back the original value |
| Varints.Varint32Malformed | src/ProtobjInput.ts:112-139 | ten continuation bytes in a row end in malformedVarint |
| Varints.ReadRawVarint32AsWritten | src/ProtobjInput.ts:114-116 | as written, the test `tmp >= 0` on an unsigned byte always passes, so the read consumes one byte and returns it |
| Varints.ReadRawVarint32AsWrittenLosesGroups | src/ProtobjInput.ts:114-116 | 300 is written as AC 02; as written the reader returns 0xAC and leaves 02 behind, while the intended reader returns 300 |
| Varints.ReadRawVarint64 | src/ProtobjInput.ts:224-287 | a successful read consumes one to ten bytes, at most four on the short tail, and at the limit the short tail fails with misreportedSize |
| Varints.LowFast | src/ProtobjInput.ts:229-245 | the fast low-word route from group i on consumes at most 10 - i bytes |
| Varints.HighLoop | src/ProtobjInput.ts:264-286 | the high-word loop from group i on consumes at most 5 - i bytes |
| Varints.LowSlow | src/ProtobjInput.ts:246-263 | the short tail from group i on consumes at most 4 - i bytes |
| Varints.Varint64RoundTrip | src/ProtobjInput.ts:224-287 | the varint of a pair's 64-bit value, lying wholly before the limit, reads back as the same pair on either route and consumes exactly its bytes |
| Varints.Varint64Malformed | src/ProtobjInput.ts:224-287 | ten continuation bytes in a row before the limit end in malformedVarint |
| Varints.LowFastVarint | src/ProtobjInput.ts:229-245 | the fast low-word route reads back the remaining groups of every 64-bit value |
| Varints.HighLoopVarint | src/ProtobjInput.ts:264-286 | the high-word loop reads back the remaining groups, checked or not |
| Varints.LowSlowVarint | src/ProtobjInput.ts:246-263 | the short tail reads back every value of at most four bytes that ends before the limit |
| Varints.FifthGroupShift | src/ProtobjInput.ts:131 | the fifth byte shifted by 28 without masking gives the same low 32 bits as its group, because the continuation bit falls off the word |
| Utf8.UnitBytes | src/StringSerializer.ts:124-169 | a unit that does not start a pair takes one to three bytes, and exactly one when it is below 0x80 |
| Utf8.PairBytes | src/StringSerializer.ts:151-155 | a supplementary code point takes four bytes |
| Utf8.Width | src/StringSerializer.ts:142-157 | a character occupies one unit, or two for a surrogate pair |
| Utf8.CharBytes | src/StringSerializer.ts:124-169 | a character of w units takes between w and 3w bytes, so the writer's worst case of three bytes per unit holds |
| Utf8.EncodeFrom | src/StringSerializer.ts:121-170 | the bytes the encoding loop writes from unit i on, one character (a unit, or a surrogate pair under the intended test) at a time; EncodeFromBounds and DecodeEncodeFrom are proved about it |
| Utf8.Encode | src/StringSerializer.ts:121-170 | the UTF-8 encoding of a whole string under the intended surrogate tests (Findings row 6); DecodeEncode and EncodeInjective prove it decodes back and is injective |
| Utf8.EncodeFromBounds | src/StringSerializer.ts:121-170 | the bytes of a string from unit i on number between one and three per remaining unit |
| Utf8.EncodeBounds | src/StringSerializer.ts:121-170 | a string of n units is written as n to 3n bytes |
| Utf8.EncodeEmpty | src/StringSerializer.ts:27-36 | only the empty string is written as no bytes |
| Utf8.EncodeFromThreeBytes | src/StringSerializer.ts:158-168 | a string of three-byte units reaches the worst case of exactly three bytes per unit |
| Utf8.UnitBytesDecode | src/StringSerializer.ts:124-169 | the one-, two- and three-byte forms of a unit decode back to the unit under the decoder of section 3 of RFC 3629 |
| Utf8.PairBytesDecode | src/StringSerializer.ts:142-157 | the four-byte form of a surrogate pair decodes back to the same two units |
| Utf8.DecodeEncodeFrom | src/StringSerializer.ts:121-170 | decoding the bytes written from unit i on gives back the units from i on |
| Utf8.DecodeEncode | src/StringSerializer.ts:121-170 | decoding the writer's bytes gives back every unit of the string |
| Utf8.EncodeInjective | src/StringSerializer.ts:121-170 | different strings are written as different bytes |
| Utf8.Cesu8From | src/StringSerializer.ts:121-170 | the unit-by-unit encoding with no pairs; EncodeAsWrittenIsCesu8 proves it is what the loop writes with the as-written surrogate tests |
| Utf8.EncodeAsWrittenIsCesu8 | src/StringSerializer.ts:142 | with the surrogate tests as written, every string is encoded unit by unit, each surrogate as three bytes (CESU-8) |
| Utf8.SurrogatePairAsWritten | src/StringSerializer.ts:142-168 | as written, U+1F600 becomes six bytes ED A0 BD ED B8 80, a different length from the intended encoding |
| Utf8.SurrogatePairIntended | src/StringSerializer.ts:142-157 | as intended, U+1F600 becomes the four bytes F0 9F 98 80 |
| BlockEdits.Reserve | src/StringSerializer.ts:76 | advancing a block's offset without writing stores the bytes already in its array there |
| BlockEdits.PatchEdits | src/StringSerializer.ts:206-209 | storing inside a block's data changes exactly those bytes of its data, and no window of any other block |
| BlockEdits.ShiftEdits | src/StringSerializer.ts:190-201 | moving the payload left by one byte and decrementing the offset drops the one byte before the payload from the block's data |
| BlockEdits.EditFrame | src/StringSerializer.ts:190-209 | an edit inside one block of a well-formed chain leaves every other block, and the chain's links, as they were |
| BlockEdits.EditAppended | src/StringSerializer.ts:186-211 | when reserved bytes ahead of an appended payload are replaced by `g`, the whole operation appends `g` followed by the payload |
| StringSerializers.PrefixWidth | src/StringSerializer.ts:11-65 | the reservation is one to five bytes; with integer thresholds a width below five always exceeds three bytes per unit, and a width above one is needed by some payload of that many units |
| StringSerializers.LowerLimit | src/StringSerializer.ts:11-23 | the lower limit for an e-byte reservation is 2^(7(e-1)), the smallest value whose varint needs e bytes |
| StringSerializers.Groups | src/StringSerializer.ts:206-209 | the prefix loop stores exactly w bytes |
| StringSerializers.GroupsVarint | src/StringSerializer.ts:206-209 | when w is the varint length of v, the prefix loop stores the varint of v |
| StringSerializers.Prefix | src/StringSerializer.ts:188-209 | the prefix keeps the reserved width, or is one byte shorter exactly when the payload is below the lower limit |
| StringSerializers.Delimited | src/StringSerializer.ts:27-65 | everything `writeUTF8VarDelimited` writes: the prefix of the band's width (or one byte less), then the payload; DelimitedVarint proves it is the varint-delimited payload under integer thresholds, and RealThresholdsOverflow that it is not under the floating ones |
| StringSerializers.DelimitedVarint | src/StringSerializer.ts:11-66 | with integer thresholds, everything written for a string is the varint of the payload length followed by the payload, the empty string included |
| StringSerializers.RealThresholdsOverflow | src/StringSerializer.ts:11-44 | with the thresholds as written, 43 units of U+0800 take the one-byte prefix path, the 129-byte payload is stored as 0x81, and the result is not the varint of the length |
| StringSerializers.CharCost | src/StringSerializer.ts:124-169 | a character below 0x800 is never a pair; a pair takes two units and four bytes, other units one to three bytes by range |
| StringSerializers.FastChar | src/StringSerializer.ts:124-169 | one character of the fast path stores its UTF-8 bytes in the current block, advances past its units and keeps the running limit within the block |
| StringSerializers.EmitEach | src/StringSerializer.ts:292-316 | storing bytes one at a time, opening a new block of nextBufferSize whenever the current one is full, appends exactly those bytes |
| StringSerializers.SlowChar | src/StringSerializer.ts:283-558 | one character of the slow path appends its UTF-8 bytes across block boundaries and counts them into size |
| StringSerializers.WriteUTF8Slow | src/StringSerializer.ts:279-561 | the slow path appends the UTF-8 bytes of the string from unit i on, and size grows by their number |
| StringSerializers.WriteUTF8Fast | src/StringSerializer.ts:121-171 | when one byte per unit fits, the fast path (handing over to the slow path when a wider character does not fit) appends the UTF-8 bytes of the string and adds their number to size |
| StringSerializers.HandOff | src/StringSerializer.ts:133-168 | the slow path taking over mid-string completes the UTF-8 bytes of the whole string |
| StringSerializers.WritePayload | src/StringSerializer.ts:173-251 | the payload behind a reservation is the UTF-8 bytes of the string, whichever path writes it |
| StringSerializers.GrowSized | src/StringSerializer.ts:180-181 | a new empty block of the requested size is linked after the last one and nothing is appended |
| StringSerializers.ReservePrefix | src/StringSerializer.ts:175-216 | e bytes are reserved in the current block or, when they do not fit, at the start of a new block sized for the string, which then always fits one byte per unit |
| StringSerializers.ReserveAt | src/StringSerializer.ts:89-109 | advancing the offset by e reserves e bytes without changing size |
| StringSerializers.WriteGroups | src/StringSerializer.ts:206-209 | the prefix loop stores Groups(v, w) into the block at the reserved offset and changes nothing else |
| StringSerializers.FinishAppended | src/StringSerializer.ts:188-209 | filling the reservation with g after the payload was appended gives an append of g followed by the payload |
| StringSerializers.PatchFinish | src/StringSerializer.ts:97-113 | storing one byte into a one-byte reservation after the payload gives an append of that byte followed by the payload |
| StringSerializers.FilledFinish | src/StringSerializer.ts:188-209 | filling a reservation of two to five bytes gives an append of Prefix(size, e) followed by the payload |
| StringSerializers.ShiftThenPatch | src/StringSerializer.ts:190-209 | shifting the payload left by one and storing the shorter prefix replaces the e reserved bytes of the block's data by the e-1 prefix bytes |
| StringSerializers.FilledEdits | src/StringSerializer.ts:188-209 | filling the prefix edits only the reserving block, whose reserved bytes become Prefix(size, e) |
| StringSerializers.FillPrefix | src/StringSerializer.ts:188-209 | the shift and the prefix loop leave the arena as Filled describes and add the prefix length to size |
| StringSerializers.WriteUTF8OneByteDelimited | src/StringSerializer.ts:68-119 | one reserved byte holding the payload length modulo 256 (a Uint8Array store) is followed by the UTF-8 bytes of the string, and size grows by one plus their number |
| StringSerializers.WriteUTF8VarDelimited0 | src/StringSerializer.ts:173-277 | the prefix of the reserved width, or one byte shorter, is followed by the UTF-8 bytes of the string, and size grows by both |
| StringSerializers.WriteUTF8VarDelimited | src/StringSerializer.ts:27-66 | appends Delimited(d, str), the prefix chosen by the length thresholds followed by the UTF-8 bytes, and size grows by its length |
| Output.TagBytes | src/ProtobjOutput.ts:39-42 | the varint `writeVarInt32` appends for `makeTag(fieldNumber, wireType)` taken as an unsigned word; TagReadBack proves it reads back as the tag |
| Output.BoolByte | src/ProtobjOutput.ts:39-47 | `value ? 0x01 : 0x00`; BoolReadBack proves readBOOL gives the value back |
| Output.I32Bytes | src/ProtobjOutput.ts:87-101 | what `writeI32` is meant to append: the varint of a non-negative value, and a negative value sign-extended to 64 bits (intended; Findings row 4); I32RoundTrip proves it reads back with its sign |
| Output.I32BytesAsWritten | src/ProtobjOutput.ts:88-89 | `writeI32` as written: a negative value becomes the single byte 0; I32AsWrittenLosesSign shows the loss |
| Output.SignExtended | src/ProtobjOutput.ts:87-103 | the negative value widened to 64 bits with an all-ones high word is 2^64 plus the value |
| Output.TagReadBack | src/ProtobjOutput.ts:39-43 | the tag a writer appends reads back as makeTag(fieldNumber, wireType), and the field number and wire type are recovered from it |
| Output.I32RoundTrip | src/ProtobjOutput.ts:87-103 | whatever writeI32 appends, readRawVarint32 gives the value back, sign included; a negative value takes ten bytes |
| Output.I32AsWrittenLosesSign | src/ProtobjOutput.ts:88-89 | as written, a negative value is written as the single byte 0 and reads back as 0, where the sign-extended form reads back as the value |
| Output.Commit | src/ProtobjOutput.ts:39-43 | storing the block a sink returned as the tail leaves a valid session whose contents are the old contents followed by what the sink calls appended |
| Output.Close | src/ProtobjOutput.ts:39-43 | the same after two sink calls: the contents gain the tag bytes and then the value bytes |
| Output.WriteTag | src/ProtobjOutput.ts:40-42 | the sink call for a tag appends the varint of makeTag(fieldNumber, wireType) and adds its length to size |
| Output.WriteBOOL | src/ProtobjOutput.ts:39-43 | appends the tag with wire type FIXED8 and the byte 1 or 0 |
| Output.WriteBOOLPacked | src/ProtobjOutput.ts:45-47 | appends the byte 1 or 0 |
| Output.WriteI8 | src/ProtobjOutput.ts:49-62 | appends the FIXED8 tag and the low eight bits of the value |
| Output.WriteI8Packed | src/ProtobjOutput.ts:55-66 | appends the low eight bits of the value |
| Output.WriteI16 | src/ProtobjOutput.ts:68-80 | appends the FIXED16 tag and the two little-endian bytes of the value (intended; Findings row 3) |
| Output.WriteI16Packed | src/ProtobjOutput.ts:73-84 | appends the two little-endian bytes of the value (intended; Findings row 3) |
| Output.WriteI32 | src/ProtobjOutput.ts:87-94 | appends the VARINT tag and the varint of the value, sign-extended to 64 bits when negative (intended; Findings row 4) |
| Output.WriteI32Packed | src/ProtobjOutput.ts:96-103 | appends the varint of the value, sign-extended to 64 bits when negative (intended; Findings row 4) |
| Output.WriteI32Value | src/ProtobjOutput.ts:88-92 | the value's sink call appends I32Bytes(value) and adds its length to size (intended; Findings row 4) |
| Output.WriteU32 | src/ProtobjOutput.ts:105-109 | appends the VARINT tag and the varint of the value as an unsigned 32-bit word |
| Output.WriteU32Packed | src/ProtobjOutput.ts:111-113 | appends the varint of the value as an unsigned 32-bit word |
| Output.WriteS32 | src/ProtobjOutput.ts:115-118 | appends the VARINT tag and the varint of the zigzag encoding of the value |
| Output.WriteS32Packed | src/ProtobjOutput.ts:120-122 | appends the varint of the zigzag encoding of the value |
| Output.WriteF32 | src/ProtobjOutput.ts:124-138 | appends the FIXED32 tag and the four little-endian bytes of the 32-bit word |
| Output.WriteF32Packed | src/ProtobjOutput.ts:131-142 | appends the four little-endian bytes of the 32-bit word |
| Output.WriteI64 | src/ProtobjOutput.ts:144-155 | appends the VARINT tag and the varint of the unsigned 64-bit word the (low, high) pair forms, through the intended `writeVarInt64` (Findings row 9 gives what the source writes for a zero high word and a low word of 2^31 or more) |
| Output.WriteI64Packed | src/ProtobjOutput.ts:148-159 | appends the varint of the unsigned 64-bit word the pair forms, through the intended `writeVarInt64` (Findings row 9) |
| Output.WriteS64 | src/ProtobjOutput.ts:161-163 | appends the VARINT tag and the varint of the 64-bit zigzag encoding of the pair, through the intended `writeVarInt64` (Findings row 9: as written, a zigzag image with a zero high word and a low word of 2^31 or more becomes one byte) |
| Output.WriteS64Packed | src/ProtobjOutput.ts:165-167 | appends the varint of the 64-bit zigzag encoding of the pair, through the intended `writeVarInt64` (Findings row 9) |
| Output.WriteF64 | src/ProtobjOutput.ts:170-186 | appends the FIXED64 tag and the eight little-endian bytes of the pair, low word first |
| Output.WriteF64Packed | src/ProtobjOutput.ts:177-190 | appends the eight little-endian bytes of the pair, low word first |
| Output.WriteSTRING | src/ProtobjOutput.ts:192-195 | appends the LENGTH_DELIMITED tag, then the varint of the UTF-8 length and the UTF-8 bytes (intended; Findings rows 5 and 6) |
| Output.WriteSTRINGPacked | src/ProtobjOutput.ts:197-199 | appends the varint of the UTF-8 length and the UTF-8 bytes (intended; Findings rows 5 and 6) |
| Output.WriteRawVarInt32 | src/ProtobjOutput.ts:369-391 | opens a new block when the varint does not fit what is left, then appends the varint of the value as an unsigned word and adds its length to size |
| Output.ReservedFilled | src/ProtobjOutput.ts:374-390 | reserving bytes at the end of the last block and storing g into them appends exactly g |
| Output.WriteRawVarInt32ByteArray | src/ProtobjOutput.ts:407-418 | stores the varint of the value into the array from the offset on and leaves every other element as it was |
| Output.Frame | src/ProtobjOutput.ts:270-343 | what `writeMessage` puts after the tag: the varint of the body's length, then the body; FrameReadBack proves it reads back, and WriteMessage that every framing path appends it |
| Output.FrameReadBack | src/ProtobjOutput.ts:270-343 | a framed body reads back: the length comes first as a varint, and the body follows it |
| Output.RunStep | src/ProtobjOutput.ts:292 | one call of a message's task, either a `writeI32_Packed` count or a byte string appended through `writeByteArray`, appends its bytes after those of the calls before it |
| Output.RunTask | src/ProtobjOutput.ts:292 | a task of such calls appends their bytes in order and adds their number to size |
| Output.WriteMessage | src/ProtobjOutput.ts:270-343 | appends the LENGTH_DELIMITED tag as written (MessageTagBytes), then the varint of the length of what the task writes, then those bytes, whichever of the three paths is taken; the task's calls are `writeI32_Packed` counts and `writeByteArray` appends (see Left out) |
| Output.MessageTagBytes | src/ProtobjOutput.ts:272-283 | `writeMessage`'s tag: the one byte `ToUint8(tag)` for a field number below 16 when the tail has room, otherwise the tag's varint; MessageTagVarint proves it is the varint for every non-negative field number, and not for a negative one when the tail has room |
| Output.SmallTag | src/ProtobjOutput.ts:274-278 | a length-delimited tag for a field number below 16 is one byte, the tag itself, so the direct store equals the varint |
| Output.WriteMessageTag | src/ProtobjOutput.ts:273-282 | the tag is stored as the one byte `ToUint8(tag)` when the field number is below 16 and the tail has room, and as the varint of the tag otherwise, for every field number |
| Output.MessageTagVarint | src/ProtobjOutput.ts:273-282 | for every non-negative field number, both ways append the varint of makeTag(fieldNumber, LENGTH_DELIMITED); for a negative one with room, the one byte stored is not the tag's five-byte varint (-1 gives 0xFA) |
| Output.FrameDetached | src/ProtobjOutput.ts:286-304 | when the tag filled its block, the task writes into a new block and a block holding the length is inserted between: the contents gain Frame(task bytes) |
| Output.DetachedTask | src/ProtobjOutput.ts:288-292 | the task runs in a new block after the tail; the old blocks keep the old contents and the new ones hold the task's bytes |
| Output.DetachedLength | src/ProtobjOutput.ts:294-303 | the length block inserted after the old tail makes the contents the old contents followed by Frame(task bytes), and size counts it |
| Output.Delimiter | src/ProtobjOutput.ts:296-297 | the array holding the length is exactly the varint of the length |
| Output.DetachedInsert | src/ProtobjOutput.ts:299-302 | inserting the block holding g after block k of a chain divided as x then y gives a sound chain holding x, g, y |
| Output.InsertedChain | src/ProtobjOutput.ts:302 | the insertion keeps the chain well-formed with its ends, and its content gains g at that point |
| Output.DetachedFrame | src/ProtobjOutput.ts:288-292 | before the insertion, the blocks up to the old tail hold the old contents and the blocks from the new one on hold the body |
| Output.DetachedLinks | src/ProtobjOutput.ts:288-292 | a new block linked after the chain and then written to leaves the chain's content as the old content followed by the body |
| Output.GrownEmpty | src/ProtobjOutput.ts:288 | a new empty block leaves the content of the chain before it as it was |
| Output.TailContent | src/ProtobjOutput.ts:301-302 | in a chain holding x + y whose first blocks hold x, the remaining blocks hold y |
| Output.FrameInline | src/ProtobjOutput.ts:306-343 | with room for the length byte, the contents gain Frame(task bytes), by the one-byte store or by the split |
| Output.InlineLength | src/ProtobjOutput.ts:312-318 | a length below 128 stored into the reserved byte makes the contents the old contents followed by Frame(body) |
| Output.SplitFrame | src/ProtobjOutput.ts:321-342 | a length of 128 or more: the block is cut at the reserved byte and a block holding the varint length is inserted, giving the old contents followed by Frame(body) |
| Output.SplitLength | src/ProtobjOutput.ts:323-342 | cutting the tag's block at the reserved byte, inserting the length block and correcting size leaves a valid session holding x, the varint length and the body |
| Output.SplitPrep | src/ProtobjOutput.ts:307-312 | after the reserved byte and the task, the tag's block holds the old bytes up to the cut, the reserved byte, and the first bytes of the body, and the later blocks the rest of the body |
| Output.SplitJoin | src/ProtobjOutput.ts:323-342 | the cut and the insertion give a sound chain whose tail moves to the view exactly when the tag's block was the tail, holding x, g, body |
| Output.SplitChain | src/ProtobjOutput.ts:324-342 | the cut and the insertion keep the chain well-formed and linked and place g between x and the body |
| OutputCollections.Elements | src/ProtobjOutput.ts:234-240 | the task has one step per element, step i writing element i |
| OutputCollections.ElementsBytes | src/ProtobjOutput.ts:234-240 | running the element steps appends the elements' bytes in index order |
| OutputCollections.TaskBytesAppend | src/ProtobjOutput.ts:242-249 | two tasks run one after the other append the bytes of the first, then those of the second |
| OutputCollections.ConcatAppend | src/ProtobjOutput.ts:234-240 | the bytes of a list split in two are the bytes of the first part followed by those of the second |
| OutputCollections.ConcatWindow | src/ProtobjOutput.ts:234-240 | element i occupies its own window of the written bytes, right after the elements before it, so the elements come back in order |
| OutputCollections.WriteList | src/ProtobjOutput.ts:234-240 | appends the LENGTH_DELIMITED tag as writeMessage stores it and a frame holding the elements in index order |
| OutputCollections.WriteSet | src/ProtobjOutput.ts:226-232 | appends the LENGTH_DELIMITED tag as writeMessage stores it and a frame holding the elements in insertion order |
| OutputCollections.WriteArray | src/ProtobjOutput.ts:242-249 | appends the LENGTH_DELIMITED tag as writeMessage stores it and a frame holding the element count as writeI32_Packed writes it, then the elements |
| OutputCollections.CountFirst | src/ProtobjOutput.ts:244 | a task that starts with the count appends the count's varint before everything else |
| OutputCollections.KeptPairs | src/ProtobjOutput.ts:347-352 | the kept entries give an even number of strings, key then value |
| OutputCollections.EntryStepsBytes | src/ProtobjOutput.ts:346-353 | the map's task appends the keys and values of the entries whose key and value are both truthy, alternately, in iteration order |
| OutputCollections.KeptPairsOrder | src/ProtobjOutput.ts:347-352 | a kept entry's key and value are written next to each other, key first, after the pairs of the kept entries before it |
| OutputCollections.WriteMap | src/ProtobjOutput.ts:345-354 | appends the LENGTH_DELIMITED tag as writeMessage stores it and a frame holding the key and value of each kept entry |
| OutputCollections.Seen | src/ProtobjOutput.ts:254-258 | at most eight bits of a byte are ever looked at |
| OutputCollections.PackedBits | src/ProtobjOutput.ts:252-258 | the packed array has ceil(n / 8) bytes |
| OutputCollections.AccBit | src/ProtobjOutput.ts:254-258 | bit j of a byte packed from its first m values is set exactly when value 8k + j exists, is among those m, and is true |
| OutputCollections.PackedBit | src/ProtobjOutput.ts:252-258 | bit i % 8 of byte i / 8 is set exactly when value i exists and is true, so every value comes back and the padding bits are clear |
| OutputCollections.PackBits | src/ProtobjOutput.ts:252-258 | the packing loop, with integer division for the byte index, fills a new array equal to PackedBits(value) |
| OutputCollections.PackStep | src/ProtobjOutput.ts:255-257 | one turn of the loop keeps every byte equal to the packing of the values seen so far |
| OutputCollections.AccBeyond | src/ProtobjOutput.ts:252-258 | the bits past the last value stay clear |
| OutputCollections.PackedBitsAsWritten | src/ProtobjOutput.ts:252-258 | as written, the packed array still has ceil(n / 8) bytes |
| OutputCollections.PackAsWrittenDropsBits | src/ProtobjOutput.ts:256 | as written, [false, true] packs to [0], while the intended packing is [2] |
| OutputCollections.WriteBOOLArray | src/ProtobjOutput.ts:251-263 | appends the LENGTH_DELIMITED tag as writeMessage stores it and a frame holding the number of values, then the packed bytes (intended; Findings row 7) |
| OutputCollections.PackedTask | src/ProtobjOutput.ts:259-262 | the task of writeBOOLArray appends the count, then the packed bytes |
| OutputCollections.WriteBOOLList | src/ProtobjOutput.ts:265-267 | writes exactly what writeBOOLArray writes (intended; Findings row 7) |
| Framing.Inserted | src/LinkedBuffer.ts:11-20 | a block wrapping a new array whole is added and linked after block n, followed by next; nothing else changes |
| Framing.Cut | src/ProtobjOutput.ts:324-333 | the block ends at the cut and a new view of the same array, from past the reserved byte to the old offset, takes over its successor |
| Framing.InsertWf | src/ProtobjOutput.ts:302 | a block placed between neighbours it fits between keeps a chain well formed |
| Framing.WfShrunk | src/ProtobjOutput.ts:333 | a chain stays well formed when its blocks keep their arrays and starts and no offset grows |
| Framing.ContentKept | src/ProtobjOutput.ts:288-302 | blocks whose windows and arrays are unchanged hold the same content |
| Framing.CutData | src/ProtobjOutput.ts:324-333 | after the cut the block holds the bytes before the reserved byte and the view those after it |
| Framing.CutOthers | src/ProtobjOutput.ts:324-333 | the cut changes no block of the chain but the one cut |
| Framing.CutWf | src/ProtobjOutput.ts:324-333 | the cut keeps the chain, with the view after the cut block, well formed |
| Framing.CutLinks | src/ProtobjOutput.ts:324-333 | after the cut, the chain is linked everywhere but at the cut block, and the view is last exactly when the cut block was |
| Framing.InsertOthers | src/ProtobjOutput.ts:302 | inserting a block changes no block of the chain but the one it follows |
| Framing.InsertedWf | src/ProtobjOutput.ts:302 | the inserted block has an array of its own, holds exactly its bytes, and keeps the chain well formed |
| Framing.InsertedLinks | src/ProtobjOutput.ts:302 | linking the block before it to the new block and the new block to the next completes the links, with the chain's ends kept |
| Framing.InsertedContent | src/ProtobjOutput.ts:302 | the new block's bytes sit between the content up to the block before it and the rest |
| Framing.InsertChain | src/ProtobjOutput.ts:302 | inserting into a chain linked everywhere but at k leaves it well formed and linked with the bytes between its two parts |
| Framing.CutThenInsert | src/ProtobjOutput.ts:324-342 | the cut and the insertion of the length block give a well-formed linked chain holding the bytes before the reserved byte, the new bytes, then the rest |
| Framing.CutChain | src/ProtobjOutput.ts:324-333 | after the cut the chain is well formed, linked but at the cut block, and its content divides at the reserved byte |
| Input.Prepend | src/ProtobjInput.ts:493-501 | an element put in front of the elements read so far, the cursor and errors passing through |
| Input.PrependTwice | src/ProtobjInput.ts:493-501 | putting two lists in front one after the other is putting their concatenation in front |
| Input.ByteAt | src/ProtobjInput.ts:294-296 | a byte read succeeds exactly when the offset is inside the array, and returns that byte with the offset one further |
| Input.Take | src/ProtobjInput.ts:147-176 | n bytes read one by one succeed exactly when they are all inside the array, and return them with the offset n further |
| Input.Varint32 | src/ProtobjInput.ts:112-145 | a successful varint read moves the offset forward by one to ten bytes and changes nothing else |
| Input.Varint64 | src/ProtobjInput.ts:224-287 | `readRawVarint64` from the cursor, checked against `limit`, the offset moved past the varint; Input.ProtobjInput.ReadRawVarint64 is proved to equal it and Varints.Varint64RoundTrip to read back every encoding |
| Input.Fixed16 | src/ProtobjInput.ts:482-491 | `readRawLittleEndian16`: two bytes taken in order as `b1 \| b2 << 8`; RoundTrips.I16ReadBack proves it reads back the low 16 bits from the two bytes writeI16 is meant to append |
| Input.Fixed32 | src/ProtobjInput.ts:163-176 | `readRawLittleEndian32`: four bytes as a signed word; RoundTrips.F32ReadBack proves it reads back writeF32's word |
| Input.Fixed64 | src/ProtobjInput.ts:147-160 | `readRawLittleEndian64`: eight bytes as a (low, high) pair; RoundTrips.F64ReadBack proves it reads back writeF64's pair |
| Input.Bool | src/ProtobjInput.ts:294-296 | `readBOOL_NoCheck`: one byte, true when it is not zero; RoundTrips.BoolReadBack proves it reads back writeBOOL |
| Input.S32 | src/ProtobjInput.ts:394-397 | `readS32_NoCheck`: the varint, zigzag-decoded to a signed word; RoundTrips.S32ReadBack proves it reads back writeS32 |
| Input.S64 | src/ProtobjInput.ts:404-410 | `readS64_NoCheck`: the 64-bit varint, zigzag-decoded on the pair; RoundTrips.S64ReadBack proves it reads back the intended writeS64 |
| Input.FieldNumber | src/ProtobjInput.ts:195-209 | `readFieldNumber`: 0 with `lastTag` cleared at the limit, otherwise packedLimit cleared, the tag read and recorded, and InvalidTag for field number 0; RoundTrips.FieldReadBack proves a written tag reads back as its field number |
| Input.PackedCheck | src/ProtobjInput.ts:211-222 | `checkIfPackedField`: only with packedLimit 0 and a length-delimited lastTag, a length read, NegativeSize below 0, MisreportedSize past the limit, otherwise packedLimit set to its end; PackedCheckOnce and RoundTrips.PackedReadBack are proved about it |
| Input.LengthDelimited | src/ProtobjInput.ts:183-193 | `readBytes`: a length, NegativeSize below 0, MisreportedSize past the limit, otherwise that many bytes with the offset moved past them; RoundTrips.BytesReadBack proves it reads back a frame's body |
| Input.MessageStart | src/ProtobjInput.ts:513-522 | `readMessageStart`: a length, NegativeSize below 0, otherwise the old limit returned and limit and packedLimit set to the message's end; MessageNesting and RoundTrips.MessageReadBack are proved about it |
| Input.MessageStop | src/ProtobjInput.ts:524-531 | `readMessageStop`: MisreportedSize unless the offset is at the limit, otherwise the saved limit restored and lastTag cleared; MessageNesting proves a start/stop pair restores the limit |
| Input.Skip | src/ProtobjInput.ts:76-110 | `skipField` as its error constructors intend: a value of the tag's wire type skipped, true for every wire type, NegativeSize and InvalidWireType raised (intended; Findings row 8); SkipMovesForward and the RoundTrips skip lemmas are proved about it |
| Input.SkipAsWritten | src/ProtobjInput.ts:76-110 | `skipField` as written: a negative length moves the offset back, FIXED16 answers false, an unknown wire type answers false without an error; the three SkipAsWritten lemmas and SkipAsWrittenAgrees compare it with Skip |
| Input.Slice | src/ProtobjInput.ts:192 | a slice inside the array is exactly those bytes |
| Input.PackedCheckOnce | src/ProtobjInput.ts:211-222 | once a packed field is entered, the checks of the element reads that follow leave the cursor alone |
| Input.MessageNesting | src/ProtobjInput.ts:513-531 | a nested message read exactly to its end restores the outer limit and clears the last tag; stopping short or past it is refused as a misreported size |
| Input.SkipMovesForward | src/ProtobjInput.ts:76-110 | a successful skip answers true and moves the offset forward |
| Input.SkipAsWrittenNegativeSize | src/ProtobjInput.ts:86-93 | as written, a length-delimited field of length -1 moves the offset back onto the last byte of the length and succeeds, where the intended skip refuses it as a negative size |
| Input.SkipAsWrittenFixed16 | src/ProtobjInput.ts:98-100 | as written, a FIXED16 value is skipped but the answer is false, where the intended skip answers true |
| Input.SkipAsWrittenUnknownWireType | src/ProtobjInput.ts:105-108 | as written, wire type 6 is answered false without an error, where the intended skip refuses it as an invalid wire type |
| Input.SkipAsWrittenAgrees | src/ProtobjInput.ts:76-110 | on every other wire type, and on a length that is not negative, the skip as written does exactly what the intended skip does |
| Input.Elements | src/ProtobjInput.ts:496-499 | the do-while loop reads at least one element, moves forward within the array, and ends at or past the packed limit |
| Input.Repeat | src/ProtobjInput.ts:309-312 | readArray's loop returns exactly the number of elements asked for |
| Input.Paired | src/ProtobjInput.ts:301 | a key read then a value read moves forward whenever both readers do |
| Input.MapOf | src/ProtobjInput.ts:298-305 | `new Map()` with `set(k, v)` for each pair read, in order; MapOfKeys and MapOfLastWins give its keys and its values |
| Input.MapOfKeys | src/ProtobjInput.ts:298-305 | a key is in the map read exactly when some pair read carries it |
| Input.MapOfLastWins | src/ProtobjInput.ts:298-305 | a key maps to the value of the last pair that carries it |
| Input.SetOf | src/ProtobjInput.ts:504-511 | `new Set()` with `add(x)` for each element read; SetOfSnoc proves adding one element in turn |
| Input.SetOfSnoc | src/ProtobjInput.ts:504-511 | adding an element to the set read so far gives the set of one more element |
| Input.ListOf | src/ProtobjInput.ts:493-501 | `readList`: the packed check, then the do-while element loop; Input.ProtobjInput.ReadList is proved to equal it and RoundTrips.ListReadBack to read back writeList |
| Input.ArrayOf | src/ProtobjInput.ts:307-314 | `readArray`: a count read with `readI32`, InvalidArrayLength for a negative count, then exactly that many elements; Input.ProtobjInput.ReadArray is proved to equal it and RoundTrips.ArrayReadBack to read back writeArray |
| Input.ProtobjInput.constructor | src/ProtobjInput.ts:36-40 | reading starts at offset and stops len bytes on, with no tag read and no packed field |
| Input.ProtobjInput.Reset | src/ProtobjInput.ts:43-51 | a negative length is refused; otherwise the window is len bytes from offset and the packed limit is cleared |
| Input.ProtobjInput.SetBounds | src/ProtobjInput.ts:53-58 | the window becomes offset to limit and the packed limit is cleared |
| Input.ProtobjInput.IsCurrentFieldPacked | src/ProtobjInput.ts:68-70 | `isCurrentFieldPacked`: packedLimit is not 0 and the offset is not at packedLimit |
| Input.ProtobjInput.ReadRawVarint32 | src/ProtobjInput.ts:112-145 | the result and the new offset are those of Varint32 on the array (intended; Findings row 2) |
| Input.ProtobjInput.DiscardUpper | src/ProtobjInput.ts:132-139 | the discard loop returns the word once a byte below 128 comes within five more bytes, past it, and fails as a malformed varint otherwise |
| Input.ProtobjInput.ReadRawVarint64 | src/ProtobjInput.ts:224-287 | the result and the new offset are those of Varint64 on the array |
| Input.ProtobjInput.LowWord | src/ProtobjInput.ts:229-245 | the fast route reads as LowFast specifies |
| Input.ProtobjInput.ShortTail | src/ProtobjInput.ts:246-263 | the short route reads as LowSlow specifies |
| Input.ProtobjInput.HighWord | src/ProtobjInput.ts:264-286 | the high-word loop reads as HighLoop specifies |
| Input.ProtobjInput.ReadRawLittleEndian16 | src/ProtobjInput.ts:482-491 | two bytes, the first the low one, as an unsigned 16-bit value |
| Input.ProtobjInput.ReadRawLittleEndian32 | src/ProtobjInput.ts:163-176 | four bytes, the first the lowest, as a signed 32-bit word |
| Input.ProtobjInput.ReadRawLittleEndian64 | src/ProtobjInput.ts:147-161 | eight bytes as a (low, high) pair, the low word first |
| Input.ProtobjInput.ReadI8NoCheck | src/ProtobjInput.ts:384-386 | the byte at the offset, the offset one further |
| Input.ProtobjInput.ReadBOOLNoCheck | src/ProtobjInput.ts:294-296 | true exactly when the byte at the offset is not zero |
| Input.ProtobjInput.ReadS32NoCheck | src/ProtobjInput.ts:394-397 | the zigzag decoding of the varint at the offset |
| Input.ProtobjInput.ReadS64NoCheck | src/ProtobjInput.ts:404-410 | the 64-bit zigzag decoding of the varint at the offset |
| Input.ProtobjInput.CheckIfPackedField | src/ProtobjInput.ts:211-222 | outside a packed field after a length-delimited tag, the length is read and the packed limit set past it; a negative or overlong length is refused; otherwise nothing changes |
| Input.ProtobjInput.ReadBOOL | src/ProtobjInput.ts:289-292 | the packed check, then a boolean byte |
| Input.ProtobjInput.ReadI8 | src/ProtobjInput.ts:379-382 | the packed check, then one byte |
| Input.ProtobjInput.ReadI16 | src/ProtobjInput.ts:352-355 | the packed check, then two little-endian bytes |
| Input.ProtobjInput.ReadI32 | src/ProtobjInput.ts:361-364 | the packed check, then a 32-bit varint |
| Input.ProtobjInput.ReadS32 | src/ProtobjInput.ts:388-392 | the packed check, then the zigzag decoding of a 32-bit varint |
| Input.ProtobjInput.ReadI64 | src/ProtobjInput.ts:370-373 | the packed check, then a 64-bit varint |
| Input.ProtobjInput.ReadS64 | src/ProtobjInput.ts:399-402 | the packed check, then the zigzag decoding of a 64-bit varint |
| Input.ProtobjInput.ReadF32 | src/ProtobjInput.ts:325-328 | the packed check, then four little-endian bytes |
| Input.ProtobjInput.ReadF64 | src/ProtobjInput.ts:334-337 | the packed check, then eight little-endian bytes |
| Input.ProtobjInput.ReadFieldNumber | src/ProtobjInput.ts:195-209 | 0 with the last tag cleared at the limit; otherwise the tag is read and kept, a field number of 0 is refused as an invalid tag, and the packed limit is cleared |
| Input.ProtobjInput.ReadBytes | src/ProtobjInput.ts:183-193 | a length, refused when negative or past the limit, then that many bytes with the offset past them |
| Input.ProtobjInput.ReadSTRING | src/ProtobjInput.ts:430-439 | the same bytes as readBytes, handed to the decoder |
| Input.ProtobjInput.ReadMessageStart | src/ProtobjInput.ts:513-522 | a length, refused when negative; the limit and the packed limit become the end of the message and the old limit is returned |
| Input.ProtobjInput.ReadMessageStop | src/ProtobjInput.ts:524-531 | refused as a misreported size unless the offset is at the limit; then the old limit is restored and the last tag cleared |
| Input.ProtobjInput.SkipField | src/ProtobjInput.ts:76-110 | skips the value of the tag's wire type as Skip specifies (intended; Findings row 8) |
| Input.ProtobjInput.HandleUnknownField | src/ProtobjInput.ts:178-181 | skips the field of the last tag read (intended; Findings row 8) |
| Input.ProtobjInput.Call | src/ProtobjInput.ts:500 | one element reader call moves the cursor as the reader specifies |
| Input.ProtobjInput.ReadList | src/ProtobjInput.ts:493-501 | the packed check, then the do-while loop, as ListOf specifies |
| Input.ProtobjInput.ElementLoop | src/ProtobjInput.ts:496-499 | the do-while loop returns the elements Elements specifies |
| Input.ProtobjInput.ReadSet | src/ProtobjInput.ts:504-511 | the set of the elements the list loop would read |
| Input.ProtobjInput.ReadMap | src/ProtobjInput.ts:298-305 | the map built from the key-value pairs the list loop would read, later pairs replacing earlier ones |
| Input.ProtobjInput.ReadArray | src/ProtobjInput.ts:307-314 | a count read with readI32, a negative count refused, then exactly that many elements |
| RoundTrips.AtSplit | src/ProtobjOutput.ts:39-43 | bytes written one after the other lie one after the other in the array read |
| RoundTrips.SignedOfUnsigned | src/ProtobjInput.ts:455-462 | an i32 survives the trip through its unsigned 32-bit pattern |
| RoundTrips.FieldReadBack | src/ProtobjInput.ts:195-209 | readFieldNumber reads a written tag back as the field number, keeps the tag as lastTag with its wire type, and clears the packed limit |
| RoundTrips.I32ReadBack | src/ProtobjInput.ts:361-368 | writeI32's bytes, the ten-byte form of a negative value included, read back as the value with the offset past them |
| RoundTrips.NegativeI32ReadBack | src/ProtobjInput.ts:112-145 | the ten bytes of a negative writeI32 decode to the value |
| RoundTrips.U32ReadBack | src/ProtobjInput.ts:455-462 | writeU32's varint reads back as the same 32 bits |
| RoundTrips.Varint32Read | src/ProtobjInput.ts:112-145 | a varint the decoder reads is read at the cursor with the offset past it |
| RoundTrips.S32ReadBack | src/ProtobjInput.ts:388-397 | writeS32's zigzag varint reads back as the value |
| RoundTrips.I64ReadBack | src/ProtobjInput.ts:370-377 | the intended writeI64's varint reads back as the same pair when it ends within the limit |
| RoundTrips.I64AsWrittenReadBack | src/ProtobjInput.ts:370-377 | as written, writeI64 of 3000000000 appends the byte 0, which readI64 reads back as 0, not as the value |
| RoundTrips.S64ReadBack | src/ProtobjInput.ts:399-410 | the intended writeS64's zigzag varint reads back as the same pair when it ends within the limit |
| RoundTrips.S64AsWrittenReadBack | src/ProtobjInput.ts:399-410 | as written, writeS64 of 2^30, whose zigzag image is 2^31 with a zero high word, appends the byte 0, which readS64 reads back as 0 |
| RoundTrips.BoolReadBack | src/ProtobjInput.ts:289-296 | writeBOOL's byte reads back as the value |
| RoundTrips.I8ReadBack | src/ProtobjInput.ts:379-386 | writeI8's byte reads back as the value's low eight bits, so a value in 0..255 comes back whole |
| RoundTrips.I16ReadBack | src/ProtobjInput.ts:352-359 | writeI16's two bytes read back, unsigned, as the low 16 bits, so a value in 0..65535 comes back whole |
| RoundTrips.F32ReadBack | src/ProtobjInput.ts:325-332 | writeF32's four bytes read back as the same 32 bits |
| RoundTrips.F64ReadBack | src/ProtobjInput.ts:334-341 | writeF64's eight bytes read back as the same pair |
| RoundTrips.FrameLength | src/ProtobjInput.ts:183-193 | a frame's length reads back, and the body follows it up to the frame's end within the limit |
| RoundTrips.BytesReadBack | src/ProtobjInput.ts:183-193 | a written frame reads back through readBytes as the body, with the offset at the frame's end |
| RoundTrips.MessageReadBack | src/ProtobjInput.ts:513-522 | readMessageStart on a written message frame makes its end the limit and the packed limit and returns the old limit |
| RoundTrips.PackedReadBack | src/ProtobjInput.ts:211-222 | the packed check on a written frame moves past the length and sets the packed limit to the frame's end |
| RoundTrips.SkipFrameReadBack | src/ProtobjInput.ts:86-93 | skipField passes a written length-delimited field whatever its body |
| RoundTrips.SkipVarintReadBack | src/ProtobjInput.ts:78-81 | skipField passes a written varint field whatever its value |
| RoundTrips.SkipVarint | src/ProtobjInput.ts:78-81 | outside a packed field, skipField passes a varint exactly as far as readI32 reads it |
| RoundTrips.SkipFixedReadBack | src/ProtobjInput.ts:82-104 | skipField passes exactly the width of a fixed-width field |
| RoundTrips.ConcatFront | src/ProtobjOutput.ts:234-240 | the bytes of a list are those of its first element followed by those of the rest |
| RoundTrips.JoinedConcat | src/ProtobjOutput.ts:234-240 | joining the element bytes from the front gives what writeList's loop appends |
| RoundTrips.FirstReadBack | src/ProtobjInput.ts:496-499 | the first of the written elements reads back, and the others lie right after it |
| RoundTrips.ElementsReadBack | src/ProtobjInput.ts:496-499 | the do-while loop reads back every element of a packed field filled by writeList's loop, in order, and stops at its end |
| RoundTrips.RepeatReadBack | src/ProtobjInput.ts:307-314 | readArray's loop reads back the elements writeArray's loop wrote, in order |
| RoundTrips.ListBodyReadBack | src/ProtobjInput.ts:493-501 | the packed check and the loop read back the frame writeList filled: the elements in order, the cursor at the frame's end |
| RoundTrips.ListOfOpened | src/ProtobjInput.ts:493-501 | once the packed check has opened the field, readList is its element loop |
| RoundTrips.FieldTagReadBack | src/ProtobjInput.ts:195-209 | readFieldNumber reads the tag of a written length-delimited field, and its frame follows |
| RoundTrips.ListReadBack | src/ProtobjInput.ts:493-501 | readFieldNumber and readList (or readSet) read back what writeList (or writeSet) wrote: the field number, then the elements in order |
| RoundTrips.ArrayCountReadBack | src/ProtobjInput.ts:307-308 | the count writeArray wrote at the head of its frame reads back through readI32, and the elements follow it up to the frame's end |
| RoundTrips.ArrayBodyReadBack | src/ProtobjInput.ts:307-314 | readArray reads back the frame writeArray filled: the count written, then the elements in order, none included |
| RoundTrips.CountReadBack | src/ProtobjInput.ts:361-364 | once the packed check has opened the field, the count reads back as the i32 writeArray wrote |
| RoundTrips.ArrayOfCounted | src/ProtobjInput.ts:307-314 | once readArray has a non-negative count, what follows is exactly its element loop |
| RoundTrips.ArrayReadBack | src/ProtobjInput.ts:307-314 | readFieldNumber and readArray read back what writeArray wrote: the field number, then the elements in order |
| RoundTrips.PairedDecodes | src/ProtobjInput.ts:298-305 | a key then a value, written one after the other, read back as the pair |
| RoundTrips.PairEncodings | src/ProtobjOutput.ts:345-354 | one encoding per kept entry, each the key's bytes followed by the value's |
| RoundTrips.KeptPairsConcat | src/ProtobjOutput.ts:345-354 | writeMap's bytes are the kept pairs one after another |
| RoundTrips.MapReadBack | src/ProtobjInput.ts:298-305 | readFieldNumber and readMap's pair reads read back what writeMap wrote: the kept pairs in order, built into a map where a later key replaces an earlier one |

## Left out

- Floating point: `floatToRawIntBits`, `intBitsToFloat`, `doubleToRawLongBits` and `longBitsToDouble` are numeric code on `Math.log`, `pow` and `round`; `writeFLOAT`/`readFLOAT` and `writeDOUBLE`/`readDOUBLE` are modelled as the transport of the 32- or 64-bit raw word (`Output.WriteF32`, `Output.WriteF64`, `Input.ProtobjInput.ReadF32`, `Input.ProtobjInput.ReadF64`).
- The `long` library is foreign code: a 64-bit value is a `(low, high)` pair of unsigned words. A Long itself keeps `low | 0`, a signed word, and `writeVarInt64` as written mishandles a negative `low` when `high` is 0 (Findings row 9); the writers below use the intended writer.
- WriteSinks.LowGroups: takes the low word as unsigned, the intended reading; the source's path where a signed `low` of 2^31 or more skips the loop and stores one byte is modelled by `Varint64AsWritten` and exhibited by `Varint64AsWrittenLosesHighBit`, not by this method.
- WriteSinks.WriteVarInt64: promises the varint of the unsigned value for every pair; as written, a zero high word with a low word of 2^31 or more gives one byte (Findings row 9).
- Output.WriteI64: promises the intended varint; as written, values in [2^31, 2^32) become one byte (Findings row 9).
- Output.WriteI64Packed: the same as Output.WriteI64.
- Output.WriteS64: promises the intended varint of the zigzag image; as written, an image with a zero high word and a low word of 2^31 or more becomes one byte, as for 2^30 (Findings row 9).
- Output.WriteS64Packed: the same as Output.WriteS64.
- RoundTrips.I64ReadBack: the round trip is of the intended writer; the as-written writer's loss is `I64AsWrittenReadBack`.
- RoundTrips.S64ReadBack: the round trip is of the intended writer; the as-written writer's loss is `S64AsWrittenReadBack`.
- Input.ProtobjInput.ReadSTRING: returns the byte range handed to the UTF-8 decoder, not the decoded string, because that decoder comes from a library outside this code.
- A read past the end of the array yields `undefined` in JavaScript and goes on with a garbage value; the model reports it as `TruncatedMessage` instead.
- The state after a thrown error is not specified: a method's contract says which error is raised, not where the cursor was left.
- Element readers and writers of the collection methods are abstract: a writer appends a byte string and a reader is a function of the array and the cursor. JavaScript `Map`/`Set` identity semantics and iteration order are given as a sequence of entries or elements in insertion order; `writeMap`'s truthiness test `v && k` is a pair of flags on each entry.
- Input.ProtobjInput.ReadList: requires an element reader that moves the offset forward on success, without which the source's do-while loop need not end; ReadSet, ReadMap and ElementLoop require the same.
- RoundTrips.ListReadBack: requires at least one element, because readList's do-while reads one element even when writeList wrote an empty frame, so an empty list does not read back; ElementsReadBack, ListBodyReadBack and MapReadBack require the same.
- Session.WriteSession.constructor: requires an empty, unlinked head block and a `nextBufferSize` of at least 8 (so a fresh block holds any fixed-width value); the source accepts any block and any size.
- `writeByteArray`'s zero-copy branch keeps a reference to the caller's array; the model copies its value at the call, so a later change to that array by the caller, which the source would show in the output, is not modelled.
- StringSerializers.WriteUTF8Slow: `writeUTF8_8` has a branch that reuses `lb.next` when a block already follows the current one. Under the intended link direction (Findings row 1) the current block is always the last, so the branch is unreachable and is not modelled. With the link as written, every grown block's `next` is its predecessor, so the branch is reached whenever the slow path fills a grown block, and it writes into the previous block; that behaviour is not modelled.
- Output.WriteMessage: a task's calls are modelled only as `writeI32_Packed` counts and byte strings appended through `writeByteArray`, which is what the collection writers run. A task that itself calls `writeMessage`, a string writer or a tagged scalar writer is not verified: a nested `writeMessage` can cut the outer tag's block and insert a block after it, which the append relation the proof uses does not allow.
- Output.RunStep: covers the two kinds of call above only, for the reason given for Output.WriteMessage.
- The `WriteSink` interface and its `WriteSink_BUFFERED.INSTANCE` singleton: there is one implementation and the model calls it directly.
- `ProtobjError` messages: only the kind of each error is modelled; `reset`'s plain `Error` and `new Array`'s `RangeError` are two more kinds.
- JavaScript number limits: sizes, offsets and lengths are unbounded integers, so what happens once a session passes 2^31 bytes, or an allocation fails, is not modelled; the round-trip lemmas for frames require a body below 2^31 bytes.
- Trivial getters (`currentOffset`, `currentLimit`, `getLastTag`) are the class's `State()`; the `_NoCheck` readers not listed in the table are the raw reads they call.
- `src/Input.ts`, `src/Output.ts`, `src/Scheme.ts` and the root `index.ts` are declarations and re-exports only and are not part of this model.

## Findings

| source | as written | input that shows it | evidently intended | confidence | as-written member | corrected member |
|---|---|---|---|---|---|---|
| src/LinkedBuffer.ts:15-16 | the new block's `next` is set to the append target, so a grown block points back and is never reached from the head | a full one-byte head holding 7, grown by a block holding 9: the walk from the head copies only 7 | `appendTarget.next = this`, as the callers' "grow" and "insert between" and `toByteArray`'s walk assume | high; not executed | LinkedBuffers.LinkDirectionAsWritten | LinkedBuffers.NewLinkedBuffer |
| src/ProtobjInput.ts:114-116 | `tmp >= 0` on a `Uint8Array` byte always holds, so the first byte is returned | 300, written as AC 02, reads as 0xAC with the offset after one byte | the signed-byte test: go on while the byte is 128 or more | high; not executed | Varints.ReadRawVarint32AsWrittenLosesGroups | Varints.Varint32RoundTrip |
| src/IntSerializer.ts:9-11 | only `(value >>> 8) & 0xFF` is stored, at `offset`; the byte after it keeps what it held | 0x0102 into two zero bytes leaves 01 00, which readRawLittleEndian16 assembles as 0x0001 | two bytes, the low one first, as `writeInt32LE` does | high; not executed | IntSerializer.WriteInt16LEAsWrittenLosesLowByte | IntSerializer.LE16RoundTrip |
| src/ProtobjOutput.ts:88-89 | a negative value is handed to `writeVarInt64`, which reads `.high` and `.low` of a plain number, both undefined, and stores a single 0 | writeI32 of -1 appends the tag and 00, which reads back as 0 | the value sign-extended to 64 bits, ten bytes that read back as the value | high; not executed | Output.I32AsWrittenLosesSign | Output.I32RoundTrip |
| src/StringSerializer.ts:13-25 | the band thresholds use floating division, 128/3+1 = 43.67 and so on | 43 units of U+0800 take the one-byte path; the 129-byte payload length is stored as the single byte 0x81 | the integer quotients 43, 5462, 699051 and 89478486, so the prefix is the varint of the length | high; not executed | StringSerializers.RealThresholdsOverflow | StringSerializers.DelimitedVarint |
| src/extension.ts:96-116 | the surrogate bounds are `parseInt` of a one-character string, NaN, so both surrogate tests are false for every unit | U+1F600 (D83D DE00) is written as the six bytes ED A0 BD ED B8 80 (CESU-8) | the bounds 0xD800..0xDBFF and 0xDC00..0xDFFF, and the four bytes F0 9F 98 80 of section 3 of RFC 3629 | high; not executed | Utf8.SurrogatePairAsWritten | Utf8.SurrogatePairIntended |
| src/ProtobjOutput.ts:256 | `bytes[i / 8]` is a fractional index unless 8 divides i, and a typed array ignores such a store | [false, true] packs to [0] | the integer index, so [false, true] packs to [2] | high; not executed | OutputCollections.PackAsWrittenDropsBits | OutputCollections.PackedBit |
| src/ProtobjInput.ts:86-108 | the negative-size and invalid-wire-type errors are built but not thrown, and FIXED16 answers false after skipping | a length of -1 moves the offset back onto the length's last byte and reports success | throw both errors, and answer true for FIXED16 like every other wire type | high; not executed | Input.SkipAsWrittenNegativeSize | Input.SkipMovesForward |
| src/WriteSink.ts:170 | a Long keeps `low` as a signed word; when `high` is 0 and `low` is 2^31 or more, `while (low > 127)` sees a negative number and does not run, and the last store keeps `ToUint8(low)` | writeS64 of 2^30 (zigzag image 2^31, high word 0) and writeI64 of 3000000000 each append the single byte 0, which reads back as 0 | the unsigned low word (`low >>> 0`), so every value gets its full varint | high; not executed | WriteSinks.Varint64AsWrittenLosesHighBit | WriteSinks.WriteVarInt64 |
