/**
 * The field writers of `ProtobjOutput` (src/ProtobjOutput.ts). A tagged
 * write appends the varint of `makeTag(fieldNumber, wireType)` and then the
 * value; its `_Packed` twin appends the value alone. `writeMessage` frames
 * the bytes a task writes with their length, and the collection writers
 * run their elements inside such a frame.
 *
 * Every writer takes a valid session and leaves it valid with exactly its
 * bytes appended to `Contents()` (`Wrote`).
 */
module Output {
  import opened Bytes
  import opened Wrappers
  import opened ProtobjErrors
  import opened WireFormat
  import opened ZigZag
  import opened Varints
  import IntSerializer
  import opened Extension
  import opened Utf8
  import opened LinkedBuffers
  import opened BlockEdits
  import opened Framing
  import opened Session
  import opened WriteSinks
  import opened StringSerializers

  /** The effect of a writer: `bytes` appended to the contents, the head and block size kept. */
  twostate predicate Wrote(s: WriteSession, bytes: seq<byte>)
    reads s
  {
    old(s.Valid()) && s.Valid() && s.Contents() == old(s.Contents()) + bytes
    && s.head == old(s.head) && s.nextBufferSize == old(s.nextBufferSize)
  }

  /** The bytes of a tag: the varint of `makeTag(fieldNumber, wireType)` as an unsigned word. */
  function TagBytes(fieldNumber: int, wireType: int): seq<byte>
    requires 0 <= wireType <= TAG_TYPE_MASK
  {
    Varint(ToU32(MakeTag(fieldNumber, wireType)))
  }

  /** `value ? 0x01 : 0x00`. */
  function BoolByte(value: bool): byte
  {
    if value then 1 else 0
  }

  /**
   * What `writeI32` appends for `value`: a non-negative value as a varint,
   * a negative one sign-extended to 64 bits (as `Long.fromInt` does), which
   * takes ten bytes.
   */
  function I32Bytes(value: int): seq<byte>
  {
    if value < 0 then Varint(Pair(ToU32(value), 0xFFFF_FFFF).Value()) else Varint(ToU32(value))
  }

  /**
   * `writeI32` as written: a negative value is handed to `writeVarInt64`,
   * which reads `.high` and `.low` of a plain number. Both are undefined, so
   * neither loop runs and the final store writes `undefined`, that is 0.
   */
  function I32BytesAsWritten(value: int): seq<byte>
  {
    if value < 0 then [0] else Varint(ToU32(value))
  }

  lemma SignExtended(value: i32)
    requires value < 0
    ensures Pair(ToU32(value), 0xFFFF_FFFF).Value() == TWO_32 * TWO_32 + value
  {
    assert ToU32(value) == value + TWO_32;
  }

  /** The tag reads back, and with it its field number and wire type. */
  lemma TagReadBack(fieldNumber: int, wireType: int, rest: seq<byte>)
    requires 0 <= wireType <= TAG_TYPE_MASK && 0 <= fieldNumber < FIELD_NUMBER_BOUND
    ensures var t := TagBytes(fieldNumber, wireType);
      ReadRawVarint32(t + rest, 0) == Ok((MakeTag(fieldNumber, wireType), |t|))
      && GetTagFieldNumber(MakeTag(fieldNumber, wireType)) == fieldNumber
      && GetTagWireType(MakeTag(fieldNumber, wireType)) == wireType
  {
    var t := TagBytes(fieldNumber, wireType);
    var u := ToU32(MakeTag(fieldNumber, wireType));
    assert (t + rest)[..|t|] == t;
    Varint32RoundTrip(t + rest, 0, u);
    FieldNumberRoundTrip(fieldNumber, wireType);
    WireTypeRoundTrip(fieldNumber, wireType);
  }

  /** Whatever `writeI32` appends, `readRawVarint32` gives the value back, sign included. */
  lemma I32RoundTrip(value: i32, rest: seq<byte>)
    ensures ReadRawVarint32(I32Bytes(value) + rest, 0) == Ok((value, |I32Bytes(value)|))
    ensures |I32Bytes(value)| == if value < 0 then 10 else |Varint(value)|
  {
    var b := I32Bytes(value);
    assert (b + rest)[..|b|] == b;
    if value < 0 {
      SignExtended(value);
      SignExtendedRoundTrip(value);
      ReadRawVarint32Varint(b + rest, 0, TWO_32 * TWO_32 + value);
      ToI32Shift(value, TWO_32);
    } else {
      Varint32RoundTrip(b + rest, 0, value);
    }
  }

  /** As written, every negative value reads back as 0. */
  lemma I32AsWrittenLosesSign(value: i32, rest: seq<byte>)
    requires value < 0
    ensures ReadRawVarint32(I32BytesAsWritten(value) + rest, 0) == Ok((0, 1))
    ensures ReadRawVarint32(I32Bytes(value) + rest, 0) == Ok((value, 10))
  {
    var b := I32BytesAsWritten(value);
    assert (b + rest)[..1] == Varint(0);
    ReadRawVarint32Varint(b + rest, 0, 0);
    I32RoundTrip(value, rest);
  }

  // ---------------------------------------------------------------------
  // Handing the extended chain back to the session.
  // ---------------------------------------------------------------------

  /**
   * `this.tail = <the block the sink returned>`: the session takes over the
   * chain the sink calls extended from its old one.
   */
  method Commit(s: WriteSession, lb: nat, ghost c: seq<nat>, ghost a0: Arena, ghost data: seq<byte>)
    requires Ready(s, c, lb) && Appended(a0, s.arena, s.chain, c, data)
    requires Linked(a0, s.chain) && BlockOK(a0, s.head) && s.chain[0] == s.head
    requires s.size == Used(a0, s.chain) + |data|
    modifies s
    ensures s.Valid() && s.Contents() == Content(a0, old(s.chain)) + data
    ensures s.arena == old(s.arena) && s.head == old(s.head) && s.nextBufferSize == old(s.nextBufferSize)
  {
    AppendedLinked(a0, s.arena, s.chain, c, data);
    s.tail := lb;
    s.chain := c;
  }

  /** `Commit` after two sink calls, the tag and then the value. */
  method Close(s: WriteSession, lb: nat, ghost c: seq<nat>, ghost a0: Arena, ghost a1: Arena, ghost c1: seq<nat>,
               ghost d1: seq<byte>, ghost d2: seq<byte>)
    requires Ready(s, c, lb) && Appended(a0, a1, s.chain, c1, d1) && Appended(a1, s.arena, c1, c, d2)
    requires Linked(a0, s.chain) && BlockOK(a0, s.head) && s.chain[0] == s.head
    requires s.size == Used(a0, s.chain) + |d1| + |d2|
    modifies s
    ensures s.Valid() && s.Contents() == Content(a0, old(s.chain)) + (d1 + d2)
    ensures s.arena == old(s.arena) && s.head == old(s.head) && s.nextBufferSize == old(s.nextBufferSize)
  {
    AppendedTrans(a0, a1, s.arena, s.chain, c1, c, d1, d2);
    Commit(s, lb, c, a0, d1 + d2);
  }

  /** `this.sink.writeVarInt32(makeTag(fieldNumber, wireType), this, this.tail)`. */
  method WriteTag(fieldNumber: int, wireType: int, s: WriteSession) returns (lb: nat, ghost c: seq<nat>)
    requires s.Valid() && 0 <= wireType <= TAG_TYPE_MASK
    modifies s
    ensures Ready(s, c, lb) && Appended(old(s.arena), s.arena, s.chain, c, TagBytes(fieldNumber, wireType))
    ensures s.size == old(s.size) + |TagBytes(fieldNumber, wireType)| && Kept(s)
  {
    lb, c := WriteVarInt32(MakeTag(fieldNumber, wireType), s, s.tail, s.chain);
  }

  // ---------------------------------------------------------------------
  // Scalars.
  // ---------------------------------------------------------------------

  method WriteBOOL(s: WriteSession, fieldNumber: int, value: bool)
    requires s.Valid()
    modifies s
    ensures Wrote(s, TagBytes(fieldNumber, WIRETYPE_FIXED8) + [BoolByte(value)])
  {
    ghost var a0 := s.arena;
    var lb, c := WriteTag(fieldNumber, WIRETYPE_FIXED8, s);
    ghost var a1, c1 := s.arena, c;
    lb, c := WriteByte(if value then 1 else 0, s, lb, c);
    Close(s, lb, c, a0, a1, c1, TagBytes(fieldNumber, WIRETYPE_FIXED8), [BoolByte(value)]);
  }

  method WriteBOOLPacked(s: WriteSession, value: bool)
    requires s.Valid()
    modifies s
    ensures Wrote(s, [BoolByte(value)])
  {
    var lb, c := WriteByte(if value then 1 else 0, s, s.tail, s.chain);
    Commit(s, lb, c, old(s.arena), [BoolByte(value)]);
  }

  /** `writeI8` and `writeU8`: a Uint8Array store keeps the low eight bits. */
  method WriteI8(s: WriteSession, fieldNumber: int, value: int)
    requires s.Valid()
    modifies s
    ensures Wrote(s, TagBytes(fieldNumber, WIRETYPE_FIXED8) + [ToByte(value)])
  {
    ghost var a0 := s.arena;
    var lb, c := WriteTag(fieldNumber, WIRETYPE_FIXED8, s);
    ghost var a1, c1 := s.arena, c;
    lb, c := WriteByte(value, s, lb, c);
    Close(s, lb, c, a0, a1, c1, TagBytes(fieldNumber, WIRETYPE_FIXED8), [ToByte(value)]);
  }

  method WriteI8Packed(s: WriteSession, value: int)
    requires s.Valid()
    modifies s
    ensures Wrote(s, [ToByte(value)])
  {
    var lb, c := WriteByte(value, s, s.tail, s.chain);
    Commit(s, lb, c, old(s.arena), [ToByte(value)]);
  }

  /** `writeI16` and `writeU16`: two little-endian bytes. */
  method WriteI16(s: WriteSession, fieldNumber: int, value: int)
    requires s.Valid()
    modifies s
    ensures Wrote(s, TagBytes(fieldNumber, WIRETYPE_FIXED16) + IntSerializer.LE16(value))
  {
    ghost var a0 := s.arena;
    var lb, c := WriteTag(fieldNumber, WIRETYPE_FIXED16, s);
    ghost var a1, c1 := s.arena, c;
    lb, c := WriteInt16LE(value, s, lb, c);
    Close(s, lb, c, a0, a1, c1, TagBytes(fieldNumber, WIRETYPE_FIXED16), IntSerializer.LE16(value));
  }

  method WriteI16Packed(s: WriteSession, value: int)
    requires s.Valid()
    modifies s
    ensures Wrote(s, IntSerializer.LE16(value))
  {
    var lb, c := WriteInt16LE(value, s, s.tail, s.chain);
    Commit(s, lb, c, old(s.arena), IntSerializer.LE16(value));
  }

  /** `writeI32`, with a negative value sign-extended (see `I32Bytes`). */
  method WriteI32(s: WriteSession, fieldNumber: int, value: int)
    requires s.Valid()
    modifies s
    ensures Wrote(s, TagBytes(fieldNumber, WIRETYPE_VARINT) + I32Bytes(value))
  {
    ghost var a0 := s.arena;
    var lb, c := WriteTag(fieldNumber, WIRETYPE_VARINT, s);
    ghost var a1, c1 := s.arena, c;
    lb, c := WriteI32Value(value, s, lb, c);
    Close(s, lb, c, a0, a1, c1, TagBytes(fieldNumber, WIRETYPE_VARINT), I32Bytes(value));
  }

  method WriteI32Packed(s: WriteSession, value: int)
    requires s.Valid()
    modifies s
    ensures Wrote(s, I32Bytes(value))
  {
    var lb, c := WriteI32Value(value, s, s.tail, s.chain);
    Commit(s, lb, c, old(s.arena), I32Bytes(value));
  }

  /** The sink call both `writeI32` forms make for the value. */
  method WriteI32Value(value: int, s: WriteSession, lb: nat, ghost c: seq<nat>) returns (lb': nat, ghost c': seq<nat>)
    requires Ready(s, c, lb)
    modifies s
    ensures Ready(s, c', lb') && Appended(old(s.arena), s.arena, c, c', I32Bytes(value))
    ensures s.size == old(s.size) + |I32Bytes(value)| && Kept(s)
  {
    if value < 0 {
      lb', c' := WriteVarInt64(Pair(ToU32(value), 0xFFFF_FFFF), s, lb, c);
    } else {
      lb', c' := WriteVarInt32(value, s, lb, c);
    }
  }

  method WriteU32(s: WriteSession, fieldNumber: int, value: int)
    requires s.Valid()
    modifies s
    ensures Wrote(s, TagBytes(fieldNumber, WIRETYPE_VARINT) + Varint(ToU32(value)))
  {
    ghost var a0 := s.arena;
    var lb, c := WriteTag(fieldNumber, WIRETYPE_VARINT, s);
    ghost var a1, c1 := s.arena, c;
    lb, c := WriteVarInt32(value, s, lb, c);
    Close(s, lb, c, a0, a1, c1, TagBytes(fieldNumber, WIRETYPE_VARINT), Varint(ToU32(value)));
  }

  method WriteU32Packed(s: WriteSession, value: int)
    requires s.Valid()
    modifies s
    ensures Wrote(s, Varint(ToU32(value)))
  {
    var lb, c := WriteVarInt32(value, s, s.tail, s.chain);
    Commit(s, lb, c, old(s.arena), Varint(ToU32(value)));
  }

  /** `writeS32`: the zigzag encoding of the value, as a varint. */
  method WriteS32(s: WriteSession, fieldNumber: int, value: int)
    requires s.Valid()
    modifies s
    ensures Wrote(s, TagBytes(fieldNumber, WIRETYPE_VARINT) + Varint(EncodeZigZag32(ToU32(value))))
  {
    ghost var a0 := s.arena;
    var lb, c := WriteTag(fieldNumber, WIRETYPE_VARINT, s);
    ghost var a1, c1 := s.arena, c;
    lb, c := WriteVarInt32(EncodeZigZag32(ToU32(value)), s, lb, c);
    Close(s, lb, c, a0, a1, c1, TagBytes(fieldNumber, WIRETYPE_VARINT), Varint(EncodeZigZag32(ToU32(value))));
  }

  method WriteS32Packed(s: WriteSession, value: int)
    requires s.Valid()
    modifies s
    ensures Wrote(s, Varint(EncodeZigZag32(ToU32(value))))
  {
    var lb, c := WriteVarInt32(EncodeZigZag32(ToU32(value)), s, s.tail, s.chain);
    Commit(s, lb, c, old(s.arena), Varint(EncodeZigZag32(ToU32(value))));
  }

  /**
   * `writeF32`, `writeSF32` and `writeFLOAT`: four little-endian bytes of
   * a 32-bit word (for `writeFLOAT`, the word `floatToRawIntBits` gives).
   */
  method WriteF32(s: WriteSession, fieldNumber: int, value: int)
    requires s.Valid()
    modifies s
    ensures Wrote(s, TagBytes(fieldNumber, WIRETYPE_FIXED32) + IntSerializer.LE32(value))
  {
    ghost var a0 := s.arena;
    var lb, c := WriteTag(fieldNumber, WIRETYPE_FIXED32, s);
    ghost var a1, c1 := s.arena, c;
    lb, c := WriteInt32LE(value, s, lb, c);
    Close(s, lb, c, a0, a1, c1, TagBytes(fieldNumber, WIRETYPE_FIXED32), IntSerializer.LE32(value));
  }

  method WriteF32Packed(s: WriteSession, value: int)
    requires s.Valid()
    modifies s
    ensures Wrote(s, IntSerializer.LE32(value))
  {
    var lb, c := WriteInt32LE(value, s, s.tail, s.chain);
    Commit(s, lb, c, old(s.arena), IntSerializer.LE32(value));
  }

  /** `writeI64` and `writeU64`: the 64-bit word as a varint. */
  method WriteI64(s: WriteSession, fieldNumber: int, value: Pair)
    requires s.Valid()
    modifies s
    ensures Wrote(s, TagBytes(fieldNumber, WIRETYPE_VARINT) + Varint(value.Value()))
  {
    ghost var a0 := s.arena;
    var lb, c := WriteTag(fieldNumber, WIRETYPE_VARINT, s);
    ghost var a1, c1 := s.arena, c;
    lb, c := WriteVarInt64(value, s, lb, c);
    Close(s, lb, c, a0, a1, c1, TagBytes(fieldNumber, WIRETYPE_VARINT), Varint(value.Value()));
  }

  method WriteI64Packed(s: WriteSession, value: Pair)
    requires s.Valid()
    modifies s
    ensures Wrote(s, Varint(value.Value()))
  {
    var lb, c := WriteVarInt64(value, s, s.tail, s.chain);
    Commit(s, lb, c, old(s.arena), Varint(value.Value()));
  }

  /** `writeS64`: the zigzag encoding of the 64-bit word, as a varint. */
  method WriteS64(s: WriteSession, fieldNumber: int, value: Pair)
    requires s.Valid()
    modifies s
    ensures Wrote(s, TagBytes(fieldNumber, WIRETYPE_VARINT) + Varint(EncodeZigZag64(value).Value()))
  {
    ghost var a0 := s.arena;
    var lb, c := WriteTag(fieldNumber, WIRETYPE_VARINT, s);
    ghost var a1, c1 := s.arena, c;
    lb, c := WriteVarInt64(EncodeZigZag64(value), s, lb, c);
    Close(s, lb, c, a0, a1, c1, TagBytes(fieldNumber, WIRETYPE_VARINT), Varint(EncodeZigZag64(value).Value()));
  }

  method WriteS64Packed(s: WriteSession, value: Pair)
    requires s.Valid()
    modifies s
    ensures Wrote(s, Varint(EncodeZigZag64(value).Value()))
  {
    var lb, c := WriteVarInt64(EncodeZigZag64(value), s, s.tail, s.chain);
    Commit(s, lb, c, old(s.arena), Varint(EncodeZigZag64(value).Value()));
  }

  /**
   * `writeF64`, `writeSF64` and `writeDOUBLE`: eight little-endian bytes of
   * a 64-bit word (for `writeDOUBLE`, the word `doubleToRawLongBits` gives).
   */
  method WriteF64(s: WriteSession, fieldNumber: int, value: Pair)
    requires s.Valid()
    modifies s
    ensures Wrote(s, TagBytes(fieldNumber, WIRETYPE_FIXED64) + IntSerializer.LE64(value))
  {
    ghost var a0 := s.arena;
    var lb, c := WriteTag(fieldNumber, WIRETYPE_FIXED64, s);
    ghost var a1, c1 := s.arena, c;
    lb, c := WriteInt64LE(value, s, lb, c);
    Close(s, lb, c, a0, a1, c1, TagBytes(fieldNumber, WIRETYPE_FIXED64), IntSerializer.LE64(value));
  }

  method WriteF64Packed(s: WriteSession, value: Pair)
    requires s.Valid()
    modifies s
    ensures Wrote(s, IntSerializer.LE64(value))
  {
    var lb, c := WriteInt64LE(value, s, s.tail, s.chain);
    Commit(s, lb, c, old(s.arena), IntSerializer.LE64(value));
  }

  /** `writeSTRING`: the UTF-8 bytes behind their varint length. */
  method WriteSTRING(s: WriteSession, fieldNumber: int, value: seq<Unit>)
    requires s.Valid()
    modifies s
    ensures Wrote(s, TagBytes(fieldNumber, WIRETYPE_LENGTH_DELIMITED) + Delimited(IntegerDivision, value))
  {
    ghost var a0 := s.arena;
    var lb, c := WriteTag(fieldNumber, WIRETYPE_LENGTH_DELIMITED, s);
    ghost var a1, c1 := s.arena, c;
    lb, c := WriteUTF8VarDelimited(IntegerDivision, value, s, lb, c);
    Close(s, lb, c, a0, a1, c1, TagBytes(fieldNumber, WIRETYPE_LENGTH_DELIMITED), Delimited(IntegerDivision, value));
  }

  method WriteSTRINGPacked(s: WriteSession, value: seq<Unit>)
    requires s.Valid()
    modifies s
    ensures Wrote(s, Delimited(IntegerDivision, value))
  {
    var lb, c := WriteUTF8VarDelimited(IntegerDivision, value, s, s.tail, s.chain);
    Commit(s, lb, c, old(s.arena), Delimited(IntegerDivision, value));
  }

  // ---------------------------------------------------------------------
  // Raw varints: into the chain and into a byte array.
  // ---------------------------------------------------------------------

  /**
   * `writeRawVarInt32`: a new block when the varint does not fit what is
   * left of `lb`, then its bytes stored at the offset.
   */
  method WriteRawVarInt32(value: int, s: WriteSession, lb: nat, ghost c: seq<nat>) returns (lb': nat, ghost c': seq<nat>)
    requires Ready(s, c, lb)
    modifies s
    ensures Ready(s, c', lb') && Appended(old(s.arena), s.arena, c, c', Varint(ToU32(value)))
    ensures s.size == old(s.size) + |Varint(ToU32(value))| && Kept(s)
  {
    ghost var a0 := s.arena;
    var size := ComputeRawVarint32Size(value);
    lb', c' := lb, c;
    if s.arena.blocks[lb].offset + size > Capacity(s.arena, lb) {
      lb', c' := GrowBlock(s, lb, c);
    } else {
      AppendedRefl(s.arena, c);
    }
    ghost var a1 := s.arena;
    var offset := s.arena.blocks[lb'].offset;
    ghost var reserved := ReserveAt(s, lb', c', size);
    s.size := s.size + size;
    ghost var a2 := s.arena;
    WriteGroups(s, lb', offset, ToU32(value), size);
    GroupsVarint(ToU32(value), size);
    ReservedFilled(a0, a1, a2, c, c', reserved, offset, Varint(ToU32(value)));
  }

  /** Reserving bytes after nothing was appended, then filling them in with `g`, appends `g`. */
  lemma ReservedFilled(a0: Arena, a1: Arena, a2: Arena, c: seq<nat>, c': seq<nat>, reserved: seq<byte>,
                       q: nat, g: seq<byte>)
    requires Appended(a0, a1, c, c', []) && Appended(a1, a2, c', c', reserved) && |g| == |reserved|
    requires a2.blocks[c'[|c'| - 1]].start <= q && a2.blocks[c'[|c'| - 1]].offset == q + |g|
    ensures BlockOK(a2, c'[|c'| - 1]) && Appended(a0, Patch(a2, c'[|c'| - 1], q, g), c, c', g)
  {
    var p := c'[|c'| - 1];
    AppendedTrans(a0, a1, a2, c, c', c', [], reserved);
    assert [] + reserved == reserved;
    AppendedRefl(a2, c');
    PatchInPlace(a2, p, q, g);
    FinishAppended(a0, a2, a2, Patch(a2, p, q, g), c, c', c', reserved, [], q, g);
    assert g + [] == g;
  }

  /** `writeRawVarInt32_byteArray`: the varint of the value stored into `buf` from `offset` on. */
  method WriteRawVarInt32ByteArray(value: int, buf: array<byte>, offset: nat)
    requires offset + |Varint(ToU32(value))| <= buf.Length
    modifies buf
    ensures buf[..] == old(buf[..offset]) + Varint(ToU32(value)) + old(buf[offset + |Varint(ToU32(value))|..])
  {
    ghost var b0 := buf[..];
    var v: u32 := ToU32(value);
    var i := offset;
    ghost var done: seq<byte> := [];
    while true
      invariant offset <= i && i - offset == |done| && done + Varint(v) == Varint(ToU32(value))
      invariant i + |Varint(v)| <= buf.Length
      invariant buf[..] == b0[..offset] + done + b0[i..]
      decreases v
    {
      if v < 128 {
        StoreAt(buf, b0, offset, done, i, v);
        return;
      }
      var x: byte := v % 128 + 128;
      StoreAt(buf, b0, offset, done, i, x);
      VarintPush(v, x, done, Varint(ToU32(value)));
      done := done + [x];
      i := i + 1;
      v := v / 128;
    }
  }

  /** `buf[i] = x`, just after the bytes `done` written from `offset` on. */
  method StoreAt(buf: array<byte>, ghost b0: seq<byte>, ghost offset: nat, ghost done: seq<byte>, i: nat, x: byte)
    requires offset + |done| == i < buf.Length == |b0| && buf[..] == b0[..offset] + done + b0[i..]
    modifies buf
    ensures buf[..] == b0[..offset] + (done + [x]) + b0[i + 1..]
  {
    ghost var before := buf[..];
    buf[i] := x;
    assert buf[..] == before[i := x];
    assert b0[i..] == [b0[i]] + b0[i + 1..];
  }

  // ---------------------------------------------------------------------
  // Tasks: what runs inside writeMessage.
  // ---------------------------------------------------------------------

  /**
   * A step of a `writeMessage` task. The element writers are callbacks in
   * the source; each element here is the bytes its writer appends, handed
   * to `writeByteArray` (`Raw`). `Count` is the `writeI32_Packed(length)`
   * that `writeArray` and `writeBOOLArray` run first.
   */
  datatype Step = Count(n: int) | Raw(bytes: seq<byte>)

  function StepBytes(t: Step): seq<byte>
  {
    match t
    case Count(n) => I32Bytes(n)
    case Raw(bytes) => bytes
  }

  /** The bytes a task appends: those of its steps, in order. */
  function TaskBytes(task: seq<Step>): seq<byte>
  {
    if |task| == 0 then [] else TaskBytes(task[..|task| - 1]) + StepBytes(task[|task| - 1])
  }

  /** The bytes of a length-delimited field after its tag: the varint length, then the body. */
  function Frame(body: seq<byte>): seq<byte>
  {
    Varint(ToU32(|body|)) + body
  }

  /** A frame reads back: its length first, and the body right after it. */
  lemma FrameReadBack(body: seq<byte>, rest: seq<byte>)
    requires |body| < TWO_31
    ensures var n := |Varint(|body|)|;
      ReadRawVarint32(Frame(body) + rest, 0) == Ok((|body|, n))
      && (Frame(body) + rest)[n..n + |body|] == body
  {
    var f := Frame(body) + rest;
    var n := |Varint(|body|)|;
    assert f[..n] == Varint(|body|);
    Varint32RoundTrip(f, 0, |body|);
    assert f[n..n + |body|] == body;
  }

  /** One step of a task, after the steps before it. */
  method RunStep(task: seq<Step>, i: nat, s: WriteSession, lb: nat, ghost c: seq<nat>, ghost a0: Arena, ghost c0: seq<nat>)
    returns (lb': nat, ghost c': seq<nat>)
    requires i < |task| && Ready(s, c, lb) && Appended(a0, s.arena, c0, c, TaskBytes(task[..i]))
    modifies s
    ensures Ready(s, c', lb') && Appended(a0, s.arena, c0, c', TaskBytes(task[..i + 1]))
    ensures TaskBytes(task[..i + 1]) == TaskBytes(task[..i]) + StepBytes(task[i])
    ensures s.size == old(s.size) + |StepBytes(task[i])| && Kept(s)
  {
    ghost var a1 := s.arena;
    match task[i] {
      case Count(n) =>
        lb', c' := WriteI32Value(n, s, lb, c);
      case Raw(bytes) =>
        lb', c' := WriteByteArray(bytes, 0, |bytes|, s, lb, c);
        assert bytes[0..|bytes|] == bytes;
    }
    AppendedTrans(a0, a1, s.arena, c0, c, c', TaskBytes(task[..i]), StepBytes(task[i]));
    assert task[..i + 1][..i] == task[..i];
  }

  /** The task, run on the blocks `c` ending at `lb`. */
  method RunTask(task: seq<Step>, s: WriteSession, lb: nat, ghost c: seq<nat>) returns (lb': nat, ghost c': seq<nat>)
    requires Ready(s, c, lb)
    modifies s
    ensures Ready(s, c', lb') && Appended(old(s.arena), s.arena, c, c', TaskBytes(task))
    ensures s.size == old(s.size) + |TaskBytes(task)| && Kept(s)
  {
    AppendedRefl(s.arena, c);
    lb', c' := lb, c;
    var i := 0;
    while i < |task|
      invariant i <= |task| && Ready(s, c', lb') && Appended(old(s.arena), s.arena, c, c', TaskBytes(task[..i]))
      invariant s.size == old(s.size) + |TaskBytes(task[..i])| && Kept(s)
    {
      lb', c' := RunStep(task, i, s, lb', c', old(s.arena), c);
      i := i + 1;
    }
    assert task[..i] == task;
  }

  // ---------------------------------------------------------------------
  // writeMessage.
  // ---------------------------------------------------------------------

  /**
   * `writeMessage`: the tag, then the bytes the task writes behind their
   * varint length. The length is only known once the task has run, so it
   * goes into a byte reserved before the task, or into a block inserted
   * between the tag and the task's bytes when it needs more than one byte
   * or the tag filled its block.
   */
  method WriteMessage(s: WriteSession, fieldNumber: int, task: seq<Step>)
    requires s.Valid()
    modifies s
    ensures Wrote(s, MessageTagBytes(fieldNumber, old(TailRoom(s))) + Frame(TaskBytes(task)))
  {
    ghost var x, tag := s.Contents(), MessageTagBytes(fieldNumber, TailRoom(s));
    WriteMessageTag(s, fieldNumber);
    ghost var tagged := s.Contents();
    assert tagged == x + tag;
    if s.arena.blocks[s.tail].offset == Capacity(s.arena, s.tail) {
      FrameDetached(s, task);
    } else {
      FrameInline(s, task);
    }
    assert s.Contents() == tagged + Frame(TaskBytes(task));
    assert s.Contents() == x + (tag + Frame(TaskBytes(task)));
  }

  /** The tail has room for one more byte: `tail.offset != tail.buffer.length`. */
  ghost predicate TailRoom(s: WriteSession)
    reads s
    requires s.Valid()
  {
    s.arena.blocks[s.tail].offset != Capacity(s.arena, s.tail)
  }

  /**
   * The tag `writeMessage` appends. For a field number below 16, when the
   * tail has room, the tag goes straight into the tail as the one byte
   * `ToUint8(tag)`; otherwise `writeRawVarInt32` writes its varint.
   */
  function MessageTagBytes(fieldNumber: int, room: bool): seq<byte>
  {
    if fieldNumber < 16 && room then [ToByte(MakeTag(fieldNumber, WIRETYPE_LENGTH_DELIMITED))]
    else TagBytes(fieldNumber, WIRETYPE_LENGTH_DELIMITED)
  }

  /**
   * For every non-negative field number the tag `writeMessage` appends is
   * the varint of the tag, room or not. A negative field number below 16
   * gets the single byte instead, which is not the tag's varint: the tag's
   * unsigned word is 2^31 or more, so its varint takes five bytes.
   */
  lemma MessageTagVarint(fieldNumber: int, room: bool)
    ensures 0 <= fieldNumber ==> MessageTagBytes(fieldNumber, room) == TagBytes(fieldNumber, WIRETYPE_LENGTH_DELIMITED)
    ensures -0x1000_0000 <= fieldNumber < 0 && room ==>
      |MessageTagBytes(fieldNumber, room)| == 1 && |TagBytes(fieldNumber, WIRETYPE_LENGTH_DELIMITED)| == 5
    ensures MessageTagBytes(-1, true) == [0xFA]
  {
    if 0 <= fieldNumber < 16 {
      SmallTag(fieldNumber);
    } else if -0x1000_0000 <= fieldNumber < 0 {
      var tag := MakeTag(fieldNumber, WIRETYPE_LENGTH_DELIMITED);
      assert tag == fieldNumber * 8 + 2 < 0;
      var n := ComputeRawVarint32Size(tag);
    }
  }

  /** A length-delimited tag for a field number below 16 is one byte: the tag itself. */
  lemma SmallTag(fieldNumber: int)
    requires 0 <= fieldNumber < 16
    ensures TagBytes(fieldNumber, WIRETYPE_LENGTH_DELIMITED) == [ToByte(MakeTag(fieldNumber, WIRETYPE_LENGTH_DELIMITED))]
  {
    assert ToU32(MakeTag(fieldNumber, WIRETYPE_LENGTH_DELIMITED)) == fieldNumber * 8 + 2;
  }

  /**
   * The tag of `writeMessage`: stored straight into the tail for a field
   * number below 16 when the tail has room, through `writeRawVarInt32`
   * otherwise. Either way the tail is the block holding the tag.
   */
  method WriteMessageTag(s: WriteSession, fieldNumber: int)
    requires s.Valid()
    modifies s
    ensures Wrote(s, MessageTagBytes(fieldNumber, old(TailRoom(s))))
  {
    var tag := MakeTag(fieldNumber, WIRETYPE_LENGTH_DELIMITED);
    if fieldNumber < 16 && s.arena.blocks[s.tail].offset != Capacity(s.arena, s.tail) {
      var lastBuffer := s.tail;
      s.size := s.size + 1;
      PutAppended(s.arena, s.chain, [ToByte(tag)]);
      s.arena := Put(s.arena, lastBuffer, [ToByte(tag)]);
      Commit(s, lastBuffer, s.chain, old(s.arena), [ToByte(tag)]);
    } else {
      var lastBuffer, c := WriteRawVarInt32(tag, s, s.tail, s.chain);
      Commit(s, lastBuffer, c, old(s.arena), TagBytes(fieldNumber, WIRETYPE_LENGTH_DELIMITED));
    }
  }

  /**
   * The tail is full: the task writes into a new block, and the length
   * goes into a block of its own, inserted after the tail. The source
   * creates the new block unlinked and reaches it only through the
   * inserted length block; here it is linked after the tail from the
   * start, so the chain stays linked while the task runs. The chain at
   * the end is the same.
   */
  method FrameDetached(s: WriteSession, task: seq<Step>)
    requires s.Valid() && s.arena.blocks[s.tail].offset == Capacity(s.arena, s.tail)
    modifies s
    ensures Wrote(s, Frame(TaskBytes(task)))
  {
    var lastBuffer := s.tail;
    var lastSize := s.size;
    ghost var x := s.Contents();
    var nextBuffer, lb, c3 := DetachedTask(s, task);
    DetachedLength(s, lastBuffer, lastSize, nextBuffer, lb, c3, |s.chain| - 1, x, TaskBytes(task));
  }

  /**
   * The second half of `FrameDetached`: the length of the task's bytes
   * `y`, written into a block of its own, inserted after `c3[k]`.
   */
  method DetachedLength(s: WriteSession, lastBuffer: nat, lastSize: int, nextBuffer: nat, lb: nat,
                        ghost c3: seq<nat>, ghost k: nat, ghost x: seq<byte>, ghost y: seq<byte>)
    requires Wf(s.arena, c3) && Ends(s.arena, c3) && k + 1 < |c3| && LinksBut(s.arena, c3, k)
    requires c3[k] == lastBuffer && c3[k + 1] == nextBuffer && c3[|c3| - 1] == lb && c3[0] == s.head
    requires Content(s.arena, c3[..k + 1]) == x && Content(s.arena, c3[k + 1..]) == y
    requires lastSize == |x| && s.size == |x| + |y| && s.nextBufferSize >= 8
    modifies s
    ensures s.Valid() && s.Contents() == x + Frame(y)
    ensures s.head == old(s.head) && s.nextBufferSize == old(s.nextBufferSize)
  {
    var msgSize := s.size - lastSize;
    var g := Delimiter(msgSize);
    s.size := s.size + |g|;
    var (a4, d) := Inserted(s.arena, lastBuffer, g, Some(nextBuffer));
    ghost var c4 := c3[..k + 1] + [d] + c3[k + 1..];
    DetachedInsert(s.arena, c3, k, g, x, y, a4, d, c4, s.nextBufferSize);
    s.arena := a4;
    s.tail := lb;
    s.chain := c4;
    assert Frame(y) == g + y;
  }

  /**
   * The array holding a length prefix: exactly as long as the varint of
   * `msgSize`, filled by `writeRawVarInt32_byteArray`.
   */
  method Delimiter(msgSize: int) returns (g: seq<byte>)
    ensures g == Varint(ToU32(msgSize))
  {
    var delimited := new byte[ComputeRawVarint32Size(msgSize)];
    WriteRawVarInt32ByteArray(msgSize, delimited, 0);
    g := delimited[..];
  }

  /**
   * The first half of `FrameDetached`: a new block after the tail, and the
   * task run on it. The session's own chain is not yet extended.
   */
  method DetachedTask(s: WriteSession, task: seq<Step>) returns (nextBuffer: nat, lb: nat, ghost c3: seq<nat>)
    requires s.Valid()
    modifies s
    ensures 0 < |s.chain| < |c3| && c3[..|s.chain|] == s.chain && c3[|s.chain|] == nextBuffer
    ensures Wf(s.arena, c3) && Ends(s.arena, c3) && LinksBut(s.arena, c3, |s.chain| - 1) && c3[|c3| - 1] == lb
    ensures |old(s.Contents())| == old(s.size)
    ensures Content(s.arena, c3[..|s.chain|]) == old(s.Contents())
    ensures Content(s.arena, c3[|s.chain|..]) == TaskBytes(task)
    ensures s.size == old(s.size) + |TaskBytes(task)| && Kept(s)
  {
    ghost var a1, c1 := s.arena, s.chain;
    ContentLength(a1, c1);
    ghost var c2;
    nextBuffer, c2 := GrowBlock(s, s.tail, s.chain);
    ghost var a2 := s.arena;
    lb, c3 := RunTask(task, s, nextBuffer, c2);
    DetachedFrame(a1, a2, s.arena, c1, nextBuffer, c3, TaskBytes(task));
  }

  /** The second half of `FrameDetached`: the block holding `g` inserted after `c[k]`. */
  lemma DetachedInsert(a: Arena, c: seq<nat>, k: nat, g: seq<byte>, x: seq<byte>, y: seq<byte>,
                       a': Arena, d: nat, c': seq<nat>, nextBufferSize: int)
    requires Wf(a, c) && Ends(a, c) && k + 1 < |c| && LinksBut(a, c, k) && nextBufferSize >= 8
    requires Content(a, c[..k + 1]) == x && Content(a, c[k + 1..]) == y
    requires (a', d) == Inserted(a, c[k], g, Some(c[k + 1])) && c' == c[..k + 1] + [d] + c[k + 1..]
    ensures Sound(a', c', c[0], c[|c| - 1], |x| + |g| + |y|, nextBufferSize)
    ensures Content(a', c') == x + (g + y)
  {
    InsertedChain(a, c, k, g, a', d, c');
    ContentLength(a', c');
    assert c'[0] == c[0];
  }

  /** `InsertChain`, on the arena and chain it leaves. */
  lemma InsertedChain(a: Arena, c: seq<nat>, k: nat, g: seq<byte>, a': Arena, d: nat, c': seq<nat>)
    requires Wf(a, c) && Ends(a, c) && k + 1 < |c| && LinksBut(a, c, k)
    requires (a', d) == Inserted(a, c[k], g, Some(c[k + 1])) && c' == c[..k + 1] + [d] + c[k + 1..]
    ensures Wf(a', c') && Linked(a', c') && c'[0] == c[0] && c'[|c'| - 1] == c[|c| - 1]
    ensures Content(a', c') == Content(a, c[..k + 1]) + g + Content(a, c[k + 1..])
  {
    InsertChain(a, c, k, g);
  }

  /**
   * Before the insertion in `FrameDetached`: the blocks up to the old tail
   * hold what they held, and the blocks from the new one on hold the body.
   */
  lemma DetachedFrame(a1: Arena, a2: Arena, a3: Arena, c1: seq<nat>, n: nat, c3: seq<nat>, body: seq<byte>)
    requires Appended(a1, a2, c1, c1 + [n], []) && a2.blocks[n].offset == 0
    requires Appended(a2, a3, c1 + [n], c3, body) && Linked(a1, c1)
    ensures Wf(a3, c3) && Ends(a3, c3) && |c1| < |c3| && c3[..|c1|] == c1 && c3[|c1|] == n
    ensures LinksBut(a3, c3, |c1| - 1) && AllOK(a1, c1) && AllOK(a3, c3[..|c1|]) && AllOK(a3, c3[|c1|..])
    ensures Content(a3, c3[..|c1|]) == Content(a1, c1) && Content(a3, c3[|c1|..]) == body
  {
    var c2 := c1 + [n];
    DetachedLinks(a1, a2, a3, c1, n, c3, body);
    GrownEmpty(a1, a2, c1, n);
    PrefixKept(a2, a3, c2, c3, body);
    assert c2[..|c2| - 1] == c1;
    TailContent(a3, c3, |c1|, Content(a1, c1), body);
  }

  lemma DetachedLinks(a1: Arena, a2: Arena, a3: Arena, c1: seq<nat>, n: nat, c3: seq<nat>, body: seq<byte>)
    requires Appended(a1, a2, c1, c1 + [n], []) && Appended(a2, a3, c1 + [n], c3, body) && Linked(a1, c1)
    ensures Wf(a3, c3) && Ends(a3, c3) && |c1| < |c3| && c3[..|c1|] == c1 && c3[|c1|] == n
    ensures LinksBut(a3, c3, |c1| - 1)
    ensures Content(a3, c3) == Content(a1, c1) + body
  {
    var c2 := c1 + [n];
    AppendedTrans(a1, a2, a3, c1, c2, c3, [], body);
    assert [] + body == body;
    AppendedLinked(a1, a3, c1, c3, body);
    assert c3[..|c2|][|c1|] == n;
  }

  /** A new empty block after `c1` leaves the content of `c1` as it was. */
  lemma GrownEmpty(a1: Arena, a2: Arena, c1: seq<nat>, n: nat)
    requires Appended(a1, a2, c1, c1 + [n], []) && a2.blocks[n].offset == 0
    ensures AllOK(a2, c1) && Content(a2, c1) == Content(a1, c1)
  {
    var c2 := c1 + [n];
    assert c2[..|c2| - 1] == c1 && c2[|c2| - 1] == n;
    assert Data(a2, n) == [];
    assert Content(a2, c2) == Content(a2, c1) + Data(a2, n);
    assert Content(a2, c2) == Content(a1, c1) + [];
    assert Content(a2, c1) + [] == Content(a2, c1) && Content(a1, c1) + [] == Content(a1, c1);
  }

  /** What follows a prefix whose content is `x`, in a chain whose content is `x + y`. */
  lemma TailContent(a: Arena, c: seq<nat>, m: nat, x: seq<byte>, y: seq<byte>)
    requires AllOK(a, c) && m <= |c| && Content(a, c) == x + y && Content(a, c[..m]) == x
    ensures Content(a, c[m..]) == y
  {
    ContentAppend(a, c[..m], c[m..]);
    assert c[..m] + c[m..] == c;
    assert (x + Content(a, c[m..]))[|x|..] == Content(a, c[m..]);
    assert (x + y)[|x|..] == y;
  }

  /**
   * The tail has room: one byte is reserved for the length, the task runs,
   * and a length below 128 goes into that byte.
   */
  method FrameInline(s: WriteSession, task: seq<Step>)
    requires s.Valid() && s.arena.blocks[s.tail].offset < Capacity(s.arena, s.tail)
    modifies s
    ensures Wrote(s, Frame(TaskBytes(task)))
  {
    var lastBuffer := s.tail;
    var lastOffset := s.arena.blocks[lastBuffer].offset;
    var lastSize := s.size;
    ghost var a1 := s.arena;
    ghost var reserved := ReserveAt(s, lastBuffer, s.chain, 1);
    s.size := s.size + 1;
    ghost var a2 := s.arena;
    var lb, c3 := RunTask(task, s, lastBuffer, s.chain);
    var msgSize := s.size - lastSize - 1;
    if msgSize < 128 {
      InlineLength(s, lastOffset, msgSize, lb, c3, a1, a2, reserved, TaskBytes(task));
    } else {
      SplitFrame(s, lastOffset, msgSize, lb, c3, a1, a2, reserved, TaskBytes(task));
    }
  }

  /** A length below 128: it goes into the byte reserved for it. */
  method InlineLength(s: WriteSession, lastOffset: nat, msgSize: int, lb: nat, ghost c3: seq<nat>,
                      ghost a1: Arena, ghost a2: Arena, ghost reserved: seq<byte>, ghost body: seq<byte>)
    requires Ready(s, c3, lb) && Appended(a1, a2, s.chain, s.chain, reserved) && |reserved| == 1
    requires Appended(a2, s.arena, s.chain, c3, body)
    requires Linked(a1, s.chain) && BlockOK(a1, s.head) && s.chain[0] == s.head && s.chain[|s.chain| - 1] == s.tail
    requires a2.blocks[s.tail].start <= lastOffset && a2.blocks[s.tail].offset == lastOffset + 1
    requires s.size == Used(a1, s.chain) + 1 + |body| && msgSize == |body| < 128
    modifies s
    ensures s.Valid() && s.Contents() == Content(a1, old(s.chain)) + Frame(body)
    ensures s.head == old(s.head) && s.nextBufferSize == old(s.nextBufferSize)
  {
    PatchFinish(a1, a2, s.arena, s.chain, s.chain, c3, reserved, body, lastOffset, msgSize);
    s.arena := Patch(s.arena, s.tail, lastOffset, [msgSize]);
    Commit(s, lb, c3, a1, [msgSize] + body);
  }

  /**
   * A length of 128 or more: the tail block is cut after the tag (its
   * reserved byte dropped), and a block holding the length is inserted
   * between the tag and the rest.
   */
  method SplitFrame(s: WriteSession, lastOffset: nat, msgSize: int, lb: nat, ghost c3: seq<nat>,
                    ghost a1: Arena, ghost a2: Arena, ghost reserved: seq<byte>, ghost body: seq<byte>)
    requires Ready(s, c3, lb) && Appended(a1, a2, s.chain, s.chain, reserved) && |reserved| == 1
    requires Appended(a2, s.arena, s.chain, c3, body)
    requires Linked(a1, s.chain) && BlockOK(a1, s.head) && s.chain[0] == s.head && s.chain[|s.chain| - 1] == s.tail
    requires a1.blocks[s.tail].offset == lastOffset && a2.blocks[s.tail].offset == lastOffset + 1
    requires s.size == Used(a1, s.chain) + 1 + |body| && msgSize == |body| >= 128
    modifies s
    ensures s.Valid() && s.Contents() == Content(a1, old(s.chain)) + Frame(body)
    ensures s.head == old(s.head) && s.nextBufferSize == old(s.nextBufferSize)
  {
    ghost var c1 := s.chain;
    SplitPrep(a1, a2, s.arena, c1, c3, lastOffset, reserved, body);
    ContentLength(a1, c1);
    SplitLength(s, lastOffset, msgSize, lb, c3, |c1| - 1, Content(a1, c1), body);
  }

  /**
   * The second half of `SplitFrame`: block `c3[k]`, the tail, holds `x`'s
   * last bytes up to `cut`, the reserved byte, then the first bytes of
   * `body`. It is cut there and the block holding the length inserted.
   */
  method SplitLength(s: WriteSession, cut: nat, msgSize: int, lb: nat,
                     ghost c3: seq<nat>, ghost k: nat, ghost x: seq<byte>, ghost body: seq<byte>)
    requires Wf(s.arena, c3) && Linked(s.arena, c3) && k < |c3| && c3[k] == s.tail
    requires c3[|c3| - 1] == lb && c3[0] == s.head && s.nextBufferSize >= 8
    requires s.arena.blocks[s.tail].start <= cut < s.arena.blocks[s.tail].offset
    requires AllOK(s.arena, c3[..k]) && AllOK(s.arena, c3[k + 1..])
    requires x == Content(s.arena, c3[..k]) + Data(s.arena, c3[k])[..cut - s.arena.blocks[c3[k]].start]
    requires Data(s.arena, c3[k])[cut + 1 - s.arena.blocks[c3[k]].start..] + Content(s.arena, c3[k + 1..]) == body
    requires s.size == |x| + 1 + |body| && msgSize == |body|
    modifies s
    ensures s.Valid() && s.Contents() == x + Frame(body)
    ensures s.head == old(s.head) && s.nextBufferSize == old(s.nextBufferSize)
  {
    var lastBuffer := s.tail;
    var (a4, view) := Cut(s.arena, lastBuffer, cut);
    var tail := lb;
    if lastBuffer == lb {
      tail := view;
    }
    var g := Delimiter(msgSize);
    s.size := s.size + (|g| - 1);
    var (a5, d) := Inserted(a4, lastBuffer, g, Some(view));
    ghost var c5 := c3[..k + 1] + [d, view] + c3[k + 1..];
    SplitJoin(s.arena, c3, k, cut, g, a4, view, a5, d, c5, x, body, s.nextBufferSize);
    s.arena := a5;
    s.tail := tail;
    s.chain := c5;
    assert Frame(body) == g + body;
  }

  /**
   * Before the split: the tail block `c1[k]` now holds the old bytes up to
   * `cut`, the reserved byte at `cut`, and the first bytes of the body
   * after it; the blocks after it hold the rest of the body.
   */
  lemma SplitPrep(a1: Arena, a2: Arena, a3: Arena, c1: seq<nat>, c3: seq<nat>, cut: nat, r: seq<byte>, body: seq<byte>)
    requires Appended(a1, a2, c1, c1, r) && |r| == 1 && Appended(a2, a3, c1, c3, body) && Linked(a1, c1)
    requires a1.blocks[c1[|c1| - 1]].offset == cut && a2.blocks[c1[|c1| - 1]].offset == cut + 1
    ensures 0 < |c1| <= |c3| && c3[|c1| - 1] == c1[|c1| - 1] && c3[0] == c1[0]
    ensures Wf(a3, c3) && Linked(a3, c3) && AllOK(a1, c1) && BlockOK(a3, c1[|c1| - 1])
    ensures a3.blocks[c1[|c1| - 1]].start <= cut < a3.blocks[c1[|c1| - 1]].offset
    ensures AllOK(a3, c3[..|c1| - 1]) && AllOK(a3, c3[|c1|..])
    ensures Content(a1, c1)
      == Content(a3, c3[..|c1| - 1]) + Data(a3, c1[|c1| - 1])[..cut - a3.blocks[c1[|c1| - 1]].start]
    ensures Data(a3, c1[|c1| - 1])[cut + 1 - a3.blocks[c1[|c1| - 1]].start..] + Content(a3, c3[|c1|..]) == body
  {
    var k := |c1| - 1;
    var L := c1[k];
    AppendedTrans(a1, a2, a3, c1, c1, c3, r, body);
    AppendedLinked(a1, a3, c1, c3, r + body);
    assert c3[..|c1|][k] == L;
    assert Extends(a2, a3, L);
    var D := Data(a3, L);
    var P := Content(a3, c3[..k]);
    var Q := Content(a3, c3[k + 1..]);
    var C := Content(a1, c1);
    ContentSplit(a3, c3, k);
    PrefixKept(a1, a3, c1, c3, r + body);
    ContentSplit(a1, c1, k);
    assert c1[k + 1..] == [];
    assert c1[..k] == c1[..|c1| - 1];
    Divided(P, D, Q, C, r + body, cut - a3.blocks[L].start, 1);
    assert (r + body)[1..] == body;
  }

  /** A sequence that is `C + data` and also `P + D + Q`, divided at the end of `C`, `j` bytes into `D`. */
  lemma Divided(P: seq<byte>, D: seq<byte>, Q: seq<byte>, C: seq<byte>, data: seq<byte>, j: nat, e: nat)
    requires P + D + Q == C + data && |P| + j == |C| && j + e <= |D|
    ensures C == P + D[..j] && D[j + e..] + Q == data[e..]
  {
    assert C == (P + D + Q)[..|C|];
    assert (P + D + Q)[..|C|] == P + D[..j];
    assert data == (P + D + Q)[|C|..];
    assert (P + D + Q)[|C|..] == D[j..] + Q;
  }

  /**
   * The split itself: block `c[k]` cut at `cut` and the block holding `g`
   * inserted after it. The bytes before the cut are `x` and those after the
   * reserved byte are `body`; the chain left holds `x`, then `g`, then `body`.
   */
  lemma SplitJoin(a: Arena, c: seq<nat>, k: nat, cut: nat, g: seq<byte>, a4: Arena, v: nat, a5: Arena, d: nat,
                  c5: seq<nat>, x: seq<byte>, body: seq<byte>, nextBufferSize: int)
    requires Wf(a, c) && Linked(a, c) && k < |c| && nextBufferSize >= 8
    requires a.blocks[c[k]].start <= cut < a.blocks[c[k]].offset
    requires AllOK(a, c[..k]) && AllOK(a, c[k + 1..])
    requires x == Content(a, c[..k]) + Data(a, c[k])[..cut - a.blocks[c[k]].start]
    requires Data(a, c[k])[cut + 1 - a.blocks[c[k]].start..] + Content(a, c[k + 1..]) == body
    requires (a4, v) == Cut(a, c[k], cut) && (a5, d) == Inserted(a4, c[k], g, Some(v))
    requires c5 == c[..k + 1] + [d, v] + c[k + 1..]
    ensures Sound(a5, c5, c[0], if c[k] == c[|c| - 1] then v else c[|c| - 1], |x| + |g| + |body|, nextBufferSize)
    ensures Content(a5, c5) == x + (g + body)
  {
    SplitChain(a, c, k, cut, g, a4, v, a5, d, c5, x, body);
    ContentLength(a5, c5);
  }

  lemma SplitChain(a: Arena, c: seq<nat>, k: nat, cut: nat, g: seq<byte>, a4: Arena, v: nat, a5: Arena, d: nat,
                   c5: seq<nat>, x: seq<byte>, body: seq<byte>)
    requires Wf(a, c) && Linked(a, c) && k < |c|
    requires a.blocks[c[k]].start <= cut < a.blocks[c[k]].offset
    requires AllOK(a, c[..k]) && AllOK(a, c[k + 1..])
    requires x == Content(a, c[..k]) + Data(a, c[k])[..cut - a.blocks[c[k]].start]
    requires Data(a, c[k])[cut + 1 - a.blocks[c[k]].start..] + Content(a, c[k + 1..]) == body
    requires (a4, v) == Cut(a, c[k], cut) && (a5, d) == Inserted(a4, c[k], g, Some(v))
    requires c5 == c[..k + 1] + [d, v] + c[k + 1..]
    ensures Wf(a5, c5) && Linked(a5, c5) && c5[0] == c[0]
    ensures c5[|c5| - 1] == if c[k] == c[|c| - 1] then v else c[|c| - 1]
    ensures Content(a5, c5) == x + (g + body)
  {
    CutThenInsert(a, c, k, cut, g, a4, v, a5, d);
    if k < |c| - 1 {
      assert Apart(a, c, k, |c| - 1);
    }
    var P := Content(a, c[..k]);
    var D := Data(a, c[k]);
    var j := cut - a.blocks[c[k]].start;
    var Q := Content(a, c[k + 1..]);
    Regrouped(P, D[..j], g, D[j + 1..], Q);
  }

  lemma Regrouped(p: seq<byte>, u: seq<byte>, g: seq<byte>, w: seq<byte>, q: seq<byte>)
    ensures p + u + g + w + q == (p + u) + (g + (w + q))
  {
    assert p + u + g + w + q == (p + u) + g + (w + q);
  }
}
