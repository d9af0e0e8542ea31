/**
 * What ProtobjOutput writes, ProtobjInput reads back. Each lemma places the
 * bytes a writer appends (as the writer's contract in Output or
 * OutputCollections states them) at the reader's offset, and shows what the
 * matching read returns and where it leaves the cursor. The reads are the
 * specification functions of Input, which the reader's methods are proved
 * to follow.
 */
module RoundTrips {
  import opened Bytes
  import opened ProtobjErrors
  import opened WireFormat
  import opened ZigZag
  import Varints
  import opened IntSerializer
  import opened Input
  import Output
  import OutputCollections
  import WriteSinks

  /** The bytes `b` lie in `buf` from `pos` on. */
  predicate At(buf: seq<byte>, pos: nat, b: seq<byte>)
  {
    pos + |b| <= |buf| && buf[pos..pos + |b|] == b
  }

  /** Bytes written one after the other lie one after the other. */
  lemma AtSplit(buf: seq<byte>, pos: nat, a: seq<byte>, b: seq<byte>)
    requires At(buf, pos, a + b)
    ensures At(buf, pos, a) && At(buf, pos + |a|, b)
  {
    assert buf[pos..pos + |a|] == buf[pos..pos + |a + b|][..|a|];
    assert buf[pos + |a|..pos + |a| + |b|] == buf[pos..pos + |a + b|][|a|..];
  }

  /** An i32 survives the trip through its unsigned 32-bit pattern. */
  lemma SignedOfUnsigned(v: i32)
    ensures ToI32(ToU32(v)) == v
  {
  }

  // ---------------------------------------------------------------------
  // Tags and scalars
  // ---------------------------------------------------------------------

  /**
   * writeTag's bytes read back through readFieldNumber: the field number
   * comes back, the tag becomes `lastTag` with its wire type intact, and
   * the packed limit is cleared.
   */
  lemma FieldReadBack(buf: seq<byte>, c: Cursor, fieldNumber: int, wireType: int)
    requires 0 <= wireType <= TAG_TYPE_MASK && 0 < fieldNumber < FIELD_NUMBER_BOUND
    requires c.offset != c.limit && At(buf, c.offset, Output.TagBytes(fieldNumber, wireType))
    ensures FieldNumber(buf, c)
      == Ok((fieldNumber, Cursor(c.offset + |Output.TagBytes(fieldNumber, wireType)|, c.limit, MakeTag(fieldNumber, wireType), 0)))
    ensures GetTagWireType(MakeTag(fieldNumber, wireType)) == wireType
  {
    var tag := MakeTag(fieldNumber, wireType);
    Varints.Varint32RoundTrip(buf, c.offset, ToU32(tag));
    SignedOfUnsigned(tag);
    FieldNumberRoundTrip(fieldNumber, wireType);
    WireTypeRoundTrip(fieldNumber, wireType);
  }

  /** writeI32's bytes, the ten-byte form of a negative value included, read back through readI32. */
  lemma I32ReadBack(buf: seq<byte>, c: Cursor, value: i32)
    requires At(buf, c.offset, Output.I32Bytes(value))
    ensures Varint32(buf, c) == Ok((value, c.(offset := c.offset + |Output.I32Bytes(value)|)))
  {
    if value < 0 {
      NegativeI32ReadBack(buf, c.offset, value);
    } else {
      Varints.Varint32RoundTrip(buf, c.offset, value);
    }
    Varint32Read(buf, c, value, c.offset + |Output.I32Bytes(value)|);
  }

  /** The ten bytes of a negative writeI32 decode to the value. */
  lemma NegativeI32ReadBack(buf: seq<byte>, pos: nat, value: i32)
    requires value < 0 && At(buf, pos, Output.I32Bytes(value))
    ensures Varints.ReadRawVarint32(buf, pos) == Ok((value, pos + |Output.I32Bytes(value)|))
  {
    Output.SignExtended(value);
    Varints.SignExtendedRoundTrip(value);
    Varints.ReadRawVarint32Varint(buf, pos, TWO_32 * TWO_32 + value);
    Varints.ToI32Shift(value, TWO_32);
  }

  /** writeU32's varint reads back through readU32 as the same 32 bits. */
  lemma U32ReadBack(buf: seq<byte>, c: Cursor, value: int)
    requires At(buf, c.offset, Varints.Varint(ToU32(value)))
    ensures Varint32(buf, c) == Ok((ToI32(value), c.(offset := c.offset + |Varints.Varint(ToU32(value))|)))
  {
    Varints.Varint32RoundTrip(buf, c.offset, ToU32(value));
    assert ToI32(ToU32(value)) == ToI32(value);
    Varint32Read(buf, c, ToI32(value), c.offset + |Varints.Varint(ToU32(value))|);
  }

  /** A varint the decoder reads, read at the cursor. */
  lemma Varint32Read(buf: seq<byte>, c: Cursor, v: i32, end: nat)
    requires Varints.ReadRawVarint32(buf, c.offset) == Ok((v, end))
    ensures Varint32(buf, c) == Ok((v, c.(offset := end)))
  {
  }

  /** writeS32's zigzag varint reads back through readS32 as the value. */
  lemma S32ReadBack(buf: seq<byte>, c: Cursor, value: i32)
    requires At(buf, c.offset, Varints.Varint(EncodeZigZag32(ToU32(value))))
    ensures S32(buf, c) == Ok((value, c.(offset := c.offset + |Varints.Varint(EncodeZigZag32(ToU32(value)))|)))
  {
    var e := EncodeZigZag32(ToU32(value));
    Varints.Varint32RoundTrip(buf, c.offset, e);
    assert ToU32(ToI32(e)) == e;
    ZigZag32RoundTrip(ToU32(value));
    SignedOfUnsigned(value);
  }

  /** writeI64's varint reads back through readI64 when it ends within the limit. */
  lemma I64ReadBack(buf: seq<byte>, c: Cursor, value: Pair)
    requires At(buf, c.offset, Varints.Varint(value.Value()))
    requires c.offset + |Varints.Varint(value.Value())| <= c.limit
    ensures Varint64(buf, c) == Ok((value, c.(offset := c.offset + |Varints.Varint(value.Value())|)))
  {
    Varints.Varint64RoundTrip(buf, c.offset, c.limit, value);
  }

  /** writeS64's zigzag varint reads back through readS64 when it ends within the limit. */
  lemma S64ReadBack(buf: seq<byte>, c: Cursor, value: Pair)
    requires At(buf, c.offset, Varints.Varint(EncodeZigZag64(value).Value()))
    requires c.offset + |Varints.Varint(EncodeZigZag64(value).Value())| <= c.limit
    ensures S64(buf, c) == Ok((value, c.(offset := c.offset + |Varints.Varint(EncodeZigZag64(value).Value())|)))
  {
    Varints.Varint64RoundTrip(buf, c.offset, c.limit, EncodeZigZag64(value));
    ZigZag64RoundTrip(value);
  }

  /**
   * As written, `writeI64` of 3000000000 (a Long whose high word is 0) appends
   * the single byte 0 after its tag, and readI64 reads it back as 0.
   */
  lemma I64AsWrittenReadBack(buf: seq<byte>, c: Cursor)
    requires At(buf, c.offset, WriteSinks.Varint64AsWritten(Pair(3000000000, 0)))
    requires c.offset + 1 <= c.limit
    ensures Varint64(buf, c) == Ok((Pair(0, 0), c.(offset := c.offset + 1)))
    ensures Varint64(buf, c) != Ok((Pair(3000000000, 0), c.(offset := c.offset + 1)))
  {
    WriteSinks.Varint64AsWrittenLosesLargeLow();
    Varints.Varint64RoundTrip(buf, c.offset, c.limit, Pair(0, 0));
  }

  /**
   * As written, `writeS64` of 2^30 loses the value: its zigzag image has a
   * zero high word and 2^31 as low word, so the writer appends the single
   * byte 0, which readS64 reads back as 0.
   */
  lemma S64AsWrittenReadBack(buf: seq<byte>, c: Cursor)
    requires At(buf, c.offset, WriteSinks.Varint64AsWritten(EncodeZigZag64(Pair(0x4000_0000, 0))))
    requires c.offset + 1 <= c.limit
    ensures EncodeZigZag64(Pair(0x4000_0000, 0)) == Pair(0x8000_0000, 0)
    ensures S64(buf, c) == Ok((Pair(0, 0), c.(offset := c.offset + 1)))
  {
    ZigZag64Examples();
    WriteSinks.Varint64AsWrittenLosesHighBit();
    assert buf[c.offset..c.offset + 1] == Varints.Varint(Pair(0, 0).Value());
    Varints.Varint64RoundTrip(buf, c.offset, c.limit, Pair(0, 0));
    assert Varint64(buf, c) == Ok((Pair(0, 0), c.(offset := c.offset + 1)));
    assert DecodeZigZag64(Pair(0, 0)) == Pair(0, 0);
  }

  /** writeBOOL's byte reads back through readBOOL. */
  lemma BoolReadBack(buf: seq<byte>, c: Cursor, value: bool)
    requires At(buf, c.offset, [Output.BoolByte(value)])
    ensures Bool(buf, c) == Ok((value, c.(offset := c.offset + 1)))
  {
    assert buf[c.offset] == Output.BoolByte(value);
  }

  /** writeI8's byte reads back through readI8 as the value's low eight bits. */
  lemma I8ReadBack(buf: seq<byte>, c: Cursor, value: int)
    requires At(buf, c.offset, [ToByte(value)])
    ensures ByteAt(buf, c) == Ok((ToByte(value), c.(offset := c.offset + 1)))
    ensures 0 <= value < 0x100 ==> ByteAt(buf, c) == Ok((value, c.(offset := c.offset + 1)))
  {
    assert buf[c.offset] == ToByte(value);
  }

  /** writeI16's two bytes read back through readI16, unsigned, as the low 16 bits. */
  lemma I16ReadBack(buf: seq<byte>, c: Cursor, value: int)
    requires At(buf, c.offset, LE16(value))
    ensures Fixed16(buf, c) == Ok((ToU32(value) % 0x1_0000, c.(offset := c.offset + 2)))
    ensures 0 <= value < 0x1_0000 ==> Fixed16(buf, c) == Ok((value, c.(offset := c.offset + 2)))
  {
    LE16RoundTrip(value);
  }

  /** writeF32's four bytes read back through readF32 as the same 32 bits. */
  lemma F32ReadBack(buf: seq<byte>, c: Cursor, value: int)
    requires At(buf, c.offset, LE32(value))
    ensures Fixed32(buf, c) == Ok((ToI32(value), c.(offset := c.offset + 4)))
  {
    LE32RoundTrip(value);
  }

  /** writeF64's eight bytes read back through readF64. */
  lemma F64ReadBack(buf: seq<byte>, c: Cursor, value: Pair)
    requires At(buf, c.offset, LE64(value))
    ensures Fixed64(buf, c) == Ok((value, c.(offset := c.offset + 8)))
  {
    LE64RoundTrip(value);
  }

  // ---------------------------------------------------------------------
  // Length-delimited fields
  // ---------------------------------------------------------------------

  /** A frame (a varint length, then the body) that ends within the limit. */
  predicate FrameAt(buf: seq<byte>, c: Cursor, body: seq<byte>)
  {
    |body| < TWO_31 && At(buf, c.offset, Output.Frame(body)) && c.offset + |Output.Frame(body)| <= c.limit
  }

  /** Where the body of a frame written at the cursor starts. */
  function BodyStart(c: Cursor, body: seq<byte>): nat
  {
    c.offset + |Varints.Varint(|body|)|
  }

  /** Where a frame written at the cursor ends. */
  function FrameEnd(c: Cursor, body: seq<byte>): nat
  {
    c.offset + |Output.Frame(body)|
  }

  /** The frame's length reads back, and the body follows it up to the frame's end. */
  lemma FrameLength(buf: seq<byte>, c: Cursor, body: seq<byte>)
    requires FrameAt(buf, c, body)
    ensures Varint32(buf, c) == Ok((|body|, c.(offset := BodyStart(c, body))))
    ensures At(buf, BodyStart(c, body), body)
    ensures BodyStart(c, body) + |body| == FrameEnd(c, body) <= c.limit
  {
    AtSplit(buf, c.offset, Varints.Varint(|body|), body);
    Varints.Varint32RoundTrip(buf, c.offset, |body|);
  }

  /** writeBytes and writeSTRING's frame reads back through readBytes: the body, and the cursor after it. */
  lemma BytesReadBack(buf: seq<byte>, c: Cursor, body: seq<byte>)
    requires FrameAt(buf, c, body)
    ensures LengthDelimited(buf, c) == Ok((body, c.(offset := FrameEnd(c, body))))
  {
    FrameLength(buf, c, body);
  }

  /**
   * writeMessage's frame opens through readMessageStart: the nested
   * message's end becomes the limit and the packed limit, and the old
   * limit comes back for readMessageStop.
   */
  lemma MessageReadBack(buf: seq<byte>, c: Cursor, body: seq<byte>)
    requires FrameAt(buf, c, body)
    ensures var start := BodyStart(c, body);
      var end := FrameEnd(c, body);
      MessageStart(buf, c) == Ok((c.limit, c.(offset := start, limit := end, packedLimit := end)))
  {
    FrameLength(buf, c, body);
  }

  /**
   * Right after a length-delimited tag, the packed check opens the frame
   * the writer put there: the offset moves past the length and the packed
   * limit is the frame's end.
   */
  lemma PackedReadBack(buf: seq<byte>, c: Cursor, body: seq<byte>)
    requires c.packedLimit == 0 && GetTagWireType(c.lastTag) == WIRETYPE_LENGTH_DELIMITED
    requires FrameAt(buf, c, body)
    ensures PackedCheck(buf, c) == Ok(Opened(c, body))
    ensures At(buf, Opened(c, body).offset, body)
    ensures Opened(c, body).offset + |body| == FrameEnd(c, body) <= c.limit
  {
    FrameLength(buf, c, body);
  }

  /** The cursor inside an opened packed field: past the length, bounded by the frame's end. */
  function Opened(c: Cursor, body: seq<byte>): Cursor
  {
    c.(offset := BodyStart(c, body), packedLimit := FrameEnd(c, body))
  }

  // ---------------------------------------------------------------------
  // Skipping what was written
  // ---------------------------------------------------------------------

  /** The payload width of each fixed wire type. */
  function FixedWidth(wireType: int): nat
  {
    if wireType == WIRETYPE_FIXED64 then 8
    else if wireType == WIRETYPE_FIXED8 then 1
    else if wireType == WIRETYPE_FIXED16 then 2
    else 4
  }

  /** skipField passes a written length-delimited field: its frame, whatever the body. */
  lemma SkipFrameReadBack(buf: seq<byte>, c: Cursor, tag: int, body: seq<byte>)
    requires GetTagWireType(tag) == WIRETYPE_LENGTH_DELIMITED && FrameAt(buf, c, body)
    ensures Skip(buf, c, tag) == Ok((true, c.(offset := FrameEnd(c, body))))
  {
    FrameLength(buf, c, body);
  }

  /** skipField passes a written varint field, whatever its value. */
  lemma SkipVarintReadBack(buf: seq<byte>, c: Cursor, tag: int, value: u32)
    requires GetTagWireType(tag) == WIRETYPE_VARINT
    requires c.packedLimit != 0 || GetTagWireType(c.lastTag) != WIRETYPE_LENGTH_DELIMITED
    requires At(buf, c.offset, Varints.Varint(value))
    ensures Skip(buf, c, tag) == Ok((true, c.(offset := c.offset + |Varints.Varint(value)|)))
  {
    assert ToU32(value) == value;
    U32ReadBack(buf, c, value);
    SkipVarint(buf, c, tag, ToI32(value), c.(offset := c.offset + |Varints.Varint(value)|));
  }

  /** Outside a packed field, skipField passes a varint as far as readInt32 reads it. */
  lemma SkipVarint(buf: seq<byte>, c: Cursor, tag: int, v: i32, next: Cursor)
    requires GetTagWireType(tag) == WIRETYPE_VARINT
    requires c.packedLimit != 0 || GetTagWireType(c.lastTag) != WIRETYPE_LENGTH_DELIMITED
    requires Varint32(buf, c) == Ok((v, next))
    ensures Skip(buf, c, tag) == Ok((true, next))
  {
    assert PackedCheck(buf, c) == Ok(c);
    assert Checked(PackedCheck(buf, c), c1 => Varint32(buf, c1)) == Ok((v, next));
  }

  /** skipField passes exactly the width of a fixed-width field. */
  lemma SkipFixedReadBack(buf: seq<byte>, c: Cursor, tag: int)
    requires GetTagWireType(tag) in {WIRETYPE_FIXED64, WIRETYPE_FIXED8, WIRETYPE_FIXED16, WIRETYPE_FIXED32}
    requires c.packedLimit != 0 || GetTagWireType(c.lastTag) != WIRETYPE_LENGTH_DELIMITED
    requires c.offset + FixedWidth(GetTagWireType(tag)) <= |buf|
    ensures Skip(buf, c, tag) == Ok((true, c.(offset := c.offset + FixedWidth(GetTagWireType(tag)))))
  {
  }

  // ---------------------------------------------------------------------
  // Collections
  // ---------------------------------------------------------------------

  /**
   * Inside an open packed field, `reader` gives `x` back from the non-empty
   * bytes `enc` wherever they lie before the limit, moving the offset just
   * past them and changing nothing else.
   */
  ghost predicate Decodes<T>(reader: Reader<T>, enc: seq<byte>, x: T)
  {
    |enc| > 0
    && forall buf: seq<byte>, c: Cursor :: c.packedLimit != 0 && c.offset + |enc| <= c.limit && At(buf, c.offset, enc) ==>
      reader(buf, c) == Ok((x, c.(offset := c.offset + |enc|)))
  }

  /** The element encodings `encs` decode, one by one, to `xs`. */
  ghost predicate DecodesAll<T>(reader: Reader<T>, encs: seq<seq<byte>>, xs: seq<T>)
  {
    |encs| == |xs| && forall i :: 0 <= i < |xs| ==> Decodes(reader, encs[i], xs[i])
  }

  /** The first string, then the concatenation of the rest. */
  lemma ConcatFront(encs: seq<seq<byte>>)
    requires |encs| > 0
    ensures OutputCollections.Concat(encs) == encs[0] + OutputCollections.Concat(encs[1..])
  {
    var first: seq<seq<byte>> := encs[..1];
    assert first + encs[1..] == encs;
    OutputCollections.ConcatAppend(first, encs[1..]);
    OutputCollections.ConcatSingle(encs[0]);
    assert first == [encs[0]];
  }

  /** The encodings one after another, first to last: the order the reader meets them in. */
  function Joined(encs: seq<seq<byte>>): seq<byte>
  {
    if |encs| == 0 then [] else encs[0] + Joined(encs[1..])
  }

  /** Joining from the front gives writeList's concatenation, which is built from the back. */
  lemma {:induction false} JoinedConcat(encs: seq<seq<byte>>)
    ensures Joined(encs) == OutputCollections.Concat(encs)
    decreases |encs|
  {
    if |encs| > 0 {
      JoinedConcat(encs[1..]);
      ConcatFront(encs);
    }
  }

  /**
   * The first of the written elements reads back, and the rest of them
   * lie right after it.
   */
  lemma FirstReadBack<T>(reader: Reader<T>, buf: seq<byte>, c: Cursor, encs: seq<seq<byte>>, xs: seq<T>)
    requires DecodesAll(reader, encs, xs) && |xs| > 0
    requires At(buf, c.offset, Joined(encs))
    requires c.packedLimit != 0 && c.offset + |Joined(encs)| <= c.limit
    ensures |encs[0]| > 0
    ensures reader(buf, c) == Ok((xs[0], c.(offset := c.offset + |encs[0]|)))
    ensures At(buf, c.offset + |encs[0]|, Joined(encs[1..]))
    ensures DecodesAll(reader, encs[1..], xs[1..])
  {
    AtSplit(buf, c.offset, encs[0], Joined(encs[1..]));
    assert Decodes(reader, encs[0], xs[0]);
    forall i | 0 <= i < |xs| - 1 ensures Decodes(reader, encs[1..][i], xs[1..][i]) {
      assert Decodes(reader, encs[i + 1], xs[i + 1]);
    }
  }

  /**
   * The do-while loop of readList reads back every element of a packed
   * field filled by writeList's loop, in order, and stops at its end.
   */
  lemma {:induction false} ElementsReadBack<T>(reader: Reader<T>, buf: seq<byte>, c: Cursor, encs: seq<seq<byte>>, xs: seq<T>)
    requires Advances(reader) && DecodesAll(reader, encs, xs) && |xs| > 0
    requires At(buf, c.offset, Joined(encs))
    requires c.packedLimit == c.offset + |Joined(encs)| <= c.limit
    ensures Elements(reader, buf, c) == Ok((xs, c.(offset := c.packedLimit)))
    decreases |xs|
  {
    FirstReadBack(reader, buf, c, encs, xs);
    var c1 := c.(offset := c.offset + |encs[0]|);
    if |xs| == 1 {
      assert xs == [xs[0]];
    } else {
      assert |encs[1..][0]| > 0 by {
        assert Decodes(reader, encs[1..][0], xs[1..][0]);
      }
      ElementsReadBack(reader, buf, c1, encs[1..], xs[1..]);
      assert xs == [xs[0]] + xs[1..];
    }
  }

  /** readArray's loop reads back the `|xs|` elements writeArray's loop wrote, in order. */
  lemma {:induction false} RepeatReadBack<T>(reader: Reader<T>, buf: seq<byte>, c: Cursor, encs: seq<seq<byte>>, xs: seq<T>)
    requires DecodesAll(reader, encs, xs)
    requires At(buf, c.offset, Joined(encs))
    requires c.packedLimit != 0 && c.offset + |Joined(encs)| <= c.limit
    ensures Repeat(reader, buf, c, |xs|) == Ok((xs, c.(offset := c.offset + |Joined(encs)|)))
    decreases |xs|
  {
    if |xs| > 0 {
      FirstReadBack(reader, buf, c, encs, xs);
      var c1 := c.(offset := c.offset + |encs[0]|);
      RepeatReadBack(reader, buf, c1, encs[1..], xs[1..]);
      assert xs == [xs[0]] + xs[1..];
    } else {
      assert xs == [];
    }
  }

  /**
   * After a length-delimited tag, readList's packed check and do-while
   * loop read back the frame writeList's loop filled: the elements in
   * order, with the cursor at the frame's end.
   */
  lemma ListBodyReadBack<T>(reader: Reader<T>, buf: seq<byte>, c: Cursor, encs: seq<seq<byte>>, xs: seq<T>)
    requires Advances(reader) && DecodesAll(reader, encs, xs) && |xs| > 0
    requires c.packedLimit == 0 && GetTagWireType(c.lastTag) == WIRETYPE_LENGTH_DELIMITED
    requires FrameAt(buf, c, OutputCollections.Concat(encs))
    ensures var end := FrameEnd(c, OutputCollections.Concat(encs));
      ListOf(reader, buf, c) == Ok((xs, c.(offset := end, packedLimit := end)))
  {
    var body := OutputCollections.Concat(encs);
    var c1 := Opened(c, body);
    PackedReadBack(buf, c, body);
    JoinedConcat(encs);
    ElementsReadBack(reader, buf, c1, encs, xs);
    ListOfOpened(reader, buf, c, c1);
  }

  /** Once the packed check has opened the field, readList is its element loop. */
  lemma ListOfOpened<T>(reader: Reader<T>, buf: seq<byte>, c: Cursor, c1: Cursor)
    requires Advances(reader) && PackedCheck(buf, c) == Ok(c1)
    ensures ListOf(reader, buf, c) == Elements(reader, buf, c1)
  {
  }

  /** A length-delimited field: its tag, then a frame that ends within the limit. */
  predicate FieldAt(buf: seq<byte>, c: Cursor, fieldNumber: int, body: seq<byte>)
  {
    0 < fieldNumber < FIELD_NUMBER_BOUND && c.offset != c.limit
    && |body| < TWO_31
    && At(buf, c.offset, Output.TagBytes(fieldNumber, WIRETYPE_LENGTH_DELIMITED) + Output.Frame(body))
    && c.offset + |Output.TagBytes(fieldNumber, WIRETYPE_LENGTH_DELIMITED) + Output.Frame(body)| <= c.limit
  }

  /** The cursor readFieldNumber leaves right after a length-delimited tag. */
  function AfterTag(c: Cursor, fieldNumber: int): Cursor
  {
    var t := Output.TagBytes(fieldNumber, WIRETYPE_LENGTH_DELIMITED);
    Cursor(c.offset + |t|, c.limit, MakeTag(fieldNumber, WIRETYPE_LENGTH_DELIMITED), 0)
  }

  /** readFieldNumber reads the tag of a length-delimited field, and its frame follows. */
  lemma FieldTagReadBack(buf: seq<byte>, c: Cursor, fieldNumber: int, body: seq<byte>)
    requires FieldAt(buf, c, fieldNumber, body)
    ensures FieldNumber(buf, c) == Ok((fieldNumber, AfterTag(c, fieldNumber)))
    ensures GetTagWireType(AfterTag(c, fieldNumber).lastTag) == WIRETYPE_LENGTH_DELIMITED
    ensures FrameAt(buf, AfterTag(c, fieldNumber), body)
  {
    var t := Output.TagBytes(fieldNumber, WIRETYPE_LENGTH_DELIMITED);
    AtSplit(buf, c.offset, t, Output.Frame(body));
    FieldReadBack(buf, c, fieldNumber, WIRETYPE_LENGTH_DELIMITED);
  }

  /**
   * A non-empty writeList (or writeSet) field reads back through
   * readFieldNumber and readList (or readSet): the field number, then the
   * elements in order, with the cursor at the field's end.
   */
  lemma ListReadBack<T>(reader: Reader<T>, buf: seq<byte>, c: Cursor, fieldNumber: int, encs: seq<seq<byte>>, xs: seq<T>)
    requires Advances(reader) && DecodesAll(reader, encs, xs) && |xs| > 0
    requires FieldAt(buf, c, fieldNumber, OutputCollections.Concat(encs))
    ensures var c1 := AfterTag(c, fieldNumber);
      var end := FrameEnd(c1, OutputCollections.Concat(encs));
      FieldNumber(buf, c) == Ok((fieldNumber, c1))
      && ListOf(reader, buf, c1) == Ok((xs, c1.(offset := end, packedLimit := end)))
  {
    FieldTagReadBack(buf, c, fieldNumber, OutputCollections.Concat(encs));
    ListBodyReadBack(reader, buf, AfterTag(c, fieldNumber), encs, xs);
  }

  /** Where readArray's elements start: after the frame's length and the count. */
  function AfterCount(c: Cursor, n: i32, elements: seq<byte>): Cursor
  {
    Counted(Opened(c, Output.I32Bytes(n) + elements), n)
  }

  /** The cursor once the count `n` is read. */
  function Counted(inside: Cursor, n: i32): Cursor
  {
    inside.(offset := inside.offset + |Output.I32Bytes(n)|)
  }

  /**
   * After a length-delimited tag, readArray's packed check and count read
   * back the count writeArray wrote at the head of its frame; the elements
   * follow it up to the frame's end.
   */
  lemma ArrayCountReadBack(buf: seq<byte>, c: Cursor, n: i32, elements: seq<byte>)
    requires c.packedLimit == 0 && GetTagWireType(c.lastTag) == WIRETYPE_LENGTH_DELIMITED
    requires FrameAt(buf, c, Output.I32Bytes(n) + elements)
    ensures Checked(PackedCheck(buf, c), c2 => Varint32(buf, c2)) == Ok((n, AfterCount(c, n, elements)))
    ensures At(buf, AfterCount(c, n, elements).offset, elements)
    ensures AfterCount(c, n, elements).offset + |elements| == FrameEnd(c, Output.I32Bytes(n) + elements)
    ensures FrameEnd(c, Output.I32Bytes(n) + elements) <= c.limit
  {
    var count := Output.I32Bytes(n);
    var body := count + elements;
    var c1 := Opened(c, body);
    PackedReadBack(buf, c, body);
    AtSplit(buf, c1.offset, count, elements);
    CountReadBack(buf, PackedCheck(buf, c), c1, n);
  }

  /**
   * After a length-delimited tag, readArray's packed check, count and
   * loop read back the frame writeArray filled: the count is the one
   * written, and the elements come back in order, none included.
   */
  lemma ArrayBodyReadBack<T>(reader: Reader<T>, buf: seq<byte>, c: Cursor, encs: seq<seq<byte>>, xs: seq<T>)
    requires DecodesAll(reader, encs, xs) && |xs| < TWO_31
    requires c.packedLimit == 0 && GetTagWireType(c.lastTag) == WIRETYPE_LENGTH_DELIMITED
    requires FrameAt(buf, c, Output.I32Bytes(|xs|) + OutputCollections.Concat(encs))
    ensures var end := FrameEnd(c, Output.I32Bytes(|xs|) + OutputCollections.Concat(encs));
      ArrayOf(reader, buf, c) == Ok((xs, c.(offset := end, packedLimit := end)))
  {
    var elements := OutputCollections.Concat(encs);
    ArrayCountReadBack(buf, c, |xs|, elements);
    var c2 := AfterCount(c, |xs|, elements);
    JoinedConcat(encs);
    RepeatReadBack(reader, buf, c2, encs, xs);
    ArrayOfCounted(reader, buf, c, |xs|, c2);
  }

  /** Once the packed check has opened the field, readArray's count is the i32 writeArray wrote. */
  lemma CountReadBack(buf: seq<byte>, check: Result<Cursor>, inside: Cursor, n: i32)
    requires check == Ok(inside) && At(buf, inside.offset, Output.I32Bytes(n))
    ensures Checked(check, c2 => Varint32(buf, c2)) == Ok((n, Counted(inside, n)))
  {
    I32ReadBack(buf, inside, n);
  }

  /** Once readArray has its count, what follows is its element loop. */
  lemma ArrayOfCounted<T>(reader: Reader<T>, buf: seq<byte>, c: Cursor, n: i32, c1: Cursor)
    requires Checked(PackedCheck(buf, c), c2 => Varint32(buf, c2)) == Ok((n, c1)) && n >= 0
    ensures ArrayOf(reader, buf, c) == Repeat(reader, buf, c1, n)
  {
  }

  /**
   * A writeArray field reads back through readFieldNumber and readArray:
   * the field number, then the elements in order, with the cursor at the
   * field's end.
   */
  lemma ArrayReadBack<T>(reader: Reader<T>, buf: seq<byte>, c: Cursor, fieldNumber: int, encs: seq<seq<byte>>, xs: seq<T>)
    requires DecodesAll(reader, encs, xs) && |xs| < TWO_31
    requires FieldAt(buf, c, fieldNumber, Output.I32Bytes(|xs|) + OutputCollections.Concat(encs))
    ensures var c1 := AfterTag(c, fieldNumber);
      var end := FrameEnd(c1, Output.I32Bytes(|xs|) + OutputCollections.Concat(encs));
      FieldNumber(buf, c) == Ok((fieldNumber, c1))
      && ArrayOf(reader, buf, c1) == Ok((xs, c1.(offset := end, packedLimit := end)))
  {
    FieldTagReadBack(buf, c, fieldNumber, Output.I32Bytes(|xs|) + OutputCollections.Concat(encs));
    ArrayBodyReadBack(reader, buf, AfterTag(c, fieldNumber), encs, xs);
  }

  /** A key then a value, written one after the other, read back as the pair. */
  lemma PairedDecodes<K, V>(keys: Reader<K>, values: Reader<V>, ke: seq<byte>, ve: seq<byte>, k: K, v: V)
    requires Decodes(keys, ke, k) && Decodes(values, ve, v)
    ensures Decodes(Paired(keys, values), ke + ve, (k, v))
  {
    forall buf: seq<byte>, c: Cursor | c.packedLimit != 0 && c.offset + |ke + ve| <= c.limit && At(buf, c.offset, ke + ve)
      ensures Paired(keys, values)(buf, c) == Ok(((k, v), c.(offset := c.offset + |ke + ve|)))
    {
      AtSplit(buf, c.offset, ke, ve);
      var c1 := c.(offset := c.offset + |ke|);
      assert keys(buf, c) == Ok((k, c1));
      assert values(buf, c1) == Ok((v, c1.(offset := c1.offset + |ve|)));
    }
  }

  /** The entries writeMap keeps, each as its key's bytes followed by its value's. */
  function PairEncodings(entries: seq<OutputCollections.Entry>): (r: seq<seq<byte>>)
    ensures 2 * |r| == |OutputCollections.KeptPairs(entries)|
  {
    if |entries| == 0 then []
    else
      var e := entries[|entries| - 1];
      PairEncodings(entries[..|entries| - 1]) + (if OutputCollections.Kept(e) then [e.key + e.value] else [])
  }

  /** writeMap's bytes are the kept pairs one after another. */
  lemma {:induction false} KeptPairsConcat(entries: seq<OutputCollections.Entry>)
    ensures OutputCollections.Concat(OutputCollections.KeptPairs(entries)) == OutputCollections.Concat(PairEncodings(entries))
  {
    if |entries| > 0 {
      var n := |entries| - 1;
      var e := entries[n];
      KeptPairsConcat(entries[..n]);
      if OutputCollections.Kept(e) {
        var flat, paired := OutputCollections.KeptPairs(entries[..n]), PairEncodings(entries[..n]);
        OutputCollections.ConcatAppend(flat, [e.key, e.value]);
        OutputCollections.ConcatAppend(paired, [e.key + e.value]);
        var two: seq<seq<byte>>, one: seq<seq<byte>>, joined: seq<seq<byte>> := [e.key, e.value], [e.key], [e.key + e.value];
        assert two[..1] == one && one[..0] == [] && joined[..0] == [];
        assert OutputCollections.Concat([e.key, e.value]) == e.key + e.value;
      } else {
        assert OutputCollections.KeptPairs(entries) == OutputCollections.KeptPairs(entries[..n]);
        assert PairEncodings(entries) == PairEncodings(entries[..n]);
      }
    }
  }

  /**
   * A writeMap field whose kept entries read back as `pairs` reads back
   * through readFieldNumber and readMap's pair reads; readMap then builds
   * MapOf(pairs), where a later key replaces an earlier one.
   */
  lemma MapReadBack<K, V>(keys: Reader<K>, values: Reader<V>, buf: seq<byte>, c: Cursor, fieldNumber: int,
                          entries: seq<OutputCollections.Entry>, pairs: seq<(K, V)>)
    requires Advances(keys) && Advances(values)
    requires DecodesAll(Paired(keys, values), PairEncodings(entries), pairs) && |pairs| > 0
    requires FieldAt(buf, c, fieldNumber, OutputCollections.Concat(OutputCollections.KeptPairs(entries)))
    ensures var c1 := AfterTag(c, fieldNumber);
      var end := FrameEnd(c1, OutputCollections.Concat(OutputCollections.KeptPairs(entries)));
      FieldNumber(buf, c) == Ok((fieldNumber, c1))
      && ListOf(Paired(keys, values), buf, c1) == Ok((pairs, c1.(offset := end, packedLimit := end)))
  {
    KeptPairsConcat(entries);
    ListReadBack(Paired(keys, values), buf, c, fieldNumber, PairEncodings(entries), pairs);
  }
}
