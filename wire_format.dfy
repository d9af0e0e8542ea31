/**
 * Tag layout (src/WireFormat.ts): a tag packs a field number above a 3-bit
 * wire-type code. The source works on 32-bit words, so `<<` wraps and `>>>`
 * reads the tag as unsigned.
 */
module WireFormat {
  import opened Bytes

  const WIRETYPE_VARINT: int := 0
  const WIRETYPE_FIXED64: int := 1
  const WIRETYPE_LENGTH_DELIMITED: int := 2
  const WIRETYPE_FIXED8: int := 3
  const WIRETYPE_FIXED16: int := 4
  const WIRETYPE_FIXED32: int := 5

  const TAG_TYPE_BITS: int := 3
  /** `(1 << TAG_TYPE_BITS) - 1` */
  const TAG_TYPE_MASK: int := 7

  /** The number of field numbers a tag can carry: `2^(32 - TAG_TYPE_BITS)`. */
  const FIELD_NUMBER_BOUND: int := 0x2000_0000

  /** `tag & TAG_TYPE_MASK`: always one of the eight wire-type codes. */
  function GetTagWireType(tag: int): (w: int)
    ensures 0 <= w <= TAG_TYPE_MASK
    ensures ToU32(tag) == ToU32(tag) / 8 * 8 + w
  {
    ToU32(tag) % 8
  }

  /** `tag >>> TAG_TYPE_BITS`: unsigned, so never negative and below 2^29. */
  function GetTagFieldNumber(tag: int): (f: int)
    ensures 0 <= f < FIELD_NUMBER_BOUND
    ensures ToU32(tag) == f * 8 + GetTagWireType(tag)
  {
    ToU32(tag) / 8
  }

  /**
   * `(fieldNumber << TAG_TYPE_BITS) | wireType` as a signed 32-bit result.
   * Callers pass one of the wire-type constants, so the `|` never touches
   * the shifted field number and acts as an addition.
   */
  function MakeTag(fieldNumber: int, wireType: int): (tag: i32)
    requires 0 <= wireType <= TAG_TYPE_MASK
    ensures ToU32(tag) == ToU32(fieldNumber * 8 + wireType)
  {
    ToI32(fieldNumber * 8 + wireType)
  }

  lemma U32Mod8(x: int)
    ensures ToU32(x) % 8 == x % 8
  {
    var q := x / TWO_32;
    assert x == q * TWO_32 + ToU32(x);
    assert q * TWO_32 == (q * 0x2000_0000) * 8;
  }

  /** The wire type survives packing, whatever the field number. */
  lemma WireTypeRoundTrip(fieldNumber: int, wireType: int)
    requires 0 <= wireType <= TAG_TYPE_MASK
    ensures GetTagWireType(MakeTag(fieldNumber, wireType)) == wireType
  {
    var t := MakeTag(fieldNumber, wireType);
    U32Mod8(fieldNumber * 8 + wireType);
    assert (fieldNumber * 8 + wireType) % 8 == wireType;
  }

  /** The field number survives packing when it fits the 29 bits above the type. */
  lemma FieldNumberRoundTrip(fieldNumber: int, wireType: int)
    requires 0 <= wireType <= TAG_TYPE_MASK
    requires 0 <= fieldNumber < FIELD_NUMBER_BOUND
    ensures GetTagFieldNumber(MakeTag(fieldNumber, wireType)) == fieldNumber
  {
    assert 0 <= fieldNumber * 8 + wireType < TWO_32;
  }

  /**
   * A length-delimited tag for a field number below 16 fits a single varint
   * byte; writeMessage relies on this to write such tags directly.
   */
  lemma SmallFieldTagIsOneByte(fieldNumber: int)
    requires 1 <= fieldNumber < 16
    ensures 0 < MakeTag(fieldNumber, WIRETYPE_LENGTH_DELIMITED) < 128
    ensures ToU32(MakeTag(fieldNumber, WIRETYPE_LENGTH_DELIMITED)) == fieldNumber * 8 + 2
  {
  }
}
