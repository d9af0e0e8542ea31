/**
 * Fixed-width little-endian integers: the byte layouts that
 * `IntSerializer` stores into a caller's buffer and that the reader
 * (`readRawLittleEndian16/32/64`) assembles again.
 *
 * The byte functions (`LE16`, `LE32`, `LE64`) and their decoders
 * (`FromLE16`, `FromLE32`, `FromLE64`) are the specification; the methods
 * store into an `array<byte>` in place and are proved against them.
 */
module IntSerializer {
  import opened Bytes
  import opened ZigZag

  /** The two bytes of the low 16 bits of `value`, least significant first. */
  function LE16(value: int): (r: seq<byte>)
    ensures |r| == 2
  {
    var u := ToU32(value);
    [u % 0x100, (u / 0x100) % 0x100]
  }

  /** `(value >>> 8k) & 0xFF` for k = 0..3. */
  function LE32(value: int): (r: seq<byte>)
    ensures |r| == 4
  {
    var u := ToU32(value);
    [u % 0x100, (u / 0x100) % 0x100, (u / 0x1_0000) % 0x100, (u / 0x100_0000) % 0x100]
  }

  /** The eight bytes of a (low, high) pair: the low word first. */
  function LE64(value: Pair): (r: seq<byte>)
    ensures |r| == 8
  {
    LE32(value.low) + LE32(value.high)
  }

  /** `b1 | b2 << 8`: the unsigned 16-bit value of two bytes. */
  function FromLE16(b: seq<byte>): (r: int)
    requires |b| == 2
    ensures 0 <= r < 0x1_0000
  {
    b[0] as int + b[1] as int * 0x100
  }

  /** The four bytes as an unsigned word. */
  function WordOf(b: seq<byte>): (r: u32)
    requires |b| == 4
  {
    b[0] as int + b[1] as int * 0x100 + b[2] as int * 0x1_0000 + b[3] as int * 0x100_0000
  }

  /** `b1 | b2 << 8 | b3 << 16 | b4 << 24`, which JavaScript reads as a signed word. */
  function FromLE32(b: seq<byte>): (r: i32)
    requires |b| == 4
  {
    ToI32(WordOf(b))
  }

  /** `Long.fromBytesLE(b, false)` as a (low, high) pair of unsigned words. */
  function FromLE64(b: seq<byte>): (r: Pair)
    requires |b| == 8
  {
    Pair(WordOf(b[..4]), WordOf(b[4..]))
  }

  lemma {:induction false} WordOfLE32(value: int)
    ensures WordOf(LE32(value)) == ToU32(value)
  {
    var u := ToU32(value);
    var q1 := u / 0x100;
    var q2 := q1 / 0x100;
    var q3 := q2 / 0x100;
    assert u == u % 0x100 + 0x100 * q1;
    assert q1 == q1 % 0x100 + 0x100 * q2;
    assert q2 == q2 % 0x100 + 0x100 * q3;
    assert q2 == u / 0x1_0000;
    assert q3 == u / 0x100_0000;
  }

  lemma {:induction false} LE32WordOf(b: seq<byte>)
    requires |b| == 4
    ensures LE32(WordOf(b)) == b
  {
    var u := WordOf(b);
    assert u / 0x100 == b[1] as int + b[2] as int * 0x100 + b[3] as int * 0x1_0000;
    assert u / 0x1_0000 == b[2] as int + b[3] as int * 0x100;
    assert u / 0x100_0000 == b[3];
  }

  /** Reading back the four bytes that `writeInt32LE` stores yields the value as a signed word. */
  lemma LE32RoundTrip(value: int)
    ensures FromLE32(LE32(value)) == ToI32(value)
    ensures -TWO_31 <= value < TWO_31 ==> FromLE32(LE32(value)) == value
  {
    WordOfLE32(value);
  }

  /** Every four bytes are the layout of exactly the word they decode to. */
  lemma LE32Inverse(b: seq<byte>)
    requires |b| == 4
    ensures LE32(FromLE32(b)) == b
  {
    LE32WordOf(b);
  }

  lemma LE16RoundTrip(value: int)
    ensures FromLE16(LE16(value)) == ToU32(value) % 0x1_0000
    ensures 0 <= value < 0x1_0000 ==> FromLE16(LE16(value)) == value
  {
    var u := ToU32(value);
    var q1 := u / 0x100;
    assert u == 0x100 * q1 + u % 0x100;
    assert q1 == 0x100 * (q1 / 0x100) + q1 % 0x100;
    Low16(u, u % 0x100, q1 % 0x100, q1 / 0x100);
  }

  lemma Low16(u: int, r0: int, r1: int, q: int)
    requires u == 0x1_0000 * q + 0x100 * r1 + r0 && 0 <= r0 < 0x100 && 0 <= r1 < 0x100
    ensures u % 0x1_0000 == r0 + 0x100 * r1
  {
  }

  lemma LE16Inverse(b: seq<byte>)
    requires |b| == 2
    ensures LE16(FromLE16(b)) == b
  {
    assert FromLE16(b) / 0x100 == b[1];
  }

  lemma LE64RoundTrip(value: Pair)
    ensures FromLE64(LE64(value)) == value
  {
    WordOfLE32(value.low);
    WordOfLE32(value.high);
    assert LE64(value)[..4] == LE32(value.low);
    assert LE64(value)[4..] == LE32(value.high);
  }

  lemma LE64Inverse(b: seq<byte>)
    requires |b| == 8
    ensures LE64(FromLE64(b)) == b
  {
    LE32WordOf(b[..4]);
    LE32WordOf(b[4..]);
    assert b == b[..4] + b[4..];
  }

  /**
   * `writeInt32LE`: the four bytes of `value`, least significant first, at
   * `offset`; nothing else in `buffer` changes.
   */
  method WriteInt32LE(value: int, buffer: array<byte>, offset: nat)
    requires offset + 4 <= buffer.Length
    modifies buffer
    ensures buffer[..] == Overwrite(old(buffer[..]), offset, LE32(value))
  {
    var u := ToU32(value);
    buffer[offset] := u % 0x100;
    buffer[offset + 1] := (u / 0x100) % 0x100;
    buffer[offset + 2] := (u / 0x1_0000) % 0x100;
    buffer[offset + 3] := (u / 0x100_0000) % 0x100;
  }

  /** `writeInt64LE`: `toBytesLE()` of the pair, stored at `offset`. */
  method WriteInt64LE(value: Pair, buffer: array<byte>, offset: nat)
    requires offset + 8 <= buffer.Length
    modifies buffer
    ensures buffer[..] == Overwrite(old(buffer[..]), offset, LE64(value))
  {
    var b := LE64(value);
    var k := 0;
    while k < 8
      invariant 0 <= k <= 8
      invariant buffer[..] == Overwrite(old(buffer[..]), offset, b[..k])
    {
      buffer[offset + k] := b[k];
      assert b[..k + 1] == b[..k] + [b[k]];
      k := k + 1;
    }
    assert b[..8] == b;
  }

  /**
   * `writeInt16LE` as written: only `(value >>> 8) & 0xFF` is stored, at
   * `offset`, and `offset + 1` keeps whatever it held.
   */
  method WriteInt16LEAsWritten(value: int, buffer: array<byte>, offset: nat)
    requires offset + 2 <= buffer.Length
    modifies buffer
    ensures buffer[..] == old(buffer[..])[offset := HighByte16(value)]
  {
    buffer[offset] := HighByte16(value);
  }

  function HighByte16(value: int): (r: byte)
    ensures r == LE16(value)[1]
  {
    (ToU32(value) / 0x100) % 0x100
  }

  /**
   * What the as-written store leaves in a zeroed pair of bytes for 0x0102:
   * the reader assembles 0x0001 instead of 0x0102.
   */
  lemma WriteInt16LEAsWrittenLosesLowByte()
    ensures FromLE16([0, 0][0 := HighByte16(0x0102)]) == 0x0001
    ensures FromLE16(LE16(0x0102)) == 0x0102
  {
  }

  /** `writeInt16LE` as its callers use it: two bytes, least significant first. */
  method WriteInt16LE(value: int, buffer: array<byte>, offset: nat)
    requires offset + 2 <= buffer.Length
    modifies buffer
    ensures buffer[..] == Overwrite(old(buffer[..]), offset, LE16(value))
  {
    var u := ToU32(value);
    buffer[offset] := u % 0x100;
    buffer[offset + 1] := (u / 0x100) % 0x100;
  }
}
