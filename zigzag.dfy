/**
 * ZigZag encoding of signed integers (encodeZigZag32/64 in
 * src/ProtobjOutput.ts and the decoding in readS32/readS64_NoCheck in
 * src/ProtobjInput.ts). The source computes on 32-bit words with shifts and
 * xor against a sign mask. The mask is either all zeros or all ones, so the
 * xor either keeps its operand or complements it; the model writes the
 * words as unsigned integers and spells each operator out that way.
 */
module ZigZag {
  import opened Bytes

  /** Bitwise NOT of an unsigned word (xor with the all-ones mask). */
  function Complement(x: u32): (r: u32)
    ensures r + x == TWO_32 - 1
  {
    TWO_32 - 1 - x
  }

  /** `x ^ mask` for a mask that is `n >> 31` (or `-(n & 1)`): all ones exactly when `negative`. */
  function XorMask(x: u32, negative: bool): u32
  {
    if negative then Complement(x) else x
  }

  /** `(n << 1) ^ (n >> 31)` on the unsigned view of n; the sign is the top bit. */
  function EncodeZigZag32(n: u32): u32
  {
    XorMask((2 * n) % TWO_32, n >= TWO_31)
  }

  /** `(n >>> 1) ^ -(n & 1)`, the decoding readS32 applies. */
  function DecodeZigZag32(n: u32): u32
  {
    XorMask(n / 2, n % 2 == 1)
  }

  /** What the encoding means for the signed value: 2v for v >= 0, -2v - 1 below. */
  lemma ZigZag32Meaning(v: i32)
    ensures EncodeZigZag32(ToU32(v)) == if v >= 0 then 2 * v else -2 * v - 1
  {
    if v < 0 {
      assert ToU32(v) == v + TWO_32;
      assert (2 * (v + TWO_32)) % TWO_32 == 2 * v + TWO_32;
    }
  }

  /** Decoding undoes encoding on every 32-bit word. */
  lemma ZigZag32RoundTrip(n: u32)
    ensures DecodeZigZag32(EncodeZigZag32(n)) == n
  {
    if n < TWO_31 {
      assert (2 * n) % TWO_32 == 2 * n;
    } else {
      assert (2 * n) % TWO_32 == 2 * n - TWO_32;
    }
  }

  /** ... and encoding undoes decoding, so the encoding is a bijection. */
  lemma ZigZag32Bijective(n: u32)
    ensures EncodeZigZag32(DecodeZigZag32(n)) == n
  {
    var d := DecodeZigZag32(n);
    if n % 2 == 0 {
      assert d == n / 2 < TWO_31;
      assert (2 * d) % TWO_32 == n;
    } else {
      assert d == TWO_32 - 1 - n / 2 >= TWO_31;
      assert (2 * d) % TWO_32 == TWO_32 - 2 - 2 * (n / 2);
    }
  }

  /** Small magnitudes stay small: -1 maps to 1, 1 to 2, the extremes to the top. */
  lemma ZigZag32Examples()
    ensures EncodeZigZag32(ToU32(-1)) == 1
    ensures EncodeZigZag32(ToU32(1)) == 2
    ensures EncodeZigZag32(ToU32(-2)) == 3
    ensures EncodeZigZag32(ToU32(0x7FFF_FFFF)) == 0xFFFF_FFFE
    ensures EncodeZigZag32(ToU32(-0x8000_0000)) == 0xFFFF_FFFF
  {
  }

  /** A 64-bit value as the source carries it: two unsigned 32-bit words. */
  datatype Pair = Pair(low: u32, high: u32)
  {
    /** The unsigned 64-bit value the pair stands for. */
    function Value(): nat
    {
      high * TWO_32 + low
    }
  }

  /**
   * encodeZigZag64: `high = (high << 1 | low >>> 31) ^ mask`,
   * `low = (low << 1) ^ mask` with `mask = high >> 31`. The two `|` operands
   * occupy different bits, so the `|` adds.
   */
  function EncodeZigZag64(v: Pair): Pair
  {
    var negative := v.high >= TWO_31;
    Pair(XorMask((2 * v.low) % TWO_32, negative),
         XorMask((2 * v.high) % TWO_32 + v.low / TWO_31, negative))
  }

  /**
   * readS64_NoCheck: `mask = -(low & 1)`,
   * `low = (low >>> 1 | high << 31) ^ mask`, `high = (high >>> 1) ^ mask`.
   */
  function DecodeZigZag64(v: Pair): Pair
  {
    var negative := v.low % 2 == 1;
    Pair(XorMask(v.low / 2 + (v.high % 2) * TWO_31, negative),
         XorMask(v.high / 2, negative))
  }

  /** Over the whole pair the encoding is the 64-bit ZigZag map. */
  lemma ZigZag64Meaning(v: Pair)
    ensures v.Value() < TWO_32 * TWO_31 ==> EncodeZigZag64(v).Value() == 2 * v.Value()
    ensures v.Value() >= TWO_32 * TWO_31 ==>
      EncodeZigZag64(v).Value() == 2 * (TWO_32 * TWO_32 - v.Value()) - 1
  {
    var e := EncodeZigZag64(v);
    if v.high < TWO_31 {
      assert (2 * v.high) % TWO_32 == 2 * v.high;
    } else {
      assert (2 * v.high) % TWO_32 == 2 * v.high - TWO_32;
    }
    if v.low < TWO_31 {
      assert (2 * v.low) % TWO_32 == 2 * v.low && v.low / TWO_31 == 0;
    } else {
      assert (2 * v.low) % TWO_32 == 2 * v.low - TWO_32 && v.low / TWO_31 == 1;
    }
  }

  lemma ZigZag64RoundTrip(v: Pair)
    ensures DecodeZigZag64(EncodeZigZag64(v)) == v
  {
    if v.high < TWO_31 {
      assert (2 * v.high) % TWO_32 == 2 * v.high;
    } else {
      assert (2 * v.high) % TWO_32 == 2 * v.high - TWO_32;
    }
    if v.low < TWO_31 {
      assert (2 * v.low) % TWO_32 == 2 * v.low && v.low / TWO_31 == 0;
    } else {
      assert (2 * v.low) % TWO_32 == 2 * v.low - TWO_32 && v.low / TWO_31 == 1;
    }
  }

  lemma ZigZag64Bijective(v: Pair)
    ensures EncodeZigZag64(DecodeZigZag64(v)) == v
  {
    var d := DecodeZigZag64(v);
    if v.low % 2 == 0 {
      assert d.high == v.high / 2 < TWO_31;
      assert (2 * d.high) % TWO_32 == 2 * (v.high / 2);
    } else {
      assert d.high == TWO_32 - 1 - v.high / 2 >= TWO_31;
      assert (2 * d.high) % TWO_32 == TWO_32 - 2 - 2 * (v.high / 2);
    }
    var l := v.low / 2 + (v.high % 2) * TWO_31;
    if v.high % 2 == 0 {
      assert l < TWO_31;
    } else {
      assert l >= TWO_31;
    }
  }

  /** -1 (all ones in both words) maps to 1, 1 maps to 2, 2^30 to 2^31, 2^31 to 2^32. */
  lemma ZigZag64Examples()
    ensures EncodeZigZag64(Pair(0xFFFF_FFFF, 0xFFFF_FFFF)) == Pair(1, 0)
    ensures EncodeZigZag64(Pair(1, 0)) == Pair(2, 0)
    ensures EncodeZigZag64(Pair(0x4000_0000, 0)) == Pair(0x8000_0000, 0)
    ensures EncodeZigZag64(Pair(0x8000_0000, 0)) == Pair(0, 1)
  {
  }
}
