/**
 * The helpers of `types` that the string writer and the byte sink use:
 * the UTF-16 surrogate tests, the surrogate-pair to code point
 * conversion, and `arraycopy`.
 *
 * Strings are sequences of UTF-16 code units, each an integer in
 * 0..0xFFFF, because that is what `charCodeAt` returns.
 */
module Extension {
  import opened Bytes

  type Unit = x: int | 0 <= x < 0x1_0000

  const MIN_HIGH_SURROGATE: int := 0xD800
  const MAX_HIGH_SURROGATE: int := 0xDBFF
  const MIN_LOW_SURROGATE: int := 0xDC00
  const MAX_LOW_SURROGATE: int := 0xDFFF
  const MIN_SUPPLEMENTARY_CODE_POINT: int := 0x1_0000

  predicate IsHighSurrogate(ch: int)
  {
    MIN_HIGH_SURROGATE <= ch < MAX_HIGH_SURROGATE + 1
  }

  predicate IsLowSurrogate(ch: int)
  {
    MIN_LOW_SURROGATE <= ch < MAX_LOW_SURROGATE + 1
  }

  /**
   * `((high << 10) + low) + (0x10000 - (0xD800 << 10) - 0xDC00)`: the code
   * point of a surrogate pair. Both shifts stay inside 32 bits for these
   * operands, so they are plain multiplications by 1024.
   */
  function ToCodePoint(high: int, low: int): (r: int)
    requires IsHighSurrogate(high) && IsLowSurrogate(low)
    ensures MIN_SUPPLEMENTARY_CODE_POINT <= r <= 0x10_FFFF
    ensures r == 0x1_0000 + (high - 0xD800) * 0x400 + (low - 0xDC00)
  {
    (ToI32(high * 0x400) + low) + (MIN_SUPPLEMENTARY_CODE_POINT - ToI32(MIN_HIGH_SURROGATE * 0x400) - MIN_LOW_SURROGATE)
  }

  /** The high surrogate of a supplementary code point (the inverse direction). */
  function HighOf(cp: int): int
    requires MIN_SUPPLEMENTARY_CODE_POINT <= cp <= 0x10_FFFF
  {
    0xD800 + (cp - 0x1_0000) / 0x400
  }

  function LowOf(cp: int): int
    requires MIN_SUPPLEMENTARY_CODE_POINT <= cp <= 0x10_FFFF
  {
    0xDC00 + (cp - 0x1_0000) % 0x400
  }

  /** Surrogate pairs and supplementary code points correspond one to one. */
  lemma CodePointRoundTrip(high: int, low: int)
    requires IsHighSurrogate(high) && IsLowSurrogate(low)
    ensures HighOf(ToCodePoint(high, low)) == high && LowOf(ToCodePoint(high, low)) == low
  {
    var t := (high - 0xD800) * 0x400 + (low - 0xDC00);
    assert t / 0x400 == high - 0xD800;
    assert t % 0x400 == low - 0xDC00;
  }

  lemma SurrogatesOfCodePoint(cp: int)
    requires MIN_SUPPLEMENTARY_CODE_POINT <= cp <= 0x10_FFFF
    ensures IsHighSurrogate(HighOf(cp)) && IsLowSurrogate(LowOf(cp))
    ensures ToCodePoint(HighOf(cp), LowOf(cp)) == cp
  {
  }

  /**
   * A JavaScript number as far as the surrogate bounds need one: an integer
   * or NaN. Every ordered comparison with NaN is false.
   */
  datatype Number = Finite(n: int) | NaN

  predicate AtLeast(x: int, bound: Number)
  {
    bound.Finite? && x >= bound.n
  }

  predicate Below(x: int, bound: Number)
  {
    bound.Finite? && x < bound.n
  }

  function Plus(a: Number, k: int): Number
  {
    if a.Finite? then Finite(a.n + k) else NaN
  }

  /**
   * `parseInt(s, 16)` of a one-unit string: the digit's value when the unit
   * is a hexadecimal digit, NaN otherwise.
   */
  function ParseHexUnit(u: Unit): (r: Number)
    ensures r.Finite? <==> (0x30 <= u <= 0x39 || 0x41 <= u <= 0x46 || 0x61 <= u <= 0x66)
    ensures r.Finite? ==> 0 <= r.n < 16
  {
    if 0x30 <= u <= 0x39 then Finite(u - 0x30)
    else if 0x41 <= u <= 0x46 then Finite(u - 0x41 + 10)
    else if 0x61 <= u <= 0x66 then Finite(u - 0x61 + 10)
    else NaN
  }

  /** The bounds as the source computes them: `parseInt('\uD800', 16)` and so on. */
  function HighSurrogateBoundsAsWritten(): (Number, Number)
  {
    (ParseHexUnit(0xD800), ParseHexUnit(0xDBFF))
  }

  function LowSurrogateBoundsAsWritten(): (Number, Number)
  {
    (ParseHexUnit(0xDC00), ParseHexUnit(0xDFFF))
  }

  predicate IsHighSurrogateAsWritten(ch: int)
  {
    var (lo, hi) := HighSurrogateBoundsAsWritten();
    AtLeast(ch, lo) && Below(ch, Plus(hi, 1))
  }

  predicate IsLowSurrogateAsWritten(ch: int)
  {
    var (lo, hi) := LowSurrogateBoundsAsWritten();
    AtLeast(ch, lo) && Below(ch, Plus(hi, 1))
  }

  /**
   * As written, both tests reject every unit, surrogates included, while
   * the intended tests accept 0xD83D and 0xDE00 (the pair of U+1F600).
   */
  lemma SurrogateTestsAsWrittenNeverHold(ch: int)
    ensures !IsHighSurrogateAsWritten(ch) && !IsLowSurrogateAsWritten(ch)
    ensures IsHighSurrogate(0xD83D) && IsLowSurrogate(0xDE00)
  {
  }

  /**
   * `arraycopy`: `dest.set(src.slice(srcPos, srcPos + length), destPos)`.
   * The slice is taken first, so copying within one array is safe even when
   * the ranges overlap.
   */
  method ArrayCopy(src: array<byte>, srcPos: nat, dest: array<byte>, destPos: nat, length: nat)
    requires srcPos + length <= src.Length && destPos + length <= dest.Length
    modifies dest
    ensures dest[..] == Overwrite(old(dest[..]), destPos, old(src[srcPos..srcPos + length]))
  {
    var slice := src[srcPos..srcPos + length];
    var k := 0;
    while k < length
      invariant 0 <= k <= length
      invariant dest[..] == Overwrite(old(dest[..]), destPos, slice[..k])
    {
      dest[destPos + k] := slice[k];
      assert slice[..k + 1] == slice[..k] + [slice[k]];
      k := k + 1;
    }
    assert slice[..length] == slice;
  }
}
