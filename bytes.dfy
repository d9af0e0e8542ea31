/**
 * Machine words as the TypeScript source sees them. JavaScript numbers are
 * doubles; the bitwise operators first convert their operands with ToInt32
 * or ToUint32, and a store into a Uint8Array converts with ToUint8. Those
 * three conversions are written out here so that the rest of the model can
 * say exactly where the source truncates.
 */
module Bytes {

  type byte = x: int | 0 <= x < 0x100
  type u32 = x: int | 0 <= x < 0x1_0000_0000
  type i32 = x: int | -0x8000_0000 <= x < 0x8000_0000

  const TWO_31: int := 0x8000_0000
  const TWO_32: int := 0x1_0000_0000

  /** ECMAScript ToUint32 on an integral number. */
  function ToU32(x: int): (r: u32)
    ensures 0 <= x < TWO_32 ==> r == x
  {
    x % TWO_32
  }

  /** ECMAScript ToInt32 on an integral number. */
  function ToI32(x: int): (r: i32)
    ensures -TWO_31 <= x < TWO_31 ==> r == x
    ensures ToU32(r) == ToU32(x)
  {
    var u := ToU32(x);
    if u < TWO_31 then u else u - TWO_32
  }

  /** ECMAScript ToUint8: what a store into a Uint8Array keeps. */
  function ToByte(x: int): (r: byte)
    ensures 0 <= x < 0x100 ==> r == x
    ensures (x - r) % 0x100 == 0
  {
    x % 0x100
  }

  /** `s` with the bytes of `b` written from index `at` on. */
  function Overwrite(s: seq<byte>, at: nat, b: seq<byte>): (r: seq<byte>)
    requires at + |b| <= |s|
    ensures |r| == |s|
    ensures r[..at] == s[..at] && r[at..at + |b|] == b && r[at + |b|..] == s[at + |b|..]
  {
    s[..at] + b + s[at + |b|..]
  }

  function Zeros(n: nat): (r: seq<byte>)
    ensures |r| == n && forall i :: 0 <= i < n ==> r[i] == 0
  {
    seq(n, _ => 0)
  }
}
