/**
 * Base-128 varints: the byte sequence every varint writer of the source
 * emits (WriteSink_BUFFERED.writeVarInt32/64, ProtobjOutput.writeRawVarInt32
 * and writeRawVarInt32_byteArray), its size (computeRawVarint32Size), and
 * the two decoders of src/ProtobjInput.ts as functions of the byte array
 * and the cursor.
 */
module Varints {
  import opened Bytes
  import opened ProtobjErrors
  import opened ZigZag

  /**
   * `g` moved up by `k` groups of seven bits, that is g * 128^k, written as
   * repeated multiplication by 128 so that every step stays linear.
   */
  function Shift7(g: nat, k: nat): nat
  {
    if k == 0 then g else 128 * Shift7(g, k - 1)
  }

  lemma ShiftValues(g: nat)
    ensures Shift7(g, 1) == 0x80 * g && Shift7(g, 2) == 0x4000 * g
    ensures Shift7(g, 3) == 0x20_0000 * g && Shift7(g, 4) == 0x1000_0000 * g
    ensures Shift7(g, 5) == 0x8_0000_0000 * g
  {
  }

  lemma {:induction false} ShiftPositive(k: nat)
    ensures Shift7(1, k) >= 1
  {
    if k > 0 { ShiftPositive(k - 1); }
  }

  lemma {:induction false} ShiftAdd(a: nat, b: nat, k: nat)
    ensures Shift7(a + b, k) == Shift7(a, k) + Shift7(b, k)
  {
    if k > 0 { ShiftAdd(a, b, k - 1); }
  }

  lemma {:induction false} ShiftUp(a: nat, k: nat)
    ensures Shift7(128 * a, k) == Shift7(a, k + 1)
  {
    if k > 0 { ShiftUp(a, k - 1); }
  }

  lemma {:induction false} ShiftMono(a: nat, b: nat, k: nat)
    requires a <= b
    ensures Shift7(a, k) <= Shift7(b, k)
  {
    if k > 0 { ShiftMono(a, b, k - 1); }
  }

  lemma {:induction false} PowMono(j: nat, k: nat)
    requires j <= k
    ensures Shift7(1, j) <= Shift7(1, k)
  {
    ShiftPositive(j);
    if j < k { PowMono(j, k - 1); }
  }

  /** Splitting off the lowest group: v's share at place k is its low group there plus the rest one place up. */
  lemma Regroup(v: nat, k: nat)
    ensures Shift7(v, k) == Shift7(v % 128, k) + Shift7(v / 128, k + 1)
  {
    assert v == v % 128 + 128 * (v / 128);
    ShiftAdd(v % 128, 128 * (v / 128), k);
    ShiftUp(v / 128, k);
  }

  /** One more group below 128 still fits in one more place. */
  lemma GroupBound(lo: nat, g: nat, i: nat)
    requires lo < Shift7(1, i) && g < 128
    ensures lo + Shift7(g, i) < Shift7(1, i + 1)
  {
    ShiftMono(g, 127, i);
    ShiftAdd(127, 1, i);
    ShiftUp(1, i);
  }

  /**
   * Little-endian groups of seven bits, 0x80 on every byte but the last.
   * On a JavaScript word the loop test `(value & ~0x7F) == 0` reads the
   * unsigned value below 128, and `value >>>= 7` divides the unsigned value.
   */
  function Varint(v: nat): (r: seq<byte>)
    ensures |r| == VarintSize(v)
    ensures r[|r| - 1] < 128
  {
    if v < 128 then [v] else [v % 128 + 128] + Varint(v / 128)
  }

  function VarintSize(v: nat): (n: nat)
    ensures n >= 1
  {
    if v < 128 then 1 else 1 + VarintSize(v / 128)
  }

  /** The varint of `v` lies in `buf` from `pos` on, stated byte by byte. */
  predicate VarintAt(buf: seq<byte>, pos: nat, v: nat)
    decreases v
  {
    pos < |buf| &&
    if v < 128 then buf[pos] == v
    else buf[pos] == v % 128 + 128 && VarintAt(buf, pos + 1, v / 128)
  }

  lemma {:induction false} VarintAtSlice(buf: seq<byte>, pos: nat, v: nat)
    requires pos + |Varint(v)| <= |buf| && buf[pos..pos + |Varint(v)|] == Varint(v)
    ensures VarintAt(buf, pos, v)
    decreases v
  {
    assert buf[pos] == Varint(v)[0];
    if v >= 128 {
      assert buf[pos + 1..pos + |Varint(v)|] == Varint(v)[1..];
      VarintAtSlice(buf, pos + 1, v / 128);
    }
  }

  lemma {:induction false} VarintAtEnd(buf: seq<byte>, pos: nat, v: nat)
    requires VarintAt(buf, pos, v)
    ensures pos + VarintSize(v) <= |buf|
    decreases v
  {
    if v >= 128 { VarintAtEnd(buf, pos + 1, v / 128); }
  }

  /** The value a varint's groups stand for. */
  function GroupsValue(s: seq<byte>): nat
  {
    if s == [] then 0 else s[0] % 128 + 128 * GroupsValue(s[1..])
  }

  /** The groups of Varint(v) spell v. */
  lemma {:induction false} VarintValue(v: nat)
    ensures GroupsValue(Varint(v)) == v
  {
    if v >= 128 {
      VarintValue(v / 128);
      assert Varint(v)[1..] == Varint(v / 128);
    }
  }

  /** A varint has k bytes exactly when 128^(k-1) <= v < 128^k. */
  lemma {:induction false} VarintLength(v: nat, k: nat)
    requires 1 <= k
    ensures |Varint(v)| == k <==> (k == 1 || Shift7(1, k - 1) <= v) && v < Shift7(1, k)
  {
    if v >= 128 && k > 1 {
      VarintLength(v / 128, k - 1);
      if k > 2 {
        assert Shift7(1, k - 2) <= v / 128 <==> Shift7(1, k - 1) <= v;
      }
      assert v / 128 < Shift7(1, k - 1) <==> v < Shift7(1, k);
    } else if v >= 128 {
      assert |Varint(v)| >= 2;
    } else if k > 1 {
      PowMono(1, k - 1);
    }
  }

  /** A 32-bit value takes one to five bytes; a 64-bit value up to ten. */
  lemma VarintBounds(v: nat)
    ensures v < TWO_32 ==> |Varint(v)| <= 5
    ensures v < TWO_32 * TWO_32 ==> |Varint(v)| <= 10
  {
    if |Varint(v)| > 5 {
      VarintLength(v, |Varint(v)|);
      PowMono(5, |Varint(v)| - 1);
    }
    if |Varint(v)| > 10 {
      VarintLength(v, |Varint(v)|);
      PowMono(10, |Varint(v)| - 1);
      assert Shift7(1, 10) == 64 * TWO_32 * TWO_32;
    }
  }

  /**
   * computeRawVarint32Size: each test `(value & (0xffffffff << 7k)) == 0`
   * asks whether the unsigned word is below 2^(7k).
   */
  function ComputeRawVarint32Size(value: int): (n: int)
    ensures 1 <= n <= 5
    ensures n == |Varint(ToU32(value))|
    ensures -TWO_31 <= value < TWO_31 ==> (n == 1 <==> 0 <= value < 128)
    ensures -TWO_31 <= value < 0 ==> n == 5
  {
    var u := ToU32(value);
    VarintLength(u, 1);
    VarintLength(u, 2);
    VarintLength(u, 3);
    VarintLength(u, 4);
    VarintLength(u, 5);
    VarintBounds(u);
    if u < 0x80 then 1
    else if u < 0x4000 then 2
    else if u < 0x20_0000 then 3
    else if u < 0x1000_0000 then 4
    else 5
  }

  /** The byte counts the varint boundaries must produce. */
  lemma SizeExamples()
    ensures ComputeRawVarint32Size(0) == 1 && ComputeRawVarint32Size(127) == 1
    ensures ComputeRawVarint32Size(128) == 2 && ComputeRawVarint32Size(16383) == 2
    ensures ComputeRawVarint32Size(16384) == 3 && ComputeRawVarint32Size(2097151) == 3
    ensures ComputeRawVarint32Size(2097152) == 4 && ComputeRawVarint32Size(268435455) == 4
    ensures ComputeRawVarint32Size(268435456) == 5 && ComputeRawVarint32Size(-1) == 5
  {
  }

  // ---------------------------------------------------------------------
  // readRawVarint32

  /**
   * readRawVarint32 as its signed-byte idiom intends (a byte "is >= 0"
   * when its top bit is clear): up to five groups, OR-ed into a 32-bit
   * word, the fifth byte shifted by 28 without masking. `k` groups have been
   * read; `acc` is their sum. Reading past the end of the array stands for
   * JavaScript's `undefined` and is reported as a truncated message.
   */
  function DecodeGroups32(buf: seq<byte>, pos: nat, k: nat, acc: int): (r: Result<(i32, nat)>)
    requires k <= 4
    ensures r.Ok? ==> pos < r.value.1 <= pos + 10 - k
    decreases 4 - k
  {
    if pos >= |buf| then Err(TruncatedMessage)
    else
      var b := buf[pos];
      if k < 4 then
        if b < 128 then Ok((ToI32(acc + Shift7(b, k)), pos + 1))
        else DecodeGroups32(buf, pos + 1, k + 1, acc + Shift7(b - 128, k))
      else
        var result := ToI32(acc + Shift7(b, 4));
        if b < 128 then Ok((result, pos + 1))
        else
          match DiscardUpper(buf, pos + 1, 5)
          case Ok(p) => Ok((result, p))
          case Err(e) => Err(e)
  }

  /** The "discard upper 32 bits" loop: up to `n` more bytes, the first below 128 ends it. */
  function DiscardUpper(buf: seq<byte>, pos: nat, n: nat): (r: Result<nat>)
    ensures r.Ok? ==> pos < r.value <= pos + n
    ensures n == 0 ==> r == Err(MalformedVarint)
    decreases n
  {
    if n == 0 then Err(MalformedVarint)
    else if pos >= |buf| then Err(TruncatedMessage)
    else if buf[pos] < 128 then Ok(pos + 1)
    else DiscardUpper(buf, pos + 1, n - 1)
  }

  function ReadRawVarint32(buf: seq<byte>, pos: nat): (r: Result<(i32, nat)>)
    ensures r.Ok? ==> pos < r.value.1 <= pos + 10
  {
    DecodeGroups32(buf, pos, 0, 0)
  }

  /** Ten continuation bytes in a row: readRawVarint32 gives up. */
  lemma Varint32Malformed(buf: seq<byte>, pos: nat)
    requires pos + 10 <= |buf|
    requires forall k :: pos <= k < pos + 10 ==> buf[k] >= 128
    ensures ReadRawVarint32(buf, pos) == Err(MalformedVarint)
  {
    GroupsMalformed(buf, pos, 0, 0);
  }

  lemma {:induction false} GroupsMalformed(buf: seq<byte>, pos: nat, k: nat, acc: int)
    requires k <= 4 && pos + 10 - k <= |buf|
    requires forall j :: pos <= j < pos + 10 - k ==> buf[j] >= 128
    ensures DecodeGroups32(buf, pos, k, acc) == Err(MalformedVarint)
    decreases 4 - k
  {
    if k < 4 {
      GroupsMalformed(buf, pos + 1, k + 1, acc + Shift7(buf[pos] - 128, k));
    } else {
      DiscardMalformed(buf, pos + 1, 5);
    }
  }

  lemma {:induction false} DiscardMalformed(buf: seq<byte>, pos: nat, n: nat)
    requires pos + n <= |buf| && forall j :: pos <= j < pos + n ==> buf[j] >= 128
    ensures DiscardUpper(buf, pos, n) == Err(MalformedVarint)
    decreases n
  {
    if n > 0 {
      DiscardMalformed(buf, pos + 1, n - 1);
    }
  }

  lemma ToI32Shift(x: int, m: int)
    ensures ToI32(x + m * TWO_32) == ToI32(x)
  {
    assert (x + m * TWO_32) % TWO_32 == x % TWO_32;
  }

  lemma {:induction false} DiscardVarint(buf: seq<byte>, pos: nat, n: nat, v: nat)
    requires VarintAt(buf, pos, v)
    requires VarintSize(v) <= n
    ensures DiscardUpper(buf, pos, n) == Ok(pos + VarintSize(v))
    decreases v
  {
    if v >= 128 {
      DiscardVarint(buf, pos + 1, n - 1, v / 128);
    }
  }

  /**
   * Decoding from group `k` on, with `acc` already gathered, ends where the
   * varint of `v` ends and yields the low 32 bits of x = acc + v * 128^k.
   */
  lemma {:induction false} DecodeGroups32Varint(buf: seq<byte>, pos: nat, k: nat, acc: int, v: nat, x: int, end: nat)
    requires k <= 4
    requires VarintAt(buf, pos, v)
    requires k + VarintSize(v) <= 10
    requires x == acc + Shift7(v, k) && end == pos + VarintSize(v)
    ensures DecodeGroups32(buf, pos, k, acc) == Ok((ToI32(x), end))
    decreases 4 - k, 1
  {
    if v < 128 {
      UnfoldLastGroup(buf, pos, k, acc, x);
    } else if k < 4 {
      MiddleGroupCase(buf, pos, k, acc, v, x, end);
    } else {
      FifthGroupCase(buf, pos, acc, v, x);
    }
  }

  lemma {:induction false} MiddleGroupCase(buf: seq<byte>, pos: nat, k: nat, acc: int, v: nat, x: int, end: nat)
    requires k < 4 && v >= 128
    requires VarintAt(buf, pos, v)
    requires k + VarintSize(v) <= 10
    requires x == acc + Shift7(v, k) && end == pos + VarintSize(v)
    ensures DecodeGroups32(buf, pos, k, acc) == Ok((ToI32(x), end))
    decreases 4 - k, 0
  {
    var acc' := acc + Shift7(buf[pos] - 128, k);
    GroupAdvance(buf, pos, k, acc, v, acc');
    DecodeGroups32Varint(buf, pos + 1, k + 1, acc', v / 128, x, end);
  }

  lemma GroupAdvance(buf: seq<byte>, pos: nat, k: nat, acc: int, v: nat, acc': int)
    requires k < 4 && v >= 128
    requires VarintAt(buf, pos, v)
    requires acc' == acc + Shift7(buf[pos] - 128, k)
    ensures DecodeGroups32(buf, pos, k, acc) == DecodeGroups32(buf, pos + 1, k + 1, acc')
    ensures acc + Shift7(v, k) == acc' + Shift7(v / 128, k + 1)
    ensures VarintAt(buf, pos + 1, v / 128) && VarintSize(v) == 1 + VarintSize(v / 128)
  {
    assert buf[pos] - 128 == v % 128;
    Regroup(v, k);
  }

  lemma FifthGroupCase(buf: seq<byte>, pos: nat, acc: int, v: nat, x: int)
    requires v >= 128
    requires VarintAt(buf, pos, v)
    requires 4 + VarintSize(v) <= 10
    requires x == acc + Shift7(v, 4)
    ensures DecodeGroups32(buf, pos, 4, acc) == Ok((ToI32(x), pos + VarintSize(v)))
  {
    DiscardVarint(buf, pos + 1, 5, v / 128);
    FifthGroupShift(acc, v, buf[pos], x);
    assert pos + 1 + VarintSize(v / 128) == pos + VarintSize(v);
  }

  lemma UnfoldLastGroup(buf: seq<byte>, pos: nat, k: nat, acc: int, x: int)
    requires k <= 4 && pos < |buf| && buf[pos] < 128
    requires x == acc + Shift7(buf[pos], k)
    ensures DecodeGroups32(buf, pos, k, acc) == Ok((ToI32(x), pos + 1))
  {
  }

  /** A continuation byte among the first four: one more group, one byte on. */
  lemma GroupStep32(buf: seq<byte>, pos: nat, k: nat, acc: int, acc': int)
    requires k < 4 && pos < |buf| && buf[pos] >= 128 && acc' == acc + Shift7(buf[pos] - 128, k)
    ensures DecodeGroups32(buf, pos, k, acc) == DecodeGroups32(buf, pos + 1, k + 1, acc')
  {
  }

  /** A fifth byte with its continuation bit set hands over to the discard loop. */
  lemma FifthStep32(buf: seq<byte>, pos: nat, acc: int)
    requires pos < |buf| && buf[pos] >= 128
    ensures DecodeGroups32(buf, pos, 4, acc) ==
      match DiscardUpper(buf, pos + 1, 5)
      case Ok(p) => Ok((ToI32(acc + Shift7(buf[pos], 4)), p))
      case Err(e) => Err(e)
  {
  }

  /** A discarded continuation byte. */
  lemma DiscardStep(buf: seq<byte>, pos: nat, n: nat)
    requires 0 < n && pos < |buf| && buf[pos] >= 128
    ensures DiscardUpper(buf, pos, n) == DiscardUpper(buf, pos + 1, n - 1)
  {
  }

  // One-step unfoldings of the 64-bit decoder, every computed value a parameter.

  lemma FastGroup(buf: seq<byte>, pos: nat, limit: int, i: nat, lo: nat, lo': nat)
    requires i < 4 && lo < Shift7(1, i) && pos < |buf|
    requires lo' == lo + Shift7(buf[pos] % 128, i) && lo' < TWO_32
    ensures buf[pos] < 128 ==> LowFast(buf, pos, limit, i, lo) == Ok((Pair(lo', 0), pos + 1))
    ensures buf[pos] >= 128 ==> lo' < Shift7(1, i + 1) && LowFast(buf, pos, limit, i, lo) == LowFast(buf, pos + 1, limit, i + 1, lo')
  {
    GroupBound(lo, buf[pos] % 128, i);
  }

  lemma FastFifth(buf: seq<byte>, pos: nat, limit: int, lo: nat, low: u32, hi: nat)
    requires lo < Shift7(1, 4) && pos < |buf|
    requires low == lo + (buf[pos] as int % 128 % 16) * 0x1000_0000 && hi == buf[pos] as int % 128 / 16
    ensures buf[pos] < 128 ==> LowFast(buf, pos, limit, 4, lo) == Ok((Pair(low, hi), pos + 1))
    ensures buf[pos] >= 128 ==> LowFast(buf, pos, limit, 4, lo) == HighLoop(buf, pos + 1, limit, 0, low, hi, limit - (pos + 1) <= 4)
  {
  }

  lemma SlowGroup(buf: seq<byte>, pos: nat, limit: int, i: nat, lo: nat, lo': nat)
    requires i <= 3 && lo < Shift7(1, i) && pos < |buf| && (i == 3 || pos < limit)
    requires lo' == lo + Shift7(buf[pos] % 128, i) && lo' < TWO_32
    ensures i == 3 || buf[pos] < 128 ==> LowSlow(buf, pos, limit, i, lo) == Ok((Pair(lo', 0), pos + 1))
    ensures i < 3 && buf[pos] >= 128 ==> lo' < Shift7(1, i + 1) && LowSlow(buf, pos, limit, i, lo) == LowSlow(buf, pos + 1, limit, i + 1, lo')
  {
    GroupBound(lo, buf[pos] % 128, i);
  }

  lemma HighGroup(buf: seq<byte>, pos: nat, limit: int, i: nat, lo: u32, hi: nat, hi': nat, checked: bool)
    requires i < 5 && hi < 8 * Shift7(1, i) && pos < |buf| && (!checked || pos < limit)
    requires hi' == if i < 4 then hi + 8 * Shift7(buf[pos] % 128, i) else hi + (buf[pos] % 128 % 2) * TWO_31
    ensures hi' < TWO_32 && hi' < 8 * Shift7(1, i + 1)
    ensures buf[pos] < 128 ==> HighLoop(buf, pos, limit, i, lo, hi, checked) == Ok((Pair(lo, hi'), pos + 1))
    ensures buf[pos] >= 128 ==> HighLoop(buf, pos, limit, i, lo, hi, checked) == HighLoop(buf, pos + 1, limit, i + 1, lo, hi', checked)
  {
    ShiftValues(1);
    if i < 4 {
      HighGroupBound(hi, buf[pos] % 128, i);
    }
  }

  /** The fifth byte is shifted by 28 unmasked: its continuation bit falls off the word. */
  lemma FifthGroupShift(acc: int, v: nat, b: nat, x: int)
    requires v >= 128 && b == v % 128 + 128 && x == acc + Shift7(v, 4)
    ensures ToI32(acc + Shift7(b, 4)) == ToI32(x)
  {
    ShiftValues(v);
    ShiftValues(b);
    var w := v / 128;
    assert v == v % 128 + 128 * w;
    ToI32Shift(acc + Shift7(b, 4), (w - 1) * 8);
  }

  /**
   * Every varint of at most ten bytes decodes to its low 32 bits as a
   * signed word, and the cursor lands just past it. In particular a 32-bit
   * value decodes to itself.
   */
  lemma ReadRawVarint32Varint(buf: seq<byte>, pos: nat, v: nat)
    requires pos + |Varint(v)| <= |buf| && buf[pos..pos + |Varint(v)|] == Varint(v)
    requires |Varint(v)| <= 10
    ensures ReadRawVarint32(buf, pos) == Ok((ToI32(v), pos + |Varint(v)|))
  {
    VarintAtSlice(buf, pos, v);
    ReadRawVarint32At(buf, pos, v, pos + |Varint(v)|);
  }

  lemma ReadRawVarint32At(buf: seq<byte>, pos: nat, v: nat, end: nat)
    requires VarintAt(buf, pos, v) && VarintSize(v) <= 10 && end == pos + VarintSize(v)
    ensures ReadRawVarint32(buf, pos) == Ok((ToI32(v), end))
  {
    assert Shift7(v, 0) == v;
    DecodeGroups32Varint(buf, pos, 0, 0, v, v, end);
  }

  lemma Varint32RoundTrip(buf: seq<byte>, pos: nat, u: u32)
    requires pos + |Varint(u)| <= |buf| && buf[pos..pos + |Varint(u)|] == Varint(u)
    ensures ReadRawVarint32(buf, pos) == Ok((ToI32(u), pos + |Varint(u)|))
  {
    VarintBounds(u);
    ReadRawVarint32Varint(buf, pos, u);
  }

  /**
   * A negative int32 sign-extended to 64 bits is ten bytes long, and the
   * decoder's discard loop brings it back to the original value.
   */
  lemma SignExtendedRoundTrip(v: i32)
    requires v < 0
    ensures |Varint(TWO_32 * TWO_32 + v)| == 10
    ensures ReadRawVarint32(Varint(TWO_32 * TWO_32 + v), 0) == Ok((v, 10))
  {
    var w := TWO_32 * TWO_32 + v;
    VarintBounds(w);
    VarintLength(w, 10);
    assert Shift7(1, 9) == TWO_31 * TWO_32;
    assert Varint(w)[0..|Varint(w)|] == Varint(w);
    ReadRawVarint32Varint(Varint(w), 0, w);
    ToI32Shift(v, TWO_32);
  }

  /**
   * readRawVarint32 as written: `tmp` comes from a Uint8Array and is never
   * negative, so the first test `tmp >= 0` always succeeds and the function
   * returns the first byte.
   */
  function ReadRawVarint32AsWritten(buf: seq<byte>, pos: nat): (r: Result<(i32, nat)>)
    ensures r.Ok? ==> r.value.1 == pos + 1 && 0 <= r.value.0 < 256
  {
    if pos >= |buf| then Err(TruncatedMessage) else Ok((buf[pos], pos + 1))
  }

  /** 300 is written as AC 02; as written, the reader returns 0xAC and leaves 02 behind. */
  lemma ReadRawVarint32AsWrittenLosesGroups()
    ensures Varint(300) == [0xAC, 0x02]
    ensures ReadRawVarint32AsWritten(Varint(300), 0) == Ok((0xAC, 1))
    ensures ReadRawVarint32(Varint(300), 0) == Ok((300, 2))
  {
  }

  // ---------------------------------------------------------------------
  // readRawVarint64

  /**
   * readRawVarint64. With more than four bytes before `limit` the low word
   * is read without bounds checks (four groups, then a fifth split between
   * the words); the high word then continues with bounds checks only when
   * four or fewer bytes remain. With four or fewer bytes the "short tail"
   * reads up to three groups checking `limit`, then takes a fourth byte
   * without looking at its continuation bit.
   */
  function ReadRawVarint64(buf: seq<byte>, pos: nat, limit: int): (r: Result<(Pair, nat)>)
    ensures r.Ok? ==> pos < r.value.1 <= pos + 10
    ensures limit - pos <= 4 && r.Ok? ==> r.value.1 <= pos + 4
    ensures limit <= pos ==> r == Err(MisreportedSize)
  {
    if limit - pos > 4 then LowFast(buf, pos, limit, 0, 0)
    else LowSlow(buf, pos, limit, 0, 0)
  }

  /** The fast low-word loop: groups 1 to 4 at bit 7i, the fifth split 4/3. */
  function LowFast(buf: seq<byte>, pos: nat, limit: int, i: nat, lo: nat): (r: Result<(Pair, nat)>)
    requires i <= 4 && lo < Shift7(1, i)
    ensures r.Ok? ==> pos < r.value.1 <= pos + 10 - i
    decreases 4 - i
  {
    if pos >= |buf| then Err(TruncatedMessage)
    else
      var g: nat := buf[pos] % 128;
      if i < 4 then
        GroupBound(lo, g, i);
        PowMono(i + 1, 4);
        var lo' := lo + Shift7(g, i);
        if buf[pos] < 128 then Ok((Pair(lo', 0), pos + 1))
        else LowFast(buf, pos + 1, limit, i + 1, lo')
      else
        var lo' := lo + (g % 16) * 0x1000_0000;
        var hi := g / 16;
        if buf[pos] < 128 then Ok((Pair(lo', hi), pos + 1))
        else HighLoop(buf, pos + 1, limit, 0, lo', hi, limit - (pos + 1) <= 4)
  }

  /**
   * Groups 6 to 10 into the high word at bit 7i + 3; the tenth group's
   * shift by 31 keeps its lowest bit only. `checked` selects the variant
   * that tests `limit` before each byte.
   */
  function HighLoop(buf: seq<byte>, pos: nat, limit: int, i: nat, lo: u32, hi: nat, checked: bool): (r: Result<(Pair, nat)>)
    requires i <= 5 && hi < 8 * Shift7(1, i)
    ensures r.Ok? ==> pos < r.value.1 <= pos + 5 - i
    decreases 5 - i
  {
    if i == 5 then Err(MalformedVarint)
    else if checked && pos >= limit then Err(MisreportedSize)
    else if pos >= |buf| then Err(TruncatedMessage)
    else
      var g: nat := buf[pos] % 128;
      var hi': nat := if i < 4 then HighGroupBound(hi, g, i); hi + 8 * Shift7(g, i) else (ShiftValues(1); hi + (g % 2) * TWO_31);
      if buf[pos] < 128 then Ok((Pair(lo, hi'), pos + 1))
      else HighLoop(buf, pos + 1, limit, i + 1, lo, hi', checked)
  }

  /** The short tail: three checked groups, then a fourth taken unconditionally. */
  function LowSlow(buf: seq<byte>, pos: nat, limit: int, i: nat, lo: nat): (r: Result<(Pair, nat)>)
    requires i <= 3 && lo < Shift7(1, i)
    ensures r.Ok? ==> pos < r.value.1 <= pos + 4 - i
    decreases 3 - i
  {
    if i < 3 && pos >= limit then Err(MisreportedSize)
    else if pos >= |buf| then Err(TruncatedMessage)
    else
      var g: nat := buf[pos] % 128;
      GroupBound(lo, g, i);
      PowMono(i + 1, 4);
      var lo' := lo + Shift7(g, i);
      if i == 3 || buf[pos] < 128 then Ok((Pair(lo', 0), pos + 1))
      else LowSlow(buf, pos + 1, limit, i + 1, lo')
  }

  /** Ten continuation bytes in a row, wholly before `limit`: readRawVarint64 gives up. */
  lemma Varint64Malformed(buf: seq<byte>, pos: nat, limit: int)
    requires pos + 10 <= |buf| && pos + 10 <= limit
    requires forall k :: pos <= k < pos + 10 ==> buf[k] >= 128
    ensures ReadRawVarint64(buf, pos, limit) == Err(MalformedVarint)
  {
    LowFastMalformed(buf, pos, limit, 0, 0);
  }

  lemma {:induction false} LowFastMalformed(buf: seq<byte>, pos: nat, limit: int, i: nat, lo: nat)
    requires i <= 4 && lo < Shift7(1, i)
    requires pos + 10 - i <= |buf| && pos + 10 - i <= limit
    requires forall k :: pos <= k < pos + 10 - i ==> buf[k] >= 128
    ensures LowFast(buf, pos, limit, i, lo) == Err(MalformedVarint)
    decreases 4 - i
  {
    var g: nat := buf[pos] % 128;
    if i < 4 {
      GroupBound(lo, g, i);
      PowMono(i + 1, 4);
      LowFastMalformed(buf, pos + 1, limit, i + 1, lo + Shift7(g, i));
    } else {
      HighLoopMalformed(buf, pos + 1, limit, 0, lo + (g % 16) * 0x1000_0000, g / 16, false);
    }
  }

  lemma {:induction false} HighLoopMalformed(buf: seq<byte>, pos: nat, limit: int, i: nat, lo: u32, hi: nat, checked: bool)
    requires i <= 5 && hi < 8 * Shift7(1, i)
    requires pos + 5 - i <= |buf| && pos + 5 - i <= limit
    requires forall k :: pos <= k < pos + 5 - i ==> buf[k] >= 128
    ensures HighLoop(buf, pos, limit, i, lo, hi, checked) == Err(MalformedVarint)
    decreases 5 - i
  {
    if i < 5 {
      var g: nat := buf[pos] % 128;
      var hi': nat := if i < 4 then HighGroupBound(hi, g, i); hi + 8 * Shift7(g, i) else (ShiftValues(1); hi + (g % 2) * TWO_31);
      HighLoopMalformed(buf, pos + 1, limit, i + 1, lo, hi', checked);
    }
  }

  /** A low word below 2^32 and a high word that together make a pair's value are its two words. */
  lemma WordsOf(lo: int, hi: int, p: Pair)
    requires 0 <= lo < TWO_32 && lo + hi * TWO_32 == p.Value()
    ensures lo == p.low && hi == p.high
  {
  }

  // One-step unfoldings of the 64-bit decoder, stated on the bytes alone.

  lemma LowFastEnd(buf: seq<byte>, pos: nat, limit: int, i: nat, lo: nat)
    requires i < 4 && lo < Shift7(1, i) && pos < |buf| && buf[pos] < 128
    requires lo + Shift7(buf[pos], i) < TWO_32
    ensures LowFast(buf, pos, limit, i, lo) == Ok((Pair(lo + Shift7(buf[pos], i), 0), pos + 1))
  {
  }

  lemma LowFastStep(buf: seq<byte>, pos: nat, limit: int, i: nat, lo: nat, lo': nat)
    requires i < 4 && lo < Shift7(1, i) && lo' < Shift7(1, i + 1)
    requires pos < |buf| && buf[pos] >= 128
    requires lo' == lo + Shift7(buf[pos] % 128, i)
    ensures LowFast(buf, pos, limit, i, lo) == LowFast(buf, pos + 1, limit, i + 1, lo')
  {
  }

  lemma LowFastFifthEnd(buf: seq<byte>, pos: nat, limit: int, lo: nat)
    requires lo < Shift7(1, 4) && pos < |buf| && buf[pos] < 128
    ensures LowFast(buf, pos, limit, 4, lo) == Ok((Pair(lo + (buf[pos] as int % 16) * 0x1000_0000, buf[pos] as int / 16), pos + 1))
  {
  }

  lemma LowFastFifthStep(buf: seq<byte>, pos: nat, limit: int, lo: nat, g: nat, lo': u32)
    requires lo < Shift7(1, 4) && pos < |buf| && buf[pos] >= 128
    requires g == buf[pos] % 128 && lo' == lo + (g % 16) * 0x1000_0000
    ensures LowFast(buf, pos, limit, 4, lo) == HighLoop(buf, pos + 1, limit, 0, lo', g / 16, limit - (pos + 1) <= 4)
  {
  }

  lemma HighLoopEnd(buf: seq<byte>, pos: nat, limit: int, i: nat, lo: u32, hi: nat, checked: bool)
    requires i <= 4 && hi < 8 * Shift7(1, i) && pos < |buf| && buf[pos] < 128
    requires !checked || pos < limit
    requires i == 4 ==> buf[pos] <= 1
    requires hi + 8 * Shift7(buf[pos], i) < TWO_32
    ensures HighLoop(buf, pos, limit, i, lo, hi, checked) == Ok((Pair(lo, hi + 8 * Shift7(buf[pos], i)), pos + 1))
  {
    ShiftValues(buf[pos]);
  }

  lemma HighLoopStep(buf: seq<byte>, pos: nat, limit: int, i: nat, lo: u32, hi: nat, hi': nat, checked: bool)
    requires i < 4 && hi < 8 * Shift7(1, i) && hi' < 8 * Shift7(1, i + 1)
    requires pos < limit && pos < |buf| && buf[pos] >= 128
    requires hi' == hi + 8 * Shift7(buf[pos] % 128, i)
    ensures HighLoop(buf, pos, limit, i, lo, hi, checked) == HighLoop(buf, pos + 1, limit, i + 1, lo, hi', checked)
  {
  }

  lemma LowSlowEnd(buf: seq<byte>, pos: nat, limit: int, i: nat, lo: nat)
    requires i <= 3 && lo < Shift7(1, i) && pos < |buf| && (i == 3 || (pos < limit && buf[pos] < 128))
    requires lo + Shift7(buf[pos] % 128, i) < TWO_32
    ensures LowSlow(buf, pos, limit, i, lo) == Ok((Pair(lo + Shift7(buf[pos] % 128, i), 0), pos + 1))
  {
  }

  lemma LowSlowStep(buf: seq<byte>, pos: nat, limit: int, i: nat, lo: nat, lo': nat)
    requires i < 3 && lo < Shift7(1, i) && lo' < Shift7(1, i + 1)
    requires pos < limit && pos < |buf| && buf[pos] >= 128
    requires lo' == lo + Shift7(buf[pos] % 128, i)
    ensures LowSlow(buf, pos, limit, i, lo) == LowSlow(buf, pos + 1, limit, i + 1, lo')
  {
  }

  // The round trip, group by group.

  /** The fast low-word route reads back every 64-bit value. */
  lemma {:induction false} LowFastVarint(buf: seq<byte>, pos: nat, limit: int, i: nat, lo: nat, w: nat, p: Pair, end: nat)
    requires i <= 4 && lo < Shift7(1, i)
    requires VarintAt(buf, pos, w)
    requires pos + VarintSize(w) <= limit
    requires p.Value() == lo + Shift7(w, i)
    requires end == pos + VarintSize(w)
    ensures LowFast(buf, pos, limit, i, lo) == Ok((p, end))
    decreases 4 - i, 1
  {
    if i < 4 && w < 128 {
      LowFastLast(buf, pos, limit, i, lo, w, p, end);
    } else if i < 4 {
      LowFastMiddle(buf, pos, limit, i, lo, w, p, end);
    } else if w < 128 {
      LowFastLastFifth(buf, pos, limit, lo, w, p, end);
    } else {
      LowFastFifth(buf, pos, limit, lo, w, p, end);
    }
  }

  lemma LowFastLast(buf: seq<byte>, pos: nat, limit: int, i: nat, lo: nat, w: nat, p: Pair, end: nat)
    requires i < 4 && lo < Shift7(1, i) && w < 128
    requires VarintAt(buf, pos, w)
    requires p.Value() == lo + Shift7(w, i)
    requires end == pos + VarintSize(w)
    ensures LowFast(buf, pos, limit, i, lo) == Ok((p, end))
  {
    GroupBound(lo, w, i);
    PowMono(i + 1, 4);
    LowFastEnd(buf, pos, limit, i, lo);
    WordsOf(lo + Shift7(w, i), 0, p);
  }

  lemma {:induction false} LowFastMiddle(buf: seq<byte>, pos: nat, limit: int, i: nat, lo: nat, w: nat, p: Pair, end: nat)
    requires i < 4 && lo < Shift7(1, i) && w >= 128
    requires VarintAt(buf, pos, w)
    requires pos + VarintSize(w) <= limit
    requires p.Value() == lo + Shift7(w, i)
    requires end == pos + VarintSize(w)
    ensures LowFast(buf, pos, limit, i, lo) == Ok((p, end))
    decreases 4 - i, 0
  {
    LowFastAdvance(buf, pos, limit, i, lo, w);
    LowFastVarint(buf, pos + 1, limit, i + 1, lo + Shift7(w % 128, i), w / 128, p, end);
  }

  lemma LowFastAdvance(buf: seq<byte>, pos: nat, limit: int, i: nat, lo: nat, w: nat)
    requires i < 4 && lo < Shift7(1, i) && w >= 128
    requires VarintAt(buf, pos, w)
    ensures lo + Shift7(w % 128, i) < Shift7(1, i + 1)
    ensures LowFast(buf, pos, limit, i, lo) == LowFast(buf, pos + 1, limit, i + 1, lo + Shift7(w % 128, i))
    ensures lo + Shift7(w, i) == lo + Shift7(w % 128, i) + Shift7(w / 128, i + 1)
    ensures VarintAt(buf, pos + 1, w / 128) && VarintSize(w) == 1 + VarintSize(w / 128)
  {
    assert buf[pos] % 128 == w % 128;
    GroupBound(lo, w % 128, i);
    LowFastStep(buf, pos, limit, i, lo, lo + Shift7(w % 128, i));
    Regroup(w, i);
  }

  lemma LowFastLastFifth(buf: seq<byte>, pos: nat, limit: int, lo: nat, w: nat, p: Pair, end: nat)
    requires lo < Shift7(1, 4) && w < 128
    requires VarintAt(buf, pos, w)
    requires p.Value() == lo + Shift7(w, 4)
    requires end == pos + VarintSize(w)
    ensures LowFast(buf, pos, limit, 4, lo) == Ok((p, end))
  {
    LowFastFifthEnd(buf, pos, limit, lo);
    FifthSplit(lo, w, p.Value());
    WordsOf(lo + (w % 16) * 0x1000_0000, w / 16, p);
  }

  lemma LowFastFifth(buf: seq<byte>, pos: nat, limit: int, lo: nat, w: nat, p: Pair, end: nat)
    requires lo < Shift7(1, 4) && w >= 128
    requires VarintAt(buf, pos, w)
    requires pos + VarintSize(w) <= limit
    requires p.Value() == lo + Shift7(w, 4)
    requires end == pos + VarintSize(w)
    ensures LowFast(buf, pos, limit, 4, lo) == Ok((p, end))
  {
    var g: nat := w % 128;
    var lo' := lo + (g % 16) * 0x1000_0000;
    FifthSplit(lo, w, p.Value());
    LowFastFifthStep(buf, pos, limit, lo, g, lo');
    HighLoopVarint(buf, pos + 1, limit, 0, lo', g / 16, limit - (pos + 1) <= 4, w / 128, p, end);
    assert pos + 1 + VarintSize(w / 128) == pos + VarintSize(w);
  }

  /** The fifth group: four bits end the low word, three start the high word. */
  lemma FifthSplit(lo: nat, w: nat, V: int)
    requires V == lo + Shift7(w, 4)
    ensures V == lo + (w % 128 % 16) * 0x1000_0000 + (w % 128 / 16 + 8 * Shift7(w / 128, 0)) * TWO_32
  {
    ShiftValues(w);
    var g := w % 128;
    assert w == g + 128 * (w / 128);
    assert g == g % 16 + 16 * (g / 16);
  }

  /** The high-word loop completes the round trip. */
  lemma {:induction false} HighLoopVarint(buf: seq<byte>, pos: nat, limit: int, i: nat, lo: u32, hi: nat, checked: bool, w: nat, p: Pair, end: nat)
    requires i <= 4 && hi < 8 * Shift7(1, i)
    requires VarintAt(buf, pos, w)
    requires pos + VarintSize(w) <= limit
    requires p.Value() == lo + (hi + 8 * Shift7(w, i)) * TWO_32
    requires end == pos + VarintSize(w)
    ensures HighLoop(buf, pos, limit, i, lo, hi, checked) == Ok((p, end))
    decreases 4 - i, 1
  {
    HighLoopBound(i, hi, w, p);
    if w < 128 {
      HighLoopEnd(buf, pos, limit, i, lo, hi, checked);
      WordsOf(lo, hi + 8 * Shift7(w, i), p);
    } else {
      HighLoopMiddle(buf, pos, limit, i, lo, hi, checked, w, p, end);
    }
  }

  lemma {:induction false} HighLoopMiddle(buf: seq<byte>, pos: nat, limit: int, i: nat, lo: u32, hi: nat, checked: bool, w: nat, p: Pair, end: nat)
    requires i < 4 && hi < 8 * Shift7(1, i) && w >= 128
    requires VarintAt(buf, pos, w)
    requires pos + VarintSize(w) <= limit
    requires p.Value() == lo + (hi + 8 * Shift7(w, i)) * TWO_32
    requires end == pos + VarintSize(w)
    ensures HighLoop(buf, pos, limit, i, lo, hi, checked) == Ok((p, end))
    decreases 4 - i, 0
  {
    HighLoopAdvance(buf, pos, limit, i, lo, hi, checked, w);
    HighLoopVarint(buf, pos + 1, limit, i + 1, lo, hi + 8 * Shift7(w % 128, i), checked, w / 128, p, end);
  }

  lemma HighLoopAdvance(buf: seq<byte>, pos: nat, limit: int, i: nat, lo: u32, hi: nat, checked: bool, w: nat)
    requires i < 4 && hi < 8 * Shift7(1, i) && w >= 128
    requires VarintAt(buf, pos, w) && pos < limit
    ensures hi + 8 * Shift7(w % 128, i) < 8 * Shift7(1, i + 1)
    ensures HighLoop(buf, pos, limit, i, lo, hi, checked) == HighLoop(buf, pos + 1, limit, i + 1, lo, hi + 8 * Shift7(w % 128, i), checked)
    ensures hi + 8 * Shift7(w, i) == hi + 8 * Shift7(w % 128, i) + 8 * Shift7(w / 128, i + 1)
    ensures VarintAt(buf, pos + 1, w / 128) && VarintSize(w) == 1 + VarintSize(w / 128)
  {
    assert buf[pos] % 128 == w % 128;
    HighGroupBound(hi, w % 128, i);
    HighLoopStep(buf, pos, limit, i, lo, hi, hi + 8 * Shift7(w % 128, i), checked);
    Regroup(w, i);
  }

  /** A group of the high word still fits in the place above it, and the word stays below 2^31 until the tenth group. */
  lemma HighGroupBound(hi: nat, g: nat, i: nat)
    requires i < 4 && hi < 8 * Shift7(1, i) && g < 128
    ensures hi + 8 * Shift7(g, i) < 8 * Shift7(1, i + 1) <= TWO_31
  {
    GroupBound(hi / 8, g, i);
    PowMono(i + 1, 4);
  }

  /** Only a value below 2^64 reaches the high loop, so its tenth group is 0 or 1. */
  lemma HighLoopBound(i: nat, hi: nat, w: nat, p: Pair)
    requires i <= 4 && p.Value() == p.low + (hi + 8 * Shift7(w, i)) * TWO_32
    ensures w >= 128 ==> i < 4
    ensures i == 4 ==> w <= 1
    ensures hi + 8 * Shift7(w, i) < TWO_32
  {
    ShiftValues(w);
  }

  /** The short tail reads back every value of at most four bytes that ends before `limit`. */
  lemma {:induction false} LowSlowVarint(buf: seq<byte>, pos: nat, limit: int, i: nat, lo: nat, w: nat, p: Pair, end: nat)
    requires i <= 3 && lo < Shift7(1, i)
    requires VarintAt(buf, pos, w)
    requires pos + VarintSize(w) <= limit && i + VarintSize(w) <= 4
    requires p.Value() == lo + Shift7(w, i)
    requires end == pos + VarintSize(w)
    ensures LowSlow(buf, pos, limit, i, lo) == Ok((p, end))
    decreases 3 - i, 1
  {
    if w < 128 {
      GroupBound(lo, w, i);
      PowMono(i + 1, 4);
      LowSlowEnd(buf, pos, limit, i, lo);
      WordsOf(lo + Shift7(w, i), 0, p);
    } else {
      LowSlowMiddle(buf, pos, limit, i, lo, w, p, end);
    }
  }

  lemma {:induction false} LowSlowMiddle(buf: seq<byte>, pos: nat, limit: int, i: nat, lo: nat, w: nat, p: Pair, end: nat)
    requires i <= 3 && lo < Shift7(1, i) && w >= 128
    requires VarintAt(buf, pos, w)
    requires pos + VarintSize(w) <= limit && i + VarintSize(w) <= 4
    requires p.Value() == lo + Shift7(w, i)
    requires end == pos + VarintSize(w)
    ensures LowSlow(buf, pos, limit, i, lo) == Ok((p, end))
    decreases 3 - i, 0
  {
    LowSlowAdvance(buf, pos, limit, i, lo, w);
    LowSlowVarint(buf, pos + 1, limit, i + 1, lo + Shift7(w % 128, i), w / 128, p, end);
  }

  lemma LowSlowAdvance(buf: seq<byte>, pos: nat, limit: int, i: nat, lo: nat, w: nat)
    requires i < 3 && lo < Shift7(1, i) && w >= 128
    requires VarintAt(buf, pos, w) && pos < limit
    ensures lo + Shift7(w % 128, i) < Shift7(1, i + 1)
    ensures LowSlow(buf, pos, limit, i, lo) == LowSlow(buf, pos + 1, limit, i + 1, lo + Shift7(w % 128, i))
    ensures lo + Shift7(w, i) == lo + Shift7(w % 128, i) + Shift7(w / 128, i + 1)
    ensures VarintAt(buf, pos + 1, w / 128) && VarintSize(w) == 1 + VarintSize(w / 128)
  {
    assert buf[pos] % 128 == w % 128;
    GroupBound(lo, w % 128, i);
    LowSlowStep(buf, pos, limit, i, lo, lo + Shift7(w % 128, i));
    Regroup(w, i);
  }

  /**
   * The 64-bit round trip: the varint of a pair's value, lying wholly
   * before `limit`, reads back as the same pair on either route.
   */
  lemma Varint64RoundTrip(buf: seq<byte>, pos: nat, limit: int, p: Pair)
    requires pos + |Varint(p.Value())| <= |buf| && buf[pos..pos + |Varint(p.Value())|] == Varint(p.Value())
    requires pos + |Varint(p.Value())| <= limit
    ensures ReadRawVarint64(buf, pos, limit) == Ok((p, pos + |Varint(p.Value())|))
  {
    VarintAtSlice(buf, pos, p.Value());
    ReadRawVarint64At(buf, pos, limit, p);
  }

  lemma ReadRawVarint64At(buf: seq<byte>, pos: nat, limit: int, p: Pair)
    requires VarintAt(buf, pos, p.Value()) && pos + VarintSize(p.Value()) <= limit
    ensures ReadRawVarint64(buf, pos, limit) == Ok((p, pos + VarintSize(p.Value())))
  {
    var V := p.Value();
    assert Shift7(V, 0) == V;
    if limit - pos > 4 {
      LowFastVarint(buf, pos, limit, 0, 0, V, p, pos + VarintSize(V));
    } else {
      LowSlowVarint(buf, pos, limit, 0, 0, V, p, pos + VarintSize(V));
    }
  }
}
