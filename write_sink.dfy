/**
 * `WriteSink_BUFFERED`: the byte emitters every writer goes through.
 *
 * Each takes the session and the block `lb` being written and returns the
 * block to continue with. Besides the session's own chain the emitters are
 * also used on a detached run of blocks (inside `writeMessage`), so each is
 * stated over a ghost sequence `c` of blocks that ends at `lb`: the call
 * appends exactly the emitted bytes to the content of `c`, giving `c'`,
 * which ends at the returned block, and adds their number to `size`.
 */
module WriteSinks {
  import opened Bytes
  import opened Wrappers
  import opened ZigZag
  import opened LinkedBuffers
  import opened Session
  import opened Varints
  import opened IntSerializer

  /** `c` is a well-formed run of blocks in the session's arena ending at `lb`. */
  ghost predicate Ready(s: WriteSession, c: seq<nat>, lb: nat)
    reads s
  {
    Wf(s.arena, c) && Ends(s.arena, c) && c[|c| - 1] == lb && s.nextBufferSize >= 8
  }

  /** The emitters leave the session's own fields other than `arena` and `size` alone. */
  twostate predicate Kept(s: WriteSession)
    reads s
  {
    s.head == old(s.head) && s.tail == old(s.tail) && s.chain == old(s.chain)
    && s.nextBufferSize == old(s.nextBufferSize)
  }

  /** `new LinkedBuffer(new Uint8Array(session.nextBufferSize), 0, 0, lb)`. */
  method GrowBlock(s: WriteSession, lb: nat, ghost c: seq<nat>) returns (lb': nat, ghost c': seq<nat>)
    requires Ready(s, c, lb)
    modifies s
    ensures Ready(s, c', lb') && Appended(old(s.arena), s.arena, c, c', [])
    ensures c' == c + [lb'] && s.arena.blocks[lb'].offset == 0 && Capacity(s.arena, lb') == s.nextBufferSize
    ensures s.arena.bufs == old(s.arena.bufs) + [Zeros(s.nextBufferSize)]
    ensures s.size == old(s.size) && Kept(s)
  {
    GrowAppended(s.arena, c, s.nextBufferSize);
    var (a', n) := Grow(s.arena, s.nextBufferSize, lb);
    s.arena := a';
    lb', c' := n, c + [n];
  }

  /**
   * Grow when fewer than `|bytes|` bytes remain in `lb` (for one byte, when
   * `lb.offset == lb.buffer.length`), then store `bytes` at the offset and
   * advance it: the pattern of every emitter that never splits its bytes.
   */
  method Emit(s: WriteSession, lb: nat, ghost c: seq<nat>, bytes: seq<byte>) returns (lb': nat, ghost c': seq<nat>)
    requires Ready(s, c, lb) && |bytes| <= s.nextBufferSize
    modifies s
    ensures Ready(s, c', lb') && Appended(old(s.arena), s.arena, c, c', bytes)
    ensures s.size == old(s.size) && Kept(s)
  {
    ghost var a0 := s.arena;
    lb', c' := lb, c;
    AppendedRefl(a0, c);
    if s.arena.blocks[lb].offset + |bytes| > Capacity(s.arena, lb) {
      lb', c' := GrowBlock(s, lb, c);
    }
    ghost var a1 := s.arena;
    PutAppended(a1, c', bytes);
    s.arena := Put(s.arena, lb', bytes);
    AppendedTrans(a0, a1, s.arena, c, c', c', [], bytes);
    assert [] + bytes == bytes;
  }

  /**
   * `Emit` inside a loop that has already appended `done` to the run `c0`
   * of the arena `a0`: afterwards `done + bytes` has been appended.
   */
  method EmitAfter(s: WriteSession, lb: nat, ghost c: seq<nat>, bytes: seq<byte>,
                   ghost a0: Arena, ghost c0: seq<nat>, ghost done: seq<byte>)
    returns (lb': nat, ghost c': seq<nat>)
    requires Ready(s, c, lb) && |bytes| <= s.nextBufferSize && Appended(a0, s.arena, c0, c, done)
    modifies s
    ensures Ready(s, c', lb') && Appended(a0, s.arena, c0, c', done + bytes)
    ensures s.size == old(s.size) && Kept(s)
  {
    ghost var a1 := s.arena;
    lb', c' := Emit(s, lb, c, bytes);
    AppendedTrans(a0, a1, s.arena, c0, c, c', done, bytes);
  }

  /** `writeByte`: one byte, `ToUint8(value)`; size grows by 1. */
  method WriteByte(value: int, s: WriteSession, lb: nat, ghost c: seq<nat>) returns (lb': nat, ghost c': seq<nat>)
    requires Ready(s, c, lb)
    modifies s
    ensures Ready(s, c', lb') && Appended(old(s.arena), s.arena, c, c', [ToByte(value)])
    ensures s.size == old(s.size) + 1 && Kept(s)
  {
    s.size := s.size + 1;
    lb', c' := Emit(s, lb, c, [ToByte(value)]);
  }

  /** `writeInt16LE`, with the two-byte store its callers expect. */
  method WriteInt16LE(value: int, s: WriteSession, lb: nat, ghost c: seq<nat>) returns (lb': nat, ghost c': seq<nat>)
    requires Ready(s, c, lb)
    modifies s
    ensures Ready(s, c', lb') && Appended(old(s.arena), s.arena, c, c', LE16(value))
    ensures s.size == old(s.size) + 2 && Kept(s)
  {
    s.size := s.size + 2;
    lb', c' := Emit(s, lb, c, LE16(value));
  }

  /** `writeInt32LE`: four bytes, never split across blocks; size grows by 4. */
  method WriteInt32LE(value: int, s: WriteSession, lb: nat, ghost c: seq<nat>) returns (lb': nat, ghost c': seq<nat>)
    requires Ready(s, c, lb)
    modifies s
    ensures Ready(s, c', lb') && Appended(old(s.arena), s.arena, c, c', LE32(value))
    ensures s.size == old(s.size) + 4 && Kept(s)
  {
    s.size := s.size + 4;
    lb', c' := Emit(s, lb, c, LE32(value));
  }

  /** `writeInt64LE`: eight bytes, never split across blocks; size grows by 8. */
  method WriteInt64LE(value: Pair, s: WriteSession, lb: nat, ghost c: seq<nat>) returns (lb': nat, ghost c': seq<nat>)
    requires Ready(s, c, lb)
    modifies s
    ensures Ready(s, c', lb') && Appended(old(s.arena), s.arena, c, c', LE64(value))
    ensures s.size == old(s.size) + 8 && Kept(s)
  {
    s.size := s.size + 8;
    lb', c' := Emit(s, lb, c, LE64(value));
  }

  /**
   * `writeVarInt32`: the base-128 groups of the unsigned word, low group
   * first; size grows by one per byte.
   */
  method WriteVarInt32(value: int, s: WriteSession, lb: nat, ghost c: seq<nat>) returns (lb': nat, ghost c': seq<nat>)
    requires Ready(s, c, lb)
    modifies s
    ensures Ready(s, c', lb') && Appended(old(s.arena), s.arena, c, c', Varint(ToU32(value)))
    ensures s.size == old(s.size) + |Varint(ToU32(value))| && Kept(s)
  {
    var u: u32 := ToU32(value);
    ghost var done: seq<byte> := [];
    lb', c' := lb, c;
    AppendedRefl(s.arena, c);
    while true
      invariant Ready(s, c', lb') && Appended(old(s.arena), s.arena, c, c', done)
      invariant done + Varint(u) == Varint(ToU32(value))
      invariant s.size == old(s.size) + |done| && Kept(s)
      decreases u
    {
      s.size := s.size + 1;
      if u < 128 {
        lb', c' := EmitAfter(s, lb', c', [u], old(s.arena), c, done);
        return;
      }
      var b: byte := u % 128 + 128;
      lb', c' := EmitAfter(s, lb', c', [b], old(s.arena), c, done);
      VarintPush(u, b, done, Varint(ToU32(value)));
      done := done + [b];
      u := u / 128;
    }
  }

  /**
   * One round of the first loop of `writeVarInt64`: while the high word is
   * not zero, the next group comes from the low word, and
   * `low = (low >>> 7 | high << 25) >>> 0`, `high >>>= 7` divide the 64-bit
   * value by 128 (the two `|` operands occupy different bits).
   */
  lemma Varint64Step(high: u32, low: u32, v: nat, q: nat)
    requires high != 0
    requires v == high * 0x1_0000_0000 + low
    requires q == (high / 128) * 0x1_0000_0000 + (low / 128 + (high % 128) * 0x200_0000)
    ensures Varint(v) == [low % 128 + 128] + Varint(q)
  {
    Split64(high, low, v, q);
    VarintStep(v, q, low % 128);
  }

  /** One round of the first loop of `writeVarInt64` as the loop needs it. */
  lemma HighStep(high: u32, low: u32, v: nat, done: seq<byte>, total: seq<byte>) returns (q: nat)
    requires high != 0 && v == high as int * 0x1_0000_0000 + low && done + Varint(v) == total
    ensures low / 128 + (high % 128) * 0x200_0000 < 0x1_0000_0000
    ensures q == (high / 128) as int * 0x1_0000_0000 + (low / 128 + (high % 128) * 0x200_0000)
    ensures (done + [low % 128 + 128]) + Varint(q) == total
  {
    q := (high / 128) as int * 0x1_0000_0000 + (low / 128 + (high % 128) * 0x200_0000);
    Varint64Step(high, low, v, q);
    LowWordBound(high, low);
    Push(done, low % 128 + 128, Varint(q), total);
  }

  /** The new low word `low >>> 7 | high << 25` fits 32 bits. */
  lemma LowWordBound(high: u32, low: u32)
    ensures low / 128 + (high % 128) * 0x200_0000 < 0x1_0000_0000
  {
  }

  lemma Split64(high: u32, low: u32, v: int, q: int)
    requires v == high * 0x1_0000_0000 + low
    requires q == (high / 128) * 0x1_0000_0000 + (low / 128 + (high % 128) * 0x200_0000)
    ensures v == 128 * q + low % 128
  {
    assert high == 128 * (high / 128) + high % 128;
    assert low == 128 * (low / 128) + low % 128;
  }

  /** A value of at least 128 is one group and the varint of the rest. */
  lemma VarintStep(v: nat, q: nat, r: nat)
    requires v == 128 * q + r && r < 128 && v >= 128
    ensures Varint(v) == [r + 128] + Varint(q)
  {
    assert v / 128 == q && v % 128 == r;
  }

  /** One group of `writeVarInt32` moves from what is left to what is done. */
  lemma VarintPush(u: nat, b: byte, done: seq<byte>, total: seq<byte>)
    requires u >= 128 && b == u % 128 + 128 && done + Varint(u) == total
    ensures (done + [b]) + Varint(u / 128) == total
  {
    VarintStep(u, u / 128, u % 128);
    Push(done, b, Varint(u / 128), total);
  }

  /** Moving the next byte from what is left to what is done. */
  lemma Push(done: seq<byte>, b: byte, rest: seq<byte>, total: seq<byte>)
    requires done + ([b] + rest) == total
    ensures (done + [b]) + rest == total
  {
  }

  /**
   * `writeVarInt64`: the base-128 groups of the 64-bit value of the pair,
   * low group first, 1 to 10 bytes; size grows by one per byte.
   */
  method WriteVarInt64(value: Pair, s: WriteSession, lb: nat, ghost c: seq<nat>) returns (lb': nat, ghost c': seq<nat>)
    requires Ready(s, c, lb)
    modifies s
    ensures Ready(s, c', lb') && Appended(old(s.arena), s.arena, c, c', Varint(value.Value()))
    ensures s.size == old(s.size) + |Varint(value.Value())| && Kept(s)
  {
    AppendedRefl(s.arena, c);
    assert [] + Varint(value.Value()) == Varint(value.Value());
    var low;
    ghost var done;
    low, lb', c', done := HighGroups(value.high, value.low, s, lb, c, s.arena, c, [], Varint(value.Value()));
    lb', c' := LowGroups(low, s, lb', c', old(s.arena), c, done, Varint(value.Value()));
  }

  /**
   * The first loop of `writeVarInt64`: while the high word is not zero, emit
   * the low seven bits of the low word with 0x80, and shift the pair right
   * by seven. `done` is what the caller has already appended to the run
   * `c0` of the arena `a0`, `total` what it appends in all.
   */
  method HighGroups(high: u32, low: u32, s: WriteSession, lb: nat, ghost c: seq<nat>,
                    ghost a0: Arena, ghost c0: seq<nat>, ghost done: seq<byte>, ghost total: seq<byte>)
    returns (low': u32, lb': nat, ghost c': seq<nat>, ghost done': seq<byte>)
    requires Ready(s, c, lb) && Appended(a0, s.arena, c0, c, done)
    requires done + Varint(high * 0x1_0000_0000 + low) == total
    modifies s
    ensures Ready(s, c', lb') && Appended(a0, s.arena, c0, c', done')
    ensures done' + Varint(low') == total
    ensures s.size == old(s.size) + |done'| - |done| && Kept(s)
  {
    var hi: u32, lo: u32 := high, low;
    ghost var v: nat := high as int * 0x1_0000_0000 + low;
    lb', c', done' := lb, c, done;
    while hi != 0
      invariant Ready(s, c', lb') && Appended(a0, s.arena, c0, c', done')
      invariant v == hi as int * 0x1_0000_0000 + lo
      invariant done' + Varint(v) == total
      invariant s.size == old(s.size) + |done'| - |done| && Kept(s)
      decreases hi
    {
      ghost var q := HighStep(hi, lo, v, done', total);
      lb', c' := EmitAfter(s, lb', c', [lo % 128 + 128], a0, c0, done');
      s.size := s.size + 1;
      done' := done' + [lo % 128 + 128];
      lo := lo / 128 + (hi % 128) * 0x200_0000;
      hi := hi / 128;
      v := q;
    }
    low' := lo;
  }

  /**
   * The second loop of `writeVarInt64` and its last byte: the groups of the
   * remaining low word.
   */
  method LowGroups(low: u32, s: WriteSession, lb: nat, ghost c: seq<nat>,
                   ghost a0: Arena, ghost c0: seq<nat>, ghost done: seq<byte>, ghost total: seq<byte>)
    returns (lb': nat, ghost c': seq<nat>)
    requires Ready(s, c, lb) && Appended(a0, s.arena, c0, c, done)
    requires done + Varint(low) == total
    modifies s
    ensures Ready(s, c', lb') && Appended(a0, s.arena, c0, c', total)
    ensures s.size == old(s.size) + |total| - |done| && Kept(s)
  {
    var lo: u32 := low;
    ghost var d: seq<byte> := done;
    lb', c' := lb, c;
    while lo > 127
      invariant Ready(s, c', lb') && Appended(a0, s.arena, c0, c', d)
      invariant d + Varint(lo) == total
      invariant s.size == old(s.size) + |d| - |done| && Kept(s)
      decreases lo
    {
      s.size := s.size + 1;
      lb', c' := EmitAfter(s, lb', c', [lo % 128 + 128], a0, c0, d);
      VarintStep(lo, lo / 128, lo % 128);
      Push(d, lo % 128 + 128, Varint(lo / 128), total);
      d := d + [lo % 128 + 128];
      lo := lo / 128;
    }
    lb', c' := EmitAfter(s, lb', c', [lo], a0, c0, d);
    s.size := s.size + 1;
  }

  /**
   * `writeVarInt64` as written. A Long keeps its words as `low | 0` and
   * `high | 0`, so `low` reaches the loops as the signed word
   * `ToI32(value.low)`. While `high` is not zero the loop reads `low` only
   * through `& 127` and `>>> 7`, which see its unsigned bits, and leaves it
   * unsigned (`>>> 0`). When `high` is zero from the start, a `low` of 2^31
   * or more is negative: `while (low > 127)` does not run and the final
   * store keeps `ToUint8(low)`.
   */
  function Varint64AsWritten(value: Pair): seq<byte>
  {
    if value.high != 0 then HighLoopAsWritten(value.high, value.low)
    else LowLoopAsWritten(ToI32(value.low))
  }

  /** The first loop as written, on the unsigned low word. */
  function HighLoopAsWritten(high: u32, low: u32): seq<byte>
    decreases high
  {
    if high == 0 then LowLoopAsWritten(low)
    else [low % 128 + 128] + HighLoopAsWritten(high / 128, low / 128 + (high % 128) * 0x200_0000)
  }

  /** The second loop as written and its last store, on a low word that may be negative. */
  function LowLoopAsWritten(low: int): seq<byte>
    decreases if low > 0 then low else 0
  {
    if low > 127 then [low % 128 + 128] + LowLoopAsWritten(low / 128) else [ToByte(low)]
  }

  /** On a non-negative word the second loop writes the varint. */
  lemma {:induction false} LowLoopVarint(low: nat)
    ensures LowLoopAsWritten(low) == Varint(low)
    decreases low
  {
    if low > 127 {
      LowLoopVarint(low / 128);
    }
  }

  /** The first loop and what follows it write the varint of the pair's value. */
  lemma {:induction false} HighLoopVarint(high: u32, low: u32)
    ensures HighLoopAsWritten(high, low) == Varint(high as int * 0x1_0000_0000 + low)
    decreases high
  {
    if high == 0 {
      LowLoopVarint(low);
    } else {
      var q := (high / 128) as int * 0x1_0000_0000 + (low / 128 + (high % 128) * 0x200_0000);
      Split64(high, low, high as int * 0x1_0000_0000 + low, q);
      VarintStep(high as int * 0x1_0000_0000 + low, q, low % 128);
      HighLoopVarint(high / 128, low / 128 + (high % 128) * 0x200_0000);
    }
  }

  /**
   * The writer as written agrees with `WriteVarInt64` unless the high word is
   * zero and the low word has its top bit set; then it writes one byte, the
   * low eight bits.
   */
  lemma Varint64AsWrittenAgrees(value: Pair)
    ensures value.high != 0 || value.low < TWO_31 ==> Varint64AsWritten(value) == Varint(value.Value())
    ensures value.high == 0 && value.low >= TWO_31 ==> Varint64AsWritten(value) == [value.low % 0x100]
  {
    assert value.Value() == value.high as int * 0x1_0000_0000 + value.low;
    if value.high != 0 {
      HighLoopVarint(value.high, value.low);
    } else if value.low < TWO_31 {
      LowLoopVarint(value.low);
    } else {
      NegativeLow(value.low);
    }
  }

  /** A low word with its top bit set is negative as a Long holds it: the loop is skipped and its low byte stored. */
  lemma NegativeLow(low: u32)
    requires low >= TWO_31
    ensures LowLoopAsWritten(ToI32(low)) == [low % 0x100]
  {
    var x := low - 0x1_0000_0000;
    assert ToI32(low) == x < 0;
    assert x == 0x100 * (low / 0x100 - 0x100_0000) + low % 0x100;
    assert ToByte(x) == low % 0x100;
  }

  /**
   * 2^31 with a zero high word: as written the single byte 0, the varint of
   * 0, where the intended writer emits the five bytes of 2^31.
   */
  lemma Varint64AsWrittenLosesHighBit()
    ensures Varint64AsWritten(Pair(0x8000_0000, 0)) == [0] == Varint(0)
    ensures Varint(Pair(0x8000_0000, 0).Value()) == [0x80, 0x80, 0x80, 0x80, 0x08]
  {
    NegativeLow(0x8000_0000);
    assert Varint64AsWritten(Pair(0x8000_0000, 0)) == LowLoopAsWritten(ToI32(0x8000_0000));
    VarintOfTwo31();
  }

  /** The varint of 2^31: four continuation groups of zero, then 8. */
  lemma VarintOfTwo31()
    ensures Varint(0x8000_0000) == [0x80, 0x80, 0x80, 0x80, 0x08]
  {
    var v3 := Varint(0x400);
    assert v3 == [0x80] + Varint(8) == [0x80, 0x08];
    var v2 := Varint(0x2_0000);
    assert v2 == [0x80] + v3;
    var v1 := Varint(0x100_0000);
    assert v1 == [0x80] + v2;
    assert Varint(0x8000_0000) == [0x80] + v1;
  }

  /** 3000000000 (0xB2D05E00) with a zero high word: as written also the single byte 0, where its varint has five bytes. */
  lemma Varint64AsWrittenLosesLargeLow()
    ensures Varint64AsWritten(Pair(3000000000, 0)) == [0]
    ensures |Varint(Pair(3000000000, 0).Value())| == 5
  {
    Varint64AsWrittenAgrees(Pair(3000000000, 0));
    assert ComputeRawVarint32Size(3000000000 - TWO_32) == 5;
  }

  /**
   * `writeByteArray(value, offset, valueLen)`: appends
   * `value[offset .. offset + valueLen]`; size grows by `valueLen`.
   *  - `valueLen == 0`: nothing changes;
   *  - it fits in `lb`: copied at `lb.offset`, no new block;
   *  - it fits in `lb` and one new block: `lb` is filled, the rest starts a
   *    new block;
   *  - otherwise the range of `value` itself becomes a block (no copy),
   *    followed by a fresh block when `lb` was full, or else by an empty view
   *    of the rest of `lb`'s array.
   */
  method WriteByteArray(value: seq<byte>, offset: nat, valueLen: nat, s: WriteSession, lb: nat, ghost c: seq<nat>)
    returns (lb': nat, ghost c': seq<nat>)
    requires offset + valueLen <= |value|
    requires Ready(s, c, lb)
    modifies s
    ensures Ready(s, c', lb') && Appended(old(s.arena), s.arena, c, c', value[offset..offset + valueLen])
    ensures s.size == old(s.size) + valueLen && Kept(s)
    ensures valueLen == 0 ==> lb' == lb && s.arena == old(s.arena)
    ensures valueLen <= old(Capacity(s.arena, lb) - s.arena.blocks[lb].offset) ==> c' == c
    ensures (old(Capacity(s.arena, lb) - s.arena.blocks[lb].offset) < valueLen
             <= old(Capacity(s.arena, lb) - s.arena.blocks[lb].offset) + s.nextBufferSize) ==> |c'| == |c| + 1
    ensures old(Capacity(s.arena, lb) - s.arena.blocks[lb].offset) + s.nextBufferSize < valueLen ==>
      |c'| == |c| + 2 && s.arena.blocks[c'[|c|]].buf == old(|s.arena.bufs|)
      && s.arena.bufs[s.arena.blocks[c'[|c|]].buf] == value
  {
    if valueLen == 0 {
      AppendedRefl(s.arena, c);
      return lb, c;
    }
    s.size := s.size + valueLen;
    var available := Capacity(s.arena, lb) - s.arena.blocks[lb].offset;
    if valueLen > available {
      if available + s.nextBufferSize < valueLen {
        lb', c' := Splice(value, offset, valueLen, s, lb, c);
        return;
      }
      lb', c' := CopySplit(value[offset..offset + valueLen], available, s, lb, c);
      return;
    }
    PutAppended(s.arena, c, value[offset..offset + valueLen]);
    s.arena := Put(s.arena, lb, value[offset..offset + valueLen]);
    lb', c' := lb, c;
  }

  /**
   * The zero-copy branch of `writeByteArray`: the range of `value` becomes
   * a block after `lb`, then comes a fresh block if `lb` is full, or else an
   * empty view of the rest of `lb`'s array.
   */
  method Splice(value: seq<byte>, offset: nat, valueLen: nat, s: WriteSession, lb: nat, ghost c: seq<nat>)
    returns (lb': nat, ghost c': seq<nat>)
    requires offset + valueLen <= |value|
    requires Ready(s, c, lb)
    modifies s
    ensures Ready(s, c', lb') && Appended(old(s.arena), s.arena, c, c', value[offset..offset + valueLen])
    ensures s.size == old(s.size) && Kept(s)
    ensures |c'| == |c| + 2 && s.arena.blocks[c'[|c|]].buf == old(|s.arena.bufs|)
    ensures s.arena.bufs[s.arena.blocks[c'[|c|]].buf] == value
  {
    var a0 := s.arena;
    var (a1, donor) := Attach(a0, value, offset, offset + valueLen, lb);
    if Capacity(a0, lb) == a0.blocks[lb].offset {
      AttachThenGrow(a0, c, value, offset, offset + valueLen, s.nextBufferSize);
      var (a2, n) := Grow(a1, s.nextBufferSize, donor);
      s.arena := a2;
      lb', c' := n, c + [donor, n];
    } else {
      AttachThenView(a0, c, value, offset, offset + valueLen);
      var view := a0.blocks[lb];
      var (a2, n) := NewLinkedBuffer(a1, view.buf, view.offset, view.offset, Some(donor));
      s.arena := a2;
      lb', c' := n, c + [donor, n];
    }
  }

  /**
   * The copying branch of `writeByteArray` for data longer than the room
   * left in `lb`: `available` bytes fill `lb`, the rest go to offset 0 of
   * one new block.
   */
  method CopySplit(data: seq<byte>, available: nat, s: WriteSession, lb: nat, ghost c: seq<nat>)
    returns (lb': nat, ghost c': seq<nat>)
    requires Ready(s, c, lb) && available == Capacity(s.arena, lb) - s.arena.blocks[lb].offset
    requires available < |data| <= available + s.nextBufferSize
    modifies s
    ensures Ready(s, c', lb') && Appended(old(s.arena), s.arena, c, c', data)
    ensures s.size == old(s.size) && Kept(s) && |c'| == |c| + 1
  {
    var first := data[..available];
    var rest := data[available..];
    assert first + rest == data;
    var a0 := s.arena;
    PutAppended(a0, c, first);
    s.arena := Put(a0, lb, first);
    ghost var a1 := s.arena;
    lb', c' := GrowBlock(s, lb, c);
    var a2 := s.arena;
    AppendedTrans(a0, a1, a2, c, c, c', first, []);
    assert first + [] == first;
    PutAppended(a2, c', rest);
    s.arena := Put(a2, lb', rest);
    AppendedTrans(a0, a2, s.arena, c, c', c', first, rest);
  }
}
