/**
 * `StringSerializer.writeUTF8VarDelimited`: a string as its UTF-8 length
 * followed by its UTF-8 bytes, written into the session's blocks.
 *
 * The length is not known before the string is encoded, so the writer
 * reserves room for the prefix first, choosing its width from the number
 * of UTF-16 units (a unit costs at most three bytes), encodes the string
 * behind the reservation, and then fills the prefix in. If the payload
 * turned out shorter than the width's lower limit, the prefix needs one byte
 * less and the payload bytes in the reserving block are moved left by one.
 *
 * The width thresholds are `L / 3 + 1` for L = 2^7, 2^14, 2^21, 2^28. The
 * source computes them with real division (43.67, 5462.33, ...); with
 * integer division (43, 5462, ...) every length gets a width its worst
 * case fits. `Division` selects which one a call uses.
 */
module StringSerializers {
  import opened Bytes
  import opened Wrappers
  import opened Extension
  import opened Utf8
  import opened Varints
  import opened LinkedBuffers
  import opened BlockEdits
  import opened Session
  import opened WriteSinks

  const TWO_BYTE_LOWER_LIMIT: int := 0x80
  const THREE_BYTE_LOWER_LIMIT: int := 0x4000
  const FOUR_BYTE_LOWER_LIMIT: int := 0x20_0000
  const FIVE_BYTE_LOWER_LIMIT: int := 0x1000_0000

  /**
   * JavaScript engines refuse to build strings of 2^30 units or more; below
   * that the payload stays under 2^32, where `>>> 7` is a division by 128.
   */
  const MAX_STRING_LENGTH: int := 0x3FFF_FFFF

  datatype Division = IntegerDivision | RealDivision

  /**
   * `len < L / 3 + 1`. Over the reals that is `3 * (len - 1) < L`; with
   * integer division it is `3 * len < L`, as L is never a multiple of 3.
   */
  predicate BelowBand(d: Division, len: int, limit: int)
  {
    match d
    case IntegerDivision => len < limit / 3 + 1
    case RealDivision => 3 * (len - 1) < limit
  }

  /** The number of prefix bytes `writeUTF8VarDelimited` reserves for `len` units. */
  function PrefixWidth(d: Division, len: nat): (e: nat)
    ensures 1 <= e <= 5
    ensures d == IntegerDivision && e < 5 ==> 3 * len < Shift7(1, e)
    ensures d == IntegerDivision && 1 < e ==> Shift7(1, e - 1) <= 3 * len
  {
    ShiftValues(1);
    if len == 0 || BelowBand(d, len, TWO_BYTE_LOWER_LIMIT) then 1
    else if BelowBand(d, len, THREE_BYTE_LOWER_LIMIT) then 2
    else if BelowBand(d, len, FOUR_BYTE_LOWER_LIMIT) then 3
    else if BelowBand(d, len, FIVE_BYTE_LOWER_LIMIT) then 4
    else 5
  }

  /** The payload size from which an `e`-byte reservation is used in full. */
  function LowerLimit(e: nat): (l: nat)
    requires 2 <= e <= 5
    ensures l == Shift7(1, e - 1)
  {
    ShiftValues(1);
    if e == 2 then TWO_BYTE_LOWER_LIMIT
    else if e == 3 then THREE_BYTE_LOWER_LIMIT
    else if e == 4 then FOUR_BYTE_LOWER_LIMIT
    else FIVE_BYTE_LOWER_LIMIT
  }

  /**
   * The prefix loop: `w - 1` bytes `(v & 0x7F) | 0x80`, each followed by
   * `v >>>= 7`, then `v` itself stored into a byte.
   */
  function Groups(v: nat, w: nat): (r: seq<byte>)
    requires w >= 1
    ensures |r| == w
  {
    if w == 1 then [ToByte(v)] else [v % 128 + 128] + Groups(v / 128, w - 1)
  }

  /** When `w` is the varint length of `v`, the prefix loop writes the varint of `v`. */
  lemma {:induction false} GroupsVarint(v: nat, w: nat)
    requires w >= 1 && |Varint(v)| == w
    ensures Groups(v, w) == Varint(v)
  {
    if w > 1 {
      GroupsVarint(v / 128, w - 1);
    }
  }

  /** The prefix written for an `n`-byte payload after reserving `e` bytes. */
  function Prefix(n: nat, e: nat): (r: seq<byte>)
    requires 1 <= e <= 5
    ensures |r| == e || (|r| == e - 1 && 1 < e && n < LowerLimit(e))
  {
    if 1 < e && n < LowerLimit(e) then Groups(n, e - 1) else Groups(n, e)
  }

  /** Everything `writeUTF8VarDelimited` writes for `str`. */
  function Delimited(d: Division, str: seq<Unit>): seq<byte>
  {
    Prefix(|Encode(str)|, PrefixWidth(d, |str|)) + Encode(str)
  }

  /**
   * With integer thresholds the prefix is exactly the varint of the payload
   * length: the payload (between |str| and 3|str| bytes) never outgrows the
   * reserved width, and when it falls below the lower limit it needs
   * exactly one byte less.
   */
  lemma DelimitedVarint(str: seq<Unit>)
    requires |str| <= MAX_STRING_LENGTH
    ensures Delimited(IntegerDivision, str) == Varint(|Encode(str)|) + Encode(str)
  {
    var n := |Encode(str)|;
    var e := PrefixWidth(IntegerDivision, |str|);
    EncodeBounds(str);
    ShiftValues(1);
    if 1 < e && n < LowerLimit(e) {
      VarintLength(n, e - 1);
      if e > 2 {
        assert Shift7(1, e - 2) * 128 == Shift7(1, e - 1);
      }
      GroupsVarint(n, e - 1);
    } else {
      VarintLength(n, e);
      GroupsVarint(n, e);
    }
  }

  /**
   * With the source's real-valued thresholds a string of 43 units that all
   * take three bytes gets a one-byte prefix, but its 129-byte payload needs
   * two: the byte stored is 0x81, which a reader takes as the first group of
   * a longer varint.
   */
  lemma RealThresholdsOverflow()
    ensures var str: seq<Unit> := seq(43, _ => 0x800);
      |Encode(str)| == 129 && PrefixWidth(RealDivision, 43) == 1 && PrefixWidth(IntegerDivision, 43) == 2
      && Delimited(RealDivision, str) == [0x81] + Encode(str)
      && Varint(129) == [0x81, 0x01]
      && Delimited(RealDivision, str) != Varint(|Encode(str)|) + Encode(str)
  {
    var str: seq<Unit> := seq(43, _ => 0x800);
    EncodeFromThreeBytes(str, 0);
    assert Varint(129) == [0x81, 0x01];
  }

  /** The bytes of one character followed by the rest of the string. */
  lemma EncodeStep(str: seq<Unit>, j: nat, d: seq<byte>, total: seq<byte>)
    requires j < |str| && d + EncodeFrom(Intended, str, j) == total
    ensures (d + CharBytes(Intended, str, j)) + EncodeFrom(Intended, str, j + Width(Intended, str, j)) == total
  {
  }

  /** What one character costs in bytes and in units. */
  lemma CharCost(str: seq<Unit>, i: nat)
    requires i < |str|
    ensures str[i] < 0x800 ==> !PairAt(Intended, str, i)
    ensures Width(Intended, str, i) == if PairAt(Intended, str, i) then 2 else 1
    ensures |CharBytes(Intended, str, i)|
      == if str[i] < 0x80 then 1 else if str[i] < 0x800 then 2 else if PairAt(Intended, str, i) then 4 else 3
  {
  }

  // ---------------------------------------------------------------------
  // Writing bytes into the blocks.
  // ---------------------------------------------------------------------

  /**
   * One character of `writeUTF8_5`, stored at `lb`'s offset where it is
   * known to fit. `extra` is what the character costs beyond one byte per
   * unit, as `writeUTF8_5` adds it to its limit.
   */
  method FastChar(str: seq<Unit>, i: nat, extra: nat, s: WriteSession, lb: nat, ghost c: seq<nat>,
                  ghost a0: Arena, ghost c0: seq<nat>, ghost done: seq<byte>, ghost total: seq<byte>)
    returns (i': nat, ghost done': seq<byte>)
    requires i < |str| && Ready(s, c, lb) && Appended(a0, s.arena, c0, c, done)
    requires done + EncodeFrom(Intended, str, i) == total
    requires extra == if str[i] < 0x80 then 0 else if str[i] < 0x800 then 1 else if PairAt(Intended, str, i) then 3 else 2
    requires s.arena.blocks[lb].offset + (|str| - i) + extra <= Capacity(s.arena, lb)
    modifies s
    ensures i < i' <= |str| && Ready(s, c, lb) && Appended(a0, s.arena, c0, c, done')
    ensures done' + EncodeFrom(Intended, str, i') == total
    ensures s.arena.blocks[lb].offset == old(s.arena.blocks[lb].offset) + |done'| - |done|
    ensures s.arena.blocks[lb].offset + (|str| - i') <= old(s.arena.blocks[lb].offset) + (|str| - i) + extra
    ensures Capacity(s.arena, lb) == old(Capacity(s.arena, lb))
    ensures s.size == old(s.size) && Kept(s)
  {
    CharCost(str, i);
    var bytes := CharBytes(Intended, str, i);
    var a1 := s.arena;
    PutAppended(a1, c, bytes);
    s.arena := Put(a1, lb, bytes);
    AppendedTrans(a0, a1, s.arena, c0, c, c, done, bytes);
    EncodeStep(str, i, done, total);
    i', done' := i + Width(Intended, str, i), done + bytes;
  }

  /**
   * One byte at a time, moving to a fresh block of `nextBufferSize` bytes
   * whenever the current one is full: how `writeUTF8_8` stores the bytes of
   * one character.
   */
  method EmitEach(s: WriteSession, lb: nat, ghost c: seq<nat>, bytes: seq<byte>,
                  ghost a0: Arena, ghost c0: seq<nat>, ghost done: seq<byte>)
    returns (lb': nat, ghost c': seq<nat>)
    requires Ready(s, c, lb) && Appended(a0, s.arena, c0, c, done)
    modifies s
    ensures Ready(s, c', lb') && Appended(a0, s.arena, c0, c', done + bytes)
    ensures s.size == old(s.size) && Kept(s)
  {
    lb', c' := lb, c;
    var k := 0;
    while k < |bytes|
      invariant k <= |bytes| && Ready(s, c', lb') && Appended(a0, s.arena, c0, c', done + bytes[..k])
      invariant s.size == old(s.size) && Kept(s)
    {
      lb', c' := EmitAfter(s, lb', c', [bytes[k]], a0, c0, done + bytes[..k]);
      assert done + bytes[..k] + [bytes[k]] == done + bytes[..k + 1];
      k := k + 1;
    }
    assert bytes[..k] == bytes;
  }

  /** One character of `writeUTF8_8`, its bytes counted into `size`. */
  method SlowChar(str: seq<Unit>, j: nat, s: WriteSession, lb: nat, ghost c: seq<nat>,
                  ghost a0: Arena, ghost c0: seq<nat>, ghost done: seq<byte>, ghost total: seq<byte>)
    returns (lb': nat, ghost c': seq<nat>, j': nat, ghost done': seq<byte>)
    requires j < |str| && Ready(s, c, lb) && Appended(a0, s.arena, c0, c, done)
    requires done + EncodeFrom(Intended, str, j) == total
    modifies s
    ensures j < j' <= |str| && Ready(s, c', lb') && Appended(a0, s.arena, c0, c', done')
    ensures done' + EncodeFrom(Intended, str, j') == total
    ensures s.size == old(s.size) + |done'| - |done| && Kept(s)
  {
    var bytes := CharBytes(Intended, str, j);
    lb', c' := EmitEach(s, lb, c, bytes, a0, c0, done);
    s.size := s.size + |bytes|;
    EncodeStep(str, j, done, total);
    j', done' := j + Width(Intended, str, j), done + bytes;
  }

  /**
   * `writeUTF8_8`: the units from `i` on, character by character, each
   * byte checked against the end of the block. Only the branch taken when
   * the full block has no successor is reachable, since the block being
   * written is always the last of its chain. `size` is brought up to date
   * per character instead of at each block change; the sum is the same.
   */
  method WriteUTF8Slow(str: seq<Unit>, i: nat, s: WriteSession, lb: nat, ghost c: seq<nat>)
    returns (lb': nat, ghost c': seq<nat>)
    requires i <= |str| && Ready(s, c, lb)
    modifies s
    ensures Ready(s, c', lb') && Appended(old(s.arena), s.arena, c, c', EncodeFrom(Intended, str, i))
    ensures s.size == old(s.size) + |EncodeFrom(Intended, str, i)| && Kept(s)
  {
    lb', c' := lb, c;
    var j := i;
    ghost var d := [];
    AppendedRefl(s.arena, c);
    while j < |str|
      invariant j <= |str| && Ready(s, c', lb') && Appended(old(s.arena), s.arena, c, c', d)
      invariant d + EncodeFrom(Intended, str, j) == EncodeFrom(Intended, str, i)
      invariant s.size == old(s.size) + |d| && Kept(s)
      decreases |str| - j
    {
      lb', c', j, d := SlowChar(str, j, s, lb', c', old(s.arena), c, d, EncodeFrom(Intended, str, i));
    }
  }

  /**
   * `writeUTF8_5`: the whole string into `lb`, which has room for one byte
   * per unit. `adjustableLimit` starts at one byte per unit and grows by the
   * extra bytes of each wider character; when it would pass the end of the
   * block the bytes so far are committed and `writeUTF8_8` takes over from
   * the current character.
   */
  method WriteUTF8Fast(str: seq<Unit>, s: WriteSession, lb: nat, ghost c: seq<nat>)
    returns (lb': nat, ghost c': seq<nat>)
    requires Ready(s, c, lb)
    requires s.arena.blocks[lb].offset + |str| <= Capacity(s.arena, lb)
    modifies s
    ensures Ready(s, c', lb') && Appended(old(s.arena), s.arena, c, c', Encode(str))
    ensures s.size == old(s.size) + |Encode(str)| && Kept(s)
  {
    var i := 0;
    var entry := s.arena.blocks[lb].offset;
    var adjustableLimit := entry + |str|;
    ghost var d := [];
    AppendedRefl(s.arena, c);
    while true
      invariant i <= |str| && Ready(s, c, lb) && Appended(old(s.arena), s.arena, c, c, d)
      invariant d + EncodeFrom(Intended, str, i) == Encode(str)
      invariant s.arena.blocks[lb].offset + (|str| - i) <= adjustableLimit <= Capacity(s.arena, lb)
      invariant s.arena.blocks[lb].offset == entry + |d|
      invariant s.size == old(s.size) && Kept(s)
      decreases |str| - i
    {
      if i == |str| {
        s.size := s.size + (s.arena.blocks[lb].offset - entry);
        return lb, c;
      }
      var ch := str[i];
      var extra := 0;
      if ch >= 0x80 {
        extra := if ch < 0x800 then 1 else if PairAt(Intended, str, i) then 3 else 2;
        adjustableLimit := adjustableLimit + extra;
        if adjustableLimit > Capacity(s.arena, lb) {
          s.size := s.size + (s.arena.blocks[lb].offset - entry);
          lb', c' := HandOff(str, i, s, lb, c, old(s.arena), d);
          return;
        }
      }
      i, d := FastChar(str, i, extra, s, lb, c, old(s.arena), c, d, Encode(str));
    }
  }

  /** `writeUTF8_8` continuing a string of which `done` is already written. */
  method HandOff(str: seq<Unit>, i: nat, s: WriteSession, lb: nat, ghost c: seq<nat>,
                 ghost a0: Arena, ghost done: seq<byte>)
    returns (lb': nat, ghost c': seq<nat>)
    requires i <= |str| && Ready(s, c, lb) && Appended(a0, s.arena, c, c, done)
    requires done + EncodeFrom(Intended, str, i) == Encode(str)
    modifies s
    ensures Ready(s, c', lb') && Appended(a0, s.arena, c, c', Encode(str))
    ensures s.size == old(s.size) + |EncodeFrom(Intended, str, i)| && Kept(s)
  {
    ghost var a1 := s.arena;
    lb', c' := WriteUTF8Slow(str, i, s, lb, c);
    AppendedTrans(a0, a1, s.arena, c, c, c', done, EncodeFrom(Intended, str, i));
  }

  /** The payload behind a reservation: `writeUTF8_5` when it fits, else `writeUTF8_8`. */
  method WritePayload(str: seq<Unit>, fits: bool, s: WriteSession, p: nat, ghost cp: seq<nat>)
    returns (lb': nat, ghost c': seq<nat>)
    requires Ready(s, cp, p)
    requires fits ==> s.arena.blocks[p].offset + |str| <= Capacity(s.arena, p)
    modifies s
    ensures Ready(s, c', lb') && Appended(old(s.arena), s.arena, cp, c', Encode(str))
    ensures s.size == old(s.size) + |Encode(str)| && Kept(s)
  {
    if fits {
      lb', c' := WriteUTF8Fast(str, s, p, cp);
    } else {
      lb', c' := WriteUTF8Slow(str, 0, s, p, cp);
    }
  }

  /** The block written before an append is still in place after it, possibly fuller. */
  lemma PayloadBlock(a1: Arena, a2: Arena, cp: seq<nat>, c': seq<nat>, payload: seq<byte>)
    requires Appended(a1, a2, cp, c', payload)
    ensures c'[|cp| - 1] == cp[|cp| - 1] && BlockOK(a1, cp[|cp| - 1]) && BlockOK(a2, cp[|cp| - 1])
    ensures Extends(a1, a2, cp[|cp| - 1])
    ensures a2.blocks[cp[|cp| - 1]].start + |Data(a2, cp[|cp| - 1])| == a2.blocks[cp[|cp| - 1]].offset
  {
  }

  /** `new LinkedBuffer(new Uint8Array(size), 0, 0, lb)`. */
  method GrowSized(s: WriteSession, lb: nat, ghost c: seq<nat>, size: nat) returns (lb': nat, ghost c': seq<nat>)
    requires Ready(s, c, lb)
    modifies s
    ensures Ready(s, c', lb') && Appended(old(s.arena), s.arena, c, c', [])
    ensures c' == c + [lb'] && s.arena.blocks[lb'].start == 0 && s.arena.blocks[lb'].offset == 0
    ensures Capacity(s.arena, lb') == size
    ensures s.size == old(s.size) && Kept(s)
  {
    GrowAppended(s.arena, c, size);
    var (a', n) := Grow(s.arena, size, lb);
    s.arena := a';
    lb', c' := n, c + [n];
  }

  /**
   * The start the two delimited writers share: if fewer than `e` bytes
   * remain in `lb`, a new block of `max(len + e, nextBufferSize)` bytes
   * follows it; `e` bytes are reserved at offset `q` of the block `p`
   * written next, and `fits` says whether one byte per unit fits after them.
   */
  method ReservePrefix(len: nat, e: nat, s: WriteSession, lb: nat, ghost c: seq<nat>)
    returns (p: nat, q: nat, fits: bool, ghost cp: seq<nat>, ghost reserved: seq<byte>)
    requires Ready(s, c, lb) && 1 <= e <= 5
    modifies s
    ensures Ready(s, cp, p) && Appended(old(s.arena), s.arena, c, cp, reserved) && |reserved| == e
    ensures s.arena.blocks[p].start <= q && s.arena.blocks[p].offset == q + e
    ensures fits <==> q + e + len <= Capacity(s.arena, p)
    ensures old(s.arena.blocks[lb].offset) + e > old(Capacity(s.arena, lb)) ==> fits
    ensures s.size == old(s.size) && Kept(s)
  {
    ghost var a0 := s.arena;
    if s.arena.blocks[lb].offset + e > Capacity(s.arena, lb) {
      var size := if len + e > s.nextBufferSize then len + e else s.nextBufferSize;
      p, cp := GrowSized(s, lb, c, size);
      q := 0;
    } else {
      p, cp, q := lb, c, s.arena.blocks[lb].offset;
      AppendedRefl(a0, c);
    }
    fits := q + e + len <= Capacity(s.arena, p);
    ghost var a1 := s.arena;
    reserved := ReserveAt(s, p, cp, e);
    AppendedTrans(a0, a1, s.arena, c, cp, cp, [], reserved);
    assert [] + reserved == reserved;
  }

  /** `offset += e` on the last block, keeping whatever its array holds there. */
  method ReserveAt(s: WriteSession, p: nat, ghost cp: seq<nat>, e: nat) returns (ghost reserved: seq<byte>)
    requires Ready(s, cp, p) && s.arena.blocks[p].offset + e <= Capacity(s.arena, p)
    modifies s
    ensures Ready(s, cp, p) && Appended(old(s.arena), s.arena, cp, cp, reserved) && |reserved| == e
    ensures s.arena.blocks[p].start == old(s.arena.blocks[p].start)
    ensures s.arena.blocks[p].offset == old(s.arena.blocks[p].offset) + e
    ensures Capacity(s.arena, p) == old(Capacity(s.arena, p))
    ensures s.size == old(s.size) && Kept(s)
  {
    var a := s.arena;
    var b := a.blocks[p];
    reserved := a.bufs[b.buf][b.offset..b.offset + e];
    PutAppended(a, cp, reserved);
    s.arena := Reserve(a, p, e);
  }

  /** The prefix loop of `writeUTF8VarDelimited0`, storing into block `n` from `at` on. */
  method WriteGroups(s: WriteSession, n: nat, at: nat, v: nat, w: nat)
    requires BlockOK(s.arena, n) && 1 <= w
    requires s.arena.blocks[n].start <= at && at + w <= s.arena.blocks[n].offset
    modifies s
    ensures s.arena == Patch(old(s.arena), n, at, Groups(v, w))
    ensures s.size == old(s.size) && Kept(s)
  {
    var a0 := s.arena;
    var a := a0;
    ghost var g := Groups(v, w);
    var k := 1;
    var x := v;
    var offset := at;
    assert g[..0] == [];
    PatchNothing(a0, n, at);
    while k < w
      invariant 1 <= k <= w && offset == at + k - 1
      invariant g[k - 1..] == Groups(x, w - k + 1)
      invariant a == Patch(a0, n, at, g[..k - 1]) && unchanged(s)
    {
      GroupsStep(g, k, x, w - k + 1);
      PatchStep(a0, n, at, g[..k - 1], x % 128 + 128);
      a := Patch(a, n, offset, [x % 128 + 128]);
      offset := offset + 1;
      x := x / 128;
      k := k + 1;
    }
    PatchStep(a0, n, at, g[..k - 1], ToByte(x));
    s.arena := Patch(a, n, offset, [ToByte(x)]);
    assert g[..k - 1] + [ToByte(x)] == g;
  }

  lemma GroupsStep(g: seq<byte>, k: nat, x: nat, m: nat)
    requires 1 <= k <= |g| && 1 < m && g[k - 1..] == Groups(x, m)
    ensures g[k - 1] == x % 128 + 128 && g[k..] == Groups(x / 128, m - 1)
    ensures g[..k - 1] + [x % 128 + 128] == g[..k]
  {
    assert g[k..] == g[k - 1..][1..];
  }

  lemma PatchNothing(a: Arena, n: nat, at: nat)
    requires BlockOK(a, n) && a.blocks[n].start <= at <= a.blocks[n].offset
    ensures Patch(a, n, at, []) == a
  {
    var s := a.bufs[a.blocks[n].buf];
    assert Overwrite(s, at, []) == s;
  }

  /** Storing one more byte right after a patch extends the patch. */
  lemma PatchStep(a: Arena, n: nat, at: nat, b: seq<byte>, x: byte)
    requires BlockOK(a, n) && a.blocks[n].start <= at && at + |b| + 1 <= a.blocks[n].offset
    ensures BlockOK(Patch(a, n, at, b), n)
    ensures Patch(Patch(a, n, at, b), n, at + |b|, [x]) == Patch(a, n, at, b + [x])
  {
    var s := a.bufs[a.blocks[n].buf];
    assert Overwrite(Overwrite(s, at, b), at + |b|, [x]) == Overwrite(s, at, b + [x]);
  }

  /**
   * The reserved bytes `reserved`, at `q` in the last block of `cp`, then
   * the payload: filling the reservation in with `g` (of the same length, or
   * one shorter with the block's later bytes moved left) leaves `g` and the
   * payload appended.
   */
  lemma FinishAppended(a0: Arena, a1: Arena, a2: Arena, a3: Arena, c: seq<nat>, cp: seq<nat>, c': seq<nat>,
                       reserved: seq<byte>, payload: seq<byte>, q: nat, g: seq<byte>)
    requires Appended(a0, a1, c, cp, reserved) && Appended(a1, a2, cp, c', payload)
    requires a1.blocks[cp[|cp| - 1]].start <= q && a1.blocks[cp[|cp| - 1]].offset == q + |reserved|
    requires BlockOK(a2, cp[|cp| - 1]) && EditedWithin(a2, a3, cp[|cp| - 1])
    requires var p := cp[|cp| - 1]; var j := q - a1.blocks[p].start;
      j + |reserved| <= |Data(a2, p)|
      && Data(a3, p) == Data(a2, p)[..j] + g + Data(a2, p)[j + |reserved|..]
    ensures Appended(a0, a3, c, c', g + payload)
  {
    var k := |cp| - 1;
    var p := cp[k];
    AppendedTrans(a0, a1, a2, c, cp, c', reserved, payload);
    PrefixKept(a1, a2, cp, c', payload);
    assert c'[k] == p;
    assert Content(a1, cp) == Content(a1, cp[..k]) + Data(a1, p);
    EditAppended(a0, a2, a3, c, c', reserved + payload, k, q - a1.blocks[p].start, |reserved|, g);
    assert (reserved + payload)[|reserved|..] == payload;
  }

  /** `FinishAppended` for the one-byte prefix `b`. */
  lemma PatchFinish(a0: Arena, a1: Arena, a2: Arena, c: seq<nat>, cp: seq<nat>, c': seq<nat>,
                    reserved: seq<byte>, payload: seq<byte>, q: nat, b: byte)
    requires Appended(a0, a1, c, cp, reserved) && Appended(a1, a2, cp, c', payload) && |reserved| == 1
    requires a1.blocks[cp[|cp| - 1]].start <= q && a1.blocks[cp[|cp| - 1]].offset == q + 1
    ensures var p := cp[|cp| - 1];
      c'[|cp| - 1] == p && BlockOK(a2, p) && a2.blocks[p].start <= q && q + 1 <= a2.blocks[p].offset
    ensures Appended(a0, Patch(a2, cp[|cp| - 1], q, [b]), c, c', [b] + payload)
  {
    var p := cp[|cp| - 1];
    PayloadBlock(a1, a2, cp, c', payload);
    PatchInPlace(a2, p, q, [b]);
    FinishAppended(a0, a1, a2, Patch(a2, p, q, [b]), c, cp, c', reserved, payload, q, [b]);
  }

  /** `FinishAppended` for the prefix `writeUTF8VarDelimited0` fills in. */
  lemma FilledFinish(a0: Arena, a1: Arena, a2: Arena, c: seq<nat>, cp: seq<nat>, c': seq<nat>,
                     reserved: seq<byte>, payload: seq<byte>, q: nat, size: nat, e: nat)
    requires Appended(a0, a1, c, cp, reserved) && Appended(a1, a2, cp, c', payload)
    requires 2 <= e <= 5 && |reserved| == e
    requires a1.blocks[cp[|cp| - 1]].start <= q && a1.blocks[cp[|cp| - 1]].offset == q + e
    ensures var p := cp[|cp| - 1];
      c'[|cp| - 1] == p && BlockOK(a2, p) && a2.blocks[p].start <= q && q + e <= a2.blocks[p].offset
    ensures Appended(a0, Filled(a2, cp[|cp| - 1], q, size, e), c, c', Prefix(size, e) + payload)
  {
    var p := cp[|cp| - 1];
    PayloadBlock(a1, a2, cp, c', payload);
    var a3 := Filled(a2, p, q, size, e);
    var g := Prefix(size, e);
    FilledEdits(a2, p, q, size, e);
    FinishAppended(a0, a1, a2, a3, c, cp, c', reserved, payload, q, g);
  }

  /** The data of block `p` after the shift and the shorter prefix. */
  lemma ShiftThenPatch(a: Arena, p: nat, q: nat, e: nat, g: seq<byte>)
    requires BlockOK(a, p) && a.blocks[p].start <= q && q + e <= a.blocks[p].offset && 1 <= e && |g| == e - 1
    ensures BlockOK(ShiftLeft(a, p, q + e), p) && q + |g| <= ShiftLeft(a, p, q + e).blocks[p].offset
    ensures var a' := Patch(ShiftLeft(a, p, q + e), p, q, g); var j := q - a.blocks[p].start;
      EditedWithin(a, a', p) && Data(a', p) == Data(a, p)[..j] + g + Data(a, p)[j + e..]
  {
    var a1 := ShiftLeft(a, p, q + e);
    ShiftEdits(a, p, q + e);
    var a2 := Patch(a1, p, q, g);
    PatchEdits(a1, p, q, g);
    EditedTrans(a, a1, a2, p);
    var D, j := Data(a, p), q - a.blocks[p].start;
    assert a1.blocks[p].start == a.blocks[p].start;
    assert Data(a1, p) == D[..j + e - 1] + D[j + e..];
    assert Data(a2, p) == Overwrite(Data(a1, p), j, g);
    ShiftedOverwrite(D, j, e, g);
  }

  /** Overwriting the front of a sequence that lost the element at `j + e - 1`. */
  lemma ShiftedOverwrite(D: seq<byte>, j: nat, e: nat, g: seq<byte>)
    requires 1 <= e && j + e <= |D| && |g| == e - 1
    ensures Overwrite(D[..j + e - 1] + D[j + e..], j, g) == D[..j] + g + D[j + e..]
  {
    var D1 := D[..j + e - 1] + D[j + e..];
    assert D1[..j] == D[..j];
    assert D1[j + |g|..] == D[j + e..];
  }

  /** The data of block `p` after a prefix of the reserved length. */
  lemma PatchInPlace(a: Arena, p: nat, q: nat, g: seq<byte>)
    requires BlockOK(a, p) && a.blocks[p].start <= q && q + |g| <= a.blocks[p].offset
    ensures var a' := Patch(a, p, q, g); var j := q - a.blocks[p].start;
      EditedWithin(a, a', p) && Data(a', p) == Data(a, p)[..j] + g + Data(a, p)[j + |g|..]
  {
    PatchEdits(a, p, q, g);
  }

  // ---------------------------------------------------------------------
  // The delimited writers.
  // ---------------------------------------------------------------------

  /**
   * `writeUTF8OneByteDelimited`: one reserved byte, the payload, then the
   * payload size `session.size - lastSize` stored into the reserved byte
   * (a Uint8Array store: only its low eight bits survive).
   */
  method WriteUTF8OneByteDelimited(str: seq<Unit>, s: WriteSession, lb: nat, ghost c: seq<nat>)
    returns (lb': nat, ghost c': seq<nat>)
    requires Ready(s, c, lb)
    modifies s
    ensures Ready(s, c', lb') && Appended(old(s.arena), s.arena, c, c', [ToByte(|Encode(str)|)] + Encode(str))
    ensures s.size == old(s.size) + 1 + |Encode(str)| && Kept(s)
  {
    ghost var a0 := s.arena;
    var lastSize := s.size;
    var p, q, fits, cp, reserved := ReservePrefix(|str|, 1, s, lb, c);
    ghost var a1 := s.arena;
    lb', c' := WritePayload(str, fits, s, p, cp);
    var size := s.size - lastSize;
    PatchFinish(a0, a1, s.arena, c, cp, c', reserved, Encode(str), q, ToByte(size));
    s.arena := Patch(s.arena, p, q, [ToByte(size)]);
    s.size := s.size + 1;
  }

  /** The arena after `FillPrefix`. */
  ghost function Filled(a: Arena, p: nat, q: nat, size: nat, e: nat): Arena
    requires BlockOK(a, p) && a.blocks[p].start <= q && q + e <= a.blocks[p].offset && 2 <= e <= 5
  {
    if size < LowerLimit(e) then Patch(ShiftLeft(a, p, q + e), p, q, Groups(size, e - 1))
    else Patch(a, p, q, Groups(size, e))
  }

  /** Filling the prefix edits block `p` only: the reservation becomes the prefix. */
  lemma FilledEdits(a: Arena, p: nat, q: nat, size: nat, e: nat)
    requires BlockOK(a, p) && a.blocks[p].start <= q && q + e <= a.blocks[p].offset && 2 <= e <= 5
    ensures EditedWithin(a, Filled(a, p, q, size, e), p)
    ensures var j := q - a.blocks[p].start;
      Data(Filled(a, p, q, size, e), p) == Data(a, p)[..j] + Prefix(size, e) + Data(a, p)[j + e..]
  {
    if size < LowerLimit(e) {
      ShiftThenPatch(a, p, q, e, Groups(size, e - 1));
    } else {
      PatchInPlace(a, p, q, Groups(size, e));
    }
  }

  /**
   * The end of `writeUTF8VarDelimited0`: the prefix for a payload of `size`
   * bytes into the `expectedSize` bytes reserved at `q`, moving the rest of
   * the block left by one when it needs one byte less.
   */
  method FillPrefix(s: WriteSession, p: nat, q: nat, size: nat, lowerLimit: nat, expectedSize: nat)
    requires BlockOK(s.arena, p) && s.arena.blocks[p].start <= q && q + expectedSize <= s.arena.blocks[p].offset
    requires 2 <= expectedSize <= 5 && lowerLimit == LowerLimit(expectedSize)
    modifies s
    ensures s.arena == Filled(old(s.arena), p, q, size, expectedSize)
    ensures s.size == old(s.size) + |Prefix(size, expectedSize)| && Kept(s)
  {
    var e := expectedSize;
    if size < lowerLimit {
      ShiftThenPatch(s.arena, p, q, e, Groups(size, e - 1));
      s.arena := ShiftLeft(s.arena, p, q + e);
      e := e - 1;
    }
    s.size := s.size + e;
    WriteGroups(s, p, q, size, e);
  }

  /**
   * `writeUTF8VarDelimited0`: `expectedSize` reserved bytes, the payload,
   * then the prefix; when the payload is below `lowerLimit` the payload
   * bytes in the reserving block move one place left and the prefix is one
   * byte shorter.
   */
  method WriteUTF8VarDelimited0(str: seq<Unit>, lowerLimit: nat, expectedSize: nat, s: WriteSession, lb: nat,
                                ghost c: seq<nat>)
    returns (lb': nat, ghost c': seq<nat>)
    requires Ready(s, c, lb) && 2 <= expectedSize <= 5 && lowerLimit == LowerLimit(expectedSize)
    modifies s
    ensures Ready(s, c', lb')
    ensures Appended(old(s.arena), s.arena, c, c', Prefix(|Encode(str)|, expectedSize) + Encode(str))
    ensures s.size == old(s.size) + |Prefix(|Encode(str)|, expectedSize)| + |Encode(str)| && Kept(s)
  {
    ghost var a0 := s.arena;
    var lastSize := s.size;
    var p, q, fits, cp, reserved := ReservePrefix(|str|, expectedSize, s, lb, c);
    ghost var a1 := s.arena;
    lb', c' := WritePayload(str, fits, s, p, cp);
    var size := s.size - lastSize;
    FilledFinish(a0, a1, s.arena, c, cp, c', reserved, Encode(str), q, size, expectedSize);
    FillPrefix(s, p, q, size, lowerLimit, expectedSize);
  }

  /**
   * `writeUTF8VarDelimited`: the empty string is the single byte 0x00;
   * otherwise the width band of the length picks the writer. The bytes
   * appended are `Delimited(d, str)`, the varint of the payload length and
   * the payload when the thresholds use integer division.
   */
  method WriteUTF8VarDelimited(d: Division, str: seq<Unit>, s: WriteSession, lb: nat, ghost c: seq<nat>)
    returns (lb': nat, ghost c': seq<nat>)
    requires Ready(s, c, lb)
    modifies s
    ensures Ready(s, c', lb') && Appended(old(s.arena), s.arena, c, c', Delimited(d, str))
    ensures s.size == old(s.size) + |Delimited(d, str)| && Kept(s)
  {
    var len := |str|;
    if len == 0 {
      EncodeEmpty(str);
      lb', c' := Emit(s, lb, c, [0]);
      s.size := s.size + 1;
      return;
    }
    if BelowBand(d, len, TWO_BYTE_LOWER_LIMIT) {
      lb', c' := WriteUTF8OneByteDelimited(str, s, lb, c);
    } else if BelowBand(d, len, THREE_BYTE_LOWER_LIMIT) {
      lb', c' := WriteUTF8VarDelimited0(str, TWO_BYTE_LOWER_LIMIT, 2, s, lb, c);
    } else if BelowBand(d, len, FOUR_BYTE_LOWER_LIMIT) {
      lb', c' := WriteUTF8VarDelimited0(str, THREE_BYTE_LOWER_LIMIT, 3, s, lb, c);
    } else if BelowBand(d, len, FIVE_BYTE_LOWER_LIMIT) {
      lb', c' := WriteUTF8VarDelimited0(str, FOUR_BYTE_LOWER_LIMIT, 4, s, lb, c);
    } else {
      lb', c' := WriteUTF8VarDelimited0(str, FIVE_BYTE_LOWER_LIMIT, 5, s, lb, c);
    }
  }
}
