/**
 * `LinkedBuffer` blocks and the storage they view.
 *
 * A block is a window [start, offset) onto a byte array together with a
 * `next` link. Several blocks may view one array (a view block made by the
 * zero-copy splice or by `writeMessage` shares its array with the block
 * before it), so arrays and blocks are kept apart: an `Arena` holds every
 * array ("storage slot") and every block, and an index into either sequence
 * is the identity of that object. Updating a block in place is replacing its
 * entry; writing into an array is replacing that slot.
 */
module LinkedBuffers {
  import opened Bytes
  import opened Wrappers

  const MIN_BUFFER_SIZE: int := 256
  const DEFAULT_BUFFER_SIZE: int := 512

  datatype Block = Block(buf: nat, start: nat, offset: nat, next: Option<nat>)

  datatype Arena = Arena(bufs: seq<seq<byte>>, blocks: seq<Block>)

  /** Block `n` exists and start <= offset <= the length of its array. */
  predicate BlockOK(a: Arena, n: nat)
  {
    n < |a.blocks| && a.blocks[n].buf < |a.bufs|
    && a.blocks[n].start <= a.blocks[n].offset <= |a.bufs[a.blocks[n].buf]|
  }

  function Capacity(a: Arena, n: nat): nat
    requires n < |a.blocks| && a.blocks[n].buf < |a.bufs|
  {
    |a.bufs[a.blocks[n].buf]|
  }

  /** The bytes block `n` holds: its array from `start` up to `offset`. */
  function Data(a: Arena, n: nat): (r: seq<byte>)
    requires BlockOK(a, n)
    ensures |r| == a.blocks[n].offset - a.blocks[n].start
  {
    a.bufs[a.blocks[n].buf][a.blocks[n].start..a.blocks[n].offset]
  }

  predicate AllOK(a: Arena, c: seq<nat>)
  {
    forall i :: 0 <= i < |c| ==> BlockOK(a, c[i])
  }

  /**
   * Blocks i < j of `c` are different blocks, and if they share an array,
   * block i ends where block j may start.
   */
  predicate Apart(a: Arena, c: seq<nat>, i: int, j: int)
  {
    0 <= i < j < |c| && c[i] < |a.blocks| && c[j] < |a.blocks|
    && c[i] != c[j]
    && (a.blocks[c[i]].buf == a.blocks[c[j]].buf ==> a.blocks[c[i]].offset <= a.blocks[c[j]].start)
  }

  /** A well-formed sequence of blocks: all exist and every two are apart. */
  predicate Wf(a: Arena, c: seq<nat>)
  {
    AllOK(a, c) && forall i, j {:trigger Apart(a, c, i, j)} :: 0 <= i < j < |c| ==> Apart(a, c, i, j)
  }

  /** The bytes of the blocks of `c`, in order. */
  function Content(a: Arena, c: seq<nat>): seq<byte>
    requires AllOK(a, c)
    decreases |c|
  {
    if |c| == 0 then [] else Content(a, c[..|c| - 1]) + Data(a, c[|c| - 1])
  }

  /** The sum of offset - start over the blocks: what `size` counts. */
  function Used(a: Arena, c: seq<nat>): int
    requires AllOK(a, c)
    decreases |c|
  {
    if |c| == 0 then 0 else Used(a, c[..|c| - 1]) + (a.blocks[c[|c| - 1]].offset - a.blocks[c[|c| - 1]].start)
  }

  lemma {:induction false} ContentLength(a: Arena, c: seq<nat>)
    requires AllOK(a, c)
    ensures |Content(a, c)| == Used(a, c)
    decreases |c|
  {
    if |c| > 0 {
      ContentLength(a, c[..|c| - 1]);
    }
  }

  /** Each block of `c` but the last links to the one after it. */
  predicate LinksFrom(a: Arena, c: seq<nat>, k: int)
    requires AllOK(a, c)
  {
    forall i :: k <= i && 0 <= i < |c| - 1 ==> a.blocks[c[i]].next == Some(c[i + 1])
  }

  predicate Ends(a: Arena, c: seq<nat>)
    requires AllOK(a, c)
  {
    |c| > 0 && a.blocks[c[|c| - 1]].next == None
  }

  /** `c` is exactly the chain that following `next` from `c[0]` visits. */
  predicate Linked(a: Arena, c: seq<nat>)
    requires AllOK(a, c)
  {
    LinksFrom(a, c, 0) && Ends(a, c)
  }

  // ---------------------------------------------------------------------
  // The constructor, clear and allocate.
  // ---------------------------------------------------------------------

  /** A new storage array. */
  function AddStorage(a: Arena, bytes: seq<byte>): (r: (Arena, nat))
    ensures r.1 == |a.bufs| && r.0 == Arena(a.bufs + [bytes], a.blocks)
  {
    (Arena(a.bufs + [bytes], a.blocks), |a.bufs|)
  }

  /**
   * `new LinkedBuffer(buffer, start, offset, appendTarget)` as its callers
   * use it: the new block comes after `appendTarget` (`appendTarget.next`
   * becomes the new block) and has no successor.
   */
  function NewLinkedBuffer(a: Arena, buf: nat, start: nat, offset: nat, appendTarget: Option<nat>): (r: (Arena, nat))
    requires appendTarget.Some? ==> appendTarget.value < |a.blocks|
    ensures r.1 == |a.blocks| && |r.0.blocks| == |a.blocks| + 1 && r.0.bufs == a.bufs
    ensures r.0.blocks[r.1] == Block(buf, start, offset, None)
    ensures forall n :: 0 <= n < |a.blocks| && Some(n) != appendTarget ==> r.0.blocks[n] == a.blocks[n]
    ensures appendTarget.Some? ==>
      r.0.blocks[appendTarget.value] == a.blocks[appendTarget.value].(next := Some(r.1))
  {
    var n := |a.blocks|;
    var blocks := if appendTarget.Some? then a.blocks[appendTarget.value := a.blocks[appendTarget.value].(next := Some(n))]
                  else a.blocks;
    (Arena(a.bufs, blocks + [Block(buf, start, offset, None)]), n)
  }

  /**
   * The constructor as written: `this.next = appendTarget`, so the new
   * block points back at the target and the target is left as it was.
   */
  function NewLinkedBufferAsWritten(a: Arena, buf: nat, start: nat, offset: nat, appendTarget: Option<nat>): (r: (Arena, nat))
    ensures r.1 == |a.blocks| && |r.0.blocks| == |a.blocks| + 1
    ensures r.0.bufs == a.bufs && r.0.blocks[..|a.blocks|] == a.blocks
    ensures r.0.blocks[r.1] == Block(buf, start, offset, appendTarget)
  {
    (Arena(a.bufs, a.blocks + [Block(buf, start, offset, appendTarget)]), |a.blocks|)
  }

  /** `clear()`: no successor and no data; the array and `start` stay. */
  function ClearBlock(a: Arena, n: nat): (r: Arena)
    requires BlockOK(a, n)
    ensures BlockOK(r, n) && r.bufs == a.bufs && |r.blocks| == |a.blocks|
    ensures r.blocks[n] == Block(a.blocks[n].buf, a.blocks[n].start, a.blocks[n].start, None)
    ensures forall m :: 0 <= m < |a.blocks| && m != n ==> r.blocks[m] == a.blocks[m]
    ensures Data(r, n) == []
  {
    a.(blocks := a.blocks[n := a.blocks[n].(next := None, offset := a.blocks[n].start)])
  }

  /** `allocate(size)`: a fresh, empty, unlinked block of at least 256 bytes. */
  function Allocate(a: Arena, size: int): (r: (Arena, nat))
    ensures r.1 == |a.blocks| && BlockOK(r.0, r.1)
    ensures Capacity(r.0, r.1) == if size < MIN_BUFFER_SIZE then MIN_BUFFER_SIZE else size
    ensures r.0.blocks[r.1].start == r.0.blocks[r.1].offset == 0 && r.0.blocks[r.1].next == None
    ensures r.0.blocks[r.1].buf == |a.bufs| && r.0.bufs[..|a.bufs|] == a.bufs && r.0.blocks[..|a.blocks|] == a.blocks
  {
    var n := if size < MIN_BUFFER_SIZE then MIN_BUFFER_SIZE else size;
    var (a1, slot) := AddStorage(a, Zeros(n));
    NewLinkedBuffer(a1, slot, 0, 0, None)
  }

  /**
   * A new array holding `bytes`, viewed from `start` to `end` by a new block
   * placed after `lb`.
   */
  function Attach(a: Arena, bytes: seq<byte>, start: nat, end: nat, lb: nat): (r: (Arena, nat))
    requires lb < |a.blocks|
  {
    var (a1, slot) := AddStorage(a, bytes);
    NewLinkedBuffer(a1, slot, start, end, Some(lb))
  }

  /** A fresh block of `size` zero bytes after `lb`: the sinks' "grow" step. */
  function Grow(a: Arena, size: nat, lb: nat): (r: (Arena, nat))
    requires lb < |a.blocks|
  {
    Attach(a, Zeros(size), 0, 0, lb)
  }

  /** Store `bytes` at block `n`'s offset and move the offset past them. */
  function Put(a: Arena, n: nat, bytes: seq<byte>): (r: Arena)
    requires BlockOK(a, n) && a.blocks[n].offset + |bytes| <= Capacity(a, n)
  {
    var b := a.blocks[n];
    Arena(a.bufs[b.buf := Overwrite(a.bufs[b.buf], b.offset, bytes)],
          a.blocks[n := b.(offset := b.offset + |bytes|)])
  }

  // ---------------------------------------------------------------------
  // How a write changes a sequence of blocks.
  // ---------------------------------------------------------------------

  /** Block `n` and its bytes are as they were. */
  predicate Unchanged(a: Arena, a': Arena, n: nat)
    requires BlockOK(a, n)
  {
    BlockOK(a', n) && a'.blocks[n] == a.blocks[n] && Capacity(a', n) == Capacity(a, n)
    && Data(a', n) == Data(a, n)
  }

  /** Block `n` still views the same array from the same start and still begins with its old bytes. */
  predicate Extends(a: Arena, a': Arena, n: nat)
    requires BlockOK(a, n)
  {
    BlockOK(a', n) && a'.blocks[n].buf == a.blocks[n].buf && a'.blocks[n].start == a.blocks[n].start
    && a.blocks[n].offset <= a'.blocks[n].offset
    && Capacity(a', n) == Capacity(a, n)
    && Data(a', n)[..|Data(a, n)|] == Data(a, n)
  }

  /**
   * A write that appends `data` to the blocks `c`, which end at the block
   * being written, giving the blocks `c'`: the blocks before the last are
   * untouched, the last keeps its bytes, new blocks follow it in a chain,
   * and the content grows by exactly `data`.
   */
  predicate Appended(a: Arena, a': Arena, c: seq<nat>, c': seq<nat>, data: seq<byte>)
  {
    Wf(a, c) && Ends(a, c) && Wf(a', c') && Ends(a', c')
    && |c| <= |c'| && c'[..|c|] == c
    && Content(a', c') == Content(a, c) + data
    && (forall i {:trigger Unchanged(a, a', c[i])} :: 0 <= i < |c| - 1 ==> Unchanged(a, a', c[i]))
    && Extends(a, a', c[|c| - 1])
    && LinksFrom(a', c', |c| - 1)
  }

  lemma {:induction false} ContentFrame(a: Arena, a': Arena, c: seq<nat>)
    requires AllOK(a, c) && AllOK(a', c)
    requires forall i :: 0 <= i < |c| ==> Data(a', c[i]) == Data(a, c[i])
    ensures Content(a', c) == Content(a, c)
    decreases |c|
  {
    if |c| > 0 {
      ContentFrame(a, a', c[..|c| - 1]);
    }
  }

  lemma {:induction false} ContentAppend(a: Arena, p: seq<nat>, q: seq<nat>)
    requires AllOK(a, p) && AllOK(a, q)
    ensures AllOK(a, p + q) && Content(a, p + q) == Content(a, p) + Content(a, q)
    decreases |q|
  {
    if |q| > 0 {
      assert (p + q)[..|p + q| - 1] == p + q[..|q| - 1];
      ContentAppend(a, p, q[..|q| - 1]);
    } else {
      assert p + q == p;
    }
  }

  lemma AppendedRefl(a: Arena, c: seq<nat>)
    requires Wf(a, c) && Ends(a, c)
    ensures Appended(a, a, c, c, [])
  {
    assert c[..|c|] == c;
  }

  /** Two appends in a row are one append of both. */
  lemma AppendedTrans(a1: Arena, a2: Arena, a3: Arena, c1: seq<nat>, c2: seq<nat>, c3: seq<nat>, d1: seq<byte>, d2: seq<byte>)
    requires Appended(a1, a2, c1, c2, d1) && Appended(a2, a3, c2, c3, d2)
    ensures Appended(a1, a3, c1, c3, d1 + d2)
  {
    assert c3[..|c1|] == c2[..|c2|][..|c1|];
    forall i | 0 <= i < |c1| - 1
      ensures Unchanged(a1, a3, c1[i])
    {
      assert c2[i] == c1[i];
      assert Unchanged(a1, a2, c1[i]) && Unchanged(a2, a3, c2[i]);
    }
    var l := c1[|c1| - 1];
    assert c2[|c1| - 1] == l;
    if |c2| == |c1| {
      assert Extends(a2, a3, l);
    } else {
      assert Unchanged(a2, a3, c2[|c1| - 1]);
    }
    forall i | |c1| - 1 <= i < |c3| - 1
      ensures a3.blocks[c3[i]].next == Some(c3[i + 1])
    {
      if i < |c2| - 1 {
        assert c3[i] == c2[i] && c3[i + 1] == c2[i + 1];
        assert Unchanged(a2, a3, c2[i]);
      }
    }
  }

  /** A new array changes no block: an append of nothing. */
  lemma StorageAppended(a: Arena, c: seq<nat>, bytes: seq<byte>)
    requires Wf(a, c) && Ends(a, c)
    ensures Appended(a, AddStorage(a, bytes).0, c, c, [])
    ensures forall i :: 0 <= i < |c| ==> AddStorage(a, bytes).0.blocks[c[i]].buf != |a.bufs|
  {
    var a1 := AddStorage(a, bytes).0;
    forall i | 0 <= i < |c|
      ensures Data(a1, c[i]) == Data(a, c[i]) && a1.blocks[c[i]].buf != |a.bufs|
    {
    }
    forall i, j | 0 <= i < j < |c|
      ensures Apart(a1, c, i, j)
    {
      assert Apart(a, c, i, j);
    }
    ContentFrame(a, a1, c);
    assert c[..|c|] == c;
  }

  /**
   * A new block on `buf` from `start` to `offset`, placed after the last
   * block: an append of those bytes, allowed where no block of `c` on that
   * array reaches past `start`.
   */
  lemma LinkAppended(a: Arena, c: seq<nat>, buf: nat, start: nat, offset: nat)
    requires Wf(a, c) && Ends(a, c) && buf < |a.bufs| && start <= offset <= |a.bufs[buf]|
    requires forall i :: 0 <= i < |c| && a.blocks[c[i]].buf == buf ==> a.blocks[c[i]].offset <= start
    ensures var (a', n) := NewLinkedBuffer(a, buf, start, offset, Some(c[|c| - 1]));
      Appended(a, a', c, c + [n], a.bufs[buf][start..offset]) && BlockOK(a', n)
  {
    var lb := c[|c| - 1];
    var (a', n) := NewLinkedBuffer(a, buf, start, offset, Some(lb));
    var c' := c + [n];
    forall m | 0 <= m < |a.blocks|
      ensures a'.blocks[m].buf == a.blocks[m].buf && a'.blocks[m].start == a.blocks[m].start
      ensures a'.blocks[m].offset == a.blocks[m].offset
    {
    }
    forall i | 0 <= i < |c|
      ensures c[i] < n && BlockOK(a', c[i]) && Data(a', c[i]) == Data(a, c[i])
    {
    }
    assert AllOK(a', c');
    forall i, j | 0 <= i < j < |c'|
      ensures Apart(a', c', i, j)
    {
      if j < |c| {
        assert Apart(a, c, i, j);
      }
    }
    forall i | 0 <= i < |c| - 1
      ensures Unchanged(a, a', c[i])
    {
      assert Apart(a, c, i, |c| - 1);
    }
    ContentFrame(a, a', c);
    assert c'[..|c'| - 1] == c;
    assert Content(a', c') == Content(a', c) + Data(a', n);
    assert c'[..|c|] == c;
  }

  /** Attaching a new array after the last block appends the viewed bytes. */
  lemma AttachAppended(a: Arena, c: seq<nat>, bytes: seq<byte>, start: nat, end: nat)
    requires Wf(a, c) && Ends(a, c) && start <= end <= |bytes|
    ensures Appended(a, Attach(a, bytes, start, end, c[|c| - 1]).0, c, c + [Attach(a, bytes, start, end, c[|c| - 1]).1],
                     bytes[start..end])
    ensures var (a', n) := Attach(a, bytes, start, end, c[|c| - 1]);
      BlockOK(a', n) && Capacity(a', n) == |bytes| && a'.blocks[n].offset == end
      && a'.blocks[n].buf == |a.bufs| && a'.bufs[|a.bufs|] == bytes
  {
    var (a1, slot) := AddStorage(a, bytes);
    StorageAppended(a, c, bytes);
    LinkAppended(a1, c, slot, start, end);
    var (a', n) := NewLinkedBuffer(a1, slot, start, end, Some(c[|c| - 1]));
    AppendedTrans(a, a1, a', c, c, c + [n], [], bytes[start..end]);
    assert [] + bytes[start..end] == bytes[start..end];
  }

  lemma GrowAppended(a: Arena, c: seq<nat>, size: nat)
    requires Wf(a, c) && Ends(a, c)
    ensures Appended(a, Grow(a, size, c[|c| - 1]).0, c, c + [Grow(a, size, c[|c| - 1]).1], [])
    ensures var (a', n) := Grow(a, size, c[|c| - 1]);
      BlockOK(a', n) && Capacity(a', n) == size && a'.blocks[n].offset == 0
  {
    AttachAppended(a, c, Zeros(size), 0, 0);
  }

  /**
   * An empty view block on an array already in use, placed after the last
   * block: allowed where no block of `c` on that array reaches past `pos`.
   */
  lemma ViewAppended(a: Arena, c: seq<nat>, slot: nat, pos: nat)
    requires Wf(a, c) && Ends(a, c) && slot < |a.bufs| && pos <= |a.bufs[slot]|
    requires forall i :: 0 <= i < |c| && a.blocks[c[i]].buf == slot ==> a.blocks[c[i]].offset <= pos
    ensures Appended(a, NewLinkedBuffer(a, slot, pos, pos, Some(c[|c| - 1])).0, c,
                     c + [NewLinkedBuffer(a, slot, pos, pos, Some(c[|c| - 1])).1], [])
    ensures var (a', n) := NewLinkedBuffer(a, slot, pos, pos, Some(c[|c| - 1]));
      BlockOK(a', n) && a'.blocks[n].buf == slot && a'.blocks[n].offset == pos
  {
    LinkAppended(a, c, slot, pos, pos);
    assert a.bufs[slot][pos..pos] == [];
  }

  /**
   * The blocks of a run that share an array with block k, the others after
   * it lying elsewhere, all end by block k's offset.
   */
  lemma ViewRoom(a: Arena, c: seq<nat>, k: nat)
    requires Wf(a, c) && k < |c|
    requires forall j :: k < j < |c| ==> a.blocks[c[j]].buf != a.blocks[c[k]].buf
    ensures forall i :: 0 <= i < |c| && a.blocks[c[i]].buf == a.blocks[c[k]].buf ==>
      a.blocks[c[i]].offset <= a.blocks[c[k]].offset
  {
    forall i | 0 <= i < |c| && a.blocks[c[i]].buf == a.blocks[c[k]].buf
      ensures a.blocks[c[i]].offset <= a.blocks[c[k]].offset
    {
      if i < k {
        assert Apart(a, c, i, k);
      }
    }
  }

  /**
   * The zero-copy splice when the last block is full: the donor block, then
   * a fresh block of `size` bytes.
   */
  lemma AttachThenGrow(a: Arena, c: seq<nat>, bytes: seq<byte>, start: nat, end: nat, size: nat)
    requires Wf(a, c) && Ends(a, c) && start <= end <= |bytes|
    ensures var (a1, d) := Attach(a, bytes, start, end, c[|c| - 1]);
      var (a2, n) := Grow(a1, size, d);
      Appended(a, a2, c, c + [d, n], bytes[start..end])
      && d < |a2.blocks| && a2.blocks[d].buf == |a.bufs| && a2.bufs[|a.bufs|] == bytes
  {
    var (a1, d) := Attach(a, bytes, start, end, c[|c| - 1]);
    AttachAppended(a, c, bytes, start, end);
    GrowAppended(a1, c + [d], size);
    var (a2, n) := Grow(a1, size, d);
    assert (c + [d]) + [n] == c + [d, n];
    AppendedTrans(a, a1, a2, c, c + [d], c + [d, n], bytes[start..end], []);
    assert bytes[start..end] + [] == bytes[start..end];
  }

  /**
   * The zero-copy splice when the last block has room left: the donor
   * block, then an empty view of the rest of the last block's array.
   */
  lemma AttachThenView(a: Arena, c: seq<nat>, bytes: seq<byte>, start: nat, end: nat)
    requires Wf(a, c) && Ends(a, c) && start <= end <= |bytes|
    ensures var lb := c[|c| - 1];
      var (a1, d) := Attach(a, bytes, start, end, lb);
      var (a2, n) := NewLinkedBuffer(a1, a.blocks[lb].buf, a.blocks[lb].offset, a.blocks[lb].offset, Some(d));
      Appended(a, a2, c, c + [d, n], bytes[start..end])
      && d < |a2.blocks| && a2.blocks[d].buf == |a.bufs| && a2.bufs[|a.bufs|] == bytes
  {
    var lb := c[|c| - 1];
    var (a1, d) := Attach(a, bytes, start, end, lb);
    AttachAppended(a, c, bytes, start, end);
    var c1 := c + [d];
    assert c1[|c|] == d && c1[|c| - 1] == lb;
    ViewRoom(a1, c1, |c| - 1);
    ViewAppended(a1, c1, a.blocks[lb].buf, a.blocks[lb].offset);
    var (a2, n) := NewLinkedBuffer(a1, a.blocks[lb].buf, a.blocks[lb].offset, a.blocks[lb].offset, Some(d));
    assert c1 + [n] == c + [d, n];
    AppendedTrans(a, a1, a2, c, c1, c + [d, n], bytes[start..end], []);
    assert bytes[start..end] + [] == bytes[start..end];
  }

  /** Storing after the last block's data appends those bytes. */
  lemma PutAppended(a: Arena, c: seq<nat>, bytes: seq<byte>)
    requires Wf(a, c) && Ends(a, c)
    requires a.blocks[c[|c| - 1]].offset + |bytes| <= Capacity(a, c[|c| - 1])
    ensures Appended(a, Put(a, c[|c| - 1], bytes), c, c, bytes)
    ensures var a' := Put(a, c[|c| - 1], bytes);
      a'.blocks[c[|c| - 1]].offset == a.blocks[c[|c| - 1]].offset + |bytes|
  {
    var lb := c[|c| - 1];
    var a' := Put(a, lb, bytes);
    var b := a.blocks[lb];
    forall i | 0 <= i < |c| - 1
      ensures Unchanged(a, a', c[i])
    {
      assert Apart(a, c, i, |c| - 1);
      var m := a.blocks[c[i]];
      if m.buf == b.buf {
        assert a'.bufs[m.buf][m.start..m.offset] == a.bufs[m.buf][..b.offset][m.start..m.offset];
      }
    }
    forall i, j | 0 <= i < j < |c|
      ensures Apart(a', c, i, j)
    {
      assert Apart(a, c, i, j);
      assert Unchanged(a, a', c[i]);
    }
    assert Data(a', lb) == Data(a, lb) + bytes;
    var p := c[..|c| - 1];
    assert AllOK(a', c);
    ContentFrame(a, a', p);
    assert c[..|c|] == c;
  }

  // ---------------------------------------------------------------------
  // Where the constructor puts the link.
  // ---------------------------------------------------------------------

  /** The blocks that following `next` from `n` visits, at most `fuel` of them. */
  function Walk(a: Arena, n: nat, fuel: nat): seq<nat>
    decreases fuel
  {
    if fuel == 0 || n >= |a.blocks| then []
    else [n] + (match a.blocks[n].next
                case None => []
                case Some(m) => Walk(a, m, fuel - 1))
  }

  /**
   * A full one-byte head holding 7, then a grown block holding 9. With the
   * link the callers expect, the walk from the head visits both blocks; with
   * the constructor as written it visits only the head, so `toByteArray`
   * would copy 7 and leave the second byte 0.
   */
  lemma LinkDirectionAsWritten()
    ensures var a := Arena([[7], [9]], [Block(0, 0, 1, None)]);
      var (i, n) := NewLinkedBuffer(a, 1, 0, 1, Some(0));
      var (w, m) := NewLinkedBufferAsWritten(a, 1, 0, 1, Some(0));
      Walk(i, 0, 3) == [0, n] && Content(i, Walk(i, 0, 3)) == [7, 9]
      && Walk(w, 0, 3) == [0] && Content(w, Walk(w, 0, 3)) == [7]
  {
    var a := Arena([[7], [9]], [Block(0, 0, 1, None)]);
    var (i, n) := NewLinkedBuffer(a, 1, 0, 1, Some(0));
    assert Walk(i, 0, 3) == [0, 1];
    assert Content(i, [0, 1]) == Content(i, [0]) + Data(i, 1);
    assert [0, 1][..1] == [0];
    var (w, m) := NewLinkedBufferAsWritten(a, 1, 0, 1, Some(0));
    assert Walk(w, 0, 3) == [0];
  }

  /** Following `next` from the first block of a linked chain visits exactly the chain. */
  lemma {:induction false} WalkLinked(a: Arena, c: seq<nat>, k: nat)
    requires Wf(a, c) && Linked(a, c) && k < |c|
    ensures Walk(a, c[k], |c| - k) == c[k..]
    decreases |c| - k
  {
    if k + 1 < |c| {
      WalkLinked(a, c, k + 1);
      assert c[k..] == [c[k]] + c[k + 1..];
    } else {
      assert c[k..] == [c[k]];
    }
  }
}
