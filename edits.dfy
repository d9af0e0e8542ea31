/**
 * Writes that go back into a block after more bytes have been appended:
 * a length prefix reserved before a payload is filled in afterwards
 * (`StringSerializer`, `ProtobjOutput.writeMessage`), and the payload is
 * moved one byte to the left when the prefix turns out shorter than
 * reserved. Each such edit touches one block's array only inside that
 * block's window, so every other block keeps its bytes.
 */
module BlockEdits {
  import opened Bytes
  import opened Wrappers
  import opened LinkedBuffers

  /**
   * `lb.offset += k` with nothing written: the reservation of `k` bytes.
   * It is a store of the bytes already there.
   */
  function Reserve(a: Arena, n: nat, k: nat): (r: Arena)
    requires BlockOK(a, n) && a.blocks[n].offset + k <= Capacity(a, n)
    ensures r == Put(a, n, a.bufs[a.blocks[n].buf][a.blocks[n].offset..a.blocks[n].offset + k])
  {
    var b := a.blocks[n];
    var s := a.bufs[b.buf];
    assert Overwrite(s, b.offset, s[b.offset..b.offset + k]) == s;
    a.(blocks := a.blocks[n := b.(offset := b.offset + k)])
  }

  /** `buffer[at..at + |bytes|] = bytes` inside block `n`'s window; the block itself is unchanged. */
  function Patch(a: Arena, n: nat, at: nat, bytes: seq<byte>): (r: Arena)
    requires BlockOK(a, n) && a.blocks[n].start <= at && at + |bytes| <= a.blocks[n].offset
  {
    var b := a.blocks[n];
    a.(bufs := a.bufs[b.buf := Overwrite(a.bufs[b.buf], at, bytes)])
  }

  /**
   * `dest.set(src.slice(from, offset), from - 1)` on block `n`'s own array,
   * then `offset--`: the byte at `from - 1` leaves the block's data.
   */
  function ShiftLeft(a: Arena, n: nat, from: nat): (r: Arena)
    requires BlockOK(a, n) && a.blocks[n].start < from <= a.blocks[n].offset
  {
    var b := a.blocks[n];
    var s := a.bufs[b.buf];
    Arena(a.bufs[b.buf := Overwrite(s, from - 1, s[from..b.offset])],
          a.blocks[n := b.(offset := b.offset - 1)])
  }

  /**
   * `a'` differs from `a` only in block `n`: its offset may be lower and its
   * array may differ inside [start, offset) of the old window.
   */
  predicate EditedWithin(a: Arena, a': Arena, n: nat)
    requires BlockOK(a, n)
  {
    var b := a.blocks[n];
    |a'.bufs| == |a.bufs| && |a'.blocks| == |a.blocks|
    && (forall m :: 0 <= m < |a.blocks| && m != n ==> a'.blocks[m] == a.blocks[m])
    && (forall k :: 0 <= k < |a.bufs| && k != b.buf ==> a'.bufs[k] == a.bufs[k])
    && a'.blocks[n].buf == b.buf && a'.blocks[n].start == b.start && a'.blocks[n].next == b.next
    && b.start <= a'.blocks[n].offset <= b.offset
    && |a'.bufs[b.buf]| == |a.bufs[b.buf]|
    && a'.bufs[b.buf][..b.start] == a.bufs[b.buf][..b.start]
    && a'.bufs[b.buf][b.offset..] == a.bufs[b.buf][b.offset..]
  }

  lemma PatchEdits(a: Arena, n: nat, at: nat, bytes: seq<byte>)
    requires BlockOK(a, n) && a.blocks[n].start <= at && at + |bytes| <= a.blocks[n].offset
    ensures EditedWithin(a, Patch(a, n, at, bytes), n) && BlockOK(Patch(a, n, at, bytes), n)
    ensures Data(Patch(a, n, at, bytes), n) == Overwrite(Data(a, n), at - a.blocks[n].start, bytes)
  {
    var b := a.blocks[n];
    var a' := Patch(a, n, at, bytes);
    assert a'.blocks == a.blocks && a'.bufs[b.buf] == Overwrite(a.bufs[b.buf], at, bytes);
    OverwriteWindow(a.bufs[b.buf], b.start, b.offset, at, bytes);
  }

  /** Overwriting inside the window [lo, hi) is overwriting the window alone. */
  lemma OverwriteWindow(s: seq<byte>, lo: nat, hi: nat, at: nat, b: seq<byte>)
    requires lo <= at && at + |b| <= hi <= |s|
    ensures var r := Overwrite(s, at, b);
      r[..lo] == s[..lo] && r[hi..] == s[hi..] && r[lo..hi] == Overwrite(s[lo..hi], at - lo, b)
  {
    var r := Overwrite(s, at, b);
    assert r[..lo] == r[..at][..lo];
    assert r[hi..] == r[at + |b|..][hi - at - |b|..];
    OverwriteInside(s, r, lo, hi, at, b);
  }

  lemma OverwriteInside(s: seq<byte>, r: seq<byte>, lo: nat, hi: nat, at: nat, b: seq<byte>)
    requires lo <= at && at + |b| <= hi <= |s| && r == Overwrite(s, at, b)
    ensures r[lo..hi] == Overwrite(s[lo..hi], at - lo, b)
  {
    var w := Overwrite(s[lo..hi], at - lo, b);
    assert w == s[lo..at] + b + s[at + |b|..hi];
    assert r[lo..hi] == r[lo..at] + r[at..at + |b|] + r[at + |b|..hi];
    assert r[lo..at] == r[..at][lo..];
    assert r[at + |b|..hi] == r[at + |b|..][..hi - at - |b|];
  }

  lemma ShiftEdits(a: Arena, n: nat, from: nat)
    requires BlockOK(a, n) && a.blocks[n].start < from <= a.blocks[n].offset
    ensures EditedWithin(a, ShiftLeft(a, n, from), n) && BlockOK(ShiftLeft(a, n, from), n)
    ensures var j := from - a.blocks[n].start;
      Data(ShiftLeft(a, n, from), n) == Data(a, n)[..j - 1] + Data(a, n)[j..]
  {
    var b := a.blocks[n];
    var s := a.bufs[b.buf];
    var s' := Overwrite(s, from - 1, s[from..b.offset]);
    assert s'[..b.start] == s[..from - 1][..b.start];
    assert s'[b.offset..] == s[from - 1 + (b.offset - from)..][1..];
    var d := s[b.start..b.offset];
    var j := from - b.start;
    assert s'[b.start..b.offset - 1] == d[..j - 1] + d[j..];
  }

  lemma EditedTrans(a1: Arena, a2: Arena, a3: Arena, n: nat)
    requires BlockOK(a1, n) && EditedWithin(a1, a2, n) && BlockOK(a2, n) && EditedWithin(a2, a3, n)
    ensures EditedWithin(a1, a3, n)
  {
    var b := a1.blocks[n];
    var o2 := a2.blocks[n].offset;
    assert a3.bufs[b.buf][b.offset..] == a3.bufs[b.buf][o2..][b.offset - o2..];
    assert a2.bufs[b.buf][b.offset..] == a2.bufs[b.buf][o2..][b.offset - o2..];
  }

  /** The content of `c` split around its block `k`. */
  lemma ContentSplit(a: Arena, c: seq<nat>, k: nat)
    requires AllOK(a, c) && k < |c|
    ensures AllOK(a, c[..k]) && AllOK(a, c[k + 1..])
    ensures Content(a, c) == Content(a, c[..k]) + Data(a, c[k]) + Content(a, c[k + 1..])
  {
    assert c[..k + 1][..k] == c[..k];
    assert c[..k + 1] + c[k + 1..] == c;
    assert AllOK(a, c[..k + 1]);
    ContentAppend(a, c[..k + 1], c[k + 1..]);
  }

  /** An edit of block `c[k]` leaves block `c[i]`, `i != k`, of a well-formed `c` as it was. */
  lemma EditOther(a: Arena, a': Arena, c: seq<nat>, k: nat, i: nat)
    requires Wf(a, c) && k < |c| && EditedWithin(a, a', c[k]) && i < |c| && i != k
    ensures Unchanged(a, a', c[i])
  {
    var b := a.blocks[c[k]];
    var m := a.blocks[c[i]];
    if i < k { assert Apart(a, c, i, k); } else { assert Apart(a, c, k, i); }
    if m.buf == b.buf {
      SliceOutside(a.bufs[b.buf], a'.bufs[b.buf], b.start, b.offset, m.start, m.offset);
    }
  }

  /** A slice clear of the range [lo, hi) is the same in two sequences that differ only inside it. */
  lemma SliceOutside(s: seq<byte>, s': seq<byte>, lo: nat, hi: nat, x: nat, y: nat)
    requires |s'| == |s| && lo <= hi <= |s| && x <= y <= |s| && (y <= lo || hi <= x)
    requires s'[..lo] == s[..lo] && s'[hi..] == s[hi..]
    ensures s'[x..y] == s[x..y]
  {
    if y <= lo {
      assert s'[x..y] == s'[..lo][x..y];
      assert s[x..y] == s[..lo][x..y];
    } else {
      forall t | x <= t < y
        ensures s'[t] == s[t]
      {
        assert s'[t] == s'[hi..][t - hi] && s[t] == s[hi..][t - hi];
      }
    }
  }

  /** An edit of block `c[k]` keeps `c` well formed and every other block unchanged. */
  lemma EditKeepsWf(a: Arena, a': Arena, c: seq<nat>, k: nat)
    requires Wf(a, c) && k < |c| && EditedWithin(a, a', c[k])
    ensures Wf(a', c) && forall i :: 0 <= i < |c| ==> a'.blocks[c[i]].next == a.blocks[c[i]].next
    ensures forall i {:trigger Unchanged(a, a', c[i])} :: 0 <= i < |c| && i != k ==> Unchanged(a, a', c[i])
  {
    forall i | 0 <= i < |c| && i != k
      ensures Unchanged(a, a', c[i])
    {
      EditOther(a, a', c, k, i);
    }
    assert AllOK(a', c);
    forall i, j | 0 <= i < j < |c|
      ensures Apart(a', c, i, j)
    {
      assert Apart(a, c, i, j);
    }
  }

  /**
   * An edit of block `c[k]` leaves every other block of a well-formed `c`
   * as it was, since no other block's window overlaps the edited range.
   */
  lemma EditFrame(a: Arena, a': Arena, c: seq<nat>, k: nat)
    requires Wf(a, c) && k < |c| && EditedWithin(a, a', c[k])
    ensures Wf(a', c) && forall i :: 0 <= i < |c| ==> a'.blocks[c[i]].next == a.blocks[c[i]].next
    ensures forall i {:trigger Unchanged(a, a', c[i])} :: 0 <= i < |c| && i != k ==> Unchanged(a, a', c[i])
    ensures Content(a', c) == Content(a, c[..k]) + Data(a', c[k]) + Content(a, c[k + 1..])
  {
    EditKeepsWf(a, a', c, k);
    ContentSplit(a, c, k);
    ContentSplit(a', c, k);
    forall i | 0 <= i < k
      ensures Data(a', c[..k][i]) == Data(a, c[..k][i])
    {
      assert Unchanged(a, a', c[i]);
    }
    ContentFrame(a, a', c[..k]);
    var q := c[k + 1..];
    forall i | 0 <= i < |q|
      ensures Data(a', q[i]) == Data(a, q[i])
    {
      assert Unchanged(a, a', c[k + 1 + i]);
    }
    ContentFrame(a, a', q);
  }

  /** After an append, the blocks before the old last still hold what they held. */
  lemma PrefixKept(a: Arena, a': Arena, c: seq<nat>, c': seq<nat>, data: seq<byte>)
    requires Appended(a, a', c, c', data)
    ensures AllOK(a, c[..|c| - 1]) && AllOK(a', c'[..|c| - 1])
    ensures Content(a', c'[..|c| - 1]) == Content(a, c[..|c| - 1])
  {
    var p := c[..|c| - 1];
    assert c'[..|c| - 1] == p;
    forall i | 0 <= i < |p|
      ensures BlockOK(a, p[i]) && BlockOK(a', p[i]) && Data(a', p[i]) == Data(a, p[i])
    {
      assert Unchanged(a, a', c[i]);
    }
    ContentFrame(a, a', p);
  }

  /** The sequence arithmetic behind `EditAppended`. */
  lemma SpliceSeq(P: seq<byte>, D: seq<byte>, Q: seq<byte>, C: seq<byte>, data: seq<byte>, j: nat, e: nat, g: seq<byte>)
    requires P + D + Q == C + data && |P| + j == |C| && j + e <= |D|
    ensures C == P + D[..j]
    ensures P + (D[..j] + g + D[j + e..]) + Q == C + (g + data[e..])
  {
    assert C == (P + D + Q)[..|C|];
    assert (P + D + Q)[..|C|] == P + D[..j];
    assert data == (P + D + Q)[|C|..];
    assert (P + D + Q)[|C|..] == D[j..] + Q;
    assert data[e..] == D[j + e..] + Q;
  }

  /**
   * Going back into the appended bytes: if block `c'[k]` (the old last block
   * or a later one) has its data edited at `j`, replacing `e` bytes by `g`,
   * and those bytes are the first `e` of the appended `data`, then the
   * append is of `g` followed by the rest of `data`.
   */
  lemma EditAppended(a: Arena, a': Arena, a'': Arena, c: seq<nat>, c': seq<nat>, data: seq<byte>,
                     k: nat, j: nat, e: nat, g: seq<byte>)
    requires Appended(a, a', c, c', data)
    requires |c| - 1 <= k < |c'| && EditedWithin(a', a'', c'[k])
    requires j + e <= |Data(a', c'[k])| && e <= |data|
    requires Data(a'', c'[k]) == Data(a', c'[k])[..j] + g + Data(a', c'[k])[j + e..]
    requires AllOK(a', c'[..k]) && |Content(a', c'[..k])| + j == |Content(a, c)|
    ensures Appended(a, a'', c, c', g + data[e..])
  {
    var n := c'[k];
    EditFrame(a', a'', c', k);
    ContentSplit(a', c', k);
    var P := Content(a', c'[..k]);
    var D := Data(a', n);
    var Q := Content(a', c'[k + 1..]);
    var C := Content(a, c);
    SpliceSeq(P, D, Q, C, data, j, e, g);
    forall i | 0 <= i < |c| - 1
      ensures Unchanged(a, a'', c[i])
    {
      assert c'[i] == c[i];
      assert Unchanged(a, a', c[i]) && Unchanged(a', a'', c'[i]);
    }
    LastExtended(a, a', a'', c, c', data, k, j, e, g);
    assert c'[..|c|] == c;
  }

  /** The edit of `EditAppended` leaves the old last block extended. */
  lemma LastExtended(a: Arena, a': Arena, a'': Arena, c: seq<nat>, c': seq<nat>, data: seq<byte>,
                     k: nat, j: nat, e: nat, g: seq<byte>)
    requires Appended(a, a', c, c', data)
    requires |c| - 1 <= k < |c'| && EditedWithin(a', a'', c'[k])
    requires j + e <= |Data(a', c'[k])| && e <= |data|
    requires Data(a'', c'[k]) == Data(a', c'[k])[..j] + g + Data(a', c'[k])[j + e..]
    requires AllOK(a', c'[..k]) && |Content(a', c'[..k])| + j == |Content(a, c)|
    ensures Extends(a, a'', c[|c| - 1])
  {
    var l := c[|c| - 1];
    assert c'[|c| - 1] == l;
    if k == |c| - 1 {
      var D := Data(a', l);
      PrefixKept(a, a', c, c', data);
      ContentSplit(a, c, |c| - 1);
      assert c[|c| - 1 + 1..] == [];
      assert |Data(a, l)| == j;
      assert Data(a'', l)[..j] == D[..j];
    } else {
      EditOther(a', a'', c', k, |c| - 1);
    }
  }
}
