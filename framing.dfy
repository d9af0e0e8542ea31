/**
 * The block surgery `ProtobjOutput.writeMessage` does once a message body
 * has been written (src/ProtobjOutput.ts:296-342): a new block holding the
 * length varint is placed after the tag block, and when the body starts in
 * the tag block's own array, the tag block is first cut at the reserved
 * byte and the rest of its data becomes a view block of the same array.
 */
module Framing {
  import opened Bytes
  import opened Wrappers
  import opened LinkedBuffers
  import opened BlockEdits

  /** Block `m` may come before block `n` in a chain: the pairwise part of `Apart`. */
  predicate Precedes(a: Arena, m: nat, n: nat)
  {
    m < |a.blocks| && n < |a.blocks| && m != n
    && (a.blocks[m].buf == a.blocks[n].buf ==> a.blocks[m].offset <= a.blocks[n].start)
  }

  /** Each block of `c` but the last links to the one after it, except block `k`. */
  predicate LinksBut(a: Arena, c: seq<nat>, k: nat)
    requires AllOK(a, c)
  {
    forall i :: 0 <= i < |c| - 1 && i != k ==> a.blocks[c[i]].next == Some(c[i + 1])
  }

  function SetNext(a: Arena, n: nat, next: Option<nat>): Arena
    requires n < |a.blocks|
  {
    a.(blocks := a.blocks[n := a.blocks[n].(next := next)])
  }

  /**
   * `new LinkedBuffer(bytes, 0, bytes.length, n).next = next`: a new array,
   * viewed whole by a new block placed after `n` and followed by `next`.
   */
  function Inserted(a: Arena, n: nat, bytes: seq<byte>, next: Option<nat>): (r: (Arena, nat))
    requires n < |a.blocks|
    ensures r.1 == |a.blocks| && r.0.bufs == a.bufs + [bytes]
    ensures r.0.blocks == a.blocks[n := a.blocks[n].(next := Some(r.1))] + [Block(|a.bufs|, 0, |bytes|, next)]
  {
    var (a1, slot) := AddStorage(a, bytes);
    var (a2, d) := NewLinkedBuffer(a1, slot, 0, |bytes|, Some(n));
    (SetNext(a2, d, next), d)
  }

  /**
   * Block `n` cut at `cut`: a new view block takes the array from `cut + 1`
   * up to `n`'s offset, and `n`'s successor; `n` ends at `cut`. The source
   * gives the view `n`'s successor only when `n` is not the tail, but the
   * tail has none, so in both cases the view's `next` is `n`'s.
   */
  function Cut(a: Arena, n: nat, cut: nat): (r: (Arena, nat))
    requires n < |a.blocks|
    ensures r.1 == |a.blocks| && r.0.bufs == a.bufs
    ensures r.0.blocks == a.blocks[n := a.blocks[n].(offset := cut)]
                          + [Block(a.blocks[n].buf, cut + 1, a.blocks[n].offset, a.blocks[n].next)]
  {
    var b := a.blocks[n];
    var (a1, v) := NewLinkedBuffer(a, b.buf, cut + 1, b.offset, None);
    var a2 := SetNext(a1, v, b.next);
    (a2.(blocks := a2.blocks[n := a2.blocks[n].(offset := cut)]), v)
  }

  /** Block `x` placed at position `p` of a well-formed `c`, fitting between its neighbours. */
  lemma InsertWf(a: Arena, c: seq<nat>, p: nat, x: nat)
    requires Wf(a, c) && p <= |c| && BlockOK(a, x)
    requires forall i :: 0 <= i < p ==> Precedes(a, c[i], x)
    requires forall i :: p <= i < |c| ==> Precedes(a, x, c[i])
    ensures Wf(a, c[..p] + [x] + c[p..])
  {
    var c' := c[..p] + [x] + c[p..];
    assert forall i :: 0 <= i < |c'| ==> c'[i] == if i < p then c[i] else if i == p then x else c[i - 1];
    assert AllOK(a, c');
    forall i, j | 0 <= i < j < |c'|
      ensures Apart(a, c', i, j)
    {
      if j < p {
        assert Apart(a, c, i, j);
      } else if j == p {
        assert Precedes(a, c[i], x);
      } else if i < p {
        assert Apart(a, c, i, j - 1);
      } else if i == p {
        assert Precedes(a, x, c[j - 1]);
      } else {
        assert Apart(a, c, i - 1, j - 1);
      }
    }
  }

  /** `c` stays well formed when its blocks keep their arrays and starts and no offset grows. */
  lemma WfShrunk(a: Arena, a': Arena, c: seq<nat>)
    requires Wf(a, c)
    requires forall i :: 0 <= i < |c| ==>
      (BlockOK(a', c[i]) && a'.blocks[c[i]].buf == a.blocks[c[i]].buf
       && a'.blocks[c[i]].start == a.blocks[c[i]].start && a'.blocks[c[i]].offset <= a.blocks[c[i]].offset)
    ensures Wf(a', c)
  {
    forall i, j | 0 <= i < j < |c|
      ensures Apart(a', c, i, j)
    {
      assert Apart(a, c, i, j);
    }
  }

  /** Block `n` views the same window of the same array in both arenas; its link may differ. */
  predicate SameWindow(a: Arena, a': Arena, n: nat)
  {
    n < |a.blocks| && n < |a'.blocks| && a'.blocks[n].buf == a.blocks[n].buf
    && a'.blocks[n].start == a.blocks[n].start && a'.blocks[n].offset == a.blocks[n].offset
  }

  /** Blocks whose windows and arrays are as they were hold the same content. */
  lemma ContentKept(a: Arena, a': Arena, c: seq<nat>)
    requires AllOK(a, c) && |a.bufs| <= |a'.bufs| && a'.bufs[..|a.bufs|] == a.bufs
    requires forall i :: 0 <= i < |c| ==> SameWindow(a, a', c[i])
    ensures AllOK(a', c) && Content(a', c) == Content(a, c)
  {
    forall i | 0 <= i < |c|
      ensures BlockOK(a', c[i]) && Data(a', c[i]) == Data(a, c[i])
    {
      assert a'.bufs[a.blocks[c[i]].buf] == a.bufs[a.blocks[c[i]].buf];
    }
    ContentFrame(a, a', c);
  }

  /** A chain of one block holds that block's data. */
  lemma ContentOne(a: Arena, x: nat, rest: seq<nat>)
    requires BlockOK(a, x) && AllOK(a, rest)
    ensures AllOK(a, [x] + rest) && Content(a, [x] + rest) == Data(a, x) + Content(a, rest)
  {
    assert AllOK(a, [x]);
    ContentAppend(a, [x], rest);
    assert [x][..0] == [];
  }

  /** The blocks of `c` other than `c[k]` are not `c[k]` and keep their entries through the cut. */
  lemma CutOthers(a: Arena, c: seq<nat>, k: nat, cut: nat)
    requires Wf(a, c) && k < |c|
    ensures var a' := Cut(a, c[k], cut).0;
      forall i :: 0 <= i < |c| && i != k ==> c[i] != c[k] && a'.blocks[c[i]] == a.blocks[c[i]]
  {
    var a' := Cut(a, c[k], cut).0;
    forall i | 0 <= i < |c| && i != k
      ensures c[i] != c[k] && a'.blocks[c[i]] == a.blocks[c[i]]
    {
      if i < k { assert Apart(a, c, i, k); } else { assert Apart(a, c, k, i); }
    }
  }

  /** The cut keeps the chain, with the view after `c[k]`, well formed. */
  lemma CutWf(a: Arena, c: seq<nat>, k: nat, cut: nat)
    requires Wf(a, c) && k < |c|
    requires a.blocks[c[k]].start <= cut < a.blocks[c[k]].offset
    ensures var (a', v) := Cut(a, c[k], cut); Wf(a', c[..k + 1] + [v] + c[k + 1..])
  {
    var n := c[k];
    var (a', v) := Cut(a, n, cut);
    CutOthers(a, c, k, cut);
    WfShrunk(a, a', c);
    forall i | 0 <= i <= k
      ensures Precedes(a', c[i], v)
    {
      if i < k { assert Apart(a, c, i, k); }
    }
    forall i | k + 1 <= i < |c|
      ensures Precedes(a', v, c[i])
    {
      assert Apart(a, c, k, i);
    }
    InsertWf(a', c, k + 1, v);
  }

  /** After the cut the chain is linked everywhere but at `c[k]`, and the view is last if `c[k]` was. */
  lemma CutLinks(a: Arena, c: seq<nat>, k: nat, cut: nat)
    requires Wf(a, c) && Linked(a, c) && k < |c|
    requires a.blocks[c[k]].start <= cut < a.blocks[c[k]].offset
    ensures var (a', v) := Cut(a, c[k], cut); var c' := c[..k + 1] + [v] + c[k + 1..];
      AllOK(a', c') && Ends(a', c') && LinksBut(a', c', k)
  {
    var n := c[k];
    var (a', v) := Cut(a, n, cut);
    var c' := c[..k + 1] + [v] + c[k + 1..];
    CutWf(a, c, k, cut);
    CutOthers(a, c, k, cut);
    assert forall i :: 0 <= i < |c'| ==> c'[i] == if i <= k then c[i] else if i == k + 1 then v else c[i - 1];
    forall i | 0 <= i < |c'| - 1 && i != k
      ensures a'.blocks[c'[i]].next == Some(c'[i + 1])
    {
      if i == k + 1 {
        assert a.blocks[n].next == Some(c[k + 1]);
      } else if i < k {
        assert a.blocks[c[i]].next == Some(c[i + 1]);
      } else {
        assert a.blocks[c[i - 1]].next == Some(c[i]);
      }
    }
    if k == |c| - 1 {
      assert c'[|c'| - 1] == v;
    } else {
      assert c'[|c'| - 1] == c[|c| - 1];
    }
  }

  /** Kept blocks, then one more block: the old content, then that block's data. */
  lemma KeptThenOne(a: Arena, a': Arena, p: seq<nat>, n: nat)
    requires AllOK(a, p) && |a.bufs| <= |a'.bufs| && a'.bufs[..|a.bufs|] == a.bufs && BlockOK(a', n)
    requires forall i :: 0 <= i < |p| ==> SameWindow(a, a', p[i])
    ensures AllOK(a', p + [n]) && Content(a', p + [n]) == Content(a, p) + Data(a', n)
  {
    ContentKept(a, a', p);
    assert (p + [n])[..|p|] == p;
  }

  /** One block, then kept blocks: that block's data, then the old content. */
  lemma OneThenKept(a: Arena, a': Arena, x: nat, q: seq<nat>)
    requires AllOK(a, q) && |a.bufs| <= |a'.bufs| && a'.bufs[..|a.bufs|] == a.bufs && BlockOK(a', x)
    requires forall i :: 0 <= i < |q| ==> SameWindow(a, a', q[i])
    ensures AllOK(a', [x] + q) && Content(a', [x] + q) == Data(a', x) + Content(a, q)
  {
    ContentKept(a, a', q);
    ContentOne(a', x, q);
  }

  /** What the two blocks of a cut hold: the old data before `cut`, and after it. */
  lemma CutData(a: Arena, n: nat, cut: nat, a': Arena, v: nat)
    requires BlockOK(a, n) && a.blocks[n].start <= cut < a.blocks[n].offset && (a', v) == Cut(a, n, cut)
    ensures BlockOK(a', n) && BlockOK(a', v)
    ensures Data(a', n) == Data(a, n)[..cut - a.blocks[n].start]
    ensures Data(a', v) == Data(a, n)[cut + 1 - a.blocks[n].start..]
  {
    var b := a.blocks[n];
    var s := a.bufs[b.buf];
    assert a'.blocks[n] == b.(offset := cut) && a'.blocks[v] == Block(b.buf, cut + 1, b.offset, b.next);
    assert Data(a', n) == s[b.start..cut];
    assert s[b.start..b.offset][..cut - b.start] == s[b.start..cut];
    assert Data(a', v) == s[cut + 1..b.offset];
    assert s[b.start..b.offset][cut + 1 - b.start..] == s[cut + 1..b.offset];
  }

  /** The blocks of `c` other than `c[k]` are not `c[k]` and keep their entries through the insertion. */
  lemma InsertOthers(a: Arena, c: seq<nat>, k: nat, bytes: seq<byte>, next: Option<nat>)
    requires Wf(a, c) && k < |c|
    ensures var a' := Inserted(a, c[k], bytes, next).0;
      forall i :: 0 <= i < |c| && i != k ==> c[i] != c[k] && a'.blocks[c[i]] == a.blocks[c[i]]
  {
    var a' := Inserted(a, c[k], bytes, next).0;
    forall i | 0 <= i < |c| && i != k
      ensures c[i] != c[k] && a'.blocks[c[i]] == a.blocks[c[i]]
    {
      if i < k { assert Apart(a, c, i, k); } else { assert Apart(a, c, k, i); }
    }
  }

  /** The inserted block has an array of its own, so the chain stays well formed. */
  lemma InsertedWf(a: Arena, c: seq<nat>, k: nat, bytes: seq<byte>, next: Option<nat>)
    requires Wf(a, c) && k < |c|
    ensures var (a', d) := Inserted(a, c[k], bytes, next);
      Wf(a', c[..k + 1] + [d] + c[k + 1..]) && BlockOK(a', d) && Data(a', d) == bytes
  {
    var (a', d) := Inserted(a, c[k], bytes, next);
    InsertOthers(a, c, k, bytes, next);
    assert forall i :: 0 <= i < |c| ==> a.blocks[c[i]].buf < |a.bufs| && a'.bufs[a.blocks[c[i]].buf] == a.bufs[a.blocks[c[i]].buf];
    WfShrunk(a, a', c);
    InsertWf(a', c, k + 1, d);
    assert Data(a', d) == (a.bufs + [bytes])[|a.bufs|][0..|bytes|];
  }

  /** Linking `c[k]` to the new block and the new block to `c[k + 1]` completes the links. */
  lemma InsertedLinks(a: Arena, c: seq<nat>, k: nat, bytes: seq<byte>)
    requires Wf(a, c) && Ends(a, c) && k + 1 < |c| && LinksBut(a, c, k)
    ensures var (a', d) := Inserted(a, c[k], bytes, Some(c[k + 1])); var c' := c[..k + 1] + [d] + c[k + 1..];
      AllOK(a', c') && Linked(a', c') && c'[0] == c[0] && c'[|c'| - 1] == c[|c| - 1]
  {
    var n := c[k];
    var (a', d) := Inserted(a, n, bytes, Some(c[k + 1]));
    var c' := c[..k + 1] + [d] + c[k + 1..];
    InsertedWf(a, c, k, bytes, Some(c[k + 1]));
    InsertOthers(a, c, k, bytes, Some(c[k + 1]));
    assert forall i :: 0 <= i < |c'| ==> c'[i] == if i <= k then c[i] else if i == k + 1 then d else c[i - 1];
    forall i | 0 <= i < |c'| - 1
      ensures a'.blocks[c'[i]].next == Some(c'[i + 1])
    {
      if i < k {
        assert a.blocks[c[i]].next == Some(c[i + 1]);
      } else if i > k + 1 {
        assert a.blocks[c[i - 1]].next == Some(c[i]);
      }
    }
    assert c'[|c'| - 1] == c[|c| - 1];
  }

  /** The new block's bytes sit between the content up to `c[k]` and the rest. */
  lemma InsertedContent(a: Arena, c: seq<nat>, k: nat, bytes: seq<byte>, next: Option<nat>)
    requires Wf(a, c) && k < |c|
    ensures var (a', d) := Inserted(a, c[k], bytes, next); var c' := c[..k + 1] + [d] + c[k + 1..];
      AllOK(a', c') && AllOK(a, c[..k + 1]) && AllOK(a, c[k + 1..])
      && Content(a', c') == Content(a, c[..k + 1]) + bytes + Content(a, c[k + 1..])
  {
    var (a', d) := Inserted(a, c[k], bytes, next);
    InsertedWf(a, c, k, bytes, next);
    assert forall i :: 0 <= i < |c| ==> SameWindow(a, a', c[i]);
    ContentKept(a, a', c[..k + 1]);
    OneThenKept(a, a', d, c[k + 1..]);
    assert c[..k + 1] + [d] + c[k + 1..] == c[..k + 1] + ([d] + c[k + 1..]);
    ContentAppend(a', c[..k + 1], [d] + c[k + 1..]);
  }

  /**
   * Placing a block that holds `bytes` between `c[k]` and `c[k + 1]` of a
   * chain linked everywhere but at `c[k]`: the chain is well formed and
   * linked, and `bytes` sits between the two parts of the content.
   */
  lemma InsertChain(a: Arena, c: seq<nat>, k: nat, bytes: seq<byte>)
    requires Wf(a, c) && Ends(a, c) && k + 1 < |c| && LinksBut(a, c, k)
    ensures var (a', d) := Inserted(a, c[k], bytes, Some(c[k + 1])); var c' := c[..k + 1] + [d] + c[k + 1..];
      Wf(a', c') && Linked(a', c') && c'[0] == c[0] && c'[|c'| - 1] == c[|c| - 1]
      && Content(a', c') == Content(a, c[..k + 1]) + bytes + Content(a, c[k + 1..])
  {
    InsertedWf(a, c, k, bytes, Some(c[k + 1]));
    InsertedLinks(a, c, k, bytes);
    InsertedContent(a, c, k, bytes, Some(c[k + 1]));
  }

  /**
   * The whole of `writeMessage`'s split: cut `c[k]` at `cut`, then insert
   * the block holding `bytes` between `c[k]` and the view. The byte at
   * `cut` gives way to `bytes`.
   */
  lemma CutThenInsert(a: Arena, c: seq<nat>, k: nat, cut: nat, bytes: seq<byte>,
                       a1: Arena, v: nat, a2: Arena, d: nat)
    requires Wf(a, c) && Linked(a, c) && k < |c|
    requires a.blocks[c[k]].start <= cut < a.blocks[c[k]].offset
    requires (a1, v) == Cut(a, c[k], cut) && (a2, d) == Inserted(a1, c[k], bytes, Some(v))
    ensures Wf(a2, c[..k + 1] + [d, v] + c[k + 1..]) && Linked(a2, c[..k + 1] + [d, v] + c[k + 1..])
    ensures (c[..k + 1] + [d, v] + c[k + 1..])[0] == c[0]
    ensures (c[..k + 1] + [d, v] + c[k + 1..])[|c| + 1] == if k == |c| - 1 then v else c[|c| - 1]
    ensures Content(a2, c[..k + 1] + [d, v] + c[k + 1..])
      == Content(a, c[..k]) + Data(a, c[k])[..cut - a.blocks[c[k]].start] + bytes
         + Data(a, c[k])[cut + 1 - a.blocks[c[k]].start..] + Content(a, c[k + 1..])
  {
    var c1 := c[..k + 1] + [v] + c[k + 1..];
    CutChain(a, c, k, cut, a1, v);
    SpliceTwice(c, k, v, d);
    InsertChain(a1, c1, k, bytes);
  }

  /** The chain after the cut, with the view after `c[k]`, and its content on either side of the cut. */
  lemma CutChain(a: Arena, c: seq<nat>, k: nat, cut: nat, a1: Arena, v: nat)
    requires Wf(a, c) && Linked(a, c) && k < |c|
    requires a.blocks[c[k]].start <= cut < a.blocks[c[k]].offset
    requires (a1, v) == Cut(a, c[k], cut)
    ensures var c1 := c[..k + 1] + [v] + c[k + 1..];
      Wf(a1, c1) && Ends(a1, c1) && LinksBut(a1, c1, k) && c1[k] == c[k] && c1[k + 1] == v
      && c1[0] == c[0] && c1[|c1| - 1] == (if k == |c| - 1 then v else c[|c| - 1])
      && Content(a1, c1[..k + 1]) == Content(a, c[..k]) + Data(a, c[k])[..cut - a.blocks[c[k]].start]
      && Content(a1, c1[k + 1..]) == Data(a, c[k])[cut + 1 - a.blocks[c[k]].start..] + Content(a, c[k + 1..])
  {
    var c1 := c[..k + 1] + [v] + c[k + 1..];
    CutWf(a, c, k, cut);
    CutLinks(a, c, k, cut);
    CutOthers(a, c, k, cut);
    CutData(a, c[k], cut, a1, v);
    SpliceTwice(c, k, v, 0);
    assert c[..k + 1] == c[..k] + [c[k]];
    KeptThenOne(a, a1, c[..k], c[k]);
    OneThenKept(a, a1, v, c[k + 1..]);
    assert c1[|c1| - 1] == (if k == |c| - 1 then v else c[|c| - 1]);
  }

  /** The chain with `v` after position `k`, then `d` before `v`. */
  lemma SpliceTwice(c: seq<nat>, k: nat, v: nat, d: nat)
    requires k < |c|
    ensures var c1 := c[..k + 1] + [v] + c[k + 1..];
      c1[k] == c[k] && c1[k + 1] == v && c1[..k + 1] == c[..k + 1] && c1[k + 1..] == [v] + c[k + 1..]
      && c1[..k + 1] + [d] + c1[k + 1..] == c[..k + 1] + [d, v] + c[k + 1..]
  {
    var c1 := c[..k + 1] + [v] + c[k + 1..];
    assert c1[..k + 1] == c[..k + 1];
    assert c1[k + 1..] == [v] + c[k + 1..];
  }
}
