/**
 * `WriteSession`: the chain of blocks a message is written into, from
 * `head` to `tail`, with the running byte count `size`.
 *
 * The blocks live in the session's `arena` (the part of the heap that holds
 * `LinkedBuffer` objects and their arrays). The ghost field `chain` lists the
 * blocks that following `next` from `head` visits; `Valid` ties `size` and
 * `tail` to it.
 */
module Session {
  import opened Bytes
  import opened Wrappers
  import opened LinkedBuffers

  /**
   * The chain `c` starts at `head`, ends at `tail`, is linked through
   * `next`, and `size` is the number of bytes its blocks hold.
   */
  ghost predicate Sound(a: Arena, c: seq<nat>, head: nat, tail: nat, size: int, nextBufferSize: int)
  {
    Wf(a, c) && Linked(a, c) && BlockOK(a, head)
    && c[0] == head && c[|c| - 1] == tail
    && size == Used(a, c)
    && nextBufferSize >= 8
  }

  class WriteSession {
    var arena: Arena
    var head: nat
    var tail: nat
    var size: int
    var nextBufferSize: int
    ghost var chain: seq<nat>

    /** The session's fields describe a sound chain. */
    ghost predicate Valid()
      reads this
    {
      Sound(arena, chain, head, tail, size, nextBufferSize)
    }

    /** The bytes written so far, in order: what `toByteArray` returns. */
    ghost function Contents(): seq<byte>
      reads this
      requires Valid()
    {
      Content(arena, chain)
    }

    /**
     * `new WriteSession(head, nextBufferSize)`: `head` is a fresh block (as
     * `LinkedBuffer.allocate` makes one) and is also the tail.
     */
    constructor(a: Arena, head: nat, nextBufferSize: int := DEFAULT_BUFFER_SIZE)
      requires BlockOK(a, head) && a.blocks[head].next == None
      requires a.blocks[head].offset == a.blocks[head].start
      requires nextBufferSize >= 8
      ensures Valid() && arena == a && chain == [head]
      ensures this.head == head && tail == head && size == 0 && this.nextBufferSize == nextBufferSize
      ensures Contents() == []
    {
      arena := a;
      this.head := head;
      tail := head;
      size := 0;
      this.nextBufferSize := nextBufferSize;
      chain := [head];
      assert Content(a, [head]) == Content(a, [head][..0]) + Data(a, head);
    }

    /** `clear()`: the head is emptied and unlinked and becomes the tail again. */
    method Clear()
      requires Valid()
      modifies this
      ensures head == old(head) && Valid() && arena == ClearBlock(old(arena), old(head)) && chain == [head]
      ensures tail == head && size == 0 && nextBufferSize == old(nextBufferSize)
      ensures Contents() == []
    {
      arena := ClearBlock(arena, head);
      tail := head;
      size := 0;
      chain := [head];
      assert Content(arena, [head]) == Content(arena, [head][..0]) + Data(arena, head);
    }

    /**
     * `toByteArray()`: an array of `size` bytes holding the data of every
     * block from `head` on, in chain order. Nothing in the session changes.
     */
    method ToByteArray() returns (r: array<byte>)
      requires Valid()
      ensures fresh(r) && r.Length == size && r[..] == Contents()
    {
      var a := arena;
      ghost var c := chain;
      ContentLength(a, c);
      r := new byte[size](_ => 0);
      var node := head;
      ghost var k := 0;
      var offset := 0;
      assert c[..0] == [];
      while true
        invariant 0 <= k < |c| && node == c[k]
        invariant offset == |Content(a, c[..k])| <= r.Length
        invariant r[..offset] == Content(a, c[..k])
        decreases |c| - k
      {
        var b := a.blocks[node];
        var len := b.offset - b.start;
        ContentStep(a, c, k);
        if len > 0 {
          SetRange(r, a.bufs[b.buf][b.start..b.start + len], offset);
          offset := offset + len;
        }
        ChainNext(a, c, k);
        if b.next == None {
          assert c[..k + 1] == c;
          return;
        }
        node := b.next.value;
        k := k + 1;
      }
    }
  }

  /** In a linked chain, block k's successor is block k + 1, and only the last has none. */
  lemma ChainNext(a: Arena, c: seq<nat>, k: nat)
    requires Wf(a, c) && Linked(a, c) && k < |c|
    ensures a.blocks[c[k]].next == None <==> k == |c| - 1
    ensures k < |c| - 1 ==> a.blocks[c[k]].next == Some(c[k + 1])
  {
    if k < |c| - 1 {
      assert a.blocks[c[k]].next == Some(c[k + 1]);
    }
  }

  /** `buf.set(data, at)` on an array already holding `r[..at]` in front. */
  method SetRange(r: array<byte>, data: seq<byte>, at: nat)
    requires at + |data| <= r.Length
    modifies r
    ensures r[..at + |data|] == old(r[..at]) + data
  {
    forall j | 0 <= j < |data| {
      r[at + j] := data[j];
    }
  }

  /** One more block of the chain adds its data to the content so far. */
  lemma ContentStep(a: Arena, c: seq<nat>, k: nat)
    requires AllOK(a, c) && k < |c|
    ensures Content(a, c[..k + 1]) == Content(a, c[..k]) + Data(a, c[k])
    ensures |Content(a, c[..k + 1])| <= |Content(a, c)|
  {
    assert c[..k + 1][..k] == c[..k];
    ContentAppend(a, c[..k + 1], c[k + 1..]);
    assert c[..k + 1] + c[k + 1..] == c;
  }

  /** After `clear()`, `toByteArray()` is empty: the constructor's state again. */
  lemma ClearedIsEmpty(a: Arena, head: nat)
    requires BlockOK(a, head)
    ensures var a' := ClearBlock(a, head);
      Wf(a', [head]) && Linked(a', [head]) && Used(a', [head]) == 0 && Content(a', [head]) == []
  {
    var a' := ClearBlock(a, head);
    assert [head][..0] == [];
  }

  /**
   * Taking over a chain a write produced: the session is valid again once
   * `tail` is the block the write returned and `chain` the blocks it ended
   * with, and `size` has grown by the bytes written.
   */
  lemma {:induction false} UsedAppended(a: Arena, a': Arena, c: seq<nat>, c': seq<nat>, data: seq<byte>)
    requires Appended(a, a', c, c', data)
    ensures Used(a', c') == Used(a, c) + |data|
  {
    ContentLength(a, c);
    ContentLength(a', c');
  }

  /**
   * An append keeps a linked chain linked: the blocks before the old last
   * keep their links, and the append links everything from there on.
   */
  lemma AppendedLinked(a: Arena, a': Arena, c: seq<nat>, c': seq<nat>, data: seq<byte>)
    requires Appended(a, a', c, c', data) && Linked(a, c)
    ensures Linked(a', c') && c'[0] == c[0] && Used(a', c') == Used(a, c) + |data|
  {
    forall i | 0 <= i < |c'| - 1
      ensures a'.blocks[c'[i]].next == Some(c'[i + 1])
    {
      if i < |c| - 1 {
        assert c'[i] == c[i] && c'[i + 1] == c[i + 1];
        assert Unchanged(a, a', c[i]);
      }
    }
    assert c'[..|c|][0] == c[0];
    UsedAppended(a, a', c, c', data);
  }
}
