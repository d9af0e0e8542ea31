/**
 * The collection writers of `ProtobjOutput` (src/ProtobjOutput.ts):
 * `writeList`, `writeSet`, `writeArray`, `writeMap`, `writeBOOLArray` and
 * `writeBOOLList`. Each runs its elements inside one `writeMessage` frame.
 *
 * An element (or a map key or value) is written by a writer the caller
 * passes in; the model stands for each such call by the bytes that writer
 * appends, so a collection is the sequence of those byte strings.
 */
module OutputCollections {
  import opened Bytes
  import opened WireFormat
  import opened Session
  import opened Output

  // ---------------------------------------------------------------------
  // Elements as steps of a task.
  // ---------------------------------------------------------------------

  /** The byte strings one after another. */
  function Concat(values: seq<seq<byte>>): seq<byte>
  {
    if |values| == 0 then [] else Concat(values[..|values| - 1]) + values[|values| - 1]
  }

  /** One step per element: the bytes its writer appends. */
  function Elements(values: seq<seq<byte>>): (task: seq<Step>)
    ensures |task| == |values| && forall i :: 0 <= i < |values| ==> task[i] == Raw(values[i])
  {
    seq(|values|, i requires 0 <= i < |values| => Raw(values[i]))
  }

  /** Running the element steps appends the elements, in order. */
  lemma {:induction false} ElementsBytes(values: seq<seq<byte>>)
    ensures TaskBytes(Elements(values)) == Concat(values)
    decreases |values|
  {
    if |values| > 0 {
      var n := |values|;
      assert Elements(values)[..n - 1] == Elements(values[..n - 1]);
      ElementsBytes(values[..n - 1]);
    }
  }

  /** Two tasks run one after the other append the bytes of the first, then those of the second. */
  lemma {:induction false} TaskBytesAppend(t: seq<Step>, u: seq<Step>)
    ensures TaskBytes(t + u) == TaskBytes(t) + TaskBytes(u)
    decreases |u|
  {
    if |u| == 0 {
      assert t + u == t;
    } else {
      TaskBytesAppend(t, u[..|u| - 1]);
      TaskBytesLast(t, u);
    }
  }

  /** The step of `TaskBytesAppend`: one more step at the end of `u`. */
  lemma {:induction false} TaskBytesLast(t: seq<Step>, u: seq<Step>)
    requires |u| > 0 && TaskBytes(t + u[..|u| - 1]) == TaskBytes(t) + TaskBytes(u[..|u| - 1])
    ensures TaskBytes(t + u) == TaskBytes(t) + TaskBytes(u)
  {
    var n := |u|;
    var w := t + u;
    assert w[..|w| - 1] == t + u[..n - 1] && w[|w| - 1] == u[n - 1];
    var x, y, z := TaskBytes(t), TaskBytes(u[..n - 1]), StepBytes(u[n - 1]);
    assert TaskBytes(w) == (x + y) + z;
    assert TaskBytes(u) == y + z;
    Associative(x, y, z);
  }

  /**
   * Regrouping a concatenation, kept apart from TaskBytesLast: proving it
   * inline there, among the TaskBytes terms, costs the solver far more.
   */
  lemma Associative(x: seq<byte>, y: seq<byte>, z: seq<byte>)
    ensures (x + y) + z == x + (y + z)
  {
  }

  /** A single string concatenates to itself. */
  lemma ConcatSingle(value: seq<byte>)
    ensures Concat([value]) == value
  {
    var single: seq<seq<byte>> := [value];
    assert single[..0] == [];
  }

  /** Concatenation distributes over splitting the list of strings. */
  lemma {:induction false} ConcatAppend(p: seq<seq<byte>>, q: seq<seq<byte>>)
    ensures Concat(p + q) == Concat(p) + Concat(q)
    decreases |q|
  {
    if |q| == 0 {
      assert p + q == p;
    } else {
      var n := |q|;
      var w := p + q;
      assert w[..|w| - 1] == p + q[..n - 1] && w[|w| - 1] == q[n - 1];
      ConcatAppend(p, q[..n - 1]);
      var x, y, z := Concat(p), Concat(q[..n - 1]), q[n - 1];
      assert Concat(w) == (x + y) + z;
      assert (x + y) + z == x + (y + z);
    }
  }

  /**
   * Element `i` occupies its own window of the concatenation, right after
   * the elements before it: the elements come back in order.
   */
  lemma ConcatWindow(values: seq<seq<byte>>, i: nat)
    requires i < |values|
    ensures |Concat(values[..i])| + |values[i]| <= |Concat(values)|
    ensures Concat(values)[|Concat(values[..i])|..|Concat(values[..i])| + |values[i]|] == values[i]
  {
    assert values == values[..i + 1] + values[i + 1..];
    ConcatAppend(values[..i + 1], values[i + 1..]);
    assert values[..i + 1][..i] == values[..i];
  }

  // ---------------------------------------------------------------------
  // writeList, writeSet, writeArray.
  // ---------------------------------------------------------------------

  /** `writeList`: the elements, in index order, framed under a length-delimited tag. */
  method WriteList(s: WriteSession, fieldNumber: int, values: seq<seq<byte>>)
    requires s.Valid()
    modifies s
    ensures Wrote(s, MessageTagBytes(fieldNumber, old(TailRoom(s))) + Frame(Concat(values)))
  {
    WriteMessage(s, fieldNumber, Elements(values));
    ElementsBytes(values);
  }

  /**
   * `writeSet`: the elements in the set's iteration order (the order they
   * were inserted in), framed under a length-delimited tag.
   */
  method WriteSet(s: WriteSession, fieldNumber: int, inserted: seq<seq<byte>>)
    requires s.Valid()
    modifies s
    ensures Wrote(s, MessageTagBytes(fieldNumber, old(TailRoom(s))) + Frame(Concat(inserted)))
  {
    WriteMessage(s, fieldNumber, Elements(inserted));
    ElementsBytes(inserted);
  }

  /** `writeArray`: the element count (`writeI32_Packed`), then the elements, framed. */
  method WriteArray(s: WriteSession, fieldNumber: int, values: seq<seq<byte>>)
    requires s.Valid()
    modifies s
    ensures Wrote(s, MessageTagBytes(fieldNumber, old(TailRoom(s))) + Frame(I32Bytes(|values|) + Concat(values)))
  {
    WriteMessage(s, fieldNumber, [Count(|values|)] + Elements(values));
    CountFirst(|values|, Elements(values));
    ElementsBytes(values);
  }

  /** A task that starts with a count appends the count's varint first. */
  lemma CountFirst(n: int, task: seq<Step>)
    ensures TaskBytes([Count(n)] + task) == I32Bytes(n) + TaskBytes(task)
  {
    TaskBytesAppend([Count(n)], task);
    var t := [Count(n)];
    assert t[..0] == [];
    assert TaskBytes(t) == TaskBytes([]) + StepBytes(t[0]);
    var b := StepBytes(t[0]);
    assert [] + b == b;
  }

  // ---------------------------------------------------------------------
  // writeMap.
  // ---------------------------------------------------------------------

  /**
   * A map entry: the bytes its key writer and its value writer append, and
   * whether the key and the value are truthy in JavaScript (not `0`, `""`,
   * `false`, `null`, `undefined` or `NaN`).
   */
  datatype Entry = Entry(key: seq<byte>, value: seq<byte>, keyTruthy: bool, valueTruthy: bool)

  /** `writeMap` writes an entry only when both its value and its key are truthy. */
  predicate Kept(e: Entry)
  {
    e.valueTruthy && e.keyTruthy
  }

  /** The steps of the map's task: key then value, for each kept entry in iteration order. */
  function EntrySteps(entries: seq<Entry>): seq<Step>
  {
    if |entries| == 0 then []
    else
      var e := entries[|entries| - 1];
      EntrySteps(entries[..|entries| - 1]) + (if Kept(e) then [Raw(e.key), Raw(e.value)] else [])
  }

  /** The kept entries, as the strings key, value, key, value, ... */
  function KeptPairs(entries: seq<Entry>): (r: seq<seq<byte>>)
    ensures |r| % 2 == 0
  {
    if |entries| == 0 then []
    else
      var e := entries[|entries| - 1];
      KeptPairs(entries[..|entries| - 1]) + (if Kept(e) then [e.key, e.value] else [])
  }

  /** The map's task appends the keys and values of the kept entries, alternately. */
  lemma {:induction false} EntryStepsBytes(entries: seq<Entry>)
    ensures TaskBytes(EntrySteps(entries)) == Concat(KeptPairs(entries))
    decreases |entries|
  {
    if |entries| > 0 {
      var init := entries[..|entries| - 1];
      var e := entries[|entries| - 1];
      EntryStepsBytes(init);
      var tail := if Kept(e) then [Raw(e.key), Raw(e.value)] else [];
      var strings := if Kept(e) then [e.key, e.value] else [];
      TaskBytesAppend(EntrySteps(init), tail);
      ConcatAppend(KeptPairs(init), strings);
      assert tail == Elements(strings);
      ElementsBytes(strings);
    }
  }

  /** The keys and values written come back in pairs: entry `i` of the kept list is key `2i`, value `2i + 1`. */
  lemma {:induction false} KeptPairsOrder(entries: seq<Entry>, j: nat)
    requires j < |entries| && Kept(entries[j])
    ensures |KeptPairs(entries[..j])| + 2 <= |KeptPairs(entries)|
    ensures KeptPairs(entries)[|KeptPairs(entries[..j])|] == entries[j].key
    ensures KeptPairs(entries)[|KeptPairs(entries[..j])| + 1] == entries[j].value
    decreases |entries|
  {
    var n := |entries|;
    assert entries[..n][..j] == entries[..j];
    if j == n - 1 {
      assert entries[..n - 1] == entries[..j];
    } else {
      var init := entries[..n - 1];
      assert init[..j] == entries[..j] && init[j] == entries[j];
      KeptPairsOrder(init, j);
    }
  }

  /**
   * `writeMap`: for each entry in iteration order whose value and key are
   * both truthy, the key's bytes then the value's, all framed.
   */
  method WriteMap(s: WriteSession, fieldNumber: int, entries: seq<Entry>)
    requires s.Valid()
    modifies s
    ensures Wrote(s, MessageTagBytes(fieldNumber, old(TailRoom(s))) + Frame(Concat(KeptPairs(entries))))
  {
    WriteMessage(s, fieldNumber, EntrySteps(entries));
    EntryStepsBytes(entries);
  }

  // ---------------------------------------------------------------------
  // writeBOOLArray and writeBOOLList.
  // ---------------------------------------------------------------------

  /**
   * The low `m` bits of packed byte `k`: bit `j` is set exactly when
   * `value[8k + j]` exists and is true.
   */
  function Acc(value: seq<bool>, k: nat, m: nat): bv8
    requires m <= 8
  {
    if m == 0 then 0
    else Acc(value, k, m - 1) | (if 8 * k + m - 1 < |value| && value[8 * k + m - 1] then (1 as bv8) << (m - 1) else 0)
  }

  /** How many of byte `k`'s bits the loop has set or skipped once it has looked at the first `i` values. */
  function Seen(k: nat, i: nat): (m: nat)
    ensures m <= 8
  {
    if i <= 8 * k then 0 else if i - 8 * k >= 8 then 8 else i - 8 * k
  }

  /** The packed bytes: `ceil(n / 8)` of them, bit `i % 8` of byte `i / 8` holding `value[i]`. */
  function PackedBits(value: seq<bool>): (r: seq<bv8>)
    ensures |r| == (|value| + 7) / 8
  {
    seq((|value| + 7) / 8, k requires 0 <= k => Acc(value, k, 8))
  }

  /** Bit `j` of the first `m` bits of byte `k`. */
  lemma {:induction false} AccBit(value: seq<bool>, k: nat, m: nat, j: nat)
    requires m <= 8 && j < 8
    ensures (Acc(value, k, m) >> j) & 1 == if j < m && 8 * k + j < |value| && value[8 * k + j] then 1 else 0
  {
    if m > 0 {
      AccBit(value, k, m - 1, j);
    }
  }

  /** Every value comes back out of its bit, and the padding bits of the last byte are clear. */
  lemma PackedBit(value: seq<bool>, i: nat)
    requires i < 8 * |PackedBits(value)|
    ensures (PackedBits(value)[i / 8] >> (i % 8)) & 1 == 1 <==> i < |value| && value[i]
  {
    AccBit(value, i / 8, 8, i % 8);
  }

  /**
   * The packing loop of `writeBOOLArray`: a zeroed array of
   * `((n + 7) & -8) >>> 3` bytes, that is `ceil(n / 8)` for any array
   * length JavaScript allows, and `bytes[i / 8] |= 1 << (i % 8)` for each
   * true `value[i]`, with `i / 8` the integer quotient.
   */
  method PackBits(value: seq<bool>) returns (bytes: array<bv8>)
    ensures fresh(bytes) && bytes[..] == PackedBits(value)
  {
    bytes := new bv8[(|value| + 7) / 8](_ => 0);
    var i := 0;
    while i < |value|
      invariant i <= |value| && bytes.Length == (|value| + 7) / 8
      invariant PackedUpTo(value, bytes[..], i)
    {
      ghost var before := bytes[..];
      if value[i] {
        var q := i / 8;
        bytes[q] := bytes[q] | (1 << (i % 8));
      }
      PackStep(value, before, bytes[..], i);
      i := i + 1;
    }
    forall k | 0 <= k < bytes.Length
      ensures bytes[k] == PackedBits(value)[k]
    {
      AccBeyond(value, k, Seen(k, i));
    }
  }

  /** Each byte holds the bits of the values the loop has looked at. */
  ghost predicate PackedUpTo(value: seq<bool>, bytes: seq<bv8>, i: nat)
  {
    forall k :: 0 <= k < |bytes| ==> bytes[k] == Acc(value, k, Seen(k, i))
  }

  /** One turn of the packing loop: the bit of `value[i]`, if true, set in byte `i / 8`. */
  lemma PackStep(value: seq<bool>, before: seq<bv8>, after: seq<bv8>, i: nat)
    requires i < |value| && |before| == (|value| + 7) / 8 && PackedUpTo(value, before, i)
    requires after == if value[i] then before[i / 8 := before[i / 8] | (1 << (i % 8))] else before
    ensures PackedUpTo(value, after, i + 1)
  {
    forall k | 0 <= k < |after|
      ensures after[k] == Acc(value, k, Seen(k, i + 1))
    {
      SeenStep(value, k, i);
    }
  }

  lemma SeenStep(value: seq<bool>, k: nat, i: nat)
    requires i < |value|
    ensures k != i / 8 ==> Seen(k, i + 1) == Seen(k, i)
    ensures k == i / 8 ==> Seen(k, i) == i % 8 && Seen(k, i + 1) == i % 8 + 1
    ensures k == i / 8 ==>
      (Acc(value, k, Seen(k, i + 1)) == Acc(value, k, Seen(k, i)) | (if value[i] then (1 as bv8) << (i % 8) else 0))
  {
  }

  /** Past the end of the values, further bits add nothing. */
  lemma {:induction false} AccBeyond(value: seq<bool>, k: nat, m: nat)
    requires m <= 8 && (m == 8 || 8 * k + m >= |value|)
    ensures Acc(value, k, 8) == Acc(value, k, m)
    decreases 8 - m
  {
    if m < 8 {
      AccBeyond(value, k, m + 1);
    }
  }

  /**
   * The packing loop as written: `i / 8` is a JavaScript division, a
   * fraction unless 8 divides `i`, and a typed array ignores a store at a
   * fractional index. Only `value[8k]` reaches a byte, as its bit 0.
   */
  function PackedBitsAsWritten(value: seq<bool>): (r: seq<bv8>)
    ensures |r| == (|value| + 7) / 8
  {
    seq((|value| + 7) / 8, k requires 0 <= k => if 8 * k < |value| && value[8 * k] then 1 else 0)
  }

  /** As written, `[false, true]` packs to `[0]`; bit 1 of the intended `[2]` is lost. */
  lemma PackAsWrittenDropsBits()
    ensures PackedBitsAsWritten([false, true]) == [0]
    ensures PackedBits([false, true]) == [2]
  {
    assert Acc([false, true], 0, 8) == 2 by {
      assert Acc([false, true], 0, 2) == 2;
      AccBeyond([false, true], 0, 2);
    }
  }

  /** The bytes of a `Uint8Array`, as the sink reads them. */
  function AsBytes(bits: seq<bv8>): (r: seq<byte>)
    ensures |r| == |bits|
  {
    seq(|bits|, k requires 0 <= k < |bits| => bits[k] as int)
  }

  /**
   * `writeBOOLArray`: the number of values (`writeI32_Packed`), then the
   * packed bytes (through the sink's `writeByteArray`), framed.
   */
  method WriteBOOLArray(s: WriteSession, fieldNumber: int, value: seq<bool>)
    requires s.Valid()
    modifies s
    ensures Wrote(s, MessageTagBytes(fieldNumber, old(TailRoom(s))) + Frame(I32Bytes(|value|) + AsBytes(PackedBits(value))))
  {
    var bytes := PackBits(value);
    WriteMessage(s, fieldNumber, [Count(|value|), Raw(AsBytes(bytes[..]))]);
    PackedTask(|value|, AsBytes(bytes[..]));
  }

  /** The task of `writeBOOLArray` appends the count, then the packed bytes. */
  lemma PackedTask(n: int, packed: seq<byte>)
    ensures TaskBytes([Count(n), Raw(packed)]) == I32Bytes(n) + packed
  {
    CountFirst(n, [Raw(packed)]);
    assert [Count(n), Raw(packed)] == [Count(n)] + [Raw(packed)];
    assert TaskBytes([Raw(packed)]) == TaskBytes([]) + packed;
    assert [] + packed == packed;
  }

  /** `writeBOOLList` is `writeBOOLArray`. */
  method WriteBOOLList(s: WriteSession, fieldNumber: int, value: seq<bool>)
    requires s.Valid()
    modifies s
    ensures Wrote(s, MessageTagBytes(fieldNumber, old(TailRoom(s))) + Frame(I32Bytes(|value|) + AsBytes(PackedBits(value))))
  {
    WriteBOOLArray(s, fieldNumber, value);
  }
}
