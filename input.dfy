/**
 * The decoder (src/ProtobjInput.ts). A `ProtobjInput` reads a byte array
 * through a cursor: `offset` is the next byte, `limit` the end of the
 * message being read, `lastTag` the tag of the field being read and
 * `packedLimit` the end of the packed field being read (0 when none).
 *
 * Every reading operation is specified twice over: a function on a
 * `Cursor` value (the four integer fields) says what the read yields and
 * where it leaves the cursor, and the method of the class, which updates
 * the fields step by step as the source does, is proved to agree with it.
 * The functions are what the round-trip lemmas (module RoundTrips) and the
 * lemmas below are about.
 *
 * Where the source throws, the model returns `Err`; the fields are then
 * left unspecified, since the source abandons the read. Reading past the
 * end of the array (JavaScript's `undefined`) is reported as a truncated
 * message.
 */
module Input {
  import opened Bytes
  import opened ProtobjErrors
  import opened WireFormat
  import opened ZigZag
  import Varints
  import opened IntSerializer

  /** The reader's integer fields. */
  datatype Cursor = Cursor(offset: nat, limit: int, lastTag: int, packedLimit: int)

  /** A read's outcome: the value and the cursor after it, or the error thrown. */
  type Read<T> = Result<(T, Cursor)>

  /** A method's result and new state agree with a specification outcome (nothing is said of the state after an error). */
  ghost predicate Outcome<T>(r: Result<T>, c: Cursor, spec: Read<T>)
  {
    match spec
    case Ok((v, c')) => r.Ok? && r.value == v && c == c'
    case Err(e) => r.Err? && r.error == e
  }

  /** `Ok((xs, c))` with `prefix` in front of `xs`; errors pass through. */
  function Prepend<T>(prefix: seq<T>, r: Read<seq<T>>): (r': Read<seq<T>>)
    ensures r'.Ok? <==> r.Ok?
    ensures r.Ok? ==> |r'.value.0| == |prefix| + |r.value.0| && r'.value.0[|prefix|..] == r.value.0 && r'.value.0[..|prefix|] == prefix && r'.value.1 == r.value.1
  {
    match r
    case Ok((xs, c)) => Ok((prefix + xs, c))
    case Err(e) => Err(e)
  }

  lemma PrependTwice<T>(a: seq<T>, b: seq<T>, r: Read<seq<T>>)
    ensures Prepend(a, Prepend(b, r)) == Prepend(a + b, r)
  {
    if r.Ok? {
      assert a + (b + r.value.0) == (a + b) + r.value.0;
    }
  }

  // ---------------------------------------------------------------------
  // Raw reads
  // ---------------------------------------------------------------------

  /** `buffer[this.offset++]`. */
  function ByteAt(buf: seq<byte>, c: Cursor): (r: Read<byte>)
    ensures r.Ok? <==> c.offset < |buf|
    ensures r.Ok? ==> r.value == (buf[c.offset], c.(offset := c.offset + 1))
  {
    if c.offset < |buf| then Ok((buf[c.offset], c.(offset := c.offset + 1))) else Err(TruncatedMessage)
  }

  /** `n` bytes taken one by one from `offset` on. */
  function Take(buf: seq<byte>, c: Cursor, n: nat): (r: Read<seq<byte>>)
    ensures r.Ok? <==> c.offset + n <= |buf|
    ensures r.Ok? ==> r.value == (buf[c.offset..c.offset + n], c.(offset := c.offset + n))
  {
    if c.offset + n <= |buf| then Ok((buf[c.offset..c.offset + n], c.(offset := c.offset + n)))
    else Err(TruncatedMessage)
  }

  /** A decoder's value and end position, read from the cursor: the offset moves to the end. */
  function Moved<T>(r: Result<(T, nat)>, c: Cursor): Read<T>
  {
    match r
    case Ok((v, end)) => Ok((v, c.(offset := end)))
    case Err(e) => Err(e)
  }

  /** readRawVarint32: the cursor moves past the varint. */
  function Varint32(buf: seq<byte>, c: Cursor): (r: Read<i32>)
    ensures r.Ok? ==> c.offset < r.value.1.offset <= c.offset + 10 && r.value.1 == c.(offset := r.value.1.offset)
  {
    Moved(Varints.ReadRawVarint32(buf, c.offset), c)
  }

  /** readRawVarint64, which also looks at `limit`. */
  function Varint64(buf: seq<byte>, c: Cursor): (r: Read<Pair>)
  {
    Moved(Varints.ReadRawVarint64(buf, c.offset, c.limit), c)
  }

  /** readRawLittleEndian16: `b1 | b2 << 8`. */
  function Fixed16(buf: seq<byte>, c: Cursor): Read<int>
  {
    match Take(buf, c, 2)
    case Ok((b, c')) => Ok((FromLE16(b), c'))
    case Err(e) => Err(e)
  }

  /** readRawLittleEndian32, a signed word. */
  function Fixed32(buf: seq<byte>, c: Cursor): Read<i32>
  {
    match Take(buf, c, 4)
    case Ok((b, c')) => Ok((FromLE32(b), c'))
    case Err(e) => Err(e)
  }

  /** readRawLittleEndian64, a (low, high) pair. */
  function Fixed64(buf: seq<byte>, c: Cursor): Read<Pair>
  {
    match Take(buf, c, 8)
    case Ok((b, c')) => Ok((FromLE64(b), c'))
    case Err(e) => Err(e)
  }

  /** readBOOL_NoCheck: any non-zero byte is true. */
  function Bool(buf: seq<byte>, c: Cursor): Read<bool>
  {
    match ByteAt(buf, c)
    case Ok((b, c')) => Ok((b != 0, c'))
    case Err(e) => Err(e)
  }

  /** readS32_NoCheck: `(n >>> 1) ^ -(n & 1)`, a signed word. */
  function S32(buf: seq<byte>, c: Cursor): Read<i32>
  {
    match Varint32(buf, c)
    case Ok((n, c')) => Ok((ToI32(DecodeZigZag32(ToU32(n))), c'))
    case Err(e) => Err(e)
  }

  /** readS64_NoCheck: the 64-bit zigzag decoding of the varint. */
  function S64(buf: seq<byte>, c: Cursor): Read<Pair>
  {
    match Varint64(buf, c)
    case Ok((n, c')) => Ok((DecodeZigZag64(n), c'))
    case Err(e) => Err(e)
  }

  // ---------------------------------------------------------------------
  // Field structure
  // ---------------------------------------------------------------------

  /**
   * readFieldNumber: 0 at the end of the message (clearing `lastTag`);
   * otherwise the next tag, which must carry a non-zero field number, becomes
   * `lastTag`, and any packed field is over.
   */
  function FieldNumber(buf: seq<byte>, c: Cursor): Read<int>
  {
    if c.offset == c.limit then Ok((0, c.(lastTag := 0)))
    else
      match Varint32(buf, c.(packedLimit := 0))
      case Err(e) => Err(e)
      case Ok((tag, c')) =>
        var f := GetTagFieldNumber(tag);
        if f == 0 then Err(InvalidTag) else Ok((f, c'.(lastTag := tag)))
  }

  /**
   * checkIfPackedField: when no packed field is open and the last tag is
   * length-delimited, read the length and open a packed field that ends
   * that many bytes on; it must be non-negative and end within `limit`.
   */
  function PackedCheck(buf: seq<byte>, c: Cursor): Result<Cursor>
  {
    if c.packedLimit == 0 && GetTagWireType(c.lastTag) == WIRETYPE_LENGTH_DELIMITED then
      match Varint32(buf, c)
      case Err(e) => Err(e)
      case Ok((length, c')) =>
        if length < 0 then Err(NegativeSize)
        else if c'.offset + length > c'.limit then Err(MisreportedSize)
        else Ok(c'.(packedLimit := c'.offset + length))
    else Ok(c)
  }

  /** `buffer.slice(from, to)`, which stops at the end of the array. */
  function Slice(buf: seq<byte>, from: nat, to: nat): (r: seq<byte>)
    ensures to <= |buf| && from <= to ==> r == buf[from..to]
  {
    if from >= |buf| || to <= from then []
    else if to <= |buf| then buf[from..to] else buf[from..]
  }

  /**
   * readBytes (and the byte range readSTRING decodes): a non-negative
   * length that ends within `limit`, then that many bytes.
   */
  function LengthDelimited(buf: seq<byte>, c: Cursor): Read<seq<byte>>
  {
    match Varint32(buf, c)
    case Err(e) => Err(e)
    case Ok((length, c')) =>
      if length < 0 then Err(NegativeSize)
      else if c'.offset + length > c'.limit then Err(MisreportedSize)
      else Ok((Slice(buf, c'.offset, c'.offset + length), c'.(offset := c'.offset + length)))
  }

  /**
   * readMessageStart: the length of a nested message becomes the limit
   * (and the packed limit); the old limit is returned for readMessageStop.
   */
  function MessageStart(buf: seq<byte>, c: Cursor): Read<int>
  {
    match Varint32(buf, c)
    case Err(e) => Err(e)
    case Ok((length, c')) =>
      if length < 0 then Err(NegativeSize)
      else Ok((c'.limit, c'.(limit := c'.offset + length, packedLimit := c'.offset + length)))
  }

  /** readMessageStop: the nested message must have been read exactly; the old limit comes back. */
  function MessageStop(c: Cursor, oldLimit: int): Result<Cursor>
  {
    if c.offset != c.limit then Err(MisreportedSize)
    else Ok(c.(limit := oldLimit, lastTag := 0))
  }

  /** A checked read: checkIfPackedField first, then the raw read from where it left the cursor. */
  function Checked<T>(check: Result<Cursor>, read: Cursor -> Read<T>): Read<T>
  {
    match check
    case Ok(c) => read(c)
    case Err(e) => Err(e)
  }

  /**
   * skipField: moves past one value of the tag's wire type. The source's
   * FIXED16 case answers false although it has skipped the value, and its
   * two error cases build an error without throwing it; this is the
   * behaviour those cases evidently intend (see SkipAsWritten).
   */
  function Skip(buf: seq<byte>, c: Cursor, tag: int): Read<bool>
  {
    var w := GetTagWireType(tag);
    if w == WIRETYPE_VARINT then
      match Checked(PackedCheck(buf, c), c1 => Varint32(buf, c1))
      case Ok((_, c')) => Ok((true, c'))
      case Err(e) => Err(e)
    else if w == WIRETYPE_FIXED64 then
      match Fixed64(buf, c)
      case Ok((_, c')) => Ok((true, c'))
      case Err(e) => Err(e)
    else if w == WIRETYPE_LENGTH_DELIMITED then
      match Varint32(buf, c)
      case Err(e) => Err(e)
      case Ok((size, c')) =>
        if size < 0 then Err(NegativeSize) else Ok((true, c'.(offset := c'.offset + size)))
    else if w == WIRETYPE_FIXED8 then
      match Checked(PackedCheck(buf, c), c1 => ByteAt(buf, c1))
      case Ok((_, c')) => Ok((true, c'))
      case Err(e) => Err(e)
    else if w == WIRETYPE_FIXED16 then
      match Checked(PackedCheck(buf, c), c1 => Fixed16(buf, c1))
      case Ok((_, c')) => Ok((true, c'))
      case Err(e) => Err(e)
    else if w == WIRETYPE_FIXED32 then
      match Fixed32(buf, c)
      case Ok((_, c')) => Ok((true, c'))
      case Err(e) => Err(e)
    else Err(InvalidWireType)
  }

  /**
   * skipField as written: the answer and the new offset. A negative
   * length moves the offset backwards, FIXED16 answers false, and an
   * unknown wire type is answered with false instead of an error.
   */
  function SkipAsWritten(buf: seq<byte>, c: Cursor, tag: int): Result<(bool, int)>
  {
    var w := GetTagWireType(tag);
    if w == WIRETYPE_LENGTH_DELIMITED then
      match Varint32(buf, c)
      case Err(e) => Err(e)
      case Ok((size, c')) => Ok((true, c'.offset + size))
    else if w == WIRETYPE_FIXED16 then
      match Checked(PackedCheck(buf, c), c1 => Fixed16(buf, c1))
      case Ok((_, c')) => Ok((false, c'.offset))
      case Err(e) => Err(e)
    else if w == 6 || w == 7 then Ok((false, c.offset))
    else
      match Skip(buf, c, tag)
      case Ok((b, c')) => Ok((b, c'.offset))
      case Err(e) => Err(e)
  }

  /**
   * The packed check reads a length once: once it has opened a packed
   * field, the checks of the element reads that follow leave the cursor
   * alone.
   */
  lemma PackedCheckOnce(buf: seq<byte>, c: Cursor)
    requires PackedCheck(buf, c).Ok? && PackedCheck(buf, c).value.packedLimit != 0
    ensures PackedCheck(buf, PackedCheck(buf, c).value) == PackedCheck(buf, c)
  {
  }

  /**
   * A nested message read exactly to its end hands the outer limit back,
   * whatever was read inside; one read short or long is refused.
   */
  lemma MessageNesting(buf: seq<byte>, c: Cursor, inner: Cursor)
    requires MessageStart(buf, c).Ok?
    requires inner.limit == MessageStart(buf, c).value.1.limit
    ensures inner.offset == inner.limit ==>
      MessageStop(inner, MessageStart(buf, c).value.0) == Ok(inner.(limit := c.limit, lastTag := 0))
    ensures inner.offset != inner.limit ==>
      MessageStop(inner, MessageStart(buf, c).value.0) == Err(MisreportedSize)
  {
  }

  /** The skip answers true and moves forward whenever it succeeds. */
  lemma SkipMovesForward(buf: seq<byte>, c: Cursor, tag: int)
    requires Skip(buf, c, tag).Ok?
    ensures Skip(buf, c, tag).value.0 && Skip(buf, c, tag).value.1.offset > c.offset
  {
  }

  /**
   * skipField as written, on a length of -1 (ten bytes, all ones): it
   * moves the offset back to the last byte of the length and reports
   * success; the intended skip refuses the length.
   */
  lemma SkipAsWrittenNegativeSize()
    ensures var buf := Varints.Varint(TWO_32 * TWO_32 - 1);
      SkipAsWritten(buf, Cursor(0, 10, 0, 0), WIRETYPE_LENGTH_DELIMITED) == Ok((true, 9))
      && Skip(buf, Cursor(0, 10, 0, 0), WIRETYPE_LENGTH_DELIMITED) == Err(NegativeSize)
  {
    Varints.SignExtendedRoundTrip(-1);
    var buf := Varints.Varint(TWO_32 * TWO_32 - 1);
    assert Varint32(buf, Cursor(0, 10, 0, 0)) == Ok((-1, Cursor(10, 10, 0, 0)));
  }

  /** skipField as written skips a FIXED16 value but answers false; the intended skip answers true. */
  lemma SkipAsWrittenFixed16()
    ensures SkipAsWritten([0x34, 0x12], Cursor(0, 2, 0, 0), WIRETYPE_FIXED16) == Ok((false, 2))
    ensures Skip([0x34, 0x12], Cursor(0, 2, 0, 0), WIRETYPE_FIXED16) == Ok((true, Cursor(2, 2, 0, 0)))
  {
    var word: seq<byte> := [0x34, 0x12];
    assert word[0..2] == word;
  }

  /** skipField as written answers wire type 6 with false; the intended skip refuses it. */
  lemma SkipAsWrittenUnknownWireType()
    ensures SkipAsWritten([], Cursor(0, 0, 0, 0), 6) == Ok((false, 0))
    ensures Skip([], Cursor(0, 0, 0, 0), 6) == Err(InvalidWireType)
  {
  }

  /**
   * Everywhere else the source's skipField does what the intended one
   * does: on the wire types it handles correctly, and on a
   * length-delimited value whose length is not negative.
   */
  lemma SkipAsWrittenAgrees(buf: seq<byte>, c: Cursor, tag: int)
    requires GetTagWireType(tag) != WIRETYPE_FIXED16 && GetTagWireType(tag) <= WIRETYPE_FIXED32
    requires GetTagWireType(tag) == WIRETYPE_LENGTH_DELIMITED ==> !(Varint32(buf, c).Ok? && Varint32(buf, c).value.0 < 0)
    ensures SkipAsWritten(buf, c, tag) ==
      match Skip(buf, c, tag)
      case Ok((b, c')) => Ok((b, c'.offset))
      case Err(e) => Err(e)
  {
  }

  // ---------------------------------------------------------------------
  // Collections: the element readers are callbacks into generated code,
  // modelled as functions from the buffer and the cursor to a read.
  // ---------------------------------------------------------------------

  type Reader<T> = (seq<byte>, Cursor) -> Read<T>

  /**
   * An element reader that succeeds moves the offset forward and stays
   * within the array; without this the source's do-while loops need not
   * end.
   */
  ghost predicate Advances<T>(reader: Reader<T>)
  {
    forall buf, c :: reader(buf, c).Ok? ==> c.offset < reader(buf, c).value.1.offset <= |buf|
  }

  /**
   * The do-while loop of readList, readSet and readMap: one element, then
   * more while the offset is below the packed limit.
   */
  function Elements<T>(reader: Reader<T>, buf: seq<byte>, c: Cursor): (r: Read<seq<T>>)
    requires Advances(reader)
    ensures r.Ok? ==> |r.value.0| >= 1 && c.offset < r.value.1.offset <= |buf|
    ensures r.Ok? ==> r.value.1.offset >= r.value.1.packedLimit
    decreases |buf| - c.offset
  {
    match reader(buf, c)
    case Err(e) => Err(e)
    case Ok((x, c1)) =>
      if c1.offset < c1.packedLimit then Prepend([x], Elements(reader, buf, c1))
      else Ok(([x], c1))
  }

  /** readArray's loop: exactly `n` elements. */
  function Repeat<T>(reader: Reader<T>, buf: seq<byte>, c: Cursor, n: nat): (r: Read<seq<T>>)
    ensures r.Ok? ==> |r.value.0| == n
    decreases n
  {
    if n == 0 then Ok(([], c))
    else
      match reader(buf, c)
      case Err(e) => Err(e)
      case Ok((x, c1)) => Prepend([x], Repeat(reader, buf, c1, n - 1))
  }

  /** `keyReader.call(input)` then `valueReader.call(input)`. */
  function Paired<K, V>(keys: Reader<K>, values: Reader<V>): (r: Reader<(K, V)>)
    ensures Advances(keys) && Advances(values) ==> Advances(r)
  {
    (buf: seq<byte>, c: Cursor) =>
      match keys(buf, c)
      case Err(e) => Err(e)
      case Ok((k, c1)) =>
        match values(buf, c1)
        case Err(e) => Err(e)
        case Ok((v, c2)) => Ok(((k, v), c2))
  }

  /** `new Map()` with `set(k, v)` for each pair in turn: a later pair replaces an earlier one. */
  function MapOf<K, V>(pairs: seq<(K, V)>): map<K, V>
  {
    if |pairs| == 0 then map[]
    else MapOf(pairs[..|pairs| - 1])[pairs[|pairs| - 1].0 := pairs[|pairs| - 1].1]
  }

  /** A key is in the map exactly when some pair carries it. */
  lemma {:induction false} MapOfKeys<K, V>(pairs: seq<(K, V)>, k: K)
    ensures k in MapOf(pairs) <==> exists i :: 0 <= i < |pairs| && pairs[i].0 == k
  {
    if |pairs| > 0 {
      var n := |pairs| - 1;
      MapOfKeys(pairs[..n], k);
      if k != pairs[n].0 && k in MapOf(pairs) {
        var i :| 0 <= i < n && pairs[..n][i].0 == k;
        assert pairs[i].0 == k;
      }
      if k != pairs[n].0 && (exists i :: 0 <= i < |pairs| && pairs[i].0 == k) {
        var i :| 0 <= i < |pairs| && pairs[i].0 == k;
        assert pairs[..n][i].0 == k;
      }
    }
  }

  /** The value a key maps to is the one of the last pair that carries it. */
  lemma {:induction false} MapOfLastWins<K, V>(pairs: seq<(K, V)>, i: nat)
    requires i < |pairs|
    requires forall j :: i < j < |pairs| ==> pairs[j].0 != pairs[i].0
    ensures pairs[i].0 in MapOf(pairs) && MapOf(pairs)[pairs[i].0] == pairs[i].1
  {
    var n := |pairs| - 1;
    if i < n {
      assert pairs[..n][i] == pairs[i];
      MapOfLastWins(pairs[..n], i);
      assert pairs[n].0 != pairs[i].0;
    }
  }

  /** `new Set()` with `add(x)` for each element. */
  function SetOf<T>(xs: seq<T>): set<T>
  {
    set i | 0 <= i < |xs| :: xs[i]
  }

  /** readList: the packed check, then the do-while loop. */
  function ListOf<T>(reader: Reader<T>, buf: seq<byte>, c: Cursor): Read<seq<T>>
    requires Advances(reader)
  {
    Checked(PackedCheck(buf, c), c1 => Elements(reader, buf, c1))
  }

  /**
   * readArray: a count read with readI32 (a negative count makes
   * `new Array` throw), then exactly that many elements.
   */
  function ArrayOf<T>(reader: Reader<T>, buf: seq<byte>, c: Cursor): Read<seq<T>>
  {
    match Checked(PackedCheck(buf, c), c1 => Varint32(buf, c1))
    case Err(e) => Err(e)
    case Ok((len, c1)) => if len < 0 then Err(InvalidArrayLength) else Repeat(reader, buf, c1, len)
  }

  lemma SetOfSnoc<T>(xs: seq<T>, x: T)
    ensures SetOf(xs + [x]) == SetOf(xs) + {x}
  {
    var ys := xs + [x];
    assert ys[|xs|] == x;
    forall y | y in SetOf(xs) ensures y in SetOf(ys) {
      var i :| 0 <= i < |xs| && xs[i] == y;
      assert ys[i] == y;
    }
  }

  // ---------------------------------------------------------------------
  // The reader
  // ---------------------------------------------------------------------

  class ProtobjInput {
    const buffer: seq<byte>
    var offset: nat
    var limit: int
    var lastTag: int
    var packedLimit: int

    function State(): Cursor
      reads this
    {
      Cursor(offset, limit, lastTag, packedLimit)
    }

    /** `new ProtobjInput(buffer, offset, len)`: reading starts at `offset` and stops `len` bytes on. */
    constructor (buffer: seq<byte>, offset: nat, len: int)
      ensures this.buffer == buffer && State() == Cursor(offset, offset + len, 0, 0)
    {
      this.buffer := buffer;
      this.offset := offset;
      this.limit := offset + len;
      this.lastTag := 0;
      this.packedLimit := 0;
    }

    /** reset: a new window of `len` bytes from `offset`; a negative length is refused. */
    method Reset(offset: nat, len: int) returns (r: Result<()>)
      modifies this
      ensures len < 0 <==> r.Err?
      ensures r.Ok? ==> State() == Cursor(offset, offset + len, old(lastTag), 0)
    {
      if len < 0 {
        return Err(NegativeLength);
      }
      this.offset := offset;
      this.limit := offset + len;
      this.packedLimit := 0;
      return Ok(());
    }

    /** setBounds: a new window from `offset` to `limit`. */
    method SetBounds(offset: nat, limit: int)
      modifies this
      ensures State() == Cursor(offset, limit, old(lastTag), 0)
    {
      this.offset := offset;
      this.limit := limit;
      this.packedLimit := 0;
    }

    /** isCurrentFieldPacked: a packed field is open and not yet exhausted. */
    predicate IsCurrentFieldPacked()
      reads this
    {
      packedLimit != 0 && packedLimit != offset
    }

    /**
     * readRawVarint32: up to four groups of seven bits, a fifth byte
     * shifted by 28, then up to five more bytes discarded.
     */
    method ReadRawVarint32() returns (r: Result<i32>)
      modifies this
      ensures Outcome(r, State(), Varint32(buffer, old(State())))
    {
      var pos := offset;
      var k := 0;
      var result := 0;
      ghost var spec := Varints.DecodeGroups32(buffer, pos, k, result);
      while k < 4
        invariant k <= 4 && pos == offset + k && State() == old(State())
        invariant spec == Varints.DecodeGroups32(buffer, pos, k, result)
      {
        if pos >= |buffer| {
          return Err(TruncatedMessage);
        }
        var tmp := buffer[pos];
        if tmp < 128 {
          var x := result + Varints.Shift7(tmp, k);
          Varints.UnfoldLastGroup(buffer, pos, k, result, x);
          offset := pos + 1;
          return Ok(ToI32(x));
        }
        var g: nat := tmp - 128;
        var result' := result + Varints.Shift7(g, k);
        Varints.GroupStep32(buffer, pos, k, result, result');
        pos := pos + 1;
        result := result';
        k := k + 1;
      }
      if pos >= |buffer| {
        return Err(TruncatedMessage);
      }
      var tmp := buffer[pos];
      var x := result + Varints.Shift7(tmp, 4);
      var word := ToI32(x);
      if tmp < 128 {
        Varints.UnfoldLastGroup(buffer, pos, 4, result, x);
        offset := pos + 1;
        return Ok(word);
      }
      Varints.FifthStep32(buffer, pos, result);
      offset := pos + 1;
      r := DiscardUpper(word);
    }

    /** The "discard upper 32 bits" loop of readRawVarint32: `word` is the result once a byte below 128 comes. */
    method DiscardUpper(word: i32) returns (r: Result<i32>)
      modifies this
      ensures match Varints.DiscardUpper(buffer, old(offset), 5)
        case Ok(p) => r == Ok(word) && offset == p
        case Err(e) => r == Err(e)
      ensures limit == old(limit) && lastTag == old(lastTag) && packedLimit == old(packedLimit)
    {
      var pos := offset;
      var i := 0;
      while i < 5
        invariant i <= 5 && pos == offset + i && State() == old(State())
        invariant Varints.DiscardUpper(buffer, offset, 5) == Varints.DiscardUpper(buffer, pos, 5 - i)
      {
        if pos >= |buffer| {
          return Err(TruncatedMessage);
        }
        if buffer[pos] < 128 {
          offset := pos + 1;
          return Ok(word);
        }
        Varints.DiscardStep(buffer, pos, 5 - i);
        pos := pos + 1;
        i := i + 1;
      }
      return Err(MalformedVarint);
    }

    /**
     * readRawVarint64. With more than four bytes before `limit` the fast
     * route reads the low word without bounds checks; otherwise the short
     * route reads at most four bytes.
     */
    method ReadRawVarint64() returns (r: Result<Pair>)
      modifies this
      ensures Outcome(r, State(), Varint64(buffer, old(State())))
    {
      if limit - offset > 4 {
        r := LowWord();
      } else {
        r := ShortTail();
      }
    }

    /** The fast route of readRawVarint64: four groups, then the fifth byte split 4/3 between the words. */
    method LowWord() returns (r: Result<Pair>)
      modifies this
      ensures Outcome(r, State(), Moved(Varints.LowFast(buffer, old(offset), old(limit), 0, 0), old(State())))
    {
      var pos := offset;
      var lo: nat := 0;
      var i := 0;
      while i < 4
        invariant i <= 4 && lo < Varints.Shift7(1, i) && pos == offset + i && State() == old(State())
        invariant Varints.LowFast(buffer, offset, limit, 0, 0) == Varints.LowFast(buffer, pos, limit, i, lo)
      {
        if pos >= |buffer| {
          return Err(TruncatedMessage);
        }
        var g: nat := buffer[pos] % 128;
        Varints.GroupBound(lo, g, i);
        Varints.PowMono(i + 1, 4);
        Varints.ShiftValues(1);
        var lo': nat := lo + Varints.Shift7(g, i);
        Varints.FastGroup(buffer, pos, limit, i, lo, lo');
        if buffer[pos] < 128 {
          offset := pos + 1;
          return Ok(Pair(lo', 0));
        }
        lo := lo';
        pos := pos + 1;
        i := i + 1;
      }
      if pos >= |buffer| {
        return Err(TruncatedMessage);
      }
      var g: nat := buffer[pos] % 128;
      Varints.ShiftValues(1);
      var low: u32 := lo + (g % 16) * 0x1000_0000;
      Varints.FastFifth(buffer, pos, limit, lo, low, g / 16);
      if buffer[pos] < 128 {
        offset := pos + 1;
        return Ok(Pair(low, g / 16));
      }
      r := HighWord(pos + 1, low, g / 16);
    }

    /** The short route of readRawVarint64: three groups checked against `limit`, then a fourth byte whatever its top bit. */
    method ShortTail() returns (r: Result<Pair>)
      modifies this
      ensures Outcome(r, State(), Moved(Varints.LowSlow(buffer, old(offset), old(limit), 0, 0), old(State())))
    {
      var pos := offset;
      var lo: nat := 0;
      var i := 0;
      while i < 3
        invariant i <= 3 && lo < Varints.Shift7(1, i) && pos == offset + i && State() == old(State())
        invariant Varints.LowSlow(buffer, offset, limit, 0, 0) == Varints.LowSlow(buffer, pos, limit, i, lo)
      {
        if pos >= limit {
          return Err(MisreportedSize);
        }
        if pos >= |buffer| {
          return Err(TruncatedMessage);
        }
        var g: nat := buffer[pos] % 128;
        Varints.GroupBound(lo, g, i);
        Varints.PowMono(i + 1, 4);
        Varints.ShiftValues(1);
        var lo': nat := lo + Varints.Shift7(g, i);
        Varints.SlowGroup(buffer, pos, limit, i, lo, lo');
        if buffer[pos] < 128 {
          offset := pos + 1;
          return Ok(Pair(lo', 0));
        }
        lo := lo';
        pos := pos + 1;
        i := i + 1;
      }
      if pos >= |buffer| {
        return Err(TruncatedMessage);
      }
      var g: nat := buffer[pos] % 128;
      Varints.GroupBound(lo, g, 3);
      Varints.ShiftValues(1);
      var lo': nat := lo + Varints.Shift7(g, 3);
      Varints.SlowGroup(buffer, pos, limit, 3, lo, lo');
      offset := pos + 1;
      return Ok(Pair(lo', 0));
    }

    /**
     * The high word of readRawVarint64: groups 6 to 10 at bit 7i + 3,
     * checking `limit` before each byte when four or fewer bytes remain.
     */
    method HighWord(start: nat, lo: u32, hi0: nat) returns (r: Result<Pair>)
      requires hi0 < 8
      modifies this
      ensures Outcome(r, State(), Moved(Varints.HighLoop(buffer, start, old(limit), 0, lo, hi0, old(limit) - start <= 4), old(State())))
    {
      var checked := limit - start <= 4;
      var pos := start;
      var hi: nat := hi0;
      var i: nat := 0;
      while i < 5
        invariant i <= 5 && hi < 8 * Varints.Shift7(1, i) && pos == start + i && State() == old(State())
        invariant Varints.HighLoop(buffer, start, limit, 0, lo, hi0, checked) == Varints.HighLoop(buffer, pos, limit, i, lo, hi, checked)
      {
        if checked && pos >= limit {
          return Err(MisreportedSize);
        }
        if pos >= |buffer| {
          return Err(TruncatedMessage);
        }
        var g: nat := buffer[pos] % 128;
        var hi': nat := if i < 4 then hi + 8 * Varints.Shift7(g, i) else hi + (g % 2) * TWO_31;
        Varints.HighGroup(buffer, pos, limit, i, lo, hi, hi', checked);
        if buffer[pos] < 128 {
          offset := pos + 1;
          return Ok(Pair(lo, hi'));
        }
        hi := hi';
        pos := pos + 1;
        i := i + 1;
      }
      return Err(MalformedVarint);
    }

    /** readRawLittleEndian16: two bytes, the first the low one. */
    method ReadRawLittleEndian16() returns (r: Result<int>)
      modifies this
      ensures Outcome(r, State(), Fixed16(buffer, old(State())))
    {
      if offset + 2 > |buffer| {
        return Err(TruncatedMessage);
      }
      var b := buffer[offset..offset + 2];
      offset := offset + 2;
      return Ok(FromLE16(b));
    }

    /** readRawLittleEndian32: four bytes, the first the lowest. */
    method ReadRawLittleEndian32() returns (r: Result<i32>)
      modifies this
      ensures Outcome(r, State(), Fixed32(buffer, old(State())))
    {
      if offset + 4 > |buffer| {
        return Err(TruncatedMessage);
      }
      var b := buffer[offset..offset + 4];
      offset := offset + 4;
      return Ok(FromLE32(b));
    }

    /** readRawLittleEndian64: eight bytes, the low word first. */
    method ReadRawLittleEndian64() returns (r: Result<Pair>)
      modifies this
      ensures Outcome(r, State(), Fixed64(buffer, old(State())))
    {
      if offset + 8 > |buffer| {
        return Err(TruncatedMessage);
      }
      var b := buffer[offset..offset + 8];
      offset := offset + 8;
      return Ok(FromLE64(b));
    }

    /** readI8_NoCheck and readU8_NoCheck: `buffer[this.offset++]`. */
    method ReadI8NoCheck() returns (r: Result<byte>)
      modifies this
      ensures Outcome(r, State(), ByteAt(buffer, old(State())))
    {
      if offset >= |buffer| {
        return Err(TruncatedMessage);
      }
      r := Ok(buffer[offset]);
      offset := offset + 1;
    }

    /** readBOOL_NoCheck. */
    method ReadBOOLNoCheck() returns (r: Result<bool>)
      modifies this
      ensures Outcome(r, State(), Bool(buffer, old(State())))
    {
      if offset >= |buffer| {
        return Err(TruncatedMessage);
      }
      r := Ok(buffer[offset] != 0);
      offset := offset + 1;
    }

    /** readS32_NoCheck. */
    method ReadS32NoCheck() returns (r: Result<i32>)
      modifies this
      ensures Outcome(r, State(), S32(buffer, old(State())))
    {
      var n := ReadRawVarint32();
      if n.Err? {
        return Err(n.error);
      }
      return Ok(ToI32(DecodeZigZag32(ToU32(n.value))));
    }

    /** readS64_NoCheck. */
    method ReadS64NoCheck() returns (r: Result<Pair>)
      modifies this
      ensures Outcome(r, State(), S64(buffer, old(State())))
    {
      var n := ReadRawVarint64();
      if n.Err? {
        return Err(n.error);
      }
      return Ok(DecodeZigZag64(n.value));
    }

    /** checkIfPackedField. */
    method CheckIfPackedField() returns (r: Result<()>)
      modifies this
      ensures match PackedCheck(buffer, old(State()))
        case Ok(c) => r.Ok? && State() == c
        case Err(e) => r == Err(e)
    {
      if packedLimit == 0 && GetTagWireType(lastTag) == WIRETYPE_LENGTH_DELIMITED {
        var length := ReadRawVarint32();
        if length.Err? {
          return Err(length.error);
        }
        if length.value < 0 {
          return Err(NegativeSize);
        }
        if offset + length.value > limit {
          return Err(MisreportedSize);
        }
        packedLimit := offset + length.value;
      }
      return Ok(());
    }

    /** readBOOL. */
    method ReadBOOL() returns (r: Result<bool>)
      modifies this
      ensures Outcome(r, State(), Checked(PackedCheck(buffer, old(State())), c => Bool(buffer, c)))
    {
      var ok := CheckIfPackedField();
      if ok.Err? {
        return Err(ok.error);
      }
      r := ReadBOOLNoCheck();
    }

    /** readI8 and readU8. */
    method ReadI8() returns (r: Result<byte>)
      modifies this
      ensures Outcome(r, State(), Checked(PackedCheck(buffer, old(State())), c => ByteAt(buffer, c)))
    {
      var ok := CheckIfPackedField();
      if ok.Err? {
        return Err(ok.error);
      }
      r := ReadI8NoCheck();
    }

    /** readI16 and readU16. */
    method ReadI16() returns (r: Result<int>)
      modifies this
      ensures Outcome(r, State(), Checked(PackedCheck(buffer, old(State())), c => Fixed16(buffer, c)))
    {
      var ok := CheckIfPackedField();
      if ok.Err? {
        return Err(ok.error);
      }
      r := ReadRawLittleEndian16();
    }

    /** readI32 and readU32. */
    method ReadI32() returns (r: Result<i32>)
      modifies this
      ensures Outcome(r, State(), Checked(PackedCheck(buffer, old(State())), c => Varint32(buffer, c)))
    {
      var ok := CheckIfPackedField();
      if ok.Err? {
        return Err(ok.error);
      }
      r := ReadRawVarint32();
    }

    /** readS32. */
    method ReadS32() returns (r: Result<i32>)
      modifies this
      ensures Outcome(r, State(), Checked(PackedCheck(buffer, old(State())), c => S32(buffer, c)))
    {
      var ok := CheckIfPackedField();
      if ok.Err? {
        return Err(ok.error);
      }
      r := ReadS32NoCheck();
    }

    /** readI64 and readU64. */
    method ReadI64() returns (r: Result<Pair>)
      modifies this
      ensures Outcome(r, State(), Checked(PackedCheck(buffer, old(State())), c => Varint64(buffer, c)))
    {
      var ok := CheckIfPackedField();
      if ok.Err? {
        return Err(ok.error);
      }
      r := ReadRawVarint64();
    }

    /** readS64. */
    method ReadS64() returns (r: Result<Pair>)
      modifies this
      ensures Outcome(r, State(), Checked(PackedCheck(buffer, old(State())), c => S64(buffer, c)))
    {
      var ok := CheckIfPackedField();
      if ok.Err? {
        return Err(ok.error);
      }
      r := ReadS64NoCheck();
    }

    /** readF32, readSF32 and readFLOAT: the 32-bit word (readFLOAT reinterprets it as a float). */
    method ReadF32() returns (r: Result<i32>)
      modifies this
      ensures Outcome(r, State(), Checked(PackedCheck(buffer, old(State())), c => Fixed32(buffer, c)))
    {
      var ok := CheckIfPackedField();
      if ok.Err? {
        return Err(ok.error);
      }
      r := ReadRawLittleEndian32();
    }

    /** readF64, readSF64 and readDOUBLE: the 64-bit word (readDOUBLE reinterprets it as a double). */
    method ReadF64() returns (r: Result<Pair>)
      modifies this
      ensures Outcome(r, State(), Checked(PackedCheck(buffer, old(State())), c => Fixed64(buffer, c)))
    {
      var ok := CheckIfPackedField();
      if ok.Err? {
        return Err(ok.error);
      }
      r := ReadRawLittleEndian64();
    }

    /** readFieldNumber. */
    method ReadFieldNumber() returns (r: Result<int>)
      modifies this
      ensures Outcome(r, State(), FieldNumber(buffer, old(State())))
    {
      if offset == limit {
        lastTag := 0;
        return Ok(0);
      }
      packedLimit := 0;
      var tag := ReadRawVarint32();
      if tag.Err? {
        return Err(tag.error);
      }
      var fieldNumber := GetTagFieldNumber(tag.value);
      if fieldNumber == 0 {
        return Err(InvalidTag);
      }
      lastTag := tag.value;
      return Ok(fieldNumber);
    }

    /** readBytes: a copy of the field's bytes. */
    method ReadBytes() returns (r: Result<seq<byte>>)
      modifies this
      ensures Outcome(r, State(), LengthDelimited(buffer, old(State())))
    {
      var length := ReadRawVarint32();
      if length.Err? {
        return Err(length.error);
      }
      if length.value < 0 {
        return Err(NegativeSize);
      }
      if offset + length.value > limit {
        return Err(MisreportedSize);
      }
      r := Ok(Slice(buffer, offset, offset + length.value));
      offset := offset + length.value;
    }

    /**
     * readSTRING (and readSTRING_NoCheck): the same checks as readBytes;
     * the bytes are handed to a UTF-8 decoder that is not part of this
     * model, so the result here is the byte range it decodes.
     */
    method ReadSTRING() returns (r: Result<seq<byte>>)
      modifies this
      ensures Outcome(r, State(), LengthDelimited(buffer, old(State())))
    {
      var length := ReadRawVarint32();
      if length.Err? {
        return Err(length.error);
      }
      if length.value < 0 {
        return Err(NegativeSize);
      }
      if offset + length.value > limit {
        return Err(MisreportedSize);
      }
      var from := offset;
      offset := offset + length.value;
      r := Ok(Slice(buffer, from, offset));
    }

    /** readMessageStart: returns the limit to restore. */
    method ReadMessageStart() returns (r: Result<int>)
      modifies this
      ensures Outcome(r, State(), MessageStart(buffer, old(State())))
    {
      var length := ReadRawVarint32();
      if length.Err? {
        return Err(length.error);
      }
      if length.value < 0 {
        return Err(NegativeSize);
      }
      var oldLimit := limit;
      limit := offset + length.value;
      packedLimit := limit;
      return Ok(oldLimit);
    }

    /** readMessageStop. */
    method ReadMessageStop(oldLimit: int) returns (r: Result<()>)
      modifies this
      ensures match MessageStop(old(State()), oldLimit)
        case Ok(c) => r.Ok? && State() == c
        case Err(e) => r == Err(e)
    {
      if offset != limit {
        return Err(MisreportedSize);
      }
      limit := oldLimit;
      lastTag := 0;
      return Ok(());
    }

    /** skipField, with the FIXED16 answer and the two error cases as the source evidently intends. */
    method SkipField(tag: int) returns (r: Result<bool>)
      modifies this
      ensures Outcome(r, State(), Skip(buffer, old(State()), tag))
    {
      var w := GetTagWireType(tag);
      if w == WIRETYPE_VARINT {
        var v := ReadI32();
        if v.Err? {
          return Err(v.error);
        }
        return Ok(true);
      } else if w == WIRETYPE_FIXED64 {
        var v := ReadRawLittleEndian64();
        if v.Err? {
          return Err(v.error);
        }
        return Ok(true);
      } else if w == WIRETYPE_LENGTH_DELIMITED {
        var size := ReadRawVarint32();
        if size.Err? {
          return Err(size.error);
        }
        if size.value < 0 {
          return Err(NegativeSize);
        }
        offset := offset + size.value;
        return Ok(true);
      } else if w == WIRETYPE_FIXED8 {
        var v := ReadI8();
        if v.Err? {
          return Err(v.error);
        }
        return Ok(true);
      } else if w == WIRETYPE_FIXED16 {
        var v := ReadI16();
        if v.Err? {
          return Err(v.error);
        }
        return Ok(true);
      } else if w == WIRETYPE_FIXED32 {
        var v := ReadRawLittleEndian32();
        if v.Err? {
          return Err(v.error);
        }
        return Ok(true);
      } else {
        return Err(InvalidWireType);
      }
    }

    /** handleUnknownField: skip the field whose tag was read last. */
    method HandleUnknownField(fieldNumber: int) returns (r: Result<bool>)
      modifies this
      ensures Outcome(r, State(), Skip(buffer, old(State()), old(lastTag)))
    {
      r := SkipField(lastTag);
    }

    /**
     * One call of an element reader: the callback reads through this
     * input, so its effect is a new cursor.
     */
    method Call<T>(reader: Reader<T>) returns (r: Result<T>)
      modifies this
      ensures Outcome(r, State(), reader(buffer, old(State())))
    {
      match reader(buffer, State())
      case Err(e) =>
        return Err(e);
      case Ok((x, c)) =>
        offset, limit, lastTag, packedLimit := c.offset, c.limit, c.lastTag, c.packedLimit;
        return Ok(x);
    }

    /** readList: after the packed check, one element, then more while within the packed field. */
    method ReadList<T>(reader: Reader<T>) returns (r: Result<seq<T>>)
      requires Advances(reader)
      modifies this
      ensures Outcome(r, State(), ListOf(reader, buffer, old(State())))
    {
      var ok := CheckIfPackedField();
      if ok.Err? {
        return Err(ok.error);
      }
      r := ElementLoop(reader);
    }

    /** The do-while loop of readList. */
    method ElementLoop<T>(reader: Reader<T>) returns (r: Result<seq<T>>)
      requires Advances(reader)
      modifies this
      ensures Outcome(r, State(), Elements(reader, buffer, old(State())))
    {
      var value: seq<T> := [];
      while true
        invariant Elements(reader, buffer, old(State())) == Prepend(value, Elements(reader, buffer, State()))
        decreases |buffer| - offset
      {
        ghost var c := State();
        var x := Call(reader);
        if x.Err? {
          return Err(x.error);
        }
        ghost var c1 := State();
        assert reader(buffer, c) == Ok((x.value, c1));
        PrependTwice(value, [x.value], Elements(reader, buffer, c1));
        value := value + [x.value];
        if offset >= packedLimit {
          return Ok(value);
        }
      }
    }

    /** readSet: the loop of readList, adding each element to a set. */
    method ReadSet<T(==)>(reader: Reader<T>) returns (r: Result<set<T>>)
      requires Advances(reader)
      modifies this
      ensures match ListOf(reader, buffer, old(State()))
        case Ok((xs, c)) => r == Ok(SetOf(xs)) && State() == c
        case Err(e) => r == Err(e)
    {
      var ok := CheckIfPackedField();
      if ok.Err? {
        return Err(ok.error);
      }
      ghost var c0 := State();
      var value: set<T> := {};
      ghost var xs: seq<T> := [];
      while true
        invariant value == SetOf(xs)
        invariant Elements(reader, buffer, c0) == Prepend(xs, Elements(reader, buffer, State()))
        decreases |buffer| - offset
      {
        ghost var c := State();
        var x := Call(reader);
        if x.Err? {
          return Err(x.error);
        }
        ghost var c1 := State();
        assert reader(buffer, c) == Ok((x.value, c1));
        PrependTwice(xs, [x.value], Elements(reader, buffer, c1));
        SetOfSnoc(xs, x.value);
        value := value + {x.value};
        xs := xs + [x.value];
        if offset >= packedLimit {
          return Ok(value);
        }
      }
    }

    /** readMap: the loop of readList over key-value pairs, each set into a map. */
    method ReadMap<K(==), V>(keys: Reader<K>, values: Reader<V>) returns (r: Result<map<K, V>>)
      requires Advances(keys) && Advances(values)
      modifies this
      ensures match ListOf(Paired(keys, values), buffer, old(State()))
        case Ok((pairs, c)) => r == Ok(MapOf(pairs)) && State() == c
        case Err(e) => r == Err(e)
    {
      var ok := CheckIfPackedField();
      if ok.Err? {
        return Err(ok.error);
      }
      ghost var reader := Paired(keys, values);
      ghost var c0 := State();
      var value: map<K, V> := map[];
      ghost var pairs: seq<(K, V)> := [];
      while true
        invariant value == MapOf(pairs)
        invariant Elements(reader, buffer, c0) == Prepend(pairs, Elements(reader, buffer, State()))
        decreases |buffer| - offset
      {
        ghost var c := State();
        var k := Call(keys);
        if k.Err? {
          return Err(k.error);
        }
        var v := Call(values);
        if v.Err? {
          return Err(v.error);
        }
        ghost var c1 := State();
        assert reader(buffer, c) == Ok(((k.value, v.value), c1));
        PrependTwice(pairs, [(k.value, v.value)], Elements(reader, buffer, c1));
        assert (pairs + [(k.value, v.value)])[..|pairs|] == pairs;
        value := value[k.value := v.value];
        pairs := pairs + [(k.value, v.value)];
        if offset >= packedLimit {
          return Ok(value);
        }
      }
    }

    /** readArray. */
    method ReadArray<T>(reader: Reader<T>) returns (r: Result<seq<T>>)
      modifies this
      ensures Outcome(r, State(), ArrayOf(reader, buffer, old(State())))
    {
      var len := ReadI32();
      if len.Err? {
        return Err(len.error);
      }
      if len.value < 0 {
        return Err(InvalidArrayLength);
      }
      ghost var c1 := State();
      var values: seq<T> := [];
      var i := 0;
      while i < len.value
        invariant 0 <= i <= len.value
        invariant Repeat(reader, buffer, c1, len.value) == Prepend(values, Repeat(reader, buffer, State(), len.value - i))
      {
        var x := Call(reader);
        if x.Err? {
          return Err(x.error);
        }
        PrependTwice(values, [x.value], Repeat(reader, buffer, State(), len.value - i - 1));
        values := values + [x.value];
        i := i + 1;
      }
      assert values + [] == values;
      return Ok(values);
    }
  }
}
