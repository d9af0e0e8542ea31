/**
 * The UTF-8 bytes the string writer produces for a string of UTF-16 code
 * units, one character at a time, as `writeUTF8_5` and `writeUTF8_8` branch:
 * a unit below 0x80 is one byte, below 0x800 two bytes, a high surrogate
 * followed by a low surrogate is the four-byte form of the pair's code point
 * (section 3 of RFC 3629), and any other unit, a lone surrogate included,
 * is three bytes.
 *
 * Which units count as surrogates is a parameter: `Intended` uses the
 * ranges 0xD800..0xDBFF and 0xDC00..0xDFFF, `AsWritten` the source's
 * NaN bounds, under which no pair is ever formed.
 */
module Utf8 {
  import opened Bytes
  import opened Extension
  import opened Wrappers

  datatype SurrogateTest = Intended | AsWritten

  predicate IsHigh(t: SurrogateTest, ch: int)
  {
    if t == Intended then IsHighSurrogate(ch) else IsHighSurrogateAsWritten(ch)
  }

  predicate IsLow(t: SurrogateTest, ch: int)
  {
    if t == Intended then IsLowSurrogate(ch) else IsLowSurrogateAsWritten(ch)
  }

  /** `isHighSurrogate(c) && i < len && isLowSurrogate(str.charCodeAt(i))`, with `c` the unit at `i`. */
  predicate PairAt(t: SurrogateTest, s: seq<Unit>, i: nat)
  {
    i + 1 < |s| && IsHigh(t, s[i]) && IsLow(t, s[i + 1])
  }

  /** The encoding of a unit that is not the start of a pair. */
  function UnitBytes(c: Unit): (r: seq<byte>)
    ensures 1 <= |r| <= 3
    ensures |r| == 1 <==> c < 0x80
  {
    if c < 0x80 then [c]
    else if c < 0x800 then [0xC0 + (c / 0x40) % 0x20, 0x80 + c % 0x40]
    else [0xE0 + (c / 0x1000) % 0x10, 0x80 + (c / 0x40) % 0x40, 0x80 + c % 0x40]
  }

  /** The four-byte encoding of a supplementary code point. */
  function PairBytes(cp: int): (r: seq<byte>)
    requires MIN_SUPPLEMENTARY_CODE_POINT <= cp <= 0x10_FFFF
    ensures |r| == 4
  {
    [0xF0 + (cp / 0x4_0000) % 0x8, 0x80 + (cp / 0x1000) % 0x40, 0x80 + (cp / 0x40) % 0x40, 0x80 + cp % 0x40]
  }

  /** Number of units the character at `i` occupies. */
  function Width(t: SurrogateTest, s: seq<Unit>, i: nat): (w: nat)
    ensures w == 1 || w == 2
  {
    if PairAt(t, s, i) then 2 else 1
  }

  function CharBytes(t: SurrogateTest, s: seq<Unit>, i: nat): (r: seq<byte>)
    requires i < |s|
    requires t == AsWritten ==> !PairAt(t, s, i)
    ensures Width(t, s, i) <= |r| <= 3 * Width(t, s, i)
  {
    if PairAt(t, s, i) then PairBytes(ToCodePoint(s[i], s[i + 1])) else UnitBytes(s[i])
  }

  /** The bytes written for the units from `i` on. */
  function EncodeFrom(t: SurrogateTest, s: seq<Unit>, i: nat): seq<byte>
    decreases |s| - i
  {
    if i >= |s| then []
    else
      SurrogateTestsAsWrittenNeverHold(s[i]);
      CharBytes(t, s, i) + EncodeFrom(t, s, i + Width(t, s, i))
  }

  /** The UTF-8 encoding of a whole string. */
  function Encode(s: seq<Unit>): seq<byte>
  {
    EncodeFrom(Intended, s, 0)
  }

  /** What a string costs: at least a byte and at most three bytes per unit. */
  lemma {:induction false} EncodeFromBounds(t: SurrogateTest, s: seq<Unit>, i: nat)
    requires i <= |s|
    ensures |s| - i <= |EncodeFrom(t, s, i)| <= 3 * (|s| - i)
    decreases |s| - i
  {
    if i < |s| {
      SurrogateTestsAsWrittenNeverHold(s[i]);
      EncodeFromBounds(t, s, i + Width(t, s, i));
    }
  }

  lemma EncodeBounds(s: seq<Unit>)
    ensures |s| <= |Encode(s)| <= 3 * |s|
  {
    EncodeFromBounds(Intended, s, 0);
  }

  /** The empty string has no bytes; a non-empty one has some. */
  lemma EncodeEmpty(s: seq<Unit>)
    ensures |Encode(s)| == 0 <==> |s| == 0
  {
    EncodeBounds(s);
  }

  /** A unit without a surrogate partner and at least 0x800 costs exactly three bytes. */
  predicate ThreeByteUnit(c: Unit)
  {
    0x800 <= c && !IsHighSurrogate(c)
  }

  lemma {:induction false} EncodeFromThreeBytes(s: seq<Unit>, i: nat)
    requires i <= |s|
    requires forall k :: i <= k < |s| ==> ThreeByteUnit(s[k])
    ensures |EncodeFrom(Intended, s, i)| == 3 * (|s| - i)
    decreases |s| - i
  {
    if i < |s| {
      EncodeFromThreeBytes(s, i + 1);
    }
  }

  // ---------------------------------------------------------------------
  // A reference decoder: the encoding loses nothing.
  // ---------------------------------------------------------------------

  predicate Continuation(b: byte)
  {
    0x80 <= b < 0xC0
  }

  /**
   * UTF-8 decoding into UTF-16 units; three-byte forms of surrogates are
   * accepted, since the writer produces them for lone surrogates.
   */
  function Decode(b: seq<byte>): (r: Option<seq<Unit>>)
    decreases |b|
  {
    if |b| == 0 then Some([])
    else if b[0] < 0x80 then
      var rest := Decode(b[1..]);
      if rest.Some? then Some([b[0] as Unit] + rest.value) else None
    else if 0xC0 <= b[0] < 0xE0 && |b| >= 2 && Continuation(b[1]) then
      var rest := Decode(b[2..]);
      if rest.Some? then Some([(b[0] as int % 0x20) * 0x40 + b[1] as int % 0x40] + rest.value) else None
    else if 0xE0 <= b[0] < 0xF0 && |b| >= 3 && Continuation(b[1]) && Continuation(b[2]) then
      var rest := Decode(b[3..]);
      if rest.Some? then Some([(b[0] as int % 0x10) * 0x1000 + (b[1] as int % 0x40) * 0x40 + b[2] as int % 0x40] + rest.value) else None
    else if 0xF0 <= b[0] < 0xF8 && |b| >= 4 && Continuation(b[1]) && Continuation(b[2]) && Continuation(b[3]) then
      var cp := (b[0] as int % 0x8) * 0x4_0000 + (b[1] as int % 0x40) * 0x1000 + (b[2] as int % 0x40) * 0x40 + b[3] as int % 0x40;
      var rest := Decode(b[4..]);
      if MIN_SUPPLEMENTARY_CODE_POINT <= cp <= 0x10_FFFF && rest.Some? then
        Some([HighOf(cp) as Unit, LowOf(cp) as Unit] + rest.value)
      else None
    else None
  }

  /** Decoding one character's bytes in front of already decodable bytes. */
  lemma DecodeOne(b0: byte, rest: seq<byte>, tail: seq<Unit>)
    requires b0 < 0x80 && Decode(rest) == Some(tail)
    ensures Decode([b0] + rest) == Some([b0 as Unit] + tail)
  {
    assert ([b0] + rest)[1..] == rest;
  }

  lemma DecodeTwo(b0: byte, b1: byte, rest: seq<byte>, tail: seq<Unit>)
    requires 0xC0 <= b0 < 0xE0 && Continuation(b1) && Decode(rest) == Some(tail)
    ensures Decode([b0, b1] + rest) == Some([(b0 as int % 0x20) * 0x40 + b1 as int % 0x40] + tail)
  {
    assert ([b0, b1] + rest)[2..] == rest;
  }

  lemma DecodeThree(b0: byte, b1: byte, b2: byte, rest: seq<byte>, tail: seq<Unit>)
    requires 0xE0 <= b0 < 0xF0 && Continuation(b1) && Continuation(b2) && Decode(rest) == Some(tail)
    ensures Decode([b0, b1, b2] + rest)
         == Some([(b0 as int % 0x10) * 0x1000 + (b1 as int % 0x40) * 0x40 + b2 as int % 0x40] + tail)
  {
    assert ([b0, b1, b2] + rest)[3..] == rest;
  }

  lemma DecodeFour(b0: byte, b1: byte, b2: byte, b3: byte, cp: int, rest: seq<byte>, tail: seq<Unit>)
    requires 0xF0 <= b0 < 0xF8 && Continuation(b1) && Continuation(b2) && Continuation(b3)
    requires cp == (b0 as int % 0x8) * 0x4_0000 + (b1 as int % 0x40) * 0x1000 + (b2 as int % 0x40) * 0x40 + b3 as int % 0x40
    requires MIN_SUPPLEMENTARY_CODE_POINT <= cp <= 0x10_FFFF
    requires Decode(rest) == Some(tail)
    ensures Decode([b0, b1, b2, b3] + rest) == Some([HighOf(cp) as Unit, LowOf(cp) as Unit] + tail)
  {
    assert ([b0, b1, b2, b3] + rest)[4..] == rest;
  }

  lemma TwoByteArith(c: int)
    requires 0x80 <= c < 0x800
    ensures ((0xC0 + (c / 0x40) % 0x20) % 0x20) * 0x40 + (0x80 + c % 0x40) % 0x40 == c
  {
  }

  lemma ThreeByteArith(c: int)
    requires 0x800 <= c < 0x1_0000
    ensures ((0xE0 + (c / 0x1000) % 0x10) % 0x10) * 0x1000 + ((0x80 + (c / 0x40) % 0x40) % 0x40) * 0x40
            + (0x80 + c % 0x40) % 0x40 == c
  {
    var q := c / 0x40;
    assert c == q * 0x40 + c % 0x40;
    assert q == (q / 0x40) * 0x40 + q % 0x40;
    assert q / 0x40 == c / 0x1000;
  }

  lemma FourByteArith(cp: int)
    requires MIN_SUPPLEMENTARY_CODE_POINT <= cp <= 0x10_FFFF
    ensures ((0xF0 + (cp / 0x4_0000) % 0x8) % 0x8) * 0x4_0000 + ((0x80 + (cp / 0x1000) % 0x40) % 0x40) * 0x1000
            + ((0x80 + (cp / 0x40) % 0x40) % 0x40) * 0x40 + (0x80 + cp % 0x40) % 0x40 == cp
  {
    var q1 := cp / 0x40;
    var q2 := q1 / 0x40;
    var q3 := q2 / 0x40;
    assert cp == q1 * 0x40 + cp % 0x40;
    assert q1 == q2 * 0x40 + q1 % 0x40;
    assert q2 == q3 * 0x40 + q2 % 0x40;
    assert q2 == cp / 0x1000;
    assert q3 == cp / 0x4_0000;
    assert q3 < 8 && (0xF0 + q3 % 0x8) % 0x8 == q3;
    ContinuationBits(cp);
    ContinuationBits(q1);
    ContinuationBits(q2);
  }

  lemma ContinuationBits(x: int)
    ensures (0x80 + x % 0x40) % 0x40 == x % 0x40
  {
  }

  lemma UnitBytesDecode(c: Unit, rest: seq<byte>, tail: seq<Unit>)
    requires Decode(rest) == Some(tail)
    ensures Decode(UnitBytes(c) + rest) == Some([c] + tail)
  {
    var u := UnitBytes(c);
    if c < 0x80 {
      DecodeOne(u[0], rest, tail);
    } else if c < 0x800 {
      TwoByteArith(c);
      DecodeTwo(u[0], u[1], rest, tail);
      assert u == [u[0], u[1]];
    } else {
      ThreeByteArith(c);
      DecodeThree(u[0], u[1], u[2], rest, tail);
      assert u == [u[0], u[1], u[2]];
    }
  }

  lemma PairBytesDecode(h: Unit, l: Unit, rest: seq<byte>, tail: seq<Unit>)
    requires IsHighSurrogate(h) && IsLowSurrogate(l)
    requires Decode(rest) == Some(tail)
    ensures Decode(PairBytes(ToCodePoint(h, l)) + rest) == Some([h, l] + tail)
  {
    var cp := ToCodePoint(h, l);
    var u := PairBytes(cp);
    FourByteArith(cp);
    DecodeFour(u[0], u[1], u[2], u[3], cp, rest, tail);
    assert u == [u[0], u[1], u[2], u[3]];
    CodePointRoundTrip(h, l);
  }

  lemma {:induction false} DecodeEncodeFrom(s: seq<Unit>, i: nat)
    requires i <= |s|
    ensures Decode(EncodeFrom(Intended, s, i)) == Some(s[i..])
    decreases |s| - i
  {
    if i < |s| {
      var w := Width(Intended, s, i);
      DecodeEncodeFrom(s, i + w);
      if PairAt(Intended, s, i) {
        PairBytesDecode(s[i], s[i + 1], EncodeFrom(Intended, s, i + 2), s[i + 2..]);
        assert s[i..] == [s[i], s[i + 1]] + s[i + 2..];
      } else {
        UnitBytesDecode(s[i], EncodeFrom(Intended, s, i + 1), s[i + 1..]);
        assert s[i..] == [s[i]] + s[i + 1..];
      }
    } else {
      assert s[i..] == [];
    }
  }

  /** Decoding the writer's bytes gives back every unit of the string. */
  lemma DecodeEncode(s: seq<Unit>)
    ensures Decode(Encode(s)) == Some(s)
  {
    DecodeEncodeFrom(s, 0);
  }

  /** Different strings are written as different bytes. */
  lemma EncodeInjective(s1: seq<Unit>, s2: seq<Unit>)
    requires Encode(s1) == Encode(s2)
    ensures s1 == s2
  {
    DecodeEncode(s1);
    DecodeEncode(s2);
  }

  // ---------------------------------------------------------------------
  // The surrogate tests as written.
  // ---------------------------------------------------------------------

  /** Unit-by-unit encoding with no pairs: CESU-8. */
  function Cesu8From(s: seq<Unit>, i: nat): seq<byte>
    decreases |s| - i
  {
    if i >= |s| then [] else UnitBytes(s[i]) + Cesu8From(s, i + 1)
  }

  /** With the as-written surrogate tests, every string is encoded unit by unit. */
  lemma {:induction false} EncodeAsWrittenIsCesu8(s: seq<Unit>, i: nat)
    ensures EncodeFrom(AsWritten, s, i) == Cesu8From(s, i)
    decreases |s| - i
  {
    if i < |s| {
      SurrogateTestsAsWrittenNeverHold(s[i]);
      EncodeAsWrittenIsCesu8(s, i + 1);
    }
  }

  /** U+1F600, the units 0xD83D 0xDE00: as written six bytes, each surrogate encoded on its own. */
  lemma SurrogatePairAsWritten()
    ensures EncodeFrom(AsWritten, [0xD83D, 0xDE00], 0) == [0xED, 0xA0, 0xBD, 0xED, 0xB8, 0x80]
    ensures |EncodeFrom(AsWritten, [0xD83D, 0xDE00], 0)| != |Encode([0xD83D, 0xDE00])|
  {
    var s: seq<Unit> := [0xD83D, 0xDE00];
    EncodeAsWrittenIsCesu8(s, 0);
    assert Cesu8From(s, 2) == [];
    assert Cesu8From(s, 1) == UnitBytes(0xDE00) == [0xED, 0xB8, 0x80];
    assert Cesu8From(s, 0) == UnitBytes(0xD83D) + Cesu8From(s, 1);
    assert UnitBytes(0xD83D) == [0xED, 0xA0, 0xBD];
    SurrogatePairIntended();
  }

  /** U+1F600 as intended: the four bytes F0 9F 98 80. */
  lemma SurrogatePairIntended()
    ensures Encode([0xD83D, 0xDE00]) == [0xF0, 0x9F, 0x98, 0x80]
  {
    var s: seq<Unit> := [0xD83D, 0xDE00];
    assert PairAt(Intended, s, 0) && ToCodePoint(0xD83D, 0xDE00) == 0x1F600;
    assert EncodeFrom(Intended, s, 2) == [];
    assert 0x1F600 / 0x1000 % 0x40 == 0x1F && 0x1F600 / 0x40 % 0x40 == 0x18;
    assert PairBytes(0x1F600) == [0xF0, 0x9F, 0x98, 0x80];
  }
}
