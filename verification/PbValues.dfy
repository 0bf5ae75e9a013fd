/** Exactly which values the decoder takes from the wire for a place, and what it makes of them. */
module PbValues {
  import opened Bytes
  import opened Wrappers
  import opened Streams
  import opened Varint
  import opened Descriptor
  import opened PbEncode
  import opened PbDecode
  import opened PbRoundTrip

  /** The number that an integer type makes of a varint; one of at most four bytes looks at the low 32 bits only. */
  function NumberOf(f: Field, v: Word64): int {
    if f.ltype.UVarint? then v
    else if f.ltype.SVarint? then if v % 2 == 0 then v / 2 else -(v / 2) - 1
    else if f.dataSize == 8 then if v < 0x8000_0000_0000_0000 then v else v - 0x1_0000_0000_0000_0000
    else
      var low := v % 0x1_0000_0000;
      if low < 0x8000_0000 then low else low - 0x1_0000_0000
  }

  /** It is taken exactly when it fits the place; any other number is refused. */
  lemma IntegersExactly(f: Field, v: Word64, tail: seq<Byte>)
    requires f.ltype.Varint? || f.ltype.UVarint? || f.ltype.SVarint?
    ensures DecodedNumber(f, VarintBytes(v) + tail) ==
            if (if f.ltype.UVarint? then UnsignedFits(v, f.dataSize) else SignedFits(NumberOf(f, v), f.dataSize))
            then Got(VNum(NumberOf(f, v)), tail) else Fail
  {
    VarintRoundTrip(v, tail);
    PlacesAre(if f.ltype.UVarint? then v else NumberOf(f, v), f.dataSize);
    if !f.ltype.UVarint? {
      SignedIs(f, v);
    }
  }

  lemma SignedIs(f: Field, v: Word64)
    requires f.ltype.Varint? || f.ltype.SVarint?
    ensures SignedNumber(f, v) == NumberOf(f, v)
  {
    assert v % TWO_64 == v;
  }

  lemma PlacesAre(n: int, size: nat)
    ensures IntSize(size) && FitsSigned(n, size) <==> SignedFits(n, size)
    ensures IntSize(size) && 0 <= n < Range(size) <==> UnsignedFits(n, size)
  {
  }

  /** A boolean is whether the number is not zero. */
  lemma BooleansExactly(f: Field, v: Word32, tail: seq<Byte>)
    requires f.ltype.Bool?
    ensures DecodedNumber(f, VarintBytes(v) + tail) == Got(VNum(if v == 0 then 0 else 1), tail)
  {
    Varint32RoundTrip(v, tail);
  }

  /** Whether a place takes `n` bytes: an array has four bytes of size, a string one of terminator. */
  predicate Takes(f: Field, n: nat) {
    if f.ltype.ByteArray? then n + 4 <= f.dataSize
    else if f.ltype.String? then n + 1 <= f.dataSize && n < 0xFFFF_FFFF
    else n == 0 || n == f.dataSize
  }

  /** Bytes are taken exactly when they are all there and fit the place; none at all zero a place of fixed length. */
  lemma BytesExactly(f: Field, n: Word32, x: seq<Byte>)
    requires f.ltype.ByteArray? || f.ltype.String? || f.ltype.FixedLengthBytes?
    ensures DecodedBytes(f, VarintBytes(n) + x) ==
            if !Takes(f, n) || n > |x| then Fail
            else if f.ltype.FixedLengthBytes? && n == 0 then Got(VBytes(seq(f.dataSize, _ => 0)), x)
            else Got(VBytes(x[..n]), x[n..])
  {
    Varint32RoundTrip(n, x);
  }

  /** Four or eight bytes are a number, the lowest first, and are always taken. */
  lemma FixedExactly(f: Field, prior: Val, x: seq<Byte>)
    requires f.ltype.Fixed32? || f.ltype.Fixed64?
    ensures var w := if f.ltype.Fixed32? then 4 else 8;
            DecodedValue(f, prior, x) == if |x| < w then Fail else Got(VNum(Little(x, w)), x[w..])
  {
    var w := if f.ltype.Fixed32? then 4 else 8;
    if |x| >= w {
      LittleIs(x, w);
    }
  }

  /** The number in the first `w` bytes. */
  function Little(x: seq<Byte>, w: nat): nat
    requires w <= |x|
  {
    if w == 0 then 0 else Little(x, w - 1) + x[w - 1] * Weight(w - 1)
  }

  function Weight(i: nat): nat {
    if i == 0 then 1 else 256 * Weight(i - 1)
  }

  lemma {:induction false} LittleIs(x: seq<Byte>, w: nat)
    requires w <= |x|
    ensures FixedValue(x[..w]) == Little(x, w)
  {
    if w == 0 {
    } else {
      LittleIs(x, w - 1);
      assert x[..w] == x[..w - 1] + [x[w - 1]];
      ValueMore(x[..w - 1], x[w - 1]);
    }
  }

  lemma {:induction false} ValueMore(a: seq<Byte>, b: Byte)
    ensures FixedValue(a + [b]) == FixedValue(a) + b * Weight(|a|)
  {
    if a == [] {
      assert a + [b] == [b] && [b][1..] == [];
    } else {
      assert (a + [b])[1..] == a[1..] + [b] && (a + [b])[0] == a[0];
      ValueMore(a[1..], b);
      Times256(b, Weight(|a| - 1));
    }
  }

  lemma Times256(b: nat, w: nat)
    ensures 256 * (b * w) == b * (256 * w)
  {
  }
}
