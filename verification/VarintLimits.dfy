/** Which varints the decoders accept, and what they make of those that exceed their width. */
module VarintLimits {
  import opened Bytes
  import opened Wrappers
  import opened Streams
  import opened Varint
  import opened LongVarint
  import opened WireFormat

  // ---------- 32 bits ----------

  /**
   * What lies above bit 35 of a number passes for the extension of a sign: each
   * group of seven bits is all zeros or all ones, and bit 63 stands alone.
   */
  predicate PassesForSign(high: nat, bitpos: nat)
    decreases 63 - bitpos
  {
    if bitpos >= 63 then high == 1
    else (high % 128 == 0 || high % 128 == 127) && PassesForSign(high / 128, bitpos + 7)
  }

  lemma {:induction false} NothingIsNoSign(bitpos: nat)
    ensures !PassesForSign(0, bitpos)
    decreases 63 - bitpos
  {
    if bitpos >= 63 {
    } else {
      NothingIsNoSign(bitpos + 7);
    }
  }

  lemma HighLast(high: nat, tail: seq<Byte>, result: nat, bitpos: nat)
    requires 0 < high < 128 && bitpos in {35, 42, 49, 56, 63} && (bitpos == 63 ==> high == 1)
    ensures ReadVarint32From(VarintBytes(high) + tail, result, bitpos) ==
            if bitpos == 63 && result >= 0x8000_0000 then Got(result, tail) else Fail
  {
    assert VarintBytes(high) + tail == [high] + tail && ([high] + tail)[1..] == tail;
  }

  lemma HighMore(high: nat, tail: seq<Byte>, result: nat, bitpos: nat)
    requires high >= 128 && bitpos in {35, 42, 49, 56}
    ensures var d := high % 128;
            ReadVarint32From(VarintBytes(high) + tail, result, bitpos) ==
            if d == 0 || (d == 127 && result >= 0x8000_0000)
            then ReadVarint32From(VarintBytes(high / 128) + tail, result, bitpos + 7) else Fail
  {
    assert (VarintBytes(high) + tail)[1..] == VarintBytes(high / 128) + tail;
  }

  lemma HighBits(high: nat, bitpos: nat)
    requires bitpos <= 63 && high < Shl(1, 64 - bitpos)
    ensures bitpos == 63 ==> high < 2
    ensures bitpos <= 56 ==> high / 128 < Shl(1, 64 - (bitpos + 7))
  {
    if bitpos <= 56 {
      ShlTwice(1, 57 - bitpos, 7);
      Shl7(Shl(1, 57 - bitpos));
    }
  }

  lemma {:induction false} HighExactly(high: nat, tail: seq<Byte>, result: nat, bitpos: nat)
    requires bitpos in {35, 42, 49, 56, 63} && 0 < high < Shl(1, 64 - bitpos)
    ensures ReadVarint32From(VarintBytes(high) + tail, result, bitpos) ==
            if result >= 0x8000_0000 && PassesForSign(high, bitpos) then Got(result, tail) else Fail
    decreases 63 - bitpos
  {
    HighBits(high, bitpos);
    if high < 128 {
      HighLast(high, tail, result, bitpos);
      if bitpos < 63 {
        NothingIsNoSign(bitpos + 7);
      }
    } else {
      HighMore(high, tail, result, bitpos);
      HighExactly(high / 128, tail, result, bitpos + 7);
    }
  }

  lemma LastAt28(top: nat, tail: seq<Byte>, low: nat)
    requires 16 <= top < 128
    ensures ReadVarint32From(VarintBytes(top) + tail, low, 28) == Fail
  {
    assert VarintBytes(top) + tail == [top] + tail;
  }

  lemma Parts(v: Word64)
    requires v >= 0x1_0000_0000
    ensures var top, low := v / 0x1000_0000, v % 0x1000_0000;
            && top >= 16 && (top < 128 <==> v / 0x8_0000_0000 == 0) && top / 128 == v / 0x8_0000_0000
            && low + 0x1000_0000 * (top % 128 % 16) == v % TWO_32
  {
  }

  lemma AbovePlace(v: Word64)
    ensures v / 0x8_0000_0000 < Shl(1, 29)
  {
    Shl28(1);
    assert Shl(1, 29) == 2 * Shl(1, 28);
  }

  /** Bits 32 to 34 alone are too many. */
  lemma JustTooGreat(v: Word64, tail: seq<Byte>)
    requires 0x1_0000_0000 <= v < 0x8_0000_0000
    ensures ReadVarint32(VarintBytes(v) + tail) == Fail
  {
    Parts(v);
    FourDigits(v, tail);
    LastAt28(v / 0x1000_0000, tail, v % 0x1000_0000);
  }

  lemma BeyondBit35(v: Word64, tail: seq<Byte>)
    requires v >= 0x8_0000_0000
    ensures ReadVarint32(VarintBytes(v) + tail)
            == ReadVarint32From(VarintBytes(v / 0x8_0000_0000) + tail, v % TWO_32, 35)
  {
    Parts(v);
    FourDigits(v, tail);
    FifthDigit(v / 0x1000_0000, tail, v % 0x1000_0000);
  }

  /**
   * Of the encodings of 64-bit numbers a 32-bit decode takes those of 32-bit numbers,
   * and those with bit 31 set whose higher bits pass for the extension of a sign.
   */
  lemma TakesExactly(v: Word64, tail: seq<Byte>)
    ensures ReadVarint32(VarintBytes(v) + tail) ==
            if v < 0x1_0000_0000 || (v % 0x1_0000_0000 >= 0x8000_0000 && PassesForSign(v / 0x8_0000_0000, 35))
            then Got(v % 0x1_0000_0000, tail) else Fail
  {
    if v < 0x1_0000_0000 {
      Varint32RoundTrip(v, tail);
    } else if v < 0x8_0000_0000 {
      JustTooGreat(v, tail);
      NothingIsNoSign(35);
    } else {
      BeyondBit35(v, tail);
      AbovePlace(v);
      HighExactly(v / 0x8_0000_0000, tail, v % TWO_32, 35);
    }
  }

  /** So not every number that is too great is refused: 2^63 + 2^31 is taken for 2^31. */
  lemma OverflowPasses(tail: seq<Byte>)
    ensures ReadVarint32(VarintBytes(0x8000_0000_8000_0000) + tail) == Got(0x8000_0000, tail)
  {
    var v: Word64 := 0x8000_0000_8000_0000;
    TakesExactly(v, tail);
    assert PassesForSign(1, 63);
    assert PassesForSign(0x80, 56);
    assert PassesForSign(0x4000, 49);
    assert PassesForSign(0x20_0000, 42);
    assert PassesForSign(0x1000_0000, 35);
  }

  // ---------- 64 bits ----------

  /** The tenth digit: one bit of it is left. */
  lemma TenthDigit(result: nat, byte: Byte) returns (turns: nat)
    requires result < Shl(1, 63)
    ensures Joined(result, byte, 63) < TWO_64
    ensures result + Shl(byte % 128, 63) == Joined(result, byte, 63) + TWO_64 * turns
  {
    var d := byte % 128;
    turns := d / 2;
    ShlOf64();
    ShlTwice(1, 63, 1);
    assert Shl(1, 64) == 2 * Shl(1, 63);
    ShlTimes(d, 63);
    ShlTimes(d % 2, 63);
    assert d * Shl(1, 63) == (d % 2) * Shl(1, 63) + TWO_64 * turns;
    Reduced(Shl(d % 2, 63), turns);
    OrAdds(result, d % 2, 63);
  }

  lemma {:induction false} Reduced(low: nat, turns: nat)
    requires low < TWO_64
    ensures (low + TWO_64 * turns) % TWO_64 == low
  {
    if turns == 0 {
    } else {
      Reduced(low, turns - 1);
      assert low + TWO_64 * turns == (low + TWO_64 * (turns - 1)) + TWO_64;
    }
  }

  lemma EarlierDigit(result: nat, byte: Byte, k: nat)
    requires k < 9 && result < Shl(1, 7 * k)
    ensures Joined(result, byte, 7 * k) == result + Shl(byte % 128, 7 * k) < Shl(1, 7 * (k + 1))
  {
    BelowNext(result, byte % 128, 7 * k);
    ShlOf64();
    ShlFurther(1, 7 * (k + 1), 64);
    JoinDigit(result, byte, 7 * k);
  }

  lemma ReadsDigit(x: seq<Byte>, tail: seq<Byte>, result: nat, bitpos: nat)
    requires x != [] && bitpos < 64
    ensures var joined := Joined(result, x[0], bitpos);
            ReadVarintFrom(x + tail, result, bitpos) ==
            if x[0] >= 128 then ReadVarintFrom(x[1..] + tail, joined, bitpos + 7) else Got(joined, x[1..] + tail)
  {
    assert (x + tail)[1..] == x[1..] + tail;
  }

  lemma {:induction false} DecodesFrom(x: seq<Byte>, tail: seq<Byte>, result: nat, k: nat) returns (v: nat, turns: nat)
    requires IsVarint(x) && k <= 9 && result < Shl(1, 7 * k)
    ensures v < TWO_64
    ensures ReadVarintFrom(x + tail, result, 7 * k) == if k + |x| <= 10 then Got(v, tail) else Fail
    ensures k + |x| <= 10 ==> result + Shl(Value(x), 7 * k) == v + TWO_64 * turns
    decreases |x|
  {
    VarintUnfolds(x);
    ReadsDigit(x, tail, result, 7 * k);
    ValueUnfolds(x, 7 * k);
    if k == 9 {
      turns := TenthDigit(result, x[0]);
      v := Joined(result, x[0], 63);
      if x[0] < 128 {
        OneByteValue(x, 63);
        assert x[1..] + tail == tail;
      }
    } else {
      EarlierDigit(result, x[0], k);
      if x[0] < 128 {
        ShlOf64();
        ShlFurther(1, 7 * (k + 1), 64);
        OneByteValue(x, 7 * k);
        v, turns := Joined(result, x[0], 7 * k), 0;
        assert x[1..] + tail == tail;
      } else {
        v, turns := DecodesFrom(x[1..], tail, Joined(result, x[0], 7 * k), k + 1);
      }
    }
  }

  lemma OneByteValue(x: seq<Byte>, bitpos: nat)
    requires |x| == 1
    ensures Shl(Value(x), bitpos) == Shl(x[0] % 128, bitpos)
  {
    ValueOfNone(x, bitpos);
  }

  /**
   * A 64-bit decode takes every varint of at most ten bytes, for its value modulo
   * 2^64, and refuses every longer one.
   */
  lemma TakesUpToTen(x: seq<Byte>, tail: seq<Byte>)
    requires IsVarint(x)
    ensures ReadVarint(x + tail) == if |x| <= 10 then Got(Value(x) % 0x1_0000_0000_0000_0000, tail) else Fail
  {
    var v, turns := WholeVarint(x, tail);
    if |x| <= 10 {
      ModIs64(Value(x), v, turns);
    }
  }

  lemma WholeVarint(x: seq<Byte>, tail: seq<Byte>) returns (v: nat, turns: nat)
    requires IsVarint(x)
    ensures v < TWO_64 && ReadVarint(x + tail) == if |x| <= 10 then Got(v, tail) else Fail
    ensures |x| <= 10 ==> Value(x) == v + TWO_64 * turns
  {
    v, turns := DecodesFrom(x, tail, 0, 0);
  }

  lemma ModIs64(a: nat, v: nat, turns: nat)
    requires a == v + TWO_64 * turns && v < TWO_64
    ensures a % TWO_64 == v
  {
    Reduced(v, turns);
  }
}
