/** How long a 32-bit varint may be before the 8-bit position counter starts again and spoils its value. */
module LongVarint {
  import opened Bytes
  import opened Wrappers
  import opened Streams
  import opened Varint

  /** The number that base-128 digits stand for, the lowest digit first. */
  function Value(digits: seq<Byte>): nat {
    if digits == [] then 0 else digits[0] % 128 + 128 * Value(digits[1..])
  }

  /** A number moved up by a whole digit, above the digits read so far. */
  lemma ValueUnfolds(x: seq<Byte>, bitpos: nat)
    requires x != []
    ensures Shl(Value(x), bitpos) == Shl(x[0] % 128, bitpos) + Shl(Value(x[1..]), bitpos + 7)
  {
    SplitDigit(Value(x), bitpos);
  }

  lemma ShlHigh(v: nat, k: nat) returns (turns: nat)
    requires k >= 32
    ensures Shl(v, k) == TWO_32 * turns
  {
    turns := Shl(v, k - 32);
    ShlTwice(v, k - 32, 32);
    ShlTimes(turns, 32);
    ShlOf64();
  }

  lemma {:induction false} ShlTimes(v: nat, k: nat)
    ensures Shl(v, k) == v * Shl(1, k)
    decreases k
  {
    if k == 0 {
    } else {
      ShlTimes(v, k - 1);
    }
  }

  /** Digits from bit 32 on change nothing, as long as the counter does not start again. */
  lemma {:induction false} HighDigitsKeep(x: seq<Byte>, result: nat, bitpos: nat, v: nat)
    requires ReadVarint32From(x, result, bitpos) == Got(v, [])
    requires 32 <= bitpos && bitpos + 7 * (|x| - 1) < 256
    ensures v == result
    decreases |x|
  {
    if x[0] < 128 {
    } else {
      HighDigitsKeep(x[1..], result, bitpos + 7, v);
    }
  }

  /** A digit below bit 28 is added. */
  lemma LowDigitJoins(result: nat, byte: Byte, bitpos: nat)
    requires bitpos + 7 <= 28 && result < Shl(1, bitpos)
    ensures Joined32(result, byte, bitpos) == result + Shl(byte % 128, bitpos) < Shl(1, bitpos + 7)
  {
    BelowNext(result, byte % 128, bitpos);
    ShlOf64();
    ShlFurther(1, bitpos + 7, 32);
    JoinDigit32(result, byte, bitpos);
  }

  /** Of the digit at bit 28 four bits are added; the others are beyond 32 bits. */
  lemma FifthDigitJoins(result: nat, byte: Byte) returns (turns: nat)
    requires result < Shl(1, 28)
    ensures result + Shl(byte % 128, 28) == Joined32(result, byte, 28) + TWO_32 * turns
    ensures Joined32(result, byte, 28) < TWO_32
  {
    var d := byte % 128;
    turns := d / 16;
    Shl28(1);
    Shl28(d);
    Shl28(d % 16);
    OrAdds(result, d % 16, 28);
    assert Shl(d, 28) == Shl(d % 16, 28) + TWO_32 * turns;
    WholeTurns(Shl(d % 16, 28), turns);
  }

  lemma {:induction false} WholeTurns(low: nat, k: nat)
    requires low < TWO_32
    ensures (low + TWO_32 * k) % TWO_32 == low
  {
    if k == 0 {
    } else {
      WholeTurns(low, k - 1);
      assert low + TWO_32 * k == (low + TWO_32 * (k - 1)) + TWO_32;
    }
  }

  /** One digit more is read. */
  lemma ReadsOver(x: seq<Byte>, result: nat, bitpos: nat)
    requires x != [] && bitpos <= 28
    ensures var joined := Joined32(result, x[0], bitpos);
            && (x[0] >= 128 ==> ReadVarint32From(x, result, bitpos) == ReadVarint32From(x[1..], joined, bitpos + 7))
            && (x[0] < 128 && ReadVarint32From(x, result, bitpos).Got? ==>
                  ReadVarint32From(x, result, bitpos) == Got(joined, x[1..]))
  {
  }

  lemma ValueOfNone(x: seq<Byte>, bitpos: nat)
    requires |x| == 1
    ensures Shl(Value(x), bitpos) == Shl(x[0] % 128, bitpos)
  {
    ValueUnfolds(x, bitpos);
    ShlTimes(0, bitpos + 7);
  }

  /** From the digit at bit 28 on. */
  lemma FifthOn(x: seq<Byte>, result: nat, v: nat) returns (turns: nat)
    requires x != [] && ReadVarint32From(x, result, 28) == Got(v, [])
    requires result < Shl(1, 28) && 28 + 7 * (|x| - 1) < 256
    ensures v < TWO_32 && result + Shl(Value(x), 28) == v + TWO_32 * turns
  {
    ReadsOver(x, result, 28);
    turns := FifthDigitJoins(result, x[0]);
    if x[0] < 128 {
      ValueOfNone(x, 28);
    } else {
      HighDigitsKeep(x[1..], Joined32(result, x[0], 28), 35, v);
      ValueUnfolds(x, 28);
      var more := ShlHigh(Value(x[1..]), 35);
      turns := turns + more;
    }
  }

  lemma Fits(v: nat, k: nat)
    requires v < Shl(1, k) && k <= 32
    ensures v < TWO_32
  {
    ShlOf64();
    ShlFurther(1, k, 32);
  }

  /** The low digits and all that follow them give the sum, up to whole turns of 32 bits. */
  lemma {:induction false} LowDigits(x: seq<Byte>, result: nat, bitpos: nat, v: nat) returns (turns: nat)
    requires x != [] && ReadVarint32From(x, result, bitpos) == Got(v, [])
    requires bitpos in {7, 14, 21, 28} && result < Shl(1, bitpos) && bitpos + 7 * (|x| - 1) < 256
    ensures v < TWO_32 && result + Shl(Value(x), bitpos) == v + TWO_32 * turns
    decreases |x|
  {
    if bitpos == 28 {
      turns := FifthOn(x, result, v);
    } else {
      ReadsOver(x, result, bitpos);
      LowDigitJoins(result, x[0], bitpos);
      if x[0] < 128 {
        ValueOfNone(x, bitpos);
        Fits(v, bitpos + 7);
        turns := 0;
      } else {
        turns := LowDigits(x[1..], Joined32(result, x[0], bitpos), bitpos + 7, v);
        ValueUnfolds(x, bitpos);
      }
    }
  }

  /** The bytes are a varint that a 32-bit decode accepts. */
  predicate Accepted(x: seq<Byte>) {
    ReadVarint32(x).Got? && ReadVarint32(x).rest == []
  }

  lemma OnlyByte(x: seq<Byte>, v: nat)
    requires ReadVarint32(x) == Got(v, []) && x[0] < 128
    ensures v == Value(x) == x[0]
  {
    assert x[1..] == [];
  }

  /** Decoding starts with the low seven bits of the first byte. */
  lemma MoreThanOne(x: seq<Byte>, v: nat) returns (low: nat, rest: seq<Byte>)
    requires ReadVarint32(x) == Got(v, []) && x[0] >= 128
    ensures |rest| == |x| - 1 > 0 && ReadVarint32From(rest, low, 7) == Got(v, []) && low < Shl(1, 7)
    ensures Value(x) == low + Shl(Value(rest), 7)
  {
    low, rest := x[0] % 128, x[1..];
    Shl7(1);
    Shl7(Value(rest));
  }

  lemma ModIs(a: nat, v: nat, turns: nat)
    requires a == v + TWO_32 * turns && v < TWO_32
    ensures a % TWO_32 == v
  {
    WholeTurns(v, turns);
  }

  lemma ManyBytes(x: seq<Byte>, v: nat) returns (turns: nat)
    requires ReadVarint32(x) == Got(v, []) && |x| <= 37 && x[0] >= 128
    ensures v < TWO_32 && Value(x) == v + TWO_32 * turns
  {
    var low, rest := MoreThanOne(x, v);
    turns := LowDigits(rest, low, 7, v);
  }

  /** An accepted varint of at most 37 bytes has the value of its digits, modulo 2^32. */
  lemma UpTo37(x: seq<Byte>, v: nat)
    requires ReadVarint32(x) == Got(v, []) && |x| <= 37
    ensures v == Value(x) % TWO_32
  {
    var turns := 0;
    if x[0] < 128 {
      OnlyByte(x, v);
    } else {
      turns := ManyBytes(x, v);
    }
    ModIs(Value(x), v, turns);
  }

  // ---------- Longer varints ----------

  /** `n` zero digits with a successor. */
  function ZeroDigits(n: nat): seq<Byte> {
    seq(n, _ => 128)
  }

  /** A varint of `n` bytes whose only one is in digit 37; with 38 bytes that is its last byte. */
  function Astray(n: nat): (x: seq<Byte>)
    requires n >= 38
    ensures |x| == n
  {
    if n == 38 then ZeroDigits(37) + [1] else ZeroDigits(37) + [129] + ZeroDigits(n - 39) + [0]
  }

  lemma NothingJoins(result: nat, bitpos: nat)
    ensures Joined32(result, 128, bitpos) == result && Joined32(result, 0, bitpos) == result
  {
    ShlTimes(0, bitpos);
  }

  lemma ZeroPasses(x: seq<Byte>, result: nat, bitpos: nat)
    requires x != [] && x[0] == 128
    ensures ReadVarint32From(x, result, bitpos) == ReadVarint32From(x[1..], result, NextBitpos(bitpos))
  {
    NothingJoins(result, bitpos);
  }

  /** Where the counter stands after `n` digits more. */
  function After(bitpos: nat, n: nat): nat
    decreases n
  {
    if n == 0 then bitpos else After(NextBitpos(bitpos), n - 1)
  }

  lemma {:induction false} NoTurnYet(bitpos: nat, n: nat)
    requires bitpos + 7 * n < 256
    ensures After(bitpos, n) == bitpos + 7 * n
    decreases n
  {
    if n == 0 {
    } else {
      NoTurnYet(bitpos + 7, n - 1);
    }
  }

  /** Zero digits are passed over, whatever the counter stands at. */
  lemma {:induction false} ZerosPass(n: nat, tail: seq<Byte>, result: nat, bitpos: nat)
    ensures ReadVarint32From(ZeroDigits(n) + tail, result, bitpos) == ReadVarint32From(tail, result, After(bitpos, n))
    decreases n
  {
    if n == 0 {
      assert ZeroDigits(0) + tail == tail;
    } else {
      assert (ZeroDigits(n) + tail)[1..] == ZeroDigits(n - 1) + tail;
      ZeroPasses(ZeroDigits(n) + tail, result, bitpos);
      ZerosPass(n - 1, tail, result, NextBitpos(bitpos));
    }
  }

  lemma {:induction false} ZerosValue(n: nat, tail: seq<Byte>)
    ensures Value(ZeroDigits(n) + tail) == Shl(Value(tail), 7 * n)
    decreases n
  {
    if n == 0 {
      assert ZeroDigits(0) + tail == tail;
    } else {
      var x := ZeroDigits(n) + tail;
      assert x[1..] == ZeroDigits(n - 1) + tail;
      ZerosValue(n - 1, tail);
      ShlTwice(Value(tail), 7 * (n - 1), 7);
      Shl7(Shl(Value(tail), 7 * (n - 1)));
    }
  }

  lemma OneAtBit3()
    ensures Joined32(0, 1, 3) == 8 && Joined32(0, 129, 3) == 8
  {
    assert Shl(1, 1) == 2 && Shl(1, 2) == 4 && Shl(1, 3) == 8;
  }

  lemma LastZero(result: nat, bitpos: nat)
    ensures ReadVarint32From([0], result, bitpos) == Got(result, [])
  {
    NothingJoins(result, bitpos);
  }

  /** What follows the zero digits below digit 37. */
  function Tail(n: nat): seq<Byte>
    requires n >= 38
  {
    if n == 38 then [1] else [129] + (ZeroDigits(n - 39) + [0])
  }

  lemma AstrayParts(n: nat)
    requires n >= 38
    ensures Astray(n) == ZeroDigits(37) + Tail(n) && Astray(n)[0] == 128
              && Astray(n)[1..] == ZeroDigits(35) + ([128] + Tail(n))
  {
  }

  lemma TailDecodesTo8(n: nat)
    requires n >= 38
    ensures ReadVarint32From(Tail(n), 0, 3) == Got(8, [])
  {
    OneAtBit3();
    if n > 38 {
      var rest := ZeroDigits(n - 39) + [0];
      assert Tail(n)[1..] == rest;
      ReadsOver(Tail(n), 0, 3);
      ZerosPass(n - 39, [0], 8, 10);
      LastZero(8, After(10, n - 39));
    }
  }

  lemma FirstZero(x: seq<Byte>)
    requires x != [] && x[0] == 128
    ensures ReadVarint32(x) == ReadVarint32From(x[1..], 0, 7)
  {
  }

  /** The counter has come to 259, which is 3, so the one in digit 37 is put at bit 3. */
  lemma DecodesTo8(n: nat)
    requires n >= 38
    ensures ReadVarint32(Astray(n)) == Got(8, [])
  {
    AstrayParts(n);
    FirstZero(Astray(n));
    ZerosPass(35, [128] + Tail(n), 0, 7);
    NoTurnYet(7, 35);
    ZeroPasses([128] + Tail(n), 0, 252);
    TailDecodesTo8(n);
  }

  /** Its digits stand for 2^259, which is 0 modulo 2^32. */
  lemma StandsFor0(n: nat)
    requires n >= 38
    ensures Value(Astray(n)) % TWO_32 == 0
  {
    AstrayParts(n);
    ZerosValue(37, Tail(n));
    var turns := ShlHigh(Value(Tail(n)), 259);
    WholeTurns(0, turns);
  }

  /**
   * Every accepted varint of `n` bytes has the value of its digits, modulo 2^32,
   * exactly when the counter cannot start again before its last byte.
   */
  lemma LengthExactly(n: nat)
    ensures (forall x: seq<Byte> :: |x| == n && Accepted(x) ==> ReadVarint32(x).value == Value(x) % TWO_32) <==> n <= 37
  {
    if n <= 37 {
      forall x: seq<Byte> | |x| == n && Accepted(x) ensures ReadVarint32(x).value == Value(x) % TWO_32 {
        UpTo37(x, ReadVarint32(x).value);
      }
    } else {
      DecodesTo8(n);
      StandsFor0(n);
      assert Accepted(Astray(n));
    }
  }
}
