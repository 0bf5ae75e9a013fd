/** Base-128 varints, zigzag and fixed-width numbers, in both directions. */
module Varint {
  import opened Bytes
  import opened Wrappers
  import opened Streams

  type Word64 = v: int | 0 <= v < TWO_64
  type Word32 = v: int | 0 <= v < TWO_32
  type Int64 = v: int | -0x8000_0000_0000_0000 <= v < 0x8000_0000_0000_0000

  /** `x` shifted left by `k` bits. */
  function Shl(x: nat, k: nat): nat {
    if k == 0 then x else 2 * Shl(x, k - 1)
  }

  lemma {:induction false} ShlAdds(a: nat, b: nat, k: nat)
    ensures Shl(a + b, k) == Shl(a, k) + Shl(b, k)
  {
    if k == 0 {
    } else {
      ShlAdds(a, b, k - 1);
    }
  }

  lemma {:induction false} ShlTwice(x: nat, j: nat, k: nat)
    ensures Shl(Shl(x, j), k) == Shl(x, j + k)
  {
    if k == 0 {
    } else {
      ShlTwice(x, j, k - 1);
    }
  }

  lemma Shl7(x: nat)
    ensures Shl(x, 7) == 128 * x
  {
    assert Shl(x, 1) == 2 * x;
    assert Shl(x, 2) == 2 * Shl(x, 1);
    assert Shl(x, 3) == 2 * Shl(x, 2);
    assert Shl(x, 4) == 2 * Shl(x, 3);
    assert Shl(x, 5) == 2 * Shl(x, 4);
    assert Shl(x, 6) == 2 * Shl(x, 5);
  }

  lemma Shl28(x: nat)
    ensures Shl(x, 28) == 0x1000_0000 * x
  {
    Shl7(x);
    ShlTwice(x, 7, 7);
    Shl7(Shl(x, 7));
    ShlTwice(x, 14, 14);
    Shl7(Shl(x, 14));
    ShlTwice(Shl(x, 14), 7, 7);
    Shl7(Shl(Shl(x, 14), 7));
  }

  lemma ShlOf64()
    ensures Shl(1, 64) == TWO_64 && Shl(1, 32) == TWO_32
  {
    assert Shl(1, 2) == 4 && Shl(1, 4) == 16;
    Shl28(16);
    ShlTwice(1, 4, 28);
    assert Shl(TWO_32, 2) == 4 * TWO_32 && Shl(TWO_32, 4) == 16 * TWO_32;
    Shl28(16 * TWO_32);
    ShlTwice(TWO_32, 4, 28);
    ShlTwice(1, 32, 32);
  }

  lemma {:induction false} ShlGrows(x: nat, y: nat, k: nat)
    requires x <= y
    ensures Shl(x, k) <= Shl(y, k) && x <= Shl(x, k)
  {
    if k == 0 {
    } else {
      ShlGrows(x, y, k - 1);
    }
  }

  lemma ShlFurther(x: nat, j: nat, k: nat)
    requires j <= k
    ensures Shl(x, j) <= Shl(x, k)
  {
    ShlTwice(x, j, k - j);
    ShlGrows(Shl(x, j), Shl(x, j), k - j);
  }

  /** Bitwise or, on unbounded numbers. */
  function BitOr(a: nat, b: nat): nat
    decreases a + b
  {
    if a == 0 then b
    else if b == 0 then a
    else (if a % 2 == 1 || b % 2 == 1 then 1 else 0) + 2 * BitOr(a / 2, b / 2)
  }

  /** Or adds numbers that share no bits. */
  lemma {:induction false} OrAdds(a: nat, b: nat, k: nat)
    requires a < Shl(1, k)
    ensures BitOr(a, Shl(b, k)) == a + Shl(b, k)
    decreases k
  {
    if k > 0 && a > 0 && Shl(b, k) > 0 {
      OrAdds(a / 2, b, k - 1);
    }
  }

  /** A number's lowest digit and the rest, at position `k`. */
  lemma SplitDigit(v: nat, k: nat)
    ensures Shl(v, k) == Shl(v % 128, k) + Shl(v / 128, k + 7)
  {
    ShlAdds(v % 128, 128 * (v / 128), k);
    Shl7(v / 128);
    ShlTwice(v / 128, 7, k);
  }

  lemma BelowNext(result: nat, low: nat, k: nat)
    requires result < Shl(1, k) && low < 128
    ensures result + Shl(low, k) < Shl(1, k + 7)
  {
    ShlAdds(low, 1, k);
    ShlGrows(low + 1, 128, k);
    Shl7(1);
    ShlTwice(1, 7, k);
  }

  /** A number with more than one digit reaches beyond the next position. */
  lemma ReachesNext(v: nat, k: nat)
    requires v >= 128
    ensures Shl(1, k + 7) <= Shl(v, k)
  {
    Shl7(1);
    ShlTwice(1, 7, k);
    ShlGrows(128, v, k);
  }

  // ---------- Encoding ----------

  function VarintBytes(v: nat): (bs: seq<Byte>)
    ensures |bs| >= 1
  {
    if v < 128 then [v] else [v % 128 + 128] + VarintBytes(v / 128)
  }

  /** The digits of a number, all marked as having a successor. */
  function Digits(v: nat): seq<Byte> {
    if v == 0 then [] else [v % 128 + 128] + Digits(v / 128)
  }

  lemma {:induction false} DigitCount(v: nat, k: nat)
    requires v < Shl(1, 7 * k)
    ensures |Digits(v)| <= k
    decreases k
  {
    if v == 0 {
    } else {
      Shl7(Shl(1, 7 * (k - 1)));
      ShlTwice(1, 7 * (k - 1), 7);
      DigitCount(v / 128, k - 1);
    }
  }

  lemma TenDigits(v: Word64)
    ensures |Digits(v)| <= 10
  {
    ShlOf64();
    ShlFurther(1, 64, 70);
    DigitCount(v, 10);
  }

  /** A varint is the digits with the mark taken off the last. */
  lemma {:induction false} UnmarkLast(v: nat)
    requires v > 0
    ensures var d := Digits(v); |d| > 0 && d[|d| - 1] >= 128 && VarintBytes(v) == d[|d| - 1 := d[|d| - 1] - 128]
  {
    if v < 128 {
    } else {
      UnmarkLast(v / 128);
    }
  }

  lemma VarintLength(v: Word64)
    ensures 1 <= |VarintBytes(v)| <= 10
  {
    if v > 0 {
      TenDigits(v);
      UnmarkLast(v);
    }
  }

  method FillDigits(buffer: array<Byte>, value: nat) returns (i: nat)
    requires |Digits(value)| <= buffer.Length
    modifies buffer
    ensures i == |Digits(value)| && buffer[..i] == Digits(value)
  {
    i := 0;
    var left := value;
    while left != 0
      invariant i + |Digits(left)| == |Digits(value)| && buffer[..i] + Digits(left) == Digits(value)
      decreases left
    {
      ghost var done := buffer[..i];
      buffer[i] := left % 128 + 128;
      left := left / 128;
      i := i + 1;
      assert buffer[..i] == done + [buffer[i - 1]];
    }
  }

  method EncodeVarint(stream: OutStream, value: Word64) returns (ok: bool)
    requires stream.Valid()
    modifies stream, stream.buffer
    ensures stream.Valid() && Emits(old(stream.View()), stream.View(), Some(VarintBytes(value)), ok)
  {
    if value <= 0x7F {
      ok := stream.Write([value]);
      return;
    }
    var buffer := new Byte[10];
    TenDigits(value);
    UnmarkLast(value);
    var i := FillDigits(buffer, value);
    ghost var marked := buffer[..i];
    buffer[i - 1] := buffer[i - 1] - 128;
    assert buffer[..i] == marked[i - 1 := marked[i - 1] - 128];
    ok := stream.Write(buffer[..i]);
  }

  // ---------- Decoding 64-bit varints ----------

  /** The result with the low bits of `byte` put at `bitpos`, in 64 bits. */
  function Joined(result: nat, byte: Byte, bitpos: nat): nat {
    BitOr(result, Shl(byte % 128, bitpos) % TWO_64)
  }

  /** Reading the rest of a varint, with `result` from the bits before `bitpos`. */
  function ReadVarintFrom(bytes: seq<Byte>, result: nat, bitpos: nat): (r: Read<nat>)
    ensures r.Got? ==> |r.rest| < |bytes|
    decreases |bytes|
  {
    if bitpos >= 64 || bytes == [] then Fail
    else
      var result' := Joined(result, bytes[0], bitpos);
      if bytes[0] >= 128 then ReadVarintFrom(bytes[1..], result', bitpos + 7)
      else Got(result', bytes[1..])
  }

  function ReadVarint(bytes: seq<Byte>): (r: Read<nat>)
    ensures r.Got? ==> |r.rest| < |bytes|
  {
    ReadVarintFrom(bytes, 0, 0)
  }

  lemma NextFits(v: nat, bitpos: nat)
    requires v >= 128 && Shl(v, bitpos) < TWO_64
    ensures bitpos + 7 < 64
  {
    ReachesNext(v, bitpos);
    ShlOf64();
    if bitpos + 7 >= 64 {
      ShlFurther(1, 64, bitpos + 7);
    }
  }

  lemma Unchanged(x: nat, m: nat)
    requires x < m
    ensures x % m == x
  {
  }

  lemma JoinDigit(result: nat, byte: Byte, bitpos: nat)
    requires result < Shl(1, bitpos) && Shl(byte % 128, bitpos) < TWO_64
    ensures Joined(result, byte, bitpos) == result + Shl(byte % 128, bitpos)
  {
    Unchanged(Shl(byte % 128, bitpos), TWO_64);
    OrAdds(result, byte % 128, bitpos);
  }

  lemma MoreDigits(v: nat, tail: seq<Byte>, result: nat, bitpos: nat)
    requires v >= 128 && bitpos < 64
    ensures ReadVarintFrom(VarintBytes(v) + tail, result, bitpos)
            == ReadVarintFrom(VarintBytes(v / 128) + tail, Joined(result, v % 128 + 128, bitpos), bitpos + 7)
  {
    assert (VarintBytes(v) + tail)[1..] == VarintBytes(v / 128) + tail;
  }

  lemma LastDigit(v: nat, tail: seq<Byte>, result: nat, bitpos: nat)
    requires v < 128 && bitpos < 64
    ensures ReadVarintFrom(VarintBytes(v) + tail, result, bitpos) == Got(Joined(result, v, bitpos), tail)
  {
    assert (VarintBytes(v) + tail)[1..] == tail;
  }

  lemma {:induction false} ReadsBack(v: nat, tail: seq<Byte>, result: nat, bitpos: nat)
    requires bitpos < 64 && result < Shl(1, bitpos) && Shl(v, bitpos) < TWO_64
    ensures ReadVarintFrom(VarintBytes(v) + tail, result, bitpos) == Got(result + Shl(v, bitpos), tail)
    decreases v
  {
    SplitDigit(v, bitpos);
    var low: Byte := v % 128;
    JoinDigit(result, if v < 128 then low else low + 128, bitpos);
    if v < 128 {
      LastDigit(v, tail, result, bitpos);
    } else {
      NextFits(v, bitpos);
      BelowNext(result, low, bitpos);
      MoreDigits(v, tail, result, bitpos);
      ReadsBack(v / 128, tail, result + Shl(low, bitpos), bitpos + 7);
    }
  }

  /** Decoding consumes exactly what encoding wrote and returns the number, for every 64-bit number. */
  lemma VarintRoundTrip(v: Word64, tail: seq<Byte>)
    ensures 1 <= |VarintBytes(v)| <= 10
    ensures ReadVarint(VarintBytes(v) + tail) == Got(v, tail)
  {
    VarintLength(v);
    ReadsBack(v, tail, 0, 0);
  }

  method DecodeVarint(stream: InStream) returns (ok: bool, dest: nat)
    requires stream.Valid()
    modifies stream
    ensures stream.Valid() && stream.End() == old(stream.End())
    ensures var r := ReadVarint(old(stream.Rest())); ok == r.Got? && (ok ==> dest == r.value && stream.Rest() == r.rest)
  {
    var bitpos, result := 0, 0;
    while true
      invariant stream.Valid() && stream.End() == old(stream.End())
      invariant ReadVarintFrom(stream.Rest(), result, bitpos) == ReadVarint(old(stream.Rest()))
      decreases stream.bytesLeft
    {
      if bitpos >= 64 {
        return false, 0;
      }
      var got, byte := stream.ReadByte();
      if !got {
        return false, 0;
      }
      result := Joined(result, byte, bitpos);
      bitpos := bitpos + 7;
      if byte < 128 { break; }
    }
    return true, result;
  }

  // ---------- Decoding 32-bit varints ----------

  /** `bitpos` is an 8-bit number, so a varint that is long enough makes it start again. */
  function NextBitpos(bitpos: nat): nat {
    (bitpos + 7) % 256
  }

  /** The result with the low bits of `byte` put at `bitpos`, in 32 bits. */
  function Joined32(result: nat, byte: Byte, bitpos: nat): nat {
    BitOr(result, Shl(byte % 128, bitpos) % TWO_32)
  }

  /** Beyond 32 bits only zeros or the sign's extension may follow. */
  predicate BadExtension(result: nat, byte: Byte, bitpos: nat) {
    byte % 128 != 0 && (result / 0x8000_0000 == 0 || byte != if bitpos < 63 then 0xFF else 0x01)
  }

  /** Reading the rest of a varint after its first byte. */
  function ReadVarint32From(bytes: seq<Byte>, result: nat, bitpos: nat): (r: Read<nat>)
    ensures r.Got? ==> |r.rest| < |bytes|
    decreases |bytes|
  {
    if bytes == [] || (bitpos >= 32 && BadExtension(result, bytes[0], bitpos)) then Fail
    else
      var byte := bytes[0];
      var result' := if bitpos >= 32 then result else Joined32(result, byte, bitpos);
      if byte >= 128 then ReadVarint32From(bytes[1..], result', NextBitpos(bitpos))
      else if NextBitpos(bitpos) == 35 && byte / 16 % 8 != 0 then Fail
      else Got(result', bytes[1..])
  }

  function ReadVarint32(bytes: seq<Byte>): (r: Read<nat>)
    ensures r.Got? ==> |r.rest| < |bytes|
  {
    if bytes == [] then Fail
    else if bytes[0] < 128 then Got(bytes[0], bytes[1..])
    else ReadVarint32From(bytes[1..], bytes[0] % 128, 7)
  }

  // ---------- What a decode leaves, and what it looks at ----------

  /** `long` ends with `short`. */
  predicate EndsWith(long: seq<Byte>, short: seq<Byte>) {
    |short| <= |long| && long[|long| - |short|..] == short
  }

  lemma {:induction false} Varint32FromEnds(bytes: seq<Byte>, result: nat, bitpos: nat)
    ensures var r := ReadVarint32From(bytes, result, bitpos); r.Got? ==> EndsWith(bytes, r.rest)
    decreases |bytes|
  {
    if bytes == [] {
    } else {
      var joined := if bitpos >= 32 then result else Joined32(result, bytes[0], bitpos);
      Varint32FromEnds(bytes[1..], joined, NextBitpos(bitpos));
    }
  }

  lemma Varint32Ends(bytes: seq<Byte>)
    ensures var r := ReadVarint32(bytes); r.Got? ==> EndsWith(bytes, r.rest)
  {
    if bytes != [] {
      Varint32FromEnds(bytes[1..], bytes[0] % 128, 7);
    }
  }

  /** A decode that consumes exactly `x` does so whatever follows. */
  lemma {:induction false} Varint32FromLocal(x: seq<Byte>, b: seq<Byte>, c: seq<Byte>, result: nat, bitpos: nat)
    requires var r := ReadVarint32From(x + b, result, bitpos); r.Got? && r.rest == b
    ensures ReadVarint32From(x + c, result, bitpos) == Got(ReadVarint32From(x + b, result, bitpos).value, c)
    decreases |x|
  {
    assert (x + b)[0] == x[0] && (x + c)[0] == x[0];
    assert (x + b)[1..] == x[1..] + b && (x + c)[1..] == x[1..] + c;
    if x[0] >= 128 {
      var joined := if bitpos >= 32 then result else Joined32(result, x[0], bitpos);
      Varint32FromLocal(x[1..], b, c, joined, NextBitpos(bitpos));
    } else {
      OnlyOne(x, b);
    }
  }

  lemma OnlyOne(x: seq<Byte>, b: seq<Byte>)
    requires x != [] && x[1..] + b == b
    ensures x[1..] == []
  {
    assert |x[1..] + b| == |b|;
  }

  lemma Varint32Local(x: seq<Byte>, b: seq<Byte>, c: seq<Byte>)
    requires var r := ReadVarint32(x + b); r.Got? && r.rest == b
    ensures ReadVarint32(x + c) == Got(ReadVarint32(x + b).value, c)
  {
    assert (x + b)[0] == x[0] && (x + c)[0] == x[0];
    assert (x + b)[1..] == x[1..] + b && (x + c)[1..] == x[1..] + c;
    if x[0] >= 128 {
      Varint32FromLocal(x[1..], b, c, x[0] % 128, 7);
    } else {
      OnlyOne(x, b);
    }
  }

  lemma {:induction false} VarintLocal(x: seq<Byte>, b: seq<Byte>, c: seq<Byte>, result: nat, bitpos: nat)
    requires var r := ReadVarintFrom(x + b, result, bitpos); r.Got? && r.rest == b
    ensures ReadVarintFrom(x + c, result, bitpos) == Got(ReadVarintFrom(x + b, result, bitpos).value, c)
    decreases |x|
  {
    assert (x + b)[0] == x[0] && (x + c)[0] == x[0];
    assert (x + b)[1..] == x[1..] + b && (x + c)[1..] == x[1..] + c;
    if x[0] >= 128 {
      VarintLocal(x[1..], b, c, Joined(result, x[0], bitpos), bitpos + 7);
    } else {
      OnlyOne(x, b);
    }
  }

  lemma {:induction false} OrBelow(a: nat, b: nat, k: nat)
    requires a < Shl(1, k) && b < Shl(1, k)
    ensures BitOr(a, b) < Shl(1, k)
    decreases k
  {
    if k > 0 && a > 0 && b > 0 {
      OrBelow(a / 2, b / 2, k - 1);
    }
  }

  lemma {:induction false} Varint32FromBelow(bytes: seq<Byte>, result: nat, bitpos: nat)
    requires result < TWO_32
    ensures var r := ReadVarint32From(bytes, result, bitpos); r.Got? ==> r.value < TWO_32
    decreases |bytes|
  {
    if bytes == [] {
    } else {
      ShlOf64();
      var result' := if bitpos >= 32 then result else Joined32(result, bytes[0], bitpos);
      OrBelow(result, Shl(bytes[0] % 128, bitpos) % TWO_32, 32);
      Varint32FromBelow(bytes[1..], result', NextBitpos(bitpos));
    }
  }

  /** A 32-bit decode gives a 32-bit number, whatever the bytes. */
  lemma Varint32Below(bytes: seq<Byte>)
    ensures var r := ReadVarint32(bytes); r.Got? ==> r.value < TWO_32
  {
    if bytes != [] {
      Varint32FromBelow(bytes[1..], bytes[0] % 128, 7);
    }
  }

  /** `eof` tells that nothing was left to read. */
  method DecodeVarint32Eof(stream: InStream) returns (ok: bool, dest: nat, eof: bool)
    requires stream.Valid()
    modifies stream
    ensures stream.Valid() && stream.End() == old(stream.End())
    ensures var r := ReadVarint32(old(stream.Rest()));
            ok == r.Got? && (ok ==> dest == r.value && stream.Rest() == r.rest)
    ensures eof == (old(stream.Rest()) == [])
  {
    var got, byte := stream.ReadByte();
    if !got {
      return false, 0, true;
    }
    var result: nat := byte;
    if byte >= 128 {
      var bitpos: nat := 7;
      result := byte % 128;
      while true
        invariant stream.Valid() && stream.End() == old(stream.End())
        invariant ReadVarint32From(stream.Rest(), result, bitpos) == ReadVarint32(old(stream.Rest()))
        decreases stream.bytesLeft
      {
        got, byte := stream.ReadByte();
        if !got {
          return false, 0, false;
        }
        if bitpos >= 32 {
          var signExtension: Byte := if bitpos < 63 then 0xFF else 0x01;
          if byte % 128 != 0 && (result / 0x8000_0000 == 0 || byte != signExtension) {
            return false, 0, false;
          }
        } else {
          result := Joined32(result, byte, bitpos);
        }
        bitpos := (bitpos + 7) % 256;
        if byte < 128 {
          if bitpos == 35 && byte / 16 % 8 != 0 {
            return false, 0, false;
          }
          break;
        }
      }
    }
    return true, result, false;
  }

  lemma Below32(v: nat, bitpos: nat)
    requires v > 0 && Shl(v, bitpos) < TWO_32
    ensures bitpos < 32 && (v >= 128 ==> bitpos + 7 < 32) && (bitpos == 28 ==> v < 16)
  {
    ShlOf64();
    ShlGrows(1, v, bitpos);
    var reach := if v >= 128 then bitpos + 7 else bitpos;
    if v >= 128 {
      ReachesNext(v, bitpos);
    }
    if reach >= 32 {
      ShlFurther(1, 32, reach);
    }
    Shl28(v);
  }

  lemma JoinDigit32(result: nat, byte: Byte, bitpos: nat)
    requires result < Shl(1, bitpos) && Shl(byte % 128, bitpos) < TWO_32
    ensures Joined32(result, byte, bitpos) == result + Shl(byte % 128, bitpos)
  {
    Unchanged(Shl(byte % 128, bitpos), TWO_32);
    OrAdds(result, byte % 128, bitpos);
  }

  lemma MoreDigits32(v: nat, tail: seq<Byte>, result: nat, bitpos: nat)
    requires v >= 128 && bitpos < 32
    ensures ReadVarint32From(VarintBytes(v) + tail, result, bitpos)
            == ReadVarint32From(VarintBytes(v / 128) + tail, Joined32(result, v % 128 + 128, bitpos), bitpos + 7)
  {
    assert (VarintBytes(v) + tail)[1..] == VarintBytes(v / 128) + tail;
  }

  lemma LastDigit32(v: nat, tail: seq<Byte>, result: nat, bitpos: nat)
    requires v < 128 && bitpos < 32 && (bitpos == 28 ==> v < 16)
    ensures ReadVarint32From(VarintBytes(v) + tail, result, bitpos) == Got(Joined32(result, v, bitpos), tail)
  {
    assert (VarintBytes(v) + tail)[1..] == tail;
  }

  /** A digit that is not the last one: what has been read and what is left keep their sum. */
  lemma NextDigit32(v: nat, tail: seq<Byte>, result: nat, bitpos: nat) returns (result': nat)
    requires v >= 128 && result < Shl(1, bitpos) && Shl(v, bitpos) < TWO_32
    ensures ReadVarint32From(VarintBytes(v) + tail, result, bitpos)
            == ReadVarint32From(VarintBytes(v / 128) + tail, result', bitpos + 7)
    ensures result' < Shl(1, bitpos + 7) && Shl(v / 128, bitpos + 7) <= Shl(v, bitpos)
    ensures result' + Shl(v / 128, bitpos + 7) == result + Shl(v, bitpos)
  {
    Below32(v, bitpos);
    SplitDigit(v, bitpos);
    JoinDigit32(result, v % 128 + 128, bitpos);
    BelowNext(result, v % 128, bitpos);
    MoreDigits32(v, tail, result, bitpos);
    result' := result + Shl(v % 128, bitpos);
  }

  lemma {:induction false} ReadsBack32(v: nat, tail: seq<Byte>, result: nat, bitpos: nat)
    requires v > 0 && result < Shl(1, bitpos) && Shl(v, bitpos) < TWO_32
    ensures ReadVarint32From(VarintBytes(v) + tail, result, bitpos) == Got(result + Shl(v, bitpos), tail)
    decreases v
  {
    if v < 128 {
      Below32(v, bitpos);
      JoinDigit32(result, v, bitpos);
      LastDigit32(v, tail, result, bitpos);
    } else {
      var result' := NextDigit32(v, tail, result, bitpos);
      ReadsBack32(v / 128, tail, result', bitpos + 7);
    }
  }

  /** Every 32-bit number comes back from a 32-bit decode. */
  lemma Varint32RoundTrip(v: Word32, tail: seq<Byte>)
    ensures ReadVarint32(VarintBytes(v) + tail) == Got(v, tail)
  {
    if v < 128 {
      assert (VarintBytes(v) + tail)[1..] == tail;
    } else {
      FirstDigit(v, tail);
      ReadsBack32(v / 128, tail, v % 128, 7);
    }
  }

  /** A digit that lies wholly within the low 28 bits. */
  lemma DigitBelow28(v: nat, tail: seq<Byte>, result: nat, bitpos: nat)
    requires v >= 128 && result < Shl(1, bitpos) && bitpos + 7 <= 28
    ensures var result' := result + Shl(v % 128, bitpos);
            && ReadVarint32From(VarintBytes(v) + tail, result, bitpos)
               == ReadVarint32From(VarintBytes(v / 128) + tail, result', bitpos + 7)
            && result' < Shl(1, bitpos + 7)
            && result' + Shl(v / 128, bitpos + 7) == result + Shl(v, bitpos)
  {
    SplitDigit(v, bitpos);
    BelowNext(result, v % 128, bitpos);
    ShlFurther(1, bitpos + 7, 28);
    Shl28(1);
    JoinDigit32(result, v % 128 + 128, bitpos);
    MoreDigits32(v, tail, result, bitpos);
  }

  lemma TopBits(d: Byte)
    requires d < 128
    ensures Shl(d, 28) % TWO_32 == Shl(d % 16, 28) == 0x1000_0000 * (d % 16)
  {
    Shl28(d);
    Shl28(d % 16);
    assert 0x1000_0000 * d == 0x1000_0000 * (d % 16) + TWO_32 * (d / 16);
  }

  /** The fifth digit fills the top four bits of the result. */
  lemma FifthDigit(v: nat, tail: seq<Byte>, result: nat)
    requires v >= 128 && result < 0x1000_0000
    ensures ReadVarint32From(VarintBytes(v) + tail, result, 28)
            == ReadVarint32From(VarintBytes(v / 128) + tail, result + 0x1000_0000 * (v % 128 % 16), 35)
  {
    var byte: Byte := v % 128 + 128;
    assert byte % 128 == v % 128;
    JoinFifth(result, byte);
    MoreDigits32(v, tail, result, 28);
  }

  lemma JoinFifth(result: nat, byte: Byte)
    requires result < 0x1000_0000
    ensures Joined32(result, byte, 28) == result + 0x1000_0000 * (byte % 128 % 16)
  {
    Shl28(1);
    TopBits(byte % 128);
    OrAdds(result, byte % 128 % 16, 28);
  }

  /** What follows the fifth digit of a sign-extended number changes nothing. */
  lemma SignExtension(tail: seq<Byte>, result: nat)
    requires 0x8000_0000 <= result < TWO_32
    ensures ReadVarint32From(VarintBytes(0x1FFF_FFFF) + tail, result, 35) == Got(result, tail)
  {
    Extend(0x1FFF_FFFF, tail, result, 35);
    Extend(0x3F_FFFF, tail, result, 42);
    Extend(0x7FFF, tail, result, 49);
    Extend(0xFF, tail, result, 56);
    LastExtension(tail, result);
  }

  lemma LastExtension(tail: seq<Byte>, result: nat)
    requires 0x8000_0000 <= result < TWO_32
    ensures ReadVarint32From(VarintBytes(1) + tail, result, 63) == Got(result, tail)
  {
    assert (VarintBytes(1) + tail)[1..] == tail;
  }

  /** A digit of ones beyond the fifth is skipped. */
  lemma Extend(v: nat, tail: seq<Byte>, result: nat, bitpos: nat)
    requires 0x8000_0000 <= result < TWO_32 && 32 <= bitpos < 63 && v >= 128 && v % 128 == 127
    ensures ReadVarint32From(VarintBytes(v) + tail, result, bitpos)
            == ReadVarint32From(VarintBytes(v / 128) + tail, result, bitpos + 7)
  {
    assert (VarintBytes(v) + tail)[1..] == VarintBytes(v / 128) + tail;
  }

  /** The digits below bit 28, for a number that reaches beyond it. */
  lemma {:induction false} DigitsTo28(v: nat, tail: seq<Byte>, r: nat, bitpos: nat) returns (high: nat, r': nat)
    requires bitpos <= 28 && bitpos % 7 == 0 && r < Shl(1, bitpos) && Shl(1, 28) <= r + Shl(v, bitpos)
    ensures ReadVarint32From(VarintBytes(v) + tail, r, bitpos) == ReadVarint32From(VarintBytes(high) + tail, r', 28)
    ensures r' < Shl(1, 28) && r' + Shl(high, 28) == r + Shl(v, bitpos)
    decreases 28 - bitpos
  {
    if bitpos == 28 {
      return v, r;
    }
    HasMore(v, r, bitpos);
    DigitBelow28(v, tail, r, bitpos);
    high, r' := DigitsTo28(v / 128, tail, r + Shl(v % 128, bitpos), bitpos + 7);
  }

  lemma HasMore(v: nat, r: nat, bitpos: nat)
    requires bitpos + 7 <= 28 && r < Shl(1, bitpos) && Shl(1, 28) <= r + Shl(v, bitpos)
    ensures v >= 128
  {
    ShlFurther(1, bitpos + 7, 28);
    if v < 128 {
      BelowNext(r, v, bitpos);
    }
  }

  lemma FirstDigit(v: nat, tail: seq<Byte>)
    requires v >= 128
    ensures ReadVarint32(VarintBytes(v) + tail) == ReadVarint32From(VarintBytes(v / 128) + tail, v % 128, 7)
    ensures v % 128 < Shl(1, 7) && v % 128 + Shl(v / 128, 7) == v
  {
    FirstDigitRead(v, tail);
    Shl7(1);
    Shl7(v / 128);
  }

  lemma FirstDigitRead(v: nat, tail: seq<Byte>)
    requires v >= 128
    ensures ReadVarint32(VarintBytes(v) + tail) == ReadVarint32From(VarintBytes(v / 128) + tail, v % 128, 7)
  {
    DigitAhead(v, tail);
    FirstByteRead(VarintBytes(v) + tail, v % 128, VarintBytes(v / 128) + tail);
  }

  lemma FirstByteRead(x: seq<Byte>, low: nat, rest: seq<Byte>)
    requires low < 128 && |x| > 0 && x[0] == low + 128 && x[1..] == rest
    ensures ReadVarint32(x) == ReadVarint32From(rest, low, 7)
  {
  }

  /** The first byte of a number of more than one digit, and the bytes after it. */
  lemma DigitAhead(v: nat, tail: seq<Byte>)
    requires v >= 128
    ensures var x := VarintBytes(v) + tail;
            |x| > 0 && x[0] == v % 128 + 128 && x[1..] == VarintBytes(v / 128) + tail
  {
  }

  lemma FourDigits(v: nat, tail: seq<Byte>)
    requires v >= 0x1000_0000
    ensures ReadVarint32(VarintBytes(v) + tail)
            == ReadVarint32From(VarintBytes(v / 0x1000_0000) + tail, v % 0x1000_0000, 28)
  {
    FirstDigit(v, tail);
    Shl28(1);
    var high, low := DigitsTo28(v / 128, tail, v % 128, 7);
    LowAndHigh(v, low, high);
  }

  lemma LowAndHigh(v: nat, low: nat, high: nat)
    requires low < Shl(1, 28) && low + Shl(high, 28) == v
    ensures low == v % 0x1000_0000 && high == v / 0x1000_0000
  {
    Shl28(1);
    Shl28(high);
  }

  lemma HighDigits(v: Word64)
    requires v >= TWO_64 - 0x8000_0000
    ensures v / 0x1000_0000 / 128 == 0x1FFF_FFFF && 0x8000_0000 <= v % TWO_32
    ensures v % 0x1000_0000 + 0x1000_0000 * (v / 0x1000_0000 % 128 % 16) == v % TWO_32
  {
  }

  /** A negative 32-bit number, encoded sign-extended to 64 bits, comes back modulo 2^32. */
  lemma NegativeVarint32(v: Word64, tail: seq<Byte>)
    requires v >= TWO_64 - 0x8000_0000
    ensures ReadVarint32(VarintBytes(v) + tail) == Got(v % TWO_32, tail)
  {
    var top, low := v / 0x1000_0000, v % 0x1000_0000;
    FourDigits(v, tail);
    FifthDigit(top, tail, low);
    HighDigits(v);
    SignExtension(tail, v % TWO_32);
  }

  // ---------- Zigzag ----------

  /** Shifted left by one, with all bits inverted for a negative number. */
  function ZigZag(n: Int64): (v: Word64)
    ensures n >= 0 ==> v == 2 * n
    ensures n < 0 ==> v == -2 * n - 1
  {
    if n < 0 then TWO_64 - 1 - (n + TWO_64) * 2 % TWO_64 else n * 2 % TWO_64
  }

  /** The two's complement reading of a 64-bit number. */
  function Signed64(v: Word64): Int64 {
    if v >= 0x8000_0000_0000_0000 then v - TWO_64 else v
  }

  function UnZigZag(v: Word64): (n: Int64)
    ensures v % 2 == 0 ==> n == v / 2
    ensures v % 2 == 1 ==> n == -(v / 2) - 1
  {
    if v % 2 == 1 then Signed64(TWO_64 - 1 - v / 2) else Signed64(v / 2)
  }

  /**
   * Zigzag is a bijection between signed and unsigned 64-bit numbers that takes
   * 0, -1, 1, -2, 2 and so on to 0, 1, 2, 3, 4 and so on, and keeps small numbers small.
   */
  lemma ZigZagInverse(n: Int64, v: Word64)
    ensures UnZigZag(ZigZag(n)) == n && ZigZag(UnZigZag(v)) == v
    ensures ZigZag(n) == if n >= 0 then 2 * n else -2 * n - 1
    ensures UnZigZag(v) == if v % 2 == 0 then v / 2 else -(v / 2) - 1
    ensures forall m: int :: -m <= n < m ==> ZigZag(n) < 2 * m
  {
  }

  method EncodeSVarint(stream: OutStream, value: Int64) returns (ok: bool)
    requires stream.Valid()
    modifies stream, stream.buffer
    ensures stream.Valid()
    ensures Emits(old(stream.View()), stream.View(),
                  Some(VarintBytes(if value >= 0 then 2 * value else -2 * value - 1)), ok)
  {
    var zigzagged: Word64;
    if value < 0 {
      zigzagged := TWO_64 - 1 - (value + TWO_64) * 2 % TWO_64;
    } else {
      zigzagged := value * 2 % TWO_64;
    }
    ok := EncodeVarint(stream, zigzagged);
  }

  // ---------- Fixed width ----------

  method EncodeFixed32(stream: OutStream, value: Word32) returns (ok: bool)
    requires stream.Valid()
    modifies stream, stream.buffer
    ensures stream.Valid() && Emits(old(stream.View()), stream.View(), Some(FixedBytes(value, 4)), ok)
  {
    var bytes: seq<Byte> := [value % 256, value / 0x100 % 256, value / 0x1_0000 % 256, value / 0x100_0000 % 256];
    FourBytes(value);
    ok := stream.Write(bytes);
  }

  method EncodeFixed64(stream: OutStream, value: Word64) returns (ok: bool)
    requires stream.Valid()
    modifies stream, stream.buffer
    ensures stream.Valid() && Emits(old(stream.View()), stream.View(), Some(FixedBytes(value, 8)), ok)
  {
    var high := value / TWO_32;
    var bytes: seq<Byte> := [value % 256, value / 0x100 % 256, value / 0x1_0000 % 256, value / 0x100_0000 % 256,
                             high % 256, high / 0x100 % 256, high / 0x1_0000 % 256, high / 0x100_0000 % 256];
    TwoFours(value);
    FourBytes(value);
    FourBytes(high);
    ok := stream.Write(bytes);
  }

  lemma FourBytes(v: nat)
    ensures FixedBytes(v, 4) == [v % 256, v / 0x100 % 256, v / 0x1_0000 % 256, v / 0x100_0000 % 256]
  {
    assert FixedBytes(v / 0x1_0000, 2) == [v / 0x1_0000 % 256, v / 0x100_0000 % 256] + FixedBytes(v / TWO_32, 0);
    assert FixedBytes(v, 4) == [v % 256, v / 0x100 % 256] + FixedBytes(v / 0x1_0000, 2);
  }

  lemma TwoFours(v: nat)
    ensures FixedBytes(v, 8) == FixedBytes(v, 4) + FixedBytes(v / TWO_32, 4)
  {
    var v1 := v / 256;
    var v2 := v1 / 256;
    var v3 := v2 / 256;
    assert v3 / 256 == v / TWO_32;
    assert FixedBytes(v, 8) == [v % 256] + FixedBytes(v1, 7);
    assert FixedBytes(v1, 7) == [v1 % 256] + FixedBytes(v2, 6);
    assert FixedBytes(v2, 6) == [v2 % 256] + FixedBytes(v3, 5);
    assert FixedBytes(v, 4) == [v % 256] + FixedBytes(v1, 3);
    assert FixedBytes(v1, 3) == [v1 % 256] + FixedBytes(v2, 2);
    assert FixedBytes(v2, 2) == [v2 % 256] + FixedBytes(v3, 1);
    assert FixedBytes(v3, 1) == [v3 % 256];
  }

  /** Reading a number of `width` bytes, least significant first. */
  function ReadFixed(bytes: seq<Byte>, width: nat): (r: Read<nat>)
    ensures r.Got? ==> |r.rest| <= |bytes|
  {
    if |bytes| < width then Fail else Got(FixedValue(bytes[..width]), bytes[width..])
  }

  lemma Pow256Is()
    ensures Pow256(4) == TWO_32 && Pow256(8) == TWO_64
  {
    assert Pow256(6) == 256 * 256 * Pow256(4);
  }

  lemma FixedReadsBack(v: nat, width: nat, tail: seq<Byte>)
    requires v < Pow256(width)
    ensures ReadFixed(FixedBytes(v, width) + tail, width) == Got(v, tail)
  {
    FixedRoundTrip(v, width);
    assert (FixedBytes(v, width) + tail)[..width] == FixedBytes(v, width);
    assert (FixedBytes(v, width) + tail)[width..] == tail;
  }

  method DecodeFixed(stream: InStream, width: nat) returns (ok: bool, dest: nat)
    requires stream.Valid()
    modifies stream
    ensures stream.Valid() && stream.End() == old(stream.End())
    ensures var r := ReadFixed(old(stream.Rest()), width);
            ok == r.Got? && (ok ==> dest == r.value && stream.Rest() == r.rest)
  {
    var data;
    ok, data := stream.ReadN(width);
    dest := FixedValue(data);
  }
}
