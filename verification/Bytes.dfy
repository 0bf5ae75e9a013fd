/** Bytes and little-endian fixed-width integers, as both storage formats use them. */
module Bytes {
  type Byte = b: int | 0 <= b < 256

  const TWO_32: int := 0x1_0000_0000
  const TWO_64: int := 0x1_0000_0000_0000_0000

  /** The low `width` bytes of `v`, least significant first. */
  function FixedBytes(v: nat, width: nat): (bs: seq<Byte>)
    ensures |bs| == width
  {
    if width == 0 then [] else [v % 256] + FixedBytes(v / 256, width - 1)
  }

  lemma LowByte(low: Byte, high: nat, width: nat)
    ensures FixedBytes(low + 256 * high, width + 1) == [low] + FixedBytes(high, width)
  {
    assert (low + 256 * high) % 256 == low && (low + 256 * high) / 256 == high;
  }

  /** The number whose base-256 digits, least significant first, are `bs`. */
  function FixedValue(bs: seq<Byte>): (v: nat) {
    if bs == [] then 0 else bs[0] + 256 * FixedValue(bs[1..])
  }

  function Pow256(n: nat): (p: nat)
    ensures p > 0
  {
    if n == 0 then 1 else 256 * Pow256(n - 1)
  }

  lemma {:induction false} FixedRoundTrip(v: nat, width: nat)
    requires v < Pow256(width)
    ensures FixedValue(FixedBytes(v, width)) == v
  {
    if width == 0 {
    } else {
      FixedRoundTrip(v / 256, width - 1);
      assert FixedBytes(v, width)[1..] == FixedBytes(v / 256, width - 1);
    }
  }

  function Zeros(n: nat): (bs: seq<Byte>)
    ensures |bs| == n && forall i :: 0 <= i < n ==> bs[i] == 0
  {
    seq(n, _ => 0)
  }

  /** Strings of bytes one after the other. */
  function Concat(parts: seq<seq<Byte>>): (bs: seq<Byte>) {
    if parts == [] then [] else parts[0] + Concat(parts[1..])
  }

  lemma ConcatMore(x: seq<Byte>, rest: seq<seq<Byte>>)
    ensures Concat([x] + rest) == x + Concat(rest)
  {
    assert ([x] + rest)[1..] == rest;
  }

  lemma {:induction false} ConcatJoins(a: seq<seq<Byte>>, b: seq<seq<Byte>>)
    ensures Concat(a + b) == Concat(a) + Concat(b)
  {
    if a == [] {
      assert a + b == b;
    } else {
      ConcatJoins(a[1..], b);
      ConcatMore(a[0], a[1..] + b);
      assert a + b == [a[0]] + (a[1..] + b);
      assert a[0] + (Concat(a[1..]) + Concat(b)) == (a[0] + Concat(a[1..])) + Concat(b);
    }
  }
}
