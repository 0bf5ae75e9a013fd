/**
 * The wire format of messages as a grammar of its own, with the numbers that the
 * format fixes.
 */
module WireFormat {
  import opened Bytes
  import opened Streams
  import opened Varint
  import opened LongVarint

  // ---------- Varints ----------

  /** Every byte but the last has its top bit set. */
  predicate IsVarint(x: seq<Byte>) {
    && x != [] && x[|x| - 1] < 128
    && forall i :: 0 <= i < |x| - 1 ==> x[i] >= 128
  }

  lemma VarintUnfolds(x: seq<Byte>)
    requires x != []
    ensures IsVarint(x) <==> if x[0] < 128 then |x| == 1 else IsVarint(x[1..])
  {
    if x[0] >= 128 && IsVarint(x[1..]) {
      forall i | 0 <= i < |x| - 1 ensures x[i] >= 128 {
        assert i > 0 ==> x[i] == x[1..][i - 1];
      }
    }
  }

  /**
   * The encoding of a number is the varint whose low seven bits of each byte, the
   * lowest first, make up the number, without a zero at the end.
   */
  lemma {:induction false} VarintBytesAre(v: nat, x: seq<Byte>)
    ensures x == VarintBytes(v) <==>
            IsVarint(x) && Value(x) == v && (|x| > 1 ==> x[|x| - 1] != 0)
    decreases |x|
  {
    if x == [] {
    } else {
      VarintUnfolds(x);
      if |x| > 1 {
        VarintBytesAre(v / 128, x[1..]);
        assert x == [x[0]] + x[1..];
      } else {
        assert x[1..] == [];
      }
    }
  }

  // ---------- Fields ----------

  /** What may follow a tag. */
  datatype Payload =
    | AVarint(digits: seq<Byte>)
    | Eight(bytes: seq<Byte>)
    | Chunk(bytes: seq<Byte>)
    | Four(bytes: seq<Byte>)

  predicate Proper(p: Payload) {
    match p
    case AVarint(digits) => IsVarint(digits)
    case Eight(bytes) => |bytes| == 8
    case Chunk(bytes) => |bytes| < 0x1_0000_0000
    case Four(bytes) => |bytes| == 4
  }

  /** A field: its number and type as a varint, and then a varint, 8 bytes, a length and that many bytes, or 4 bytes. */
  function FieldBytes(tag: nat, p: Payload): seq<Byte> {
    match p
    case AVarint(digits) => VarintBytes(8 * tag) + digits
    case Eight(bytes) => VarintBytes(8 * tag + 1) + bytes
    case Chunk(bytes) => VarintBytes(8 * tag + 2) + (VarintBytes(|bytes|) + bytes)
    case Four(bytes) => VarintBytes(8 * tag + 5) + bytes
  }
}
