/**
 * The bytes of a log, written out with the numbers of its format, and what a
 * reader makes of bytes that are given in that way.
 */
module LogBytes {
  import opened Bytes
  import opened LogFormat
  import opened LogReader
  import opened LogRecovery
  import D = LogDamage
  import V = Varint

  // ---------- The checksum as it is stored ----------

  /** Bit `i` of a number. */
  predicate BitAt(w: nat, i: nat) {
    if i == 0 then w % 2 == 1 else BitAt(w / 2, i - 1)
  }

  /** The bits of two numbers side by side. */
  lemma {:induction false} BitsJoin(a: nat, b: nat, k: nat, i: nat)
    requires a < V.Shl(1, k)
    ensures BitAt(a + V.Shl(b, k), i) == if i < k then BitAt(a, i) else BitAt(b, i - k)
    decreases k
  {
    if k == 0 {
    } else {
      var rest := V.Shl(b, k - 1);
      assert (a + 2 * rest) % 2 == a % 2 && (a + 2 * rest) / 2 == a / 2 + rest;
      if i > 0 {
        BitsJoin(a / 2, b, k - 1, i - 1);
      }
    }
  }

  /** `rot` is `w` rotated right by 15 places in 32 bits. */
  ghost predicate Rotated(w: nat, rot: nat) {
    rot < 0x1_0000_0000 && forall i {:trigger BitAt(rot, i)} :: 0 <= i < 32 ==> BitAt(rot, i) == BitAt(w, (i + 15) % 32)
  }

  lemma PlacesOf15And17(x: nat)
    ensures V.Shl(x, 15) == 32768 * x && V.Shl(x, 17) == 131072 * x
  {
    V.Shl7(x);
    V.ShlTwice(x, 7, 7);
    V.Shl7(V.Shl(x, 7));
    assert V.Shl(x, 15) == 2 * V.Shl(x, 14);
    assert V.Shl(x, 16) == 2 * V.Shl(x, 15);
  }

  /** The stored checksum is the computed one rotated, with a constant added in 32 bits. */
  lemma MaskRotates(crc: Word) returns (rot: nat)
    ensures Rotated(crc, rot) && Mask(crc) == (rot + 0xa282ead8) % 0x1_0000_0000
  {
    var hi, lo := crc / 32768, crc % 32768;
    rot := hi + lo * 131072;
    forall i {:trigger BitAt(rot, i)} | 0 <= i < 32 ensures BitAt(rot, i) == BitAt(crc, (i + 15) % 32) {
      RotatedBit(hi, lo, i);
    }
  }

  lemma RotatedBit(hi: nat, lo: nat, i: nat)
    requires hi < 131072 && lo < 32768 && i < 32
    ensures BitAt(hi + lo * 131072, i) == BitAt(lo + hi * 32768, if i < 17 then i + 15 else i - 17)
  {
    PlacesOf15And17(1);
    PlacesOf15And17(hi);
    PlacesOf15And17(lo);
    BitsJoin(hi, lo, 17, i);
    BitsJoin(lo, hi, 15, if i < 17 then i + 15 else i - 17);
  }

  /** Numbers of `k` bits are the same if their bits are. */
  lemma {:induction false} SameBits(a: nat, b: nat, k: nat)
    requires a < V.Shl(1, k) && b < V.Shl(1, k)
    requires forall i {:trigger BitAt(a, i)} :: 0 <= i < k ==> BitAt(a, i) == BitAt(b, i)
    ensures a == b
    decreases k
  {
    if k == 0 {
    } else {
      assert BitAt(a, 0) == BitAt(b, 0);
      forall i {:trigger BitAt(a / 2, i)} | 0 <= i < k - 1 ensures BitAt(a / 2, i) == BitAt(b / 2, i) {
        assert BitAt(a, i + 1) == BitAt(b, i + 1);
      }
      SameBits(a / 2, b / 2, k - 1);
    }
  }

  lemma RotationIsUnique(w: nat, a: nat, b: nat)
    requires Rotated(w, a) && Rotated(w, b)
    ensures a == b
  {
    V.ShlOf64();
    SameBits(a, b, 32);
  }

  // ---------- Fragments ----------

  /** What four bytes hold, least significant first. */
  function Little(a: Byte, b: Byte, c: Byte, d: Byte): nat {
    a + 256 * (b + 256 * (c + 256 * d))
  }

  /**
   * One fragment as the format describes it: four bytes of checksum over the type
   * and the payload, two of length, least significant first, the type, the payload.
   */
  ghost predicate IsFragment(crc: Crc, t: Byte, data: seq<Byte>, bs: seq<Byte>) {
    && |data| < 65536 && |bs| == 7 + |data|
    && (exists rot: nat {:trigger Rotated(crc([t] + data), rot)} :: Rotated(crc([t] + data), rot)
          && Little(bs[0], bs[1], bs[2], bs[3]) == (rot + 0xa282ead8) % 0x1_0000_0000)
    && bs[4] == |data| % 256 && bs[5] == |data| / 256 && bs[6] == t && bs[7..] == data
  }

  lemma FixedFour(a: Byte, b: Byte, c: Byte, d: Byte)
    ensures FixedBytes(Little(a, b, c, d), 4) == [a, b, c, d]
  {
    LowByte(a, b + 256 * (c + 256 * d), 3);
    LowByte(b, c + 256 * d, 2);
    LowByte(c, d, 1);
    LowByte(d, 0, 0);
  }

  lemma FragmentParts(crc: Crc, t: Byte, data: seq<Byte>)
    requires |data| < 65536
    ensures Fragment(crc, t, data)
            == FixedBytes(Mask(crc([t] + data)), 4) + ([|data| % 256, |data| / 256, t] + data)
  {
    Regrouped(FixedBytes(Mask(crc([t] + data)), 4), [|data| % 256, |data| / 256, t], data);
  }

  /** Four bytes hold the stored checksum exactly when they are those of its number. */
  lemma SumBytes(w: Word, a: Byte, b: Byte, c: Byte, d: Byte)
    ensures [a, b, c, d] == FixedBytes(Mask(w), 4) <==>
            exists rot: nat {:trigger Rotated(w, rot)} ::
              Rotated(w, rot) && Little(a, b, c, d) == (rot + 0xa282ead8) % 0x1_0000_0000
  {
    var rot := MaskRotates(w);
    FixedFour(a, b, c, d);
    if [a, b, c, d] == FixedBytes(Mask(w), 4) {
      DecodeFixed32Undoes(Mask(w));
      DecodeFixed32Undoes(Little(a, b, c, d));
    }
    if r: nat :| Rotated(w, r) && Little(a, b, c, d) == (r + 0xa282ead8) % 0x1_0000_0000 {
      RotationIsUnique(w, r, rot);
    }
  }

  /** The bytes of a fragment are exactly those that the format describes. */
  lemma FragmentBytes(crc: Crc, t: Byte, data: seq<Byte>, bs: seq<Byte>)
    requires |data| < 65536
    ensures bs == Fragment(crc, t, data) <==> IsFragment(crc, t, data, bs)
  {
    FragmentParts(crc, t, data);
    if |bs| == 7 + |data| {
      SumBytes(crc([t] + data), bs[0], bs[1], bs[2], bs[3]);
      assert bs == [bs[0], bs[1], bs[2], bs[3]] + ([bs[4], bs[5], bs[6]] + bs[7..]);
    }
  }

  // ---------- Records ----------

  /** The type of a fragment: 1 for the only one of its record, 2 for the first, 4 for the last, 3 for any other. */
  function TypeCode(first: bool, last: bool): Byte {
    if first && last then 1 else if first then 2 else if last then 4 else 3
  }

  /** The fragments of a record one after the other, or, without its first, those that remain. */
  function Laid(crc: Crc, first: bool, parts: seq<seq<Byte>>): (bs: seq<Byte>)
    requires forall i :: 0 <= i < |parts| ==> |parts[i]| <= 32761
    decreases |parts|
  {
    if parts == [] then []
    else Fragment(crc, TypeCode(first, |parts| == 1), parts[0]) + Laid(crc, false, parts[1..])
  }

  /**
   * Behind its header in a block of 32768 bytes, where it starts at `start`, each
   * part but the last fills the block, and the last fits; only a first part may be empty.
   */
  predicate FillsBlocks(parts: seq<seq<Byte>>, start: nat)
    ensures FillsBlocks(parts, start) ==> forall i :: 0 <= i < |parts| ==> |parts[i]| <= 32761
    decreases |parts|
  {
    && parts != [] && start + 7 + |parts[0]| <= 32768
    && (|parts| > 1 ==> start + 7 + |parts[0]| == 32768 && parts[1] != [] && FillsBlocks(parts[1..], 0))
  }

  /** The bytes that are left in a block when a header of 7 bytes no longer fits. */
  function Trailer(off: nat): nat
    requires off <= 32768
  {
    if 32768 - off < 7 then 32768 - off else 0
  }

  /** Where the first header goes. */
  function Start(off: nat): nat
    requires off <= 32768
  {
    if 32768 - off < 7 then 0 else off
  }

  lemma NextFragment(crc: Crc, off: nat, begin: bool, data: seq<Byte>, n: nat)
    requires off <= 32768 && n == FragmentLength(off, |data|)
    ensures n == |data| ==> Emitted(crc, off, begin, data)
                            == Zeros(Trailer(off)) + Fragment(crc, TypeCode(begin, true), data)
    ensures n < |data| ==> Emitted(crc, off, begin, data)
                           == Zeros(Trailer(off)) + (Fragment(crc, TypeCode(begin, false), data[..n])
                                                     + Emitted(crc, 32768, false, data[n..]))
  {
    if n == |data| {
      assert data[..n] == data;
    } else {
      Regrouped(Zeros(Trailer(off)), Fragment(crc, TypeCode(begin, false), data[..n]),
                Emitted(crc, 32768, false, data[n..]));
    }
  }

  /** What writing a record appends: zeros in a block that has no room for a header, and then its fragments. */
  lemma {:induction false} RecordBytes(crc: Crc, off: nat, begin: bool, data: seq<Byte>)
    returns (parts: seq<seq<Byte>>)
    requires off <= 32768
    ensures FillsBlocks(parts, Start(off)) && Concat(parts) == data
    ensures data != [] && Start(off) < 32761 ==> parts[0] != []
    ensures Emitted(crc, off, begin, data) == Zeros(Trailer(off)) + Laid(crc, begin, parts)
    decreases |data|, if FragmentLength(off, |data|) == 0 then 1 else 0
  {
    var n := FragmentLength(off, |data|);
    NextFragment(crc, off, begin, data, n);
    if n == |data| {
      parts := [data];
      assert data + [] == data;
      var f := Fragment(crc, TypeCode(begin, true), data);
      assert f + [] == f;
    } else {
      var rest := RecordBytes(crc, 32768, false, data[n..]);
      parts := [data[..n]] + rest;
      assert parts[1..] == rest && data[..n] + data[n..] == data;
      assert Zeros(0) + Laid(crc, false, rest) == Laid(crc, false, rest);
    }
  }

  /** Fragments laid out in that way are what a writer appends for their joined payloads. */
  lemma {:induction false} LaidIsWritten(crc: Crc, off: nat, first: bool, parts: seq<seq<Byte>>)
    requires off <= 32768 && FillsBlocks(parts, Start(off))
    ensures Emitted(crc, off, first, Concat(parts)) == Zeros(Trailer(off)) + Laid(crc, first, parts)
    decreases |parts|
  {
    var data := Concat(parts);
    var n := FragmentLength(off, |data|);
    NextFragment(crc, off, first, data, n);
    if |parts| == 1 {
      LaidLast(crc, first, parts);
    } else {
      var rest := parts[1..];
      LaidIsWritten(crc, 32768, false, rest);
      assert Zeros(0) + Laid(crc, false, rest) == Laid(crc, false, rest);
      ConcatParts(parts);
    }
  }

  lemma LaidLast(crc: Crc, first: bool, parts: seq<seq<Byte>>)
    requires |parts| == 1 && |parts[0]| <= 32761
    ensures Concat(parts) == parts[0] && Laid(crc, first, parts) == Fragment(crc, TypeCode(first, true), parts[0])
  {
    assert parts[1..] == [];
    assert parts[0] + [] == parts[0];
    var f := Fragment(crc, TypeCode(first, true), parts[0]);
    assert f + [] == f;
  }

  lemma ConcatParts(parts: seq<seq<Byte>>)
    requires parts != []
    ensures var data, k := Concat(parts), |parts[0]|;
            k <= |data| && data[..k] == parts[0] && data[k..] == Concat(parts[1..])
    ensures |parts| > 1 && parts[1] != [] ==> |parts[0]| < |Concat(parts)|
  {
  }

  /** A file that holds one record, laid out so, reads back as that record without a report. */
  lemma LaidReadsBack(crc: Crc, parts: seq<seq<Byte>>)
    requires FillsBlocks(parts, 0)
    ensures var (read, c) := ReadAll(crc, Laid(crc, true, parts), START); read == [Concat(parts)] && c.drops == []
  {
    var data := Concat(parts);
    LaidIsWritten(crc, 0, true, parts);
    assert Zeros(0) + Laid(crc, true, parts) == Laid(crc, true, parts);
    OneRecordLog(crc, data);
    RoundTrip(crc, [data]);
  }

  lemma OneRecordLog(crc: Crc, data: seq<Byte>)
    ensures Log(crc, 0, [data]) == Emitted(crc, 0, true, data)
  {
    assert Emitted(crc, 0, true, data) + [] == Emitted(crc, 0, true, data);
  }

  /** So does a file of seven bytes of header, with type 1, and the record. */
  lemma ReadsWholeRecord(crc: Crc, data: seq<Byte>, file: seq<Byte>)
    requires |data| <= 32761 && IsFragment(crc, 1, data, file)
    ensures ReadLogical(crc, file, START, false, []).found && ReadLogical(crc, file, START, false, []).record == data
    ensures var (read, c) := ReadAll(crc, file, START); read == [data] && c.drops == []
  {
    FragmentBytes(crc, 1, data, file);
    LaidOne(crc, data);
    LaidReadsBack(crc, [data]);
    AllUnfolds(crc, file, START);
  }

  lemma LaidOne(crc: Crc, data: seq<Byte>)
    requires |data| <= 32761
    ensures FillsBlocks([data], 0) && Concat([data]) == data && Laid(crc, true, [data]) == Fragment(crc, 1, data)
  {
    LaidLast(crc, true, [data]);
  }

  // ---------- Fragments that belong to no record ----------

  /** What has been reported does not matter for what is read. */
  lemma SameHeader(crc: Crc, file: seq<Byte>, c: Cursor, drops: seq<nat>)
    requires c.pos + HEADER_SIZE <= c.end <= |file| && ParseHeader(crc, file, c).next.drops == c.drops
    ensures var p := ParseHeader(crc, file, c);
            ParseHeader(crc, file, c.(drops := drops)) == p.(next := p.next.(drops := drops))
  {
  }

  lemma SamePhysical(crc: Crc, file: seq<Byte>, c: Cursor, drops: seq<nat>)
    requires c.pos <= c.end <= |file| && ReadPhysical(crc, file, c).next.drops == c.drops
    ensures var p := ReadPhysical(crc, file, c);
            ReadPhysical(crc, file, c.(drops := drops)) == p.(next := p.next.(drops := drops))
  {
    var c' := Refilled(file, c);
    assert Refilled(file, c.(drops := drops)) == c'.(drops := drops);
    if c'.end - c'.pos >= HEADER_SIZE {
      SameHeader(crc, file, c', drops);
    }
  }

  /** Reading a record that breaks off before its last fragment, and the one that begins there. */
  lemma BreaksOff(reading: Readings, crc: Crc, file: seq<Byte>, c: Cursor, data: seq<Byte>)
    requires c.pos <= c.end <= |file| && IsReading(crc, file, reading)
    requires var p := ReadPhysical(crc, file, c); p.next.drops == c.drops && (p.typ == 1 || p.typ == 2)
    ensures reading(c, true, data) == reading(if data != [] then Drop(c, |data|) else c, false, [])
  {
    LogicalResumes(crc, file, c, true, data);
    if data != [] {
      SamePhysical(crc, file, c, c.drops + [|data|]);
      LogicalResumes(crc, file, Drop(c, |data|), false, []);
    } else {
      LogicalResumes(crc, file, c, false, []);
    }
  }

  /** The first fragment of a log that is not empty has type 1 or 2. */
  lemma LogBegins(crc: Crc, w: seq<Byte>, c: Cursor, off: nat, records: seq<seq<Byte>>)
    requires off <= BLOCK_SIZE && c.pos % BLOCK_SIZE == off % BLOCK_SIZE && Aligned(|w|, c)
    requires records != [] && HasAt(w, c.pos, Log(crc, off, records)) && |w| == c.pos + |Log(crc, off, records)|
    ensures var p := ReadPhysical(crc, w, c); p.next.drops == c.drops && (p.typ == 1 || p.typ == 2)
  {
    var k := FragmentLength(off, |records[0]|);
    LogParts(crc, w, c.pos, off, records);
    var after, end := NextPiece(crc, w, c.pos, off, true, records[0], k);
    ReadsFragment(crc, w, |w|, c, off, FragmentType(true, k == |records[0]|), records[0][..k]);
    assert w[..|w|] == w;
  }

  /** What a stray fragment adds to the reports. */
  function Stray(t: Byte, data: seq<Byte>, next: bool): seq<nat> {
    if t == 2 && (data == [] || !next) then [] else [|data|]
  }

  /** A fragment at the start of a file. */
  lemma MeetsFragment(crc: Crc, t: Byte, data: seq<Byte>, rest: seq<Byte>) returns (p: Physical)
    requires 0 < t && 7 + |data| <= 32768
    ensures var w := Fragment(crc, t, data) + rest;
            && p == ReadPhysical(crc, w, START) && p.typ == t && p.data == data
            && p.next.pos == 7 + |data| && p.next.drops == [] && Aligned(|w|, p.next)
  {
    var w := Fragment(crc, t, data) + rest;
    assert w[..|w|] == w && HasAt(w, 0, Fragment(crc, t, data));
    ReadsFragment(crc, w, |w|, START, 0, t, data);
    p := ReadPhysical(crc, w, START);
  }

  lemma StrayGathers(p: Physical)
    requires 1 < p.typ && p.typ != 5 && p.typ != 6
    ensures Gather(p, false, []) == if p.typ == 2 then More(p.next, true, p.data)
                                    else More(Drop(p.next, |p.data|), false, [])
  {
  }

  /** Where reading goes on behind a stray fragment. */
  lemma PassesStray(reading: Readings, crc: Crc, t: Byte, data: seq<Byte>, rest: seq<Byte>, w: seq<Byte>)
    returns (c: Cursor)
    requires 1 < t && t != 5 && t != 6 && 7 + |data| <= 32768
    requires w == Fragment(crc, t, data) + rest && IsReading(crc, w, reading)
    ensures c.pos == 7 + |data| && Aligned(|w|, c) && c.drops == if t == 2 then [] else [|data|]
    ensures reading(START, false, []) == if t == 2 then reading(c, true, data) else reading(c, false, [])
  {
    var p := MeetsFragment(crc, t, data, rest);
    LogicalResumes(crc, w, START, false, []);
    StrayGathers(p);
    c := if t == 2 then p.next else Drop(p.next, |data|);
  }

  lemma NothingFollows(reading: Readings, all: AllReadings, crc: Crc, w: seq<Byte>, c: Cursor, data: seq<Byte>)
    requires IsReading(crc, w, reading) && IsAllReading(crc, w, all)
    requires Aligned(|w|, c) && c.pos == |w| && c.drops == [] && reading(START, false, []) == reading(c, true, data)
    ensures all(START).0 == [] && all(START).1.drops == []
  {
    LogicalResumes(crc, w, c, true, data);
    AllUnfolds(crc, w, START);
  }

  /** The records behind a stray fragment, if any. */
  lemma ReadsBehind(reading: Readings, all: AllReadings, crc: Crc, w: seq<Byte>, c: Cursor, off: nat, t: Byte,
                    data: seq<Byte>, records: seq<seq<Byte>>)
    requires IsReading(crc, w, reading) && IsAllReading(crc, w, all)
    requires off <= BLOCK_SIZE && c.pos == off && Aligned(|w|, c)
    requires HasAt(w, off, Log(crc, off, records)) && |w| == off + |Log(crc, off, records)|
    requires c.drops == if t == 2 then [] else [|data|]
    requires reading(START, false, []) == if t == 2 then reading(c, true, data) else reading(c, false, [])
    ensures all(START).0 == records && all(START).1.drops == Stray(t, data, records != [])
  {
    if t == 2 && records == [] {
      NothingFollows(reading, all, crc, w, c, data);
    } else {
      var c' := c;
      if t == 2 {
        LogBegins(crc, w, c, off, records);
        BreaksOff(reading, crc, w, c, data);
        c' := if data != [] then Drop(c, |data|) else c;
      }
      assert w[..|w|] == w;
      D.SameReadingSameAll(reading, all, crc, w, START, c');
      D.ReadsOut(all, crc, w, |w|, c', off, records);
    }
  }

  /**
   * In front of a log, a fragment with a good checksum that belongs to no record is
   * reported with its length, be it a middle or last one without a first, a first
   * one without a last, or one of an unknown type; every record behind it is read.
   * A first fragment that ends the file is a torn record, which goes unreported.
   */
  lemma StrayFragment(crc: Crc, t: Byte, data: seq<Byte>, records: seq<seq<Byte>>)
    requires 1 < t && t != 5 && t != 6 && 7 + |data| <= 32768
    ensures var (read, c) := ReadAll(crc, Fragment(crc, t, data) + Log(crc, 7 + |data|, records), START);
            read == records && c.drops == Stray(t, data, records != [])
  {
    var log := Log(crc, 7 + |data|, records);
    var w := Fragment(crc, t, data) + log;
    assert HasAt(w, 7 + |data|, log);
    var c := PassesStray(ReadingOf(crc, w), crc, t, data, log, w);
    ReadsBehind(ReadingOf(crc, w), AllReadingOf(crc, w), crc, w, c, 7 + |data|, t, data, records);
  }
}
