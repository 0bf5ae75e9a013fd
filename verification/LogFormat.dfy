/** The log file: records cut into fragments so that no fragment crosses a block boundary. */
module LogFormat {
  import opened Bytes

  const BLOCK_SIZE: nat := 32768
  const HEADER_SIZE: nat := 7

  const ZERO_TYPE: Byte := 0
  const FULL_TYPE: Byte := 1
  const FIRST_TYPE: Byte := 2
  const MIDDLE_TYPE: Byte := 3
  const LAST_TYPE: Byte := 4

  // What the reader returns besides record types
  const EOF_RESULT: nat := 5
  const BAD_RECORD: nat := 6

  type Word = w: int | 0 <= w < TWO_32

  /** The checksum function; nothing but its being a function is used. */
  type Crc = seq<Byte> -> Word

  const MASK_DELTA: Word := 0xa282ead8

  /** Rotates right by 15 bits and adds a constant, in 32 bits. */
  function Mask(crc: Word): Word {
    (crc / 32768 + crc % 32768 * 131072 + MASK_DELTA) % TWO_32
  }

  function Unmask(masked: Word): Word {
    var rot := (masked - MASK_DELTA) % TWO_32;
    rot / 131072 + rot % 131072 * 32768
  }

  lemma UnmaskMask(crc: Word)
    ensures Unmask(Mask(crc)) == crc
  {
    var hi, lo := crc / 32768, crc % 32768;
    var rot := hi + lo * 131072;
    assert 0 <= rot < TWO_32;
    assert (Mask(crc) - MASK_DELTA) % TWO_32 == rot;
  }

  /** The 32-bit number stored in four bytes. */
  function DecodeFixed32(bs: seq<Byte>): Word
    requires |bs| == 4
  {
    bs[0] as int + 0x100 * bs[1] as int + 0x1_0000 * bs[2] as int + 0x100_0000 * bs[3] as int
  }

  lemma DecodeFixed32Undoes(w: Word)
    ensures DecodeFixed32(FixedBytes(w, 4)) == w
  {
    assert FixedBytes(w / 0x1_0000, 2) == [w / 0x1_0000 % 256, w / 0x100_0000 % 256] + FixedBytes(w / 0x1_0000_0000, 0);
    assert FixedBytes(w, 4) == [w % 256, w / 256 % 256] + FixedBytes(w / 0x1_0000, 2);
  }

  /** Checksum, length and type of a fragment. */
  function Header(crc: Crc, t: Byte, data: seq<Byte>): (h: seq<Byte>)
    requires |data| < 65536
    ensures |h| == HEADER_SIZE
  {
    FixedBytes(Mask(crc([t] + data)), 4) + [|data| % 256, |data| / 256, t]
  }

  function Fragment(crc: Crc, t: Byte, data: seq<Byte>): (bs: seq<Byte>)
    requires |data| < 65536
    ensures |bs| == HEADER_SIZE + |data|
  {
    Header(crc, t, data) + data
  }

  /** Bytes of trailer that a block has left when a header no longer fits. */
  function Padding(off: nat): nat
    requires off <= BLOCK_SIZE
  {
    if BLOCK_SIZE - off < HEADER_SIZE then BLOCK_SIZE - off else 0
  }

  /** Where in its block the next fragment starts. */
  function FragmentStart(off: nat): (start: nat)
    requires off <= BLOCK_SIZE
    ensures start + HEADER_SIZE <= BLOCK_SIZE
  {
    if BLOCK_SIZE - off < HEADER_SIZE then 0 else off
  }

  /** How much of `left` bytes fits into the next fragment. */
  function FragmentLength(off: nat, left: nat): (n: nat)
    requires off <= BLOCK_SIZE
    ensures n <= left && n < 65536
    ensures FragmentStart(off) + HEADER_SIZE + n <= BLOCK_SIZE
    ensures n < left ==> FragmentStart(off) + HEADER_SIZE + n == BLOCK_SIZE
  {
    var avail := BLOCK_SIZE - FragmentStart(off) - HEADER_SIZE;
    if left < avail then left else avail
  }

  function FragmentType(begin: bool, end: bool): Byte {
    if begin && end then FULL_TYPE else if begin then FIRST_TYPE else if end then LAST_TYPE else MIDDLE_TYPE
  }

  /** What writing the rest of a record appends, starting at offset `off` of a block. */
  function Emitted(crc: Crc, off: nat, begin: bool, data: seq<Byte>): (bs: seq<Byte>)
    requires off <= BLOCK_SIZE
    ensures |bs| >= HEADER_SIZE
    decreases |data|, if FragmentLength(off, |data|) == 0 then 1 else 0
  {
    var n := FragmentLength(off, |data|);
    var end := n == |data|;
    Zeros(Padding(off)) + Fragment(crc, FragmentType(begin, end), data[..n])
    + if end then [] else Emitted(crc, BLOCK_SIZE, false, data[n..])
  }

  /** The block offset after the rest of a record has been written. */
  function OffsetAfter(off: nat, left: nat): (off': nat)
    requires off <= BLOCK_SIZE
    ensures off' <= BLOCK_SIZE
    decreases left, if FragmentLength(off, left) == 0 then 1 else 0
  {
    var n := FragmentLength(off, left);
    if n == left then FragmentStart(off) + HEADER_SIZE + n else OffsetAfter(BLOCK_SIZE, left - n)
  }

  /** The length of what the next fragment appends, and of what follows it. */
  lemma EmittedLength(crc: Crc, off: nat, begin: bool, data: seq<Byte>)
    requires off <= BLOCK_SIZE
    ensures var n := FragmentLength(off, |data|);
            |Emitted(crc, off, begin, data)| ==
            Padding(off) + HEADER_SIZE + n + if n == |data| then 0 else |Emitted(crc, BLOCK_SIZE, false, data[n..])|
  {
  }

  /** A padded offset is the start of the next fragment, perhaps in the next block. */
  lemma PaddedOffset(off: nat)
    requires off <= BLOCK_SIZE
    ensures off + Padding(off) == FragmentStart(off) || off + Padding(off) == FragmentStart(off) + BLOCK_SIZE
  {
  }

  lemma NextBlock(p: nat)
    ensures (p + BLOCK_SIZE) % BLOCK_SIZE == p % BLOCK_SIZE
  {
  }

  /** The offset after a record is where its bytes end, up to whole blocks. */
  lemma {:induction false} OffsetFollows(crc: Crc, off: nat, begin: bool, data: seq<Byte>)
    requires off <= BLOCK_SIZE
    ensures OffsetAfter(off, |data|) % BLOCK_SIZE == (off + |Emitted(crc, off, begin, data)|) % BLOCK_SIZE
    decreases |data|, if FragmentLength(off, |data|) == 0 then 1 else 0
  {
    var n := FragmentLength(off, |data|);
    EmittedLength(crc, off, begin, data);
    PaddedOffset(off);
    var end := FragmentStart(off) + HEADER_SIZE + n;
    var tail := if n == |data| then 0 else |Emitted(crc, BLOCK_SIZE, false, data[n..])|;
    NextBlock(end + tail);
    if n < |data| {
      OffsetFollows(crc, BLOCK_SIZE, false, data[n..]);
    }
  }

  /** A writer that starts a block afresh writes what one at the end of a block writes. */
  lemma BlockEndIsBlockStart(crc: Crc, begin: bool, data: seq<Byte>)
    ensures Emitted(crc, BLOCK_SIZE, begin, data) == Emitted(crc, 0, begin, data)
    ensures OffsetAfter(BLOCK_SIZE, |data|) == OffsetAfter(0, |data|)
  {
    assert Zeros(Padding(BLOCK_SIZE)) == Zeros(Padding(0));
    var n := FragmentLength(0, |data|);
    assert FragmentLength(BLOCK_SIZE, |data|) == n;
  }

  /** The trailer stands apart from the fragments of a record. */
  lemma PaddingApart(crc: Crc, off: nat, begin: bool, data: seq<Byte>)
    requires off <= BLOCK_SIZE
    ensures Emitted(crc, off, begin, data) == Zeros(Padding(off)) + Emitted(crc, FragmentStart(off), begin, data)
    ensures OffsetAfter(off, |data|) == OffsetAfter(FragmentStart(off), |data|)
  {
    var n := FragmentLength(off, |data|);
    var f := Fragment(crc, FragmentType(begin, n == |data|), data[..n]);
    var tail := if n == |data| then [] else Emitted(crc, BLOCK_SIZE, false, data[n..]);
    assert n == FragmentLength(FragmentStart(off), |data|);
    assert Zeros(Padding(FragmentStart(off))) + f == f;
    Regrouped(Zeros(Padding(off)), f, tail);
  }

  lemma Regrouped(a: seq<Byte>, b: seq<Byte>, c: seq<Byte>)
    ensures (a + b) + c == a + (b + c)
  {
  }

  /** What writing a list of records appends. */
  function Log(crc: Crc, off: nat, records: seq<seq<Byte>>): (bs: seq<Byte>)
    requires off <= BLOCK_SIZE
    decreases |records|
  {
    if records == [] then []
    else Emitted(crc, off, true, records[0]) + Log(crc, OffsetAfter(off, |records[0]|), records[1..])
  }

  /** The block offset after a list of records. */
  function LogOffset(off: nat, records: seq<seq<Byte>>): (off': nat)
    requires off <= BLOCK_SIZE
    ensures off' <= BLOCK_SIZE
    decreases |records|
  {
    if records == [] then off else LogOffset(OffsetAfter(off, |records[0]|), records[1..])
  }

  lemma {:induction false} LogJoins(crc: Crc, off: nat, a: seq<seq<Byte>>, b: seq<seq<Byte>>)
    requires off <= BLOCK_SIZE
    ensures Log(crc, off, a + b) == Log(crc, off, a) + Log(crc, LogOffset(off, a), b)
    decreases |a|
  {
    if a == [] {
      assert a + b == b;
    } else {
      var off' := OffsetAfter(off, |a[0]|);
      assert (a + b)[1..] == a[1..] + b;
      LogJoins(crc, off', a[1..], b);
    }
  }

  lemma {:induction false} LogOffsetFollows(crc: Crc, off: nat, a: seq<seq<Byte>>)
    requires off <= BLOCK_SIZE
    ensures LogOffset(off, a) % BLOCK_SIZE == (off + |Log(crc, off, a)|) % BLOCK_SIZE
    decreases |a|
  {
    if a == [] {
    } else {
      var off' := OffsetAfter(off, |a[0]|);
      var n, m := |Emitted(crc, off, true, a[0])|, |Log(crc, off', a[1..])|;
      OffsetFollows(crc, off, true, a[0]);
      LogOffsetFollows(crc, off', a[1..]);
      SameOffset(off + n, off', m);
    }
  }

  /** Continuing a log, from the length of the file alone, writes what one long session writes. */
  lemma LogContinues(crc: Crc, a: seq<seq<Byte>>, b: seq<seq<Byte>>)
    ensures Log(crc, 0, a + b) == Log(crc, 0, a) + Log(crc, |Log(crc, 0, a)| % BLOCK_SIZE, b)
  {
    LogJoins(crc, 0, a, b);
    LogOffsetFollows(crc, 0, a);
    OffsetCases(LogOffset(0, a), |Log(crc, 0, a)|);
    BlockEndLog(crc, b);
  }

  lemma OffsetCases(off: nat, n: nat)
    requires off <= BLOCK_SIZE && off % BLOCK_SIZE == n % BLOCK_SIZE
    ensures off == n % BLOCK_SIZE || (off == BLOCK_SIZE && n % BLOCK_SIZE == 0)
  {
  }

  lemma BlockEndLog(crc: Crc, records: seq<seq<Byte>>)
    ensures Log(crc, BLOCK_SIZE, records) == Log(crc, 0, records)
  {
    if records != [] {
      BlockEndIsBlockStart(crc, true, records[0]);
    }
  }

  lemma SameOffset(a: nat, b: nat, n: nat)
    requires a % BLOCK_SIZE == b % BLOCK_SIZE
    ensures (a + n) % BLOCK_SIZE == (b + n) % BLOCK_SIZE
  {
  }
}
