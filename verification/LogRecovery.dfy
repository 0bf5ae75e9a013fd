/** Reading back what was written: whole logs, continued logs and logs with a torn tail. */
module LogRecovery {
  import opened Bytes
  import opened LogFormat
  import opened LogReader

  /** The file has `bytes` at position `p`. */
  ghost predicate HasAt(w: seq<Byte>, p: nat, bytes: seq<Byte>) {
    p + |bytes| <= |w| && forall i {:trigger bytes[i]} :: 0 <= i < |bytes| ==> w[p + i] == bytes[i]
  }

  lemma HasParts(w: seq<Byte>, p: nat, a: seq<Byte>, b: seq<Byte>)
    requires HasAt(w, p, a + b)
    ensures HasAt(w, p, a) && HasAt(w, p + |a|, b)
  {
    forall i | 0 <= i < |a| ensures w[p + i] == a[i] {
      assert (a + b)[i] == a[i];
    }
    forall i | 0 <= i < |b| ensures w[p + |a| + i] == b[i] {
      assert (a + b)[|a| + i] == b[i];
    }
  }

  lemma HasSlice(w: seq<Byte>, p: nat, bytes: seq<Byte>)
    requires HasAt(w, p, bytes)
    ensures w[p..p + |bytes|] == bytes
  {
  }

  function BlockEnd(p: nat): nat {
    (p / BLOCK_SIZE + 1) * BLOCK_SIZE
  }

  /** The buffer ends with its block, or with a file of `n` bytes. */
  ghost predicate Aligned(n: nat, c: Cursor) {
    && c.pos <= c.end <= n
    && (if c.eof then c.end == n else c.end % BLOCK_SIZE == 0)
    && (c.pos < c.end ==> c.end <= BlockEnd(c.pos))
  }

  /** The cursor from which a header is parsed: the buffer is refilled when a header does not fit. */
  function Refilled(file: seq<Byte>, c: Cursor): (c': Cursor)
    requires c.end <= |file|
  {
    if c.end - c.pos < HEADER_SIZE && !c.eof then ReadBlock(file, c) else c
  }

  /** After skipping a trailer the buffer starts at the next fragment. */
  lemma RefilledAtHeader(file: seq<Byte>, c: Cursor, off: nat)
    requires Aligned(|file|, c) && off <= BLOCK_SIZE && c.pos % BLOCK_SIZE == off % BLOCK_SIZE
    requires c.pos + Padding(off) + HEADER_SIZE <= |file|
    ensures var c', start := Refilled(file, c), c.pos + Padding(off);
            && c'.pos == start && start % BLOCK_SIZE == FragmentStart(off) && c'.drops == c.drops
            && c'.end == (if |file| < BlockEnd(start) then |file| else BlockEnd(start))
            && (c'.end < BlockEnd(start) ==> c'.eof)
            && Aligned(|file|, c')
  {
  }

  /** A header that would not be complete makes the reader stop without a report. */
  lemma NoHeader(crc: Crc, file: seq<Byte>, c: Cursor, off: nat)
    requires Aligned(|file|, c) && off <= BLOCK_SIZE && c.pos % BLOCK_SIZE == off % BLOCK_SIZE
    requires |file| < c.pos + Padding(off) + HEADER_SIZE
    ensures var r := ReadPhysical(crc, file, c); r.typ == EOF_RESULT && r.next.drops == c.drops
  {
  }

  lemma AlignedLater(n: nat, c: Cursor, p: nat)
    requires Aligned(n, c) && c.pos <= p <= c.end
    ensures Aligned(n, c.(pos := p))
  {
  }

  /** What a reader sees of a fragment that was written. */
  lemma HeaderFields(crc: Crc, w: seq<Byte>, p: nat, t: Byte, data: seq<Byte>)
    requires |data| < 65536 && HasAt(w, p, Fragment(crc, t, data))
    ensures w[p + 4] as int + w[p + 5] as int * 256 == |data|
    ensures w[p + 6] == t
    ensures Unmask(DecodeFixed32(w[p..p + 4])) == crc([t] + data)
    ensures w[p + HEADER_SIZE..p + HEADER_SIZE + |data|] == data
  {
    var sum := Mask(crc([t] + data));
    var h, rest := FixedBytes(sum, 4), [|data| % 256, |data| / 256, t];
    HasParts(w, p, h + rest, data);
    HasParts(w, p, h, rest);
    HasSlice(w, p, h);
    HasSlice(w, p + HEADER_SIZE, data);
    assert w[p + 4 + 0] == rest[0] && w[p + 4 + 1] == rest[1] && w[p + 4 + 2] == rest[2];
    DecodeFixed32Undoes(sum);
    UnmaskMask(crc([t] + data));
  }

  lemma ParsesWholeFragment(crc: Crc, w: seq<Byte>, n: nat, c: Cursor, t: Byte, data: seq<Byte>)
    requires |data| < 65536 && t != ZERO_TYPE && c.end <= n <= |w|
    requires HasAt(w, c.pos, Fragment(crc, t, data)) && c.pos + HEADER_SIZE + |data| <= c.end
    ensures ParseHeader(crc, w[..n], c) == Physical(t, data, c.(pos := c.pos + HEADER_SIZE + |data|))
  {
    var file, after := w[..n], c.pos + HEADER_SIZE + |data|;
    HeaderFields(crc, w, c.pos, t, data);
    assert file[c.pos..c.pos + 4] == w[c.pos..c.pos + 4];
    assert file[c.pos + HEADER_SIZE..after] == w[c.pos + HEADER_SIZE..after];
  }

  lemma ParsesTornFragment(crc: Crc, w: seq<Byte>, n: nat, c: Cursor, t: Byte, data: seq<Byte>)
    requires |data| < 65536 && c.end <= n <= |w| && c.eof
    requires HasAt(w, c.pos, Fragment(crc, t, data)) && c.pos + HEADER_SIZE <= c.end < c.pos + HEADER_SIZE + |data|
    ensures ParseHeader(crc, w[..n], c) == Physical(EOF_RESULT, [], c.(pos := c.end))
  {
    HeaderFields(crc, w, c.pos, t, data);
    assert w[..n][c.pos + 4] == w[c.pos + 4] && w[..n][c.pos + 5] == w[c.pos + 5];
  }

  /**
   * A physical record that was written up to `after` is read back if that is
   * before the cut; otherwise the reader stops without a report.
   */
  ghost predicate GotPhysical(n: nat, c: Cursor, r: Physical, t: Byte, data: seq<Byte>, after: nat) {
    && r.next.drops == c.drops
    && if after <= n then r.typ == t && r.data == data && r.next.pos == after && Aligned(n, r.next)
       else r.typ == EOF_RESULT
  }

  lemma ParsesFragment(crc: Crc, w: seq<Byte>, n: nat, c: Cursor, t: Byte, data: seq<Byte>)
    requires |data| < 65536 && t != ZERO_TYPE && n <= |w| && Aligned(n, c)
    requires HasAt(w, c.pos, Fragment(crc, t, data))
    requires c.pos + HEADER_SIZE <= c.end && c.pos + HEADER_SIZE + |data| <= BlockEnd(c.pos)
    requires c.end == if n < BlockEnd(c.pos) then n else BlockEnd(c.pos)
    requires c.end < BlockEnd(c.pos) ==> c.eof
    ensures GotPhysical(n, c, ParseHeader(crc, w[..n], c), t, data, c.pos + HEADER_SIZE + |data|)
  {
    if c.pos + HEADER_SIZE + |data| <= n {
      ParsesWholeFragment(crc, w, n, c, t, data);
      AlignedLater(n, c, c.pos + HEADER_SIZE + |data|);
    } else {
      ParsesTornFragment(crc, w, n, c, t, data);
    }
  }

  lemma ReadsFragment(crc: Crc, w: seq<Byte>, n: nat, c: Cursor, off: nat, t: Byte, data: seq<Byte>)
    requires off <= BLOCK_SIZE && c.pos % BLOCK_SIZE == off % BLOCK_SIZE
    requires t != ZERO_TYPE && n <= |w| && Aligned(n, c)
    requires |data| < 65536 && FragmentStart(off) + HEADER_SIZE + |data| <= BLOCK_SIZE
    requires HasAt(w, c.pos + Padding(off), Fragment(crc, t, data))
    ensures GotPhysical(n, c, ReadPhysical(crc, w[..n], c), t, data, c.pos + Padding(off) + HEADER_SIZE + |data|)
  {
    var start := c.pos + Padding(off);
    if n < start + HEADER_SIZE {
      NoHeader(crc, w[..n], c, off);
    } else {
      RefilledAtHeader(w[..n], c, off);
      var c' := Refilled(w[..n], c);
      assert ReadPhysical(crc, w[..n], c) == ParseHeader(crc, w[..n], c');
      ParsesFragment(crc, w, n, c', t, data);
    }
  }

  /** The parts of what writing the rest of a record appends. */
  lemma EmittedParts(crc: Crc, w: seq<Byte>, p: nat, off: nat, begin: bool, data: seq<Byte>)
    requires off <= BLOCK_SIZE && HasAt(w, p, Emitted(crc, off, begin, data))
    ensures var k := FragmentLength(off, |data|);
            && HasAt(w, p + Padding(off), Fragment(crc, FragmentType(begin, k == |data|), data[..k]))
            && (k < |data| ==>
                  HasAt(w, p + Padding(off) + HEADER_SIZE + k, Emitted(crc, BLOCK_SIZE, false, data[k..])))
            && |Emitted(crc, off, begin, data)| ==
               Padding(off) + HEADER_SIZE + k + if k == |data| then 0 else |Emitted(crc, BLOCK_SIZE, false, data[k..])|
  {
    var k := FragmentLength(off, |data|);
    var tail := if k == |data| then [] else Emitted(crc, BLOCK_SIZE, false, data[k..]);
    var f := Fragment(crc, FragmentType(begin, k == |data|), data[..k]);
    HasParts(w, p, Zeros(Padding(off)) + f, tail);
    HasParts(w, p, Zeros(Padding(off)), f);
  }

  /** Reading gave `record`, up to `after`, if that is before the cut; otherwise nothing, without a report. */
  ghost predicate Got(n: nat, c: Cursor, r: Logical, record: seq<Byte>, after: nat) {
    && r.next.drops == c.drops
    && if after <= n then r.found && r.record == record && r.next.pos == after && Aligned(n, r.next) else !r.found
  }

  /** The next fragment of a record ends at `after`; all of what is left of it ends at `end`. */
  lemma NextPiece(crc: Crc, w: seq<Byte>, p: nat, off: nat, begin: bool, data: seq<Byte>, k: nat)
    returns (after: nat, end: nat)
    requires off <= BLOCK_SIZE && p % BLOCK_SIZE == off % BLOCK_SIZE && k == FragmentLength(off, |data|)
    requires HasAt(w, p, Emitted(crc, off, begin, data))
    ensures after == p + Padding(off) + HEADER_SIZE + k <= end && end == p + |Emitted(crc, off, begin, data)|
    ensures HasAt(w, p + Padding(off), Fragment(crc, FragmentType(begin, k == |data|), data[..k]))
    ensures if k == |data| then after == end
            else && after % BLOCK_SIZE == 0 && HasAt(w, after, Emitted(crc, BLOCK_SIZE, false, data[k..]))
                 && end == after + |Emitted(crc, BLOCK_SIZE, false, data[k..])|
  {
    after, end := p + Padding(off) + HEADER_SIZE + k, p + |Emitted(crc, off, begin, data)|;
    EmittedParts(crc, w, p, off, begin, data);
    if k < |data| {
      FragmentEndsBlock(p, off, |data|, k);
    }
  }

  /** The last, or only, fragment completes a record. */
  lemma LastCompletes(p: Physical, begin: bool, data: seq<Byte>, scratch: seq<Byte>)
    requires p.typ == FragmentType(begin, true) && p.data == data && (begin ==> scratch == [])
    ensures Gather(p, !begin, scratch) == Return(Logical(true, scratch + data, p.next))
  {
    assert begin ==> scratch + data == data;
  }

  /** Any other fragment is gathered. */
  lemma OtherGathers(p: Physical, begin: bool, data: seq<Byte>, scratch: seq<Byte>)
    requires p.typ == FragmentType(begin, false) && p.data == data && (begin ==> scratch == [])
    ensures Gather(p, !begin, scratch) == More(p.next, true, scratch + data)
  {
    assert begin ==> scratch + data == data;
  }

  type Readings = (Cursor, bool, seq<Byte>) -> Logical

  /** `reading` tells what reading a record gives from anywhere in the file. */
  ghost predicate IsReading(crc: Crc, file: seq<Byte>, reading: Readings) {
    forall c: Cursor, inFragment, scratch {:trigger ReadLogical(crc, file, c, inFragment, scratch)} ::
      c.pos <= c.end <= |file| ==> reading(c, inFragment, scratch) == ReadLogical(crc, file, c, inFragment, scratch)
  }

  ghost function ReadingOf(crc: Crc, file: seq<Byte>): (reading: Readings)
    ensures IsReading(crc, file, reading)
  {
    (c: Cursor, inFragment: bool, scratch: seq<Byte>) =>
      if c.pos <= c.end <= |file| then ReadLogical(crc, file, c, inFragment, scratch) else Logical(false, [], c)
  }

  /** Reading goes on from what has been gathered. */
  function Resume(crc: Crc, file: seq<Byte>, g: Gathered): Logical
    requires g.More? ==> g.next.pos <= g.next.end <= |file|
  {
    match g
    case More(next, inFragment, scratch) => ReadLogical(crc, file, next, inFragment, scratch)
    case Return(r) => r
  }

  lemma LogicalResumes(crc: Crc, file: seq<Byte>, c: Cursor, inFragment: bool, scratch: seq<Byte>)
    requires c.pos <= c.end <= |file|
    ensures var p := ReadPhysical(crc, file, c);
            && p.next.pos <= p.next.end <= |file|
            && ReadLogical(crc, file, c, inFragment, scratch) == Resume(crc, file, Gather(p, inFragment, scratch))
  {
  }

  /** One fragment more, up to `after`, and what reading then makes of it; the record ends at `end`. */
  lemma ReadsPiece(crc: Crc, w: seq<Byte>, n: nat, c: Cursor, off: nat, begin: bool, data: seq<Byte>,
                   scratch: seq<Byte>, k: nat) returns (p: Physical, after: nat, end: nat)
    requires off <= BLOCK_SIZE && c.pos % BLOCK_SIZE == off % BLOCK_SIZE && k == FragmentLength(off, |data|)
    requires n <= |w| && Aligned(n, c) && HasAt(w, c.pos, Emitted(crc, off, begin, data))
    ensures p.next.pos <= p.next.end <= n && end == c.pos + |Emitted(crc, off, begin, data)|
    ensures ReadLogical(crc, w[..n], c, !begin, scratch) == Resume(crc, w[..n], Gather(p, !begin, scratch))
    ensures && GotPhysical(n, c, p, FragmentType(begin, k == |data|), data[..k], after)
            && if k == |data| then after == end
               else && after % BLOCK_SIZE == 0
                    && HasAt(w, after, Emitted(crc, BLOCK_SIZE, false, data[k..]))
                    && after + |Emitted(crc, BLOCK_SIZE, false, data[k..])| == end
  {
    p := ReadPhysical(crc, w[..n], c);
    after, end := NextPiece(crc, w, c.pos, off, begin, data, k);
    ReadsFragment(crc, w, n, c, off, FragmentType(begin, k == |data|), data[..k]);
    LogicalResumes(crc, w[..n], c, !begin, scratch);
  }

  /** Reading the rest of a record, after the fragments gathered in `scratch`. */
  lemma {:induction false} ReadsRecord(crc: Crc, w: seq<Byte>, n: nat, c: Cursor, off: nat, begin: bool,
                                       data: seq<Byte>,
                                       scratch: seq<Byte>)
    requires off <= BLOCK_SIZE && c.pos % BLOCK_SIZE == off % BLOCK_SIZE
    requires n <= |w| && Aligned(n, c)
    requires HasAt(w, c.pos, Emitted(crc, off, begin, data))
    requires begin ==> scratch == []
    ensures Got(n, c, ReadLogical(crc, w[..n], c, !begin, scratch), scratch + data,
                c.pos + |Emitted(crc, off, begin, data)|)
    decreases |data|, if FragmentLength(off, |data|) == 0 then 1 else 0, 1
  {
    var k := FragmentLength(off, |data|);
    var p, after, end := ReadsPiece(crc, w, n, c, off, begin, data, scratch, k);
    ReadsFrom(crc, w, n, c, off, begin, data, scratch, k, p, after, end);
  }

  /** The same, once the next physical record, up to `after`, has been read. */
  lemma {:induction false} ReadsFrom(crc: Crc, w: seq<Byte>, n: nat, c: Cursor, off: nat, begin: bool,
                                     data: seq<Byte>, scratch: seq<Byte>,
                                     k: nat, p: Physical, after: nat, end: nat)
    requires off <= BLOCK_SIZE && n <= |w| && p.next.pos <= p.next.end <= n
    requires k == FragmentLength(off, |data|) && (begin ==> scratch == [])
    requires GotPhysical(n, c, p, FragmentType(begin, k == |data|), data[..k], after)
    requires if k == |data| then after == end
             else && after % BLOCK_SIZE == 0
                  && HasAt(w, after, Emitted(crc, BLOCK_SIZE, false, data[k..]))
                  && after + |Emitted(crc, BLOCK_SIZE, false, data[k..])| == end
    ensures Got(n, c, Resume(crc, w[..n], Gather(p, !begin, scratch)), scratch + data, end)
    decreases |data|, if FragmentLength(off, |data|) == 0 then 1 else 0, 0
  {
    if p.typ != EOF_RESULT {
      if k == |data| {
        assert data[..k] == data;
        LastCompletes(p, begin, data, scratch);
      } else {
        OtherGathers(p, begin, data[..k], scratch);
        Regroup(scratch, data, k);
        ReadsRecord(crc, w, n, p.next, BLOCK_SIZE, false, data[k..], scratch + data[..k]);
      }
    }
  }

  lemma Regroup(scratch: seq<Byte>, data: seq<Byte>, k: nat)
    requires k <= |data|
    ensures (scratch + data[..k]) + data[k..] == scratch + data
  {
  }

  lemma FragmentEndsBlock(p: nat, off: nat, left: nat, k: nat)
    requires off <= BLOCK_SIZE && p % BLOCK_SIZE == off % BLOCK_SIZE && k == FragmentLength(off, left) < left
    ensures (p + Padding(off) + HEADER_SIZE + k) % BLOCK_SIZE == 0
  {
  }

  /** How many records of a log lie wholly within its first `n` bytes. */
  function Complete(crc: Crc, off: nat, records: seq<seq<Byte>>, n: int): (k: nat)
    requires off <= BLOCK_SIZE
    ensures k <= |records|
    decreases |records|
  {
    if records == [] || n < |Emitted(crc, off, true, records[0])| then 0
    else 1 + Complete(crc, OffsetAfter(off, |records[0]|), records[1..], n - |Emitted(crc, off, true, records[0])|)
  }

  lemma LogParts(crc: Crc, w: seq<Byte>, p: nat, off: nat, records: seq<seq<Byte>>)
    requires off <= BLOCK_SIZE && records != [] && HasAt(w, p, Log(crc, off, records))
    ensures var head := Emitted(crc, off, true, records[0]);
            var tail := Log(crc, OffsetAfter(off, |records[0]|), records[1..]);
            HasAt(w, p, head) && HasAt(w, p + |head|, tail) && |Log(crc, off, records)| == |head| + |tail|
  {
    HasParts(w, p, Emitted(crc, off, true, records[0]), Log(crc, OffsetAfter(off, |records[0]|), records[1..]));
  }

  lemma OffsetAt(crc: Crc, p: nat, off: nat, begin: bool, data: seq<Byte>)
    requires off <= BLOCK_SIZE && p % BLOCK_SIZE == off % BLOCK_SIZE
    ensures (p + |Emitted(crc, off, begin, data)|) % BLOCK_SIZE == OffsetAfter(off, |data|) % BLOCK_SIZE
  {
    OffsetFollows(crc, off, begin, data);
    SameOffset(off, p, |Emitted(crc, off, begin, data)|);
  }

  /** Reading a whole log gives the records that lie before the cut, without a report. */
  ghost predicate GotAll(c: Cursor, r: (seq<seq<Byte>>, Cursor), records: seq<seq<Byte>>) {
    r.1.drops == c.drops && r.0 == records
  }

  type AllReadings = Cursor -> (seq<seq<Byte>>, Cursor)

  /** `all` tells what reading to the end gives from anywhere in the file. */
  ghost predicate IsAllReading(crc: Crc, file: seq<Byte>, all: AllReadings) {
    forall c: Cursor {:trigger ReadAll(crc, file, c)} :: c.pos <= c.end <= |file| ==> all(c) == ReadAll(crc, file, c)
  }

  ghost function AllReadingOf(crc: Crc, file: seq<Byte>): (all: AllReadings)
    ensures IsAllReading(crc, file, all)
  {
    (c: Cursor) => if c.pos <= c.end <= |file| then ReadAll(crc, file, c) else ([], c)
  }

  lemma AllUnfolds(crc: Crc, file: seq<Byte>, c: Cursor)
    requires c.pos <= c.end <= |file|
    ensures var r, all := ReadLogical(crc, file, c, false, []), ReadAll(crc, file, c);
            if r.found then all.0 == [r.record] + ReadAll(crc, file, r.next).0 && all.1 == ReadAll(crc, file, r.next).1
            else all == ([], r.next)
  {
  }

  /** Reading the first record, up to `after` if that is before the cut, and then the others. */
  lemma ReadsFirst(all: AllReadings, crc: Crc, w: seq<Byte>, n: nat, c: Cursor, off: nat, data: seq<Byte>, after: nat)
    returns (r: Logical)
    requires n <= |w| && IsAllReading(crc, w[..n], all)
    requires off <= BLOCK_SIZE && c.pos % BLOCK_SIZE == off % BLOCK_SIZE
    requires n <= |w| && Aligned(n, c)
    requires HasAt(w, c.pos, Emitted(crc, off, true, data)) && after == c.pos + |Emitted(crc, off, true, data)|
    ensures Got(n, c, r, data, after) && r.next.pos <= r.next.end <= n
    ensures if r.found then all(c).0 == [r.record] + all(r.next).0 && all(c).1 == all(r.next).1
            else all(c) == ([], r.next)
  {
    r := ReadLogical(crc, w[..n], c, false, []);
    ReadsRecord(crc, w, n, c, off, true, data, []);
    assert [] + data == data;
    AllUnfolds(crc, w[..n], c);
  }

  /** The records of a log that lie before a cut, one more at its start. */
  lemma OneMore(crc: Crc, off: nat, off': nat, records: seq<seq<Byte>>, n: int, left: int)
    requires off <= BLOCK_SIZE && records != [] && off' == OffsetAfter(off, |records[0]|)
    requires left == n - |Emitted(crc, off, true, records[0])| >= 0
    ensures records[..Complete(crc, off, records, n)]
            == [records[0]] + records[1..][..Complete(crc, off', records[1..], left)]
  {
  }

  /** Where the first record of a log ends, and the block offset there. */
  lemma FirstRecord(crc: Crc, w: seq<Byte>, p: nat, off: nat, records: seq<seq<Byte>>) returns (after: nat, off': nat)
    requires off <= BLOCK_SIZE && p % BLOCK_SIZE == off % BLOCK_SIZE
    requires records != [] && HasAt(w, p, Log(crc, off, records))
    ensures HasAt(w, p, Emitted(crc, off, true, records[0])) && after == p + |Emitted(crc, off, true, records[0])|
    ensures off' == OffsetAfter(off, |records[0]|) && after % BLOCK_SIZE == off' % BLOCK_SIZE
    ensures HasAt(w, after, Log(crc, off', records[1..]))
    ensures p + |Log(crc, off, records)| == after + |Log(crc, off', records[1..])|
  {
    after, off' := p + |Emitted(crc, off, true, records[0])|, OffsetAfter(off, |records[0]|);
    LogParts(crc, w, p, off, records);
    OffsetAt(crc, p, off, true, records[0]);
  }

  lemma {:induction false} ReadsLog(all: AllReadings, crc: Crc, w: seq<Byte>, n: nat, c: Cursor, off: nat,
                                    records: seq<seq<Byte>>)
    requires n <= |w| && IsAllReading(crc, w[..n], all)
    requires off <= BLOCK_SIZE && c.pos % BLOCK_SIZE == off % BLOCK_SIZE
    requires n <= |w| && Aligned(n, c)
    requires HasAt(w, c.pos, Log(crc, off, records)) && n <= c.pos + |Log(crc, off, records)|
    ensures GotAll(c, all(c), records[..Complete(crc, off, records, n - c.pos)])
    decreases |records|
  {
    if records == [] {
      EndOfFile(crc, w[..n], c);
    } else {
      var after, off' := FirstRecord(crc, w, c.pos, off, records);
      var r := ReadsFirst(all, crc, w, n, c, off, records[0], after);
      if r.found {
        ReadsLog(all, crc, w, n, r.next, off', records[1..]);
        OneMore(crc, off, off', records, n - c.pos, n - r.next.pos);
      }
    }
  }

  lemma EndOfFile(crc: Crc, file: seq<Byte>, c: Cursor)
    requires Aligned(|file|, c) && c.pos == |file|
    ensures GotAll(c, ReadAll(crc, file, c), [])
  {
    var r := ReadLogical(crc, file, c, false, []);
    assert !r.found && r.next.drops == c.drops;
  }

  /** Where record `i` ends. */
  function EndOf(crc: Crc, off: nat, records: seq<seq<Byte>>, i: nat): nat
    requires off <= BLOCK_SIZE && i < |records|
  {
    |Log(crc, off, records[..i + 1])|
  }

  /** The records counted are exactly those whose last byte lies before the cut. */
  lemma {:induction false} CompleteExactly(crc: Crc, off: nat, records: seq<seq<Byte>>, n: int, i: nat)
    requires off <= BLOCK_SIZE && i < |records|
    ensures i < Complete(crc, off, records, n) <==> EndOf(crc, off, records, i) <= n
    decreases |records|
  {
    var head, off' := Emitted(crc, off, true, records[0]), OffsetAfter(off, |records[0]|);
    assert records[..i + 1][1..] == records[1..][..i];
    assert Log(crc, off, records[..i + 1]) == head + Log(crc, off', records[1..][..i]);
    if i > 0 {
      CompleteExactly(crc, off', records[1..], n - |head|, i - 1);
    }
  }

  /**
   * Torn tail: a log cut at any byte reads back, without any report, as exactly
   * the records that lie wholly before the cut.
   */
  lemma TornTail(crc: Crc, records: seq<seq<Byte>>, n: nat)
    requires n <= |Log(crc, 0, records)|
    ensures var (read, c) := ReadAll(crc, Log(crc, 0, records)[..n], START);
            && c.drops == []
            && |read| <= |records| && read == records[..|read|]
            && forall i :: 0 <= i < |records| ==> (i < |read| <==> EndOf(crc, 0, records, i) <= n)
  {
    var w := Log(crc, 0, records);
    ReadsLog(AllReadingOf(crc, w[..n]), crc, w, n, START, 0, records);
    forall i | 0 <= i < |records| ensures i < Complete(crc, 0, records, n) <==> EndOf(crc, 0, records, i) <= n {
      CompleteExactly(crc, 0, records, n, i);
    }
  }

  /** Round trip: a log reads back as the records written, whatever they are, and without any report. */
  lemma RoundTrip(crc: Crc, records: seq<seq<Byte>>)
    ensures var (read, c) := ReadAll(crc, Log(crc, 0, records), START);
            read == records && c.drops == []
  {
    var w := Log(crc, 0, records);
    TornTail(crc, records, |w|);
    assert w[..|w|] == w;
    var read := ReadAll(crc, w, START).0;
    assert records[..|records|] == records;
    if records != [] {
      assert EndOf(crc, 0, records, |records| - 1) == |w|;
    }
  }

  /** A log continued in a second session, knowing only its length, reads back as both lists of records. */
  lemma ContinuedRoundTrip(crc: Crc, a: seq<seq<Byte>>, b: seq<seq<Byte>>)
    ensures var first := Log(crc, 0, a);
            var (read, c) := ReadAll(crc, first + Log(crc, |first| % BLOCK_SIZE, b), START);
            read == a + b && c.drops == []
  {
    LogContinues(crc, a, b);
    RoundTrip(crc, a + b);
  }
}
