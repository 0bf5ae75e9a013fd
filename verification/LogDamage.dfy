/**
 * Reading a log in which one block is damaged: from the first fragment that is
 * rejected the rest of the block is lost, and with it what is left of the record
 * that the block ends in; every other record is read.
 */
module LogDamage {
  import opened Bytes
  import opened LogFormat
  import opened LogReader
  import opened LogRecovery

  // ---------- Before the damage ----------

  /** Reading the records of a log that lie before the end of the file, and then the rest. */
  lemma {:induction false} ReadsPrefix(all: AllReadings, crc: Crc, w: seq<Byte>, n: nat, c: Cursor, off: nat,
                                       records: seq<seq<Byte>>) returns (c': Cursor)
    requires n <= |w| && IsAllReading(crc, w[..n], all)
    requires off <= BLOCK_SIZE && c.pos % BLOCK_SIZE == off % BLOCK_SIZE
    requires n <= |w| && Aligned(n, c)
    requires HasAt(w, c.pos, Log(crc, off, records)) && c.pos + |Log(crc, off, records)| <= n
    ensures Aligned(n, c') && c'.pos == c.pos + |Log(crc, off, records)| && c'.drops == c.drops
    ensures c'.pos % BLOCK_SIZE == LogOffset(off, records) % BLOCK_SIZE
    ensures all(c).0 == records + all(c').0 && all(c).1 == all(c').1
    decreases |records|
  {
    if records == [] {
      c' := c;
    } else {
      var after, off' := FirstRecord(crc, w, c.pos, off, records);
      var r := ReadsFirst(all, crc, w, n, c, off, records[0], after);
      c' := ReadsPrefix(all, crc, w, n, r.next, off', records[1..]);
      Prepend(records, all(c').0);
    }
  }

  lemma Prepend(records: seq<seq<Byte>>, rest: seq<seq<Byte>>)
    requires records != []
    ensures [records[0]] + (records[1..] + rest) == records + rest
  {
  }

  // ---------- At the damage ----------

  /** The fragment at `d`, in a buffer up to `end`, lies in the buffer but fails its checksum. */
  predicate Rejected(crc: Crc, file: seq<Byte>, d: nat, end: nat)
    requires d + HEADER_SIZE <= end <= |file|
  {
    var length, t := file[d + 4] as int + file[d + 5] as int * 256, file[d + 6];
    && d + HEADER_SIZE + length <= end && !(t == ZERO_TYPE && length == 0)
    && crc([t] + file[d + HEADER_SIZE..d + HEADER_SIZE + length]) != Unmask(DecodeFixed32(file[d..d + 4]))
  }

  lemma RejectedIsBad(crc: Crc, file: seq<Byte>, c: Cursor)
    requires c.pos + HEADER_SIZE <= c.end <= |file| && Rejected(crc, file, c.pos, c.end)
    ensures ParseHeader(crc, file, c) == Physical(BAD_RECORD, [], c.(pos := c.end, drops := c.drops + [c.end - c.pos]))
  {
  }

  /** Where the buffer that holds position `d` ends in a file of `n` bytes. */
  function BufferEnd(n: nat, d: nat): nat {
    if n < BlockEnd(d) then n else BlockEnd(d)
  }

  /**
   * Of the rest of a record, `len` bytes written from `p` on, how many stand in
   * fragments before the one at `d`; -1 if it has no fragment there.
   */
  function BytesBefore(p: nat, off: nat, len: nat, d: nat): (g: int)
    requires off <= BLOCK_SIZE
    ensures -1 <= g
    decreases len, if FragmentLength(off, len) == 0 then 1 else 0
  {
    var start, k := p + Padding(off), FragmentLength(off, len);
    if d == start then 0
    else if k == len then -1
    else
      var g := BytesBefore(start + HEADER_SIZE + k, BLOCK_SIZE, len - k, d);
      if g < 0 then -1 else k + g
  }

  lemma {:induction false} FragmentIsLater(p: nat, len: nat, d: nat)
    requires BytesBefore(p, BLOCK_SIZE, len, d) >= 0
    ensures p <= d
    decreases len
  {
    if d == p {
    } else {
      var k := FragmentLength(BLOCK_SIZE, len);
      FragmentIsLater(p + HEADER_SIZE + k, len - k, d);
    }
  }

  /** The fragments before the one at `d` end before it. */
  lemma LaterFragment(p: nat, off: nat, len: nat, d: nat, k: nat)
    requires off <= BLOCK_SIZE && BytesBefore(p, off, len, d) >= 0 && d != p + Padding(off)
    requires k == FragmentLength(off, len)
    ensures k < len && p + Padding(off) + HEADER_SIZE + k <= d
    ensures var g := BytesBefore(p + Padding(off) + HEADER_SIZE + k, BLOCK_SIZE, len - k, d);
            g >= 0 && BytesBefore(p, off, len, d) == k + g
  {
    FragmentIsLater(p + Padding(off) + HEADER_SIZE + k, len - k, d);
  }

  /** Two files have the same bytes from `lo` to `hi`. */
  ghost predicate SameOn(a: seq<Byte>, b: seq<Byte>, lo: nat, hi: nat) {
    lo <= hi <= |a| && hi <= |b| && forall i :: lo <= i < hi ==> a[i] == b[i]
  }

  lemma HasStill(a: seq<Byte>, b: seq<Byte>, lo: nat, hi: nat, p: nat, bytes: seq<Byte>)
    requires SameOn(a, b, lo, hi) && lo <= p && p + |bytes| <= hi && HasAt(a, p, bytes)
    ensures HasAt(b, p, bytes)
  {
  }

  /** What rejecting a fragment adds to the reports: the rest of the buffer, and what was gathered of the record. */
  function Reports(n: nat, d: nat, first: bool, gathered: nat): seq<nat>
    requires d <= BufferEnd(n, d)
  {
    [BufferEnd(n, d) - d] + if first then [] else [gathered]
  }

  /** The file is damaged at the fragment at `d`. */
  predicate Damaged(crc: Crc, w: seq<Byte>, n: nat, d: nat) {
    n <= |w| && d + HEADER_SIZE <= BufferEnd(n, d) && Rejected(crc, w[..n], d, BufferEnd(n, d))
  }

  /** The physical record at the damage, reached from a cursor before the padding. */
  lemma MeetsDamage(crc: Crc, w: seq<Byte>, n: nat, c: Cursor, off: nat) returns (p: Physical)
    requires off <= BLOCK_SIZE && c.pos % BLOCK_SIZE == off % BLOCK_SIZE && n <= |w| && Aligned(n, c)
    requires Damaged(crc, w, n, c.pos + Padding(off))
    ensures p == ReadPhysical(crc, w[..n], c) && p.typ == BAD_RECORD && Aligned(n, p.next)
    ensures var d := c.pos + Padding(off);
            p.next.pos == p.next.end == BufferEnd(n, d) && p.next.drops == c.drops + [BufferEnd(n, d) - d]
  {
    p := ReadPhysical(crc, w[..n], c);
    RefilledAtHeader(w[..n], c, off);
    var c' := Refilled(w[..n], c);
    RejectedIsBad(crc, w[..n], c');
    assert p == ParseHeader(crc, w[..n], c');
  }

  /** Meeting the damage leaves nothing gathered. */
  lemma DamageStep(reading: Readings, crc: Crc, w: seq<Byte>, n: nat, c: Cursor, off: nat, begin: bool,
                   scratch: seq<Byte>) returns (c': Cursor)
    requires n <= |w| && IsReading(crc, w[..n], reading)
    requires off <= BLOCK_SIZE && c.pos % BLOCK_SIZE == off % BLOCK_SIZE && Aligned(n, c)
    requires (begin ==> scratch == []) && Damaged(crc, w, n, c.pos + Padding(off))
    ensures Aligned(n, c') && c'.pos == c'.end == BufferEnd(n, c.pos + Padding(off))
    ensures c'.drops == c.drops + Reports(n, c.pos + Padding(off), begin, |scratch|)
    ensures reading(c, !begin, scratch) == reading(c', false, [])
  {
    var p := MeetsDamage(crc, w, n, c, off);
    LogicalResumes(crc, w[..n], c, !begin, scratch);
    c' := if begin then p.next else Drop(p.next, |scratch|);
  }

  /** An intact fragment that is not the last one is gathered. */
  lemma IntactStep(reading: Readings, crc: Crc, w: seq<Byte>, n: nat, c: Cursor, off: nat, begin: bool, data: seq<Byte>,
                   scratch: seq<Byte>, k: nat) returns (c': Cursor)
    requires n <= |w| && IsReading(crc, w[..n], reading)
    requires off <= BLOCK_SIZE && c.pos % BLOCK_SIZE == off % BLOCK_SIZE && Aligned(n, c)
    requires (begin ==> scratch == []) && k == FragmentLength(off, |data|) < |data|
    requires c.pos + Padding(off) + HEADER_SIZE + k <= n
    requires HasAt(w, c.pos + Padding(off), Fragment(crc, FragmentType(begin, false), data[..k]))
    ensures Aligned(n, c') && c'.pos == c.pos + Padding(off) + HEADER_SIZE + k && c'.drops == c.drops
    ensures reading(c, !begin, scratch) == reading(c', true, scratch + data[..k])
  {
    ReadsFragment(crc, w, n, c, off, FragmentType(begin, false), data[..k]);
    var p := ReadPhysical(crc, w[..n], c);
    OtherGathers(p, begin, data[..k], scratch);
    LogicalResumes(crc, w[..n], c, !begin, scratch);
    c' := p.next;
  }

  /** A fragment that is not the last one, and what follows it. */
  lemma NotLastPart(crc: Crc, w: seq<Byte>, p: nat, off: nat, begin: bool, data: seq<Byte>, k: nat)
    requires off <= BLOCK_SIZE && k == FragmentLength(off, |data|) < |data|
    requires HasAt(w, p, Emitted(crc, off, begin, data))
    ensures HasAt(w, p + Padding(off), Fragment(crc, FragmentType(begin, false), data[..k]))
    ensures HasAt(w, p + Padding(off) + HEADER_SIZE + k, Emitted(crc, BLOCK_SIZE, false, data[k..]))
  {
    EmittedParts(crc, w, p, off, begin, data);
  }

  /** After the damage the reader stands at the end of the buffer, and has reported what it lost. */
  ghost predicate PastDamage(n: nat, d: nat, c: Cursor, c': Cursor, first: bool, gathered: nat)
    requires d <= BufferEnd(n, d)
  {
    Aligned(n, c') && c'.pos == c'.end == BufferEnd(n, d) && c'.drops == c.drops + Reports(n, d, first, gathered)
  }

  /** Reading an intact fragment before the damage, and what is then left of the record. */
  lemma BeforeDamage(reading: Readings, crc: Crc, was: seq<Byte>, w: seq<Byte>, n: nat, c: Cursor, off: nat,
                     begin: bool, data: seq<Byte>,
                     scratch: seq<Byte>, d: nat, k: nat) returns (c': Cursor)
    requires n <= |w| && IsReading(crc, w[..n], reading)
    requires off <= BLOCK_SIZE && c.pos % BLOCK_SIZE == off % BLOCK_SIZE && Aligned(n, c)
    requires (begin ==> scratch == []) && SameOn(was, w, 0, d) && d <= n
    requires HasAt(was, c.pos, Emitted(crc, off, begin, data)) && BytesBefore(c.pos, off, |data|, d) >= 0
    requires d != c.pos + Padding(off) && k == FragmentLength(off, |data|)
    ensures Aligned(n, c') && c'.drops == c.drops && c'.pos % BLOCK_SIZE == 0
    ensures k < |data| && HasAt(was, c'.pos, Emitted(crc, BLOCK_SIZE, false, data[k..]))
    ensures var g := BytesBefore(c'.pos, BLOCK_SIZE, |data| - k, d);
            g >= 0 && BytesBefore(c.pos, off, |data|, d) == k + g
    ensures reading(c, !begin, scratch) == reading(c', true, scratch + data[..k])
  {
    LaterFragment(c.pos, off, |data|, d, k);
    NotLastPart(crc, was, c.pos, off, begin, data, k);
    HasStill(was, w, 0, d, c.pos + Padding(off), Fragment(crc, FragmentType(begin, false), data[..k]));
    FragmentEndsBlock(c.pos, off, |data|, k);
    c' := IntactStep(reading, crc, w, n, c, off, begin, data, scratch, k);
  }

  /** Reading a record up to its damaged fragment, and past the rest of that block, with nothing gathered. */
  lemma {:induction false} ReadsToDamage(reading: Readings, crc: Crc, was: seq<Byte>, w: seq<Byte>, n: nat,
                                         c: Cursor, off: nat,
                                         begin: bool, data: seq<Byte>, scratch: seq<Byte>, d: nat)
    returns (c': Cursor, first: bool, g: nat)
    requires n <= |w| && IsReading(crc, w[..n], reading)
    requires off <= BLOCK_SIZE && c.pos % BLOCK_SIZE == off % BLOCK_SIZE && Aligned(n, c)
    requires (begin ==> scratch == []) && Damaged(crc, w, n, d) && SameOn(was, w, 0, d)
    requires HasAt(was, c.pos, Emitted(crc, off, begin, data)) && BytesBefore(c.pos, off, |data|, d) >= 0
    ensures PastDamage(n, d, c, c', first, g)
    ensures first == (begin && d == c.pos + Padding(off)) && g == |scratch| + BytesBefore(c.pos, off, |data|, d)
    ensures reading(c, !begin, scratch) == reading(c', false, [])
    decreases |data|, if FragmentLength(off, |data|) == 0 then 1 else 0
  {
    if d == c.pos + Padding(off) {
      first, g := begin, |scratch|;
      c' := DamageStep(reading, crc, w, n, c, off, begin, scratch);
    } else {
      var k := FragmentLength(off, |data|);
      var next := BeforeDamage(reading, crc, was, w, n, c, off, begin, data, scratch, d, k);
      c', first, g :=
        ReadsToDamage(reading, crc, was, w, n, next, BLOCK_SIZE, false, data[k..], scratch + data[..k], d);
    }
  }

  // ---------- After the damage ----------

  /** The payload sizes of the fragments that the rest of a record takes from `off` on. */
  function Pieces(off: nat, len: nat): seq<nat>
    requires off <= BLOCK_SIZE
    decreases len, if FragmentLength(off, len) == 0 then 1 else 0
  {
    var k := FragmentLength(off, len);
    if k == len then [k] else [k] + Pieces(BLOCK_SIZE, len - k)
  }

  /** A continuation that no fragment began is dropped, with a report of its size. */
  lemma SkipStep(reading: Readings, crc: Crc, w: seq<Byte>, n: nat, c: Cursor, end: bool, data: seq<Byte>, after: nat)
    returns (c': Cursor)
    requires n <= |w| && IsReading(crc, w[..n], reading)
    requires c.pos % BLOCK_SIZE == 0 && Aligned(n, c)
    requires HEADER_SIZE + |data| <= BLOCK_SIZE && after == c.pos + HEADER_SIZE + |data| <= n
    requires HasAt(w, c.pos, Fragment(crc, FragmentType(false, end), data))
    ensures Aligned(n, c') && c'.pos == after && c'.drops == c.drops + [|data|]
    ensures reading(c, false, []) == reading(c', false, [])
  {
    ReadsFragment(crc, w, n, c, BLOCK_SIZE, FragmentType(false, end), data);
    LogicalResumes(crc, w[..n], c, false, []);
    var p := ReadPhysical(crc, w[..n], c);
    c' := Drop(p.next, |data|);
  }

  lemma PiecesMore(drops: seq<nat>, len: nat, k: nat)
    requires k == FragmentLength(BLOCK_SIZE, len) < len
    ensures (drops + [k]) + Pieces(BLOCK_SIZE, len - k) == drops + Pieces(BLOCK_SIZE, len)
  {
  }

  /** What the damage left of a record is dropped fragment by fragment. */
  lemma {:induction false} SkipsRest(reading: Readings, crc: Crc, w: seq<Byte>, n: nat, c: Cursor, data: seq<Byte>,
                                     end: nat) returns (c': Cursor)
    requires n <= |w| && IsReading(crc, w[..n], reading)
    requires c.pos % BLOCK_SIZE == 0 && Aligned(n, c)
    requires HasAt(w, c.pos, Emitted(crc, BLOCK_SIZE, false, data))
    requires end == c.pos + |Emitted(crc, BLOCK_SIZE, false, data)| <= n
    ensures Aligned(n, c') && c'.pos == end && c'.drops == c.drops + Pieces(BLOCK_SIZE, |data|)
    ensures reading(c, false, []) == reading(c', false, [])
    decreases |data|
  {
    var k := FragmentLength(BLOCK_SIZE, |data|);
    var after, _ := NextPiece(crc, w, c.pos, BLOCK_SIZE, false, data, k);
    c' := SkipStep(reading, crc, w, n, c, k == |data|, data[..k], after);
    if k < |data| {
      c' := SkipsRest(reading, crc, w, n, c', data[k..], end);
      PiecesMore(c.drops, |data|, k);
    }
  }

  lemma SameReadingSameAll(reading: Readings, all: AllReadings, crc: Crc, file: seq<Byte>, c: Cursor, c': Cursor)
    requires IsReading(crc, file, reading) && IsAllReading(crc, file, all)
    requires c.pos <= c.end <= |file| && c'.pos <= c'.end <= |file| && reading(c, false, []) == reading(c', false, [])
    ensures all(c) == all(c')
  {
    AllUnfolds(crc, file, c);
    AllUnfolds(crc, file, c');
  }

  lemma {:induction false} AllComplete(crc: Crc, off: nat, records: seq<seq<Byte>>)
    requires off <= BLOCK_SIZE
    ensures Complete(crc, off, records, |Log(crc, off, records)|) == |records|
    decreases |records|
  {
    if records == [] {
    } else {
      AllComplete(crc, OffsetAfter(off, |records[0]|), records[1..]);
    }
  }

  /**
   * From the block boundary `p` on the file has the rest of a record, if any,
   * and then further records, up to `n`.
   */
  ghost predicate Remains(crc: Crc, w: seq<Byte>, p: nat, rest: seq<Byte>, records: seq<seq<Byte>>, n: nat) {
    && p % BLOCK_SIZE == 0
    && if rest == [] then HasAt(w, p, Log(crc, BLOCK_SIZE, records)) && n == p + |Log(crc, BLOCK_SIZE, records)|
       else
         var q, off := p + |Emitted(crc, BLOCK_SIZE, false, rest)|, OffsetAfter(BLOCK_SIZE, |rest|);
         && HasAt(w, p, Emitted(crc, BLOCK_SIZE, false, rest))
         && HasAt(w, q, Log(crc, off, records)) && n == q + |Log(crc, off, records)|
  }

  /** Reading whole records up to the end of the file. */
  lemma ReadsOut(all: AllReadings, crc: Crc, w: seq<Byte>, n: nat, c: Cursor, off: nat, records: seq<seq<Byte>>)
    requires n <= |w| && IsAllReading(crc, w[..n], all)
    requires off <= BLOCK_SIZE && c.pos % BLOCK_SIZE == off % BLOCK_SIZE && Aligned(n, c)
    requires HasAt(w, c.pos, Log(crc, off, records)) && n == c.pos + |Log(crc, off, records)|
    ensures GotAll(c, all(c), records)
  {
    ReadsLog(all, crc, w, n, c, off, records);
    AllComplete(crc, off, records);
    assert records[..|records|] == records;
  }

  /** Dropping the rest of a record, up to `end`, and reading the records that follow it. */
  lemma SkipsThenReads(all: AllReadings, crc: Crc, w: seq<Byte>, n: nat, c: Cursor, rest: seq<Byte>, end: nat, off: nat,
                       records: seq<seq<Byte>>)
    requires n <= |w| && IsAllReading(crc, w[..n], all)
    requires c.pos % BLOCK_SIZE == 0 && Aligned(n, c)
    requires HasAt(w, c.pos, Emitted(crc, BLOCK_SIZE, false, rest))
    requires end == c.pos + |Emitted(crc, BLOCK_SIZE, false, rest)| <= n
    requires off <= BLOCK_SIZE && end % BLOCK_SIZE == off % BLOCK_SIZE
    requires HasAt(w, end, Log(crc, off, records)) && n == end + |Log(crc, off, records)|
    ensures all(c).0 == records
    ensures all(c).1.drops == c.drops + Pieces(BLOCK_SIZE, |rest|)
  {
    var reading := ReadingOf(crc, w[..n]);
    var c' := SkipsRest(reading, crc, w, n, c, rest, end);
    SameReadingSameAll(reading, all, crc, w[..n], c, c');
    ReadsOut(all, crc, w, n, c', off, records);
  }

  /** Where the rest of a record ends, and the records that follow it begin. */
  lemma RestEnds(crc: Crc, w: seq<Byte>, p: nat, rest: seq<Byte>, records: seq<seq<Byte>>, n: nat)
    returns (end: nat, off: nat)
    requires rest != [] && Remains(crc, w, p, rest, records, n)
    ensures HasAt(w, p, Emitted(crc, BLOCK_SIZE, false, rest)) && end == p + |Emitted(crc, BLOCK_SIZE, false, rest)|
    ensures off <= BLOCK_SIZE && end % BLOCK_SIZE == off % BLOCK_SIZE
    ensures HasAt(w, end, Log(crc, off, records)) && n == end + |Log(crc, off, records)|
  {
    end, off := p + |Emitted(crc, BLOCK_SIZE, false, rest)|, OffsetAfter(BLOCK_SIZE, |rest|);
    OffsetAt(crc, p, BLOCK_SIZE, false, rest);
  }

  /** Reading on from a block boundary: the rest of a record, if any, is dropped and the others are read. */
  lemma ReadsOn(all: AllReadings, crc: Crc, w: seq<Byte>, n: nat, c: Cursor, rest: seq<Byte>, records: seq<seq<Byte>>)
    requires n <= |w| && IsAllReading(crc, w[..n], all) && Aligned(n, c)
    requires Remains(crc, w, c.pos, rest, records, n)
    ensures all(c).0 == records
    ensures all(c).1.drops == c.drops + if rest == [] then [] else Pieces(BLOCK_SIZE, |rest|)
  {
    if rest == [] {
      ReadsOut(all, crc, w, n, c, BLOCK_SIZE, records);
    } else {
      var end, off := RestEnds(crc, w, c.pos, rest, records, n);
      SkipsThenReads(all, crc, w, n, c, rest, end, off, records);
    }
  }

  // ---------- What lies after a block ----------

  /** Where record `i` begins: at its first header. */
  function StartOf(crc: Crc, off: nat, records: seq<seq<Byte>>, i: nat): nat
    requires off <= BLOCK_SIZE && i <= |records|
  {
    |Log(crc, off, records[..i])| + Padding(LogOffset(off, records[..i]))
  }

  /** How many records begin before position `e`. */
  function Begun(crc: Crc, off: nat, records: seq<seq<Byte>>, e: int): (m: nat)
    requires off <= BLOCK_SIZE
    ensures m <= |records|
    decreases |records|
  {
    if records == [] || e <= Padding(off) then 0
    else 1 + Begun(crc, OffsetAfter(off, |records[0]|), records[1..], e - |Emitted(crc, off, true, records[0])|)
  }

  /** The records counted are exactly those. */
  lemma {:induction false} BegunExactly(crc: Crc, off: nat, records: seq<seq<Byte>>, e: int, i: nat)
    requires off <= BLOCK_SIZE && i < |records|
    ensures i < Begun(crc, off, records, e) <==> StartOf(crc, off, records, i) < e
    decreases |records|
  {
    if i == 0 {
    } else {
      var head, off' := Emitted(crc, off, true, records[0]), OffsetAfter(off, |records[0]|);
      assert records[..i][1..] == records[1..][..i - 1];
      assert Log(crc, off, records[..i]) == head + Log(crc, off', records[1..][..i - 1]);
      EmittedLength(crc, off, true, records[0]);
      BegunExactly(crc, off', records[1..], e - |head|, i - 1);
    }
  }

  /** The part of a record that lies after a block boundary `e` within it. */
  lemma {:induction false} RestAt(crc: Crc, w: seq<Byte>, p: nat, off: nat, begin: bool, data: seq<Byte>, e: nat,
                                  end: nat)
    returns (rest: seq<Byte>)
    requires off <= BLOCK_SIZE && p % BLOCK_SIZE == off % BLOCK_SIZE && e % BLOCK_SIZE == 0
    requires HasAt(w, p, Emitted(crc, off, begin, data)) && end == p + |Emitted(crc, off, begin, data)|
    requires p + Padding(off) < e < end
    ensures 0 < |rest| <= |data| && rest == data[|data| - |rest|..]
    ensures HasAt(w, e, Emitted(crc, BLOCK_SIZE, false, rest)) && end == e + |Emitted(crc, BLOCK_SIZE, false, rest)|
    ensures OffsetAfter(BLOCK_SIZE, |rest|) == OffsetAfter(off, |data|)
    decreases |data|, if FragmentLength(off, |data|) == 0 then 1 else 0
  {
    EmittedParts(crc, w, p, off, begin, data);
    var k := FragmentLength(off, |data|);
    var after := p + Padding(off) + HEADER_SIZE + k;
    FragmentWithinBlock(p, off, k, e);
    FragmentEndsBlock(p, off, |data|, k);
    rest := data[k..];
    if after < e {
      rest := RestAt(crc, w, after, BLOCK_SIZE, false, data[k..], e, end);
    }
  }

  lemma FragmentWithinBlock(p: nat, off: nat, k: nat, e: nat)
    requires off <= BLOCK_SIZE && p % BLOCK_SIZE == off % BLOCK_SIZE && e % BLOCK_SIZE == 0
    requires p + Padding(off) < e && FragmentStart(off) + HEADER_SIZE + k <= BLOCK_SIZE
    ensures p + Padding(off) + HEADER_SIZE + k <= e
  {
  }

  lemma LogAside(crc: Crc, off: nat, records: seq<seq<Byte>>)
    requires off <= BLOCK_SIZE && FragmentStart(off) == 0 && records != []
    ensures Log(crc, off, records) == Zeros(Padding(off)) + Log(crc, BLOCK_SIZE, records)
  {
    PaddingApart(crc, off, true, records[0]);
    BlockEndIsBlockStart(crc, true, records[0]);
    Regrouped(Zeros(Padding(off)), Emitted(crc, BLOCK_SIZE, true, records[0]),
              Log(crc, OffsetAfter(off, |records[0]|), records[1..]));
  }

  /** Padding up to a block boundary is all that stands before the next record. */
  lemma PaddingAside(crc: Crc, w: seq<Byte>, p: nat, off: nat, records: seq<seq<Byte>>, n: nat)
    requires off <= BLOCK_SIZE && p % BLOCK_SIZE == off % BLOCK_SIZE && (p + Padding(off)) % BLOCK_SIZE == 0
    requires records != [] && HasAt(w, p, Log(crc, off, records)) && n == p + |Log(crc, off, records)|
    ensures Remains(crc, w, p + Padding(off), [], records, n)
  {
    StartsBlock(p, off);
    LogAside(crc, off, records);
    HasParts(w, p, Zeros(Padding(off)), Log(crc, BLOCK_SIZE, records));
  }

  lemma StartsBlock(p: nat, off: nat)
    requires off <= BLOCK_SIZE && p % BLOCK_SIZE == off % BLOCK_SIZE && (p + Padding(off)) % BLOCK_SIZE == 0
    ensures FragmentStart(off) == 0
  {
  }

  lemma BoundaryAside(p: nat, off: nat, e: nat)
    requires off <= BLOCK_SIZE && p % BLOCK_SIZE == off % BLOCK_SIZE && e % BLOCK_SIZE == 0
    requires p <= e <= p + Padding(off)
    ensures e == p + Padding(off)
  {
  }

  /** `rest` is nothing, or the last part of the record before record `m`. */
  predicate EndsRecord(rest: seq<Byte>, records: seq<seq<Byte>>, m: nat)
    requires m <= |records|
  {
    rest != [] ==> m > 0 && |rest| <= |records[m - 1]| && rest == records[m - 1][|records[m - 1]| - |rest|..]
  }

  /** From the block boundary `e` on the log up to `n` has `rest` and the records from `m` on, or it ends before. */
  ghost predicate After(crc: Crc, w: seq<Byte>, e: nat, rest: seq<Byte>, records: seq<seq<Byte>>, m: nat, n: nat)
    requires m <= |records|
  {
    && EndsRecord(rest, records, m)
    && if n < e then m == |records| && rest == [] else Remains(crc, w, e, rest, records[m..], n)
  }

  lemma AfterOneMore(crc: Crc, w: seq<Byte>, e: nat, rest: seq<Byte>, records: seq<seq<Byte>>, m: nat, n: nat)
    requires records != [] && m < |records| && After(crc, w, e, rest, records[1..], m, n)
    ensures After(crc, w, e, rest, records, m + 1, n)
  {
    assert records[1..][m..] == records[m + 1..];
  }

  lemma BegunMore(crc: Crc, off: nat, records: seq<seq<Byte>>, e: int)
    requires off <= BLOCK_SIZE && records != [] && Padding(off) < e
    ensures Begun(crc, off, records, e)
            == Begun(crc, OffsetAfter(off, |records[0]|), records[1..], e - |Emitted(crc, off, true, records[0])|) + 1
  {
  }

  lemma BegunNone(crc: Crc, off: nat, records: seq<seq<Byte>>, e: int)
    requires off <= BLOCK_SIZE && e <= 0
    ensures Begun(crc, off, records, e) == 0
  {
  }

  /** The block boundary `e` lies within the first of some records. */
  lemma AfterWithin(crc: Crc, w: seq<Byte>, p: nat, off: nat, records: seq<seq<Byte>>, e: nat, after: nat, n: nat)
    returns (rest: seq<Byte>)
    requires off <= BLOCK_SIZE && p % BLOCK_SIZE == off % BLOCK_SIZE && e % BLOCK_SIZE == 0 && records != []
    requires HasAt(w, p, Emitted(crc, off, true, records[0])) && after == p + |Emitted(crc, off, true, records[0])|
    requires var off' := OffsetAfter(off, |records[0]|);
             HasAt(w, after, Log(crc, off', records[1..])) && n == after + |Log(crc, off', records[1..])|
    requires p + Padding(off) < e < after
    ensures After(crc, w, e, rest, records, 1, n)
  {
    rest := RestAt(crc, w, p, off, true, records[0], e, after);
  }

  /** The block boundary `e` lies before the first of some records, or after all of them. */
  lemma AfterPadding(crc: Crc, w: seq<Byte>, p: nat, off: nat, records: seq<seq<Byte>>, e: nat, n: nat)
    requires off <= BLOCK_SIZE && p % BLOCK_SIZE == off % BLOCK_SIZE && e % BLOCK_SIZE == 0 && p <= e
    requires HasAt(w, p, Log(crc, off, records)) && n == p + |Log(crc, off, records)|
    requires records == [] || e <= p + Padding(off)
    ensures After(crc, w, e, [], records, 0, n) && Begun(crc, off, records, e - p) == 0
  {
    assert records[0..] == records;
    if records != [] {
      BoundaryAside(p, off, e);
      PaddingAside(crc, w, p, off, records, n);
    }
  }

  /**
   * What a log has from a block boundary `e` on: the rest of the last record
   * begun before it, if that goes on, and the records not begun before it.
   */
  lemma {:induction false} RemainsAfter(crc: Crc, w: seq<Byte>, p: nat, off: nat, records: seq<seq<Byte>>, e: nat,
                                        n: nat)
    returns (rest: seq<Byte>)
    requires off <= BLOCK_SIZE && p % BLOCK_SIZE == off % BLOCK_SIZE && e % BLOCK_SIZE == 0 && p <= e
    requires HasAt(w, p, Log(crc, off, records)) && n == p + |Log(crc, off, records)|
    ensures After(crc, w, e, rest, records, Begun(crc, off, records, e - p), n)
    decreases |records|
  {
    if records == [] || e <= p + Padding(off) {
      rest := [];
      AfterPadding(crc, w, p, off, records, e, n);
    } else {
      LogParts(crc, w, p, off, records);
      var after, off' := p + |Emitted(crc, off, true, records[0])|, OffsetAfter(off, |records[0]|);
      BegunMore(crc, off, records, e - p);
      if after <= e {
        OffsetAt(crc, p, off, true, records[0]);
        rest := RemainsAfter(crc, w, after, off', records[1..], e, n);
        AfterOneMore(crc, w, e, rest, records, Begun(crc, off', records[1..], e - after), n);
      } else {
        BegunNone(crc, off', records[1..], e - after);
        rest := AfterWithin(crc, w, p, off, records, e, after, n);
      }
    }
  }

  // ---------- One damaged block ----------

  /** `w` is the log of `records`, except from the fragment of record `r` at `d` to the end of that block. */
  ghost predicate BlockDamaged(crc: Crc, records: seq<seq<Byte>>, w: seq<Byte>, r: nat, d: nat)
    requires r < |records|
  {
    var log := Log(crc, 0, records);
    && |w| == |log| && SameOn(log, w, 0, d) && SameOn(log, w, BufferEnd(|w|, d), |w|)
    && Damaged(crc, w, |w|, d) && Gathered(crc, records, r, d) >= 0
  }

  /** How many bytes of record `r` stand in fragments before the one at `d`; -1 if it has no fragment there. */
  function Gathered(crc: Crc, records: seq<seq<Byte>>, r: nat, d: nat): int
    requires r < |records|
  {
    BytesBefore(|Log(crc, 0, records[..r])|, LogOffset(0, records[..r]), |records[r]|, d)
  }

  /** A record begins no later than any of its fragments. */
  lemma BeginsBefore(p: nat, off: nat, len: nat, d: nat)
    requires off <= BLOCK_SIZE && BytesBefore(p, off, len, d) >= 0
    ensures p + Padding(off) <= d
  {
    if d != p + Padding(off) {
      LaterFragment(p, off, len, d, FragmentLength(off, len));
    }
  }

  /** Record `r` within a log. */
  lemma RecordWithin(crc: Crc, records: seq<seq<Byte>>, r: nat)
    requires r < |records|
    ensures var log, before, off := Log(crc, 0, records), Log(crc, 0, records[..r]), LogOffset(0, records[..r]);
            HasAt(log, 0, before) && HasAt(log, |before|, Emitted(crc, off, true, records[r]))
  {
    var log, before, off := Log(crc, 0, records), Log(crc, 0, records[..r]), LogOffset(0, records[..r]);
    assert records[..r] + records[r..] == records;
    LogJoins(crc, 0, records[..r], records[r..]);
    HasParts(log, 0, before, Log(crc, off, records[r..]));
    LogParts(crc, log, |before|, off, records[r..]);
  }

  /** Reading the records before the damaged one. */
  lemma ReadsBefore(all: AllReadings, crc: Crc, records: seq<seq<Byte>>, w: seq<Byte>, r: nat, d: nat)
    returns (c: Cursor)
    requires IsAllReading(crc, w, all)
    requires r < |records| && BlockDamaged(crc, records, w, r, d)
    ensures Aligned(|w|, c) && c.drops == [] && c.pos == |Log(crc, 0, records[..r])|
    ensures c.pos % BLOCK_SIZE == LogOffset(0, records[..r]) % BLOCK_SIZE
    ensures all(START).0 == records[..r] + all(c).0 && all(START).1 == all(c).1
  {
    var before := Log(crc, 0, records[..r]);
    RecordWithin(crc, records, r);
    BeginsBefore(|before|, LogOffset(0, records[..r]), |records[r]|, d);
    HasStill(Log(crc, 0, records), w, 0, d, 0, before);
    assert w[..|w|] == w;
    c := ReadsPrefix(all, crc, w, |w|, START, 0, records[..r]);
  }

  /** What the damaged fragment makes the reader report. */
  function Lost(crc: Crc, records: seq<seq<Byte>>, n: nat, r: nat, d: nat): seq<nat>
    requires r < |records| && d <= BufferEnd(n, d) && Gathered(crc, records, r, d) >= 0
  {
    Reports(n, d, d == StartOf(crc, 0, records, r), Gathered(crc, records, r, d))
  }

  /** The damaged record, and the place of the damage in it. */
  lemma DamagedRecord(crc: Crc, records: seq<seq<Byte>>, w: seq<Byte>, r: nat, d: nat, p: nat)
    returns (log: seq<Byte>, off: nat)
    requires r < |records| && BlockDamaged(crc, records, w, r, d) && p == |Log(crc, 0, records[..r])|
    requires p % BLOCK_SIZE == LogOffset(0, records[..r]) % BLOCK_SIZE
    ensures off <= BLOCK_SIZE && p % BLOCK_SIZE == off % BLOCK_SIZE
              && HasAt(log, p, Emitted(crc, off, true, records[r]))
    ensures SameOn(log, w, 0, d) && Damaged(crc, w, |w|, d) && BytesBefore(p, off, |records[r]|, d) >= 0
    ensures StartOf(crc, 0, records, r) == p + Padding(off)
    ensures Gathered(crc, records, r, d) == BytesBefore(p, off, |records[r]|, d)
  {
    log, off := Log(crc, 0, records), LogOffset(0, records[..r]);
    RecordWithin(crc, records, r);
  }

  /** Reading on to the end of the damaged block. */
  lemma ReadsUpTo(all: AllReadings, crc: Crc, records: seq<seq<Byte>>, w: seq<Byte>, r: nat, d: nat, c: Cursor)
    returns (c': Cursor)
    requires IsAllReading(crc, w, all)
    requires r < |records| && BlockDamaged(crc, records, w, r, d)
    requires Aligned(|w|, c) && c.drops == [] && c.pos == |Log(crc, 0, records[..r])|
    requires c.pos % BLOCK_SIZE == LogOffset(0, records[..r]) % BLOCK_SIZE
    ensures Aligned(|w|, c') && c'.pos == c'.end == BufferEnd(|w|, d) && c'.drops == Lost(crc, records, |w|, r, d)
    ensures all(c) == all(c')
  {
    var log, off := DamagedRecord(crc, records, w, r, d, c.pos);
    assert w[..|w|] == w;
    var reading := ReadingOf(crc, w);
    var first, g;
    c', first, g := ReadsToDamage(reading, crc, log, w, |w|, c, off, true, records[r], [], d);
    LostReports(crc, records, |w|, r, d, first, g);
    SameReadingSameAll(reading, all, crc, w, c, c');
  }

  lemma LostReports(crc: Crc, records: seq<seq<Byte>>, n: nat, r: nat, d: nat, first: bool, g: nat)
    requires r < |records| && d <= BufferEnd(n, d)
    requires first == (d == StartOf(crc, 0, records, r)) && g == Gathered(crc, records, r, d)
    ensures [] + Reports(n, d, first, g) == Lost(crc, records, n, r, d)
  {
  }

  lemma RemainsStill(crc: Crc, a: seq<Byte>, b: seq<Byte>, p: nat, rest: seq<Byte>, records: seq<seq<Byte>>)
    requires p <= |a| == |b| && SameOn(a, b, p, |a|) && Remains(crc, a, p, rest, records, |a|)
    ensures Remains(crc, b, p, rest, records, |b|)
  {
    if rest == [] {
      HasStill(a, b, p, |a|, p, Log(crc, BLOCK_SIZE, records));
    } else {
      var q, off := p + |Emitted(crc, BLOCK_SIZE, false, rest)|, OffsetAfter(BLOCK_SIZE, |rest|);
      HasStill(a, b, p, |a|, p, Emitted(crc, BLOCK_SIZE, false, rest));
      HasStill(a, b, p, |a|, q, Log(crc, off, records));
    }
  }

  /** What the file still has after the damaged block, up to `e`. */
  lemma StillAfter(crc: Crc, records: seq<seq<Byte>>, w: seq<Byte>, r: nat, d: nat, e: nat) returns (rest: seq<Byte>)
    requires r < |records| && BlockDamaged(crc, records, w, r, d)
    requires e == BlockEnd(d) && e % BLOCK_SIZE == 0
    ensures After(crc, w, e, rest, records, Begun(crc, 0, records, e), |w|)
  {
    var log := Log(crc, 0, records);
    rest := RemainsAfter(crc, log, 0, 0, records, e, |log|);
    if e <= |w| {
      RemainsStill(crc, log, w, e, rest, records[Begun(crc, 0, records, e)..]);
    }
  }

  lemma BlockEndIsBoundary(p: nat)
    ensures BlockEnd(p) % BLOCK_SIZE == 0 && p < BlockEnd(p)
  {
  }

  /** Reading on after the damaged block. */
  lemma ReadsAfter(all: AllReadings, crc: Crc, records: seq<seq<Byte>>, w: seq<Byte>, d: nat, c: Cursor,
                   rest: seq<Byte>, m: nat)
    requires IsAllReading(crc, w, all)
    requires m <= |records| && Aligned(|w|, c) && c.pos == c.end == BufferEnd(|w|, d)
    requires After(crc, w, BlockEnd(d), rest, records, m, |w|)
    ensures all(c).0 == records[m..]
    ensures all(c).1.drops == c.drops + if rest == [] then [] else Pieces(BLOCK_SIZE, |rest|)
  {
    assert w[..|w|] == w;
    if |w| < BlockEnd(d) {
      EndOfFile(crc, w, c);
    } else {
      ReadsOn(all, crc, w, |w|, c, rest, records[m..]);
    }
  }

  /**
   * One damaged block: from a log whose fragment at `d`, of record `r`, fails its
   * checksum, everything before record `r` is read, and everything that begins
   * after the block.  Reported are the rest of the block, what had been gathered
   * of record `r`, and each fragment of what the block leaves of its last record.
   */
  lemma DamageIsContained(crc: Crc, records: seq<seq<Byte>>, w: seq<Byte>, r: nat, d: nat) returns (rest: seq<Byte>)
    requires r < |records| && BlockDamaged(crc, records, w, r, d)
    ensures var (read, c), m := ReadAll(crc, w, START), Begun(crc, 0, records, BlockEnd(d));
            && r < m && read == records[..r] + records[m..]
            && After(crc, w, BlockEnd(d), rest, records, m, |w|)
            && c.drops == Lost(crc, records, |w|, r, d) + if rest == [] then [] else Pieces(BLOCK_SIZE, |rest|)
  {
    var all := AllReadingOf(crc, w);
    var before := ReadsBefore(all, crc, records, w, r, d);
    var c := ReadsUpTo(all, crc, records, w, r, d, before);
    BlockEndIsBoundary(d);
    rest := StillAfter(crc, records, w, r, d, BlockEnd(d));
    ReadsAfter(all, crc, records, w, d, c, rest, Begun(crc, 0, records, BlockEnd(d)));
    BegunBefore(crc, records, r, d);
  }

  /** The damaged record is one of those begun before the end of the block. */
  lemma BegunBefore(crc: Crc, records: seq<seq<Byte>>, r: nat, d: nat)
    requires r < |records| && Gathered(crc, records, r, d) >= 0
    ensures r < Begun(crc, 0, records, BlockEnd(d))
  {
    BeginsBefore(|Log(crc, 0, records[..r])|, LogOffset(0, records[..r]), |records[r]|, d);
    BegunExactly(crc, 0, records, BlockEnd(d), r);
    assert StartOf(crc, 0, records, r) < BlockEnd(d);
  }
}
