/** No reader gets a record out of fewer bytes than a writer needs for it. */
module LogSize {
  import opened Bytes
  import opened LogFormat
  import opened LogReader
  import opened LogRecovery

  // ---------- What a record takes ----------

  /** How many bytes the rest of a record, `len` bytes from offset `off` on, takes with its headers and trailers. */
  function Size(off: nat, len: nat): (size: nat)
    requires off <= BLOCK_SIZE
    ensures size >= HEADER_SIZE
    decreases len, if FragmentLength(off, len) == 0 then 1 else 0
  {
    var n := FragmentLength(off, len);
    Padding(off) + HEADER_SIZE + n + if n == len then 0 else Size(BLOCK_SIZE, len - n)
  }

  lemma {:induction false} EmittedSize(crc: Crc, off: nat, begin: bool, data: seq<Byte>)
    requires off <= BLOCK_SIZE
    ensures |Emitted(crc, off, begin, data)| == Size(off, |data|)
    decreases |data|, if FragmentLength(off, |data|) == 0 then 1 else 0
  {
    var n := FragmentLength(off, |data|);
    EmittedLength(crc, off, begin, data);
    if n == |data| {
    } else {
      EmittedSize(crc, BLOCK_SIZE, false, data[n..]);
    }
  }

  lemma SizeOfRest(off: nat, len: nat, n: nat)
    requires off <= BLOCK_SIZE && n == FragmentLength(off, len)
    ensures Size(off, len) == Padding(off) + HEADER_SIZE + n + if n == len then 0 else Size(BLOCK_SIZE, len - n)
  {
  }

  /** More bytes never take less. */
  lemma {:induction false} SizeGrows(off: nat, len: nat, more: nat)
    requires off <= BLOCK_SIZE && len <= more
    ensures Size(off, len) <= Size(off, more)
    decreases len, if FragmentLength(off, len) == 0 then 1 else 0
  {
    var n, m := FragmentLength(off, len), FragmentLength(off, more);
    SizeOfRest(off, len, n);
    SizeOfRest(off, more, m);
    if n == len {
    } else {
      SizeGrows(BLOCK_SIZE, len - n, more - m);
    }
  }

  lemma InNextBlock(off: nat, len: nat)
    requires off <= BLOCK_SIZE && BLOCK_SIZE - off < HEADER_SIZE
    ensures off + Size(off, len) == BLOCK_SIZE + Size(BLOCK_SIZE, len)
  {
    var n := FragmentLength(off, len);
    SizeOfRest(off, len, n);
    SizeOfRest(BLOCK_SIZE, len, n);
  }

  /** A first fragment of any length that fits does not make a record end earlier than the longest one. */
  lemma AnyFragment(off: nat, len: nat, d: nat)
    requires off <= BLOCK_SIZE && d < len && FragmentStart(off) + HEADER_SIZE + d <= BLOCK_SIZE
    ensures Size(off, len) <= Padding(off) + HEADER_SIZE + d + Size(FragmentStart(off) + HEADER_SIZE + d, len - d)
  {
    var n, next := FragmentLength(off, len), FragmentStart(off) + HEADER_SIZE + d;
    var m := FragmentLength(next, len - d);
    SizeOfRest(off, len, n);
    SizeOfRest(next, len - d, m);
    if n < len {
      if BLOCK_SIZE - next < HEADER_SIZE {
        InNextBlock(next, len - d);
        SizeGrows(BLOCK_SIZE, len - n, len - d);
      } else {
        assert m < len - d;
        SizeGrows(BLOCK_SIZE, len - n, len - d - m);
      }
    }
  }

  // ---------- What reading a record takes ----------

  /** What is parsed stays in the buffer and takes its header and its payload. */
  lemma Parsed(crc: Crc, file: seq<Byte>, c: Cursor)
    requires Aligned(|file|, c) && c.pos + HEADER_SIZE <= c.end
    ensures var p := ParseHeader(crc, file, c);
            Aligned(|file|, p.next) && c.pos + HEADER_SIZE + |p.data| <= p.next.pos <= c.end
  {
  }

  lemma WithinBlock(p: nat, off: nat, end: nat, q: nat)
    requires p % BLOCK_SIZE == off < BLOCK_SIZE && p <= q <= end <= BlockEnd(p)
    ensures off + (q - p) <= BLOCK_SIZE && q % BLOCK_SIZE == (off + (q - p)) % BLOCK_SIZE
  {
  }

  /** A physical record is parsed at the next place where a header may stand. */
  lemma ParsedAt(crc: Crc, file: seq<Byte>, c: Cursor, off: nat) returns (c': Cursor)
    requires Aligned(|file|, c) && off <= BLOCK_SIZE && c.pos % BLOCK_SIZE == off % BLOCK_SIZE
    requires c.pos + Padding(off) + HEADER_SIZE <= |file|
    ensures Aligned(|file|, c') && c'.pos + HEADER_SIZE <= c'.end && c'.drops == c.drops
    ensures c'.pos == c.pos + Padding(off) && c'.pos % BLOCK_SIZE == FragmentStart(off) && c'.end <= BlockEnd(c'.pos)
    ensures ReadPhysical(crc, file, c) == ParseHeader(crc, file, c')
  {
    RefilledAtHeader(file, c, off);
    c' := Refilled(file, c);
  }

  /** One physical record, however it turns out, stays in its block and takes its header and its payload. */
  lemma Advances(crc: Crc, file: seq<Byte>, c: Cursor, off: nat) returns (p: Physical, step: nat, off': nat)
    requires Aligned(|file|, c) && off <= BLOCK_SIZE && c.pos % BLOCK_SIZE == off % BLOCK_SIZE
    ensures p == ReadPhysical(crc, file, c)
    ensures p.typ != EOF_RESULT ==>
              && Aligned(|file|, p.next) && p.next.pos == c.pos + Padding(off) + step
              && off' == FragmentStart(off) + step <= BLOCK_SIZE && p.next.pos % BLOCK_SIZE == off' % BLOCK_SIZE
              && HEADER_SIZE + |p.data| <= step
  {
    p, step, off' := ReadPhysical(crc, file, c), 0, 0;
    if |file| < c.pos + Padding(off) + HEADER_SIZE {
      NoHeader(crc, file, c, off);
    } else {
      var c' := ParsedAt(crc, file, c, off);
      Parsed(crc, file, c');
      WithinBlock(c'.pos, FragmentStart(off), c'.end, p.next.pos);
      step := p.next.pos - c'.pos;
      off' := FragmentStart(off) + step;
    }
  }

  /** A step takes what it contributes and its header. */
  lemma StepTakes(off: nat, step: nat, off': nat, need: nat, need': nat)
    requires off <= BLOCK_SIZE && step >= HEADER_SIZE && off' == FragmentStart(off) + step <= BLOCK_SIZE
    requires need <= need' + (step - HEADER_SIZE)
    ensures Size(off, need) <= Padding(off) + step + Size(off', need')
    ensures need' == 0 ==> Size(off, need) <= Padding(off) + step
  {
    var d := step - HEADER_SIZE;
    if need <= d {
      SizeOfRest(off, need, need);
    } else {
      AnyFragment(off, need, d);
      SizeGrows(FragmentStart(off) + step, need - d, need');
    }
  }

  /** How many bytes of a record are not among those gathered. */
  function Needed(record: seq<Byte>, inFragment: bool, scratch: seq<Byte>): nat {
    if !inFragment then |record| else if |scratch| <= |record| then |record| - |scratch| else 0
  }

  /** What a physical record adds is at most its payload. */
  lemma GatherTakes(p: Physical, inFragment: bool, scratch: seq<Byte>, record: seq<Byte>)
    ensures var g := Gather(p, inFragment, scratch);
            && (g.More? ==> Needed(record, inFragment, scratch) <= Needed(record, g.inFragment, g.scratch) + |p.data|)
            && (g.Return? && g.result.found ==>
                  Needed(g.result.record, inFragment, scratch) <= |p.data| && g.result.next.pos == p.next.pos)
  {
  }

  /** Reading the rest of a record takes at least as many bytes as writing it. */
  lemma {:induction false} TakesAtLeast(crc: Crc, file: seq<Byte>, c: Cursor, off: nat, inFragment: bool,
                                        scratch: seq<Byte>,
                                        r: Logical)
    requires Aligned(|file|, c) && off <= BLOCK_SIZE && c.pos % BLOCK_SIZE == off % BLOCK_SIZE
    requires r == ReadLogical(crc, file, c, inFragment, scratch) && r.found
    ensures c.pos + Size(off, Needed(r.record, inFragment, scratch)) <= r.next.pos
    decreases |file| - c.pos
  {
    var p, step, off' := Advances(crc, file, c, off);
    LogicalResumes(crc, file, c, inFragment, scratch);
    var g := Gather(p, inFragment, scratch);
    GatherTakes(p, inFragment, scratch, r.record);
    match g {
      case Return(_) =>
        StepTakes(off, step, off', Needed(r.record, inFragment, scratch), 0);
      case More(next, inFragment', scratch') =>
        var need' := Needed(r.record, inFragment', scratch');
        AlignedSame(|file|, p.next, next);
        TakesAtLeast(crc, file, next, off', inFragment', scratch', r);
        StepTakes(off, step, off', Needed(r.record, inFragment, scratch), need');
    }
  }

  lemma AlignedSame(n: nat, c: Cursor, c': Cursor)
    requires Aligned(n, c) && c'.(drops := []) == c.(drops := [])
    ensures Aligned(n, c')
  {
  }

  /** From where a record that was read ends, a record of any length ends no earlier than from where it began. */
  lemma {:induction false} StartsLater(crc: Crc, file: seq<Byte>, c: Cursor, off: nat, inFragment: bool,
                                       scratch: seq<Byte>,
                                       r: Logical, len: nat) returns (off': nat)
    requires Aligned(|file|, c) && off <= BLOCK_SIZE && c.pos % BLOCK_SIZE == off % BLOCK_SIZE
    requires r == ReadLogical(crc, file, c, inFragment, scratch) && r.found
    ensures Aligned(|file|, r.next) && off' <= BLOCK_SIZE && r.next.pos % BLOCK_SIZE == off' % BLOCK_SIZE
    ensures c.pos + Size(off, len) <= r.next.pos + Size(off', len)
    decreases |file| - c.pos
  {
    var p, step, next := Advances(crc, file, c, off);
    LogicalResumes(crc, file, c, inFragment, scratch);
    StepTakes(off, step, next, len, len);
    match Gather(p, inFragment, scratch) {
      case Return(_) =>
        AlignedSame(|file|, p.next, r.next);
        off' := next;
      case More(c', inFragment', scratch') =>
        AlignedSame(|file|, p.next, c');
        off' := StartsLater(crc, file, c', next, inFragment', scratch', r, len);
    }
  }

  /** A record that would not fit into what is left of the file is not among those that are read from it. */
  lemma {:induction false} TooLong(all: AllReadings, crc: Crc, file: seq<Byte>, c: Cursor, off: nat, record: seq<Byte>)
    requires IsAllReading(crc, file, all)
    requires Aligned(|file|, c) && off <= BLOCK_SIZE && c.pos % BLOCK_SIZE == off % BLOCK_SIZE
    requires |file| < c.pos + Size(off, |record|)
    ensures record !in all(c).0
    decreases |file| - c.pos
  {
    AllUnfolds(crc, file, c);
    var r := ReadLogical(crc, file, c, false, []);
    if r.found {
      TakesAtLeast(crc, file, c, off, false, [], r);
      var off' := StartsLater(crc, file, c, off, false, [], r, |record|);
      TooLong(all, crc, file, r.next, off', record);
    }
  }
}
