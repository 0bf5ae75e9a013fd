/** Appends records to a log file whose calls may fail. */
module LogWriter {
  import opened Bytes
  import opened LogFormat

  /** What a call on the file does: it succeeds, or fails after taking some of the bytes. */
  datatype Outcome = Outcome(ok: bool, taken: nat)

  /** How each call on the file turns out, by its number. */
  type Disk = nat -> Outcome

  function Taken(o: Outcome, n: nat): (k: nat)
    ensures k <= n && (o.ok ==> k == n)
  {
    if o.ok || n <= o.taken then n else o.taken
  }

  /** How much of a trailer that is due the file takes, if the next call on it has number `call`. */
  function TrailerTaken(disk: Disk, off: nat, call: nat): (k: nat)
    requires off <= BLOCK_SIZE
    ensures k <= Padding(off)
  {
    if Padding(off) > 0 then Taken(disk(call), Padding(off)) else 0
  }

  /** From `before` the file has come to `now`: part of the way to `full`, or all of it. */
  ghost predicate Between(before: seq<Byte>, now: seq<Byte>, full: seq<Byte>, all: bool) {
    before <= now <= full && (all ==> now == full)
  }

  /**
   * Writing the rest of a record came to an end at one of its fragments: the
   * file has those before it and part of it, or all of it, while the block
   * offset has moved past it.
   */
  ghost predicate Stopped(crc: Crc, start: seq<Byte>, off: nat, begin: bool, rest: seq<Byte>, dest: seq<Byte>,
                          next: nat)
    requires off <= BLOCK_SIZE
    decreases |rest|, if FragmentLength(off, |rest|) == 0 then 1 else 0
  {
    var n := FragmentLength(off, |rest|);
    var f := Fragment(crc, FragmentType(begin, n == |rest|), rest[..n]);
    || (start <= dest <= start + f && next == FragmentStart(off) + HEADER_SIZE + n)
    || (n < |rest| && Stopped(crc, start + f, BLOCK_SIZE, false, rest[n..], dest, next))
  }

  /** What writing the rest of a record from `start` on leaves, behind what was taken of a trailer. */
  ghost predicate Wrote(crc: Crc, start: seq<Byte>, off: nat, begin: bool, rest: seq<Byte>, ok: bool, dest: seq<Byte>,
                        next: nat)
    requires off <= BLOCK_SIZE
  {
    if ok then dest == start + Emitted(crc, FragmentStart(off), begin, rest) && next == OffsetAfter(off, |rest|)
    else Stopped(crc, start, off, begin, rest, dest, next)
  }

  /** The rest of a record consists of its next fragment and what follows that. */
  lemma NoPadding(crc: Crc, off: nat, begin: bool, rest: seq<Byte>, n: nat)
    requires off <= BLOCK_SIZE && n == FragmentLength(off, |rest|)
    ensures Emitted(crc, FragmentStart(off), begin, rest)
            == Fragment(crc, FragmentType(begin, n == |rest|), rest[..n])
               + if n == |rest| then [] else Emitted(crc, BLOCK_SIZE, false, rest[n..])
  {
    var f := Fragment(crc, FragmentType(begin, n == |rest|), rest[..n]);
    assert n == FragmentLength(FragmentStart(off), |rest|);
    assert Zeros(Padding(FragmentStart(off))) + f == f;
  }

  /** A fragment at which writing ends. */
  lemma WroteLast(crc: Crc, start: seq<Byte>, off: nat, begin: bool, rest: seq<Byte>, ok: bool, dest: seq<Byte>, n: nat)
    requires off <= BLOCK_SIZE && n == FragmentLength(off, |rest|) && (ok ==> n == |rest|)
    requires Between(start, dest, start + Fragment(crc, FragmentType(begin, n == |rest|), rest[..n]), ok)
    ensures Wrote(crc, start, off, begin, rest, ok, dest, FragmentStart(off) + HEADER_SIZE + n)
  {
    NoPadding(crc, off, begin, rest, n);
    OffsetUnfolds(off, |rest|, n);
  }

  lemma OffsetUnfolds(off: nat, left: nat, n: nat)
    requires off <= BLOCK_SIZE && n == FragmentLength(off, left)
    ensures OffsetAfter(off, left)
            == if n == left then FragmentStart(off) + HEADER_SIZE + n else OffsetAfter(BLOCK_SIZE, left - n)
  {
  }

  /** A whole fragment, and what writing the others leaves. */
  lemma WroteMore(crc: Crc, start: seq<Byte>, off: nat, begin: bool, rest: seq<Byte>, ok: bool, dest: seq<Byte>,
                  next: nat, n: nat)
    requires off <= BLOCK_SIZE && n == FragmentLength(off, |rest|) < |rest|
    requires Wrote(crc, start + Fragment(crc, FragmentType(begin, false), rest[..n]), BLOCK_SIZE, false, rest[n..],
                   ok, dest, next)
    ensures Wrote(crc, start, off, begin, rest, ok, dest, next)
  {
    if ok {
      var f, more := Fragment(crc, FragmentType(begin, false), rest[..n]), Emitted(crc, BLOCK_SIZE, false, rest[n..]);
      NoPadding(crc, off, begin, rest, n);
      BlockEndIsBlockStart(crc, false, rest[n..]);
      OffsetUnfolds(off, |rest|, n);
      Regrouped(start, f, more);
    }
  }

  /** A first part of what was to be written is there, and all of it on success. */
  lemma {:induction false} StoppedIsPart(crc: Crc, start: seq<Byte>, off: nat, begin: bool, rest: seq<Byte>,
                                         dest: seq<Byte>, next: nat)
    requires off <= BLOCK_SIZE && Stopped(crc, start, off, begin, rest, dest, next)
    ensures start <= dest <= start + Emitted(crc, FragmentStart(off), begin, rest) && next <= BLOCK_SIZE
    decreases |rest|, if FragmentLength(off, |rest|) == 0 then 1 else 0
  {
    var n := FragmentLength(off, |rest|);
    var f := Fragment(crc, FragmentType(begin, n == |rest|), rest[..n]);
    NoPadding(crc, off, begin, rest, n);
    if start <= dest <= start + f && next == FragmentStart(off) + HEADER_SIZE + n {
    } else {
      var more := Emitted(crc, BLOCK_SIZE, false, rest[n..]);
      StoppedIsPart(crc, start + f, BLOCK_SIZE, false, rest[n..], dest, next);
      BlockEndIsBlockStart(crc, false, rest[n..]);
      Regrouped(start, f, more);
    }
  }

  lemma WroteBetween(crc: Crc, start: seq<Byte>, off: nat, rest: seq<Byte>, ok: bool, dest: seq<Byte>, next: nat)
    requires off <= BLOCK_SIZE && Wrote(crc, start, off, true, rest, ok, dest, next)
    ensures Between(start, dest, start + Emitted(crc, FragmentStart(off), true, rest), ok) && next <= BLOCK_SIZE
  {
    if !ok {
      StoppedIsPart(crc, start, off, true, rest, dest, next);
    }
  }

  /** A record that fits into its block is one fragment, of type 1. */
  lemma OneFragment(crc: Crc, off: nat, slice: seq<Byte>)
    requires off + 7 + |slice| <= 32768
    ensures Padding(off) == 0 && FragmentStart(off) == off
    ensures Emitted(crc, off, true, slice) == Fragment(crc, 1, slice)
  {
    NoPadding(crc, off, true, slice, |slice|);
    assert slice[..|slice|] == slice;
    var f := Fragment(crc, 1, slice);
    assert f + [] == f;
  }

  /** The block offset stays that of the end of the file. */
  lemma StaysValid(crc: Crc, off: nat, dest: seq<Byte>, slice: seq<Byte>)
    requires off <= BLOCK_SIZE && off % BLOCK_SIZE == |dest| % BLOCK_SIZE
    ensures OffsetAfter(off, |slice|) % BLOCK_SIZE == |dest + Emitted(crc, off, true, slice)| % BLOCK_SIZE
  {
    OffsetFollows(crc, off, true, slice);
    SameOffset(off, |dest|, |Emitted(crc, off, true, slice)|);
  }

  class Writer {
    const crc: Crc
    const disk: Disk
    var dest: seq<Byte>   // the file
    var calls: nat        // how many calls it has had
    var blockOffset: nat  // current offset in its block

    ghost predicate Valid()
      reads this
    {
      blockOffset <= BLOCK_SIZE && blockOffset % BLOCK_SIZE == |dest| % BLOCK_SIZE
    }

    constructor (crc: Crc, disk: Disk)
      ensures Valid() && dest == [] && blockOffset == 0 && this.crc == crc && this.disk == disk
    {
      this.crc, this.disk := crc, disk;
      dest, calls, blockOffset := [], 0, 0;
    }

    /** Continues a file that already has contents. */
    constructor Continue(crc: Crc, disk: Disk, dest: seq<Byte>)
      ensures Valid() && this.dest == dest && blockOffset == |dest| % BLOCK_SIZE
      ensures this.crc == crc && this.disk == disk
    {
      this.crc, this.disk := crc, disk;
      this.dest, calls, blockOffset := dest, 0, |dest| % BLOCK_SIZE;
    }

    method Append(data: seq<Byte>) returns (ok: bool)
      modifies `dest, `calls
      ensures calls == old(calls) + 1 && ok == disk(old(calls)).ok
      ensures dest == old(dest) + data[..Taken(disk(old(calls)), |data|)]
    {
      var outcome := disk(calls);
      dest := dest + data[..Taken(outcome, |data|)];
      calls := calls + 1;
      ok := outcome.ok;
    }

    method Flush() returns (ok: bool)
      modifies `calls
      ensures calls == old(calls) + 1 && ok == disk(old(calls)).ok
    {
      ok := disk(calls).ok;
      calls := calls + 1;
    }

    /**
     * Appends a record.  If that succeeds the file has all its fragments; otherwise
     * it has those before the one that failed, and part of that one, while the
     * block offset is what it would be behind it.  What the file does not take of
     * a trailer in front of them goes unnoticed.
     */
    method AddRecord(slice: seq<Byte>) returns (ok: bool)
      requires blockOffset <= BLOCK_SIZE
      modifies this
      ensures blockOffset <= BLOCK_SIZE && calls > old(calls)
      ensures Wrote(crc, old(dest)
                + Zeros(TrailerTaken(disk, old(blockOffset), old(calls))), old(blockOffset), true, slice,
                    ok, dest, blockOffset)
      ensures TrailerTaken(disk, old(blockOffset), old(calls)) == Padding(old(blockOffset)) ==>
                Between(old(dest), dest, old(dest) + Emitted(crc, old(blockOffset), true, slice), ok)
      ensures ok && old(blockOffset) + 7 + |slice| <= 32768 ==> dest == old(dest) + Fragment(crc, 1, slice)
      ensures (forall i :: old(calls) <= i < calls ==> disk(i).ok) ==> ok && (old(Valid()) ==> Valid())
    {
      ghost var dest0, off0, calls0 := dest, blockOffset, calls;
      ghost var start := dest + Zeros(TrailerTaken(disk, off0, calls0));
      var ptr: nat, left: nat := 0, |slice|;
      var begin, more := true, true;
      ok := true;
      ghost var from, rest := start, slice;
      // Even an empty record is emitted once, as a fragment without payload.
      while more
        invariant ptr + left == |slice| && rest == slice[ptr..] && blockOffset <= BLOCK_SIZE
        invariant if begin then more && calls == calls0 else calls0 < calls
        invariant more ==> from == dest + Zeros(TrailerTaken(disk, blockOffset, calls))
        invariant more ==> ok && LeadsTo(crc, from, blockOffset, begin, rest, start, off0, slice)
        invariant !more ==> Wrote(crc, start, off0, true, slice, ok, dest, blockOffset)
        invariant (forall i :: calls0 <= i < calls ==> disk(i).ok) ==> ok
        decreases more, left, if FragmentLength(blockOffset, left) == 0 then 1 else 0
      {
        ghost var off1 := blockOffset;
        var n;
        n, ok := AddFragment(slice[ptr..], begin);
        AfterFragment(crc, from, off1, begin, rest, n, ok, dest, blockOffset, start, off0, slice);
        from, rest := dest, rest[n..];
        ptr := ptr + n;
        left := left - n;
        begin := false;
        more := ok && left > 0;
      }
      WroteBetween(crc, start, off0, slice, ok, dest, blockOffset);
      WholeTrailer(crc, dest0, off0, slice, start);
      if off0 + 7 + |slice| <= 32768 {
        OneFragment(crc, off0, slice);
      }
      if off0 % BLOCK_SIZE == |dest0| % BLOCK_SIZE {
        StaysValid(crc, off0, dest0, slice);
      }
    }

    /** Whatever writing the rest of a record leaves, writing the record leaves. */
    static ghost predicate LeadsTo(crc: Crc, from: seq<Byte>, off: nat, begin: bool, rest: seq<Byte>,
                                   start: seq<Byte>, off0: nat, slice: seq<Byte>)
      requires off <= BLOCK_SIZE && off0 <= BLOCK_SIZE
    {
      forall ok, dest, next :: Wrote(crc, from, off, begin, rest, ok, dest, next) ==>
                                 Wrote(crc, start, off0, true, slice, ok, dest, next)
    }

    /** After a fragment either the record is done with, or what writing the others leaves is what is left. */
    static lemma AfterFragment(crc: Crc, from: seq<Byte>, off: nat, begin: bool, rest: seq<Byte>, n: nat, ok: bool,
                               dest: seq<Byte>, next: nat, start: seq<Byte>, off0: nat, slice: seq<Byte>)
      requires off <= BLOCK_SIZE && off0 <= BLOCK_SIZE && n == FragmentLength(off, |rest|)
      requires next == FragmentStart(off) + HEADER_SIZE + n
      requires LeadsTo(crc, from, off, begin, rest, start, off0, slice)
      requires Between(from, dest, from + Fragment(crc, FragmentType(begin, n == |rest|), rest[..n]), ok)
      ensures if ok && n < |rest| then
                next == BLOCK_SIZE && LeadsTo(crc, dest, BLOCK_SIZE, false, rest[n..], start, off0, slice)
              else Wrote(crc, start, off0, true, slice, ok, dest, next)
    {
      if ok && n < |rest| {
        forall ok', dest', next' | Wrote(crc, dest, BLOCK_SIZE, false, rest[n..], ok', dest', next')
          ensures Wrote(crc, start, off0, true, slice, ok', dest', next')
        {
          WroteMore(crc, from, off, begin, rest, ok', dest', next', n);
        }
      } else {
        WroteLast(crc, from, off, begin, rest, ok, dest, n);
      }
    }

    /** With its whole trailer a record is what the format says. */
    static lemma WholeTrailer(crc: Crc, dest: seq<Byte>, off: nat, slice: seq<Byte>, start: seq<Byte>)
      requires off <= BLOCK_SIZE
      ensures start == dest + Zeros(Padding(off)) ==>
                start + Emitted(crc, FragmentStart(off), true, slice) == dest + Emitted(crc, off, true, slice)
      ensures OffsetAfter(off, |slice|) == OffsetAfter(FragmentStart(off), |slice|)
    {
      PaddingApart(crc, off, true, slice);
      Regrouped(dest, Zeros(Padding(off)), Emitted(crc, FragmentStart(off), true, slice));
    }

    /** Appends the next fragment of a record: as much of the rest as fits into the block. */
    method AddFragment(rest: seq<Byte>, begin: bool) returns (fragmentLength: nat, ok: bool)
      requires blockOffset <= BLOCK_SIZE
      modifies this
      ensures fragmentLength == FragmentLength(old(blockOffset), |rest|)
      ensures var from := old(dest) + Zeros(TrailerTaken(disk, old(blockOffset), old(calls)));
              var t := FragmentType(begin, fragmentLength == |rest|);
              Between(from, dest, from + Fragment(crc, t, rest[..fragmentLength]), ok)
      ensures blockOffset == FragmentStart(old(blockOffset)) + HEADER_SIZE + fragmentLength && calls > old(calls)
      ensures (forall i :: old(calls) <= i < calls ==> disk(i).ok) ==> ok
    {
      SwitchBlock();
      var avail := BLOCK_SIZE - blockOffset - HEADER_SIZE;
      fragmentLength := if |rest| < avail then |rest| else avail;
      var end := |rest| == fragmentLength;
      var t := if begin && end then FULL_TYPE
               else if begin then FIRST_TYPE
               else if end then LAST_TYPE
               else MIDDLE_TYPE;
      ok := EmitPhysicalRecord(t, rest[..fragmentLength]);
    }

    /** Leaves a block in which a header no longer fits, filling its trailer if the file takes it. */
    method SwitchBlock()
      requires blockOffset <= BLOCK_SIZE
      modifies this
      ensures dest == old(dest) + Zeros(TrailerTaken(disk, old(blockOffset), old(calls)))
      ensures blockOffset == FragmentStart(old(blockOffset)) && calls >= old(calls)
    {
      var leftover := BLOCK_SIZE - blockOffset;
      if leftover < HEADER_SIZE {
        // No header fits any more, so the next fragment opens a block
        if leftover > 0 {
          // The bytes that are left become zeros, and nobody asks whether they did
          var _ := Append(Zeros(leftover));
        }
        blockOffset := 0;
      }
    }

    /** Formats a header and appends it, then the payload, and flushes. */
    method EmitPhysicalRecord(t: Byte, data: seq<Byte>) returns (ok: bool)
      requires blockOffset + HEADER_SIZE + |data| <= BLOCK_SIZE
      modifies this
      ensures Between(old(dest), dest, old(dest) + Fragment(crc, t, data), ok)
      ensures blockOffset == old(blockOffset) + HEADER_SIZE + |data| && calls > old(calls)
      ensures (forall i :: old(calls) <= i < calls ==> disk(i).ok) ==> ok
    {
      var sum := Mask(crc([t] + data));
      var header := FixedBytes(sum, 4) + [|data| % 256, |data| / 256, t];
      ok := Append(header);
      if ok {
        ok := Append(data);
        if ok {
          ok := Flush();
        }
      }
      blockOffset := blockOffset + HEADER_SIZE + |data|;
    }
  }
}
