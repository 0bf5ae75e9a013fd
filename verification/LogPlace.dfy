/**
 * When what a writer appends later is read: exactly when its block offset is
 * that of the end of its file, however earlier appends turned out.
 */
module LogPlace {
  import opened Bytes
  import opened LogFormat
  import opened LogReader
  import opened LogWriter
  import opened LogRecovery
  import opened LogDamage
  import opened LogSize
  import opened LogAstray

  // ---------- Reading on from what has been gathered ----------

  /** The records that reading on gives, after the fragments in `scratch` when `inFragment`. */
  function ReadOn(crc: Crc, w: seq<Byte>, c: Cursor, inFragment: bool, scratch: seq<Byte>): seq<seq<Byte>>
    requires c.pos <= c.end <= |w|
  {
    var r := ReadLogical(crc, w, c, inFragment, scratch);
    if r.found then [r.record] + ReadAll(crc, w, r.next).0 else []
  }

  type Onward = (Cursor, bool, seq<Byte>) -> seq<seq<Byte>>

  /** `on` tells what reading on gives from anywhere in the file. */
  ghost predicate IsOnward(crc: Crc, w: seq<Byte>, on: Onward) {
    forall c: Cursor, inFragment, scratch {:trigger ReadOn(crc, w, c, inFragment, scratch)} ::
      c.pos <= c.end <= |w| ==> on(c, inFragment, scratch) == ReadOn(crc, w, c, inFragment, scratch)
  }

  ghost function OnwardOf(crc: Crc, w: seq<Byte>): (on: Onward)
    ensures IsOnward(crc, w, on)
  {
    (c: Cursor, inFragment: bool, scratch: seq<Byte>) =>
      if c.pos <= c.end <= |w| then ReadOn(crc, w, c, inFragment, scratch) else []
  }

  lemma AllIsReadOn(crc: Crc, w: seq<Byte>, c: Cursor)
    requires c.pos <= c.end <= |w|
    ensures ReadAll(crc, w, c).0 == ReadOn(crc, w, c, false, [])
  {
    AllUnfolds(crc, w, c);
  }

  /** What a whole fragment adds: perhaps a record, and what is then gathered. */
  datatype Gain = Gain(records: seq<seq<Byte>>, inFragment: bool, scratch: seq<Byte>)

  function Added(t: Byte, data: seq<Byte>, scratch: seq<Byte>): Gain {
    if t == FULL_TYPE then Gain([data], false, [])
    else if t == FIRST_TYPE then Gain([], true, data)
    else if t == MIDDLE_TYPE then Gain([], true, scratch + data)
    else Gain([scratch + data], false, [])
  }

  /** Reading one physical record, and going on. */
  lemma ReadsOnOne(crc: Crc, w: seq<Byte>, c: Cursor, inFragment: bool, scratch: seq<Byte>, p: Physical)
    requires c.pos <= c.end <= |w| && p == ReadPhysical(crc, w, c)
    ensures var g := Gather(p, inFragment, scratch);
            && (g.More? ==>
                  && g.next.pos <= g.next.end <= |w|
                  && ReadOn(crc, w, c, inFragment, scratch) == ReadOn(crc, w, g.next, g.inFragment, g.scratch))
            && (g.Return? ==>
                  && g.result.next.pos <= g.result.next.end <= |w|
                  && ReadOn(crc, w, c, inFragment, scratch)
                     == if g.result.found then [g.result.record] + ReadAll(crc, w, g.result.next).0 else [])
  {
    LogicalResumes(crc, w, c, inFragment, scratch);
  }

  /** A whole fragment is read and gathered. */
  lemma FragmentRead(on: Onward, crc: Crc, w: seq<Byte>, c: Cursor, off: nat, t: Byte, data: seq<Byte>,
                     inFragment: bool,
                     scratch: seq<Byte>) returns (c': Cursor)
    requires IsOnward(crc, w, on)
    requires Aligned(|w|, c) && off <= BLOCK_SIZE && c.pos % BLOCK_SIZE == off % BLOCK_SIZE
    requires Useful(t) && FragmentStart(off) + HEADER_SIZE + |data| <= BLOCK_SIZE
    requires t == MIDDLE_TYPE || t == LAST_TYPE ==> inFragment
    requires HasAt(w, c.pos + Padding(off), Fragment(crc, t, data))
    ensures Aligned(|w|, c') && c'.pos == c.pos + Padding(off) + HEADER_SIZE + |data|
    ensures var g := Added(t, data, scratch);
            on(c, inFragment, scratch) == g.records + on(c', g.inFragment, g.scratch)
  {
    assert w[..|w|] == w;
    ReadsFragment(crc, w, |w|, c, off, t, data);
    var p := ReadPhysical(crc, w, c);
    ReadsOnOne(crc, w, c, inFragment, scratch, p);
    match Gather(p, inFragment, scratch) {
      case More(next, _, _) =>
        AlignedSame(|w|, p.next, next);
        c' := next;
      case Return(r) =>
        AlignedSame(|w|, p.next, r.next);
        c' := r.next;
        AllIsReadOn(crc, w, c');
    }
  }

  /** A whole record is read, whatever was gathered before its first fragment. */
  lemma {:induction false} RecordRead(on: Onward, crc: Crc, w: seq<Byte>, c: Cursor, off: nat, begin: bool,
                                      data: seq<Byte>,
                                      inFragment: bool, scratch: seq<Byte>) returns (c': Cursor)
    requires IsOnward(crc, w, on)
    requires Aligned(|w|, c) && off <= BLOCK_SIZE && c.pos % BLOCK_SIZE == off % BLOCK_SIZE && (begin || inFragment)
    requires HasAt(w, c.pos, Emitted(crc, off, begin, data))
    ensures Aligned(|w|, c') && c'.pos == c.pos + |Emitted(crc, off, begin, data)|
    ensures on(c, inFragment, scratch)
            == [if begin then data else scratch + data] + on(c', false, [])
    decreases |data|, if FragmentLength(off, |data|) == 0 then 1 else 0
  {
    var k, end := FragmentLength(off, |data|), c.pos + |Emitted(crc, off, begin, data)|;
    var gathered;
    c', gathered := PieceRead(on, crc, w, c, off, begin, data, k, end, inFragment, scratch);
    if k < |data| {
      c' := RecordRead(on, crc, w, c', BLOCK_SIZE, false, data[k..], true, gathered);
    }
  }

  /** The next fragment of a record that ends at `end`: it completes the record, or is gathered. */
  lemma PieceRead(on: Onward, crc: Crc, w: seq<Byte>, c: Cursor, off: nat, begin: bool, data: seq<Byte>, k: nat,
                  end: nat,
                  inFragment: bool, scratch: seq<Byte>) returns (c': Cursor, gathered: seq<Byte>)
    requires IsOnward(crc, w, on)
    requires Aligned(|w|, c) && off <= BLOCK_SIZE && c.pos % BLOCK_SIZE == off % BLOCK_SIZE && (begin || inFragment)
    requires k == FragmentLength(off, |data|) && HasAt(w, c.pos, Emitted(crc, off, begin, data))
               && end == c.pos + |Emitted(crc, off, begin, data)|
    ensures Aligned(|w|, c')
    ensures k == |data| ==>
              c'.pos == end
              && on(c, inFragment, scratch) == [if begin then data else scratch + data] + on(c', false, [])
    ensures k < |data| ==>
              && gathered + data[k..] == (if begin then data else scratch + data) && c'.pos % BLOCK_SIZE == 0
              && HasAt(w, c'.pos, Emitted(crc, BLOCK_SIZE, false, data[k..]))
              && end == c'.pos + |Emitted(crc, BLOCK_SIZE, false, data[k..])|
              && on(c, inFragment, scratch) == on(c', true, gathered)
  {
    var t := FragmentType(begin, k == |data|);
    var after, _ := NextPiece(crc, w, c.pos, off, begin, data, k);
    c' := FragmentRead(on, crc, w, c, off, t, data[..k], inFragment, scratch);
    gathered := Added(t, data[..k], scratch).scratch;
    if k == |data| {
      assert data[..k] == data;
    } else {
      NoneFirst(on(c', true, gathered));
    }
  }

  lemma NoneFirst(records: seq<seq<Byte>>)
    ensures [] + records == records
  {
  }

  /** At the end of the file nothing more is read. */
  lemma NothingLeft(on: Onward, crc: Crc, w: seq<Byte>, c: Cursor, inFragment: bool, scratch: seq<Byte>)
    requires IsOnward(crc, w, on)
    requires Aligned(|w|, c) && c.pos == |w|
    ensures on(c, inFragment, scratch) == []
  {
    LogicalResumes(crc, w, c, inFragment, scratch);
    assert ReadOn(crc, w, c, inFragment, scratch) == [];
  }

  /** A list of records up to the end of the file is read, whatever was gathered before. */
  lemma {:induction false} LogRead(on: Onward, crc: Crc, w: seq<Byte>, c: Cursor, off: nat, records: seq<seq<Byte>>,
                                   inFragment: bool, scratch: seq<Byte>)
    requires IsOnward(crc, w, on)
    requires Aligned(|w|, c) && off <= BLOCK_SIZE && c.pos % BLOCK_SIZE == off % BLOCK_SIZE
    requires HasAt(w, c.pos, Log(crc, off, records)) && |w| == c.pos + |Log(crc, off, records)|
    ensures on(c, inFragment, scratch) == records
    decreases |records|
  {
    if records == [] {
      NothingLeft(on, crc, w, c, inFragment, scratch);
    } else {
      var after, off' := FirstRecord(crc, w, c.pos, off, records);
      var next := RecordRead(on, crc, w, c, off, true, records[0], inFragment, scratch);
      LogRead(on, crc, w, next, off', records[1..], false, []);
    }
  }

  // ---------- A writer in its place ----------

  ghost predicate Arrives(crc: Crc, w: seq<Byte>, p: nat, records: seq<seq<Byte>>, inFragment: bool, scratch: seq<Byte>,
                          c: Cursor) {
    && Aligned(|w|, c) && c.pos == p
    && ReadAll(crc, w, START).0 == records + ReadOn(crc, w, c, inFragment, scratch)
  }

  /** Reading a file gives `records` up to position `p`, where `scratch` has been gathered when `inFragment`. */
  ghost predicate Comes(crc: Crc, w: seq<Byte>, p: nat, records: seq<seq<Byte>>, inFragment: bool, scratch: seq<Byte>) {
    exists c :: Arrives(crc, w, p, records, inFragment, scratch, c)
  }

  /**
   * A writer is in its place: its block offset is that of the end of the file,
   * and reading comes to that end, whatever is appended to the file.
   */
  ghost predicate At(crc: Crc, dest: seq<Byte>, off: nat, records: seq<seq<Byte>>, inFragment: bool,
                     scratch: seq<Byte>) {
    && off <= BLOCK_SIZE && off % BLOCK_SIZE == |dest| % BLOCK_SIZE
    && forall w :: dest <= w ==> Comes(crc, w, |dest|, records, inFragment, scratch)
  }

  lemma AtStart(crc: Crc)
    ensures At(crc, [], 0, [], false, [])
  {
    forall w: seq<Byte> | [] <= w ensures Comes(crc, w, 0, [], false, []) {
      AllIsReadOn(crc, w, START);
      assert [] + ReadOn(crc, w, START, false, []) == ReadOn(crc, w, START, false, []);
      assert Arrives(crc, w, 0, [], false, [], START);
    }
  }

  /** A fragment that is written whole leaves a writer in its place. */
  lemma FragmentAdds(crc: Crc, dest: seq<Byte>, off: nat, records: seq<seq<Byte>>, inFragment: bool, scratch: seq<Byte>,
                     t: Byte, data: seq<Byte>)
    requires At(crc, dest, off, records, inFragment, scratch)
    requires Useful(t) && FragmentStart(off) + HEADER_SIZE + |data| <= BLOCK_SIZE
    requires t == MIDDLE_TYPE || t == LAST_TYPE ==> inFragment
    ensures var g := Added(t, data, scratch);
            At(crc, dest + (Zeros(Padding(off)) + Fragment(crc, t, data)), FragmentStart(off) + HEADER_SIZE + |data|,
               records + g.records, g.inFragment, g.scratch)
  {
    var bytes, g := Zeros(Padding(off)) + Fragment(crc, t, data), Added(t, data, scratch);
    PlaceAfter(|dest|, off, |data|);
    forall w | dest + bytes <= w ensures Comes(crc, w, |dest + bytes|, records + g.records, g.inFragment, g.scratch) {
      assert Comes(crc, w, |dest|, records, inFragment, scratch);
      var c :| Arrives(crc, w, |dest|, records, inFragment, scratch, c);
      HasMore(w, dest, bytes);
      HasParts(w, |dest|, Zeros(Padding(off)), Fragment(crc, t, data));
      var c' := FragmentRead(OnwardOf(crc, w), crc, w, c, off, t, data, inFragment, scratch);
      Regrouped3(records, g.records, ReadOn(crc, w, c', g.inFragment, g.scratch));
      assert Arrives(crc, w, |dest + bytes|, records + g.records, g.inFragment, g.scratch, c');
    }
  }

  lemma PlaceAfter(p: nat, off: nat, n: nat)
    requires off <= BLOCK_SIZE && off % BLOCK_SIZE == p % BLOCK_SIZE
    ensures (FragmentStart(off) + HEADER_SIZE + n) % BLOCK_SIZE == (p + Padding(off) + HEADER_SIZE + n) % BLOCK_SIZE
  {
    PaddedOffset(off);
    SameOffset(off, p, Padding(off) + HEADER_SIZE + n);
    if off + Padding(off) != FragmentStart(off) {
      NextBlock(FragmentStart(off) + HEADER_SIZE + n);
    }
  }

  lemma HasMore(w: seq<Byte>, dest: seq<Byte>, bytes: seq<Byte>)
    requires dest + bytes <= w
    ensures dest <= w && HasAt(w, |dest|, bytes)
  {
    assert w[..|dest + bytes|] == dest + bytes;
    forall i {:trigger bytes[i]} | 0 <= i < |bytes| ensures w[|dest| + i] == bytes[i] {
      assert w[|dest| + i] == (dest + bytes)[|dest| + i];
    }
  }

  lemma Regrouped3(a: seq<seq<Byte>>, b: seq<seq<Byte>>, c: seq<seq<Byte>>)
    ensures a + (b + c) == (a + b) + c
  {
  }

  /** From its place a writer appends records that are all read, behind those before. */
  lemma AtReads(crc: Crc, dest: seq<Byte>, off: nat, records: seq<seq<Byte>>, inFragment: bool, scratch: seq<Byte>,
                more: seq<seq<Byte>>)
    requires At(crc, dest, off, records, inFragment, scratch)
    ensures ReadAll(crc, dest + Log(crc, off, more), START).0 == records + more
  {
    var w := dest + Log(crc, off, more);
    assert Comes(crc, w, |dest|, records, inFragment, scratch);
    var c :| Arrives(crc, w, |dest|, records, inFragment, scratch, c);
    HasMore(w, dest, Log(crc, off, more));
    LogRead(OnwardOf(crc, w), crc, w, c, off, more, inFragment, scratch);
    assert ReadOn(crc, w, c, inFragment, scratch) == more;
  }

  lemma AtSame(crc: Crc, dest: seq<Byte>, off: nat, next: nat, records: seq<seq<Byte>>, inFragment: bool,
               scratch: seq<Byte>)
    requires At(crc, dest, off, records, inFragment, scratch)
    requires next <= BLOCK_SIZE && next % BLOCK_SIZE == off % BLOCK_SIZE
    ensures At(crc, dest, next, records, inFragment, scratch)
  {
  }

  /** A trailer is skipped without a trace. */
  lemma TrailerRead(on: Onward, crc: Crc, w: seq<Byte>, c: Cursor, off: nat, inFragment: bool, scratch: seq<Byte>)
    returns (c': Cursor)
    requires IsOnward(crc, w, on)
    requires Aligned(|w|, c) && off <= BLOCK_SIZE && c.pos % BLOCK_SIZE == off % BLOCK_SIZE
    requires c.pos + Padding(off) <= |w|
    ensures Aligned(|w|, c') && c'.pos == c.pos + Padding(off)
    ensures on(c, inFragment, scratch) == on(c', inFragment, scratch)
  {
    if Padding(off) == 0 {
      c' := c;
    } else {
      TrailerEnds(|w|, c, off);
      c' := c.(pos := c.end);
      assert ReadPhysical(crc, w, c) == ReadPhysical(crc, w, c');
      LogicalResumes(crc, w, c, inFragment, scratch);
      LogicalResumes(crc, w, c', inFragment, scratch);
      assert ReadOn(crc, w, c, inFragment, scratch) == ReadOn(crc, w, c', inFragment, scratch);
    }
  }

  lemma TrailerEnds(n: nat, c: Cursor, off: nat)
    requires Aligned(n, c) && off <= BLOCK_SIZE && c.pos % BLOCK_SIZE == off % BLOCK_SIZE
    requires 0 < Padding(off) && c.pos + Padding(off) <= n
    ensures c.end == c.pos + Padding(off)
  {
  }

  /** A trailer that is written whole leaves a writer in its place. */
  lemma TrailerAdds(crc: Crc, dest: seq<Byte>, off: nat, records: seq<seq<Byte>>, inFragment: bool, scratch: seq<Byte>)
    requires At(crc, dest, off, records, inFragment, scratch)
    ensures At(crc, dest + Zeros(Padding(off)), FragmentStart(off), records, inFragment, scratch)
  {
    var bytes := Zeros(Padding(off));
    TrailerPlace(|dest|, off);
    forall w | dest + bytes <= w ensures Comes(crc, w, |dest + bytes|, records, inFragment, scratch) {
      HasMore(w, dest, bytes);
      assert Comes(crc, w, |dest|, records, inFragment, scratch);
      var c :| Arrives(crc, w, |dest|, records, inFragment, scratch, c);
      var c' := TrailerRead(OnwardOf(crc, w), crc, w, c, off, inFragment, scratch);
      assert ReadOn(crc, w, c, inFragment, scratch) == ReadOn(crc, w, c', inFragment, scratch);
      assert Arrives(crc, w, |dest + bytes|, records, inFragment, scratch, c');
    }
  }

  lemma TrailerPlace(p: nat, off: nat)
    requires off <= BLOCK_SIZE && off % BLOCK_SIZE == p % BLOCK_SIZE
    ensures FragmentStart(off) % BLOCK_SIZE == (p + Padding(off)) % BLOCK_SIZE
  {
    PaddedOffset(off);
    SameOffset(off, p, Padding(off));
    if off + Padding(off) != FragmentStart(off) {
      NextBlock(FragmentStart(off));
    }
  }

  /** A record that is written whole leaves a writer in its place. */
  lemma {:induction false} RecordAdds(crc: Crc, dest: seq<Byte>, off: nat, begin: bool, data: seq<Byte>,
                                      records: seq<seq<Byte>>, inFragment: bool, scratch: seq<Byte>)
    requires At(crc, dest, off, records, inFragment, scratch) && (begin || inFragment)
    ensures At(crc, dest + Emitted(crc, off, begin, data), OffsetAfter(off, |data|),
               records + [if begin then data else scratch + data], false, [])
  {
    var bytes, all := Emitted(crc, off, begin, data), records + [if begin then data else scratch + data];
    OffsetAt(crc, |dest|, off, begin, data);
    forall w | dest + bytes <= w ensures Comes(crc, w, |dest + bytes|, all, false, []) {
      HasMore(w, dest, bytes);
      assert Comes(crc, w, |dest|, records, inFragment, scratch);
      var c :| Arrives(crc, w, |dest|, records, inFragment, scratch, c);
      var c' := RecordRead(OnwardOf(crc, w), crc, w, c, off, begin, data, inFragment, scratch);
      Regrouped3(records, [if begin then data else scratch + data], ReadOn(crc, w, c', false, []));
      assert Arrives(crc, w, |dest + bytes|, all, false, [], c');
    }
  }

  // ---------- After a failure ----------

  /** What is added to the records when the rest of a record is there whole. */
  function IfWhole(whole: bool, record: seq<Byte>): seq<seq<Byte>> {
    if whole then [record] else []
  }

  /**
   * Writing that stopped with the block offset at the end of the file has left
   * whole fragments only, or nothing of a fragment as long as a block.
   */
  lemma StoppedHere(start: nat, off: nat, n: nat, dest: nat, next: nat)
    requires off <= BLOCK_SIZE && FragmentStart(off) % BLOCK_SIZE == start % BLOCK_SIZE
    requires FragmentStart(off) + HEADER_SIZE + n <= BLOCK_SIZE && start <= dest <= start + HEADER_SIZE + n
    requires next == FragmentStart(off) + HEADER_SIZE + n && next % BLOCK_SIZE == dest % BLOCK_SIZE
    ensures dest == start + HEADER_SIZE + n || (dest == start && next == BLOCK_SIZE && FragmentStart(off) == 0)
  {
  }

  /** A fragment behind the trailer, if any. */
  lemma FragmentHere(crc: Crc, start: seq<Byte>, off: nat, records: seq<seq<Byte>>, inFragment: bool,
                     scratch: seq<Byte>,
                     t: Byte, data: seq<Byte>)
    requires off <= BLOCK_SIZE && At(crc, start, FragmentStart(off), records, inFragment, scratch)
    requires Useful(t) && FragmentStart(off) + HEADER_SIZE + |data| <= BLOCK_SIZE
    requires t == MIDDLE_TYPE || t == LAST_TYPE ==> inFragment
    ensures var g := Added(t, data, scratch);
            At(crc, start + Fragment(crc, t, data), FragmentStart(off) + HEADER_SIZE + |data|,
               records + g.records, g.inFragment, g.scratch)
  {
    assert Zeros(Padding(FragmentStart(off))) + Fragment(crc, t, data) == Fragment(crc, t, data);
    FragmentAdds(crc, start, FragmentStart(off), records, inFragment, scratch, t, data);
  }

  /** The fragment at which writing stopped is there whole. */
  lemma StopsWhole(crc: Crc, start: seq<Byte>, off: nat, begin: bool, rest: seq<Byte>, n: nat, dest: seq<Byte>,
                   next: nat,
                   records: seq<seq<Byte>>, inFragment: bool, scratch: seq<Byte>)
    requires off <= BLOCK_SIZE && n == FragmentLength(off, |rest|)
    requires var t := FragmentType(begin, n == |rest|);
             var g := Added(t, rest[..n], scratch);
             && dest == start + Fragment(crc, t, rest[..n])
             && At(crc, dest, next, records + g.records, g.inFragment, g.scratch)
    ensures var g := Added(FragmentType(begin, n == |rest|), rest[..n], scratch);
            At(crc, dest, next,
               records + IfWhole(dest == start + Emitted(crc, FragmentStart(off), begin, rest),
                                 if begin then rest else scratch + rest),
               g.inFragment, g.scratch)
  {
    NoPadding(crc, off, begin, rest, n);
    GainWhole(begin, rest, n, records, scratch);
  }

  /** Nothing is there of the fragment at which writing stopped. */
  lemma StopsBefore(crc: Crc, start: seq<Byte>, off: nat, begin: bool, rest: seq<Byte>, next: nat,
                    records: seq<seq<Byte>>, inFragment: bool, scratch: seq<Byte>)
    requires off <= BLOCK_SIZE && next == BLOCK_SIZE && FragmentStart(off) == 0
    requires At(crc, start, FragmentStart(off), records, inFragment, scratch)
    ensures At(crc, start, next,
               records + IfWhole(start == start + Emitted(crc, FragmentStart(off), begin, rest),
                                 if begin then rest else scratch + rest),
               inFragment, scratch)
  {
    AtSame(crc, start, FragmentStart(off), next, records, inFragment, scratch);
    assert records + [] == records;
  }

  /** The last fragment completes the record; any other adds none. */
  lemma GainWhole(begin: bool, rest: seq<Byte>, n: nat, records: seq<seq<Byte>>, scratch: seq<Byte>)
    requires n <= |rest|
    ensures records + Added(FragmentType(begin, n == |rest|), rest[..n], scratch).records
            == records + IfWhole(n == |rest|, if begin then rest else scratch + rest)
  {
    if n == |rest| {
      assert rest[..n] == rest;
    }
  }

  /** The rest of a record behind its first fragment. */
  lemma BehindFragment(crc: Crc, start: seq<Byte>, off: nat, begin: bool, rest: seq<Byte>, n: nat)
    requires off <= BLOCK_SIZE && n == FragmentLength(off, |rest|) < |rest|
    ensures (start + Fragment(crc, FragmentType(begin, false), rest[..n]))
            + Emitted(crc, FragmentStart(BLOCK_SIZE), false, rest[n..])
            == start + Emitted(crc, FragmentStart(off), begin, rest)
  {
    NoPadding(crc, off, begin, rest, n);
    BlockEndIsBlockStart(crc, false, rest[n..]);
    Regrouped(start, Fragment(crc, FragmentType(begin, false), rest[..n]), Emitted(crc, BLOCK_SIZE, false, rest[n..]));
  }

  /** A first or middle fragment adds no record. */
  lemma StillGathering(begin: bool, rest: seq<Byte>, n: nat, records: seq<seq<Byte>>, scratch: seq<Byte>)
    requires n <= |rest|
    ensures var g := Added(FragmentType(begin, false), rest[..n], scratch);
            && records + g.records == records && g.inFragment
            && g.scratch + rest[n..] == if begin then rest else scratch + rest
  {
  }

  /** From its place, a writer that stopped with its offset at the end of the file is in its place. */
  lemma {:induction false} StoppedInPlace(crc: Crc, start: seq<Byte>, off: nat, begin: bool, rest: seq<Byte>,
                                          dest: seq<Byte>, next: nat,
                                          records: seq<seq<Byte>>, inFragment: bool, scratch: seq<Byte>)
    returns (inFragment': bool, scratch': seq<Byte>)
    requires off <= BLOCK_SIZE && Stopped(crc, start, off, begin, rest, dest, next)
    requires At(crc, start, FragmentStart(off), records, inFragment, scratch) && (begin || inFragment)
    requires next % BLOCK_SIZE == |dest| % BLOCK_SIZE
    ensures At(crc, dest, next,
               records + IfWhole(dest == start + Emitted(crc, FragmentStart(off), begin, rest),
                                 if begin then rest else scratch + rest),
               inFragment', scratch')
    decreases |rest|, if FragmentLength(off, |rest|) == 0 then 1 else 0
  {
    var n := FragmentLength(off, |rest|);
    var t := FragmentType(begin, n == |rest|);
    var f := Fragment(crc, t, rest[..n]);
    NoPadding(crc, off, begin, rest, n);
    FragmentHere(crc, start, off, records, inFragment, scratch, t, rest[..n]);
    var g := Added(t, rest[..n], scratch);
    if start <= dest <= start + f && next == FragmentStart(off) + HEADER_SIZE + n {
      StoppedHere(|start|, off, n, |dest|, next);
      if |dest| == |start| {
        assert dest == start;
        StopsBefore(crc, start, off, begin, rest, next, records, inFragment, scratch);
        inFragment', scratch' := inFragment, scratch;
      } else {
        assert dest == start + f;
        StopsWhole(crc, start, off, begin, rest, n, dest, next, records, inFragment, scratch);
        inFragment', scratch' := g.inFragment, g.scratch;
      }
    } else {
      StillGathering(begin, rest, n, records, scratch);
      BehindFragment(crc, start, off, begin, rest, n);
      AtSame(crc, start + f, BLOCK_SIZE, 0, records, g.inFragment, g.scratch);
      inFragment', scratch' := StoppedInPlace(crc, start + f, BLOCK_SIZE, false, rest[n..], dest, next,
                                              records, true, g.scratch);
    }
  }

  /** The same for any outcome of appending a record, behind a whole trailer. */
  lemma WroteInPlace(crc: Crc, dest: seq<Byte>, off: nat, records: seq<seq<Byte>>, inFragment: bool, scratch: seq<Byte>,
                     slice: seq<Byte>, ok: bool, dest': seq<Byte>, off': nat)
    returns (inFragment': bool, scratch': seq<Byte>)
    requires At(crc, dest, off, records, inFragment, scratch)
    requires Wrote(crc, dest + Zeros(Padding(off)), off, true, slice, ok, dest', off')
    requires off' % BLOCK_SIZE == |dest'| % BLOCK_SIZE
    ensures At(crc, dest', off', records + IfWhole(dest' == dest + Emitted(crc, off, true, slice), slice),
               inFragment', scratch')
    ensures ok ==> dest' == dest + Emitted(crc, off, true, slice)
  {
    PaddingApart(crc, off, true, slice);
    Regrouped(dest, Zeros(Padding(off)), Emitted(crc, FragmentStart(off), true, slice));
    if ok {
      RecordAdds(crc, dest, off, true, slice, records, inFragment, scratch);
      inFragment', scratch' := false, [];
    } else {
      TrailerAdds(crc, dest, off, records, inFragment, scratch);
      inFragment', scratch' := StoppedInPlace(crc, dest + Zeros(Padding(off)), off, true, slice, dest', off',
                                              records, inFragment, scratch);
    }
  }

  // ---------- Exactly when later records are read ----------

  /** What the file held is read first, and what was appended later is read last. */
  ghost predicate ReadsBack(crc: Crc, file: seq<Byte>, records: seq<seq<Byte>>, more: seq<seq<Byte>>) {
    var read := ReadAll(crc, file, START).0;
    records <= read && |records| + |more| <= |read| && read[|read| - |more|..] == more
  }

  lemma ReadsBackIs(crc: Crc, file: seq<Byte>, records: seq<seq<Byte>>, between: seq<seq<Byte>>, more: seq<seq<Byte>>)
    requires ReadAll(crc, file, START).0 == (records + between) + more
    ensures ReadsBack(crc, file, records, more)
  {
  }

  /** In its place a writer appends what is read behind the records before. */
  lemma InPlaceReadsBack(crc: Crc, dest: seq<Byte>, off: nat, records: seq<seq<Byte>>, between: seq<seq<Byte>>,
                         inFragment: bool, scratch: seq<Byte>, more: seq<seq<Byte>>)
    requires At(crc, dest, off, records + between, inFragment, scratch)
    ensures ReadsBack(crc, dest + Log(crc, off, more), records, more)
  {
    AtReads(crc, dest, off, records + between, inFragment, scratch, more);
    ReadsBackIs(crc, dest + Log(crc, off, more), records, between, more);
  }

  /** Out of its place a writer loses a record. */
  lemma OutOfPlaceLoses(crc: Crc, dest: seq<Byte>, off: nat, records: seq<seq<Byte>>) returns (more: seq<seq<Byte>>)
    requires off <= BLOCK_SIZE && off % BLOCK_SIZE != |dest| % BLOCK_SIZE
    ensures !ReadsBack(crc, dest + Log(crc, off, more), records, more)
  {
    var x := RecordIsLost(crc, dest, off);
    more := [x];
    NotReadNotLast(ReadAll(crc, dest + Log(crc, off, more), START).0, x);
  }

  lemma NotReadNotLast(read: seq<seq<Byte>>, x: seq<Byte>)
    requires x !in read
    ensures 1 <= |read| ==> read[|read| - 1..] != [x]
  {
    if 1 <= |read| {
      assert read[|read| - 1..][0] == read[|read| - 1];
    }
  }

  /**
   * After a call of AddRecord, successful or not, from a writer in its place:
   * every list of records that are then appended without failure is read, behind
   * all records that were there, if and only if the block offset is that of the
   * end of the file.
   */
  lemma LaterRecordsExactly(crc: Crc, dest: seq<Byte>, off: nat, records: seq<seq<Byte>>, inFragment: bool,
                            scratch: seq<Byte>, slice: seq<Byte>, ok: bool, dest': seq<Byte>, off': nat)
    requires At(crc, dest, off, records, inFragment, scratch)
    requires Wrote(crc, dest + Zeros(Padding(off)), off, true, slice, ok, dest', off') && off' <= BLOCK_SIZE
    ensures (forall more :: ReadsBack(crc, dest' + Log(crc, off', more), records, more))
            <==> off' % BLOCK_SIZE == |dest'| % BLOCK_SIZE
  {
    if off' % BLOCK_SIZE == |dest'| % BLOCK_SIZE {
      var inFragment', scratch' :=
        WroteInPlace(crc, dest, off, records, inFragment, scratch, slice, ok, dest', off');
      forall more ensures ReadsBack(crc, dest' + Log(crc, off', more), records, more) {
        InPlaceReadsBack(crc, dest', off', records, IfWhole(dest' == dest + Emitted(crc, off, true, slice), slice),
                         inFragment', scratch', more);
      }
    } else {
      var more := OutOfPlaceLoses(crc, dest', off', records);
    }
  }

  // ---------- A whole session ----------

  /** One call of AddRecord: what it was given and how it turned out. */
  datatype Append = Append(slice: seq<Byte>, trailer: nat, ok: bool, dest: seq<Byte>, off: nat)

  /** The calls of a session, from a file and a block offset on, as the writer makes them. */
  ghost predicate Session(crc: Crc, dest: seq<Byte>, off: nat, calls: seq<Append>)
    requires off <= BLOCK_SIZE
    decreases |calls|
  {
    calls != [] ==>
      && calls[0].trailer <= Padding(off) && calls[0].off <= BLOCK_SIZE
      && Wrote(crc, dest + Zeros(calls[0].trailer), off, true, calls[0].slice, calls[0].ok, calls[0].dest, calls[0].off)
      && Session(crc, calls[0].dest, calls[0].off, calls[1..])
  }

  /** A call left the writer in its place: with a whole trailer, and the offset at the end of the file. */
  predicate CallInPlace(off: nat, a: Append)
    requires off <= BLOCK_SIZE
  {
    a.trailer == Padding(off) && a.off <= BLOCK_SIZE && a.off % BLOCK_SIZE == |a.dest| % BLOCK_SIZE
  }

  /** Every call did. */
  predicate InPlace(off: nat, calls: seq<Append>)
    requires off <= BLOCK_SIZE
    decreases |calls|
  {
    calls != [] ==> CallInPlace(off, calls[0]) && InPlace(calls[0].off, calls[1..])
  }

  /** The records whose bytes are all in the file, among them all that were reported as appended. */
  ghost function Whole(crc: Crc, dest: seq<Byte>, off: nat, calls: seq<Append>): (records: seq<seq<Byte>>)
    requires off <= BLOCK_SIZE && Session(crc, dest, off, calls)
    decreases |calls|
  {
    if calls == [] then []
    else
      IfWhole(calls[0].dest == dest + Emitted(crc, off, true, calls[0].slice), calls[0].slice)
      + Whole(crc, calls[0].dest, calls[0].off, calls[1..])
  }

  /** The file at the end of a session. */
  function LastFile(dest: seq<Byte>, calls: seq<Append>): seq<Byte> {
    if calls == [] then dest else calls[|calls| - 1].dest
  }

  lemma {:induction false} SessionInPlace(crc: Crc, dest: seq<Byte>, off: nat, calls: seq<Append>,
                                          records: seq<seq<Byte>>, inFragment: bool, scratch: seq<Byte>)
    returns (off': nat, inFragment': bool, scratch': seq<Byte>)
    requires off <= BLOCK_SIZE && At(crc, dest, off, records, inFragment, scratch)
    requires Session(crc, dest, off, calls) && InPlace(off, calls)
    ensures At(crc, LastFile(dest, calls), off', records + Whole(crc, dest, off, calls), inFragment', scratch')
    decreases |calls|
  {
    if calls == [] {
      off', inFragment', scratch' := off, inFragment, scratch;
      assert records + [] == records;
    } else {
      var a := calls[0];
      var one := IfWhole(a.dest == dest + Emitted(crc, off, true, a.slice), a.slice);
      var inFragment1, scratch1 :=
        WroteInPlace(crc, dest, off, records, inFragment, scratch, a.slice, a.ok, a.dest, a.off);
      off', inFragment', scratch' :=
        SessionInPlace(crc, a.dest, a.off, calls[1..], records + one, inFragment1, scratch1);
      Regrouped3(records, one, Whole(crc, a.dest, a.off, calls[1..]));
      assert LastFile(dest, calls) == LastFile(a.dest, calls[1..]);
    }
  }

  /** Whatever is appended after a session in which every call left the writer in its place, the session is read. */
  lemma SessionReads(crc: Crc, calls: seq<Append>, file: seq<Byte>)
    requires Session(crc, [], 0, calls) && InPlace(0, calls) && LastFile([], calls) <= file
    ensures Whole(crc, [], 0, calls) <= ReadAll(crc, file, START).0
  {
    AtStart(crc);
    var off, inFragment, scratch := SessionInPlace(crc, [], 0, calls, [], false, []);
    var whole := Whole(crc, [], 0, calls);
    assert [] + whole == whole;
    assert Comes(crc, file, |LastFile([], calls)|, whole, inFragment, scratch);
  }

  /** A call that succeeded in its place has its record among those. */
  lemma {:induction false} OkIsWhole(crc: Crc, dest: seq<Byte>, off: nat, calls: seq<Append>, i: nat)
    requires off <= BLOCK_SIZE && Session(crc, dest, off, calls) && InPlace(off, calls) && i < |calls| && calls[i].ok
    ensures calls[i].slice in Whole(crc, dest, off, calls)
    decreases |calls|
  {
    var a := calls[0];
    if i == 0 {
      WholeRecord(crc, dest, off, a.slice);
    } else {
      OkIsWhole(crc, a.dest, a.off, calls[1..], i - 1);
    }
  }

  lemma WholeRecord(crc: Crc, dest: seq<Byte>, off: nat, slice: seq<Byte>)
    requires off <= BLOCK_SIZE
    ensures dest + Zeros(Padding(off)) + Emitted(crc, FragmentStart(off), true, slice)
            == dest + Emitted(crc, off, true, slice)
  {
    PaddingApart(crc, off, true, slice);
    Regrouped(dest, Zeros(Padding(off)), Emitted(crc, FragmentStart(off), true, slice));
  }
}
