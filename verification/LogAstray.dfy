/**
 * A writer whose block offset is not that of the end of its file loses records:
 * there is one that no reader gets out of the file.
 */
module LogAstray {
  import opened Bytes
  import opened LogFormat
  import opened LogReader
  import opened LogRecovery
  import opened LogSize

  const PAYLOAD: nat := BLOCK_SIZE - HEADER_SIZE

  // ---------- A long record of zeros ----------

  /** The middle fragments of a record of zeros: each fills a block. */
  function Middle(crc: Crc): (bs: seq<Byte>)
    ensures |bs| == BLOCK_SIZE
    ensures bs[4] == PAYLOAD % 256 && bs[5] == PAYLOAD / 256 && bs[6] == MIDDLE_TYPE
    ensures forall i :: HEADER_SIZE <= i < BLOCK_SIZE ==> bs[i] == 0
  {
    var bs := Fragment(crc, MIDDLE_TYPE, Zeros(PAYLOAD));
    assert bs[HEADER_SIZE..] == Zeros(PAYLOAD);
    bs
  }

  function Middles(crc: Crc, k: nat): (bs: seq<Byte>)
    ensures |bs| == k * BLOCK_SIZE
  {
    if k == 0 then [] else Middle(crc) + Middles(crc, k - 1)
  }

  /** The rest of a record of zeros, `k` fragments that fill their blocks and one of a single byte. */
  function LongRest(k: nat): seq<Byte> {
    Zeros(k * PAYLOAD + 1)
  }

  lemma {:induction false} RestIsMiddles(crc: Crc, k: nat)
    ensures Emitted(crc, BLOCK_SIZE, false, LongRest(k)) == Middles(crc, k) + Fragment(crc, LAST_TYPE, [0])
    decreases k
  {
    var rest := LongRest(k);
    var last := Fragment(crc, LAST_TYPE, [0]);
    if k == 0 {
      LastOnly(crc);
    } else {
      assert rest[..PAYLOAD] == Zeros(PAYLOAD) && rest[PAYLOAD..] == LongRest(k - 1);
      OneMiddle(crc, rest);
      RestIsMiddles(crc, k - 1);
      Regrouped(Middle(crc), Middles(crc, k - 1), last);
    }
  }

  lemma LastOnly(crc: Crc)
    ensures Emitted(crc, BLOCK_SIZE, false, LongRest(0)) == Fragment(crc, LAST_TYPE, [0])
  {
    var rest := LongRest(0);
    assert rest == [0] && rest[..1] == rest;
    assert FragmentLength(BLOCK_SIZE, 1) == 1;
    var f := Fragment(crc, LAST_TYPE, [0]);
    assert Zeros(Padding(BLOCK_SIZE)) + f + [] == f;
  }

  lemma OneMiddle(crc: Crc, rest: seq<Byte>)
    requires |rest| > PAYLOAD && rest[..PAYLOAD] == Zeros(PAYLOAD)
    ensures Emitted(crc, BLOCK_SIZE, false, rest) == Middle(crc) + Emitted(crc, BLOCK_SIZE, false, rest[PAYLOAD..])
  {
    assert FragmentLength(BLOCK_SIZE, |rest|) == PAYLOAD;
    assert Zeros(Padding(BLOCK_SIZE)) + Middle(crc) == Middle(crc);
  }

  lemma {:induction false} MiddlesAt(crc: Crc, k: nat, j: nat, i: nat)
    requires j < k && i < BLOCK_SIZE
    ensures j * BLOCK_SIZE + i < k * BLOCK_SIZE && Middles(crc, k)[j * BLOCK_SIZE + i] == Middle(crc)[i]
    decreases k
  {
    if j == 0 {
    } else {
      MiddlesAt(crc, k - 1, j - 1, i);
      assert Middles(crc, k)[j * BLOCK_SIZE + i] == Middles(crc, k - 1)[(j - 1) * BLOCK_SIZE + i];
    }
  }

  // ---------- What a reader makes of it ----------

  /** From `d` on the file has `k` middle fragments. */
  ghost predicate Striped(crc: Crc, file: seq<Byte>, d: nat, k: nat) {
    && d + k * BLOCK_SIZE <= |file|
    && forall q {:trigger file[q]} :: d <= q < d + k * BLOCK_SIZE ==> file[q] == Middle(crc)[(q - d) % BLOCK_SIZE]
  }

  lemma MiddlesAreStripes(crc: Crc, file: seq<Byte>, d: nat, k: nat)
    requires HasAt(file, d, Middles(crc, k))
    ensures Striped(crc, file, d, k)
  {
    forall q {:trigger file[q]} | d <= q < d + k * BLOCK_SIZE
      ensures file[q] == Middle(crc)[(q - d) % BLOCK_SIZE]
    {
      var j, i := (q - d) / BLOCK_SIZE, (q - d) % BLOCK_SIZE;
      MiddlesAt(crc, k, j, i);
      assert file[d + (q - d)] == Middles(crc, k)[q - d];
    }
  }

  /** Not enough of a record of zeros: too short, or with something else in it. */
  ghost predicate Poor(limit: int, s: seq<Byte>) {
    |s| <= limit || exists i :: 0 <= i < |s| && s[i] != 0
  }

  lemma PoorAdds(a: int, s: seq<Byte>, b: int, t: seq<Byte>)
    requires Poor(a, s) && Poor(b, t)
    ensures Poor(a + b, s + t)
  {
    if i :| 0 <= i < |s| && s[i] != 0 {
      assert (s + t)[i] != 0;
    } else if i :| 0 <= i < |t| && t[i] != 0 {
      assert (s + t)[|s| + i] != 0;
    }
  }

  lemma PoorGrows(a: int, b: int, s: seq<Byte>)
    requires Poor(a, s) && a <= b
    ensures Poor(b, s)
  {
  }

  predicate Useful(t: nat) {
    t == FULL_TYPE || t == FIRST_TYPE || t == MIDDLE_TYPE || t == LAST_TYPE
  }

  /** A byte of a header that is parsed at offset `i` of a stripe. */
  lemma StripeAt(crc: Crc, file: seq<Byte>, d: nat, k: nat, h: nat, t: nat)
    requires Striped(crc, file, d, k) && d <= h && h + BLOCK_SIZE <= d + k * BLOCK_SIZE && t < BLOCK_SIZE
    ensures var i := (h - d) % BLOCK_SIZE;
            file[h + t] == Middle(crc)[if i + t < BLOCK_SIZE then i + t else i + t - BLOCK_SIZE]
  {
    assert file[h + t] == Middle(crc)[(h + t - d) % BLOCK_SIZE];
  }

  /** The length and the type of a header that is parsed at offset `i` of a stripe. */
  lemma StripeHeader(crc: Crc, file: seq<Byte>, d: nat, k: nat, h: nat, i: nat)
    requires Striped(crc, file, d, k) && d <= h && h + BLOCK_SIZE <= d + k * BLOCK_SIZE && i == (h - d) % BLOCK_SIZE
    ensures var m := Middle(crc);
            && (HEADER_SIZE <= i <= BLOCK_SIZE - HEADER_SIZE ==> file[h + 4] == file[h + 5] == file[h + 6] == 0)
            && (0 < i < HEADER_SIZE ==> file[h + 6] == 0)
            && (i == 0 ==> file[h + 4] as int + file[h + 5] as int * 256 == PAYLOAD)
            && (i == BLOCK_SIZE - 1 ==> file[h + 5] == 249)
            && (i == BLOCK_SIZE - 2 ==> file[h + 6] == 249)
            && (i == BLOCK_SIZE - 3 ==> file[h + 7] == 249)
            && (i == BLOCK_SIZE - 4 ==> file[h + 8] == 249)
            && (i == BLOCK_SIZE - 5 ==> file[h + 9] == 249 && file[h + 4] == 0)
            && (i == BLOCK_SIZE - 6 ==> file[h + 4] == file[h + 5] == 0)
  {
    StripeAt(crc, file, d, k, h, 4);
    StripeAt(crc, file, d, k, h, 5);
    StripeAt(crc, file, d, k, h, 6);
    StripeAt(crc, file, d, k, h, 7);
    StripeAt(crc, file, d, k, h, 8);
    StripeAt(crc, file, d, k, h, 9);
  }

  /**
   * What is parsed at offset `i` of a stripe, in a buffer that does not begin
   * there: nothing useful, unless the parsed header overlaps the next one, and
   * then at most one zero.
   */
  lemma StripeIsPoor(crc: Crc, file: seq<Byte>, c: Cursor, d: nat, k: nat)
    requires c.pos + HEADER_SIZE <= c.end <= |file| && c.end <= c.pos + BLOCK_SIZE && d <= c.pos
    requires (c.pos - d) % BLOCK_SIZE == 0 ==> c.end < c.pos + BLOCK_SIZE
    requires Striped(crc, file, d, k) && c.pos + BLOCK_SIZE <= d + k * BLOCK_SIZE
    ensures var p := ParseHeader(crc, file, c);
            Useful(p.typ) ==> (c.pos - d) % BLOCK_SIZE > BLOCK_SIZE - HEADER_SIZE && Poor(1, p.data)
  {
    var p, h, i := ParseHeader(crc, file, c), c.pos, (c.pos - d) % BLOCK_SIZE;
    StripeHeader(crc, file, d, k, h, i);
    if Useful(p.typ) {
      Accepted(crc, file, c);
      assert i > BLOCK_SIZE - HEADER_SIZE;
      OverlapIsPoor(file, h, i, p.data);
    }
  }

  /** Payload that starts within a header, as its length and type say. */
  lemma OverlapIsPoor(file: seq<Byte>, h: nat, i: nat, data: seq<Byte>)
    requires BLOCK_SIZE - HEADER_SIZE < i < BLOCK_SIZE && h + HEADER_SIZE + |data| <= |file| && h + 9 < |file|
    requires |data| == file[h + 4] as int + file[h + 5] as int * 256 <= BLOCK_SIZE
    requires forall n :: 0 <= n < |data| ==> data[n] == file[h + HEADER_SIZE + n]
    requires i == BLOCK_SIZE - 1 ==> file[h + 5] == 249
    requires i == BLOCK_SIZE - 2 ==> file[h + 6] == 249 && Useful(file[h + 6])
    requires i == BLOCK_SIZE - 3 ==> file[h + 7] == 249
    requires i == BLOCK_SIZE - 4 ==> file[h + 8] == 249
    requires i == BLOCK_SIZE - 5 ==> file[h + 9] == 249 && file[h + 4] == 0
    requires i == BLOCK_SIZE - 6 ==> file[h + 4] == file[h + 5] == 0
    ensures Poor(1, data)
  {
    if |data| > 1 {
      assert i == BLOCK_SIZE - 3 ==> data[0] == 249;
      assert i == BLOCK_SIZE - 4 ==> data[1] == 249;
      assert i == BLOCK_SIZE - 5 ==> |data| >= 256 && data[2] == 249;
    }
  }

  /** A fragment that is accepted has the announced length and type, and its bytes. */
  lemma Accepted(crc: Crc, file: seq<Byte>, c: Cursor)
    requires c.pos + HEADER_SIZE <= c.end <= |file| && Useful(ParseHeader(crc, file, c).typ)
    ensures var p, h := ParseHeader(crc, file, c), c.pos;
            && p.typ == file[h + 6] && |p.data| == file[h + 4] as int + file[h + 5] as int * 256
            && h + HEADER_SIZE + |p.data| == p.next.pos <= c.end
            && forall i :: 0 <= i < |p.data| ==> p.data[i] == file[h + HEADER_SIZE + i]
  {
  }

  // ---------- How much of it a reader can gather ----------

  /** How many stripes begin before the `n`-th byte. */
  function Begun(n: nat): nat {
    (n + BLOCK_SIZE - 1) / BLOCK_SIZE
  }

  /**
   * A bound on the zeros that reading up to `pos` can gather: all bytes outside
   * the stripes, and one for each header inside.
   */
  function Limit(d: nat, k: nat, pos: nat): nat
    requires k >= 2
  {
    var from, to := d + BLOCK_SIZE, d + (k - 1) * BLOCK_SIZE;
    if pos <= from then pos
    else if pos <= to then from + Begun(pos - from)
    else from + (k - 2) + (pos - to)
  }

  lemma BegunGrows(n: nat, m: nat)
    requires n <= m
    ensures Begun(n) <= Begun(m) <= Begun(n) + (m - n)
    ensures n % BLOCK_SIZE == 0 ==> Begun(n) == n / BLOCK_SIZE
  {
  }

  lemma LimitGrows(d: nat, k: nat, a: nat, b: nat)
    requires k >= 2 && a <= b
    ensures Limit(d, k, a) <= Limit(d, k, b)
  {
    var from, to := d + BLOCK_SIZE, d + (k - 1) * BLOCK_SIZE;
    if from < a {
      if b <= to {
        BegunGrows(a - from, b - from);
      } else if a <= to {
        BegunGrows(a - from, to - from);
        WholeStripes(k - 2);
      }
    } else if from < b <= to {
      BegunGrows(0, b - from);
    }
  }

  lemma WholeStripes(n: nat)
    ensures Begun(n * BLOCK_SIZE) == n
  {
  }

  /** A stripe that begins between two positions counts. */
  lemma LimitCounts(d: nat, k: nat, a: nat, j: nat, b: nat)
    requires k >= 2 && a < d + j * BLOCK_SIZE < b && d + j * BLOCK_SIZE <= d + (k - 1) * BLOCK_SIZE
    ensures Limit(d, k, a) + 1 <= Limit(d, k, b)
  {
    var from, to, m := d + BLOCK_SIZE, d + (k - 1) * BLOCK_SIZE, d + j * BLOCK_SIZE;
    LimitGrows(d, k, a, m);
    LimitGrows(d, k, m + 1, b);
    if m >= from {
      assert m - from == (j - 1) * BLOCK_SIZE;
      WholeStripes(j - 1);
      OneMoreStripe(j - 1);
      WholeStripes(k - 2);
    }
  }

  lemma OneMoreStripe(n: nat)
    ensures Begun(n * BLOCK_SIZE + 1) == n + 1
  {
  }

  lemma BlockEndBounds(h: nat)
    ensures h < BlockEnd(h) <= h + BLOCK_SIZE && (h % BLOCK_SIZE != 0 ==> BlockEnd(h) < h + BLOCK_SIZE)
  {
  }

  lemma SameInStripe(h: nat, d: nat)
    requires d <= h && (h - d) % BLOCK_SIZE == 0
    ensures h % BLOCK_SIZE == d % BLOCK_SIZE
  {
  }

  /** The stripe that begins within a header which is parsed shortly before it. */
  lemma NextStripe(h: nat, d: nat, k: nat) returns (j: nat)
    requires d <= h <= d + (k - 1) * BLOCK_SIZE && k >= 2 && (h - d) % BLOCK_SIZE > BLOCK_SIZE - HEADER_SIZE
    ensures h < d + j * BLOCK_SIZE < h + HEADER_SIZE && j <= k - 1
  {
    j := (h - d) / BLOCK_SIZE + 1;
  }

  /** Outside the stripes a fragment takes more bytes than it gives. */
  lemma PlainStep(d: nat, k: nat, a: nat, h: nat, b: nat)
    requires k >= 2 && a <= h < b && (b <= d + BLOCK_SIZE || d + (k - 1) * BLOCK_SIZE < h)
    ensures Limit(d, k, a) + (b - h) <= Limit(d, k, b)
  {
    LimitGrows(d, k, a, h);
  }

  /** A useful fragment that is parsed among the stripes. */
  lemma StripeStep(crc: Crc, file: seq<Byte>, c: Cursor, from: nat, d: nat, k: nat)
    requires Striped(crc, file, d, k) && k >= 2 && d % BLOCK_SIZE != 0
    requires c.pos + HEADER_SIZE <= c.end <= |file| && c.end <= BlockEnd(c.pos) && from <= c.pos
    requires d <= c.pos <= d + (k - 1) * BLOCK_SIZE && Useful(ParseHeader(crc, file, c).typ)
    ensures var p := ParseHeader(crc, file, c);
            Poor(Limit(d, k, p.next.pos) - Limit(d, k, from), p.data)
  {
    var p, h := ParseHeader(crc, file, c), c.pos;
    BlockEndBounds(h);
    if (h - d) % BLOCK_SIZE == 0 {
      SameInStripe(h, d);
    }
    StripeIsPoor(crc, file, c, d, k);
    Accepted(crc, file, c);
    var j := NextStripe(h, d, k);
    LimitCounts(d, k, from, j, p.next.pos);
    PoorGrows(1, Limit(d, k, p.next.pos) - Limit(d, k, from), p.data);
  }

  /** What a useful fragment gives is covered by the bound. */
  lemma StepPoor(crc: Crc, file: seq<Byte>, c: Cursor, off: nat, d: nat, k: nat)
    requires Striped(crc, file, d, k) && k >= 2 && d % BLOCK_SIZE != 0
    requires Aligned(|file|, c) && off <= BLOCK_SIZE && c.pos % BLOCK_SIZE == off % BLOCK_SIZE
    requires Useful(ReadPhysical(crc, file, c).typ)
    ensures var p := ReadPhysical(crc, file, c);
            c.pos <= p.next.pos && Poor(Limit(d, k, p.next.pos) - Limit(d, k, c.pos), p.data)
  {
    var p := ReadPhysical(crc, file, c);
    if |file| < c.pos + Padding(off) + HEADER_SIZE {
      NoHeader(crc, file, c, off);
    } else {
      var c' := ParsedAt(crc, file, c, off);
      var h := c'.pos;
      BlockEndBounds(h);
      Accepted(crc, file, c');
      if d <= h <= d + (k - 1) * BLOCK_SIZE {
        StripeStep(crc, file, c', c.pos, d, k);
      } else {
        PlainStep(d, k, c.pos, h, p.next.pos);
      }
    }
  }

  /** What has been gathered, or read, after one more physical record. */
  lemma GatherPoor(p: Physical, inFragment: bool, scratch: seq<Byte>, a: nat, b: nat)
    requires a <= b && Poor(a, scratch) && (Useful(p.typ) ==> Poor(b - a, p.data))
    ensures var g := Gather(p, inFragment, scratch);
            && (g.More? ==> Poor(b, g.scratch))
            && (g.Return? && g.result.found ==> Poor(b, g.result.record))
  {
    PoorGrows(a, b, scratch);
    if Useful(p.typ) {
      PoorAdds(a, scratch, b - a, p.data);
      PoorGrows(b - a, b, p.data);
    }
  }

  /** Whatever is read up to a position is poor, within the bound for that position. */
  lemma {:induction false} ReadsPoor(crc: Crc, file: seq<Byte>, c: Cursor, off: nat, inFragment: bool,
                                     scratch: seq<Byte>,
                                     d: nat, k: nat, r: Logical) returns (off': nat)
    requires Striped(crc, file, d, k) && k >= 2 && d % BLOCK_SIZE != 0
    requires Aligned(|file|, c) && off <= BLOCK_SIZE && c.pos % BLOCK_SIZE == off % BLOCK_SIZE
    requires Poor(Limit(d, k, c.pos), scratch)
    requires r == ReadLogical(crc, file, c, inFragment, scratch) && r.found
    ensures Aligned(|file|, r.next) && off' <= BLOCK_SIZE && r.next.pos % BLOCK_SIZE == off' % BLOCK_SIZE
    ensures Poor(Limit(d, k, r.next.pos), r.record)
    decreases |file| - c.pos
  {
    var p, step, next := Advances(crc, file, c, off);
    LogicalResumes(crc, file, c, inFragment, scratch);
    LimitGrows(d, k, c.pos, p.next.pos);
    if Useful(p.typ) {
      StepPoor(crc, file, c, off, d, k);
    }
    GatherPoor(p, inFragment, scratch, Limit(d, k, c.pos), Limit(d, k, p.next.pos));
    match Gather(p, inFragment, scratch) {
      case Return(_) =>
        AlignedSame(|file|, p.next, r.next);
        off' := next;
      case More(c', inFragment', scratch') =>
        AlignedSame(|file|, p.next, c');
        off' := ReadsPoor(crc, file, c', next, inFragment', scratch', d, k, r);
    }
  }

  /** No long record of zeros is read from a file with stripes out of place. */
  lemma {:induction false} NoZeros(all: AllReadings, crc: Crc, file: seq<Byte>, c: Cursor, off: nat, d: nat, k: nat,
                                   zeros: seq<Byte>)
    requires IsAllReading(crc, file, all)
    requires Striped(crc, file, d, k) && k >= 2 && d % BLOCK_SIZE != 0
    requires Aligned(|file|, c) && off <= BLOCK_SIZE && c.pos % BLOCK_SIZE == off % BLOCK_SIZE
    requires zeros == Zeros(|zeros|) && Limit(d, k, |file|) < |zeros|
    ensures zeros !in all(c).0
    decreases |file| - c.pos
  {
    AllUnfolds(crc, file, c);
    var r := ReadLogical(crc, file, c, false, []);
    if r.found {
      var off' := ReadsPoor(crc, file, c, off, false, [], d, k, r);
      LimitGrows(d, k, r.next.pos, |file|);
      NoZeros(all, crc, file, r.next, off', d, k, zeros);
    }
  }

  // ---------- The record that is lost ----------

  /** How much of a record its first fragment takes when that fills its block. */
  function FirstRoom(off: nat): nat
    requires off <= BLOCK_SIZE
  {
    BLOCK_SIZE - FragmentStart(off) - HEADER_SIZE
  }

  /** A record of zeros so long that a reader would have to gather it from the stripes. */
  function LongRecord(off: nat, k: nat): seq<Byte>
    requires off <= BLOCK_SIZE
  {
    Zeros(FirstRoom(off) + (k * PAYLOAD + 1))
  }

  lemma LongLayout(crc: Crc, off: nat, k: nat)
    requires off <= BLOCK_SIZE
    ensures Emitted(crc, off, true, LongRecord(off, k))
            == (Zeros(Padding(off)) + Fragment(crc, FIRST_TYPE, Zeros(FirstRoom(off))))
               + (Middles(crc, k) + Fragment(crc, LAST_TYPE, [0]))
  {
    var x, n := LongRecord(off, k), FirstRoom(off);
    assert FragmentLength(off, |x|) == n < |x|;
    assert x[..n] == Zeros(n) && x[n..] == LongRest(k);
    RestIsMiddles(crc, k);
  }

  /** Where the stripes of the long record begin, behind `dest`. */
  function StripesFrom(dest: nat, off: nat): nat
    requires off <= BLOCK_SIZE
  {
    dest + Padding(off) + HEADER_SIZE + FirstRoom(off)
  }

  lemma StripesOutOfPlace(dest: nat, off: nat)
    requires off <= BLOCK_SIZE && off % BLOCK_SIZE != dest % BLOCK_SIZE
    ensures StripesFrom(dest, off) % BLOCK_SIZE != 0 && StripesFrom(dest, off) < dest + HEADER_SIZE + BLOCK_SIZE
  {
  }

  lemma LongFile(crc: Crc, dest: seq<Byte>, off: nat, k: nat)
    requires off <= BLOCK_SIZE
    ensures var file := dest + Log(crc, off, [LongRecord(off, k)]);
            && |file| == StripesFrom(|dest|, off) + k * BLOCK_SIZE + HEADER_SIZE + 1
            && Striped(crc, file, StripesFrom(|dest|, off), k)
  {
    var x, last := LongRecord(off, k), Fragment(crc, LAST_TYPE, [0]);
    var front := Zeros(Padding(off)) + Fragment(crc, FIRST_TYPE, Zeros(FirstRoom(off)));
    OneRecordLog(crc, off, x);
    LongLayout(crc, off, k);
    HasMiddle(dest, front, Middles(crc, k), last);
    MiddlesAreStripes(crc, dest + (front + (Middles(crc, k) + last)), StripesFrom(|dest|, off), k);
  }

  lemma OneRecordLog(crc: Crc, off: nat, x: seq<Byte>)
    requires off <= BLOCK_SIZE
    ensures Log(crc, off, [x]) == Emitted(crc, off, true, x)
  {
  }

  lemma HasMiddle(dest: seq<Byte>, front: seq<Byte>, middle: seq<Byte>, last: seq<Byte>)
    ensures HasAt(dest + (front + (middle + last)), |dest| + |front|, middle)
  {
    var file := dest + (front + (middle + last));
    forall i {:trigger middle[i]} | 0 <= i < |middle| ensures file[|dest| + |front| + i] == middle[i] {
      assert file[|dest| + (|front| + i)] == (front + (middle + last))[|front| + i];
    }
  }

  lemma LongEnough(dest: nat, off: nat, k: nat)
    requires off <= BLOCK_SIZE && k == dest + 5 && StripesFrom(dest, off) < dest + HEADER_SIZE + BLOCK_SIZE
    ensures Limit(StripesFrom(dest, off), k, StripesFrom(dest, off) + k * BLOCK_SIZE + HEADER_SIZE + 1)
            < |LongRecord(off, k)|
  {
  }

  /**
   * A writer that believes to be at block offset `off` while its file ends
   * elsewhere in a block: there is a record that it appends without any failure
   * and that is not among those read from the file, whatever the file held and
   * whatever the checksum function.
   */
  lemma RecordIsLost(crc: Crc, dest: seq<Byte>, off: nat) returns (x: seq<Byte>)
    requires off <= BLOCK_SIZE && off % BLOCK_SIZE != |dest| % BLOCK_SIZE
    ensures x !in ReadAll(crc, dest + Log(crc, off, [x]), START).0
  {
    var k, d := |dest| + 5, StripesFrom(|dest|, off);
    x := LongRecord(off, k);
    var file := dest + Log(crc, off, [x]);
    StripesOutOfPlace(|dest|, off);
    LongFile(crc, dest, off, k);
    LongEnough(|dest|, off, k);
    NoZeros(AllReadingOf(crc, file), crc, file, START, 0, d, k, x);
  }
}
