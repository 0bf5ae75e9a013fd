/** What reading makes of a log whose file failed while a record was appended. */
module LogFailure {
  import opened Bytes
  import opened LogFormat
  import opened LogReader
  import opened LogRecovery
  import opened LogDamage
  import opened LogSize

  /** A log with one more record. */
  lemma OneRecordMore(crc: Crc, records: seq<seq<Byte>>, slice: seq<Byte>)
    ensures Log(crc, 0, records + [slice])
            == Log(crc, 0, records) + Emitted(crc, LogOffset(0, records), true, slice)
  {
    LogJoins(crc, 0, records, [slice]);
    var one := Emitted(crc, LogOffset(0, records), true, slice);
    assert one + [] == one;
  }

  lemma CompleteSoFar(crc: Crc, records: seq<seq<Byte>>, slice: seq<Byte>, read: nat, n: nat)
    requires read <= |records| + 1 && |Log(crc, 0, records)| <= n <= |Log(crc, 0, records + [slice])|
    requires forall i :: 0 <= i <= |records| ==> (i < read <==> EndOf(crc, 0, records + [slice], i) <= n)
    ensures read == if n == |Log(crc, 0, records + [slice])| then |records| + 1 else |records|
  {
    var all := records + [slice];
    assert all[..|records| + 1] == all && all[..|records|] == records;
    assert EndOf(crc, 0, all, |records|) == |Log(crc, 0, all)|;
    if records != [] {
      assert EndOf(crc, 0, all, |records| - 1) == |Log(crc, 0, records)|;
    }
  }

  /**
   * A record that was appended in part, for lack of room or any other failure of
   * the file, is as if it had not been: the log reads back as before, and
   * without a report.  Appended whole, it is read.
   */
  lemma PartOfRecord(crc: Crc, records: seq<seq<Byte>>, slice: seq<Byte>, file: seq<Byte>)
    requires var log := Log(crc, 0, records);
             log <= file <= log + Emitted(crc, LogOffset(0, records), true, slice)
    ensures var whole := Log(crc, 0, records) + Emitted(crc, LogOffset(0, records), true, slice);
            var (read, c) := ReadAll(crc, file, START);
            c.drops == [] && read == if file == whole then records + [slice] else records
  {
    var all := records + [slice];
    OneRecordMore(crc, records, slice);
    assert Log(crc, 0, all)[..|file|] == file;
    TornTail(crc, all, |file|);
    var read := ReadAll(crc, file, START).0;
    CompleteSoFar(crc, records, slice, |read|, |file|);
    assert all[..|records|] == records && all[..|records| + 1] == all;
  }

  /** Reading a file that begins with a log, up to the end of its records. */
  lemma AfterRecords(all: AllReadings, crc: Crc, records: seq<seq<Byte>>, file: seq<Byte>) returns (c: Cursor, off: nat)
    requires IsAllReading(crc, file, all) && Log(crc, 0, records) <= file
    ensures off == LogOffset(0, records) && c.pos % BLOCK_SIZE == off % BLOCK_SIZE
    ensures Aligned(|file|, c) && c.pos == |Log(crc, 0, records)| && c.drops == []
    ensures all(START).0 == records + all(c).0 && all(START).1 == all(c).1
  {
    off := LogOffset(0, records);
    assert file[..|file|] == file;
    c := ReadsPrefix(all, crc, file, |file|, START, 0, records);
  }

  /** Behind a trailer of which bytes are missing there is not enough room for a record where a reader looks. */
  lemma ShortOfRoom(crc: Crc, log: seq<Byte>, off: nat, slice: seq<Byte>, part: nat)
    requires off <= BLOCK_SIZE && part < Padding(off)
    ensures |log + (Zeros(part) + Emitted(crc, 0, true, slice))| < |log| + Size(off, |slice|)
  {
    EmittedSize(crc, off, true, slice);
    PaddingApart(crc, off, true, slice);
  }

  /**
   * A record behind a trailer that was not written whole is lost, although its
   * own bytes are there: the blocks leave no room for it where a reader looks.
   */
  lemma LostBehindTrailer(crc: Crc, records: seq<seq<Byte>>, slice: seq<Byte>, part: nat)
    requires part < Padding(LogOffset(0, records))
    ensures var file := Log(crc, 0, records) + (Zeros(part) + Emitted(crc, 0, true, slice));
            var read := ReadAll(crc, file, START).0;
            records <= read && slice !in read[|records|..]
  {
    var file := Log(crc, 0, records) + (Zeros(part) + Emitted(crc, 0, true, slice));
    var off := LogOffset(0, records);
    ShortOfRoom(crc, Log(crc, 0, records), off, slice, part);
    NoRoomLeft(AllReadingOf(crc, file), crc, records, slice, file);
  }

  /** A record for which the file has no room behind others is not read behind them. */
  lemma NoRoomLeft(all: AllReadings, crc: Crc, records: seq<seq<Byte>>, slice: seq<Byte>, file: seq<Byte>)
    requires IsAllReading(crc, file, all) && Log(crc, 0, records) <= file
    requires |file| < |Log(crc, 0, records)| + Size(LogOffset(0, records), |slice|)
    ensures records <= all(START).0 && slice !in all(START).0[|records|..]
  {
    var c, off := AfterRecords(all, crc, records, file);
    TooLong(all, crc, file, c, off, slice);
    assert (records + all(c).0)[|records|..] == all(c).0;
  }

  /**
   * The writer does not look at whether a trailer was written.  A record that
   * comes next reads back if and only if the trailer is whole.
   */
  lemma TrailerExactly(crc: Crc, records: seq<seq<Byte>>, slice: seq<Byte>, part: nat)
    requires part <= Padding(LogOffset(0, records))
    ensures var log, off := Log(crc, 0, records), LogOffset(0, records);
            var read := ReadAll(crc, log + (Zeros(part) + Emitted(crc, FragmentStart(off), true, slice)), START).0;
            read == records + [slice] <==> part == Padding(off)
  {
    var log, off := Log(crc, 0, records), LogOffset(0, records);
    if part == Padding(off) {
      PaddingApart(crc, off, true, slice);
      PartOfRecord(crc, records, slice, log + Emitted(crc, off, true, slice));
    } else {
      LostBehindTrailer(crc, records, slice, part);
      assert (records + [slice])[|records|..] == [slice];
    }
  }

  /**
   * A record that is lost after a failure: of the fragment of `a` one byte was
   * written, while the block offset moved on.  A record of 12 bytes that is then
   * appended, and reported as appended, is not found, and nothing is reported.
   */
  lemma LostAfterFailure(crc: Crc, a: seq<Byte>, b: seq<Byte>)
    requires 0 < |a| <= 1000 && |b| == 12
    ensures var file := Fragment(crc, FULL_TYPE, a)[..1] + Emitted(crc, HEADER_SIZE + |a|, true, b);
            ReadAll(crc, file, START).0 == [] && ReadAll(crc, file, START).1.drops == []
  {
    var off := HEADER_SIZE + |a|;
    var file := Fragment(crc, FULL_TYPE, a)[..1] + Emitted(crc, off, true, b);
    SmallRecord(crc, off, b);
    assert file[5] as int == 12;
    LengthTooGreat(crc, file);
  }

  lemma SmallRecord(crc: Crc, off: nat, b: seq<Byte>)
    requires off + HEADER_SIZE + |b| <= BLOCK_SIZE && |b| < 256
    ensures Emitted(crc, off, true, b) == Fragment(crc, FULL_TYPE, b) && Fragment(crc, FULL_TYPE, b)[4] == |b|
  {
    assert FragmentLength(off, |b|) == |b| && b[..|b|] == b;
    var f := Fragment(crc, FULL_TYPE, b);
    assert Zeros(Padding(off)) + f + [] == f;
  }

  /** A first header that announces more than the file has ends the reading. */
  lemma LengthTooGreat(crc: Crc, file: seq<Byte>)
    requires HEADER_SIZE <= |file| < BLOCK_SIZE
    requires HEADER_SIZE + file[4] as int + file[5] as int * 256 > |file|
    ensures ReadAll(crc, file, START).0 == [] && ReadAll(crc, file, START).1.drops == []
  {
    HeaderTooGreat(crc, file);
    LogicalResumes(crc, file, START, false, []);
    AllUnfolds(crc, file, START);
  }

  lemma HeaderTooGreat(crc: Crc, file: seq<Byte>)
    requires HEADER_SIZE <= |file| < BLOCK_SIZE
    requires HEADER_SIZE + file[4] as int + file[5] as int * 256 > |file|
    ensures var p := ReadPhysical(crc, file, START); p.typ == EOF_RESULT && p.data == [] && p.next.drops == []
  {
  }
}
