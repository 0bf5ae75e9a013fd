/**
 * Reads records back from a log file, from its start and with checksums on.
 * The functions say what the reader does from a given position; the class is
 * the reader with its buffer.
 */
module LogReader {
  import opened Bytes
  import opened LogFormat

  // ---------- The reader's behaviour as functions ----------

  /**
   * The buffer holds the file from `pos` to `end`.  `eof` is set once a read
   * gave less than a block; `drops` lists the sizes reported as corrupted.
   */
  datatype Cursor = Cursor(pos: nat, end: nat, eof: bool, drops: seq<nat>)

  const START := Cursor(0, 0, false, [])

  function Drop(c: Cursor, size: nat): Cursor {
    c.(drops := c.drops + [size])
  }

  /** A physical record, or one of the special results. */
  datatype Physical = Physical(typ: nat, data: seq<Byte>, next: Cursor)

  /** What the reader makes of the header at the start of its buffer. */
  function ParseHeader(crc: Crc, file: seq<Byte>, c: Cursor): (r: Physical)
    requires c.pos + HEADER_SIZE <= c.end <= |file|
    ensures c.pos < r.next.pos <= r.next.end == c.end && r.next.eof == c.eof
  {
    var length: nat := file[c.pos + 4] as int + file[c.pos + 5] as int * 256;
    var typ := file[c.pos + 6];
    var skipped := c.(pos := c.end);
    if c.pos + HEADER_SIZE + length > c.end then
      if c.eof then Physical(EOF_RESULT, [], skipped)
      else Physical(BAD_RECORD, [], Drop(skipped, c.end - c.pos))
    else if typ == ZERO_TYPE && length == 0 then
      Physical(BAD_RECORD, [], skipped)
    else
      var data := file[c.pos + HEADER_SIZE..c.pos + HEADER_SIZE + length];
      if crc([typ] + data) == Unmask(DecodeFixed32(file[c.pos..c.pos + 4])) then
        Physical(typ, data, c.(pos := c.pos + HEADER_SIZE + length))
      else
        Physical(BAD_RECORD, [], Drop(skipped, c.end - c.pos))
  }

  /** The cursor after the next block has been read into the buffer. */
  function ReadBlock(file: seq<Byte>, c: Cursor): (c': Cursor)
    requires c.end <= |file|
    ensures c'.pos == c.end <= c'.end <= |file| && c'.drops == c.drops
    ensures c'.eof <==> c'.end - c'.pos < BLOCK_SIZE
  {
    var n := if |file| - c.end < BLOCK_SIZE then |file| - c.end else BLOCK_SIZE;
    Cursor(c.end, c.end + n, n < BLOCK_SIZE, c.drops)
  }

  function ReadPhysical(crc: Crc, file: seq<Byte>, c: Cursor): (r: Physical)
    requires c.pos <= c.end <= |file|
    ensures c.pos <= r.next.pos <= r.next.end <= |file|
    ensures c.pos < r.next.pos || (r.typ == EOF_RESULT && r.next.eof)
  {
    if c.end - c.pos >= HEADER_SIZE then ParseHeader(crc, file, c)
    else if c.eof then Physical(EOF_RESULT, [], c.(pos := c.end))
    else
      var c' := ReadBlock(file, c);
      if c'.end - c'.pos >= HEADER_SIZE then ParseHeader(crc, file, c')
      else Physical(EOF_RESULT, [], c'.(pos := c'.end))
  }

  datatype Logical = Logical(found: bool, record: seq<Byte>, next: Cursor)

  /** What has been gathered of a record so far, or the outcome. */
  datatype Gathered =
    | More(next: Cursor, inFragment: bool, scratch: seq<Byte>)
    | Return(result: Logical)

  /** What a physical record does to what has been gathered. */
  function Gather(p: Physical, inFragment: bool, scratch: seq<Byte>): (g: Gathered)
    ensures g.More? ==> p.typ != EOF_RESULT && g.next.(drops := []) == p.next.(drops := [])
    ensures g.Return? ==> g.result.next.(drops := []) == p.next.(drops := [])
    ensures g.Return? && g.result.found ==> p.typ != EOF_RESULT
  {
    var interrupted := if inFragment && scratch != [] then Drop(p.next, |scratch|) else p.next;
    if p.typ == FULL_TYPE then Return(Logical(true, p.data, interrupted))
    else if p.typ == FIRST_TYPE then More(interrupted, true, p.data)
    else if p.typ == MIDDLE_TYPE then
      if inFragment then More(p.next, true, scratch + p.data)
      else More(Drop(p.next, |p.data|), false, scratch)
    else if p.typ == LAST_TYPE then
      if inFragment then Return(Logical(true, scratch + p.data, p.next))
      else More(Drop(p.next, |p.data|), false, scratch)
    else if p.typ == EOF_RESULT then Return(Logical(false, [], p.next))
    else if p.typ == BAD_RECORD then
      if inFragment then More(Drop(p.next, |scratch|), false, [])
      else More(p.next, false, scratch)
    else
      More(Drop(p.next, |p.data| + if inFragment then |scratch| else 0), false, [])
  }

  /**
   * The next record, given what has been gathered of it so far: nothing, or
   * the fragments in `scratch` when `inFragment`.
   */
  function ReadLogical(crc: Crc, file: seq<Byte>, c: Cursor, inFragment: bool, scratch: seq<Byte>): (r: Logical)
    requires c.pos <= c.end <= |file|
    ensures c.pos <= r.next.pos <= r.next.end <= |file|
    ensures r.found ==> c.pos < r.next.pos
    decreases |file| - c.pos
  {
    match Gather(ReadPhysical(crc, file, c), inFragment, scratch)
    case More(next, inFragment', scratch') => ReadLogical(crc, file, next, inFragment', scratch')
    case Return(r) => r
  }

  /** All records up to the first failure to find one, and the cursor after that. */
  function ReadAll(crc: Crc, file: seq<Byte>, c: Cursor): (r: (seq<seq<Byte>>, Cursor))
    requires c.pos <= c.end <= |file|
    decreases |file| - c.pos
  {
    var r := ReadLogical(crc, file, c, false, []);
    if r.found then
      var rest := ReadAll(crc, file, r.next);
      ([r.record] + rest.0, rest.1)
    else ([], r.next)
  }

  // ---------- The reader ----------

  class Reader {
    const crc: Crc
    const file: seq<Byte>
    var filePos: nat            // how much of the file has been read
    var buffer: seq<Byte>
    var eof: bool               // the last read gave less than a block
    var endOfBufferOffset: nat
    var drops: seq<nat>         // what has been reported

    ghost predicate Valid()
      reads this
    {
      && filePos == endOfBufferOffset <= |file|
      && |buffer| <= endOfBufferOffset
      && buffer == file[endOfBufferOffset - |buffer|..endOfBufferOffset]
    }

    ghost function At(): (c: Cursor)
      reads this
      requires Valid()
      ensures c.pos <= c.end <= |file|
    {
      Cursor(endOfBufferOffset - |buffer|, endOfBufferOffset, eof, drops)
    }

    constructor (crc: Crc, file: seq<Byte>)
      ensures Valid() && At() == START && this.crc == crc && this.file == file
    {
      this.crc, this.file := crc, file;
      filePos, buffer, eof, endOfBufferOffset, drops := 0, [], false, 0, [];
    }

    method ReportCorruption(bytes: nat)
      modifies `drops
      ensures drops == old(drops) + [bytes]
    {
      drops := drops + [bytes];
    }

    /** Reads up to `n` bytes from the file. */
    method ReadFile(n: nat) returns (bytes: seq<Byte>)
      requires filePos <= |file|
      modifies `filePos
      ensures filePos == old(filePos) + if |file| - old(filePos) < n then |file| - old(filePos) else n
      ensures bytes == file[old(filePos)..filePos]
    {
      var k := if |file| - filePos < n then |file| - filePos else n;
      bytes := file[filePos..filePos + k];
      filePos := filePos + k;
    }

    /** With a header in the buffer, perhaps after reading a block, reading is parsing. */
    static lemma ParsesNow(crc: Crc, file: seq<Byte>, c: Cursor, c': Cursor)
      requires c.pos <= c.end <= |file| && c'.pos + HEADER_SIZE <= c'.end <= |file|
      requires c' == c || (c.end - c.pos < HEADER_SIZE && !c.eof && c' == ReadBlock(file, c))
      ensures ReadPhysical(crc, file, c) == ParseHeader(crc, file, c')
    {
    }

    method ReadPhysicalRecord() returns (typ: nat, fragment: seq<Byte>)
      requires Valid()
      modifies this
      ensures Valid()
      ensures Physical(typ, fragment, At()) == ReadPhysical(crc, file, old(At()))
    {
      while |buffer| < HEADER_SIZE
        invariant Valid()
        invariant At() == old(At()) ||
                  (!old(eof) && old(|buffer|) < HEADER_SIZE && At() == ReadBlock(file, old(At())))
        decreases !eof
      {
        if !eof {
          // The last read was a full block, so what is left is a trailer to skip.
          buffer := ReadFile(BLOCK_SIZE);
          endOfBufferOffset := endOfBufferOffset + |buffer|;
          if |buffer| < BLOCK_SIZE {
            eof := true;
          } else {
            break;
          }
        } else {
          // Less than a header at the end of the file: a torn tail.
          buffer := [];
          return EOF_RESULT, [];
        }
      }
      ParsesNow(crc, file, old(At()), At());
      typ, fragment := ParsePhysicalRecord();
    }

    static lemma SliceOfSlice(s: seq<Byte>, lo: nat, hi: nat, a: nat, b: nat)
      requires lo <= hi <= |s| && a <= b <= hi - lo
      ensures s[lo..hi][a..b] == s[lo + a..lo + b]
    {
      assert forall i :: 0 <= i < b - a ==> s[lo..hi][a..b][i] == s[lo + a..lo + b][i];
    }

    /** Parses and checks the record at the start of the buffer. */
    method ParsePhysicalRecord() returns (typ: nat, fragment: seq<Byte>)
      requires Valid() && |buffer| >= HEADER_SIZE
      modifies this
      ensures Valid()
      ensures Physical(typ, fragment, At()) == ParseHeader(crc, file, old(At()))
    {
      ghost var c := At();
      var a, b, t := buffer[4], buffer[5], buffer[6];
      var length: nat := a as int + b as int * 256;
      if HEADER_SIZE + length > |buffer| {
        var dropSize := |buffer|;
        buffer := [];
        if !eof {
          ReportCorruption(dropSize);
          return BAD_RECORD, [];
        }
        // The file ends inside this fragment: a torn tail, which goes unreported.
        return EOF_RESULT, [];
      }
      if t == ZERO_TYPE && length == 0 {
        // Space that was set aside but never written
        buffer := [];
        return BAD_RECORD, [];
      }
      var valid := ChecksumHolds(t, length);
      if !valid {
        // With a bad checksum the length cannot be trusted to lead to the next fragment.
        var dropSize := |buffer|;
        buffer := [];
        ReportCorruption(dropSize);
        return BAD_RECORD, [];
      }
      typ := t;
      fragment := TakeRecord(length);
    }

    method ChecksumHolds(t: Byte, length: nat) returns (holds: bool)
      requires Valid() && HEADER_SIZE + length <= |buffer|
      ensures var p := At().pos;
              holds <==>
                crc([t] + file[p + HEADER_SIZE..p + HEADER_SIZE + length]) == Unmask(DecodeFixed32(file[p..p + 4]))
    {
      SliceOfSlice(file, At().pos, At().end, HEADER_SIZE, HEADER_SIZE + length);
      SliceOfSlice(file, At().pos, At().end, 0, 4);
      holds := crc([t] + buffer[HEADER_SIZE..HEADER_SIZE + length]) == Unmask(DecodeFixed32(buffer[..4]));
    }

    /** Removes the record at the start of the buffer and gives its payload. */
    method TakeRecord(length: nat) returns (fragment: seq<Byte>)
      requires Valid() && HEADER_SIZE + length <= |buffer|
      modifies `buffer
      ensures Valid() && At() == old(At()).(pos := old(At()).pos + HEADER_SIZE + length)
      ensures var p := old(At()).pos; fragment == file[p + HEADER_SIZE..p + HEADER_SIZE + length]
    {
      SliceOfSlice(file, At().pos, At().end, HEADER_SIZE, HEADER_SIZE + length);
      SliceOfSlice(file, At().pos, At().end, HEADER_SIZE + length, |buffer|);
      fragment := buffer[HEADER_SIZE..HEADER_SIZE + length];
      buffer := buffer[HEADER_SIZE + length..];
    }

    method ReadRecord() returns (found: bool, record: seq<Byte>)
      requires Valid()
      modifies this
      ensures Valid()
      ensures Logical(found, record, At()) == ReadLogical(crc, file, old(At()), false, [])
    {
      var scratch: seq<Byte> := [];
      var inFragmentedRecord := false;
      while true
        invariant Valid()
        invariant ReadLogical(crc, file, At(), inFragmentedRecord, scratch)
                    == ReadLogical(crc, file, old(At()), false, [])
        decreases |file| - At().pos
      {
        var typ, fragment := ReadPhysicalRecord();
        var done;
        done, found, record, inFragmentedRecord, scratch := AddFragment(typ, fragment, inFragmentedRecord, scratch);
        if done {
          return;
        }
      }
    }

    /** Adds a physical record to what has been gathered; the whole state machine of reassembly. */
    method AddFragment(typ: nat, fragment: seq<Byte>, inFragmented: bool, gathered: seq<Byte>)
      returns (done: bool, found: bool, record: seq<Byte>, inFragmentedRecord: bool, scratch: seq<Byte>)
      requires Valid()
      modifies `drops
      ensures Valid()
      ensures Gather(Physical(typ, fragment, old(At())), inFragmented, gathered) ==
              if done then Return(Logical(found, record, At())) else More(At(), inFragmentedRecord, scratch)
    {
      done, found, record, inFragmentedRecord, scratch := false, false, [], inFragmented, gathered;
      if typ == FULL_TYPE {
        if inFragmentedRecord && scratch != [] {
          ReportCorruption(|scratch|);
        }
        done, found, record := true, true, fragment;
      } else if typ == FIRST_TYPE {
        if inFragmentedRecord && scratch != [] {
          ReportCorruption(|scratch|);
        }
        scratch := fragment;
        inFragmentedRecord := true;
      } else if typ == MIDDLE_TYPE {
        if !inFragmentedRecord {
          ReportCorruption(|fragment|);
        } else {
          scratch := scratch + fragment;
        }
      } else if typ == LAST_TYPE {
        if !inFragmentedRecord {
          ReportCorruption(|fragment|);
        } else {
          done, found, record := true, true, scratch + fragment;
        }
      } else if typ == EOF_RESULT {
        // A record whose last fragment never came is forgotten without a report.
        done := true;
      } else if typ == BAD_RECORD {
        if inFragmentedRecord {
          ReportCorruption(|scratch|);
          inFragmentedRecord := false;
          scratch := [];
        }
      } else {
        ReportCorruption(|fragment| + if inFragmentedRecord then |scratch| else 0);
        inFragmentedRecord := false;
        scratch := [];
      }
    }
  }
}
