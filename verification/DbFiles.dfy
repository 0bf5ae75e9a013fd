/** The files of a database: which ones may be deleted, and what replaying a log brings back. */
module DbFiles {
  import opened Bytes
  import opened DbFormat
  import opened Views
  import opened Operations
  import opened Wrappers
  import opened History
  import Engine
  import EngineSafety

  // ---------- Obsolete files ----------

  datatype FileType = LogFile | DBLockFile | TableFile | DescriptorFile | CurrentFile | TempFile | InfoLogFile

  /** A directory entry; some names are not the database's. */
  datatype FileName = Named(number: nat, typ: FileType) | Foreign

  /** What decides which files are still needed. */
  datatype Needed = Needed(live: set<nat>, logNumber: nat, prevLogNumber: nat, manifestNumber: nat)

  predicate Keeps(need: Needed, f: FileName) {
    f.Foreign? ||
    match f.typ
    case LogFile => f.number >= need.logNumber || f.number == need.prevLogNumber
    case DescriptorFile => f.number >= need.manifestNumber
    case TableFile => f.number in need.live
    case TempFile => f.number in need.live
    case _ => true
  }

  class Directory {
    var files: set<FileName>

    /** After a background error nothing is deleted; otherwise just what is not needed. */
    method DeleteObsoleteFiles(filenames: seq<FileName>, need: Needed, bgError: bool)
      requires forall f :: f in filenames <==> f in files
      modifies this
      ensures files == if bgError then old(files) else set f | f in old(files) && Keeps(need, f)
      ensures files <= old(files) && (bgError ==> files == old(files))
      ensures Foreign in old(files) ==> Foreign in files
      ensures forall n: nat, t | Named(n, t) in old(files) && (t.CurrentFile? || t.DBLockFile? || t.InfoLogFile?) ::
                Named(n, t) in files
      ensures !bgError ==> forall n: nat | Named(n, DescriptorFile) in old(files) ::
                Named(n, DescriptorFile) in files <==> n >= need.manifestNumber
      ensures !bgError ==> forall n: nat | Named(n, LogFile) in old(files) ::
                Named(n, LogFile) in files <==> n >= need.logNumber || n == need.prevLogNumber
      ensures !bgError ==> forall n: nat, t | Named(n, t) in old(files) && (t.TableFile? || t.TempFile?) ::
                Named(n, t) in files <==> n in need.live
    {
      if bgError {
        return;
      }
      for i := 0 to |filenames|
        invariant forall f :: f in files <==> f in old(files) && (Keeps(need, f) || f !in filenames[..i])
      {
        var f := filenames[i];
        if f.Named? {
          var keep := true;
          match f.typ {
            case LogFile => keep := f.number >= need.logNumber || f.number == need.prevLogNumber;
            case DescriptorFile => keep := f.number >= need.manifestNumber;
            case TableFile => keep := f.number in need.live;
            case TempFile => keep := f.number in need.live;
            case _ =>
          }
          if !keep {
            files := files - {f};
          }
        }
      }
    }
  }

  /** In every reachable state, the log of an entry that is only in memory is among the files kept. */
  lemma UnflushedLogIsKept(less: Less, levels: nat, states: seq<Engine.State>, steps: seq<Engine.Step>, i: nat,
                           e: Entry, live: set<nat>, manifest: nat)
    requires StrictTotalOrder(less) && Engine.Run(less, levels, states, steps) && i < |states|
    requires e in Engine.Mem(states[i]) + Engine.Imm(states[i])
    ensures var s := states[i];
            exists n :: n in s.logs && e.seqno in s.logs[n]
              && Keeps(Needed(live, s.logNumber, Engine.PREV_LOG_NUMBER, manifest), Named(n, LogFile))
  {
    EngineSafety.UnflushedIsLogged(less, levels, states, steps, i, e);
  }

  // ---------- Replaying a log ----------

  const HEADER_BYTES: nat := 12

  /** What inserting a record's batch does: the entries inserted, whether all were, and the last number it claims. */
  datatype Insertion = Insertion(entries: set<Entry>, ok: bool, lastSeq: int)

  type Contents = seq<Byte> -> Insertion

  /** The entries that replaying the first `n` records inserts. */
  function Replayed(contents: Contents, records: seq<seq<Byte>>, n: nat): set<Entry>
    requires n <= |records|
  {
    if n == 0 then {}
    else
      Replayed(contents, records, n - 1)
      + if |records[n - 1]| < HEADER_BYTES then {} else contents(records[n - 1]).entries
  }

  /** Those are the entries of the batches in records of at least 12 bytes; shorter records are passed over. */
  lemma {:induction false} ReplayedAre(contents: Contents, records: seq<seq<Byte>>, n: nat, e: Entry)
    requires n <= |records|
    ensures e in Replayed(contents, records, n) <==>
            exists i :: 0 <= i < n && |records[i]| >= 12 && e in contents(records[i]).entries
  {
    if n == 0 {
    } else {
      ReplayedAre(contents, records, n - 1, e);
    }
  }

  /** No record is too short, and every batch can be inserted. */
  predicate AllGood(contents: Contents, records: seq<seq<Byte>>) {
    forall i :: 0 <= i < |records| ==> |records[i]| >= 12 && contents(records[i]).ok
  }

  /** The largest sequence number among `start` and the first `n` records. */
  function MaxSequence(contents: Contents, records: seq<seq<Byte>>, n: nat, start: int): (m: int)
    requires n <= |records|
    ensures m >= start
    ensures forall i :: 0 <= i < n && |records[i]| >= 12 ==> m >= contents(records[i]).lastSeq
    ensures m == start || exists i :: 0 <= i < n && |records[i]| >= 12 && m == contents(records[i]).lastSeq
  {
    if n == 0 then start
    else
      var before := MaxSequence(contents, records, n - 1, start);
      if |records[n - 1]| < HEADER_BYTES || contents(records[n - 1]).lastSeq <= before then before
      else contents(records[n - 1]).lastSeq
  }

  /** What replaying a log left behind. */
  datatype Recovery = Recovery(ok: bool, tables: Version, mem: Option<set<Entry>>, maxSequence: int, saveManifest: bool)

  /** A recovery under way stands for the first `i` records. */
  ghost predicate Stands(r: Recovery, contents: Contents, records: seq<seq<Byte>>, i: nat, paranoid: bool, start: int)
    requires i <= |records|
  {
    && (r.tables != [] ==> r.saveManifest)
    && (r.ok ==>
          && Union(r.tables) + Memory(r) == Replayed(contents, records, i)
          && r.maxSequence == MaxSequence(contents, records, i, start)
          && (paranoid ==> forall j :: 0 <= j < i ==> |records[j]| >= HEADER_BYTES && contents(records[j]).ok))
  }

  function Memory(r: Recovery): set<Entry> {
    if r.mem.Some? then r.mem.value else {}
  }

  /** Writes the memtable out as a table. */
  method WriteTable(r: Recovery, written: set<Entry> -> bool) returns (r': Recovery)
    requires r.ok && r.mem.Some?
    ensures r' == Recovery(written(r.mem.value), r.tables + [r.mem.value], None, r.maxSequence, true)
    ensures Union(r'.tables) + Memory(r') == Union(r.tables) + Memory(r)
  {
    TableAdded(r.tables, r.mem.value);
    r' := Recovery(written(r.mem.value), r.tables + [r.mem.value], None, r.maxSequence, true);
  }

  /** After a whole record has been inserted. */
  function WithRecord(r: Recovery, batch: Insertion): Recovery {
    r.(mem := Some(Memory(r) + batch.entries),
       maxSequence := if batch.lastSeq > r.maxSequence then batch.lastSeq else r.maxSequence)
  }

  lemma RecordStands(r: Recovery, contents: Contents, records: seq<seq<Byte>>, i: nat, paranoid: bool, start: int)
    requires i < |records| && r.ok && Stands(r, contents, records, i, paranoid, start)
    requires |records[i]| >= HEADER_BYTES && (contents(records[i]).ok || !paranoid)
    ensures Stands(WithRecord(r, contents(records[i])), contents, records, i + 1, paranoid, start)
  {
    var es := contents(records[i]).entries;
    assert Union(r.tables) + (Memory(r) + es) == (Union(r.tables) + Memory(r)) + es;
    assert Replayed(contents, records, i + 1) == Replayed(contents, records, i) + es;
  }

  /** Replays one record. */
  method ReplayRecord(r: Recovery, contents: Contents, records: seq<seq<Byte>>, i: nat, paranoid: bool,
                      full: set<Entry> -> bool, written: set<Entry> -> bool, ghost start: int) returns (r': Recovery)
    requires i < |records| && r.ok && Stands(r, contents, records, i, paranoid, start)
    ensures Stands(r', contents, records, i + 1, paranoid, start)
    ensures (!paranoid || (|records[i]| >= 12 && contents(records[i]).ok)) && (forall t :: written(t)) ==> r'.ok
  {
    var record := records[i];
    if |record| < HEADER_BYTES {
      return r.(ok := !paranoid);
    }
    var batch := contents(record);
    if !batch.ok && paranoid {
      return r.(mem := Some(Memory(r) + batch.entries), ok := false);
    }
    RecordStands(r, contents, records, i, paranoid, start);
    r' := r.(mem := Some(Memory(r) + batch.entries));
    if batch.lastSeq > r.maxSequence {
      r' := r'.(maxSequence := batch.lastSeq);
    }
    if full(r'.mem.value) {
      r' := WriteTable(r', written);
    }
  }

  /**
   * Replays the records of a log into a memtable, writing tables whenever it is
   * full.  `full` and `written` stand for memory use and for the file system;
   * the memtable that is left becomes the current one only if the log is reused.
   */
  method RecoverLogFile(contents: Contents, records: seq<seq<Byte>>, paranoid: bool, reuse: bool, maxSequence: int,
                        full: set<Entry> -> bool, written: set<Entry> -> bool) returns (r: Recovery)
    ensures r.ok ==> Union(r.tables) + Memory(r) == Replayed(contents, records, |records|)
    ensures r.ok ==> r.maxSequence == MaxSequence(contents, records, |records|, maxSequence)
    ensures r.tables != [] ==> r.saveManifest
    ensures r.mem.Some? ==> (reuse && r.tables == []) || !r.ok
    ensures (!paranoid || AllGood(contents, records)) && (forall t :: written(t)) ==> r.ok
    ensures paranoid && r.ok ==> AllGood(contents, records)
  {
    r := Recovery(true, [], None, maxSequence, false);
    var i := 0;
    while i < |records| && r.ok
      invariant 0 <= i <= |records| && Stands(r, contents, records, i, paranoid, maxSequence)
      invariant (!paranoid || AllGood(contents, records)) && (forall t :: written(t)) ==> r.ok
      decreases |records| - i
    {
      r := ReplayRecord(r, contents, records, i, paranoid, full, written, maxSequence);
      i := i + 1;
    }
    if r.ok && reuse && r.tables == [] {
      r := r.(mem := Some(Memory(r)));
    } else if r.ok && r.mem.Some? {
      r := WriteTable(r, written);
    }
  }

  lemma TableAdded(tables: Version, t: set<Entry>)
    ensures Union(tables + [t]) == Union(tables) + t
  {
    assert (tables + [t])[..|tables|] == tables;
  }
}
