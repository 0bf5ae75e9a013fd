/**
 * Crash and recovery, from the bytes up: a store whose current log was cut at
 * any byte comes back with a prefix of the whole batches that were committed.
 */
module CrashRecovery {
  import opened Bytes
  import opened DbFormat
  import opened Views
  import opened Wrappers
  import opened Operations
  import opened History
  import opened Engine
  import opened EngineSafety
  import opened LogFormat
  import opened LogReader
  import LogRecovery
  import D = DbFiles
  import C = Compaction

  // ---------- The tables alone ----------

  /** The tables answer as the history does up to where the memtables start. */
  ghost predicate VersionInv(s: State) {
    s.immBase <= |Ops(s)| && forall k {:trigger Get(Union(s.version), s.immBase, k)} ::
      Get(Union(s.version), s.immBase, k) == Truth(Ops(s), s.immBase, k)
  }

  /** The store as it would be without its memtables. */
  function TablesOnly(s: State): State {
    s.(tables := [{}], hasImm := false, memBase := s.immBase, lastSequence := s.immBase, inserted := s.immBase)
  }

  lemma TablesOnlyMem(s: State)
    requires MemInv(s)
    ensures MemInv(TablesOnly(s)) && Store(TablesOnly(s)) == Union(s.version) && Ops(TablesOnly(s)) == Ops(s)
  {
    assert Mem(TablesOnly(s)) == {} && Imm(TablesOnly(s)) == {};
  }

  /** At any number from the newest entry on the answers are the same. */
  lemma AnswersStay(h: seq<Op>, es: set<Entry>, t: nat, t': nat, k: Key)
    requires FromHistory(h, es) && t <= t' && forall e :: e in es ==> e.seqno <= t
    ensures Get(es, t', k) == Get(es, t, k)
  {
    HistoryIsUnambiguous(h, es);
    SameVisible(es, es, t', t, k);
  }

  lemma CompactionVersion(less: Less, s: State, s': State, k: Key)
    requires StrictTotalOrder(less) && MemInv(s) && Layered(s.version) && WorkInv(less, s) && MemInv(s')
    requires Steps(less, s, InstallCompaction, s')
    ensures Get(Union(s'.version), s.immBase, k) == Get(Union(s.version), s.immBase, k)
  {
    var w, s0 := s.work.value, TablesOnly(s);
    var t := if w.job.smallestSnapshot <= s.immBase then s.immBase else w.job.smallestSnapshot;
    TablesOnlyMem(s);
    CompactionAnswers(less, s0, w, t, k);
    OnlyTables(s, w, s'.version);
    VersionFromHistory(s);
    VersionFromHistory(s');
    AnswersStay(Ops(s), Union(s.version), s.immBase, t, k);
    AnswersStay(Ops(s), Union(s'.version), s.immBase, t, k);
  }

  lemma OnlyTables(s: State, w: Work, v': Version)
    requires w.target < |w.inputs| <= |s.version| && v' == Replaced(s.version, w.inputs, w.target, Outputs(w))
    ensures var s0 := TablesOnly(s);
            Outputs(w) + (Mem(s0) + Imm(s0) + Union(Remaining(s.version, w.inputs))) == Union(v')
  {
    var s0 := TablesOnly(s);
    ReplacedUnion(s.version, w.inputs, w.target, Outputs(w));
    assert Mem(s0) + Imm(s0) + Union(Remaining(s.version, w.inputs)) == Union(Remaining(s.version, w.inputs));
  }

  lemma FlushVersion(less: Less, s: State, layer: nat, s': State, k: Key)
    requires MemInv(s) && FlushInv(s) && VersionInv(s) && Steps(less, s, InstallTable(layer), s')
    ensures Get(Union(s'.version), s'.immBase, k) == Truth(Ops(s), s'.immBase, k)
  {
    var h, all := Ops(s), WithEntries(Ops(s), Union(s.version), s.immBase, s.memBase);
    TableUnion(s.version, layer, Imm(s));
    forall e ensures e in Union(s'.version) <==> e in all {
      InWithEntries(h, Union(s.version), s.immBase, s.memBase, e);
    }
    assert Union(s'.version) == all;
    VersionFromHistory(s);
    assert Get(Union(s.version), s.immBase, k) == Truth(h, s.immBase, k);
    WithEntriesAnswers(h, Union(s.version), s.immBase, s.memBase, k);
  }

  lemma MoveVersion(less: Less, s: State, inputs: Version, target: nat, s': State)
    requires Steps(less, s, TrivialMove(inputs, target), s')
    ensures Union(s'.version) == Union(s.version)
  {
    ReplacedUnion(s.version, inputs, target, Union(inputs));
    RemainingUnion(s.version, inputs, target);
  }

  lemma CommitVersion(less: Less, s: State, batch: Batch, s': State)
    requires VersionInv(s) && Steps(less, s, BeginCommit(batch), s')
    ensures VersionInv(s')
  {
    FlatMore(s.batches, batch);
    forall k {:trigger Get(Union(s'.version), s'.immBase, k)}
      ensures Get(Union(s'.version), s'.immBase, k) == Truth(Ops(s'), s'.immBase, k)
    {
      TruthStays(Ops(s), batch, s.immBase, k);
      assert Get(Union(s.version), s.immBase, k) == Truth(Ops(s), s.immBase, k);
    }
  }

  lemma VersionKeeps(less: Less, s: State, step: Step, s': State)
    requires StrictTotalOrder(less) && MemInv(s) && Layered(s.version) && WorkInv(less, s) && FlushInv(s)
    requires MemInv(s') && VersionInv(s) && Steps(less, s, step, s')
    ensures VersionInv(s')
  {
    match step
    case BeginCommit(batch) => CommitVersion(less, s, batch, s');
    case InstallTable(layer) =>
      forall k {:trigger Get(Union(s'.version), s'.immBase, k)}
        ensures Get(Union(s'.version), s'.immBase, k) == Truth(Ops(s'), s'.immBase, k)
      {
        FlushVersion(less, s, layer, s', k);
      }
    case InstallCompaction =>
      forall k {:trigger Get(Union(s'.version), s'.immBase, k)}
        ensures Get(Union(s'.version), s'.immBase, k) == Truth(Ops(s'), s'.immBase, k)
      {
        CompactionVersion(less, s, s', k);
        assert Get(Union(s.version), s.immBase, k) == Truth(Ops(s), s.immBase, k);
      }
    case TrivialMove(inputs, target) => MoveVersion(less, s, inputs, target, s');
    case _ =>
  }

  /** Logs start between batches. */
  ghost predicate BasesInv(s: State) {
    Boundary(s.batches, s.memBase) && Boundary(s.batches, s.immBase)
  }

  lemma BasesKeep(less: Less, s: State, step: Step, s': State)
    requires SnapshotInv(s) && BasesInv(s) && Steps(less, s, step, s')
    ensures BasesInv(s')
  {
    match step
    case BeginCommit(batch) =>
      BoundaryStays(s.batches, batch, s.memBase);
      BoundaryStays(s.batches, batch, s.immBase);
    case _ =>
  }

  /** Of the invariants, those about memtables, layers and background work. */
  lemma RunParts(less: Less, levels: nat, states: seq<State>, steps: seq<Step>, i: nat)
    requires StrictTotalOrder(less) && Run(less, levels, states, steps) && i < |states|
    ensures MemInv(states[i]) && Layered(states[i].version) && WorkInv(less, states[i]) && FlushInv(states[i])
    ensures SnapshotInv(states[i])
  {
    RunKeeps(less, levels, states, steps, i);
  }

  lemma RunMem(less: Less, levels: nat, states: seq<State>, steps: seq<Step>, i: nat)
    requires StrictTotalOrder(less) && Run(less, levels, states, steps) && i < |states|
    ensures MemInv(states[i])
  {
    RunKeeps(less, levels, states, steps, i);
  }

  lemma StepVersions(less: Less, levels: nat, states: seq<State>, steps: seq<Step>, i: nat)
    requires StrictTotalOrder(less) && Run(less, levels, states, steps) && i < |steps|
    requires VersionInv(states[i]) && BasesInv(states[i])
    ensures VersionInv(states[i + 1]) && BasesInv(states[i + 1])
  {
    RunParts(less, levels, states, steps, i);
    RunMem(less, levels, states, steps, i + 1);
    assert Steps(less, states[i], steps[i], states[i + 1]);
    VersionKeeps(less, states[i], steps[i], states[i + 1]);
    BasesKeep(less, states[i], steps[i], states[i + 1]);
  }

  lemma {:induction false} RunVersions(less: Less, levels: nat, states: seq<State>, steps: seq<Step>, i: nat)
    requires StrictTotalOrder(less) && Run(less, levels, states, steps) && i < |states|
    ensures VersionInv(states[i]) && BasesInv(states[i])
    decreases i
  {
    if i == 0 {
      InitialVersion(levels);
    } else {
      RunVersions(less, levels, states, steps, i - 1);
      StepVersions(less, levels, states, steps, i - 1);
    }
  }

  lemma InitialVersion(levels: nat)
    ensures VersionInv(Initial(levels)) && BasesInv(Initial(levels))
  {
    var s := Initial(levels);
    forall e ensures e !in Union(s.version) {
      InUnion(s.version, e);
    }
    assert Union(s.version) == {};
    forall k ensures Get(Union(s.version), 0, k) == Truth(Ops(s), 0, k) {
      LookNothing(0, k);
    }
    assert s.batches[..0] == [];
    assert Boundary(s.batches, 0);
  }

  // ---------- From records to entries ----------

  /** How a batch that is numbered from a base is put into a record. */
  type Encode = (nat, Batch) -> seq<Byte>

  function OpEntry(op: Op, n: nat): Entry {
    match op
    case Put(k, v) => Entry(k, n, TYPE_VALUE, v)
    case Delete(k) => Entry(k, n, TYPE_DELETION, [])
  }

  /** The record of batch `b`, counting from 1. */
  function RecordOf(encode: Encode, batches: seq<Batch>, b: nat): seq<Byte>
    requires 0 < b <= |batches|
  {
    encode(|Flat(batches[..b - 1])| + 1, batches[b - 1])
  }

  /** Inserting a record of one of these batches inserts the batch. */
  ghost predicate Faithful(encode: Encode, contents: D.Contents, batches: seq<Batch>) {
    forall b {:trigger RecordOf(encode, batches, b)} :: 0 < b <= |batches| ==>
      var base, batch := |Flat(batches[..b - 1])| + 1, batches[b - 1];
      && |RecordOf(encode, batches, b)| >= D.HEADER_BYTES
      && contents(RecordOf(encode, batches, b)).entries == (set j | 0 <= j < |batch| :: OpEntry(batch[j], base + j))
  }

  /** The records of the batches from `lo` to `hi`. */
  function Encoded(encode: Encode, batches: seq<Batch>, lo: nat, hi: nat): (records: seq<seq<Byte>>)
    requires lo <= hi <= |batches|
    ensures |records| == hi - lo
    decreases hi
  {
    if lo == hi then []
    else Encoded(encode, batches, lo, hi - 1) + [RecordOf(encode, batches, hi)]
  }

  lemma {:induction false} EncodedPrefix(encode: Encode, batches: seq<Batch>, lo: nat, mid: nat, hi: nat)
    requires lo <= mid <= hi <= |batches|
    ensures Encoded(encode, batches, lo, mid) == Encoded(encode, batches, lo, hi)[..mid - lo]
    decreases hi
  {
    if mid == hi {
    } else {
      EncodedPrefix(encode, batches, lo, mid, hi - 1);
    }
  }

  /** One batch more. */
  lemma FlatStep(batches: seq<Batch>, b: nat)
    requires 0 < b <= |batches|
    ensures Flat(batches[..b]) == Flat(batches[..b - 1]) + batches[b - 1]
  {
    assert batches[..b][..b - 1] == batches[..b - 1];
  }

  lemma {:induction false} FlatGrows(batches: seq<Batch>, a: nat, b: nat)
    requires a <= b <= |batches|
    ensures Flat(batches[..a]) <= Flat(batches[..b])
    decreases b
  {
    if a == b {
    } else {
      FlatStep(batches, b);
      FlatGrows(batches, a, b - 1);
    }
  }

  /** Whether an entry is that of an operation between two batches. */
  ghost predicate Between(batches: seq<Batch>, lo: nat, hi: nat, e: Entry)
    requires lo <= hi <= |batches|
  {
    && |Flat(batches[..lo])| < e.seqno <= |Flat(batches[..hi])|
    && e == OpEntry(Flat(batches[..hi])[e.seqno - 1], e.seqno)
  }

  lemma OneBatch(encode: Encode, contents: D.Contents, batches: seq<Batch>, b: nat, e: Entry)
    requires Faithful(encode, contents, batches) && 0 < b <= |batches|
    ensures |RecordOf(encode, batches, b)| >= D.HEADER_BYTES
    ensures e in contents(RecordOf(encode, batches, b)).entries <==> Between(batches, b - 1, b, e)
  {
    var before, batch := Flat(batches[..b - 1]), batches[b - 1];
    var base := |before| + 1;
    FlatStep(batches, b);
    FlatGrows(batches, b - 1, b);
    if Between(batches, b - 1, b, e) {
      var j := e.seqno - base;
      assert (before + batch)[e.seqno - 1] == batch[j];
      assert e == OpEntry(batch[j], base + j);
    }
  }

  lemma BetweenMore(batches: seq<Batch>, lo: nat, hi: nat, e: Entry)
    requires lo < hi <= |batches|
    ensures Between(batches, lo, hi, e) <==> Between(batches, lo, hi - 1, e) || Between(batches, hi - 1, hi, e)
  {
    FlatStep(batches, hi);
    FlatGrows(batches, lo, hi - 1);
  }

  /** Replaying the records of some batches inserts exactly their entries. */
  lemma {:induction false} ReplayedIs(encode: Encode, contents: D.Contents, batches: seq<Batch>, lo: nat, hi: nat,
                                      e: Entry)
    requires Faithful(encode, contents, batches) && lo <= hi <= |batches|
    ensures e in D.Replayed(contents, Encoded(encode, batches, lo, hi), hi - lo) <==> Between(batches, lo, hi, e)
    decreases hi
  {
    if lo == hi {
    } else {
      var records, before := Encoded(encode, batches, lo, hi), Encoded(encode, batches, lo, hi - 1);
      ReplayedIs(encode, contents, batches, lo, hi - 1, e);
      ReplayedPrefix(contents, before, records, hi - 1 - lo);
      OneBatch(encode, contents, batches, hi, e);
      BetweenMore(batches, lo, hi, e);
    }
  }

  lemma {:induction false} ReplayedPrefix(contents: D.Contents, a: seq<seq<Byte>>, b: seq<seq<Byte>>, n: nat)
    requires n <= |a| && a <= b
    ensures D.Replayed(contents, a, n) == D.Replayed(contents, b, n)
    decreases n
  {
    if n == 0 {
    } else {
      ReplayedPrefix(contents, a, b, n - 1);
    }
  }

  // ---------- After a crash ----------

  /** What a database is opened with: its tables, and what replaying its logs inserts. */
  ghost function Opened(s: State, contents: D.Contents, older: seq<seq<Byte>>, newer: seq<seq<Byte>>): set<Entry> {
    Union(s.version) + (D.Replayed(contents, older, |older|) + D.Replayed(contents, newer, |newer|))
  }

  lemma OpenedIs(encode: Encode, contents: D.Contents, s: State, lo: nat, mid: nat, p: nat)
    requires MemInv(s) && Faithful(encode, contents, s.batches) && lo <= mid <= p <= |s.batches|
    requires |Flat(s.batches[..lo])| == s.immBase
    ensures s.immBase <= |Flat(s.batches[..p])| <= |Ops(s)|
    ensures Opened(s, contents, Encoded(encode, s.batches, lo, mid), Encoded(encode, s.batches, mid, p))
            == WithEntries(Ops(s), Union(s.version), s.immBase, |Flat(s.batches[..p])|)
  {
    var t := |Flat(s.batches[..p])|;
    FlatGrows(s.batches, lo, mid);
    FlatGrows(s.batches, mid, p);
    FlatPrefix(s.batches, p);
    forall e ensures e in Opened(s, contents, Encoded(encode, s.batches, lo, mid), Encoded(encode, s.batches, mid, p))
                     <==> e in WithEntries(Ops(s), Union(s.version), s.immBase, t)
    {
      OpenedHas(encode, contents, s, lo, mid, p, e);
      InWithEntries(Ops(s), Union(s.version), s.immBase, t, e);
    }
  }

  lemma OpenedHas(encode: Encode, contents: D.Contents, s: State, lo: nat, mid: nat, p: nat, e: Entry)
    requires Faithful(encode, contents, s.batches) && lo <= mid <= p <= |s.batches|
    ensures |Flat(s.batches[..p])| <= |Ops(s)|
    ensures e in Opened(s, contents, Encoded(encode, s.batches, lo, mid), Encoded(encode, s.batches, mid, p))
            <==> e in Union(s.version)
                 || (|Flat(s.batches[..lo])| < e.seqno <= |Flat(s.batches[..p])| && e == EntryOf(Ops(s), e.seqno))
  {
    ReplayedAll(encode, contents, s.batches, lo, mid, Encoded(encode, s.batches, lo, mid), e);
    ReplayedAll(encode, contents, s.batches, mid, p, Encoded(encode, s.batches, mid, p), e);
    SameOps(s.batches, lo, mid, p, e);
  }

  lemma ReplayedAll(encode: Encode, contents: D.Contents, batches: seq<Batch>, lo: nat, hi: nat,
                    records: seq<seq<Byte>>, e: Entry)
    requires Faithful(encode, contents, batches) && lo <= hi <= |batches| && records == Encoded(encode, batches, lo, hi)
    ensures e in D.Replayed(contents, records, |records|) <==> Between(batches, lo, hi, e)
  {
    ReplayedIs(encode, contents, batches, lo, hi, e);
  }

  lemma SameOps(batches: seq<Batch>, lo: nat, mid: nat, p: nat, e: Entry)
    requires lo <= mid <= p <= |batches|
    ensures |Flat(batches[..p])| <= |Flat(batches)|
    ensures Between(batches, lo, mid, e) || Between(batches, mid, p, e)
            <==> |Flat(batches[..lo])| < e.seqno <= |Flat(batches[..p])| && e == EntryOf(Flat(batches), e.seqno)
  {
    FlatGrows(batches, lo, mid);
    FlatGrows(batches, mid, p);
    FlatPrefix(batches, p);
    FlatPrefix(batches, mid);
  }

  lemma OpenedAnswers(encode: Encode, contents: D.Contents, less: Less, s: State, lo: nat, mid: nat, p: nat)
    requires Inv(less, s) && VersionInv(s) && Faithful(encode, contents, s.batches) && lo <= mid <= p <= |s.batches|
    requires |Flat(s.batches[..lo])| == s.immBase
    ensures var db := Opened(s, contents, Encoded(encode, s.batches, lo, mid), Encoded(encode, s.batches, mid, p));
            && View(db, |Flat(s.batches[..p])|) == Replay(Flat(s.batches[..p]))
            && forall e :: e in db ==> e.seqno <= |Flat(s.batches[..p])|
  {
    var h, t := Ops(s), |Flat(s.batches[..p])|;
    OpenedIs(encode, contents, s, lo, mid, p);
    FlatPrefix(s.batches, p);
    VersionFromHistory(s);
    var db := WithEntries(h, Union(s.version), s.immBase, t);
    WithEntriesFromHistory(h, Union(s.version), s.immBase, t);
    forall k {:trigger Get(db, t, k)} ensures Get(db, t, k) == Truth(h, t, k) {
      assert Get(Union(s.version), s.immBase, k) == Truth(h, s.immBase, k);
      WithEntriesAnswers(h, Union(s.version), s.immBase, t, k);
    }
    AnswersAreView(h, db, t);
  }

  /** The batches of the current log that a cut of its bytes leaves whole. */
  lemma CutLeaves(crc: Crc, encode: Encode, batches: seq<Batch>, mid: nat, n: nat) returns (p: nat)
    requires mid <= |batches| && n <= |Log(crc, 0, Encoded(encode, batches, mid, |batches|))|
    ensures mid <= p <= |batches|
    ensures var records := Encoded(encode, batches, mid, |batches|);
            && ReadAll(crc, Log(crc, 0, records)[..n], START).0 == Encoded(encode, batches, mid, p)
            && forall j {:trigger LogRecovery.EndOf(crc, 0, records, j)} :: 0 <= j < |records| ==>
                 (mid + j < p <==> LogRecovery.EndOf(crc, 0, records, j) <= n)
  {
    var records := Encoded(encode, batches, mid, |batches|);
    LogRecovery.TornTail(crc, records, n);
    var read := ReadAll(crc, Log(crc, 0, records)[..n], START).0;
    p := mid + |read|;
    EncodedPrefix(encode, batches, mid, p, |batches|);
  }

  /** The operations that a log holds are those of its batches. */
  ghost predicate Backs(s: State, lo: nat, mid: nat) {
    && lo <= mid <= |s.batches|
    && |Flat(s.batches[..lo])| == s.immBase && |Flat(s.batches[..mid])| == s.memBase
  }

  /** In every reachable state each log begins with a whole batch, and the kept logs hold the batches from there on. */
  lemma LogsAreBatches(less: Less, levels: nat, states: seq<State>, steps: seq<Step>, i: nat)
    requires StrictTotalOrder(less) && Run(less, levels, states, steps) && i < |states|
    ensures exists lo, mid :: Backs(states[i], lo, mid)
    ensures var s := states[i];
            && s.logfileNumber in s.logs && LogHolds(s.logs[s.logfileNumber], s.memBase, |Ops(s)|)
            && s.logNumber in s.logs && (s.hasImm ==> LogHolds(s.logs[s.logNumber], s.immBase, s.memBase))
  {
    RunKeeps(less, levels, states, steps, i);
    RunVersions(less, levels, states, steps, i);
    var s := states[i];
    var lo :| 0 <= lo <= |s.batches| && s.immBase == |Flat(s.batches[..lo])|;
    var mid :| 0 <= mid <= |s.batches| && s.memBase == |Flat(s.batches[..mid])|;
    if mid < lo {
      FlatGrows(s.batches, mid, lo);
      assert Backs(s, mid, mid);
    } else {
      assert Backs(s, lo, mid);
    }
  }

  /**
   * Crash and recovery: at any moment of any run, with the current log cut at any
   * byte, opening the tables and replaying what is read from the kept logs gives
   * exactly the contents after a prefix of the batches, none of them in part; it
   * has every batch whose record lies before the cut, so every batch that a Sync
   * had made safe.
   */
  lemma CrashLosesOnlyATail(crc: Crc, encode: Encode, contents: D.Contents, less: Less, levels: nat, states: seq<State>,
                            steps: seq<Step>, i: nat, lo: nat, mid: nat, n: nat) returns (p: nat)
    requires StrictTotalOrder(less) && Run(less, levels, states, steps) && i < |states|
    requires Faithful(encode, contents, states[i].batches) && Backs(states[i], lo, mid)
    requires n <= |Log(crc, 0, Encoded(encode, states[i].batches, mid, |states[i].batches|))|
    ensures mid <= p <= |states[i].batches|
    ensures var s := states[i];
            var records := Encoded(encode, s.batches, mid, |s.batches|);
            var older := ReadAll(crc, Log(crc, 0, Encoded(encode, s.batches, lo, mid)), START).0;
            var newer := ReadAll(crc, Log(crc, 0, records)[..n], START).0;
            && View(Opened(s, contents, older, newer), |Flat(s.batches[..p])|) == Replay(Flat(s.batches[..p]))
            && (forall e :: e in Opened(s, contents, older, newer) ==> e.seqno <= |Flat(s.batches[..p])|)
            && forall j {:trigger LogRecovery.EndOf(crc, 0, records, j)} :: 0 <= j < |records| ==>
                 (mid + j < p <==> LogRecovery.EndOf(crc, 0, records, j) <= n)
  {
    var s := states[i];
    RunKeeps(less, levels, states, steps, i);
    RunVersions(less, levels, states, steps, i);
    p := CutLeaves(crc, encode, s.batches, mid, n);
    LogRecovery.RoundTrip(crc, Encoded(encode, s.batches, lo, mid));
    OpenedAnswers(encode, contents, less, s, lo, mid, p);
  }
}
