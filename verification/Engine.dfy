/**
 * The whole store as a state machine: commits, memtable switches, flushes,
 * compactions, snapshots and lock-free reads, in any interleaving of their
 * atomic steps, with the log files that protect what is not flushed.
 */
module Engine {
  import opened DbFormat
  import opened Views
  import opened Wrappers
  import opened Operations
  import opened History
  import C = Compaction

  // ---------- State ----------

  /** A table being written from the immutable memtable, and the version its level is chosen in. */
  datatype Flush = Flush(content: set<Entry>, base: Version)

  /** A compaction under way: per layer its input entries, and their merge. */
  datatype Work = Work(job: C.Job, inputs: Version, target: nat, merged: seq<Entry>)

  /** How far a read has come. */
  datatype Stage = AtMem | AtImm | AtVersion | Finished(result: Option<Value>)

  /** A read of `key`, with the memtables and the version it holds on to. */
  datatype Reader = Reader(key: Key, seqno: nat, mem: nat, imm: Option<nat>, version: Version, stage: Stage)

  /**
   * `tables` has every memtable ever made, the current one last.  Three fields
   * only observe: the sequence numbers at which the current and the immutable
   * memtable start, and the smallest snapshot of any compaction installed so far.
   */
  datatype State = State(
    batches: seq<Batch>,          // committed or being committed, in order
    inserted: nat,                // operations inserted into a memtable
    lastSequence: nat,
    tables: seq<set<Entry>>,
    hasImm: bool,
    version: Version,
    flush: Option<Flush>,
    work: Option<Work>,
    snapshots: seq<nat>,
    readers: seq<Reader>,
    logs: map<nat, set<nat>>,     // log files on disk: the operations they hold
    logfileNumber: nat,
    logNumber: nat,               // logs before this one are obsolete
    nextFile: nat,
    memBase: nat,
    immBase: nat,
    floor: nat
  )

  const PREV_LOG_NUMBER: nat := 0

  /** An empty database with a given number of levels. */
  function Initial(levels: nat): State {
    State([], 0, 0, [{}], false, seq(levels, _ => {}), None, None, [], [], map[1 := {}], 1, 1, 2, 0, 0, 0)
  }

  function Flat(batches: seq<Batch>): seq<Op> {
    if batches == [] then [] else Flat(batches[..|batches| - 1]) + batches[|batches| - 1]
  }

  function Ops(s: State): seq<Op> { Flat(s.batches) }

  function Mem(s: State): set<Entry> {
    if s.tables == [] then {} else s.tables[|s.tables| - 1]
  }

  function Imm(s: State): set<Entry> {
    if s.hasImm && |s.tables| >= 2 then s.tables[|s.tables| - 2] else {}
  }

  /** All entries the store holds. */
  function Store(s: State): set<Entry> {
    Mem(s) + Imm(s) + Union(s.version)
  }

  // ---------- Steps ----------

  datatype Step =
    | BeginCommit(batch: Batch)     // number a group and add it to the log
    | InsertNext                    // one operation into the memtable
    | EndCommit                     // publish the last sequence number
    | SwitchMemtable
    | BuildTable
    | InstallTable(layer: nat)
    | AbandonTable
    | DeleteObsoleteFiles
    | BeginCompaction(work: Work)
    | InstallCompaction
    | AbandonCompaction
    | TrivialMove(inputs: Version, target: nat)
    | NewSnapshot
    | ReleaseSnapshot(i: nat)
    | BeginRead(key: Key, snapshot: Option<nat>)
    | LookMem(r: nat)
    | LookImm(r: nat)
    | LookVersion(r: nat)

  /** The operations `from + 1` to `from + n`. */
  function Numbers(from: nat, n: nat): set<nat> {
    if n == 0 then {} else Numbers(from, n - 1) + {from + n}
  }

  /** The bound below which a compaction may drop shadowed entries. */
  function SmallestSnapshot(s: State): nat {
    if s.snapshots == [] then s.lastSequence else s.snapshots[0]
  }

  /** No entry of a key in `content` lies in `layer` or in a shallower one. */
  ghost predicate NoOverlap(v: Version, layer: nat, content: set<Entry>) {
    forall j, e, e' {:trigger e in v[j], e' in content} ::
      layer <= j < |v| && e in v[j] && e' in content ==> e.key != e'.key
  }

  function WithTable(v: Version, layer: nat, content: set<Entry>): Version
    requires layer <= |v|
  {
    if layer == |v| then v + [content] else v[layer := v[layer] + content]
  }

  /**
   * What the choice of compaction inputs guarantees: with an entry, all older
   * entries of its key down to the output layer are inputs too.
   */
  ghost predicate Closed(v: Version, inputs: Version, target: nat) {
    forall i, j, e, e' {:trigger e in inputs[i], e' in v[j]} ::
      (target <= j <= i < |inputs| && j < |v| && e in inputs[i] && e' in v[j]
       && e.key == e'.key && e'.seqno < e.seqno) ==> e' in inputs[j]
  }

  ghost predicate Chosen(v: Version, inputs: Version, target: nat) {
    && target < |inputs| <= |v|
    && (forall i {:trigger inputs[i]} :: 0 <= i < |inputs| ==> inputs[i] <= v[i])
    && (forall i {:trigger inputs[i]} :: 0 <= i < target ==> inputs[i] == {})
    && Closed(v, inputs, target)
  }

  /** The job's base-level test is right about the keys it is asked about. */
  ghost predicate BaseLevel(v: Version, w: Work) {
    forall i, j, e, e' {:trigger e in w.inputs[i], e' in v[j]} ::
      0 <= i < |w.inputs| && 0 <= j < w.target && j < |v| && e in w.inputs[i] && w.job.isBaseLevel(e.key)
        && e' in v[j] ==>
        e'.key != e.key
  }

  /** The version after `inputs` have been replaced by `outputs` in the target layer. */
  function Replaced(v: Version, inputs: Version, target: nat, outputs: set<Entry>): Version
    requires |inputs| <= |v|
  {
    seq(|v|, i requires 0 <= i < |v| =>
      (if i < |inputs| then v[i] - inputs[i] else v[i]) + (if i == target then outputs else {}))
  }

  function Outputs(w: Work): set<Entry> {
    Elems(C.Kept(w.job, w.merged, |w.merged|))
  }

  /** The read `r` moves on. */
  function ReaderAt(s: State, r: nat, stage: Stage): State
    requires r < |s.readers|
  {
    s.(readers := s.readers[r := s.readers[r].(stage := stage)])
  }

  /** After a layer has been searched: done if it says anything, else on to the next. */
  function After(l: Lookup, next: Stage): Stage {
    if l == Missing then next else Finished(Reply(l))
  }

  ghost predicate Steps(less: Less, s: State, step: Step, s': State) {
    match step
    case BeginCommit(batch) =>
      var n := |Ops(s)|;
      && n == s.lastSequence && n + |batch| < MAX_SEQUENCE_NUMBER && s.logfileNumber in s.logs
      && s' == s.(batches := s.batches + [batch],
                  logs := s.logs[s.logfileNumber := s.logs[s.logfileNumber] + Numbers(n, |batch|)])
    case InsertNext =>
      && s.inserted < |Ops(s)| && s.tables != []
      && s' == s.(inserted := s.inserted + 1,
                  tables := s.tables[|s.tables| - 1 := Mem(s) + {EntryOf(Ops(s), s.inserted + 1)}])
    case EndCommit =>
      s.inserted == |Ops(s)| && s' == s.(lastSequence := s.inserted)
    case SwitchMemtable =>
      && |Ops(s)| == s.lastSequence && !s.hasImm
      && s' == s.(tables := s.tables + [{}], hasImm := true,
                  logs := s.logs[s.nextFile := {}], logfileNumber := s.nextFile, nextFile := s.nextFile + 1,
                  immBase := s.memBase, memBase := s.lastSequence)
    case BuildTable =>
      && s.hasImm && s.flush == None
      && s' == s.(flush := Some(Flush(Imm(s), s.version)), nextFile := s.nextFile + 1)
    case InstallTable(layer) =>
      && s.flush.Some? && layer <= |s.version|
      && var content := s.flush.value.content;
         && NoOverlap(s.flush.value.base, layer, content)
         && s' == s.(version := WithTable(s.version, layer, content), flush := None, hasImm := false,
                     logNumber := s.logfileNumber, immBase := s.memBase)
    case AbandonTable =>
      s' == s.(flush := None)
    case DeleteObsoleteFiles =>
      s' == s.(logs := map n | n in s.logs && (n >= s.logNumber || n == PREV_LOG_NUMBER) :: s.logs[n])
    case BeginCompaction(w) =>
      && s.work == None && s.flush == None
      && w.job.smallestSnapshot == SmallestSnapshot(s)
      && Chosen(s.version, w.inputs, w.target) && BaseLevel(s.version, w)
      && Sorted(less, w.merged) && Elems(w.merged) == Union(w.inputs)
      && s' == s.(work := Some(w))
    case InstallCompaction =>
      && s.work.Some? && s.flush == None && |s.work.value.inputs| <= |s.version|
      && var w := s.work.value;
         s' == s.(version := Replaced(s.version, w.inputs, w.target, Outputs(w)), work := None,
                  floor := if s.floor < w.job.smallestSnapshot then w.job.smallestSnapshot else s.floor)
    case AbandonCompaction =>
      s' == s.(work := None)
    case TrivialMove(inputs, target) =>
      && s.work == None && s.flush == None && Chosen(s.version, inputs, target)
      && s' == s.(version := Replaced(s.version, inputs, target, Union(inputs)))
    case NewSnapshot =>
      s' == s.(snapshots := s.snapshots + [s.lastSequence])
    case ReleaseSnapshot(i) =>
      && i < |s.snapshots|
      && s' == s.(snapshots := s.snapshots[..i] + s.snapshots[i + 1..])
    case BeginRead(key, snapshot) =>
      && (snapshot.Some? ==> snapshot.value in s.snapshots) && s.tables != []
      && (s.hasImm ==> |s.tables| >= 2)
      && var seqno := if snapshot.Some? then snapshot.value else s.lastSequence;
         s' == s.(readers := s.readers + [Reader(key, seqno, |s.tables| - 1,
           if s.hasImm then Some(|s.tables| - 2) else None, s.version, AtMem)])
    case LookMem(r) =>
      && r < |s.readers| && s.readers[r].stage == AtMem && s.readers[r].mem < |s.tables|
      && var x := s.readers[r];
         s' == ReaderAt(s, r, After(Look(s.tables[x.mem], x.seqno, x.key), if x.imm.Some? then AtImm else AtVersion))
    case LookImm(r) =>
      && r < |s.readers| && s.readers[r].stage == AtImm
      && s.readers[r].imm.Some? && s.readers[r].imm.value < |s.tables|
      && var x := s.readers[r];
         s' == ReaderAt(s, r, After(Look(s.tables[x.imm.value], x.seqno, x.key), AtVersion))
    case LookVersion(r) =>
      && r < |s.readers| && s.readers[r].stage == AtVersion
      && var x := s.readers[r];
         s' == ReaderAt(s, r, Finished(Reply(VersionGet(x.version, x.seqno, x.key))))
  }

  ghost predicate Run(less: Less, levels: nat, states: seq<State>, steps: seq<Step>) {
    && |states| == |steps| + 1 && states[0] == Initial(levels)
    && forall i {:trigger steps[i]} :: 0 <= i < |steps| ==> Steps(less, states[i], steps[i], states[i + 1])
  }

  // ---------- Invariants ----------

  /** The entries of operations `lo + 1` to `hi`. */
  ghost predicate Recent(h: seq<Op>, lo: nat, hi: nat, es: set<Entry>) {
    && hi <= |h|
    && (forall e :: e in es ==> lo < e.seqno <= hi && e == EntryOf(h, e.seqno))
    && (forall i {:trigger EntryOf(h, i)} :: lo < i <= hi ==> EntryOf(h, i) in es)
  }

  /** Each memtable holds exactly the operations since its log was started; tables hold older ones. */
  ghost predicate MemInv(s: State) {
    && s.immBase <= s.memBase <= s.lastSequence <= s.inserted <= |Ops(s)| < MAX_SEQUENCE_NUMBER
    && |s.tables| >= (if s.hasImm then 2 else 1)
    && Recent(Ops(s), s.memBase, s.inserted, Mem(s))
    && (if s.hasImm then Recent(Ops(s), s.immBase, s.memBase, Imm(s)) else s.immBase == s.memBase)
    && (forall e :: e in Union(s.version) ==> 0 < e.seqno <= s.immBase && e == EntryOf(Ops(s), e.seqno))
    && (forall t, e {:trigger e in s.tables[t]} :: 0 <= t < |s.tables| && e in s.tables[t] ==>
          0 < e.seqno <= s.inserted && e == EntryOf(Ops(s), e.seqno))
  }

  /** At every sequence number that can still be read, the store answers as the history does. */
  ghost predicate Answers(h: seq<Op>, es: set<Entry>, from: nat, to: nat) {
    to <= |h| &&
    forall t, k {:trigger Get(es, t, k)} :: from <= t <= to ==> Get(es, t, k) == Truth(h, t, k)
  }

  ghost predicate ViewInv(s: State) {
    Answers(Ops(s), Store(s), s.floor, s.inserted)
  }

  /** A number of whole batches. */
  ghost predicate Boundary(batches: seq<Batch>, t: nat) {
    exists b :: 0 <= b <= |batches| && t == |Flat(batches[..b])|
  }

  ghost predicate SnapshotInv(s: State) {
    && s.floor <= s.lastSequence && Boundary(s.batches, s.lastSequence)
    && (forall i {:trigger s.snapshots[i]} :: 0 <= i < |s.snapshots| ==>
          s.floor <= s.snapshots[i] <= s.lastSequence && Boundary(s.batches, s.snapshots[i]))
    && (forall i, j :: 0 <= i <= j < |s.snapshots| ==> s.snapshots[i] <= s.snapshots[j])
  }

  /** A compaction under way stays valid for the current version, and below every live snapshot. */
  ghost predicate WorkInv(less: Less, s: State) {
    s.work.Some? ==>
      var w := s.work.value;
      && Chosen(s.version, w.inputs, w.target) && BaseLevel(s.version, w)
      && Sorted(less, w.merged) && Elems(w.merged) == Union(w.inputs)
      && w.job.smallestSnapshot <= s.lastSequence
      && forall i {:trigger s.snapshots[i]} :: 0 <= i < |s.snapshots| ==> w.job.smallestSnapshot <= s.snapshots[i]
  }

  /** A table being written holds the whole immutable memtable. */
  ghost predicate FlushInv(s: State) {
    s.flush.Some? ==> s.hasImm && s.flush.value == Flush(Imm(s), s.version)
  }

  function MemOf(tables: seq<set<Entry>>, x: Reader): set<Entry> {
    if x.mem < |tables| then tables[x.mem] else {}
  }

  function ImmOf(tables: seq<set<Entry>>, x: Reader): set<Entry> {
    if x.imm.Some? && x.imm.value < |tables| then tables[x.imm.value] else {}
  }

  /**
   * What a read at `t` has captured: a memtable, perhaps an immutable one, and
   * a version, each newer than the next, which together answer as the history does.
   */
  ghost predicate Captured(h: seq<Op>, mem: set<Entry>, imm: set<Entry>, v: Version, t: nat) {
    && t <= |h|
    && FromHistory(h, mem + (imm + Union(v)))
    && (forall k :: Get(mem + (imm + Union(v)), t, k) == Truth(h, t, k))
    && (forall k :: Newer(mem, imm + Union(v), k)) && (forall k :: Newer(imm, Union(v), k))
    && Layered(v)
  }

  ghost predicate ReaderInv(h: seq<Op>, tables: seq<set<Entry>>, x: Reader) {
    && x.mem < |tables| && (x.imm.Some? ==> x.imm.value < x.mem)
    && Captured(h, MemOf(tables, x), ImmOf(tables, x), x.version, x.seqno)
  }

  /** What a read has found so far is right. */
  ghost predicate StageInv(h: seq<Op>, tables: seq<set<Entry>>, x: Reader) {
    x.seqno <= |h| &&
    match x.stage
    case AtMem => true
    case AtImm => Look(MemOf(tables, x), x.seqno, x.key) == Missing
    case AtVersion =>
      Look(MemOf(tables, x), x.seqno, x.key) == Missing && Look(ImmOf(tables, x), x.seqno, x.key) == Missing
    case Finished(result) => result == Truth(h, x.seqno, x.key)
  }

  ghost predicate ReadersInv(s: State) {
    forall r {:trigger s.readers[r]} :: 0 <= r < |s.readers| ==>
      && s.readers[r].seqno <= s.lastSequence && Boundary(s.batches, s.readers[r].seqno)
      && (forall e :: e in Union(s.readers[r].version) ==> e.seqno <= s.inserted)
      && ReaderInv(Ops(s), s.tables, s.readers[r]) && StageInv(Ops(s), s.tables, s.readers[r])
  }

  /** A log file holds exactly the operations `lo + 1` to `hi`. */
  ghost predicate LogHolds(log: set<nat>, lo: nat, hi: nat) {
    forall i :: i in log <==> lo < i <= hi
  }

  /** The logs that are kept hold exactly what is not in tables. */
  ghost predicate LogsInv(s: State) {
    && PREV_LOG_NUMBER !in s.logs && s.logfileNumber in s.logs && s.logNumber in s.logs
    && s.logNumber <= s.logfileNumber
    && (forall n :: n in s.logs ==> n < s.nextFile)
    && LogHolds(s.logs[s.logfileNumber], s.memBase, |Ops(s)|)
    && (forall n :: n in s.logs && n >= s.logNumber ==> n == s.logNumber || n == s.logfileNumber)
    && (if s.hasImm then s.logNumber < s.logfileNumber && LogHolds(s.logs[s.logNumber], s.immBase, s.memBase)
        else s.logNumber == s.logfileNumber)
  }

  ghost predicate Inv(less: Less, s: State) {
    && MemInv(s) && Layered(s.version) && ViewInv(s) && SnapshotInv(s) && WorkInv(less, s)
    && FlushInv(s) && ReadersInv(s) && LogsInv(s)
  }
}
