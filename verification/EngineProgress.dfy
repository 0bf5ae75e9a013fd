/**
 * What the store can always do next, and what the steps that only bound other
 * steps do exactly: the smallest snapshot, releasing one, and deleting logs.
 */
module EngineProgress {
  import opened DbFormat
  import opened Views
  import opened Wrappers
  import opened Operations
  import opened History
  import opened Engine
  import opened EngineSafety
  import opened SnapshotReads
  import C = Compaction
  import opened CompactionExact

  // ---------- Snapshots ----------

  /** What a compaction takes for its smallest snapshot is the least number at which reads may start. */
  lemma SmallestIsLeastLive(less: Less, levels: nat, states: seq<State>, steps: seq<Step>, i: nat)
    requires StrictTotalOrder(less) && Run(less, levels, states, steps) && i < |states|
    ensures var s := states[i]; Live(s, SmallestSnapshot(s)) && forall t :: Live(s, t) ==> SmallestSnapshot(s) <= t
    ensures i < |steps| && steps[i].BeginCompaction? ==>
              var s, smallest := states[i], steps[i].work.job.smallestSnapshot;
              Live(s, smallest) && forall t :: Live(s, t) ==> smallest <= t
  {
    RunKeeps(less, levels, states, steps, i);
    LeastOfSnapshots(states[i]);
    if i < |steps| && steps[i].BeginCompaction? {
      assert Steps(less, states[i], steps[i], states[i + 1]);
    }
  }

  lemma LeastOfSnapshots(s: State)
    requires SnapshotInv(s)
    ensures Live(s, SmallestSnapshot(s)) && forall t :: Live(s, t) ==> SmallestSnapshot(s) <= t
  {
    forall t | Live(s, t) ensures SmallestSnapshot(s) <= t {
      if t in s.snapshots {
        var i :| 0 <= i < |s.snapshots| && s.snapshots[i] == t;
        assert s.snapshots[0] <= s.snapshots[i];
      } else if s.snapshots != [] {
        assert s.snapshots[0] <= s.lastSequence;
      }
    }
  }

  /** Step `m` releases a snapshot with number `t`. */
  predicate Releases(states: seq<State>, steps: seq<Step>, m: nat, t: nat)
    requires m < |steps| && m < |states|
  {
    steps[m].ReleaseSnapshot? && steps[m].i < |states[m].snapshots| && states[m].snapshots[steps[m].i] == t
  }

  /** Releasing a snapshot takes away just that one; no other step takes one away. */
  lemma SnapshotsAfter(less: Less, s: State, step: Step, s': State)
    requires Steps(less, s, step, s')
    ensures step.ReleaseSnapshot? ==>
              && step.i < |s.snapshots|
              && multiset(s.snapshots) == multiset(s'.snapshots) + multiset{s.snapshots[step.i]}
    ensures !step.ReleaseSnapshot? ==> s.snapshots <= s'.snapshots
  {
    if step.ReleaseSnapshot? {
      assert s.snapshots == s.snapshots[..step.i] + [s.snapshots[step.i]] + s.snapshots[step.i + 1..];
    }
  }

  /** A snapshot can be read at until it is released. */
  lemma {:induction false} SnapshotStays(less: Less, levels: nat, states: seq<State>, steps: seq<Step>, i: nat, j: nat,
                                         t: nat)
    requires StrictTotalOrder(less) && Run(less, levels, states, steps) && i <= j < |states| && t in states[i].snapshots
    requires forall m {:trigger Releases(states, steps, m, t)} :: i <= m < j ==> !Releases(states, steps, m, t)
    ensures t in states[j].snapshots
    decreases j
  {
    if i == j {
    } else {
      SnapshotStays(less, levels, states, steps, i, j - 1, t);
      assert Steps(less, states[j - 1], steps[j - 1], states[j - 1 + 1]);
      SnapshotsAfter(less, states[j - 1], steps[j - 1], states[j]);
      assert !Releases(states, steps, j - 1, t);
      assert t in multiset(states[j - 1].snapshots);
    }
  }

  // ---------- What compactions collect ----------

  lemma LayersAreApart(v: Version, inputs: Version, target: nat, e: Entry)
    requires Layered(v) && Chosen(v, inputs, target) && e in Union(inputs)
    ensures forall j {:trigger v[j]} :: 0 <= j < |v| && e in v[j] ==> j < |inputs| && e in inputs[j]
  {
    InUnion(inputs, e);
    var a :| 0 <= a < |inputs| && e in inputs[a];
    forall j {:trigger v[j]} | 0 <= j < |v| && e in v[j] ensures j < |inputs| && e in inputs[j] {
      assert e in v[a];
      assert j == a;
    }
  }

  /** An input is in the new version exactly if it is among the outputs. */
  lemma InputsLeft(v: Version, inputs: Version, target: nat, outputs: set<Entry>, e: Entry)
    requires Layered(v) && Chosen(v, inputs, target) && e in Union(inputs)
    ensures e in Union(Replaced(v, inputs, target, outputs)) <==> e in outputs
  {
    var v' := Replaced(v, inputs, target, outputs);
    LayersAreApart(v, inputs, target, e);
    InUnion(v', e);
    if e in outputs {
      assert e in v'[target];
    }
  }

  lemma MergedIsHistory(h: seq<Op>, less: Less, merged: seq<Entry>, inputs: set<Entry>)
    requires Sorted(less, merged) && StrictTotalOrder(less) && Elems(merged) == inputs
    requires forall e :: e in inputs ==> 0 < e.seqno <= |h| && e == EntryOf(h, e.seqno)
    ensures C.AllParse(merged) && OnePerNumber(merged)
  {
    forall i | 0 <= i < |merged| ensures merged[i] in inputs && merged[i].Parses() {
      assert merged[i] in Elems(merged);
    }
    forall i, j | 0 <= i < j < |merged| && merged[i].key == merged[j].key
      ensures merged[i].seqno != merged[j].seqno
    {
      assert Before(less, merged[i], merged[j]);
      assert merged[i] in inputs && merged[j] in inputs;
    }
  }

  /**
   * Installing a compaction leaves of its inputs exactly what is needed: the entries
   * that are newest of their key at a number from its smallest snapshot on, without
   * the old deletions of keys that no deeper level holds.
   */
  lemma CompactionCollects(less: Less, levels: nat, states: seq<State>, steps: seq<Step>, i: nat, e: Entry)
    requires StrictTotalOrder(less) && Run(less, levels, states, steps) && i < |steps|
    requires steps[i] == InstallCompaction && states[i].work.Some? && e in Union(states[i].work.value.inputs)
    ensures var w := states[i].work.value;
            e in Union(states[i + 1].version) <==>
            && StillRead(w.merged, w.job.smallestSnapshot, e)
            && !(e.typ == 0 && e.seqno <= w.job.smallestSnapshot && w.job.isBaseLevel(e.key))
  {
    var w := states[i].work.value;
    assert Steps(less, states[i], steps[i], states[i + 1]);
    WorkFacts(less, levels, states, steps, i);
    InputsLeft(states[i].version, w.inputs, w.target, Outputs(w), e);
    var j := MergedHas(w.merged, e);
    KeptIsNeeded(less, w.job, w.merged, j);
  }

  lemma MergedHas(merged: seq<Entry>, e: Entry) returns (j: nat)
    requires e in Elems(merged)
    ensures j < |merged| && merged[j] == e
  {
    j :| 0 <= j < |merged| && merged[j] == e;
  }

  lemma WorkFacts(less: Less, levels: nat, states: seq<State>, steps: seq<Step>, i: nat)
    requires StrictTotalOrder(less) && Run(less, levels, states, steps) && i < |states| && states[i].work.Some?
    ensures var s, w := states[i], states[i].work.value;
            && Layered(s.version) && Chosen(s.version, w.inputs, w.target) && Elems(w.merged) == Union(w.inputs)
            && Sorted(less, w.merged) && C.AllParse(w.merged) && OnePerNumber(w.merged)
            && w.job.smallestSnapshot < MAX_SEQUENCE_NUMBER
  {
    RunKeeps(less, levels, states, steps, i);
    var s, w := states[i], states[i].work.value;
    forall e | e in Union(w.inputs) ensures 0 < e.seqno <= |Ops(s)| && e == EntryOf(Ops(s), e.seqno) {
      InUnion(w.inputs, e);
      InUnion(s.version, e);
      var a :| 0 <= a < |w.inputs| && e in w.inputs[a];
      assert e in s.version[a];
    }
    MergedIsHistory(Ops(s), less, w.merged, Union(w.inputs));
  }

  // ---------- Log files ----------

  /** Some log has operation `k`. */
  ghost predicate InSomeLog(s: State, k: int) {
    exists n :: n in s.logs && k in s.logs[n]
  }

  /** After obsolete files have been deleted, the logs hold exactly the operations that are not in tables. */
  lemma LogsAfterDeletion(less: Less, levels: nat, states: seq<State>, steps: seq<Step>, i: nat)
    requires StrictTotalOrder(less) && Run(less, levels, states, steps) && i < |steps|
    requires steps[i] == DeleteObsoleteFiles
    ensures var s := states[i + 1];
            && (forall n, e :: n in s.logs && e in Union(s.version) ==> e.seqno !in s.logs[n])
            && (forall n, k :: n in s.logs && k in s.logs[n] ==> s.immBase < k <= |Ops(s)|)
            && (forall k :: s.immBase < k <= |Ops(s)| ==> InSomeLog(s, k))
  {
    RunKeeps(less, levels, states, steps, i);
    RunKeeps(less, levels, states, steps, i + 1);
    assert Steps(less, states[i], steps[i], states[i + 1]);
    DeletionLeaves(less, states[i], states[i + 1]);
    LogsAreExact(states[i + 1]);
  }

  lemma DeletionLeaves(less: Less, s: State, s': State)
    requires Steps(less, s, DeleteObsoleteFiles, s') && LogsInv(s)
    ensures forall n :: n in s'.logs ==> n >= s'.logNumber
  {
  }

  lemma LogsAreExact(s: State)
    requires MemInv(s) && LogsInv(s) && forall n :: n in s.logs ==> n >= s.logNumber
    ensures (forall n, e :: n in s.logs && e in Union(s.version) ==> e.seqno !in s.logs[n])
    ensures (forall n, k :: n in s.logs && k in s.logs[n] ==> s.immBase < k <= |Ops(s)|)
    ensures (forall k :: s.immBase < k <= |Ops(s)| ==> InSomeLog(s, k))
  {
    forall n, k | n in s.logs && k in s.logs[n] ensures s.immBase < k <= |Ops(s)| {
      assert n == s.logNumber || n == s.logfileNumber;
    }
    forall k | s.immBase < k <= |Ops(s)| ensures InSomeLog(s, k) {
      InLogs(s, k);
    }
  }

  // ---------- Nobody is stuck ----------

  /** How many layers a read has still to look into at most. */
  function ToLook(stage: Stage): nat {
    match stage
    case AtMem => 3
    case AtImm => 2
    case AtVersion => 1
    case Finished(_) => 0
  }

  /** A read that is not finished has a next step of its own, and needs at most three. */
  lemma ReadCanGoOn(less: Less, levels: nat, states: seq<State>, steps: seq<Step>, i: nat, r: nat)
    returns (step: Step, s': State)
    requires StrictTotalOrder(less) && Run(less, levels, states, steps) && i < |states|
    requires r < |states[i].readers| && !states[i].readers[r].stage.Finished?
    ensures Steps(less, states[i], step, s') && |s'.readers| == |states[i].readers|
    ensures ToLook(s'.readers[r].stage) < ToLook(states[i].readers[r].stage) <= 3
  {
    RunReader(less, levels, states, steps, i, r);
    step, s' := LooksOn(less, states[i], r);
  }

  /** A read that is to look into an immutable memtable holds one. */
  ghost predicate HoldsImm(s: State) {
    forall r {:trigger s.readers[r]} :: 0 <= r < |s.readers| && s.readers[r].stage.AtImm? ==> s.readers[r].imm.Some?
  }

  lemma HoldsImmStill(less: Less, s: State, step: Step, s': State)
    requires HoldsImm(s) && Steps(less, s, step, s')
    ensures HoldsImm(s')
  {
    if step.LookMem? {
      LookedAt(less, s, step, step.r, s');
    } else if step.LookImm? {
      LookedAt(less, s, step, step.r, s');
    } else if step.LookVersion? {
      LookedAt(less, s, step, step.r, s');
    }
  }

  lemma LookedAt(less: Less, s: State, step: Step, r: nat, s': State)
    requires Steps(less, s, step, s') && (step == LookMem(r) || step == LookImm(r) || step == LookVersion(r))
    requires HoldsImm(s)
    ensures HoldsImm(s')
  {
    var x := LookStep(less, s, step, r, s');
  }

  lemma {:induction false} RunHoldsImm(less: Less, levels: nat, states: seq<State>, steps: seq<Step>, i: nat)
    requires Run(less, levels, states, steps) && i < |states|
    ensures HoldsImm(states[i])
    decreases i
  {
    if i == 0 {
    } else {
      RunHoldsImm(less, levels, states, steps, i - 1);
      assert Steps(less, states[i - 1], steps[i - 1], states[i - 1 + 1]);
      HoldsImmStill(less, states[i - 1], steps[i - 1], states[i]);
    }
  }

  /** A read stands where it can look. */
  predicate CanLook(s: State, x: Reader) {
    x.mem < |s.tables| && (x.imm.Some? ==> x.imm.value < |s.tables|) && (x.stage.AtImm? ==> x.imm.Some?)
  }

  lemma RunReader(less: Less, levels: nat, states: seq<State>, steps: seq<Step>, i: nat, r: nat)
    requires StrictTotalOrder(less) && Run(less, levels, states, steps) && i < |states| && r < |states[i].readers|
    ensures CanLook(states[i], states[i].readers[r])
  {
    RunKeeps(less, levels, states, steps, i);
    RunHoldsImm(less, levels, states, steps, i);
    assert ReaderInv(Ops(states[i]), states[i].tables, states[i].readers[r]);
  }

  lemma LooksOn(less: Less, s: State, r: nat) returns (step: Step, s': State)
    requires r < |s.readers| && CanLook(s, s.readers[r]) && !s.readers[r].stage.Finished?
    ensures Steps(less, s, step, s') && |s'.readers| == |s.readers|
    ensures ToLook(s'.readers[r].stage) < ToLook(s.readers[r].stage)
  {
    var x := s.readers[r];
    match x.stage
    case AtMem =>
      step := LookMem(r);
      s' := ReaderAt(s, r, After(Look(s.tables[x.mem], x.seqno, x.key), if x.imm.Some? then AtImm else AtVersion));
    case AtImm =>
      step := LookImm(r);
      s' := ReaderAt(s, r, After(Look(s.tables[x.imm.value], x.seqno, x.key), AtVersion));
    case AtVersion =>
      step := LookVersion(r);
      s' := ReaderAt(s, r, Finished(Reply(VersionGet(x.version, x.seqno, x.key))));
  }

  /** A read can begin at any live snapshot and without one. */
  lemma ReadCanBegin(less: Less, levels: nat, states: seq<State>, steps: seq<Step>, i: nat, key: Key,
                     snapshot: Option<nat>) returns (s': State)
    requires StrictTotalOrder(less) && Run(less, levels, states, steps) && i < |states|
    requires snapshot.Some? ==> snapshot.value in states[i].snapshots
    ensures Steps(less, states[i], BeginRead(key, snapshot), s')
  {
    RunTables(less, levels, states, steps, i);
    var s := states[i];
    s' := s.(readers := s.readers + [Reader(key, if snapshot.Some? then snapshot.value else s.lastSequence,
               |s.tables| - 1, if s.hasImm then Some(|s.tables| - 2) else None, s.version, AtMem)]);
  }

  lemma RunTables(less: Less, levels: nat, states: seq<State>, steps: seq<Step>, i: nat)
    requires StrictTotalOrder(less) && Run(less, levels, states, steps) && i < |states|
    ensures var s := states[i];
            |s.tables| >= (if s.hasImm then 2 else 1) && s.lastSequence <= s.inserted <= |Ops(s)|
            && s.logfileNumber in s.logs && (s.flush.Some? ==> s.hasImm)
            && (s.work.Some? ==> |s.work.value.inputs| <= |s.version|)
  {
    RunKeeps(less, levels, states, steps, i);
  }

  /** A commit that is under way can go on: its next operation can be inserted, or its end published. */
  lemma CommitCanGoOn(less: Less, levels: nat, states: seq<State>, steps: seq<Step>, i: nat)
    returns (step: Step, s': State)
    requires StrictTotalOrder(less) && Run(less, levels, states, steps) && i < |states|
    requires states[i].lastSequence < |Ops(states[i])|
    ensures Steps(less, states[i], step, s') && Ops(s') == Ops(states[i])
    ensures if states[i].inserted < |Ops(states[i])| then s'.inserted == states[i].inserted + 1
            else s'.lastSequence == |Ops(states[i])|
  {
    RunTables(less, levels, states, steps, i);
    var s := states[i];
    if s.inserted < |Ops(s)| {
      step := InsertNext;
      s' := s.(inserted := s.inserted + 1,
               tables := s.tables[|s.tables| - 1 := Mem(s) + {EntryOf(Ops(s), s.inserted + 1)}]);
    } else {
      step, s' := EndCommit, s.(lastSequence := s.inserted);
    }
  }

  /** Between two commits the next one can begin, as long as there are numbers. */
  lemma CommitCanBegin(less: Less, levels: nat, states: seq<State>, steps: seq<Step>, i: nat, batch: Batch)
    returns (s': State)
    requires StrictTotalOrder(less) && Run(less, levels, states, steps) && i < |states|
    requires states[i].lastSequence == |Ops(states[i])| && |Ops(states[i])| + |batch| < MAX_SEQUENCE_NUMBER
    ensures Steps(less, states[i], BeginCommit(batch), s') && Ops(s') == Ops(states[i]) + batch
  {
    RunTables(less, levels, states, steps, i);
    var s := states[i];
    s' := s.(batches := s.batches + [batch],
             logs := s.logs[s.logfileNumber := s.logs[s.logfileNumber] + Numbers(|Ops(s)|, |batch|)]);
    FlatMore(s.batches, batch);
  }

  /** A memtable that is full can be set aside, written out and installed, at worst as a layer of its own. */
  lemma FlushCanGoOn(less: Less, levels: nat, states: seq<State>, steps: seq<Step>, i: nat)
    returns (step: Step, s': State)
    requires StrictTotalOrder(less) && Run(less, levels, states, steps) && i < |states|
    requires states[i].hasImm || states[i].lastSequence == |Ops(states[i])|
    ensures Steps(less, states[i], step, s')
    ensures var s := states[i];
            if !s.hasImm then s'.hasImm && Mem(s') == {} && Imm(s') == Mem(s)
            else if s.flush.None? then s'.flush.Some? && s'.flush.value.content == Imm(s)
            else !s'.hasImm && s'.flush.None?
  {
    RunTables(less, levels, states, steps, i);
    var s := states[i];
    if !s.hasImm {
      step := SwitchMemtable;
      s' := s.(tables := s.tables + [{}], hasImm := true,
               logs := s.logs[s.nextFile := {}], logfileNumber := s.nextFile, nextFile := s.nextFile + 1,
               immBase := s.memBase, memBase := s.lastSequence);
    } else if s.flush.None? {
      step := BuildTable;
      s' := s.(flush := Some(Flush(Imm(s), s.version)), nextFile := s.nextFile + 1);
    } else {
      var top := |s.version|;
      step := InstallTable(top);
      TopIsFree(less, levels, states, steps, i);
      s' := s.(version := WithTable(s.version, top, s.flush.value.content), flush := None, hasImm := false,
               logNumber := s.logfileNumber, immBase := s.memBase);
    }
  }

  lemma TopIsFree(less: Less, levels: nat, states: seq<State>, steps: seq<Step>, i: nat)
    requires StrictTotalOrder(less) && Run(less, levels, states, steps) && i < |states| && states[i].flush.Some?
    ensures var s := states[i]; NoOverlap(s.flush.value.base, |s.version|, s.flush.value.content)
  {
    RunKeeps(less, levels, states, steps, i);
  }

  /** A compaction can be installed whenever no flush is under way. */
  lemma CompactionCanEnd(less: Less, levels: nat, states: seq<State>, steps: seq<Step>, i: nat) returns (s': State)
    requires StrictTotalOrder(less) && Run(less, levels, states, steps) && i < |states|
    requires states[i].work.Some? && states[i].flush.None?
    ensures Steps(less, states[i], InstallCompaction, s') && s'.work.None?
  {
    RunTables(less, levels, states, steps, i);
    var s, w := states[i], states[i].work.value;
    s' := s.(version := Replaced(s.version, w.inputs, w.target, Outputs(w)), work := None,
             floor := if s.floor < w.job.smallestSnapshot then w.job.smallestSnapshot else s.floor);
  }
}
