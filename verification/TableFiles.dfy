/**
 * The table files of a store: versions with reference counts, tables that are
 * being built, and the deletion of tables that nobody needs.  The background
 * thread flushes and compacts; readers hold versions meanwhile.
 */
module TableFiles {
  import opened Wrappers
  import D = DbFiles

  // ---------- The machine ----------

  /** A version: the tables it consists of, and how many hold it. */
  datatype Version = Version(files: set<nat>, refs: nat)

  /** A flush builds a table, and then writes an edit that adds it while the mutex is released. */
  datatype Flush =
    | NoFlush
    | Building(table: nat, base: nat, written: bool)
    | AddingTable(added: set<nat>)

  /** A compaction reads the tables of a version and writes others; then it writes its edit. */
  datatype Compaction =
    | NoCompaction
    | Working(inputs: set<nat>, base: nat, outputs: set<nat>, written: set<nat>)
    | Replacing(inputs: set<nat>, base: nat, outputs: set<nat>)
    | Cleaning(base: nat, outputs: set<nat>)

  /**
   * `doubtful` only observes: tables of edits whose writing failed, which may or
   * may not be part of the database.
   */
  datatype State = State(
    disk: set<nat>,
    nextFile: nat,
    versions: map<nat, Version>,  // those in the list of versions
    nextVersion: nat,
    current: nat,
    readers: seq<nat>,            // the versions that reads and iterators hold
    pending: set<nat>,            // pending_outputs_
    flush: Flush,
    compaction: Compaction,
    bgError: bool,
    doubtful: set<nat>
  )

  function Initial(tables: set<nat>, nextFile: nat): State {
    State(tables, nextFile, map[0 := Version(tables, 1)], 1, 0, [], {}, NoFlush, NoCompaction, false, {})
  }

  function Ref(s: State, v: nat): State
    requires v in s.versions
  {
    s.(versions := s.versions[v := s.versions[v].(refs := s.versions[v].refs + 1)])
  }

  /** A version that nobody holds any longer leaves the list. */
  function Unref(s: State, v: nat): State
    requires v in s.versions && s.versions[v].refs > 0
  {
    if s.versions[v].refs == 1 then s.(versions := s.versions - {v})
    else s.(versions := s.versions[v := s.versions[v].(refs := s.versions[v].refs - 1)])
  }

  /** A new version becomes the current one, which is held as such. */
  function AppendVersion(s: State, files: set<nat>): State
    requires s.current in s.versions && s.versions[s.current].refs > 0
  {
    var s' := Unref(s, s.current);
    s'.(versions := s'.versions[s.nextVersion := Version(files, 1)], current := s.nextVersion,
        nextVersion := s.nextVersion + 1)
  }

  function CurrentFiles(s: State): set<nat>
    requires s.current in s.versions
  {
    s.versions[s.current].files
  }

  /** The tables that a deletion of obsolete files spares. */
  function LiveTables(s: State): set<nat> {
    s.pending + set v, n | v in s.versions && n in s.versions[v].files :: n
  }

  datatype Step =
    | Hold
    | Release(i: nat)
    | BeginFlush
    | WriteTable
    | EndBuild(ok: bool, empty: bool)
    | EndFlush(ok: bool)
    | BeginCompaction(inputs: set<nat>)
    | OpenOutput
    | WriteOutput(n: nat)
    | BeginInstall
    | EndInstall(ok: bool)
    | Abandon
    | Cleanup
    | MoveTable(ok: bool)
    | DeleteObsolete

  /** The background thread is writing an edit; nobody deletes files then. */
  predicate Applying(s: State) {
    s.flush.AddingTable? || s.compaction.Replacing?
  }

  predicate Holds(s: State, v: nat) {
    v in s.versions && s.versions[v].refs > 0
  }

  ghost predicate Steps(s: State, step: Step, s': State) {
    match step
    case Hold =>
      Holds(s, s.current) && s' == Ref(s, s.current).(readers := s.readers + [s.current])
    case Release(i) =>
      && i < |s.readers| && Holds(s, s.readers[i])
      && s' == Unref(s, s.readers[i]).(readers := s.readers[..i] + s.readers[i + 1..])
    case BeginFlush =>
      && s.flush.NoFlush? && (s.compaction.NoCompaction? || s.compaction.Working?) && Holds(s, s.current)
      && s' == Ref(s, s.current).(flush := Building(s.nextFile, s.current, false),
                                  pending := s.pending + {s.nextFile}, nextFile := s.nextFile + 1)
    case WriteTable =>
      && s.flush.Building?
      && s' == s.(disk := s.disk + {s.flush.table}, flush := Building(s.flush.table, s.flush.base, true))
    case EndBuild(ok, empty) =>
      && s.flush.Building? && Holds(s, s.flush.base) && (ok && !empty ==> s.flush.written)
      && var n, s1 := s.flush.table, Unref(s, s.flush.base).(pending := s.pending - {s.flush.table});
         if ok && !empty then s' == s1.(flush := AddingTable({n}))
         else if ok then s' == s1.(flush := AddingTable({}), disk := s.disk - {n})
         else s' == s1.(flush := NoFlush, disk := s.disk - {n}, bgError := true)
    case EndFlush(ok) =>
      && s.flush.AddingTable? && Holds(s, s.current)
      && if ok then s' == AppendVersion(s, CurrentFiles(s) + s.flush.added).(flush := NoFlush)
         else s' == s.(flush := NoFlush, bgError := true, doubtful := s.doubtful + s.flush.added)
    case BeginCompaction(inputs) =>
      && s.flush.NoFlush? && s.compaction.NoCompaction? && !s.bgError && Holds(s, s.current)
      && inputs <= CurrentFiles(s)
      && s' == Ref(s, s.current).(compaction := Working(inputs, s.current, {}, {}))
    case OpenOutput =>
      && s.compaction.Working? && s.flush.NoFlush?
      && var c := s.compaction;
         s' == s.(compaction := Working(c.inputs, c.base, c.outputs + {s.nextFile}, c.written),
                  pending := s.pending + {s.nextFile}, nextFile := s.nextFile + 1)
    case WriteOutput(n) =>
      && s.compaction.Working? && n in s.compaction.outputs
      && var c := s.compaction;
         s' == s.(compaction := Working(c.inputs, c.base, c.outputs, c.written + {n}), disk := s.disk + {n})
    case BeginInstall =>
      && s.compaction.Working? && s.flush.NoFlush? && s.compaction.written == s.compaction.outputs
      && s' == s.(compaction := Replacing(s.compaction.inputs, s.compaction.base, s.compaction.outputs))
    case EndInstall(ok) =>
      && s.compaction.Replacing? && Holds(s, s.current)
      && var c := s.compaction;
         if ok then
           s' == AppendVersion(s, (CurrentFiles(s) - c.inputs) + c.outputs).(compaction := Cleaning(c.base, c.outputs))
         else
           s' == s.(compaction := Cleaning(c.base, c.outputs), bgError := true, doubtful := s.doubtful + c.outputs)
    case Abandon =>
      && s.compaction.Working? && s.flush.NoFlush?
      && s' == s.(compaction := Cleaning(s.compaction.base, s.compaction.outputs), bgError := true)
    case Cleanup =>
      && s.compaction.Cleaning? && Holds(s, s.compaction.base)
      && s' == Unref(s, s.compaction.base).(compaction := NoCompaction, pending := s.pending - s.compaction.outputs)
    case MoveTable(ok) =>
      && s.flush.NoFlush? && s.compaction.NoCompaction? && Holds(s, s.current)
      && if ok then s' == AppendVersion(s, CurrentFiles(s)) else s' == s.(bgError := true)
    case DeleteObsolete =>
      && !Applying(s)
      && s' == if s.bgError then s else s.(disk := s.disk * LiveTables(s))
  }

  ghost predicate Run(tables: set<nat>, nextFile: nat, states: seq<State>, steps: seq<Step>) {
    && |states| == |steps| + 1 && states[0] == Initial(tables, nextFile) && (forall n :: n in tables ==> n < nextFile)
    && forall i {:trigger steps[i]} :: 0 <= i < |steps| ==> Steps(states[i], steps[i], states[i + 1])
  }

  // ---------- What every step keeps ----------

  /** How often a version is held: as the current one, by readers, by a flush and by a compaction. */
  function Count(readers: seq<nat>, v: nat): nat {
    if readers == [] then 0 else Count(readers[..|readers| - 1], v) + if readers[|readers| - 1] == v then 1 else 0
  }

  function Holders(s: State, v: nat): nat {
    (if v == s.current then 1 else 0) + Count(s.readers, v)
    + (if s.flush.Building? && s.flush.base == v then 1 else 0)
    + (if !s.compaction.NoCompaction? && s.compaction.base == v then 1 else 0)
  }

  /** The counts are right, so a version is in the list exactly as long as somebody holds it. */
  ghost predicate RefsInv(s: State) {
    && (forall v :: v in s.versions ==> s.versions[v].refs == Holders(s, v) && v < s.nextVersion)
    && forall v :: Holders(s, v) > 0 ==> v in s.versions
  }

  /** Every table that is part of a version, that is being added to one, or that may have been, is there. */
  ghost predicate TablesInv(s: State) {
    && (forall v :: v in s.versions ==> s.versions[v].files <= s.disk)
    && (s.flush.Building? ==> s.flush.table in s.pending && (s.flush.written ==> s.flush.table in s.disk))
    && (s.flush.AddingTable? ==> s.flush.added <= s.disk)
    && (s.compaction.Working? ==>
          s.compaction.outputs <= s.pending && s.compaction.written <= s.disk
            && s.compaction.written <= s.compaction.outputs)
    && (s.compaction.Replacing? ==> s.compaction.outputs <= s.disk)
    && (s.compaction.Working? || s.compaction.Replacing? ==>
          s.compaction.base in s.versions && s.compaction.inputs <= s.versions[s.compaction.base].files)
    && s.doubtful <= s.disk && (s.doubtful != {} ==> s.bgError)
  }

  /** What a flush builds or adds. */
  function FlushTables(s: State): set<nat> {
    match s.flush
    case NoFlush => {}
    case Building(table, _, _) => {table}
    case AddingTable(added) => added
  }

  /** What a compaction builds or adds. */
  function CompactionTables(s: State): set<nat> {
    match s.compaction
    case Working(_, _, outputs, _) => outputs
    case Replacing(_, _, outputs) => outputs
    case _ => {}
  }

  predicate Below(tables: set<nat>, bound: nat) {
    forall n :: n in tables ==> n < bound
  }

  /** Tables that are part of the database, not among those that are being built. */
  predicate Apart(s: State, tables: set<nat>) {
    Below(tables, s.nextFile) && tables !! FlushTables(s) && tables !! CompactionTables(s)
  }

  /** Numbers are given out once: what is being built is nobody's table yet. */
  ghost predicate NumbersInv(s: State) {
    && Below(s.disk, s.nextFile) && Below(s.pending, s.nextFile)
    && Below(FlushTables(s), s.nextFile) && Below(CompactionTables(s), s.nextFile)
    && FlushTables(s) !! CompactionTables(s)
    && Apart(s, s.doubtful)
    && forall v :: v in s.versions ==> Apart(s, s.versions[v].files)
  }

  /** There is one background thread: it flushes only between the steps of a compaction. */
  predicate StageInv(s: State) {
    s.flush.NoFlush? || s.compaction.NoCompaction? || s.compaction.Working?
  }

  ghost predicate Inv(s: State) {
    RefsInv(s) && TablesInv(s) && NumbersInv(s) && StageInv(s)
  }

  // ---------- The counts ----------

  lemma CountAdds(readers: seq<nat>, x: nat, v: nat)
    ensures Count(readers + [x], v) == Count(readers, v) + if x == v then 1 else 0
  {
    assert (readers + [x])[..|readers|] == readers;
  }

  lemma {:induction false} CountDrops(readers: seq<nat>, i: nat, v: nat)
    requires i < |readers|
    ensures Count(readers[..i] + readers[i + 1..], v) == Count(readers, v) - if readers[i] == v then 1 else 0
    decreases |readers|
  {
    var n := |readers| - 1;
    if i == n {
      assert readers[..i] + readers[i + 1..] == readers[..n];
    } else {
      var rest := readers[..i] + readers[i + 1..];
      assert rest[..|rest| - 1] == readers[..n][..i] + readers[..n][i + 1..];
      CountDrops(readers[..n], i, v);
    }
  }

  lemma {:induction false} CountOf(readers: seq<nat>, i: nat)
    requires i < |readers|
    ensures Count(readers, readers[i]) > 0
    decreases |readers|
  {
    if i == |readers| - 1 {
    } else {
      CountOf(readers[..|readers| - 1], i);
    }
  }

  lemma RefRight(s: State, v: nat, s': State)
    requires RefsInv(s) && v in s.versions && s'.versions == Ref(s, v).versions && s'.nextVersion == s.nextVersion
    requires forall u {:trigger Holders(s', u)} :: Holders(s', u) == Holders(s, u) + if u == v then 1 else 0
    ensures RefsInv(s')
  {
  }

  lemma UnrefRight(s: State, v: nat, s': State)
    requires RefsInv(s) && Holders(s, v) > 0 && s'.versions == Unref(s, v).versions && s'.nextVersion == s.nextVersion
    requires forall u {:trigger Holders(s', u)} :: Holders(s', u) == Holders(s, u) - if u == v then 1 else 0
    ensures RefsInv(s')
  {
  }

  lemma AppendRight(s: State, files: set<nat>, s': State)
    requires RefsInv(s) && s'.versions == AppendVersion(s, files).versions
    requires s'.current == s.nextVersion && s'.nextVersion == s.nextVersion + 1 && s'.readers == s.readers
    requires forall u {:trigger Holders(s', u)} ::
               Holders(s', u) == Holders(s, u) + (if u == s.nextVersion then 1 else 0) - if u == s.current then 1 else 0
    ensures RefsInv(s')
  {
    assert Holders(s, s.nextVersion) == 0;
    assert Holders(s, s.current) > 0;
  }

  lemma SameRefs(s: State, s': State)
    requires RefsInv(s) && s'.versions == s.versions && s'.nextVersion == s.nextVersion
    requires forall u {:trigger Holders(s', u)} :: Holders(s', u) == Holders(s, u)
    ensures RefsInv(s')
  {
  }

  lemma HoldRefs(s: State, s': State)
    requires RefsInv(s) && Steps(s, Hold, s')
    ensures RefsInv(s')
  {
    forall u {:trigger Holders(s', u)} ensures Holders(s', u) == Holders(s, u) + if u == s.current then 1 else 0 {
      CountAdds(s.readers, s.current, u);
    }
    RefRight(s, s.current, s');
  }

  lemma ReleaseRefs(s: State, i: nat, s': State)
    requires RefsInv(s) && Steps(s, Release(i), s')
    ensures RefsInv(s')
  {
    var v := s.readers[i];
    CountOf(s.readers, i);
    UnrefKeepsRest(s, v);
    forall u {:trigger Holders(s', u)} ensures Holders(s', u) == Holders(s, u) - if u == v then 1 else 0 {
      CountDrops(s.readers, i, u);
    }
    UnrefRight(s, v, s');
  }

  lemma UnrefKeepsRest(s: State, v: nat)
    requires Holds(s, v)
    ensures var s' := Unref(s, v); s' == s.(versions := s'.versions)
  {
  }

  lemma EndFlushRefs(s: State, ok: bool, s': State)
    requires RefsInv(s) && Steps(s, EndFlush(ok), s')
    ensures RefsInv(s')
  {
    if ok { AppendRight(s, CurrentFiles(s) + s.flush.added, s'); } else { SameRefs(s, s'); }
  }

  lemma EndBuildRefs(s: State, ok: bool, empty: bool, s': State)
    requires RefsInv(s) && Steps(s, EndBuild(ok, empty), s')
    ensures RefsInv(s')
  {
    UnrefRight(s, s.flush.base, s');
  }

  lemma FlushRefs(s: State, step: Step, s': State)
    requires RefsInv(s) && Steps(s, step, s') && (step.BeginFlush? || step.EndBuild? || step.EndFlush?)
    ensures RefsInv(s')
  {
    match step
    case BeginFlush => RefRight(s, s.current, s');
    case EndBuild(ok, empty) => EndBuildRefs(s, ok, empty, s');
    case EndFlush(ok) => EndFlushRefs(s, ok, s');
  }

  lemma EndInstallRefs(s: State, ok: bool, s': State)
    requires RefsInv(s) && Steps(s, EndInstall(ok), s')
    ensures RefsInv(s')
  {
    if ok {
      AppendRight(s, (CurrentFiles(s) - s.compaction.inputs) + s.compaction.outputs, s');
    } else {
      SameRefs(s, s');
    }
  }

  lemma MoveRefs(s: State, ok: bool, s': State)
    requires RefsInv(s) && Steps(s, MoveTable(ok), s')
    ensures RefsInv(s')
  {
    if ok { AppendRight(s, CurrentFiles(s), s'); } else { SameRefs(s, s'); }
  }

  lemma CompactionRefs(s: State, step: Step, s': State)
    requires RefsInv(s) && Steps(s, step, s')
    requires step.BeginCompaction? || step.EndInstall? || step.Cleanup? || step.MoveTable?
    ensures RefsInv(s')
  {
    match step
    case BeginCompaction(_) => RefRight(s, s.current, s');
    case EndInstall(ok) => EndInstallRefs(s, ok, s');
    case Cleanup => UnrefRight(s, s.compaction.base, s');
    case MoveTable(ok) => MoveRefs(s, ok, s');
  }

  lemma RefsKeep(s: State, step: Step, s': State)
    requires RefsInv(s) && Steps(s, step, s')
    ensures RefsInv(s')
  {
    if step.Hold? {
      HoldRefs(s, s');
    } else if step.Release? {
      ReleaseRefs(s, step.i, s');
    } else if step.BeginFlush? || step.EndBuild? || step.EndFlush? {
      FlushRefs(s, step, s');
    } else if step.BeginCompaction? || step.EndInstall? || step.Cleanup? || step.MoveTable? {
      CompactionRefs(s, step, s');
    } else {
      SameRefs(s, s');
    }
  }

  // ---------- The tables ----------

  /** The versions in the list keep their tables; one with the given tables may be new. */
  ghost predicate Carried(s: State, files: set<nat>, s': State) {
    forall v :: v in s'.versions ==>
      if v in s.versions then s'.versions[v].files == s.versions[v].files else s'.versions[v].files == files
  }

  /** The tables of a new version are those of the current one and those that its edit adds. */
  function NewFiles(s: State, step: Step): set<nat>
    requires s.current in s.versions
  {
    match step
    case EndFlush(ok) => if ok && s.flush.AddingTable? then CurrentFiles(s) + s.flush.added else {}
    case EndInstall(ok) =>
      if ok && s.compaction.Replacing? then (CurrentFiles(s) - s.compaction.inputs) + s.compaction.outputs else {}
    case MoveTable(_) => CurrentFiles(s)
    case _ => {}
  }

  lemma UnrefCarries(s: State, v: nat)
    requires Holds(s, v)
    ensures forall u :: u in Unref(s, v).versions ==>
              u in s.versions && Unref(s, v).versions[u].files == s.versions[u].files
  {
  }

  lemma AppendCarries(s: State, files: set<nat>)
    requires Holds(s, s.current)
    ensures Carried(s, files, AppendVersion(s, files)) || s.nextVersion in s.versions
  {
    UnrefCarries(s, s.current);
  }

  lemma ReadersCarry(s: State, step: Step, s': State)
    requires Steps(s, step, s') && (step.Hold? || step.Release?)
    ensures Carried(s, {}, s')
  {
    if step.Release? {
      UnrefCarries(s, s.readers[step.i]);
    }
  }

  lemma FlushCarries(s: State, step: Step, s': State)
    requires Steps(s, step, s') && (step.BeginFlush? || step.WriteTable? || step.EndBuild? || step.EndFlush?)
    requires s.current in s.versions && s.nextVersion !in s.versions
    ensures Carried(s, NewFiles(s, step), s')
  {
    match step
    case EndBuild(_, _) => UnrefCarries(s, s.flush.base);
    case EndFlush(ok) => if ok { AppendCarries(s, NewFiles(s, step)); }
    case _ =>
  }

  lemma CompactionCarries(s: State, step: Step, s': State)
    requires Steps(s, step, s') && s.current in s.versions && s.nextVersion !in s.versions
    requires step.BeginCompaction? || step.OpenOutput? || step.WriteOutput? || step.BeginInstall? || step.EndInstall?
             || step.Abandon? || step.Cleanup? || step.MoveTable? || step.DeleteObsolete?
    ensures Carried(s, NewFiles(s, step), s')
  {
    match step
    case EndInstall(ok) => if ok { AppendCarries(s, NewFiles(s, step)); }
    case MoveTable(ok) => if ok { AppendCarries(s, NewFiles(s, step)); }
    case Cleanup => UnrefCarries(s, s.compaction.base);
    case _ =>
  }

  lemma VersionsCarried(s: State, step: Step, s': State)
    requires RefsInv(s) && Steps(s, step, s')
    ensures s.current in s.versions && Carried(s, NewFiles(s, step), s')
  {
    assert Holders(s, s.current) > 0;
    if step.Hold? || step.Release? {
      ReadersCarry(s, step, s');
    } else if step.BeginFlush? || step.WriteTable? || step.EndBuild? || step.EndFlush? {
      FlushCarries(s, step, s');
    } else {
      CompactionCarries(s, step, s');
    }
  }

  /** Deleting obsolete files spares everything that is needed. */
  lemma DeletionKeeps(s: State, s': State)
    requires TablesInv(s) && Steps(s, DeleteObsolete, s')
    ensures TablesInv(s')
  {
  }

  /** A table that could not be built, or is empty, is nobody's. */
  lemma EndBuildKeeps(s: State, ok: bool, empty: bool, s': State)
    requires RefsInv(s) && TablesInv(s) && NumbersInv(s) && StageInv(s) && Steps(s, EndBuild(ok, empty), s')
    requires RefsInv(s') && Carried(s, {}, s')
    ensures TablesInv(s')
  {
    var n := s.flush.table;
    assert n in FlushTables(s) && n !in CompactionTables(s);
    if s.compaction.Working? || s.compaction.Replacing? {
      KeepsBase(s, s');
    }
  }

  lemma KeepsBase(s: State, s': State)
    requires RefsInv(s') && (s'.compaction.Working? || s'.compaction.Replacing?)
    ensures s'.compaction.base in s'.versions
  {
    assert Holders(s', s'.compaction.base) > 0;
  }

  lemma ReaderStepKeeps(s: State, step: Step, s': State)
    requires TablesInv(s) && Steps(s, step, s') && (step.Hold? || step.Release?)
    requires RefsInv(s') && Carried(s, {}, s')
    ensures TablesInv(s')
  {
    if s.compaction.Working? || s.compaction.Replacing? {
      KeepsBase(s, s');
    }
  }

  lemma FlushStepKeeps(s: State, step: Step, s': State)
    requires TablesInv(s) && Steps(s, step, s') && (step.BeginFlush? || step.WriteTable? || step.EndFlush?)
    requires RefsInv(s') && s.current in s.versions && Carried(s, NewFiles(s, step), s')
    ensures TablesInv(s')
  {
    if s.compaction.Working? || s.compaction.Replacing? {
      KeepsBase(s, s');
    }
  }

  lemma WorkStepKeeps(s: State, step: Step, s': State)
    requires TablesInv(s) && StageInv(s) && Steps(s, step, s')
    requires step.BeginCompaction? || step.OpenOutput? || step.WriteOutput? || step.BeginInstall?
    requires RefsInv(s') && s.current in s.versions && Carried(s, {}, s')
    ensures TablesInv(s')
  {
    KeepsBase(s, s');
  }

  lemma InstallStepKeeps(s: State, step: Step, s': State)
    requires TablesInv(s) && StageInv(s) && Steps(s, step, s')
    requires step.EndInstall? || step.Abandon? || step.Cleanup? || step.MoveTable?
    requires s.current in s.versions && Carried(s, NewFiles(s, step), s')
    ensures TablesInv(s')
  {
  }

  lemma TablesKeep(s: State, step: Step, s': State)
    requires Inv(s) && Steps(s, step, s') && RefsInv(s')
    ensures TablesInv(s')
  {
    VersionsCarried(s, step, s');
    match step
    case DeleteObsolete => DeletionKeeps(s, s');
    case EndBuild(ok, empty) => EndBuildKeeps(s, ok, empty, s');
    case Hold => ReaderStepKeeps(s, step, s');
    case Release(_) => ReaderStepKeeps(s, step, s');
    case BeginFlush => FlushStepKeeps(s, step, s');
    case WriteTable => FlushStepKeeps(s, step, s');
    case EndFlush(_) => FlushStepKeeps(s, step, s');
    case EndInstall(_) => InstallStepKeeps(s, step, s');
    case Abandon => InstallStepKeeps(s, step, s');
    case Cleanup => InstallStepKeeps(s, step, s');
    case MoveTable(_) => InstallStepKeeps(s, step, s');
    case _ => WorkStepKeeps(s, step, s');
  }

  // ---------- The numbers ----------

  lemma BuildNumbers(s: State, step: Step, s': State)
    requires NumbersInv(s) && StageInv(s) && Steps(s, step, s') && (step.BeginFlush? || step.WriteTable?)
    requires Carried(s, {}, s')
    ensures NumbersInv(s') && StageInv(s')
  {
  }

  lemma FlushNumbers(s: State, step: Step, s': State)
    requires NumbersInv(s) && StageInv(s) && Steps(s, step, s') && (step.EndBuild? || step.EndFlush?)
    requires s.current in s.versions && Carried(s, NewFiles(s, step), s')
    ensures NumbersInv(s') && StageInv(s')
  {
  }

  lemma WorkNumbers(s: State, step: Step, s': State)
    requires NumbersInv(s) && TablesInv(s) && StageInv(s) && Steps(s, step, s')
    requires step.BeginCompaction? || step.OpenOutput? || step.WriteOutput? || step.BeginInstall?
    requires Carried(s, {}, s')
    ensures NumbersInv(s') && StageInv(s')
  {
  }

  lemma InstallNumbers(s: State, step: Step, s': State)
    requires NumbersInv(s) && StageInv(s) && Steps(s, step, s')
    requires step.EndInstall? || step.Abandon? || step.Cleanup? || step.MoveTable?
    requires s.current in s.versions && Carried(s, NewFiles(s, step), s')
    ensures NumbersInv(s') && StageInv(s')
  {
  }

  lemma OtherNumbers(s: State, step: Step, s': State)
    requires NumbersInv(s) && StageInv(s) && Steps(s, step, s') && (step.Hold? || step.Release? || step.DeleteObsolete?)
    requires Carried(s, {}, s')
    ensures NumbersInv(s') && StageInv(s')
  {
  }

  lemma NumbersKeep(s: State, step: Step, s': State)
    requires Inv(s) && Steps(s, step, s')
    ensures NumbersInv(s') && StageInv(s')
  {
    VersionsCarried(s, step, s');
    if step.BeginFlush? || step.WriteTable? {
      BuildNumbers(s, step, s');
    } else if step.EndBuild? || step.EndFlush? {
      FlushNumbers(s, step, s');
    } else if step.Hold? || step.Release? || step.DeleteObsolete? {
      OtherNumbers(s, step, s');
    } else if step.EndInstall? || step.Abandon? || step.Cleanup? || step.MoveTable? {
      InstallNumbers(s, step, s');
    } else {
      WorkNumbers(s, step, s');
    }
  }

  lemma {:induction false} RunKeeps(tables: set<nat>, nextFile: nat, states: seq<State>, steps: seq<Step>, i: nat)
    requires Run(tables, nextFile, states, steps) && i < |states|
    ensures Inv(states[i])
    decreases i
  {
    if i == 0 {
    } else {
      RunKeeps(tables, nextFile, states, steps, i - 1);
      assert Steps(states[i - 1], steps[i - 1], states[i - 1 + 1]);
      RefsKeep(states[i - 1], steps[i - 1], states[i]);
      TablesKeep(states[i - 1], steps[i - 1], states[i]);
      NumbersKeep(states[i - 1], steps[i - 1], states[i]);
    }
  }

  // ---------- Results ----------

  /** The tables that somebody needs or builds. */
  ghost predicate IsNeeded(s: State, n: nat) {
    || (s.current in s.versions && n in CurrentFiles(s))
    || (exists i :: 0 <= i < |s.readers| && s.readers[i] in s.versions && n in s.versions[s.readers[i]].files)
    || (s.flush.Building? && s.flush.written && n == s.flush.table)
    || (s.flush.AddingTable? && n in s.flush.added)
    || (s.compaction.Working? && n in s.compaction.written + s.compaction.inputs)
    || (s.compaction.Replacing? && n in s.compaction.outputs + s.compaction.inputs)
    || n in s.doubtful
  }

  /** In every reachable state every table that somebody needs or builds is there. */
  lemma NeededTablesAreThere(tables: set<nat>, nextFile: nat, states: seq<State>, steps: seq<Step>, i: nat, n: nat)
    requires Run(tables, nextFile, states, steps) && i < |states| && IsNeeded(states[i], n)
    ensures n in states[i].disk
    ensures states[i].current in states[i].versions
    ensures forall r :: 0 <= r < |states[i].readers| ==> states[i].readers[r] in states[i].versions
  {
    RunKeeps(tables, nextFile, states, steps, i);
    var s := states[i];
    assert Holders(s, s.current) > 0;
    forall r | 0 <= r < |s.readers| ensures s.readers[r] in s.versions {
      CountOf(s.readers, r);
      assert Holders(s, s.readers[r]) > 0;
    }
  }

  /** What a deletion of obsolete files removes is in no version that is held, not pending, and not doubtful. */
  lemma DeletedAreUnneeded(tables: set<nat>, nextFile: nat, states: seq<State>, steps: seq<Step>, i: nat, n: nat)
    requires Run(tables, nextFile, states, steps) && i < |steps| && steps[i] == DeleteObsolete
    requires n in states[i].disk && n !in states[i + 1].disk
    ensures !IsNeeded(states[i], n) && n !in states[i].pending && !states[i].bgError
  {
    var s, s' := states[i], states[i + 1];
    assert Steps(s, steps[i], s');
    if IsNeeded(s, n) {
      NeededTablesAreThere(tables, nextFile, states, steps, i + 1, n);
    }
  }

  /** Every version in the list is held by somebody. */
  ghost predicate AllHeld(s: State) {
    forall v :: v in s.versions ==> s.versions[v].refs > 0
  }

  lemma StaysHeld(s: State, step: Step, s': State)
    requires AllHeld(s) && Steps(s, step, s')
    ensures AllHeld(s')
  {
  }

  lemma {:induction false} RunAllHeld(tables: set<nat>, nextFile: nat, states: seq<State>, steps: seq<Step>, i: nat)
    requires Run(tables, nextFile, states, steps) && i < |states|
    ensures AllHeld(states[i])
    decreases i
  {
    if i == 0 {
    } else {
      RunAllHeld(tables, nextFile, states, steps, i - 1);
      assert Steps(states[i - 1], steps[i - 1], states[i - 1 + 1]);
      StaysHeld(states[i - 1], steps[i - 1], states[i]);
    }
  }

  /** What a deletion leaves, without a background error, is pending or in a version that somebody holds. */
  lemma DeletionIsThorough(tables: set<nat>, nextFile: nat, states: seq<State>, steps: seq<Step>, i: nat, n: nat)
    requires Run(tables, nextFile, states, steps) && i < |steps| && steps[i] == DeleteObsolete
    requires !states[i].bgError && n in states[i + 1].disk
    ensures var s := states[i + 1];
            n in s.pending || exists v :: v in s.versions && n in s.versions[v].files && Holders(s, v) > 0
  {
    assert Steps(states[i], steps[i], states[i + 1]);
    RunKeeps(tables, nextFile, states, steps, i + 1);
    RunAllHeld(tables, nextFile, states, steps, i + 1);
    var s := states[i + 1];
    if n !in s.pending {
      var v :| v in s.versions && n in s.versions[v].files;
      assert s.versions[v].refs == Holders(s, v);
    }
  }

  /** Installing a compaction leaves none of its inputs in the current version, adds its outputs, and keeps the rest. */
  lemma InstallReplaces(tables: set<nat>, nextFile: nat, states: seq<State>, steps: seq<Step>, i: nat, n: nat)
    requires Run(tables, nextFile, states, steps) && i < |steps| && steps[i] == EndInstall(true)
    ensures var s, s' := states[i], states[i + 1];
            && s.compaction.Replacing? && s.current in s.versions && s'.current in s'.versions
            && (n in s.compaction.inputs ==> n !in CurrentFiles(s'))
            && (n in s.compaction.outputs ==> n in CurrentFiles(s'))
            && (n !in s.compaction.inputs + s.compaction.outputs ==> (n in CurrentFiles(s') <==> n in CurrentFiles(s)))
  {
    RunKeeps(tables, nextFile, states, steps, i);
    assert Steps(states[i], steps[i], states[i + 1]);
    InputsAreApart(states[i]);
  }

  lemma InputsAreApart(s: State)
    requires Inv(s) && s.compaction.Replacing?
    ensures s.compaction.inputs !! s.compaction.outputs
  {
    assert Apart(s, s.versions[s.compaction.base].files);
  }

  /** A step in which building, adding or moving a table, or writing an edit, fails. */
  predicate Fails(step: Step) {
    match step
    case EndBuild(ok, _) => !ok
    case EndFlush(ok) => !ok
    case EndInstall(ok) => !ok
    case MoveTable(ok) => !ok
    case Abandon => true
    case _ => false
  }

  lemma ErrorStays(s: State, step: Step, s': State)
    requires Steps(s, step, s') && (s.bgError || Fails(step))
    ensures s'.bgError
  {
  }

  /** From a failure on there is a background error, and no table is deleted as obsolete any more. */
  lemma {:induction false} FailureStopsDeletion(tables: set<nat>, nextFile: nat, states: seq<State>, steps: seq<Step>,
                                                i: nat, j: nat)
    requires Run(tables, nextFile, states, steps) && i < j < |states| && Fails(steps[i])
    ensures states[j].bgError
    ensures j < |steps| && steps[j] == DeleteObsolete ==> states[j + 1].disk == states[j].disk
    decreases j
  {
    assert Steps(states[j - 1], steps[j - 1], states[j - 1 + 1]);
    if j > i + 1 {
      FailureStopsDeletion(tables, nextFile, states, steps, i, j - 1);
    }
    ErrorStays(states[j - 1], steps[j - 1], states[j]);
    if j < |steps| && steps[j] == DeleteObsolete {
      assert Steps(states[j], steps[j], states[j + 1]);
    }
  }

  /** The method that deletes files removes just the tables that the machine's step removes. */
  lemma MethodDeletesTheseTables(s: State, s': State, files: set<D.FileName>, files': set<D.FileName>, need: D.Needed)
    requires Steps(s, DeleteObsolete, s') && need.live == LiveTables(s)
    requires files' == if s.bgError then files else set f | f in files && D.Keeps(need, f)
    requires forall n :: n in s.disk <==> D.Named(n, D.TableFile) in files
    ensures forall n :: n in s'.disk <==> D.Named(n, D.TableFile) in files'
  {
  }
}
