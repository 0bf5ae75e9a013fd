/**
 * CURRENT and the MANIFEST files: creating a database, opening it again and again,
 * with crashes in between, and deleting obsolete files while it is open.
 */
module ManifestFiles {
  import opened Wrappers
  import opened DbFiles

  const CURRENT: FileName := Named(0, CurrentFile)

  function Manifest(n: nat): FileName { Named(n, DescriptorFile) }

  /** A database that is being opened has read the MANIFEST, and goes on with that one or with a new one. */
  datatype Phase = Closed | Recovered(manifest: nat, reused: bool) | Opened(manifest: nat)

  /** `current` is the number that CURRENT names, `nextFile` the next file number that its MANIFEST records. */
  datatype State = State(files: set<FileName>, current: Option<nat>, nextFile: nat, phase: Phase)

  datatype Step =
    | NewDB(written: bool, named: bool)
    | Recover(reuse: bool)
    | SaveManifest(written: bool, named: bool, nextFile: nat)
    | GoOn(nextFile: nat)        // with the MANIFEST that is there
    | LogEdit(nextFile: nat)
    | DeleteObsolete(need: Needed)
    | OtherFiles(files: set<FileName>)
    | Stop(created: bool)        // the database is closed, opening it fails, or the process dies

  /** Only files that are neither CURRENT nor a MANIFEST come or go. */
  ghost predicate SameManifests(files: set<FileName>, files': set<FileName>) {
    && (CURRENT in files <==> CURRENT in files')
    && (forall n: nat {:trigger Manifest(n)} :: Manifest(n) in files <==> Manifest(n) in files')
  }

  ghost predicate Steps(s: State, step: Step, s': State) {
    match step
    case NewDB(written, named) =>
      && s.phase.Closed? && s.current.None?
      && s' == if !written then s.(files := s.files - {Manifest(1)})
               else if !named then s.(files := s.files + {Manifest(1)})
               else State(s.files + {Manifest(1), CURRENT}, Some(1), 2, Closed)
    case Recover(reuse) =>
      && s.phase.Closed? && s.current.Some? && Manifest(s.current.value) in s.files
      && s' == s.(phase := if reuse then Recovered(s.current.value, true) else Recovered(s.nextFile, false))
    case SaveManifest(written, named, nextFile) =>
      && s.phase.Recovered? && !s.phase.reused && s.phase.manifest < nextFile
      && var m := s.phase.manifest;
         s' == if written && named then State(s.files + {Manifest(m), CURRENT}, Some(m), nextFile, Opened(m))
               else s.(files := s.files - {Manifest(m)}, phase := Closed)
    case GoOn(nextFile) =>
      && s.phase.Recovered? && s.phase.reused && s.nextFile <= nextFile
      && s' == s.(nextFile := nextFile, phase := Opened(s.phase.manifest))
    case LogEdit(nextFile) =>
      s.phase.Opened? && s.nextFile <= nextFile && s' == s.(nextFile := nextFile)
    case DeleteObsolete(need) =>
      && s.phase.Opened? && need.manifestNumber == s.phase.manifest
      && s' == s.(files := set f | f in s.files && Keeps(need, f))
    case OtherFiles(files) =>
      SameManifests(s.files, files) && s' == s.(files := files)
    case Stop(created) =>
      && (created ==> s.phase.Recovered? && !s.phase.reused)
      && s' == s.(phase := Closed, files := s.files + if created then {Manifest(s.phase.manifest)} else {})
  }

  /** A run from a directory that holds no database yet. */
  ghost predicate Run(files: set<FileName>, states: seq<State>, steps: seq<Step>) {
    && |states| == |steps| + 1 && CURRENT !in files && states[0] == State(files, None, 0, Closed)
    && forall i {:trigger steps[i]} :: 0 <= i < |steps| ==> Steps(states[i], steps[i], states[i + 1])
  }

  ghost predicate Inv(s: State) {
    && (s.current.Some? <==> CURRENT in s.files)
    && (s.current.Some? ==> Manifest(s.current.value) in s.files && s.current.value < s.nextFile)
    && match s.phase
       case Closed => true
       case Recovered(m, reused) => s.current.Some? && m == if reused then s.current.value else s.nextFile
       case Opened(m) => s.current == Some(m)
  }

  lemma StepKeeps(s: State, step: Step, s': State)
    requires Inv(s) && Steps(s, step, s')
    ensures Inv(s') && (s.current.Some? ==> s'.current.Some?)
  {
  }

  lemma {:induction false} RunKeeps(files: set<FileName>, states: seq<State>, steps: seq<Step>, i: nat)
    requires Run(files, states, steps) && i < |states|
    ensures Inv(states[i])
    decreases i
  {
    if i == 0 {
    } else {
      RunKeeps(files, states, steps, i - 1);
      StepKeeps(states[i - 1], steps[i - 1], states[i - 1 + 1]);
    }
  }

  /**
   * At every moment, also in the middle of opening and after a crash, CURRENT is
   * there once a database has been created, and so is the MANIFEST that it names:
   * the database can be opened.
   */
  lemma ManifestIsThere(files: set<FileName>, states: seq<State>, steps: seq<Step>, i: nat)
    requires Run(files, states, steps) && i < |states| && states[i].current.Some?
    ensures Named(0, CurrentFile) in states[i].files
    ensures Named(states[i].current.value, DescriptorFile) in states[i].files
  {
    RunKeeps(files, states, steps, i);
  }

  /** So a database that was created and is not open can be opened, with that MANIFEST or with a new one. */
  lemma CanBeOpened(files: set<FileName>, states: seq<State>, steps: seq<Step>, i: nat, reuse: bool)
    returns (s': State)
    requires Run(files, states, steps) && i < |states| && states[i].current.Some? && states[i].phase.Closed?
    ensures Steps(states[i], Recover(reuse), s')
    ensures s'.phase.manifest == if reuse then states[i].current.value else states[i].nextFile
  {
    ManifestIsThere(files, states, steps, i);
    var s := states[i];
    s' := s.(phase := if reuse then Recovered(s.current.value, true) else Recovered(s.nextFile, false));
  }

  /**
   * After a deletion everything that opening the database reads is still there, as
   * far as it was there before: CURRENT, the MANIFEST it names, the logs to replay
   * and the tables.  Older MANIFESTs and logs are gone.
   */
  lemma OpenFindsItsFiles(files: set<FileName>, states: seq<State>, steps: seq<Step>, i: nat, need: Needed)
    requires Run(files, states, steps) && i < |steps| && steps[i] == DeleteObsolete(need)
    ensures var s, s' := states[i], states[i + 1];
            && s'.current == s.current == Some(need.manifestNumber)
            && Named(0, CurrentFile) in s'.files && Named(s.current.value, DescriptorFile) in s'.files
            && (forall n: nat :: Named(n, DescriptorFile) in s'.files ==> n >= s.current.value)
            && (forall n: nat :: Named(n, LogFile) in s'.files <==>
                  Named(n, LogFile) in s.files && (n >= need.logNumber || n == need.prevLogNumber))
            && (forall n: nat :: Named(n, TableFile) in s'.files <==> Named(n, TableFile) in s.files && n in need.live)
  {
    RunKeeps(files, states, steps, i);
    assert Steps(states[i], steps[i], states[i + 1]);
    ManifestIsThere(files, states, steps, i + 1);
  }
}
