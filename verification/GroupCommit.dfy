/**
 * The writer queue: the writer at the front commits a group of waiting writers
 * with one log record.  The first part is the protocol as a state machine over
 * its atomic steps; the second is the group's construction and completion as
 * methods on the queue.
 */
module GroupCommit {
  import opened Operations

  /** A call of Write; a null batch only asks for a new memtable. */
  datatype Request = Request(isNull: bool, batch: Batch, sync: bool)

  type ByteSize = Batch -> nat

  // ---------- The group a leader commits ----------

  const SMALL_WRITE: nat := 0x2_0000
  const LARGEST_GROUP: nat := 0x10_0000

  /** Bytes of the batches among the first `n` requests. */
  function GroupBytes(size: ByteSize, reqs: seq<Request>, n: nat): nat
    requires n <= |reqs|
  {
    if n == 0 then 0
    else GroupBytes(size, reqs, n - 1) + if reqs[n - 1].isNull then 0 else size(reqs[n - 1].batch)
  }

  function MaxGroupBytes(size: ByteSize, first: Batch): nat {
    if size(first) <= SMALL_WRITE then size(first) + SMALL_WRITE else LARGEST_GROUP
  }

  /** Request `i` may follow the leader into its group. */
  predicate Joins(size: ByteSize, reqs: seq<Request>, i: nat)
    requires 0 < i < |reqs|
  {
    && (reqs[i].sync ==> reqs[0].sync)
    && (reqs[i].isNull || GroupBytes(size, reqs, i + 1) <= MaxGroupBytes(size, reqs[0].batch))
  }

  /** The group is the longest run of requests that may all join. */
  ghost predicate IsGroup(size: ByteSize, reqs: seq<Request>, n: nat) {
    && 0 < n <= |reqs|
    && (forall i :: 0 < i < n ==> Joins(size, reqs, i))
    && (n < |reqs| ==> !Joins(size, reqs, n))
  }

  lemma GroupIsUnique(size: ByteSize, reqs: seq<Request>, n: nat, m: nat)
    requires IsGroup(size, reqs, n) && IsGroup(size, reqs, m)
    ensures n == m
  {
  }

  /** The operations of requests `lo` to `hi`, in order. */
  function Ops(reqs: seq<Request>, lo: nat, hi: nat): Batch
    requires lo <= hi <= |reqs|
    decreases hi
  {
    if lo == hi then []
    else Ops(reqs, lo, hi - 1) + if reqs[hi - 1].isNull then [] else reqs[hi - 1].batch
  }

  lemma {:induction false} OpsSplit(reqs: seq<Request>, lo: nat, mid: nat, hi: nat)
    requires lo <= mid <= hi <= |reqs|
    ensures Ops(reqs, lo, hi) == Ops(reqs, lo, mid) + Ops(reqs, mid, hi)
    decreases hi
  {
    if mid == hi {
    } else {
      OpsSplit(reqs, lo, mid, hi - 1);
      OpsUnfolds(reqs, lo, hi);
      OpsUnfolds(reqs, mid, hi);
      JoinsAssociate(Ops(reqs, lo, mid), Ops(reqs, mid, hi - 1), OwnOps(reqs[hi - 1]));
    }
  }

  function OwnOps(req: Request): Batch {
    if req.isNull then [] else req.batch
  }

  lemma OpsUnfolds(reqs: seq<Request>, lo: nat, hi: nat)
    requires lo < hi <= |reqs|
    ensures Ops(reqs, lo, hi) == Ops(reqs, lo, hi - 1) + OwnOps(reqs[hi - 1])
  {
  }

  lemma JoinsAssociate(a: Batch, b: Batch, c: Batch)
    ensures (a + b) + c == a + (b + c)
  {
  }

  lemma {:induction false} OpsStay(reqs: seq<Request>, more: seq<Request>, lo: nat, hi: nat)
    requires lo <= hi <= |reqs|
    ensures Ops(reqs + more, lo, hi) == Ops(reqs, lo, hi)
    decreases hi
  {
    if lo == hi {
    } else {
      OpsStay(reqs, more, lo, hi - 1);
    }
  }

  lemma {:induction false} OpsShift(reqs: seq<Request>, from: nat, n: nat)
    requires from + n <= |reqs|
    ensures Ops(reqs[from..], 0, n) == Ops(reqs, from, from + n)
    decreases n
  {
    if n == 0 {
    } else {
      OpsShift(reqs, from, n - 1);
    }
  }

  // ---------- The protocol ----------

  datatype Status = Ok | Error

  /** How far a leader has come with its group; the mutex is released until it finishes. */
  datatype Stage = ToAppend | ToSync | ToInsert | ToFinish(status: Status, syncFailed: bool)

  /** What a call of Write is doing. */
  datatype Phase =
    | Waiting(signalled: bool)
    | MakingRoom
    | Committing(size: nat, stage: Stage)
    | Done(status: Status)

  /**
   * One log record: the calls `lo` to `hi`, numbered from `base`.  It is sound if
   * this and every earlier append to its file left the writer in its place.
   */
  datatype Record = Record(lo: nat, hi: nat, base: nat, ops: Batch, sound: bool)

  /**
   * An attempt to append a record to the current log file: whether it was
   * reported as appended, and whether it left the writer's block offset at the
   * end of the file, behind a whole trailer.
   */
  datatype Attempt = Attempt(record: Record, ok: bool, inPlace: bool)

  predicate AllInPlace(attempts: seq<Attempt>) {
    forall i :: 0 <= i < |attempts| ==> attempts[i].inPlace
  }

  /**
   * Calls are numbered in the order in which they joined the queue.  The last
   * fields only observe: the calls whose batch an error kept out of the log,
   * and whether anything ever failed.
   */
  datatype State = State(
    calls: seq<Request>,
    phase: seq<Phase>,
    queue: seq<nat>,
    log: seq<Record>,       // records of all log files, oldest first
    fileStart: nat,         // the first record in the current log file
    attempts: seq<Attempt>, // what was appended to that file, or tried to be
    synced: set<nat>,       // records covered by a successful Sync
    inserted: set<nat>,     // records applied to the memtable
    lastSequence: nat,
    bgError: bool,
    refused: set<nat>,
    failed: bool
  )

  function Initial(lastSequence: nat): State {
    State([], [], [], [], 0, [], {}, {}, lastSequence, false, {}, false)
  }

  /** The number of calls that have left the queue. */
  function Head(s: State): int {
    |s.calls| - |s.queue|
  }

  datatype Step =
    | Arrive(request: Request)
    | Wake(id: nat)             // a signal or a spurious wake-up
    | SwitchLog                 // the leader starts a new log and memtable
    | NoRoom                    // the leader finds a background error, or cannot create a log
    | HaveRoom                  // the leader goes on, with a group if it has a batch
    | Append(ok: bool, inPlace: bool)
    | Sync(ok: bool)
    | Insert(ok: bool)
    | Finish
    | BackgroundError

  /** Removing the first `n` writers from the queue with a status; the next writer is signalled. */
  ghost predicate Popped(s: State, n: nat, status: Status, s': State) {
    && 0 < n <= |s.queue|
    && s'.queue == s.queue[n..]
    && |s'.phase| == |s.phase|
    && forall id {:trigger s'.phase[id]} :: 0 <= id < |s.phase| ==>
         s'.phase[id] ==
           if id in s.queue[..n] then Done(status)
           else if s'.queue != [] && id == s'.queue[0] && s.phase[id].Waiting? then Waiting(true)
           else s.phase[id]
  }

  ghost predicate LeaderIs(s: State, phase: Phase) {
    s.queue != [] && s.queue[0] < |s.phase| && s.phase[s.queue[0]] == phase
  }

  /** The leader moves on within its commit; everything else about the calls stays. */
  function Advanced(s: State, stage: Stage): State
    requires s.queue != [] && s.queue[0] < |s.phase| && s.phase[s.queue[0]].Committing?
  {
    s.(phase := s.phase[s.queue[0] := s.phase[s.queue[0]].(stage := stage)])
  }

  ghost predicate AtStage(s: State, stage: Stage) {
    && s.queue != [] && s.queue[0] < |s.phase|
    && s.phase[s.queue[0]].Committing? && s.phase[s.queue[0]].stage == stage
  }

  predicate AtOrAfter(from: nat, r: nat) { from <= r }

  /** The records of a log file that starts at record `from`. */
  function RecordsFrom(log: seq<Record>, from: nat): set<nat> {
    set r: nat | r < |log| && AtOrAfter(from, r)
  }

  /** The requests now in the queue. */
  function Queued(s: State): seq<Request>
    requires forall i :: 0 <= i < |s.queue| ==> s.queue[i] < |s.calls|
  {
    seq(|s.queue|, i requires 0 <= i < |s.queue| => s.calls[s.queue[i]])
  }

  ghost predicate QueueInCalls(s: State) {
    |s.phase| == |s.calls| && forall i :: 0 <= i < |s.queue| ==> s.queue[i] < |s.calls|
  }

  function GroupOps(s: State, size: nat): Batch
    requires forall i :: 0 <= i < |s.queue| ==> s.queue[i] < |s.calls|
    requires size <= |s.queue|
  {
    Ops(Queued(s), 0, size)
  }

  function Front(queue: seq<nat>, n: nat): set<nat>
    requires n <= |queue|
  {
    set i | 0 <= i < n :: queue[i]
  }

  ghost predicate Steps(bytes: ByteSize, s: State, step: Step, s': State) {
    QueueInCalls(s) &&
    match step
    case Arrive(request) =>
      var id := |s.calls|;
      s' == s.(calls := s.calls + [request], queue := s.queue + [id],
               phase := s.phase + [if s.queue == [] then MakingRoom else Waiting(false)])
    case Wake(id) =>
      && id < |s.phase| && s.phase[id].Waiting? && s.queue != []
      && s' == s.(phase := s.phase[id := if s.queue[0] == id then MakingRoom else Waiting(false)])
    case SwitchLog =>
      && LeaderIs(s, MakingRoom) && !s.bgError
      && s' == s.(fileStart := |s.log|, attempts := [])
    case NoRoom =>
      && LeaderIs(s, MakingRoom)
      && Popped(s, 1, Error, s')
      && s' == s.(queue := s'.queue, phase := s'.phase, failed := true,
                  refused := s.refused + {s.queue[0]})
    case HaveRoom =>
      && LeaderIs(s, MakingRoom) && !s.bgError
      && if s.calls[s.queue[0]].isNull then
           Popped(s, 1, Ok, s') && s' == s.(queue := s'.queue, phase := s'.phase)
         else
           exists size :: IsGroup(bytes, Queued(s), size)
             && s' == s.(phase := s.phase[s.queue[0] := Committing(size, ToAppend)])
    case Append(ok, inPlace) =>
      && AtStage(s, ToAppend) && s.phase[s.queue[0]].size <= |s.queue|
      && var leader, size := s.queue[0], s.phase[s.queue[0]].size;
         var sound := AllInPlace(s.attempts) && inPlace;
         var record := Record(leader, leader + size, s.lastSequence + 1, GroupOps(s, size), sound);
         var attempts := s.attempts + [Attempt(record, ok, inPlace)];
         if ok then
           var next := if s.calls[leader].sync then ToSync else ToInsert;
           s' == Advanced(s, next).(log := s.log + [record], attempts := attempts)
         else
           s' == Advanced(s, ToFinish(Error, false)).(failed := true,
             refused := s.refused + Front(s.queue, size), attempts := attempts)
    case Sync(ok) =>
      && AtStage(s, ToSync)
      && if ok then s' == Advanced(s, ToInsert).(synced := s.synced + RecordsFrom(s.log, s.fileStart))
         else s' == Advanced(s, ToFinish(Error, true)).(failed := true)
    case Insert(ok) =>
      && AtStage(s, ToInsert) && s.log != []
      && if ok then s' == Advanced(s, ToFinish(Ok, false)).(inserted := s.inserted + {|s.log| - 1})
         else s' == Advanced(s, ToFinish(Error, false)).(failed := true)
    case Finish =>
      && s.queue != [] && s.phase[s.queue[0]].Committing? && s.phase[s.queue[0]].stage.ToFinish?
      && s.phase[s.queue[0]].size <= |s.queue|
      && var p := s.phase[s.queue[0]];
         && Popped(s, p.size, p.stage.status, s')
         && s' == s.(queue := s'.queue, phase := s'.phase,
                     bgError := s.bgError || p.stage.syncFailed,
                     lastSequence := s.lastSequence + |GroupOps(s, p.size)|)
    case BackgroundError =>
      s' == s.(bgError := true, failed := true)
  }

  /** A run of the protocol from a database whose last sequence number was `start`. */
  ghost predicate Run(bytes: ByteSize, start: nat, states: seq<State>, steps: seq<Step>) {
    && |states| == |steps| + 1 && states[0] == Initial(start)
    && forall i {:trigger steps[i]} :: 0 <= i < |steps| ==> Steps(bytes, states[i], steps[i], states[i + 1])
  }

  // ---------- What every step keeps ----------

  predicate Leading(s: State) {
    0 <= Head(s) < |s.phase| && s.phase[Head(s)].Committing?
  }

  predicate Appended(s: State) {
    && Leading(s)
    && match s.phase[Head(s)].stage
       case ToAppend => false
       case ToFinish(_, _) => Head(s) !in s.refused
       case _ => true
  }

  /** The calls before this one have been dealt with: logged, refused, or null. */
  function Settled(s: State): int {
    if Leading(s) && s.phase[Head(s)].stage != ToAppend then Head(s) + s.phase[Head(s)].size else Head(s)
  }

  /** The queue holds the latest calls in order; only its head is active, and the head is never left asleep. */
  ghost predicate QueueInv(s: State) {
    && |s.phase| == |s.calls| && |s.queue| <= |s.calls|
    && (forall i {:trigger s.queue[i]} :: 0 <= i < |s.queue| ==> s.queue[i] == Head(s) + i)
    && (forall id {:trigger s.phase[id]} :: 0 <= id < |s.phase| ==>
          if id < Head(s) then s.phase[id].Done?
          else if id == Head(s) then !s.phase[id].Done? && s.phase[id] != Waiting(false)
          else s.phase[id].Waiting?)
  }

  /** What a leader knows about the group it has fixed. */
  ghost predicate GroupInv(s: State) {
    Leading(s) ==>
      var leader, size := Head(s), s.phase[Head(s)].size;
      && 0 < size && leader + size <= |s.calls| && !s.calls[leader].isNull
      && forall id :: leader <= id < leader + size ==> (s.calls[id].sync ==> s.calls[leader].sync)
  }

  /** The records hold disjoint runs of calls, in order, each with its calls' operations. */
  ghost predicate LogInv(s: State) {
    && Settled(s) <= |s.calls| && s.fileStart <= |s.log|
    && (forall i {:trigger s.log[i]} :: 0 <= i < |s.log| ==>
          && s.log[i].lo < s.log[i].hi <= Settled(s)
          && s.log[i].ops == Ops(s.calls, s.log[i].lo, s.log[i].hi))
    && (forall i, j {:trigger s.log[i], s.log[j]} :: 0 <= i < j < |s.log| ==> s.log[i].hi <= s.log[j].lo)
  }

  ghost predicate Logged(log: seq<Record>, id: int, r: int) {
    0 <= r < |log| && log[r].lo <= id < log[r].hi
  }

  ghost predicate InLog(log: seq<Record>, id: int) {
    exists r :: Logged(log, id, r)
  }

  /** Every settled batch is in the log, unless an error kept it out. */
  ghost predicate PlacedInv(s: State) {
    && (forall id :: id in s.refused ==> id < Settled(s))
    && (forall id {:trigger s.calls[id]} :: 0 <= id < Settled(s) && id < |s.calls| && !s.calls[id].isNull ==>
          (id in s.refused <==> !InLog(s.log, id)))
    && (!s.failed ==> s.refused == {})
  }

  /** The leader's record is the last one, in the current file, and synced once its Sync has succeeded. */
  ghost predicate LeaderInv(s: State) {
    Appended(s) ==>
      && s.fileStart < |s.log|
      && var r, leader, p := s.log[|s.log| - 1], Head(s), s.phase[Head(s)];
         && r.lo == leader && r.hi == leader + p.size && r.base == s.lastSequence + 1
         && (leader < |s.calls| && s.calls[leader].sync
               && (p.stage.ToInsert? || (p.stage.ToFinish? && p.stage.status.Ok?))
             ==> |s.log| - 1 in s.synced)
         && (p.stage.ToFinish? && p.stage.status.Ok? ==> |s.log| - 1 in s.inserted)
  }

  ghost predicate FinishInv(s: State) {
    Leading(s) && s.phase[Head(s)].stage.ToFinish? && s.phase[Head(s)].stage.status.Ok? ==> Appended(s)
  }

  /** Call `id` is in a record that is in the memtable, and synced if it asked for that. */
  ghost predicate Recorded(s: State, id: int, sync: bool) {
    exists r :: Logged(s.log, id, r) && r in s.inserted && (sync ==> r in s.synced)
  }

  ghost predicate DoneInv(s: State) {
    forall id {:trigger s.phase[id]} ::
      0 <= id < |s.phase| && id < |s.calls| && s.phase[id] == Done(Ok) && !s.calls[id].isNull ==>
        Recorded(s, id, s.calls[id].sync)
  }

  /** All operations in the log, in order. */
  function LogOps(log: seq<Record>): Batch {
    if log == [] then [] else LogOps(log[..|log| - 1]) + log[|log| - 1].ops
  }

  /** Without errors the log is the settled batches in arrival order, numbered consecutively from `start + 1`. */
  ghost predicate FifoInv(s: State, start: nat) {
    !s.failed ==>
      && 0 <= Settled(s) <= |s.calls|
      && LogOps(s.log) == Ops(s.calls, 0, Settled(s))
      && (forall i {:trigger s.log[i]} :: 0 <= i < |s.log| ==> s.log[i].base == start + 1 + |LogOps(s.log[..i])|)
      && (!Appended(s) ==> s.lastSequence == start + |LogOps(s.log)|)
  }

  ghost predicate Inv(s: State, start: nat) {
    && QueueInv(s) && GroupInv(s) && LogInv(s) && PlacedInv(s)
    && LeaderInv(s) && FinishInv(s) && DoneInv(s) && FifoInv(s, start)
  }

  // ---------- Each step, one invariant at a time ----------

  /** Steps that only add a call, wake one, or note something about files and errors. */
  ghost predicate Quiet(s: State, s': State) {
    && s.calls <= s'.calls
    && |s.phase| <= |s'.phase| && Head(s') == Head(s) && (Leading(s) <==> Leading(s'))
    && (Leading(s) ==> s'.phase[Head(s)] == s.phase[Head(s)])
    && (forall id {:trigger s'.phase[id]} :: 0 <= id < Head(s) && id < |s.phase| ==> s'.phase[id] == s.phase[id])
    && s'.log == s.log && s'.refused == s.refused && s'.lastSequence == s.lastSequence
    && s'.synced == s.synced && s'.inserted == s.inserted
    && s'.fileStart <= |s.log| && (Leading(s) ==> s'.fileStart == s.fileStart)
    && (s.failed ==> s'.failed)
  }

  lemma QuietFacts(s: State, s': State)
    requires QueueInv(s) && Quiet(s, s') && QueueInv(s')
    ensures Settled(s') == Settled(s) && (Appended(s) <==> Appended(s'))
    ensures forall id {:trigger s'.calls[id]} :: 0 <= id < |s.calls| ==> s'.calls[id] == s.calls[id]
  {
  }

  lemma OpsOfPrefix(calls: seq<Request>, calls': seq<Request>, lo: nat, hi: nat)
    requires calls <= calls' && lo <= hi <= |calls|
    ensures Ops(calls', lo, hi) == Ops(calls, lo, hi)
  {
    OpsStay(calls, calls'[|calls|..], lo, hi);
    assert calls + calls'[|calls|..] == calls';
  }

  lemma QuietLog(s: State, s': State)
    requires QueueInv(s) && Quiet(s, s') && QueueInv(s') && LogInv(s)
    ensures LogInv(s')
  {
    QuietFacts(s, s');
    forall i | 0 <= i < |s'.log|
      ensures s'.log[i].hi <= |s.calls| && s'.log[i].lo <= s'.log[i].hi
                && s'.log[i].ops == Ops(s'.calls, s'.log[i].lo, s'.log[i].hi)
    {
      OpsOfPrefix(s.calls, s'.calls, s.log[i].lo, s.log[i].hi);
    }
  }

  lemma QuietPlaced(s: State, s': State)
    requires QueueInv(s) && Quiet(s, s') && QueueInv(s') && Settled(s) <= |s.calls| && PlacedInv(s)
    ensures PlacedInv(s')
  {
    QuietFacts(s, s');
  }

  lemma QuietLeader(s: State, s': State)
    requires QueueInv(s) && Quiet(s, s') && QueueInv(s') && GroupInv(s) && LeaderInv(s) && FinishInv(s)
    ensures GroupInv(s') && LeaderInv(s') && FinishInv(s')
  {
    QuietFacts(s, s');
  }

  lemma QuietDone(s: State, s': State)
    requires QueueInv(s) && Quiet(s, s') && QueueInv(s') && DoneInv(s)
    ensures DoneInv(s')
  {
    QuietFacts(s, s');
    forall id | 0 <= id < |s'.phase| && id < |s'.calls| && s'.phase[id] == Done(Ok) && !s'.calls[id].isNull
      ensures Recorded(s', id, s'.calls[id].sync)
    {
      assert s.phase[id] == Done(Ok) && Recorded(s, id, s.calls[id].sync);
    }
  }

  lemma QuietFifo(s: State, s': State, start: nat)
    requires QueueInv(s) && Quiet(s, s') && QueueInv(s') && FifoInv(s, start)
    ensures FifoInv(s', start)
  {
    QuietFacts(s, s');
    if !s.failed {
      OpsOfPrefix(s.calls, s'.calls, 0, Settled(s));
    }
  }

  lemma QuietKeeps(s: State, s': State, start: nat)
    requires Inv(s, start) && Quiet(s, s') && QueueInv(s')
    ensures Inv(s', start)
  {
    QuietLog(s, s');
    QuietPlaced(s, s');
    QuietLeader(s, s');
    QuietDone(s, s');
    QuietFifo(s, s', start);
  }

  // Forming a group

  lemma QueuedAre(s: State)
    requires QueueInv(s)
    ensures Queued(s) == s.calls[Head(s)..]
  {
    forall i | 0 <= i < |s.queue| ensures Queued(s)[i] == s.calls[Head(s)..][i] {
      assert s.queue[i] == Head(s) + i;
    }
  }

  lemma GroupOpsAre(s: State, size: nat)
    requires QueueInv(s) && size <= |s.queue|
    ensures GroupOps(s, size) == Ops(s.calls, Head(s), Head(s) + size)
  {
    QueuedAre(s);
    OpsShift(s.calls, Head(s), size);
  }

  lemma GroupSyncs(bytes: ByteSize, s: State, size: nat, id: nat)
    requires QueueInv(s) && IsGroup(bytes, Queued(s), size) && Head(s) <= id < Head(s) + size
    ensures s.calls[id].sync ==> s.calls[Head(s)].sync
  {
    QueuedAre(s);
    assert Queued(s)[id - Head(s)] == s.calls[id] && Queued(s)[0] == s.calls[Head(s)];
    assert id == Head(s) || Joins(bytes, Queued(s), id - Head(s));
  }

  lemma FormDone(s: State, s': State, phase: Phase)
    requires QueueInv(s) && DoneInv(s) && Head(s) < |s.calls|
    requires phase.Committing? && s' == s.(phase := s.phase[Head(s) := phase])
    ensures DoneInv(s')
  {
    forall id | 0 <= id < |s'.phase| && s'.phase[id] == Done(Ok) && !s'.calls[id].isNull
      ensures Recorded(s', id, s'.calls[id].sync)
    {
      assert s.phase[id] == Done(Ok) && Recorded(s, id, s.calls[id].sync);
    }
  }

  lemma FormKeeps(bytes: ByteSize, s: State, s': State, size: nat, start: nat)
    requires Inv(s, start) && LeaderIs(s, MakingRoom) && !s.calls[s.queue[0]].isNull
    requires IsGroup(bytes, Queued(s), size)
    requires s' == s.(phase := s.phase[s.queue[0] := Committing(size, ToAppend)])
    ensures Inv(s', start)
  {
    assert s.queue[0] == Head(s);
    forall id | Head(s) <= id < Head(s) + size ensures s.calls[id].sync ==> s.calls[Head(s)].sync {
      GroupSyncs(bytes, s, size, id);
    }
    assert Settled(s') == Settled(s) && !Appended(s) && !Appended(s');
    FormDone(s, s', Committing(size, ToAppend));
  }

  // Appending

  /** The leader has moved to `stage`. */
  ghost predicate Moved(s: State, stage: Stage, s': State) {
    && Leading(s) && s'.calls == s.calls && s'.queue == s.queue && s'.lastSequence == s.lastSequence
    && s'.fileStart == s.fileStart
    && s'.phase == s.phase[Head(s) := s.phase[Head(s)].(stage := stage)]
  }

  lemma MovedQueue(s: State, stage: Stage, s': State)
    requires QueueInv(s) && Moved(s, stage, s')
    ensures QueueInv(s') && Head(s') == Head(s) && Leading(s')
    ensures s'.phase[Head(s)].size == s.phase[Head(s)].size && s'.phase[Head(s)].stage == stage
  {
  }

  lemma MovedGroup(s: State, stage: Stage, s': State)
    requires QueueInv(s) && GroupInv(s) && Moved(s, stage, s')
    ensures GroupInv(s')
  {
    MovedQueue(s, stage, s');
  }

  lemma MovedDone(s: State, stage: Stage, s': State)
    requires QueueInv(s) && DoneInv(s) && Moved(s, stage, s')
    requires s.log <= s'.log && s.synced <= s'.synced && s.inserted <= s'.inserted
    ensures DoneInv(s')
  {
    forall id | 0 <= id < |s'.phase| && id < |s'.calls| && s'.phase[id] == Done(Ok) && !s'.calls[id].isNull
      ensures Recorded(s', id, s'.calls[id].sync)
    {
      assert s.phase[id] == Done(Ok) && Recorded(s, id, s.calls[id].sync);
      var r :| Logged(s.log, id, r) && r in s.inserted && (s.calls[id].sync ==> r in s.synced);
      assert Logged(s'.log, id, r);
    }
  }

  /** The step in which the leader's record is added to the log. */
  ghost predicate AppendedRecord(s: State, sound: bool, s': State) {
    && Leading(s) && s.phase[Head(s)].stage == ToAppend
    && s'.synced == s.synced && s'.inserted == s.inserted && s'.refused == s.refused && s'.failed == s.failed
    && var leader, size := Head(s), s.phase[Head(s)].size;
       && Moved(s, if leader < |s.calls| && s.calls[leader].sync then ToSync else ToInsert, s')
       && leader + size <= |s.calls|
       && s'.log == s.log + [Record(leader, leader + size, s.lastSequence + 1, Ops(s.calls, leader, leader
         + size), sound)]
  }

  lemma AppendLog(s: State, sound: bool, s': State)
    requires QueueInv(s) && GroupInv(s) && LogInv(s) && AppendedRecord(s, sound, s')
    ensures LogInv(s')
  {
    assert Settled(s') == Head(s) + s.phase[Head(s)].size;
    forall i | 0 <= i < |s.log| ensures s'.log[i] == s.log[i] && s.log[i].hi <= Head(s) {}
  }

  lemma AppendPlaced(s: State, sound: bool, s': State)
    requires QueueInv(s) && GroupInv(s) && LogInv(s) && PlacedInv(s) && AppendedRecord(s, sound, s')
    ensures PlacedInv(s')
  {
    var leader, size := Head(s), s.phase[Head(s)].size;
    assert Settled(s) == leader && Settled(s') == leader + size;
    forall id | 0 <= id < leader + size ensures InLog(s'.log, id) <==> InLog(s.log, id) || leader <= id {
      if leader <= id {
        assert Logged(s'.log, id, |s.log|);
      } else if InLog(s.log, id) {
        var r :| Logged(s.log, id, r);
        assert Logged(s'.log, id, r);
      } else if InLog(s'.log, id) {
        var r :| Logged(s'.log, id, r);
        assert r < |s.log| ==> Logged(s.log, id, r);
      }
    }
  }

  lemma LogOpsPrefix(log: seq<Record>, r: Record)
    ensures LogOps(log + [r]) == LogOps(log) + r.ops
  {
    assert (log + [r])[..|log|] == log;
  }

  lemma BaseStays(log: seq<Record>, r: Record, i: nat, start: nat)
    requires i < |log| && log[i].base == start + 1 + |LogOps(log[..i])|
    ensures (log + [r])[i].base == start + 1 + |LogOps((log + [r])[..i])|
  {
    assert (log + [r])[..i] == log[..i];
  }

  lemma AppendBases(s: State, sound: bool, s': State, start: nat)
    requires !s.failed && FifoInv(s, start) && AppendedRecord(s, sound, s') && !Appended(s)
    ensures forall i {:trigger s'.log[i]} :: 0 <= i < |s'.log| ==> s'.log[i].base == start + 1 + |LogOps(s'.log[..i])|
  {
    var r := s'.log[|s.log|];
    assert s'.log == s.log + [r];
    forall i {:trigger s'.log[i]} | 0 <= i < |s'.log| ensures s'.log[i].base == start + 1 + |LogOps(s'.log[..i])| {
      if i < |s.log| {
        assert s.log[i].base == start + 1 + |LogOps(s.log[..i])|;
        BaseStays(s.log, r, i, start);
      } else {
        assert s'.log[..i] == s.log;
      }
    }
  }

  lemma AppendFifo(s: State, sound: bool, s': State, start: nat)
    requires QueueInv(s) && GroupInv(s) && FifoInv(s, start) && AppendedRecord(s, sound, s')
    ensures FifoInv(s', start)
  {
    var leader, size := Head(s), s.phase[Head(s)].size;
    assert Settled(s) == leader && Settled(s') == leader + size && !Appended(s) && Appended(s');
    if !s.failed {
      LogOpsPrefix(s.log, s'.log[|s.log|]);
      OpsSplit(s.calls, 0, leader, leader + size);
      AppendBases(s, sound, s', start);
    }
  }

  lemma AppendKeeps(s: State, sound: bool, s': State, start: nat)
    requires Inv(s, start) && AppendedRecord(s, sound, s')
    ensures Inv(s', start)
  {
    var stage := s'.phase[Head(s)].stage;
    MovedQueue(s, stage, s');
    MovedGroup(s, stage, s');
    MovedDone(s, stage, s');
    AppendLog(s, sound, s');
    AppendPlaced(s, sound, s');
    AppendFifo(s, sound, s', start);
  }

  /** The step in which the leader's record could not be added. */
  ghost predicate AppendFailed(s: State, s': State) {
    && Leading(s) && s.phase[Head(s)].stage == ToAppend && Moved(s, ToFinish(Error, false), s')
    && s'.log == s.log && s'.synced == s.synced && s'.inserted == s.inserted && s'.failed
    && forall id :: id in s'.refused <==> id in s.refused || Head(s) <= id < Head(s) + s.phase[Head(s)].size
  }

  lemma AppendFailedKeeps(s: State, s': State, start: nat)
    requires Inv(s, start) && AppendFailed(s, s')
    ensures Inv(s', start)
  {
    MovedQueue(s, ToFinish(Error, false), s');
    MovedGroup(s, ToFinish(Error, false), s');
    MovedDone(s, ToFinish(Error, false), s');
    AppendFailedPlaced(s, s');
  }

  lemma AppendFailedPlaced(s: State, s': State)
    requires QueueInv(s) && GroupInv(s) && LogInv(s) && PlacedInv(s) && AppendFailed(s, s')
    ensures LogInv(s') && PlacedInv(s') && !Appended(s')
  {
    var leader, size := Head(s), s.phase[Head(s)].size;
    assert Settled(s) == leader && Settled(s') == leader + size;
    forall id | leader <= id ensures !InLog(s'.log, id) {}
  }

  // From the log to the memtable

  /** A leader whose record is in the log goes on. */
  ghost predicate Onward(s: State, stage: Stage, s': State) {
    && Leading(s) && (s.phase[Head(s)].stage == ToSync || s.phase[Head(s)].stage == ToInsert)
    && (stage == ToInsert || stage.ToFinish?)
    && Moved(s, stage, s')
    && s'.log == s.log && s'.refused == s.refused && (s.failed ==> s'.failed)
    && s.synced <= s'.synced && s.inserted <= s'.inserted
  }

  lemma OnwardFacts(s: State, stage: Stage, s': State)
    requires QueueInv(s) && GroupInv(s) && PlacedInv(s) && LeaderInv(s) && Onward(s, stage, s')
    ensures Appended(s) && Appended(s') && Settled(s') == Settled(s) && Head(s') == Head(s)
  {
    assert Logged(s.log, Head(s), |s.log| - 1);
  }

  lemma OnwardPlaced(s: State, stage: Stage, s': State)
    requires QueueInv(s) && LogInv(s) && PlacedInv(s) && Onward(s, stage, s') && Settled(s') == Settled(s)
    ensures LogInv(s') && PlacedInv(s')
  {
  }

  lemma OnwardFifo(s: State, stage: Stage, s': State, start: nat)
    requires QueueInv(s) && FifoInv(s, start) && Onward(s, stage, s') && Settled(s') == Settled(s) && Appended(s')
    ensures FifoInv(s', start)
  {
  }

  lemma OnwardKeeps(s: State, stage: Stage, s': State, start: nat)
    requires Inv(s, start) && Onward(s, stage, s') && LeaderInv(s')
    ensures Inv(s', start)
  {
    OnwardFacts(s, stage, s');
    MovedQueue(s, stage, s');
    MovedGroup(s, stage, s');
    MovedDone(s, stage, s');
    OnwardPlaced(s, stage, s');
    OnwardFifo(s, stage, s', start);
  }

  lemma SyncKeeps(s: State, s': State, start: nat)
    requires Inv(s, start) && Onward(s, ToInsert, s') && s'.inserted == s.inserted
    requires s'.synced == s.synced + RecordsFrom(s.log, s.fileStart)
    ensures Inv(s', start)
  {
    OnwardFacts(s, ToInsert, s');
    assert AtOrAfter(s.fileStart, |s.log| - 1);
    OnwardKeeps(s, ToInsert, s', start);
  }

  lemma InsertKeeps(s: State, s': State, start: nat)
    requires Inv(s, start) && s.log != [] && Onward(s, ToFinish(Ok, false), s') && s.phase[Head(s)].stage == ToInsert
    requires s'.inserted == s.inserted + {|s.log| - 1}
    ensures Inv(s', start)
  {
    OnwardFacts(s, ToFinish(Ok, false), s');
    OnwardKeeps(s, ToFinish(Ok, false), s', start);
  }

  lemma FailedKeeps(s: State, s': State, syncFailed: bool, start: nat)
    requires Inv(s, start) && Onward(s, ToFinish(Error, syncFailed), s')
    ensures Inv(s', start)
  {
    OnwardFacts(s, ToFinish(Error, syncFailed), s');
    OnwardKeeps(s, ToFinish(Error, syncFailed), s', start);
  }

  // Leaving the queue

  lemma PoppedQueue(s: State, n: nat, status: Status, s': State)
    requires QueueInv(s) && Popped(s, n, status, s') && s'.calls == s.calls
    ensures QueueInv(s') && Head(s') == Head(s) + n && !Leading(s')
    ensures forall id {:trigger s'.phase[id]} :: 0 <= id < |s.phase| && s'.phase[id].Done? ==>
              if id < Head(s) then s'.phase[id] == s.phase[id]
              else Head(s) <= id < Head(s) + n && s'.phase[id] == Done(status)
  {
    forall id | 0 <= id < |s.phase| ensures id in s.queue[..n] <==> Head(s) <= id < Head(s) + n {
      if Head(s) <= id < Head(s) + n {
        assert s.queue[..n][id - Head(s)] == s.queue[id - Head(s)] == id;
      }
    }
    forall i | 0 <= i < |s'.queue| ensures s'.queue[i] == Head(s') + i {
      assert s'.queue[i] == s.queue[n + i];
    }
  }

  /** The first `n` calls leave the queue; nothing is added to the log. */
  ghost predicate Leaves(s: State, n: nat, status: Status, s': State) {
    && Popped(s, n, status, s')
    && s'.calls == s.calls && s'.log == s.log && s'.fileStart == s.fileStart
    && s'.synced == s.synced && s'.inserted == s.inserted && (s.failed ==> s'.failed)
  }

  lemma LeavesDone(s: State, n: nat, status: Status, s': State)
    requires QueueInv(s) && DoneInv(s) && Leaves(s, n, status, s')
    requires status == Ok ==> forall id :: Head(s) <= id < Head(s) + n && !s.calls[id].isNull ==>
               Recorded(s, id, s.calls[id].sync)
    ensures DoneInv(s')
  {
    PoppedQueue(s, n, status, s');
    forall id | 0 <= id < |s'.phase| && s'.phase[id] == Done(Ok) && !s'.calls[id].isNull
      ensures Recorded(s', id, s'.calls[id].sync)
    {
      assert Recorded(s, id, s.calls[id].sync) by {
        if id < Head(s) { assert s.phase[id] == Done(Ok); }
      }
    }
  }

  lemma LeavesLog(s: State, n: nat, status: Status, s': State)
    requires QueueInv(s) && LogInv(s) && Leaves(s, n, status, s') && Head(s) + n >= Settled(s)
    ensures LogInv(s') && GroupInv(s') && LeaderInv(s') && FinishInv(s')
  {
    PoppedQueue(s, n, status, s');
  }

  lemma NoRoomPlaced(s: State, s': State)
    requires QueueInv(s) && LogInv(s) && PlacedInv(s) && !Leading(s) && Leaves(s, 1, Error, s') && s'.failed
    requires s'.refused == s.refused + {Head(s)}
    ensures PlacedInv(s')
  {
    PoppedQueue(s, 1, Error, s');
    assert !InLog(s.log, Head(s));
  }

  lemma NoRoomKeeps(s: State, s': State, start: nat)
    requires Inv(s, start) && LeaderIs(s, MakingRoom) && Leaves(s, 1, Error, s') && s'.failed
    requires s'.refused == s.refused + {Head(s)}
    ensures Inv(s', start)
  {
    assert s.queue[0] == Head(s);
    PoppedQueue(s, 1, Error, s');
    LeavesDone(s, 1, Error, s');
    LeavesLog(s, 1, Error, s');
    NoRoomPlaced(s, s');
  }

  lemma NullPlaced(s: State, s': State)
    requires QueueInv(s) && Head(s) < |s.calls| && s.calls[Head(s)].isNull && !Leading(s) && Leaves(s, 1, Ok, s')
    requires PlacedInv(s) && s'.refused == s.refused && s'.failed == s.failed
    ensures PlacedInv(s') && !Leading(s') && Settled(s') == Settled(s) + 1
  {
    PoppedQueue(s, 1, Ok, s');
  }

  lemma NullFifo(s: State, s': State, start: nat)
    requires FifoInv(s, start) && 0 <= Head(s) < |s.calls| && s.calls[Head(s)].isNull && !Leading(s)
    requires Leaves(s, 1, Ok, s')
    requires s'.lastSequence == s.lastSequence && s'.failed == s.failed
    requires !Leading(s') && Settled(s') == Settled(s) + 1
    ensures FifoInv(s', start)
  {
    OpsUnfolds(s.calls, 0, Head(s) + 1);
  }

  lemma NullDone(s: State, s': State)
    requires QueueInv(s) && DoneInv(s) && Head(s) < |s.calls| && s.calls[Head(s)].isNull && Leaves(s, 1, Ok, s')
    ensures DoneInv(s')
  {
    LeavesDone(s, 1, Ok, s');
  }

  lemma NullKeeps(s: State, s': State, start: nat)
    requires Inv(s, start) && !Leading(s) && Head(s) < |s.calls| && s.calls[Head(s)].isNull && Leaves(s, 1, Ok, s')
    requires s'.refused == s.refused && s'.lastSequence == s.lastSequence && s'.failed == s.failed
    ensures Inv(s', start)
  {
    PoppedQueue(s, 1, Ok, s');
    NullDone(s, s');
    LeavesLog(s, 1, Ok, s');
    NullPlaced(s, s');
    NullFifo(s, s', start);
  }

  /** The step in which a leader's group leaves with the leader's status. */
  ghost predicate Finished(s: State, s': State) {
    && Leading(s) && s.phase[Head(s)].stage.ToFinish?
    && var size := s.phase[Head(s)].size;
       && Leaves(s, size, s.phase[Head(s)].stage.status, s')
       && Head(s) + size <= |s.calls|
       && s'.lastSequence == s.lastSequence + |Ops(s.calls, Head(s), Head(s) + size)|
       && s'.refused == s.refused && s'.failed == s.failed
  }

  lemma FinishDone(s: State, s': State)
    requires QueueInv(s) && GroupInv(s) && LeaderInv(s) && FinishInv(s) && DoneInv(s) && Finished(s, s')
    ensures DoneInv(s')
  {
    var size, status := s.phase[Head(s)].size, s.phase[Head(s)].stage.status;
    if status == Ok {
      forall id | Head(s) <= id < Head(s) + size ensures Recorded(s, id, s.calls[id].sync) {
        assert Logged(s.log, id, |s.log| - 1);
      }
    }
    LeavesDone(s, size, status, s');
  }

  /** If the last record starts right after `lastSequence`, its operations end with the last number given out. */
  lemma LastNumber(log: seq<Record>, lastSequence: nat, start: nat)
    requires log != [] && log[|log| - 1].base == start + 1 + |LogOps(log[..|log| - 1])|
    requires log[|log| - 1].base == lastSequence + 1
    ensures lastSequence + |log[|log| - 1].ops| == start + |LogOps(log)|
  {
    LogOpsPrefix(log[..|log| - 1], log[|log| - 1]);
    assert log[..|log| - 1] + [log[|log| - 1]] == log;
  }

  /** The leader's record, at the end of the log. */
  lemma LeaderRecord(s: State)
    requires LogInv(s) && LeaderInv(s) && Appended(s)
    ensures s.log != []
    ensures var r, size := s.log[|s.log| - 1], s.phase[Head(s)].size;
            && r.base == s.lastSequence + 1 && Head(s) + size <= |s.calls|
            && r.ops == Ops(s.calls, Head(s), Head(s) + size)
  {
  }

  lemma FinishPlaced(s: State, s': State)
    requires QueueInv(s) && GroupInv(s) && PlacedInv(s) && Finished(s, s')
    ensures PlacedInv(s') && Settled(s') == Settled(s) && !Appended(s')
  {
    PoppedQueue(s, s.phase[Head(s)].size, s.phase[Head(s)].stage.status, s');
  }

  lemma FinishFifo(s: State, s': State, start: nat)
    requires LogInv(s) && LeaderInv(s) && FifoInv(s, start) && Finished(s, s')
    requires Settled(s') == Settled(s) && !Appended(s') && (!s.failed ==> s.refused == {})
    ensures FifoInv(s', start)
  {
    if !s.failed {
      assert Appended(s);
      LeaderRecord(s);
      LastNumber(s.log, s.lastSequence, start);
    }
  }

  lemma FinishKeeps(s: State, s': State, start: nat)
    requires Inv(s, start) && Finished(s, s')
    ensures Inv(s', start)
  {
    var size, status := s.phase[Head(s)].size, s.phase[Head(s)].stage.status;
    PoppedQueue(s, size, status, s');
    FinishDone(s, s');
    LeavesLog(s, size, status, s');
    FinishPlaced(s, s');
    FinishFifo(s, s', start);
  }

  // ---------- Runs ----------

  lemma QuietStepIsQuiet(bytes: ByteSize, s: State, step: Step, s': State)
    requires QueueInv(s) && s.fileStart <= |s.log| && Steps(bytes, s, step, s')
    requires step.Arrive? || step.Wake? || step.SwitchLog? || step.BackgroundError?
    ensures QueueInv(s') && Quiet(s, s')
  {
    assert s.queue != [] ==> s.queue[0] == Head(s);
  }

  lemma AppendStepIs(bytes: ByteSize, s: State, ok: bool, inPlace: bool, s': State)
    requires QueueInv(s) && Steps(bytes, s, Append(ok, inPlace), s')
    ensures if ok then AppendedRecord(s, AllInPlace(s.attempts) && inPlace, s') else AppendFailed(s, s')
  {
    assert s.queue[0] == Head(s);
    var size := s.phase[Head(s)].size;
    GroupOpsAre(s, size);
    forall id ensures id in Front(s.queue, size) <==> Head(s) <= id < Head(s) + size {
      if Head(s) <= id < Head(s) + size { assert s.queue[id - Head(s)] == id; }
    }
  }

  lemma FinishStepIs(bytes: ByteSize, s: State, s': State)
    requires QueueInv(s) && Steps(bytes, s, Finish, s')
    ensures Finished(s, s')
  {
    assert s.queue[0] == Head(s);
    GroupOpsAre(s, s.phase[Head(s)].size);
  }

  lemma OnwardStepKeeps(bytes: ByteSize, s: State, step: Step, s': State, start: nat)
    requires Inv(s, start) && Steps(bytes, s, step, s') && (step.Sync? || step.Insert?)
    ensures Inv(s', start)
  {
    assert s.queue[0] == Head(s);
    match step
    case Sync(ok) =>
      if ok { SyncKeeps(s, s', start); } else { FailedKeeps(s, s', true, start); }
    case Insert(ok) =>
      if ok { InsertKeeps(s, s', start); } else { FailedKeeps(s, s', false, start); }
  }

  lemma HaveRoomKeeps(bytes: ByteSize, s: State, s': State, start: nat)
    requires Inv(s, start) && Steps(bytes, s, HaveRoom, s')
    ensures Inv(s', start)
  {
    assert s.queue[0] == Head(s);
    if s.calls[s.queue[0]].isNull {
      NullKeeps(s, s', start);
    } else {
      var size :| IsGroup(bytes, Queued(s), size)
        && s' == s.(phase := s.phase[s.queue[0] := Committing(size, ToAppend)]);
      FormKeeps(bytes, s, s', size, start);
    }
  }

  lemma NoRoomStepKeeps(bytes: ByteSize, s: State, s': State, start: nat)
    requires Inv(s, start) && Steps(bytes, s, NoRoom, s')
    ensures Inv(s', start)
  {
    assert s.queue[0] == Head(s);
    NoRoomKeeps(s, s', start);
  }

  lemma AppendStepKeeps(bytes: ByteSize, s: State, ok: bool, inPlace: bool, s': State, start: nat)
    requires Inv(s, start) && Steps(bytes, s, Append(ok, inPlace), s')
    ensures Inv(s', start)
  {
    AppendStepIs(bytes, s, ok, inPlace, s');
    if ok {
      AppendKeeps(s, AllInPlace(s.attempts) && inPlace, s', start);
    } else {
      AppendFailedKeeps(s, s', start);
    }
  }

  lemma FinishStepKeeps(bytes: ByteSize, s: State, s': State, start: nat)
    requires Inv(s, start) && Steps(bytes, s, Finish, s')
    ensures Inv(s', start)
  {
    FinishStepIs(bytes, s, s');
    FinishKeeps(s, s', start);
  }

  lemma QuietStepKeeps(bytes: ByteSize, s: State, step: Step, s': State, start: nat)
    requires Inv(s, start) && Steps(bytes, s, step, s')
    requires step.Arrive? || step.Wake? || step.SwitchLog? || step.BackgroundError?
    ensures Inv(s', start)
  {
    QuietStepIsQuiet(bytes, s, step, s');
    QuietKeeps(s, s', start);
  }

  lemma StepKeeps(bytes: ByteSize, s: State, step: Step, s': State, start: nat)
    requires Inv(s, start) && Steps(bytes, s, step, s')
    ensures Inv(s', start)
  {
    match step
    case NoRoom => NoRoomStepKeeps(bytes, s, s', start);
    case HaveRoom => HaveRoomKeeps(bytes, s, s', start);
    case Append(ok, inPlace) => AppendStepKeeps(bytes, s, ok, inPlace, s', start);
    case Sync(_) => OnwardStepKeeps(bytes, s, step, s', start);
    case Insert(_) => OnwardStepKeeps(bytes, s, step, s', start);
    case Finish => FinishStepKeeps(bytes, s, s', start);
    case _ => QuietStepKeeps(bytes, s, step, s', start);
  }

  lemma {:induction false} RunKeeps(bytes: ByteSize, start: nat, states: seq<State>, steps: seq<Step>, i: nat)
    requires Run(bytes, start, states, steps) && i < |states|
    ensures Inv(states[i], start)
  {
    if i == 0 {
    } else {
      RunKeeps(bytes, start, states, steps, i - 1);
      assert Steps(bytes, states[i - 1], steps[i - 1], states[i - 1 + 1]);
      StepKeeps(bytes, states[i - 1], steps[i - 1], states[i], start);
    }
  }

  /**
   * Absent errors, at every moment of every run the log is the batches of the
   * settled calls in the order in which the calls joined the queue, their
   * operations are numbered consecutively, and each batch is in exactly one record.
   */
  lemma FifoLinearization(bytes: ByteSize, start: nat, states: seq<State>, steps: seq<Step>, i: nat)
    requires Run(bytes, start, states, steps) && i < |states| && !states[i].failed
    ensures var s := states[i];
            && 0 <= Head(s) <= Settled(s) <= |s.calls|
            && LogOps(s.log) == Ops(s.calls, 0, Settled(s))
            && (forall r :: 0 <= r < |s.log| ==> s.log[r].base == start + 1 + |LogOps(s.log[..r])|)
            && (!Leading(s) ==> s.lastSequence == start + |LogOps(s.log)|)
            && forall id :: 0 <= id < Settled(s) && !s.calls[id].isNull ==>
                 exists r :: Logged(s.log, id, r) && forall r' :: Logged(s.log, id, r') ==> r' == r
  {
    RunKeeps(bytes, start, states, steps, i);
    var s := states[i];
    forall id | 0 <= id < Settled(s) && !s.calls[id].isNull
      ensures exists r :: Logged(s.log, id, r) && forall r' :: Logged(s.log, id, r') ==> r' == r
    {
      assert InLog(s.log, id);
      var r :| Logged(s.log, id, r);
      forall r' | Logged(s.log, id, r') ensures r' == r {
        RecordsAreDisjoint(s, id, r, r');
      }
    }
  }

  /** Two records hold disjoint runs of calls. */
  lemma RecordsAreDisjoint(s: State, id: int, r: int, r': int)
    requires LogInv(s) && Logged(s.log, id, r) && Logged(s.log, id, r')
    ensures r == r'
  {
  }

  /**
   * Whatever fails, in every run a batch is in at most one record, and the
   * records' operations are those of their calls, in order.
   */
  lemma InOneRecord(bytes: ByteSize, start: nat, states: seq<State>, steps: seq<Step>, i: nat, id: int, r: int, r': int)
    requires Run(bytes, start, states, steps) && i < |states|
    requires Logged(states[i].log, id, r) && Logged(states[i].log, id, r')
    ensures r == r' && states[i].log[r].hi <= |states[i].calls|
    ensures states[i].log[r].ops == Ops(states[i].calls, states[i].log[r].lo, states[i].log[r].hi)
  {
    RunKeeps(bytes, start, states, steps, i);
    RecordsAreDisjoint(states[i], id, r, r');
  }

  /**
   * Whatever fails, a call that returned ok with a batch has it in a record that
   * was reported as appended and is in the memtable, and a sync call's record has
   * been covered by a Sync of its file.
   */
  lemma OkIsLogged(bytes: ByteSize, start: nat, states: seq<State>, steps: seq<Step>, i: nat, id: nat)
    requires Run(bytes, start, states, steps) && i < |states|
    requires id < |states[i].calls| && id < |states[i].phase| && states[i].phase[id] == Done(Ok)
    requires !states[i].calls[id].isNull
    ensures Recorded(states[i], id, states[i].calls[id].sync) && id !in states[i].refused
  {
    RunKeeps(bytes, start, states, steps, i);
    assert InLog(states[i].log, id);
  }

  /** The head of a non-empty queue is running or signalled, and nobody else in the queue is running. */
  lemma HeadIsAwake(bytes: ByteSize, start: nat, states: seq<State>, steps: seq<Step>, i: nat)
    requires Run(bytes, start, states, steps) && i < |states| && states[i].queue != []
    ensures var s := states[i];
            && s.queue[0] < |s.phase|
            && (|| s.phase[s.queue[0]] == Waiting(true)
                || s.phase[s.queue[0]].MakingRoom?
                || s.phase[s.queue[0]].Committing?)
            && forall k :: 0 < k < |s.queue| ==> s.queue[k] < |s.phase| && s.phase[s.queue[k]].Waiting?
  {
    RunKeeps(bytes, start, states, steps, i);
    assert states[i].queue[0] == Head(states[i]);
  }

  /** Once a background error is recorded and no commit is under way, the log never grows again. */
  lemma {:induction false} FailedForever(bytes: ByteSize, start: nat, states: seq<State>, steps: seq<Step>, i: nat,
                                         j: nat)
    requires Run(bytes, start, states, steps) && i <= j < |states|
    requires states[i].bgError && !Leading(states[i])
    ensures states[j].bgError && !Leading(states[j]) && states[j].log == states[i].log
    decreases j
  {
    if i == j {
    } else {
      FailedForever(bytes, start, states, steps, i, j - 1);
      RunKeeps(bytes, start, states, steps, j - 1);
      StuckStep(bytes, states[j - 1], steps[j - 1], states[j]);
    }
  }

  lemma StuckStep(bytes: ByteSize, s: State, step: Step, s': State)
    requires QueueInv(s) && s.fileStart <= |s.log| && Steps(bytes, s, step, s') && s.bgError && !Leading(s)
    ensures s'.bgError && !Leading(s') && s'.log == s.log
  {
    assert s.queue != [] ==> s.queue[0] == Head(s);
    match step
    case NoRoom =>
      assert Popped(s, 1, Error, s');
      PoppedQueue(s, 1, Error, s');
    case Arrive(_) =>
    case Wake(_) =>
    case BackgroundError =>
    case _ =>
      assert false;
  }

  // ---------- Nobody is stuck ----------

  /** There is always a group: the leader alone, extended while the next request may join. */
  lemma {:induction false} GroupExists(size: ByteSize, reqs: seq<Request>, n: nat) returns (m: nat)
    requires 0 < n <= |reqs| && forall i :: 0 < i < n ==> Joins(size, reqs, i)
    ensures IsGroup(size, reqs, m)
    decreases |reqs| - n
  {
    if n == |reqs| || !Joins(size, reqs, n) {
      m := n;
    } else {
      m := GroupExists(size, reqs, n + 1);
    }
  }

  /** The phases after the first `n` writers have left with a status. */
  function PhasesAfter(s: State, n: nat, status: Status): seq<Phase>
    requires n <= |s.queue|
  {
    seq(|s.phase|, id requires 0 <= id < |s.phase| =>
      if id in s.queue[..n] then Done(status)
      else if s.queue[n..] != [] && id == s.queue[n..][0] && s.phase[id].Waiting? then Waiting(true)
      else s.phase[id])
  }

  lemma PhasesAreAfter(s: State, n: nat, status: Status, s': State)
    requires 0 < n <= |s.queue| && s'.queue == s.queue[n..] && s'.phase == PhasesAfter(s, n, status)
    ensures Popped(s, n, status, s')
  {
  }

  /** The calls, as a step leaves them that lets the first `n` writers go. */
  function After(s: State, n: nat, status: Status): State
    requires n <= |s.queue|
  {
    s.(queue := s.queue[n..], phase := PhasesAfter(s, n, status))
  }

  /** A leader that has found room goes on, with or without a group. */
  lemma RoomLeadsOn(bytes: ByteSize, s: State) returns (s': State)
    requires QueueInv(s) && LeaderIs(s, MakingRoom) && !s.bgError
    ensures Steps(bytes, s, HaveRoom, s')
  {
    if s.calls[s.queue[0]].isNull {
      s' := After(s, 1, Ok);
      PhasesAreAfter(s, 1, Ok, s');
    } else {
      QueuedAre(s);
      var size := GroupExists(bytes, Queued(s), 1);
      s' := s.(phase := s.phase[s.queue[0] := Committing(size, ToAppend)]);
    }
  }

  lemma NoRoomLeadsOn(bytes: ByteSize, s: State) returns (s': State)
    requires QueueInv(s) && LeaderIs(s, MakingRoom)
    ensures Steps(bytes, s, NoRoom, s')
  {
    s' := After(s, 1, Error).(failed := true, refused := s.refused + {s.queue[0]});
    PhasesAreAfter(s, 1, Error, s');
  }

  lemma AppendLeadsOn(bytes: ByteSize, s: State, ok: bool, inPlace: bool) returns (s': State)
    requires QueueInv(s) && GroupInv(s) && Leading(s) && s.phase[Head(s)].stage == ToAppend
    ensures Steps(bytes, s, Append(ok, inPlace), s')
  {
    var leader, size := Head(s), s.phase[Head(s)].size;
    assert s.queue[0] == leader;
    var record := Record(leader, leader + size, s.lastSequence + 1, GroupOps(s, size), AllInPlace(s.attempts)
      && inPlace);
    s' := if ok then Advanced(s, if s.calls[leader].sync then ToSync else ToInsert).(log := s.log + [record])
          else Advanced(s, ToFinish(Error, false)).(failed := true, refused := s.refused + Front(s.queue, size));
    s' := s'.(attempts := s.attempts + [Attempt(record, ok, inPlace)]);
  }

  lemma FinishLeadsOn(bytes: ByteSize, s: State) returns (s': State)
    requires QueueInv(s) && GroupInv(s) && Leading(s) && s.phase[Head(s)].stage.ToFinish?
    ensures Steps(bytes, s, Finish, s')
  {
    var p := s.phase[Head(s)];
    assert s.queue[0] == Head(s);
    s' := After(s, p.size, p.stage.status).(bgError := s.bgError || p.stage.syncFailed,
                                            lastSequence := s.lastSequence + |GroupOps(s, p.size)|);
    PhasesAreAfter(s, p.size, p.stage.status, s');
  }

  lemma CommitLeadsOn(bytes: ByteSize, s: State, ok: bool, inPlace: bool) returns (step: Step, s': State)
    requires QueueInv(s) && GroupInv(s) && LeaderInv(s) && Leading(s)
    ensures Steps(bytes, s, step, s')
    ensures match s.phase[Head(s)].stage
            case ToAppend => step == Append(ok, inPlace)
            case ToSync => step == Sync(ok)
            case ToInsert => step == Insert(ok)
            case ToFinish(_, _) => step == Finish
  {
    assert s.queue[0] == Head(s);
    match s.phase[Head(s)].stage
    case ToAppend =>
      step := Append(ok, inPlace);
      s' := AppendLeadsOn(bytes, s, ok, inPlace);
    case ToSync =>
      step := Sync(ok);
      s' := if ok then Advanced(s, ToInsert).(synced := s.synced + RecordsFrom(s.log, s.fileStart))
            else Advanced(s, ToFinish(Error, true)).(failed := true);
    case ToInsert =>
      step := Insert(ok);
      s' := if ok then Advanced(s, ToFinish(Ok, false)).(inserted := s.inserted + {|s.log| - 1})
            else Advanced(s, ToFinish(Error, false)).(failed := true);
    case ToFinish(_, _) =>
      step := Finish;
      s' := FinishLeadsOn(bytes, s);
  }

  /** What the head of the queue does next, given how its file operation turns out. */
  ghost predicate HeadStep(s: State, step: Step, ok: bool, inPlace: bool)
    requires s.queue != [] && s.queue[0] < |s.phase|
  {
    match s.phase[s.queue[0]]
    case Waiting(_) => step == Wake(s.queue[0])
    case MakingRoom => step == if ok && !s.bgError then HaveRoom else NoRoom
    case Committing(_, ToAppend) => step == Append(ok, inPlace)
    case Committing(_, ToSync) => step == Sync(ok)
    case Committing(_, ToInsert) => step == Insert(ok)
    case Committing(_, ToFinish(_, _)) => step == Finish
    case Done(_) => false
  }

  lemma HeadGoesOn(bytes: ByteSize, s: State, ok: bool, inPlace: bool) returns (step: Step, s': State)
    requires QueueInv(s) && GroupInv(s) && LeaderInv(s) && s.queue != []
    ensures s.queue[0] < |s.phase| && HeadStep(s, step, ok, inPlace) && Steps(bytes, s, step, s')
  {
    assert s.queue[0] == Head(s);
    if s.phase[Head(s)].Committing? {
      step, s' := CommitLeadsOn(bytes, s, ok, inPlace);
    } else if s.phase[Head(s)].Waiting? {
      step, s' := Wake(Head(s)), s.(phase := s.phase[Head(s) := MakingRoom]);
    } else if ok && !s.bgError {
      step := HaveRoom;
      s' := RoomLeadsOn(bytes, s);
    } else {
      step := NoRoom;
      s' := NoRoomLeadsOn(bytes, s);
    }
  }

  /** Progress: in every reachable state the head of the queue can do its next step, however files behave. */
  lemma HeadCanGoOn(bytes: ByteSize, start: nat, states: seq<State>, steps: seq<Step>, i: nat, ok: bool,
                    inPlace: bool)
    requires Run(bytes, start, states, steps) && i < |states| && states[i].queue != []
    ensures var s := states[i];
            s.queue[0] < |s.phase| && exists step, s' :: HeadStep(s, step, ok, inPlace) && Steps(bytes, s, step, s')
  {
    RunKeeps(bytes, start, states, steps, i);
    var step, s' := HeadGoesOn(bytes, states[i], ok, inPlace);
  }

  // ---------- The queue itself ----------

  class WriteBatch {
    var ops: Batch

    constructor (ops: Batch)
      ensures this.ops == ops
    {
      this.ops := ops;
    }
  }

  /** A waiting call of Write. */
  class Writer {
    const batch: WriteBatch?
    const sync: bool
    var done: bool
    var status: Status
    var signalled: bool

    constructor (batch: WriteBatch?, sync: bool)
      ensures this.batch == batch && this.sync == sync && !done && !signalled
    {
      this.batch, this.sync, done, status, signalled := batch, sync, false, Ok, false;
    }
  }

  function RequestOf(w: Writer): Request
    reads w, w.batch
  {
    Request(w.batch == null, if w.batch == null then [] else w.batch.ops, w.sync)
  }

  class WriterQueue {
    const byteSize: ByteSize
    const tmpBatch: WriteBatch
    var writers: seq<Writer>

    ghost predicate Valid()
      reads this
    {
      && (forall i, j :: 0 <= i < j < |writers| ==> writers[i] != writers[j])
      && forall i :: 0 <= i < |writers| ==> writers[i].batch != tmpBatch
    }

    function Requests(): (reqs: seq<Request>)
      reads this, writers, set w | w in writers :: w.batch
      ensures |reqs| == |writers|
    {
      seq(|writers|, i requires 0 <= i < |writers| reads this, writers, set w | w in writers :: w.batch
                       => RequestOf(writers[i]))
    }

    constructor (byteSize: ByteSize)
      ensures Valid() && writers == [] && fresh(tmpBatch) && tmpBatch.ops == []
    {
      this.byteSize, writers := byteSize, [];
      tmpBatch := new WriteBatch([]);
    }

    /** Adds a batch to the group, which from its second batch on is gathered in `tmpBatch`. */
    method AddToGroup(result: WriteBatch, ops: Batch) returns (joined: WriteBatch)
      requires Valid() && (result != tmpBatch ==> tmpBatch.ops == [])
      modifies tmpBatch
      ensures joined == tmpBatch && joined.ops == old(result.ops) + ops && Requests() == old(Requests())
    {
      joined := result;
      if joined != tmpBatch {
        joined := tmpBatch;
        joined.ops := joined.ops + result.ops;
      }
      joined.ops := joined.ops + ops;
    }

    /** The batch to commit and the last writer it comes from; no caller's batch is changed. */
    method BuildBatchGroup() returns (result: WriteBatch, last: Writer, ghost n: nat)
      requires Valid() && writers != [] && writers[0].batch != null && tmpBatch.ops == []
      modifies tmpBatch
      ensures writers == old(writers) && Requests() == old(Requests())
      ensures IsGroup(byteSize, Requests(), n) && last == writers[n - 1]
      ensures result.ops == Ops(Requests(), 0, n)
      ensures result == writers[0].batch || result == tmpBatch
    {
      var first := writers[0];
      ghost var reqs := Requests();
      result := first.batch;
      var size := byteSize(first.batch.ops);
      var maxSize := 0x10_0000;
      if size <= 0x2_0000 {
        maxSize := size + 0x2_0000;
      }
      last, n := first, 1;
      assert Ops(reqs, 0, 1) == result.ops && GroupBytes(byteSize, reqs, 1) == size;
      for i := 1 to |writers|
        invariant n == i && last == writers[i - 1] && Requests() == reqs
        invariant forall j :: 0 < j < i ==> Joins(byteSize, reqs, j)
        invariant size == GroupBytes(byteSize, reqs, i)
        invariant result.ops == Ops(reqs, 0, i)
        invariant (result == first.batch && tmpBatch.ops == []) || result == tmpBatch
      {
        var w := writers[i];
        assert reqs[i] == RequestOf(w);
        if w.sync && !first.sync {
          break;
        }
        if w.batch != null {
          size := size + byteSize(w.batch.ops);
          if size > maxSize {
            break;
          }
          result := AddToGroup(result, w.batch.ops);
        }
        assert Joins(byteSize, reqs, i);
        last, n := w, i + 1;
      }
    }

    /** Takes the group that ends with `last` off the queue, gives it its status, and wakes the next leader. */
    method FinishGroup(w: Writer, last: Writer, status: Status, ghost n: nat)
      requires Valid() && 0 < n <= |writers| && writers[0] == w && writers[n - 1] == last
      modifies this`writers, writers
      ensures Valid() && writers == old(writers[n..])
      ensures forall i :: 0 < i < n ==> var x := old(writers)[i]; x.done && x.status == status && x.signalled
      ensures w.done == old(w.done) && w.signalled == old(w.signalled)
      ensures forall i :: n <= i < |old(writers)| ==> var x := old(writers)[i];
                x.done == old(x.done) && x.status == old(x.status) && x.signalled == (old(x.signalled) || i == n)
    {
      ghost var all := writers;
      PopGroup(w, last, status, n);
      if writers != [] {
        var next := writers[0];
        assert next == all[n];
        assert forall i :: 0 <= i < |all| && i != n ==> all[i] != all[n];
        next.signalled := true;
      }
    }

    /** Pops writers up to `last`; all but the leader are given the status and signalled. */
    method PopGroup(w: Writer, last: Writer, status: Status, ghost n: nat)
      requires Valid() && 0 < n <= |writers| && writers[0] == w && writers[n - 1] == last
      modifies this`writers, writers
      ensures Valid() && writers == old(writers[n..])
      ensures forall i :: 0 < i < n ==> var x := old(writers)[i]; x.done && x.status == status && x.signalled
      ensures w.done == old(w.done) && w.signalled == old(w.signalled)
      ensures forall i :: n <= i < |old(writers)| ==> var x := old(writers)[i];
                x.done == old(x.done) && x.status == old(x.status) && x.signalled == old(x.signalled)
    {
      ghost var all := writers;
      ghost var k := 0;
      while true
        invariant 0 <= k < n && writers == all[k..]
        invariant forall i {:trigger all[i]} :: 0 < i < k ==> all[i].done && all[i].status == status && all[i].signalled
        invariant w.done == old(w.done) && w.signalled == old(w.signalled)
        invariant forall i {:trigger all[i]} :: n <= i < |all| ==>
                    && all[i].done == old(all[i].done) && all[i].status == old(all[i].status)
                    && all[i].signalled == old(all[i].signalled)
        decreases n - k
      {
        var ready := writers[0];
        assert ready == all[k];
        writers := writers[1..];
        if ready != w {
          ready.status := status;
          ready.done := true;
          ready.signalled := true;
        }
        k := k + 1;
        if ready == last {
          assert k == n;
          break;
        }
      }
      assert all == old(writers);
    }
  }
}
