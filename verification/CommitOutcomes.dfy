/** What becomes of calls of Write: who gets an error and why, and which numbers are given out. */
module CommitOutcomes {
  import opened Operations
  import opened GroupCommit

  // ---------- Without a failure every call succeeds ----------

  /** Something fails in this step. */
  predicate Fails(step: Step) {
    match step
    case NoRoom => true
    case Append(ok, _) => !ok
    case Sync(ok) => !ok
    case Insert(ok) => !ok
    case BackgroundError => true
    case _ => false
  }

  /** No call has failed so far, nor is about to. */
  ghost predicate AllOk(s: State) {
    && !s.bgError && !s.failed
    && forall id {:trigger s.phase[id]} :: 0 <= id < |s.phase| ==>
         && (s.phase[id].Done? ==> s.phase[id].status == Ok)
         && (s.phase[id].Committing? && s.phase[id].stage.ToFinish? ==> s.phase[id].stage == ToFinish(Ok, false))
  }

  lemma OkStill(bytes: ByteSize, s: State, step: Step, s': State)
    requires AllOk(s) && Steps(bytes, s, step, s') && !Fails(step)
    ensures AllOk(s')
  {
    if step.HaveRoom? || step.Finish? {
      LeavingStaysOk(bytes, s, step, s');
    }
  }

  lemma LeavingStaysOk(bytes: ByteSize, s: State, step: Step, s': State)
    requires AllOk(s) && Steps(bytes, s, step, s') && (step.HaveRoom? || step.Finish?)
    ensures AllOk(s')
  {
    if step.Finish? || s.calls[s.queue[0]].isNull {
      var n := if step.Finish? then s.phase[s.queue[0]].size else 1;
      assert Popped(s, n, Ok, s');
    }
  }

  /** As long as nothing fails, every call that has returned has returned ok. */
  lemma {:induction false} NoFailureNoError(bytes: ByteSize, start: nat, states: seq<State>, steps: seq<Step>, i: nat)
    requires Run(bytes, start, states, steps) && i < |states|
    requires forall k {:trigger steps[k]} :: 0 <= k < i ==> !Fails(steps[k])
    ensures AllOk(states[i])
    decreases i
  {
    if i == 0 {
    } else {
      NoFailureNoError(bytes, start, states, steps, i - 1);
      assert Steps(bytes, states[i - 1], steps[i - 1], states[i - 1 + 1]);
      OkStill(bytes, states[i - 1], steps[i - 1], states[i]);
    }
  }

  // ---------- A failed Sync ----------

  /** The leader has been told that its Sync failed, or that is recorded. */
  ghost predicate SyncFailed(s: State) {
    s.bgError || AtStage(s, ToFinish(Error, true))
  }

  lemma SyncFailedStill(bytes: ByteSize, s: State, step: Step, s': State)
    requires QueueInv(s) && SyncFailed(s) && Steps(bytes, s, step, s')
    ensures SyncFailed(s')
  {
    if !s.bgError {
      assert s.queue[0] == Head(s);
    }
  }

  lemma SyncFails(bytes: ByteSize, s: State, s': State)
    requires Steps(bytes, s, Sync(false), s')
    ensures SyncFailed(s')
  {
  }

  lemma RunQueue(bytes: ByteSize, start: nat, states: seq<State>, steps: seq<Step>, i: nat)
    requires Run(bytes, start, states, steps) && i < |states|
    ensures QueueInv(states[i])
  {
    RunKeeps(bytes, start, states, steps, i);
  }

  /**
   * A failed Sync becomes a background error: it is one as soon as its leader has
   * left the queue, and from then on nothing is added to the log any more.
   */
  lemma {:induction false} FailedSyncIsKept(bytes: ByteSize, start: nat, states: seq<State>, steps: seq<Step>, i: nat,
                                            j: nat)
    requires Run(bytes, start, states, steps) && i < j < |states| && steps[i] == Sync(false)
    ensures SyncFailed(states[j]) && (!Leading(states[j]) ==> states[j].bgError)
    decreases j
  {
    var s, s' := states[j - 1], states[j];
    assert Steps(bytes, s, steps[j - 1], states[j - 1 + 1]);
    if j == i + 1 {
      SyncFails(bytes, s, s');
    } else {
      RunQueue(bytes, start, states, steps, j - 1);
      FailedSyncIsKept(bytes, start, states, steps, i, j - 1);
      SyncFailedStill(bytes, s, steps[j - 1], s');
    }
    RunQueue(bytes, start, states, steps, j);
    HeadLeads(s');
  }

  lemma HeadLeads(s: State)
    requires QueueInv(s) && SyncFailed(s)
    ensures !Leading(s) ==> s.bgError
  {
    if !s.bgError {
      assert s.queue[0] == Head(s);
    }
  }

  /** A step after which there is a background error. */
  predicate Breaks(step: Step) {
    step == Sync(false) || step == BackgroundError
  }

  ghost predicate BrokenBefore(steps: seq<Step>, i: nat) {
    exists k {:trigger steps[k]} :: 0 <= k < i && k < |steps| && Breaks(steps[k])
  }

  lemma BreaksOnly(bytes: ByteSize, s: State, step: Step, s': State)
    requires Steps(bytes, s, step, s') && !Breaks(step) && !s.bgError && NoneFailedToSync(s)
    ensures !s'.bgError && NoneFailedToSync(s')
  {
    if step.HaveRoom? || step.Finish? || step.NoRoom? {
      LeavingBreaksNothing(bytes, s, step, s');
    }
  }

  lemma LeavingBreaksNothing(bytes: ByteSize, s: State, step: Step, s': State)
    requires Steps(bytes, s, step, s') && !s.bgError && NoneFailedToSync(s)
    requires step.HaveRoom? || step.Finish? || step.NoRoom?
    ensures !s'.bgError && NoneFailedToSync(s')
  {
    if step.Finish? {
      assert Popped(s, s.phase[s.queue[0]].size, s.phase[s.queue[0]].stage.status, s');
    } else if step.NoRoom? {
      assert Popped(s, 1, Error, s');
    } else if s.calls[s.queue[0]].isNull {
      assert Popped(s, 1, Ok, s');
    }
  }

  ghost predicate NoneFailedToSync(s: State) {
    forall id {:trigger s.phase[id]} :: 0 <= id < |s.phase| && s.phase[id].Committing? ==>
      s.phase[id].stage.ToFinish? ==> !s.phase[id].stage.syncFailed
  }

  /** A background error has a cause: no other failure, of an append or of an insertion, leads to one. */
  lemma {:induction false} BackgroundErrorHasCause(bytes: ByteSize, start: nat, states: seq<State>, steps: seq<Step>,
                                                   i: nat)
    requires Run(bytes, start, states, steps) && i < |states|
    ensures BrokenBefore(steps, i) || (!states[i].bgError && NoneFailedToSync(states[i]))
    decreases i
  {
    if i == 0 {
    } else {
      BackgroundErrorHasCause(bytes, start, states, steps, i - 1);
      assert Steps(bytes, states[i - 1], steps[i - 1], states[i - 1 + 1]);
      if !BrokenBefore(steps, i) {
        assert !Breaks(steps[i - 1]);
        BreaksOnly(bytes, states[i - 1], steps[i - 1], states[i]);
      }
    }
  }

  // ---------- Who waits for a Sync ----------

  /** A leader that is about to Sync has asked for it. */
  ghost predicate SyncIsAsked(s: State) {
    forall id {:trigger s.phase[id]} ::
      0 <= id < |s.phase| && id < |s.calls| && s.phase[id].Committing? && s.phase[id].stage == ToSync ==>
        s.calls[id].sync
  }

  lemma StaysAsked(bytes: ByteSize, s: State, step: Step, s': State)
    requires SyncIsAsked(s) && QueueInv(s) && Steps(bytes, s, step, s')
    ensures SyncIsAsked(s')
  {
    if step.HaveRoom? || step.Finish? || step.NoRoom? {
      LeavingStaysAsked(bytes, s, step, s');
    }
  }

  lemma LeavingStaysAsked(bytes: ByteSize, s: State, step: Step, s': State)
    requires SyncIsAsked(s) && Steps(bytes, s, step, s') && (step.HaveRoom? || step.Finish? || step.NoRoom?)
    ensures SyncIsAsked(s')
  {
    if step.Finish? {
      assert Popped(s, s.phase[s.queue[0]].size, s.phase[s.queue[0]].stage.status, s');
    } else if step.NoRoom? {
      assert Popped(s, 1, Error, s');
    } else if s.calls[s.queue[0]].isNull {
      assert Popped(s, 1, Ok, s');
    }
  }

  lemma {:induction false} RunSyncIsAsked(bytes: ByteSize, start: nat, states: seq<State>, steps: seq<Step>, i: nat)
    requires Run(bytes, start, states, steps) && i < |states|
    ensures SyncIsAsked(states[i])
    decreases i
  {
    if i == 0 {
    } else {
      RunSyncIsAsked(bytes, start, states, steps, i - 1);
      RunQueue(bytes, start, states, steps, i - 1);
      assert Steps(bytes, states[i - 1], steps[i - 1], states[i - 1 + 1]);
      StaysAsked(bytes, states[i - 1], steps[i - 1], states[i]);
    }
  }

  /** The file is synced only for a leader that asked for it. */
  lemma SyncOnlyIfAsked(bytes: ByteSize, start: nat, states: seq<State>, steps: seq<Step>, i: nat)
    requires Run(bytes, start, states, steps) && i < |steps| && steps[i].Sync?
    ensures var s := states[i];
            s.queue != [] && s.queue[0] < |s.calls| && s.calls[s.queue[0]].sync
  {
    RunSyncIsAsked(bytes, start, states, steps, i);
    assert Steps(bytes, states[i], steps[i], states[i + 1]);
  }

  // ---------- Sequence numbers ----------

  /**
   * No number is given out twice: records have numbers that lie one behind the
   * other, and those of the next commit will lie behind them all.
   */
  ghost predicate NumbersApart(s: State) {
    && (forall r {:trigger s.log[r]} :: 0 <= r < |s.log| ==>
          || s.log[r].base + |s.log[r].ops| <= s.lastSequence + 1
          || (Appended(s) && r == |s.log| - 1))
    && forall r, q {:trigger s.log[r], s.log[q]} :: 0 <= r < q < |s.log| ==>
         s.log[r].base + |s.log[r].ops| <= s.log[q].base
  }

  /** Steps that leave the log and the last number alone. */
  lemma SameNumbers(s: State, s': State)
    requires NumbersApart(s) && s'.log == s.log && s'.lastSequence == s.lastSequence && (Appended(s) ==> Appended(s'))
    ensures NumbersApart(s')
  {
  }

  lemma AppendNumbers(s: State, sound: bool, s': State)
    requires NumbersApart(s) && QueueInv(s) && AppendedRecord(s, sound, s')
    ensures NumbersApart(s')
  {
    assert !Appended(s);
    MovedQueue(s, s'.phase[Head(s)].stage, s');
  }

  lemma FinishNumbers(s: State, s': State)
    requires NumbersApart(s) && QueueInv(s) && LogInv(s) && LeaderInv(s) && Finished(s, s')
    ensures NumbersApart(s')
  {
    if Appended(s) {
      LeaderRecord(s);
    }
  }

  lemma AppendStepNumbers(bytes: ByteSize, s: State, ok: bool, inPlace: bool, s': State)
    requires NumbersApart(s) && QueueInv(s) && Steps(bytes, s, Append(ok, inPlace), s')
    ensures NumbersApart(s')
  {
    AppendStepIs(bytes, s, ok, inPlace, s');
    if ok {
      AppendNumbers(s, AllInPlace(s.attempts) && inPlace, s');
    } else {
      assert !Appended(s);
      SameNumbers(s, s');
    }
  }

  lemma OnwardNumbers(bytes: ByteSize, s: State, step: Step, s': State, start: nat)
    requires NumbersApart(s) && Inv(s, start) && Steps(bytes, s, step, s') && (step.Sync? || step.Insert?)
    ensures NumbersApart(s')
  {
    assert s.queue[0] == Head(s);
    var stage := s'.phase[Head(s)].stage;
    OnwardFacts(s, stage, s');
    SameNumbers(s, s');
  }

  lemma OtherNumbers(bytes: ByteSize, s: State, step: Step, s': State)
    requires NumbersApart(s) && QueueInv(s) && s.fileStart <= |s.log| && Steps(bytes, s, step, s')
    requires !step.Append? && !step.Sync? && !step.Insert? && !step.Finish?
    ensures NumbersApart(s')
  {
    assert s.queue != [] ==> s.queue[0] == Head(s);
    if step.HaveRoom? || step.NoRoom? {
      assert !Appended(s);
    } else {
      QuietStepIsQuiet(bytes, s, step, s');
      QuietFacts(s, s');
    }
    SameNumbers(s, s');
  }

  lemma NumbersStep(bytes: ByteSize, s: State, step: Step, s': State, start: nat)
    requires NumbersApart(s) && Inv(s, start) && Steps(bytes, s, step, s')
    ensures NumbersApart(s')
  {
    if step.Append? {
      AppendStepNumbers(bytes, s, step.ok, step.inPlace, s');
    } else if step.Sync? || step.Insert? {
      OnwardNumbers(bytes, s, step, s', start);
    } else if step.Finish? {
      FinishStepIs(bytes, s, s');
      FinishNumbers(s, s');
    } else {
      OtherNumbers(bytes, s, step, s');
    }
  }

  /** Whatever fails, no two records of a run share a sequence number. */
  lemma {:induction false} NumbersNeverRepeat(bytes: ByteSize, start: nat, states: seq<State>, steps: seq<Step>, i: nat)
    requires Run(bytes, start, states, steps) && i < |states|
    ensures NumbersApart(states[i])
    decreases i
  {
    if i == 0 {
    } else {
      NumbersNeverRepeat(bytes, start, states, steps, i - 1);
      RunKeeps(bytes, start, states, steps, i - 1);
      assert Steps(bytes, states[i - 1], steps[i - 1], states[i - 1 + 1]);
      NumbersStep(bytes, states[i - 1], steps[i - 1], states[i], start);
    }
  }

  // ---------- How large a group is ----------

  /**
   * A group has at most a megabyte of batches, or as much as its leader alone; behind
   * a small leader, of at most 128 kilobytes, at most 128 kilobytes more.
   */
  lemma {:induction false} GroupIsSmall(size: ByteSize, reqs: seq<Request>, n: nat)
    requires 0 < n <= |reqs| && !reqs[0].isNull && forall i :: 0 < i < n ==> Joins(size, reqs, i)
    ensures var first := size(reqs[0].batch);
            GroupBytes(size, reqs, n) <=
              if first <= 131072 then first + 131072 else if first <= 1048576 then 1048576 else first
    decreases n
  {
    if n == 1 {
      assert GroupBytes(size, reqs, 0) == 0;
    } else {
      GroupIsSmall(size, reqs, n - 1);
      assert Joins(size, reqs, n - 1);
    }
  }

  /** The request after a group would make it too large, or wants a Sync that the leader does not. */
  lemma GroupIsFull(size: ByteSize, reqs: seq<Request>, n: nat)
    requires IsGroup(size, reqs, n) && n < |reqs| && !reqs[0].isNull
    ensures var first := size(reqs[0].batch);
            || (reqs[n].sync && !reqs[0].sync)
            || (!reqs[n].isNull && GroupBytes(size, reqs, n) + size(reqs[n].batch) >
                  if first <= 131072 then first + 131072 else 1048576)
  {
  }
}
