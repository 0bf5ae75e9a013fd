/**
 * Which state of the database a read answers for: the one of the snapshot it was
 * given, or the one that was published when it began.
 */
module SnapshotReads {
  import opened DbFormat
  import opened Views
  import opened Wrappers
  import opened Operations
  import opened History
  import opened Engine
  import opened EngineSafety

  // ---------- What steps do to operations, readers and snapshots ----------

  /** Batches are only added, and readers stay as they began, up to how far they have come. */
  ghost predicate Later(s: State, s': State) {
    && s.batches <= s'.batches && s.lastSequence <= s'.lastSequence && |s.readers| <= |s'.readers|
    && forall r {:trigger s'.readers[r]} :: 0 <= r < |s.readers| ==> SameRead(s.readers[r], s'.readers[r])
  }

  /** The same read, perhaps further on; what has been answered stays. */
  predicate SameRead(x: Reader, x': Reader) {
    x'.key == x.key && x'.seqno == x.seqno && (x.stage.Finished? ==> x'.stage == x.stage)
  }

  lemma StepIsLater(less: Less, s: State, step: Step, s': State)
    requires Steps(less, s, step, s') && s.lastSequence <= s.inserted
    ensures Later(s, s')
  {
    if step.LookMem? {
      LookIsLater(less, s, step, step.r, s');
    } else if step.LookImm? {
      LookIsLater(less, s, step, step.r, s');
    } else if step.LookVersion? {
      LookIsLater(less, s, step, step.r, s');
    } else if !step.BeginRead? {
      OtherIsLater(less, s, step, s');
    }
  }

  lemma LookIsLater(less: Less, s: State, step: Step, r: nat, s': State)
    requires Steps(less, s, step, s') && (step == LookMem(r) || step == LookImm(r) || step == LookVersion(r))
    ensures Later(s, s')
  {
    var x := LookStep(less, s, step, r, s');
    assert !s.readers[r].stage.Finished?;
  }

  lemma OtherIsLater(less: Less, s: State, step: Step, s': State)
    requires Steps(less, s, step, s') && s.lastSequence <= s.inserted
    requires !step.LookMem? && !step.LookImm? && !step.LookVersion? && !step.BeginRead?
    ensures s'.readers == s.readers && Later(s, s')
  {
  }

  lemma {:induction false} RunIsLater(less: Less, levels: nat, states: seq<State>, steps: seq<Step>, i: nat, j: nat)
    requires StrictTotalOrder(less) && Run(less, levels, states, steps) && i <= j < |states|
    ensures Later(states[i], states[j])
    decreases j
  {
    if i == j {
    } else {
      RunIsLater(less, levels, states, steps, i, j - 1);
      NextIsLater(less, levels, states, steps, j - 1);
      LaterStill(states[i], states[j - 1], states[j]);
    }
  }

  lemma NextIsLater(less: Less, levels: nat, states: seq<State>, steps: seq<Step>, i: nat)
    requires StrictTotalOrder(less) && Run(less, levels, states, steps) && i + 1 < |states|
    ensures Later(states[i], states[i + 1])
  {
    RunNumbers(less, levels, states, steps, i);
    assert Steps(less, states[i], steps[i], states[i + 1]);
    StepIsLater(less, states[i], steps[i], states[i + 1]);
  }

  lemma LaterStill(a: State, b: State, c: State)
    requires Later(a, b) && Later(b, c)
    ensures Later(a, c)
  {
  }

  /** What the numbers of a reachable state are. */
  lemma RunNumbers(less: Less, levels: nat, states: seq<State>, steps: seq<Step>, i: nat)
    requires StrictTotalOrder(less) && Run(less, levels, states, steps) && i < |states|
    ensures var s := states[i];
            && s.lastSequence <= s.inserted <= |Ops(s)| && Boundary(s.batches, s.lastSequence)
            && forall t :: t in s.snapshots ==> t <= s.lastSequence
  {
    RunKeeps(less, levels, states, steps, i);
    var s := states[i];
    forall t | t in s.snapshots ensures t <= s.lastSequence {
      var k :| 0 <= k < |s.snapshots| && s.snapshots[k] == t;
    }
  }

  /** Operations are only added at the end, so what was true of the first of them stays true. */
  lemma TruthIsStill(s: State, s': State, t: nat, k: Key)
    requires s.batches <= s'.batches && t <= |Ops(s)|
    ensures |Ops(s)| <= |Ops(s')| && Truth(Ops(s'), t, k) == Truth(Ops(s), t, k)
  {
    FlatPrefix(s'.batches, |s.batches|);
    assert s'.batches[..|s.batches|] == s.batches;
    TruthStays(Ops(s), Ops(s')[|Ops(s)|..], t, k);
    assert Ops(s) + Ops(s')[|Ops(s)|..] == Ops(s');
  }

  // ---------- Reads ----------

  /** The reader that a read adds. */
  lemma BeginsAs(less: Less, s: State, key: Key, snapshot: Option<nat>, s': State) returns (x: Reader)
    requires Steps(less, s, BeginRead(key, snapshot), s')
    ensures |s'.readers| == |s.readers| + 1 && x == s'.readers[|s.readers|] && x.key == key
    ensures x.seqno == match snapshot case Some(n) => n case None => s.lastSequence
    ensures snapshot.Some? ==> snapshot.value in s.snapshots
    ensures s'.batches == s.batches
  {
    x := s'.readers[|s.readers|];
  }

  /**
   * What a read answers is settled when it begins: whenever it finishes, its result
   * is what the operations so far had left at the number of its snapshot, or, without
   * one, at the last number published.
   */
  lemma ReadAnswersAt(less: Less, levels: nat, states: seq<State>, steps: seq<Step>, i: nat, j: nat, key: Key,
                      snapshot: Option<nat>)
    requires StrictTotalOrder(less) && Run(less, levels, states, steps) && i < j < |states|
    requires steps[i] == BeginRead(key, snapshot)
    requires var r := |states[i].readers|; r < |states[j].readers| && states[j].readers[r].stage.Finished?
    ensures var s, n := states[i], if snapshot.Some? then snapshot.value else states[i].lastSequence;
            && n <= s.lastSequence <= |Ops(s)|
            && states[j].readers[|s.readers|].stage.result == Truth(Ops(s), n, key)
  {
    var s, r := states[i], |states[i].readers|;
    assert Steps(less, s, steps[i], states[i + 1]);
    var x := BeginsAs(less, s, key, snapshot, states[i + 1]);
    RunNumbers(less, levels, states, steps, i);
    RunIsLater(less, levels, states, steps, i + 1, j);
    FinishedIsTrue(less, levels, states, steps, j, r);
    assert SameRead(x, states[j].readers[r]);
    TruthIsStill(s, states[j], x.seqno, key);
  }

  lemma FinishedIsTrue(less: Less, levels: nat, states: seq<State>, steps: seq<Step>, i: nat, r: nat)
    requires StrictTotalOrder(less) && Run(less, levels, states, steps) && i < |states|
    requires r < |states[i].readers| && states[i].readers[r].stage.Finished?
    ensures var s, x := states[i], states[i].readers[r];
            x.seqno <= |Ops(s)| && x.stage.result == Truth(Ops(s), x.seqno, x.key)
  {
    RunKeeps(less, levels, states, steps, i);
    assert StageInv(Ops(states[i]), states[i].tables, states[i].readers[r]);
  }

  /**
   * A read at a snapshot answers for the moment at which the snapshot was taken,
   * whatever has been written, flushed, compacted or released since.
   */
  lemma SnapshotReadAnswers(less: Less, levels: nat, states: seq<State>, steps: seq<Step>, a: nat, i: nat, j: nat,
                            key: Key, t: nat)
    requires StrictTotalOrder(less) && Run(less, levels, states, steps) && a < i < j < |states|
    requires steps[a] == NewSnapshot
    requires |states[a].snapshots| < |states[a + 1].snapshots| && t == states[a + 1].snapshots[|states[a].snapshots|]
    requires steps[i] == BeginRead(key, Some(t))
    requires var r := |states[i].readers|; r < |states[j].readers| && states[j].readers[r].stage.Finished?
    ensures var s := states[a];
            && s.lastSequence <= |Ops(s)|
            && states[j].readers[|states[i].readers|].stage.result == Truth(Ops(s), s.lastSequence, key)
  {
    assert Steps(less, states[a], steps[a], states[a + 1]);
    RunNumbers(less, levels, states, steps, a);
    ReadAnswersAt(less, levels, states, steps, i, j, key, Some(t));
    RunIsLater(less, levels, states, steps, a, i);
    TruthIsStill(states[a], states[i], t, key);
  }

  /**
   * A read that begins without a snapshot answers for a whole number of batches,
   * and among them are all that a commit had published before.
   */
  lemma ReadSeesCommitted(less: Less, levels: nat, states: seq<State>, steps: seq<Step>, m: nat, i: nat, j: nat,
                          key: Key)
    requires StrictTotalOrder(less) && Run(less, levels, states, steps) && m < i < j < |states|
    requires steps[m] == EndCommit && steps[i] == BeginRead(key, None)
    requires var r := |states[i].readers|; r < |states[j].readers| && states[j].readers[r].stage.Finished?
    ensures states[m].batches <= states[i].batches
    ensures exists b :: |states[m].batches| <= b <= |states[i].batches| &&
              AnswersBatches(states[i].batches, b, states[i].lastSequence, key,
                             states[j].readers[|states[i].readers|].stage.result)
  {
    var s := states[i];
    StaysPublished(less, levels, states, steps, m, i);
    ReadAnswersAt(less, levels, states, steps, i, j, key, None);
    var b := BoundaryAnswers(s.batches, s.lastSequence, key);
    b := AtLeast(s.batches, b, |states[m].batches|, s.lastSequence, key);
  }

  lemma StaysPublished(less: Less, levels: nat, states: seq<State>, steps: seq<Step>, m: nat, i: nat)
    requires StrictTotalOrder(less) && Run(less, levels, states, steps) && m < i < |states| && steps[m] == EndCommit
    ensures states[m].batches <= states[i].batches
    ensures |Flat(states[i].batches[..|states[m].batches|])| <= states[i].lastSequence <= |Ops(states[i])|
    ensures Boundary(states[i].batches, states[i].lastSequence)
  {
    assert Steps(less, states[m], steps[m], states[m + 1]);
    EndPublishes(less, states[m], states[m + 1], steps[m]);
    RunIsLater(less, levels, states, steps, m + 1, i);
    RunNumbers(less, levels, states, steps, i);
    assert states[i].batches[..|states[m].batches|] == states[m].batches;
  }

  /** A commit that ends has published all operations. */
  lemma EndPublishes(less: Less, s: State, s': State, step: Step)
    requires Steps(less, s, step, s') && step == EndCommit
    ensures s'.batches == s.batches && s'.lastSequence == |Flat(s.batches)|
  {
  }

  /** Batches without operations make no difference. */
  lemma AtLeast(batches: seq<Batch>, b: nat, least: nat, t: nat, k: Key) returns (b': nat)
    requires b <= |batches| && least <= |batches| && t <= |Flat(batches)| && t == |Flat(batches[..b])|
    requires t >= |Flat(batches[..least])|
    ensures least <= b' <= |batches| && AnswersBatches(batches, b', t, k, Truth(Flat(batches), t, k))
  {
    b' := if b < least then least else b;
    if b < least {
      FlatPrefix(batches[..least], b);
      assert batches[..least][..b] == batches[..b];
    }
    FlatPrefix(batches, b');
  }
}
