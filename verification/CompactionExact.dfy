/** That a compaction keeps no entry it could drop, and cuts its output exactly where it has to. */
module CompactionExact {
  import opened DbFormat
  import opened Views
  import opened Compaction

  // ---------- What is kept is needed ----------

  /** As in a database, no two entries of a key have the same sequence number. */
  ghost predicate OnePerNumber(es: seq<Entry>) {
    forall i, j :: 0 <= i < j < |es| && es[i].key == es[j].key ==> es[i].seqno != es[j].seqno
  }

  /** At some number that is still read, the entry is the newest of its key. */
  ghost predicate StillRead(input: seq<Entry>, smallest: nat, e: Entry) {
    exists s: nat {:trigger Newest(Elems(input), s, e.key, e)} ::
      smallest <= s && Newest(Elems(input), s, e.key, e)
  }

  lemma NewerAreBefore(less: Less, input: seq<Entry>, i: nat, j: nat)
    requires StrictTotalOrder(less) && Sorted(less, input) && OnePerNumber(input)
    requires i < |input| && j < |input| && input[i].key == input[j].key
    ensures input[i].seqno > input[j].seqno <==> i < j
  {
    if i < j {
      SameKeyBetween(less, input, i, i, j);
    } else if j < i {
      SameKeyBetween(less, input, j, j, i);
    }
  }

  lemma ReadAfterDrop(less: Less, input: seq<Entry>, i: nat, smallest: nat)
    requires StrictTotalOrder(less) && Sorted(less, input) && AllParse(input) && OnePerNumber(input) && i < |input|
    requires i > 0 && input[i - 1].key == input[i].key ==> smallest < input[i - 1].seqno
    ensures StillRead(input, smallest, input[i])
  {
    var e := input[i];
    var s := if smallest < e.seqno then e.seqno else smallest;
    forall x | x in Elems(input) && x.key == e.key && Visible(x, s) ensures x.Packed() <= e.Packed() {
      var j :| 0 <= j < |input| && input[j] == x;
      NewerAreBefore(less, input, j, i);
      if j < i {
        SameKeyBetween(less, input, j, i - 1, i);
        assert false;
      } else {
        SameKeyBetween(less, input, i, j, j);
      }
    }
    assert Newest(Elems(input), s, e.key, e);
  }

  lemma DropAfterRead(less: Less, input: seq<Entry>, i: nat, smallest: nat)
    requires StrictTotalOrder(less) && Sorted(less, input) && AllParse(input) && OnePerNumber(input) && i < |input|
    requires StillRead(input, smallest, input[i])
    ensures i > 0 && input[i - 1].key == input[i].key ==> smallest < input[i - 1].seqno
  {
    var s: nat :| smallest <= s && Newest(Elems(input), s, input[i].key, input[i]);
    if i > 0 && input[i - 1].key == input[i].key {
      assert Before(less, input[i - 1], input[i]) && input[i - 1] in Elems(input);
    }
  }

  /**
   * An entry is kept exactly when it is the newest of its key at some number that
   * is still read, and is not a deletion, old enough for every snapshot, of a key
   * that no deeper level holds.
   */
  lemma KeptIsNeeded(less: Less, job: Job, input: seq<Entry>, i: nat)
    requires StrictTotalOrder(less) && Sorted(less, input) && AllParse(input) && OnePerNumber(input) && i < |input|
    requires job.smallestSnapshot < 0xFF_FFFF_FFFF_FFFF
    ensures var e := input[i];
            e in Kept(job, input, |input|) <==>
            && StillRead(input, job.smallestSnapshot, e)
            && !(e.typ == 0 && e.seqno <= job.smallestSnapshot && job.isBaseLevel(e.key))
  {
    KeptHere(less, job, input, i);
    if StillRead(input, job.smallestSnapshot, input[i]) {
      DropAfterRead(less, input, i, job.smallestSnapshot);
    } else if !(i > 0 && input[i - 1].key == input[i].key && input[i - 1].seqno <= job.smallestSnapshot) {
      ReadAfterDrop(less, input, i, job.smallestSnapshot);
    }
  }

  lemma KeptHere(less: Less, job: Job, input: seq<Entry>, i: nat)
    requires StrictTotalOrder(less) && Sorted(less, input) && i < |input|
    ensures input[i] in Kept(job, input, |input|) <==> !Dropped(job, input, i)
  {
    KeptElements(job, input, |input|, input[i]);
    forall j | 0 <= j < |input| && input[j] == input[i] ensures j == i {}
  }

  // ---------- Where the output is cut ----------

  lemma {:induction false} OutputsGrow(job: Job, input: seq<Entry>, n: nat, m: nat)
    requires n <= m <= |input|
    ensures Compacted(job, input, n).outputs <= Compacted(job, input, m).outputs
    ensures n < m && job.shouldStop(input[n]) ==>
              Compacted(job, input, n).Close().outputs <= Compacted(job, input, m).outputs
    decreases m
  {
    if n == m {
    } else {
      OutputsGrow(job, input, n, m - 1);
      OneMoreGrows(job, input, m - 1);
    }
  }

  lemma OneMoreGrows(job: Job, input: seq<Entry>, n: nat)
    requires n < |input|
    ensures var p, p' := Compacted(job, input, n), Compacted(job, input, n + 1);
            p.outputs <= p'.outputs && (job.shouldStop(input[n]) ==> p.Close().outputs <= p'.outputs)
  {
    CompactedMore(job, input, n, Compacted(job, input, n));
  }

  /** The output of a whole run. */
  function AllOutputs(job: Job, input: seq<Entry>): seq<Output> {
    Compacted(job, input, |input|).Close().outputs
  }

  lemma ClosedHolds(job: Job, input: seq<Entry>, n: nat)
    requires n <= |input|
    ensures Flatten(Compacted(job, input, n).Close().outputs) == Kept(job, input, n)
  {
    OutputsHoldKept(job, input, n);
    var p := Compacted(job, input, n);
    CloseKeepsAll(p, Kept(job, input, n));
    assert Flatten(p.Close().outputs) + [] == Flatten(p.Close().outputs);
  }

  /** Before an entry at which the output is to stop, a file ends: no file has entries from both sides. */
  lemma StopCuts(job: Job, input: seq<Entry>, n: nat) returns (j: nat)
    requires n < |input| && job.shouldStop(input[n])
    ensures j <= |AllOutputs(job, input)| && Flatten(AllOutputs(job, input)[..j]) == Kept(job, input, n)
  {
    var closed := Compacted(job, input, n).Close().outputs;
    OutputsGrow(job, input, n, |input|);
    ClosedHolds(job, input, n);
    j := |closed|;
    assert AllOutputs(job, input)[..j] == closed;
  }

  /** The end of file number `j` is due: the file is full, or the output was to stop there. */
  ghost predicate Due(job: Job, input: seq<Entry>, outputs: seq<Output>, j: nat) {
    0 < j <= |outputs| &&
    (|| job.fileSize(outputs[j - 1].entries) >= job.maxFileSize
     || exists n {:trigger Kept(job, input, n)} ::
          0 <= n < |input| && job.shouldStop(input[n]) && Flatten(outputs[..j]) == Kept(job, input, n))
  }

  lemma DueStays(job: Job, input: seq<Entry>, outputs: seq<Output>, more: seq<Output>, j: nat)
    requires Due(job, input, outputs, j) && outputs <= more
    ensures Due(job, input, more, j)
  {
    assert more[..j] == outputs[..j];
  }

  lemma {:induction false} CutsAreDue(job: Job, input: seq<Entry>, n: nat, j: nat)
    requires n <= |input| && 0 < j <= |Compacted(job, input, n).outputs|
    ensures Due(job, input, Compacted(job, input, n).outputs, j)
    decreases n
  {
    if n == 0 {
    } else {
      var p, p' := Compacted(job, input, n - 1), Compacted(job, input, n);
      OutputsGrow(job, input, n - 1, n);
      if j <= |p.outputs| {
        CutsAreDue(job, input, n - 1, j);
        DueStays(job, input, p.outputs, p'.outputs, j);
      } else {
        NewCutIsDue(job, input, n - 1, j);
      }
    }
  }

  lemma NewCutIsDue(job: Job, input: seq<Entry>, n: nat, j: nat)
    requires n < |input| && |Compacted(job, input, n).outputs| < j <= |Compacted(job, input, n + 1).outputs|
    ensures Due(job, input, Compacted(job, input, n + 1).outputs, j)
  {
    var p, outputs := Compacted(job, input, n), Compacted(job, input, n + 1).outputs;
    CompactedMore(job, input, n, p);
    if job.shouldStop(input[n]) && p.open != [] && j == |p.outputs| + 1 {
      ClosedHolds(job, input, n);
      assert outputs[..j] == p.Close().outputs;
    }
  }

  /** Every file but the last ends where it must: it is full, or the output was to stop before the next entry. */
  lemma EveryCutIsDue(job: Job, input: seq<Entry>, j: nat)
    requires 0 < j < |AllOutputs(job, input)|
    ensures Due(job, input, AllOutputs(job, input), j)
  {
    var p := Compacted(job, input, |input|);
    CutsAreDue(job, input, |input|, j);
    DueStays(job, input, p.outputs, AllOutputs(job, input), j);
  }
}
