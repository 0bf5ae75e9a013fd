/**
 * The compaction loop: it walks the merged input once, decides from the
 * previous key alone which entries to drop, and cuts what it keeps into files.
 */
module Compaction {
  import opened DbFormat
  import opened Views

  /** What a compaction is asked to do, including the decisions it does not make itself. */
  datatype Job = Job(
    smallestSnapshot: nat,        // oldest live snapshot, or the last sequence number
    isBaseLevel: Key -> bool,     // no deeper level holds the key
    shouldStop: Entry -> bool,    // too much overlap with the level below the output
    fileSize: seq<Entry> -> nat,  // bytes in a table holding these entries
    maxFileSize: nat
  )

  // ---------- The drop rules, entry by entry ----------

  /** The sequence number of the entry before `input[i]`, if it parses and has the same user key. */
  function LastSequenceForKey(input: seq<Entry>, i: nat): (last: nat)
    requires i < |input|
  {
    if i > 0 && input[i - 1].Parses() && input[i - 1].key == input[i].key then input[i - 1].seqno
    else MAX_SEQUENCE_NUMBER
  }

  predicate Dropped(job: Job, input: seq<Entry>, i: nat)
    requires i < |input|
  {
    && input[i].Parses()
    && (|| LastSequenceForKey(input, i) <= job.smallestSnapshot
        || (&& input[i].typ == TYPE_DELETION
            && input[i].seqno <= job.smallestSnapshot
            && job.isBaseLevel(input[i].key)))
  }

  /** The entries kept among the first `n`, in order. */
  function Kept(job: Job, input: seq<Entry>, n: nat): (kept: seq<Entry>)
    requires n <= |input|
  {
    if n == 0 then []
    else Kept(job, input, n - 1) + if Dropped(job, input, n - 1) then [] else [input[n - 1]]
  }

  lemma {:induction false} KeptElements(job: Job, input: seq<Entry>, n: nat, e: Entry)
    requires n <= |input|
    ensures e in Kept(job, input, n) <==> exists i :: 0 <= i < n && input[i] == e && !Dropped(job, input, i)
  {
    if n == 0 {
    } else {
      KeptElements(job, input, n - 1, e);
    }
  }

  lemma {:induction false} KeptIsSorted(less: Less, job: Job, input: seq<Entry>, n: nat)
    requires StrictTotalOrder(less) && Sorted(less, input) && n <= |input|
    ensures Sorted(less, Kept(job, input, n))
  {
    if n == 0 {
    } else {
      KeptIsSorted(less, job, input, n - 1);
      var kept := Kept(job, input, n - 1);
      forall i | 0 <= i < |kept| && !Dropped(job, input, n - 1)
        ensures Before(less, kept[i], input[n - 1])
      {
        KeptElements(job, input, n - 1, kept[i]);
      }
    }
  }

  // ---------- Every readable view is preserved ----------

  /**
   * The rest of the database, as a compaction may find it: where the job says
   * that nothing deeper holds a key, every other entry of that key is newer.
   */
  ghost predicate Surrounds(job: Job, input: seq<Entry>, rest: set<Entry>) {
    && Unambiguous(Elems(input) + rest)
    && forall e, e' :: e in input && e' in rest && e.key == e'.key && job.isBaseLevel(e.key) ==>
         e.Packed() < e'.Packed()
  }

  ghost predicate AllParse(es: seq<Entry>) {
    forall i :: 0 <= i < |es| ==> es[i].Parses()
  }

  /** Replacing the input by what is kept changes no view at or after the smallest snapshot. */
  ghost predicate PreservesViews(job: Job, input: seq<Entry>) {
    forall rest, s :: Surrounds(job, input, rest) && job.smallestSnapshot <= s ==>
      View(Elems(Kept(job, input, |input|)) + rest, s) == View(Elems(input) + rest, s)
  }

  /**
   * A value with an unparsable entry right before it, and further before a
   * deletion of the same user key that is the newest of its sequence number:
   * the unparsable entry makes the loop forget the deletion.
   */
  ghost predicate Revives(input: seq<Entry>, i: int, j: int) {
    && 0 <= i < j - 1 < |input| - 1
    && input[i].typ == TYPE_DELETION && input[i].seqno < MAX_SEQUENCE_NUMBER
    && !SameVersion(input, i)
    && input[j].IsValue() && input[i].key == input[j].key && !input[j - 1].Parses()
  }

  /** The entry before `input[i]` parses and has the same user key and sequence number. */
  ghost predicate SameVersion(input: seq<Entry>, i: int)
    requires 0 <= i < |input|
  {
    i > 0 && input[i - 1].Parses() && input[i - 1].key == input[i].key && input[i - 1].seqno == input[i].seqno
  }

  ghost predicate Revivable(input: seq<Entry>) {
    exists i, j :: Revives(input, i, j)
  }

  lemma SameKeyBetween(less: Less, es: seq<Entry>, i: int, m: int, j: int)
    requires StrictTotalOrder(less) && Sorted(less, es) && 0 <= i <= m <= j < |es|
    requires es[i].key == es[j].key
    ensures es[m].key == es[i].key
    ensures es[j].Packed() <= es[m].Packed() <= es[i].Packed()
    ensures es[j].seqno <= es[m].seqno <= es[i].seqno
  {
    if i < m { assert Before(less, es[i], es[m]); }
    if m < j { assert Before(less, es[m], es[j]); }
  }

  /** An entry that some view shows is never dropped for being hidden by a newer one. */
  lemma NewestIsNotHidden(less: Less, job: Job, input: seq<Entry>, s: nat, i: int)
    requires StrictTotalOrder(less) && Sorted(less, input) && 0 <= i < |input|
    requires job.smallestSnapshot < MAX_SEQUENCE_NUMBER && job.smallestSnapshot <= s
    requires Newest(Elems(input), s, input[i].key, input[i])
    ensures LastSequenceForKey(input, i) > job.smallestSnapshot
  {
    if i > 0 && input[i - 1].key == input[i].key {
      assert Before(less, input[i - 1], input[i]);
      assert input[i - 1] in Elems(input);
    }
  }

  /** Where a deletion was dropped, no value of its key that it hides is kept. */
  lemma DroppedDeletionHides(less: Less, job: Job, input: seq<Entry>, i: int, j: int)
    requires StrictTotalOrder(less) && Sorted(less, input) && !Revivable(input)
    requires 0 <= i < j < |input| && input[i].key == input[j].key && input[j].IsValue()
    requires input[i].typ == TYPE_DELETION && input[i].seqno <= job.smallestSnapshot < MAX_SEQUENCE_NUMBER
    requires !SameVersion(input, i)
    ensures Dropped(job, input, j)
  {
    SameKeyBetween(less, input, i, j - 1, j);
    assert input[j - 1].Parses() || Revives(input, i, j);
  }

  lemma KeptShows(less: Less, job: Job, input: seq<Entry>, rest: set<Entry>, s: nat, k: Key, e: Entry)
    requires StrictTotalOrder(less) && Sorted(less, input) && !Revivable(input)
    requires Surrounds(job, input, rest)
    requires job.smallestSnapshot < MAX_SEQUENCE_NUMBER && job.smallestSnapshot <= s
    ensures Shown(Elems(Kept(job, input, |input|)) + rest, s, k, e) <==> Shown(Elems(input) + rest, s, k, e)
  {
    var all := Elems(input) + rest;
    var left := Elems(Kept(job, input, |input|)) + rest;
    assert left <= all by {
      forall x | x in left ensures x in all {
        KeptElements(job, input, |input|, x);
      }
    }
    if Shown(all, s, k, e) && e !in rest {
      var i :| 0 <= i < |input| && input[i] == e;
      assert Newest(Elems(input), s, k, e);
      NewestIsNotHidden(less, job, input, s, i);
      KeptElements(job, input, |input|, e);
    }
    if Shown(left, s, k, e) && !Shown(all, s, k, e) {
      var n := NewestExists(all, s, k, e);
      assert n !in left && n in input;
      var i :| 0 <= i < |input| && input[i] == n;
      assert Newest(Elems(input), s, k, n);
      NewestIsNotHidden(less, job, input, s, i);
      KeptElements(job, input, |input|, n);
      assert Dropped(job, input, i);
      if e !in rest {
        assert i > 0 ==> input[i - 1] in all;
        KeptElements(job, input, |input|, e);
        var j :| 0 <= j < |input| && input[j] == e && !Dropped(job, input, j);
        if j < i { SameKeyBetween(less, input, j, j, i); }
        DroppedDeletionHides(less, job, input, i, j);
      }
    }
  }

  lemma KeptPreserves(less: Less, job: Job, input: seq<Entry>)
    requires StrictTotalOrder(less) && Sorted(less, input) && !Revivable(input)
    requires job.smallestSnapshot < MAX_SEQUENCE_NUMBER
    ensures PreservesViews(job, input)
  {
    var kept := Kept(job, input, |input|);
    forall rest, s | Surrounds(job, input, rest) && job.smallestSnapshot <= s
      ensures View(Elems(kept) + rest, s) == View(Elems(input) + rest, s)
    {
      forall x | x in Elems(kept) + rest ensures x in Elems(input) + rest {
        KeptElements(job, input, |input|, x);
      }
      forall k, e ensures Shown(Elems(kept) + rest, s, k, e) <==> Shown(Elems(input) + rest, s, k, e) {
        KeptShows(less, job, input, rest, s, k, e);
      }
      SameShownSameView(Elems(kept) + rest, Elems(input) + rest, s);
    }
  }

  /** A job for which the deletion at `i` is obsolete. */
  ghost function ObsoleteAt(seqno: nat): Job {
    Job(seqno, _ => true, _ => false, _ => 0, 1)
  }

  lemma DeletionShowsNothing(less: Less, input: seq<Entry>, i: int)
    requires StrictTotalOrder(less) && Sorted(less, input) && 0 <= i < |input|
    requires input[i].typ == TYPE_DELETION && !SameVersion(input, i)
    ensures input[i].key !in View(Elems(input), input[i].seqno)
  {
    var k, s := input[i].key, input[i].seqno;
    forall e | Newest(Elems(input), s, k, e) ensures e == input[i] {
      var m :| 0 <= m < |input| && input[m] == e;
      assert input[i] in Elems(input);
      if m < i {
        SameKeyBetween(less, input, m, i - 1, i);
        assert false;
      }
    }
  }

  lemma KeptValueShows(less: Less, input: seq<Entry>, i: int, j: int)
    requires StrictTotalOrder(less) && Sorted(less, input) && Revives(input, i, j)
    ensures var job := ObsoleteAt(input[i].seqno);
            input[i].key in View(Elems(Kept(job, input, |input|)), input[i].seqno)
  {
    var job, k, s := ObsoleteAt(input[i].seqno), input[i].key, input[i].seqno;
    var kept := Kept(job, input, |input|);
    SameKeyBetween(less, input, i, i, j);
    KeptElements(job, input, |input|, input[j]);
    assert !Dropped(job, input, j);
    var n := NewestExists(Elems(kept), s, k, input[j]);
    KeptElements(job, input, |input|, n);
    assert Shown(Elems(kept), s, k, n);
    assert k in KeysOf(Elems(kept));
  }

  /** A key that comes back at a readable number is a view that is not preserved. */
  lemma ChangedView(job: Job, input: seq<Entry>, s: nat, k: Key)
    requires Unambiguous(Elems(input)) && job.smallestSnapshot <= s
    requires k in View(Elems(Kept(job, input, |input|)), s) && k !in View(Elems(input), s)
    ensures !PreservesViews(job, input)
  {
    assert Elems(input) + {} == Elems(input);
    assert Elems(Kept(job, input, |input|)) + {} == Elems(Kept(job, input, |input|));
    assert Surrounds(job, input, {});
  }

  lemma ForgottenDeletion(less: Less, input: seq<Entry>, i: int, j: int)
    requires StrictTotalOrder(less) && Sorted(less, input) && Revives(input, i, j)
    ensures !PreservesViews(ObsoleteAt(input[i].seqno), input)
  {
    SortedIsUnambiguous(less, input);
    DeletionShowsNothing(less, input, i);
    KeptValueShows(less, input, i, j);
    ChangedView(ObsoleteAt(input[i].seqno), input, input[i].seqno, input[i].key);
  }

  /** An input that loses its deletion of the empty key at number 5, to an unparsable key in between. */
  lemma DeletionIsForgotten(less: Less)
    requires StrictTotalOrder(less)
    ensures var input := [Entry([], 5, TYPE_DELETION, []), Entry([], 4, 2, []), Entry([], 3, TYPE_VALUE, [])];
            Sorted(less, input) && Revives(input, 0, 2) && !PreservesViews(ObsoleteAt(5), input)
  {
    var input := [Entry([], 5, TYPE_DELETION, []), Entry([], 4, 2, []), Entry([], 3, TYPE_VALUE, [])];
    assert Sorted(less, input) && Revives(input, 0, 2);
    ForgottenDeletion(less, input, 0, 2);
  }

  /**
   * The drop rules preserve every readable view of a sorted input, whatever the
   * job, exactly when no deletion can be forgotten across an unparsable key.
   */
  lemma PreservesViewsExactly(less: Less, input: seq<Entry>)
    requires StrictTotalOrder(less) && Sorted(less, input)
    ensures (forall job: Job :: job.smallestSnapshot < MAX_SEQUENCE_NUMBER ==> PreservesViews(job, input))
            <==> !Revivable(input)
  {
    if Revivable(input) {
      var i, j :| Revives(input, i, j);
      ForgottenDeletion(less, input, i, j);
      assert ObsoleteAt(input[i].seqno).smallestSnapshot < MAX_SEQUENCE_NUMBER;
    } else {
      forall job: Job | job.smallestSnapshot < MAX_SEQUENCE_NUMBER ensures PreservesViews(job, input) {
        KeptPreserves(less, job, input);
      }
    }
  }

  lemma ParseableIsNotRevivable(input: seq<Entry>)
    requires AllParse(input)
    ensures !Revivable(input)
  {
  }

  /**
   * On parsable input a job preserves every readable view exactly when its
   * smallest snapshot is below the "no newer entry" sentinel.
   */
  lemma SnapshotBelowSentinelExactly(less: Less, job: Job)
    requires StrictTotalOrder(less)
    ensures (forall input :: Sorted(less, input) && AllParse(input) ==> PreservesViews(job, input))
            <==> job.smallestSnapshot < MAX_SEQUENCE_NUMBER
  {
    if job.smallestSnapshot < MAX_SEQUENCE_NUMBER {
      forall input | Sorted(less, input) && AllParse(input) ensures PreservesViews(job, input) {
        KeptPreserves(less, job, input);
      }
    } else {
      var e := Entry([], 0, TYPE_VALUE, []);
      var input, s := [e], job.smallestSnapshot;
      assert Sorted(less, input) && AllParse(input);
      SortedIsUnambiguous(less, input);
      assert Elems(input) == {e} && Elems(input) + {} == {e};
      assert Kept(job, input, 1) == Kept(job, input, 0) == [];
      assert Elems(Kept(job, input, 1)) + {} == {};
      assert Surrounds(job, input, {});
      assert Shown({e}, s, [], e);
      ShownDecides({e}, s, [], e);
      assert [] !in View({}, s);
    }
  }

  // ---------- Cutting the kept entries into files ----------

  /** A finished output table. */
  datatype Output = Output(smallest: Entry, largest: Entry, entries: seq<Entry>)

  function Finish(open: seq<Entry>): (o: Output)
    requires |open| > 0
  {
    Output(open[0], open[|open| - 1], open)
  }

  /** The finished outputs and the entries of the table being built, if any. */
  datatype Progress = Progress(outputs: seq<Output>, open: seq<Entry>) {
    function Close(): Progress {
      if open == [] then this else Progress(outputs + [Finish(open)], [])
    }

    function Add(job: Job, e: Entry): Progress {
      var p := Progress(outputs, open + [e]);
      if job.fileSize(p.open) >= job.maxFileSize then p.Close() else p
    }
  }

  /** The progress after the first `n` input entries. */
  function Compacted(job: Job, input: seq<Entry>, n: nat): (p: Progress)
    requires n <= |input|
  {
    if n == 0 then Progress([], [])
    else
      var e := input[n - 1];
      var p := Compacted(job, input, n - 1);
      var p' := if job.shouldStop(e) then p.Close() else p;
      if Dropped(job, input, n - 1) then p' else p'.Add(job, e)
  }

  function Flatten(outputs: seq<Output>): (es: seq<Entry>) {
    if outputs == [] then []
    else Flatten(outputs[..|outputs| - 1]) + outputs[|outputs| - 1].entries
  }

  predicate WellFormed(o: Output) {
    && |o.entries| > 0 && o.smallest == o.entries[0] && o.largest == o.entries[|o.entries| - 1]
  }

  /** What a progress holds, and that its outputs are well formed. */
  ghost predicate Holds(p: Progress, es: seq<Entry>) {
    Flatten(p.outputs) + p.open == es && forall o :: o in p.outputs ==> WellFormed(o)
  }

  lemma CloseKeepsAll(p: Progress, es: seq<Entry>)
    requires Holds(p, es)
    ensures Holds(p.Close(), es)
  {
    if p.open != [] {
      assert p.Close().outputs[..|p.outputs|] == p.outputs;
    }
  }

  lemma AddKeepsAll(p: Progress, job: Job, e: Entry, es: seq<Entry>)
    requires Holds(p, es)
    ensures Holds(p.Add(job, e), es + [e])
  {
    var q := Progress(p.outputs, p.open + [e]);
    assert Flatten(q.outputs) + q.open == (Flatten(p.outputs) + p.open) + [e];
    CloseKeepsAll(q, es + [e]);
  }

  /** Nothing is lost, repeated or reordered, and no output is empty. */
  lemma {:induction false} OutputsHoldKept(job: Job, input: seq<Entry>, n: nat)
    requires n <= |input|
    ensures Holds(Compacted(job, input, n), Kept(job, input, n))
  {
    if n == 0 {
    } else {
      OutputsHoldKept(job, input, n - 1);
      var p, e := Compacted(job, input, n - 1), input[n - 1];
      CloseKeepsAll(p, Kept(job, input, n - 1));
      var p' := if job.shouldStop(e) then p.Close() else p;
      AddKeepsAll(p', job, e, Kept(job, input, n - 1));
    }
  }

  /** The largest key of each output is before the smallest key of every later one. */
  ghost predicate RangesIncrease(less: Less, outputs: seq<Output>) {
    forall i, j :: 0 <= i < j < |outputs| ==> Before(less, outputs[i].largest, outputs[j].smallest)
  }

  lemma {:induction false} FlattenHolds(outputs: seq<Output>, i: nat, m: nat) returns (at: nat)
    requires i < |outputs| && m < |outputs[i].entries|
    ensures at < |Flatten(outputs)| && Flatten(outputs)[at] == outputs[i].entries[m]
    ensures |Flatten(outputs[..i])| <= at < |Flatten(outputs[..i + 1])|
  {
    var last := |outputs| - 1;
    if i == last {
      at := |Flatten(outputs[..last])| + m;
      assert outputs[..i + 1] == outputs;
    } else {
      at := FlattenHolds(outputs[..last], i, m);
      assert outputs[..last][..i] == outputs[..i] && outputs[..last][..i + 1] == outputs[..i + 1];
    }
  }

  lemma {:induction false} FlattenPrefix(outputs: seq<Output>, i: nat, j: nat)
    requires i <= j <= |outputs|
    ensures |Flatten(outputs[..i])| <= |Flatten(outputs[..j])|
  {
    if i == j {
    } else {
      FlattenPrefix(outputs, i, j - 1);
      assert outputs[..j][..j - 1] == outputs[..j - 1];
    }
  }

  lemma SortedRangesIncrease(less: Less, outputs: seq<Output>)
    requires Sorted(less, Flatten(outputs))
    requires forall o :: o in outputs ==> WellFormed(o)
    ensures RangesIncrease(less, outputs)
  {
    forall i, j | 0 <= i < j < |outputs|
      ensures Before(less, outputs[i].largest, outputs[j].smallest)
    {
      assert WellFormed(outputs[i]) && WellFormed(outputs[j]);
      var a := FlattenHolds(outputs, i, |outputs[i].entries| - 1);
      var b := FlattenHolds(outputs, j, 0);
      FlattenPrefix(outputs, i + 1, j);
    }
  }

  /**
   * A successful run: the kept entries appear once each and in order, in
   * non-empty files with exact bounds and strictly increasing ranges.
   */
  lemma OutputPartition(less: Less, job: Job, input: seq<Entry>)
    requires StrictTotalOrder(less) && Sorted(less, input)
    ensures var outputs := Compacted(job, input, |input|).Close().outputs;
            && Flatten(outputs) == Kept(job, input, |input|)
            && (forall o :: o in outputs ==> WellFormed(o))
            && RangesIncrease(less, outputs)
  {
    var p := Compacted(job, input, |input|);
    OutputsHoldKept(job, input, |input|);
    CloseKeepsAll(p, Kept(job, input, |input|));
    assert Flatten(p.Close().outputs) + [] == Flatten(p.Close().outputs);
    KeptIsSorted(less, job, input, |input|);
    SortedRangesIncrease(less, p.Close().outputs);
  }

  /** Every proper prefix is below the size limit. */
  ghost predicate SmallBefore(job: Job, es: seq<Entry>, end: nat)
    requires end <= |es| + 1
  {
    forall m :: 0 < m < end ==> job.fileSize(es[..m]) < job.maxFileSize
  }

  /** A table stays open only while it is below the size limit. */
  lemma {:induction false} OpenIsSmall(job: Job, input: seq<Entry>, n: nat)
    requires n <= |input|
    ensures var p := Compacted(job, input, n);
            && SmallBefore(job, p.open, |p.open| + 1)
            && forall o :: o in p.outputs ==> SmallBefore(job, o.entries, |o.entries|)
  {
    if n == 0 {
    } else {
      OpenIsSmall(job, input, n - 1);
      var e := input[n - 1];
      var p := Compacted(job, input, n - 1);
      var p' := if job.shouldStop(e) then p.Close() else p;
      var open := p'.open + [e];
      forall m | 0 < m < |open| ensures job.fileSize(open[..m]) < job.maxFileSize {
        assert open[..m] == p'.open[..m];
      }
      assert open[..|open|] == open;
    }
  }

  // ---------- The loop ----------

  /** One entry more. */
  lemma CompactedMore(job: Job, input: seq<Entry>, n: nat, p: Progress)
    requires n < |input| && p == Compacted(job, input, n)
    ensures var p' := if job.shouldStop(input[n]) then p.Close() else p;
            Compacted(job, input, n + 1) == if Dropped(job, input, n) then p' else p'.Add(job, input[n])
  {
  }

  method DoCompactionWork(less: Less, job: Job, input: seq<Entry>) returns (outputs: seq<Output>)
    requires StrictTotalOrder(less) && Sorted(less, input)
    ensures outputs == Compacted(job, input, |input|).Close().outputs
    ensures Flatten(outputs) == Kept(job, input, |input|) && RangesIncrease(less, outputs)
  {
    outputs := [];
    var builder: seq<Entry> := [];  // the open table; none is open when it is empty
    var currentUserKey: Key := [];
    var hasCurrentUserKey := false;
    var lastSequenceForKey := MAX_SEQUENCE_NUMBER;
    var i := 0;
    while i < |input|
      invariant i <= |input|
      invariant Progress(outputs, builder) == Compacted(job, input, i)
      invariant hasCurrentUserKey <==> i > 0 && input[i - 1].Parses()
      invariant hasCurrentUserKey ==> currentUserKey == input[i - 1].key && lastSequenceForKey == input[i - 1].seqno
    {
      var key := input[i];
      CompactedMore(job, input, i, Progress(outputs, builder));
      if job.shouldStop(key) && builder != [] {
        outputs, builder := outputs + [Finish(builder)], [];
      }
      var drop := false;
      if !key.Parses() {
        // A key that does not parse is kept, and nothing is remembered across it
        currentUserKey := [];
        hasCurrentUserKey := false;
        lastSequenceForKey := MAX_SEQUENCE_NUMBER;
      } else {
        if !hasCurrentUserKey || key.key != currentUserKey {
          // A user key not met before has no newer entry
          currentUserKey := key.key;
          hasCurrentUserKey := true;
          lastSequenceForKey := MAX_SEQUENCE_NUMBER;
        }
        if lastSequenceForKey <= job.smallestSnapshot {
          // Every readable snapshot sees the entry before it instead
          drop := true;
        } else if key.typ == TYPE_DELETION && key.seqno <= job.smallestSnapshot && job.isBaseLevel(key.key) {
          // A deletion with nothing left to hide
          drop := true;
        }
        lastSequenceForKey := key.seqno;
      }
      assert drop == Dropped(job, input, i);
      if !drop {
        builder := builder + [key];
        // A table that has reached its size is complete
        if job.fileSize(builder) >= job.maxFileSize {
          outputs, builder := outputs + [Finish(builder)], [];
        }
      }
      i := i + 1;
    }
    OutputPartition(less, job, input);
    if builder != [] {
      outputs := outputs + [Finish(builder)];
    }
  }
}
