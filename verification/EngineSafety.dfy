/** Every step of the store keeps its invariants, so every read at a live snapshot is right. */
module EngineSafety {
  import opened DbFormat
  import opened Views
  import opened Wrappers
  import opened Operations
  import opened History
  import opened Engine
  import C = Compaction

  // ---------- Commits ----------

  lemma FlatMore(batches: seq<Batch>, batch: Batch)
    ensures Flat(batches + [batch]) == Flat(batches) + batch
  {
    assert (batches + [batch])[..|batches|] == batches;
  }

  lemma BoundaryStays(batches: seq<Batch>, batch: Batch, t: nat)
    requires Boundary(batches, t)
    ensures Boundary(batches + [batch], t)
  {
    var b :| 0 <= b <= |batches| && t == |Flat(batches[..b])|;
    assert (batches + [batch])[..b] == batches[..b];
  }

  lemma EntryStays(h: seq<Op>, more: seq<Op>, i: nat)
    requires 0 < i <= |h|
    ensures EntryOf(h + more, i) == EntryOf(h, i)
  {
  }

  lemma TruthStays(h: seq<Op>, more: seq<Op>, t: nat, k: Key)
    requires t <= |h|
    ensures Truth(h + more, t, k) == Truth(h, t, k)
  {
    assert (h + more)[..t] == h[..t];
  }

  lemma {:induction false} NumbersAre(from: nat, n: nat, i: nat)
    ensures i in Numbers(from, n) <==> from < i <= from + n
  {
    if n == 0 {
    } else {
      NumbersAre(from, n - 1, i);
    }
  }

  lemma CommitMem(less: Less, s: State, batch: Batch, s': State)
    requires MemInv(s) && Steps(less, s, BeginCommit(batch), s')
    ensures MemInv(s') && Ops(s') == Ops(s) + batch && Store(s') == Store(s)
  {
    FlatMore(s.batches, batch);
    forall i {:trigger EntryOf(Ops(s'), i)} | 0 < i <= |Ops(s)| ensures EntryOf(Ops(s'), i) == EntryOf(Ops(s), i) {
      EntryStays(Ops(s), batch, i);
    }
  }

  lemma CommitView(h: seq<Op>, more: seq<Op>, es: set<Entry>, from: nat, to: nat)
    requires Answers(h, es, from, to)
    ensures Answers(h + more, es, from, to)
  {
    forall t: nat, k {:trigger Get(es, t, k)} | from <= t <= to ensures Get(es, t, k) == Truth(h + more, t, k) {
      TruthStays(h, more, t, k);
    }
  }

  lemma CommitSnapshots(s: State, batch: Batch, s': State)
    requires SnapshotInv(s) && s' == s.(batches := s.batches + [batch], logs := s'.logs)
    ensures SnapshotInv(s')
  {
    BoundaryStays(s.batches, batch, s.lastSequence);
    forall i | 0 <= i < |s.snapshots| ensures Boundary(s'.batches, s'.snapshots[i]) {
      BoundaryStays(s.batches, batch, s.snapshots[i]);
    }
  }

  lemma CommitCaptured(h: seq<Op>, more: seq<Op>, mem: set<Entry>, imm: set<Entry>, v: Version, t: nat)
    requires Captured(h, mem, imm, v, t)
    ensures Captured(h + more, mem, imm, v, t)
  {
    var all := mem + (imm + Union(v));
    forall k ensures Get(all, t, k) == Truth(h + more, t, k) {
      TruthStays(h, more, t, k);
    }
    forall e | e in all ensures e == EntryOf(h + more, e.seqno) {
      EntryStays(h, more, e.seqno);
    }
  }

  lemma CommitReader(h: seq<Op>, more: seq<Op>, tables: seq<set<Entry>>, x: Reader)
    requires ReaderInv(h, tables, x) && StageInv(h, tables, x)
    ensures ReaderInv(h + more, tables, x) && StageInv(h + more, tables, x)
  {
    TruthStays(h, more, x.seqno, x.key);
    CommitCaptured(h, more, MemOf(tables, x), ImmOf(tables, x), x.version, x.seqno);
  }

  lemma CommitReaders(s: State, batch: Batch, s': State)
    requires ReadersInv(s) && s' == s.(batches := s.batches + [batch], logs := s'.logs)
    ensures ReadersInv(s')
  {
    FlatMore(s.batches, batch);
    forall r {:trigger s'.readers[r]} | 0 <= r < |s'.readers|
      ensures Boundary(s'.batches, s'.readers[r].seqno)
      ensures ReaderInv(Ops(s'), s'.tables, s'.readers[r]) && StageInv(Ops(s'), s'.tables, s'.readers[r])
    {
      BoundaryStays(s.batches, batch, s.readers[r].seqno);
      CommitReader(Ops(s), batch, s.tables, s.readers[r]);
    }
  }

  lemma CommitLogs(less: Less, s: State, batch: Batch, s': State)
    requires LogsInv(s) && Steps(less, s, BeginCommit(batch), s') && s.memBase <= |Ops(s)|
    ensures LogsInv(s')
  {
    FlatMore(s.batches, batch);
    forall i ensures i in s'.logs[s.logfileNumber] <==> s.memBase < i <= |Ops(s')| {
      if i >= 0 { NumbersAre(|Ops(s)|, |batch|, i); }
    }
  }

  lemma CommitKeeps(less: Less, s: State, batch: Batch, s': State)
    requires Inv(less, s) && Steps(less, s, BeginCommit(batch), s')
    ensures Inv(less, s')
  {
    CommitMem(less, s, batch, s');
    CommitView(Ops(s), batch, Store(s), s.floor, s.inserted);
    CommitSnapshots(s, batch, s');
    CommitReaders(s, batch, s');
    CommitLogs(less, s, batch, s');
  }

  // ---------- Inserting into the memtable ----------

  /** The memtable after the next operation has been inserted. */
  ghost predicate Inserted(s: State, s': State) {
    && s.inserted < |Ops(s)| && s.tables != []
    && s' == s.(inserted := s.inserted + 1,
                tables := s.tables[|s.tables| - 1 := Mem(s) + {EntryOf(Ops(s), s.inserted + 1)}])
  }

  lemma InsertMem(s: State, s': State)
    requires MemInv(s) && Inserted(s, s')
    ensures MemInv(s') && Store(s') == Store(s) + {EntryOf(Ops(s), s.inserted + 1)}
    ensures FromHistory(Ops(s), Store(s)) && forall e :: e in Store(s) ==> e.seqno <= s.inserted
  {
    var e := EntryOf(Ops(s), s.inserted + 1);
    assert Mem(s') == Mem(s) + {e};
    assert Imm(s') == Imm(s);
  }

  lemma InsertView(h: seq<Op>, es: set<Entry>, from: nat, n: nat)
    requires Answers(h, es, from, n) && from <= n < |h| && FromHistory(h, es) && forall e :: e in es ==> e.seqno <= n
    ensures Answers(h, es + {EntryOf(h, n + 1)}, from, n + 1)
  {
    var e := EntryOf(h, n + 1);
    forall t: nat, k {:trigger Get(es + {e}, t, k)} | from <= t <= n + 1
      ensures Get(es + {e}, t, k) == Truth(h, t, k)
    {
      if t <= n {
        Invisible(h, es, e, t, k);
        assert Get(es, t, k) == Truth(h, t, k);
      } else {
        assert Get(es, n, k) == Truth(h, n, k);
        NextEntry(h, es, n, k);
      }
    }
  }

  lemma InsertCaptured(h: seq<Op>, mem: set<Entry>, imm: set<Entry>, v: Version, t: nat, e: Entry)
    requires Captured(h, mem, imm, v, t)
    requires t < e.seqno <= |h| && e == EntryOf(h, e.seqno)
    requires forall e' :: e' in imm + Union(v) ==> e'.seqno < e.seqno
    ensures Captured(h, mem + {e}, imm, v, t)
  {
    var all := mem + (imm + Union(v));
    assert (mem + {e}) + (imm + Union(v)) == all + {e};
    forall k ensures Get(all + {e}, t, k) == Truth(h, t, k) {
      Invisible(h, all, e, t, k);
      assert Get(all, t, k) == Truth(h, t, k);
    }
    forall k ensures Newer(mem + {e}, imm + Union(v), k) {
      assert Newer(mem, imm + Union(v), k);
    }
  }

  /** A read does not notice an entry that is newer than everything it captured. */
  lemma InsertReader(h: seq<Op>, tables: seq<set<Entry>>, tables': seq<set<Entry>>, e: Entry, x: Reader)
    requires ReaderInv(h, tables, x) && StageInv(h, tables, x)
    requires tables != [] && tables' == tables[|tables| - 1 := tables[|tables| - 1] + {e}]
    requires x.seqno < e.seqno <= |h| && e == EntryOf(h, e.seqno)
    requires forall e' :: e' in ImmOf(tables, x) + Union(x.version) ==> e'.seqno < e.seqno
    ensures ReaderInv(h, tables', x) && StageInv(h, tables', x)
  {
    assert ImmOf(tables', x) == ImmOf(tables, x);
    if x.mem == |tables| - 1 {
      var mem := MemOf(tables, x);
      assert MemOf(tables', x) == mem + {e};
      InsertCaptured(h, mem, ImmOf(tables, x), x.version, x.seqno, e);
      assert FromHistory(h, mem + {e});
      Invisible(h, mem, e, x.seqno, x.key);
    } else {
      assert MemOf(tables', x) == MemOf(tables, x);
    }
  }

  lemma InsertReaders(s: State, s': State)
    requires MemInv(s) && ReadersInv(s) && Inserted(s, s')
    ensures ReadersInv(s')
  {
    var e := EntryOf(Ops(s), s.inserted + 1);
    forall r {:trigger s'.readers[r]} | 0 <= r < |s'.readers|
      ensures ReaderInv(Ops(s'), s'.tables, s'.readers[r]) && StageInv(Ops(s'), s'.tables, s'.readers[r])
    {
      InsertReader(Ops(s), s.tables, s'.tables, e, s.readers[r]);
    }
  }

  lemma InsertKeeps(less: Less, s: State, s': State)
    requires Inv(less, s) && Inserted(s, s')
    ensures Inv(less, s')
  {
    InsertMem(s, s');
    InsertView(Ops(s), Store(s), s.floor, s.inserted);
    InsertReaders(s, s');
    assert Imm(s') == Imm(s);
  }

  lemma EndCommitKeeps(less: Less, s: State, s': State)
    requires Inv(less, s) && Steps(less, s, EndCommit, s')
    ensures Inv(less, s')
  {
    assert s.batches[..|s.batches|] == s.batches;
    assert Boundary(s'.batches, s'.lastSequence);
  }

  // ---------- Switching memtables ----------

  lemma SwitchMem(less: Less, s: State, s': State)
    requires MemInv(s) && Steps(less, s, SwitchMemtable, s')
    ensures MemInv(s') && Mem(s') == {} && Imm(s') == Mem(s) && Store(s') == Store(s)
  {
    assert Imm(s) == {};
  }

  /** A read holds on to memtables, so new ones do not concern it. */
  lemma SwitchReaders(less: Less, s: State, s': State)
    requires MemInv(s) && ReadersInv(s) && Steps(less, s, SwitchMemtable, s')
    ensures ReadersInv(s')
  {
    forall r {:trigger s'.readers[r]} | 0 <= r < |s'.readers|
      ensures ReaderInv(Ops(s'), s'.tables, s'.readers[r]) && StageInv(Ops(s'), s'.tables, s'.readers[r])
    {
      var x := s.readers[r];
      assert ReaderInv(Ops(s), s.tables, x) && StageInv(Ops(s), s.tables, x);
      assert MemOf(s'.tables, x) == MemOf(s.tables, x) && ImmOf(s'.tables, x) == ImmOf(s.tables, x);
    }
  }

  lemma SwitchLogs(less: Less, s: State, s': State)
    requires MemInv(s) && LogsInv(s) && Steps(less, s, SwitchMemtable, s')
    ensures LogsInv(s')
  {
  }

  lemma SwitchKeeps(less: Less, s: State, s': State)
    requires Inv(less, s) && Steps(less, s, SwitchMemtable, s')
    ensures Inv(less, s')
  {
    SwitchMem(less, s, s');
    SwitchReaders(less, s, s');
    SwitchLogs(less, s, s');
  }

  // ---------- Flushing ----------

  lemma TableUnion(v: Version, layer: nat, content: set<Entry>)
    requires layer <= |v|
    ensures Union(WithTable(v, layer, content)) == Union(v) + content
  {
    var v' := WithTable(v, layer, content);
    forall e ensures e in Union(v') <==> e in Union(v) + content {
      InUnion(v', e);
      InUnion(v, e);
      if e in content {
        assert e in v'[layer];
      } else if e in Union(v) {
        var i :| 0 <= i < |v| && e in v[i];
        assert e in v'[i];
      }
    }
  }

  /** A new table holds newer entries than all others, and no key of its lies above it. */
  lemma TableLayered(v: Version, layer: nat, content: set<Entry>)
    requires layer <= |v| && Layered(v) && NoOverlap(v, layer, content)
    requires forall i, e, e' {:trigger e in v[i], e' in content} :: 0 <= i < |v| && e in v[i] && e' in content ==>
               e.seqno < e'.seqno
    ensures Layered(WithTable(v, layer, content))
  {
  }

  lemma TableMem(less: Less, s: State, layer: nat, s': State)
    requires MemInv(s) && FlushInv(s) && Steps(less, s, InstallTable(layer), s')
    ensures MemInv(s') && Store(s') == Store(s) && Mem(s') == Mem(s)
  {
    TableUnion(s.version, layer, Imm(s));
    assert Mem(s') == Mem(s);
  }

  lemma VersionOlder(s: State, i: nat, e: Entry)
    requires MemInv(s) && i < |s.version| && e in s.version[i]
    ensures 0 < e.seqno <= s.immBase && e == EntryOf(Ops(s), e.seqno)
  {
    InUnion(s.version, e);
  }

  lemma TableOrder(less: Less, s: State, layer: nat, s': State)
    requires MemInv(s) && FlushInv(s) && Layered(s.version) && Steps(less, s, InstallTable(layer), s')
    ensures Layered(s'.version)
  {
    forall i, e: Entry, e': Entry {:trigger e in s.version[i], e' in Imm(s)} | 0 <= i < |s.version|
      && e in s.version[i] && e' in Imm(s)
      ensures e.seqno < e'.seqno
    {
      VersionOlder(s, i, e);
    }
    TableLayered(s.version, layer, Imm(s));
  }

  /** A flush during a compaction leaves the compaction's inputs and its base-level test valid. */
  lemma TableChosen(v: Version, layer: nat, content: set<Entry>, inputs: Version, target: nat)
    requires layer <= |v| && Chosen(v, inputs, target)
    requires forall i, e, e' {:trigger e in v[i], e' in content} :: 0 <= i < |v| && e in v[i] && e' in content ==>
               e.seqno < e'.seqno
    ensures Chosen(WithTable(v, layer, content), inputs, target)
  {
    var v' := WithTable(v, layer, content);
    forall i, j, e: Entry, e': Entry {:trigger e in inputs[i], e' in v'[j]}
      | (target <= j <= i < |inputs| && j < |v'| && e in inputs[i] && e' in v'[j] && e.key == e'.key
        && e'.seqno < e.seqno)
      ensures e' in inputs[j]
    {
      assert e in v[i];
    }
  }

  lemma TableBaseLevel(v: Version, layer: nat, content: set<Entry>, w: Work)
    requires layer <= |v| && Chosen(v, w.inputs, w.target) && BaseLevel(v, w) && NoOverlap(v, layer, content)
    ensures BaseLevel(WithTable(v, layer, content), w)
  {
    var v' := WithTable(v, layer, content);
    forall i, j, e: Entry, e': Entry {:trigger e in w.inputs[i], e' in v'[j]}
      | 0 <= i < |w.inputs| && 0 <= j < w.target && j < |v'| && e in w.inputs[i] && w.job.isBaseLevel(e.key)
        && e' in v'[j]
      ensures e'.key != e.key
    {
      assert e in v[i];
    }
  }

  lemma TableWork(less: Less, s: State, layer: nat, s': State)
    requires MemInv(s) && FlushInv(s) && WorkInv(less, s) && Steps(less, s, InstallTable(layer), s')
    ensures WorkInv(less, s')
  {
    if s.work.Some? {
      forall i, e: Entry, e': Entry {:trigger e in s.version[i], e' in Imm(s)} | 0 <= i < |s.version|
        && e in s.version[i] && e' in Imm(s)
        ensures e.seqno < e'.seqno
      {
        VersionOlder(s, i, e);
      }
      TableChosen(s.version, layer, Imm(s), s.work.value.inputs, s.work.value.target);
      TableBaseLevel(s.version, layer, Imm(s), s.work.value);
    }
  }

  lemma InstallTableKeeps(less: Less, s: State, layer: nat, s': State)
    requires Inv(less, s) && Steps(less, s, InstallTable(layer), s')
    ensures Inv(less, s')
  {
    TableMem(less, s, layer, s');
    TableOrder(less, s, layer, s');
    TableWork(less, s, layer, s');
    assert LogsInv(s');
  }

  // ---------- Compaction ----------

  function Remaining(v: Version, inputs: Version): Version
    requires |inputs| <= |v|
  {
    seq(|v|, i requires 0 <= i < |v| => if i < |inputs| then v[i] - inputs[i] else v[i])
  }

  lemma ReplacedUnion(v: Version, inputs: Version, target: nat, outputs: set<Entry>)
    requires target < |inputs| <= |v|
    ensures Union(Replaced(v, inputs, target, outputs)) == Union(Remaining(v, inputs)) + outputs
  {
    var v', left := Replaced(v, inputs, target, outputs), Remaining(v, inputs);
    forall e | e in Union(v') ensures e in Union(left) + outputs {
      InUnion(v', e);
      InUnion(left, e);
      var i :| 0 <= i < |v'| && e in v'[i];
      assert e in left[i] || e in outputs;
    }
    forall e | e in Union(left) + outputs ensures e in Union(v') {
      InUnion(v', e);
      InUnion(left, e);
      if e in outputs {
        assert e in v'[target];
      } else {
        var i :| 0 <= i < |left| && e in left[i];
        assert e in v'[i];
      }
    }
  }

  lemma RemainingUnion(v: Version, inputs: Version, target: nat)
    requires Chosen(v, inputs, target)
    ensures Union(v) == Union(Remaining(v, inputs)) + Union(inputs)
  {
    var left := Remaining(v, inputs);
    forall e | e in Union(v) ensures e in Union(left) + Union(inputs) {
      InUnion(v, e);
      InUnion(left, e);
      InUnion(inputs, e);
      var i :| 0 <= i < |v| && e in v[i];
      assert e in left[i] || (i < |inputs| && e in inputs[i]);
    }
    forall e | e in Union(left) + Union(inputs) ensures e in Union(v) {
      InUnion(v, e);
      InUnion(left, e);
      InUnion(inputs, e);
      if e in Union(left) {
        var i :| 0 <= i < |left| && e in left[i];
        assert e in v[i];
      } else {
        var i :| 0 <= i < |inputs| && e in inputs[i];
        assert e in v[i];
      }
    }
  }

  /** Entries of a key that stay above the target, or in it, are newer than its inputs from as deep or deeper. */
  lemma StayersAreNewer(h: seq<Op>, v: Version, inputs: Version, target: nat, e: Entry, j: nat, e': Entry)
    requires Chosen(v, inputs, target) && Layered(v) && FromHistory(h, Union(v))
    requires e in Union(inputs) && target <= j < |v| && e' in Remaining(v, inputs)[j] && e'.key == e.key
    ensures e.seqno < e'.seqno
  {
    InUnion(inputs, e);
    var i :| 0 <= i < |inputs| && e in inputs[i];
    assert e in v[i] && e' in v[j];
    if i < j {
    } else {
      InUnion(v, e);
      InUnion(v, e');
      if e.seqno == e'.seqno {
        SameNumberSameEntry(h, e, e');
      }
    }
  }

  lemma SameNumberSameEntry(h: seq<Op>, e: Entry, e': Entry)
    requires FromHistory(h, {e, e'}) && e.seqno == e'.seqno
    ensures e == e'
  {
    assert e in {e, e'} && e' in {e, e'};
  }

  /** Those that stay below the target are older than all inputs of their key. */
  lemma DeeperIsOlder(v: Version, inputs: Version, target: nat, e: Entry, j: nat, e': Entry)
    requires Chosen(v, inputs, target) && Layered(v)
    requires e in Union(inputs) && j < target && j < |v| && e' in v[j] && e'.key == e.key
    ensures e'.seqno < e.seqno
  {
    InUnion(inputs, e);
    var i :| 0 <= i < |inputs| && e in inputs[i];
    assert inputs[i] != {};
    assert e in v[i];
  }

  lemma ReplacedLayered(h: seq<Op>, v: Version, inputs: Version, target: nat, outputs: set<Entry>)
    requires Chosen(v, inputs, target) && Layered(v) && FromHistory(h, Union(v)) && outputs <= Union(inputs)
    ensures Layered(Replaced(v, inputs, target, outputs))
  {
    var v', left := Replaced(v, inputs, target, outputs), Remaining(v, inputs);
    forall i, j, e: Entry, e': Entry {:trigger e in v'[i], e' in v'[j]}
      | 0 <= i < j < |v'| && e in v'[i] && e' in v'[j] && e.key == e'.key
      ensures e.seqno < e'.seqno
    {
      if i == target && e in outputs {
        StayersAreNewer(h, v, inputs, target, e, j, e');
      } else if j == target && e' in outputs {
        DeeperIsOlder(v, inputs, target, e', i, e);
      } else {
        assert e in v[i] && e' in v[j];
      }
    }
  }

  lemma OutputsAreInputs(w: Work, e: Entry)
    requires e in Outputs(w)
    ensures e in Elems(w.merged)
  {
    C.KeptElements(w.job, w.merged, |w.merged|, e);
  }

  lemma ReplacedMem(s: State, inputs: Version, target: nat, outputs: set<Entry>, s': State)
    requires MemInv(s) && Layered(s.version) && Chosen(s.version, inputs, target) && outputs <= Union(inputs)
    requires s' == s.(version := Replaced(s.version, inputs, target, outputs), work := None, floor := s'.floor)
    ensures MemInv(s') && Layered(s'.version)
    ensures Mem(s') == Mem(s) && Imm(s') == Imm(s)
  {
    ReplacedUnion(s.version, inputs, target, outputs);
    RemainingUnion(s.version, inputs, target);
    ReplacedLayered(Ops(s), s.version, inputs, target, outputs);
    assert Mem(s') == Mem(s) && Imm(s') == Imm(s);
  }

  lemma VersionFromHistory(s: State)
    requires MemInv(s)
    ensures FromHistory(Ops(s), Union(s.version)) && FromHistory(Ops(s), Store(s))
  {
  }

  /** The rest of the store surrounds a compaction as its drop rules expect. */
  lemma StoreSurrounds(s: State, w: Work, rest: set<Entry>)
    requires MemInv(s) && Layered(s.version) && Chosen(s.version, w.inputs, w.target) && BaseLevel(s.version, w)
    requires Elems(w.merged) == Union(w.inputs)
    requires rest == Mem(s) + Imm(s) + Union(Remaining(s.version, w.inputs))
    ensures C.Surrounds(w.job, w.merged, rest) && Elems(w.merged) + rest == Store(s)
  {
    RemainingUnion(s.version, w.inputs, w.target);
    VersionFromHistory(s);
    assert Elems(w.merged) + rest == Store(s);
    HistoryIsUnambiguous(Ops(s), Store(s));
    forall e, e' | e in w.merged && e' in rest && e.key == e'.key && w.job.isBaseLevel(e.key)
      ensures e.Packed() < e'.Packed()
    {
      RestIsNewer(s, w, e, e');
    }
  }

  lemma NothingDeeper(v: Version, w: Work, e: Entry)
    requires |w.inputs| <= |v| && BaseLevel(v, w) && e in Union(w.inputs) && w.job.isBaseLevel(e.key)
    ensures forall j, e' {:trigger e' in v[j]} :: 0 <= j < w.target && j < |v| && e' in v[j] ==> e'.key != e.key
  {
    InUnion(w.inputs, e);
    var i :| 0 <= i < |w.inputs| && e in w.inputs[i];
  }

  lemma RestIsNewer(s: State, w: Work, e: Entry, e': Entry)
    requires MemInv(s) && Layered(s.version) && Chosen(s.version, w.inputs, w.target) && BaseLevel(s.version, w)
    requires Elems(w.merged) == Union(w.inputs) && e in w.merged && w.job.isBaseLevel(e.key)
    requires e' in Mem(s) + Imm(s) + Union(Remaining(s.version, w.inputs)) && e'.key == e.key
    ensures e.Packed() < e'.Packed()
  {
    var left := Remaining(s.version, w.inputs);
    RemainingUnion(s.version, w.inputs, w.target);
    VersionFromHistory(s);
    assert e in Elems(w.merged);
    assert e in Union(s.version) && e.Parses();
    NothingDeeper(s.version, w, e);
    assert e.seqno < e'.seqno by {
      if e' in Union(left) {
        InUnion(left, e');
        var j :| 0 <= j < |left| && e' in left[j];
        if j >= w.target {
          StayersAreNewer(Ops(s), s.version, w.inputs, w.target, e, j, e');
        }
      }
    }
  }

  /** The drop rules leave every answer at or after the smallest snapshot as it was. */
  lemma CompactionAnswers(less: Less, s: State, w: Work, t: nat, k: Key)
    requires StrictTotalOrder(less) && MemInv(s) && Layered(s.version)
    requires Chosen(s.version, w.inputs, w.target) && BaseLevel(s.version, w)
    requires Sorted(less, w.merged) && Elems(w.merged) == Union(w.inputs)
    requires w.job.smallestSnapshot <= t && w.job.smallestSnapshot < MAX_SEQUENCE_NUMBER
    ensures Get(Outputs(w) + (Mem(s) + Imm(s) + Union(Remaining(s.version, w.inputs))), t, k) == Get(Store(s), t, k)
  {
    var rest := Mem(s) + Imm(s) + Union(Remaining(s.version, w.inputs));
    StoreSurrounds(s, w, rest);
    VersionFromHistory(s);
    forall i | 0 <= i < |w.merged| ensures w.merged[i].Parses() {
      assert w.merged[i] in Elems(w.merged) + rest;
    }
    C.KeptPreserves(less, w.job, w.merged);
    assert View(Outputs(w) + rest, t) == View(Elems(w.merged) + rest, t);
    HistoryIsUnambiguous(Ops(s), Store(s));
    assert Outputs(w) + rest <= Store(s) by {
      forall e | e in Outputs(w) ensures e in Store(s) { OutputsAreInputs(w, e); }
    }
    ViewReplies(Outputs(w) + rest, t, k);
    ViewReplies(Store(s), t, k);
  }

  lemma InstallView(less: Less, s: State, s': State)
    requires StrictTotalOrder(less) && MemInv(s) && Layered(s.version) && ViewInv(s) && WorkInv(less, s)
    requires Steps(less, s, InstallCompaction, s')
    requires Mem(s') == Mem(s) && Imm(s') == Imm(s)
    ensures ViewInv(s')
  {
    var w := s.work.value;
    ReplacedUnion(s.version, w.inputs, w.target, Outputs(w));
    var rest := Mem(s) + Imm(s) + Union(Remaining(s.version, w.inputs));
    assert Store(s') == Outputs(w) + rest;
    forall t: nat, k {:trigger Get(Store(s'), t, k)} | s'.floor <= t <= s.inserted
      ensures Get(Store(s'), t, k) == Truth(Ops(s), t, k)
    {
      CompactionAnswers(less, s, w, t, k);
      assert Get(Store(s), t, k) == Truth(Ops(s), t, k);
    }
  }

  lemma InstallKeeps(less: Less, s: State, s': State)
    requires StrictTotalOrder(less) && Inv(less, s) && Steps(less, s, InstallCompaction, s')
    ensures Inv(less, s')
  {
    var w := s.work.value;
    forall e | e in Outputs(w) ensures e in Union(w.inputs) { OutputsAreInputs(w, e); }
    ReplacedMem(s, w.inputs, w.target, Outputs(w), s');
    InstallView(less, s, s');
  }

  lemma MoveKeeps(less: Less, s: State, inputs: Version, target: nat, s': State)
    requires Inv(less, s) && Steps(less, s, TrivialMove(inputs, target), s')
    ensures Inv(less, s')
  {
    ReplacedMem(s, inputs, target, Union(inputs), s');
    ReplacedUnion(s.version, inputs, target, Union(inputs));
    RemainingUnion(s.version, inputs, target);
    assert Store(s') == Store(s);
  }

  /** A compaction may drop only what no live snapshot, now or later, can tell apart. */
  lemma BeginCompactionStep(less: Less, s: State, w: Work, s': State)
    requires FlushInv(s) && SnapshotInv(s) && Steps(less, s, BeginCompaction(w), s')
    ensures FlushInv(s') && WorkInv(less, s') && s' == s.(work := s'.work)
  {
  }

  lemma BeginCompactionKeeps(less: Less, s: State, w: Work, s': State)
    requires Inv(less, s) && Steps(less, s, BeginCompaction(w), s')
    ensures Inv(less, s')
  {
    BeginCompactionStep(less, s, w, s');
    BackgroundKeeps(less, s, s');
  }

  // ---------- Snapshots ----------

  lemma SnapshotsKeep(less: Less, s: State, s': State)
    requires Inv(less, s) && s' == s.(snapshots := s'.snapshots) && SnapshotInv(s') && WorkInv(less, s')
    ensures Inv(less, s')
  {
    assert Store(s') == Store(s) && Ops(s') == Ops(s);
  }

  lemma ReadersKeep(less: Less, s: State, s': State)
    requires Inv(less, s) && s' == s.(readers := s'.readers) && ReadersInv(s')
    ensures Inv(less, s')
  {
    assert Store(s') == Store(s) && Ops(s') == Ops(s);
  }

  lemma NewSnapshotKeeps(less: Less, s: State, s': State)
    requires SnapshotInv(s) && WorkInv(less, s) && Steps(less, s, NewSnapshot, s')
    ensures SnapshotInv(s') && WorkInv(less, s')
  {
  }

  lemma ReleaseKeeps(less: Less, s: State, i: nat, s': State)
    requires SnapshotInv(s) && WorkInv(less, s) && Steps(less, s, ReleaseSnapshot(i), s')
    ensures SnapshotInv(s') && WorkInv(less, s')
  {
    forall j {:trigger s'.snapshots[j]} | 0 <= j < |s'.snapshots|
      ensures s'.snapshots[j] == if j < i then s.snapshots[j] else s.snapshots[j + 1]
    {
    }
  }

  // ---------- Reads ----------

  lemma BeginReadCaptures(s: State, t: nat)
    requires MemInv(s) && Layered(s.version) && ViewInv(s) && s.floor <= t <= s.inserted
    ensures Captured(Ops(s), Mem(s), Imm(s), s.version, t)
  {
    var all := Mem(s) + (Imm(s) + Union(s.version));
    assert all == Store(s);
    forall k ensures Get(all, t, k) == Truth(Ops(s), t, k) {
      assert Get(Store(s), t, k) == Truth(Ops(s), t, k);
    }
  }

  /** What a read captures when it begins. */
  lemma BeginReadStep(less: Less, s: State, key: Key, snapshot: Option<nat>, s': State) returns (x: Reader)
    requires MemInv(s) && SnapshotInv(s) && Steps(less, s, BeginRead(key, snapshot), s')
    ensures s' == s.(readers := s.readers + [x])
    ensures x.version == s.version && x.stage == AtMem
    ensures s.floor <= x.seqno <= s.lastSequence && x.seqno <= s.inserted && Boundary(s.batches, x.seqno)
    ensures x.mem < |s.tables| && (x.imm.Some? ==> x.imm.value < x.mem)
    ensures MemOf(s.tables, x) == Mem(s) && ImmOf(s.tables, x) == Imm(s)
  {
    x := s'.readers[|s.readers|];
    if snapshot.Some? {
      var i :| 0 <= i < |s.snapshots| && s.snapshots[i] == snapshot.value;
    }
  }

  /** One more reader that knows its part. */
  lemma NewReaderKeeps(s: State, x: Reader, s': State)
    requires ReadersInv(s) && s' == s.(readers := s.readers + [x])
    requires x.seqno <= s.lastSequence && Boundary(s.batches, x.seqno)
    requires forall e :: e in Union(x.version) ==> e.seqno <= s.inserted
    requires ReaderInv(Ops(s), s.tables, x) && StageInv(Ops(s), s.tables, x)
    ensures ReadersInv(s')
  {
  }

  lemma BeginReadKeeps(less: Less, s: State, key: Key, snapshot: Option<nat>, s': State)
    requires MemInv(s) && Layered(s.version) && ViewInv(s) && SnapshotInv(s) && ReadersInv(s)
    requires Steps(less, s, BeginRead(key, snapshot), s')
    ensures ReadersInv(s') && s' == s.(readers := s'.readers)
  {
    var x := BeginReadStep(less, s, key, snapshot, s');
    BeginReadCaptures(s, x.seqno);
    NewReaderKeeps(s, x, s');
  }

  /** The three places a read looks into give the history's answer between them. */
  lemma CapturedLookups(h: seq<Op>, mem: set<Entry>, imm: set<Entry>, v: Version, t: nat, k: Key)
    requires Captured(h, mem, imm, v, t)
    ensures Truth(h, t, k) == Reply(
              if Look(mem, t, k) != Missing then Look(mem, t, k)
              else if Look(imm, t, k) != Missing then Look(imm, t, k)
              else VersionGet(v, t, k))
  {
    assert Get(mem + (imm + Union(v)), t, k) == Truth(h, t, k);
    assert FromHistory(h, imm + Union(v)) && FromHistory(h, Union(v));
    TwoLayers(h, mem, imm + Union(v), t, k);
    TwoLayers(h, imm, Union(v), t, k);
    LayeredGet(h, v, t, k);
  }

  lemma LookNothing(s: nat, k: Key)
    ensures Look({}, s, k) == Missing
  {
  }

  /** A step of a read. */
  ghost predicate Looks(tables: seq<set<Entry>>, x: Reader, x': Reader) {
    match x.stage
    case AtMem =>
      x' == x.(stage := After(Look(MemOf(tables, x), x.seqno, x.key), if x.imm.Some? then AtImm else AtVersion))
    case AtImm => x' == x.(stage := After(Look(ImmOf(tables, x), x.seqno, x.key), AtVersion))
    case AtVersion => x' == x.(stage := Finished(Reply(VersionGet(x.version, x.seqno, x.key))))
    case Finished(_) => false
  }

  lemma LookIsRight(h: seq<Op>, tables: seq<set<Entry>>, x: Reader, x': Reader)
    requires ReaderInv(h, tables, x) && StageInv(h, tables, x) && Looks(tables, x, x')
    ensures ReaderInv(h, tables, x') && StageInv(h, tables, x')
  {
    CapturedLookups(h, MemOf(tables, x), ImmOf(tables, x), x.version, x.seqno, x.key);
    LookNothing(x.seqno, x.key);
    assert MemOf(tables, x') == MemOf(tables, x) && ImmOf(tables, x') == ImmOf(tables, x);
  }

  lemma LookStep(less: Less, s: State, step: Step, r: nat, s': State) returns (x: Reader)
    requires Steps(less, s, step, s') && (step == LookMem(r) || step == LookImm(r) || step == LookVersion(r))
    ensures r < |s.readers| && s' == s.(readers := s.readers[r := x])
    ensures x == s.readers[r].(stage := x.stage) && Looks(s.tables, s.readers[r], x)
  {
    x := s'.readers[r];
  }

  /** A reader that has looked at one place more still knows its part. */
  lemma ReaderMoves(s: State, r: nat, x: Reader, s': State)
    requires ReadersInv(s) && r < |s.readers| && s' == s.(readers := s.readers[r := x])
    requires x == s.readers[r].(stage := x.stage)
    requires ReaderInv(Ops(s), s.tables, x) && StageInv(Ops(s), s.tables, x)
    ensures ReadersInv(s')
  {
  }

  lemma LookKeeps(less: Less, s: State, step: Step, r: nat, s': State)
    requires ReadersInv(s) && Steps(less, s, step, s')
    requires step == LookMem(r) || step == LookImm(r) || step == LookVersion(r)
    ensures ReadersInv(s') && s' == s.(readers := s'.readers)
  {
    var x := LookStep(less, s, step, r, s');
    LookIsRight(Ops(s), s.tables, s.readers[r], x);
    ReaderMoves(s, r, x, s');
  }

  // ---------- Runs ----------

  lemma InitialInv(less: Less, levels: nat)
    ensures Inv(less, Initial(levels))
  {
    var s := Initial(levels);
    forall e ensures e !in Union(s.version) {
      InUnion(s.version, e);
    }
    assert Store(s) == {};
    forall t: nat, k {:trigger Get(Store(s), t, k)} | 0 <= t <= 0 ensures Get(Store(s), t, k) == Truth(Ops(s), t, k) {
      LookNothing(t, k);
    }
    assert s.batches[..0] == [];
    assert Boundary(s.batches, 0);
  }

  lemma LogFilesStep(less: Less, s: State, s': State)
    requires LogsInv(s) && Steps(less, s, DeleteObsoleteFiles, s')
    ensures LogsInv(s') && s' == s.(logs := s'.logs)
  {
  }

  lemma LogsKeep(less: Less, s: State, s': State)
    requires Inv(less, s) && s' == s.(logs := s'.logs) && LogsInv(s')
    ensures Inv(less, s')
  {
    assert Store(s') == Store(s) && Ops(s') == Ops(s);
  }

  lemma LogFilesKeep(less: Less, s: State, s': State)
    requires Inv(less, s) && Steps(less, s, DeleteObsoleteFiles, s')
    ensures Inv(less, s')
  {
    LogFilesStep(less, s, s');
    LogsKeep(less, s, s');
  }

  lemma BackgroundKeeps(less: Less, s: State, s': State)
    requires Inv(less, s) && s' == s.(flush := s'.flush, work := s'.work, nextFile := s'.nextFile)
    requires FlushInv(s') && WorkInv(less, s') && s.nextFile <= s'.nextFile
    ensures Inv(less, s')
  {
    assert Store(s') == Store(s) && Ops(s') == Ops(s);
  }

  lemma BackgroundStep(less: Less, s: State, step: Step, s': State)
    requires FlushInv(s) && WorkInv(less, s) && Steps(less, s, step, s')
    requires step.BuildTable? || step.AbandonTable? || step.AbandonCompaction?
    ensures FlushInv(s') && WorkInv(less, s') && s.nextFile <= s'.nextFile
    ensures s' == s.(flush := s'.flush, work := s'.work, nextFile := s'.nextFile)
  {
  }

  lemma SnapshotStep(less: Less, s: State, step: Step, s': State)
    requires SnapshotInv(s) && WorkInv(less, s) && Steps(less, s, step, s')
    requires step.NewSnapshot? || step.ReleaseSnapshot?
    ensures SnapshotInv(s') && WorkInv(less, s') && s' == s.(snapshots := s'.snapshots)
  {
    match step
    case NewSnapshot => NewSnapshotKeeps(less, s, s');
    case ReleaseSnapshot(i) => ReleaseKeeps(less, s, i, s');
  }

  lemma SnapshotStepKeeps(less: Less, s: State, step: Step, s': State)
    requires Inv(less, s) && Steps(less, s, step, s') && (step.NewSnapshot? || step.ReleaseSnapshot?)
    ensures Inv(less, s')
  {
    SnapshotStep(less, s, step, s');
    SnapshotsKeep(less, s, s');
  }

  lemma BeginReadStepKeeps(less: Less, s: State, key: Key, snapshot: Option<nat>, s': State)
    requires Inv(less, s) && Steps(less, s, BeginRead(key, snapshot), s')
    ensures Inv(less, s')
  {
    BeginReadKeeps(less, s, key, snapshot, s');
    ReadersKeep(less, s, s');
  }

  lemma LookStepKeeps(less: Less, s: State, step: Step, s': State)
    requires Inv(less, s) && Steps(less, s, step, s') && (step.LookMem? || step.LookImm? || step.LookVersion?)
    ensures Inv(less, s')
  {
    var r := match step case LookMem(r) => r case LookImm(r) => r case LookVersion(r) => r;
    LookKeeps(less, s, step, r, s');
    ReadersKeep(less, s, s');
  }

  lemma CommitStepKeeps(less: Less, s: State, step: Step, s': State)
    requires Inv(less, s) && Steps(less, s, step, s')
    requires step.BeginCommit? || step.InsertNext? || step.EndCommit? || step.SwitchMemtable?
    ensures Inv(less, s')
  {
    match step
    case BeginCommit(batch) => CommitKeeps(less, s, batch, s');
    case InsertNext => InsertKeeps(less, s, s');
    case EndCommit => EndCommitKeeps(less, s, s');
    case SwitchMemtable => SwitchKeeps(less, s, s');
  }

  lemma StepKeeps(less: Less, s: State, step: Step, s': State)
    requires StrictTotalOrder(less) && Inv(less, s) && Steps(less, s, step, s')
    ensures Inv(less, s')
  {
    if step.BeginCommit? || step.InsertNext? || step.EndCommit? || step.SwitchMemtable? {
      CommitStepKeeps(less, s, step, s');
    } else if step.NewSnapshot? || step.ReleaseSnapshot? {
      SnapshotStepKeeps(less, s, step, s');
    } else if step.BeginRead? {
      BeginReadStepKeeps(less, s, step.key, step.snapshot, s');
    } else if step.LookMem? || step.LookImm? || step.LookVersion? {
      LookStepKeeps(less, s, step, s');
    } else if step.BuildTable? || step.AbandonTable? || step.AbandonCompaction? {
      BackgroundStep(less, s, step, s');
      BackgroundKeeps(less, s, s');
    } else {
      InstallStepKeeps(less, s, step, s');
    }
  }

  lemma InstallStepKeeps(less: Less, s: State, step: Step, s': State)
    requires StrictTotalOrder(less) && Inv(less, s) && Steps(less, s, step, s')
    requires step.InstallTable? || step.DeleteObsoleteFiles? || step.BeginCompaction?
             || step.InstallCompaction? || step.TrivialMove?
    ensures Inv(less, s')
  {
    match step
    case InstallTable(layer) => InstallTableKeeps(less, s, layer, s');
    case DeleteObsoleteFiles => LogFilesKeep(less, s, s');
    case BeginCompaction(w) => BeginCompactionKeeps(less, s, w, s');
    case InstallCompaction => InstallKeeps(less, s, s');
    case TrivialMove(inputs, target) => MoveKeeps(less, s, inputs, target, s');
  }

  lemma {:induction false} RunKeeps(less: Less, levels: nat, states: seq<State>, steps: seq<Step>, i: nat)
    requires StrictTotalOrder(less) && Run(less, levels, states, steps) && i < |states|
    ensures Inv(less, states[i])
  {
    if i == 0 {
      InitialInv(less, levels);
    } else {
      RunKeeps(less, levels, states, steps, i - 1);
      assert Steps(less, states[i - 1], steps[i - 1], states[i - 1 + 1]);
      StepKeeps(less, states[i - 1], steps[i - 1], states[i]);
    }
  }

  // ---------- What users and the log files can rely on ----------

  /** `t` is the number of operations in the first `b` batches, and the answer is what replaying just those gives. */
  ghost predicate AnswersBatches(batches: seq<Batch>, b: nat, t: nat, k: Key, result: Option<Value>) {
    && b <= |batches| && t == |Flat(batches[..b])|
    && var m := Replay(Flat(batches[..b])); result == if k in m then Some(m[k]) else None
  }

  lemma {:induction false} FlatPrefix(batches: seq<Batch>, b: nat)
    requires b <= |batches|
    ensures |Flat(batches[..b])| <= |Flat(batches)|
    ensures Flat(batches)[..|Flat(batches[..b])|] == Flat(batches[..b])
    decreases |batches|
  {
    if b == |batches| {
      assert batches[..b] == batches;
    } else {
      var init := batches[..|batches| - 1];
      assert init[..b] == batches[..b];
      FlatPrefix(init, b);
    }
  }

  lemma BoundaryAnswers(batches: seq<Batch>, t: nat, k: Key) returns (b: nat)
    requires Boundary(batches, t)
    ensures t <= |Flat(batches)| && AnswersBatches(batches, b, t, k, Truth(Flat(batches), t, k))
  {
    b :| 0 <= b <= |batches| && t == |Flat(batches[..b])|;
    FlatPrefix(batches, b);
  }

  /**
   * Snapshot isolation: in every run, a finished read has returned exactly what
   * replaying a whole number of batches gives, up to its sequence number.
   */
  lemma SnapshotIsolation(less: Less, levels: nat, states: seq<State>, steps: seq<Step>, i: nat, r: nat)
    requires StrictTotalOrder(less) && Run(less, levels, states, steps) && i < |states|
    requires r < |states[i].readers| && states[i].readers[r].stage.Finished?
    ensures var x := states[i].readers[r];
            exists b :: AnswersBatches(states[i].batches, b, x.seqno, x.key, x.stage.result)
  {
    RunKeeps(less, levels, states, steps, i);
    var x := states[i].readers[r];
    var b := BoundaryAnswers(states[i].batches, x.seqno, x.key);
  }

  /** A sequence number at which reads may start now. */
  predicate Live(s: State, t: nat) {
    t in s.snapshots || t == s.lastSequence
  }

  lemma LiveIsReadable(s: State, t: nat)
    requires MemInv(s) && SnapshotInv(s) && Live(s, t)
    ensures s.floor <= t <= s.inserted && Boundary(s.batches, t)
  {
    if t in s.snapshots {
      var i :| 0 <= i < |s.snapshots| && s.snapshots[i] == t;
    }
  }

  /** In every reachable state, looking through memtables and layers at a live number gives the history's answer. */
  lemma LiveReadsAnswer(less: Less, levels: nat, states: seq<State>, steps: seq<Step>, i: nat, t: nat, k: Key)
    requires StrictTotalOrder(less) && Run(less, levels, states, steps) && i < |states| && Live(states[i], t)
    ensures var s := states[i];
            && t <= |Ops(s)|
            && Truth(Ops(s), t, k) == Reply(
                 if Look(Mem(s), t, k) != Missing then Look(Mem(s), t, k)
                 else if Look(Imm(s), t, k) != Missing then Look(Imm(s), t, k)
                 else VersionGet(s.version, t, k))
  {
    RunKeeps(less, levels, states, steps, i);
    var s := states[i];
    LiveIsReadable(s, t);
    BeginReadCaptures(s, t);
    CapturedLookups(Ops(s), Mem(s), Imm(s), s.version, t, k);
  }

  /** What an iterator made at a live number walks over is the replayed map. */
  lemma LiveViewIsReplay(less: Less, levels: nat, states: seq<State>, steps: seq<Step>, i: nat, t: nat)
    requires StrictTotalOrder(less) && Run(less, levels, states, steps) && i < |states| && Live(states[i], t)
    ensures t <= |Ops(states[i])| && View(Store(states[i]), t) == Replay(Ops(states[i])[..t])
  {
    RunKeeps(less, levels, states, steps, i);
    var s := states[i];
    LiveIsReadable(s, t);
    VersionFromHistory(s);
    AnswersAreView(Ops(s), Store(s), t);
  }

  /**
   * Whatever has been inserted, flushed, compacted or released since, the entries
   * that a read or an iterator holds on to still show exactly the replayed map.
   */
  lemma CapturedViewIsReplay(less: Less, levels: nat, states: seq<State>, steps: seq<Step>, i: nat, r: nat)
    requires StrictTotalOrder(less) && Run(less, levels, states, steps) && i < |states|
    requires r < |states[i].readers|
    ensures var s, x := states[i], states[i].readers[r];
            && x.seqno <= |Ops(s)|
            && View(MemOf(s.tables, x) + (ImmOf(s.tables, x) + Union(x.version)), x.seqno) == Replay(Ops(s)[..x.seqno])
  {
    RunKeeps(less, levels, states, steps, i);
    var s, x := states[i], states[i].readers[r];
    assert ReaderInv(Ops(s), s.tables, x);
    AnswersAreView(Ops(s), MemOf(s.tables, x) + (ImmOf(s.tables, x) + Union(x.version)), x.seqno);
  }

  /** A store that answers as the history does shows exactly the replayed map. */
  lemma AnswersAreView(h: seq<Op>, es: set<Entry>, t: nat)
    requires FromHistory(h, es) && t <= |h| && forall k {:trigger Get(es, t, k)} :: Get(es, t, k) == Truth(h, t, k)
    ensures View(es, t) == Replay(h[..t])
  {
    HistoryIsUnambiguous(h, es);
    forall k ensures Get(es, t, k) == (if k in View(es, t) then Some(View(es, t)[k]) else None)
    {
      ViewReplies(es, t, k);
    }
    SameMaps(View(es, t), Replay(h[..t]), k => Get(es, t, k));
  }

  lemma SameMaps(a: map<Key, Value>, b: map<Key, Value>, get: Key -> Option<Value>)
    requires forall k :: get(k) == (if k in a then Some(a[k]) else None)
    requires forall k :: get(k) == (if k in b then Some(b[k]) else None)
    ensures a == b
  {
    forall k ensures (k in a <==> k in b) && (k in a && k in b ==> a[k] == b[k]) {
      var value := get(k);
    }
  }

  /** While a memtable waits to be flushed, neither the log file nor the current memtable is replaced. */
  lemma {:induction false} LogFileStays(less: Less, levels: nat, states: seq<State>, steps: seq<Step>, i: nat, j: nat)
    requires StrictTotalOrder(less) && Run(less, levels, states, steps) && i <= j < |states|
    requires forall m :: i <= m <= j ==> states[m].hasImm
    ensures states[j].logfileNumber == states[i].logfileNumber && |states[j].tables| == |states[i].tables|
    ensures Imm(states[j]) == Imm(states[i])
    ensures states[i].logNumber in states[j].logs && states[j].logNumber == states[i].logNumber
    decreases j
  {
    if i == j {
      RunKeeps(less, levels, states, steps, i);
    } else {
      LogFileStays(less, levels, states, steps, i, j - 1);
      RunKeeps(less, levels, states, steps, j - 1);
      assert Steps(less, states[j - 1], steps[j - 1], states[j - 1 + 1]);
      WaitingStep(less, states[j - 1], steps[j - 1], states[j]);
    }
  }

  lemma WaitingStep(less: Less, s: State, step: Step, s': State)
    requires |s.tables| >= 2 && s.logNumber in s.logs && s.nextFile !in s.logs && s.logNumber < s.nextFile
    requires Steps(less, s, step, s') && s.hasImm && s'.hasImm
    ensures s'.logfileNumber == s.logfileNumber && |s'.tables| == |s.tables| && Imm(s') == Imm(s)
    ensures s'.logNumber == s.logNumber && s.logNumber in s'.logs
  {
  }

  /** Every entry that is only in memory is in a log that removing obsolete files keeps. */
  lemma UnflushedIsLogged(less: Less, levels: nat, states: seq<State>, steps: seq<Step>, i: nat, e: Entry)
    requires StrictTotalOrder(less) && Run(less, levels, states, steps) && i < |states|
    requires e in Mem(states[i]) + Imm(states[i])
    ensures var s := states[i];
            exists n :: n in s.logs && n >= s.logNumber && e.seqno in s.logs[n]
              && (e in Mem(s) ==> n == s.logfileNumber)
              && forall s' :: Steps(less, s, DeleteObsoleteFiles, s') ==> n in s'.logs && s'.logs[n] == s.logs[n]
  {
    RunKeeps(less, levels, states, steps, i);
    var s := states[i];
    var n := if e in Mem(s) then s.logfileNumber else s.logNumber;
    assert e.seqno in s.logs[n];
  }

  /** What opening the database after a crash finds: the tables, and the operations in the logs it replays. */
  ghost function Recovered(s: State): set<Entry> {
    Union(s.version) + set n, i | n in s.logs && n >= s.logNumber && i in s.logs[n] && 0 < i <= |Ops(s)| ::
      EntryOf(Ops(s), i)
  }

  /** `es` with the entries of operations `n + 1` to `m`. */
  ghost function WithEntries(h: seq<Op>, es: set<Entry>, n: nat, m: nat): set<Entry>
    requires n <= m <= |h|
    decreases m
  {
    if n == m then es else WithEntries(h, es, n, m - 1) + {EntryOf(h, m)}
  }

  lemma {:induction false} InWithEntries(h: seq<Op>, es: set<Entry>, n: nat, m: nat, e: Entry)
    requires n <= m <= |h|
    ensures e in WithEntries(h, es, n, m) <==> e in es || (n < e.seqno <= m && e == EntryOf(h, e.seqno))
    decreases m
  {
    if n == m {
    } else {
      InWithEntries(h, es, n, m - 1, e);
    }
  }

  lemma WithEntriesFromHistory(h: seq<Op>, es: set<Entry>, n: nat, m: nat)
    requires n <= m <= |h| && FromHistory(h, es) && forall e :: e in es ==> e.seqno <= n
    ensures FromHistory(h, WithEntries(h, es, n, m)) && forall e :: e in WithEntries(h, es, n, m) ==> e.seqno <= m
  {
    forall e | e in WithEntries(h, es, n, m) ensures 0 < e.seqno <= m && e == EntryOf(h, e.seqno) {
      InWithEntries(h, es, n, m, e);
    }
  }

  lemma {:induction false} WithEntriesAnswers(h: seq<Op>, es: set<Entry>, n: nat, m: nat, k: Key)
    requires n <= m <= |h| && FromHistory(h, es) && forall e :: e in es ==> e.seqno <= n
    requires Get(es, n, k) == Truth(h, n, k)
    ensures Get(WithEntries(h, es, n, m), m, k) == Truth(h, m, k)
    decreases m
  {
    if n == m {
    } else {
      WithEntriesAnswers(h, es, n, m - 1, k);
      WithEntriesFromHistory(h, es, n, m - 1);
      NextAnswers(h, WithEntries(h, es, n, m - 1), WithEntries(h, es, n, m), m, k);
    }
  }

  lemma NextAnswers(h: seq<Op>, before: set<Entry>, after: set<Entry>, m: nat, k: Key)
    requires 0 < m <= |h| && FromHistory(h, before) && forall e :: e in before ==> e.seqno <= m - 1
    requires after == before + {EntryOf(h, m)} && Get(before, m - 1, k) == Truth(h, m - 1, k)
    ensures Get(after, m, k) == Truth(h, m, k)
  {
    NextEntry(h, before, m - 1, k);
  }

  lemma InLogs(s: State, i: nat)
    requires MemInv(s) && LogsInv(s)
    ensures (exists n :: n in s.logs && n >= s.logNumber && i in s.logs[n]) <==> s.immBase < i <= |Ops(s)|
  {
    if s.immBase < i <= |Ops(s)| {
      var n := if i > s.memBase then s.logfileNumber else s.logNumber;
      assert n in s.logs && n >= s.logNumber && i in s.logs[n];
    }
  }

  lemma RecoveredIs(s: State)
    requires MemInv(s) && LogsInv(s)
    ensures Recovered(s) == WithEntries(Ops(s), Store(s), s.inserted, |Ops(s)|)
  {
    var h, all := Ops(s), WithEntries(Ops(s), Store(s), s.inserted, |Ops(s)|);
    forall e | e in Recovered(s) ensures e in all {
      InWithEntries(h, Store(s), s.inserted, |h|, e);
      if e !in Union(s.version) {
        InLogs(s, e.seqno);
      }
    }
    forall e | e in all ensures e in Recovered(s) {
      InWithEntries(h, Store(s), s.inserted, |h|, e);
      if e !in Union(s.version) {
        InLogs(s, e.seqno);
        assert e == EntryOf(h, e.seqno);
      }
    }
  }

  /** Recovery: at any moment of any run, the tables and the kept logs together hold the whole history's contents. */
  lemma RecoveryIsComplete(less: Less, levels: nat, states: seq<State>, steps: seq<Step>, i: nat, k: Key)
    requires StrictTotalOrder(less) && Run(less, levels, states, steps) && i < |states|
    ensures var s := states[i]; Get(Recovered(s), |Ops(s)|, k) == Truth(Ops(s), |Ops(s)|, k)
  {
    RunKeeps(less, levels, states, steps, i);
    var s := states[i];
    RecoveredIs(s);
    VersionFromHistory(s);
    assert Get(Store(s), s.inserted, k) == Truth(Ops(s), s.inserted, k);
    WithEntriesAnswers(Ops(s), Store(s), s.inserted, |Ops(s)|, k);
  }
}
