/** What an insert into the concurrent skip list has done when it is finished, and who can begin what at any time. */
module SkipListInserts {
  import opened SkipLayout
  import opened SkipListConcurrent

  // ---------- Every node is linked at all its levels ----------

  /** The levels at which each node is linked are all it has, but for the node that is being linked. */
  ghost predicate FullyLinked<K(!new)>(s: State<K>) {
    InHeap(s) && |s.linked| == |s.order| &&
    forall p {:trigger s.order[p]} :: 0 <= p < |s.order| ==>
      || s.linked[p] == |s.heap[s.order[p]].next|
      || (s.writer.Linking? && s.order[p] == s.writer.node && s.linked[p] == s.writer.i)
  }

  /** Stores change links, not heights. */
  lemma StoreKeepsHeights<K(!new)>(heap: seq<Node<K>>, x: Id, level: nat, link: Id)
    requires 0 <= x < |heap| && level < |heap[x].next|
    ensures forall i :: 0 <= i < |heap| ==> |Store(heap, x, level, link)[i].next| == |heap[i].next|
    ensures forall i :: 0 <= i < |heap| ==> Store(heap, x, level, link)[i].key == heap[i].key
  {
  }

  lemma LowestLinked<K(!new)>(less: (K, K) -> bool, s: State<K>, s': State<K>)
    requires Inv(less, s) && FullyLinked(s) && Publishes(less, s, s') && s.writer.i == 0
    ensures FullyLinked(s')
  {
    var c := Ceiling(less, Keys(s), s.heap[s.writer.node].key);
    PublishesLowest(less, s, s', c);
    LowestKeys(s, s', s.writer.node, c);
    StoreKeepsHeights(s.heap, s.writer.prev[0], 0, s.writer.node);
    forall p | 0 <= p < |s'.order|
      ensures || s'.linked[p] == |s'.heap[s'.order[p]].next|
              || (s'.writer.Linking? && s'.order[p] == s'.writer.node && s'.linked[p] == s'.writer.i)
    {
      if p < c {
        assert s'.order[p] == s.order[p];
      } else if p > c {
        assert s'.order[p] == s.order[p - 1];
      }
    }
  }

  lemma HigherLinked<K(!new)>(less: (K, K) -> bool, s: State<K>, s': State<K>)
    requires Inv(less, s) && FullyLinked(s) && Publishes(less, s, s') && s.writer.i > 0
    ensures FullyLinked(s')
  {
    var c := Ceiling(less, Keys(s), s.heap[s.writer.node].key);
    StoreKeepsHeights(s.heap, s.writer.prev[s.writer.i], s.writer.i, s.writer.node);
    assert s.order[c] == s.writer.node;
  }

  lemma OtherLinked<K(!new)>(less: (K, K) -> bool, s: State<K>, s': State<K>)
    requires Inv(less, s) && FullyLinked(s) && Step(less, s, s') && !Publishes(less, s, s')
    ensures FullyLinked(s')
  {
    if Copies(s, s') {
      StoreKeepsHeights(s.heap, s.writer.node, s.writer.i, s.heap[s.writer.prev[s.writer.i]].next[s.writer.i]);
    } else {
      assert s'.order == s.order && s'.linked == s.linked && s.heap <= s'.heap;
      assert s'.writer == s.writer || !s.writer.Linking?;
    }
  }

  lemma {:induction false} RunFullyLinked<K(!new)>(less: (K, K) -> bool, run: seq<State<K>>, i: nat)
    requires StrictWeak(less) && Run(less, run) && i < |run|
    ensures FullyLinked(run[i])
    decreases i
  {
    if i == 0 {
    } else {
      RunFullyLinked(less, run, i - 1);
      RunKeeps(less, run, i - 1);
      var s, s' := run[i - 1], run[i];
      assert Step(less, s, s');
      if !Publishes(less, s, s') {
        OtherLinked(less, s, s');
      } else if s.writer.i == 0 {
        LowestLinked(less, s, s');
      } else {
        HigherLinked(less, s, s');
      }
    }
  }

  // ---------- An insert puts its key into the list ----------

  /** The key being inserted. */
  predicate Inserting<K(==)>(s: State<K>, key: K) {
    match s.writer
    case Idle => false
    case Finding(search, _) => search.target == key
    case Found(k, _) => k == key
    case Linking(node, _, _, _) => 0 <= node < |s.heap| && s.heap[node].key == key
  }

  ghost predicate InList<K(!new)>(s: State<K>, key: K) {
    exists p :: 0 <= p < |Keys(s)| && Keys(s)[p] == key
  }

  lemma AdvanceKeepsTarget<K(!new)>(less: (K, K) -> bool, heap: seq<Node<K>>, q: Search<K>)
    requires q.On? && CanLoad(heap, q.x, q.level)
    ensures Advance(less, heap, q).target == q.target
  {
  }

  lemma PublishedIsIn<K(!new)>(less: (K, K) -> bool, s: State<K>, s': State<K>, key: K)
    requires Inv(less, s) && Publishes(less, s, s') && Inserting(s, key)
    ensures InList(s', key) && (s'.writer.Idle? || Inserting(s', key))
  {
    var c := Ceiling(less, Keys(s), key);
    StoreKeepsHeights(s.heap, s.writer.prev[s.writer.i], s.writer.i, s.writer.node);
    if s.writer.i == 0 {
      PublishLowestKeeps(less, s, s');
      assert Keys(s')[c] == key;
    } else {
      PublishHigherKeeps(less, s, s');
      assert Keys(s)[c] == key;
    }
  }

  /** A step of anybody leaves the key that is being inserted, until it is in the list and the insert is done. */
  lemma StaysInserting<K(!new)>(less: (K, K) -> bool, s: State<K>, s': State<K>, key: K)
    requires Inv(less, s) && Step(less, s, s') && Inserting(s, key)
    ensures Inserting(s', key) || (s'.writer.Idle? && InList(s', key))
  {
    if Publishes(less, s, s') {
      PublishedIsIn(less, s, s', key);
    } else if WriterLoads(less, s, s') {
      AdvanceKeepsTarget(less, s.heap, s.writer.search);
    } else if Copies(s, s') {
      StoreKeepsHeights(s.heap, s.writer.node, s.writer.i, s.heap[s.writer.prev[s.writer.i]].next[s.writer.i]);
    }
  }

  lemma NextInserting<K(!new)>(less: (K, K) -> bool, run: seq<State<K>>, i: nat, key: K)
    requires StrictWeak(less) && Run(less, run) && i + 1 < |run| && Inserting(run[i], key)
    ensures Inserting(run[i + 1], key) || (run[i + 1].writer.Idle? && InList(run[i + 1], key))
  {
    RunKeeps(less, run, i);
    StaysInserting(less, run[i], run[i + 1], key);
  }

  /** While a key is being inserted, a step leads to another such state or to one in which it is in the list. */
  ghost predicate GoesThrough<K(!new)>(run: seq<State<K>>, key: K) {
    forall i {:trigger Inserting(run[i], key)} :: 0 <= i < |run| - 1 && Inserting(run[i], key) ==>
      Inserting(run[i + 1], key) || (run[i + 1].writer.Idle? && InList(run[i + 1], key))
  }

  lemma RunGoesThrough<K(!new)>(less: (K, K) -> bool, run: seq<State<K>>, key: K)
    requires StrictWeak(less) && Run(less, run)
    ensures GoesThrough(run, key)
  {
    forall i {:trigger Inserting(run[i], key)} | 0 <= i < |run| - 1 && Inserting(run[i], key)
      ensures Inserting(run[i + 1], key) || (run[i + 1].writer.Idle? && InList(run[i + 1], key))
    {
      NextInserting(less, run, i, key);
    }
  }

  lemma {:induction false} InsertingUntil<K(!new)>(run: seq<State<K>>, a: nat, b: nat, key: K)
    requires GoesThrough(run, key) && a <= b < |run| && Inserting(run[a], key)
    requires forall m {:trigger run[m]} :: a <= m < b ==> !run[m].writer.Idle?
    ensures Inserting(run[b], key) || (run[b].writer.Idle? && InList(run[b], key))
    decreases b
  {
    if a == b {
    } else {
      InsertingUntil(run, a, b - 1, key);
      assert !run[b - 1].writer.Idle?;
    }
  }

  /**
   * When an insert that was under way is finished, whatever searches ran meanwhile,
   * its key is in the list, and every node of the list is linked at all the levels it has.
   */
  lemma InsertTakesEffect<K(!new)>(less: (K, K) -> bool, run: seq<State<K>>, a: nat, b: nat, key: K)
    requires StrictWeak(less) && Run(less, run) && a < b < |run| && Inserting(run[a], key)
    requires run[b].writer.Idle? && forall m {:trigger run[m]} :: a <= m < b ==> !run[m].writer.Idle?
    ensures InList(run[b], key) && AllLinked(run[b])
  {
    RunGoesThrough(less, run, key);
    InsertingUntil(run, a, b, key);
    RunFullyLinked(less, run, b);
  }

  /** Every node is linked at all the levels it has. */
  ghost predicate AllLinked<K(!new)>(s: State<K>) {
    InHeap(s) && |s.linked| == |s.order|
    && forall p :: 0 <= p < |s.order| ==> s.linked[p] == |s.heap[s.order[p]].next|
  }

  // ---------- Anybody can begin ----------

  /** A search can begin at any moment, whatever the writer is doing, at any height that the list has had. */
  lemma SearchCanBegin<K(!new)>(less: (K, K) -> bool, run: seq<State<K>>, i: nat, r: nat, kind: Kind, target: K,
                                level: nat) returns (s': State<K>)
    requires StrictWeak(less) && Run(less, run) && i < |run| && (r in run[i].readers ==> run[i].readers[r].Done?)
    requires level < run[i].maxHeight
    ensures Step(less, run[i], s') && s' == run[i].(readers := run[i].readers[r := On(kind, target, HEAD, level)])
  {
    RunKeeps(less, run, i);
    s' := run[i].(readers := run[i].readers[r := On(kind, target, HEAD, level)]);
    assert ReaderStarts(run[i], s', r, On(kind, target, HEAD, level));
  }

  /** An insert of a new key can begin when no other is under way, whatever searches are. */
  lemma InsertCanBegin<K(!new)>(less: (K, K) -> bool, run: seq<State<K>>, i: nat, key: K) returns (s': State<K>)
    requires StrictWeak(less) && Run(less, run) && i < |run|
    requires run[i].writer.Idle? && !Holds(less, Keys(run[i]), key)
    ensures Step(less, run[i], s') && Inserting(s', key) && s'.readers == run[i].readers
  {
    RunKeeps(less, run, i);
    var s := run[i];
    s' := s.(writer := Finding(On(GreaterOrEqual, key, HEAD, s.maxHeight - 1), seq(MAX_HEIGHT, _ => HEAD)));
    assert InsertStarts(less, s, s', key);
  }
}
