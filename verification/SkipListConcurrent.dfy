/**
 * The skip list while one writer inserts and any number of readers search it
 * without locks.  A step loads or stores a single pointer; loads and stores are
 * sequentially consistent.  `order` and `linked` record the shape that the
 * pointers stand for and are read by no step.
 */
module SkipListConcurrent {
  import opened SkipLayout

  type Id = int
  const NULL: Id := -1
  const HEAD: Id := 0

  datatype Node<K> = Node(key: K, next: seq<Id>)

  /** Which of the three searches a thread runs. */
  datatype Kind = GreaterOrEqual | LessThan | Last

  /** A search in progress, standing on node `x` at `level`, or its result. */
  datatype Search<K> =
    | On(kind: Kind, target: K, x: Id, level: nat)
    | Done(kind: Kind, target: K, result: Id)

  /** Where the one writer is inside Insert. */
  datatype Writer<K> =
    | Idle
    | Finding(search: Search<K>, prev: seq<Id>)
    | Found(key: K, prev: seq<Id>)
    | Linking(node: Id, prev: seq<Id>, i: nat, copied: bool)

  datatype State<K> = State(
    heap: seq<Node<K>>,
    maxHeight: nat,
    writer: Writer<K>,
    readers: map<nat, Search<K>>,
    order: seq<Id>,
    linked: seq<nat>
  )

  // ---------- Steps ----------

  predicate CanLoad<K>(heap: seq<Node<K>>, x: Id, level: nat) {
    && 0 <= x < |heap| && level < |heap[x].next|
    && (heap[x].next[level] == NULL || 0 <= heap[x].next[level] < |heap|)
  }

  /** Whether a search moves on to `next` in the list it is in. */
  predicate GoesOn<K(!new)>(less: (K, K) -> bool, heap: seq<Node<K>>, q: Search<K>, next: Id)
    requires next == NULL || 0 <= next < |heap|
  {
    next != NULL && (q.kind.Last? || less(heap[next].key, q.target))
  }

  /** One turn of a search loop: load one pointer and act on it. */
  function Advance<K(!new)>(less: (K, K) -> bool, heap: seq<Node<K>>, q: Search<K>): (q': Search<K>)
    requires q.On? && CanLoad(heap, q.x, q.level)
  {
    var next := heap[q.x].next[q.level];
    if GoesOn(less, heap, q, next) then q.(x := next)
    else if q.level > 0 then q.(level := q.level - 1)
    else Done(q.kind, q.target, if q.kind.GreaterOrEqual? then next else q.x)
  }

  function Store<K>(heap: seq<Node<K>>, x: Id, level: nat, link: Id): (heap': seq<Node<K>>)
    requires 0 <= x < |heap| && level < |heap[x].next|
    ensures |heap'| == |heap|
  {
    heap[x := heap[x].(next := heap[x].next[level := link])]
  }

  /** A reader starts at any level below the maximum: the height it loads may be stale. */
  ghost predicate ReaderStarts<K(!new)>(s: State<K>, s': State<K>, r: nat, q: Search<K>) {
    && (r in s.readers ==> s.readers[r].Done?)
    && q.On? && q.x == HEAD && q.level < MAX_HEIGHT
    && s' == s.(readers := s.readers[r := q])
  }

  ghost predicate ReaderLoads<K(!new)>(less: (K, K) -> bool, s: State<K>, s': State<K>, r: nat) {
    && r in s.readers && s.readers[r].On?
    && CanLoad(s.heap, s.readers[r].x, s.readers[r].level)
    && s' == s.(readers := s.readers[r := Advance(less, s.heap, s.readers[r])])
  }

  /** Insert is called with a key that is not in the list. */
  ghost predicate InsertStarts<K(!new)>(less: (K, K) -> bool, s: State<K>, s': State<K>, key: K) {
    && s.writer.Idle? && s.maxHeight >= 1 && !Holds(less, Keys(s), key)
    && s' == s.(writer := Finding(On(GreaterOrEqual, key, HEAD, s.maxHeight - 1), seq(MAX_HEIGHT, _ => HEAD)))
  }

  ghost predicate WriterLoads<K(!new)>(less: (K, K) -> bool, s: State<K>, s': State<K>) {
    && s.writer.Finding? && s.writer.search.On? && |s.writer.prev| == MAX_HEIGHT
    && var q := s.writer.search;
    && q.level < MAX_HEIGHT && CanLoad(s.heap, q.x, q.level)
    && var q' := Advance(less, s.heap, q);
    && var prev' := if q'.On? && q'.level == q.level then s.writer.prev else s.writer.prev[q.level := q.x];
    && s' == s.(writer := if q'.On? then Finding(q', prev') else Found(q.target, prev'))
  }

  /** The height is chosen, the maximum stored, and the unlinked node allocated. */
  ghost predicate RaisesHeight<K(!new)>(s: State<K>, s': State<K>, height: nat) {
    && s.writer.Found? && 1 <= height <= MAX_HEIGHT && |s.writer.prev| == MAX_HEIGHT
    && var prev' := seq(MAX_HEIGHT, l requires 0 <= l < MAX_HEIGHT =>
                          if l < s.maxHeight then s.writer.prev[l] else HEAD);
    && s' == s.(heap := s.heap + [Node(s.writer.key, seq(height, _ => NULL))],
                maxHeight := if height > s.maxHeight then height else s.maxHeight,
                writer := Linking(|s.heap|, prev', 0, false))
  }

  ghost predicate CanLink<K(!new)>(s: State<K>) {
    && s.writer.Linking? && s.writer.i < |s.writer.prev|
    && 0 <= s.writer.node < |s.heap| && s.writer.i < |s.heap[s.writer.node].next|
    && CanLoad(s.heap, s.writer.prev[s.writer.i], s.writer.i)
  }

  /** The new node's own link is set; no other node points to it at this level yet. */
  ghost predicate Copies<K(!new)>(s: State<K>, s': State<K>) {
    && CanLink(s) && !s.writer.copied
    && var w := s.writer;
    && s' == s.(heap := Store(s.heap, w.node, w.i, s.heap[w.prev[w.i]].next[w.i]), writer := w.(copied := true))
  }

  /** The previous node is made to point to the new one. */
  ghost predicate Publishes<K(!new)>(less: (K, K) -> bool, s: State<K>, s': State<K>) {
    && CanLink(s) && s.writer.copied && InHeap(s)
    && var w := s.writer;
    && var c := Ceiling(less, Keys(s), s.heap[w.node].key);
    && c <= |s.linked|
    && s' == State(
         Store(s.heap, w.prev[w.i], w.i, w.node),
         s.maxHeight,
         if w.i + 1 == |s.heap[w.node].next| then Idle else Linking(w.node, w.prev, w.i + 1, false),
         s.readers,
         if w.i == 0 then InsertAt(s.order, c, w.node) else s.order,
         if w.i == 0 then InsertAt(s.linked, c, 1) else if c < |s.linked| then s.linked[c := w.i + 1] else s.linked)
  }

  ghost predicate Step<K(!new)>(less: (K, K) -> bool, s: State<K>, s': State<K>) {
    || (exists r, q :: ReaderStarts(s, s', r, q))
    || (exists r :: ReaderLoads(less, s, s', r))
    || (exists key :: InsertStarts(less, s, s', key))
    || WriterLoads(less, s, s')
    || (exists height :: RaisesHeight(s, s', height))
    || Copies(s, s')
    || Publishes(less, s, s')
  }

  ghost predicate Init<K(!new)>(s: State<K>) {
    && |s.heap| == 1 && s.heap[HEAD].next == seq(MAX_HEIGHT, _ => NULL)
    && s.maxHeight == 1 && s.writer.Idle? && s.readers == map[] && s.order == [] && s.linked == []
  }

  // ---------- The shape behind the pointers ----------

  ghost predicate InHeap<K(!new)>(s: State<K>) {
    |s.heap| > 0 && forall i :: 0 <= i < |s.order| ==> 0 < s.order[i] < |s.heap|
  }

  ghost function Keys<K(!new)>(s: State<K>): (keys: seq<K>)
    ensures InHeap(s) ==> |keys| == |s.order| && forall i :: 0 <= i < |s.order| ==> keys[i] == s.heap[s.order[i]].key
  {
    if InHeap(s) then seq(|s.order|, i requires 0 <= i < |s.order| => s.heap[s.order[i]].key) else []
  }

  /** The node that row `p` belongs to. */
  function Owner(order: seq<Id>, p: nat): Id
    requires p <= |order|
  {
    if p == 0 then HEAD else order[p - 1]
  }

  ghost function Rows<K(!new)>(s: State<K>): (rows: seq<seq<Id>>)
    requires InHeap(s)
    ensures |rows| == |s.order| + 1
    ensures forall p {:trigger rows[p]} :: 0 <= p < |rows| ==> rows[p] == s.heap[Owner(s.order, p)].next
  {
    seq(|s.order| + 1, p requires 0 <= p <= |s.order| => s.heap[Owner(s.order, p)].next)
  }

  ghost predicate Shape<K(!new)>(less: (K, K) -> bool, s: State<K>) {
    && InHeap(s) && |s.heap[HEAD].next| == MAX_HEIGHT
    && (forall i, j :: 0 <= i < j < |s.order| ==> s.order[i] != s.order[j])
    && StrictWeak(less) && StrictlySorted(less, Keys(s))
    && Wired(s.order, s.linked, Rows(s), NULL)
    && 1 <= s.maxHeight <= MAX_HEIGHT
    && forall i :: 0 <= i < |s.linked| ==> s.linked[i] <= s.maxHeight
  }

  /** A search stands on row `p`, before its target. */
  ghost predicate StandsAt<K(!new)>(less: (K, K) -> bool, s: State<K>, q: Search<K>, p: nat)
    requires InHeap(s)
  {
    && q.On? && p <= |s.order| == |s.linked| && q.x == Owner(s.order, p) && q.level < HeightAt(s.linked, p)
    && (p > 0 && !q.kind.Last? ==> less(s.heap[q.x].key, q.target))
  }

  ghost predicate Stands<K(!new)>(less: (K, K) -> bool, s: State<K>, q: Search<K>)
    requires InHeap(s)
  {
    exists p :: StandsAt(less, s, q, p)
  }

  /** `id` is the node before position `c` at level `l`. */
  ghost predicate PrevAt(order: seq<Id>, linked: seq<nat>, id: Id, l: nat, c: nat, p: nat) {
    && p <= |order| == |linked| && id == Owner(order, p) && IsPrevious(linked, p, l, c)
  }

  ghost predicate Prev(order: seq<Id>, linked: seq<nat>, id: Id, l: nat, c: nat) {
    exists p :: PrevAt(order, linked, id, l, c, p)
  }

  ghost predicate Prevs<K(!new)>(s: State<K>, prev: seq<Id>, lo: nat, hi: nat, c: nat) {
    |prev| == MAX_HEIGHT && hi <= MAX_HEIGHT && forall l :: lo <= l < hi ==> Prev(s.order, s.linked, prev[l], l, c)
  }

  ghost predicate WriterOk<K(!new)>(less: (K, K) -> bool, s: State<K>)
    requires InHeap(s)
  {
    match s.writer
    case Idle => true
    case Finding(q, prev) =>
      && q.On? && q.kind.GreaterOrEqual? && !Holds(less, Keys(s), q.target) && q.level < s.maxHeight
        && Stands(less, s, q)
      && Prevs(s, prev, q.level + 1, s.maxHeight, Ceiling(less, Keys(s), q.target))
    case Found(key, prev) =>
      !Holds(less, Keys(s), key) && Prevs(s, prev, 0, s.maxHeight, Ceiling(less, Keys(s), key))
    case Linking(node, prev, i, copied) =>
      && 0 < node < |s.heap|
      && var c := Ceiling(less, Keys(s), s.heap[node].key);
      && i < |s.heap[node].next| <= s.maxHeight
      && Prevs(s, prev, i, |s.heap[node].next|, c)
      && (if i == 0 then node !in s.order && !Holds(less, Keys(s), s.heap[node].key)
          else c < |s.order| == |s.linked| && s.order[c] == node && s.linked[c] == i)
      && (copied ==> CanLink(s) && s.heap[node].next[i] == s.heap[prev[i]].next[i])
  }

  ghost predicate ReadersOk<K(!new)>(less: (K, K) -> bool, s: State<K>)
    requires InHeap(s)
  {
    forall r :: r in s.readers && s.readers[r].On? ==> Stands(less, s, s.readers[r])
  }

  ghost predicate Inv<K(!new)>(less: (K, K) -> bool, s: State<K>) {
    Shape(less, s) && ReadersOk(less, s) && WriterOk(less, s)
  }

  // ---------- Searches ----------

  /** What a load from a node that a search stands on finds. */
  lemma LoadFinds<K(!new)>(less: (K, K) -> bool, s: State<K>, q: Search<K>, p: nat)
    requires Shape(less, s) && StandsAt(less, s, q, p)
    ensures CanLoad(s.heap, q.x, q.level)
    ensures s.heap[q.x].next[q.level] == At(s.order, NextAt(s.linked, p, q.level), NULL)
  {
    assert Rows(s)[p] == s.heap[q.x].next;
    assert HeightAt(s.linked, p) <= |Rows(s)[p]|;
    assert Rows(s)[p][q.level] == At(s.order, NextAt(s.linked, p, q.level), NULL);
  }

  /** A search that is not finished by a load still stands on the list. */
  lemma AdvanceStands<K(!new)>(less: (K, K) -> bool, s: State<K>, q: Search<K>)
    requires Shape(less, s) && Stands(less, s, q)
    ensures CanLoad(s.heap, q.x, q.level)
    ensures Advance(less, s.heap, q).On? ==> Stands(less, s, Advance(less, s.heap, q))
  {
    var p: nat :| StandsAt(less, s, q, p);
    LoadFinds(less, s, q, p);
    var q' := Advance(less, s.heap, q);
    if q'.On? {
      var p' := if q'.level == q.level then NextAt(s.linked, p, q.level) + 1 else p;
      assert StandsAt(less, s, q', p');
    }
  }

  /** The result a search owes its caller, in terms of the list at the lowest level. */
  ghost predicate Answers<K(!new)>(less: (K, K) -> bool, s: State<K>, q: Search<K>)
    requires InHeap(s)
  {
    && q.Done?
    && var c := Ceiling(less, Keys(s), q.target);
    && q.result ==
       match q.kind
       case GreaterOrEqual => At(s.order, c, NULL)   // the least key at or after the target
       case LessThan => Owner(s.order, c)            // the greatest key before the target
       case Last => Owner(s.order, |s.order|)        // the greatest key
  }

  /** At the moment of its last load a search has the right answer for the list as it is. */
  lemma LastLoadAnswers<K(!new)>(less: (K, K) -> bool, s: State<K>, q: Search<K>)
    requires Shape(less, s) && Stands(less, s, q)
    requires CanLoad(s.heap, q.x, q.level) && Advance(less, s.heap, q).Done?
    ensures Answers(less, s, Advance(less, s.heap, q))
  {
    var p: nat :| StandsAt(less, s, q, p);
    LoadFinds(less, s, q, p);
    NextAtUnique(s.linked, p, 0, p);
    if p > 0 { BelowCeiling(less, Keys(s), q.target, p - 1); }
    if p < |s.order| { BelowCeiling(less, Keys(s), q.target, p); }
  }

  // ---------- Every step keeps the invariant ----------

  lemma ReaderStartsKeeps<K(!new)>(less: (K, K) -> bool, s: State<K>, s': State<K>, r: nat, q: Search<K>)
    requires Inv(less, s) && ReaderStarts(s, s', r, q)
    ensures Inv(less, s')
  {
    SameList(less, s, s');
    assert StandsAt(less, s', q, 0);
  }

  lemma ReaderLoadsKeeps<K(!new)>(less: (K, K) -> bool, s: State<K>, s': State<K>, r: nat)
    requires Inv(less, s) && ReaderLoads(less, s, s', r)
    ensures Inv(less, s')
  {
    AdvanceStands(less, s, s.readers[r]);
    SameList(less, s, s');
  }

  /** A step that leaves the list alone leaves everything that stands on it standing. */
  lemma SameList<K(!new)>(less: (K, K) -> bool, s: State<K>, s': State<K>)
    requires InHeap(s)
    requires s'.heap == s.heap && s'.order == s.order && s'.linked == s.linked && s'.maxHeight == s.maxHeight
    ensures InHeap(s') && Keys(s') == Keys(s) && Rows(s') == Rows(s)
    ensures Shape(less, s) ==> Shape(less, s')
    ensures forall q :: Stands(less, s, q) ==> Stands(less, s', q)
    ensures WriterOk(less, s) && s'.writer == s.writer ==> WriterOk(less, s')
  {
    forall q | Stands(less, s, q) ensures Stands(less, s', q) {
      var p: nat :| StandsAt(less, s, q, p);
      assert StandsAt(less, s', q, p);
    }
  }

  lemma InsertStartsKeeps<K(!new)>(less: (K, K) -> bool, s: State<K>, s': State<K>, key: K)
    requires Inv(less, s) && InsertStarts(less, s, s', key)
    ensures Inv(less, s')
  {
    SameList(less, s, s');
    assert StandsAt(less, s', s'.writer.search, 0);
  }

  /** Where a search for the place of a key leaves a level, the node it stands on is the previous one. */
  lemma LeavesAtPrevious<K(!new)>(less: (K, K) -> bool, s: State<K>, q: Search<K>)
    requires Shape(less, s) && Stands(less, s, q) && q.kind.GreaterOrEqual?
    requires CanLoad(s.heap, q.x, q.level) && !GoesOn(less, s.heap, q, s.heap[q.x].next[q.level])
    ensures Prev(s.order, s.linked, q.x, q.level, Ceiling(less, Keys(s), q.target))
  {
    var c := Ceiling(less, Keys(s), q.target);
    var p: nat :| StandsAt(less, s, q, p);
    LoadFinds(less, s, q, p);
    var n := NextAt(s.linked, p, q.level);
    if p > 0 { BelowCeiling(less, Keys(s), q.target, p - 1); }
    if n < |s.order| { BelowCeiling(less, Keys(s), q.target, n); }
    assert PrevAt(s.order, s.linked, q.x, q.level, c, p);
  }

  lemma WriterLoadsKeeps<K(!new)>(less: (K, K) -> bool, s: State<K>, s': State<K>)
    requires Inv(less, s) && WriterLoads(less, s, s')
    ensures Inv(less, s')
  {
    var q := s.writer.search;
    AdvanceStands(less, s, q);
    if !GoesOn(less, s.heap, q, s.heap[q.x].next[q.level]) {
      LeavesAtPrevious(less, s, q);
    }
    SameList(less, s, s');
  }

  lemma RaisesHeightKeeps<K(!new)>(less: (K, K) -> bool, s: State<K>, s': State<K>, height: nat)
    requires Inv(less, s) && RaisesHeight(s, s', height)
    ensures Inv(less, s')
  {
    assert Keys(s') == Keys(s) && Rows(s') == Rows(s);
    var c := Ceiling(less, Keys(s), s.writer.key);
    forall l | 0 <= l < height ensures Prev(s'.order, s'.linked, s'.writer.prev[l], l, c) {
      if l < s.maxHeight {
        assert Prev(s.order, s.linked, s.writer.prev[l], l, c);
      } else {
        NextAtUnique(s.linked, 0, l, |s.linked|);
        assert PrevAt(s'.order, s'.linked, HEAD, l, c, 0);
      }
    }
    forall q | Stands(less, s, q) ensures Stands(less, s', q) {
      var p: nat :| StandsAt(less, s, q, p);
      assert StandsAt(less, s', q, p);
    }
  }

  /** Storing a link keeps every key where it is. */
  lemma StoreKeepsKeys<K(!new)>(s: State<K>, s': State<K>, x: Id, level: nat, link: Id)
    requires InHeap(s) && 0 <= x < |s.heap| && level < |s.heap[x].next|
    requires s'.heap == Store(s.heap, x, level, link) && s'.order == s.order
    ensures InHeap(s') && Keys(s') == Keys(s)
  {
  }

  lemma CopiesKeeps<K(!new)>(less: (K, K) -> bool, s: State<K>, s': State<K>)
    requires Inv(less, s) && Copies(s, s')
    ensures Inv(less, s')
  {
    var w := s.writer;
    var link := s.heap[w.prev[w.i]].next[w.i];
    StoreKeepsKeys(s, s', w.node, w.i, link);
    var rows, rows' := Rows(s), Rows(s');
    forall p, l | 0 <= p < |rows'| && 0 <= l < HeightAt(s.linked, p)
      ensures l < |rows'[p]| && rows'[p][l] == rows[p][l]
    {
      assert HeightAt(s.linked, p) <= |rows[p]|;
      UnusedLink(less, s, p, l);
    }
    assert Wired(s'.order, s'.linked, rows', NULL) by {
      assert forall p :: 0 <= p < |rows'| ==> |rows'[p]| == |rows[p]|;
    }
    forall q | Stands(less, s, q) ensures Stands(less, s', q) {
      var p: nat :| StandsAt(less, s, q, p);
      assert StandsAt(less, s', q, p);
    }
  }

  /** The link being set on the new node is not in use by the list. */
  lemma UnusedLink<K(!new)>(less: (K, K) -> bool, s: State<K>, p: nat, l: nat)
    requires Shape(less, s) && WriterOk(less, s) && s.writer.Linking?
    requires p <= |s.order| && l < HeightAt(s.linked, p)
    ensures Owner(s.order, p) != s.writer.node || l != s.writer.i
  {
  }

  /** `node` is published at the lowest level, at position `c`. */
  ghost predicate LowestPublished<K(!new)>(s: State<K>, s': State<K>, node: Id, c: nat) {
    && InHeap(s) && c <= |s.order| == |s.linked|
    && 0 < node < |s.heap| && node !in s.order
    && 0 < |s.heap[Owner(s.order, c)].next| && 0 < |s.heap[node].next|
    && s.heap[node].next[0] == s.heap[Owner(s.order, c)].next[0]
    && s'.heap == Store(s.heap, Owner(s.order, c), 0, node)
    && s'.order == InsertAt(s.order, c, node) && s'.linked == InsertAt(s.linked, c, 1)
    && s'.maxHeight == s.maxHeight
  }

  lemma LowestKeys<K(!new)>(s: State<K>, s': State<K>, node: Id, c: nat)
    requires LowestPublished(s, s', node, c)
    ensures InHeap(s') && Keys(s') == InsertAt(Keys(s), c, s.heap[node].key)
    ensures forall x :: 0 <= x < |s.heap| ==> s'.heap[x].key == s.heap[x].key
  {
  }

  lemma LowestRows<K(!new)>(s: State<K>, s': State<K>, node: Id, c: nat)
    requires LowestPublished(s, s', node, c) && InHeap(s')
    requires forall i, j :: 0 <= i < j < |s.order| ==> s.order[i] != s.order[j]
    ensures Rows(s') == LinkedLowest(Rows(s), c, node, s.heap[node].next)
  {
    var row := s.heap[node].next;
    var rows := LinkedLowest(Rows(s), c, node, row);
    forall q | 0 <= q <= |s'.order| ensures s'.heap[Owner(s'.order, q)].next == rows[q] {
      LowestRow(s.linked, Rows(s), c, node, row, q);
      assert Rows(s)[c] == s.heap[Owner(s.order, c)].next;
      assert q < c ==> Rows(s)[q] == s.heap[Owner(s.order, q)].next;
      assert q > c + 1 ==> Rows(s)[q - 1] == s.heap[Owner(s.order, q - 1)].next;
    }
  }

  lemma LowestShape<K(!new)>(less: (K, K) -> bool, s: State<K>, s': State<K>, node: Id, c: nat)
    requires Shape(less, s) && LowestPublished(s, s', node, c)
    requires c == Ceiling(less, Keys(s), s.heap[node].key) && !Holds(less, Keys(s), s.heap[node].key)
    ensures Shape(less, s')
  {
    LowestKeys(s, s', node, c);
    LowestRows(s, s', node, c);
    SortedAfterInsert(less, Keys(s), s.heap[node].key);
    LinkLowest(s.order, s.linked, Rows(s), NULL, c, node, s.heap[node].next);
  }

  /** Rows keep their owners and heights when a node is inserted, behind it at the next position. */
  lemma RowMoves(order: seq<Id>, linked: seq<nat>, c: nat, node: Id, p: nat)
    requires |order| == |linked| && c <= |order| && p <= |order|
    ensures var p' := if p <= c then p else p + 1;
            && Owner(InsertAt(order, c, node), p') == Owner(order, p)
            && HeightAt(InsertAt(linked, c, 1), p') == HeightAt(linked, p)
  {
  }

  lemma LowestStands<K(!new)>(less: (K, K) -> bool, s: State<K>, s': State<K>, node: Id, c: nat, q: Search<K>)
    requires LowestPublished(s, s', node, c) && Stands(less, s, q)
    ensures InHeap(s') && Stands(less, s', q)
  {
    LowestKeys(s, s', node, c);
    var p: nat :| StandsAt(less, s, q, p);
    RowMoves(s.order, s.linked, c, node, p);
    assert 0 <= q.x < |s.heap|;
    assert StandsAt(less, s', q, if p <= c then p else p + 1);
  }

  lemma LowestPrevs<K(!new)>(s: State<K>, s': State<K>, node: Id, c: nat, prev: seq<Id>, hi: nat)
    requires LowestPublished(s, s', node, c) && Prevs(s, prev, 0, hi, c)
    ensures Prevs(s', prev, 1, hi, c)
  {
    forall l | 1 <= l < hi ensures Prev(s'.order, s'.linked, prev[l], l, c) {
      assert Prev(s.order, s.linked, prev[l], l, c);
      var p: nat :| PrevAt(s.order, s.linked, prev[l], l, c, p);
      PreviousAfterInsert(s.linked, c, 1, p, l);
      assert PrevAt(s'.order, s'.linked, prev[l], l, c, p);
    }
  }

  lemma PublishesLowest<K(!new)>(less: (K, K) -> bool, s: State<K>, s': State<K>, c: nat)
    requires Inv(less, s) && Publishes(less, s, s') && s.writer.i == 0
    requires c == Ceiling(less, Keys(s), s.heap[s.writer.node].key)
    ensures LowestPublished(s, s', s.writer.node, c)
  {
    var w := s.writer;
    assert Prev(s.order, s.linked, w.prev[0], 0, c);
    var p: nat :| PrevAt(s.order, s.linked, w.prev[0], 0, c, p);
    LowestPrevious(s.linked, p, c);
  }

  /** Publishing at the lowest level puts exactly the new key into the list. */
  lemma PublishLowestKeeps<K(!new)>(less: (K, K) -> bool, s: State<K>, s': State<K>)
    requires Inv(less, s) && Publishes(less, s, s') && s.writer.i == 0
    ensures Inv(less, s')
    ensures Keys(s') == InsertAt(Keys(s), Ceiling(less, Keys(s), s.heap[s.writer.node].key), s.heap[s.writer.node].key)
  {
    var w := s.writer;
    var c := Ceiling(less, Keys(s), s.heap[w.node].key);
    PublishesLowest(less, s, s', c);
    LowestKeys(s, s', w.node, c);
    LowestShape(less, s, s', w.node, c);
    LowestPrevs(s, s', w.node, c, w.prev, |s.heap[w.node].next|);
    BelowCeiling(less, Keys(s'), s.heap[w.node].key, c);
    assert ReadersOk(less, s') by {
      forall r | r in s'.readers && s'.readers[r].On? ensures Stands(less, s', s'.readers[r]) {
        LowestStands(less, s, s', w.node, c, s.readers[r]);
      }
    }
  }

  /** `node`, at position `c`, is published at its next level behind row `p`. */
  ghost predicate HigherPublished<K(!new)>(s: State<K>, s': State<K>, c: nat, p: nat) {
    && InHeap(s) && c < |s.order| == |s.linked|
    && IsPrevious(s.linked, p, s.linked[c], c)
    && var l := s.linked[c];
    && l < |s.heap[Owner(s.order, p)].next| && l < |s.heap[s.order[c]].next|
    && s.heap[s.order[c]].next[l] == s.heap[Owner(s.order, p)].next[l]
    && s'.heap == Store(s.heap, Owner(s.order, p), l, s.order[c])
    && s'.order == s.order && s'.linked == s.linked[c := l + 1]
    && s'.maxHeight == s.maxHeight
  }

  lemma HigherRows<K(!new)>(s: State<K>, s': State<K>, c: nat, p: nat)
    requires HigherPublished(s, s', c, p)
    requires forall i, j :: 0 <= i < j < |s.order| ==> s.order[i] != s.order[j]
    ensures InHeap(s') && Keys(s') == Keys(s)
    ensures s.linked[c] < |Rows(s)[c + 1]| && s.linked[c] < |Rows(s)[p]|
    ensures Rows(s') == LinkedAt(Rows(s), c, p, s.linked[c], s.order[c])
  {
    var l := s.linked[c];
    assert Rows(s)[p] == s.heap[Owner(s.order, p)].next && Rows(s)[c + 1] == s.heap[s.order[c]].next;
    var rows := LinkedAt(Rows(s), c, p, l, s.order[c]);
    forall q | 0 <= q <= |s.order| ensures s'.heap[Owner(s.order, q)].next == rows[q] {
      assert Rows(s)[q] == s.heap[Owner(s.order, q)].next;
    }
  }

  lemma HigherWired<K(!new)>(s: State<K>, s': State<K>, c: nat, p: nat)
    requires InHeap(s) && InHeap(s') && c < |s.order| && s'.order == s.order
    requires Wired(s.order, s.linked, Rows(s), NULL) && IsPrevious(s.linked, p, s.linked[c], c)
    requires s.linked[c] < |Rows(s)[c + 1]| && s.linked[c] < |Rows(s)[p]|
    requires s'.linked == s.linked[c := s.linked[c] + 1]
    requires Rows(s') == LinkedAt(Rows(s), c, p, s.linked[c], s.order[c])
    ensures Wired(s'.order, s'.linked, Rows(s'), NULL)
  {
    LinkHigher(s.order, s.linked, Rows(s), NULL, c, p);
  }

  lemma HigherShape<K(!new)>(less: (K, K) -> bool, s: State<K>, s': State<K>, c: nat, p: nat)
    requires Shape(less, s) && HigherPublished(s, s', c, p) && s.linked[c] < s.maxHeight
    ensures Shape(less, s') && Keys(s') == Keys(s)
  {
    HigherRows(s, s', c, p);
    HigherWired(s, s', c, p);
  }

  lemma HigherStands<K(!new)>(less: (K, K) -> bool, s: State<K>, s': State<K>, c: nat, p: nat, q: Search<K>)
    requires HigherPublished(s, s', c, p) && InHeap(s') && Stands(less, s, q)
    ensures Stands(less, s', q)
  {
    var r: nat :| StandsAt(less, s, q, r);
    assert StandsAt(less, s', q, r);
  }

  lemma HigherPrevs<K(!new)>(s: State<K>, s': State<K>, c: nat, p: nat, prev: seq<Id>, hi: nat)
    requires HigherPublished(s, s', c, p) && Prevs(s, prev, s.linked[c], hi, c)
    ensures Prevs(s', prev, s.linked[c] + 1, hi, c)
  {
    forall l | s.linked[c] + 1 <= l < hi ensures Prev(s'.order, s'.linked, prev[l], l, c) {
      assert Prev(s.order, s.linked, prev[l], l, c);
      var r: nat :| PrevAt(s.order, s.linked, prev[l], l, c, r);
      NextAfterRaise(s.linked, c, r, l);
      assert PrevAt(s'.order, s'.linked, prev[l], l, c, r);
    }
  }

  lemma PublishesHigher<K(!new)>(less: (K, K) -> bool, s: State<K>, s': State<K>, c: nat) returns (p: nat)
    requires Inv(less, s) && Publishes(less, s, s') && s.writer.i > 0
    requires c == Ceiling(less, Keys(s), s.heap[s.writer.node].key)
    ensures HigherPublished(s, s', c, p)
  {
    var w := s.writer;
    assert Prev(s.order, s.linked, w.prev[w.i], w.i, c);
    p :| PrevAt(s.order, s.linked, w.prev[w.i], w.i, c, p);
  }

  /** Publishing at a higher level leaves the keys alone. */
  lemma PublishHigherKeeps<K(!new)>(less: (K, K) -> bool, s: State<K>, s': State<K>)
    requires Inv(less, s) && Publishes(less, s, s') && s.writer.i > 0
    ensures Inv(less, s') && Keys(s') == Keys(s)
  {
    var w := s.writer;
    var c := Ceiling(less, Keys(s), s.heap[w.node].key);
    var p := PublishesHigher(less, s, s', c);
    HigherShape(less, s, s', c, p);
    HigherPrevs(s, s', c, p, w.prev, |s.heap[w.node].next|);
    assert ReadersOk(less, s') by {
      forall r | r in s'.readers && s'.readers[r].On? ensures Stands(less, s', s'.readers[r]) {
        HigherStands(less, s, s', c, p, s.readers[r]);
      }
    }
  }

  lemma StepKeeps<K(!new)>(less: (K, K) -> bool, s: State<K>, s': State<K>)
    requires Inv(less, s) && Step(less, s, s')
    ensures Inv(less, s')
  {
    if r, q :| ReaderStarts(s, s', r, q) {
      ReaderStartsKeeps(less, s, s', r, q);
    } else if r :| ReaderLoads(less, s, s', r) {
      ReaderLoadsKeeps(less, s, s', r);
    } else if key :| InsertStarts(less, s, s', key) {
      InsertStartsKeeps(less, s, s', key);
    } else if WriterLoads(less, s, s') {
      WriterLoadsKeeps(less, s, s');
    } else if height :| RaisesHeight(s, s', height) {
      RaisesHeightKeeps(less, s, s', height);
    } else if Copies(s, s') {
      CopiesKeeps(less, s, s');
    } else if s.writer.i == 0 {
      PublishLowestKeeps(less, s, s');
    } else {
      PublishHigherKeeps(less, s, s');
    }
  }

  lemma InitEstablishes<K(!new)>(less: (K, K) -> bool, s: State<K>)
    requires StrictWeak(less) && Init(s)
    ensures Inv(less, s)
  {
  }

  // ---------- Whole runs ----------

  ghost predicate Run<K(!new)>(less: (K, K) -> bool, run: seq<State<K>>) {
    && |run| > 0 && Init(run[0])
    && forall i :: 0 <= i < |run| - 1 ==> Step(less, run[i], run[i + 1])
  }

  lemma {:induction false} RunKeeps<K(!new)>(less: (K, K) -> bool, run: seq<State<K>>, i: nat)
    requires StrictWeak(less) && Run(less, run) && i < |run|
    ensures Inv(less, run[i])
  {
    if i == 0 {
      InitEstablishes(less, run[0]);
    } else {
      RunKeeps(less, run, i - 1);
      StepKeeps(less, run[i - 1], run[i]);
    }
  }

  /**
   * In every run, whatever a writer is in the middle of, no search loads out of
   * bounds, and a search that a load finishes answers for the list at the
   * lowest level as it is at that load.
   */
  lemma SearchesAreLinearizable<K(!new)>(less: (K, K) -> bool, run: seq<State<K>>, i: nat, r: nat)
    requires StrictWeak(less) && Run(less, run) && i < |run|
    requires r in run[i].readers && run[i].readers[r].On?
    ensures var s, q := run[i], run[i].readers[r];
            && CanLoad(s.heap, q.x, q.level)
            && InHeap(s)
            && (Advance(less, s.heap, q).Done? ==> Answers(less, s, Advance(less, s.heap, q)))
  {
    RunKeeps(less, run, i);
    AdvanceStands(less, run[i], run[i].readers[r]);
    if Advance(less, run[i].heap, run[i].readers[r]).Done? {
      LastLoadAnswers(less, run[i], run[i].readers[r]);
    }
  }

  // ---------- Nobody is stuck ----------

  /** A step of the writer that is under way. */
  ghost predicate WriterStep<K(!new)>(less: (K, K) -> bool, s: State<K>, s': State<K>) {
    || WriterLoads(less, s, s')
    || (exists height :: RaisesHeight(s, s', height))
    || Copies(s, s')
    || Publishes(less, s, s')
  }

  /** The previous node of the level being linked can be loaded. */
  lemma LinkingCanLink<K(!new)>(less: (K, K) -> bool, s: State<K>)
    requires Inv(less, s) && s.writer.Linking?
    ensures CanLink(s)
  {
    var w := s.writer;
    var c := Ceiling(less, Keys(s), s.heap[w.node].key);
    assert Prev(s.order, s.linked, w.prev[w.i], w.i, c);
    var p: nat :| PrevAt(s.order, s.linked, w.prev[w.i], w.i, c, p);
    assert HeightAt(s.linked, p) <= |Rows(s)[p]|;
    assert Rows(s)[p][w.i] == At(s.order, NextAt(s.linked, p, w.i), NULL);
  }

  lemma LinkingGoesOn<K(!new)>(less: (K, K) -> bool, s: State<K>) returns (s': State<K>)
    requires Inv(less, s) && s.writer.Linking?
    ensures Copies(s, s') || Publishes(less, s, s')
  {
    LinkingCanLink(less, s);
    var w := s.writer;
    if !w.copied {
      s' := s.(heap := Store(s.heap, w.node, w.i, s.heap[w.prev[w.i]].next[w.i]), writer := w.(copied := true));
    } else {
      var c := Ceiling(less, Keys(s), s.heap[w.node].key);
      s' := State(
        Store(s.heap, w.prev[w.i], w.i, w.node), s.maxHeight,
        if w.i + 1 == |s.heap[w.node].next| then Idle else Linking(w.node, w.prev, w.i + 1, false),
        s.readers,
        if w.i == 0 then InsertAt(s.order, c, w.node) else s.order,
        if w.i == 0 then InsertAt(s.linked, c, 1) else if c < |s.linked| then s.linked[c := w.i + 1] else s.linked);
    }
  }

  lemma FindingGoesOn<K(!new)>(less: (K, K) -> bool, s: State<K>) returns (s': State<K>)
    requires Inv(less, s) && s.writer.Finding?
    ensures WriterLoads(less, s, s')
  {
    var q := s.writer.search;
    AdvanceStands(less, s, q);
    var q' := Advance(less, s.heap, q);
    var prev' := if q'.On? && q'.level == q.level then s.writer.prev else s.writer.prev[q.level := q.x];
    s' := s.(writer := if q'.On? then Finding(q', prev') else Found(q.target, prev'));
  }

  lemma FoundGoesOn<K(!new)>(s: State<K>, height: nat) returns (s': State<K>)
    requires s.writer.Found? && 1 <= height <= MAX_HEIGHT && |s.writer.prev| == MAX_HEIGHT
    ensures RaisesHeight(s, s', height)
  {
    var prev' := seq(MAX_HEIGHT, l requires 0 <= l < MAX_HEIGHT => if l < s.maxHeight then s.writer.prev[l] else HEAD);
    s' := s.(heap := s.heap + [Node(s.writer.key, seq(height, _ => NULL))],
             maxHeight := if height > s.maxHeight then height else s.maxHeight,
             writer := Linking(|s.heap|, prev', 0, false));
  }

  lemma WriterGoesOn<K(!new)>(less: (K, K) -> bool, s: State<K>) returns (s': State<K>)
    requires Inv(less, s) && !s.writer.Idle?
    ensures WriterStep(less, s, s')
  {
    if s.writer.Finding? {
      s' := FindingGoesOn(less, s);
    } else if s.writer.Found? {
      s' := FoundGoesOn(s, 1);
      assert RaisesHeight(s, s', 1);
    } else {
      s' := LinkingGoesOn(less, s);
    }
  }

  /** Progress: in every reachable state an insert and every search under way can do their next step. */
  lemma EveryoneCanGoOn<K(!new)>(less: (K, K) -> bool, run: seq<State<K>>, i: nat)
    requires StrictWeak(less) && Run(less, run) && i < |run|
    ensures !run[i].writer.Idle? ==> exists s' :: WriterStep(less, run[i], s')
    ensures forall r :: r in run[i].readers && run[i].readers[r].On? ==> exists s' :: ReaderLoads(less, run[i], s', r)
  {
    RunKeeps(less, run, i);
    var s := run[i];
    if !s.writer.Idle? {
      var s' := WriterGoesOn(less, s);
    }
    forall r | r in s.readers && s.readers[r].On? ensures exists s' :: ReaderLoads(less, s, s', r) {
      AdvanceStands(less, s, s.readers[r]);
      var s' := s.(readers := s.readers[r := Advance(less, s.heap, s.readers[r])]);
      assert ReaderLoads(less, s, s', r);
    }
  }

  /** Only a publication at the lowest level changes the keys in the list, and it adds one. */
  lemma KeysOnlyGrow<K(!new)>(less: (K, K) -> bool, s: State<K>, s': State<K>)
    requires Inv(less, s) && Step(less, s, s')
    ensures || Keys(s') == Keys(s)
            || (&& Publishes(less, s, s') && s.writer.i == 0
                && var key := s.heap[s.writer.node].key;
                && !Holds(less, Keys(s), key) && Keys(s') == InsertAt(Keys(s), Ceiling(less, Keys(s), key), key))
  {
    if Publishes(less, s, s') {
      if s.writer.i == 0 {
        PublishLowestKeeps(less, s, s');
      } else {
        PublishHigherKeeps(less, s, s');
      }
    } else if Copies(s, s') {
      StoreKeepsKeys(s, s', s.writer.node, s.writer.i, s.heap[s.writer.prev[s.writer.i]].next[s.writer.i]);
    } else {
      assert s'.order == s.order && s.heap <= s'.heap;
      assert Keys(s') == Keys(s);
    }
  }

  // ---------- Levels ----------

  /** The nodes at positions from `j` on that are linked at level `l`. */
  function LevelFrom(order: seq<Id>, linked: seq<nat>, l: nat, j: nat): (ids: seq<Id>)
    requires j <= |order| == |linked|
    decreases |order| - j
  {
    var n := NextAt(linked, j, l);
    if n == |order| then [] else [order[n]] + LevelFrom(order, linked, l, n + 1)
  }

  /** `ids` is what one meets following level `l` from node `x` to the end. */
  ghost predicate Follows<K(!new)>(heap: seq<Node<K>>, x: Id, l: nat, ids: seq<Id>)
    decreases |ids|
  {
    && 0 <= x < |heap| && l < |heap[x].next|
    && if ids == [] then heap[x].next[l] == NULL
       else heap[x].next[l] == ids[0] && Follows(heap, ids[0], l, ids[1..])
  }

  /** Following the pointers of a level meets exactly the nodes linked there. */
  lemma {:induction false} LevelIsFollowed<K(!new)>(less: (K, K) -> bool, s: State<K>, l: nat, p: nat)
    requires Shape(less, s) && p <= |s.order| == |s.linked| && l < HeightAt(s.linked, p)
    ensures Follows(s.heap, Owner(s.order, p), l, LevelFrom(s.order, s.linked, l, p))
    decreases |s.order| - p
  {
    assert HeightAt(s.linked, p) <= |Rows(s)[p]|;
    assert Rows(s)[p][l] == At(s.order, NextAt(s.linked, p, l), NULL);
    var n := NextAt(s.linked, p, l);
    if n == |s.order| {
    } else {
      LevelIsFollowed(less, s, l, n + 1);
    }
  }

  ghost predicate Sublist(a: seq<Id>, b: seq<Id>)
    decreases |b|
  {
    a == [] || (b != [] && ((a[0] == b[0] && Sublist(a[1..], b[1..])) || Sublist(a, b[1..])))
  }

  lemma SublistBoth(x: Id, a: seq<Id>, b: seq<Id>)
    requires Sublist(a, b)
    ensures Sublist([x] + a, [x] + b)
  {
    assert ([x] + a)[1..] == a && ([x] + b)[1..] == b;
  }

  lemma SublistSkip(x: Id, a: seq<Id>, b: seq<Id>)
    requires Sublist(a, b)
    ensures Sublist(a, [x] + b)
  {
    assert ([x] + b)[1..] == b;
  }

  /** A level from position `j` on: its first node, and the level from after that node. */
  lemma LevelUnfolds(order: seq<Id>, linked: seq<nat>, l: nat, j: nat)
    requires j <= |order| == |linked|
    ensures var n := NextAt(linked, j, l);
            LevelFrom(order, linked, l, j)
            == if n == |order| then [] else [order[n]] + LevelFrom(order, linked, l, n + 1)
  {
  }

  lemma SameNextSameLevel(order: seq<Id>, linked: seq<nat>, l: nat, i: nat, j: nat)
    requires i <= |order| == |linked| && j <= |order| && NextAt(linked, i, l) == NextAt(linked, j, l)
    ensures LevelFrom(order, linked, l, i) == LevelFrom(order, linked, l, j)
  {
  }

  /** The next node of a level may be linked at the level above it; otherwise that level has nothing up to there. */
  lemma NothingAbove(order: seq<Id>, linked: seq<nat>, l: nat, j: nat, n: nat)
    requires j <= |order| == |linked| && n == NextAt(linked, j, l) < |order| && n != NextAt(linked, j, l + 1)
    ensures LevelFrom(order, linked, l + 1, j) == LevelFrom(order, linked, l + 1, n + 1)
  {
    NextAtUnique(linked, n + 1, l + 1, NextAt(linked, j, l + 1));
    SameNextSameLevel(order, linked, l + 1, j, n + 1);
  }

  lemma UpperStep(order: seq<Id>, linked: seq<nat>, l: nat, j: nat, n: nat) returns (both: bool)
    requires j <= |order| == |linked| && n == NextAt(linked, j, l) < |order|
    ensures both ==>
              LevelFrom(order, linked, l + 1, j) == [order[n]] + LevelFrom(order, linked, l + 1, n + 1)
    ensures !both ==> LevelFrom(order, linked, l + 1, j) == LevelFrom(order, linked, l + 1, n + 1)
  {
    both := n == NextAt(linked, j, l + 1);
    if both {
      LevelUnfolds(order, linked, l + 1, j);
    } else {
      NothingAbove(order, linked, l, j, n);
    }
  }

  lemma {:induction false} LevelsNest(order: seq<Id>, linked: seq<nat>, l: nat, j: nat)
    requires j <= |order| == |linked|
    ensures Sublist(LevelFrom(order, linked, l + 1, j), LevelFrom(order, linked, l, j))
    decreases |order| - j
  {
    var n := NextAt(linked, j, l);
    LevelUnfolds(order, linked, l, j);
    if n == |order| {
      NextAtUnique(linked, j, l + 1, n);
    } else {
      var both := UpperStep(order, linked, l, j, n);
      var upper, lower := LevelFrom(order, linked, l + 1, n + 1), LevelFrom(order, linked, l, n + 1);
      LevelsNest(order, linked, l, n + 1);
      if both {
        SublistBoth(order[n], upper, lower);
      } else {
        SublistSkip(order[n], upper, lower);
      }
    }
  }

  /** Nodes of the list with increasing keys. */
  ghost predicate Increasing<K(!new)>(less: (K, K) -> bool, heap: seq<Node<K>>, ids: seq<Id>) {
    && (forall a :: 0 <= a < |ids| ==> 0 <= ids[a] < |heap|)
    && forall a, b :: 0 <= a < b < |ids| ==> less(heap[ids[a]].key, heap[ids[b]].key)
  }

  lemma {:induction false} LevelElement(order: seq<Id>, linked: seq<nat>, l: nat, j: nat, a: nat) returns (i: nat)
    requires j <= |order| == |linked| && a < |LevelFrom(order, linked, l, j)|
    ensures j <= i < |order| && LevelFrom(order, linked, l, j)[a] == order[i]
    decreases a
  {
    i := NextAt(linked, j, l);
    if a == 0 {
    } else {
      i := LevelElement(order, linked, l, i + 1, a - 1);
    }
  }

  lemma {:induction false} LevelIsSorted<K(!new)>(less: (K, K) -> bool, s: State<K>, l: nat, j: nat)
    requires Shape(less, s) && j <= |s.order| == |s.linked|
    ensures Increasing(less, s.heap, LevelFrom(s.order, s.linked, l, j))
    decreases |s.order| - j
  {
    var n := NextAt(s.linked, j, l);
    if n == |s.order| {
    } else {
      LevelIsSorted(less, s, l, n + 1);
      var ids := LevelFrom(s.order, s.linked, l, j);
      forall b | 0 < b < |ids| ensures less(s.heap[ids[0]].key, s.heap[ids[b]].key) {
        var i := LevelElement(s.order, s.linked, l, n + 1, b - 1);
        assert less(Keys(s)[n], Keys(s)[i]);
      }
    }
  }

  /** Level `l`, as its pointers give it, is sorted and a sublist of the level below. */
  ghost predicate SortedSublist<K(!new)>(less: (K, K) -> bool, heap: seq<Node<K>>, l: nat, ids: seq<Id>,
                                            below: seq<Id>)
  {
    && Follows(heap, HEAD, l, ids) && Increasing(less, heap, ids)
    && (l > 0 ==> Follows(heap, HEAD, l - 1, below) && Sublist(ids, below))
  }

  /** In every state of a run each level, as its pointers give it, is a sorted sublist of the level below. */
  lemma LevelsAreSortedSublists<K(!new)>(less: (K, K) -> bool, run: seq<State<K>>, i: nat, l: nat)
    requires StrictWeak(less) && Run(less, run) && i < |run| && l < MAX_HEIGHT
    ensures exists ids, below :: SortedSublist(less, run[i].heap, l, ids, below)
  {
    var s := run[i];
    RunKeeps(less, run, i);
    LevelIsFollowed(less, s, l, 0);
    LevelIsSorted(less, s, l, 0);
    var below := [];
    if l > 0 {
      below := LevelFrom(s.order, s.linked, l - 1, 0);
      LevelIsFollowed(less, s, l - 1, 0);
      LevelsNest(s.order, s.linked, l - 1, 0);
    }
    assert SortedSublist(less, s.heap, l, LevelFrom(s.order, s.linked, l, 0), below);
  }
}
