/** The skip list: linked nodes spliced in place, searched by descending levels. */
module SkipList {
  import opened SkipLayout

  class Node<K> {
    const key: K
    var next: seq<Node?<K>>  // as long as the node is high; next[0] is the lowest link

    constructor (key: K, height: nat)
      ensures this.key == key && |next| == height
    {
      this.key := key;
      next := seq(height, _ => null);
    }
  }

  class SkipList<K(!new)> {
    const less: (K, K) -> bool
    const head: Node<K>
    var maxHeight: nat
    ghost var nodes: seq<Node<K>>  // in key order, without the head
    ghost var linked: seq<nat>     // at how many levels each node is linked
    ghost var repr: set<object>

    /** The links in memory: row 0 is the head's, row `i + 1` those of node `i`. */
    ghost function Rows(nodes: seq<Node<K>>): (rows: seq<seq<Node?<K>>>)
      reads head, nodes
      ensures |rows| == |nodes| + 1 && rows[0] == head.next
      ensures forall p {:trigger rows[p]} :: 0 < p <= |nodes| ==> rows[p] == nodes[p - 1].next
    {
      [head.next] + seq(|nodes|, i requires 0 <= i < |nodes| reads nodes => nodes[i].next)
    }

    /** The node whose links are row `p`. */
    ghost function Owner(nodes: seq<Node<K>>, p: nat): Node<K>
      requires p <= |nodes|
    {
      if p == 0 then head else nodes[p - 1]
    }

    ghost predicate Distinct(nodes: seq<Node<K>>) {
      head !in nodes && forall i, j :: 0 <= i < j < |nodes| ==> nodes[i] != nodes[j]
    }

    static function KeysOf(nodes: seq<Node<K>>): (keys: seq<K>)
      ensures |keys| == |nodes|
      ensures forall i :: 0 <= i < |nodes| ==> keys[i] == nodes[i].key
    {
      seq(|nodes|, i requires 0 <= i < |nodes| => nodes[i].key)
    }

    ghost predicate Valid()
      reads this, repr
    {
      && this in repr && head in repr && (forall n :: n in nodes ==> n in repr)
      && StrictWeak(less) && StrictlySorted(less, KeysOf(nodes)) && Distinct(nodes)
      && Wired(nodes, linked, Rows(nodes), null)
      && 1 <= maxHeight <= MAX_HEIGHT
      && forall i :: 0 <= i < |linked| ==> linked[i] <= maxHeight
    }

    /** The keys held, in order. */
    ghost function Keys(): seq<K>
      reads this
    {
      KeysOf(nodes)
    }

    /** Where a key is, or would be. */
    ghost function Place(key: K): nat
      reads this
    {
      Ceiling(less, Keys(), key)
    }

    constructor (less: (K, K) -> bool, anyKey: K)
      requires StrictWeak(less)
      ensures Valid() && fresh(repr) && Keys() == [] && this.less == less
    {
      this.less := less;
      var h := new Node(anyKey, MAX_HEIGHT);
      h.next := seq(MAX_HEIGHT, _ => null);
      head := h;
      maxHeight := 1;
      nodes, linked := [], [];
      new;
      repr := {this, head};
    }

    /** What the link of row `p` at level `l` is. */
    lemma LinkOf(p: nat, l: nat)
      requires Wired(nodes, linked, Rows(nodes), null)
      requires p <= |nodes| && l < HeightAt(linked, p)
      ensures l < |Owner(nodes, p).next|
      ensures Owner(nodes, p).next[l] == At(nodes, NextAt(linked, p, l), null)
    {
      assert Rows(nodes)[p] == Owner(nodes, p).next;
    }

    /** The nodes before `key` are exactly those before its place. */
    lemma BelowPlace(key: K, n: nat)
      requires StrictWeak(less) && StrictlySorted(less, Keys()) && n < |nodes|
      ensures less(nodes[n].key, key) <==> n < Place(key)
      ensures Equal(less, nodes[n].key, key) ==> Place(key) == n
    {
      BelowCeiling(less, Keys(), key, n);
    }

    predicate KeyIsAfterNode(key: K, n: Node?<K>)
      reads n
    {
      // The end of a list counts as after every key.
      n != null && less(n.key, key)
    }

    /**
     * The earliest node at or after `key`, or null, and at each level below
     * maxHeight the latest node before `key` (the head if there is none).
     */
    method FindGreaterOrEqual(key: K) returns (node: Node?<K>, prev: seq<Node<K>>, ghost before: seq<nat>)
      requires Valid()
      ensures node == At<Node?<K>>(nodes, Place(key), null)
      ensures |prev| == |before| == MAX_HEIGHT
      ensures AllPrecede(nodes, linked, before, prev, 0, maxHeight, Place(key))
    {
      ghost var c := Place(key);
      var x := head;
      ghost var p := 0;
      var level := maxHeight - 1;
      prev, before := seq(MAX_HEIGHT, _ => head), seq(MAX_HEIGHT, _ => 0);
      while true
        invariant 0 <= level < maxHeight && 0 <= p <= c && x == Owner(nodes, p) && level < HeightAt(linked, p)
        invariant |prev| == |before| == MAX_HEIGHT
        invariant AllPrecede(nodes, linked, before, prev, level + 1, maxHeight, c)
        decreases level, |nodes| - p
      {
        LinkOf(p, level);
        var next := x.next[level];
        ghost var n := NextAt(linked, p, level);
        if n < |nodes| { BelowPlace(key, n); }
        if KeyIsAfterNode(key, next) {
          // The next node of this level is still before the key
          x := next;
          p := n + 1;
        } else {
          AlsoPrecedes(before, prev, level, maxHeight, c, p, x);
          prev, before := prev[level := x], before[level := p];
          if level == 0 {
            return next, prev, before;
          } else {
            // This level leads no further
            level := level - 1;
          }
        }
      }
    }

    /** `prev[l]` is the last node before position `c` that is linked at level `l`. */
    ghost predicate Precedes(ns: seq<Node<K>>, ln: seq<nat>, before: seq<nat>, prev: seq<Node<K>>, l: nat, c: nat)
      requires l < |before| && l < |prev|
    {
      |ln| == |ns| && IsPrevious(ln, before[l], l, c) && prev[l] == Owner(ns, before[l])
    }

    ghost predicate AllPrecede(ns: seq<Node<K>>, ln: seq<nat>, before: seq<nat>, prev: seq<Node<K>>, lo: nat,
                               hi: nat, c: nat)
    {
      |prev| == |before| == MAX_HEIGHT && hi <= MAX_HEIGHT && forall l :: lo <= l < hi ==>
        Precedes(ns, ln, before, prev, l, c)
    }

    lemma AlsoPrecedes(before: seq<nat>, prev: seq<Node<K>>, l: nat, hi: nat, c: nat, p: nat, x: Node<K>)
      requires AllPrecede(nodes, linked, before, prev, l + 1, hi, c) && l < hi
      requires |linked| == |nodes| && IsPrevious(linked, p, l, c) && x == Owner(nodes, p)
      ensures AllPrecede(nodes, linked, before[l := p], prev[l := x], l, hi, c)
    {
      var before', prev': seq<Node<K>> := before[l := p], prev[l := x];
      forall m | l <= m < hi ensures Precedes(nodes, linked, before', prev', m, c) {
        assert m > l ==> Precedes(nodes, linked, before, prev, m, c);
      }
    }

    lemma HeadPrecedes(before: seq<nat>, prev: seq<Node<K>>, l: nat, c: nat)
      requires AllPrecede(nodes, linked, before, prev, 0, l, c) && l < MAX_HEIGHT && c <= |linked| == |nodes|
      requires forall i :: 0 <= i < |linked| ==> linked[i] <= l
      ensures AllPrecede(nodes, linked, before[l := 0], prev[l := head], 0, l + 1, c)
    {
      var before', prev': seq<Node<K>> := before[l := 0], prev[l := head];
      NextAtUnique(linked, 0, l, |linked|);
      forall m | 0 <= m <= l ensures Precedes(nodes, linked, before', prev', m, c) {
        assert m < l ==> Precedes(nodes, linked, before, prev, m, c);
      }
    }

    /** The latest node with a key before `key`, or the head. */
    method FindLessThan(key: K) returns (node: Node<K>)
      requires Valid()
      ensures node == Owner(nodes, Place(key))
    {
      var x := head;
      ghost var p := 0;
      var level := maxHeight - 1;
      while true
        invariant 0 <= level < maxHeight && 0 <= p <= Place(key) && x == Owner(nodes, p) && level < HeightAt(linked, p)
        decreases level, |nodes| - p
      {
        LinkOf(p, level);
        var next := x.next[level];
        ghost var n := NextAt(linked, p, level);
        if n < |nodes| { BelowPlace(key, n); }
        if next == null || !less(next.key, key) {
          if level == 0 {
            return x;
          } else {
            // This level leads no further
            level := level - 1;
          }
        } else {
          x := next;
          p := n + 1;
        }
      }
    }

    /** The last node, or the head of an empty list. */
    method FindLast() returns (node: Node<K>)
      requires Valid()
      ensures node == Owner(nodes, |nodes|)
    {
      var x := head;
      ghost var p := 0;
      var level := maxHeight - 1;
      while true
        invariant 0 <= level < maxHeight && 0 <= p <= |nodes| && x == Owner(nodes, p) && level < HeightAt(linked, p)
        decreases level, |nodes| - p
      {
        LinkOf(p, level);
        var next := x.next[level];
        ghost var n := NextAt(linked, p, level);
        if next == null {
          if level == 0 {
            return x;
          } else {
            // This level leads no further
            level := level - 1;
          }
        } else {
          x := next;
          p := n + 1;
        }
      }
    }

    /** Whether a key that compares equal is in the list. */
    method Contains(key: K) returns (found: bool)
      requires Valid()
      ensures found <==> Holds(less, Keys(), key)
    {
      var x, _, _ := FindGreaterOrEqual(key);
      found := x != null && Equal(less, key, x.key);
      if found {
        assert Equal(less, Keys()[Place(key)], key);
      }
      if Holds(less, Keys(), key) {
        ghost var i :| 0 <= i < |nodes| && Equal(less, Keys()[i], key);
        BelowPlace(key, i);
      }
    }

    /** The height that a coin gives: it has said yes below it, and says no there unless that is the maximum. */
    static predicate HeightOf(coin: nat -> bool, height: nat) {
      && 1 <= height <= 12 && (forall h :: 1 <= h < height ==> coin(h))
      && (height < 12 ==> !coin(height))
    }

    /** The first height at which the coin says no, or 12 if it never does. */
    method RandomHeight(coin: nat -> bool) returns (height: nat)
      ensures HeightOf(coin, height)
    {
      height := 1;
      while height < MAX_HEIGHT && coin(height)
        invariant 1 <= height <= MAX_HEIGHT && forall h :: 1 <= h < height ==> coin(h)
      {
        height := height + 1;
      }
    }

    /**
     * Inserts a key that nothing in the list compares equal to, at whatever height the coin gives.
     * Only the new node and one link per level are written.
     */
    method Insert(key: K, coin: nat -> bool)
      requires Valid() && !Holds(less, Keys(), key)
      modifies repr
      ensures Valid() && fresh(repr - old(repr))
      ensures Keys() == InsertAt(old(Keys()), old(Place(key)), key)
      ensures exists height :: HeightOf(coin, height) && linked == InsertAt(old(linked), old(Place(key)), height)
    {
      ghost var c, nodes0 := Place(key), nodes;
      SortedAfterInsert(less, Keys(), key);
      var height := RandomHeight(coin);
      var node := InsertAtHeight(key, height);
      KeysInsert(nodes0, c, node);
      repr := repr + {node};
    }

    method InsertAtHeight(key: K, height: nat) returns (node: Node<K>)
      requires Valid() && 1 <= height <= MAX_HEIGHT
      modifies `nodes, `linked, `maxHeight, head, nodes
      ensures fresh(node) && node.key == key
      ensures nodes == InsertAt(old(nodes), old(Place(key)), node)
      ensures linked == InsertAt(old(linked), old(Place(key)), height)
      ensures Wired(nodes, linked, Rows(nodes), null) && Distinct(nodes)
      ensures 1 <= maxHeight <= MAX_HEIGHT && forall i :: 0 <= i < |linked| ==> linked[i] <= maxHeight
    {
      ghost var c := Place(key);
      var x: Node?<K>, prev: seq<Node<K>>, before: seq<nat> := FindGreaterOrEqual(key);
      if height > maxHeight {
        prev, before := Raise(height, prev, before, c);
      }
      node := LinkNode(key, height, prev, before, c);
    }

    /** Raises the list: at the levels that come into use the head is the previous node. */
    method Raise(height: nat, prev: seq<Node<K>>, ghost before: seq<nat>, ghost c: nat)
      returns (prev': seq<Node<K>>, ghost before': seq<nat>)
      requires maxHeight < height <= MAX_HEIGHT && c <= |linked|
      requires forall i :: 0 <= i < |linked| ==> linked[i] <= maxHeight
      requires |linked| == |nodes| && AllPrecede(nodes, linked, before, prev, 0, maxHeight, c)
      modifies `maxHeight
      ensures maxHeight == height && AllPrecede(nodes, linked, before', prev', 0, height, c)
    {
      prev', before' := prev, before;
      var i := maxHeight;
      while i < height
        modifies {}
        invariant maxHeight <= i <= height
        invariant AllPrecede(nodes, linked, before', prev', 0, i, c)
      {
        HeadPrecedes(before', prev', i, c);
        prev', before' := prev'[i := head], before'[i := 0];
        i := i + 1;
      }
      maxHeight := height;
    }

    /** Links a new node at all its levels, the lowest one first. */
    method LinkNode(key: K, height: nat, prev: seq<Node<K>>, ghost before: seq<nat>, ghost c: nat)
      returns (node: Node<K>)
      requires Wired(nodes, linked, Rows(nodes), null) && Distinct(nodes)
      requires 1 <= height <= MAX_HEIGHT && c <= |nodes|
      requires AllPrecede(nodes, linked, before, prev, 0, height, c)
      modifies `nodes, `linked, head, nodes
      ensures fresh(node) && node.key == key
      ensures nodes == InsertAt(old(nodes), c, node) && linked == InsertAt(old(linked), c, height)
      ensures Wired(nodes, linked, Rows(nodes), null) && Distinct(nodes)
    {
      node := new Node(key, height);
      ghost var nodes0, linked0 := nodes, linked;
      assert Precedes(nodes, linked, before, prev, 0, c);
      LowestPrevious(linked, before[0], c);
      LinkLowest(node, prev[0], c);
      LinkUpper(node, height, prev, before, c, nodes0, linked0);
    }

    /** Links a node that is in the list at the levels above the lowest, going up. */
    method LinkUpper(node: Node<K>, height: nat, prev: seq<Node<K>>, ghost before: seq<nat>, ghost c: nat,
                     ghost nodes0: seq<Node<K>>, ghost linked0: seq<nat>)
      requires c <= |nodes0| == |linked0| && 1 <= height == |node.next|
      requires nodes == InsertAt(nodes0, c, node) && linked == InsertAt(linked0, c, 1)
      requires Wired(nodes, linked, Rows(nodes), null) && Distinct(nodes)
      requires AllPrecede(nodes0, linked0, before, prev, 0, height, c)
      modifies `linked, head, nodes
      ensures linked == InsertAt(linked0, c, height)
      ensures Wired(nodes, linked, Rows(nodes), null)
    {
      var i := 1;
      while i < height
        invariant 1 <= i <= height == |node.next|
        invariant linked == InsertAt(linked0, c, i)
        invariant Wired(nodes, linked, Rows(nodes), null)
      {
        assert Precedes(nodes0, linked0, before, prev, i, c);
        PreviousAfterInsert(linked0, c, i, before[i], i);
        LinkAt(node, prev[i], i, c, before[i]);
        i := i + 1;
      }
    }

    static lemma KeysInsert(ns: seq<Node<K>>, c: nat, node: Node<K>)
      requires c <= |ns|
      ensures KeysOf(InsertAt(ns, c, node)) == InsertAt(KeysOf(ns), c, node.key)
    {
    }

    lemma RowsInsert(ns: seq<Node<K>>, c: nat, node: Node<K>)
      requires c <= |ns|
      ensures Rows(InsertAt(ns, c, node)) == InsertAt(Rows(ns), c + 1, node.next)
    {
      var rows, rows' := Rows(InsertAt(ns, c, node)), InsertAt(Rows(ns), c + 1, node.next);
      forall q | 0 <= q < |rows| ensures rows[q] == rows'[q] {
        assert q > 0 ==> rows[q] == InsertAt(ns, c, node)[q - 1].next;
      }
    }

    /** Links a new node at the lowest level: this is what makes it part of the list. */
    method LinkLowest(node: Node<K>, prev: Node<K>, ghost c: nat)
      requires Wired(nodes, linked, Rows(nodes), null) && Distinct(nodes) && c <= |nodes|
      requires node !in nodes && node != head && |node.next| >= 1
      requires prev == Owner(nodes, c)
      modifies `nodes, `linked, node, prev
      ensures nodes == InsertAt(old(nodes), c, node) && linked == InsertAt(old(linked), c, 1)
      ensures Wired(nodes, linked, Rows(nodes), null) && Distinct(nodes)
      ensures |node.next| == old(|node.next|)
    {
      ghost var nodes0, linked0, rows0 := nodes, linked, Rows(nodes);
      LinkOf(c, 0);
      SetLinks(node, prev, 0);
      ghost var row := node.next;
      forall q {:trigger rows0[q]} | 0 <= q <= |nodes| && q != c ensures Owner(nodes, q).next == rows0[q] {
        assert Owner(nodes, q) != node && Owner(nodes, q) != prev;
      }
      assert Rows(nodes) == rows0[c := rows0[c][0 := node]];
      RowsInsert(nodes, c, node);
      nodes, linked := InsertAt(nodes, c, node), InsertAt(linked, c, 1);
      assert Rows(nodes) == LinkedLowest(rows0, c, node, row);
      SkipLayout.LinkLowest<Node?<K>>(nodes0, linked0, rows0, null, c, node, row);
    }

    /** The two stores that link `node` behind `prev` at a level, in this order. */
    static method SetLinks(node: Node<K>, prev: Node<K>, level: nat)
      requires node != prev && level < |node.next| && level < |prev.next|
      modifies node, prev
      ensures node.next == old(node.next)[level := old(prev.next)[level]]
      ensures prev.next == old(prev.next)[level := node]
    {
      node.next := node.next[level := prev.next[level]];
      prev.next := prev.next[level := node];
    }

    /** Links a node at its next level, behind `prev`. */
    method LinkAt(node: Node<K>, prev: Node<K>, level: nat, ghost c: nat, ghost p: nat)
      requires Wired(nodes, linked, Rows(nodes), null) && Distinct(nodes)
      requires c < |nodes| && node == nodes[c] && level == linked[c] < |node.next|
      requires IsPrevious(linked, p, level, c) && prev == Owner(nodes, p)
      modifies `linked, node, prev
      ensures linked == old(linked)[c := level + 1]
      ensures Wired(nodes, linked, Rows(nodes), null)
      ensures |node.next| == old(|node.next|)
    {
      ghost var linked0, rows0 := linked, Rows(nodes);
      LinkOf(p, level);
      SetLinks(node, prev, level);
      forall q {:trigger rows0[q]} | 0 <= q <= |nodes| && q != p && q != c + 1
        ensures Owner(nodes, q).next == rows0[q]
      {
        assert Owner(nodes, q) != node && Owner(nodes, q) != prev;
      }
      linked := linked[c := level + 1];
      RowsLinked(rows0, node, prev, level, c, p);
      StaysWired(linked0, linked, rows0, c, p);
    }

    lemma StaysWired(linked0: seq<nat>, linked': seq<nat>, rows: seq<seq<Node?<K>>>, c: nat, p: nat)
      requires Wired(nodes, linked0, rows, null) && c < |nodes|
      requires IsPrevious(linked0, p, linked0[c], c) && linked0[c] < |rows[c + 1]|
      requires p <= c && linked0[c] < |rows[p]| && Rows(nodes) == LinkedAt(rows, c, p, linked0[c], nodes[c])
      requires linked' == linked0[c := linked0[c] + 1]
      ensures Wired(nodes, linked', Rows(nodes), null)
    {
      LinkHigher<Node?<K>>(nodes, linked0, rows, null, c, p);
    }

    /** What the two stores do to the rows. */
    lemma RowsLinked(rows: seq<seq<Node?<K>>>, node: Node<K>, prev: Node<K>, level: nat, c: nat, p: nat)
      requires |rows| == |nodes| + 1 && p <= c < |nodes| && node == nodes[c] && prev == Owner(nodes, p)
      requires level < |rows[p]| && level < |rows[c + 1]|
      requires node.next == rows[c + 1][level := rows[p][level]] && prev.next == rows[p][level := node]
      requires forall q {:trigger rows[q]} :: 0 <= q <= |nodes| && q != p && q != c + 1 ==>
                 Owner(nodes, q).next == rows[q]
      ensures Rows(nodes) == LinkedAt(rows, c, p, level, node)
    {
      var rows' := LinkedAt(rows, c, p, level, node);
      forall q | 0 <= q <= |nodes| ensures Rows(nodes)[q] == rows'[q] {
        assert Rows(nodes)[q] == Owner(nodes, q).next;
        assert q != p && q != c + 1 ==> rows'[q] == rows[q];
      }
    }
  }

  /** A position in a skip list that nobody is inserting into. */
  class Iterator<K(!new)> {
    const list: SkipList<K>
    var node: Node?<K>
    ghost var at: nat  // the position of `node`, or the length of the list

    ghost predicate Valid()
      reads this, list, list.repr
    {
      list.Valid() && at <= |list.nodes| && node == At<Node?<K>>(list.nodes, at, null)
    }

    constructor (list: SkipList<K>)
      requires list.Valid()
      ensures Valid() && this.list == list && node == null
    {
      this.list := list;
      node := null;
      at := |list.nodes|;
    }

    method Next()
      requires Valid() && node != null
      modifies this
      ensures Valid() && at == old(at) + 1
    {
      list.LinkOf(at + 1, 0);
      NextAtUnique(list.linked, at + 1, 0, at + 1);
      node := node.next[0];
      at := at + 1;
    }

    /** Back to the last node before the current key, or off the list from its first node. */
    method Prev()
      requires Valid() && node != null
      modifies this
      ensures Valid() && at == if old(at) == 0 then |list.nodes| else old(at) - 1
    {
      list.BelowPlace(node.key, at);
      node := list.FindLessThan(node.key);
      if node == list.head {
        node := null;
      }
      at := if at == 0 then |list.nodes| else at - 1;
    }

    method Seek(target: K)
      requires Valid()
      modifies this
      ensures Valid() && at == list.Place(target)
    {
      var n, _, _ := list.FindGreaterOrEqual(target);
      node := n;
      at := list.Place(target);
    }

    method SeekToFirst()
      requires Valid()
      modifies this
      ensures Valid() && at == 0
    {
      list.LinkOf(0, 0);
      NextAtUnique(list.linked, 0, 0, 0);
      node := list.head.next[0];
      at := 0;
    }

    method SeekToLast()
      requires Valid()
      modifies this
      ensures Valid() && at == if list.nodes == [] then 0 else |list.nodes| - 1
    {
      node := list.FindLast();
      if node == list.head {
        node := null;
      }
      at := if list.nodes == [] then 0 else |list.nodes| - 1;
    }

    /** Prev undoes Next, wherever there is a next node. */
    method NextThenPrev()
      requires Valid() && at + 1 < |list.nodes|
      modifies this
      ensures Valid() && node == old(node) && at == old(at)
    {
      Next();
      Prev();
    }
  }
}
