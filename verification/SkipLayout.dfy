/**
 * The shape of a skip list, apart from pointers: the nodes in key order, and
 * for each the number of levels at which it is linked.  The sequential list
 * and its lock-free readers are both specified by this shape.
 */
module SkipLayout {
  const MAX_HEIGHT: nat := 12

  /** The order a comparator gives: keys may compare equal without being the same. */
  ghost predicate StrictWeak<K(!new)>(less: (K, K) -> bool) {
    && (forall a: K :: !less(a, a))
    && (forall a: K, b: K, c: K {:trigger less(a, b), less(b, c)} :: less(a, b) && less(b, c) ==> less(a, c))
    && (forall a: K, b: K, c: K {:trigger less(a, b), less(b, c)} :: less(a, c) ==> less(a, b) || less(b, c))
  }

  predicate Equal<K(!new)>(less: (K, K) -> bool, a: K, b: K) {
    !less(a, b) && !less(b, a)
  }

  /** Whether some key of the list compares equal to `k`. */
  ghost predicate Holds<K(!new)>(less: (K, K) -> bool, keys: seq<K>, k: K) {
    exists i :: 0 <= i < |keys| && Equal(less, keys[i], k)
  }

  ghost predicate StrictlySorted<K(!new)>(less: (K, K) -> bool, keys: seq<K>) {
    forall i, j :: 0 <= i < j < |keys| ==> less(keys[i], keys[j])
  }

  /** All keys before position `c` are before `k`, and the one at `c`, if any, is not. */
  ghost predicate IsCeiling<K(!new)>(less: (K, K) -> bool, keys: seq<K>, k: K, c: nat) {
    && c <= |keys|
    && (forall i :: 0 <= i < c ==> less(keys[i], k))
    && (c < |keys| ==> !less(keys[c], k))
  }

  lemma {:induction false} CeilingExists<K(!new)>(less: (K, K) -> bool, keys: seq<K>, k: K, from: nat)
    requires from <= |keys| && forall i :: 0 <= i < from ==> less(keys[i], k)
    ensures exists c: nat :: IsCeiling(less, keys, k, c)
    decreases |keys| - from
  {
    if from == |keys| || !less(keys[from], k) {
      assert IsCeiling(less, keys, k, from);
    } else {
      CeilingExists(less, keys, k, from + 1);
    }
  }

  /** Position of the first key at or after `k`; the length when there is none. */
  ghost function Ceiling<K(!new)>(less: (K, K) -> bool, keys: seq<K>, k: K): (c: nat)
    ensures IsCeiling(less, keys, k, c)
  {
    CeilingExists(less, keys, k, 0);
    var c: nat :| IsCeiling(less, keys, k, c);
    c
  }

  /** In a sorted list the keys before `k` are exactly those before its ceiling. */
  lemma BelowCeiling<K(!new)>(less: (K, K) -> bool, keys: seq<K>, k: K, n: nat)
    requires StrictWeak(less) && StrictlySorted(less, keys) && n < |keys|
    ensures less(keys[n], k) <==> n < Ceiling(less, keys, k)
    ensures Equal(less, keys[n], k) ==> Ceiling(less, keys, k) == n
  {
  }

  /** Position of the first node at or after `j` that is linked at level `l`. */
  function NextAt(linked: seq<nat>, j: nat, l: nat): (r: nat)
    requires j <= |linked|
    ensures j <= r <= |linked|
    ensures r < |linked| ==> linked[r] > l
    ensures forall m :: j <= m < r ==> linked[m] <= l
    decreases |linked| - j
  {
    if j == |linked| || linked[j] > l then j else NextAt(linked, j + 1, l)
  }

  lemma NextAtUnique(linked: seq<nat>, j: nat, l: nat, r: nat)
    requires j <= r <= |linked|
    requires r < |linked| ==> linked[r] > l
    requires forall m :: j <= m < r ==> linked[m] <= l
    ensures NextAt(linked, j, l) == r
  {
    var q := NextAt(linked, j, l);
  }

  function InsertAt<T>(s: seq<T>, c: nat, x: T): (r: seq<T>)
    requires c <= |s|
    ensures |r| == |s| + 1 && r[c] == x
    ensures forall i :: 0 <= i < c ==> r[i] == s[i]
    ensures forall i :: c < i < |r| ==> r[i] == s[i - 1]
  {
    s[..c] + [x] + s[c..]
  }

  /** The element at a position, or `nul` beyond the end. */
  function At<T>(nodes: seq<T>, i: nat, nul: T): T {
    if i < |nodes| then nodes[i] else nul
  }

  /** How many levels are in use at row `p`: all of them for the head, at row 0. */
  function HeightAt(linked: seq<nat>, p: nat): nat
    requires p <= |linked|
  {
    if p == 0 then MAX_HEIGHT else linked[p - 1]
  }

  /**
   * Row `p` holds the links of node `p - 1`, and row 0 those of the head.  At
   * each level in use a row points to the next node that is linked there.
   */
  ghost predicate Wired<T>(nodes: seq<T>, linked: seq<nat>, rows: seq<seq<T>>, nul: T) {
    && |nodes| == |linked| && |rows| == |nodes| + 1
    && (forall i :: 0 <= i < |linked| ==> 1 <= linked[i])
    && (forall p {:trigger rows[p]} :: 0 <= p < |rows| ==> HeightAt(linked, p) <= |rows[p]|)
    && forall p, l {:trigger rows[p][l]} :: 0 <= p < |rows| && 0 <= l < HeightAt(linked, p) ==>
         rows[p][l] == At(nodes, NextAt(linked, p, l), nul)
  }

  /** Row `p` is the last one before position `c` that is in use at level `l`. */
  ghost predicate IsPrevious(linked: seq<nat>, p: nat, l: nat, c: nat) {
    p <= c <= |linked| && l < HeightAt(linked, p) && NextAt(linked, p, l) >= c
  }

  /** Rows before the place of a new node precede it as they preceded that place. */
  lemma PreviousAfterInsert(linked: seq<nat>, c: nat, h: nat, p: nat, l: nat)
    requires IsPrevious(linked, p, l, c)
    ensures IsPrevious(InsertAt(linked, c, h), p, l, c)
  {
  }

  /** Successors after a node linked at one level is put at `c`. */
  lemma NextAfterInsert(linked: seq<nat>, c: nat, j: nat, l: nat)
    requires c <= |linked| && j <= |linked| + 1
    ensures var linked' := InsertAt(linked, c, 1);
            NextAt(linked', j, l) ==
            if j > c then NextAt(linked, j - 1, l) + 1
            else if NextAt(linked, j, l) < c then NextAt(linked, j, l)
            else if l == 0 then c
            else NextAt(linked, j, l) + 1
  {
    var linked' := InsertAt(linked, c, 1);
    var r := if j > c then NextAt(linked, j - 1, l) + 1
             else if NextAt(linked, j, l) < c then NextAt(linked, j, l)
             else if l == 0 then c
             else NextAt(linked, j, l) + 1;
    NextAtUnique(linked', j, l, r);
  }

  /** Successors after the node at `c` is linked at one more level. */
  lemma NextAfterRaise(linked: seq<nat>, c: nat, j: nat, l: nat)
    requires c < |linked| && j <= |linked|
    ensures var linked' := linked[c := linked[c] + 1];
            NextAt(linked', j, l) ==
            if l == linked[c] && j <= c <= NextAt(linked, j, l) then c else NextAt(linked, j, l)
  {
    var linked' := linked[c := linked[c] + 1];
    NextAtUnique(linked', j, l,
      if l == linked[c] && j <= c <= NextAt(linked, j, l) then c else NextAt(linked, j, l));
  }

  /** The rows after a node with links `row` is linked at the lowest level. */
  function LinkedLowest<T>(rows: seq<seq<T>>, c: nat, node: T, row: seq<T>): (rows': seq<seq<T>>)
    requires c < |rows| && |rows[c]| > 0
  {
    InsertAt(rows[c := rows[c][0 := node]], c + 1, row)
  }

  /** Where each row of the old list is in the new one. */
  lemma LowestRow<T>(linked: seq<nat>, rows: seq<seq<T>>, c: nat, node: T, row: seq<T>, p: nat)
    requires |rows| == |linked| + 1 && c <= |linked| && |rows[c]| > 0 && p <= |linked| + 1
    ensures var rows' := LinkedLowest(rows, c, node, row);
            rows'[p] == if p < c then rows[p] else if p == c then rows[c][0 := node]
                        else if p == c + 1 then row else rows[p - 1]
    ensures HeightAt(InsertAt(linked, c, 1), p) ==
            if p <= c then HeightAt(linked, p) else if p == c + 1 then 1 else HeightAt(linked, p - 1)
  {
  }

  /** Rows up to the new one point where they pointed; the last of them, at the lowest level, to the new node. */
  lemma LinkBefore<T>(nodes: seq<T>, linked: seq<nat>, rows: seq<seq<T>>, nul: T, c: nat, node: T, p: nat, l: nat)
    requires Wired(nodes, linked, rows, nul) && p <= c <= |nodes| && l < HeightAt(linked, p)
    ensures l < |rows[p]|
    ensures At(InsertAt(nodes, c, node), NextAt(InsertAt(linked, c, 1), p, l), nul)
            == if p == c && l == 0 then node else rows[p][l]
  {
    NextAfterInsert(linked, c, p, l);
    var n := NextAt(linked, p, l);
    AtInsert(nodes, c, node, if n < c then n else if l == 0 then c else n + 1, nul);
    assert HeightAt(linked, p) <= |rows[p]|;
    assert rows[p][l] == At(nodes, n, nul);
  }

  lemma LowestLinkUpTo<T>(nodes: seq<T>, linked: seq<nat>, rows: seq<seq<T>>, nul: T, c: nat, node: T, row: seq<T>,
                          p: nat, l: nat)
    requires Wired(nodes, linked, rows, nul) && c <= |nodes|
    requires |row| > 0 && row[0] == rows[c][0]
    requires p <= |linked| + 1 && l < HeightAt(InsertAt(linked, c, 1), p)
    requires p <= c
    ensures var rows' := LinkedLowest(rows, c, node, row);
            && HeightAt(InsertAt(linked, c, 1), p) <= |rows'[p]|
            && rows'[p][l] == At(InsertAt(nodes, c, node), NextAt(InsertAt(linked, c, 1), p, l), nul)
  {
    LowestRow(linked, rows, c, node, row, p);
    LinkBefore(nodes, linked, rows, nul, c, node, p, l);
    assert HeightAt(linked, p) <= |rows[p]|;
  }

  lemma LowestLinkAfter<T>(nodes: seq<T>, linked: seq<nat>, rows: seq<seq<T>>, nul: T, c: nat, node: T, row: seq<T>,
                           p: nat, l: nat)
    requires Wired(nodes, linked, rows, nul) && c <= |nodes|
    requires |row| > 0 && row[0] == rows[c][0]
    requires p <= |linked| + 1 && l < HeightAt(InsertAt(linked, c, 1), p)
    requires p > c
    ensures var rows' := LinkedLowest(rows, c, node, row);
            && HeightAt(InsertAt(linked, c, 1), p) <= |rows'[p]|
            && rows'[p][l] == At(InsertAt(nodes, c, node), NextAt(InsertAt(linked, c, 1), p, l), nul)
  {
    LowestRow(linked, rows, c, node, row, p);
    NextAfterInsert(linked, c, p, l);
    if p == c + 1 {
      assert HeightAt(linked, c) > 0;
      LinkNew(nodes, linked, rows, nul, c, node);
    } else {
      assert HeightAt(linked, p - 1) <= |rows[p - 1]|;
      LinkBeyond(nodes, linked, rows, nul, c, node, p, l);
    }
  }

  /** The new row points where the row before it pointed. */
  lemma LinkNew<T>(nodes: seq<T>, linked: seq<nat>, rows: seq<seq<T>>, nul: T, c: nat, node: T)
    requires Wired(nodes, linked, rows, nul) && c <= |nodes|
    ensures rows[c] != [] && rows[c][0] == At(InsertAt(nodes, c, node), NextAt(InsertAt(linked, c, 1), c + 1, 0), nul)
  {
    NextAfterInsert(linked, c, c + 1, 0);
    AtInsert(nodes, c, node, NextAt(linked, c, 0) + 1, nul);
    assert HeightAt(linked, c) <= |rows[c]|;
    assert rows[c][0] == At(nodes, NextAt(linked, c, 0), nul);
  }

  /** Rows beyond the new one point where they pointed. */
  lemma LinkBeyond<T>(nodes: seq<T>, linked: seq<nat>, rows: seq<seq<T>>, nul: T, c: nat, node: T, p: nat, l: nat)
    requires Wired(nodes, linked, rows, nul) && c <= |nodes| && c + 1 < p <= |linked| + 1
    requires l < HeightAt(linked, p - 1)
    ensures l < |rows[p - 1]|
    ensures rows[p - 1][l] == At(InsertAt(nodes, c, node), NextAt(InsertAt(linked, c, 1), p, l), nul)
  {
    NextAfterInsert(linked, c, p, l);
    AtInsert(nodes, c, node, NextAt(linked, p - 1, l) + 1, nul);
    assert HeightAt(linked, p - 1) <= |rows[p - 1]|;
    assert rows[p - 1][l] == At(nodes, NextAt(linked, p - 1, l), nul);
  }

  lemma LowestLink<T>(nodes: seq<T>, linked: seq<nat>, rows: seq<seq<T>>, nul: T, c: nat, node: T, row: seq<T>,
                      p: nat, l: nat)
    requires Wired(nodes, linked, rows, nul) && c <= |nodes|
    requires |row| > 0 && row[0] == rows[c][0]
    requires p <= |linked| + 1 && l < HeightAt(InsertAt(linked, c, 1), p)
    ensures var rows' := LinkedLowest(rows, c, node, row);
            && HeightAt(InsertAt(linked, c, 1), p) <= |rows'[p]|
            && rows'[p][l] == At(InsertAt(nodes, c, node), NextAt(InsertAt(linked, c, 1), p, l), nul)
  {
    if p <= c {
      LowestLinkUpTo(nodes, linked, rows, nul, c, node, row, p, l);
    } else {
      LowestLinkAfter(nodes, linked, rows, nul, c, node, row, p, l);
    }
  }

  lemma AtInsert<T>(nodes: seq<T>, c: nat, node: T, i: nat, nul: T)
    requires c <= |nodes|
    ensures At(InsertAt(nodes, c, node), i, nul) ==
            if i < c then At(nodes, i, nul) else if i == c then node else At(nodes, i - 1, nul)
  {
  }

  /** At the lowest level the previous row is the adjacent one. */
  lemma LowestPrevious(linked: seq<nat>, p: nat, c: nat)
    requires (forall i :: 0 <= i < |linked| ==> 1 <= linked[i]) && IsPrevious(linked, p, 0, c)
    ensures p == c
  {
    NextAtUnique(linked, p, 0, p);
  }

  /** Linking a node at the lowest level puts it into the list there and nowhere else. */
  lemma LinkLowest<T>(nodes: seq<T>, linked: seq<nat>, rows: seq<seq<T>>, nul: T, c: nat, node: T, row: seq<T>)
    requires Wired(nodes, linked, rows, nul) && c <= |nodes|
    requires |row| > 0 && row[0] == rows[c][0]
    ensures Wired(InsertAt(nodes, c, node), InsertAt(linked, c, 1), LinkedLowest(rows, c, node, row), nul)
  {
    var linked' := InsertAt(linked, c, 1);
    forall p, l | 0 <= p <= |linked'| && 0 <= l < HeightAt(linked', p)
      ensures var rows' := LinkedLowest(rows, c, node, row);
              && HeightAt(linked', p) <= |rows'[p]|
              && rows'[p][l] == At(InsertAt(nodes, c, node), NextAt(linked', p, l), nul)
    {
      LowestLink(nodes, linked, rows, nul, c, node, row, p, l);
    }
    forall p | 0 <= p <= |linked'| ensures HeightAt(linked', p) <= |LinkedLowest(rows, c, node, row)[p]| {
      LowestLink(nodes, linked, rows, nul, c, node, row, p, 0);
    }
  }

  /** The rows after the node at `c` is linked at level `l` behind row `p`. */
  function LinkedAt<T>(rows: seq<seq<T>>, c: nat, p: nat, l: nat, node: T): (rows': seq<seq<T>>)
    requires p <= c < |rows| - 1 && l < |rows[p]| && l < |rows[c + 1]|
  {
    rows[c + 1 := rows[c + 1][l := rows[p][l]]][p := rows[p][l := node]]
  }

  /** Linking a node at its next level puts it into the list there and changes no other level. */
  lemma LinkHigher<T>(nodes: seq<T>, linked: seq<nat>, rows: seq<seq<T>>, nul: T, c: nat, p: nat)
    requires Wired(nodes, linked, rows, nul) && c < |nodes|
    requires IsPrevious(linked, p, linked[c], c) && linked[c] < |rows[c + 1]|
    ensures Wired(nodes, linked[c := linked[c] + 1], LinkedAt(rows, c, p, linked[c], nodes[c]), nul)
  {
    var linked', rows' := linked[c := linked[c] + 1], LinkedAt(rows, c, p, linked[c], nodes[c]);
    forall q, l | 0 <= q < |rows'| && 0 <= l < HeightAt(linked', q)
      ensures rows'[q][l] == At(nodes, NextAt(linked', q, l), nul)
    {
      NextAfterRaise(linked, c, q, l);
      if l == linked[c] && q <= c {
        SamePrevious(linked, q, p, l, c);
      }
    }
  }

  /** There is one previous row at each level. */
  lemma SamePrevious(linked: seq<nat>, q: nat, p: nat, l: nat, c: nat)
    requires IsPrevious(linked, p, l, c) && q <= c && l < HeightAt(linked, q)
    ensures NextAt(linked, q, l) >= c <==> q == p
  {
  }

  lemma SortedAfterInsert<K(!new)>(less: (K, K) -> bool, keys: seq<K>, k: K)
    requires StrictWeak(less) && StrictlySorted(less, keys)
    requires !Holds(less, keys, k)
    ensures StrictlySorted(less, InsertAt(keys, Ceiling(less, keys, k), k))
  {
    var c := Ceiling(less, keys, k);
    forall i | c <= i < |keys| ensures less(k, keys[i]) {
      assert !Equal(less, keys[c], k);
      assert c < i ==> less(keys[c], keys[i]);
    }
  }
}
