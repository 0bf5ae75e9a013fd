/**
 * The reference meaning of a database: a history of operations, replayed.
 * Below it, how entries kept in layers answer the same questions.
 */
module History {
  import opened DbFormat
  import opened Views
  import opened Operations
  import opened Wrappers

  function Apply(m: map<Key, Value>, op: Op): map<Key, Value> {
    match op
    case Put(k, v) => m[k := v]
    case Delete(k) => m - {k}
  }

  /** The contents after a history of operations. */
  function Replay(h: seq<Op>): map<Key, Value> {
    if h == [] then map[] else Apply(Replay(h[..|h| - 1]), h[|h| - 1])
  }

  /** What key `k` has after the first `s` operations. */
  function Truth(h: seq<Op>, s: nat, k: Key): Option<Value>
    requires s <= |h|
  {
    var m := Replay(h[..s]);
    if k in m then Some(m[k]) else None
  }

  /** The entry that operation number `i` (counting from 1) puts into the store. */
  function EntryOf(h: seq<Op>, i: nat): (e: Entry)
    requires 0 < i <= |h|
    ensures e.seqno == i && e.Parses()
  {
    match h[i - 1]
    case Put(k, v) => Entry(k, i, TYPE_VALUE, v)
    case Delete(k) => Entry(k, i, TYPE_DELETION, [])
  }

  /** Every entry is the one its operation put there. */
  ghost predicate FromHistory(h: seq<Op>, es: set<Entry>) {
    forall e :: e in es ==> 0 < e.seqno <= |h| && e == EntryOf(h, e.seqno)
  }

  function Reply(l: Lookup): Option<Value> {
    if l.Found? then Some(l.value) else None
  }

  ghost function Get(es: set<Entry>, s: nat, k: Key): Option<Value> {
    Reply(Look(es, s, k))
  }

  lemma HistoryIsUnambiguous(h: seq<Op>, es: set<Entry>)
    requires FromHistory(h, es)
    ensures Unambiguous(es)
  {
  }

  /** The map view and the key-by-key view of a set of entries agree. */
  lemma ViewReplies(es: set<Entry>, s: nat, k: Key)
    requires Unambiguous(es)
    ensures Get(es, s, k) == if k in View(es, s) then Some(View(es, s)[k]) else None
  {
    if k in View(es, s) {
      var e := ShownEntry(es, s, k);
      NewestDecides(es, s, k, e);
      ShownDecides(es, s, k, e);
    } else if HasNewest(es, s, k) {
      var e := NewestEntry(es, s, k);
      NewestDecides(es, s, k, e);
      if e.IsValue() {
        ShownDecides(es, s, k, e);
      }
    }
  }

  /** Two sets with the same entries of a key up to `s` answer alike. */
  lemma SameVisible(a: set<Entry>, b: set<Entry>, s: nat, t: nat, k: Key)
    requires Unambiguous(a) && Unambiguous(b)
    requires forall e: Entry :: e.key == k ==> (e in a && Visible(e, s) <==> e in b && Visible(e, t))
    ensures Look(a, s, k) == Look(b, t, k)
  {
    forall e: Entry ensures Newest(a, s, k, e) <==> Newest(b, t, k, e) {}
    if HasNewest(a, s, k) {
      var e := NewestEntry(a, s, k);
      NewestDecides(a, s, k, e);
      NewestDecides(b, t, k, e);
    } else {
      assert !HasNewest(b, t, k);
    }
  }

  /** Entries of `k` in `a` are newer than those in `b`. */
  ghost predicate Newer(a: set<Entry>, b: set<Entry>, k: Key) {
    forall e, e' :: e in a && e' in b && e.key == k && e'.key == k ==> e'.seqno < e.seqno
  }

  /** Looking into the newer of two layers first, and only then into the older, finds the newest entry of both. */
  lemma TwoLayers(h: seq<Op>, a: set<Entry>, b: set<Entry>, s: nat, k: Key)
    requires FromHistory(h, a + b) && Newer(a, b, k)
    ensures Look(a + b, s, k) == if Look(a, s, k) != Missing then Look(a, s, k) else Look(b, s, k)
  {
    HistoryIsUnambiguous(h, a + b);
    assert FromHistory(h, a) && FromHistory(h, b);
    HistoryIsUnambiguous(h, a);
    HistoryIsUnambiguous(h, b);
    if HasNewest(a, s, k) {
      var e := NewestEntry(a, s, k);
      assert Newest(a + b, s, k, e);
      NewestDecides(a + b, s, k, e);
    } else {
      if e :| e in a && e.key == k && Visible(e, s) {
        var n := NewestExists(a, s, k, e);
        assert false;
      }
      SameVisible(a + b, b, s, s, k);
    }
  }

  /** An entry beyond `s` does not matter at `s`. */
  lemma Invisible(h: seq<Op>, a: set<Entry>, e: Entry, s: nat, k: Key)
    requires FromHistory(h, a + {e}) && s < e.seqno
    ensures Look(a + {e}, s, k) == Look(a, s, k)
  {
    assert FromHistory(h, a);
    HistoryIsUnambiguous(h, a + {e});
    HistoryIsUnambiguous(h, a);
    SameVisible(a + {e}, a, s, s, k);
  }

  /** The next operation decides about its own key only. */
  lemma TruthMoves(h: seq<Op>, n: nat, k: Key)
    requires n < |h|
    ensures var e := EntryOf(h, n + 1);
            Truth(h, n + 1, k)
            == if e.key != k then Truth(h, n, k) else if e.IsValue() then Some(e.value) else None
  {
    assert h[..n + 1][..n] == h[..n];
    assert Replay(h[..n + 1]) == Apply(Replay(h[..n]), h[n]);
  }

  /** Adding the next operation's entry makes a store that was right up to `n` right up to `n + 1`. */
  lemma NextEntry(h: seq<Op>, a: set<Entry>, n: nat, k: Key)
    requires n < |h| && FromHistory(h, a) && (forall e :: e in a ==> e.seqno <= n)
    requires Get(a, n, k) == Truth(h, n, k)
    ensures Get(a + {EntryOf(h, n + 1)}, n + 1, k) == Truth(h, n + 1, k)
  {
    var e := EntryOf(h, n + 1);
    var all := a + {e};
    TruthMoves(h, n, k);
    if e.key == k {
      HistoryIsUnambiguous(h, all);
      assert Newest(all, n + 1, k, e);
      NewestDecides(all, n + 1, k, e);
    } else {
      HistoryIsUnambiguous(h, a);
      HistoryIsUnambiguous(h, all);
      SameVisible(all, a, n + 1, n, k);
    }
  }

  // ---------- Layers ----------

  /** Layers of entries, deepest first. */
  type Version = seq<set<Entry>>

  function Union(v: Version): set<Entry> {
    if v == [] then {} else Union(v[..|v| - 1]) + v[|v| - 1]
  }

  lemma {:induction false} InUnion(v: Version, e: Entry)
    ensures e in Union(v) <==> exists i :: 0 <= i < |v| && e in v[i]
  {
    if v == [] {
    } else {
      InUnion(v[..|v| - 1], e);
      var u := v[..|v| - 1];
      forall i | 0 <= i < |u| ensures u[i] == v[i] {}
    }
  }

  /** Within one user key, shallower layers hold newer entries. */
  ghost predicate Layered(v: Version) {
    forall i, j, e, e' {:trigger e in v[i], e' in v[j]} ::
      0 <= i < j < |v| && e in v[i] && e' in v[j] && e.key == e'.key ==> e.seqno < e'.seqno
  }

  /** Searching the layers one by one, shallowest first. */
  ghost function VersionGet(v: Version, s: nat, k: Key): Lookup {
    if v == [] then Missing
    else if Look(v[|v| - 1], s, k) != Missing then Look(v[|v| - 1], s, k)
    else VersionGet(v[..|v| - 1], s, k)
  }

  lemma {:induction false} LayeredGet(h: seq<Op>, v: Version, s: nat, k: Key)
    requires FromHistory(h, Union(v)) && Layered(v)
    ensures VersionGet(v, s, k) == Look(Union(v), s, k)
  {
    if v == [] {
    } else {
      var top, below := v[|v| - 1], v[..|v| - 1];
      LayeredGet(h, below, s, k);
      assert Newer(top, Union(below), k) by {
        forall e, e' | e in top && e' in Union(below) && e.key == k && e'.key == k ensures e'.seqno < e.seqno {
          InUnion(below, e');
          var i :| 0 <= i < |below| && e' in below[i];
          assert e' in v[i];
        }
      }
      assert Union(v) == top + Union(below);
      TwoLayers(h, top, Union(below), s, k);
    }
  }
}
