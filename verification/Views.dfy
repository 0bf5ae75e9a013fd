/**
 * What a multi-version store means to its users: at a sequence number, each
 * user key has the value of its newest visible entry, or nothing when that
 * entry is a deletion.  This is independent of how entries are laid out.
 */
module Views {
  import opened DbFormat

  predicate Visible(e: Entry, s: nat) {
    e.Parses() && e.seqno <= s
  }

  /** `e` is the visible entry of key `k` with the greatest sequence number. */
  ghost predicate Newest(es: set<Entry>, s: nat, k: Key, e: Entry) {
    && e in es && e.key == k && Visible(e, s)
    && forall e' :: e' in es && e'.key == k && Visible(e', s) ==> e'.Packed() <= e.Packed()
  }

  ghost predicate Shown(es: set<Entry>, s: nat, k: Key, e: Entry) {
    Newest(es, s, k, e) && e.IsValue()
  }

  ghost predicate HasShown(es: set<Entry>, s: nat, k: Key) {
    exists e :: Shown(es, s, k, e)
  }

  ghost function ShownEntry(es: set<Entry>, s: nat, k: Key): (e: Entry)
    requires HasShown(es, s, k)
    ensures Shown(es, s, k, e)
  {
    var e :| Shown(es, s, k, e); e
  }

  ghost function KeysOf(es: set<Entry>): set<Key> {
    set e | e in es :: e.key
  }

  /** The user-level content of a set of entries at sequence number `s`. */
  ghost function View(es: set<Entry>, s: nat): map<Key, Value> {
    map k | k in KeysOf(es) && HasShown(es, s, k) :: ShownEntry(es, s, k).value
  }

  function Elems(es: seq<Entry>): set<Entry> {
    set e | e in es
  }

  /** No two entries share a user key, sequence number and type. */
  ghost predicate Unambiguous(es: set<Entry>) {
    forall e, e' :: e in es && e' in es && e.key == e'.key && e.Packed() == e'.Packed() ==> e == e'
  }

  /** A shown entry determines the view of its key. */
  lemma ShownDecides(es: set<Entry>, s: nat, k: Key, e: Entry)
    requires Unambiguous(es) && Shown(es, s, k, e)
    ensures k in View(es, s) && View(es, s)[k] == e.value
  {
    assert k in KeysOf(es);
    var e' := ShownEntry(es, s, k);
    assert e'.Packed() == e.Packed();
  }

  lemma ShownHereShownThere(a: set<Entry>, b: set<Entry>, s: nat, k: Key)
    requires Unambiguous(a) && Unambiguous(b) && k in View(a, s)
    requires forall e :: Shown(a, s, k, e) ==> Shown(b, s, k, e)
    ensures k in View(b, s) && View(a, s)[k] == View(b, s)[k]
  {
    var e := ShownEntry(a, s, k);
    ShownDecides(a, s, k, e);
    ShownDecides(b, s, k, e);
  }

  /** Two sets that show the same entries have the same view. */
  lemma SameShownSameView(a: set<Entry>, b: set<Entry>, s: nat)
    requires Unambiguous(a) && Unambiguous(b)
    requires forall k, e :: Shown(a, s, k, e) <==> Shown(b, s, k, e)
    ensures View(a, s) == View(b, s)
  {
    forall k | k in View(a, s) ensures k in View(b, s) && View(a, s)[k] == View(b, s)[k] {
      ShownHereShownThere(a, b, s, k);
    }
    forall k | k in View(b, s) ensures k in View(a, s) {
      ShownHereShownThere(b, a, s, k);
    }
  }

  lemma SortedIsUnambiguous(less: Less, es: seq<Entry>)
    requires StrictTotalOrder(less) && Sorted(less, es)
    ensures Unambiguous(Elems(es))
  {
    forall e, e' | e in es && e' in es && e.key == e'.key && e.Packed() == e'.Packed()
      ensures e == e'
    {
      var i :| 0 <= i < |es| && es[i] == e;
      var j :| 0 <= j < |es| && es[j] == e';
    }
  }

  /** What one layer of a store says about a key: nothing, a deletion, or a value. */
  datatype Lookup = Missing | Deleted | Found(value: Value)

  ghost predicate HasNewest(es: set<Entry>, s: nat, k: Key) {
    exists e :: Newest(es, s, k, e)
  }

  ghost function NewestEntry(es: set<Entry>, s: nat, k: Key): (e: Entry)
    requires HasNewest(es, s, k)
    ensures Newest(es, s, k, e)
  {
    var e :| Newest(es, s, k, e); e
  }

  function Says(e: Entry): Lookup {
    if e.IsValue() then Found(e.value) else Deleted
  }

  ghost function Look(es: set<Entry>, s: nat, k: Key): Lookup {
    if HasNewest(es, s, k) then Says(NewestEntry(es, s, k)) else Missing
  }

  lemma NewestDecides(es: set<Entry>, s: nat, k: Key, e: Entry)
    requires Unambiguous(es) && Newest(es, s, k, e)
    ensures Look(es, s, k) == Says(e)
  {
    assert NewestEntry(es, s, k).Packed() == e.Packed();
  }

  lemma {:induction false} NewestExists(es: set<Entry>, s: nat, k: Key, e: Entry) returns (n: Entry)
    requires e in es && e.key == k && Visible(e, s)
    ensures Newest(es, s, k, n)
    decreases es
  {
    if Newest(es, s, k, e) {
      n := e;
    } else {
      var e' :| e' in es && e'.key == k && Visible(e', s) && e'.Packed() > e.Packed();
      n := NewestExists(es - {e}, s, k, e');
    }
  }
}
