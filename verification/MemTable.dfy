/** The in-memory table: a skip list of entries in internal-key order. */
module MemTable {
  import opened Bytes
  import opened DbFormat
  import opened Views
  import opened SkipLayout
  import SkipList

  function Order(less: Less): (Entry, Entry) -> bool {
    (a, b) => Before(less, a, b)
  }

  lemma OrderIsWeak(less: Less)
    requires StrictTotalOrder(less)
    ensures StrictWeak(Order(less))
  {
  }

  lemma SortedInOrder(less: Less, es: seq<Entry>)
    requires StrictlySorted(Order(less), es)
    ensures Sorted(less, es)
  {
    forall i, j | 0 <= i < j < |es| ensures Before(less, es[i], es[j]) {
      assert Order(less)(es[i], es[j]);
    }
  }

  /**
   * The entry at the place of a lookup key decides the lookup: if it has the
   * wanted user key it is the newest visible entry, otherwise there is none.
   */
  lemma PlaceDecides(less: Less, es: seq<Entry>, s: nat, k: Key)
    requires StrictTotalOrder(less) && StrictlySorted(Order(less), es)
    requires forall e :: e in es ==> e.Parses()
    ensures var c := Ceiling(Order(less), es, Entry(k, s, TYPE_FOR_SEEK, []));
            Look(Elems(es), s, k) == if c < |es| && es[c].key == k then Says(es[c]) else Missing
  {
    var target := Entry(k, s, TYPE_FOR_SEEK, []);
    var c := Ceiling(Order(less), es, target);
    SortedInOrder(less, es);
    SortedIsUnambiguous(less, es);
    forall i | 0 <= i < |es| && es[i].key == k && Visible(es[i], s)
      ensures c <= i && es[c].key == k && es[i].Packed() <= es[c].Packed()
    {
      assert !Order(less)(es[i], target);
      assert c < i ==> Before(less, es[c], es[i]);
    }
    if c < |es| && es[c].key == k {
      assert es[c] in es && !Order(less)(es[c], target);
      assert Newest(Elems(es), s, k, es[c]);
      NewestDecides(Elems(es), s, k, es[c]);
    }
  }

  class MemTable {
    const less: Less
    const table: SkipList.SkipList<Entry>

    ghost predicate Valid()
      reads table, table.repr
    {
      && StrictTotalOrder(less) && table.Valid() && table.less == Order(less)
      && forall e :: e in table.Keys() ==> e.Parses()
    }

    /** The entries held. */
    ghost function Content(): set<Entry>
      reads table
    {
      Elems(table.Keys())
    }

    constructor (less: Less)
      requires StrictTotalOrder(less)
      ensures Valid() && fresh(table) && fresh(table.repr) && Content() == {} && this.less == less
    {
      OrderIsWeak(less);
      this.less := less;
      table := new SkipList.SkipList(Order(less), Entry([], 0, 0, []));
    }

    /** Adds an entry; no two entries have the same user key, sequence number and type. */
    method Add(seqno: nat, typ: Byte, key: Key, value: Value, coin: nat -> bool)
      requires Valid() && typ <= TYPE_VALUE
      requires forall e :: e in Content() && e.key == key ==> e.Packed() != Entry(key, seqno, typ, value).Packed()
      modifies table.repr
      ensures Valid() && fresh(table.repr - old(table.repr))
      ensures Content() == old(Content()) + {Entry(key, seqno, typ, value)}
    {
      var e := Entry(key, seqno, typ, value);
      forall i | 0 <= i < |table.Keys()| ensures !Equal(Order(less), table.Keys()[i], e) {
        assert table.Keys()[i] in Content();
      }
      ghost var es, c := table.Keys(), table.Place(e);
      table.Insert(e, coin);
      InsertElems(es, c, e);
    }

    static lemma InsertElems(es: seq<Entry>, c: nat, e: Entry)
      requires c <= |es|
      ensures Elems(InsertAt(es, c, e)) == Elems(es) + {e}
    {
      var es' := InsertAt(es, c, e);
      forall x | x in Elems(es) + {e} ensures x in es' {
        if x in es {
          var i :| 0 <= i < |es| && es[i] == x;
          assert es'[if i < c then i else i + 1] == x;
        } else {
          assert es'[c] == x;
        }
      }
    }

    /** Looks a user key up at a sequence number. */
    method Get(key: Key, seqno: nat) returns (r: Lookup)
      requires Valid()
      ensures r == Look(Content(), seqno, key)
    {
      var target := Entry(key, seqno, TYPE_FOR_SEEK, []);
      var iter := new SkipList.Iterator(table);
      iter.Seek(target);
      PlaceDecides(less, table.Keys(), seqno, key);
      if iter.node != null {
        var e := iter.node.key;
        // An entry at the place of the lookup key is old enough to be visible.
        if e.key == key {
          if e.typ == TYPE_VALUE {
            return Found(e.value);
          } else if e.typ == TYPE_DELETION {
            return Deleted;
          }
        }
      }
      return Missing;
    }
  }
}
