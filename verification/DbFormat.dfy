/**
 * Internal keys of the storage engine: a user key, a sequence number and a
 * one-byte type, ordered by increasing user key and then by decreasing
 * (sequence, type).  The user comparator is any strict total order.
 */
module DbFormat {
  import opened Bytes

  type Key = seq<Byte>
  type Value = seq<Byte>
  type Less = (Key, Key) -> bool

  const TYPE_DELETION: Byte := 0
  const TYPE_VALUE: Byte := 1
  const TYPE_FOR_SEEK: Byte := TYPE_VALUE
  const MAX_SEQUENCE_NUMBER: nat := 0xFF_FFFF_FFFF_FFFF

  ghost predicate StrictTotalOrder(less: Less) {
    && (forall a: Key :: !less(a, a))
    && (forall a: Key, b: Key, c: Key :: less(a, b) && less(b, c) ==> less(a, c))
    && (forall a: Key, b: Key :: a == b || less(a, b) || less(b, a))
  }

  /** An internal key with its value.  A type above 1 is one that does not parse. */
  datatype Entry = Entry(key: Key, seqno: nat, typ: Byte, value: Value) {
    predicate Parses() { typ <= TYPE_VALUE }

    predicate IsValue() { typ == TYPE_VALUE }

    /** Sequence number and type packed into one number, as stored. */
    function Packed(): nat { seqno * 256 + typ }
  }

  /** The internal-key order on entries. */
  predicate Before(less: Less, a: Entry, b: Entry) {
    less(a.key, b.key) || (a.key == b.key && a.Packed() > b.Packed())
  }

  /** A list of entries in strictly increasing internal-key order. */
  ghost predicate Sorted(less: Less, es: seq<Entry>) {
    forall i, j :: 0 <= i < j < |es| ==> Before(less, es[i], es[j])
  }

  /** The stored form of an internal key. */
  function AppendInternalKey(e: Entry): (bs: seq<Byte>) {
    e.key + FixedBytes(e.Packed(), 8)
  }

  datatype ParseResult = BadKey | Parsed(key: Key, seqno: nat, typ: Byte)

  function ParseInternalKey(bs: seq<Byte>): (r: ParseResult) {
    if |bs| < 8 then BadKey
    else
      var num := FixedValue(bs[|bs| - 8..]);
      var c: Byte := num % 256;
      if c <= TYPE_VALUE then Parsed(bs[..|bs| - 8], num / 256, c) else BadKey
  }

  /** The last eight bytes of a stored key hold the packed number, and the others the user key. */
  lemma StoredParts(e: Entry)
    requires e.seqno <= MAX_SEQUENCE_NUMBER
    ensures var bs := AppendInternalKey(e);
            |bs| >= 8 && bs[..|bs| - 8] == e.key && FixedValue(bs[|bs| - 8..]) == e.Packed()
  {
    assert Pow256(8) == TWO_64 by {
      assert Pow256(4) == 0x1_0000_0000;
      assert Pow256(8) == 256 * 256 * 256 * 256 * Pow256(4);
    }
    FixedRoundTrip(e.Packed(), 8);
    var bs := AppendInternalKey(e);
    assert bs[|bs| - 8..] == FixedBytes(e.Packed(), 8);
    assert bs[..|bs| - 8] == e.key;
  }

  /** In bytes: the user key, the type, 0 for a deletion and 1 for a value, and seven bytes of number, lowest first. */
  lemma StoredBytes(e: Entry)
    requires e.seqno <= MAX_SEQUENCE_NUMBER
    ensures var n := e.seqno;
            AppendInternalKey(e) == e.key + [e.typ, n % 256, n / 0x100 % 256, n / 0x1_0000 % 256, n / 0x100_0000 % 256,
                                             n / 0x1_0000_0000 % 256, n / 0x100_0000_0000 % 256, n / 0x1_0000_0000_0000]
    ensures (e.IsValue() <==> e.typ == 1) && (e.Parses() && !e.IsValue() <==> e.typ == 0)
  {
    var n0 := e.seqno;
    var n1 := n0 / 256;
    var n2 := n1 / 256;
    var n3 := n2 / 256;
    var n4 := n3 / 256;
    var n5 := n4 / 256;
    var n6 := n5 / 256;
    LowByte(e.typ, n0, 7);
    LowByte(n0 % 256, n1, 6);
    LowByte(n1 % 256, n2, 5);
    LowByte(n2 % 256, n3, 4);
    LowByte(n3 % 256, n4, 3);
    LowByte(n4 % 256, n5, 2);
    LowByte(n5 % 256, n6, 1);
    LowByte(n6, 0, 0);
    PlacesOf(n0);
  }

  lemma PlacesOf(n: nat)
    ensures n / 256 / 256 == n / 0x1_0000 && n / 0x1_0000 / 256 == n / 0x100_0000
    ensures n / 0x100_0000 / 256 == n / 0x1_0000_0000 && n / 0x1_0000_0000 / 256 == n / 0x100_0000_0000
    ensures n / 0x100_0000_0000 / 256 == n / 0x1_0000_0000_0000
  {
  }

  /** Parsing undoes serialization exactly for the types that exist. */
  lemma ParseUndoesAppend(e: Entry)
    requires e.seqno <= MAX_SEQUENCE_NUMBER
    ensures ParseInternalKey(AppendInternalKey(e)) ==
            if e.Parses() then Parsed(e.key, e.seqno, e.typ) else BadKey
  {
    StoredParts(e);
  }

  /** The comparator on stored keys: user keys first, then packed numbers, greater ones first. */
  function Compare(less: Less, a: seq<Byte>, b: seq<Byte>): (r: int)
    requires |a| >= 8 && |b| >= 8
  {
    var ka, kb := a[..|a| - 8], b[..|b| - 8];
    if less(ka, kb) then -1
    else if less(kb, ka) then 1
    else
      var na, nb := FixedValue(a[|a| - 8..]), FixedValue(b[|b| - 8..]);
      if na > nb then -1 else if na < nb then 1 else 0
  }

  /** Comparing stored keys compares entries, and stored keys are equal only for the same version. */
  lemma CompareIsBefore(less: Less, a: Entry, b: Entry)
    requires StrictTotalOrder(less) && a.seqno <= MAX_SEQUENCE_NUMBER && b.seqno <= MAX_SEQUENCE_NUMBER
    ensures var c := Compare(less, AppendInternalKey(a), AppendInternalKey(b));
            && (c < 0 <==> Before(less, a, b)) && (c > 0 <==> Before(less, b, a))
            && (c == 0 <==> a.key == b.key && a.Packed() == b.Packed())
  {
    StoredParts(a);
    StoredParts(b);
  }

  /**
   * A shorter key to put between two: `tmp` is what the user comparator made of
   * the first user key, and is taken if it is shorter and greater.
   */
  function Separator(less: Less, start: Entry, tmp: Key): Entry {
    if |tmp| < |start.key| && less(start.key, tmp) then Entry(tmp, MAX_SEQUENCE_NUMBER, TYPE_FOR_SEEK, []) else start
  }

  /**
   * The separator of two keys still separates them, if the user comparator's
   * does; with `limited` unset it is the successor of a single key.
   */
  lemma SeparatorSeparates(less: Less, start: Entry, limit: Entry, tmp: Key, limited: bool)
    requires StrictTotalOrder(less)
    requires limited ==> Before(less, start, limit) && (less(start.key, tmp) ==> less(tmp, limit.key))
    ensures var sep := Separator(less, start, tmp);
            && (sep == start || (Before(less, start, sep) && |AppendInternalKey(sep)| < |AppendInternalKey(start)|))
            && (limited ==> Before(less, sep, limit))
            && forall e :: Before(less, e, start) ==> Before(less, e, sep)
  {
  }

  /** A lookup key stands right before the newest entry that is visible to it. */
  lemma LookupKeyStands(less: Less, k: Key, s: nat, e: Entry)
    requires StrictTotalOrder(less) && e.Parses()
    ensures Before(less, e, Entry(k, s, TYPE_FOR_SEEK, [])) <==> less(e.key, k) || (e.key == k && e.seqno > s)
  {
  }
}
