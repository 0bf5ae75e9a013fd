/**
 * The user-level iterator.  It walks a sorted list of internal entries in both
 * directions and shows each user key that is visible at a sequence number
 * once, with its newest visible value, hiding deleted keys.
 */
module DbIter {
  import opened Bytes
  import opened DbFormat
  import opened Views
  import opened Wrappers

  datatype Direction = Forward | Reverse

  // ---------- The specification: a cursor over the map of visible keys ----------

  datatype Move = ToFirst | ToLast | ToKey(target: Key) | ToNext | ToPrev

  /** A move is legal when the iterator's documentation allows it. */
  predicate Legal(move: Move, cursor: Option<Key>) {
    move.ToNext? || move.ToPrev? ==> cursor.Some?
  }

  /** The keys a move may land on. */
  ghost predicate Candidate(less: Less, move: Move, cursor: Option<Key>, k: Key)
    requires Legal(move, cursor)
  {
    match move
    case ToFirst => true
    case ToLast => true
    case ToKey(target) => !less(k, target)
    case ToNext => less(cursor.value, k)
    case ToPrev => less(k, cursor.value)
  }

  predicate Backward(move: Move) { move.ToLast? || move.ToPrev? }

  /**
   * The cursor after `move`: the candidate key of the view that comes first in
   * the direction of the move, or no position when there is no candidate.
   */
  ghost predicate Moves(less: Less, view: map<Key, Value>, move: Move, cursor: Option<Key>, cursor': Option<Key>)
    requires Legal(move, cursor)
  {
    match cursor'
    case None => forall k :: k in view ==> !Candidate(less, move, cursor, k)
    case Some(k') =>
      && k' in view && Candidate(less, move, cursor, k')
      && forall k :: k in view && Candidate(less, move, cursor, k) ==>
           k == k' || (if Backward(move) then less(k, k') else less(k', k))
  }

  /** From every position each legal move has exactly one outcome. */
  lemma {:induction false} MovesIsAFunction(less: Less, view: map<Key, Value>, move: Move, cursor: Option<Key>)
    requires StrictTotalOrder(less) && Legal(move, cursor)
    ensures exists c :: Moves(less, view, move, cursor, c)
    ensures forall c, d :: Moves(less, view, move, cursor, c) && Moves(less, view, move, cursor, d) ==> c == d
  {
    var keys := set k | k in view && Candidate(less, move, cursor, k);
    if keys == {} {
      forall k | k in view ensures !Candidate(less, move, cursor, k) {
        assert k !in keys;
      }
      assert Moves(less, view, move, cursor, None);
    } else {
      var k := Extreme(less, keys, Backward(move));
      assert Moves(less, view, move, cursor, Some(k));
    }
  }

  lemma {:induction false} Extreme(less: Less, keys: set<Key>, last: bool) returns (k: Key)
    requires StrictTotalOrder(less) && keys != {}
    ensures k in keys
    ensures forall k' :: k' in keys ==> k' == k || (if last then less(k', k) else less(k, k'))
  {
    k :| k in keys;
    if keys == {k} {
    } else {
      var rest := Extreme(less, keys - {k}, last);
      if if last then less(k, rest) else less(rest, k) {
        k := rest;
      }
    }
  }

  /** On the keys of the view, stepping back undoes stepping forward and vice versa. */
  lemma StepsAreInverse(less: Less, view: map<Key, Value>, k: Key, k': Key)
    requires StrictTotalOrder(less) && k in view && k' in view
    ensures Moves(less, view, ToNext, Some(k), Some(k')) <==> Moves(less, view, ToPrev, Some(k'), Some(k))
  {
  }

  // ---------- Live positions: where the view's entries sit in a sorted list ----------

  /** The first visible entry of its key, and a value. */
  ghost predicate Live(es: seq<Entry>, s: nat, i: int) {
    && 0 <= i < |es| && Visible(es[i], s) && es[i].IsValue()
    && forall j :: 0 <= j < i && es[j].key == es[i].key ==> !Visible(es[j], s)
  }

  lemma LiveIsShown(less: Less, es: seq<Entry>, s: nat, i: int)
    requires StrictTotalOrder(less) && Sorted(less, es) && 0 <= i < |es|
    ensures Live(es, s, i) <==> Shown(Elems(es), s, es[i].key, es[i])
  {
    forall j | 0 <= j < |es| && es[j].key == es[i].key && j != i
      ensures es[j].Packed() < es[i].Packed() <==> i < j
    {
      if i < j { assert Before(less, es[i], es[j]); } else { assert Before(less, es[j], es[i]); }
    }
    if !Live(es, s, i) && Visible(es[i], s) && es[i].IsValue() {
      var j :| 0 <= j < i && es[j].key == es[i].key && Visible(es[j], s);
      assert es[j] in Elems(es);
    }
  }

  lemma LiveInView(less: Less, es: seq<Entry>, s: nat, i: int)
    requires StrictTotalOrder(less) && Sorted(less, es) && Live(es, s, i)
    ensures es[i].key in View(Elems(es), s) && View(Elems(es), s)[es[i].key] == es[i].value
  {
    LiveIsShown(less, es, s, i);
    SortedIsUnambiguous(less, es);
    ShownDecides(Elems(es), s, es[i].key, es[i]);
  }

  lemma ViewHasLive(less: Less, es: seq<Entry>, s: nat, k: Key) returns (i: int)
    requires StrictTotalOrder(less) && Sorted(less, es) && k in View(Elems(es), s)
    ensures Live(es, s, i) && es[i].key == k
  {
    var e := ShownEntry(Elems(es), s, k);
    i :| 0 <= i < |es| && es[i] == e;
    LiveIsShown(less, es, s, i);
  }

  lemma LiveOrder(less: Less, es: seq<Entry>, s: nat, i: int, j: int)
    requires StrictTotalOrder(less) && Sorted(less, es) && Live(es, s, i) && Live(es, s, j)
    ensures i < j <==> less(es[i].key, es[j].key)
  {
    if i < j { assert Before(less, es[i], es[j]); }
    if j < i { assert Before(less, es[j], es[i]); }
  }

  lemma KeysOrder(less: Less, es: seq<Entry>, i: int, j: int)
    requires StrictTotalOrder(less) && Sorted(less, es) && 0 <= i <= j < |es|
    ensures less(es[i].key, es[j].key) || es[i].key == es[j].key
    ensures !less(es[j].key, es[i].key)
  {
    if i < j { assert Before(less, es[i], es[j]); }
  }

  /**
   * A backward scan from `start` has come down to `q`: either the last visible
   * entry it met is a deletion, and nothing live was passed, or it is the value
   * at `cand`, and nothing after `cand` is live.
   */
  ghost predicate Scanned(es: seq<Entry>, s: nat, start: int, q: int, typ: Byte, cand: int) {
    && -1 <= q <= start < |es| && typ <= TYPE_VALUE
    && (typ == TYPE_DELETION ==> forall j :: q < j <= start ==> !Live(es, s, j))
    && (typ == TYPE_VALUE ==>
          && q < cand <= start && Visible(es[cand], s) && es[cand].IsValue()
          && (forall j :: q < j < cand ==> !Visible(es[j], s))
          && (forall j :: cand < j <= start ==> !Live(es, s, j)))
  }

  /** Meeting a visible entry that does not end the scan. */
  lemma ScanMeets(less: Less, es: seq<Entry>, s: nat, start: int, q: int, typ: Byte, cand: int)
    requires StrictTotalOrder(less) && Sorted(less, es)
    requires Scanned(es, s, start, q, typ, cand) && q >= 0 && Visible(es[q], s)
    requires typ == TYPE_VALUE ==> !less(es[q].key, es[cand].key)
    ensures Scanned(es, s, start, q - 1, es[q].typ, q)
  {
    if typ == TYPE_VALUE {
      KeysOrder(less, es, q, cand);
    }
  }

  /** An entry that is too new or unreadable does not matter to the scan. */
  lemma ScanMisses(es: seq<Entry>, s: nat, start: int, q: int, typ: Byte, cand: int)
    requires Scanned(es, s, start, q, typ, cand) && q >= 0 && !Visible(es[q], s)
    ensures Scanned(es, s, start, q - 1, typ, cand)
  {
  }

  /** Where the scan ends on a value, that value is live. */
  lemma ScanEnds(less: Less, es: seq<Entry>, s: nat, start: int, q: int, cand: int)
    requires StrictTotalOrder(less) && Sorted(less, es) && Scanned(es, s, start, q, TYPE_VALUE, cand)
    requires q >= 0 ==> less(es[q].key, es[cand].key)
    ensures Live(es, s, cand)
    ensures forall j :: j <= start && Live(es, s, j) ==> j <= cand
  {
    forall j | 0 <= j < cand && es[j].key == es[cand].key
      ensures !Visible(es[j], s)
    {
      if j <= q {
        KeysOrder(less, es, j, q);
      }
    }
  }

  /** While skipping, keys up to `skip` are passed over. */
  ghost predicate Hides(less: Less, skipping: bool, skip: Key, k: Key) {
    skipping && !less(skip, k)
  }

  /**
   * A forward scan that was to skip keys as `was` and `skip0` say has come from
   * `start` to `p`, and now skips as `now` and `saved` say.
   */
  ghost predicate ScannedOn(less: Less, es: seq<Entry>, s: nat, start: int, p: int, was: bool, skip0: Key,
                            now: bool, saved: Key) {
    && 0 <= start <= p <= |es| && (was ==> now)
    && (forall j :: start <= j < p && Live(es, s, j) ==> Hides(less, was, skip0, es[j].key))
    && (p < |es| ==> forall j :: 0 <= j < p && Visible(es[j], s) ==>
          less(es[j].key, es[p].key) || Hides(less, now, saved, es[j].key))
    && (forall j :: p <= j < |es| && Visible(es[j], s) && now ==> !less(es[j].key, saved))
    && (forall j :: p <= j < |es| && Live(es, s, j) && Hides(less, now, saved, es[j].key) ==>
          Hides(less, was, skip0, es[j].key))
    && (forall j :: p <= j < |es| && Visible(es[j], s) && Hides(less, was, skip0, es[j].key) ==>
          Hides(less, now, saved, es[j].key))
  }

  /** An entry that is too new, unreadable, or to be skipped is passed over. */
  lemma ScanPasses(less: Less, es: seq<Entry>, s: nat, start: int, p: int, was: bool, skip0: Key, now: bool, saved: Key)
    requires StrictTotalOrder(less) && Sorted(less, es)
    requires ScannedOn(less, es, s, start, p, was, skip0, now, saved) && p < |es|
    requires Visible(es[p], s) ==> Hides(less, now, saved, es[p].key)
    ensures ScannedOn(less, es, s, start, p + 1, was, skip0, now, saved)
  {
    if p + 1 < |es| {
      KeysOrder(less, es, p, p + 1);
    }
  }

  /** A visible deletion makes the scan skip the rest of its key. */
  lemma ScanDeletes(less: Less, es: seq<Entry>, s: nat, start: int, p: int, was: bool, skip0: Key, now: bool,
                    saved: Key)
    requires StrictTotalOrder(less) && Sorted(less, es)
    requires ScannedOn(less, es, s, start, p, was, skip0, now, saved) && p < |es|
    requires Visible(es[p], s) && es[p].typ == TYPE_DELETION
    ensures ScannedOn(less, es, s, start, p + 1, was, skip0, true, es[p].key)
  {
    forall j | p < j < |es| ensures !less(es[j].key, es[p].key) {
      KeysOrder(less, es, p, j);
    }
    if p + 1 < |es| {
      KeysOrder(less, es, p, p + 1);
      forall j | 0 <= j < p && Visible(es[j], s)
        ensures less(es[j].key, es[p + 1].key) || Hides(less, true, es[p].key, es[j].key)
      {
        KeysOrder(less, es, j, p);
      }
    }
  }

  /** Any entry but the one looked for: a deletion changes what is skipped from here on. */
  lemma ScanGoesOn(less: Less, es: seq<Entry>, s: nat, start: int, p: int, was: bool, skip0: Key, now: bool, saved: Key,
                   now': bool, saved': Key)
    requires StrictTotalOrder(less) && Sorted(less, es)
    requires ScannedOn(less, es, s, start, p, was, skip0, now, saved) && p < |es|
    requires if Visible(es[p], s) && es[p].typ == TYPE_DELETION then now' && saved' == es[p].key
             else now' == now && saved' == saved && (Visible(es[p], s) ==> Hides(less, now, saved, es[p].key))
    ensures ScannedOn(less, es, s, start, p + 1, was, skip0, now', saved')
  {
    if Visible(es[p], s) && es[p].typ == TYPE_DELETION {
      ScanDeletes(less, es, s, start, p, was, skip0, now, saved);
    } else {
      ScanPasses(less, es, s, start, p, was, skip0, now, saved);
    }
  }

  /** A visible value that is not to be skipped is what the scan looks for. */
  lemma ScanFinds(less: Less, es: seq<Entry>, s: nat, start: int, p: int, was: bool, skip0: Key, now: bool, saved: Key)
    requires ScannedOn(less, es, s, start, p, was, skip0, now, saved) && p < |es| && StrictTotalOrder(less)
    requires Visible(es[p], s) && es[p].typ != TYPE_DELETION && !Hides(less, now, saved, es[p].key)
    ensures Live(es, s, p) && !Hides(less, was, skip0, es[p].key)
    ensures forall j :: start <= j && Live(es, s, j) && !Hides(less, was, skip0, es[j].key) ==> p <= j
  {
  }

  /**
   * A live position (or its absence, as -1) that is extreme among the live
   * positions whose keys are candidates is the outcome of the move.
   */
  lemma LiveOutcome(less: Less, es: seq<Entry>, s: nat, move: Move, cursor: Option<Key>, i: int)
    requires StrictTotalOrder(less) && Sorted(less, es) && Legal(move, cursor)
    requires i != -1 ==> Live(es, s, i) && Candidate(less, move, cursor, es[i].key)
    requires forall j :: Live(es, s, j) && Candidate(less, move, cursor, es[j].key) ==>
               i != -1 && (if Backward(move) then j <= i else i <= j)
    ensures Moves(less, View(Elems(es), s), move, cursor, if i == -1 then None else Some(es[i].key))
  {
    if i != -1 {
      LiveInView(less, es, s, i);
    }
    forall k | k in View(Elems(es), s) && Candidate(less, move, cursor, k)
      ensures i != -1
      ensures k == es[i].key || (if Backward(move) then less(k, es[i].key) else less(es[i].key, k))
    {
      var j := ViewHasLive(less, es, s, k);
      LiveOrder(less, es, s, i, j);
      LiveOrder(less, es, s, j, i);
    }
  }

  /** All keys from position `lo` up to `hi` parse. */
  ghost predicate ParseBetween(es: seq<Entry>, lo: int, hi: int) {
    forall i :: 0 <= i < |es| && lo <= i < hi ==> es[i].Parses()
  }

  // ---------- The iterator ----------

  class DBIter {
    const less: Less
    const entries: seq<Entry>   // what the inner iterator walks over
    const sequence: nat
    var pos: nat                // the inner iterator; |entries| when it is not valid
    var direction: Direction
    var valid: bool
    var savedKey: Key           // == current key when direction is Reverse
    var savedValue: Value       // == current value when direction is Reverse
    var corrupt: bool           // the status, Corruption once a key failed to parse
    ghost var cur: int          // the live position that is shown, when valid

    ghost predicate Valid()
      reads this
    {
      && StrictTotalOrder(less) && Sorted(less, entries) && pos <= |entries|
      && StatusExplained()
      && (valid ==> Live(entries, sequence, cur))
      && (valid && direction == Forward ==> pos == cur)
      && (valid && direction == Reverse ==>
            && savedKey == entries[cur].key && savedValue == entries[cur].value
            && BeforeRun(if pos == |entries| then -1 else pos))
    }

    /** A corruption is reported only for a key that does not parse. */
    ghost predicate StatusExplained()
      reads `corrupt
    {
      corrupt ==> exists i :: 0 <= i < |entries| && !entries[i].Parses()
    }

    /** `p` is just before all visible entries of the current key. */
    ghost predicate BeforeRun(p: int)
      reads this
      requires p < |entries| && Live(entries, sequence, cur)
    {
      && -1 <= p < cur
      && (p >= 0 ==> less(entries[p].key, entries[cur].key))
      && forall j :: p < j < cur ==> !Visible(entries[j], sequence)
    }

    constructor (less: Less, entries: seq<Entry>, sequence: nat)
      requires StrictTotalOrder(less) && Sorted(less, entries)
      ensures Valid() && !valid
      ensures this.less == less && this.entries == entries && this.sequence == sequence
    {
      this.less, this.entries, this.sequence := less, entries, sequence;
      pos := |entries|;
      direction, valid, corrupt := Forward, false, false;
      savedKey, savedValue := [], [];
    }

    /** How far to the front a backward scan has looked. */
    ghost function Front(): nat
      reads this
    {
      if pos == |entries| then 0 else pos
    }

    /** What the caller sees: the map being walked and the key shown. */
    ghost function Content(): map<Key, Value>
    {
      View(Elems(entries), sequence)
    }

    ghost function Cursor(): Option<Key>
      reads this
      requires Valid()
    {
      if valid then Some(entries[cur].key) else None
    }

    method CurrentKey() returns (k: Key)
      requires Valid() && valid
      ensures Cursor() == Some(k)
    {
      k := if direction == Forward then entries[pos].key else savedKey;
    }

    method CurrentValue() returns (v: Value)
      requires Valid() && valid
      ensures Cursor().value in Content() && v == Content()[Cursor().value]
    {
      LiveInView(less, entries, sequence, cur);
      v := if direction == Forward then entries[pos].value else savedValue;
    }

    // ----- the inner iterator -----

    method IterNext()
      requires pos < |entries|
      modifies `pos
      ensures pos == old(pos) + 1
    {
      pos := pos + 1;
    }

    method IterPrev()
      requires pos < |entries|
      modifies `pos
      ensures pos == if old(pos) == 0 then |entries| else old(pos) - 1
    {
      pos := if pos == 0 then |entries| else pos - 1;
    }

    method IterSeek(target: Entry)
      modifies `pos
      ensures pos <= |entries|
      ensures forall j :: 0 <= j < pos ==> Before(less, entries[j], target)
      ensures pos < |entries| ==> !Before(less, entries[pos], target)
    {
      pos := 0;
      while pos < |entries| && Before(less, entries[pos], target)
        invariant pos <= |entries|
        invariant forall j :: 0 <= j < pos ==> Before(less, entries[j], target)
      {
        pos := pos + 1;
      }
    }

    /** Parses the key under the inner iterator, noting a corruption. */
    method ParseKey() returns (ok: bool)
      requires pos < |entries|
      modifies `corrupt
      ensures ok == entries[pos].Parses()
      ensures corrupt == (old(corrupt) || !ok)
    {
      ok := entries[pos].Parses();
      if !ok {
        corrupt := true;
      }
    }

    // ----- scanning -----

    /** Whether a live position is one that the caller asked to skip. */
    ghost predicate Hidden(skipping: bool, skip: Key, i: int)
      requires 0 <= i < |entries|
    {
      Hides(less, skipping, skip, entries[i].key)
    }

    /** Looks at the entry under the inner iterator: it ends the scan, or says what to skip from here on. */
    method ScanEntry(skip: bool, ghost start: int, ghost was: bool, ghost skip0: Key) returns (found: bool, skip': bool)
      requires StrictTotalOrder(less) && Sorted(less, entries) && pos < |entries|
      requires ScannedOn(less, entries, sequence, start, pos, was, skip0, skip, savedKey)
      modifies `savedKey, `corrupt
      ensures corrupt == (old(corrupt) || !entries[pos].Parses())
      ensures found ==> Live(entries, sequence, pos) && !Hides(less, was, skip0, entries[pos].key)
      ensures found ==>
                forall j :: start <= j && Live(entries, sequence, j) && !Hides(less, was, skip0, entries[j].key) ==>
                          pos <= j
      ensures !found ==> ScannedOn(less, entries, sequence, start, pos + 1, was, skip0, skip', savedKey)
    {
      found, skip' := false, skip;
      ghost var saved := savedKey;
      var e := entries[pos];
      var ok := ParseKey();
      if ok && e.seqno <= sequence {
        if e.typ == TYPE_DELETION {
          // From here on the key counts as absent.
          savedKey := e.key;
          skip' := true;
        } else if skip && !less(savedKey, e.key) {
          // An older version of the key to skip, or of a deleted one
        } else {
          found := true;
        }
      }
      if found {
        ScanFinds(less, entries, sequence, start, pos, was, skip0, skip, saved);
      } else {
        ScanGoesOn(less, entries, sequence, start, pos, was, skip0, skip, saved, skip', savedKey);
      }
    }

    /** The first live position at or after `pos` that is not to be skipped. */
    method FindNextUserEntry(skipping: bool)
      requires StrictTotalOrder(less) && Sorted(less, entries)
      requires pos < |entries| && direction == Forward
      requires StatusExplained()
      requires forall j :: 0 <= j < pos && Visible(entries[j], sequence) ==>
                 less(entries[j].key, entries[pos].key) || Hidden(skipping, savedKey, j)
      requires forall j :: pos <= j < |entries| && Visible(entries[j], sequence) ==>
                 skipping ==> !less(entries[j].key, savedKey)
      modifies this
      ensures Valid() && direction == Forward
      ensures valid ==> old(pos) <= cur && !Hidden(skipping, old(savedKey), cur)
      ensures forall j :: old(pos) <= j && Live(entries, sequence, j) && !Hidden(skipping, old(savedKey), j) ==>
                valid && cur <= j
      ensures corrupt || ParseBetween(entries, old(pos), if valid then cur + 1 else |entries|)
    {
      var found := ScanForward(skipping);
      if found {
        cur := pos;
      }
      valid := found;
      savedKey := [];
    }

    /** Walks forward to the first visible value that is not to be skipped, or to the end. */
    method ScanForward(skipping: bool) returns (found: bool)
      requires StrictTotalOrder(less) && Sorted(less, entries) && pos <= |entries| && StatusExplained()
      requires ScannedOn(less, entries, sequence, pos, pos, skipping, savedKey, skipping, savedKey)
      modifies `pos, `savedKey, `corrupt
      ensures StatusExplained() && old(pos) <= pos <= |entries| && (found ==> pos < |entries|)
      ensures found ==> Live(entries, sequence, pos) && !Hidden(skipping, old(savedKey), pos)
      ensures forall j :: old(pos) <= j && Live(entries, sequence, j) && !Hidden(skipping, old(savedKey), j) ==>
                found && pos <= j
      ensures corrupt || ParseBetween(entries, old(pos), if found then pos + 1 else |entries|)
    {
      ghost var start, skip0 := pos, savedKey;
      var skip := skipping;
      found := false;
      while pos < |entries|
        invariant start <= pos <= |entries| && StatusExplained() && (corrupt || ParseBetween(entries, start, pos))
        invariant ScannedOn(less, entries, sequence, start, pos, skipping, skip0, skip, savedKey)
        decreases |entries| - pos
      {
        found, skip := ScanEntry(skip, start, skipping, skip0);
        if found {
          return;
        }
        IterNext();
      }
    }

    /** The last live position at or before `pos`, scanning backwards. */
    method FindPrevUserEntry()
      requires StrictTotalOrder(less) && Sorted(less, entries)
      requires pos <= |entries| && direction == Reverse
      requires StatusExplained()
      modifies this
      ensures Valid()
      ensures valid ==> direction == Reverse && old(pos) < |entries| && cur <= old(pos)
      ensures forall j :: j <= old(pos) < |entries| && Live(entries, sequence, j) ==> valid && j <= cur
      ensures corrupt || old(pos) == |entries| || ParseBetween(entries, Front(), old(pos) + 1)
    {
      ghost var start := if pos == |entries| then -1 else pos;
      ghost var q, cand;
      var valueType;
      valueType, q, cand := ScanBackward(start);
      if valueType == TYPE_DELETION {
        // Nothing live lies before
        valid := false;
        savedKey, savedValue := [], [];
        direction := Forward;
      } else {
        ScanEnds(less, entries, sequence, start, q, cand);
        cur := cand;
        valid := true;
      }
    }

    /** Looks at the entry under the inner iterator: it ends the scan, or may be the one to save. */
    method ScanEntryBack(valueType: Byte, ghost start: int, ghost cand: int)
      returns (done: bool, valueType': Byte, ghost cand': int)
      requires StrictTotalOrder(less) && Sorted(less, entries) && pos < |entries|
      requires Scanned(entries, sequence, start, pos, valueType, cand)
      requires valueType == TYPE_VALUE ==> savedKey == entries[cand].key && savedValue == entries[cand].value
      modifies `savedKey, `savedValue, `corrupt
      ensures corrupt == (old(corrupt) || !entries[pos].Parses())
      ensures done ==> valueType' == valueType == TYPE_VALUE && cand' == cand && less(entries[pos].key, savedKey)
      ensures Scanned(entries, sequence, start, if done then pos else pos - 1, valueType', cand')
      ensures valueType' == TYPE_VALUE ==> savedKey == entries[cand'].key && savedValue == entries[cand'].value
    {
      done, valueType', cand' := false, valueType, cand;
      var e := entries[pos];
      var ok := ParseKey();
      if ok && e.seqno <= sequence {
        if valueType != TYPE_DELETION {
          if less(e.key, savedKey) {
            // The value saved belongs to a later key than this entry, so it stands.
            return true, valueType, cand;
          }
        }
        ScanMeets(less, entries, sequence, start, pos, valueType, cand);
        valueType', cand' := e.typ, pos;
        if valueType' == TYPE_DELETION {
          savedKey, savedValue := [], [];
        } else {
          savedKey, savedValue := e.key, e.value;
        }
      } else {
        ScanMisses(entries, sequence, start, pos, valueType, cand);
      }
    }

    /** Walks backward over the run of the last key that is not deleted, saving its newest visible value. */
    method ScanBackward(ghost start: int) returns (valueType: Byte, ghost q: int, ghost cand: int)
      requires StrictTotalOrder(less) && Sorted(less, entries) && pos <= |entries| && StatusExplained()
      requires start == if pos == |entries| then -1 else pos
      modifies `pos, `savedKey, `savedValue, `corrupt
      ensures StatusExplained() && pos <= |entries| && q == if pos == |entries| then -1 else pos
      ensures Scanned(entries, sequence, start, q, valueType, cand)
      ensures valueType != TYPE_DELETION ==>
                && savedKey == entries[cand].key && savedValue == entries[cand].value
                && (q >= 0 ==> less(entries[q].key, savedKey))
      ensures valueType == TYPE_DELETION ==> q == -1
      ensures corrupt || ParseBetween(entries, if q == -1 then 0 else q, start + 1)
    {
      valueType, q, cand := TYPE_DELETION, start, -1;
      while pos < |entries|
        invariant pos <= |entries| && q == if pos == |entries| then -1 else pos
        invariant StatusExplained() && (corrupt || ParseBetween(entries, q + 1, start + 1))
        invariant Scanned(entries, sequence, start, q, valueType, cand)
        invariant valueType == TYPE_VALUE ==> savedKey == entries[cand].key && savedValue == entries[cand].value
        decreases q
      {
        var done;
        done, valueType, cand := ScanEntryBack(valueType, start, cand);
        if done {
          return;
        }
        IterPrev();
        q := q - 1;
      }
    }

    // ----- the public moves -----

    method Next()
      requires Valid() && valid
      modifies this
      ensures Valid()
      ensures Moves(less, Content(), ToNext, old(Cursor()), Cursor())
      ensures corrupt || old(direction).Reverse?
              || ParseBetween(entries, old(cur), if valid then cur + 1 else |entries|)
    {
      ghost var c0 := cur;
      ghost var k0 := entries[cur].key;
      if direction == Reverse {
        direction := Forward;
        // Reverse order leaves the inner iterator in front of the current key.
        if pos == |entries| {
          pos := 0;
        } else {
          IterNext();
        }
        assert pos <= c0;
        if pos == |entries| {
          // One step forward enters the run of the current key.
          assert false;
        }
        // The current key was saved when it was found.
      } else {
        savedKey := entries[pos].key;
      }
      forall j, i | 0 <= j < |entries| && 0 <= i < |entries| && j <= i
        ensures !less(entries[i].key, entries[j].key)
      {
        KeysOrder(less, entries, j, i);
      }
      FindNextUserEntry(true);
      forall j | Live(entries, sequence, j) && less(k0, entries[j].key)
        ensures valid && cur <= j
      {
        LiveOrder(less, entries, sequence, c0, j);
      }
      LiveOutcome(less, entries, sequence, ToNext, Some(k0), if valid then cur else -1);
    }

    method Prev()
      requires Valid() && valid
      modifies this
      ensures Valid()
      ensures Moves(less, Content(), ToPrev, old(Cursor()), Cursor())
    {
      ghost var c0 := cur;
      ghost var k0 := entries[cur].key;
      forall j | Live(entries, sequence, j) && less(entries[j].key, k0)
        ensures j < c0
      {
        LiveOrder(less, entries, sequence, j, c0);
      }
      if direction == Forward {
        // Leave the run of the current key at its front.
        savedKey := entries[pos].key;
        IterPrev();
        while pos < |entries| && !less(entries[pos].key, savedKey)
          modifies `pos
          invariant pos <= |entries|
          invariant pos < |entries| ==> pos < c0
          invariant forall j :: (if pos == |entries| then -1 else pos) < j <= c0 ==> entries[j].key == k0
          decreases if pos == |entries| then -1 else pos
        {
          KeysOrder(less, entries, pos, c0);
          IterPrev();
        }
        if pos == |entries| {
          valid := false;
          savedKey, savedValue := [], [];
          LiveOutcome(less, entries, sequence, ToPrev, Some(k0), -1);
          return;
        }
        direction := Reverse;
      }
      ghost var p := if pos == |entries| then -1 else pos;
      FindPrevUserEntry();
      forall j | Live(entries, sequence, j) && less(entries[j].key, k0)
        ensures valid && j <= cur
      {
        assert j <= p;
      }
      if valid {
        KeysOrder(less, entries, cur, p);
      }
      LiveOutcome(less, entries, sequence, ToPrev, Some(k0), if valid then cur else -1);
    }

    method Seek(target: Key)
      requires Valid()
      modifies this
      ensures Valid()
      ensures Moves(less, Content(), ToKey(target), None, Cursor())
    {
      direction := Forward;
      savedKey, savedValue := [], [];
      IterSeek(Entry(target, sequence, TYPE_FOR_SEEK, []));
      ghost var p := pos;
      forall j | 0 <= j < p && Visible(entries[j], sequence)
        ensures less(entries[j].key, target)
      {
      }
      if pos < |entries| {
        assert !less(entries[pos].key, target);
        FindNextUserEntry(false);
      } else {
        valid := false;
      }
      forall j | Live(entries, sequence, j) && !less(entries[j].key, target)
        ensures valid && cur <= j
      {
        assert p <= j;
      }
      if valid {
        KeysOrder(less, entries, p, cur);
      }
      LiveOutcome(less, entries, sequence, ToKey(target), None, if valid then cur else -1);
    }

    method SeekToFirst()
      requires Valid()
      modifies this
      ensures Valid()
      ensures Moves(less, Content(), ToFirst, None, Cursor())
      ensures corrupt || ParseBetween(entries, 0, if valid then cur + 1 else |entries|)
    {
      direction := Forward;
      savedValue := [];
      pos := 0;
      if pos < |entries| {
        FindNextUserEntry(false);
      } else {
        valid := false;
      }
      LiveOutcome(less, entries, sequence, ToFirst, None, if valid then cur else -1);
    }

    method SeekToLast()
      requires Valid()
      modifies this
      ensures Valid()
      ensures Moves(less, Content(), ToLast, None, Cursor())
      ensures corrupt || ParseBetween(entries, Front(), |entries|)
    {
      direction := Reverse;
      savedValue := [];
      pos := if |entries| == 0 then 0 else |entries| - 1;
      FindPrevUserEntry();
      LiveOutcome(less, entries, sequence, ToLast, None, if valid then cur else -1);
    }
  }
}
