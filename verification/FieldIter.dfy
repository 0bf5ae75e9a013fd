/** The cyclic iterator over the fields of a message, with its pointers into the struct. */
module FieldIter {
  import opened Wrappers
  import opened Descriptor

  /** How many of the first `p` fields are required. */
  function RequiredBefore(fields: seq<Field>, p: nat): (n: nat)
    requires p <= |fields|
    ensures n <= p
  {
    if p == 0 then 0 else RequiredBefore(fields, p - 1) + if fields[p - 1].htype.Required? then 1 else 0
  }

  /** The room a field takes in the struct. */
  function StoredSize(f: Field): nat {
    if f.atype.Static? && f.htype.Repeated? then f.dataSize * f.arraySize
    else if f.atype.Pointer? then POINTER_SIZE
    else f.dataSize
  }

  /** Where the data of field `p` is, in a struct at `base`. */
  function DataAt(fields: seq<Field>, base: int, p: nat): int
    requires p < |fields|
  {
    if p == 0 then base + fields[0].dataOffset
    else if SharesStorage(fields, p) then DataAt(fields, base, p - 1)
    else DataAt(fields, base, p - 1) + StoredSize(fields[p - 1]) + fields[p].dataOffset
  }

  /** Where its has flag, count or chosen tag is. */
  function SizeAt(fields: seq<Field>, base: int, p: nat): int
    requires p < |fields|
  {
    if SharesStorage(fields, p) then SizeAt(fields, base, p - 1)
    else DataAt(fields, base, p) + fields[p].sizeOffset
  }

  predicate Matches(f: Field, tag: nat) {
    f.tag == tag && !f.ltype.Extension?
  }

  /** The position `k` steps after `from`, going round. */
  function Around(fields: seq<Field>, from: nat, k: nat): (p: nat)
    requires from < |fields| && k <= |fields|
    ensures p < |fields|
  {
    if from + k < |fields| then from + k else from + k - |fields|
  }

  /** `p` is the first position from `from` on, going round, whose field matches. */
  ghost predicate FirstMatch(fields: seq<Field>, from: nat, tag: nat, p: nat) {
    && from < |fields| && p < |fields| && Matches(fields[p], tag)
    && exists k {:trigger Around(fields, from, k)} :: 0 <= k < |fields| && p == Around(fields, from, k)
         && forall j {:trigger Around(fields, from, j)} :: 0 <= j < k ==> !Matches(fields[Around(fields, from, j)], tag)
  }

  /** A repeated field without a count in the struct. */
  predicate FixedCount(f: Field) {
    f.htype.Repeated? && f.sizeOffset == 0
  }

  class FieldIterator {
    const fields: seq<Field>
    const base: int
    var pos: nat
    var requiredIndex: nat
    var pData: int
    var pSize: Option<int>    // nothing when it points to a counter outside the struct

    /** The index and the pointers are those of the position, however it was reached. */
    ghost predicate Valid()
      reads this
    {
      && (fields == [] ==> pos == 0 && requiredIndex == 0)
      && (fields != [] ==>
            && pos < |fields|
            && requiredIndex == RequiredBefore(fields, pos)
            && pData == DataAt(fields, base, pos)
            && (pSize == Some(SizeAt(fields, base, pos)) || (pSize == None && FixedCount(fields[pos]))))
    }

    constructor (fields: seq<Field>, base: int)
      ensures this.fields == fields && this.base == base
    {
      this.fields, this.base := fields, base;
      pos, requiredIndex, pData, pSize := 0, 0, base, None;
    }

    method Begin() returns (nonEmpty: bool)
      modifies this
      ensures Valid() && pos == 0 && (fields != [] ==> pSize.Some?)
      ensures nonEmpty == (fields != [])
    {
      pos, requiredIndex := 0, 0;
      if fields == [] {
        pData, pSize := base, Some(base);
        return false;
      }
      pData := base + fields[0].dataOffset;
      pSize := Some(pData + fields[0].sizeOffset);
      return true;
    }

    /** On to the next field; false when that is the first one again. */
    method Next() returns (more: bool)
      requires Valid()
      modifies this
      ensures Valid() && (fields != [] ==> pos == Around(fields, old(pos), 1) && pSize.Some?)
      ensures more == (fields != [] && pos != 0)
    {
      if fields == [] {
        return false;
      }
      var prev := fields[pos];
      pos := pos + 1;
      if pos == |fields| {
        var _ := Begin();
        return false;
      }
      assert Around(fields, pos - 1, 1) == pos;
      var prevSize := prev.dataSize;
      if prev.htype.OneOf? && fields[pos].htype.OneOf? && fields[pos].dataOffset == SIZE_MAX {
        return true;
      } else if prev.atype.Static? && prev.htype.Repeated? {
        prevSize := prevSize * prev.arraySize;
      } else if prev.atype.Pointer? {
        prevSize := POINTER_SIZE;
      }
      if prev.htype.Required? {
        requiredIndex := requiredIndex + 1;
      }
      pData := pData + prevSize + fields[pos].dataOffset;
      pSize := Some(pData + fields[pos].sizeOffset);
      return true;
    }

    /** The next field with a tag, or back to where the search began. */
    method Find(tag: nat) returns (found: bool)
      requires Valid()
      modifies this
      ensures Valid()
      ensures fields == [] ==> found == (tag == 0)
      ensures fields != [] ==>
                && found == (exists p :: 0 <= p < |fields| && Matches(fields[p], tag))
                && (if found then FirstMatch(fields, old(pos), tag, pos) else pos == old(pos))
      ensures fields != [] && pSize == None ==> pos == old(pos) && old(pSize) == None
    {
      if fields == [] {
        // The terminator has tag 0 and is not an extension
        return tag == 0;
      }
      ghost var k := 0;
      var start := pos;
      while true
        invariant Valid() && 0 <= k < |fields| && pos == Around(fields, start, k)
        invariant forall j {:trigger Around(fields, start, j)} :: 0 <= j < k ==>
                    !Matches(fields[Around(fields, start, j)], tag)
        invariant if k == 0 then pSize == old(pSize) else pSize.Some?
        decreases |fields| - k
      {
        if fields[pos].tag == tag && !fields[pos].ltype.Extension? {
          return true;
        }
        var _ := Next();
        k := k + 1;
        StepAround(fields, start, k);
        if pos == start {
          break;
        }
      }
      AllAround(fields, start, tag);
      return false;
    }
  }

  lemma StepAround(fields: seq<Field>, from: nat, k: nat)
    requires from < |fields| && 0 < k <= |fields|
    ensures Around(fields, from, k) == Around(fields, Around(fields, from, k - 1), 1)
    ensures Around(fields, from, k) == from <==> k == |fields|
  {
  }

  /** Going round once meets every field. */
  lemma AllAround(fields: seq<Field>, from: nat, tag: nat)
    requires from < |fields|
    requires forall j {:trigger Around(fields, from, j)} :: 0 <= j < |fields| ==>
               !Matches(fields[Around(fields, from, j)], tag)
    ensures forall p :: 0 <= p < |fields| ==> !Matches(fields[p], tag)
  {
    forall p | 0 <= p < |fields| ensures !Matches(fields[p], tag) {
      var j := if p >= from then p - from else p - from + |fields|;
      assert Around(fields, from, j) == p;
    }
  }

  // ---------- Storage ----------

  /** Each field lies behind what is stored before it: the field there, or every member of the union there. */
  predicate LiesBehind(fields: seq<Field>) {
    forall q {:trigger SharesStorage(fields, q)} :: 0 < q < |fields| && !SharesStorage(fields, q) ==>
      forall p :: 0 <= p < q && Home(fields, p) == Home(fields, q - 1) ==>
        StoredSize(fields[p]) <= StoredSize(fields[q - 1]) + fields[q].dataOffset
  }

  /** The members of a union share their data and their tag. */
  lemma {:induction false} SamePlace(fields: seq<Field>, base: int, p: nat, q: nat)
    requires p <= q < |fields| && Home(fields, p) == Home(fields, q)
    ensures DataAt(fields, base, p) == DataAt(fields, base, q) && SizeAt(fields, base, p) == SizeAt(fields, base, q)
    decreases q
  {
    if p == q {
    } else {
      SamePlace(fields, base, p, q - 1);
    }
  }

  lemma {:induction false} EndsBefore(fields: seq<Field>, base: int, p: nat, q: nat)
    requires LiesBehind(fields) && p < q < |fields| && Home(fields, p) != Home(fields, q)
    ensures DataAt(fields, base, p) + StoredSize(fields[p]) <= DataAt(fields, base, q)
    decreases q
  {
    if SharesStorage(fields, q) {
      EndsBefore(fields, base, p, q - 1);
    } else if Home(fields, p) == Home(fields, q - 1) {
      SamePlace(fields, base, p, q - 1);
    } else {
      EndsBefore(fields, base, p, q - 1);
      assert StoredSize(fields[q - 1]) <= StoredSize(fields[q - 1]) + fields[q].dataOffset;
    }
  }

  /** The data of two fields overlap exactly when they are members of one union. */
  lemma StorageIsApart(fields: seq<Field>, base: int, p: nat, q: nat)
    requires LiesBehind(fields) && p < q < |fields| && StoredSize(fields[p]) > 0 && StoredSize(fields[q]) > 0
    ensures DataAt(fields, base, p) < DataAt(fields, base, q) + StoredSize(fields[q])
            && DataAt(fields, base, q) < DataAt(fields, base, p) + StoredSize(fields[p])
            <==> Home(fields, p) == Home(fields, q)
  {
    if Home(fields, p) == Home(fields, q) {
      SamePlace(fields, base, p, q);
    } else {
      EndsBefore(fields, base, p, q);
    }
  }
}
