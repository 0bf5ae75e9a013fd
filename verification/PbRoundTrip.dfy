/** Decoding what was encoded gives the same message back, up to the contents of unset fields. */
module PbRoundTrip {
  import opened Bytes
  import opened Wrappers
  import opened Streams
  import opened Varint
  import opened Descriptor
  import opened FieldIter
  import opened PbEncode
  import opened PbDecode

  // ---------- Messages that can be carried ----------

  const MAX_TAG: nat := 0x1FFF_FFFF

  /** Tags fit their 29 bits, unions have a chosen tag, and fields without has flags have no default but zero. */
  ghost predicate Portable(fields: seq<Field>)
    decreases fields
  {
    && WellFormed(fields)
    && forall p :: 0 <= p < |fields| ==>
         && fields[p].tag <= MAX_TAG
         && (fields[p].htype.OneOf? ==> fields[p].sizeOffset != 0)
         && (fields[p].htype.Optional? && fields[p].sizeOffset == 0 ==>
               fields[p].default.None? || fields[p].default.value == ZeroValue(fields[p]))
         && Portable(fields[p].sub)
  }

  /** A signed number that a place of 1, 2, 4 or 8 bytes can hold. */
  predicate SignedFits(n: int, size: nat) {
    || (size == 1 && -0x80 <= n < 0x80)
    || (size == 2 && -0x8000 <= n < 0x8000)
    || (size == 4 && -0x8000_0000 <= n < 0x8000_0000)
    || (size == 8 && -0x8000_0000_0000_0000 <= n < 0x8000_0000_0000_0000)
  }

  predicate UnsignedFits(n: int, size: nat) {
    || (size == 1 && 0 <= n < 0x100)
    || (size == 2 && 0 <= n < 0x1_0000)
    || (size == 4 && 0 <= n < 0x1_0000_0000)
    || (size == 8 && 0 <= n < 0x1_0000_0000_0000_0000)
  }

  /** A value of the field's type, within its capacity. */
  ghost predicate ValueOk(f: Field, v: Val)
    decreases f, 0
  {
    match f.ltype
    case Bool => v == VNum(0) || v == VNum(1)
    case Varint => v.VNum? && SignedFits(v.n, f.dataSize)
    case SVarint => v.VNum? && SignedFits(v.n, f.dataSize)
    case UVarint => v.VNum? && UnsignedFits(v.n, f.dataSize)
    case Fixed32 => v.VNum? && 0 <= v.n < 0x1_0000_0000
    case Fixed64 => v.VNum? && 0 <= v.n < 0x1_0000_0000_0000_0000
    case ByteArray => v.VBytes? && |v.bytes| + 4 <= f.dataSize
    case String => v.VBytes? && Strlen(v.bytes, f.dataSize) < f.dataSize
    case FixedLengthBytes => v.VBytes? && |v.bytes| == f.dataSize
    case Submessage => v.VMsg? && MessageOk(f.sub, v.slots)
    case Extension => false
  }

  function CountOf(f: Field, slot: Slot): nat {
    if f.sizeOffset != 0 then slot.size else f.arraySize
  }

  ghost predicate FieldOk(f: Field, slot: Slot)
    decreases f, 1
  {
    match f.htype
    case Required => ValueOk(f, ItemAt(slot.items, 0))
    case Optional => (f.sizeOffset != 0 && slot.size == 0) || ValueOk(f, ItemAt(slot.items, 0))
    case Repeated =>
      CountOf(f, slot) <= f.arraySize && forall i :: 0 <= i < CountOf(f, slot) ==> ValueOk(f, ItemAt(slot.items, i))
    case OneOf => slot.size == f.tag ==> ValueOk(f, ItemAt(slot.items, 0))
  }

  ghost predicate MessageOk(fields: seq<Field>, slots: Message)
    decreases fields
  {
    forall p :: 0 <= p < |fields| ==> FieldOk(fields[p], SlotAt(slots, Home(fields, p)))
  }

  // ---------- The same message ----------

  ghost predicate SameValue(f: Field, a: Val, b: Val)
    decreases f, 0
  {
    match f.ltype
    case String =>
      a.VBytes? && b.VBytes? &&
      a.bytes[..Strlen(a.bytes, f.dataSize)] == b.bytes[..Strlen(b.bytes, f.dataSize)]
    case Submessage => a.VMsg? && b.VMsg? && SameMessage(f.sub, a.slots, b.slots)
    case _ => a == b
  }

  /** The same presence, count or choice, and the same values where there are any. */
  ghost predicate SameField(f: Field, a: Slot, b: Slot)
    decreases f, 1
  {
    match f.htype
    case Required => SameValue(f, ItemAt(a.items, 0), ItemAt(b.items, 0))
    case Optional =>
      if f.sizeOffset == 0 then SameValue(f, ItemAt(a.items, 0), ItemAt(b.items, 0))
      else (a.size != 0 <==> b.size != 0) && (a.size != 0 ==> SameValue(f, ItemAt(a.items, 0), ItemAt(b.items, 0)))
    case Repeated =>
      && CountOf(f, a) == CountOf(f, b)
      && forall i :: 0 <= i < CountOf(f, a) ==> SameValue(f, ItemAt(a.items, i), ItemAt(b.items, i))
    case OneOf =>
      && (a.size == f.tag <==> b.size == f.tag)
      && (a.size == f.tag ==> SameValue(f, ItemAt(a.items, 0), ItemAt(b.items, 0)))
  }

  ghost predicate SameMessage(fields: seq<Field>, a: Message, b: Message)
    decreases fields
  {
    forall p :: 0 <= p < |fields| ==> SameField(fields[p], SlotAt(a, Home(fields, p)), SlotAt(b, Home(fields, p)))
  }

  // ---------- Initialized structs ----------

  ghost predicate FreshValue(f: Field, v: Val) {
    if f.ltype.Submessage? then exists x :: v == VMsg(Defaults(f.sub, x, 0))
    else v == if f.default.Some? then f.default.value else ZeroValue(f)
  }

  /** A field that has not been decoded since initialization. */
  ghost predicate FreshField(f: Field, slot: Slot) {
    match f.htype
    case Required => FreshValue(f, ItemAt(slot.items, 0))
    case Optional => (f.sizeOffset != 0 ==> slot.size == 0) && FreshValue(f, ItemAt(slot.items, 0))
    case Repeated => f.sizeOffset != 0 ==> slot.size == 0
    case OneOf => slot.size != f.tag
  }

  lemma DefaultSlotIsFresh(f: Field, slot: Slot)
    requires f.tag > 0
    ensures FreshField(f, DefaultSlot(f, slot))
  {
  }

  /** Fields that share a slot are members of one union. */
  lemma {:induction false} HomeRun(fields: seq<Field>, h: nat, p: nat, q: nat)
    requires h <= p <= q < |fields| && Home(fields, q) == h && h < q
    ensures fields[p].htype.OneOf?
    decreases q
  {
    if p < q && h < q - 1 {
      HomeRun(fields, h, p, q - 1);
    }
  }

  lemma SharedHome(fields: seq<Field>, p: nat, q: nat)
    requires p < |fields| && q < |fields| && p != q && Home(fields, p) == Home(fields, q)
    ensures fields[p].htype.OneOf? && fields[q].htype.OneOf?
  {
    var lo, hi := if p < q then p else q, if p < q then q else p;
    HomeRun(fields, Home(fields, p), lo, hi);
    HomeRun(fields, Home(fields, p), hi, hi);
  }

  lemma SlotAtPut(slots: Message, i: nat, s: Slot, j: nat)
    ensures SlotAt(PutSlot(slots, i, s), j) == if j == i then s else SlotAt(slots, j)
  {
  }

  lemma {:induction false} DefaultsFreshFrom(fields: seq<Field>, m: Message, p: nat)
    requires p <= |fields| && forall q :: 0 <= q < |fields| ==> fields[q].tag > 0
    requires forall q :: 0 <= q < p ==> FreshField(fields[q], SlotAt(m, Home(fields, q)))
    ensures forall q :: 0 <= q < |fields| ==> FreshField(fields[q], SlotAt(Defaults(fields, m, p), Home(fields, q)))
    decreases |fields| - p
  {
    if p == |fields| {
    } else {
      var home := Home(fields, p);
      var slot := DefaultSlot(fields[p], SlotAt(m, home));
      var m' := PutSlot(m, home, slot);
      DefaultSlotIsFresh(fields[p], SlotAt(m, home));
      forall q | 0 <= q <= p ensures FreshField(fields[q], SlotAt(m', Home(fields, q))) {
        SlotAtPut(m, home, slot, Home(fields, q));
        if q < p && Home(fields, q) == home {
          SharedHome(fields, q, p);
        }
      }
      DefaultsFreshFrom(fields, m', p + 1);
    }
  }

  /** Initialization makes every field fresh, whatever the struct held before. */
  lemma DefaultsAreFresh(fields: seq<Field>, m: Message)
    requires WellFormed(fields)
    ensures forall q :: 0 <= q < |fields| ==> FreshField(fields[q], SlotAt(Defaults(fields, m, 0), Home(fields, q)))
  {
    DefaultsFreshFrom(fields, m, 0);
  }

  // ---------- Fields that are left out ----------

  lemma {:induction false} AllDefaultAt(fields: seq<Field>, slots: Message, p: nat, q: nat)
    requires p <= q < |fields| && AllDefault(fields, slots, p)
    ensures IsDefault(fields, slots, q)
    decreases q - p
  {
    if p == q {
    } else {
      AllDefaultAt(fields, slots, p + 1, q);
    }
  }

  /** A field left out for being zero is what initialization makes it. */
  lemma {:induction false} DefaultIsFresh(fields: seq<Field>, slots: Message, p: nat, slot: Slot)
    requires p < |fields| && Portable(fields) && IsDefault(fields, slots, p)
    requires FieldOk(fields[p], SlotAt(slots, Home(fields, p))) && FreshField(fields[p], slot)
    ensures SameField(fields[p], SlotAt(slots, Home(fields, p)), slot)
    decreases fields
  {
    var f, own := fields[p], SlotAt(slots, Home(fields, p));
    if f.htype.Optional? && f.sizeOffset == 0 && f.ltype.Submessage? {
      var a, x := ItemAt(own.items, 0), ItemAt(slot.items, 0);
      var m :| x == VMsg(Defaults(f.sub, m, 0));
      DefaultsAreFresh(f.sub, m);
      assert ValueOk(f, a);
      assert MessageOk(f.sub, a.slots);
      assert AllDefault(f.sub, a.slots, 0);
      forall q | 0 <= q < |f.sub|
        ensures SameField(f.sub[q], SlotAt(a.slots, Home(f.sub, q)), SlotAt(x.slots, Home(f.sub, q)))
      {
        AllDefaultAt(f.sub, a.slots, 0, q);
        DefaultIsFresh(f.sub, a.slots, q, SlotAt(x.slots, Home(f.sub, q)));
      }
    }
  }

  // ---------- Values ----------

  /** A decode undoes an encode of `v`, leaving what follows. */
  ghost predicate Returns(f: Field, v: Val, r: Read<Val>, tail: seq<Byte>) {
    r.Got? && r.rest == tail && SameValue(f, v, r.value)
  }

  lemma Wraps(n: int)
    requires -0x8000_0000 <= n < 0x8000_0000
    ensures Signed32(n % TWO_64 % TWO_32) == n
  {
    if n < 0 {
      assert n % TWO_64 == n + TWO_64;
    }
  }

  lemma BoolReturns(f: Field, v: Val, tail: seq<Byte>)
    requires f.ltype.Bool? && ValueOk(f, v)
    ensures EncodedValue(f, v).Some? && Returns(f, v, DecodedNumber(f, EncodedValue(f, v).value + tail), tail)
  {
    Varint32RoundTrip(v.n, tail);
  }

  lemma UnsignedReturns(f: Field, v: Val, tail: seq<Byte>)
    requires f.ltype.UVarint? && ValueOk(f, v)
    ensures EncodedValue(f, v).Some? && Returns(f, v, DecodedNumber(f, EncodedValue(f, v).value + tail), tail)
  {
    VarintRoundTrip(v.n, tail);
  }

  lemma ZigZagReturns(f: Field, v: Val, tail: seq<Byte>)
    requires f.ltype.SVarint? && ValueOk(f, v)
    ensures EncodedValue(f, v).Some? && Returns(f, v, DecodedNumber(f, EncodedValue(f, v).value + tail), tail)
  {
    var z := ZigZag(v.n);
    VarintRoundTrip(z, tail);
    Unchanged(z, TWO_64);
    ZigZagInverse(v.n, 0);
  }

  lemma SignedBack(f: Field, n: int)
    requires f.ltype.Varint? && IntSize(f.dataSize) && FitsSigned(n, f.dataSize)
    ensures FitsInt64(n) && SignedNumber(f, n % TWO_64) == n
  {
    if f.dataSize != 8 {
      Wraps(n);
    }
  }

  lemma SignedReturns(f: Field, v: Val, tail: seq<Byte>)
    requires f.ltype.Varint? && ValueOk(f, v)
    ensures EncodedValue(f, v).Some? && Returns(f, v, DecodedNumber(f, EncodedValue(f, v).value + tail), tail)
  {
    SignedBack(f, v.n);
    VarintRoundTrip(v.n % TWO_64, tail);
  }

  lemma FixedReturns(f: Field, v: Val, width: nat, tail: seq<Byte>)
    requires (f.ltype.Fixed32? && width == 4) || (f.ltype.Fixed64? && width == 8)
    requires ValueOk(f, v)
    ensures EncodedValue(f, v) == Some(FixedBytes(v.n, width))
    ensures Returns(f, v, DecodedFixed(width, FixedBytes(v.n, width) + tail), tail)
  {
    Unchanged(v.n, if width == 4 then TWO_32 else TWO_64);
    Pow256Is();
    FixedReadsBack(v.n, width, tail);
  }

  /** A length that fits 32 bits, and what follows it. */
  lemma PrefixReads(bytes: seq<Byte>, tail: seq<Byte>)
    requires |bytes| < TWO_32
    ensures ReadVarint32(Prefixed(bytes) + tail) == Got(|bytes|, bytes + tail)
    ensures (bytes + tail)[..|bytes|] == bytes && (bytes + tail)[|bytes|..] == tail
  {
    assert Prefixed(bytes) + tail == VarintBytes(|bytes|) + (bytes + tail);
    Varint32RoundTrip(|bytes|, bytes + tail);
  }

  lemma {:induction false} StrlenOfPrefix(s: seq<Byte>, max: nat)
    ensures Strlen(s[..Strlen(s, max)], max) == Strlen(s, max)
    decreases |s|
  {
    if s == [] || max == 0 || s[0] == 0 {
    } else {
      StrlenOfPrefix(s[1..], max - 1);
      assert s[..Strlen(s, max)][1..] == s[1..][..Strlen(s[1..], max - 1)];
    }
  }

  lemma BytesReturn(f: Field, v: Val, tail: seq<Byte>)
    requires (f.ltype.ByteArray? || f.ltype.String? || f.ltype.FixedLengthBytes?) && ValueOk(f, v)
    requires EncodedValue(f, v).Some? && |EncodedValue(f, v).value| < TWO_32
    ensures Returns(f, v, DecodedBytes(f, EncodedValue(f, v).value + tail), tail)
  {
    var bytes := if f.ltype.String? then v.bytes[..Strlen(v.bytes, f.dataSize)] else v.bytes;
    PrefixReads(bytes, tail);
    if f.ltype.String? {
      StrlenOfPrefix(v.bytes, f.dataSize);
      assert bytes[..|bytes|] == bytes;
    }
    if f.ltype.FixedLengthBytes? && bytes == [] {
      assert Zeros(f.dataSize) == [] && bytes + tail == tail;
    }
  }

  // ---------- Tags ----------

  lemma TagReads(tag: nat, wire: nat, body: seq<Byte>)
    requires 0 < tag <= MAX_TAG && wire < 8
    ensures ReadVarint32(TagBytes(tag, wire) + body) == Got(tag * 8 + wire, body)
    ensures (tag * 8 + wire) / 8 == tag && (tag * 8 + wire) % 8 == wire
  {
    var t: Word32 := tag * 8 + wire;
    Unchanged(t, TWO_64);
    Varint32RoundTrip(t, body);
  }

  lemma OwnTag(fields: seq<Field>, p: nat)
    requires WellFormed(fields) && p < |fields|
    ensures FieldAt(fields, fields[p].tag, 0) == Some(p)
  {
    var q := FieldAt(fields, fields[p].tag, 0);
    assert Matches(fields[p], fields[p].tag);
  }

  /** A known field's tag leads to decoding that field. */
  lemma TagLeads(fields: seq<Field>, st: Progress, p: nat, wire: nat, body: seq<Byte>)
    requires Portable(fields) && p < |fields| && wire < 8
    ensures var r := DecodedOne(fields, st, p, wire, body);
            DecodedFrom(fields, st, TagBytes(fields[p].tag, wire) + body)
            == if r.Fail? then Fail else DecodedFrom(fields, r.value, r.rest)
  {
    TagReads(fields[p].tag, wire, body);
    OwnTag(fields, p);
    assert TagBytes(fields[p].tag, wire) + body != [];
  }

  // ---------- Where decoding stands between two fields ----------

  ghost predicate Back(fields: seq<Field>, slots: Message, d: Message, q: nat)
    requires q < |fields|
  {
    SameField(fields[q], SlotAt(slots, Home(fields, q)), SlotAt(d, Home(fields, q)))
  }

  ghost predicate Fresh(fields: seq<Field>, d: Message, q: nat)
    requires q < |fields|
  {
    FreshField(fields[q], SlotAt(d, Home(fields, q)))
  }

  /** Fields before `p` have come back, the others are as initialized. */
  ghost predicate SlotsMid(fields: seq<Field>, slots: Message, d: Message, p: nat)
    requires p <= |fields|
  {
    && (forall q {:trigger Back(fields, slots, d, q)} :: 0 <= q < p ==> Back(fields, slots, d, q))
    && (forall q {:trigger Fresh(fields, d, q)} :: p <= q < |fields| ==> Fresh(fields, d, q))
  }

  /** What else decoding knows before field `p`: which required fields it has seen, and that arrays are complete. */
  ghost predicate CountsMid(fields: seq<Field>, st: Progress, p: nat)
    requires p <= |fields|
  {
    && (forall i :: 0 <= i < RequiredBefore(fields, p) && i < MAX_REQUIRED_FIELDS ==> i in st.seen)
    && (st.fixedField.Some? ==> st.fixedField.value < p) && FixedDone(fields, st)
  }

  ghost predicate Mid(fields: seq<Field>, slots: Message, st: Progress, p: nat)
    requires p <= |fields|
  {
    SlotsMid(fields, slots, st.slots, p) && CountsMid(fields, st, p)
  }

  /** Storing field `p` touches only other members of its union, and those are not chosen before or after. */
  lemma OtherField(fields: seq<Field>, slots: Message, d: Message, p: nat, slot: Slot, q: nat)
    requires WellFormed(fields) && p < |fields| && q < |fields| && p != q
    requires fields[p].htype.OneOf? ==> slot.size == fields[p].tag == SlotAt(slots, Home(fields, p)).size
    ensures var own, was, now := SlotAt(slots, Home(fields, q)), SlotAt(d, Home(fields, q)),
                                SlotAt(PutSlot(d, Home(fields, p), slot), Home(fields, q));
            now == was || (fields[q].htype.OneOf? && own.size != fields[q].tag && now.size != fields[q].tag)
  {
    SlotAtPut(d, Home(fields, p), slot, Home(fields, q));
    if Home(fields, q) == Home(fields, p) {
      SharedHome(fields, p, q);
      assert fields[p].tag != fields[q].tag;
    }
  }

  /** Storing a field that has come back leaves the others as they are. */
  lemma SlotsPut(fields: seq<Field>, slots: Message, d: Message, p: nat, slot: Slot)
    requires p < |fields| && WellFormed(fields) && SlotsMid(fields, slots, d, p)
    requires SameField(fields[p], SlotAt(slots, Home(fields, p)), slot)
    requires fields[p].htype.OneOf? ==> slot.size == fields[p].tag == SlotAt(slots, Home(fields, p)).size
    ensures SlotsMid(fields, slots, PutSlot(d, Home(fields, p), slot), p + 1)
  {
    var d' := PutSlot(d, Home(fields, p), slot);
    SlotAtPut(d, Home(fields, p), slot, Home(fields, p));
    forall q {:trigger Back(fields, slots, d', q)} | 0 <= q < p + 1 ensures Back(fields, slots, d', q) {
      if q < p {
        assert Back(fields, slots, d, q);
        OtherField(fields, slots, d, p, slot, q);
      }
    }
    forall q {:trigger Fresh(fields, d', q)} | p + 1 <= q < |fields| ensures Fresh(fields, d', q) {
      assert Fresh(fields, d, q);
      OtherField(fields, slots, d, p, slot, q);
    }
  }

  /** A field that is not encoded comes back as it was initialized. */
  lemma MidSkip(fields: seq<Field>, slots: Message, st: Progress, p: nat)
    requires p < |fields| && Mid(fields, slots, st, p) && !fields[p].htype.Required? && Back(fields, slots, st.slots, p)
    ensures Mid(fields, slots, st, p + 1)
  {
  }

  // ---------- Arrays ----------

  ghost predicate SameItems(f: Field, a: seq<Val>, b: seq<Val>, n: nat) {
    forall j :: 0 <= j < n ==> SameValue(f, ItemAt(a, j), ItemAt(b, j))
  }

  lemma PutKeeps(f: Field, a: seq<Val>, b: seq<Val>, n: nat, v: Val)
    requires SameItems(f, a, b, n) && SameValue(f, ItemAt(a, n), v)
    ensures SameItems(f, a, PutItem(b, n, v), n + 1)
  {
    var b' := PutItem(b, n, v);
    forall j | 0 <= j < n + 1 ensures SameValue(f, ItemAt(a, j), ItemAt(b', j)) {
      if j < n { assert ItemAt(b', j) == ItemAt(b, j); }
    }
  }

  lemma ScalarReturns(f: Field, v: Val, prior: Val, tail: seq<Byte>)
    requires Packable(f.ltype) && ValueOk(f, v)
    ensures EncodedValue(f, v).Some? && EncodedValue(f, v).value != []
    ensures Returns(f, v, DecodedValue(f, prior, EncodedValue(f, v).value + tail), tail)
  {
    match f.ltype
    case Bool => BoolReturns(f, v, tail);
    case Varint => SignedReturns(f, v, tail);
    case UVarint => UnsignedReturns(f, v, tail);
    case SVarint => ZigZagReturns(f, v, tail);
    case Fixed32 => FixedReturns(f, v, 4, tail);
    case Fixed64 => FixedReturns(f, v, 8, tail);
  }

  lemma {:induction false} PackedEncodes(f: Field, items: seq<Val>, i: nat, n: nat)
    requires Packable(f.ltype) && i <= n && forall j :: 0 <= j < n ==> ValueOk(f, ItemAt(items, j))
    ensures EncodedItems(f, items, i, n, false).Some?
    decreases n - i
  {
    if i == n {
    } else {
      ScalarReturns(f, ItemAt(items, i), VNum(0), []);
      PackedEncodes(f, items, i + 1, n);
    }
  }

  /** The payload of a packed array fills its entries from `i` on and is used up. */
  lemma {:induction false} PackedReturns(f: Field, items: seq<Val>, i: nat, n: nat, slot: Slot) returns (slot': Slot)
    requires Packable(f.ltype) && i <= n <= f.arraySize && forall j :: 0 <= j < n ==> ValueOk(f, ItemAt(items, j))
    requires SameItems(f, items, slot.items, i)
    ensures var e := EncodedItems(f, items, i, n, false);
            e.Some? && DecodedItems(f, slot, i, e.value) == Got((slot', n), [])
    ensures slot'.size == slot.size && SameItems(f, items, slot'.items, n)
    decreases n - i
  {
    if i == n {
      return slot;
    }
    PackedEncodes(f, items, i + 1, n);
    var one, rest := EncodedValue(f, ItemAt(items, i)), EncodedItems(f, items, i + 1, n, false).value;
    ScalarReturns(f, ItemAt(items, i), ItemAt(slot.items, i), rest);
    CatNothing(one);
    var v := DecodedValue(f, ItemAt(slot.items, i), one.value + rest).value;
    PutKeeps(f, items, slot.items, i, v);
    slot' := PackedReturns(f, items, i + 1, n, slot.(items := PutItem(slot.items, i, v)));
  }

  /** `i` entries of repeated field `p` have been counted, in the struct or outside. */
  ghost predicate Counted(fields: seq<Field>, st: Progress, p: nat, i: nat)
    requires p < |fields|
  {
    if fields[p].sizeOffset != 0 then SlotAt(st.slots, Home(fields, p)).size == i
    else if i == 0 then st.fixedField != Some(p) && FixedDone(fields, st)
    else st.fixedField == Some(p) && st.fixedSize == i
  }

  /** One more array entry with its own tag, whose value decodes to `v`. */
  function PutEntry(fields: seq<Field>, st: Progress, p: nat, i: nat, v: Val): Progress
    requires p < |fields|
  {
    var home := Home(fields, p);
    var slot := SlotAt(st.slots, home);
    var slot' := Slot(if fields[p].sizeOffset != 0 then i + 1 else slot.size, PutItem(slot.items, i, v));
    if fields[p].sizeOffset != 0 then st.(slots := PutSlot(st.slots, home, slot'))
    else Progress(PutSlot(st.slots, home, slot'), st.seen, Some(p), i + 1)
  }

  lemma EntryMeets(fields: seq<Field>, st: Progress, p: nat, i: nat)
    requires p < |fields| && fields[p].htype.Repeated? && Counted(fields, st, p, i)
    ensures Meet(fields, st, p)
            == Some(if fields[p].sizeOffset != 0 then st else Progress(st.slots, st.seen, Some(p), i))
  {
  }

  lemma EntryDecodes(fields: seq<Field>, st: Progress, p: nat, i: nat, wire: nat, body: seq<Byte>, v: Val,
                     tail: seq<Byte>)
    requires p < |fields| && fields[p].htype.Repeated? && !Packable(fields[p].ltype) && i < fields[p].arraySize
    requires Counted(fields, st, p, i)
    requires DecodedValue(fields[p], ItemAt(SlotAt(st.slots, Home(fields, p)).items, i), body) == Got(v, tail)
    ensures DecodedOne(fields, st, p, wire, body) == Got(PutEntry(fields, st, p, i, v), tail)
    ensures Counted(fields, PutEntry(fields, st, p, i, v), p, i + 1)
  {
    EntryMeets(fields, st, p, i);
    var f, slot := fields[p], SlotAt(st.slots, Home(fields, p));
    var items := PutItem(slot.items, i, v);
    assert DecodedRepeated(f, slot, i, wire, body) == Got((slot.(items := items), i + 1), tail);
  }

  // ---------- Messages ----------

  /** What a singular value is decoded over: for a submessage, an initialized one. */
  ghost predicate Prior(f: Field, v: Val) {
    f.ltype.Submessage? && !f.htype.Repeated? ==> exists x :: v == VMsg(Defaults(f.sub, x, 0))
  }

  /** A value comes back, whatever follows it. */
  lemma {:induction false} ValueReturns(f: Field, v: Val, prior: Val, tail: seq<Byte>)
    requires Portable(f.sub) && ValueOk(f, v) && Prior(f, prior)
    requires EncodedValue(f, v).Some? && |EncodedValue(f, v).value| < TWO_32
    ensures Returns(f, v, DecodedValue(f, prior, EncodedValue(f, v).value + tail), tail)
    decreases f, 0
  {
    if Packable(f.ltype) {
      ScalarReturns(f, v, prior, tail);
    } else if f.ltype.Submessage? {
      var inner := Encoded(f.sub, v.slots, 0).value;
      PrefixReads(inner, tail);
      var x;
      if f.htype.Repeated? {
        x := SubOf(prior);
      } else {
        x :| prior == VMsg(Defaults(f.sub, x, 0));
      }
      MessageReturns(f.sub, v.slots, x);
    } else {
      BytesReturn(f, v, tail);
    }
  }

  /** A message comes back into any struct. */
  lemma {:induction false} MessageReturns(fields: seq<Field>, slots: Message, x: Message)
    requires Portable(fields) && MessageOk(fields, slots)
    requires Encoded(fields, slots, 0).Some? && |Encoded(fields, slots, 0).value| < TWO_32
    ensures var r := DecodedNoInit(fields, Defaults(fields, x, 0), Encoded(fields, slots, 0).value);
            r.Got? && r.rest == [] && SameMessage(fields, slots, r.value)
    decreases fields, 2
  {
    var st := Progress(Defaults(fields, x, 0), {}, None, 0);
    DefaultsAreFresh(fields, x);
    assert Mid(fields, slots, st, 0);
    var st' := FieldsReturn(fields, slots, st, 0);
    MidCompletes(fields, slots, st');
  }

  /** After the last field the message is back and the final checks pass. */
  lemma MidCompletes(fields: seq<Field>, slots: Message, st: Progress)
    requires Mid(fields, slots, st, |fields|)
    ensures SameMessage(fields, slots, st.slots) && FixedDone(fields, st) && AllSeen(fields, st.seen)
  {
    forall p | 0 <= p < |fields|
      ensures SameField(fields[p], SlotAt(slots, Home(fields, p)), SlotAt(st.slots, Home(fields, p)))
    {
      assert Back(fields, slots, st.slots, p);
    }
  }

  lemma {:induction false} FieldsReturn(fields: seq<Field>, slots: Message, st: Progress, p: nat)
    returns (st': Progress)
    requires p <= |fields| && Portable(fields) && MessageOk(fields, slots) && Mid(fields, slots, st, p)
    requires Encoded(fields, slots, p).Some? && |Encoded(fields, slots, p).value| < TWO_32
    ensures DecodedFrom(fields, st, Encoded(fields, slots, p).value) == Got(st', [])
    ensures Mid(fields, slots, st', |fields|)
    decreases fields, 1, |fields| - p
  {
    if p == |fields| {
      return st;
    }
    var rest := Encoded(fields, slots, p + 1).value;
    var next := FieldReturns(fields, slots, st, p, rest);
    st' := FieldsReturn(fields, slots, next, p + 1);
  }

  lemma {:induction false} FieldReturns(fields: seq<Field>, slots: Message, st: Progress, p: nat, tail: seq<Byte>)
    returns (st': Progress)
    requires p < |fields| && Portable(fields) && MessageOk(fields, slots) && Mid(fields, slots, st, p)
    requires EncodedField(fields, slots, p).Some? && |EncodedField(fields, slots, p).value| < TWO_32
    ensures DecodedFrom(fields, st, EncodedField(fields, slots, p).value + tail) == DecodedFrom(fields, st', tail)
    ensures Mid(fields, slots, st', p + 1)
    decreases fields, 0, 2
  {
    var f, own, got := fields[p], SlotAt(slots, Home(fields, p)), SlotAt(st.slots, Home(fields, p));
    var e := EncodedField(fields, slots, p).value;
    assert FieldOk(f, own) && Fresh(fields, st.slots, p);
    if f.htype.Repeated? {
      st' := ArrayReturns(fields, slots, st, p, tail);
    } else if (f.htype.Optional? && !HasValue(fields, slots, p)) || (f.htype.OneOf? && own.size != f.tag) {
      assert e + tail == tail;
      if f.htype.Optional? && f.sizeOffset == 0 {
        DefaultIsFresh(fields, slots, p, got);
      }
      MidSkip(fields, slots, st, p);
      st' := st;
    } else {
      st' := SingleReturns(fields, slots, st, p, tail);
    }
  }

  /** Decoding a singular field whose value comes back as `v`. */
  lemma SingleDecodes(fields: seq<Field>, st: Progress, p: nat, wire: nat, body: seq<Byte>, v: Val, tail: seq<Byte>)
    returns (slot: Slot)
    requires p < |fields| && !fields[p].htype.Repeated?
    requires var f, items := fields[p], SlotAt(st.slots, Home(fields, p)).items;
             DecodedValue(f, if f.htype.OneOf? then FreshMember(f, ItemAt(items, 0)) else ItemAt(items, 0), body)
             == Got(v, tail)
    ensures slot.items == PutItem(SlotAt(st.slots, Home(fields, p)).items, 0, v)
    ensures fields[p].htype.OneOf? ==> slot.size == fields[p].tag
    ensures fields[p].htype.Optional? && fields[p].sizeOffset != 0 ==> slot.size == 1
    ensures DecodedOne(fields, st, p, wire, body)
            == Got(st.(slots := PutSlot(st.slots, Home(fields, p), slot), seen := SeenWith(fields, st.seen, p)), tail)
  {
    var f, got := fields[p], SlotAt(st.slots, Home(fields, p));
    slot := Slot(if f.htype.OneOf? then f.tag else if f.htype.Optional? && f.sizeOffset != 0 then 1 else got.size,
                 PutItem(got.items, 0, v));
    assert DecodedField(f, got, st.fixedSize, wire, body) == Got((slot, st.fixedSize), tail);
  }

  function SeenWith(fields: seq<Field>, seen: set<nat>, p: nat): set<nat>
    requires p < |fields|
  {
    if fields[p].htype.Required? && RequiredBefore(fields, p) < MAX_REQUIRED_FIELDS
    then seen + {RequiredBefore(fields, p)} else seen
  }

  lemma SeenMore(fields: seq<Field>, st: Progress, p: nat, d: Message)
    requires p < |fields| && CountsMid(fields, st, p)
    ensures CountsMid(fields, st.(slots := d, seen := SeenWith(fields, st.seen, p)), p + 1)
  {
  }

  lemma FreshPrior(f: Field, slot: Slot)
    requires FreshField(f, slot)
    ensures Prior(f, if f.htype.OneOf? then FreshMember(f, ItemAt(slot.items, 0)) else ItemAt(slot.items, 0))
  {
  }

  /** A required field, a present optional one or the chosen member of a union. */
  lemma {:induction false} SingleReturns(fields: seq<Field>, slots: Message, st: Progress, p: nat, tail: seq<Byte>)
    returns (st': Progress)
    requires p < |fields| && Portable(fields) && MessageOk(fields, slots) && Mid(fields, slots, st, p)
    requires var f, own := fields[p], SlotAt(slots, Home(fields, p));
             && !f.htype.Repeated? && (f.htype.OneOf? ==> own.size == f.tag)
             && (f.htype.Optional? ==> HasValue(fields, slots, p))
             && var e := Cat(FieldTag(f), EncodedValue(f, ItemAt(own.items, 0))); e.Some? && |e.value| < TWO_32
    ensures var f, own := fields[p], SlotAt(slots, Home(fields, p));
            DecodedFrom(fields, st, Cat(FieldTag(f), EncodedValue(f, ItemAt(own.items, 0))).value + tail)
            == DecodedFrom(fields, st', tail)
    ensures Mid(fields, slots, st', p + 1)
    decreases fields, 0, 1
  {
    var f, own, got := fields[p], SlotAt(slots, Home(fields, p)), SlotAt(st.slots, Home(fields, p));
    var v, wire := ItemAt(own.items, 0), WireType(f.ltype).value;
    var bytes := EncodedValue(f, v).value;
    assert FieldOk(f, own) && Fresh(fields, st.slots, p);
    FreshPrior(f, got);
    var prior := if f.htype.OneOf? then FreshMember(f, ItemAt(got.items, 0)) else ItemAt(got.items, 0);
    ValueReturns(f, v, prior, tail);
    var b := DecodedValue(f, prior, bytes + tail).value;
    assert (TagBytes(f.tag, wire) + bytes) + tail == TagBytes(f.tag, wire) + (bytes + tail);
    TagLeads(fields, st, p, wire, bytes + tail);
    var slot := SingleDecodes(fields, st, p, wire, bytes + tail, b, tail);
    st' := st.(slots := PutSlot(st.slots, Home(fields, p), slot), seen := SeenWith(fields, st.seen, p));
    SlotsPut(fields, slots, st.slots, p, slot);
    SeenMore(fields, st, p, st'.slots);
  }

  lemma {:induction false} ArrayReturns(fields: seq<Field>, slots: Message, st: Progress, p: nat, tail: seq<Byte>)
    returns (st': Progress)
    requires p < |fields| && fields[p].htype.Repeated? && Portable(fields) && MessageOk(fields, slots)
               && Mid(fields, slots, st, p)
    requires EncodedField(fields, slots, p).Some? && |EncodedField(fields, slots, p).value| < TWO_32
    ensures DecodedFrom(fields, st, EncodedField(fields, slots, p).value + tail) == DecodedFrom(fields, st', tail)
    ensures Mid(fields, slots, st', p + 1)
    decreases fields, 0, 1
  {
    var f, own, got := fields[p], SlotAt(slots, Home(fields, p)), SlotAt(st.slots, Home(fields, p));
    var n, e := CountOf(f, own), EncodedField(fields, slots, p).value;
    assert FieldOk(f, own) && Fresh(fields, st.slots, p);
    if n == 0 {
      assert e + tail == tail;
      MidSkip(fields, slots, st, p);
      return st;
    }
    assert Counted(fields, st, p, 0);
    var slot: Slot;
    if Packable(f.ltype) {
      st', slot := PackedFieldReturns(fields, st, p, own.items, n, tail);
    } else {
      st', slot := UnpackedReturns(fields, st, p, own.items, 0, n, tail);
    }
    SlotsPut(fields, slots, st.slots, p, slot);
  }

  /** The progress once all `n` entries of an array are in `slot`. */
  ghost predicate Filled(fields: seq<Field>, st: Progress, p: nat, items: seq<Val>, n: nat, slot: Slot, st': Progress)
    requires p < |fields|
  {
    && st'.slots == PutSlot(st.slots, Home(fields, p), slot) && SameItems(fields[p], items, slot.items, n)
    && st'.seen == st.seen
    && if fields[p].sizeOffset != 0 then
         slot.size == n && st'.fixedField == st.fixedField && st'.fixedSize == st.fixedSize
       else st'.fixedField == Some(p) && st'.fixedSize == n
  }

  lemma PackedFieldReturns(fields: seq<Field>, st: Progress, p: nat, items: seq<Val>, n: nat, tail: seq<Byte>)
    returns (st': Progress, slot: Slot)
    requires p < |fields| && Portable(fields) && fields[p].htype.Repeated? && Packable(fields[p].ltype)
    requires 0 < n <= fields[p].arraySize && forall j :: 0 <= j < n ==> ValueOk(fields[p], ItemAt(items, j))
    requires Counted(fields, st, p, 0)
    requires EncodedArray(fields[p], items, n).Some? && |EncodedArray(fields[p], items, n).value| < TWO_32
    ensures DecodedFrom(fields, st, EncodedArray(fields[p], items, n).value + tail) == DecodedFrom(fields, st', tail)
    ensures Filled(fields, st, p, items, n, slot, st')
  {
    var f, got := fields[p], SlotAt(st.slots, Home(fields, p));
    var payload := EncodedItems(f, items, 0, n, false).value;
    var filled := PackedReturns(f, items, 0, n, got);
    PrefixReads(payload, tail);
    var body := Prefixed(payload) + tail;
    assert (TagBytes(f.tag, WIRE_STRING) + Prefixed(payload)) + tail == TagBytes(f.tag, WIRE_STRING) + body;
    TagLeads(fields, st, p, WIRE_STRING, body);
    assert DecodedRepeated(f, got, 0, WIRE_STRING, body) == Got((filled, n), tail);
    st', slot := PackedFills(fields, st, p, items, n, filled, body, tail);
  }

  /** Decoding the payload of a packed array fills the array. */
  lemma PackedFills(fields: seq<Field>, st: Progress, p: nat, items: seq<Val>, n: nat, filled: Slot, body: seq<Byte>,
                    tail: seq<Byte>)
    returns (st': Progress, slot: Slot)
    requires p < |fields| && Portable(fields) && fields[p].htype.Repeated? && Counted(fields, st, p, 0)
    requires Packable(fields[p].ltype) && 0 < n <= fields[p].arraySize
    requires var got := SlotAt(st.slots, Home(fields, p));
             DecodedRepeated(fields[p], got, 0, WIRE_STRING, body) == Got((filled, n), tail)
    requires filled.size == SlotAt(st.slots, Home(fields, p)).size && SameItems(fields[p], items, filled.items, n)
    ensures DecodedOne(fields, st, p, WIRE_STRING, body) == Got(st', tail)
    ensures Filled(fields, st, p, items, n, slot, st')
  {
    EntryMeets(fields, st, p, 0);
    var f, got := fields[p], SlotAt(st.slots, Home(fields, p));
    var met := if f.sizeOffset != 0 then st else Progress(st.slots, st.seen, Some(p), 0);
    slot := if f.sizeOffset != 0 then filled.(size := n) else filled;
    assert DecodedRepeated(f, got, 0, WIRE_STRING, body) == Got((filled, n), tail);
    assert DecodedField(f, got, met.fixedSize, WIRE_STRING, body)
        == Got((slot, if f.sizeOffset != 0 then met.fixedSize else n), tail);
    st' := DecodedOne(fields, st, p, WIRE_STRING, body).value;
  }

  /** One entry with its tag comes back, whatever follows it. */
  lemma {:induction false} EntryReturns(fields: seq<Field>, st: Progress, p: nat, items: seq<Val>, i: nat,
                                        after: seq<Byte>)
    returns (b: Val)
    requires p < |fields| && Portable(fields) && fields[p].htype.Repeated? && !Packable(fields[p].ltype)
    requires i < fields[p].arraySize && ValueOk(fields[p], ItemAt(items, i))
    requires Counted(fields, st, p, i) && SameItems(fields[p], items, SlotAt(st.slots, Home(fields, p)).items, i)
    requires var e := Cat(FieldTag(fields[p]), EncodedValue(fields[p], ItemAt(items, i))); e.Some? && |e.value| < TWO_32
    ensures var e := Cat(FieldTag(fields[p]), EncodedValue(fields[p], ItemAt(items, i)));
            var next := PutEntry(fields, st, p, i, b);
            && DecodedFrom(fields, st, e.value + after) == DecodedFrom(fields, next, after)
            && Counted(fields, next, p, i + 1)
            && SameItems(fields[p], items, PutItem(SlotAt(st.slots, Home(fields, p)).items, i, b), i + 1)
    decreases fields, 0, 0, 0, 0
  {
    var f, got, v := fields[p], SlotAt(st.slots, Home(fields, p)), ItemAt(items, i);
    var tag, bytes := TagBytes(f.tag, WireType(f.ltype).value), EncodedValue(f, v).value;
    ValueReturns(f, v, ItemAt(got.items, i), after);
    b := DecodedValue(f, ItemAt(got.items, i), bytes + after).value;
    assert (tag + bytes) + after == tag + (bytes + after);
    TagLeads(fields, st, p, WireType(f.ltype).value, bytes + after);
    EntryDecodes(fields, st, p, i, WireType(f.ltype).value, bytes + after, b, after);
    PutKeeps(f, items, got.items, i, b);
  }

  lemma PutEntrySlots(fields: seq<Field>, st: Progress, p: nat, i: nat, v: Val) returns (slot: Slot)
    requires p < |fields|
    ensures PutEntry(fields, st, p, i, v).slots == PutSlot(st.slots, Home(fields, p), slot)
    ensures SlotAt(PutEntry(fields, st, p, i, v).slots, Home(fields, p)) == slot
    ensures slot.items == PutItem(SlotAt(st.slots, Home(fields, p)).items, i, v)
    ensures fields[p].sizeOffset != 0 ==> slot.size == i + 1
  {
    var home := Home(fields, p);
    slot := Slot(if fields[p].sizeOffset != 0 then i + 1 else SlotAt(st.slots, home).size,
                 PutItem(SlotAt(st.slots, home).items, i, v));
    SlotAtPut(st.slots, home, slot, home);
  }

  lemma FilledAfter(fields: seq<Field>, st: Progress, p: nat, items: seq<Val>, n: nat, i: nat, v: Val, put: Slot,
                    slot: Slot, st': Progress)
    requires p < |fields| && PutEntry(fields, st, p, i, v).slots == PutSlot(st.slots, Home(fields, p), put)
    requires Filled(fields, PutEntry(fields, st, p, i, v), p, items, n, slot, st')
    ensures Filled(fields, st, p, items, n, slot, st')
  {
    PutTwice(st.slots, Home(fields, p), put, slot);
  }

  /** The first of the entries that are left, and the rest. */
  lemma {:induction false} FirstEntryReturns(fields: seq<Field>, st: Progress, p: nat, items: seq<Val>, i: nat,
                                             n: nat, tail: seq<Byte>)
    returns (v: Val, put: Slot)
    requires p < |fields| && Portable(fields) && fields[p].htype.Repeated? && !Packable(fields[p].ltype)
    requires i < n <= fields[p].arraySize && ValueOk(fields[p], ItemAt(items, i))
    requires Counted(fields, st, p, i) && SameItems(fields[p], items, SlotAt(st.slots, Home(fields, p)).items, i)
    requires var e := EncodedItems(fields[p], items, i, n, true); e.Some? && |e.value| < TWO_32
    ensures var next, rest := PutEntry(fields, st, p, i, v), EncodedItems(fields[p], items, i + 1, n, true);
            && rest.Some? && |rest.value| < TWO_32
            && DecodedFrom(fields, st, EncodedItems(fields[p], items, i, n, true).value + tail)
               == DecodedFrom(fields, next, rest.value + tail)
            && Counted(fields, next, p, i + 1)
            && next.slots == PutSlot(st.slots, Home(fields, p), put) && SlotAt(next.slots, Home(fields, p)) == put
    ensures SameItems(fields[p], items, put.items, i + 1) && (fields[p].sizeOffset != 0 ==> put.size == i + 1)
    decreases fields, 0, 0, 0, 1
  {
    ItemsSplit(fields[p], items, i, n);
    var one := Cat(FieldTag(fields[p]), EncodedValue(fields[p], ItemAt(items, i))).value;
    var rest := EncodedItems(fields[p], items, i + 1, n, true).value;
    v := EntryReturns(fields, st, p, items, i, rest + tail);
    Reassociate(one, rest, tail);
    put := PutEntrySlots(fields, st, p, i, v);
  }

  lemma ItemsSplit(f: Field, items: seq<Val>, i: nat, n: nat)
    requires i < n && EncodedItems(f, items, i, n, true).Some?
    ensures var one := Cat(FieldTag(f), EncodedValue(f, ItemAt(items, i)));
            var rest := EncodedItems(f, items, i + 1, n, true);
            one.Some? && rest.Some? && EncodedItems(f, items, i, n, true).value == one.value + rest.value
  {
  }

  lemma Reassociate(a: seq<Byte>, b: seq<Byte>, c: seq<Byte>)
    ensures (a + b) + c == a + (b + c)
  {
  }

  lemma {:induction false} UnpackedReturns(fields: seq<Field>, st: Progress, p: nat, items: seq<Val>, i: nat, n: nat,
                                           tail: seq<Byte>)
    returns (st': Progress, slot: Slot)
    requires p < |fields| && Portable(fields) && fields[p].htype.Repeated? && !Packable(fields[p].ltype)
    requires i < n <= fields[p].arraySize && forall j :: 0 <= j < n ==> ValueOk(fields[p], ItemAt(items, j))
    requires Counted(fields, st, p, i) && SameItems(fields[p], items, SlotAt(st.slots, Home(fields, p)).items, i)
    requires var e := EncodedItems(fields[p], items, i, n, true); e.Some? && |e.value| < TWO_32
    ensures DecodedFrom(fields, st, EncodedItems(fields[p], items, i, n, true).value + tail)
              == DecodedFrom(fields, st', tail)
    ensures Filled(fields, st, p, items, n, slot, st')
    decreases fields, 0, 0, 1, n - i
  {
    var v, put := FirstEntryReturns(fields, st, p, items, i, n, tail);
    var next := PutEntry(fields, st, p, i, v);
    if i + 1 == n {
      assert EncodedItems(fields[p], items, i + 1, n, true).value + tail == tail;
      st', slot := next, put;
    } else {
      st', slot := UnpackedReturns(fields, next, p, items, i + 1, n, tail);
      FilledAfter(fields, st, p, items, n, i, v, put, slot, st');
    }
  }

  lemma PutTwice(slots: Message, i: nat, a: Slot, b: Slot)
    ensures PutSlot(PutSlot(slots, i, a), i, b) == PutSlot(slots, i, b)
  {
  }

  // ---------- Encoding within the capacities succeeds ----------

  lemma {:induction false} ValueEncodes(f: Field, v: Val)
    requires ValueOk(f, v) && WellFormed(f.sub)
    ensures EncodedValue(f, v).Some?
    decreases f, 0
  {
    if f.ltype.Submessage? {
      MessageEncodes(f.sub, v.slots, 0);
    } else if Packable(f.ltype) {
      ScalarReturns(f, v, VNum(0), []);
    }
  }

  lemma {:induction false} ItemsEncode(f: Field, items: seq<Val>, i: nat, n: nat, tagged: bool)
    requires i <= n && !f.ltype.Extension? && WellFormed(f.sub) && forall j :: 0 <= j < n ==>
               ValueOk(f, ItemAt(items, j))
    ensures EncodedItems(f, items, i, n, tagged).Some?
    decreases f, 1, n - i
  {
    if i == n {
    } else {
      ValueEncodes(f, ItemAt(items, i));
      ItemsEncode(f, items, i + 1, n, tagged);
    }
  }

  lemma {:induction false} FieldEncodes(fields: seq<Field>, slots: Message, p: nat)
    requires p < |fields| && FieldOk(fields[p], SlotAt(slots, Home(fields, p)))
    requires !fields[p].ltype.Extension? && WellFormed(fields[p].sub)
    ensures EncodedField(fields, slots, p).Some?
    decreases fields, 0
  {
    var f, slot := fields[p], SlotAt(slots, Home(fields, p));
    if f.htype.Repeated? {
      ItemsEncode(f, slot.items, 0, CountOf(f, slot), !Packable(f.ltype));
    } else if ValueOk(f, ItemAt(slot.items, 0)) {
      ValueEncodes(f, ItemAt(slot.items, 0));
      assert FieldTag(f).Some?;
    }
  }

  /** Every message within its capacities can be encoded. */
  lemma {:induction false} MessageEncodes(fields: seq<Field>, slots: Message, p: nat)
    requires p <= |fields| && WellFormed(fields) && MessageOk(fields, slots)
    ensures Encoded(fields, slots, p).Some?
    decreases fields, 1, |fields| - p
  {
    if p == |fields| {
    } else {
      FieldEncodes(fields, slots, p);
      MessageEncodes(fields, slots, p + 1);
    }
  }

  // ---------- The round trip ----------

  /**
   * Message round trip: a message within its capacities encodes, and if that is
   * fewer than 2^32 bytes they decode, into any struct and with nothing left over,
   * to the same message, up to the contents of unset fields.
   */
  lemma MessageRoundTrip(fields: seq<Field>, slots: Message, dest: Message)
    requires Portable(fields) && MessageOk(fields, slots)
    ensures var e := Encoded(fields, slots, 0);
            && e.Some?
            && (|e.value| < TWO_32 ==>
                  var r := Decoded(fields, dest, e.value);
                  r.Got? && r.rest == [] && SameMessage(fields, slots, r.value))
  {
    MessageEncodes(fields, slots, 0);
    if |Encoded(fields, slots, 0).value| < TWO_32 {
      MessageReturns(fields, slots, dest);
    }
  }
}
