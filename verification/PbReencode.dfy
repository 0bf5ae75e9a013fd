/**
 * Whatever bytes the decoder accepts, what it stores is within the capacities of
 * its places, so it can be encoded again, and that decodes to the same message.
 */
module PbReencode {
  import opened Bytes
  import opened Wrappers
  import opened Streams
  import opened Varint
  import opened Descriptor
  import opened FieldIter
  import opened PbEncode
  import opened PbDecode
  import opened PbRoundTrip

  // ---------- Structs within their places ----------

  /** Like `ValueOk`, but a submessage is as decoding leaves it. */
  ghost predicate InPlace(f: Field, v: Val)
    decreases f, 0
  {
    if f.ltype.Submessage? then v.VMsg? && InPlaces(f.sub, v.slots) else ValueOk(f, v)
  }

  /** What is set is in place; nothing is said of arrays without a count of their own. */
  ghost predicate FieldIn(f: Field, slot: Slot)
    decreases f, 1
  {
    match f.htype
    case Required => InPlace(f, ItemAt(slot.items, 0))
    case Optional => InPlace(f, ItemAt(slot.items, 0))
    case Repeated =>
      f.sizeOffset != 0 ==>
        slot.size <= f.arraySize && forall i :: 0 <= i < slot.size ==> InPlace(f, ItemAt(slot.items, i))
    case OneOf => slot.size == f.tag ==> InPlace(f, ItemAt(slot.items, 0))
  }

  ghost predicate InPlaces(fields: seq<Field>, slots: Message)
    decreases fields
  {
    forall p :: 0 <= p < |fields| ==> FieldIn(fields[p], SlotAt(slots, Home(fields, p)))
  }

  /** The initial values of a type fit their places, at every level. */
  ghost predicate Roomy(fields: seq<Field>)
    decreases fields
  {
    forall p :: 0 <= p < |fields| ==>
      && Roomy(fields[p].sub)
      && (!fields[p].ltype.Submessage? && (fields[p].htype.Required? || fields[p].htype.Optional?) ==>
            ValueOk(fields[p], if fields[p].default.Some? then fields[p].default.value else ZeroValue(fields[p])))
  }

  /** Initialization puts every field in place, whatever the struct held before. */
  lemma {:induction false} DefaultsInPlace(fields: seq<Field>, m: Message)
    requires WellFormed(fields) && Roomy(fields)
    ensures InPlaces(fields, Defaults(fields, m, 0))
    decreases fields
  {
    DefaultsAreFresh(fields, m);
    forall p | 0 <= p < |fields| ensures FieldIn(fields[p], SlotAt(Defaults(fields, m, 0), Home(fields, p))) {
      var f, v := fields[p], ItemAt(SlotAt(Defaults(fields, m, 0), Home(fields, p)).items, 0);
      if f.ltype.Submessage? && (f.htype.Required? || f.htype.Optional?) {
        var x :| v == VMsg(Defaults(f.sub, x, 0));
        DefaultsInPlace(f.sub, x);
      }
    }
  }

  // ---------- Values ----------

  lemma NumberInPlace(f: Field, bytes: seq<Byte>)
    requires f.ltype.Bool? || f.ltype.Varint? || f.ltype.UVarint? || f.ltype.SVarint?
    requires DecodedNumber(f, bytes).Got?
    ensures ValueOk(f, DecodedNumber(f, bytes).value)
  {
  }

  lemma {:induction false} FixedBelow(bs: seq<Byte>)
    ensures FixedValue(bs) < Pow256(|bs|)
  {
    if bs == [] {
    } else {
      FixedBelow(bs[1..]);
    }
  }

  lemma FixedInPlace(f: Field, width: nat, bytes: seq<Byte>)
    requires (f.ltype.Fixed32? && width == 4) || (f.ltype.Fixed64? && width == 8)
    requires DecodedFixed(width, bytes).Got?
    ensures ValueOk(f, DecodedFixed(width, bytes).value)
  {
    Pow256Is();
    FixedBelow(bytes[..width]);
  }

  lemma BytesInPlace(f: Field, bytes: seq<Byte>)
    requires f.ltype.ByteArray? || f.ltype.String? || f.ltype.FixedLengthBytes?
    requires DecodedBytes(f, bytes).Got?
    ensures ValueOk(f, DecodedBytes(f, bytes).value)
  {
  }

  // ---------- Decoding ----------

  /** A decoded value fits its place; one decoded over another of its type stays so. */
  lemma {:induction false} ValueInPlace(f: Field, prior: Val, bytes: seq<Byte>)
    requires WellFormed(f.sub) && Roomy(f.sub) && DecodedValue(f, prior, bytes).Got?
    requires f.ltype.Submessage? && !f.htype.Repeated? ==> InPlace(f, prior)
    ensures InPlace(f, DecodedValue(f, prior, bytes).value)
    decreases f, 0
  {
    match f.ltype
    case Fixed32 => FixedInPlace(f, 4, bytes);
    case Fixed64 => FixedInPlace(f, 8, bytes);
    case ByteArray => BytesInPlace(f, bytes);
    case String => BytesInPlace(f, bytes);
    case FixedLengthBytes => BytesInPlace(f, bytes);
    case Submessage =>
      var d := ReadVarint32(bytes);
      var m := if f.htype.Repeated? then Defaults(f.sub, SubOf(prior), 0) else SubOf(prior);
      MessageWithin(f, prior, bytes, m);
      if f.htype.Repeated? {
        DefaultsInPlace(f.sub, SubOf(prior));
      }
      MessageInPlaces(f.sub, m, d.rest[..d.value]);
    case _ => NumberInPlace(f, bytes);
  }

  ghost predicate FirstInPlace(f: Field, items: seq<Val>, n: nat) {
    n <= f.arraySize && forall i :: 0 <= i < n ==> InPlace(f, ItemAt(items, i))
  }

  lemma PutInPlace(f: Field, items: seq<Val>, n: nat, v: Val)
    requires FirstInPlace(f, items, n) && n < f.arraySize && InPlace(f, v)
    ensures FirstInPlace(f, PutItem(items, n, v), n + 1)
  {
  }

  lemma {:induction false} ItemsInPlace(f: Field, slot: Slot, count: nat, bytes: seq<Byte>)
    requires WellFormed(f.sub) && Roomy(f.sub) && f.htype.Repeated? && FirstInPlace(f, slot.items, count)
    requires DecodedItems(f, slot, count, bytes).Got?
    ensures var r := DecodedItems(f, slot, count, bytes).value; FirstInPlace(f, r.0.items, r.1)
    decreases f, 1, f.arraySize - count
  {
    if bytes == [] || count >= f.arraySize {
    } else {
      var r := DecodedValue(f, ItemAt(slot.items, count), bytes);
      ValueInPlace(f, ItemAt(slot.items, count), bytes);
      PutInPlace(f, slot.items, count, r.value);
      ItemsInPlace(f, slot.(items := PutItem(slot.items, count, r.value)), count + 1, r.rest);
    }
  }

  lemma {:induction false} RepeatedInPlace(f: Field, slot: Slot, count: nat, wire: nat, bytes: seq<Byte>)
    requires WellFormed(f.sub) && Roomy(f.sub) && f.htype.Repeated? && FirstInPlace(f, slot.items, count)
    requires DecodedRepeated(f, slot, count, wire, bytes).Got?
    ensures var r := DecodedRepeated(f, slot, count, wire, bytes).value; FirstInPlace(f, r.0.items, r.1)
    decreases f, 2
  {
    if wire == WIRE_STRING && Packable(f.ltype) {
      var r := ReadVarint32(bytes);
      ItemsInPlace(f, slot, count, r.rest[..r.value]);
    } else {
      var r := DecodedValue(f, ItemAt(slot.items, count), bytes);
      ValueInPlace(f, ItemAt(slot.items, count), bytes);
      PutInPlace(f, slot.items, count, r.value);
    }
  }

  lemma {:induction false} FieldInPlace(f: Field, slot: Slot, fixedSize: nat, wire: nat, bytes: seq<Byte>)
    requires WellFormed(f.sub) && Roomy(f.sub) && FieldIn(f, slot)
    requires DecodedField(f, slot, fixedSize, wire, bytes).Got?
    ensures var r := DecodedField(f, slot, fixedSize, wire, bytes).value.0;
            FieldIn(f, r) && (f.htype.OneOf? ==> r.size == f.tag)
    decreases f, 3
  {
    match f.htype
    case Required => ValueInPlace(f, ItemAt(slot.items, 0), bytes);
    case Optional => ValueInPlace(f, ItemAt(slot.items, 0), bytes);
    case Repeated =>
      if f.sizeOffset != 0 {
        RepeatedInPlace(f, slot, slot.size, wire, bytes);
      }
    case OneOf =>
      if f.ltype.Submessage? {
        DefaultsInPlace(f.sub, []);
      }
      ValueInPlace(f, FreshMember(f, ItemAt(slot.items, 0)), bytes);
  }

  /** Storing one field leaves all others as they are, except that another member of its union is no longer set. */
  lemma PutSlotInPlaces(fields: seq<Field>, slots: Message, p: nat, slot: Slot)
    requires WellFormed(fields) && p < |fields| && InPlaces(fields, slots) && FieldIn(fields[p], slot)
    requires fields[p].htype.OneOf? ==> slot.size == fields[p].tag
    ensures InPlaces(fields, PutSlot(slots, Home(fields, p), slot))
  {
    forall q | 0 <= q < |fields|
      ensures FieldIn(fields[q], SlotAt(PutSlot(slots, Home(fields, p), slot), Home(fields, q)))
    {
      SlotAtPut(slots, Home(fields, p), slot, Home(fields, q));
      if q != p && Home(fields, q) == Home(fields, p) {
        SharedHome(fields, p, q);
        DistinctTags(fields, p, q);
      }
    }
  }

  lemma DistinctTags(fields: seq<Field>, p: nat, q: nat)
    requires WellFormed(fields) && p < |fields| && q < |fields| && p != q
    ensures fields[p].tag != fields[q].tag
  {
  }

  lemma {:induction false} OneInPlaces(fields: seq<Field>, st: Progress, p: nat, wire: nat, bytes: seq<Byte>)
    requires WellFormed(fields) && Roomy(fields) && p < |fields| && InPlaces(fields, st.slots)
    requires DecodedOne(fields, st, p, wire, bytes).Got?
    ensures InPlaces(fields, DecodedOne(fields, st, p, wire, bytes).value.slots)
    decreases fields, 0
  {
    var home, met := Home(fields, p), Meet(fields, st, p).value;
    var r := DecodedField(fields[p], SlotAt(st.slots, home), met.fixedSize, wire, bytes);
    FieldInPlace(fields[p], SlotAt(st.slots, home), met.fixedSize, wire, bytes);
    PutSlotInPlaces(fields, st.slots, p, r.value.0);
  }

  lemma {:induction false} FromInPlaces(fields: seq<Field>, st: Progress, bytes: seq<Byte>)
    requires WellFormed(fields) && Roomy(fields) && InPlaces(fields, st.slots) && DecodedFrom(fields, st, bytes).Got?
    ensures InPlaces(fields, DecodedFrom(fields, st, bytes).value.slots)
    decreases fields, 1, |bytes|
  {
    if bytes == [] || ReadVarint32(bytes).value == 0 {
    } else {
      var t := ReadVarint32(bytes);
      var p := FieldAt(fields, t.value / 8, 0);
      if p.Some? {
        OneInPlaces(fields, st, p.value, t.value % 8, t.rest);
      }
      var r := DecodedTagged(fields, st, t.value / 8, t.value % 8, t.rest);
      FromInPlaces(fields, r.value, r.rest);
    }
  }

  lemma {:induction false} MessageInPlaces(fields: seq<Field>, slots: Message, bytes: seq<Byte>)
    requires WellFormed(fields) && Roomy(fields) && InPlaces(fields, slots) && DecodedNoInit(fields, slots, bytes).Got?
    ensures InPlaces(fields, DecodedNoInit(fields, slots, bytes).value)
    decreases fields, 2
  {
    FromInPlaces(fields, Progress(slots, {}, None, 0), bytes);
  }

  /** Whatever bytes are decoded, and whatever the struct held before, what is stored is in place. */
  lemma DecodedInPlaces(fields: seq<Field>, slots: Message, bytes: seq<Byte>)
    requires WellFormed(fields) && Roomy(fields) && Decoded(fields, slots, bytes).Got?
    ensures InPlaces(fields, Decoded(fields, slots, bytes).value)
  {
    DefaultsInPlace(fields, slots);
    MessageInPlaces(fields, Defaults(fields, slots, 0), bytes);
  }

  // ---------- Encoding again ----------

  /** No array goes without a count of its own, at any level. */
  predicate Counted(fields: seq<Field>)
    decreases fields
  {
    forall p :: 0 <= p < |fields| ==> !FixedCount(fields[p]) && Counted(fields[p].sub)
  }

  lemma {:induction false} ValueInPlaceIsOk(f: Field, v: Val)
    requires InPlace(f, v) && Counted(f.sub)
    ensures ValueOk(f, v)
    decreases f, 0
  {
    if f.ltype.Submessage? {
      InPlacesIsOk(f.sub, v.slots);
    }
  }

  lemma {:induction false} FieldInIsOk(f: Field, slot: Slot)
    requires FieldIn(f, slot) && Counted(f.sub) && !FixedCount(f)
    ensures FieldOk(f, slot)
    decreases f, 1
  {
    var n := if f.htype.Repeated? then slot.size else if f.htype.OneOf? && slot.size != f.tag then 0 else 1;
    forall i | 0 <= i < n ensures ValueOk(f, ItemAt(slot.items, i)) {
      ValueInPlaceIsOk(f, ItemAt(slot.items, i));
    }
  }

  lemma {:induction false} InPlacesIsOk(fields: seq<Field>, slots: Message)
    requires InPlaces(fields, slots) && Counted(fields)
    ensures MessageOk(fields, slots)
    decreases fields
  {
    forall p | 0 <= p < |fields| ensures FieldOk(fields[p], SlotAt(slots, Home(fields, p))) {
      FieldInIsOk(fields[p], SlotAt(slots, Home(fields, p)));
    }
  }

  /**
   * Any bytes that decode at all, from whatever encoder, decode to a message that
   * can be encoded, and its encoding decodes, into any struct, to the same message.
   */
  lemma Reencodes(fields: seq<Field>, slots: Message, bytes: seq<Byte>, dest: Message)
    requires Portable(fields) && Roomy(fields) && Counted(fields) && Decoded(fields, slots, bytes).Got?
    ensures var m := Decoded(fields, slots, bytes).value;
            && MessageOk(fields, m) && Encoded(fields, m, 0).Some?
            && (|Encoded(fields, m, 0).value| < 0x1_0000_0000 ==>
                  var again := Decoded(fields, dest, Encoded(fields, m, 0).value);
                  again.Got? && again.rest == [] && SameMessage(fields, m, again.value))
  {
    var m := Decoded(fields, slots, bytes).value;
    DecodedInPlaces(fields, slots, bytes);
    InPlacesIsOk(fields, m);
    MessageEncodes(fields, m, 0);
    if |Encoded(fields, m, 0).value| < 0x1_0000_0000 {
      MessageRoundTrip(fields, m, dest);
    }
  }
}
