/**
 * What it means for a field to be there or not: defaults of absent fields, zeros
 * that are left out, fields that come twice, and arrays packed or entry by entry.
 */
module PbPresence {
  import opened Bytes
  import opened Wrappers
  import opened Streams
  import opened Varint
  import opened Descriptor
  import opened FieldIter
  import opened PbEncode
  import opened PbDecode
  import opened PbRoundTrip
  import opened PbUnknown

  // ---------- Absent fields ----------

  /** None of the fields met is stored at `home`. */
  ghost predicate Untouched(fields: seq<Field>, met: set<nat>, home: nat) {
    forall q :: q in met && q < |fields| ==> Home(fields, q) != home
  }

  lemma OneTouches(fields: seq<Field>, st: Progress, p: nat, wire: nat, bytes: seq<Byte>, home: nat)
    requires p < |fields| && Home(fields, p) != home && DecodedOne(fields, st, p, wire, bytes).Got?
    ensures SlotAt(DecodedOne(fields, st, p, wire, bytes).value.slots, home) == SlotAt(st.slots, home)
  {
    var h, met := Home(fields, p), Meet(fields, st, p).value;
    var r := DecodedField(fields[p], SlotAt(st.slots, h), met.fixedSize, wire, bytes);
    SlotAtPut(st.slots, h, r.value.0, home);
  }

  lemma StepTouches(fields: seq<Field>, st: Progress, bytes: seq<Byte>, home: nat)
    requires LoopStep(fields, st, bytes).Got?
    requires var p := FieldAt(fields, ReadVarint32(bytes).value / 8, 0); p.Some? ==> Home(fields, p.value) != home
    ensures SlotAt(LoopStep(fields, st, bytes).value.slots, home) == SlotAt(st.slots, home)
  {
    var t := ReadVarint32(bytes);
    var p := FieldAt(fields, t.value / 8, 0);
    if p.Some? {
      assert DecodedOne(fields, st, p.value, t.value % 8, t.rest) == LoopStep(fields, st, bytes);
      OneTouches(fields, st, p.value, t.value % 8, t.rest, home);
    }
  }

  lemma MetUnfolds(fields: seq<Field>, st: Progress, bytes: seq<Byte>)
    requires LoopStep(fields, st, bytes).Got?
    ensures var r, p := LoopStep(fields, st, bytes), FieldAt(fields, ReadVarint32(bytes).value / 8, 0);
            Met(fields, st, bytes) == (if p.Some? then {p.value} else {}) + Met(fields, r.value, r.rest)
  {
  }

  /** A slot of which no field is met stays as it was. */
  lemma {:induction false} UnmetStays(fields: seq<Field>, st: Progress, bytes: seq<Byte>, home: nat)
    requires DecodedFrom(fields, st, bytes).Got? && Untouched(fields, Met(fields, st, bytes), home)
    ensures SlotAt(DecodedFrom(fields, st, bytes).value.slots, home) == SlotAt(st.slots, home)
    decreases |bytes|
  {
    var r := LoopStep(fields, st, bytes);
    if r.Got? {
      StepUnfolds(fields, st, bytes);
      MetUnfolds(fields, st, bytes);
      StepTouches(fields, st, bytes, home);
      UnmetStays(fields, r.value, r.rest, home);
    }
  }

  /** The zero of a type. */
  function Zero(f: Field): Val {
    if f.ltype.ByteArray? || f.ltype.String? then VBytes([])
    else if f.ltype.FixedLengthBytes? then VBytes(seq(f.dataSize, _ => 0))
    else VNum(0)
  }

  lemma FreshIs(f: Field, slot: Slot)
    requires FreshField(f, slot) && (f.htype.Required? || f.htype.Optional?) && !f.ltype.Submessage?
    ensures ItemAt(slot.items, 0) == if f.default.Some? then f.default.value else Zero(f)
  {
  }

  /**
   * After decoding, a field that the bytes do not have, nor any other member of its
   * union, is unset: an optional one has no flag and an array no entries, a union
   * has not chosen it, and a single value is the declared default, or zero without one.
   */
  lemma AbsentIsDefault(fields: seq<Field>, slots: Message, bytes: seq<Byte>, p: nat)
    requires WellFormed(fields) && p < |fields| && Decoded(fields, slots, bytes).Got?
    requires Untouched(fields, Met(fields, Progress(Defaults(fields, slots, 0), {}, None, 0), bytes), Home(fields, p))
    ensures var f, slot := fields[p], SlotAt(Decoded(fields, slots, bytes).value, Home(fields, p));
            && ((f.htype.Optional? || f.htype.Repeated?) && f.sizeOffset != 0 ==> slot.size == 0)
            && (f.htype.OneOf? ==> slot.size != f.tag)
            && ((f.htype.Required? || f.htype.Optional?) && !f.ltype.Submessage? ==>
                  ItemAt(slot.items, 0) == if f.default.Some? then f.default.value else Zero(f))
  {
    var st := Progress(Defaults(fields, slots, 0), {}, None, 0);
    UnmetStays(fields, st, bytes, Home(fields, p));
    DefaultsAreFresh(fields, slots);
    var f, slot := fields[p], SlotAt(Decoded(fields, slots, bytes).value, Home(fields, p));
    if (f.htype.Required? || f.htype.Optional?) && !f.ltype.Submessage? {
      FreshIs(f, slot);
    }
  }

  /** A submessage that comes again is merged: what its bytes do not have stays as it was. */
  lemma MessagesMerge(f: Field, m: Message, bytes: seq<Byte>, q: nat)
    requires !f.htype.Repeated? && f.ltype.Submessage? && DecodedMessage(f, VMsg(m), bytes).Got? && q < |f.sub|
    requires var d := ReadVarint32(bytes);
             Untouched(f.sub, Met(f.sub, Progress(m, {}, None, 0), d.rest[..d.value]), Home(f.sub, q))
    ensures SlotAt(DecodedMessage(f, VMsg(m), bytes).value.slots, Home(f.sub, q)) == SlotAt(m, Home(f.sub, q))
  {
    var d := ReadVarint32(bytes);
    MessageWithin(f, VMsg(m), bytes, m);
    UnmetStays(f.sub, Progress(m, {}, None, 0), d.rest[..d.value], Home(f.sub, q));
  }

  /** Of a single value that comes twice, the last counts. */
  lemma LastCounts(f: Field, slot: Slot, n: nat, wire: nat, x: seq<Byte>, wire': nat, y: seq<Byte>)
    requires !f.htype.Repeated? && !f.ltype.Submessage? && DecodedField(f, slot, n, wire, x).Got?
    ensures var first := DecodedField(f, slot, n, wire, x).value;
            DecodedField(f, first.0, first.1, wire', y) == DecodedField(f, slot, n, wire', y)
  {
    var first := DecodedField(f, slot, n, wire, x).value;
    SamePrior(f, ItemAt(first.0.items, 0), ItemAt(slot.items, 0), y);
    var r := DecodedValue(f, ItemAt(slot.items, 0), y);
    if r.Got? {
      assert PutItem(first.0.items, 0, r.value) == PutItem(slot.items, 0, r.value);
    }
  }

  lemma SamePrior(f: Field, a: Val, b: Val, bytes: seq<Byte>)
    requires !f.ltype.Submessage?
    ensures DecodedValue(f, a, bytes) == DecodedValue(f, b, bytes)
  {
  }

  // ---------- Zeros ----------

  /** The value that says nothing: 0, no bytes, or a text that begins with its terminator. */
  predicate SaysNothing(f: Field, v: Val) {
    match v
    case VNum(n) => n == 0
    case VBytes(bytes) =>
      if f.ltype.FixedLengthBytes? then f.dataSize == 0
      else bytes == [] || (!f.ltype.ByteArray? && bytes[0] == 0)
    case VMsg(_) => false
  }

  lemma TagIsThere(f: Field, v: Val)
    ensures Cat(FieldTag(f), EncodedValue(f, v)) != Some([])
  {
  }

  /** A single value without a has flag is written exactly when it says something. */
  lemma ZeroIsLeftOut(fields: seq<Field>, slots: Message, p: nat)
    requires p < |fields| && fields[p].htype.Optional? && fields[p].sizeOffset == 0 && !fields[p].ltype.Submessage?
    requires !ItemAt(SlotAt(slots, Home(fields, p)).items, 0).VMsg?
    ensures var f, v := fields[p], ItemAt(SlotAt(slots, Home(fields, p)).items, 0);
            EncodedField(fields, slots, p) ==
            if SaysNothing(f, v) then Some([]) else Cat(FieldTag(f), EncodedValue(f, v))
    ensures EncodedField(fields, slots, p) == Some([]) <==>
            SaysNothing(fields[p], ItemAt(SlotAt(slots, Home(fields, p)).items, 0))
  {
    TagIsThere(fields[p], ItemAt(SlotAt(slots, Home(fields, p)).items, 0));
  }

  // ---------- Packed or not ----------

  /** Array entries that come one by one, each with its tag, until the bytes are used up. */
  function Singles(f: Field, slot: Slot, count: nat, wire: nat, bytes: seq<Byte>): Read<(Slot, nat)>
    requires wire != 2
    decreases |bytes|
  {
    if bytes == [] then Got((slot, count), [])
    else
      var r := DecodedRepeated(f, slot, count, wire, bytes);
      if r.Fail? || |r.rest| >= |bytes| then Fail else Singles(f, r.value.0, r.value.1, wire, r.rest)
  }

  lemma EntryTakes(f: Field, prior: Val, bytes: seq<Byte>)
    requires Packable(f.ltype) && DecodedValue(f, prior, bytes).Got?
    ensures |DecodedValue(f, prior, bytes).rest| < |bytes|
  {
  }

  lemma SingleIs(f: Field, slot: Slot, count: nat, wire: nat, bytes: seq<Byte>)
    requires wire != 2
    ensures DecodedRepeated(f, slot, count, wire, bytes) ==
            if count >= f.arraySize then Fail
            else
              var r := DecodedValue(f, ItemAt(slot.items, count), bytes);
              if r.Fail? then Fail else Got((slot.(items := PutItem(slot.items, count, r.value)), count + 1), r.rest)
  {
  }

  /**
   * An array of numbers decodes to the same whether its entries come packed, with
   * one length in front, or one by one; in either form too many are refused.
   */
  lemma {:induction false} PackedOrNot(f: Field, slot: Slot, count: nat, wire: nat, bytes: seq<Byte>)
    requires Packable(f.ltype) && wire != 2
    ensures var d := DecodedItems(f, slot, count, bytes);
            Singles(f, slot, count, wire, bytes) == if d.Got? && d.rest == [] then d else Fail
    decreases |bytes|
  {
    if bytes == [] {
    } else {
      SingleIs(f, slot, count, wire, bytes);
      if count < f.arraySize {
        var r := DecodedValue(f, ItemAt(slot.items, count), bytes);
        if r.Got? {
          EntryTakes(f, ItemAt(slot.items, count), bytes);
          PackedOrNot(f, slot.(items := PutItem(slot.items, count, r.value)), count + 1, wire, r.rest);
        }
      }
    }
  }
}
