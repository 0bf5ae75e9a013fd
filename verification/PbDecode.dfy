/** The decoder: what bytes decode to, and the stream operations that decode them. */
module PbDecode {
  import opened Bytes
  import opened Wrappers
  import opened Streams
  import opened Varint
  import opened Descriptor
  import opened PbEncode
  import opened FieldIter

  const MAX_REQUIRED_FIELDS: nat := 64

  // ---------- Skipping ----------

  function SkipVarint(bytes: seq<Byte>): (r: Read<()>)
    ensures r.Got? ==> |r.rest| < |bytes|
  {
    if bytes == [] then Fail else if bytes[0] < 128 then Got((), bytes[1..]) else SkipVarint(bytes[1..])
  }

  function SkipBytes(bytes: seq<Byte>, n: nat): (r: Read<()>)
    ensures r.Got? ==> |r.rest| <= |bytes|
  {
    if |bytes| < n then Fail else Got((), bytes[n..])
  }

  function Skipped(wire: nat, bytes: seq<Byte>): (r: Read<()>)
    ensures r.Got? ==> |r.rest| <= |bytes|
  {
    if wire == WIRE_VARINT then SkipVarint(bytes)
    else if wire == WIRE_64BIT then SkipBytes(bytes, 8)
    else if wire == WIRE_STRING then
      var r := ReadVarint32(bytes);
      if r.Fail? then Fail else SkipBytes(r.rest, r.value)
    else if wire == WIRE_32BIT then SkipBytes(bytes, 4)
    else Fail
  }

  // ---------- Values ----------

  function Signed32(v: Word32): int {
    if v >= 0x8000_0000 then v - TWO_32 else v
  }

  /** The number of values of an integer of `size` bytes. */
  function Range(size: nat): nat {
    if size == 1 then 0x100 else if size == 2 then 0x1_0000 else if size == 4 then TWO_32 else TWO_64
  }

  predicate FitsSigned(n: int, size: nat) {
    var half: int := Range(size) / 2;
    -half <= n < half
  }

  function ZeroValue(f: Field): Val {
    match f.ltype
    case ByteArray => VBytes([])
    case String => VBytes([])
    case FixedLengthBytes => VBytes(Zeros(f.dataSize))
    case Submessage => VMsg([])
    case _ => VNum(0)
  }

  function SubOf(v: Val): Message {
    if v.VMsg? then v.slots else []
  }

  function PutItem(items: seq<Val>, i: nat, v: Val): (r: seq<Val>)
    ensures i < |r| && r[i] == v && forall j :: 0 <= j < i ==> r[j] == ItemAt(items, j)
  {
    if i < |items| then items[i := v] else items + seq(i - |items|, _ => VNum(0)) + [v]
  }

  function PutSlot(slots: Message, i: nat, s: Slot): (r: Message)
    ensures |r| == (if i < |slots| then |slots| else i + 1) && r[i] == s
    ensures forall j :: 0 <= j < |slots| && j != i ==> r[j] == slots[j]
  {
    if i < |slots| then slots[i := s] else slots + seq(i - |slots|, _ => Slot(0, [])) + [s]
  }

  // ---------- Defaults ----------

  /** A field's slot after initialization; array and union contents stay as they are. */
  function DefaultSlot(f: Field, slot: Slot): Slot
    decreases f, 1, 0
  {
    if f.htype.Repeated? || f.htype.OneOf? then slot.(size := 0)
    else
      var v := match f.ltype
        case Submessage => VMsg(Defaults(f.sub, SubOf(ItemAt(slot.items, 0)), 0))
        case _ => if f.default.Some? then f.default.value else ZeroValue(f);
      Slot(if f.htype.Optional? && f.sizeOffset != 0 then 0 else slot.size, PutItem(slot.items, 0, v))
  }

  /** The struct after initialization of the fields from `p` on. */
  function Defaults(fields: seq<Field>, slots: Message, p: nat): Message
    requires p <= |fields|
    decreases fields, 2, |fields| - p
  {
    if p == |fields| then slots
    else
      var home := Home(fields, p);
      Defaults(fields, PutSlot(slots, home, DefaultSlot(fields[p], SlotAt(slots, home))), p + 1)
  }

  // ---------- Fields ----------

  /** How far a message has been decoded; `seen` has the indexes of required fields met. */
  datatype Progress = Progress(slots: Message, seen: set<nat>, fixedField: Option<nat>, fixedSize: nat)

  function FieldAt(fields: seq<Field>, tag: nat, p: nat): (r: Option<nat>)
    requires p <= |fields|
    ensures r.Some? ==> p <= r.value < |fields| && Matches(fields[r.value], tag)
    ensures r.None? ==> forall q :: p <= q < |fields| ==> !Matches(fields[q], tag)
    decreases |fields| - p
  {
    if p == |fields| then None else if Matches(fields[p], tag) then Some(p) else FieldAt(fields, tag, p + 1)
  }

  /** A boolean or an integer, checked to fit its place. */
  function DecodedNumber(f: Field, bytes: seq<Byte>): (r: Read<Val>)
    ensures r.Got? ==> |r.rest| <= |bytes|
  {
    if f.ltype.Bool? then
      var d := ReadVarint32(bytes);
      if d.Fail? then Fail else Got(VNum(if d.value != 0 then 1 else 0), d.rest)
    else
      var d := ReadVarint(bytes);
      if d.Fail? || !IntSize(f.dataSize) then Fail
      else if f.ltype.UVarint? then
        if d.value < Range(f.dataSize) then Got(VNum(d.value), d.rest) else Fail
      else
        var n := SignedNumber(f, d.value);
        if FitsSigned(n, f.dataSize) then Got(VNum(n), d.rest) else Fail
  }

  /** A varint as a signed number: zigzag, or two's complement in 64 or 32 bits. */
  function SignedNumber(f: Field, v: nat): int {
    if f.ltype.SVarint? then UnZigZag(v % TWO_64)
    else if f.dataSize == 8 then Signed64(v % TWO_64)
    else Signed32(v % TWO_32)
  }

  /** Bytes or characters with their length in front. */
  function DecodedBytes(f: Field, bytes: seq<Byte>): (r: Read<Val>)
    ensures r.Got? ==> |r.rest| <= |bytes|
  {
    var d := ReadVarint32(bytes);
    if d.Fail? then Fail
    else if f.ltype.ByteArray? && d.value + BYTES_HEADER > f.dataSize then Fail
    else if f.ltype.String? && (d.value + 1 > f.dataSize || d.value == 0xFFFF_FFFF) then Fail
    else if f.ltype.FixedLengthBytes? && d.value == 0 then Got(VBytes(Zeros(f.dataSize)), d.rest)
    else if f.ltype.FixedLengthBytes? && d.value != f.dataSize then Fail
    else if d.value > |d.rest| then Fail
    else Got(VBytes(d.rest[..d.value]), d.rest[d.value..])
  }

  /** A submessage with its length in front; a new array entry is initialized first. */
  function DecodedMessage(f: Field, prior: Val, bytes: seq<Byte>): (r: Read<Val>)
    ensures r.Got? ==> |r.rest| <= |bytes|
    decreases f, 0, 0
  {
    var d := ReadVarint32(bytes);
    if d.Fail? || d.value > |d.rest| then Fail
    else
      var m := if f.htype.Repeated? then Defaults(f.sub, SubOf(prior), 0) else SubOf(prior);
      var inner := DecodedNoInit(f.sub, m, d.rest[..d.value]);
      if inner.Fail? then Fail else Got(VMsg(inner.value), d.rest[d.value..])
  }

  function DecodedFixed(width: nat, bytes: seq<Byte>): (r: Read<Val>)
    ensures r.Got? ==> |r.rest| <= |bytes|
  {
    var d := ReadFixed(bytes, width);
    if d.Fail? then Fail else Got(VNum(d.value), d.rest)
  }

  /** A value of field `f`; `prior` is what its place holds before. */
  function DecodedValue(f: Field, prior: Val, bytes: seq<Byte>): (r: Read<Val>)
    ensures r.Got? ==> |r.rest| <= |bytes|
    decreases f, 0, 1
  {
    match f.ltype
    case Fixed32 => DecodedFixed(4, bytes)
    case Fixed64 => DecodedFixed(8, bytes)
    case ByteArray => DecodedBytes(f, bytes)
    case String => DecodedBytes(f, bytes)
    case FixedLengthBytes => DecodedBytes(f, bytes)
    case Submessage => DecodedMessage(f, prior, bytes)
    case Extension => Fail
    case _ => DecodedNumber(f, bytes)
  }

  /** Packed array entries, put from `count` on until the bytes are used up or the array is full. */
  function DecodedItems(f: Field, slot: Slot, count: nat, bytes: seq<Byte>): (r: Read<(Slot, nat)>)
    ensures r.Got? ==> |r.rest| <= |bytes|
    decreases f, 1, f.arraySize - count
  {
    if bytes == [] || count >= f.arraySize then Got((slot, count), bytes)
    else
      var r := DecodedValue(f, ItemAt(slot.items, count), bytes);
      if r.Fail? then Fail
      else DecodedItems(f, slot.(items := PutItem(slot.items, count, r.value)), count + 1, r.rest)
  }

  /** A repeated field's slot and count after one more tag. */
  function DecodedRepeated(f: Field, slot: Slot, count: nat, wire: nat, bytes: seq<Byte>): (r: Read<(Slot, nat)>)
    ensures r.Got? ==> |r.rest| <= |bytes|
    decreases f, 2, 0
  {
    if wire == WIRE_STRING && Packable(f.ltype) then
      var r := ReadVarint32(bytes);
      if r.Fail? || r.value > |r.rest| then Fail
      else
        var d := DecodedItems(f, slot, count, r.rest[..r.value]);
        if d.Fail? || d.rest != [] then Fail else Got(d.value, r.rest[r.value..])
    else if count >= f.arraySize then Fail
    else
      var r := DecodedValue(f, ItemAt(slot.items, count), bytes);
      if r.Fail? then Fail else Got((slot.(items := PutItem(slot.items, count, r.value)), count + 1), r.rest)
  }

  /** The value a union member is decoded over. */
  function FreshMember(f: Field, prior: Val): Val {
    if f.ltype.Submessage? then VMsg(Defaults(f.sub, [], 0)) else prior
  }

  /** A field's slot, and the count of a repeated field without one of its own. */
  function DecodedField(f: Field, slot: Slot, fixedSize: nat, wire: nat, bytes: seq<Byte>): (r: Read<(Slot, nat)>)
    ensures r.Got? ==> |r.rest| <= |bytes|
    decreases f, 3, 0
  {
    match f.htype
    case Required =>
      var r := DecodedValue(f, ItemAt(slot.items, 0), bytes);
      if r.Fail? then Fail else Got((slot.(items := PutItem(slot.items, 0, r.value)), fixedSize), r.rest)
    case Optional =>
      var r := DecodedValue(f, ItemAt(slot.items, 0), bytes);
      if r.Fail? then Fail
      else Got((Slot(if f.sizeOffset != 0 then 1 else slot.size, PutItem(slot.items, 0, r.value)), fixedSize), r.rest)
    case Repeated =>
      if f.sizeOffset == 0 then DecodedRepeated(f, slot, fixedSize, wire, bytes)
      else
        var r := DecodedRepeated(f, slot, slot.size, wire, bytes);
        if r.Fail? then Fail else Got((r.value.0.(size := r.value.1), fixedSize), r.rest)
    case OneOf =>
      var r := DecodedValue(f, FreshMember(f, ItemAt(slot.items, 0)), bytes);
      if r.Fail? then Fail else Got((Slot(f.tag, PutItem(slot.items, 0, r.value)), fixedSize), r.rest)
  }

  /** The last repeated field without a count has got all its entries. */
  predicate FixedDone(fields: seq<Field>, st: Progress) {
    st.fixedField.Some? && st.fixedField.value < |fields| ==> st.fixedSize == fields[st.fixedField.value].arraySize
  }

  /** Meeting field `p`: it is marked as seen, and a new repeated field without a count starts at 0. */
  function Meet(fields: seq<Field>, st: Progress, p: nat): (r: Option<Progress>)
    requires p < |fields|
    ensures r.Some? ==> r.value.slots == st.slots
  {
    var seen := if fields[p].htype.Required? && RequiredBefore(fields, p) < MAX_REQUIRED_FIELDS
                then st.seen + {RequiredBefore(fields, p)} else st.seen;
    if FixedCount(fields[p]) && st.fixedField != Some(p) then
      if FixedDone(fields, st) then Some(Progress(st.slots, seen, Some(p), 0)) else None
    else Some(st.(seen := seen))
  }

  /** One tag of a known field. */
  function DecodedOne(fields: seq<Field>, st: Progress, p: nat, wire: nat, bytes: seq<Byte>): (r: Read<Progress>)
    requires p < |fields|
    ensures r.Got? ==> |r.rest| <= |bytes|
    decreases fields, 0, 0
  {
    var met := Meet(fields, st, p);
    if met.None? then Fail
    else
      var home := Home(fields, p);
      var r := DecodedField(fields[p], SlotAt(st.slots, home), met.value.fixedSize, wire, bytes);
      if r.Fail? then Fail
      else Got(met.value.(slots := PutSlot(st.slots, home, r.value.0), fixedSize := r.value.1), r.rest)
  }

  /** What follows a tag: a known field, or one to skip. */
  function DecodedTagged(fields: seq<Field>, st: Progress, tag: nat, wire: nat, bytes: seq<Byte>): (r: Read<Progress>)
    ensures r.Got? ==> |r.rest| <= |bytes|
    decreases fields, 1, 0
  {
    var p := FieldAt(fields, tag, 0);
    if p.Some? then DecodedOne(fields, st, p.value, wire, bytes)
    else if fields == [] && tag == 0 then
      // The terminator of an empty message is taken for a field
      var r := ReadVarint32(bytes);
      if r.Fail? then Fail else Got(st, r.rest)
    else
      var r := Skipped(wire, bytes);
      if r.Fail? then Fail else Got(st, r.rest)
  }

  /** Fields until the bytes are used up or a zero tag is met. */
  function DecodedFrom(fields: seq<Field>, st: Progress, bytes: seq<Byte>): Read<Progress>
    decreases fields, 2, |bytes|
  {
    if bytes == [] then Got(st, bytes)
    else
      var t := ReadVarint32(bytes);
      if t.Fail? then Fail
      else if t.value == 0 then Got(st, t.rest)
      else
        var r := DecodedTagged(fields, st, t.value / 8, t.value % 8, t.rest);
        if r.Fail? then Fail
        else DecodedFrom(fields, r.value, r.rest)
  }

  /** The required fields that are tracked have all been seen. */
  predicate AllSeen(fields: seq<Field>, seen: set<nat>) {
    forall i :: 0 <= i < RequiredBefore(fields, |fields|) && i < MAX_REQUIRED_FIELDS ==> i in seen
  }

  function DecodedNoInit(fields: seq<Field>, slots: Message, bytes: seq<Byte>): Read<Message>
    decreases fields, 3, 0
  {
    var r := DecodedFrom(fields, Progress(slots, {}, None, 0), bytes);
    if r.Got? && FixedDone(fields, r.value) && AllSeen(fields, r.value.seen) then Got(r.value.slots, r.rest) else Fail
  }

  function Decoded(fields: seq<Field>, slots: Message, bytes: seq<Byte>): Read<Message> {
    DecodedNoInit(fields, Defaults(fields, slots, 0), bytes)
  }

  // ---------- Descriptors ----------

  /** Statically allocated fields without extensions, with distinct nonzero tags, at every level. */
  ghost predicate WellFormed(fields: seq<Field>)
    decreases fields
  {
    && (forall p :: 0 <= p < |fields| ==>
          && 0 < fields[p].tag && fields[p].atype.Static? && !fields[p].ltype.Extension?
          && WellFormed(fields[p].sub))
    && (forall p, q :: 0 <= p < q < |fields| ==> fields[p].tag != fields[q].tag)
  }

  /** With distinct tags it does not matter where a search starts. */
  lemma FoundIsFieldAt(fields: seq<Field>, from: nat, tag: nat, p: nat)
    requires WellFormed(fields) && FirstMatch(fields, from, tag, p)
    ensures FieldAt(fields, tag, 0) == Some(p)
  {
    var q := FieldAt(fields, tag, 0);
    assert q.Some?;
  }

  // ---------- Stream operations ----------

  /** The effect of a read on a stream. */
  ghost predicate Reads<T>(r: Read<T>, ok: bool, value: T, rest: seq<Byte>) {
    ok == r.Got? && (ok ==> value == r.value && rest == r.rest)
  }

  method SkipVarintBytes(stream: InStream) returns (ok: bool)
    requires stream.Valid()
    modifies stream
    ensures stream.Valid() && stream.End() == old(stream.End())
    ensures Reads(SkipVarint(old(stream.Rest())), ok, (), stream.Rest())
  {
    while true
      invariant stream.Valid() && stream.End() == old(stream.End())
      invariant SkipVarint(stream.Rest()) == SkipVarint(old(stream.Rest()))
      decreases stream.bytesLeft
    {
      var got, byte := stream.ReadByte();
      if !got {
        return false;
      }
      if byte < 128 { break; }
    }
    return true;
  }

  method SkipN(stream: InStream, n: nat) returns (ok: bool)
    requires stream.Valid()
    modifies stream
    ensures stream.Valid() && stream.End() == old(stream.End())
    ensures Reads(SkipBytes(old(stream.Rest()), n), ok, (), stream.Rest())
  {
    var skipped;
    ok, skipped := stream.ReadN(n);
  }

  method SkipField(stream: InStream, wire: nat) returns (ok: bool)
    requires stream.Valid()
    modifies stream
    ensures stream.Valid() && stream.End() == old(stream.End())
    ensures Reads(Skipped(wire, old(stream.Rest())), ok, (), stream.Rest())
  {
    if wire == WIRE_VARINT {
      ok := SkipVarintBytes(stream);
    } else if wire == WIRE_64BIT {
      ok := SkipN(stream, 8);
    } else if wire == WIRE_STRING {
      var length, eof;
      ok, length, eof := DecodeVarint32Eof(stream);
      if ok {
        ok := SkipN(stream, length);
      }
    } else if wire == WIRE_32BIT {
      ok := SkipN(stream, 4);
    } else {
      ok := false;
    }
  }

  /**
   * A stream limited to the bytes of the string that comes next.  The parent
   * gives up that many bytes, but moves past them only when the substream is closed.
   */
  method MakeStringSubstream(stream: InStream) returns (ok: bool, sub: InStream)
    requires stream.Valid()
    modifies stream
    ensures stream.Valid() && fresh(sub) && sub.buffer == stream.buffer
    ensures var r := ReadVarint32(old(stream.Rest()));
            && ok == (r.Got? && r.value <= |r.rest|)
            && (ok ==>
                  && sub.Valid() && sub.Rest() == r.rest[..r.value]
                  && sub.End() + stream.bytesLeft == old(stream.End())
                  && sub.End() + stream.bytesLeft <= |stream.buffer|
                  && stream.buffer[sub.End()..sub.End() + stream.bytesLeft] == r.rest[r.value..])
  {
    var size, eof;
    ok, size, eof := DecodeVarint32Eof(stream);
    if !ok || stream.bytesLeft < size {
      sub := new InStream.FromBuffer(stream.buffer);
      return false, sub;
    }
    ghost var rest := stream.Rest();
    sub := new InStream.Within(stream, size);
    stream.bytesLeft := stream.bytesLeft - size;
    assert stream.buffer[sub.End()..sub.End() + stream.bytesLeft] == rest[size..];
  }

  method CloseStringSubstream(stream: InStream, sub: InStream)
    requires sub.Valid() && stream != sub && sub.buffer == stream.buffer
    requires sub.End() + stream.bytesLeft <= |stream.buffer|
    modifies stream, sub
    ensures stream.Valid() && stream.state == old(sub.End()) && stream.bytesLeft == old(stream.bytesLeft)
    ensures stream.Rest() == stream.buffer[old(sub.End())..old(sub.End()) + stream.bytesLeft]
  {
    if sub.bytesLeft != 0 {
      var ok := SkipN(sub, sub.bytesLeft);
    }
    stream.state := sub.state;
  }

  method SetToDefaults(fields: seq<Field>, slots: Message) returns (r: Message)
    ensures r == Defaults(fields, slots, 0)
    decreases fields, 0
  {
    r := slots;
    var iter := new FieldIterator(fields, 0);
    var more := iter.Begin();
    if !more {
      return;
    }
    while true
      invariant iter.Valid() && iter.fields == fields && iter.pos < |fields|
      invariant Defaults(fields, r, iter.pos) == Defaults(fields, slots, 0)
      decreases |fields| - iter.pos
    {
      var home := Home(fields, iter.pos);
      var slot := FieldSetToDefault(fields[iter.pos], SlotAt(r, home));
      r := PutSlot(r, home, slot);
      more := iter.Next();
      if !more { break; }
    }
  }

  method FieldSetToDefault(f: Field, slot: Slot) returns (r: Slot)
    ensures r == DefaultSlot(f, slot)
    decreases f, 1
  {
    r := slot;
    var initData := true;
    if f.htype.Optional? && f.sizeOffset != 0 {
      r := r.(size := 0);
    } else if f.htype.Repeated? || f.htype.OneOf? {
      r := r.(size := 0);
      initData := false;
    }
    if initData {
      var v;
      if f.ltype.Submessage? {
        var m := SetToDefaults(f.sub, SubOf(ItemAt(slot.items, 0)));
        v := VMsg(m);
      } else if f.default.Some? {
        v := f.default.value;
      } else {
        v := ZeroValue(f);
      }
      r := r.(items := PutItem(r.items, 0, v));
    }
  }

  method DecodeNumber(stream: InStream, f: Field) returns (ok: bool, v: Val)
    requires stream.Valid() && (f.ltype.Bool? || f.ltype.Varint? || f.ltype.UVarint? || f.ltype.SVarint?)
    modifies stream
    ensures stream.Valid() && stream.End() == old(stream.End())
    ensures Reads(DecodedNumber(f, old(stream.Rest())), ok, v, stream.Rest())
  {
    v := VNum(0);
    var value;
    if f.ltype.Bool? {
      var eof;
      ok, value, eof := DecodeVarint32Eof(stream);
      return ok, VNum(if value != 0 then 1 else 0);
    }
    ok, value := DecodeVarint(stream);
    if !ok || !IntSize(f.dataSize) {
      return false, v;
    }
    if f.ltype.UVarint? {
      return value < Range(f.dataSize), VNum(value);
    }
    var n: int;
    if f.ltype.SVarint? {
      n := UnZigZag(value % TWO_64);
    } else if f.dataSize == 8 {
      n := Signed64(value % TWO_64);
    } else {
      n := Signed32(value % TWO_32);
    }
    return FitsSigned(n, f.dataSize), VNum(n);
  }

  method DecodeBytes(stream: InStream, f: Field) returns (ok: bool, v: Val)
    requires stream.Valid() && (f.ltype.ByteArray? || f.ltype.String? || f.ltype.FixedLengthBytes?)
    modifies stream
    ensures stream.Valid() && stream.End() == old(stream.End())
    ensures Reads(DecodedBytes(f, old(stream.Rest())), ok, v, stream.Rest())
  {
    v := VBytes([]);
    var size, eof;
    ok, size, eof := DecodeVarint32Eof(stream);
    if !ok {
      return;
    }
    if f.ltype.ByteArray? {
      if size + BYTES_HEADER > f.dataSize { return false, v; }
    } else if f.ltype.String? {
      // In 32 bits the room for the terminator may wrap round to nothing
      Varint32Below(old(stream.Rest()));
      var allocSize := (size + 1) % TWO_32;
      if allocSize < size || allocSize > f.dataSize { return false, v; }
    } else {
      if size == 0 { return true, VBytes(Zeros(f.dataSize)); }
      if size != f.dataSize { return false, v; }
    }
    var data;
    ok, data := stream.ReadN(size);
    v := VBytes(data);
  }

  method DecodeValue(stream: InStream, f: Field, prior: Val) returns (ok: bool, v: Val)
    requires stream.Valid() && WellFormed(f.sub)
    modifies stream
    ensures stream.Valid() && (ok ==> stream.End() == old(stream.End()))
    ensures Reads(DecodedValue(f, prior, old(stream.Rest())), ok, v, stream.Rest())
    decreases f, 0
  {
    match f.ltype
    case Fixed32 =>
      var n;
      ok, n := DecodeFixed(stream, 4);
      v := VNum(n);
    case Fixed64 =>
      var n;
      ok, n := DecodeFixed(stream, 8);
      v := VNum(n);
    case ByteArray => ok, v := DecodeBytes(stream, f);
    case String => ok, v := DecodeBytes(stream, f);
    case FixedLengthBytes => ok, v := DecodeBytes(stream, f);
    case Submessage => ok, v := DecodeSubmessage(stream, f, prior);
    case Extension => ok, v := false, prior;
    case _ => ok, v := DecodeNumber(stream, f);
  }

  /** A submessage that is announced and there is decoded from its bytes alone. */
  lemma MessageWithin(f: Field, prior: Val, bytes: seq<Byte>, m: Message)
    requires var d := ReadVarint32(bytes); d.Got? && d.value <= |d.rest|
    requires m == if f.htype.Repeated? then Defaults(f.sub, SubOf(prior), 0) else SubOf(prior)
    ensures var d := ReadVarint32(bytes);
            var inner := DecodedNoInit(f.sub, m, d.rest[..d.value]);
            DecodedMessage(f, prior, bytes) == if inner.Fail? then Fail else Got(VMsg(inner.value), d.rest[d.value..])
  {
  }

  method DecodeSubmessage(stream: InStream, f: Field, prior: Val) returns (ok: bool, v: Val)
    requires stream.Valid() && WellFormed(f.sub)
    modifies stream
    ensures stream.Valid() && (ok ==> stream.End() == old(stream.End()))
    ensures Reads(DecodedMessage(f, prior, old(stream.Rest())), ok, v, stream.Rest())
    decreases f, 0, 0
  {
    v := prior;
    var sub;
    ok, sub := MakeStringSubstream(stream);
    if !ok {
      return;
    }
    var m := SubOf(prior);
    if f.htype.Repeated? {
      m := SetToDefaults(f.sub, m);
    }
    MessageWithin(f, prior, old(stream.Rest()), m);
    ok, m := DecodeNoInit(sub, f.sub, m);
    if !ok {
      return;
    }
    CloseStringSubstream(stream, sub);
    v := VMsg(m);
  }

  method DecodePacked(stream: InStream, f: Field, slot: Slot, count: nat) returns (ok: bool, slot': Slot, count': nat)
    requires stream.Valid() && WellFormed(f.sub)
    modifies stream
    ensures stream.Valid() && (ok ==> stream.End() == old(stream.End()))
    ensures Reads(DecodedItems(f, slot, count, old(stream.Rest())), ok, (slot', count'), stream.Rest())
    decreases f, 1
  {
    slot', count' := slot, count;
    while stream.bytesLeft > 0 && count' < f.arraySize
      invariant stream.Valid() && stream.End() == old(stream.End())
      invariant DecodedItems(f, slot', count', stream.Rest()) == DecodedItems(f, slot, count, old(stream.Rest()))
      decreases f.arraySize - count'
    {
      var v;
      ok, v := DecodeValue(stream, f, ItemAt(slot'.items, count'));
      if !ok {
        return;
      }
      slot' := slot'.(items := PutItem(slot'.items, count', v));
      count' := count' + 1;
    }
    ok := true;
  }

  method DecodeRepeated(stream: InStream, f: Field, slot: Slot, count: nat, wire: nat)
    returns (ok: bool, slot': Slot, count': nat)
    requires stream.Valid() && WellFormed(f.sub)
    modifies stream
    ensures stream.Valid() && (ok ==> stream.End() == old(stream.End()))
    ensures Reads(DecodedRepeated(f, slot, count, wire, old(stream.Rest())), ok, (slot', count'), stream.Rest())
    decreases f, 2
  {
    slot', count' := slot, count;
    if wire == WIRE_STRING && Packable(f.ltype) {
      var sub;
      ok, sub := MakeStringSubstream(stream);
      if !ok {
        return;
      }
      ghost var end := sub.End();
      ghost var after := stream.buffer[end..end + stream.bytesLeft];
      ok, slot', count' := DecodePacked(sub, f, slot, count);
      if !ok || sub.bytesLeft != 0 {
        ok := false;
        return;
      }
      CloseStringSubstream(stream, sub);
      assert stream.Rest() == after;
    } else {
      if count >= f.arraySize {
        return false, slot', count';
      }
      var v;
      ok, v := DecodeValue(stream, f, ItemAt(slot.items, count));
      slot', count' := slot.(items := PutItem(slot.items, count, v)), count + 1;
    }
  }

  method DecodeStaticField(stream: InStream, f: Field, slot: Slot, fixedSize: nat, wire: nat)
    returns (ok: bool, slot': Slot, fixedSize': nat)
    requires stream.Valid() && WellFormed(f.sub)
    modifies stream
    ensures stream.Valid() && (ok ==> stream.End() == old(stream.End()))
    ensures Reads(DecodedField(f, slot, fixedSize, wire, old(stream.Rest())), ok, (slot', fixedSize'), stream.Rest())
    decreases f, 3
  {
    slot', fixedSize' := slot, fixedSize;
    var v;
    match f.htype
    case Required =>
      ok, v := DecodeValue(stream, f, ItemAt(slot.items, 0));
      slot' := slot.(items := PutItem(slot.items, 0, v));
    case Optional =>
      if f.sizeOffset != 0 {
        slot' := slot'.(size := 1);
      }
      ok, v := DecodeValue(stream, f, ItemAt(slot.items, 0));
      slot' := slot'.(items := PutItem(slot.items, 0, v));
    case Repeated =>
      if f.sizeOffset == 0 {
        ok, slot', fixedSize' := DecodeRepeated(stream, f, slot, fixedSize, wire);
      } else {
        var count;
        ok, slot', count := DecodeRepeated(stream, f, slot, slot.size, wire);
        slot' := slot'.(size := count);
      }
    case OneOf =>
      var place := ItemAt(slot.items, 0);
      if f.ltype.Submessage? {
        var m := SetToDefaults(f.sub, []);
        place := VMsg(m);
      }
      ok, v := DecodeValue(stream, f, place);
      slot' := Slot(f.tag, PutItem(slot.items, 0, v));
  }

  // ---------- The bitmap of required fields ----------

  /** 32 bits, lowest first. */
  type Word = w: seq<bool> | |w| == 32 witness seq(32, _ => false)

  const NO_BITS: Word := seq(32, _ => false)

  /** The lowest `k` bits. */
  function LowBits(k: nat): Word {
    seq(32, i => i < k)
  }

  function Bit(words: seq<Word>, i: nat): bool
    requires i / 32 < |words|
  {
    words[i / 32][i % 32]
  }

  function SetBit(words: seq<Word>, i: nat): seq<Word>
    requires i / 32 < |words|
  {
    words[i / 32 := words[i / 32][i % 32 := true]]
  }

  /** The words hold exactly the indexes in `seen`, all of them below `total`. */
  ghost predicate Tracks(words: seq<Word>, seen: set<nat>, total: nat) {
    && |words| == 2
    && (forall i {:trigger Bit(words, i)} :: 0 <= i < 64 ==> (Bit(words, i) <==> i in seen))
    && (forall i :: i in seen ==> i < total && i < 64)
  }

  lemma SetBitTracks(words: seq<Word>, seen: set<nat>, total: nat, i: nat)
    requires Tracks(words, seen, total) && i < 64 && i < total
    ensures Tracks(SetBit(words, i), seen + {i}, total)
  {
    forall j | 0 <= j < 64 ensures Bit(SetBit(words, i), j) <==> Bit(words, j) || j == i {
      assert j / 32 == i / 32 && j % 32 == i % 32 ==> j == i;
    }
  }

  lemma {:induction false} RequiredGrows(fields: seq<Field>, p: nat, q: nat)
    requires p <= q <= |fields|
    ensures RequiredBefore(fields, p) <= RequiredBefore(fields, q)
    decreases q
  {
    if p == q {
    } else {
      RequiredGrows(fields, p, q - 1);
    }
  }

  /** A word has all its bits if and only if each index it stands for has been seen. */
  lemma WholeWord(words: seq<Word>, seen: set<nat>, total: nat, w: nat)
    requires Tracks(words, seen, total) && w < 2
    ensures words[w] == LowBits(32) <==> forall i :: 32 * w <= i < 32 * w + 32 ==> i in seen
  {
    forall j | 0 <= j < 32 ensures words[w][j] <==> 32 * w + j in seen {
      assert Bit(words, 32 * w + j) == words[w][j];
    }
    if forall i :: 32 * w <= i < 32 * w + 32 ==> i in seen {
      forall j | 0 <= j < 32 ensures words[w][j] {
        assert 32 * w + j in seen;
      }
      assert words[w] == LowBits(32);
    }
    if words[w] == LowBits(32) {
      forall i | 32 * w <= i < 32 * w + 32 ensures i in seen {
        assert words[w][i - 32 * w];
      }
    }
  }

  /** In the last word just the bits below the total must be set, and no others can be. */
  lemma PartWord(words: seq<Word>, seen: set<nat>, total: nat, w: nat, k: nat)
    requires Tracks(words, seen, total) && w < 2 && k < 32 && total == 32 * w + k
    ensures words[w] == LowBits(k) <==> forall i :: 32 * w <= i < total ==> i in seen
  {
    forall j | 0 <= j < 32 ensures words[w][j] <==> 32 * w + j in seen {
      assert Bit(words, 32 * w + j) == words[w][j];
    }
    if forall i :: 32 * w <= i < total ==> i in seen {
      forall j | 0 <= j < 32 ensures words[w][j] == (j < k) {
        if j < k { assert 32 * w + j in seen; }
      }
      assert words[w] == LowBits(k);
    }
    if words[w] == LowBits(k) {
      forall i | 32 * w <= i < total ensures i in seen {
        assert words[w][i - 32 * w];
      }
    }
  }

  /** The number of required fields, found by running the iterator to the end. */
  method CountRequired(iter: FieldIterator) returns (count: nat)
    requires iter.Valid()
    modifies iter
    ensures count == RequiredBefore(iter.fields, |iter.fields|)
  {
    var last;
    if iter.fields == [] {
      return 0;
    }
    while true
      invariant iter.Valid() && iter.fields != []
      decreases |iter.fields| - iter.pos
    {
      count := iter.requiredIndex;
      last := iter.fields[iter.pos];
      ghost var p := iter.pos;
      var more := iter.Next();
      if !more {
        assert p == |iter.fields| - 1;
        break;
      }
    }
    if last.htype.Required? {
      count := count + 1;
    }
  }

  /** Whether all tracked required fields have been seen, from the bitmap. */
  method CheckRequired(iter: FieldIterator, words: seq<Word>, ghost seen: set<nat>) returns (ok: bool)
    requires iter.Valid() && Tracks(words, seen, RequiredBefore(iter.fields, |iter.fields|))
    modifies iter
    ensures ok == AllSeen(iter.fields, seen)
  {
    var count := CountRequired(iter);
    ghost var total := count;
    if count > MAX_REQUIRED_FIELDS {
      count := MAX_REQUIRED_FIELDS;
    }
    assert AllSeen(iter.fields, seen) <==> forall i :: 0 <= i < count ==> i in seen;
    var i := 0;
    while i < count / 32
      invariant 0 <= i <= count / 32
      invariant forall j :: 0 <= j < 32 * i ==> j in seen
    {
      WholeWord(words, seen, total, i);
      if words[i] != LowBits(32) {
        return false;
      }
      i := i + 1;
    }
    if count % 32 != 0 {
      PartWord(words, seen, total, count / 32, count % 32);
      if words[count / 32] != LowBits(count % 32) {
        return false;
      }
    }
    ok := true;
  }

  // ---------- Messages ----------

  /** A tag, or the end of a message that a zero marks. */
  method DecodeTag(stream: InStream) returns (ok: bool, eof: bool, wire: nat, tag: nat)
    requires stream.Valid()
    modifies stream
    ensures stream.Valid() && stream.End() == old(stream.End())
    ensures var r := ReadVarint32(old(stream.Rest()));
            && ok == (r.Got? && r.value != 0)
            && (ok ==> tag == r.value / 8 && wire == r.value % 8)
            && (!ok && old(stream.Rest()) != [] ==> eof == r.Got?)
            && (r.Got? ==> stream.Rest() == r.rest)
  {
    wire, tag := 0, 0;
    var value;
    ok, value, eof := DecodeVarint32Eof(stream);
    if !ok {
      return;
    }
    if value == 0 {
      return false, true, wire, tag;
    }
    tag, wire := value / 8, value % 8;
  }

  /**
   * Marks a known field as met.  The iterator's size pointer is turned to the
   * counter outside the struct when the field has none of its own.
   */
  method MeetField(iter: FieldIterator, words: seq<Word>, fixedField: Option<nat>, fixedSize: nat, ghost st: Progress)
    returns (ok: bool, words': seq<Word>, fixedField': Option<nat>, fixedSize': nat)
    requires iter.Valid() && iter.fields != []
    requires Tracks(words, st.seen, RequiredBefore(iter.fields, |iter.fields|))
    requires st.fixedField == fixedField && st.fixedSize == fixedSize
    requires iter.pSize == None ==> fixedField == Some(iter.pos)
    requires fixedField.Some? ==> fixedField.value < |iter.fields|
    modifies iter`pSize
    ensures iter.Valid() && (iter.pSize == None ==> fixedField' == Some(iter.pos))
    ensures fixedField'.Some? ==> fixedField'.value < |iter.fields|
    ensures var m := Meet(iter.fields, st, iter.pos);
            && ok == m.Some?
            && (ok ==> m.value.fixedField == fixedField' && m.value.fixedSize == fixedSize'
                       && Tracks(words', m.value.seen, RequiredBefore(iter.fields, |iter.fields|)))
  {
    words', fixedField', fixedSize' := words, fixedField, fixedSize;
    var f := iter.fields[iter.pos];
    if f.htype.Repeated? && iter.pSize == Some(iter.pData) {
      if fixedField != Some(iter.pos) {
        if fixedField.Some? && fixedSize != iter.fields[fixedField.value].arraySize {
          return false, words', fixedField', fixedSize';
        }
        fixedField', fixedSize' := Some(iter.pos), 0;
      }
      iter.pSize := None;
    }
    if f.htype.Required? && iter.requiredIndex < MAX_REQUIRED_FIELDS {
      RequiredGrows(iter.fields, iter.pos + 1, |iter.fields|);
      SetBitTracks(words, st.seen, RequiredBefore(iter.fields, |iter.fields|), iter.requiredIndex);
      words' := SetBit(words, iter.requiredIndex);
    }
    ok := true;
  }

  /** The decoder's variables stand for `st`. */
  ghost predicate Holds(iter: FieldIterator, slots: Message, words: seq<Word>, fixedField: Option<nat>,
                        fixedSize: nat, st: Progress)
    reads iter
  {
    && iter.Valid()
    && st == Progress(slots, st.seen, fixedField, fixedSize)
    && Tracks(words, st.seen, RequiredBefore(iter.fields, |iter.fields|))
    && (fixedField.Some? ==> fixedField.value < |iter.fields|)
    && (iter.fields != [] && iter.pSize == None ==> fixedField == Some(iter.pos))
  }

  /** Decodes the field that the iterator has found. */
  method DecodeKnown(stream: InStream, iter: FieldIterator, slots: Message, words: seq<Word>,
                     fixedField: Option<nat>, fixedSize: nat, wire: nat, ghost st: Progress)
    returns (ok: bool, slots': Message, words': seq<Word>, fixedField': Option<nat>, fixedSize': nat,
             ghost st': Progress)
    requires stream.Valid() && iter.fields != [] && WellFormed(iter.fields)
    requires Holds(iter, slots, words, fixedField, fixedSize, st)
    modifies stream, iter`pSize
    ensures stream.Valid() && (ok ==> stream.End() == old(stream.End()))
    ensures Reads(DecodedOne(iter.fields, st, iter.pos, wire, old(stream.Rest())), ok, st', stream.Rest())
    ensures ok ==> Holds(iter, slots', words', fixedField', fixedSize', st')
    decreases iter.fields, 0, 0
  {
    slots', st' := slots, st;
    ok, words', fixedField', fixedSize' := MeetField(iter, words, fixedField, fixedSize, st);
    if !ok {
      return;
    }
    var home, slot := Home(iter.fields, iter.pos), Slot(0, []);
    ok, slot, fixedSize' := DecodeStaticField(stream, iter.fields[iter.pos], SlotAt(slots, home), fixedSize', wire);
    if !ok {
      return;
    }
    slots' := PutSlot(slots, home, slot);
    st' := Meet(iter.fields, st, iter.pos).value.(slots := slots', fixedSize := fixedSize');
  }

  /** Decodes or skips what follows a tag. */
  method DecodeTagged(stream: InStream, iter: FieldIterator, slots: Message, words: seq<Word>,
                      fixedField: Option<nat>, fixedSize: nat, tag: nat, wire: nat, ghost st: Progress)
    returns (ok: bool, slots': Message, words': seq<Word>, fixedField': Option<nat>, fixedSize': nat,
             ghost st': Progress)
    requires stream.Valid() && WellFormed(iter.fields)
    requires Holds(iter, slots, words, fixedField, fixedSize, st)
    modifies stream, iter
    ensures stream.Valid() && (ok ==> stream.End() == old(stream.End()))
    ensures Reads(DecodedTagged(iter.fields, st, tag, wire, old(stream.Rest())), ok, st', stream.Rest())
    ensures ok ==> Holds(iter, slots', words', fixedField', fixedSize', st')
    decreases iter.fields, 0, 1
  {
    slots', words', fixedField', fixedSize', st' := slots, words, fixedField, fixedSize, st;
    ghost var from := iter.pos;
    var found := iter.Find(tag);
    if !found {
      assert FieldAt(iter.fields, tag, 0).None?;
      ok := SkipField(stream, wire);
    } else if iter.fields == [] {
      // The terminator of an empty message, taken for a boolean
      var ignored, eof;
      ok, ignored, eof := DecodeVarint32Eof(stream);
    } else {
      FoundIsFieldAt(iter.fields, from, tag, iter.pos);
      ok, slots', words', fixedField', fixedSize', st' :=
        DecodeKnown(stream, iter, slots, words, fixedField, fixedSize, wire, st);
    }
  }

  /** Decodes into a struct as it is. */
  method DecodeNoInit(stream: InStream, fields: seq<Field>, slots: Message) returns (ok: bool, slots': Message)
    requires stream.Valid() && WellFormed(fields)
    modifies stream
    ensures stream.Valid() && (ok ==> stream.End() == old(stream.End()))
    ensures Reads(DecodedNoInit(fields, slots, old(stream.Rest())), ok, slots', stream.Rest())
    decreases fields, 0, 2
  {
    slots' := slots;
    ghost var st := Progress(slots, {}, None, 0);
    var words: seq<Word> := [NO_BITS, NO_BITS];
    var fixedField: Option<nat>, fixedSize: nat := None, 0;
    var iter := new FieldIterator(fields, 0);
    var nonEmpty := iter.Begin();
    while stream.bytesLeft != 0
      invariant stream.Valid() && stream.End() == old(stream.End())
      invariant iter.fields == fields && Holds(iter, slots', words, fixedField, fixedSize, st)
      invariant DecodedFrom(fields, st, stream.Rest())
                  == DecodedFrom(fields, Progress(slots, {}, None, 0), old(stream.Rest()))
      decreases stream.bytesLeft
    {
      var eof, wire, tag;
      ok, eof, wire, tag := DecodeTag(stream);
      if !ok {
        if eof { break; }
        return;
      }
      ok, slots', words, fixedField, fixedSize, st :=
        DecodeTagged(stream, iter, slots', words, fixedField, fixedSize, tag, wire, st);
      if !ok {
        return;
      }
    }
    ok := CheckRequired(iter, words, st.seen);
    if fixedField.Some? && fixedSize != fields[fixedField.value].arraySize {
      ok := false;
    }
  }

  method Decode(stream: InStream, fields: seq<Field>, slots: Message) returns (ok: bool, slots': Message)
    requires stream.Valid() && WellFormed(fields)
    modifies stream
    ensures stream.Valid()
    ensures Reads(Decoded(fields, slots, old(stream.Rest())), ok, slots', stream.Rest())
  {
    slots' := SetToDefaults(fields, slots);
    ok, slots' := DecodeNoInit(stream, fields, slots');
  }
}
