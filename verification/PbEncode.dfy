/** The encoder: what a message struct is encoded as, and the stream operations that produce it. */
module PbEncode {
  import opened Bytes
  import opened Wrappers
  import opened Streams
  import opened Varint
  import opened Descriptor
  import FieldIter

  const WIRE_VARINT: nat := 0
  const WIRE_64BIT: nat := 1
  const WIRE_STRING: nat := 2
  const WIRE_32BIT: nat := 5

  // ---------- What is encoded ----------

  function SlotAt(slots: Message, home: nat): Slot {
    if home < |slots| then slots[home] else Slot(0, [])
  }

  function ItemAt(items: seq<Val>, i: nat): Val {
    if i < |items| then items[i] else VNum(0)
  }

  function NumOf(v: Val): int {
    if v.VNum? then v.n else 0
  }

  /** The sizes an integer in a struct can have. */
  predicate IntSize(size: nat) {
    size == 1 || size == 2 || size == 4 || size == 8
  }

  predicate FitsInt64(n: int) {
    -0x8000_0000_0000_0000 <= n < 0x8000_0000_0000_0000
  }

  /** A length, and then the bytes. */
  function Prefixed(bytes: seq<Byte>): seq<Byte> {
    VarintBytes(|bytes| % TWO_64) + bytes
  }

  function TagBytes(tag: nat, wire: nat): seq<Byte> {
    VarintBytes((tag * 8 + wire) % TWO_64)
  }

  function WireType(t: LType): Option<nat> {
    match t
    case Bool => Some(WIRE_VARINT)
    case Varint => Some(WIRE_VARINT)
    case UVarint => Some(WIRE_VARINT)
    case SVarint => Some(WIRE_VARINT)
    case Fixed32 => Some(WIRE_32BIT)
    case Fixed64 => Some(WIRE_64BIT)
    case Extension => None
    case _ => Some(WIRE_STRING)
  }

  function FieldTag(f: Field): Option<seq<Byte>> {
    if WireType(f.ltype).Some? then Some(TagBytes(f.tag, WireType(f.ltype).value)) else None
  }

  /** The length of a string in a buffer of `max` characters. */
  function Strlen(s: seq<Byte>, max: nat): (n: nat)
    ensures n <= |s| && n <= max
    ensures forall i :: 0 <= i < n ==> s[i] != 0
    ensures n == |s| || n == max || s[n] == 0
  {
    if s == [] || max == 0 || s[0] == 0 then 0 else 1 + Strlen(s[1..], max - 1)
  }

  function EncodedValue(f: Field, v: Val): Option<seq<Byte>>
    decreases f, 0, 0
  {
    match f.ltype
    case Bool => Some(VarintBytes(if NumOf(v) != 0 then 1 else 0))
    case Varint =>
      if IntSize(f.dataSize) && FitsInt64(NumOf(v)) then Some(VarintBytes(NumOf(v) % TWO_64)) else None
    case UVarint =>
      if IntSize(f.dataSize) && 0 <= NumOf(v) < TWO_64 then Some(VarintBytes(NumOf(v))) else None
    case SVarint =>
      if IntSize(f.dataSize) && FitsInt64(NumOf(v)) then Some(VarintBytes(ZigZag(NumOf(v)))) else None
    case Fixed32 => Some(FixedBytes(NumOf(v) % TWO_32, 4))
    case Fixed64 => Some(FixedBytes(NumOf(v) % TWO_64, 8))
    case ByteArray =>
      if v.VBytes? && |v.bytes| + BYTES_HEADER <= f.dataSize then Some(Prefixed(v.bytes)) else None
    case String =>
      if v.VBytes? then Some(Prefixed(v.bytes[..Strlen(v.bytes, f.dataSize)])) else None
    case Submessage =>
      if v.VMsg? && Encoded(f.sub, v.slots, 0).Some? then Some(Prefixed(Encoded(f.sub, v.slots, 0).value)) else None
    case FixedLengthBytes =>
      if v.VBytes? && |v.bytes| == f.dataSize then Some(Prefixed(v.bytes)) else None
    case Extension => None
  }

  /** Array entries `i` to `n`, each with its tag, or bare. */
  function EncodedItems(f: Field, items: seq<Val>, i: nat, n: nat, tagged: bool): Option<seq<Byte>>
    requires i <= n
    decreases f, 1, n - i
  {
    if i == n then Some([])
    else Cat(Cat(if tagged then FieldTag(f) else Some([]), EncodedValue(f, ItemAt(items, i))),
             EncodedItems(f, items, i + 1, n, tagged))
  }

  function EncodedArray(f: Field, items: seq<Val>, count: nat): Option<seq<Byte>>
    decreases f, 2, 0
  {
    if count == 0 then Some([])
    else if count > f.arraySize then None
    else if Packable(f.ltype) then
      var payload := EncodedItems(f, items, 0, count, false);
      if payload.Some? then Some(TagBytes(f.tag, WIRE_STRING) + Prefixed(payload.value)) else None
    else EncodedItems(f, items, 0, count, true)
  }

  /** Whether a field of a message without has flags has its zero value, and is then left out. */
  predicate IsDefault(fields: seq<Field>, slots: Message, p: nat)
    requires p < |fields|
    decreases fields, 0, 0
  {
    var f, slot := fields[p], SlotAt(slots, Home(fields, p));
    if f.htype.Required? then false
    else if f.htype.Repeated? then f.sizeOffset != 0 && slot.size == 0
    else if f.htype.OneOf? then slot.size == 0
    else if f.sizeOffset != 0 then slot.size == 0
    else
      match ItemAt(slot.items, 0)
      case VNum(n) => n == 0
      case VBytes(bytes) =>
        if f.ltype.ByteArray? then bytes == []
        else if f.ltype.FixedLengthBytes? then f.dataSize == 0
        else bytes == [] || bytes[0] == 0
      case VMsg(sub) => AllDefault(f.sub, sub, 0)
  }

  predicate AllDefault(fields: seq<Field>, slots: Message, p: nat)
    requires p <= |fields|
    decreases fields, 1, |fields| - p
  {
    p == |fields| || (IsDefault(fields, slots, p) && AllDefault(fields, slots, p + 1))
  }

  function EncodedField(fields: seq<Field>, slots: Message, p: nat): Option<seq<Byte>>
    requires p < |fields|
    decreases fields, 0, 2
  {
    var f, slot := fields[p], SlotAt(slots, Home(fields, p));
    var single := Cat(FieldTag(f), EncodedValue(f, ItemAt(slot.items, 0)));
    match f.htype
    case Required => single
    case Optional => if HasValue(fields, slots, p) then single else Some([])
    case Repeated => EncodedArray(f, slot.items, if f.sizeOffset != 0 then slot.size else f.arraySize)
    case OneOf => if slot.size == f.tag then single else Some([])
  }

  /** Whether an optional field is present, by its has flag or by not being zero. */
  predicate HasValue(fields: seq<Field>, slots: Message, p: nat)
    requires p < |fields|
    decreases fields, 0, 1
  {
    if fields[p].sizeOffset != 0 then SlotAt(slots, Home(fields, p)).size != 0 else !IsDefault(fields, slots, p)
  }

  /** The encoding of the fields from `p` on; nothing when one of them cannot be encoded. */
  function Encoded(fields: seq<Field>, slots: Message, p: nat): Option<seq<Byte>>
    requires p <= |fields|
    decreases fields, 1, |fields| - p
  {
    if p == |fields| then Some([])
    else Cat(EncodedField(fields, slots, p), Encoded(fields, slots, p + 1))
  }

  // ---------- Stream operations ----------

  method EncodeTag(stream: OutStream, wire: nat, tag: nat) returns (ok: bool)
    requires stream.Valid()
    modifies stream, stream.buffer
    ensures stream.Valid() && Emits(old(stream.View()), stream.View(), Some(TagBytes(tag, wire)), ok)
  {
    ok := EncodeVarint(stream, (tag * 8 + wire) % TWO_64);
  }

  method EncodeTagForField(stream: OutStream, f: Field) returns (ok: bool)
    requires stream.Valid()
    modifies stream, stream.buffer
    ensures stream.Valid() && Emits(old(stream.View()), stream.View(), FieldTag(f), ok)
  {
    var wire := 0;
    match f.ltype {
      case Bool => wire := WIRE_VARINT;
      case Varint => wire := WIRE_VARINT;
      case UVarint => wire := WIRE_VARINT;
      case SVarint => wire := WIRE_VARINT;
      case Fixed32 => wire := WIRE_32BIT;
      case Fixed64 => wire := WIRE_64BIT;
      case Extension => return false;
      case _ => wire := WIRE_STRING;
    }
    ok := EncodeTag(stream, wire, f.tag);
  }

  method EncodeString(stream: OutStream, bytes: seq<Byte>) returns (ok: bool)
    requires stream.Valid()
    modifies stream, stream.buffer
    ensures stream.Valid() && Emits(old(stream.View()), stream.View(), Some(Prefixed(bytes)), ok)
  {
    ghost var v0 := stream.View();
    var n: Word64 := |bytes| % TWO_64;
    ok := EncodeVarint(stream, n);
    ghost var v1 := stream.View();
    if !ok {
      EmitsFirstFails(v0, v1, v1, Some(VarintBytes(n)), Some(bytes));
      return;
    }
    ok := stream.Write(bytes);
    EmitsBoth(v0, v1, stream.View(), Some(VarintBytes(n)), Some(bytes), ok);
  }

  method EncodeSubmessage(stream: OutStream, fields: seq<Field>, slots: Message) returns (ok: bool)
    requires stream.Valid()
    modifies stream, stream.buffer
    ensures stream.Valid()
    ensures var e := Encoded(fields, slots, 0);
            Emits(old(stream.View()), stream.View(), if e.Some? then Some(Prefixed(e.value)) else None, ok)
    decreases fields, 2
  {
    ghost var e := Encoded(fields, slots, 0);
    ghost var v0 := stream.View();
    var substream := new OutStream.Sizing();
    ok := Encode(substream, fields, slots);
    if !ok {
      return;
    }
    var size := substream.bytesWritten;
    var n: Word64 := size % TWO_64;
    ok := EncodeVarint(stream, n);
    ghost var v1 := stream.View();
    if !ok {
      EmitsFirstFails(v0, v1, v1, Some(VarintBytes(n)), e);
      return;
    }
    if stream.sizing {
      stream.Count(size);
      EmitsBoth(v0, v1, stream.View(), Some(VarintBytes(n)), e, true);
      return;
    }
    if stream.bytesWritten + size > stream.maxSize {
      EmitsBoth(v0, v1, v1, Some(VarintBytes(n)), e, false);
      return false;
    }
    substream := new OutStream.Within(stream, size);
    ok := Encode(substream, fields, slots);
    stream.bytesWritten := stream.bytesWritten + substream.bytesWritten;
    stream.state := substream.state;
    if substream.bytesWritten != size {
      // The size cannot have changed
      assert false;
    }
    EmitsBoth(v0, v1, stream.View(), Some(VarintBytes(n)), e, ok);
  }

  method EncodeValue(stream: OutStream, f: Field, v: Val) returns (ok: bool)
    requires stream.Valid()
    modifies stream, stream.buffer
    ensures stream.Valid() && Emits(old(stream.View()), stream.View(), EncodedValue(f, v), ok)
    decreases f, 2
  {
    match f.ltype
    case Bool => ok := EncodeVarint(stream, if NumOf(v) != 0 then 1 else 0);
    case Varint => ok := EncodeInteger(stream, f, v);
    case UVarint => ok := EncodeInteger(stream, f, v);
    case SVarint => ok := EncodeInteger(stream, f, v);
    case Fixed32 => ok := EncodeFixed32(stream, NumOf(v) % TWO_32);
    case Fixed64 => ok := EncodeFixed64(stream, NumOf(v) % TWO_64);
    case ByteArray => ok := EncodeBytes(stream, f, v);
    case String => ok := EncodeText(stream, f, v);
    case Submessage =>
      if !v.VMsg? { return false; }
      ok := EncodeSubmessage(stream, f.sub, v.slots);
    case FixedLengthBytes => ok := EncodeBytes(stream, f, v);
    case Extension => return false;
  }

  /** Encodes a signed, unsigned or zigzag integer of any size that structs have. */
  method EncodeInteger(stream: OutStream, f: Field, v: Val) returns (ok: bool)
    requires stream.Valid() && (f.ltype.Varint? || f.ltype.UVarint? || f.ltype.SVarint?)
    modifies stream, stream.buffer
    ensures stream.Valid() && Emits(old(stream.View()), stream.View(), EncodedValue(f, v), ok)
  {
    if !IntSize(f.dataSize) { return false; }
    if f.ltype.UVarint? {
      if !(0 <= NumOf(v) < TWO_64) { return false; }
      ok := EncodeVarint(stream, NumOf(v));
    } else {
      if !FitsInt64(NumOf(v)) { return false; }
      if f.ltype.Varint? {
        ok := EncodeVarint(stream, NumOf(v) % TWO_64);
      } else {
        ok := EncodeSVarint(stream, NumOf(v));
      }
    }
  }

  /** Encodes bytes, of any length up to the capacity of their place or of exactly that length. */
  method EncodeBytes(stream: OutStream, f: Field, v: Val) returns (ok: bool)
    requires stream.Valid() && (f.ltype.ByteArray? || f.ltype.FixedLengthBytes?)
    modifies stream, stream.buffer
    ensures stream.Valid() && Emits(old(stream.View()), stream.View(), EncodedValue(f, v), ok)
  {
    if !v.VBytes? { return false; }
    if if f.ltype.ByteArray? then |v.bytes| + BYTES_HEADER > f.dataSize else |v.bytes| != f.dataSize { return false; }
    ok := EncodeString(stream, v.bytes);
  }

  /** Encodes a string up to its terminator, or to the end of its place. */
  method EncodeText(stream: OutStream, f: Field, v: Val) returns (ok: bool)
    requires stream.Valid() && f.ltype.String?
    modifies stream, stream.buffer
    ensures stream.Valid() && Emits(old(stream.View()), stream.View(), EncodedValue(f, v), ok)
  {
    if !v.VBytes? { return false; }
    var size := 0;
    while size < f.dataSize && size < |v.bytes| && v.bytes[size] != 0
      invariant size <= Strlen(v.bytes, f.dataSize)
    {
      size := size + 1;
    }
    ok := EncodeString(stream, v.bytes[..size]);
  }

  /** Encodes an array entry, with its tag or bare. */
  method EncodeItem(stream: OutStream, f: Field, v: Val, tagged: bool) returns (ok: bool)
    requires stream.Valid()
    modifies stream, stream.buffer
    ensures stream.Valid()
    ensures Emits(old(stream.View()), stream.View(),
                  Cat(if tagged then FieldTag(f) else Some([]), EncodedValue(f, v)), ok)
    decreases f, 3, 1
  {
    if tagged {
      ok := EncodeSingle(stream, f, v);
    } else {
      CatNothing(EncodedValue(f, v));
      ok := EncodeValue(stream, f, v);
    }
  }

  /** Encodes entries one after the other, each with its tag or bare. */
  method EncodeItems(stream: OutStream, f: Field, items: seq<Val>, count: nat, tagged: bool) returns (ok: bool)
    requires stream.Valid()
    modifies stream, stream.buffer
    ensures stream.Valid() && Emits(old(stream.View()), stream.View(), EncodedItems(f, items, 0, count, tagged), ok)
    decreases f, 4
  {
    ghost var v0 := stream.View();
    ghost var done: Option<seq<Byte>> := Some([]);
    ghost var all := EncodedItems(f, items, 0, count, tagged);
    CatNothing(all);
    for i := 0 to count
      invariant stream.Valid() && Emits(v0, stream.View(), done, true)
      invariant all == Cat(done, EncodedItems(f, items, i, count, tagged))
    {
      ghost var v1 := stream.View();
      ghost var tag := if tagged then FieldTag(f) else Some([]);
      ghost var one := Cat(tag, EncodedValue(f, ItemAt(items, i)));
      ghost var rest := EncodedItems(f, items, i + 1, count, tagged);
      ok := EncodeItem(stream, f, ItemAt(items, i), tagged);
      EmitsNext(v0, v1, stream.View(), done, one, rest, ok);
      if !ok {
        return;
      }
      done := Cat(done, one);
    }
    ok := true;
  }

  /** Fixed-width entries take a size that is known beforehand. */
  lemma {:induction false} FixedPayload(f: Field, items: seq<Val>, i: nat, n: nat, width: nat)
    requires i <= n && ((f.ltype.Fixed32? && width == 4) || (f.ltype.Fixed64? && width == 8))
    ensures var p := EncodedItems(f, items, i, n, false); p.Some? && |p.value| == width * (n - i)
    decreases n - i
  {
    if i == n {
    } else {
      FixedPayload(f, items, i + 1, n, width);
    }
  }

  method PackedSize(f: Field, items: seq<Val>, count: nat) returns (ok: bool, size: nat)
    ensures var p := EncodedItems(f, items, 0, count, false); ok == p.Some? && (ok ==> size == |p.value|)
    decreases f, 5
  {
    if f.ltype.Fixed32? {
      FixedPayload(f, items, 0, count, 4);
      return true, 4 * count;
    }
    if f.ltype.Fixed64? {
      FixedPayload(f, items, 0, count, 8);
      return true, 8 * count;
    }
    var sizestream := new OutStream.Sizing();
    ok := EncodeItems(sizestream, f, items, count, false);
    size := sizestream.bytesWritten;
  }

  method EncodePacked(stream: OutStream, f: Field, items: seq<Val>, count: nat) returns (ok: bool)
    requires stream.Valid()
    modifies stream, stream.buffer
    ensures stream.Valid()
    ensures var p := EncodedItems(f, items, 0, count, false);
            Emits(old(stream.View()), stream.View(),
                  if p.Some? then Some(TagBytes(f.tag, WIRE_STRING) + Prefixed(p.value)) else None, ok)
    decreases f, 6
  {
    ghost var payload := EncodedItems(f, items, 0, count, false);
    ghost var v0 := stream.View();
    ghost var tag := Some(TagBytes(f.tag, WIRE_STRING));
    ok := EncodeTag(stream, WIRE_STRING, f.tag);
    ghost var v1 := stream.View();
    if !ok {
      return;
    }
    var size;
    ok, size := PackedSize(f, items, count);
    if !ok {
      return;
    }
    ghost var sized := Some(VarintBytes(size % TWO_64));
    assert tag.value + (sized.value + payload.value) == TagBytes(f.tag, WIRE_STRING) + Prefixed(payload.value);
    ok := EncodeVarint(stream, size % TWO_64);
    ghost var v2 := stream.View();
    EmitsBoth(v0, v1, v2, tag, sized, ok);
    if !ok {
      return;
    }
    if stream.sizing {
      stream.Count(size);
    } else {
      ok := EncodeItems(stream, f, items, count, false);
    }
    EmitsBoth(v0, v2, stream.View(), Cat(tag, sized), payload, ok);
    CatAssociates(tag, sized, payload);
  }

  method EncodeArray(stream: OutStream, f: Field, items: seq<Val>, count: nat) returns (ok: bool)
    requires stream.Valid()
    modifies stream, stream.buffer
    ensures stream.Valid() && Emits(old(stream.View()), stream.View(), EncodedArray(f, items, count), ok)
    decreases f, 7
  {
    if count == 0 {
      assert stream.sizing || stream.View().data + [] == stream.View().data;
      return true;
    }
    if count > f.arraySize {
      return false;
    }
    if Packable(f.ltype) {
      ok := EncodePacked(stream, f, items, count);
    } else {
      ok := EncodeItems(stream, f, items, count, true);
    }
  }

  /** Encodes the fields of a struct one after the other. */
  method Encode(stream: OutStream, fields: seq<Field>, slots: Message) returns (ok: bool)
    requires stream.Valid()
    modifies stream, stream.buffer
    ensures stream.Valid() && Emits(old(stream.View()), stream.View(), Encoded(fields, slots, 0), ok)
    decreases fields, 1
  {
    ghost var v0 := stream.View();
    ghost var all := Encoded(fields, slots, 0);
    ghost var done: Option<seq<Byte>> := Some([]);
    CatNothing(all);
    var iter := new FieldIter.FieldIterator(fields, 0);
    var more := iter.Begin();
    if !more {
      return true;
    }
    while true
      invariant iter.Valid() && iter.fields == fields && iter.pos < |fields|
      invariant stream.Valid() && Emits(v0, stream.View(), done, true)
      invariant all == Cat(done, Encoded(fields, slots, iter.pos))
      decreases |fields| - iter.pos
    {
      ghost var p, v1 := iter.pos, stream.View();
      ghost var one, rest := EncodedField(fields, slots, p), Encoded(fields, slots, p + 1);
      ok := EncodeField(stream, fields, slots, iter.pos);
      EmitsNext(v0, v1, stream.View(), done, one, rest, ok);
      if !ok {
        return;
      }
      done := Cat(done, one);
      more := iter.Next();
      if !more { break; }
    }
    ok := true;
  }

  method EncodeSingle(stream: OutStream, f: Field, v: Val) returns (ok: bool)
    requires stream.Valid()
    modifies stream, stream.buffer
    ensures stream.Valid() && Emits(old(stream.View()), stream.View(), Cat(FieldTag(f), EncodedValue(f, v)), ok)
    decreases f, 3, 0
  {
    ghost var v0 := stream.View();
    ok := EncodeTagForField(stream, f);
    ghost var v1 := stream.View();
    if !ok {
      EmitsFirstFails(v0, v1, v1, FieldTag(f), EncodedValue(f, v));
      return;
    }
    ok := EncodeValue(stream, f, v);
    EmitsBoth(v0, v1, stream.View(), FieldTag(f), EncodedValue(f, v), ok);
  }

  method EncodeField(stream: OutStream, fields: seq<Field>, slots: Message, p: nat) returns (ok: bool)
    requires stream.Valid() && p < |fields|
    modifies stream, stream.buffer
    ensures stream.Valid() && Emits(old(stream.View()), stream.View(), EncodedField(fields, slots, p), ok)
    decreases fields, 0
  {
    var f, slot := fields[p], SlotAt(slots, Home(fields, p));
    var present := true;
    match f.htype {
      case Required =>
      case Optional =>
        present := if f.sizeOffset != 0 then slot.size != 0 else !IsDefault(fields, slots, p);
      case Repeated =>
        var count := if f.sizeOffset != 0 then slot.size else f.arraySize;
        ok := EncodeArray(stream, f, slot.items, count);
        return;
      case OneOf =>
        present := slot.size == f.tag;
    }
    if present {
      ok := EncodeSingle(stream, f, ItemAt(slot.items, 0));
    } else {
      assert stream.sizing || stream.View().data + [] == stream.View().data;
      ok := true;
    }
  }

  /** Encoding for its size only tells exactly how long an encoding into a buffer is. */
  method GetEncodedSize(fields: seq<Field>, slots: Message) returns (ok: bool, size: nat)
    ensures var e := Encoded(fields, slots, 0); ok == e.Some? && (ok ==> size == |e.value|)
  {
    var stream := new OutStream.Sizing();
    ok := Encode(stream, fields, slots);
    size := stream.bytesWritten;
  }

  /**
   * Encodes for the size alone and then into a buffer.  The two passes agree on
   * status and size, so the second succeeds exactly when the first did and the
   * buffer is large enough, and it fills exactly the bytes the first announced.
   */
  method EncodeTwice(fields: seq<Field>, slots: Message, buffer: array<Byte>)
    returns (sized: bool, size: nat, ok: bool, written: nat)
    modifies buffer
    ensures sized ==> (ok <==> size <= buffer.Length)
    ensures !sized ==> !ok
    ensures ok ==> written == size && Encoded(fields, slots, 0) == Some(buffer[..size])
  {
    var sizestream := new OutStream.Sizing();
    ghost var a := sizestream.View();
    sized := Encode(sizestream, fields, slots);
    size := sizestream.bytesWritten;
    var stream := new OutStream.FromBuffer(buffer, buffer.Length);
    ghost var b := stream.View();
    ok := Encode(stream, fields, slots);
    written := stream.bytesWritten;
    if sized && size <= buffer.Length {
      SizingEqualsWriting(a, sizestream.View(), b, stream.View(), Encoded(fields, slots, 0), sized, ok);
      assert [] + Encoded(fields, slots, 0).value == Encoded(fields, slots, 0).value;
    }
  }
}
