/** What the encoder writes, in terms of the grammar of the wire format: every encoding is a list of its fields. */
module PbWire {
  import opened Bytes
  import opened Wrappers
  import opened Streams
  import opened Varint
  import opened Descriptor
  import opened PbEncode
  import opened PbDecode
  import opened PbUnknown
  import opened WireFormat
  import R = PbRoundTrip

  /** A tag number that 32-bit tags can hold. */
  predicate PortableTag(tag: nat) {
    tag < 0x2000_0000
  }

  /** Four bytes of a number, the lowest first. */
  function Low4(n: int): seq<Byte> {
    [n % 256, n / 0x100 % 256, n / 0x1_0000 % 256, n / 0x100_0000 % 256]
  }

  /** The characters of a string in a place of `max` bytes: those before the first zero. */
  predicate IsText(text: seq<Byte>, s: seq<Byte>, max: nat) {
    && text <= s && |text| <= max && 0 !in text
    && (|text| == |s| || |text| == max || s[|text|] == 0)
  }

  /** What the wire format has for a value, by the type of its field. */
  predicate Carries(f: Field, v: Val, p: Payload) {
    var n := NumOf(v);
    match f.ltype
    case Bool => p == AVarint([if n != 0 then 1 else 0])
    case Varint => FitsInt64(n) && p == AVarint(VarintBytes(if n >= 0 then n else n + 0x1_0000_0000_0000_0000))
    case UVarint => 0 <= n < 0x1_0000_0000_0000_0000 && p == AVarint(VarintBytes(n))
    case SVarint => FitsInt64(n) && p == AVarint(VarintBytes(if n >= 0 then 2 * n else -2 * n - 1))
    case Fixed32 => p == Four(Low4(n))
    case Fixed64 => p == Eight(Low4(n) + Low4(n / 0x1_0000_0000))
    case ByteArray => v.VBytes? && |v.bytes| + 4 <= f.dataSize && p == Chunk(v.bytes)
    case String => v.VBytes? && p.Chunk? && IsText(p.bytes, v.bytes, f.dataSize)
    case Submessage => v.VMsg? && p.Chunk? && Encoded(f.sub, v.slots, 0) == Some(p.bytes)
    case FixedLengthBytes => v.VBytes? && |v.bytes| == f.dataSize && p == Chunk(v.bytes)
    case Extension => false
  }

  /** The bytes of a payload without its tag. */
  function Body(p: Payload): seq<Byte> {
    match p
    case AVarint(digits) => digits
    case Eight(bytes) => bytes
    case Chunk(bytes) => VarintBytes(|bytes|) + bytes
    case Four(bytes) => bytes
  }

  lemma FieldParts(tag: nat, p: Payload)
    ensures var wire := if p.AVarint? then 0 else if p.Eight? then 1 else if p.Chunk? then 2 else 5;
            FieldBytes(tag, p) == VarintBytes(8 * tag + wire) + Body(p)
  {
  }

  lemma VarintIsProper(v: nat)
    ensures Proper(AVarint(VarintBytes(v)))
  {
    VarintBytesAre(v, VarintBytes(v));
  }

  lemma WholeText(s: seq<Byte>, max: nat)
    ensures IsText(s[..Strlen(s, max)], s, max)
  {
  }

  lemma Turns(n: int)
    requires FitsInt64(n)
    ensures n % TWO_64 == if n >= 0 then n else n + 0x1_0000_0000_0000_0000
  {
  }

  lemma SameByte(x: int, turns: int)
    ensures (256 * turns + x) % 256 == x % 256
  {
  }

  lemma Fixed4Is(n: int)
    ensures FixedBytes(n % TWO_32, 4) == Low4(n)
  {
    var q, r := n / TWO_32, n % TWO_32;
    FourBytes(r);
    assert n == 256 * (0x100_0000 * q) + r;
    assert n / 0x100 == 256 * (0x1_0000 * q) + r / 0x100;
    assert n / 0x1_0000 == 256 * (0x100 * q) + r / 0x1_0000;
    assert n / 0x100_0000 == 256 * q + r / 0x100_0000;
    SameByte(r, 0x100_0000 * q);
    SameByte(r / 0x100, 0x1_0000 * q);
    SameByte(r / 0x1_0000, 0x100 * q);
    SameByte(r / 0x100_0000, q);
  }

  lemma Fixed8Is(n: int)
    ensures FixedBytes(n % TWO_64, 8) == Low4(n) + Low4(n / TWO_32)
  {
    var r := n % TWO_64;
    HalvesOf(n);
    TwoFours(r);
    FourBytes(r);
    Fixed4Is(r);
    Fixed4Is(n);
    Fixed4Is(n / TWO_32);
  }

  lemma HalvesOf(n: int)
    ensures var r := n % TWO_64; r % TWO_32 == n % TWO_32 && r / TWO_32 == n / TWO_32 % TWO_32
  {
    var q, r := n / TWO_64, n % TWO_64;
    assert n == TWO_32 * (TWO_32 * q) + r;
    assert n / TWO_32 == TWO_32 * q + r / TWO_32;
  }

  lemma PrefixedIs(bytes: seq<Byte>)
    requires |Prefixed(bytes)| < TWO_32
    ensures Proper(Chunk(bytes)) && Prefixed(bytes) == Body(Chunk(bytes))
  {
    assert |bytes| <= |Prefixed(bytes)|;
    assert |bytes| % TWO_64 == |bytes|;
  }

  lemma NumberIsWire(f: Field, v: Val) returns (p: Payload)
    requires EncodedValue(f, v).Some?
    requires f.ltype.Bool? || f.ltype.Varint? || f.ltype.UVarint? || f.ltype.SVarint? || f.ltype.Fixed32?
             || f.ltype.Fixed64?
    ensures Proper(p) && Carries(f, v, p) && EncodedValue(f, v).value == Body(p)
  {
    var n := NumOf(v);
    match f.ltype
    case Bool =>
      p := AVarint([if n != 0 then 1 else 0]);
    case Varint =>
      Turns(n);
      VarintIsProper(n % TWO_64);
      p := AVarint(VarintBytes(n % TWO_64));
    case UVarint =>
      VarintIsProper(n);
      p := AVarint(VarintBytes(n));
    case SVarint =>
      VarintIsProper(ZigZag(n));
      p := AVarint(VarintBytes(ZigZag(n)));
    case Fixed32 =>
      Fixed4Is(n);
      p := Four(Low4(n));
    case Fixed64 =>
      Fixed8Is(n);
      p := Eight(Low4(n) + Low4(n / TWO_32));
  }

  lemma BytesAreWire(f: Field, v: Val) returns (p: Payload)
    requires EncodedValue(f, v).Some? && |EncodedValue(f, v).value| < TWO_32
    requires f.ltype.ByteArray? || f.ltype.String? || f.ltype.Submessage? || f.ltype.FixedLengthBytes?
    ensures Proper(p) && Carries(f, v, p) && EncodedValue(f, v).value == Body(p)
  {
    if f.ltype.Submessage? {
      p := Chunk(Encoded(f.sub, v.slots, 0).value);
    } else if f.ltype.String? {
      WholeText(v.bytes, f.dataSize);
      p := Chunk(v.bytes[..Strlen(v.bytes, f.dataSize)]);
    } else {
      p := Chunk(v.bytes);
    }
    PrefixedIs(p.bytes);
  }

  /** The body of a value is what the wire format has for it. */
  lemma ValueIsWire(f: Field, v: Val) returns (p: Payload)
    requires EncodedValue(f, v).Some? && |EncodedValue(f, v).value| < TWO_32
    ensures Proper(p) && Carries(f, v, p) && EncodedValue(f, v).value == Body(p)
  {
    if f.ltype.ByteArray? || f.ltype.String? || f.ltype.Submessage? || f.ltype.FixedLengthBytes? {
      p := BytesAreWire(f, v);
    } else {
      p := NumberIsWire(f, v);
    }
  }

  lemma TagIs(tag: nat, wire: nat)
    requires PortableTag(tag) && wire < 8
    ensures TagBytes(tag, wire) == VarintBytes(8 * tag + wire)
  {
    assert (tag * 8 + wire) % TWO_64 == 8 * tag + wire;
  }

  /** The wire type in a tag: 0 for booleans and integers, 5 and 1 for fixed widths, 2 for what has a length. */
  lemma FieldTagIs(f: Field)
    requires PortableTag(f.tag)
    ensures FieldTag(f) == if f.ltype.Extension? then None
                           else if f.ltype.Bool? || f.ltype.Varint? || f.ltype.UVarint? || f.ltype.SVarint? then
                             Some(VarintBytes(8 * f.tag))
                           else if f.ltype.Fixed64? then Some(VarintBytes(8 * f.tag + 1))
                           else if f.ltype.Fixed32? then Some(VarintBytes(8 * f.tag + 5))
                           else Some(VarintBytes(8 * f.tag + 2))
  {
    TagIs(f.tag, 0);
    TagIs(f.tag, 1);
    TagIs(f.tag, 2);
    TagIs(f.tag, 5);
  }

  lemma TagIsWire(f: Field, v: Val, p: Payload)
    requires PortableTag(f.tag) && Carries(f, v, p)
    ensures FieldTag(f).Some? && FieldTag(f).value + Body(p) == FieldBytes(f.tag, p)
  {
    FieldTagIs(f);
    CarriedForm(f, v, p);
    FieldParts(f.tag, p);
  }

  lemma CarriedForm(f: Field, v: Val, p: Payload)
    requires Carries(f, v, p)
    ensures !f.ltype.Extension?
    ensures p.AVarint? <==> f.ltype.Bool? || f.ltype.Varint? || f.ltype.UVarint? || f.ltype.SVarint?
    ensures (p.Eight? <==> f.ltype.Fixed64?) && (p.Four? <==> f.ltype.Fixed32?)
  {
  }

  /** A tag and a value are exactly one field of the wire format, with the value in the form its type has there. */
  lemma FieldIsWire(f: Field, v: Val, u: seq<Byte>) returns (p: Payload)
    requires PortableTag(f.tag) && Cat(FieldTag(f), EncodedValue(f, v)) == Some(u) && |u| < TWO_32
    ensures Proper(p) && Carries(f, v, p) && u == FieldBytes(f.tag, p)
  {
    p := ValueIsWire(f, v);
    TagIsWire(f, v, p);
  }

  // ---------- Arrays and messages ----------

  datatype WireField = WireField(tag: nat, payload: Payload)

  function BytesOf(x: WireField): seq<Byte> { FieldBytes(x.tag, x.payload) }

  /** The bytes of a list of fields. */
  function Written(fs: seq<WireField>): seq<Byte> {
    Concat(seq(|fs|, i requires 0 <= i < |fs| => BytesOf(fs[i])))
  }

  /** Fields of the wire format, with tag numbers from a set. */
  predicate ProperFields(fs: seq<WireField>, tags: set<nat>) {
    forall i :: 0 <= i < |fs| ==> Proper(fs[i].payload) && fs[i].tag in tags
  }

  lemma WrittenJoins(a: seq<WireField>, b: seq<WireField>)
    ensures Written(a + b) == Written(a) + Written(b)
  {
    var x := seq(|a|, i requires 0 <= i < |a| => BytesOf(a[i]));
    var y := seq(|b|, i requires 0 <= i < |b| => BytesOf(b[i]));
    var all := a + b;
    assert seq(|all|, i requires 0 <= i < |all| => BytesOf(all[i])) == x + y;
    ConcatJoins(x, y);
  }

  lemma WrittenOne(tag: nat, p: Payload)
    ensures Written([WireField(tag, p)]) == FieldBytes(tag, p)
  {
    var fs := [WireField(tag, p)];
    assert seq(1, i requires 0 <= i < 1 => BytesOf(fs[i])) == [BytesOf(fs[0])];
    ConcatOne(BytesOf(fs[0]));
  }

  lemma ConcatOne(x: seq<Byte>)
    ensures Concat([x]) == x
  {
    assert [x][1..] == [];
    assert Concat([x]) == x + [];
  }

  /** Array entries that are not packed are one field each. */
  lemma {:induction false} ItemsAreWire(f: Field, items: seq<Val>, i: nat, n: nat) returns (fs: seq<WireField>)
    requires PortableTag(f.tag) && i <= n
    requires EncodedItems(f, items, i, n, true).Some? && |EncodedItems(f, items, i, n, true).value| < TWO_32
    ensures |fs| == n - i && ProperFields(fs, {f.tag}) && Written(fs) == EncodedItems(f, items, i, n, true).value
    ensures forall k :: 0 <= k < |fs| ==> Carries(f, ItemAt(items, i + k), fs[k].payload)
    decreases n - i
  {
    if i == n {
      fs := [];
    } else {
      var one := Cat(FieldTag(f), EncodedValue(f, ItemAt(items, i))).value;
      var p := FieldIsWire(f, ItemAt(items, i), one);
      var rest := ItemsAreWire(f, items, i + 1, n);
      fs := [WireField(f.tag, p)] + rest;
      WrittenOne(f.tag, p);
      WrittenJoins([WireField(f.tag, p)], rest);
    }
  }

  /** The bodies of packed entries, one after the other. */
  function Bodies(ps: seq<Payload>): seq<Byte> {
    Concat(seq(|ps|, k requires 0 <= k < |ps| => Body(ps[k])))
  }

  lemma BodiesMore(p: Payload, rest: seq<Payload>)
    ensures Bodies([p] + rest) == Body(p) + Bodies(rest)
  {
    var x := seq(|rest|, k requires 0 <= k < |rest| => Body(rest[k]));
    var all := [p] + rest;
    assert seq(|all|, k requires 0 <= k < |all| => Body(all[k])) == [Body(p)] + x;
    ConcatJoins([Body(p)], x);
    ConcatOne(Body(p));
  }

  lemma PackedMore(f: Field, items: seq<Val>, i: nat, n: nat)
    requires i < n && EncodedItems(f, items, i, n, false).Some?
    ensures EncodedValue(f, ItemAt(items, i)).Some? && EncodedItems(f, items, i + 1, n, false).Some?
    ensures EncodedItems(f, items, i, n, false).value
            == EncodedValue(f, ItemAt(items, i)).value + EncodedItems(f, items, i + 1, n, false).value
  {
    CatNothing(EncodedValue(f, ItemAt(items, i)));
  }

  lemma {:induction false} PackedIsBodies(f: Field, items: seq<Val>, i: nat, n: nat, x: seq<Byte>)
    returns (ps: seq<Payload>)
    requires i <= n && EncodedItems(f, items, i, n, false) == Some(x) && |x| < TWO_32
    ensures |ps| == n - i && Bodies(ps) == x
    ensures forall k :: 0 <= k < |ps| ==> Carries(f, ItemAt(items, i + k), ps[k])
    decreases n - i
  {
    if i == n {
      ps := [];
    } else {
      PackedMore(f, items, i, n);
      var p := ValueIsWire(f, ItemAt(items, i));
      var rest := PackedIsBodies(f, items, i + 1, n, EncodedItems(f, items, i + 1, n, false).value);
      ps := [p] + rest;
      BodiesMore(p, rest);
    }
  }

  lemma PackedArray(f: Field, items: seq<Val>, count: nat) returns (payload: seq<Byte>)
    requires Packable(f.ltype) && 0 < count && EncodedArray(f, items, count).Some?
    ensures count <= f.arraySize && EncodedItems(f, items, 0, count, false) == Some(payload)
    ensures EncodedArray(f, items, count).value == TagBytes(f.tag, 2) + Prefixed(payload)
  {
    payload := EncodedItems(f, items, 0, count, false).value;
  }

  lemma ChunkField(tag: nat, payload: seq<Byte>)
    requires PortableTag(tag) && |Prefixed(payload)| < TWO_32
    ensures Proper(Chunk(payload)) && TagBytes(tag, 2) + Prefixed(payload) == FieldBytes(tag, Chunk(payload))
  {
    TagIs(tag, 2);
    PrefixedIs(payload);
  }

  /** A packed array is one field with a length, whose bytes are its entries without tags. */
  lemma PackedIsWire(f: Field, items: seq<Val>, count: nat, u: seq<Byte>) returns (ps: seq<Payload>)
    requires PortableTag(f.tag) && Packable(f.ltype) && 0 < count && EncodedArray(f, items, count) == Some(u)
    requires |u| < TWO_32
    ensures count == |ps| <= f.arraySize && forall k :: 0 <= k < |ps| ==> Carries(f, ItemAt(items, k), ps[k])
    ensures Proper(Chunk(Bodies(ps))) && u == FieldBytes(f.tag, Chunk(Bodies(ps)))
  {
    var payload := PackedArray(f, items, count);
    assert |payload| <= |Prefixed(payload)| <= |u|;
    ps := PackedIsBodies(f, items, 0, count, payload);
    ChunkField(f.tag, payload);
  }

  /** What is written for a field is a list of fields with its tag number. */
  lemma EncodedFieldIsWire(fields: seq<Field>, slots: Message, p: nat) returns (fs: seq<WireField>)
    requires p < |fields| && PortableTag(fields[p].tag)
    requires EncodedField(fields, slots, p).Some? && |EncodedField(fields, slots, p).value| < TWO_32
    ensures ProperFields(fs, {fields[p].tag}) && Written(fs) == EncodedField(fields, slots, p).value
  {
    var f, slot, u := fields[p], SlotAt(slots, Home(fields, p)), EncodedField(fields, slots, p).value;
    if u == [] {
      fs := [];
    } else if !f.htype.Repeated? {
      var payload := FieldIsWire(f, ItemAt(slot.items, 0), u);
      fs := [WireField(f.tag, payload)];
      WrittenOne(f.tag, payload);
    } else {
      fs := ArrayIsWire(f, slot.items, if f.sizeOffset != 0 then slot.size else f.arraySize);
    }
  }

  lemma ArrayIsWire(f: Field, items: seq<Val>, count: nat) returns (fs: seq<WireField>)
    requires PortableTag(f.tag) && EncodedArray(f, items, count).Some? && |EncodedArray(f, items, count).value| < TWO_32
    ensures ProperFields(fs, {f.tag}) && Written(fs) == EncodedArray(f, items, count).value
    ensures count <= f.arraySize
  {
    if count == 0 {
      fs := [];
    } else if Packable(f.ltype) {
      var ps := PackedIsWire(f, items, count, EncodedArray(f, items, count).value);
      fs := [WireField(f.tag, Chunk(Bodies(ps)))];
      WrittenOne(f.tag, Chunk(Bodies(ps)));
    } else {
      fs := ItemsAreWire(f, items, 0, count);
    }
  }

  function Tags(fields: seq<Field>): set<nat> {
    set f | f in fields :: f.tag
  }

  /**
   * Every encoding is a list of fields of the wire format whose tag numbers are
   * those of the message type.
   */
  lemma {:induction false} MessageIsWire(fields: seq<Field>, slots: Message, p: nat) returns (fs: seq<WireField>)
    requires p <= |fields| && forall f :: f in fields ==> PortableTag(f.tag)
    requires Encoded(fields, slots, p).Some? && |Encoded(fields, slots, p).value| < TWO_32
    ensures ProperFields(fs, Tags(fields)) && Written(fs) == Encoded(fields, slots, p).value
    decreases |fields| - p
  {
    if p == |fields| {
      fs := [];
    } else {
      var one := EncodedFieldIsWire(fields, slots, p);
      var rest := MessageIsWire(fields, slots, p + 1);
      assert fields[p] in fields && fields[p].tag in Tags(fields);
      fs := one + rest;
      WrittenJoins(one, rest);
    }
  }

  // ---------- Messages for a type that does not list their fields ----------

  /** Tag numbers that can be written and that `other` does not list. */
  ghost predicate Unlisted(other: seq<Field>, tags: set<nat>) {
    forall t :: t in tags ==> 0 < t && PortableTag(t) && FieldAt(other, t, 0).None?
  }

  lemma {:induction false} UnlistedAreSkipped(other: seq<Field>, st: Progress, fs: seq<WireField>, tags: set<nat>,
                                              b: seq<Byte>)
    requires ProperFields(fs, tags) && Unlisted(other, tags)
    ensures DecodedFrom(other, st, Written(fs) + b) == DecodedFrom(other, st, b)
    decreases |fs|
  {
    if fs == [] {
      assert Written(fs) + b == b;
    } else {
      var first, rest := [fs[0]], fs[1..];
      UnlistedAreSkipped(other, st, rest, tags, b);
      assert fs == first + rest;
      WrittenJoins(first, rest);
      WrittenOne(fs[0].tag, fs[0].payload);
      GrammarIsField(fs[0].tag, fs[0].payload);
      UnknownSkips(other, st, Written(first), fs[0].tag, Written(rest) + b);
      StepUnfolds(other, st, Written(first) + (Written(rest) + b));
      R.Reassociate(Written(first), Written(rest), b);
    }
  }

  /**
   * The encoding of a message, decoded as a type that lists none of its tags, is
   * like no bytes at all: every field is skipped, and nothing of it is stored.
   */
  lemma ForeignMessage(fields: seq<Field>, slots: Message, other: seq<Field>, dest: Message)
    requires Unlisted(other, Tags(fields)) && forall f :: f in fields ==> PortableTag(f.tag)
    requires Encoded(fields, slots, 0).Some? && |Encoded(fields, slots, 0).value| < 0x1_0000_0000
    ensures Decoded(other, dest, Encoded(fields, slots, 0).value) == Decoded(other, dest, [])
  {
    var fs := MessageIsWire(fields, slots, 0);
    var st := Progress(Defaults(other, dest, 0), {}, None, 0);
    UnlistedAreSkipped(other, st, fs, Tags(fields), []);
    assert Written(fs) + [] == Written(fs);
  }
}
