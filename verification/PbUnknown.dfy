/**
 * Fields a message type does not list change nothing, wherever they stand, and
 * the check of required fields is about exactly the fields that were met.
 */
module PbUnknown {
  import opened Bytes
  import opened Wrappers
  import opened Streams
  import opened Varint
  import opened Descriptor
  import opened FieldIter
  import opened PbEncode
  import opened PbDecode
  import opened PbRoundTrip
  import opened WireFormat

  // ---------- Decoding a field looks only at the bytes of that field ----------

  /** What is left after a first part has been read, when `b` is left in the end. */
  lemma SplitAt(x: seq<Byte>, b: seq<Byte>, rest: seq<Byte>) returns (x1: seq<Byte>, x2: seq<Byte>)
    requires EndsWith(x + b, rest) && |b| <= |rest|
    ensures x == x1 + x2 && rest == x2 + b
    ensures forall c :: x + c == x1 + (x2 + c)
  {
    var k := |x| + |b| - |rest|;
    x1, x2 := x[..k], x[k..];
    forall c ensures x + c == x1 + (x2 + c) {
      assert x == x1 + x2;
    }
  }

  lemma TakeAll(x: seq<Byte>, b: seq<Byte>, n: nat)
    requires n <= |x + b| && (x + b)[n..] == b
    ensures n == |x| && forall c :: (x + c)[..n] == x && (x + c)[n..] == c
  {
    assert |(x + b)[n..]| == |x| + |b| - n;
  }

  /** A length and that many bytes. */
  lemma StringLocal(x: seq<Byte>, b: seq<Byte>, c: seq<Byte>)
    requires var d := ReadVarint32(x + b); d.Got? && d.value <= |d.rest| && d.rest[d.value..] == b
    ensures var d, e := ReadVarint32(x + b), ReadVarint32(x + c);
            e.Got? && e.value == d.value <= |e.rest| && e.rest[..e.value] == d.rest[..d.value] && e.rest[e.value..] == c
  {
    var d := ReadVarint32(x + b);
    Varint32Ends(x + b);
    var x1, x2 := SplitAt(x, b, d.rest);
    TakeAll(x2, b, d.value);
    assert x + b == x1 + (x2 + b) && x + c == x1 + (x2 + c);
    Varint32Local(x1, x2 + b, x2 + c);
  }

  lemma NumberLocal(f: Field, x: seq<Byte>, b: seq<Byte>, c: seq<Byte>)
    requires var r := DecodedNumber(f, x + b); r.Got? && r.rest == b
    ensures DecodedNumber(f, x + c) == Got(DecodedNumber(f, x + b).value, c)
  {
    if f.ltype.Bool? {
      Varint32Local(x, b, c);
    } else {
      VarintLocal(x, b, c, 0, 0);
    }
  }

  lemma FixedLocal(width: nat, x: seq<Byte>, b: seq<Byte>, c: seq<Byte>)
    requires var r := DecodedFixed(width, x + b); r.Got? && r.rest == b
    ensures DecodedFixed(width, x + c) == Got(DecodedFixed(width, x + b).value, c)
  {
    TakeAll(x, b, width);
  }

  lemma BytesLocal(f: Field, x: seq<Byte>, b: seq<Byte>, c: seq<Byte>)
    requires var r := DecodedBytes(f, x + b); r.Got? && r.rest == b
    ensures DecodedBytes(f, x + c) == Got(DecodedBytes(f, x + b).value, c)
  {
    var d := ReadVarint32(x + b);
    if f.ltype.FixedLengthBytes? && d.value == 0 {
      Varint32Local(x, b, c);
    } else {
      StringLocal(x, b, c);
    }
  }

  lemma ValueLocal(f: Field, prior: Val, x: seq<Byte>, b: seq<Byte>, c: seq<Byte>)
    requires var r := DecodedValue(f, prior, x + b); r.Got? && r.rest == b
    ensures DecodedValue(f, prior, x + c) == Got(DecodedValue(f, prior, x + b).value, c)
  {
    match f.ltype
    case Fixed32 => FixedLocal(4, x, b, c);
    case Fixed64 => FixedLocal(8, x, b, c);
    case ByteArray => BytesLocal(f, x, b, c);
    case String => BytesLocal(f, x, b, c);
    case FixedLengthBytes => BytesLocal(f, x, b, c);
    case Submessage => StringLocal(x, b, c);
    case _ => NumberLocal(f, x, b, c);
  }

  lemma RepeatedLocal(f: Field, slot: Slot, count: nat, wire: nat, x: seq<Byte>, b: seq<Byte>, c: seq<Byte>)
    requires var r := DecodedRepeated(f, slot, count, wire, x + b); r.Got? && r.rest == b
    ensures DecodedRepeated(f, slot, count, wire, x + c) == Got(DecodedRepeated(f, slot, count, wire, x + b).value, c)
  {
    if wire == WIRE_STRING && Packable(f.ltype) {
      StringLocal(x, b, c);
    } else {
      ValueLocal(f, ItemAt(slot.items, count), x, b, c);
    }
  }

  lemma FieldLocal(f: Field, slot: Slot, fixedSize: nat, wire: nat, x: seq<Byte>, b: seq<Byte>, c: seq<Byte>)
    requires var r := DecodedField(f, slot, fixedSize, wire, x + b); r.Got? && r.rest == b
    ensures DecodedField(f, slot, fixedSize, wire, x + c) == Got(DecodedField(f, slot, fixedSize, wire, x + b).value, c)
  {
    match f.htype
    case Required => ValueLocal(f, ItemAt(slot.items, 0), x, b, c);
    case Optional => ValueLocal(f, ItemAt(slot.items, 0), x, b, c);
    case Repeated => RepeatedLocal(f, slot, if f.sizeOffset == 0 then fixedSize else slot.size, wire, x, b, c);
    case OneOf => ValueLocal(f, FreshMember(f, ItemAt(slot.items, 0)), x, b, c);
  }

  lemma {:induction false} SkipVarintLocal(x: seq<Byte>, b: seq<Byte>, c: seq<Byte>)
    requires var r := SkipVarint(x + b); r.Got? && r.rest == b
    ensures SkipVarint(x + c) == Got((), c)
    decreases |x|
  {
    assert (x + b)[0] == x[0] && (x + c)[0] == x[0];
    assert (x + b)[1..] == x[1..] + b && (x + c)[1..] == x[1..] + c;
    if x[0] >= 128 {
      SkipVarintLocal(x[1..], b, c);
    } else {
      OnlyOne(x, b);
    }
  }

  lemma SkippedLocal(wire: nat, x: seq<Byte>, b: seq<Byte>, c: seq<Byte>)
    requires var r := Skipped(wire, x + b); r.Got? && r.rest == b
    ensures Skipped(wire, x + c) == Got((), c)
  {
    if wire == WIRE_VARINT {
      SkipVarintLocal(x, b, c);
    } else if wire == WIRE_STRING {
      StringLocal(x, b, c);
    } else {
      TakeAll(x, b, if wire == WIRE_64BIT then 8 else 4);
    }
  }

  lemma TaggedLocal(fields: seq<Field>, st: Progress, tag: nat, wire: nat, x: seq<Byte>, b: seq<Byte>, c: seq<Byte>)
    requires var r := DecodedTagged(fields, st, tag, wire, x + b); r.Got? && r.rest == b
    ensures DecodedTagged(fields, st, tag, wire, x + c) == Got(DecodedTagged(fields, st, tag, wire, x + b).value, c)
  {
    var p := FieldAt(fields, tag, 0);
    if p.Some? {
      var met := Meet(fields, st, p.value).value;
      FieldLocal(fields[p.value], SlotAt(st.slots, Home(fields, p.value)), met.fixedSize, wire, x, b, c);
    } else if fields == [] && tag == 0 {
      Varint32Local(x, b, c);
    } else {
      SkippedLocal(wire, x, b, c);
    }
  }

  // ---------- Positions between two fields ----------

  /** One round of the decoding loop: a tag and what follows it. */
  function LoopStep(fields: seq<Field>, st: Progress, bytes: seq<Byte>): (r: Read<Progress>)
    ensures r.Got? ==> |r.rest| < |bytes|
  {
    var t := ReadVarint32(bytes);
    if t.Fail? || t.value == 0 then Fail else DecodedTagged(fields, st, t.value / 8, t.value % 8, t.rest)
  }

  lemma StepUnfolds(fields: seq<Field>, st: Progress, bytes: seq<Byte>)
    requires LoopStep(fields, st, bytes).Got?
    ensures var r := LoopStep(fields, st, bytes); DecodedFrom(fields, st, bytes) == DecodedFrom(fields, r.value, r.rest)
  {
  }

  lemma StepLocal(fields: seq<Field>, st: Progress, x: seq<Byte>, b: seq<Byte>, c: seq<Byte>)
    requires var r := LoopStep(fields, st, x + b); r.Got? && r.rest == b
    ensures LoopStep(fields, st, x + c) == Got(LoopStep(fields, st, x + b).value, c)
  {
    var t := ReadVarint32(x + b);
    Varint32Ends(x + b);
    var x1, x2 := SplitAt(x, b, t.rest);
    assert x + b == x1 + (x2 + b) && x + c == x1 + (x2 + c);
    Varint32Local(x1, x2 + b, x2 + c);
    TaggedLocal(fields, st, t.value / 8, t.value % 8, x2, b, c);
  }

  /** Given `a + b`, decoding comes to a round with state `st'` and just `b` left. */
  ghost predicate Between(fields: seq<Field>, st: Progress, a: seq<Byte>, b: seq<Byte>, st': Progress)
    decreases |a|
  {
    if a == [] then st == st'
    else exists k {:trigger a[k..]} :: 0 < k <= |a| &&
           var r := LoopStep(fields, st, a + b);
           r.Got? && r.rest == a[k..] + b && Between(fields, r.value, a[k..], b, st')
  }

  lemma {:induction false} BetweenMoves(fields: seq<Field>, st: Progress, a: seq<Byte>, b: seq<Byte>, st': Progress)
    requires Between(fields, st, a, b, st')
    ensures DecodedFrom(fields, st, a + b) == DecodedFrom(fields, st', b)
    decreases |a|
  {
    if a == [] {
      assert a + b == b;
    } else {
      var k :| 0 < k <= |a| &&
               var r := LoopStep(fields, st, a + b);
               r.Got? && r.rest == a[k..] + b && Between(fields, r.value, a[k..], b, st');
      StepUnfolds(fields, st, a + b);
      BetweenMoves(fields, LoopStep(fields, st, a + b).value, a[k..], b, st');
    }
  }

  /** What follows a position does not matter for coming there. */
  lemma {:induction false} BetweenLocal(fields: seq<Field>, st: Progress, a: seq<Byte>, b: seq<Byte>, c: seq<Byte>,
                                        st': Progress)
    requires Between(fields, st, a, b, st')
    ensures Between(fields, st, a, c, st')
    decreases |a|
  {
    if a == [] {
    } else {
      var k :| 0 < k <= |a| &&
               var r := LoopStep(fields, st, a + b);
               r.Got? && r.rest == a[k..] + b && Between(fields, r.value, a[k..], b, st');
      StepThen(fields, st, a, k, b, c);
      BetweenLocal(fields, LoopStep(fields, st, a + b).value, a[k..], b, c, st');
    }
  }

  lemma StepThen(fields: seq<Field>, st: Progress, a: seq<Byte>, k: nat, b: seq<Byte>, c: seq<Byte>)
    requires 0 < k <= |a| && var r := LoopStep(fields, st, a + b); r.Got? && r.rest == a[k..] + b
    ensures LoopStep(fields, st, a + c) == Got(LoopStep(fields, st, a + b).value, a[k..] + c)
  {
    assert a + b == a[..k] + (a[k..] + b) && a + c == a[..k] + (a[k..] + c);
    StepLocal(fields, st, a[..k], a[k..] + b, a[k..] + c);
  }

  // ---------- Unknown fields ----------

  /**
   * What the format has after a tag, by its wire type: 0 a varint, 1 eight bytes,
   * 2 a length and that many bytes, 5 four bytes; there are no others.
   */
  predicate IsBody(wire: nat, x: seq<Byte>) {
    if wire == 0 then IsVarint(x)
    else if wire == 1 then |x| == 8
    else if wire == 2 then exists k {:trigger x[..k]} :: 0 <= k <= |x| && ReadVarint32(x[..k]) == Got(|x| - k, [])
    else wire == 5 && |x| == 4
  }

  lemma {:induction false} SkipsVarintExactly(x: seq<Byte>, rest: seq<Byte>)
    ensures SkipVarint(x + rest) == Got((), rest) <==> IsVarint(x)
    decreases |x|
  {
    if x == [] {
      assert x + rest == rest;
    } else {
      assert (x + rest)[0] == x[0] && (x + rest)[1..] == x[1..] + rest;
      VarintUnfolds(x);
      if x[0] >= 128 {
        SkipsVarintExactly(x[1..], rest);
      } else if x[1..] + rest == rest {
        OnlyOne(x, rest);
      }
    }
  }

  lemma SkipsBytesExactly(x: seq<Byte>, rest: seq<Byte>, n: nat)
    ensures SkipBytes(x + rest, n) == Got((), rest) <==> |x| == n
  {
    if |x| == n {
      assert (x + rest)[n..] == rest;
    } else if SkipBytes(x + rest, n) == Got((), rest) {
      TakeAll(x, rest, n);
    }
  }

  lemma SkippedIsString(x: seq<Byte>, rest: seq<Byte>)
    requires Skipped(2, x + rest) == Got((), rest)
    ensures IsBody(2, x)
  {
    var r := ReadVarint32(x + rest);
    Varint32Ends(x + rest);
    var x1, x2 := SplitAt(x, rest, r.rest);
    TakeAll(x2, rest, r.value);
    assert x + rest == x1 + (x2 + rest) && x1 + [] == x1;
    Varint32Local(x1, x2 + rest, []);
    assert x[..|x1|] == x1;
  }

  lemma StringIsSkipped(x: seq<Byte>, rest: seq<Byte>, k: nat)
    requires k <= |x| && ReadVarint32(x[..k]) == Got(|x| - k, [])
    ensures Skipped(2, x + rest) == Got((), rest)
  {
    assert x[..k] + [] == x[..k] && x + rest == x[..k] + (x[k..] + rest);
    Varint32Local(x[..k], [], x[k..] + rest);
    assert (x[k..] + rest)[|x| - k..] == rest;
  }

  lemma SkipsStringExactly(x: seq<Byte>, rest: seq<Byte>)
    ensures Skipped(2, x + rest) == Got((), rest) <==> IsBody(2, x)
  {
    if IsBody(2, x) {
      var k: nat :| k <= |x| && ReadVarint32(x[..k]) == Got(|x| - k, []);
      StringIsSkipped(x, rest, k);
    } else if Skipped(2, x + rest) == Got((), rest) {
      SkippedIsString(x, rest);
    }
  }

  /** Skipping what follows a tag takes exactly the bytes that the format has there, and nothing else is skipped. */
  lemma SkipsExactly(wire: nat, x: seq<Byte>, rest: seq<Byte>)
    ensures Skipped(wire, x + rest) == Got((), rest) <==> IsBody(wire, x)
  {
    if wire == 0 {
      SkipsVarintExactly(x, rest);
    } else if wire == 1 {
      SkipsBytesExactly(x, rest, 8);
    } else if wire == 2 {
      SkipsStringExactly(x, rest);
    } else if wire == 5 {
      SkipsBytesExactly(x, rest, 4);
    }
  }

  /** Bytes that are exactly one field with a nonzero tag number: its tag, which ends at `k`, and the body. */
  predicate IsFieldAt(u: seq<Byte>, tag: nat, k: nat) {
    && k <= |u| && tag > 0
    && var t := ReadVarint32(u[..k]);
       t.Got? && t.rest == [] && t.value / 8 == tag && IsBody(t.value % 8, u[k..])
  }

  predicate IsField(u: seq<Byte>, tag: nat) {
    exists k {:trigger IsFieldAt(u, tag, k)} :: 0 <= k <= |u| && IsFieldAt(u, tag, k)
  }

  /** Such bytes are a tag and what the decoder skips. */
  lemma TagThenBody(u: seq<Byte>, tag: nat, k: nat, b: seq<Byte>)
    requires IsFieldAt(u, tag, k)
    ensures var t := ReadVarint32(u + b);
            t.Got? && t.value / 8 == tag && t.value != 0 && Skipped(t.value % 8, t.rest) == Got((), b)
  {
    assert u[..k] + [] == u[..k] && u + b == u[..k] + (u[k..] + b);
    Varint32Local(u[..k], [], u[k..] + b);
    SkipsExactly(ReadVarint32(u[..k]).value % 8, u[k..], b);
  }

  /** A field that is not listed is consumed and changes nothing. */
  lemma UnknownSkips(fields: seq<Field>, st: Progress, u: seq<Byte>, tag: nat, b: seq<Byte>)
    requires IsField(u, tag) && FieldAt(fields, tag, 0).None?
    ensures LoopStep(fields, st, u + b) == Got(st, b)
  {
    var k: nat :| k <= |u| && IsFieldAt(u, tag, k);
    TagThenBody(u, tag, k, b);
  }

  /**
   * Unknown fields are transparent: putting any well-formed field with an
   * unlisted tag between two fields leaves the status and the struct as they are.
   */
  lemma UnknownIsTransparent(fields: seq<Field>, slots: Message, a: seq<Byte>, u: seq<Byte>, tag: nat, b: seq<Byte>,
                             st: Progress)
    requires Between(fields, Progress(slots, {}, None, 0), a, b, st)
    requires IsField(u, tag) && FieldAt(fields, tag, 0).None?
    ensures DecodedNoInit(fields, slots, a + (u + b)) == DecodedNoInit(fields, slots, a + b)
  {
    var start := Progress(slots, {}, None, 0);
    BetweenMoves(fields, start, a, b, st);
    BetweenLocal(fields, start, a, b, u + b, st);
    BetweenMoves(fields, start, a, u + b, st);
    UnknownSkips(fields, st, u, tag, b);
    StepUnfolds(fields, st, u + b);
  }

  lemma TagAndBody(tag: nat, wire: nat, x: seq<Byte>)
    requires 0 < tag < 0x2000_0000 && wire < 8 && IsBody(wire, x)
    ensures IsField(VarintBytes(8 * tag + wire) + x, tag)
  {
    var t := VarintBytes(8 * tag + wire);
    Varint32RoundTrip(8 * tag + wire, []);
    assert t + [] == t && (t + x)[..|t|] == t && (t + x)[|t|..] == x;
    assert IsFieldAt(t + x, tag, |t|);
  }

  /** Every field that the grammar of the format gives is one. */
  lemma GrammarIsField(tag: nat, p: Payload)
    requires 0 < tag < 0x2000_0000 && Proper(p)
    ensures IsField(FieldBytes(tag, p), tag)
  {
    match p
    case AVarint(digits) => TagAndBody(tag, 0, digits);
    case Eight(bytes) => TagAndBody(tag, 1, bytes);
    case Four(bytes) => TagAndBody(tag, 5, bytes);
    case Chunk(bytes) =>
      ChunkIsBody(bytes);
      TagAndBody(tag, 2, VarintBytes(|bytes|) + bytes);
  }

  lemma ChunkIsBody(bytes: seq<Byte>)
    requires |bytes| < 0x1_0000_0000
    ensures IsBody(2, VarintBytes(|bytes|) + bytes)
  {
    var n := VarintBytes(|bytes|);
    Varint32RoundTrip(|bytes|, []);
    assert n + [] == n && (n + bytes)[..|n|] == n;
  }

  /**
   * In terms of the bytes alone: put between two fields of any input, an unlisted
   * tag with a varint, with eight bytes, with a length and that many bytes, or with
   * four bytes leaves the status and the struct as they are.
   */
  lemma UnknownBytesAreTransparent(fields: seq<Field>, slots: Message, a: seq<Byte>, tag: nat, p: Payload, b: seq<Byte>,
                                   st: Progress)
    requires Between(fields, Progress(slots, {}, None, 0), a, b, st)
    requires 0 < tag < 0x2000_0000 && Proper(p) && FieldAt(fields, tag, 0).None?
    ensures DecodedNoInit(fields, slots, a + (FieldBytes(tag, p) + b)) == DecodedNoInit(fields, slots, a + b)
  {
    GrammarIsField(tag, p);
    UnknownIsTransparent(fields, slots, a, FieldBytes(tag, p), tag, b, st);
  }

  // ---------- Required fields ----------

  /** The positions of the known fields that decoding meets. */
  function Met(fields: seq<Field>, st: Progress, bytes: seq<Byte>): set<nat>
    decreases |bytes|
  {
    var r := LoopStep(fields, st, bytes);
    if r.Fail? then {}
    else
      var p := FieldAt(fields, ReadVarint32(bytes).value / 8, 0);
      (if p.Some? then {p.value} else {}) + Met(fields, r.value, r.rest)
  }

  predicate TrackedAs(fields: seq<Field>, p: nat, i: nat) {
    p < |fields| && fields[p].htype.Required? && RequiredBefore(fields, p) == i && i < MAX_REQUIRED_FIELDS
  }

  lemma StepSees(fields: seq<Field>, st: Progress, bytes: seq<Byte>, i: nat)
    requires LoopStep(fields, st, bytes).Got?
    ensures var p := FieldAt(fields, ReadVarint32(bytes).value / 8, 0);
            i in LoopStep(fields, st, bytes).value.seen <==> i in st.seen || (p.Some? && TrackedAs(fields, p.value, i))
  {
    var t := ReadVarint32(bytes);
    var p := FieldAt(fields, t.value / 8, 0);
    if p.Some? {
      assert DecodedOne(fields, st, p.value, t.value % 8, t.rest).value.seen == Meet(fields, st, p.value).value.seen;
    }
  }

  lemma {:induction false} SeenIsMet(fields: seq<Field>, st: Progress, bytes: seq<Byte>, i: nat)
    requires DecodedFrom(fields, st, bytes).Got?
    ensures i in DecodedFrom(fields, st, bytes).value.seen <==>
            i in st.seen || exists p :: p in Met(fields, st, bytes) && TrackedAs(fields, p, i)
    decreases |bytes|
  {
    var r := LoopStep(fields, st, bytes);
    if r.Got? {
      StepUnfolds(fields, st, bytes);
      StepSees(fields, st, bytes, i);
      SeenIsMet(fields, r.value, r.rest, i);
    } else {
      assert Met(fields, st, bytes) == {};
    }
  }

  lemma {:induction false} NthRequired(fields: seq<Field>, n: nat, i: nat) returns (p: nat)
    requires n <= |fields| && i < RequiredBefore(fields, n)
    ensures p < n && fields[p].htype.Required? && RequiredBefore(fields, p) == i
    decreases n
  {
    if i < RequiredBefore(fields, n - 1) {
      p := NthRequired(fields, n - 1, i);
    } else {
      p := n - 1;
    }
  }

  lemma OwnIndex(fields: seq<Field>, p: nat, q: nat)
    requires p < |fields| && q < |fields| && fields[p].htype.Required? && fields[q].htype.Required?
    requires RequiredBefore(fields, p) == RequiredBefore(fields, q)
    ensures p == q
  {
    var lo, hi := if p < q then p else q, if p < q then q else p;
    if lo < hi {
      RequiredGrows(fields, lo + 1, hi);
    }
  }

  /**
   * Decoding that comes to the final check passes it if and only if each of the
   * first 64 required fields, in the order of the descriptor, was met.
   */
  lemma RequiredExactly(fields: seq<Field>, slots: Message, bytes: seq<Byte>)
    requires var r := DecodedFrom(fields, Progress(slots, {}, None, 0), bytes); r.Got? && FixedDone(fields, r.value)
    ensures DecodedNoInit(fields, slots, bytes).Got? <==>
            forall p | 0 <= p < |fields| && fields[p].htype.Required?
                       && RequiredBefore(fields, p) < 64 ::
              p in Met(fields, Progress(slots, {}, None, 0), bytes)
  {
    var st := Progress(slots, {}, None, 0);
    var seen, met := DecodedFrom(fields, st, bytes).value.seen, Met(fields, st, bytes);
    if AllSeen(fields, seen) {
      forall p | 0 <= p < |fields| && fields[p].htype.Required? && RequiredBefore(fields, p) < MAX_REQUIRED_FIELDS
        ensures p in met
      {
        var i := RequiredBefore(fields, p);
        RequiredGrows(fields, p + 1, |fields|);
        SeenIsMet(fields, st, bytes, i);
        var q :| q in met && TrackedAs(fields, q, i);
        OwnIndex(fields, p, q);
      }
    } else {
      var i: nat :| i < RequiredBefore(fields, |fields|) && i < MAX_REQUIRED_FIELDS && i !in seen;
      var p := NthRequired(fields, |fields|, i);
      SeenIsMet(fields, st, bytes, i);
      assert TrackedAs(fields, p, i);
    }
  }
}
