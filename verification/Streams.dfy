/**
 * Byte streams of the message codec.  An output stream either writes into a
 * buffer or, with no callback, only counts; an input stream is a window of a buffer.
 */
module Streams {
  import opened Bytes
  import opened Wrappers

  // ---------- Output ----------

  /** What an output stream has done so far: how much it has counted, and the buffer up to its position. */
  datatype OutView = OutView(sizing: bool, max: nat, written: nat, data: seq<Byte>)

  /** A counting stream has room for everything. */
  predicate HasRoom(a: OutView, n: nat) {
    a.sizing || a.written + n <= a.max
  }

  /**
   * The effect of encoding `out` on a stream: it succeeds exactly when there is
   * something to encode and room for it, and then writes just that.
   */
  ghost predicate Emits(a: OutView, b: OutView, out: Option<seq<Byte>>, ok: bool) {
    && (ok <==> out.Some? && HasRoom(a, |out.value|))
    && (ok ==> b == a.(written := a.written + |out.value|, data := if a.sizing then a.data else a.data + out.value))
  }

  function Cat(x: Option<seq<Byte>>, y: Option<seq<Byte>>): Option<seq<Byte>> {
    if x.Some? && y.Some? then Some(x.value + y.value) else None
  }

  lemma EmitsBoth(a: OutView, b: OutView, c: OutView, x: Option<seq<Byte>>, y: Option<seq<Byte>>, ok: bool)
    requires Emits(a, b, x, true) && Emits(b, c, y, ok)
    ensures Emits(a, c, Cat(x, y), ok)
  {
    if ok && !a.sizing {
      assert a.data + (x.value + y.value) == (a.data + x.value) + y.value;
    }
  }

  lemma EmitsFirstFails(a: OutView, b: OutView, c: OutView, x: Option<seq<Byte>>, y: Option<seq<Byte>>)
    requires Emits(a, b, x, false)
    ensures Emits(a, c, Cat(x, y), false)
  {
  }

  lemma CatAssociates(a: Option<seq<Byte>>, b: Option<seq<Byte>>, c: Option<seq<Byte>>)
    ensures Cat(a, Cat(b, c)) == Cat(Cat(a, b), c)
  {
    if a.Some? && b.Some? && c.Some? {
      assert a.value + (b.value + c.value) == (a.value + b.value) + c.value;
    }
  }

  lemma CatNothing(x: Option<seq<Byte>>)
    ensures Cat(Some([]), x) == x && Cat(x, Some([])) == x
  {
    if x.Some? {
      assert [] + x.value == x.value && x.value + [] == x.value;
    }
  }

  /** One more part of an encoding: either it is out as well, or the whole fails. */
  lemma EmitsNext(a: OutView, b: OutView, c: OutView, done: Option<seq<Byte>>, one: Option<seq<Byte>>,
                  rest: Option<seq<Byte>>, ok: bool)
    requires Emits(a, b, done, true) && Emits(b, c, one, ok)
    ensures Cat(done, Cat(one, rest)) == Cat(Cat(done, one), rest)
    ensures if ok then Emits(a, c, Cat(done, one), true) else Emits(a, c, Cat(done, Cat(one, rest)), false)
  {
    EmitsBoth(a, b, c, done, one, ok);
    CatAssociates(done, one, rest);
    if !ok {
      EmitsFirstFails(a, c, c, Cat(done, one), rest);
    }
  }

  /** A counting pass and a writing pass with enough room agree on status and size. */
  lemma SizingEqualsWriting(a: OutView, a': OutView, b: OutView, b': OutView, out: Option<seq<Byte>>, okA: bool,
                            okB: bool)
    requires a.sizing && Emits(a, a', out, okA) && Emits(b, b', out, okB)
    requires okA ==> b.sizing || b.written + (a'.written - a.written) <= b.max
    ensures okA == okB && (okA ==> a'.written - a.written == b'.written - b.written)
    ensures okB && !b.sizing ==>
              b'.data == b.data + b'.data[|b.data|..] && |b'.data| - |b.data| == a'.written - a.written
  {
  }

  class OutStream {
    const sizing: bool            // no callback
    const buffer: array<Byte>
    var state: nat
    var maxSize: nat
    var bytesWritten: nat

    ghost predicate Valid()
      reads this
    {
      sizing || (bytesWritten <= maxSize && state + (maxSize - bytesWritten) <= buffer.Length)
    }

    ghost function View(): OutView
      requires Valid()
      reads this, buffer
    {
      OutView(sizing, maxSize, bytesWritten, if sizing then [] else buffer[..state])
    }

    /** A stream into a buffer, from its start. */
    constructor FromBuffer(buffer: array<Byte>, size: nat)
      requires size <= buffer.Length
      ensures Valid() && this.buffer == buffer && View() == OutView(false, size, 0, [])
    {
      sizing, this.buffer, state, maxSize, bytesWritten := false, buffer, 0, size, 0;
    }

    constructor Sizing()
      ensures Valid() && fresh(buffer) && View() == OutView(true, 0, 0, [])
    {
      sizing, buffer, state, maxSize, bytesWritten := true, new Byte[0], 0, 0, 0;
    }

    /** A stream that goes on where `parent` is, limited to `size` bytes. */
    constructor Within(parent: OutStream, size: nat)
      requires parent.Valid() && !parent.sizing && parent.bytesWritten + size <= parent.maxSize
      ensures Valid() && buffer == parent.buffer && View() == OutView(false, size, 0, parent.View().data)
      ensures state == parent.state
    {
      sizing, buffer, state, maxSize, bytesWritten := false, parent.buffer, parent.state, size, 0;
    }

    method BufWrite(data: seq<Byte>)
      requires Valid() && !sizing && bytesWritten + |data| <= maxSize
      modifies this`state, buffer
      ensures state == old(state) + |data| && buffer[..state] == old(buffer[..state]) + data
    {
      var dest := state;
      state := dest + |data|;
      for i := 0 to |data|
        invariant dest == old(state) && state == dest + |data| && dest + |data| <= buffer.Length
        invariant buffer[..dest] == old(buffer[..state])
        invariant forall k :: 0 <= k < i ==> buffer[dest + k] == data[k]
      {
        buffer[dest + i] := data[i];
      }
      assert buffer[dest..dest + |data|] == data;
    }

    method Write(data: seq<Byte>) returns (ok: bool)
      requires Valid()
      modifies this, buffer
      ensures Valid() && Emits(old(View()), View(), Some(data), ok)
    {
      if |data| > 0 && !sizing {
        if bytesWritten + |data| > maxSize {
          return false;
        }
        BufWrite(data);
      }
      bytesWritten := bytesWritten + |data|;
      ok := true;
      assert old(View()).data + data == View().data || sizing;
    }

    /** Writing without data, as only counting streams can. */
    method Count(n: nat)
      requires Valid() && sizing
      modifies this
      ensures Valid() && View() == old(View()).(written := old(View()).written + n)
    {
      bytesWritten := bytesWritten + n;
    }
  }

  // ---------- Input ----------

  /** What reading gives: a failure, or a value and the bytes that are left. */
  datatype Read<+T> = Fail | Got(value: T, rest: seq<Byte>)

  function ReadBytes(bytes: seq<Byte>, n: nat): Read<seq<Byte>> {
    if |bytes| < n then Fail else Got(bytes[..n], bytes[n..])
  }

  class InStream {
    const buffer: seq<Byte>
    var state: nat
    var bytesLeft: nat

    ghost predicate Valid()
      reads this
    {
      state + bytesLeft <= |buffer|
    }

    ghost function Rest(): (r: seq<Byte>)
      requires Valid()
      reads this
      ensures |r| == bytesLeft
    {
      buffer[state..state + bytesLeft]
    }

    /** Where the window ends; reading never moves this. */
    ghost function End(): nat
      reads this
    {
      state + bytesLeft
    }

    constructor FromBuffer(buffer: seq<Byte>)
      ensures Valid() && this.buffer == buffer && Rest() == buffer
    {
      this.buffer, state, bytesLeft := buffer, 0, |buffer|;
    }

    /** A copy of `parent` limited to its next `size` bytes. */
    constructor Within(parent: InStream, size: nat)
      requires parent.Valid() && size <= parent.bytesLeft
      ensures Valid() && buffer == parent.buffer && state == parent.state && bytesLeft == size
      ensures Rest() == parent.Rest()[..size]
    {
      buffer, state, bytesLeft := parent.buffer, parent.state, size;
    }

    method ReadN(count: nat) returns (ok: bool, data: seq<Byte>)
      requires Valid()
      modifies this
      ensures Valid() && End() == old(End())
      ensures var r := ReadBytes(old(Rest()), count);
              ok == r.Got? && (ok ==> data == r.value && Rest() == r.rest)
    {
      if count == 0 {
        assert Rest()[0..] == Rest();
        return true, [];
      }
      if bytesLeft < count {
        return false, [];
      }
      data := buffer[state..state + count];
      state, bytesLeft := state + count, bytesLeft - count;
      ok := true;
    }

    method ReadByte() returns (ok: bool, byte: Byte)
      requires Valid()
      modifies this
      ensures Valid() && End() == old(End())
      ensures ok == (old(Rest()) != [])
      ensures ok ==> byte == old(Rest())[0] && Rest() == old(Rest())[1..]
    {
      if bytesLeft == 0 {
        return false, 0;
      }
      byte := buffer[state];
      state, bytesLeft := state + 1, bytesLeft - 1;
      ok := true;
    }
  }
}
