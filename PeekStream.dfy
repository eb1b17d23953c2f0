/** A read-only, forward-only stream with one byte of lookahead over an inner stream.

    The inner stream is modelled as an in-memory stream: its contents `source` and its
    position `innerPos`; its `ReadByte` and `Read` behave as a memory stream's do.  The
    lookahead is a stack of pending bytes that `Peek` pushes and the reads pop; the
    stack never holds more than one byte, and the byte it holds is the one the inner
    stream returned last, so the peek stream's position is the inner position less the
    pending bytes. */
module PeekStreams {
  import opened Bytes
  import opened Errors

  function Min(a: int, b: int): int {
    if a < b then a else b
  }

  /** `base` with `data` written over it from index `at` on. */
  function Splice(base: seq<byte>, at: nat, data: seq<byte>): seq<byte>
    requires at + |data| <= |base|
  {
    base[..at] + data + base[at + |data|..]
  }


  /** Writing two adjacent stretches of `src` one after the other writes the stretch
      that spans both. */
  lemma SpliceStretch(base: seq<byte>, at: nat, src: seq<byte>, from: nat, mid: nat, to: nat)
    requires from <= mid <= to <= |src| && at + (to - from) <= |base|
    ensures Splice(Splice(base, at, src[from..mid]), at + (mid - from), src[mid..to])
              == Splice(base, at, src[from..to])
  {
    SpliceAdjacent(base, at, src[from..mid], src[mid..to]);
    assert src[from..mid] + src[mid..to] == src[from..to];
  }

  /** Writing nothing changes nothing. */
  lemma SpliceNothing(base: seq<byte>, at: nat)
    requires at <= |base|
    ensures Splice(base, at, []) == base
  {
    assert base[..at] + base[at..] == base;
  }

  /** Two adjacent writes are one write of both. */
  lemma SpliceAdjacent(base: seq<byte>, at: nat, a: seq<byte>, b: seq<byte>)
    requires at + |a| + |b| <= |base|
    ensures Splice(Splice(base, at, a), at + |a|, b) == Splice(base, at, a + b)
  {
    var first := Splice(base, at, a);
    assert first[..at + |a|] == base[..at] + a;
    assert first[at + |a| + |b|..] == base[at + |a| + |b|..];
  }

  /** The argument checks of `Read` as written: `offset + count` is C#'s unchecked
      32-bit sum, so a sum past the largest `int` wraps to a negative number and
      passes the size check. */
  predicate ArgumentsAccepted(length: int, offset: int32, count: int32) {
    0 <= offset < length && count >= 0 && Wrap32(offset + count) < length
  }

  class PeekStream {
    /** The inner stream's contents. */
    const source: seq<byte>
    /** The inner stream's position. */
    var innerPos: nat
    /** The pending bytes; the top of the stack is the last element. */
    var stack: seq<byte>

    ghost predicate Valid()
      reads this
    {
      innerPos <= |source| &&
      |stack| <= 1 &&
      (|stack| == 1 ==> innerPos >= 1 && stack[0] == source[innerPos - 1])
    }

    constructor (inner: seq<byte>)
      ensures Valid() && source == inner && innerPos == 0 && stack == []
    {
      source := inner;
      innerPos := 0;
      stack := [];
    }

    /** The position the reader of this stream has reached. */
    function Position(): (p: int)
      reads this
      ensures Valid() ==> 0 <= p <= |source|
    {
      innerPos - |stack|
    }

    function Length(): (n: nat)
      ensures n == |source|
    {
      |source|
    }

    function CanSeek(): (b: bool)
      ensures !b
    {
      false
    }

    function CanWrite(): (b: bool)
      ensures !b
    {
      false
    }

    /** The next byte of the stream without consuming it, or None at its end. */
    method Peek() returns (b: Option<byte>)
      requires Valid()
      modifies this
      ensures Valid() && Position() == old(Position())
      ensures b == if old(Position()) < |source| then Some(source[old(Position())]) else None
      ensures old(stack) != [] ==> stack == old(stack) && innerPos == old(innerPos)
      ensures b.Some? ==> stack == [b.value]
    {
      if |stack| > 0 {
        return Some(stack[|stack| - 1]);
      }
      var next := InnerReadByte();
      if next == -1 {
        return None;
      }
      stack := stack + [next];
      b := Some(next);
    }

    /** The next byte of the stream, consumed, or -1 at its end. */
    method ReadByte() returns (r: int)
      requires Valid()
      modifies this
      ensures Valid() && stack == []
      ensures old(Position()) < |source| ==> r == source[old(Position())] && Position() == old(Position()) + 1
      ensures old(Position()) == |source| ==> r == -1 && Position() == old(Position())
    {
      if |stack| > 0 {
        r := stack[|stack| - 1];
        stack := stack[..|stack| - 1];
        return;
      }
      r := InnerReadByte();
    }

    /** The inner stream's `ReadByte`. */
    method InnerReadByte() returns (r: int)
      requires innerPos <= |source|
      modifies this`innerPos
      ensures old(innerPos) < |source| ==> r == source[old(innerPos)] && innerPos == old(innerPos) + 1
      ensures old(innerPos) == |source| ==> r == -1 && innerPos == old(innerPos)
    {
      if innerPos == |source| {
        return -1;
      }
      r := source[innerPos];
      innerPos := innerPos + 1;
    }

    /** The inner stream's `Read`: up to `count` bytes into `buffer` from `offset`. */
    method InnerRead(buffer: array<byte>, offset: int, count: int) returns (r: Result<nat>)
      requires innerPos <= |source|
      modifies this`innerPos, buffer
      ensures offset < 0 || count < 0 ==> r == Fail(ArgumentOutOfRange)
      ensures 0 <= offset && 0 <= count && buffer.Length - offset < count ==> r == Fail(Argument)
      ensures r.Fail? ==> innerPos == old(innerPos) && buffer[..] == old(buffer[..])
      ensures r.Ok? <==> 0 <= offset && 0 <= count && offset + count <= buffer.Length
      ensures r.Ok? ==> r.value == Min(count, |source| - old(innerPos)) &&
                        innerPos == old(innerPos) + r.value &&
                        buffer[..] == Splice(old(buffer[..]), offset, source[old(innerPos)..innerPos])
    {
      if offset < 0 || count < 0 {
        return Fail(ArgumentOutOfRange);
      }
      if buffer.Length - offset < count {
        return Fail(Argument);
      }
      var p := innerPos;
      var n := Min(count, |source| - p);
      var i := 0;
      while i < n
        modifies buffer
        invariant 0 <= i <= n
        invariant forall j :: 0 <= j < offset ==> buffer[j] == old(buffer[j])
        invariant forall j :: offset <= j < offset + i ==> buffer[j] == source[p + (j - offset)]
        invariant forall j :: offset + i <= j < buffer.Length ==> buffer[j] == old(buffer[j])
      {
        buffer[offset + i] := source[p + i];
        i := i + 1;
      }
      assert buffer[..offset] == old(buffer[..offset]);
      assert buffer[offset..offset + n] == source[p..p + n];
      assert buffer[offset + n..] == old(buffer[offset + n..]);
      assert buffer[..] == buffer[..offset] + buffer[offset..offset + n] + buffer[offset + n..];
      innerPos := p + n;
      r := Ok(n);
    }

    /** `Read` as written.  A pending byte is written at `buffer[offset]` without being
        counted: the inner stream is then asked for the full `count` bytes after it,
        and the value returned is what the inner stream delivered. */
    method Read(buffer: array?<byte>, offset: int32, count: int32) returns (r: Result<int32>)
      requires Valid()
      requires buffer != null ==> buffer.Length < 0x8000_0000
      modifies this, buffer
      ensures Valid()
      ensures buffer == null ==> r == Fail(ArgumentNull)
      ensures buffer != null && (offset < 0 || offset >= buffer.Length) ==> r == Fail(ArgumentOutOfRange)
      ensures buffer != null && 0 <= offset < buffer.Length && count < 0 ==> r == Fail(ArgumentOutOfRange)
      ensures buffer != null && 0 <= offset < buffer.Length && count >= 0 && Wrap32(offset + count) >= buffer.Length ==>
                r == Fail(Argument)
      ensures buffer == null || !ArgumentsAccepted(buffer.Length, offset, count) || count == 0 ==>
                stack == old(stack) && innerPos == old(innerPos) && (buffer != null ==> buffer[..] == old(buffer[..]))
      ensures buffer != null && ArgumentsAccepted(buffer.Length, offset, count) && count == 0 ==> r == Ok(0)
      ensures buffer != null && ArgumentsAccepted(buffer.Length, offset, count) && count > 0 ==>
                stack == [] &&
                if offset + count < buffer.Length then
                  var k := Min(count, |source| - old(innerPos));
                  r == Ok(k) && innerPos == old(innerPos) + k &&
                  buffer[..] == Splice(old(buffer[..]), offset, old(stack) + source[old(innerPos)..innerPos])
                else
                  r == Fail(Argument) && innerPos == old(innerPos) &&
                  buffer[..] == Splice(old(buffer[..]), offset, old(stack))
      // In the stream's own terms: the bytes written are the next bytes of the stream,
      // and a pending byte is among them but not in the count returned.
      ensures buffer != null && r.Ok? && count > 0 ==>
                old(Position()) <= Position() <= |source| &&
                Position() - old(Position()) == r.value + |old(stack)| &&
                offset + (Position() - old(Position())) <= buffer.Length &&
                buffer[offset..offset + (Position() - old(Position()))] == source[old(Position())..Position()]
    {
      if buffer == null {
        return Fail(ArgumentNull);
      }
      if offset < 0 || offset >= buffer.Length {
        return Fail(ArgumentOutOfRange);
      }
      if count < 0 {
        return Fail(ArgumentOutOfRange);
      }
      if Wrap32(offset + count) >= buffer.Length {
        return Fail(Argument);
      }
      if count == 0 {
        return Ok(0);
      }
      AcceptedArguments(buffer.Length, offset, count);
      ghost var pending, before, from := stack, buffer[..], innerPos;
      r := ReadAccepted(buffer, offset, count);
      if r.Ok? {
        StretchWritten(buffer[..], before, offset, pending, from, innerPos);
        assert old(Position()) == from - |pending| && Position() == innerPos;
      }
    }

    /** The part of `Read` past the argument checks: the pending bytes are popped,
        then the inner stream is read. */
    method ReadAccepted(buffer: array<byte>, offset: int32, count: int32) returns (r: Result<int32>)
      requires Valid() && buffer.Length < 0x8000_0000
      requires 0 <= offset < buffer.Length && count > 0
      requires offset + count < buffer.Length || offset + count >= 0x8000_0000
      modifies this, buffer
      ensures Valid() && stack == []
      ensures if offset + count < buffer.Length then
                var k := Min(count, |source| - old(innerPos));
                r == Ok(k) && innerPos == old(innerPos) + k &&
                buffer[..] == Splice(old(buffer[..]), offset, old(stack) + source[old(innerPos)..innerPos])
              else
                r == Fail(Argument) && innerPos == old(innerPos) &&
                buffer[..] == Splice(old(buffer[..]), offset, old(stack))
    {
      ghost var pending, before, from := stack, buffer[..], innerPos;
      var off := PopPending(buffer, offset, count);
      ghost var popped := buffer[..];
      assert popped == Splice(before, offset, pending) && off == offset + |pending|;
      r := ReadInner(buffer, off, count);
      if offset + count < buffer.Length {
        assert r.Ok?;
        ghost var written := buffer[..];
        PendingThenInner(written, before, offset, pending, from, innerPos);
      } else {
        assert r.Fail?;
      }
    }

    /** Popping the pending bytes and then reading the inner stream writes one stretch
        of the stream into the buffer. */
    lemma PendingThenInner(written: seq<byte>, before: seq<byte>, offset: nat, pending: seq<byte>, from: nat, to: nat)
      requires |pending| <= 1 && from <= to <= |source|
      requires |pending| == 1 ==> from >= 1 && pending[0] == source[from - 1]
      requires offset + |pending| + (to - from) <= |before|
      requires written == Splice(Splice(before, offset, pending), offset + |pending|, source[from..to])
      ensures written == Splice(before, offset, pending + source[from..to])
    {
      SpliceAdjacent(before, offset, pending, source[from..to]);
    }

    /** What `Read` writes is one stretch of the stream. */
    lemma StretchWritten(written: seq<byte>, before: seq<byte>, offset: nat, pending: seq<byte>, from: nat, to: nat)
      requires |pending| <= 1 && from <= to <= |source|
      requires |pending| == 1 ==> from >= 1 && pending[0] == source[from - 1]
      requires offset + |pending| + (to - from) <= |before|
      requires written == Splice(before, offset, pending + source[from..to])
      ensures written[offset..offset + |pending| + (to - from)] == source[from - |pending|..to]
    {
      PendingIsPrevious(pending, from, to);
    }

    /** A pending byte is the inner stream's previous byte, so the pending bytes and
        what the inner stream delivers next are one stretch of the stream. */
    lemma PendingIsPrevious(pending: seq<byte>, from: nat, to: nat)
      requires |pending| <= 1 && from <= to <= |source|
      requires |pending| == 1 ==> from >= 1 && pending[0] == source[from - 1]
      ensures pending + source[from..to] == source[from - |pending|..to]
    {
      if |pending| == 1 {
        assert source[from - 1..to] == [source[from - 1]] + source[from..to];
      }
    }

    /** The first loop of `Read`: the pending bytes, popped into `buffer` from `offset`.
        The count still to read is not decremented for them. */
    method PopPending(buffer: array<byte>, offset: int, bytesToRead: int) returns (off: int)
      requires Valid() && 0 <= offset < buffer.Length && bytesToRead > 0
      modifies this`stack, buffer
      ensures Valid() && stack == [] && off == offset + |old(stack)|
      ensures buffer[..] == Splice(old(buffer[..]), offset, old(stack))
    {
      off := offset;
      while bytesToRead > 0 && |stack| > 0
        invariant Valid() && off == offset + |old(stack)| - |stack|
        invariant buffer[..] == Splice(old(buffer[..]), offset, old(stack)[..|old(stack)| - |stack|])
      {
        buffer[off] := stack[|stack| - 1];
        stack := stack[..|stack| - 1];
        off := off + 1;
      }
      assert old(stack)[..|old(stack)|] == old(stack);
    }

    /** The second loop of `Read`: the inner stream is read until `count` bytes have
        come or it delivers none; the result is the number of bytes it delivered. */
    method ReadInner(buffer: array<byte>, offset: int, count: int) returns (r: Result<int32>)
      requires Valid() && stack == [] && 0 <= offset <= buffer.Length && 0 < count < 0x8000_0000
      modifies this`innerPos, buffer
      ensures Valid()
      ensures r.Ok? <==> offset + count <= buffer.Length
      ensures r.Fail? ==> r.error == Argument && innerPos == old(innerPos) && buffer[..] == old(buffer[..])
      ensures r.Ok? ==> r.value == Min(count, |source| - old(innerPos)) &&
                        innerPos == old(innerPos) + r.value &&
                        buffer[..] == Splice(old(buffer[..]), offset, source[old(innerPos)..innerPos])
    {
      var bytesToRead := count;
      var off := offset;
      while bytesToRead > 0
        invariant Valid()
        invariant 0 <= bytesToRead <= count && off == offset + (count - bytesToRead)
        invariant innerPos == old(innerPos) + (count - bytesToRead)
        invariant offset + count > buffer.Length ==> bytesToRead == count
        invariant off <= buffer.Length
        invariant buffer[..] == Splice(old(buffer[..]), offset, source[old(innerPos)..innerPos])
        decreases bytesToRead
      {
        var n :- ReadMore(buffer, off, bytesToRead, old(buffer[..]), offset, old(innerPos));
        if n == 0 {
          break;
        }
        off := off + n;
        bytesToRead := bytesToRead - n;
      }
      r := Ok(count - bytesToRead);
    }

    /** One pass of the second loop of `Read`: the inner stream's next bytes, written
        at `off`, extend what the loop has written from `offset` since `initial`. */
    method ReadMore(buffer: array<byte>, off: int, bytesToRead: int,
                    ghost initial: seq<byte>, ghost offset: nat, ghost start: nat) returns (r: Result<nat>)
      requires innerPos <= |source| && start <= innerPos && |initial| == buffer.Length
      requires off == offset + (innerPos - start) && off <= buffer.Length && 0 < bytesToRead
      requires buffer[..] == Splice(initial, offset, source[start..innerPos])
      modifies this`innerPos, buffer
      ensures r.Fail? <==> off + bytesToRead > buffer.Length
      ensures r.Fail? ==> r.error == Argument && innerPos == old(innerPos) && buffer[..] == old(buffer[..])
      ensures r.Ok? ==> r.value == Min(bytesToRead, |source| - old(innerPos)) &&
                        innerPos == old(innerPos) + r.value &&
                        buffer[..] == Splice(initial, offset, source[start..innerPos])
    {
      ghost var mid, written := innerPos, buffer[..];
      r := InnerRead(buffer, off, bytesToRead);
      if r.Ok? {
        if r.value == 0 {
          SpliceNothing(written, off);
        } else {
          SpliceStretch(initial, offset, source, start, mid, innerPos);
        }
      }
    }

    method Write(buffer: array?<byte>, offset: int32, count: int32) returns (r: Result<()>)
      ensures r == Fail(NotSupported)
    {
      r := Fail(NotSupported);
    }

    method SetLength(value: int) returns (r: Result<()>)
      ensures r == Fail(NotSupported)
    {
      r := Fail(NotSupported);
    }

    method Seek(offset: int, origin: int) returns (r: Result<int>)
      ensures r == Fail(NotSupported)
    {
      r := Fail(NotSupported);
    }

    method Flush() returns (r: Result<()>)
      ensures r == Fail(NotSupported)
    {
      r := Fail(NotSupported);
    }

    method SetPosition(value: int) returns (r: Result<()>)
      ensures r == Fail(NotSupported)
    {
      r := Fail(NotSupported);
    }
  }

  /** With no pending byte, the size check alone decides: a request is accepted when it
      ends inside the buffer short of its last byte, or when its end lies past the
      largest 32-bit integer and the unchecked sum wraps round. */
  lemma AcceptedArguments(length: int, offset: int32, count: int32)
    requires length < 0x8000_0000 && 0 <= offset < length && count >= 0
    ensures ArgumentsAccepted(length, offset, count) <==>
              offset + count < length || offset + count >= 0x8000_0000
  {
  }

  /** As written, a request for the whole buffer is refused. */
  lemma WholeBufferRefused(length: int)
    requires 0 < length < 0x8000_0000
    ensures !ArgumentsAccepted(length, 0, length)
  {
  }

  /** Peeking twice yields the same byte and consumes nothing. */
  method PeekTwice(s: PeekStream) returns (first: Option<byte>, second: Option<byte>)
    requires s.Valid()
    modifies s
    ensures s.Valid() && first == second && s.Position() == old(s.Position())
  {
    first := s.Peek();
    second := s.Peek();
  }

  /** Over the stream 01 02 03, a peek followed by a read of three bytes delivers all
      three bytes but reports two. */
  method ReadAfterPeek() returns (peeked: Option<byte>, r: Result<int32>, delivered: seq<byte>)
    ensures peeked == Some(1) && r == Ok(2) && delivered == [1, 2, 3]
  {
    var s := new PeekStream([1, 2, 3]);
    peeked := s.Peek();
    assert s.innerPos == 1;
    var buffer := new byte[4];
    assert Wrap32(3) == 3;
    r := s.Read(buffer, 0, 3);
    delivered := buffer[..3];
  }
}
