/** The value reader: the byte-level reads the decoder builds on.

    The reader's own source is not part of this model; its behaviour is the one its
    tests pin.  Its state is the input it has not yet consumed; a byte it has only
    peeked at still counts as unconsumed.  `ReadShort` and `Read` are exact-fill: on
    input that ends too early they consume what is there and fail with EndOfStream. */
module Readers {
  import opened Bytes
  import opened Errors
  import Utf8

  class ValueReader {
    /** The bytes of the stream not yet consumed. */
    var remaining: seq<byte>

    constructor (stream: seq<byte>)
      ensures remaining == stream
    {
      remaining := stream;
    }

    /** The next byte without consuming it; None at end of input. */
    method Peek() returns (b: Option<byte>)
      ensures b.Some? <==> remaining != []
      ensures b.Some? ==> b.value == remaining[0]
    {
      if remaining == [] {
        b := None;
      } else {
        b := Some(remaining[0]);
      }
    }

    /** Consumes and returns the next byte. */
    method ReadByte() returns (r: Result<byte>)
      modifies this
      ensures old(remaining) == [] ==> r == Fail(EndOfStream) && remaining == []
      ensures old(remaining) != [] ==> r == Ok(old(remaining)[0]) && remaining == old(remaining)[1..]
    {
      if remaining == [] {
        return Fail(EndOfStream);
      }
      r := Ok(remaining[0]);
      remaining := remaining[1..];
    }

    /** Consumes two bytes and returns them as a big-endian unsigned 16-bit value. */
    method ReadShort() returns (r: Result<int>)
      modifies this
      ensures |old(remaining)| < 2 ==> r == Fail(EndOfStream) && remaining == []
      ensures |old(remaining)| >= 2 ==>
                r == Ok(old(remaining)[0] as int * 0x100 + old(remaining)[1]) && remaining == old(remaining)[2..]
      ensures r.Ok? ==> 0 <= r.value < 0x1_0000
    {
      if |remaining| < 2 {
        remaining := [];
        return Fail(EndOfStream);
      }
      r := Ok(remaining[0] as int * 0x100 + remaining[1]);
      remaining := remaining[2..];
    }

    /** Fills the first `count` elements of `buffer` from the input. */
    method Read(buffer: array<byte>, count: nat) returns (r: Result<()>)
      requires count <= buffer.Length
      modifies this, buffer
      ensures |old(remaining)| < count ==>
                r == Fail(EndOfStream) && remaining == [] &&
                buffer[..] == old(remaining) + old(buffer[|remaining|..])
      ensures count <= |old(remaining)| ==>
                r == Ok(()) && remaining == old(remaining)[count..] &&
                buffer[..] == old(remaining)[..count] + old(buffer[count..])
    {
      var n := if |remaining| < count then |remaining| else count;
      var i := 0;
      while i < n
        invariant 0 <= i <= n <= |remaining|
        invariant remaining == old(remaining)
        invariant forall j :: 0 <= j < i ==> buffer[j] == remaining[j]
        invariant forall j :: i <= j < buffer.Length ==> buffer[j] == old(buffer[j])
      {
        buffer[i] := remaining[i];
        i := i + 1;
      }
      var was := remaining;
      remaining := remaining[n..];
      assert buffer[..n] == was[..n] && buffer[n..] == old(buffer[n..]);
      assert buffer[..] == buffer[..n] + buffer[n..];
      if n < count {
        assert was[..n] == was;
        return Fail(EndOfStream);
      }
      return Ok(());
    }

    /** Decodes one code point, substituting U+FFFD for malformed input. */
    method ReadUtf8Codepoint() returns (r: Result<nat>)
      modifies this
      ensures old(remaining) == [] ==> r == Fail(EndOfStream) && remaining == []
      ensures old(remaining) != [] ==>
                var d := Utf8.DecodeCodepoint(old(remaining)).value;
                r == Ok(d.codepoint) && remaining == old(remaining)[d.length..]
    {
      var d :- Utf8.DecodeCodepoint(remaining);
      r := Ok(d.codepoint);
      remaining := remaining[d.length..];
    }
  }

  /** Peeking does not consume: the byte a peek shows is the byte the next read returns. */
  method PeekThenReadByte(stream: seq<byte>) returns (peeked: Option<byte>, read: Result<byte>)
    ensures stream == [] ==> peeked == None && read == Fail(EndOfStream)
    ensures stream != [] ==> peeked == Some(stream[0]) && read == Ok(stream[0])
  {
    var reader := new ValueReader(stream);
    peeked := reader.Peek();
    read := reader.ReadByte();
  }

  /** Reading code points from a run of continuation bytes yields U+FFFD once per
      byte: each read consumes exactly one byte, so the reader never skips ahead. */
  method ReadContinuationRun(stream: seq<byte>) returns (codepoints: seq<nat>)
    requires forall i :: 0 <= i < |stream| ==> Utf8.IsContinuation(stream[i])
    ensures |codepoints| == |stream|
    ensures forall i :: 0 <= i < |codepoints| ==> codepoints[i] == Utf8.Replacement
  {
    var reader := new ValueReader(stream);
    codepoints := [];
    var i := 0;
    while i < |stream|
      invariant 0 <= i <= |stream|
      invariant reader.remaining == stream[i..]
      invariant |codepoints| == i
      invariant forall j :: 0 <= j < i ==> codepoints[j] == Utf8.Replacement
    {
      Utf8.LoneContinuationConsumesOne(reader.remaining);
      var cp := reader.ReadUtf8Codepoint();
      codepoints := codepoints + [cp.value];
      i := i + 1;
    }
  }
}
