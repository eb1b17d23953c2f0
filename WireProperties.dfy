/** Properties of the decoder's reading routines: each compact form of the Hessian 2.0
    format reads back what its encoding carries, every successful read consumes input,
    the errors each routine can raise, and the places where the code as written departs
    from the format (the short-binary length, the stubbed field count, the unchecked
    class-definition tag). */
module WireProperties {
  import opened Bytes
  import opened Errors
  import opened Utf8
  import opened ClassDefs
  import opened Wire

  // ---- Code points ----------------------------------------------------------------

  /** Reading `|cps|` code points from the UTF-8 encoding of `cps` gives `cps` back and
      leaves exactly what followed the encoding. */
  lemma {:induction false} CodepointsRoundTrip(cps: Str, rest: seq<byte>)
    requires AllScalars(cps)
    ensures Codepoints(EncodeString(cps) + rest, |cps|) == Step(Ok(cps), rest)
    decreases |cps|
  {
    if cps != [] {
      ScalarsTail(cps);
      CodepointsRoundTrip(cps[1..], rest);
      ExtendRoundTrip(cps, rest);
    }
  }

  /** The round trip of a string follows from the round trip of its tail. */
  lemma ExtendRoundTrip(cps: Str, rest: seq<byte>)
    requires cps != [] && AllScalars(cps) && AllScalars(cps[1..])
    requires Codepoints(EncodeString(cps[1..]) + rest, |cps| - 1) == Step(Ok(cps[1..]), rest)
    ensures Codepoints(EncodeString(cps) + rest, |cps|) == Step(Ok(cps), rest)
  {
    FirstCodepoint(cps, rest);
    assert [cps[0]] + cps[1..] == cps;
  }

  /** The first code point of an encoded string is read from its own encoding. */
  lemma FirstCodepoint(cps: Str, rest: seq<byte>)
    requires cps != [] && AllScalars(cps)
    ensures Codepoints(EncodeString(cps) + rest, |cps|)
              == Prepend([cps[0]], Codepoints(EncodeString(cps[1..]) + rest, |cps| - 1))
  {
    var s := EncodeString(cps) + rest;
    var e := Encode(cps[0]);
    var tail := EncodeString(cps[1..]) + rest;
    assert EncodeString(cps) == EncodeFirst(cps);
    assert s == e + tail;
    EncodeDecode(cps[0], tail);
    assert s[|e|..] == tail;
    CodepointsStep(s, |cps|, cps[0], |e|);
  }

  lemma ScalarsTail(cps: Str)
    requires cps != [] && AllScalars(cps)
    ensures AllScalars(cps[1..])
  {
    forall i | 0 <= i < |cps[1..]| ensures IsScalar(cps[1..][i]) {
      assert cps[1..][i] == cps[i + 1];
    }
  }

  predicate IsAscii(s: seq<byte>) {
    forall i :: 0 <= i < |s| ==> s[i] < 0x80
  }

  /** ASCII bytes are read as the code points of the same values, one byte each. */
  lemma {:induction false} AsciiCodepoints(s: seq<byte>, rest: seq<byte>)
    requires IsAscii(s)
    ensures Codepoints(s + rest, |s|) == Step(Ok(s), rest)
    decreases |s|
  {
    if s != [] {
      assert s + rest == [s[0]] + (s[1..] + rest);
      DecodesAscii(s[0], s[1..] + rest);
      assert IsAscii(s[1..]) by {
        forall i | 0 <= i < |s[1..]| ensures s[1..][i] < 0x80 {
          assert s[1..][i] == s[i + 1];
        }
      }
      AsciiCodepoints(s[1..], rest);
      assert [s[0]] + s[1..] == s;
    }
  }

  // ---- Strings ------------------------------------------------------------------

  /** The compact form of a string of fewer than 32 code points. */
  function ShortStringBytes(cps: Str): seq<byte>
    requires AllScalars(cps) && |cps| < 0x20
  {
    [|cps|] + EncodeString(cps)
  }

  /** A short string reads back, through the typed accessor and through the dispatcher. */
  lemma ShortStringRoundTrip(cps: Str, rest: seq<byte>, tableLength: nat)
    requires AllScalars(cps) && |cps| < 0x20
    ensures TypedString(ShortStringBytes(cps) + rest) == Step(Ok(cps), rest)
    ensures ObjectValue(ShortStringBytes(cps) + rest, tableLength) == Step(Ok(StringValue(cps)), rest)
  {
    var s := ShortStringBytes(cps) + rest;
    assert s[1..] == EncodeString(cps) + rest;
    CodepointsRoundTrip(cps, rest);
  }

  /** Tag 0x00 is the empty string and consumes only itself. */
  lemma ReadsCompactEmptyString(rest: seq<byte>)
    ensures TypedString([0x00] + rest) == Step(Ok([]), rest)
  {
    assert ([0x00] + rest)[1..] == rest;
  }

  /** The length carried by a medium form lies in 0..1023 for the four tags of its
      family, and every length in that range has exactly one encoding. */
  lemma MediumLengthRange(b0: byte, b1: byte, base: int)
    requires base <= b0 < base + 4
    ensures 0 <= MediumLength(b0, b1, base) < 0x400
    ensures b0 == base + MediumLength(b0, b1, base) / 0x100 && b1 == MediumLength(b0, b1, base) % 0x100
  {
  }

  /** The medium form of a string of fewer than 1024 code points. */
  function MediumStringBytes(cps: Str): seq<byte>
    requires AllScalars(cps) && |cps| < 0x400
  {
    [0x30 + |cps| / 0x100, |cps| % 0x100] + EncodeString(cps)
  }

  lemma MediumStringRoundTrip(cps: Str, rest: seq<byte>, tableLength: nat)
    requires AllScalars(cps) && |cps| < 0x400
    ensures TypedString(MediumStringBytes(cps) + rest) == Step(Ok(cps), rest)
    ensures ObjectValue(MediumStringBytes(cps) + rest, tableLength) == Step(Ok(StringValue(cps)), rest)
  {
    MediumStringReads(cps, rest);
  }

  lemma MediumStringReads(cps: Str, rest: seq<byte>)
    requires AllScalars(cps) && |cps| < 0x400
    ensures var s := MediumStringBytes(cps) + rest;
      |s| >= 2 && 0x30 <= s[0] <= 0x33 && MediumString(s) == Step(Ok(cps), rest)
  {
    var s := MediumStringBytes(cps) + rest;
    assert s[2..] == EncodeString(cps) + rest;
    assert MediumLength(s[0], s[1], 0x30) == |cps|;
    CodepointsRoundTrip(cps, rest);
  }

  /** The chunks of a chunked value: each chunk's length fits the 16-bit count. */
  predicate StringChunks(chunks: seq<Str>) {
    |chunks| > 0 && forall i :: 0 <= i < |chunks| ==> AllScalars(chunks[i]) && |chunks[i]| < 0x1_0000
  }

  /** One chunk of a chunked string: its tag, its 16-bit code-point count, its code
      points. */
  function StringChunkBytes(tag: byte, c: Str): seq<byte>
    requires AllScalars(c) && |c| < 0x1_0000
  {
    [tag, |c| / 0x100, |c| % 0x100] + EncodeString(c)
  }

  /** The chunks of a chunked string: 'R' before every chunk but the last, 'S' before
      the last. */
  function ChunkedStringBytes(chunks: seq<Str>): seq<byte>
    requires StringChunks(chunks)
    decreases |chunks|
  {
    if |chunks| == 1 then StringChunkBytes(0x53, chunks[0])
    else
      assert StringChunks(chunks[1..]) by {
        forall i | 0 <= i < |chunks[1..]|
          ensures AllScalars(chunks[1..][i]) && |chunks[1..][i]| < 0x1_0000
        {
          assert chunks[1..][i] == chunks[i + 1];
        }
      }
      StringChunkBytes(0x52, chunks[0]) + ChunkedStringBytes(chunks[1..])
  }

  function Concat<T>(chunks: seq<seq<T>>): seq<T> {
    if chunks == [] then [] else chunks[0] + Concat(chunks[1..])
  }

  /** One chunk reads back as its code points, whatever its tag and whatever follows. */
  lemma ReadsStringChunk(tag: byte, c: Str, after: seq<byte>)
    requires AllScalars(c) && |c| < 0x1_0000
    ensures var s := StringChunkBytes(tag, c) + after;
            s[0] == tag && StringChunk(s) == Step(Ok(c), after)
  {
    var s := StringChunkBytes(tag, c) + after;
    assert s[3..] == EncodeString(c) + after;
    assert s[1] as int * 0x100 + s[2] == |c|;
    CodepointsRoundTrip(c, after);
  }

  /** A chunked string reads back as the concatenation of its chunks, in order, and
      reading stops right after the chunk tagged 'S'. */
  lemma {:induction false} ChunkedStringRoundTrip(chunks: seq<Str>, rest: seq<byte>)
    requires StringChunks(chunks)
    ensures ChunkedString(ChunkedStringBytes(chunks) + rest) == Step(Ok(Concat(chunks)), rest)
    decreases |chunks|
  {
    var s := ChunkedStringBytes(chunks) + rest;
    var c := chunks[0];
    assert AllScalars(c) && |c| < 0x1_0000;
    if |chunks| == 1 {
      ReadsStringChunk(0x53, c, rest);
      assert chunks[1..] == [] && c + [] == c;
    } else {
      var after := ChunkedStringBytes(chunks[1..]) + rest;
      assert s == StringChunkBytes(0x52, c) + after;
      ReadsStringChunk(0x52, c, after);
      ChunkedStringRoundTrip(chunks[1..], rest);
    }
  }

  /** Through the typed string accessor, a chunked string reads back the same way. */
  lemma ChunkedStringTyped(chunks: seq<Str>, rest: seq<byte>)
    requires StringChunks(chunks)
    ensures TypedString(ChunkedStringBytes(chunks) + rest) == Step(Ok(Concat(chunks)), rest)
  {
    var c := chunks[0];
    assert AllScalars(c) && |c| < 0x1_0000;
    if |chunks| == 1 {
      ReadsStringChunk(0x53, c, rest);
    } else {
      ReadsStringChunk(0x52, c, ChunkedStringBytes(chunks[1..]) + rest);
    }
    ChunkedStringRoundTrip(chunks, rest);
  }

  /** Any chunk tag other than 'S' marks a chunk that is not the last: replacing one
      such tag by another changes nothing. */
  lemma NonFinalStringTags(s: seq<byte>, t: byte)
    requires s != [] && s[0] != 0x53 && t != 0x53
    ensures ChunkedString([t] + s[1..]) == ChunkedString(s)
  {
    var s' := [t] + s[1..];
    assert s'[1..] == s[1..];
    StringChunkIgnoresTag(s', s);
  }

  /** A string chunk reads the same whatever its tag byte. */
  lemma StringChunkIgnoresTag(a: seq<byte>, b: seq<byte>)
    requires a != [] && b != [] && a[1..] == b[1..]
    ensures StringChunk(a) == StringChunk(b)
  {
    if |a| >= 3 {
      assert a[1] == b[1] && a[2] == b[2] && a[3..] == b[3..];
    }
  }

  /** Every chunked-string failure is an end of input. */
  lemma {:induction false} ChunkedStringFailure(s: seq<byte>)
    requires ChunkedString(s).result.Fail?
    ensures ChunkedString(s).result.error == EndOfStream
    decreases |s|
  {
    var body := StringChunk(s);
    if body.result.Ok? && s[0] != 0x53 {
      ChunkedStringFailure(body.rest);
    }
  }

  /** The typed string accessor refuses, with `InvalidData` and consuming nothing,
      exactly the tags outside the short, medium and chunked string families; every
      other failure is an end of input. */
  lemma TypedStringFailure(s: seq<byte>)
    ensures (TypedString(s).result == Fail(InvalidData))
            <==> (s != [] && !(s[0] < 0x20 || 0x30 <= s[0] <= 0x33 || s[0] == 0x52 || s[0] == 0x53))
    ensures TypedString(s).result == Fail(InvalidData) ==> TypedString(s).rest == s
    ensures (TypedString(s).result.Fail? && TypedString(s).result.error != InvalidData)
            ==> TypedString(s).result.error == EndOfStream
  {
    if s != [] && (s[0] == 0x52 || s[0] == 0x53) && ChunkedString(s).result.Fail? {
      ChunkedStringFailure(s);
    }
  }

  // ---- Binary ---------------------------------------------------------------------

  /** As written, the short-binary tag itself is the byte count: a tag `t` in
      0x20..0x2F is followed by `t` bytes (32 to 47), which are read back. */
  lemma ShortBinaryAsWritten(t: byte, data: seq<byte>, rest: seq<byte>, tableLength: nat)
    requires 0x20 <= t < 0x30 && |data| == t
    ensures ObjectValue([t] + data + rest, tableLength) == Step(Ok(BinaryValue(data)), rest)
  {
    var s := [t] + data + rest;
    assert s[1..] == data + rest;
    assert (data + rest)[..t] == data && (data + rest)[t..] == rest;
  }

  /** The format's short binary, tag 0x20 + length followed by the bytes, does not read
      back on its own: the count taken is 32 more than the bytes that follow. */
  lemma ShortBinaryFormatFails(data: seq<byte>, tableLength: nat)
    requires |data| < 0x10
    ensures ObjectValue([0x20 + |data|] + data, tableLength) == Step(Fail(EndOfStream), [])
  {
    assert ([0x20 + |data|] + data)[1..] == data;
  }

  /** The medium form of a binary of fewer than 1024 bytes. */
  function MediumBinaryBytes(data: seq<byte>): seq<byte>
    requires |data| < 0x400
  {
    [0x34 + |data| / 0x100, |data| % 0x100] + data
  }

  lemma MediumBinaryRoundTrip(data: seq<byte>, rest: seq<byte>, tableLength: nat)
    requires |data| < 0x400
    ensures ObjectValue(MediumBinaryBytes(data) + rest, tableLength) == Step(Ok(BinaryValue(data)), rest)
  {
    var s := MediumBinaryBytes(data) + rest;
    assert s[2..] == data + rest;
    assert MediumLength(s[0], s[1], 0x34) == |data|;
    assert (data + rest)[..|data|] == data && (data + rest)[|data|..] == rest;
  }

  predicate BinaryChunks(chunks: seq<seq<byte>>) {
    |chunks| > 0 && forall i :: 0 <= i < |chunks| ==> |chunks[i]| < 0x1_0000
  }

  /** One chunk of a chunked binary: its tag, its 16-bit byte count, its bytes. */
  function BinaryChunkBytes(tag: byte, c: seq<byte>): seq<byte>
    requires |c| < 0x1_0000
  {
    [tag, |c| / 0x100, |c| % 0x100] + c
  }

  /** The chunks of a chunked binary: 'A' before every chunk but the last, 'B' before
      the last. */
  function ChunkedBinaryBytes(chunks: seq<seq<byte>>): seq<byte>
    requires BinaryChunks(chunks)
    decreases |chunks|
  {
    if |chunks| == 1 then BinaryChunkBytes(0x42, chunks[0])
    else
      assert BinaryChunks(chunks[1..]) by {
        forall i | 0 <= i < |chunks[1..]| ensures |chunks[1..][i]| < 0x1_0000 {
          assert chunks[1..][i] == chunks[i + 1];
        }
      }
      BinaryChunkBytes(0x41, chunks[0]) + ChunkedBinaryBytes(chunks[1..])
  }

  /** One chunk reads back as its bytes, whatever its tag and whatever follows. */
  lemma ReadsBinaryChunk(tag: byte, c: seq<byte>, after: seq<byte>)
    requires |c| < 0x1_0000
    ensures var s := BinaryChunkBytes(tag, c) + after;
            s[0] == tag && BinaryChunk(s) == Step(Ok(c), after)
  {
    var s := BinaryChunkBytes(tag, c) + after;
    assert s[3..] == c + after;
    assert s[1] as int * 0x100 + s[2] == |c|;
    assert (c + after)[..|c|] == c && (c + after)[|c|..] == after;
  }

  /** A chunked binary reads back as the concatenation of its chunks, in order, and
      reading stops right after the chunk tagged 'B'. */
  lemma {:induction false} ChunkedBinaryRoundTrip(chunks: seq<seq<byte>>, rest: seq<byte>)
    requires BinaryChunks(chunks)
    ensures ChunkedBinary(ChunkedBinaryBytes(chunks) + rest) == Step(Ok(Concat(chunks)), rest)
    decreases |chunks|
  {
    var s := ChunkedBinaryBytes(chunks) + rest;
    var c := chunks[0];
    assert |c| < 0x1_0000;
    if |chunks| == 1 {
      ReadsBinaryChunk(0x42, c, rest);
      assert chunks[1..] == [] && c + [] == c;
    } else {
      var after := ChunkedBinaryBytes(chunks[1..]) + rest;
      assert s == BinaryChunkBytes(0x41, c) + after;
      ReadsBinaryChunk(0x41, c, after);
      ChunkedBinaryRoundTrip(chunks[1..], rest);
    }
  }

  /** Through the dispatcher, a chunked binary is a binary value. */
  lemma ChunkedBinaryValue(chunks: seq<seq<byte>>, rest: seq<byte>, tableLength: nat)
    requires BinaryChunks(chunks)
    ensures ObjectValue(ChunkedBinaryBytes(chunks) + rest, tableLength) == Step(Ok(BinaryValue(Concat(chunks))), rest)
  {
    var c := chunks[0];
    assert |c| < 0x1_0000;
    if |chunks| == 1 {
      ReadsBinaryChunk(0x42, c, rest);
    } else {
      ReadsBinaryChunk(0x41, c, ChunkedBinaryBytes(chunks[1..]) + rest);
    }
    ChunkedBinaryRoundTrip(chunks, rest);
  }

  /** Any chunk tag other than 'B' marks a chunk that is not the last. */
  lemma NonFinalBinaryTags(s: seq<byte>, t: byte)
    requires s != [] && s[0] != 0x42 && t != 0x42
    ensures ChunkedBinary([t] + s[1..]) == ChunkedBinary(s)
  {
    var s' := [t] + s[1..];
    assert s'[1..] == s[1..];
    BinaryChunkIgnoresTag(s', s);
  }

  /** A binary chunk reads the same whatever its tag byte. */
  lemma BinaryChunkIgnoresTag(a: seq<byte>, b: seq<byte>)
    requires a != [] && b != [] && a[1..] == b[1..]
    ensures BinaryChunk(a) == BinaryChunk(b)
  {
    if |a| >= 3 {
      assert a[1] == b[1] && a[2] == b[2] && a[3..] == b[3..];
    }
  }

  /** Every chunked-binary failure is an end of input. */
  lemma {:induction false} ChunkedBinaryFailure(s: seq<byte>)
    requires ChunkedBinary(s).result.Fail?
    ensures ChunkedBinary(s).result.error == EndOfStream
    decreases |s|
  {
    var body := BinaryChunk(s);
    if body.result.Ok? && s[0] != 0x42 {
      ChunkedBinaryFailure(body.rest);
    }
  }

  // ---- Numbers ------------------------------------------------------------------

  /** The three-byte form of a long in -262144..262143. */
  function ThreeByteLongBytes(v: int): seq<byte>
    requires -0x4_0000 <= v < 0x4_0000
  {
    [0x3C + v / 0x1_0000, (v / 0x100) % 0x100, v % 0x100]
  }

  /** The three bytes of the form put back together give the long. */
  lemma ThreeByteDigits(v: int)
    requires -0x4_0000 <= v < 0x4_0000
    ensures var e := ThreeByteLongBytes(v);
            0x38 <= e[0] < 0x40 && (e[0] as int - 0x3C) * 0x1_0000 + e[1] as int * 0x100 + e[2] as int == v
  {
    var hi, mid, lo := v / 0x1_0000, (v / 0x100) % 0x100, v % 0x100;
    assert v == (v / 0x100) * 0x100 + lo;
    assert v / 0x100 == hi * 0x100 + mid;
  }

  /** Every long in -262144..262143 reads back from its three-byte form. */
  lemma ThreeByteLongRoundTrip(v: int, rest: seq<byte>, tableLength: nat)
    requires -0x4_0000 <= v < 0x4_0000
    ensures ObjectValue(ThreeByteLongBytes(v) + rest, tableLength) == Step(Ok(LongValue(v)), rest)
  {
    var e := ThreeByteLongBytes(v);
    ThreeByteDigits(v);
    var s := e + rest;
    assert s[0] == e[0] && s[1] == e[1] && s[2] == e[2] && s[3..] == rest;
    assert ThreeByteLong(s) == Step(Ok(v), rest);
  }

  /** Every three-byte form carries a long in -262144..262143, and it is the form
      `ThreeByteLongBytes` writes for that long. */
  lemma ThreeByteLongRange(s: seq<byte>)
    requires |s| >= 3 && 0x38 <= s[0] < 0x40
    ensures var v := ThreeByteLong(s).result.value;
            -0x4_0000 <= v < 0x4_0000 && ThreeByteLongBytes(v) == s[..3]
  {
    var v := ThreeByteLong(s).result.value;
    var b0: int, b1: int, b2: int := s[0], s[1], s[2];
    assert v == (b0 - 0x3C) * 0x1_0000 + b1 * 0x100 + b2;
    assert v / 0x100 == (b0 - 0x3C) * 0x100 + b1;
    assert v / 0x1_0000 == b0 - 0x3C;
    assert s[..3] == [s[0], s[1], s[2]];
  }

  // ---- Class definitions ----------------------------------------------------------

  /** Strings read in a row leave a suffix of the input. */
  lemma {:induction false} StringsLeaveSuffix(s: seq<byte>, count: nat)
    ensures IsSuffix(Strings(s, count).rest, s)
    decreases count
  {
    if count > 0 {
      var first := TypedString(s);
      TypedStringLeavesSuffix(s);
      if first.result.Ok? {
        StringsLeaveSuffix(first.rest, count - 1);
        SuffixOfSuffix(Strings(first.rest, count - 1).rest, first.rest, s);
      }
    }
  }

  lemma TypedStringLeavesSuffix(s: seq<byte>)
    ensures IsSuffix(TypedString(s).rest, s)
  {
    if s != [] && s[0] < 0x20 {
      SuffixOfSuffix(TypedString(s).rest, s[1..], s);
    } else if |s| >= 2 && 0x30 <= s[0] <= 0x33 {
      SuffixOfSuffix(TypedString(s).rest, s[2..], s);
    }
  }

  /** As written: the tag byte is consumed unchecked, the field count is the stub's 0
      and so no field name is read; the definition's id is the table's length and the
      name is what the typed string accessor reads after the tag. */
  lemma ClassDefinitionAsWritten(s: seq<byte>, tableLength: nat)
    requires s != []
    ensures var name := TypedString(s[1..]);
            ClassDefinition(s, tableLength)
              == if name.result.Fail? then Step(Fail(name.result.error), name.rest)
                 else Step(Ok(ClassDef(tableLength, name.result.value, [])), name.rest)
  {
  }

  /** The tag byte of a class definition makes no difference. */
  lemma ClassDefinitionTagUnchecked(t: byte, u: byte, body: seq<byte>, tableLength: nat)
    ensures ClassDefinition([t] + body, tableLength) == ClassDefinition([u] + body, tableLength)
  {
    assert ([t] + body)[1..] == body == ([u] + body)[1..];
  }

  /** A class definition whose name is a short ASCII string reads as a class of that
      name with no fields, stopping right after the name. */
  lemma ClassWithShortAsciiName(name: seq<byte>, after: seq<byte>, tableLength: nat)
    requires IsAscii(name) && |name| < 0x20
    ensures ObjectValue([0x43, |name|] + name + after, tableLength)
              == Step(Ok(ClassValue(ClassDef(tableLength, name, []))), after)
  {
    var s := [0x43, |name|] + name + after;
    assert s[1..] == [|name|] + name + after;
    ShortAsciiString(name, after);
    ClassDefinitionAsWritten(s, tableLength);
  }

  /** A short ASCII string reads back as its bytes. */
  lemma ShortAsciiString(name: seq<byte>, after: seq<byte>)
    requires IsAscii(name) && |name| < 0x20
    ensures TypedString([|name|] + name + after) == Step(Ok(name), after)
  {
    var s := [|name|] + name + after;
    assert s[1..] == name + after;
    AsciiCodepoints(name, after);
  }

  /** The two-field definition 'C', "sample", 2, "foo", "bar" reads as a class named
      "sample" with no fields, stopping at the field count byte 0x92; the dispatcher
      gives it the id of the next table slot. */
  lemma SampleClassDefinition(s: seq<byte>, tableLength: nat)
    requires s == [0x43, 0x06, 0x73, 0x61, 0x6D, 0x70, 0x6C, 0x65,
                   0x92, 0x03, 0x66, 0x6F, 0x6F, 0x03, 0x62, 0x61, 0x72]
    ensures ObjectValue(s, tableLength)
              == Step(Ok(ClassValue(ClassDef(tableLength, [0x73, 0x61, 0x6D, 0x70, 0x6C, 0x65], []))), s[8..])
  {
    var name: seq<byte> := s[2..8];
    assert name == [0x73, 0x61, 0x6D, 0x70, 0x6C, 0x65];
    assert s == [0x43, |name|] + name + s[8..];
    ClassWithShortAsciiName(name, s[8..], tableLength);
  }

  // ---- Dispatch -----------------------------------------------------------------

  /** The dispatcher fails with `NotImplemented`, consuming nothing, exactly on the tags
      above 0x43; empty input is an end of stream. */
  lemma ObjectValueNotImplemented(s: seq<byte>, tableLength: nat)
    ensures ObjectValue(s, tableLength).result == Fail(NotImplemented) <==> s != [] && s[0] > 0x43
    ensures s != [] && s[0] > 0x43 ==> ObjectValue(s, tableLength).rest == s
    ensures s == [] ==> ObjectValue(s, tableLength) == Step(Fail(EndOfStream), [])
  {
    if s != [] && 0x41 <= s[0] <= 0x42 {
      ChunkedBinaryImplemented(s, tableLength);
    } else if s != [] && s[0] == 0x43 {
      ClassDefinitionImplemented(s, tableLength);
    }
  }

  /** A chunked binary never fails as not implemented. */
  lemma ChunkedBinaryImplemented(s: seq<byte>, tableLength: nat)
    requires s != [] && 0x41 <= s[0] <= 0x42
    ensures ObjectValue(s, tableLength).result != Fail(NotImplemented)
  {
    if ChunkedBinary(s).result.Fail? {
      ChunkedBinaryFailure(s);
    }
  }

  /** A class definition never fails as not implemented. */
  lemma ClassDefinitionImplemented(s: seq<byte>, tableLength: nat)
    requires s != [] && s[0] == 0x43
    ensures ObjectValue(s, tableLength).result != Fail(NotImplemented)
  {
    ClassDefinitionAsWritten(s, tableLength);
    TypedStringFailure(s[1..]);
  }

  /** Tag 0x40 is null and consumes the tag byte only. */
  lemma ReservedIsNull(s: seq<byte>, tableLength: nat)
    requires s != [] && s[0] == 0x40
    ensures ObjectValue(s, tableLength) == Step(Ok(NullValue), s[1..])
  {
  }

  /** `rest` is what is left of `s` after consuming at least one byte. */
  predicate Consumed(rest: seq<byte>, s: seq<byte>) {
    IsSuffix(rest, s) && |rest| < |s|
  }

  /** What is left after the first `k > 0` bytes and then some more is consumed. */
  lemma ConsumedAfter(rest: seq<byte>, s: seq<byte>, k: nat)
    requires 0 < k <= |s| && IsSuffix(rest, s[k..])
    ensures Consumed(rest, s)
  {
    SuffixOfSuffix(rest, s[k..], s);
  }

  /** Each reader the dispatcher delegates to consumes input when it succeeds. */
  lemma StringReadersConsume(s: seq<byte>)
    ensures ShortString(s).result.Ok? ==> Consumed(ShortString(s).rest, s)
    ensures MediumString(s).result.Ok? ==> Consumed(MediumString(s).rest, s)
  {
    if s != [] {
      ConsumedAfter(ShortString(s).rest, s, 1);
    }
    if |s| >= 2 {
      ConsumedAfter(MediumString(s).rest, s, 2);
    }
  }

  lemma BinaryReadersConsume(s: seq<byte>)
    ensures ShortBinary(s).result.Ok? ==> Consumed(ShortBinary(s).rest, s)
    ensures MediumBinary(s).result.Ok? ==> Consumed(MediumBinary(s).rest, s)
  {
    if s != [] {
      ConsumedAfter(ShortBinary(s).rest, s, 1);
    }
    if |s| >= 2 {
      ConsumedAfter(MediumBinary(s).rest, s, 2);
    }
  }

  lemma ChunkedBinaryConsumes(s: seq<byte>)
    ensures ChunkedBinary(s).result.Ok? ==> Consumed(ChunkedBinary(s).rest, s)
  {
    var body := BinaryChunk(s);
    if body.result.Ok? && s[0] != 0x42 {
      SuffixOfSuffix(ChunkedBinary(body.rest).rest, body.rest, s);
    }
  }

  lemma ClassDefinitionConsumes(s: seq<byte>, tableLength: nat)
    ensures ClassDefinition(s, tableLength).result.Ok? ==> Consumed(ClassDefinition(s, tableLength).rest, s)
  {
    if s != [] {
      ClassDefinitionAsWritten(s, tableLength);
      TypedStringLeavesSuffix(s[1..]);
      ConsumedAfter(TypedString(s[1..]).rest, s, 1);
    }
  }

  /** Every value read consumes at least one byte, so reading values one after
      another always makes progress. */
  lemma ObjectValueConsumes(s: seq<byte>, tableLength: nat)
    requires ObjectValue(s, tableLength).result.Ok?
    ensures Consumed(ObjectValue(s, tableLength).rest, s)
  {
    var t := s[0];
    if t < 0x20 || 0x30 <= t < 0x34 {
      StringReadersConsume(s);
    } else if t < 0x38 {
      BinaryReadersConsume(s);
    } else if t < 0x40 {
      ConsumedAfter(s[3..], s, 3);
    } else if t == 0x40 {
      ConsumedAfter(s[1..], s, 1);
    } else if t < 0x43 {
      ChunkedBinaryConsumes(s);
    } else {
      ClassDefinitionConsumes(s, tableLength);
    }
  }
}
