/** The decoder's reading routines as functions of the input they start on.

    Each routine maps the unconsumed input to a `Step`: what it returns or the error it
    raises, together with the input left afterwards.  The Deserializer's methods are
    proved to follow these functions exactly, and the properties of the format are
    proved here about the functions. */
module Wire {
  import opened Bytes
  import opened Errors
  import opened Utf8
  import opened ClassDefs

  /** The outcome of a read and the input it leaves behind. */
  datatype Step<T> = Step(result: Result<T>, rest: seq<byte>)

  /** The values the decoder produces. */
  datatype Value =
    | StringValue(str: Str)
    | BinaryValue(bytes: seq<byte>)
    | LongValue(long: int)
    | NullValue
    | ClassValue(def: ClassDef)

  /** `rest` is what remains of `s` after consuming a prefix of it. */
  predicate IsSuffix(rest: seq<byte>, s: seq<byte>) {
    |rest| <= |s| && rest == s[|s| - |rest|..]
  }

  lemma SuffixOfSuffix(a: seq<byte>, b: seq<byte>, c: seq<byte>)
    requires IsSuffix(a, b) && IsSuffix(b, c)
    ensures IsSuffix(a, c)
  {
    assert c[|c| - |b|..][|b| - |a|..] == c[|c| - |a|..];
  }

  /** Carries a failure over to a step of another result type. */
  function Failed<T, U>(st: Step<T>): (r: Step<U>)
    requires st.result.Fail?
    ensures r.result.Fail? && r.result.error == st.result.error && r.rest == st.rest
  {
    Step(Fail(st.result.error), st.rest)
  }

  /** A step's result wrapped as a decoded value. */
  function AsString(st: Step<Str>): Step<Value> {
    if st.result.Ok? then Step(Ok(StringValue(st.result.value)), st.rest) else Failed(st)
  }

  function AsBinary(st: Step<seq<byte>>): Step<Value> {
    if st.result.Ok? then Step(Ok(BinaryValue(st.result.value)), st.rest) else Failed(st)
  }

  function AsLong(st: Step<int>): Step<Value> {
    if st.result.Ok? then Step(Ok(LongValue(st.result.value)), st.rest) else Failed(st)
  }

  function AsClass(st: Step<ClassDef>): Step<Value> {
    if st.result.Ok? then Step(Ok(ClassValue(st.result.value)), st.rest) else Failed(st)
  }

  /** Puts `prefix` in front of what a successful step read. */
  function Prepend<T>(prefix: seq<T>, st: Step<seq<T>>): Step<seq<T>> {
    if st.result.Ok? then Step(Ok(prefix + st.result.value), st.rest) else st
  }

  lemma PrependNothing<T>(st: Step<seq<T>>)
    ensures Prepend([], st) == st
  {
    if st.result.Ok? {
      assert [] + st.result.value == st.result.value;
    }
  }

  lemma PrependTwice<T>(a: seq<T>, b: seq<T>, st: Step<seq<T>>)
    ensures Prepend(a, Prepend(b, st)) == Prepend(a + b, st)
  {
    if st.result.Ok? {
      assert a + (b + st.result.value) == (a + b) + st.result.value;
    }
  }

  // ---- Primitive reads ----------------------------------------------------

  /** Exactly `n` raw bytes. */
  function ReadBytes(s: seq<byte>, n: nat): (st: Step<seq<byte>>)
    ensures IsSuffix(st.rest, s)
    ensures st.result.Ok? ==> st.result.value + st.rest == s && |st.result.value| == n
    ensures st.result.Fail? ==> st.result.error == EndOfStream && |s| < n
  {
    if |s| < n then Step(Fail(EndOfStream), []) else Step(Ok(s[..n]), s[n..])
  }

  /** Exactly `n` code points, each decoded by the strict UTF-8 reader. */
  function Codepoints(s: seq<byte>, n: nat): (st: Step<Str>)
    decreases n, 1
    ensures IsSuffix(st.rest, s)
    ensures st.result.Ok? ==> |st.result.value| == n && AllScalars(st.result.value)
    ensures st.result.Fail? ==> st.result.error == EndOfStream && st.rest == []
  {
    if n == 0 then Step(Ok([]), s) else NextCodepoints(s, n)
  }

  /** The first of `n > 0` code points, then the other `n - 1`. */
  function NextCodepoints(s: seq<byte>, n: nat): (st: Step<Str>)
    requires n > 0
    decreases n, 0
    ensures IsSuffix(st.rest, s)
    ensures st.result.Ok? ==> |st.result.value| == n && AllScalars(st.result.value)
    ensures st.result.Fail? ==> st.result.error == EndOfStream && st.rest == []
  {
    match DecodeCodepoint(s)
    case Fail(e) => Step(Fail(e), s)
    case Ok(d) => Prepend([d.codepoint], Codepoints(s[d.length..], n - 1))
  }

  /** One code point decoded at the head, then the others. */
  lemma CodepointsStep(s: seq<byte>, n: nat, cp: nat, length: nat)
    requires n > 0 && DecodeCodepoint(s) == Ok(Decoded(cp, length))
    ensures Codepoints(s, n) == Prepend([cp], Codepoints(s[length..], n - 1))
  {
  }

  // ---- Strings ---------------------------------------------------------------

  /** `ReadStringWithLength`: a negative length is refused by the string builder. */
  function StringWithLength(s: seq<byte>, length: int): Step<Str> {
    if length < 0 then Step(Fail(ArgumentOutOfRange), s) else Codepoints(s, length)
  }

  /** The length encoded by a two-byte medium form `b0 b1` whose family starts at
      `base`: `((b0 - base) << 8) | b1`, which equals the expression below for every
      byte `b1` in two's complement. */
  function MediumLength(b0: byte, b1: byte, base: int): int {
    (b0 - base) * 0x100 + b1
  }

  /** Tags 0x00..0x1F: the tag byte is the length in code points. */
  function ShortString(s: seq<byte>): Step<Str> {
    if s == [] then Step(Fail(EndOfStream), []) else StringWithLength(s[1..], s[0])
  }

  /** Tags 0x30..0x33: a ten-bit length over the tag and one more byte. */
  function MediumString(s: seq<byte>): Step<Str> {
    if |s| < 2 then Step(Fail(EndOfStream), [])
    else StringWithLength(s[2..], MediumLength(s[0], s[1], 0x30))
  }

  /** One chunk of a chunked string: the tag byte, a 16-bit code-point count and
      that many code points. */
  function StringChunk(s: seq<byte>): (st: Step<Str>)
    ensures IsSuffix(st.rest, s)
    ensures st.result.Ok? ==> |s| >= 3 && |st.rest| <= |s| - 3
  {
    if |s| < 3 then Step(Fail(EndOfStream), [])
    else
      var body := Codepoints(s[3..], s[1] as int * 0x100 + s[2]);
      SuffixOfSuffix(body.rest, s[3..], s);
      body
  }

  /** Chunks read one after another; the chunk whose tag is 'S' (0x53) is the last. */
  function ChunkedString(s: seq<byte>): (st: Step<Str>)
    decreases |s|
    ensures IsSuffix(st.rest, s)
  {
    var body := StringChunk(s);
    if body.result.Fail? || s[0] == 0x53 then body
    else
      var tail := ChunkedString(body.rest);
      SuffixOfSuffix(tail.rest, body.rest, s);
      Prepend(body.result.value, tail)
  }

  /** What `ChunkedString` adds to a prefix already read, one chunk at a time. */
  lemma ChunkedStringAdvance(prefix: Str, s: seq<byte>)
    ensures var body := StringChunk(s);
            Prepend(prefix, ChunkedString(s))
              == if body.result.Fail? then body
                 else if s[0] == 0x53 then Step(Ok(prefix + body.result.value), body.rest)
                 else Prepend(prefix + body.result.value, ChunkedString(body.rest))
  {
    var body := StringChunk(s);
    if body.result.Ok? && s[0] != 0x53 {
      PrependTwice(prefix, body.result.value, ChunkedString(body.rest));
    }
  }

  /** `ReadString`: the typed accessor for the string families. */
  function TypedString(s: seq<byte>): Step<Str> {
    if s == [] then Step(Fail(EndOfStream), [])
    else if s[0] < 0x20 then ShortString(s)
    else if 0x30 <= s[0] <= 0x33 then MediumString(s)
    else if s[0] == 0x52 || s[0] == 0x53 then ChunkedString(s)
    else Step(Fail(InvalidData), s)
  }

  // ---- Binary --------------------------------------------------------------------

  /** Tags 0x20..0x2F as written: the raw tag byte is taken as the byte count. */
  function ShortBinary(s: seq<byte>): Step<seq<byte>> {
    if s == [] then Step(Fail(EndOfStream), []) else ReadBytes(s[1..], s[0])
  }

  /** Tags 0x34..0x37: a ten-bit length over the tag and one more byte.  A negative
      length (a tag below 0x34) fails allocating the buffer. */
  function MediumBinary(s: seq<byte>): Step<seq<byte>> {
    if |s| < 2 then Step(Fail(EndOfStream), [])
    else
      var length := MediumLength(s[0], s[1], 0x34);
      if length < 0 then Step(Fail(Overflow), s[2..]) else ReadBytes(s[2..], length)
  }

  /** One chunk of a chunked binary: the tag byte, a 16-bit byte count and that
      many bytes. */
  function BinaryChunk(s: seq<byte>): (st: Step<seq<byte>>)
    ensures IsSuffix(st.rest, s)
    ensures st.result.Ok? ==> |s| >= 3 && |st.rest| <= |s| - 3
  {
    if |s| < 3 then Step(Fail(EndOfStream), [])
    else
      var body := ReadBytes(s[3..], s[1] as int * 0x100 + s[2]);
      SuffixOfSuffix(body.rest, s[3..], s);
      body
  }

  /** Chunks read one after another; the chunk whose tag is 'B' (0x42) is the last. */
  function ChunkedBinary(s: seq<byte>): (st: Step<seq<byte>>)
    decreases |s|
    ensures IsSuffix(st.rest, s)
  {
    var body := BinaryChunk(s);
    if body.result.Fail? || s[0] == 0x42 then body
    else
      var tail := ChunkedBinary(body.rest);
      SuffixOfSuffix(tail.rest, body.rest, s);
      Prepend(body.result.value, tail)
  }

  /** What `ChunkedBinary` adds to a prefix already read, one chunk at a time. */
  lemma ChunkedBinaryAdvance(prefix: seq<byte>, s: seq<byte>)
    ensures var body := BinaryChunk(s);
            Prepend(prefix, ChunkedBinary(s))
              == if body.result.Fail? then body
                 else if s[0] == 0x42 then Step(Ok(prefix + body.result.value), body.rest)
                 else Prepend(prefix + body.result.value, ChunkedBinary(body.rest))
  {
    var body := BinaryChunk(s);
    if body.result.Ok? && s[0] != 0x42 {
      PrependTwice(prefix, body.result.value, ChunkedBinary(body.rest));
    }
  }

  // ---- Numbers ------------------------------------------------------------------

  /** `((b0 - 0x3C) << 16) | (b1 << 8) | b2` over 64-bit integers. */
  function ThreeByteLong(s: seq<byte>): Step<int> {
    if |s| < 3 then Step(Fail(EndOfStream), [])
    else Step(Ok((s[0] - 0x3C) * 0x1_0000 + s[1] as int * 0x100 + s[2]), s[3..])
  }

  /** `ReadInteger` as written: a stub that returns 0 and reads nothing. */
  function Integer(s: seq<byte>): Step<int> {
    Step(Ok(0), s)
  }

  // ---- Class definitions --------------------------------------------------------

  /** `count` strings, each read by the typed string accessor, in stream order. */
  function Strings(s: seq<byte>, count: nat): Step<seq<Str>>
    decreases count
  {
    if count == 0 then Step(Ok([]), s)
    else
      var first := TypedString(s);
      if first.result.Fail? then Failed(first)
      else Prepend([first.result.value], Strings(first.rest, count - 1))
  }

  /** What `Strings` adds to a prefix already read, one string at a time. */
  lemma StringsAdvance(prefix: seq<Str>, s: seq<byte>, count: nat)
    requires count > 0
    ensures var first := TypedString(s);
            Prepend(prefix, Strings(s, count))
              == if first.result.Fail? then Step(Fail(first.result.error), first.rest)
                 else Prepend(prefix + [first.result.value], Strings(first.rest, count - 1))
  {
    var first := TypedString(s);
    if first.result.Ok? {
      PrependTwice(prefix, [first.result.value], Strings(first.rest, count - 1));
    }
  }

  /** Reading no more strings leaves the prefix read so far as the result. */
  lemma StringsDone(prefix: seq<Str>, s: seq<byte>)
    ensures Prepend(prefix, Strings(s, 0)) == Step(Ok(prefix), s)
  {
    assert prefix + [] == prefix;
  }

  /** The field names of a class definition; a negative count fails allocating the
      array that holds them. */
  function Fields(s: seq<byte>, count: int): Step<seq<Str>> {
    if count < 0 then Step(Fail(Overflow), s) else Strings(s, count)
  }

  /** `ReadClassDefinition`: the tag byte is consumed unchecked, then the name, the
      field count and the field names; the definition's id is the table's length. */
  function ClassDefinition(s: seq<byte>, tableLength: nat): Step<ClassDef> {
    if s == [] then Step(Fail(EndOfStream), [])
    else
      var name := TypedString(s[1..]);
      if name.result.Fail? then Failed(name)
      else
        var count := Integer(name.rest);
        var fields := Fields(count.rest, count.result.value);
        if fields.result.Fail? then Failed(fields)
        else Step(Ok(ClassDef(tableLength, name.result.value, fields.result.value)), fields.rest)
  }

  // ---- Dispatch -------------------------------------------------------------------

  /** `ReadObject`: peeks the tag and dispatches over 0x00..0x43. */
  function ObjectValue(s: seq<byte>, tableLength: nat): Step<Value> {
    if s == [] then Step(Fail(EndOfStream), [])
    else
      var tag := s[0];
      if tag < 0x20 then AsString(ShortString(s))
      else if tag < 0x30 then AsBinary(ShortBinary(s))
      else if tag < 0x34 then AsString(MediumString(s))
      else if tag < 0x38 then AsBinary(MediumBinary(s))
      else if tag < 0x40 then AsLong(ThreeByteLong(s))
      else if tag == 0x40 then Step(Ok(NullValue), s[1..])
      else if tag < 0x43 then AsBinary(ChunkedBinary(s))
      else if tag == 0x43 then AsClass(ClassDefinition(s, tableLength))
      else Step(Fail(NotImplemented), s)
  }
}
