/** The decode engine: reads tagged values from a value reader and keeps the
    append-only class-definition table.  Every method is proved to do exactly what the
    function of the same name in module Wire describes, including the error raised and
    the input left behind when it fails. */
module Deserialization {
  import opened Bytes
  import opened Errors
  import opened Utf8
  import opened ClassDefs
  import opened Readers
  import opened Wire

  class Deserializer {
    /** The reader over the one stream this decoder is bound to. */
    const reader: ValueReader
    /** The field names of every class definition read so far, in reading order;
        entry `i` belongs to the definition whose id is `i`. */
    var classDefs: seq<seq<Str>>

    constructor (stream: seq<byte>)
      ensures fresh(reader) && reader.remaining == stream && classDefs == []
    {
      reader := new ValueReader(stream);
      classDefs := [];
    }

    /** Peeks a tag and decodes the value it introduces. */
    method ReadObject() returns (r: Result<Value>)
      modifies this, reader
      ensures var st := ObjectValue(old(reader.remaining), |old(classDefs)|);
              r == st.result && reader.remaining == st.rest
      ensures classDefs == if r.Ok? && r.value.ClassValue? then old(classDefs) + [r.value.def.fields]
                           else old(classDefs)
    {
      var tag := reader.Peek();
      if tag.None? {
        return Fail(EndOfStream);
      }
      var t := tag.value;
      if t < 0x20 {
        var x :- ReadShortString();
        r := Ok(StringValue(x));
      } else if t < 0x30 {
        var b :- ReadShortBinary();
        r := Ok(BinaryValue(b));
      } else if t < 0x34 {
        var x :- ReadMediumString();
        r := Ok(StringValue(x));
      } else if t < 0x38 {
        var b :- ReadMediumBinary();
        r := Ok(BinaryValue(b));
      } else if t < 0x40 {
        var n :- ReadThreeByteLong();
        r := Ok(LongValue(n));
      } else if t == 0x40 {
        r := Reserved();
      } else if t < 0x43 {
        var b :- ReadChunkedBinary();
        r := Ok(BinaryValue(b));
      } else if t == 0x43 {
        var c :- ReadClassDefinition();
        r := Ok(ClassValue(c));
      } else {
        r := Fail(NotImplemented);
      }
    }

    /** Tag 0x40: skips the tag byte and yields null. */
    method Reserved() returns (r: Result<Value>)
      modifies reader
      ensures old(reader.remaining) == [] ==> r == Fail(EndOfStream) && reader.remaining == []
      ensures old(reader.remaining) != [] ==> r == Ok(NullValue) && reader.remaining == old(reader.remaining)[1..]
    {
      var _ :- reader.ReadByte();
      r := Ok(NullValue);
    }

    /** The typed accessor for strings: short, medium and chunked forms only; any
        other tag fails having only peeked at it. */
    method ReadString() returns (r: Result<Str>)
      modifies reader
      ensures var st := TypedString(old(reader.remaining));
              r == st.result && reader.remaining == st.rest
    {
      var tag := reader.Peek();
      if tag.None? {
        return Fail(EndOfStream);
      }
      if tag.value < 0x20 {
        r := ReadShortString();
      } else if 0x30 <= tag.value <= 0x33 {
        r := ReadMediumString();
      } else if tag.value == 0x52 || tag.value == 0x53 {
        r := ReadChunkedString();
      } else {
        r := Fail(InvalidData);
      }
    }

    method ReadShortString() returns (r: Result<Str>)
      modifies reader
      ensures var st := ShortString(old(reader.remaining));
              r == st.result && reader.remaining == st.rest
    {
      var length :- reader.ReadByte();
      r := ReadStringWithLength(length);
    }

    method ReadMediumString() returns (r: Result<Str>)
      modifies reader
      ensures var st := MediumString(old(reader.remaining));
              r == st.result && reader.remaining == st.rest
    {
      var b0 :- reader.ReadByte();
      var b1 :- reader.ReadByte();
      var length := MediumLength(b0, b1, 0x30);
      r := ReadStringWithLength(length);
    }

    /** Reads `length` code points. */
    method ReadStringWithLength(length: int) returns (r: Result<Str>)
      modifies reader
      ensures var st := StringWithLength(old(reader.remaining), length);
              r == st.result && reader.remaining == st.rest
    {
      if length < 0 {
        return Fail(ArgumentOutOfRange);
      }
      var sb: Str := [];
      var n := length;
      PrependNothing(Codepoints(reader.remaining, n));
      while n > 0
        invariant 0 <= n <= length
        invariant Codepoints(old(reader.remaining), length) == Prepend(sb, Codepoints(reader.remaining, n))
      {
        ghost var before := reader.remaining;
        var cp :- reader.ReadUtf8Codepoint();
        ghost var d := DecodeCodepoint(before).value;
        CodepointsStep(before, n, d.codepoint, d.length);
        PrependTwice(sb, [cp], Codepoints(reader.remaining, n - 1));
        sb := sb + [cp];
        n := n - 1;
      }
      assert sb + [] == sb;
      r := Ok(sb);
    }

    /** Reads chunks until the one tagged 'S'. */
    method ReadChunkedString() returns (r: Result<Str>)
      modifies reader
      ensures var st := ChunkedString(old(reader.remaining));
              r == st.result && reader.remaining == st.rest
    {
      var sb: Str := [];
      var final := false;
      PrependNothing(ChunkedString(reader.remaining));
      while !final
        invariant !final ==> ChunkedString(old(reader.remaining)) == Prepend(sb, ChunkedString(reader.remaining))
        invariant final ==> ChunkedString(old(reader.remaining)) == Step(Ok(sb), reader.remaining)
        decreases |reader.remaining|, !final
      {
        ChunkedStringAdvance(sb, reader.remaining);
        var chunk;
        chunk, final := ReadStringChunk();
        if chunk.Fail? {
          return Fail(chunk.error);
        }
        sb := sb + chunk.value;
      }
      r := Ok(sb);
    }

    /** One pass of the chunk loop: the tag, the code-point count, the code points. */
    method ReadStringChunk() returns (r: Result<Str>, final: bool)
      modifies reader
      ensures var st := StringChunk(old(reader.remaining));
              r == st.result && reader.remaining == st.rest
      ensures r.Ok? ==> final == (old(reader.remaining)[0] == 0x53)
    {
      final := false;
      var tag :- reader.ReadByte();
      final := tag == 0x53;
      var length :- reader.ReadShort();
      r := ReadStringWithLength(length);
    }

    /** Tags 0x20..0x2F as written: the byte count is the raw tag byte. */
    method ReadShortBinary() returns (r: Result<seq<byte>>)
      modifies reader
      ensures var st := ShortBinary(old(reader.remaining));
              r == st.result && reader.remaining == st.rest
    {
      var length :- reader.ReadByte();
      var data := new byte[length];
      var _ :- reader.Read(data, length);
      assert data[..] == data[..] + [];
      r := Ok(data[..]);
    }

    method ReadMediumBinary() returns (r: Result<seq<byte>>)
      modifies reader
      ensures var st := MediumBinary(old(reader.remaining));
              r == st.result && reader.remaining == st.rest
    {
      var b0 :- reader.ReadByte();
      var b1 :- reader.ReadByte();
      assert reader.remaining == old(reader.remaining)[2..];
      var length := MediumLength(b0, b1, 0x34);
      if length < 0 {
        return Fail(Overflow);
      }
      var data := new byte[length];
      var _ :- reader.Read(data, length);
      assert data[..] == data[..] + [];
      r := Ok(data[..]);
    }

    method ReadThreeByteLong() returns (r: Result<int>)
      modifies reader
      ensures var st := ThreeByteLong(old(reader.remaining));
              r == st.result && reader.remaining == st.rest
    {
      var b0 :- reader.ReadByte();
      var b1 :- reader.ReadByte();
      var b2 :- reader.ReadByte();
      r := Ok((b0 - 0x3C) * 0x1_0000 + b1 as int * 0x100 + b2);
    }

    /** Reads binary chunks until the one tagged 'B'. */
    method ReadChunkedBinary() returns (r: Result<seq<byte>>)
      modifies reader
      ensures var st := ChunkedBinary(old(reader.remaining));
              r == st.result && reader.remaining == st.rest
    {
      var data: seq<byte> := [];
      var final := false;
      PrependNothing(ChunkedBinary(reader.remaining));
      while !final
        invariant !final ==> ChunkedBinary(old(reader.remaining)) == Prepend(data, ChunkedBinary(reader.remaining))
        invariant final ==> ChunkedBinary(old(reader.remaining)) == Step(Ok(data), reader.remaining)
        decreases |reader.remaining|, !final
      {
        ChunkedBinaryAdvance(data, reader.remaining);
        var chunk;
        chunk, final := ReadBinaryChunk();
        if chunk.Fail? {
          return Fail(chunk.error);
        }
        data := data + chunk.value;
      }
      r := Ok(data);
    }

    /** One pass of the binary chunk loop: the tag, the byte count, the bytes. */
    method ReadBinaryChunk() returns (r: Result<seq<byte>>, final: bool)
      modifies reader
      ensures var st := BinaryChunk(old(reader.remaining));
              r == st.result && reader.remaining == st.rest
      ensures r.Ok? ==> final == (old(reader.remaining)[0] == 0x42)
    {
      final := false;
      var tag :- reader.ReadByte();
      final := tag == 0x42;
      var length :- reader.ReadShort();
      var buff := new byte[length];
      var _ :- reader.Read(buff, length);
      assert buff[..] == buff[..] + [];
      r := Ok(buff[..]);
    }

    /** As written, a stub: always 0, and nothing is read. */
    method ReadInteger() returns (n: int)
      ensures n == Integer(reader.remaining).result.value
    {
      n := 0;
    }

    /** Reads a class definition and appends its field names to the class table. */
    method ReadClassDefinition() returns (r: Result<ClassDef>)
      modifies this, reader
      ensures var st := ClassDefinition(old(reader.remaining), |old(classDefs)|);
              r == st.result && reader.remaining == st.rest
      ensures classDefs == if r.Ok? then old(classDefs) + [r.value.fields] else old(classDefs)
    {
      var _ :- reader.ReadByte();
      var name :- ReadString();
      var classRef := |classDefs|;
      var fieldCount := ReadInteger();
      var fields := ReadFields(fieldCount);
      if fields.Ok? {
        classDefs := classDefs + [fields.value];
      }
      r := fields.Map((f: seq<Str>) => ClassDef(classRef, name, f));
    }

    /** The field-name loop of `ReadClassDefinition`: `count` strings read in stream
        order, the i-th stored at index i.  The source fills a fresh array of `count`
        elements; here the filled prefix is a sequence. */
    method ReadFields(count: int) returns (r: Result<seq<Str>>)
      modifies reader
      ensures var st := Fields(old(reader.remaining), count);
              r == st.result && reader.remaining == st.rest
    {
      if count < 0 {
        return Fail(Overflow);
      }
      var fields: seq<Str> := [];
      var n := count;
      PrependNothing(Strings(reader.remaining, count));
      while n > 0
        invariant 0 <= n <= count
        invariant Strings(old(reader.remaining), count) == Prepend(fields, Strings(reader.remaining, n))
      {
        var f := ReadNextField(fields, n);
        if f.Fail? {
          return Fail(f.error);
        }
        fields := fields + [f.value];
        n := n - 1;
      }
      StringsDone(fields, reader.remaining);
      r := Ok(fields);
    }

    /** One pass of the field loop, with what it contributes to the fields read so far. */
    method ReadNextField(ghost prefix: seq<Str>, ghost n: nat) returns (f: Result<Str>)
      requires n > 0
      modifies reader
      ensures f.Fail? ==> Prepend(prefix, Strings(old(reader.remaining), n)) == Step(Fail(f.error), reader.remaining)
      ensures f.Ok? ==> Prepend(prefix, Strings(old(reader.remaining), n))
                        == Prepend(prefix + [f.value], Strings(reader.remaining, n - 1))
    {
      StringsAdvance(prefix, reader.remaining, n);
      f := ReadString();
    }
  }
}
