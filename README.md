# Hessian decoder core, modelled in Dafny

This project models the decoding side of a C# library for Hessian 2.0, the compact
binary serialization format. Its parts:

- **The deserializer.** `Deserializer` peeks at a tag byte and decodes the value the
  tag introduces. It handles short, medium and chunked strings, short, medium and
  chunked binaries, three-byte longs, the reserved null tag and class definitions.
  It keeps an append-only table of the class definitions it has read.
- **The value reader.** It does the byte-level reads underneath: peek, byte, big-endian
  short, exact-fill buffer read, and a strict UTF-8 code point decoder that substitutes
  U+FFFD for malformed input.
- **The big-endian bit converter.** The model covers `ToBoolean`, `ToChar` and
  `ToInt32`.
- **`PeekStream`.** A read-only stream with one byte of look-ahead over an inner stream.
- **`TwoWayDictionary`.** Two dictionary objects, each the other's inverse.
- **Argument guards.** The `Conditions` class.
- **The type resolvers.** They map a serialized list or map type name to a factory for
  an empty container.

Each decoder routine is specified by a function in module `Wire`. The function maps the
unconsumed input to a `Step`: either the value read or the error raised, together with
the input left afterwards. Each `Deserializer` method is proved to follow its function
exactly, error paths included. The properties of the format are proved about those
functions in `WireProperties`: round trips for every compact form, progress, and the
errors each routine can raise.

Stateful objects are classes: `ValueReader`, `Deserializer`, `PeekStream`,
`TwoWayDictionary` and the two resolvers. Their methods state the whole new state.
Exceptions become the `Fail` case of `Errors.Result`, with a constructor per exception
type. A C# `null` becomes `Option.None` or a nullable reference.

## Where the code departs from the format or from its own intent

Each of these is modelled as the code is written, and the divergence is proved as a
lemma.

- **Short binary length.** `ReadShortBinary` uses the raw tag byte as the byte count
  instead of `tag - 0x20`. So tag `t` in 0x20..0x2F is followed by `t` bytes, 32 to 47
  (`ShortBinaryAsWritten`). The format's own short binary runs out of input
  (`ShortBinaryFormatFails`).
- **Field count.** `ReadInteger` is a stub that returns 0 and reads nothing.
- **Class-definition tag.** `ReadClassDefinition` reads the tag byte without checking it.
  A class definition therefore has no fields: the two-field example reads as class
  "sample" with no fields, stopping at the count byte 0x92 (`SampleClassDefinition`).
  Any tag byte is accepted (`ClassDefinitionTagUnchecked`), where the tests expect an
  unexpected-tag exception.
- **PeekStream.Read argument check.** The check is `offset + count >= buffer.Length`,
  so a read that would exactly fill the rest of the buffer is refused
  (`WholeBufferRefused`). The sum is 32-bit, so a large `count` wraps negative and
  passes the check (`AcceptedArguments`).
- **PeekStream.Read count.** The loop that pops the pending peeked byte never
  decrements the bytes still to read. So the returned count leaves out the popped
  byte, and the inner read may ask for one byte more than the caller requested.
- **DictionaryTypeResolver construction.** Its table field is never allocated, so the
  first registration dereferences null and construction always fails (`New`).
- **TwoWayDictionary pairing.** The dictionary's intended invariant is that the two
  maps are inverse bijections, but these operations break it:
  - `Add` of a fresh key with a value the inverse already holds adds the forward entry
    and then fails.
  - The key setter leaves the old value's backward entry behind.
  - Pair removal removes a key and a value even when they are not bound to each other.

Where the format's description and the code disagree, the code is followed.

The value reader's own source is not part of this model. Its behaviour is the one its
tests pin. The policy for malformed UTF-8 that the tests leave open is:

- the lead byte and the valid continuation bytes are consumed;
- a byte that breaks the sequence is left for the next read;
- values above U+10FFFF are rejected, following section 3 of RFC 3629.

## Model

| member | source | states |
|---|---|---|
| Utf8.DecodeCodepoint | Hessian.Tests/ValueReaderTests.cs:14-19 | decoding fails only on empty input (end of stream); otherwise it yields a Unicode scalar value and consumes 1 to 4 bytes, no more than are there |
| Utf8.EncodeDecode | Hessian.Tests/ValueReaderTests.cs:34-39 | every scalar value decodes back from its shortest UTF-8 encoding, consuming exactly that encoding |
| Utf8.DecodeIsCanonical | Hessian.Tests/ValueReaderTests.cs:41-72 | anything accepted other than U+FFFD is the shortest encoding of the value returned, so overlong forms can only yield U+FFFD |
| Utf8.DecodesAscii | Hessian.Tests/ValueReaderTests.cs:34-39 | a byte below 0x80 decodes to itself in one byte |
| Utf8.RejectsOverlongSlashes | Hessian.Tests/ValueReaderTests.cs:41-55 | the 2-, 3- and 4-byte overlong encodings of '/' yield U+FFFD |
| Utf8.RejectsBoundaryOverlongs | Hessian.Tests/ValueReaderTests.cs:57-72 | the largest overlong encoding of each length yields U+FFFD |
| Utf8.LoneContinuationConsumesOne | Hessian.Tests/ValueReaderTests.cs:74-84 | a continuation byte in lead position yields U+FFFD and consumes only itself |
| Utf8.RejectsLonelyStart | Hessian.Tests/ValueReaderTests.cs:86-103 | a multi-byte lead followed by a non-continuation byte yields U+FFFD and leaves that byte unread |
| Utf8.RejectsImpossibleBytes | Hessian.Tests/ValueReaderTests.cs:105-110 | bytes from 0xF8 up (0xFE and 0xFF included) yield U+FFFD |
| Utf8.RejectsSurrogates | Hessian.Tests/ValueReaderTests.cs:112-122 | the three-byte encodings of UTF-16 surrogates yield U+FFFD, consuming all three bytes |
| Readers.ValueReader.Peek | Hessian.Tests/ValueReaderTests.cs:21-32 | shows the next byte when input remains, None at the end, and consumes nothing |
| Readers.PeekThenReadByte | Hessian.Tests/ValueReaderTests.cs:21-32 | the byte a peek shows is the byte the next read returns |
| Readers.ValueReader.ReadByte | Hessian/Deserializer.cs:100 | consumes and returns the next byte; at the end of input fails with end of stream |
| Readers.ValueReader.ReadShort | Hessian/Deserializer.cs:129 | consumes two bytes and returns their big-endian unsigned value, below 65536; short input fails with end of stream |
| Readers.ValueReader.Read | Hessian/Deserializer.cs:141-142 | fills the first count buffer elements with the next count input bytes and leaves the rest of the buffer unchanged; short input fails with end of stream |
| Readers.ValueReader.ReadUtf8Codepoint | Hessian/Deserializer.cs:116 | returns the code point the strict decoder reads at the head of the input and consumes exactly its length |
| Readers.ReadContinuationRun | Hessian.Tests/ValueReaderTests.cs:74-84 | a run of continuation bytes reads as one U+FFFD per byte |
| Deserialization.Deserializer.constructor | Hessian/Deserializer.cs:14-23 | a fresh reader over the stream and an empty class table |
| Deserialization.Deserializer.ReadObject | Hessian/Deserializer.cs:27-67 | decodes the value the peeked tag introduces, with the error and the remaining input the dispatch function gives; only a class definition grows the class table, by its field list |
| Deserialization.Deserializer.Reserved | Hessian/Deserializer.cs:69-73 | skips one byte and yields null |
| Deserialization.Deserializer.ReadString | Hessian/Deserializer.cs:75-96 | follows the typed string accessor: short, medium and chunked forms; other tags fail with invalid data |
| Deserialization.Deserializer.ReadShortString | Hessian/Deserializer.cs:98-102 | a length byte, then that many code points |
| Deserialization.Deserializer.ReadMediumString | Hessian/Deserializer.cs:104-110 | a 10-bit length from two bytes, then that many code points |
| Deserialization.Deserializer.ReadStringWithLength | Hessian/Deserializer.cs:112-119 | reads length code points in order; a negative length is refused |
| Deserialization.Deserializer.ReadChunkedString | Hessian/Deserializer.cs:121-136 | concatenates chunks in order up to and including the one tagged 'S' |
| Deserialization.Deserializer.ReadShortBinary | Hessian/Deserializer.cs:138-144 | reads as many bytes as the raw tag byte's value |
| Deserialization.Deserializer.ReadMediumBinary | Hessian/Deserializer.cs:146-154 | a 10-bit length from two bytes, then that many bytes |
| Deserialization.Deserializer.ReadThreeByteLong | Hessian/Deserializer.cs:156-163 | combines three bytes into a long, the tag's low bits biased by 0x3C as the high digit |
| Deserialization.Deserializer.ReadChunkedBinary | Hessian/Deserializer.cs:165-180 | concatenates binary chunks in order up to and including the one tagged 'B' |
| Deserialization.Deserializer.ReadInteger | Hessian/Deserializer.cs:182-185 | the stub: 0, reading nothing |
| Deserialization.Deserializer.ReadClassDefinition | Hessian/Deserializer.cs:187-201 | an unchecked tag byte, a name, the stub's field count of names; the id is the table length, and on success the field list is appended to the table |
| ClassDefs.ClassDef | Hessian/ClassDef.cs:3-15 | a class definition's id, name and field names, fixed when it is built |
| Deserialization.Deserializer.ReadFields | Hessian/Deserializer.cs:192-196 | reads count strings in stream order, the i-th at index i |
| Wire.ReadBytes | Hessian/Deserializer.cs:141-142 | reading n bytes splits the input into the n bytes and what follows; short input fails with end of stream |
| Wire.Codepoints | Hessian/Deserializer.cs:115-117 | reading n code points gives n scalar values and leaves a suffix; it can only fail by running out of input, having consumed all of it |
| Wire.StringChunk | Hessian/Deserializer.cs:127-132 | a string chunk leaves a suffix of its input, and on success consumes at least its three header bytes |
| Wire.ChunkedString | Hessian/Deserializer.cs:121-136 | a chunked string read, successful or not, leaves a suffix of its input |
| Wire.BinaryChunk | Hessian/Deserializer.cs:171-176 | a binary chunk leaves a suffix of its input, and on success consumes at least its three header bytes |
| Wire.ChunkedBinary | Hessian/Deserializer.cs:165-180 | a chunked binary read, successful or not, leaves a suffix of its input |
| WireProperties.CodepointsRoundTrip | Hessian/Deserializer.cs:112-119 | reading as many code points as a string has, from its UTF-8 encoding, gives the string back and leaves exactly what followed |
| WireProperties.ShortStringRoundTrip | Hessian/Deserializer.cs:98-102 | every string of fewer than 32 code points reads back from its compact form, through the string accessor and the dispatcher |
| WireProperties.ReadsCompactEmptyString | Hessian.Tests/DeserializerTests.cs:34-44 | tag 0x00 reads as the empty string and consumes only itself |
| WireProperties.MediumLengthRange | Hessian/Deserializer.cs:104-110 | a medium length is in 0..1023 for its four tags, and tag and second byte are its two digits |
| WireProperties.MediumStringRoundTrip | Hessian/Deserializer.cs:104-110 | every string of fewer than 1024 code points reads back from its medium form |
| WireProperties.ChunkedStringRoundTrip | Hessian/Deserializer.cs:121-136 | chunks tagged 'R', then a final 'S', read back as their concatenation, stopping right after the final chunk |
| WireProperties.ChunkedStringTyped | Hessian/Deserializer.cs:91-93 | the string accessor reads a chunked string back the same way |
| WireProperties.NonFinalStringTags | Hessian/Deserializer.cs:127-128 | every chunk tag other than 'S' means "more chunks follow"; swapping one such tag for another changes nothing |
| WireProperties.ChunkedStringFailure | Hessian/Deserializer.cs:121-136 | a chunked string can only fail by running out of input |
| WireProperties.TypedStringFailure | Hessian/Deserializer.cs:75-96 | the string accessor fails with invalid data, consuming nothing, exactly on tags outside its three families; every other failure is end of stream |
| WireProperties.ShortBinaryAsWritten | Hessian/Deserializer.cs:138-144 | tag t in 0x20..0x2F followed by t bytes reads back those bytes |
| WireProperties.ShortBinaryFormatFails | Hessian/Deserializer.cs:140 | the format's short binary, 0x20 plus the length followed by the bytes, fails with end of stream |
| WireProperties.MediumBinaryRoundTrip | Hessian/Deserializer.cs:146-154 | every binary of fewer than 1024 bytes reads back from its medium form |
| WireProperties.ChunkedBinaryRoundTrip | Hessian/Deserializer.cs:165-180 | chunks tagged 'A', then a final 'B', read back as their concatenation, stopping right after the final chunk |
| WireProperties.ChunkedBinaryValue | Hessian/Deserializer.cs:58-59 | the dispatcher reads a chunked binary as a binary value |
| WireProperties.NonFinalBinaryTags | Hessian/Deserializer.cs:171-172 | every chunk tag other than 'B' means "more chunks follow" |
| WireProperties.ChunkedBinaryFailure | Hessian/Deserializer.cs:165-180 | a chunked binary can only fail by running out of input |
| WireProperties.ThreeByteDigits | Hessian/Deserializer.cs:156-163 | the three-byte form of every long in -262144..262143 starts with a tag in 0x38..0x3F, and its digits recombine to the long |
| WireProperties.ThreeByteLongRoundTrip | Hessian/Deserializer.cs:156-163 | every long in -262144..262143 reads back from its three-byte form |
| WireProperties.ThreeByteLongRange | Hessian/Deserializer.cs:156-163 | every three-byte form carries a long in -262144..262143, and it is that long's encoding, so the form is one-to-one |
| WireProperties.ClassDefinitionAsWritten | Hessian/Deserializer.cs:187-201 | a class definition is the name read after one unchecked byte, with no fields and the table length as its id |
| WireProperties.ClassDefinitionTagUnchecked | Hessian/Deserializer.cs:189 | the first byte of a class definition makes no difference |
| WireProperties.StringsLeaveSuffix | Hessian/Deserializer.cs:194-196 | reading field names one after another consumes the input from the front only: what is left is a suffix |
| WireProperties.SampleClassDefinition | Hessian.Tests/DeserializerTests.cs:66-90 | the test's two-field definition reads as class "sample" with no fields and stops at the count byte 0x92 |
| WireProperties.ObjectValueNotImplemented | Hessian/Deserializer.cs:27-67 | the dispatcher fails as not implemented, consuming nothing, exactly on tags above 0x43; empty input is end of stream |
| WireProperties.ReservedIsNull | Hessian/Deserializer.cs:55-56 | tag 0x40 reads as null and consumes one byte |
| WireProperties.ObjectValueConsumes | Hessian/Deserializer.cs:27-67 | every successful read consumes at least one byte and leaves a suffix, so reading values one after another progresses |
| BigEndian.CheckRange | Hessian.Tests/Platform/BigEndianConverterTests.cs:29-93 | a read of width bytes at a start index is allowed exactly when it lies inside the array; a bad start index is out of range, a read that overruns is an argument error |
| BigEndian.ToBoolean | Hessian.Tests/Platform/BigEndianConverterTests.cs:29-45 | true exactly when the byte is not zero; an index outside the array is out of range |
| BigEndian.ToChar | Hessian.Tests/Platform/BigEndianConverterTests.cs:47-59 | succeeds exactly when two bytes are available, and gives a UTF-16 code unit |
| BigEndian.ToInt32 | Hessian.Tests/Platform/BigEndianConverterTests.cs:82-93 | succeeds exactly when four bytes are available |
| BigEndian.CharRoundTrip | Hessian.Tests/Platform/BigEndianConverterTests.cs:47-59 | every code unit reads back from its two high-byte-first bytes at any position |
| BigEndian.CharBytesRoundTrip | Hessian.Tests/Platform/BigEndianConverterTests.cs:47-59 | every two bytes are the encoding of the code unit they read as |
| BigEndian.Int32RoundTrip | Hessian.Tests/Platform/BigEndianConverterTests.cs:82-93 | every 32-bit integer reads back from its four most-significant-first bytes at any position |
| BigEndian.Int32BytesRoundTrip | Hessian.Tests/Platform/BigEndianConverterTests.cs:82-93 | every four bytes are the two's complement encoding of the integer they read as |
| BigEndian.ReadsNetworkOrderInt32 | Hessian.Tests/Platform/BigEndianConverterTests.cs:82-93 | 01 02 03 04 reads as 16909060 and the reversed bytes do not |
| BigEndian.ReadsNetworkOrderChar | Hessian.Tests/Platform/BigEndianConverterTests.cs:47-59 | 00 41 reads as 'A' and 5A 00 does not read as 'Z' |
| BigEndian.ReadsBooleans | Hessian.Tests/Platform/BigEndianConverterTests.cs:29-45 | 01 and FF read as true, 00 as false |
| PeekStreams.PeekStream.constructor | Hessian/PeekStream.cs:12-20 | positioned at the start of the inner stream, with nothing pending |
| PeekStreams.PeekStream.Position | Hessian/PeekStream.cs:46-49 | the inner position less the pending byte, within the stream |
| PeekStreams.PeekStream.Length | Hessian/PeekStream.cs:40-44 | the inner stream's length: the number of bytes the stream holds |
| PeekStreams.PeekStream.CanSeek | Hessian/PeekStream.cs:28-32 | the stream cannot seek |
| PeekStreams.PeekStream.CanWrite | Hessian/PeekStream.cs:34-38 | the stream cannot write |
| PeekStreams.PeekStream.Peek | Hessian/PeekStream.cs:55-69 | shows the byte at the current position, None at the end, and leaves the position unchanged; a pending byte is shown without reading further |
| PeekStreams.PeekStream.ReadByte | Hessian/PeekStream.cs:71-78 | returns the byte at the current position and advances by one, or -1 at the end |
| PeekStreams.PeekStream.Read | Hessian/PeekStream.cs:80-115 | null buffer, bad offset, negative count and offset plus count (32-bit) not below the buffer length are refused without change; otherwise the pending byte and then the inner bytes are copied at the offset, the position advances by what was delivered, and the count returned omits the pending byte |
| PeekStreams.PeekStream.InnerRead | Hessian/PeekStream.cs:108-112 | the inner stream's read: copies at most count bytes at the offset, returns how many, and refuses a range outside the buffer |
| PeekStreams.PeekStream.Write | Hessian/PeekStream.cs:117-120 | not supported |
| PeekStreams.PeekStream.SetLength | Hessian/PeekStream.cs:122-125 | not supported |
| PeekStreams.PeekStream.Seek | Hessian/PeekStream.cs:127-130 | not supported |
| PeekStreams.PeekStream.Flush | Hessian/PeekStream.cs:132-135 | not supported |
| PeekStreams.PeekStream.SetPosition | Hessian/PeekStream.cs:50-52 | not supported |
| PeekStreams.AcceptedArguments | Hessian/PeekStream.cs:86-96 | for a valid offset and non-negative count, the check passes exactly when offset plus count is below the length or wraps past 2^31 |
| PeekStreams.WholeBufferRefused | Hessian/PeekStream.cs:94-96 | a read of the whole buffer from offset 0 is refused |
| PeekStreams.PeekTwice | Hessian/PeekStream.cs:55-69 | two peeks in a row show the same byte and leave the position alone |
| PeekStreams.ReadAfterPeek | Hessian/PeekStream.cs:99-114 | over 1 2 3, peeking 1 and then reading 3 bytes delivers 1 2 3 but returns 2 |
| Collections.PairedSizes | Hessian/Collections/TwoWayDictionary.cs:11-13 | maps that are each other's inverse have the same size |
| Collections.PairedAdd | Hessian/Collections/TwoWayDictionary.cs:88-97 | adding a fresh key with a fresh value keeps the maps inverse |
| Collections.PairedRemove | Hessian/Collections/TwoWayDictionary.cs:99-116 | removing a key and its value keeps the maps inverse |
| Collections.ForwardOnlyAdd | Hessian/Collections/TwoWayDictionary.cs:95-96 | adding a fresh key on one side only, for a value the other side holds, breaks the inverse |
| Collections.StaleBackwardEntry | Hessian/Collections/TwoWayDictionary.cs:23-26 | rebinding a key to another value breaks the inverse |
| Collections.MismatchedRemoval | Hessian/Collections/TwoWayDictionary.cs:109-116 | removing a key together with a value it is not bound to breaks the inverse |
| Collections.TwoWayDictionary.constructor | Hessian/Collections/TwoWayDictionary.cs:41-44 | two empty linked sides, inverse of each other |
| Collections.TwoWayDictionary.FromMaps | Hessian/Collections/TwoWayDictionary.cs:46-50 | the given maps, taken as they are, on two linked sides |
| Collections.TwoWayDictionary.Linked | Hessian/Collections/TwoWayDictionary.cs:52-56 | a side over the given map whose inverse is the given side |
| Collections.TwoWayDictionary.Inverse | Hessian/Collections/TwoWayDictionary.cs:19-21 | the other side, whose own inverse is this one |
| Collections.TwoWayDictionary.Get | Hessian/Collections/TwoWayDictionary.cs:23-26 | the value bound to a present key; a missing key is key-not-found |
| Collections.TwoWayDictionary.GetByValue | Hessian/Collections/TwoWayDictionary.cs:28-31 | found exactly when the other side holds the value; on paired maps, the key found maps back to the value |
| Collections.TwoWayDictionary.ContainsKey | Hessian/Collections/TwoWayDictionary.cs:58-61 | true exactly when this side holds the key |
| Collections.TwoWayDictionary.ContainsValue | Hessian/Collections/TwoWayDictionary.cs:63-66 | asked of the other side; on paired maps, true exactly when some key is bound to the value |
| Collections.TwoWayDictionary.TryGetValue | Hessian/Collections/TwoWayDictionary.cs:68-71 | found exactly when the key is present, with its value |
| Collections.TwoWayDictionary.TryGetKey | Hessian/Collections/TwoWayDictionary.cs:73-76 | found exactly when the other side holds the value; on paired maps, the key maps back to it |
| Collections.TwoWayDictionary.Contains | Hessian/Collections/TwoWayDictionary.cs:141-144 | true exactly when the key and the value are both present, bound to each other or not |
| Collections.TwoWayDictionary.Update | Hessian/Collections/TwoWayDictionary.cs:88-97 | without the throw flag, rebinds on both sides; with it, a present key fails unchanged and a present value fails after the forward entry was added |
| Collections.TwoWayDictionary.Add | Hessian/Collections/TwoWayDictionary.cs:78-81 | succeeds exactly for a fresh key and value, then adds both entries, keeps paired maps paired and grows the count by one; a fresh key with a present value fails with the forward entry added and the pairing broken |
| Collections.TwoWayDictionary.Set | Hessian/Collections/TwoWayDictionary.cs:23-26 | binds the key to the value on both sides; on paired maps this keeps the pairing for fresh entries and breaks it when rebinding a key |
| Collections.TwoWayDictionary.SetByValue | Hessian/Collections/TwoWayDictionary.cs:28-31 | the key setter of the other side |
| Collections.TwoWayDictionary.RemoveEntries | Hessian/Collections/TwoWayDictionary.cs:109-116 | removes the key and the value exactly when both are present, bound to each other or not; otherwise changes nothing |
| Collections.TwoWayDictionary.Remove | Hessian/Collections/TwoWayDictionary.cs:83-86 | removes the key and its value; on paired maps the pairing is kept and the result is whether the key was present |
| Collections.TwoWayDictionary.RemovePair | Hessian/Collections/TwoWayDictionary.cs:125-128 | removes the key and the value when both are present; a mismatched pair breaks paired maps |
| Collections.TwoWayDictionary.AddPair | Hessian/Collections/TwoWayDictionary.cs:120-123 | the same as Add: succeeds exactly for a fresh key and a fresh value, adding the pair to both sides; a present key fails changing nothing; a fresh key with a present value is added to this side only and then fails |
| Collections.TwoWayDictionary.Clear | Hessian/Collections/TwoWayDictionary.cs:130-134 | both sides empty, hence paired |
| Collections.CountsAgree | Hessian/Collections/TwoWayDictionary.cs:11-13 | on paired maps, both sides count the same number of entries |
| Collections.ContainsIgnoresBinding | Hessian/Collections/TwoWayDictionary.cs:141-144 | on paired maps {1:10, 2:20}, the pair test accepts (1, 20) although 1 is bound to 10 |
| Conditions.CheckArgument | Hessian/Conditions.cs:11-22 | passes exactly when the condition holds, else an argument error |
| Conditions.CheckNotNull | Hessian/Conditions.cs:24-32 | hands back a non-null value unchanged; null is an argument-null error |
| Conditions.CheckGreater | Hessian/Conditions.cs:34-43 | hands back the value exactly when it is above the bound, else out of range |
| Conditions.CheckLess | Hessian/Conditions.cs:45-54 | hands back the value exactly when it is below the bound, else out of range |
| Conditions.CheckGreaterOrEqual | Hessian/Conditions.cs:56-65 | hands back the value exactly when it is at least the bound, else out of range |
| Conditions.CheckLessOrEqual | Hessian/Conditions.cs:67-76 | hands back the value exactly when it is at most the bound, else out of range |
| Conditions.GuardsPartition | Hessian/Conditions.cs:34-76 | for every value and bound, exactly one of "less" and "greater or equal" passes, and exactly one of "greater" and "less or equal" |
| Conditions.NonStrictGuardsMeet | Hessian/Conditions.cs:56-76 | a value passes both non-strict guards exactly when it equals the bound |
| ListTypes.ListTypeResolver.constructor | Hessian/ListTypeResolver.cs:15-26 | the nine names are registered; the Collection name builds a collection and the other eight build a plain list |
| ListTypes.ListTypeResolver.TryGetListInstance | Hessian/ListTypeResolver.cs:28-39 | found exactly when the name is registered; on a hit, a fresh empty container of the registered kind; on a miss, null |
| ListTypes.ListInterfacesResolve | Hessian.Tests/ListTypeResolverTests.cs:10-20 | both list interface names resolve to non-null plain lists |
| DictionaryTypes.DefaultCtor | Hessian/DictionaryTypeResolver.cs:40-43 | a fresh, empty dictionary |
| DictionaryTypes.DictionaryTypeResolver.Add | Hessian/DictionaryTypeResolver.cs:15 | through a null table, a null-reference error; a duplicate name, an argument error; otherwise the name joins the table |
| DictionaryTypes.DictionaryTypeResolver.RegisterDefaults | Hessian/DictionaryTypeResolver.cs:13-25 | a null table fails at once, changing nothing; the registrations all succeed exactly when the table holds none of the nine names, and then the table is the old one plus the nine; a name already present fails with an argument error after the registrations before it, so the table lies between the old one and the old one plus the nine |
| DictionaryTypes.DictionaryTypeResolver.Populated | Hessian/DictionaryTypeResolver.cs:13-25 | the constructor as meant: the nine registrations into an allocated empty table all succeed and leave exactly the nine names |
| DictionaryTypes.DictionaryTypeResolver.TryGetInstance | Hessian/DictionaryTypeResolver.cs:27-38 | through a null table, a null-reference error; otherwise found exactly when the name is registered, and a hit gives a fresh empty dictionary |
| DictionaryTypes.New | Hessian/DictionaryTypeResolver.cs:11-25 | construction as written always fails with a null-reference error |

## Left out

- Deserializer's `objectRefs` list is allocated but never used by the modelled code, so it is not modelled.
- The tag constants in `Hessian/Tag.cs` and the `IRefMap` interface are not part of this model. Tag bytes appear as literals.
- The `UnexpectedTagException` a test expects from `ReadClassDefinition` is not modelled, because the code never throws it. The model proves that the tag is not checked.
- The test that every byte value is accepted by a `ReadValue` method is not modelled, because no such method exists in the modelled code. The dispatcher is modelled as written, with its not-implemented tags.
- The stream argument of `Deserializer`, `ValueReader` and `PeekStream` is a byte sequence, which cannot be null, so the null-stream checks of their constructors are not modelled.
- The value reader's own source is not part of this model. Its methods are specified by their tests and by what the decoder needs of them.
- `BigEndianBitConverter.ToDouble` and `GetBytes(double)` are not modelled: floating point is outside the model.
- `PeekStream.CanRead` is not modelled: it forwards the inner stream's flag, which a byte sequence does not have.
- `PeekStream.Dispose` is not modelled: disposal releases resources, which the model has none of.
- PeekStream's inner stream is modelled as a memory stream over a fixed byte sequence. The inner stream's own argument checks follow a memory stream's.
- PeekStreams.PeekStream.Read: the caller must supply a buffer shorter than 2^31 elements, as a .NET array is.
- TwoWayDictionary's `Keys`, `Values`, `IsReadOnly`, `CopyTo` and enumerators are not modelled. They expose the underlying map's views and add no behaviour of their own.
- Collections.TwoWayDictionary.Count: it has no ensures of its own; what it promises about paired maps is stated by `CountsAgree`.
- Collections.TwoWayDictionary.TryGetValue: the default value the source stores in the out parameter on a miss is not modelled; a miss is `None`.
- Collections.TwoWayDictionary.TryGetKey: the default value the source stores in the out parameter on a miss is not modelled; a miss is `None`.
- Collections.TwoWayDictionary.FromMaps: the source keeps the caller's dictionary objects, so later changes through the caller's references are visible. The model takes the maps as values and does not capture that aliasing.
- Deserialization.Deserializer.ReadClassDefinition: the class table entry and the returned ClassDef's `Fields` are one array in the source; the model copies values and does not capture that aliasing.
- BigEndian.CheckRange: the converter's source is not part of this model; its error kinds (out of range for a bad start index, argument error for a read that overruns) are assumed to follow .NET's `BitConverter` and are not pinned by any test.
- Strings are modelled as sequences of Unicode code points (`Str`). The source builds UTF-16 strings, where a code point above U+FFFF takes two units; nothing in the modelled code depends on the difference.
- TwoWayDictionary null keys and values are not modelled: the key and value types have no null.
- The exception messages and their formatting in `Conditions` are not modelled.
- The `CompareTo` of an arbitrary comparable type in `Conditions` is modelled as integer comparison.
- The list and dictionary factories are modelled as tags naming the container they build, not as function values.
- `ReadStringChunk`, `ReadBinaryChunk`, `ReadNextField`, `PopPending`, `ReadInner`, `ReadMore` and `ReadAccepted` are helpers standing for loop bodies or parts of a method. They are not separate operations of the source.
