/** The big-endian bit converter: reads a value stored most significant byte first
    from a byte buffer at a start index.

    The converter's own source is not part of this model; the behaviour is the one its
    tests pin, with the argument checks of the .NET converters it mirrors: a start
    index outside the buffer is out of range, and a start index that leaves fewer
    bytes than the value needs is an invalid argument. */
module BigEndian {
  import opened Bytes
  import opened Errors

  /** The argument checks for reading `width` bytes of `value` from `startIndex`. */
  function CheckRange(value: seq<byte>, startIndex: int, width: nat): (r: Result<()>)
    requires width > 0
    ensures r.Ok? <==> 0 <= startIndex && startIndex + width <= |value|
    ensures r.Fail? && (startIndex < 0 || startIndex >= |value|) ==> r.error == ArgumentOutOfRange
    ensures r.Fail? && 0 <= startIndex < |value| ==> r.error == Argument
  {
    if startIndex < 0 || startIndex >= |value| then Fail(ArgumentOutOfRange)
    else if startIndex > |value| - width then Fail(Argument)
    else Ok(())
  }

  /** The unsigned value of two bytes, high byte first. */
  function Unsigned16(hi: byte, lo: byte): (u: nat)
    ensures u < 0x1_0000
  {
    hi * 0x100 + lo
  }

  /** The unsigned value of four bytes, most significant first. */
  function Unsigned32(b0: byte, b1: byte, b2: byte, b3: byte): (u: nat)
    ensures u < 0x1_0000_0000
  {
    b0 * 0x100_0000 + b1 * 0x1_0000 + b2 * 0x100 + b3
  }

  /** `ToBoolean`: one byte, true exactly when it is not zero. */
  function ToBoolean(value: seq<byte>, startIndex: int): (r: Result<bool>)
    ensures r.Ok? <==> 0 <= startIndex < |value|
    ensures r.Ok? ==> (r.value <==> value[startIndex] != 0)
    ensures r.Fail? ==> r.error == ArgumentOutOfRange
  {
    var _ :- CheckRange(value, startIndex, 1);
    Ok(value[startIndex] != 0)
  }

  /** `ToChar`: a UTF-16 code unit, high byte first. */
  function ToChar(value: seq<byte>, startIndex: int): (r: Result<nat>)
    ensures r.Ok? <==> 0 <= startIndex && startIndex + 2 <= |value|
    ensures r.Ok? ==> r.value < 0x1_0000
  {
    var _ :- CheckRange(value, startIndex, 2);
    Ok(Unsigned16(value[startIndex], value[startIndex + 1]))
  }

  /** `ToInt32`: a two's complement 32-bit integer, most significant byte first. */
  function ToInt32(value: seq<byte>, startIndex: int): (r: Result<int32>)
    ensures r.Ok? <==> 0 <= startIndex && startIndex + 4 <= |value|
  {
    var _ :- CheckRange(value, startIndex, 4);
    Ok(Wrap32(Unsigned32(value[startIndex], value[startIndex + 1], value[startIndex + 2], value[startIndex + 3])))
  }

  /** The two bytes of a UTF-16 code unit, high byte first. */
  function CharBytes(c: nat): (b: seq<byte>)
    requires c < 0x1_0000
    ensures |b| == 2
  {
    [c / 0x100, c % 0x100]
  }

  /** The four bytes of a 32-bit integer in two's complement, most significant first. */
  function Int32Bytes(v: int32): (b: seq<byte>)
    ensures |b| == 4
  {
    var u := if v < 0 then v + 0x1_0000_0000 else v;
    [u / 0x100_0000, (u / 0x1_0000) % 0x100, (u / 0x100) % 0x100, u % 0x100]
  }

  /** Base-256 digits of an unsigned 32-bit value. */
  lemma Digits32(u: int)
    requires 0 <= u < 0x1_0000_0000
    ensures Unsigned32(u / 0x100_0000, (u / 0x1_0000) % 0x100, (u / 0x100) % 0x100, u % 0x100) == u
  {
    assert u == (u / 0x100) * 0x100 + u % 0x100;
    assert u / 0x100 == (u / 0x1_0000) * 0x100 + (u / 0x100) % 0x100;
    assert u / 0x1_0000 == (u / 0x100_0000) * 0x100 + (u / 0x1_0000) % 0x100;
  }

  /** Every code unit reads back from its bytes, at any start index. */
  lemma CharRoundTrip(c: nat, before: seq<byte>, after: seq<byte>)
    requires c < 0x1_0000
    ensures ToChar(before + CharBytes(c) + after, |before|) == Ok(c)
  {
    var value := before + CharBytes(c) + after;
    assert value[|before|] == c / 0x100 && value[|before| + 1] == c % 0x100;
  }

  /** Every two bytes are the bytes of the code unit they read as. */
  lemma CharBytesRoundTrip(value: seq<byte>)
    requires |value| == 2
    ensures CharBytes(ToChar(value, 0).value) == value
  {
    var b0: int, b1: int := value[0], value[1];
    assert (b0 * 0x100 + b1) / 0x100 == b0;
  }

  /** Every 32-bit integer reads back from its bytes, at any start index. */
  lemma Int32RoundTrip(v: int32, before: seq<byte>, after: seq<byte>)
    ensures ToInt32(before + Int32Bytes(v) + after, |before|) == Ok(v)
  {
    var b := Int32Bytes(v);
    var value := before + b + after;
    var i := |before|;
    assert value[i] == b[0] && value[i + 1] == b[1] && value[i + 2] == b[2] && value[i + 3] == b[3];
    Digits32(if v < 0 then v + 0x1_0000_0000 else v);
  }

  /** Division by a power of 256 of a number written with that many low digits. */
  lemma Digit8(q: int, r: int)
    requires 0 <= r < 0x100
    ensures (q * 0x100 + r) / 0x100 == q && (q * 0x100 + r) % 0x100 == r
  {
  }

  lemma Digit16(q: int, r: int)
    requires 0 <= r < 0x1_0000
    ensures (q * 0x1_0000 + r) / 0x1_0000 == q
  {
  }

  lemma Digit24(q: int, r: int)
    requires 0 <= r < 0x100_0000
    ensures (q * 0x100_0000 + r) / 0x100_0000 == q
  {
  }

  /** Every four bytes are the bytes of the integer they read as. */
  lemma Int32BytesRoundTrip(value: seq<byte>)
    requires |value| == 4
    ensures Int32Bytes(ToInt32(value, 0).value) == value
  {
    var b0: int, b1: int, b2: int, b3: int := value[0], value[1], value[2], value[3];
    var u := Unsigned32(value[0], value[1], value[2], value[3]);
    var v := ToInt32(value, 0).value;
    assert (if v < 0 then v as int + 0x1_0000_0000 else v as int) == u;
    Digit24(b0, b1 * 0x1_0000 + b2 * 0x100 + b3);
    Digit16(b0 * 0x100 + b1, b2 * 0x100 + b3);
    Digit8(b0, b1);
    Digit8(b0 * 0x1_0000 + b1 * 0x100 + b2, b3);
    Digit8(b0 * 0x100 + b1, b2);
  }

  /** 01 02 03 04 is 16909060; the same bytes reversed are not. */
  lemma ReadsNetworkOrderInt32()
    ensures ToInt32([0x01, 0x02, 0x03, 0x04], 0) == Ok(16909060)
    ensures ToInt32([0x04, 0x03, 0x02, 0x01], 0) != Ok(16909060)
  {
  }

  /** 00 41 is 'A'; 'Z' 00 is not 'Z'. */
  lemma ReadsNetworkOrderChar()
    ensures ToChar([0x00, 0x41], 0) == Ok(0x41)
    ensures ToChar([0x5A, 0x00], 0) != Ok(0x5A)
  {
  }

  /** 01 and FF are true, 00 is false. */
  lemma ReadsBooleans()
    ensures ToBoolean([0x01], 0) == Ok(true)
    ensures ToBoolean([0xFF], 0) == Ok(true)
    ensures ToBoolean([0x00], 0) == Ok(false)
  {
  }
}
