/** Machine-level integer types of the source. */
module Bytes {

  /** An unsigned 8-bit value. */
  type byte = x: int | 0 <= x < 0x100

  /** A C# `int`: a signed 32-bit value. */
  type int32 = x: int | -0x8000_0000 <= x < 0x8000_0000

  /** Two's complement wrap-around of C#'s unchecked 32-bit arithmetic. */
  function Wrap32(x: int): (r: int32)
    ensures (r - x) % 0x1_0000_0000 == 0
    ensures -0x8000_0000 <= x < 0x8000_0000 ==> r == x
  {
    var m := x % 0x1_0000_0000;
    if m < 0x8000_0000 then m else m - 0x1_0000_0000
  }
}
