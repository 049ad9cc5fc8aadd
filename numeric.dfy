/** Fixed-width integers of the .NET runtime, written out over Dafny's unbounded `int`. */
module Numeric {

  const UINT32_MODULUS: int := 0x1_0000_0000
  const INT32_MIN: int := -0x8000_0000
  const INT32_MAX: int := 0x7fff_ffff
  const LONG_MAX: int := 0x7fff_ffff_ffff_ffff

  /** C# `uint`. */
  type uint32 = x: int | 0 <= x < 0x1_0000_0000

  /** C# `int`. */
  type int32 = x: int | -0x8000_0000 <= x < 0x8000_0000

  /** C# `long`. */
  type int64 = x: int | -0x8000_0000_0000_0000 <= x < 0x8000_0000_0000_0000

  /** The value an unchecked C# `int` holds after an arithmetic result `x`:
      two's-complement wrap-around to 32 bits. */
  function WrapInt32(x: int): (r: int32)
    ensures INT32_MIN <= x <= INT32_MAX ==> r == x
    ensures (r - x) % UINT32_MODULUS == 0
  {
    (x + 0x8000_0000) % UINT32_MODULUS - 0x8000_0000
  }

  /** Incrementing a wrapped counter is the wrap of the incremented count. */
  lemma WrapInt32Succ(x: int)
    ensures WrapInt32(WrapInt32(x) + 1) == WrapInt32(x + 1)
  {
    var a := x + 0x8000_0000;
    var q := a / UINT32_MODULUS;
    assert a == q * UINT32_MODULUS + a % UINT32_MODULUS;
    assert a + 1 == q * UINT32_MODULUS + (a % UINT32_MODULUS + 1);
  }

  /** The unchecked C# `uint` result of an arithmetic result `x`. */
  function WrapUInt32(x: int): (r: uint32)
    ensures 0 <= x < UINT32_MODULUS ==> r == x
    ensures (r - x) % UINT32_MODULUS == 0
  {
    x % UINT32_MODULUS
  }
}
