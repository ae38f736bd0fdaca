// Machine integers, and a value that may be absent.

module Ints {
  type uint16 = n: int | 0 <= n < 0x1_0000
  type uint32 = n: int | 0 <= n < 0x1_0000_0000
  type int32 = n: int | -0x8000_0000 <= n < 0x8000_0000

  const MAX_UINT16: uint16 := 0xFFFF
  const MAX_UINT32: uint32 := 0xFFFF_FFFF

  // The value of an unsigned 32-bit word read as a two's complement integer.
  function AsInt32(n: uint32): (i: int32)
    ensures i == n || i == n - 0x1_0000_0000
    ensures i == n <==> n < 0x8000_0000
  {
    if n < 0x8000_0000 then n else n - 0x1_0000_0000
  }
}

module Wrappers {
  datatype Option<+T> = None | Some(value: T)
}
