// Machine integers and the option type shared by every component.

module Common {
  const TWO32 := 0x1_0000_0000
  const TWO64 := 0x1_0000_0000_0000_0000

  type Byte = x: int | 0 <= x < 256
  type U32 = x: int | 0 <= x < 0x1_0000_0000
  type U64 = x: int | 0 <= x < 0x1_0000_0000_0000_0000

  datatype Option<+T> = None | Some(value: T)

  // Unsigned 32-bit addition, wrapping as C's uint32_t and uintptr_t do on i386.
  function Add32(a: U32, b: U32): U32 {
    if a + b < 0x1_0000_0000 then a + b else a + b - 0x1_0000_0000
  }

  // Unsigned 64-bit addition, wrapping as uint64_t does.
  function Add64(a: U64, b: U64): U64 {
    if a + b < 0x1_0000_0000_0000_0000 then a + b else a + b - 0x1_0000_0000_0000_0000
  }

  // The value kept by a cast of a 64-bit number to uintptr_t.
  function Truncate32(a: U64): U32 {
    a % 0x1_0000_0000
  }
}
