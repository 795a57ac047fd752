/** The machine integers of the C++ code.  Computations are written on `int`
    and truncated explicitly where the code stores into a fixed-width type. */
module MachineInts {

  const TWO_64: int := 0x1_0000_0000_0000_0000
  const TWO_128: int := 0x1_0000_0000_0000_0000_0000_0000_0000_0000

  type u8 = x: int | 0 <= x < 0x100
  type u16 = x: int | 0 <= x < 0x1_0000
  type u32 = x: int | 0 <= x < 0x1_0000_0000
  type u64 = x: int | 0 <= x < TWO_64
  type u128 = x: int | 0 <= x < TWO_128
  type i8 = x: int | -0x80 <= x < 0x80
  type i32 = x: int | -0x8000_0000 <= x < 0x8000_0000
  type i64 = x: int | -0x8000_0000_0000_0000 <= x < 0x8000_0000_0000_0000

  /** Storing into an unsigned 64-bit variable. */
  function Wrap64(x: int): u64 { if 0 <= x < TWO_64 then x else x % TWO_64 }

  /** Storing into an unsigned 128-bit variable. */
  function Wrap128(x: int): u128 { if 0 <= x < TWO_128 then x else x % TWO_128 }
}
