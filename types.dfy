/**
 * Machine integer widths and the small wrapper types shared by every module.
 *
 * The kernel is written in freestanding C++ with fixed-width unsigned
 * integers (`u8` .. `u64`); here they are subset types of `int`, so every
 * wrap-around the source relies on is written out with `% U64_MOD` and the like.
 */
module Types {
  const U8_MOD: nat := 0x100
  const U16_MOD: nat := 0x1_0000
  const U32_MOD: nat := 0x1_0000_0000
  const U64_MOD: nat := 0x1_0000_0000_0000_0000

  type u8 = x: int | 0 <= x < 0x100
  type u16 = x: int | 0 <= x < 0x1_0000
  type u32 = x: int | 0 <= x < 0x1_0000_0000
  type u64 = x: int | 0 <= x < 0x1_0000_0000_0000_0000

  /** A value that may be missing (a null pointer, `has_obj == false`). */
  datatype Option<T> = None | Some(value: T)

  /** 64-bit wrapping addition and subtraction, as unsigned C++ arithmetic does them. */
  function Add64(a: u64, b: u64): (r: u64)
    ensures a + b < U64_MOD ==> r == a + b
    ensures a + b >= U64_MOD ==> r == a + b - U64_MOD
  {
    (a + b) % U64_MOD
  }

  function Sub64(a: u64, b: u64): (r: u64)
    ensures b <= a ==> r == a - b
    ensures b > a ==> r == a - b + U64_MOD
  {
    (a - b) % U64_MOD
  }
}
