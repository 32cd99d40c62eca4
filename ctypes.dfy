/** Fixed-width C integer types used by the library (global.h:81-89), and the
    Option type that stands for a pointer that may be NULL. */
module CTypes {

  /** `u8`: one byte of an allocator buffer, or a byte printed in binary. */
  type u8 = bv8

  /** `u32` as a range of the mathematical integers; arithmetic on it that
      can leave the range is written out with `Add32`. */
  const U32_MODULUS: int := 0x1_0000_0000
  type u32 = x: int | 0 <= x < U32_MODULUS

  /** The range of a 32-bit `int`. */
  const INT_MIN: int := -0x8000_0000
  const INT_MAX: int := 0x7FFF_FFFF
  type s32 = x: int | INT_MIN <= x <= INT_MAX

  /** Unsigned 32-bit addition: the mathematical sum reduced modulo 2^32. */
  function Add32(a: u32, b: u32): (r: u32)
    ensures a + b < U32_MODULUS ==> r == a + b
    ensures a + b >= U32_MODULUS ==> r == a + b - U32_MODULUS
  {
    (a + b) % U32_MODULUS
  }

  /** A pointer that is either NULL or designates something. */
  datatype Option<T> = None | Some(value: T)
}
