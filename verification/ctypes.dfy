/** The fixed-width C integer types the semaphore table is written with. */
module CTypes {

  /** 2^32: the number of distinct `uint32_t` values. */
  const UINT32_MODULUS: int := 0x1_0000_0000

  /** C's `uint32_t`. */
  newtype uint32 = x: int | 0 <= x < 0x1_0000_0000

  /** The C conversion of an `int` value to `uint32_t`: the unique value
      congruent to `x` modulo 2^32. */
  function ToUint32(x: int): (r: uint32)
    ensures (r as int - x) % UINT32_MODULUS == 0
    ensures 0 <= x < UINT32_MODULUS ==> r as int == x
  {
    (x % UINT32_MODULUS) as uint32
  }

  /** Unsigned addition as C performs it on `uint32_t`: wraps at 2^32. */
  function AddUint32(a: uint32, b: uint32): (r: uint32)
    ensures a as int + b as int < UINT32_MODULUS ==> r as int == a as int + b as int
    ensures a as int + b as int >= UINT32_MODULUS ==> r as int == a as int + b as int - UINT32_MODULUS
  {
    ToUint32(a as int + b as int)
  }
}
