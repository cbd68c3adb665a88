/** What several of the models need: optional values, bytes, and the limits of 64-bit numbers. */
module Basics {

  datatype Option<T> = None | Some(value: T)

  type Byte = bv8

  /** Unsigned 64-bit numbers are below WORD_LIMIT, signed ones below HALF_LIMIT. */
  const WORD_LIMIT: int := 0x1_0000_0000_0000_0000
  const HALF_LIMIT: int := 0x8000_0000_0000_0000

  function Min(a: int, b: int): (m: int)
    ensures m == a || m == b
    ensures m <= a && m <= b
  {
    if a < b then a else b
  }
}
