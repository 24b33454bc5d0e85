/** Fixed-width integer types of the C code and an Option wrapper for results that may be absent. */
module Common {

  /** `uint8_t`: one byte of sample data. */
  type byte = bv8

  /** `uint32_t`: a checksum value. */
  type uint32 = x: int | 0 <= x < 0x1_0000_0000

  /** `uint64_t`: the frame counter. */
  type uint64 = x: int | 0 <= x < 0x1_0000_0000_0000_0000

  /** `int64_t`: a presentation timestamp. */
  type int64 = x: int | -0x8000_0000_0000_0000 <= x < 0x8000_0000_0000_0000

  /** `int`, 32 bits wide on every platform the code targets. */
  type int32 = x: int | -0x8000_0000 <= x < 0x8000_0000

  const UINT64_MODULUS: int := 0x1_0000_0000_0000_0000
  const INT_MAX: int := 0x7FFF_FFFF

  /** A value that may be absent: a NULL pointer, or text that does not parse. */
  datatype Option<+T> = None | Some(value: T)
}
