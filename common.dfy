/**
 * Value types shared by the modules of the model: C's fixed-width unsigned
 * integers as ranges of `int`, and an optional value.
 */
module Common {

  /** An `uint8_t` (also the `unsigned char` of the pixel buffers). */
  type byte = x: int | 0 <= x < 0x100

  /** An `uint16_t`. */
  type u16 = x: int | 0 <= x < 0x1_0000

  /** An `uint32_t` or `unsigned` (32-bit). */
  type u32 = x: int | 0 <= x < 0x1_0000_0000

  /** A value that may be absent: a NULL address, or a driver call that failed. */
  datatype Option<+T> = None | Some(value: T)
}
