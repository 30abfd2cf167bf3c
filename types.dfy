/** Machine integer widths of the 8051 target and an optional value. */
module Types {

  /** `uint8_t`: values of one byte. */
  type uint8 = x: int | 0 <= x < 0x100

  /** `uint32_t`: the width of the millisecond clock. */
  type uint32 = x: int | 0 <= x < 0x1_0000_0000

  const Uint32Modulus: nat := 0x1_0000_0000

  datatype Option<+T> = None | Some(value: T)
}
