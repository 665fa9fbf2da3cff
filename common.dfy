/** Small shared datatypes and the fixed-width integer types of the C program. */
module Common {

  /** An optional value: a decoded frame or a rejection, an emitted snapshot or none. */
  datatype Option<+T> = None | Some(value: T)

  /** C `uint8_t` as a bit-vector, so that shifts and masks read as in the source. */
  type Byte = bv8

  /** C `uint16_t`, as an integer range. */
  type Uint16 = x: int | 0 <= x < 0x1_0000

  /** C `uint32_t`, as an integer range. */
  type Uint32 = x: int | 0 <= x < 0x1_0000_0000

  const UINT32_MODULUS: int := 0x1_0000_0000
}
