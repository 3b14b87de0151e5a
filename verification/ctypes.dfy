/** The fixed-width integers and raw pointers of the firmware's C interface. */
module CTypes {

  /** `uint8_t`: device addresses, data bytes and transfer lengths. */
  newtype U8 = x: int | 0 <= x < 0x100

  /** `uint16_t`: the register address parameter of the transfer routine. */
  newtype U16 = x: int | 0 <= x < 0x1_0000

  /** `uint32_t`: the tick countdown. */
  newtype U32 = x: int | 0 <= x < 0x1_0000_0000

  /** A `uint8_t *` argument: either the null pointer or a pointer to the
      first byte of a caller-owned array whose contents are `bytes`. */
  datatype Buffer = Null | Buf(bytes: seq<U8>)
}
