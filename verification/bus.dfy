/** The five I2C peripheral primitives the transfer routine drives, seen as
    events on a trace. What each primitive does on the wire (acknowledge
    bits, status flags, clock stretching) is not modelled: a primitive is the
    fact that it was issued, in order. */
module Bus {
  import opened CTypes

  /** The direction flag passed with a 7-bit slave address. */
  datatype Direction = Transmitter | Receiver

  datatype Event =
    | Start                           // I2C_GenerateSTART
    | Addr(ic: U8, dir: Direction)    // I2C_Send7bitAddress
    | Send(b: U8)                     // I2C_SendData
    | Recv                            // I2C_ReceiveData
    | Stop                            // I2C_GenerateSTOP
}
