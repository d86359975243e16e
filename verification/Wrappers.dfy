/** Result types, byte strings and PEM blocks shared by the other modules. */
module Wrappers {

  datatype Option<+T> = None | Some(value: T)

  datatype Result<+T, +E> = Ok(value: T) | Err(error: E)

  type byte = x: int | 0 <= x < 256

  type Bytes = seq<byte>

  /** A device GUID. */
  type Guid = Bytes

  /** A block that pem.Decode returns; a PEM text is the list of its blocks. */
  datatype PemBlock = PemBlock(kind: string, bytes: Bytes)

  /** Unsigned 32-bit integers, the width of every TTL and of `delay_seconds`. */
  const TWO_32: int := 0x1_0000_0000

  type u32 = x: int | 0 <= x < 0x1_0000_0000
}
