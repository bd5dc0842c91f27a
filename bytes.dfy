/** Fixed-width integers and byte-sequence helpers shared by the firmware model. */
module Bytes {

  /** An unsigned 8-bit value (`uint8_t`). */
  newtype byte = x: int | 0 <= x < 0x100

  /** An unsigned 16-bit value (`uint16_t`), the type of a negotiated ATT MTU. */
  newtype uint16 = x: int | 0 <= x < 0x1_0000

  /** An unsigned 32-bit value (`uint32_t`), the type of a passkey candidate. */
  newtype uint32 = x: int | 0 <= x < 0x1_0000_0000

  datatype Option<T> = None | Some(value: T)

  /** `b += 1` on a `uint8_t`: the counter wraps from 0xFF back to 0x00. */
  function Inc(b: byte): (r: byte)
    ensures r as int == (b as int + 1) % 0x100
  {
    if b == 0xFF then 0 else b + 1
  }

  function Min(a: int, b: int): int
  {
    if a <= b then a else b
  }

  /** The bytes of all the pieces, one after another. */
  function Concat(pieces: seq<seq<byte>>): seq<byte>
  {
    if pieces == [] then [] else pieces[0] + Concat(pieces[1..])
  }
}
