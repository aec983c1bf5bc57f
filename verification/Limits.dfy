/** Integer widths that several parts of the server run into. */
module Limits {

  /** Unsigned 32-bit numbers wrap around here. */
  const UINT32 := 0x1_0000_0000

  /** The largest stack, signed for the sake of the client. */
  const MAX_STACK_SIZE := 0x7fff_ffff
}
