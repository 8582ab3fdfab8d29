/** The fixed-width unsigned integer types the engine stores, as bounded
 * naturals. */
module Ints {

  type U8 = x: nat | x < 0x100

  type U32 = x: nat | x < 0x1_0000_0000

  type U64 = x: nat | x < 0x1_0000_0000_0000_0000
}
