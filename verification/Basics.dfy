/** Fixed-width integers, byte strings and the option type shared by all modules. */
module Basics {

  datatype Option<+T> = None | Some(value: T)

  type uint8 = x: int | 0 <= x < 0x100
  type uint16 = x: int | 0 <= x < 0x1_0000
  type uint32 = x: int | 0 <= x < 0x1_0000_0000
  type uint64 = x: int | 0 <= x < 0x1_0000_0000_0000_0000

  /** Packet contents, content names and cached data are all byte strings. */
  type Bytes = seq<uint8>

  /** Truncation to 16 and to 32 bits; a value that fits is kept. */
  function Low16(n: int): uint16 {
    if 0 <= n < 0x1_0000 then n else n % 0x1_0000
  }

  function Low32(n: int): uint32 {
    if 0 <= n < 0x1_0000_0000 then n else n % 0x1_0000_0000
  }

  function Max(a: nat, b: nat): nat {
    if a < b then b else a
  }
}
