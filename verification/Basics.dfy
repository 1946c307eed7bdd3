/** Small types shared by every component of the kernel model. */
module Basics {
  datatype Option<+T> = None | Some(value: T)

  const BACKSPACE: char := '\U{0008}'

  const TWO64: nat := 0x1_0000_0000_0000_0000

  type u8 = x: nat | x < 0x100
  type u16 = x: nat | x < 0x1_0000
  type u64 = x: nat | x < TWO64

  /** Addition as the machine does it: modulo 2^64. */
  function Add64(a: u64, b: u64): u64 {
    (a + b) % 0x1_0000_0000_0000_0000
  }

  /** Subtraction as the machine does it: modulo 2^64. */
  function Sub64(a: u64, b: u64): u64 {
    (a - b) % 0x1_0000_0000_0000_0000
  }
}
