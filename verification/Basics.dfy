// Machine words as bounded numbers, and the few sequence and number functions every part uses.
module Basics {
  type u8 = n: nat | n < 256
  type u32 = n: nat | n < 0x1_0000_0000
  type u64 = n: nat | n < 0x1_0000_0000_0000_0000

  const U32_MAX: nat := 0xFFFF_FFFF

  function Min(a: nat, b: nat): nat { if a <= b then a else b }

  function Max(a: nat, b: nat): nat { if a <= b then b else a }

  /** The first `n` elements, or all if there are fewer. */
  function Take<T>(s: seq<T>, n: nat): seq<T> { s[..Min(|s|, n)] }

  function Overwrite<T>(s: seq<T>, at: nat, part: seq<T>): seq<T>
    requires at + |part| <= |s|
  {
    s[..at] + part + s[at + |part|..]
  }
}
