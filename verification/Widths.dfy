/** Machine widths: the powers of two behind them and the values that fit. */
module Widths {

  const TWO16: nat := 0x1_0000
  const TWO32: nat := 0x1_0000_0000
  const TWO64: nat := 0x1_0000_0000_0000_0000

  type Octet = x: nat | x < 0x100
  type U16 = x: nat | x < 0x1_0000
  type U32 = x: nat | x < 0x1_0000_0000
  type Word = x: nat | x < 0x1_0000_0000_0000_0000

  /** A value that fits 32 bits does not wrap. */
  lemma SmallMod(x: nat)
    requires x < TWO32
    ensures x % TWO32 == x
  {}
}
