/** Machine words of the source. */
module Words {
  const WORD: nat := 0x1_0000_0000_0000_0000
  const SIZE_MAX: nat := WORD - 1

  type Byte = b: nat | b < 0x100
  type U16 = n: nat | n < 0x1_0000
  type U64 = n: nat | n < WORD
}
