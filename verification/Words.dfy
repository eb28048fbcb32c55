/** How many values machine words have. */
module Words {
  const WORD16: nat := 0x1_0000
  const WORD32: nat := 0x1_0000_0000
  const WORD64: nat := 0x1_0000_0000_0000_0000
}
