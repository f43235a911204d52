/** Sizes that all parts of the memory manager agree on. */
module Units {

  const HBLKSIZE: nat := 4096
  const WORD_BYTES: nat := 8
  const WORD_RANGE: nat := 0x1_0000_0000_0000_0000   // a word is less than this
}
