/** The 32-bit target: the size of a page, and the range of its words. */
module Machine {

  const PAGE_SIZE: nat := 4096

  /** The values of a size_t are those below this. */
  const WORD: nat := 0x1_0000_0000

  /** The values of an int or a long. */
  const INT_MAX: nat := 0x7FFF_FFFF
  const INT_MIN: int := -0x8000_0000
}
