/** Shared vocabulary: an Option type and the 64-bit unsigned words that
    ELF64 addresses, offsets and unw_word_t values are stored in. */
module Prelude {

  datatype Option<+T> = None | Some(value: T)

  /** 2^64: Elf64_Addr, Elf64_Off, size_t and unw_word_t are 64 bits wide. */
  const WORD: nat := 0x1_0000_0000_0000_0000

  type Word = x: nat | x < WORD

  /** ~(Elf64_Addr) 0, the "infinitely far" starting distance. */
  const ALL_ONES: Word := WORD - 1

  /** The value C stores when a mathematical integer is assigned to a 64-bit unsigned. */
  function Wrap(x: int): Word
  {
    x % WORD
  }

  /** The C expression (Elf64_Addr) (a - b). */
  function SubW(a: Word, b: Word): (r: Word)
    ensures b <= a ==> r == a - b
    ensures a < b ==> r == WORD - (b - a)
  {
    Wrap(a - b)
  }

  /** The C expression a + b on 64-bit unsigned operands. */
  function AddW(a: Word, b: Word): (r: Word)
    ensures a + b < WORD ==> r == a + b
    ensures WORD <= a + b ==> r == a + b - WORD
  {
    Wrap(a + b)
  }
}
