/** Physical memory: frames of 512 words. A word is seen through the bit fields that the kernel's masks
    cut out of it (kernel/include/mm/pages.h): the physical address in bits 12 to 47, the reference
    count in bits 52 to 61, the flags the kernel uses, and whatever is left. */
module Words {

  const PAGE: nat := 4096
  const ENTRIES: nat := 512
  /** The number of physical addresses that PHYS_ADDR_MASK leaves room for, 2^48. */
  const PHYSICAL: nat := 0x1_0000_0000_0000

  datatype Word = Word(addr: int, refs: int, present: bool, rw: bool, user: bool, lazy: bool, nx: bool, rest: int)

  const ZERO: Word := Word(0, 0, false, false, false, false, false, 0)

  /** A word that holds the address of a frame. */
  function AddressWord(a: int): Word {
    ZERO.(addr := a)
  }

  /** A word whose reference count is one less. A count of zero borrows from bits 62 and 63, which are clear
      in all entries that the kernel makes: the second of them forbids execution. */
  function CountDown(w: Word): Word {
    if w.refs > 0 then w.(refs := w.refs - 1)
    else w.(refs := 0x3FF, nx := true, rest := w.rest + 0x4000_0000_0000_0000)
  }

  type Frame = s: seq<Word> | |s| == ENTRIES witness seq(ENTRIES, _ => ZERO)

  function ZeroFrame(): Frame {
    seq(ENTRIES, _ => ZERO)
  }
}
