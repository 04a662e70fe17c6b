/** 32-bit machine words and the page arithmetic shared by the memory modules. */
module Words {
  const WORD: nat := 0x1_0000_0000
  const PAGE_SIZE: nat := 4096

  type u32 = x: nat | x < 0x1_0000_0000
  type byte = x: nat | x < 256

  datatype Option<+T> = None | Some(value: T)

  /** Unsigned 32-bit addition, wrapping as the hardware does. */
  function Add32(x: u32, y: u32): u32 {
    if x + y < WORD then x + y else x + y - WORD
  }

  lemma Add32Exact(x: u32, y: u32)
    ensures Add32(x, y) == (x + y) % WORD
  {
  }

  /** ALIGN4: rounds up to a multiple of four, wrapping at 2^32. */
  function Align4(x: u32): u32 {
    Add32(x, 3) / 4 * 4
  }

  /** The least multiple of four that is not below x, unless only 2^32 is, which reads as 0. */
  lemma Align4Exact(x: u32)
    ensures Align4(x) % 4 == 0
    ensures if x <= WORD - 4 then x <= Align4(x) < x + 4 else Align4(x) == 0
  {
  }
}
