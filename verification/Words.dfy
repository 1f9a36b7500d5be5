/** The 32-bit machine word. */
module Words {
  const WORD := 0x1_0000_0000

  type u32 = x: int | 0 <= x < WORD
}
