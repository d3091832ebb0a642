/** The 32-bit machine: values below `WORD` fit its registers, and memory is mapped by the page. */
module Machine {
  const WORD: nat := 0x1_0000_0000
  const PAGE: nat := 0x1000
}
