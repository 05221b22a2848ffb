/** What the kernel, its allocators and its loader know of the machine. */
module Machine {
  const PAGE: nat := 4096   // PMM_PAGE_SIZE, VMM_DEFAULT_PAGE_SIZE
  const WORD: nat := 0x1_0000_0000_0000_0000   // addresses and sizes have 64 bits and wrap around
}
