/** The virtual page that the MMU and TTBR0 tests map for themselves. */
module TestPage {
  import opened Memory
  import opened Mmu

  const TEST_VADDR := 0x2000_0000
  const TEST_SLOT := 0x80

  /** Its directory slot and table entry. */
  lemma TestSlot(va: u32)
    requires va == TEST_VADDR
    ensures va / 0x40_0000 == TEST_SLOT && va / PAGE_SIZE % 1024 == 0 && PageOf(va) == va && va % 4 == 0
  {
  }
}
