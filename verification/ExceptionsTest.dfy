/** The exceptions test finds page-table entries by address arithmetic on the bootstrap tables. */
module ExceptionsTest {
  import opened Bits
  import opened Memory
  import opened Mmu
  import opened Bootstrap
  import opened PageUse

  const FIRST_DIRECT_TABLE_VADDR := 0xc001_2000
  const FIRST_TABLE_SPAN := 0x40_0000

  /** direct_pte: the virtual address at which the test edits the entry of a kernel address. */
  function DirectPte(va: u32): (r: int)
    ensures FIRST_DIRECT_TABLE_VADDR <= r <= FIRST_DIRECT_TABLE_VADDR + 4092 && r % 4 == 0
  {
    ShiftRight12(va);
    LowBits10(va / 4096);
    FIRST_DIRECT_TABLE_VADDR + And(ShiftRight(va, 12), 0x3ff) * 4
  }

  /** The directory slots of the direct map are as bootstrap filled them; the test has changed others. */
  ghost predicate DirectSlots(m: Mem) {
    forall k {:trigger Entry(m, ROOT, k)} :: 0x300 <= k < 0x310 ==> Entry(m, ROOT, k) == BootstrapDirectoryEntry(k)
  }

  /**
   * For a direct-mapped address the computed entry is the one the walk uses exactly when the
   * address lies in the first 4 MiB: only the first of the sixteen direct-map tables is indexed.
   */
  lemma DirectPteIsWalked(m: Mem, va: u32)
    requires DirectSlots(m) && KERNEL_DIRECT_BASE <= va < KERNEL_DIRECT_BASE + KERNEL_DIRECT_SIZE
    ensures KernelPhysical(DirectPte(va)) == PteAddress(m, ROOT, va) <==> va < KERNEL_DIRECT_BASE + FIRST_TABLE_SPAN
  {
    AddressParts(va);
    var k := va / 0x40_0000;
    assert 0x300 <= k < 0x310;
    assert Entry(m, ROOT, k) == BootstrapDirectoryEntry(k);
    AlignedPlusPages(DIRECT_TABLES, k - 0x300);
    SplitPage(DIRECT_TABLES + 0x1000 * (k - 0x300), PDE_VALID);
    DirectPteNeedsTable(m, va);
  }

  /** For any address at all: the computed entry is the walk's exactly when its slot addresses that first table. */
  lemma DirectPteNeedsTable(m: Mem, va: u32)
    ensures KernelPhysical(DirectPte(va)) == PteAddress(m, ROOT, va) <==>
      And(Entry(m, ROOT, va / 0x40_0000), PAGE_MASK) == DIRECT_TABLES
  {
    ShiftRight12(va);
    LowBits10(va / 4096);
  }

  /** With no other slot addressing it, the addresses found are those of the first 4 MiB of the direct map. */
  lemma DirectPteFinds(m: Mem, va: u32)
    requires DirectSlots(m)
    requires forall k {:trigger Entry(m, ROOT, k)} :: 0 <= k < 1024 && !(0x300 <= k < 0x310) ==>
      And(Entry(m, ROOT, k), PAGE_MASK) != DIRECT_TABLES
    ensures KernelPhysical(DirectPte(va)) == PteAddress(m, ROOT, va) <==>
      KERNEL_DIRECT_BASE <= va < KERNEL_DIRECT_BASE + FIRST_TABLE_SPAN
  {
    AddressParts(va);
    DirectPteNeedsTable(m, va);
    if KERNEL_DIRECT_BASE <= va < KERNEL_DIRECT_BASE + KERNEL_DIRECT_SIZE {
      DirectPteIsWalked(m, va);
    } else {
      assert And(Entry(m, ROOT, va / 0x40_0000), PAGE_MASK) != DIRECT_TABLES;
    }
  }

  /** An address just past the first table: the test's arithmetic names another page's entry. */
  lemma DirectPteMissesSecondTable(m: Mem)
    requires DirectSlots(m)
    ensures var va := KERNEL_DIRECT_BASE + FIRST_TABLE_SPAN;
      && KernelPhysical(DirectPte(va)) != PteAddress(m, ROOT, va)
      && KernelPhysical(DirectPte(va)) == PteAddress(m, ROOT, KERNEL_DIRECT_BASE)
  {
    DirectPteIsWalked(m, KERNEL_DIRECT_BASE + FIRST_TABLE_SPAN);
    DirectPteIsWalked(m, KERNEL_DIRECT_BASE);
    SamePte();
  }

  lemma SamePte()
    ensures DirectPte(KERNEL_DIRECT_BASE + FIRST_TABLE_SPAN) == DirectPte(KERNEL_DIRECT_BASE)
  {
    ShiftRight12(KERNEL_DIRECT_BASE + FIRST_TABLE_SPAN);
    ShiftRight12(KERNEL_DIRECT_BASE);
    LowBits10((KERNEL_DIRECT_BASE + FIRST_TABLE_SPAN) / 4096);
    LowBits10(KERNEL_DIRECT_BASE / 4096);
  }
}
