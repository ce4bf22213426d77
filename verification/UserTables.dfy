/** The user page table the loader installs, and the translations it gives. */
module UserTables {
  import opened Bits
  import opened Memory
  import opened Mmu
  import opened Bootstrap
  import opened UserSpace
  import opened UserPool
  import opened UserLoader

  const USER_PAGE := PTE_VALID + PTE_USER
  const STACK_FLAGS := 0x17
  const STACK_INDEX := 1023

  /** Entry e of the user page table for a pool. */
  function PageEntry(layout: Layout, pool: seq<Slot>, e: int): int {
    var k := IndexOf(pool, PageAt(1, e));
    if k < 0 then 0 else layout.PageAddress(k) + USER_PAGE + pool[k].flags
  }

  /** The user page table holds the pool's pages; other entries are clear. */
  ghost predicate PagesInstalled(m: Mem, layout: Layout, pool: seq<Slot>)
  {
    forall e {:trigger Entry(m, layout.userTable, e)} :: 0 <= e < 1024 ==>
      Entry(m, layout.userTable, e) == PageEntry(layout, pool, e)
  }

  /** The finished user page table: the pool's pages and the stack page. */
  ghost predicate UserTable(m: Mem, layout: Layout, pool: seq<Slot>)
  {
    forall e {:trigger Entry(m, layout.userTable, e)} :: 0 <= e < 1024 ==>
      Entry(m, layout.userTable, e) ==
        if e == STACK_INDEX then layout.userStack + STACK_FLAGS else PageEntry(layout, pool, e)
  }

  /** Permission bits that segments can ask for leave the valid and user bits alone. */
  predicate SegmentBits(f: int) {
    f == 0 || f == 2 || f == 8 || f == 10 || f == 16 || f == 18 || f == 24 || f == 26
  }

  ghost predicate FlagsOk(pool: seq<Slot>) {
    forall k {:trigger pool[k]} :: 0 <= k < |pool| ==> SegmentBits(pool[k].flags)
  }

  lemma PoolFlags(pool: seq<Slot>, segs: seq<Segment>, imageSize: u32)
    requires PoolFor(pool, segs, imageSize)
    ensures FlagsOk(pool)
  {
    forall k | 0 <= k < |pool| ensures SegmentBits(pool[k].flags) {
      IndexOfSlot(pool, k);
      assert IsUserPage(pool[k].vaddr) && Touched(segs, pool[k].vaddr);
      var s :| s in segs && s.Touches(pool[k].vaddr);
      assert s.Acceptable(imageSize);
      PteFlagsBits(s.flags);
    }
  }

  lemma PteFlagsBits(flags: u32)
    requires flags < 8
    ensures SegmentBits(PteFlags(flags))
  {
    assert flags == 0 || flags == 1 || flags == 2 || flags == 3 || flags == 4 || flags == 5 || flags == 6 || flags == 7;
  }

  /** `paddr | VALID | USER | flags` for a page address. */
  lemma UserPte(base: nat, flags: nat)
    requires base % PAGE_SIZE == 0 && SegmentBits(flags)
    ensures Or(Or(Or(base, PTE_VALID), PTE_USER), flags) == base + USER_PAGE + flags
  {
    OrPageFlags(base, 0, 1);
    OrPageFlags(base, 1, 4);
    assert Or(1, 4) == 5;
    OrPageFlags(base, 5, flags);
    OrFive(flags);
  }

  lemma OrFive(flags: nat)
    requires SegmentBits(flags)
    ensures Or(5, flags) == 5 + flags
  {
  }

  lemma StackPte(base: nat)
    requires base % PAGE_SIZE == 0
    ensures Or(Or(Or(Or(base, PTE_VALID), PTE_USER), PTE_READABLE), PTE_WRITABLE) == base + STACK_FLAGS
  {
    UserPte(base, 16);
    OrPageFlags(base, 21, 2);
    assert Or(21, 2) == 23;
  }

  /** `(vaddr >> 12) & 1023` is the table index of a user image page, and never the stack's. */
  lemma TableIndex(vaddr: u32)
    requires IsUserPage(vaddr)
    ensures var e := And(ShiftRight(vaddr, 12), 1023);
      0 <= e < STACK_INDEX && PageAt(1, e) == vaddr
  {
    var page := vaddr / 4096;
    ShiftRight12(vaddr);
    LowBits10(page);
    UserPageNumber(vaddr);
    assert page % 1024 == page - 1024;
  }

  lemma UserPageNumber(vaddr: u32)
    requires IsUserPage(vaddr)
    ensures 1024 <= vaddr / 4096 < 2047 && vaddr == 4096 * (vaddr / 4096)
  {
  }

  method TableIndexOf(vaddr: u32) returns (e: int)
    requires IsUserPage(vaddr)
    ensures 0 <= e < STACK_INDEX && PageAt(1, e) == vaddr
  {
    TableIndex(vaddr);
    e := And(ShiftRight(vaddr, 12), 1023);
  }

  method UserPteOf(base: nat, flags: nat) returns (pte: nat)
    requires base % PAGE_SIZE == 0 && SegmentBits(flags)
    ensures pte == base + USER_PAGE + flags
  {
    UserPte(base, flags);
    pte := Or(Or(Or(base, PTE_VALID), PTE_USER), flags);
  }

  /** Installing the next slot. */
  lemma InstallStep(m: Mem, m': Mem, layout: Layout, pool: seq<Slot>, n: nat, e: int, pte: u32)
    requires PoolOk(pool) && n < |pool| && 0 <= e < 1024 && PageAt(1, e) == pool[n].vaddr
    requires pte == layout.PageAddress(n) + USER_PAGE + pool[n].flags
    requires PagesInstalled(m, layout, pool[..n])
    requires m' == PutWord(m, layout.userTable + 4 * e, pte)
    ensures PagesInstalled(m', layout, pool[..n + 1])
  {
    assert pool[..n + 1] == pool[..n] + [pool[n]];
    forall i | 0 <= i < 1024 ensures Entry(m', layout.userTable, i) == PageEntry(layout, pool[..n + 1], i) {
      IndexOfAppend(pool[..n], pool[n], PageAt(1, i));
      if i != e {
        assert Entry(m', layout.userTable, i) == Entry(m, layout.userTable, i);
      }
    }
  }

  method InstallPages(loader: Loader)
    requires loader.Valid() && PoolOk(loader.pool) && FlagsOk(loader.pool)
    requires PagesInstalled(loader.mem[..], loader.layout, [])
    modifies loader.mem
    ensures loader.Valid()
    ensures PagesInstalled(loader.mem[..], loader.layout, loader.pool)
    ensures SameBut(old(loader.mem[..]), loader.mem[..], loader.layout.userTable, loader.layout.userTable + 0x1000)
  {
    var index := 0;
    while index < loader.count
      invariant loader.Valid() && 0 <= index <= loader.count
      invariant PagesInstalled(loader.mem[..], loader.layout, loader.pool[..index])
      invariant SameBut(old(loader.mem[..]), loader.mem[..], loader.layout.userTable, loader.layout.userTable + 0x1000)
    {
      InstallPage(loader, index);
      index := index + 1;
    }
    assert loader.pool[..index] == loader.pool;
  }

  method InstallPage(loader: Loader, index: nat)
    requires loader.Valid() && PoolOk(loader.pool) && FlagsOk(loader.pool) && index < loader.count
    requires PagesInstalled(loader.mem[..], loader.layout, loader.pool[..index])
    modifies loader.mem
    ensures loader.Valid()
    ensures PagesInstalled(loader.mem[..], loader.layout, loader.pool[..index + 1])
    ensures SameBut(old(loader.mem[..]), loader.mem[..], loader.layout.userTable, loader.layout.userTable + 0x1000)
  {
    ghost var m: Mem := loader.mem[..];
    var base, vaddr, flags := loader.layout.PageAddress(index), loader.vaddrs[index], loader.flags[index];
    assert loader.pool[index] == Slot(vaddr, flags);
    PageAddressAligned(loader.layout, index);
    var e := TableIndexOf(vaddr);
    var pte := UserPteOf(base, flags);
    WriteWord(loader.mem, loader.layout.userTable + 4 * e, pte);
    InstallStep(m, loader.mem[..], loader.layout, loader.pool, index, e, pte);
  }

  /** The stack page goes in last, into an entry no image page uses. */
  method InstallStack(loader: Loader)
    requires loader.Valid() && PoolOk(loader.pool)
    requires PagesInstalled(loader.mem[..], loader.layout, loader.pool)
    modifies loader.mem
    ensures loader.Valid()
    ensures UserTable(loader.mem[..], loader.layout, loader.pool)
    ensures SameBut(old(loader.mem[..]), loader.mem[..], loader.layout.userTable, loader.layout.userTable + 0x1000)
  {
    ghost var m: Mem := loader.mem[..];
    var e := And(ShiftRight(USER_STACK_BOTTOM, 12), 1023);
    ShiftRight12(USER_STACK_BOTTOM);
    LowBits10(0x7ff);
    assert e == STACK_INDEX;
    StackPte(loader.layout.userStack);
    WriteWord(loader.mem, loader.layout.userTable + 4 * e,
              Or(Or(Or(Or(loader.layout.userStack, PTE_VALID), PTE_USER), PTE_READABLE), PTE_WRITABLE));
    ghost var m': Mem := loader.mem[..];
    forall i | 0 <= i < 1023 ensures Entry(m', loader.layout.userTable, i) == Entry(m, loader.layout.userTable, i) {}
    assert Entry(m', loader.layout.userTable, STACK_INDEX) == loader.layout.userStack + STACK_FLAGS;
  }

  /** The translation of a user page, from the pool alone. */
  function UserView(layout: Layout, pool: seq<Slot>, page: int): Option<Translation> {
    var k := IndexOf(pool, page);
    if page == USER_STACK_BOTTOM then Some(Page(layout.userStack, STACK_FLAGS))
    else if k < 0 then None
    else Some(Page(layout.PageAddress(k), USER_PAGE + pool[k].flags))
  }

  lemma UserTranslation(m: Mem, layout: Layout, pool: seq<Slot>, e: int)
    requires |pool| <= MAX_USER_IMAGE_PAGES && FlagsOk(pool) && 0 <= e < 1024
    requires UserTable(m, layout, pool) && Entry(m, ROOT, 1) == layout.userTable + PDE_VALID
    ensures WalkAt(m, ROOT, 1, e) == UserView(layout, pool, PageAt(1, e))
  {
    WalkThrough(m, ROOT, 1, e, layout.userTable);
    if e == STACK_INDEX {
      DecodePage(layout.userStack, STACK_FLAGS);
    } else {
      PageEntryDecodes(layout, pool, e);
    }
  }

  lemma PageEntryDecodes(layout: Layout, pool: seq<Slot>, e: int)
    requires |pool| <= MAX_USER_IMAGE_PAGES && FlagsOk(pool) && 0 <= e < STACK_INDEX
    ensures 0 <= PageEntry(layout, pool, e) < 0x1_0000_0000
    ensures Decode(PageEntry(layout, pool, e)) == UserView(layout, pool, PageAt(1, e))
  {
    var k := IndexOf(pool, PageAt(1, e));
    if k >= 0 {
      var f := pool[k].flags;
      PageAddressAligned(layout, k);
      assert SegmentBits(f);
      DecodePage(layout.PageAddress(k), USER_PAGE + f);
    }
  }

  lemma PageAddressAligned(layout: Layout, k: int)
    requires 0 <= k < MAX_USER_IMAGE_PAGES
    ensures layout.PageAddress(k) % PAGE_SIZE == 0 && 0 <= layout.PageAddress(k) <= PHYS_TOP - PAGE_SIZE
  {
    AlignedPlusPages(layout.imagePages, k);
  }
}
