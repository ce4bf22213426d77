/** The whole virtual address space once the kernel is about to enter user mode. */
module AddressSpace {
  import opened Memory
  import opened Mmu
  import opened Bootstrap
  import opened UserSpace
  import opened UserPool
  import opened UserSegments
  import opened UserTables
  import opened SystemRom
  import opened LiveTables

  /** The live tables after bootstrap, map_system_rom and load_user_module, whatever pages have been used since. */
  ghost predicate FinalTables(m: Mem, layout: Layout, pool: seq<Slot>, imageSize: u32) {
    0 < imageSize && Live(m, layout, Mapping(imageSize, Some(pool)))
  }

  /** Every translation, in terms of addresses and the pool. */
  function FinalView(layout: Layout, pool: seq<Slot>, imageSize: u32, va: u32): Option<Translation> {
    View(layout, Mapping(imageSize, Some(pool)), va)
  }

  lemma FinalTranslation(m: Mem, layout: Layout, pool: seq<Slot>, imageSize: u32, va: u32)
    requires FinalTables(m, layout, pool, imageSize)
    ensures PoolOk(pool) && FlagsOk(pool) && imageSize <= SYSTEM_ROM_SIZE
    ensures Walk(m, ROOT, va) == FinalView(layout, pool, imageSize, va)
  {
    LiveWalk(m, layout, Mapping(imageSize, Some(pool)), va);
  }

  /** The address space in numbers: stack page, image, and what is not mapped at all. */
  lemma FinalInNumbers(m: Mem, layout: Layout, pool: seq<Slot>, imageSize: u32, va: u32)
    requires FinalTables(m, layout, pool, imageSize)
    ensures 0x007f_f000 <= va < 0x0080_0000 ==> Walk(m, 0x4001_0000, va) == Some(Page(layout.userStack, 0x17))
    ensures 0x0800_0000 <= va < 0x0800_0000 + imageSize ==>
      Walk(m, 0x4001_0000, va) == Some(Page(va - va % 0x1000, 0x11))
    ensures va < 0x0040_0000 || 0x0080_0000 <= va < 0x0800_0000 || 0x0800_0000 + imageSize + 0x1000 <= va < 0x1000_0000 ==>
      Walk(m, 0x4001_0000, va) == None
  {
    FinalTranslation(m, layout, pool, imageSize, va);
    FourTablesSuffice(imageSize);
    if 0x007f_f000 <= va < 0x0080_0000 { PageIsUnique(USER_STACK_BOTTOM, va); }
  }

  /** The stack can be read and written, and not executed. */
  lemma StackPermissions(frame: int)
    ensures var t := Page(frame, 0x17); t.User() && t.Readable() && t.Writable() && !t.Executable()
  {
  }

  /** A user-mode access can reach va. */
  ghost predicate UserReaches(m: Mem, va: u32) {
    Walk(m, ROOT, va).Some? && Walk(m, ROOT, va).value.User()
  }

  /** User mode reaches exactly the pool's pages and the stack page. */
  lemma UserReachesExactly(m: Mem, layout: Layout, pool: seq<Slot>, imageSize: u32, va: u32)
    requires FinalTables(m, layout, pool, imageSize)
    ensures UserReaches(m, va) <==> IndexOf(pool, PageOf(va)) >= 0 || PageOf(va) == USER_STACK_BOTTOM
  {
    FinalTranslation(m, layout, pool, imageSize, va);
    FourTablesSuffice(imageSize);
    PageBounds(va);
    if USER_IMAGE_BASE <= va < USER_STACK_TOP {
      UserViewIsUser(layout, pool, PageOf(va));
    } else {
      OutsideUserRange(pool, va);
    }
  }

  lemma UserViewIsUser(layout: Layout, pool: seq<Slot>, page: int)
    requires PoolOk(pool) && FlagsOk(pool)
    ensures UserView(layout, pool, page).Some? <==> IndexOf(pool, page) >= 0 || page == USER_STACK_BOTTOM
    ensures UserView(layout, pool, page).Some? ==> UserView(layout, pool, page).value.User()
  {
    var k := IndexOf(pool, page);
    if k >= 0 && page != USER_STACK_BOTTOM {
      assert SegmentBits(pool[k].flags);
    }
  }

  lemma OutsideUserRange(pool: seq<Slot>, va: int)
    requires PoolOk(pool) && !(USER_IMAGE_BASE <= va < USER_STACK_TOP)
    ensures IndexOf(pool, PageOf(va)) < 0 && PageOf(va) != USER_STACK_BOTTOM
  {
    PageBounds(va);
    var k := IndexOf(pool, PageOf(va));
    assert k < 0 || IsUserPage(pool[k].vaddr);
  }

  /** Where user mode can reach: distinct pages have distinct frames, all in the pool's pages or the stack. */
  lemma UserFramesIsolated(m: Mem, layout: Layout, pool: seq<Slot>, imageSize: u32, va: u32, vb: u32)
    requires FinalTables(m, layout, pool, imageSize) && UserReaches(m, va) && UserReaches(m, vb)
    ensures var p := Physical(Walk(m, ROOT, va).value, va);
      || layout.imagePages <= p < layout.imagePages + 0x1_0000
      || layout.userStack <= p < layout.userStack + 0x1000
    ensures Physical(Walk(m, ROOT, va).value, va) == Physical(Walk(m, ROOT, vb).value, vb) ==> va == vb
  {
    FinalTranslation(m, layout, pool, imageSize, va);
    FinalTranslation(m, layout, pool, imageSize, vb);
    UserReachesExactly(m, layout, pool, imageSize, va);
    UserReachesExactly(m, layout, pool, imageSize, vb);
    UserFrame(layout, pool, va);
    UserFrame(layout, pool, vb);
  }

  lemma UserFrame(layout: Layout, pool: seq<Slot>, va: int)
    requires PoolOk(pool)
    requires IndexOf(pool, PageOf(va)) >= 0 || PageOf(va) == USER_STACK_BOTTOM
    ensures USER_IMAGE_BASE <= va < USER_STACK_TOP
    ensures UserView(layout, pool, PageOf(va)).Some?
    ensures UserView(layout, pool, PageOf(va)).value.frame ==
      if PageOf(va) == USER_STACK_BOTTOM then layout.userStack else layout.PageAddress(IndexOf(pool, PageOf(va)))
    ensures 0 <= va - PageOf(va) < PAGE_SIZE
  {
    PageBounds(va);
    var k := IndexOf(pool, PageOf(va));
    if k >= 0 {
      assert IsUserPage(pool[k].vaddr);
    }
  }

  lemma UserFrameInRam(m: Mem, layout: Layout, pool: seq<Slot>, imageSize: u32, va: u32)
    requires FinalTables(m, layout, pool, imageSize) && UserReaches(m, va)
    ensures RAM_BASE <= Walk(m, ROOT, va).value.frame <= PHYS_TOP - PAGE_SIZE
  {
    FinalTranslation(m, layout, pool, imageSize, va);
    UserReachesExactly(m, layout, pool, imageSize, va);
    UserFrame(layout, pool, va);
  }

  /** Nothing the kernel maps for itself moved: the direct map, the identity map and MMIO. */
  lemma KernelViewUnchanged(m: Mem, layout: Layout, pool: seq<Slot>, imageSize: u32, va: u32)
    requires FinalTables(m, layout, pool, imageSize) && BootstrapView(va).Some?
    ensures Walk(m, ROOT, va) == BootstrapView(va) && !UserReaches(m, va)
    ensures var t := Walk(m, 0x4001_0000, va).value;
      t.Readable() && t.Writable() && !t.User() && (t.Executable() <==> !(0x1000_0000 <= va < 0x1001_0000))
  {
    BootstrapPermissions(va);
    FinalTranslation(m, layout, pool, imageSize, va);
    FourTablesSuffice(imageSize);
  }

  /** The mapping after has all that the mapping before had. */
  predicate Extends(after: Mapping, before: Mapping) {
    && (before.imageSize == 0 || before.imageSize == after.imageSize)
    && (before.pool.None? || before.pool == after.pool)
  }

  /**
   * What the TLB cached while less was mapped is still right afterwards, for mapping the ROM or a
   * module only adds translations where a walk used to fault.
   */
  lemma CachedWalksStayRight(m0: Mem, before: Mapping, m: Mem, after: Mapping, layout: Layout, tlb: map<u32, Translation>)
    requires Live(m0, layout, before) && Live(m, layout, after) && Extends(after, before)
    requires Coherent(m0, ROOT, tlb)
    ensures Coherent(m, ROOT, tlb)
  {
    RomBounds(before.imageSize);
    RomBounds(after.imageSize);
    forall page | page in tlb ensures Walk(m, ROOT, page) == Some(tlb[page]) {
      assert Walk(m0, ROOT, page) == Some(tlb[page]);
      LiveWalk(m0, layout, before, page);
      LiveWalk(m, layout, after, page);
      ViewGrows(layout, before, after, page);
    }
  }

  lemma ViewGrows(layout: Layout, before: Mapping, after: Mapping, va: u32)
    requires before.Valid() && after.Valid() && Extends(after, before) && View(layout, before, va).Some?
    ensures View(layout, after, va) == View(layout, before, va)
  {
    RomBounds(before.imageSize);
    RomBounds(after.imageSize);
  }

  /** Every byte of the mapped image is readable by the kernel where it lies, and by nobody else. */
  lemma ImageIdentityMapped(m: Mem, layout: Layout, pool: seq<Slot>, imageSize: u32, offset: u32)
    requires FinalTables(m, layout, pool, imageSize) && offset < imageSize
    ensures var va := SYSTEM_ROM_BASE + offset;
      && Walk(m, ROOT, va) == Some(Page(PageOf(va), ROM_FLAGS)) && Physical(Walk(m, ROOT, va).value, va) == va
      && Walk(m, ROOT, va).value.Readable() && !Walk(m, ROOT, va).value.Writable()
      && !Walk(m, ROOT, va).value.Executable() && !UserReaches(m, va)
  {
    FourTablesSuffice(imageSize);
    FinalTranslation(m, layout, pool, imageSize, SYSTEM_ROM_BASE + offset);
  }

  /** The byte a virtual address shows through the page tables. */
  ghost function ReadVirtual(m: Mem, va: u32): Option<byte> {
    match Walk(m, ROOT, va)
    case None => None
    case Some(t) => if 0 <= Physical(t, va) < PHYS_TOP then Some(m[Physical(t, va)]) else None
  }

  /** Through directory, page table and page pool, user addresses show exactly the overlay of the segments. */
  lemma UserImageIsOverlay(m0: Mem, segs: seq<Segment>, m: Mem, layout: Layout, pool: seq<Slot>, imageSize: u32, va: u32)
    requires FinalTables(m, layout, pool, imageSize) && Holding(m0, segs, imageSize, m, layout, pool)
    requires USER_IMAGE_BASE <= va < USER_STACK_BOTTOM
    ensures ReadVirtual(m, va) == Overlay(m0, segs, va)
  {
    FinalTranslation(m, layout, pool, imageSize, va);
    PageBounds(va);
    assert UserByte(m, layout, pool, va) == Overlay(m0, segs, va);
    var k := IndexOf(pool, PageOf(va));
    if k >= 0 {
      assert IsUserPage(pool[k].vaddr);
    }
    StackPageApart(va);
  }

  lemma StackPageApart(va: int)
    requires va < USER_STACK_BOTTOM
    ensures PageOf(va) != USER_STACK_BOTTOM
  {
    PageBounds(va);
  }

  /** Each byte of a segment sits on a user page with exactly that segment's permissions. */
  lemma SegmentPermissions(segs: seq<Segment>, m: Mem, layout: Layout, pool: seq<Slot>, imageSize: u32,
                           s: Segment, va: u32)
    requires FinalTables(m, layout, pool, imageSize) && PoolFor(pool, segs, imageSize)
    requires s in segs && s.Holds(va)
    ensures Walk(m, ROOT, va).Some?
    ensures var t := Walk(m, ROOT, va).value;
      && t.User()
      && (t.Readable() <==> s.flags % 2 == 1)
      && (t.Writable() <==> s.flags / 2 % 2 == 1)
      && (t.Executable() <==> s.IsExecutable())
  {
    assert s.Acceptable(imageSize);
    FinalTranslation(m, layout, pool, imageSize, va);
    HoldsTouches(s, va);
    PageBounds(va);
    assert Touched(segs, PageOf(va));
    var k := IndexOf(pool, PageOf(va));
    assert k >= 0 && pool[k].flags == PteFlags(s.flags);
    StackPageApart(va);
    PteFlagsMeaning(s.flags, layout.PageAddress(k));
  }

  /** Whatever user mode can fetch it can read, for no segment is executable only and the stack is not executable. */
  lemma ExecutableIsReadable(segs: seq<Segment>, m: Mem, layout: Layout, pool: seq<Slot>, imageSize: u32, va: u32)
    requires FinalTables(m, layout, pool, imageSize) && PoolFor(pool, segs, imageSize)
    requires UserReaches(m, va) && Walk(m, ROOT, va).value.Executable()
    ensures Walk(m, ROOT, va).value.Readable()
    ensures exists s :: s in segs && s.IsExecutable() && s.Touches(PageOf(va))
  {
    FinalTranslation(m, layout, pool, imageSize, va);
    UserReachesExactly(m, layout, pool, imageSize, va);
    UserFrame(layout, pool, va);
    PageBounds(va);
    var k := IndexOf(pool, PageOf(va));
    assert k >= 0 && PageOf(va) != USER_STACK_BOTTOM;
    assert Touched(segs, PageOf(va));
    var s :| s in segs && s.Touches(PageOf(va));
    assert s.Acceptable(imageSize) && pool[k].flags == PteFlags(s.flags);
    PteFlagsMeaning(s.flags, layout.PageAddress(k));
  }

  /** The entry instruction can be fetched and read in user mode. */
  lemma EntryIsFetchable(segs: seq<Segment>, m: Mem, layout: Layout, pool: seq<Slot>, imageSize: u32,
                         entry: u32, i: int)
    requires FinalTables(m, layout, pool, imageSize) && PoolFor(pool, segs, imageSize)
    requires Accepts(segs, imageSize, entry) && 0 <= i < 4
    ensures entry + i < 0x1_0000_0000 && Walk(m, ROOT, entry + i).Some?
    ensures var t := Walk(m, ROOT, entry + i).value; t.User() && t.Readable() && t.Executable()
  {
    var s :| s in segs && s.Enters(entry);
    assert s.Acceptable(imageSize);
    SegmentPermissions(segs, m, layout, pool, imageSize, s, entry + i);
  }

  /** A byte read through the tables is the one at its place in the frame. */
  lemma ReadThrough(m: Mem, va: u32, t: Translation)
    requires Walk(m, ROOT, va) == Some(t) && 0 <= t.frame <= PHYS_TOP - 0x1000
    ensures 0 <= t.frame + va % 0x1000 < PHYS_TOP && ReadVirtual(m, va) == Some(m[t.frame + va % 0x1000])
  {
  }
}
