/**
 * The live page tables: what every walk gives once the tables are in use.  The hardware records
 * the use of a page in its entry, so the state kept here is the directory, word for word, and
 * the outcome of each walk, but not the words of the second-level tables.
 */
module LiveTables {
  import opened Bits
  import opened Memory
  import opened Mmu
  import opened PageUse
  import opened Bootstrap
  import opened UserSpace
  import opened UserPool
  import opened UserTables
  import opened UserModule
  import opened SystemRom

  /** What has been mapped besides the bootstrap map: an image (size 0 before), and a user module's pool. */
  datatype Mapping = Mapping(imageSize: u32, pool: Option<seq<Slot>>) {
    ghost predicate Valid() {
      imageSize <= SYSTEM_ROM_SIZE && (pool.Some? ==> PoolOk(pool.value) && FlagsOk(pool.value))
    }

    function Tables(): int { RomTableCount(imageSize) }
  }

  function DirectoryEntry(layout: Layout, mapping: Mapping, k: int): int {
    if k == 1 && mapping.pool.Some? then layout.userTable + PDE_VALID
    else if ROM_SLOT <= k < ROM_SLOT + mapping.Tables() then layout.romTables + 0x1000 * (k - ROM_SLOT) + PDE_VALID
    else BootstrapDirectoryEntry(k)
  }

  /** Every translation, in terms of addresses and the pool. */
  function View(layout: Layout, mapping: Mapping, va: u32): Option<Translation> {
    if mapping.pool.Some? && USER_IMAGE_BASE <= va < USER_STACK_TOP then UserView(layout, mapping.pool.value, PageOf(va))
    else if SYSTEM_ROM_BASE <= va < SYSTEM_ROM_BASE + PAGE_SIZE * RomPages(mapping.imageSize) then
      Some(Page(PageOf(va), ROM_FLAGS))
    else BootstrapView(va)
  }

  ghost predicate Directory(m: Mem, layout: Layout, mapping: Mapping) {
    forall k {:trigger Entry(m, ROOT, k)} :: 0 <= k < 1024 ==> Entry(m, ROOT, k) == DirectoryEntry(layout, mapping, k)
  }

  ghost predicate Live(m: Mem, layout: Layout, mapping: Mapping) {
    && mapping.Valid()
    && Directory(m, layout, mapping)
    && forall k, e {:trigger WalkAt(m, ROOT, k, e)} :: 0 <= k < 1024 && 0 <= e < 1024 ==>
         WalkAt(m, ROOT, k, e) == View(layout, mapping, PageAt(k, e))
  }

  lemma RomBounds(imageSize: u32)
    requires imageSize <= SYSTEM_ROM_SIZE
    ensures 0 <= RomTableCount(imageSize) <= ROM_TABLES
    ensures RomPages(imageSize) <= 1024 * RomTableCount(imageSize)
    ensures imageSize == 0 ==> RomPages(imageSize) == 0 && RomTableCount(imageSize) == 0
  {
    if imageSize > 0 { FourTablesSuffice(imageSize); }
  }

  /** The view is the same all over a page. */
  lemma ViewOfPage(layout: Layout, mapping: Mapping, k: int, e: int, va: u32)
    requires 0 <= k < 1024 && 0 <= e < 1024 && PageAt(k, e) == PageOf(va) <= va < PageAt(k, e) + PAGE_SIZE
    ensures 0 <= PageAt(k, e) < 0x1_0000_0000 && View(layout, mapping, PageAt(k, e)) == View(layout, mapping, va)
  {
    PageAtAligned(k, e);
    PageIsUnique(PageAt(k, e), PageAt(k, e));
    ViewByPage(k, e, va);
  }

  lemma LiveWalk(m: Mem, layout: Layout, mapping: Mapping, va: u32)
    requires Live(m, layout, mapping)
    ensures Walk(m, ROOT, va) == View(layout, mapping, va)
  {
    AddressParts(va);
    ViewOfPage(layout, mapping, va / 0x40_0000, va / PAGE_SIZE % 1024, va);
  }

  /** The tables bootstrap has built are live. */
  lemma BootstrapLive(m: Mem, layout: Layout)
    requires BootstrapTables(m)
    ensures Live(m, layout, Mapping(0, None))
  {
    RomBounds(0);
    forall k, e | 0 <= k < 1024 && 0 <= e < 1024 ensures WalkAt(m, ROOT, k, e) == View(layout, Mapping(0, None), PageAt(k, e)) {
      BootstrapWalkAt(m, k, e);
    }
  }

  lemma BootstrapWalkAt(m: Mem, k: int, e: int)
    requires BootstrapTables(m) && 0 <= k < 1024 && 0 <= e < 1024
    ensures PageAt(k, e) < 0x1_0000_0000 && WalkAt(m, ROOT, k, e) == BootstrapView(PageAt(k, e))
  {
    assert Entry(m, ROOT, k) == BootstrapDirectoryEntry(k);
    PageAtAligned(k, e);
    PageIsUnique(PageAt(k, e), PageAt(k, e));
    ViewByPage(k, e, PageAt(k, e));
    if BootstrapDirectoryEntry(k) != 0 {
      KernelEntries(m, k, e);
    } else {
      EmptySlot(m, k, e);
    }
  }

  /** Bytes of the second-level tables. */
  predicate TableByte(layout: Layout, i: int) {
    || IDENTITY_TABLE <= i < TABLES_END
    || layout.romTables <= i < layout.romTables + 0x4000
    || layout.userTable <= i < layout.userTable + 0x1000
  }

  predicate IsLiveTable(layout: Layout, t: int) {
    IsTableAddress(t) && TableByte(layout, t)
  }

  /** The directory is untouched and every entry decodes as before. */
  ghost predicate TablesKept(layout: Layout, m: Mem, m': Mem) {
    && SameOn(m, m', ROOT, ROOT + PAGE_SIZE)
    && forall t, e {:trigger Entry(m', t, e)} :: IsLiveTable(layout, t) && 0 <= e < 1024 ==>
         Decode(Entry(m', t, e)) == Decode(Entry(m, t, e))
  }

  lemma KeptLive(m: Mem, m': Mem, layout: Layout, mapping: Mapping)
    requires Live(m, layout, mapping) && TablesKept(layout, m, m')
    ensures Live(m', layout, mapping)
  {
    TableKept(m, m', ROOT, 1024);
    forall k, e | 0 <= k < 1024 && 0 <= e < 1024 ensures WalkAt(m', ROOT, k, e) == WalkAt(m, ROOT, k, e) {
      assert Entry(m', ROOT, k) == Entry(m, ROOT, k) == DirectoryEntry(layout, mapping, k);
      if DirectoryEntry(layout, mapping, k) != 0 {
        LiveTable(layout, mapping, k);
      }
    }
  }

  /** A directory entry in use addresses one of the tables. */
  lemma LiveTable(layout: Layout, mapping: Mapping, k: int)
    requires mapping.Valid() && 0 <= k < 1024 && DirectoryEntry(layout, mapping, k) != 0
    ensures 0 <= DirectoryEntry(layout, mapping, k) < 0x1_0000_0000
    ensures IsLiveTable(layout, And(DirectoryEntry(layout, mapping, k), PAGE_MASK))
    ensures DirectoryEntry(layout, mapping, k) == And(DirectoryEntry(layout, mapping, k), PAGE_MASK) + PDE_VALID
  {
    RomBounds(mapping.imageSize);
    var table := DirectoryEntry(layout, mapping, k) - PDE_VALID;
    if ROM_SLOT <= k < ROM_SLOT + mapping.Tables() {
      TableAligned(layout, k - ROM_SLOT);
    } else if 0x300 <= k < 0x310 {
      AlignedPlusPages(DIRECT_TABLES, k - 0x300);
    }
    SplitPage(table, PDE_VALID);
  }

  /** Recording the use of a page changes one entry of a live table, and not what it means. */
  lemma MarkKeepsTables(m: Mem, layout: Layout, mapping: Mapping, va: u32, write: bool)
    requires Live(m, layout, mapping)
    ensures var m' := MarkWalk(m, ROOT, va, write); TablesKept(layout, m, m') && OnlyBackground(layout, m, m')
  {
    if Walk(m, ROOT, va).Some? {
      var k := va / 0x40_0000;
      AddressParts(va);
      assert Entry(m, ROOT, k) == DirectoryEntry(layout, mapping, k);
      LiveTable(layout, mapping, k);
      var table := And(Entry(m, ROOT, k), PAGE_MASK);
      MarkKeepsDecodes(m, table, va / PAGE_SIZE % 1024, write);
      TableInTables(layout, table);
    }
  }

  lemma TableInTables(layout: Layout, t: int)
    requires IsLiveTable(layout, t)
    ensures forall i {:trigger TableByte(layout, i)} :: t <= i < t + PAGE_SIZE ==> TableByte(layout, i)
  {
  }

  /** Bytes that change behind the program's back: entries of tables in use, and the kernel's stacks and bookkeeping. */
  predicate BackgroundByte(layout: Layout, i: int) {
    TableByte(layout, i) || i in layout.scratch
  }

  ghost predicate OnlyBackground(layout: Layout, m: Mem, m': Mem) {
    forall i {:trigger m'[i]} :: 0 <= i < PHYS_TOP && !BackgroundByte(layout, i) ==> m'[i] == m[i]
  }

  /** The table that directory slot k addresses is untouched. */
  ghost predicate TableOfSlotKept(m: Mem, m': Mem, layout: Layout, mapping: Mapping, k: int) {
    var entry := DirectoryEntry(layout, mapping, k);
    entry != 0 ==> SameOn(m, m', entry - PDE_VALID, entry - PDE_VALID + PAGE_SIZE)
  }

  /** A walk whose directory entry and table did not change gives what it gave. */
  lemma WalkKept(m: Mem, m': Mem, layout: Layout, mapping: Mapping, k: int, e: int)
    requires Live(m, layout, mapping) && 0 <= k < 1024 && 0 <= e < 1024
    requires Entry(m', ROOT, k) == Entry(m, ROOT, k)
    requires TableOfSlotKept(m, m', layout, mapping, k)
    ensures WalkAt(m', ROOT, k, e) == WalkAt(m, ROOT, k, e)
  {
    assert Entry(m, ROOT, k) == DirectoryEntry(layout, mapping, k);
    if DirectoryEntry(layout, mapping, k) != 0 {
      LiveTable(layout, mapping, k);
      var table := And(DirectoryEntry(layout, mapping, k), PAGE_MASK);
      WordKept(m, m', table + 4 * e);
    }
  }

  /** Mapping the ROM adds its translations to the live tables and keeps the others. */
  lemma RomLive(m: Mem, m': Mem, layout: Layout, imageSize: u32)
    requires Live(m, layout, Mapping(0, None)) && RomMapped(m', layout, imageSize)
    requires RomFrame(layout, RomTableCount(imageSize), m, m')
    ensures Live(m', layout, Mapping(imageSize, None))
  {
    var before, after := Mapping(0, None), Mapping(imageSize, None);
    RomBounds(imageSize);
    RomBounds(0);
    forall k | 0 <= k < 1024 ensures Entry(m', ROOT, k) == DirectoryEntry(layout, after, k) {
      RomDirectory(m, m', layout, imageSize, k);
    }
    forall k, e | 0 <= k < 1024 && 0 <= e < 1024 ensures WalkAt(m', ROOT, k, e) == View(layout, after, PageAt(k, e)) {
      PageAtAligned(k, e);
      PageIsUnique(PageAt(k, e), PageAt(k, e));
      if ROM_SLOT <= k < ROM_SLOT + RomTableCount(imageSize) {
        RomTranslation(m', layout, imageSize, k, e);
        ViewByPage(k, e, PageAt(k, e));
      } else {
        RomDirectory(m, m', layout, imageSize, k);
        RomLeavesTables(m, m', layout, imageSize, k);
        WalkKept(m, m', layout, before, k, e);
      }
    }
  }

  lemma RomDirectory(m: Mem, m': Mem, layout: Layout, imageSize: u32, k: int)
    requires Live(m, layout, Mapping(0, None)) && RomMapped(m', layout, imageSize)
    requires RomFrame(layout, RomTableCount(imageSize), m, m') && 0 <= k < 1024
    ensures Entry(m', ROOT, k) == DirectoryEntry(layout, Mapping(imageSize, None), k)
    ensures !(ROM_SLOT <= k < ROM_SLOT + RomTableCount(imageSize)) ==> Entry(m', ROOT, k) == Entry(m, ROOT, k)
  {
    RomBounds(0);
    assert Entry(m, ROOT, k) == DirectoryEntry(layout, Mapping(0, None), k);
    if !(ROM_SLOT <= k < ROM_SLOT + RomTableCount(imageSize)) {
      WordKept(m, m', ROOT + 4 * k);
    }
  }

  lemma RomLeavesTables(m: Mem, m': Mem, layout: Layout, imageSize: u32, k: int)
    requires imageSize <= SYSTEM_ROM_SIZE && RomFrame(layout, RomTableCount(imageSize), m, m') && 0 <= k < 1024
    requires !(ROM_SLOT <= k < ROM_SLOT + RomTableCount(imageSize))
    ensures TableOfSlotKept(m, m', layout, Mapping(0, None), k)
  {
    RomBounds(imageSize);
    RomBounds(0);
  }

  /** Loading a module adds its pages to the live tables and keeps the other translations. */
  lemma UserLive(m: Mem, m': Mem, layout: Layout, imageSize: u32, pool: seq<Slot>)
    requires Live(m, layout, Mapping(imageSize, None)) && LoaderFrame(layout, m, m') && PoolOk(pool) && FlagsOk(pool)
    requires UserTable(m', layout, pool) && Entry(m', ROOT, 1) == layout.userTable + PDE_VALID
    ensures Live(m', layout, Mapping(imageSize, Some(pool)))
  {
    var before, after := Mapping(imageSize, None), Mapping(imageSize, Some(pool));
    forall k | 0 <= k < 1024 ensures Entry(m', ROOT, k) == DirectoryEntry(layout, after, k) {
      UserDirectory(m, m', layout, imageSize, pool, k);
    }
    forall k, e | 0 <= k < 1024 && 0 <= e < 1024 ensures WalkAt(m', ROOT, k, e) == View(layout, after, PageAt(k, e)) {
      PageAtAligned(k, e);
      PageIsUnique(PageAt(k, e), PageAt(k, e));
      if k == 1 {
        UserTranslation(m', layout, pool, e);
      } else {
        UserDirectory(m, m', layout, imageSize, pool, k);
        LoaderLeavesTables(m, m', layout, imageSize, k);
        WalkKept(m, m', layout, before, k, e);
      }
    }
  }

  lemma UserDirectory(m: Mem, m': Mem, layout: Layout, imageSize: u32, pool: seq<Slot>, k: int)
    requires Live(m, layout, Mapping(imageSize, None)) && LoaderFrame(layout, m, m')
    requires Entry(m', ROOT, 1) == layout.userTable + PDE_VALID && 0 <= k < 1024
    ensures Entry(m', ROOT, k) == DirectoryEntry(layout, Mapping(imageSize, Some(pool)), k)
    ensures k != 1 ==> Entry(m', ROOT, k) == Entry(m, ROOT, k)
  {
    assert Entry(m, ROOT, k) == DirectoryEntry(layout, Mapping(imageSize, None), k);
    if k != 1 {
      WordKept(m, m', ROOT + 4 * k);
    }
  }

  lemma LoaderLeavesTables(m: Mem, m': Mem, layout: Layout, imageSize: u32, k: int)
    requires imageSize <= SYSTEM_ROM_SIZE && LoaderFrame(layout, m, m') && 0 <= k < 1024 && k != 1
    ensures TableOfSlotKept(m, m', layout, Mapping(imageSize, None), k)
  {
    RomBounds(imageSize);
  }

  /**
   * What goes on around the kernel's own stores: the hardware records the use of pages, and the
   * compiled code uses its stack.  Nobody decides which pages and which bytes, or when.
   */
  method Background(mem: array<byte>, layout: Layout, ghost mapping: Mapping)
    requires mem.Length == PHYS_TOP && Live(mem[..], layout, mapping)
    modifies mem
    ensures Live(mem[..], layout, mapping) && OnlyBackground(layout, old(mem[..]), mem[..])
  {
    var steps: int := *;
    while steps > 0
      invariant Live(mem[..], layout, mapping) && OnlyBackground(layout, old(mem[..]), mem[..])
    {
      ghost var m1: Mem := mem[..];
      if * {
        var va: u32 :| true;
        var write: bool := *;
        MarkKeepsTables(m1, layout, mapping, va, write);
        RecordUse(mem, ROOT, va, write);
      } else {
        Scribble(mem, layout.scratch);
        ScratchKeepsTables(m1, mem[..], layout);
      }
      KeptLive(m1, mem[..], layout, mapping);
      steps := steps - 1;
    }
  }

  /** No table has a byte in the scratch areas. */
  lemma ScratchKeepsTables(m: Mem, m': Mem, layout: Layout)
    requires SameOutside(m, m', layout.scratch)
    ensures TablesKept(layout, m, m') && OnlyBackground(layout, m, m')
  {
    forall t, e | IsLiveTable(layout, t) && 0 <= e < 1024 ensures Decode(Entry(m', t, e)) == Decode(Entry(m, t, e)) {
      TableInTables(layout, t);
      WordKept(m, m', t + 4 * e);
    }
  }
}
