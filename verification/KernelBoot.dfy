/** From reset to user mode: boot ROM, bootstrap tables and kernel main, one after another. */
module KernelBoot {
  import opened Memory
  import opened Mmu
  import opened Bootstrap
  import opened BootRom
  import opened UserSpace
  import opened UserPool
  import opened UserLoader
  import opened UserSegments
  import opened UserTables
  import UserModule
  import opened SystemRom
  import opened LiveTables
  import opened AddressSpace

  const BAD_BOOT_INFO := 0x4845_4c01
  const NO_MODULE := 0x4845_4c02

  /** "user-hello". */
  const MODULE_NAME: seq<byte> := [0x75, 0x73, 0x65, 0x72, 0x2d, 0x68, 0x65, 0x6c, 0x6c, 0x6f]

  /** How kernel main ends: in the fail-stop loop after a trace event, or in user mode. */
  datatype Outcome = FailStop(trace: u32) | EnterUser(entry: u32, stackTop: u32)

  predicate InfoAccepted(info: BootInfo) {
    && info.magic == BOOT_INFO_MAGIC && info.version == ABI_VERSION && info.size == BOOT_INFO_SIZE
    && info.directMapVaddr == KERNEL_DIRECT_BASE && info.directMapPaddr == RAM_BASE
    && info.directMapSize == KERNEL_DIRECT_SIZE
    && info.systemRomBase == SYSTEM_ROM_BASE && 0 < info.imageSize <= SYSTEM_ROM_SIZE
  }

  /** The module record the kernel will load, or -1. */
  function ModuleRecord(m: Mem, info: BootInfo): (r: int)
    requires info.imageSize <= SYSTEM_ROM_SIZE
  {
    FirstMatch(m, info.moduleTableOffset, info.moduleCount, info.imageSize, MODULE_NAME)
  }

  /** The image carries a module that the kernel loads. */
  ghost predicate ImageRuns(m: Mem, info: BootInfo) {
    && InfoAccepted(info)
    && var r := ModuleRecord(m, info);
       UserModule.RecordInImage(r, info.imageSize) && UserModule.Loadable(m, r, info.imageSize)
  }

  /** What holds when the kernel enters user mode with the module of m0. */
  ghost predicate ReadyForUser(m0: Mem, info: BootInfo, m: Mem, layout: Layout, pool: seq<Slot>, entry: u32)
    requires ImageRuns(m0, info)
  {
    var r := ModuleRecord(m0, info);
    && entry == UserModule.EntryVaddr(m0, r)
    && FinalTables(m, layout, pool, info.imageSize)
    && Holding(m0, UserModule.ModuleSegments(m0, r, info.imageSize), info.imageSize, m, layout, pool)
    && StackClear(m, layout)
  }

  ghost predicate StackClear(m: Mem, layout: Layout) {
    forall i {:trigger m[i]} :: layout.userStack <= i < layout.userStack + 0x1000 ==> m[i] == 0
  }

  /** What the kernel may change: its tables, its page pool, its directory entries, its stacks and bookkeeping. */
  predicate KernelOwned(layout: Layout, i: int) {
    UserModule.Owned(layout, i) || RomOwned(layout, ROM_TABLES, i) || BackgroundByte(layout, i)
  }

  ghost predicate KernelFrame(layout: Layout, m: Mem, m': Mem) {
    forall i {:trigger m'[i]} :: 0 <= i < PHYS_TOP && !KernelOwned(layout, i) ==> m'[i] == m[i]
  }

  lemma RomFrameKernel(layout: Layout, imageSize: u32, m: Mem, m1: Mem, m2: Mem)
    requires imageSize <= SYSTEM_ROM_SIZE && RomFrame(layout, RomTableCount(imageSize), m, m1) && OnlyBackground(layout, m1, m2)
    ensures KernelFrame(layout, m, m2) && SameOn(m, m2, 0, RAM_BASE)
  {
    RomBounds(imageSize);
  }

  lemma LoaderFrameKernel(layout: Layout, m0: Mem, m: Mem, m1: Mem, m2: Mem)
    requires KernelFrame(layout, m0, m) && UserModule.LoaderFrame(layout, m, m1) && OnlyBackground(layout, m1, m2)
    ensures KernelFrame(layout, m0, m2)
  {
  }

  /**
   * Memory after boot: outside what boot ROM, bootstrap and kernel own, just the kernel's segments
   * laid over RAM at reset.
   */
  ghost predicate BootFrame(layout: Layout, m: Mem, m': Mem)
    requires PackedKernel(m)
  {
    forall i {:trigger m'[i]} ::
      && 0 <= i < PHYS_TOP && !KernelOwned(layout, i) && !InLoaderStack(i)
      && !(BOOT_INFO_PADDR <= i < BOOT_INFO_PADDR + BOOT_INFO_SIZE) && !(ROOT <= i < TABLES_END) ==>
      m'[i] == LoadedByte(m, KernelCount(m), i)
  }

  lemma BootFramesJoin(layout: Layout, m: Mem, m1: Mem, m2: Mem, m3: Mem, m4: Mem)
    requires PackedKernel(m) && Booted(m, m1) && SameBut(m1, m2, ROOT, TABLES_END)
    requires OnlyBackground(layout, m2, m3) && KernelFrame(layout, m3, m4)
    ensures BootFrame(layout, m, m4)
  {
  }

  method ReadInfo(mem: array<byte>, p: int) returns (info: BootInfo)
    requires mem.Length == PHYS_TOP && 0 <= p <= PHYS_TOP - BOOT_INFO_SIZE
    ensures info == ReadBootInfo(mem[..], p)
  {
    info := ReadBootInfo(mem[..], p);
  }

  /** A record found in the image fits in it. */
  lemma {:induction false} MatchInImage(m: Mem, tableOffset: u32, index: nat, count: nat, imageSize: u32, name: seq<byte>)
    requires index <= count && tableOffset + 32 * count <= imageSize <= SYSTEM_ROM_SIZE
    ensures var r := MatchFrom(m, tableOffset, index, count, imageSize, name);
      r == -1 || UserModule.RecordInImage(r, imageSize)
    decreases count - index
  {
    if index < count { MatchInImage(m, tableOffset, index + 1, count, imageSize, name); }
  }

  lemma ModuleRecordInImage(m: Mem, info: BootInfo)
    requires info.imageSize <= SYSTEM_ROM_SIZE
    ensures ModuleRecord(m, info) == -1 || UserModule.RecordInImage(ModuleRecord(m, info), info.imageSize)
  {
    if info.moduleTableOffset + 32 * info.moduleCount <= info.imageSize {
      MatchInImage(m, info.moduleTableOffset, 0, info.moduleCount, info.imageSize, MODULE_NAME);
    }
  }

  /** ROM contents decide everything the kernel reads from the image. */
  lemma {:induction false} MatchKept(m: Mem, m': Mem, tableOffset: u32, index: nat, count: nat, imageSize: u32, name: seq<byte>)
    requires SameOn(m, m', 0, RAM_BASE)
    requires index <= count && tableOffset + 32 * count <= imageSize <= SYSTEM_ROM_SIZE
    ensures MatchFrom(m', tableOffset, index, count, imageSize, name) == MatchFrom(m, tableOffset, index, count, imageSize, name)
    decreases count - index
  {
    if index < count {
      var r := SYSTEM_ROM_BASE + tableOffset + 32 * index;
      MatchesKept(m, m', r, name, imageSize);
      MatchKept(m, m', tableOffset, index + 1, count, imageSize, name);
    }
  }

  lemma MatchesKept(m: Mem, m': Mem, r: int, name: seq<byte>, imageSize: u32)
    requires SameOn(m, m', 0, RAM_BASE) && 0 <= r <= RAM_BASE - 32 && imageSize <= SYSTEM_ROM_SIZE
    ensures Matches(m', r, name, imageSize) == Matches(m, r, name, imageSize)
  {
    WordKept(m, m', r);
    WordKept(m, m', r + 4);
  }

  lemma RecordKept(m: Mem, m': Mem, info: BootInfo)
    requires SameOn(m, m', 0, RAM_BASE) && info.imageSize <= SYSTEM_ROM_SIZE
    ensures ModuleRecord(m', info) == ModuleRecord(m, info)
  {
    if info.moduleTableOffset + 32 * info.moduleCount <= info.imageSize {
      MatchKept(m, m', info.moduleTableOffset, 0, info.moduleCount, info.imageSize, MODULE_NAME);
    }
  }

  lemma ModuleKept(m: Mem, m': Mem, record: int, imageSize: u32)
    requires SameOn(m, m', 0, RAM_BASE) && UserModule.RecordInImage(record, imageSize)
    ensures UserModule.EntryVaddr(m', record) == UserModule.EntryVaddr(m, record)
    ensures UserModule.TableInImage(m', record, imageSize) == UserModule.TableInImage(m, record, imageSize)
    ensures UserModule.TableInImage(m, record, imageSize) ==>
      UserModule.ModuleSegments(m', record, imageSize) == UserModule.ModuleSegments(m, record, imageSize)
    ensures UserModule.Loadable(m', record, imageSize) == UserModule.Loadable(m, record, imageSize)
  {
    WordKept(m, m', record + 8);
    WordKept(m, m', record + 12);
    WordKept(m, m', record + 16);
    if UserModule.TableInImage(m, record, imageSize) {
      var a, n := SYSTEM_ROM_BASE + UserModule.SegmentTableOffset(m, record), UserModule.SegmentCount(m, record);
      SegmentTableKept(m, m', a, n);
    }
  }

  lemma SegmentTableKept(m: Mem, m': Mem, a: int, n: nat)
    requires SameOn(m, m', 0, RAM_BASE) && 0 <= a && a + 32 * n <= RAM_BASE
    ensures SegmentTable(m', a, n) == SegmentTable(m, a, n)
  {
    var segs, segs' := SegmentTable(m, a, n), SegmentTable(m', a, n);
    forall i | 0 <= i < n ensures segs'[i] == segs[i] {
      UserModule.RecordKept(m, m', segs, a, n, i);
    }
  }

  /** The overlay reads ROM only, and recording the use of pages does not reach the page pool. */
  lemma LoadedKept(m0: Mem, m1: Mem, segs: seq<Segment>, imageSize: u32, m: Mem, m': Mem, layout: Layout, pool: seq<Slot>)
    requires SameOn(m0, m1, 0, RAM_BASE) && Holding(m1, segs, imageSize, m, layout, pool) && OnlyBackground(layout, m, m')
    ensures Holding(m0, segs, imageSize, m', layout, pool)
  {
    forall va ensures UserByte(m', layout, pool, va) == Overlay(m0, segs, va) {
      assert UserByte(m, layout, pool, va) == Overlay(m1, segs, va);
      PageBounds(va);
      var h := LastHolder(segs, va);
      if h >= 0 { assert segs[h] in segs; }
    }
  }

  /** The module found and judged in m1 is the one of m0, for both have the same ROM. */
  lemma ImageRunsHere(m0: Mem, m1: Mem, info: BootInfo)
    requires SameOn(m0, m1, 0, RAM_BASE) && InfoAccepted(info)
    ensures ModuleRecord(m1, info) == ModuleRecord(m0, info)
    ensures ModuleRecord(m1, info) == -1 || UserModule.RecordInImage(ModuleRecord(m1, info), info.imageSize)
    ensures ImageRuns(m0, info) <==>
      ModuleRecord(m1, info) != -1 && UserModule.Loadable(m1, ModuleRecord(m1, info), info.imageSize)
  {
    RecordKept(m0, m1, info);
    ModuleRecordInImage(m1, info);
    var r := ModuleRecord(m1, info);
    if r != -1 { ModuleKept(m0, m1, r, info.imageSize); }
  }

  method KernelMain(loader: Loader, bootInfo: u32) returns (outcome: Outcome)
    requires loader.Valid() && Live(loader.mem[..], loader.layout, Mapping(0, None))
    modifies loader.mem, loader.vaddrs, loader.flags, loader`count, loader`pool
    ensures loader.Valid()
    ensures var m0, info := old(loader.mem[..]), ReadBootInfo(old(loader.mem[..]), BOOT_INFO_PADDR);
      if bootInfo == BOOT_INFO_VADDR && ImageRuns(m0, info) then
        outcome.EnterUser? && outcome.stackTop == USER_STACK_TOP &&
        ReadyForUser(m0, info, loader.mem[..], loader.layout, loader.pool, outcome.entry)
      else
        outcome == FailStop(if bootInfo == BOOT_INFO_VADDR && InfoAccepted(info) then NO_MODULE else BAD_BOOT_INFO)
    ensures KernelFrame(loader.layout, old(loader.mem[..]), loader.mem[..])
    ensures var m0, info := old(loader.mem[..]), ReadBootInfo(old(loader.mem[..]), 0x4000_7000);
      && (outcome.EnterUser? ==> outcome.stackTop == 0x0080_0000)
      && (bootInfo != 0xc000_7000 || !InfoAccepted(info) ==> outcome == FailStop(0x4845_4c01))
      && (bootInfo == 0xc000_7000 && InfoAccepted(info) && !ImageRuns(m0, info) ==> outcome == FailStop(0x4845_4c02))
  {
    if bootInfo != BOOT_INFO_VADDR {
      return FailStop(BAD_BOOT_INFO);
    }
    ghost var m0: Mem := loader.mem[..];
    var info := ReadInfo(loader.mem, KernelPhysical(bootInfo));
    if info.magic != BOOT_INFO_MAGIC || info.version != ABI_VERSION || info.size != BOOT_INFO_SIZE
       || info.directMapVaddr != KERNEL_DIRECT_BASE || info.directMapPaddr != RAM_BASE
       || info.directMapSize != KERNEL_DIRECT_SIZE
    {
      return FailStop(BAD_BOOT_INFO);
    }
    var mapped := MapSystemRom(loader.mem, loader.layout, info.systemRomBase, info.imageSize);
    if !mapped {
      return FailStop(BAD_BOOT_INFO);
    }
    ghost var m1: Mem := loader.mem[..];
    RomLive(m0, m1, loader.layout, info.imageSize);
    Background(loader.mem, loader.layout, Mapping(info.imageSize, None));
    RomFrameKernel(loader.layout, info.imageSize, m0, m1, loader.mem[..]);
    outcome := RunModule(loader, m0, info);
  }

  /** kernel main from find_module on. */
  method RunModule(loader: Loader, ghost m0: Mem, info: BootInfo) returns (outcome: Outcome)
    requires loader.Valid() && InfoAccepted(info) && Live(loader.mem[..], loader.layout, Mapping(info.imageSize, None))
    requires KernelFrame(loader.layout, m0, loader.mem[..]) && SameOn(m0, loader.mem[..], 0, RAM_BASE)
    modifies loader.mem, loader.vaddrs, loader.flags, loader`count, loader`pool
    ensures loader.Valid()
    ensures if ImageRuns(m0, info) then
        outcome.EnterUser? && outcome.stackTop == USER_STACK_TOP &&
        ReadyForUser(m0, info, loader.mem[..], loader.layout, loader.pool, outcome.entry)
      else outcome == FailStop(NO_MODULE)
    ensures KernelFrame(loader.layout, m0, loader.mem[..])
  {
    ghost var m1: Mem := loader.mem[..];
    ImageRunsHere(m0, m1, info);
    var record := FindModule(loader.mem, info.moduleTableOffset, info.moduleCount, info.imageSize, MODULE_NAME);
    if record == -1 {
      return FailStop(NO_MODULE);
    }
    var loaded := UserModule.LoadUserModule(loader, record, info.imageSize);
    ghost var m2: Mem := loader.mem[..];
    LoaderFrameKernel(loader.layout, m0, m1, m2, m2);
    if !loaded {
      return FailStop(NO_MODULE);
    }
    LoadedLive(m1, m2, loader.layout, loader.pool, info.imageSize, record);
    Background(loader.mem, loader.layout, Mapping(info.imageSize, Some(loader.pool)));
    LoaderFrameKernel(loader.layout, m0, m1, m2, loader.mem[..]);
    var entry := ReadWord(loader.mem, record + 16);
    WordKept(m1, loader.mem[..], record + 16);
    LoadedReady(m0, info, m1, m2, loader.mem[..], loader.layout, loader.pool, record);
    return EnterUser(entry, USER_STACK_TOP);
  }

  lemma LoadedLive(m1: Mem, m2: Mem, layout: Layout, pool: seq<Slot>, imageSize: u32, record: int)
    requires UserModule.RecordInImage(record, imageSize) && UserModule.TableInImage(m1, record, imageSize)
    requires Live(m1, layout, Mapping(imageSize, None)) && UserModule.LoaderFrame(layout, m1, m2)
    requires UserModule.ModuleLoaded(m1, UserModule.ModuleSegments(m1, record, imageSize), imageSize, m2, layout, pool)
    ensures Live(m2, layout, Mapping(imageSize, Some(pool)))
  {
    PoolFlags(pool, UserModule.ModuleSegments(m1, record, imageSize), imageSize);
    UserLive(m1, m2, layout, imageSize, pool);
  }

  lemma LoadedReady(m0: Mem, info: BootInfo, m1: Mem, m2: Mem, m3: Mem, layout: Layout, pool: seq<Slot>, record: int)
    requires SameOn(m0, m1, 0, RAM_BASE) && InfoAccepted(info) && record == ModuleRecord(m0, info)
    requires UserModule.RecordInImage(record, info.imageSize) && UserModule.Loadable(m0, record, info.imageSize)
    requires UserModule.Loadable(m1, record, info.imageSize)
    requires UserModule.ModuleLoaded(m1, UserModule.ModuleSegments(m1, record, info.imageSize), info.imageSize, m2, layout, pool)
    requires Live(m3, layout, Mapping(info.imageSize, Some(pool))) && OnlyBackground(layout, m2, m3)
    ensures ReadyForUser(m0, info, m3, layout, pool, UserModule.EntryVaddr(m0, record))
  {
    var segs := UserModule.ModuleSegments(m0, record, info.imageSize);
    ModuleKept(m0, m1, record, info.imageSize);
    LoadedKept(m0, m1, segs, info.imageSize, m2, m3, layout, pool);
  }

  /** Boot ROM, bootstrap and kernel main in sequence, from the state at reset. */
  method BootToUser(loader: Loader) returns (bootstrapEntry: u32, outcome: Outcome)
    requires loader.Valid() && PackedKernel(loader.mem[..])
    modifies loader.mem, loader.vaddrs, loader.flags, loader`count, loader`pool
    ensures loader.Valid() && bootstrapEntry == HeaderWord(old(loader.mem[..]), BOOTSTRAP_ENTRY_OFFSET)
    ensures var m, info := old(loader.mem[..]), PublishedInfoOf(old(loader.mem[..]));
      if ImageRuns(m, info) then
        outcome.EnterUser? && outcome.stackTop == USER_STACK_TOP &&
        ReadyForUser(m, info, loader.mem[..], loader.layout, loader.pool, outcome.entry)
      else
        outcome == FailStop(if info.imageSize > 0 then NO_MODULE else BAD_BOOT_INFO)
    ensures BootFrame(loader.layout, old(loader.mem[..]), loader.mem[..])
    ensures var m, info := old(loader.mem[..]), PublishedInfoOf(old(loader.mem[..]));
      && info.imageSize == Word(m, 0x0800_0008) && info.moduleTableOffset == Word(m, 0x0800_0014)
      && info.moduleCount == Word(m, 0x0800_0018)
      && (outcome.EnterUser? ==> outcome.stackTop == 0x0080_0000)
      && (outcome.FailStop? ==> outcome.trace == if info.imageSize > 0 then 0x4845_4c02 else 0x4845_4c01)
  {
    ghost var m: Mem := loader.mem[..];
    var bootInfo;
    bootstrapEntry, bootInfo := BootMain(loader.mem);
    ghost var m1: Mem := loader.mem[..];
    LoadedRomOf(m, m1);
    BootstrapMap(loader.mem);
    ghost var m2: Mem := loader.mem[..];
    BootstrapLive(m2, loader.layout);
    Background(loader.mem, loader.layout, Mapping(0, None));
    ghost var m3: Mem := loader.mem[..];
    InfoKept(loader.layout, m1, m2, m3);
    outcome := KernelMain(loader, bootInfo);
    BootFramesJoin(loader.layout, m, m1, m2, m3, loader.mem[..]);
    PublishedWords(m);
    RunsKept(m, m3, PublishedInfoOf(m));
    if outcome.EnterUser? {
      ReadyKept(m, m3, PublishedInfoOf(m), loader.mem[..], loader.layout, loader.pool, outcome.entry);
    }
  }

  /** The boot info the boot ROM writes for the image in ROM. */
  function PublishedInfoOf(m: Mem): BootInfo {
    PublishedInfo(HeaderWord(m, IMAGE_SIZE_OFFSET), HeaderWord(m, MODULE_TABLE_OFFSET), HeaderWord(m, MODULE_COUNT_OFFSET))
  }

  lemma PublishedWords(m: Mem)
    ensures var info := PublishedInfoOf(m);
      && info.imageSize == Word(m, 0x0800_0008) && info.moduleTableOffset == Word(m, 0x0800_0014)
      && info.moduleCount == Word(m, 0x0800_0018)
  {
  }

  lemma LoadedRomOf(m: Mem, m1: Mem)
    requires PackedKernel(m) && Booted(m, m1)
    ensures SameOn(m, m1, 0, RAM_BASE)
  {
    forall a | 0 <= a < RAM_BASE ensures m1[a] == m[a] { RomKept(m, KernelCount(m), a); }
  }

  lemma InfoKept(layout: Layout, m1: Mem, m2: Mem, m3: Mem)
    requires SameBut(m1, m2, ROOT, TABLES_END) && OnlyBackground(layout, m2, m3)
    ensures ReadBootInfo(m3, BOOT_INFO_PADDR) == ReadBootInfo(m1, BOOT_INFO_PADDR) && SameOn(m1, m3, 0, RAM_BASE)
  {
    forall a | BOOT_INFO_PADDR <= a <= BOOT_INFO_PADDR + 60 ensures Word(m3, a) == Word(m1, a) { WordKept(m1, m3, a); }
  }

  lemma RunsKept(m: Mem, m': Mem, info: BootInfo)
    requires SameOn(m, m', 0, RAM_BASE)
    ensures ImageRuns(m', info) == ImageRuns(m, info)
  {
    if InfoAccepted(info) {
      RecordKept(m, m', info);
      var r := ModuleRecord(m, info);
      if UserModule.RecordInImage(r, info.imageSize) { ModuleKept(m, m', r, info.imageSize); }
    }
  }

  lemma ReadyKept(m: Mem, m1: Mem, info: BootInfo, m': Mem, layout: Layout, pool: seq<Slot>, entry: u32)
    requires SameOn(m, m1, 0, RAM_BASE) && ImageRuns(m1, info) && ImageRuns(m, info)
    requires ReadyForUser(m1, info, m', layout, pool, entry)
    ensures ReadyForUser(m, info, m', layout, pool, entry)
  {
    RecordKept(m, m1, info);
    var r := ModuleRecord(m, info);
    ModuleKept(m, m1, r, info.imageSize);
    LoadedKept(m, m1, UserModule.ModuleSegments(m, r, info.imageSize), info.imageSize, m', m', layout, pool);
  }

  /** The segments of the module being run. */
  function RunSegments(m0: Mem, info: BootInfo): seq<Segment>
    requires info.imageSize <= SYSTEM_ROM_SIZE
    requires UserModule.RecordInImage(ModuleRecord(m0, info), info.imageSize)
    requires UserModule.TableInImage(m0, ModuleRecord(m0, info), info.imageSize)
  {
    UserModule.ModuleSegments(m0, ModuleRecord(m0, info), info.imageSize)
  }

  /**
   * The world a user program starts in: it reaches exactly the pages its segments touch and one
   * cleared stack page, sees exactly the overlay of its segments, and the kernel's own view is
   * the one bootstrap built.
   */
  lemma UserWorld(m0: Mem, info: BootInfo, m: Mem, layout: Layout, pool: seq<Slot>, entry: u32, va: u32)
    requires ImageRuns(m0, info) && ReadyForUser(m0, info, m, layout, pool, entry)
    ensures UserReaches(m, va) <==> Touched(RunSegments(m0, info), PageOf(va)) || 0x007f_f000 <= va < 0x0080_0000
    ensures 0x0040_0000 <= va < 0x007f_f000 ==> ReadVirtual(m, va) == Overlay(m0, RunSegments(m0, info), va)
    ensures 0x007f_f000 <= va < 0x0080_0000 ==>
      && ReadVirtual(m, va) == Some(0) && Walk(m, ROOT, va).Some?
      && var t := Walk(m, ROOT, va).value; t.User() && t.Readable() && t.Writable() && !t.Executable()
    ensures BootstrapView(va).Some? ==>
      && Walk(m, ROOT, va) == BootstrapView(va)
      && var t := Walk(m, ROOT, va).value;
         t.Readable() && t.Writable() && !t.User() && (t.Executable() <==> !(0x1000_0000 <= va < 0x1001_0000))
  {
    FinalInNumbers(m, layout, pool, info.imageSize, va);
    StackPermissions(layout.userStack);
    var segs := RunSegments(m0, info);
    UserReachesExactly(m, layout, pool, info.imageSize, va);
    PageBounds(va);
    assert IndexOf(pool, PageOf(va)) >= 0 <==> Touched(segs, PageOf(va));
    if 0x007f_f000 <= va < 0x0080_0000 { PageIsUnique(USER_STACK_BOTTOM, va); }
    if USER_IMAGE_BASE <= va < USER_STACK_BOTTOM {
      UserImageIsOverlay(m0, segs, m, layout, pool, info.imageSize, va);
    }
    if USER_STACK_BOTTOM <= va < USER_STACK_TOP {
      StackIsClear(m, layout, pool, info.imageSize, va);
    }
    if BootstrapView(va).Some? {
      KernelViewUnchanged(m, layout, pool, info.imageSize, va);
    }
  }

  lemma StackIsClear(m: Mem, layout: Layout, pool: seq<Slot>, imageSize: u32, va: u32)
    requires FinalTables(m, layout, pool, imageSize) && StackClear(m, layout)
    requires USER_STACK_BOTTOM <= va < USER_STACK_TOP
    ensures ReadVirtual(m, va) == Some(0)
  {
    FinalTranslation(m, layout, pool, imageSize, va);
    PageIsUnique(USER_STACK_BOTTOM, va);
    assert m[layout.userStack + (va - PageOf(va))] == 0;
  }

  /** The boot info kernel main accepts, in numbers. */
  lemma InfoAcceptedMeans(info: BootInfo)
    ensures InfoAccepted(info) <==>
      && info.magic == 0x4d42_4f4f && info.version == 1 && info.size == 64
      && info.directMapVaddr == 0xc000_0000 && info.directMapPaddr == 0x4000_0000 && info.directMapSize == 0x0400_0000
      && info.systemRomBase == 0x0800_0000 && 0 < info.imageSize <= 0x0100_0000
  {
  }

  /** The module kernel main loads is the first of the image's records that is named user-hello. */
  lemma ModuleFound(m: Mem, info: BootInfo)
    requires info.imageSize <= SYSTEM_ROM_SIZE
    ensures |MODULE_NAME| == |"user-hello"| && forall k {:trigger MODULE_NAME[k]} :: 0 <= k < |MODULE_NAME| ==> MODULE_NAME[k] == "user-hello"[k] as int
    ensures info.moduleTableOffset + 32 * info.moduleCount > info.imageSize ==> ModuleRecord(m, info) == -1
    ensures info.moduleTableOffset + 32 * info.moduleCount <= info.imageSize ==>
      var r, o := ModuleRecord(m, info), info.moduleTableOffset;
      if r == -1 then
        forall i {:trigger RecordAt(o, i)} :: 0 <= i < info.moduleCount ==>
          !Matches(m, RecordAt(o, i), MODULE_NAME, info.imageSize)
      else
        exists i {:trigger RecordAt(o, i)} :: 0 <= i < info.moduleCount && r == RecordAt(o, i)
          && Matches(m, r, MODULE_NAME, info.imageSize)
          && forall j {:trigger RecordAt(o, j)} :: 0 <= j < i ==> !Matches(m, RecordAt(o, j), MODULE_NAME, info.imageSize)
  {
    if info.moduleTableOffset + 32 * info.moduleCount <= info.imageSize {
      MatchFromIsFirst(m, info.moduleTableOffset, 0, info.moduleCount, info.imageSize, MODULE_NAME);
    }
  }

  lemma RunSegmentBounds(m0: Mem, info: BootInfo, s: Segment, i: nat)
    requires ImageRuns(m0, info) && i < |RunSegments(m0, info)| && s == RunSegments(m0, info)[i]
    ensures AllAcceptable(RunSegments(m0, info), SYSTEM_ROM_SIZE) && s.dataOffset + s.fileSize <= SYSTEM_ROM_SIZE
    ensures USER_IMAGE_BASE <= s.vaddr && s.vaddr + s.memorySize <= USER_STACK_BOTTOM
  {
    assert s in RunSegments(m0, info) && s.Acceptable(info.imageSize);
  }

  /** What a started program reads at an address of its segment i that no later segment covers. */
  lemma UserBytes(m0: Mem, info: BootInfo, m: Mem, layout: Layout, pool: seq<Slot>, entry: u32, s: Segment, i: nat, va: u32)
    requires ImageRuns(m0, info) && ReadyForUser(m0, info, m, layout, pool, entry)
    requires i < |RunSegments(m0, info)| && s == RunSegments(m0, info)[i] && s.vaddr <= va < s.vaddr + s.memorySize
    requires forall j {:trigger RunSegments(m0, info)[j]} :: i < j < |RunSegments(m0, info)| ==>
      var t := RunSegments(m0, info)[j]; !(t.vaddr <= va < t.vaddr + t.memorySize)
    ensures 0 <= s.dataOffset + s.fileSize <= SYSTEM_ROM_SIZE
    ensures ReadVirtual(m, va) ==
      Some(if va - s.vaddr < s.fileSize then m0[0x0800_0000 + s.dataOffset + (va - s.vaddr)] else 0)
  {
    var segs := RunSegments(m0, info);
    RunSegmentBounds(m0, info, s, i);
    UserImageIsOverlay(m0, segs, m, layout, pool, info.imageSize, va);
    OverlayByte(m0, segs, i, va);
  }

  /** What boot leaves as loaded: all of memory but what these ranges and the kernel's scratch bytes cover. */
  lemma BootFrameMeans(layout: Layout, m: Mem, m': Mem, i: int)
    requires PackedKernel(m) && BootFrame(layout, m, m') && 0 <= i < PHYS_TOP && i !in layout.scratch
    requires !(0x4000_6000 <= i < 0x4000_7040) && !(0x4001_0000 <= i < 0x4002_3000)
    requires !(layout.romTables <= i < layout.romTables + 4 * 4096) && !(layout.userTable <= i < layout.userTable + 4096)
    requires !(layout.imagePages <= i < layout.imagePages + 16 * 4096) && !(layout.userStack <= i < layout.userStack + 4096)
    ensures m'[i] == LoadedByte(m, KernelCount(m), i)
  {
  }
}
