/** Loading a user module: the segment loop, the page table and the directory entry. */
module UserModule {
  import opened Bits
  import opened Memory
  import opened Mmu
  import opened Bootstrap
  import opened UserSpace
  import opened UserPool
  import opened UserLoader
  import opened UserSegments
  import opened UserTables
  import opened ImageChecks

  /** A module record lies in the ROM image. */
  predicate RecordInImage(record: int, imageSize: u32) {
    SYSTEM_ROM_BASE <= record && record + 32 <= SYSTEM_ROM_BASE + imageSize && imageSize <= SYSTEM_ROM_SIZE
  }

  function SegmentTableOffset(m: Mem, record: int): u32
    requires RecordInImage(record, SYSTEM_ROM_SIZE)
  {
    Word(m, record + 8)
  }

  function SegmentCount(m: Mem, record: int): u32
    requires RecordInImage(record, SYSTEM_ROM_SIZE)
  {
    Word(m, record + 12)
  }

  function EntryVaddr(m: Mem, record: int): u32
    requires RecordInImage(record, SYSTEM_ROM_SIZE)
  {
    Word(m, record + 16)
  }

  predicate TableInImage(m: Mem, record: int, imageSize: u32)
    requires RecordInImage(record, imageSize)
  {
    SegmentTableOffset(m, record) + 32 * SegmentCount(m, record) <= imageSize
  }

  function ModuleSegments(m: Mem, record: int, imageSize: u32): seq<Segment>
    requires RecordInImage(record, imageSize) && TableInImage(m, record, imageSize)
  {
    SegmentTable(m, SYSTEM_ROM_BASE + SegmentTableOffset(m, record), SegmentCount(m, record))
  }

  /** The exact condition under which load_user_module returns true. */
  ghost predicate Loadable(m: Mem, record: int, imageSize: u32)
    requires RecordInImage(record, imageSize)
  {
    TableInImage(m, record, imageSize) &&
    Accepts(ModuleSegments(m, record, imageSize), imageSize, EntryVaddr(m, record))
  }

  /** The bytes of physical memory that loading may change. */
  predicate Owned(layout: Layout, i: int) {
    || layout.userTable <= i < layout.userTable + 0x1000
    || layout.userStack <= i < layout.userStack + 0x1000
    || layout.imagePages <= i < layout.imagePages + 0x1_0000
    || ROOT + 4 <= i < ROOT + 8
    || i in layout.scratch
  }

  ghost predicate LoaderFrame(layout: Layout, m: Mem, m': Mem) {
    forall i {:trigger m'[i]} :: 0 <= i < PHYS_TOP && !Owned(layout, i) ==> m'[i] == m[i]
  }

  /** A loaded module: the pool shows its overlay and the live tables point at the pool. */
  ghost predicate ModuleLoaded(m0: Mem, segs: seq<Segment>, imageSize: u32, m: Mem, layout: Layout, pool: seq<Slot>) {
    && Holding(m0, segs, imageSize, m, layout, pool)
    && UserTable(m, layout, pool)
    && Entry(m, ROOT, 1) == layout.userTable + PDE_VALID
    && forall i {:trigger m[i]} :: layout.userStack <= i < layout.userStack + 0x1000 ==> m[i] == 0
  }

  lemma HoldingKept(m0: Mem, segs: seq<Segment>, imageSize: u32, m: Mem, m': Mem, layout: Layout, pool: seq<Slot>)
    requires Holding(m0, segs, imageSize, m, layout, pool)
    requires SameOn(m, m', layout.imagePages, layout.imagePages + 0x1_0000) && SameOn(m0, m', 0, RAM_BASE)
    ensures Holding(m0, segs, imageSize, m', layout, pool)
  {
    forall va ensures UserByte(m', layout, pool, va) == Overlay(m0, segs, va) {
      assert UserByte(m, layout, pool, va) == Overlay(m0, segs, va);
      PageBounds(va);
    }
  }

  /** A segment record lies inside the image wherever it is read. */
  method ReadSegmentRecord(mem: array<byte>, a: int, imageSize: u32) returns (s: Segment)
    requires mem.Length == PHYS_TOP && SYSTEM_ROM_BASE <= a && a + 32 <= SYSTEM_ROM_BASE + imageSize
    requires imageSize <= SYSTEM_ROM_SIZE
    ensures s == SegmentAt(mem[..], a)
  {
    var dataOffset := ReadWord(mem, a);
    var vaddr := ReadWord(mem, a + 4);
    var fileSize := ReadWord(mem, a + 8);
    var memorySize := ReadWord(mem, a + 12);
    var flags := ReadWord(mem, a + 16);
    s := Segment(dataOffset, vaddr, fileSize, memorySize, flags);
  }

  /** A record read while segments are being loaded is the one the table had at the start. */
  lemma RecordKept(m0: Mem, m: Mem, segs: seq<Segment>, table: int, count: nat, index: nat)
    requires SameOn(m0, m, 0, RAM_BASE) && 0 <= table && table + 32 * count <= RAM_BASE && index < count
    requires segs == SegmentTable(m0, table, count)
    ensures SegmentAt(m, table + 32 * index) == segs[index]
    ensures segs[..index] + [segs[index]] == segs[..index + 1]
  {
    var a := table + 32 * index;
    assert segs[index] == SegmentAt(m0, a);
    WordKept(m0, m, a);
    WordKept(m0, m, a + 4);
    WordKept(m0, m, a + 8);
    WordKept(m0, m, a + 12);
    WordKept(m0, m, a + 16);
  }

  /** The test for the segment that holds the entry instruction, as written in C. */
  function EntersHere(s: Segment, entry: u32): (r: bool)
    requires s.flags < 8
    ensures r <==> s.Enters(entry)
  {
    FlagTests(s.flags);
    And(s.flags, 4) != 0 && s.fileSize >= 4 && entry >= s.vaddr && entry - s.vaddr <= s.fileSize - 4
  }

  method LoadSegments(loader: Loader, ghost m0: Mem, ghost segs: seq<Segment>, table: int, count: u32, imageSize: u32, entry: u32)
    returns (ok: bool, entryIsExecutable: bool)
    requires loader.Valid() && loader.pool == []
    requires SYSTEM_ROM_BASE <= table && table + 32 * count <= SYSTEM_ROM_BASE + imageSize && imageSize <= SYSTEM_ROM_SIZE
    requires SameOn(m0, loader.mem[..], 0, RAM_BASE) && segs == SegmentTable(m0, table, count)
    modifies loader.mem, loader.vaddrs, loader.flags, loader`count, loader`pool
    ensures loader.Valid()
    ensures ok <==> Fits(segs, imageSize)
    ensures ok ==> Holding(m0, segs, imageSize, loader.mem[..], loader.layout, loader.pool)
    ensures ok ==> (entryIsExecutable <==> HasEntry(segs, entry))
    ensures SameBut(old(loader.mem[..]), loader.mem[..], loader.layout.imagePages, loader.layout.imagePages + 0x1_0000)
  {
    HoldingNothing(m0, imageSize, loader.mem[..], loader.layout);
    entryIsExecutable := false;
    var index := 0;
    while index < count
      invariant 0 <= index <= count && loader.Valid()
      invariant Holding(m0, segs[..index], imageSize, loader.mem[..], loader.layout, loader.pool)
      invariant entryIsExecutable <==> HasEntry(segs[..index], entry)
      invariant SameBut(old(loader.mem[..]), loader.mem[..], loader.layout.imagePages, loader.layout.imagePages + 0x1_0000)
    {
      var enters;
      ok, enters := LoadNext(loader, m0, segs, table, count, index, imageSize, entry);
      if !ok {
        PrefixFits(segs, index + 1, imageSize);
        return;
      }
      OneMoreEntry(segs, index, entry, imageSize);
      if enters {
        entryIsExecutable := true;
      }
      index := index + 1;
    }
    assert segs[..index] == segs;
    HoldingFits(m0, segs, imageSize, loader.mem[..], loader.layout, loader.pool);
    ok := true;
  }

  /** One turn of the segment loop, on record index of the table. */
  method LoadNext(loader: Loader, ghost m0: Mem, ghost segs: seq<Segment>, table: int, count: u32, index: nat,
                  imageSize: u32, entry: u32)
    returns (ok: bool, enters: bool)
    requires loader.Valid() && index < count
    requires SYSTEM_ROM_BASE <= table && table + 32 * count <= SYSTEM_ROM_BASE + imageSize && imageSize <= SYSTEM_ROM_SIZE
    requires segs == SegmentTable(m0, table, count)
    requires Holding(m0, segs[..index], imageSize, loader.mem[..], loader.layout, loader.pool)
    modifies loader.mem, loader.vaddrs, loader.flags, loader`count, loader`pool
    ensures loader.Valid()
    ensures ok <==> Fits(segs[..index + 1], imageSize)
    ensures ok ==> Holding(m0, segs[..index + 1], imageSize, loader.mem[..], loader.layout, loader.pool)
    ensures ok ==> (enters <==> segs[index].Enters(entry))
    ensures SameBut(old(loader.mem[..]), loader.mem[..], loader.layout.imagePages, loader.layout.imagePages + 0x1_0000)
  {
    enters := false;
    RecordKept(m0, loader.mem[..], segs, table, count, index);
    var s := ReadSegmentRecord(loader.mem, table + 32 * index, imageSize);
    ok := LoadSegment(loader, m0, segs[..index], s, imageSize);
    if ok {
      assert s in segs[..index + 1];
      enters := EntersHere(s, entry);
    }
  }

  lemma PrefixFits(segs: seq<Segment>, n: nat, imageSize: u32)
    requires n <= |segs|
    ensures Fits(segs, imageSize) ==> Fits(segs[..n], imageSize)
  {
    if Fits(segs, imageSize) { FitsSubset(segs[..n], segs, imageSize); }
  }

  lemma OneMoreEntry(segs: seq<Segment>, n: nat, entry: u32, imageSize: u32)
    requires n < |segs| && Fits(segs[..n + 1], imageSize)
    ensures segs[n].flags < 8
    ensures HasEntry(segs[..n + 1], entry) <==> HasEntry(segs[..n], entry) || segs[n].Enters(entry)
  {
    assert segs[..n + 1] == segs[..n] + [segs[n]];
    assert segs[n] in segs[..n + 1];
    if HasEntry(segs[..n + 1], entry) {
      var s :| s in segs[..n + 1] && s.Enters(entry);
      assert s in segs[..n] || s == segs[n];
    }
    if HasEntry(segs[..n], entry) {
      var s :| s in segs[..n] && s.Enters(entry);
      assert s in segs[..n + 1];
    }
  }

  method LoadUserModule(loader: Loader, record: int, imageSize: u32) returns (ok: bool)
    requires loader.Valid() && RecordInImage(record, imageSize)
    modifies loader.mem, loader.vaddrs, loader.flags, loader`count, loader`pool
    ensures loader.Valid()
    ensures ok <==> Loadable(old(loader.mem[..]), record, imageSize)
    ensures ok ==> ModuleLoaded(old(loader.mem[..]), ModuleSegments(old(loader.mem[..]), record, imageSize), imageSize,
                                loader.mem[..], loader.layout, loader.pool)
    ensures LoaderFrame(loader.layout, old(loader.mem[..]), loader.mem[..])
    ensures !ok ==> SameOn(old(loader.mem[..]), loader.mem[..], ROOT, ROOT + 0x1000)
  {
    ghost var m0: Mem := loader.mem[..];
    var passed, table, count, entry := CheckHeader(loader.mem, record, imageSize);
    if !passed {
      return false;
    }
    ghost var segs := ModuleSegments(m0, record, imageSize);
    ok := LoadTable(loader, segs, table, count, imageSize, entry);
    ChecksDecide(m0, record, imageSize);
  }

  /** The tests made before anything is changed. */
  method CheckHeader(mem: array<byte>, record: int, imageSize: u32)
    returns (passed: bool, table: int, count: u32, entry: u32)
    requires mem.Length == PHYS_TOP && RecordInImage(record, imageSize)
    ensures !passed ==> !Loadable(mem[..], record, imageSize)
    ensures passed ==>
      && TableInImage(mem[..], record, imageSize)
      && table == SYSTEM_ROM_BASE + SegmentTableOffset(mem[..], record)
      && count == SegmentCount(mem[..], record) != 0
      && entry == EntryVaddr(mem[..], record) && entry % 4 == 0
  {
    count := ReadWord(mem, record + 12);
    var tableOffset := ReadWord(mem, record + 8);
    entry := ReadWord(mem, record + 16);
    table := SYSTEM_ROM_BASE + tableOffset;
    LowTwoBits(entry);
    HeaderRejects(mem[..], record, imageSize);
    passed := !(count == 0 || !ImageRecordsValid(tableOffset, count, imageSize) || And(entry, 3) != 0);
  }

  lemma HeaderRejects(m: Mem, record: int, imageSize: u32)
    requires RecordInImage(record, imageSize)
    ensures Loadable(m, record, imageSize) ==>
      TableInImage(m, record, imageSize) && SegmentCount(m, record) != 0 && EntryVaddr(m, record) % 4 == 0
  {
  }

  /** The tests before and after the segment loop add up to Loadable. */
  lemma ChecksDecide(m: Mem, record: int, imageSize: u32)
    requires RecordInImage(record, imageSize) && TableInImage(m, record, imageSize)
    requires SegmentCount(m, record) != 0 && EntryVaddr(m, record) % 4 == 0
    ensures Loadable(m, record, imageSize) <==>
      Fits(ModuleSegments(m, record, imageSize), imageSize) &&
      HasEntry(ModuleSegments(m, record, imageSize), EntryVaddr(m, record))
  {
  }

  /** The rest of the loader, for a segment table known to lie in the image. */
  method LoadTable(loader: Loader, ghost segs: seq<Segment>, table: int, count: u32, imageSize: u32, entry: u32) returns (ok: bool)
    requires loader.Valid()
    requires SYSTEM_ROM_BASE <= table && table + 32 * count <= SYSTEM_ROM_BASE + imageSize && imageSize <= SYSTEM_ROM_SIZE
    requires segs == SegmentTable(loader.mem[..], table, count)
    modifies loader.mem, loader.vaddrs, loader.flags, loader`count, loader`pool
    ensures loader.Valid()
    ensures ok <==> Fits(segs, imageSize) && HasEntry(segs, entry)
    ensures ok ==> ModuleLoaded(old(loader.mem[..]), segs, imageSize, loader.mem[..], loader.layout, loader.pool)
    ensures LoaderFrame(loader.layout, old(loader.mem[..]), loader.mem[..])
    ensures !ok ==> SameOn(old(loader.mem[..]), loader.mem[..], ROOT, ROOT + 0x1000)
  {
    ghost var m0: Mem := loader.mem[..];
    ResetArrays(loader);
    ghost var m1: Mem := loader.mem[..];
    var entryIsExecutable;
    ok, entryIsExecutable := LoadSegments(loader, m0, segs, table, count, imageSize, entry);
    ghost var m2: Mem := loader.mem[..];
    FrameMore(loader.layout, m0, m1, m2);
    if !ok || !entryIsExecutable {
      return false;
    }
    ResetKept(loader.layout, m1, m2);
    Install(loader, m0, segs, imageSize);
  }

  lemma FrameMore(layout: Layout, m0: Mem, m1: Mem, m2: Mem)
    requires LoaderFrame(layout, m0, m1) && SameOn(m0, m1, 0, KERNEL_START)
    requires SameBut(m1, m2, layout.imagePages, layout.imagePages + 0x1_0000)
    ensures LoaderFrame(layout, m0, m2) && SameOn(m0, m2, 0, KERNEL_START)
  {
  }

  /** The page table and the stack stay clear while segments are loaded. */
  lemma ResetKept(layout: Layout, m: Mem, m': Mem)
    requires SameBut(m, m', layout.imagePages, layout.imagePages + 0x1_0000)
    requires PagesInstalled(m, layout, [])
    requires forall i {:trigger m[i]} :: layout.userStack <= i < layout.userStack + 0x1000 ==> m[i] == 0
    ensures PagesInstalled(m', layout, [])
    ensures forall i {:trigger m'[i]} :: layout.userStack <= i < layout.userStack + 0x1000 ==> m'[i] == 0
  {
    TableKept(m, m', layout.userTable, 1024);
  }

  /** Clearing the static arrays a previous load may have left dirty. */
  method ResetArrays(loader: Loader)
    requires loader.Valid()
    modifies loader.mem, loader`count, loader`pool
    ensures loader.Valid() && loader.pool == []
    ensures SameOn(old(loader.mem[..]), loader.mem[..], 0, KERNEL_START)
    ensures LoaderFrame(loader.layout, old(loader.mem[..]), loader.mem[..])
    ensures PagesInstalled(loader.mem[..], loader.layout, [])
    ensures forall i {:trigger loader.mem[..][i]} ::
      loader.layout.userStack <= i < loader.layout.userStack + 0x1000 ==> loader.mem[..][i] == 0
  {
    ZeroBytes(loader.mem, loader.layout.userTable, PAGE_SIZE);
    ghost var m1: Mem := loader.mem[..];
    ZeroBytes(loader.mem, loader.layout.userStack, PAGE_SIZE);
    ghost var m2: Mem := loader.mem[..];
    loader.count := 0;
    loader.pool := [];
    forall e | 0 <= e < 1024 ensures Entry(m2, loader.layout.userTable, e) == 0 {}
  }

  /** The page table, the stack page and the directory entry, once every segment is in the pool. */
  method Install(loader: Loader, ghost m0: Mem, ghost segs: seq<Segment>, imageSize: u32)
    requires loader.Valid()
    requires Holding(m0, segs, imageSize, loader.mem[..], loader.layout, loader.pool)
    requires PagesInstalled(loader.mem[..], loader.layout, [])
    requires forall i {:trigger loader.mem[..][i]} ::
      loader.layout.userStack <= i < loader.layout.userStack + 0x1000 ==> loader.mem[..][i] == 0
    modifies loader.mem
    ensures loader.Valid()
    ensures ModuleLoaded(m0, segs, imageSize, loader.mem[..], loader.layout, loader.pool)
    ensures LoaderFrame(loader.layout, old(loader.mem[..]), loader.mem[..])
  {
    ghost var m1: Mem, layout, pool := loader.mem[..], loader.layout, loader.pool;
    PoolFlags(pool, segs, imageSize);
    InstallPages(loader);
    InstallStack(loader);
    ghost var m2: Mem := loader.mem[..];
    var pde := PdeOf(loader.layout.userTable);
    WriteWord(loader.mem, ROOT + 4 * (USER_IMAGE_BASE / 0x40_0000), pde);
    ghost var m3: Mem := loader.mem[..];
    UserTableKept(m2, m3, layout, pool);
    HoldingKept(m0, segs, imageSize, m1, m3, layout, pool);
    assert Entry(m3, ROOT, 1) == layout.userTable + PDE_VALID;
  }

  lemma UserTableKept(m: Mem, m': Mem, layout: Layout, pool: seq<Slot>)
    requires UserTable(m, layout, pool) && SameBut(m, m', ROOT + 4, ROOT + 8)
    ensures UserTable(m', layout, pool)
  {
    TableKept(m, m', layout.userTable, 1024);
  }

  /** The words of a module record that loading looks at. */
  lemma ModuleOfWords(m: Mem, record: int, ws: seq<u32>)
    requires RecordInImage(record, SYSTEM_ROM_SIZE) && |ws| == 8 && WordsAt(m, record, ws)
    ensures SegmentTableOffset(m, record) == ws[2] && SegmentCount(m, record) == ws[3] && EntryVaddr(m, record) == ws[4]
  {
    var w2, w3, w4 := ws[2], ws[3], ws[4];
    assert w2 == Word(m, record + 4 * 2) && w3 == Word(m, record + 4 * 3) && w4 == Word(m, record + 4 * 4);
  }

  /**
   * The condition for loading, in plain terms.  The module of the words ws has segments segs, those of
   * its table; each is acceptable; no two share a page and differ in flags; at most sixteen pages are
   * touched; and the aligned entry may be any address whose four bytes lie in the file part of an
   * executable segment.
   */
  lemma LoadableMeans(m: Mem, record: int, imageSize: u32, ws: seq<u32>, segs: seq<Segment>)
    requires RecordInImage(record, imageSize) && |ws| == 8 && WordsAt(m, record, ws)
    requires ws[2] + 32 * ws[3] <= imageSize ==> |segs| == ws[3]
    requires ws[2] + 32 * ws[3] <= imageSize ==>
      forall i {:trigger segs[i]} :: 0 <= i < |segs| ==> segs[i] == SegmentAt(m, 0x0800_0000 + (ws[2] + 32 * i))
    ensures Loadable(m, record, imageSize) <==>
      && ws[2] + 32 * ws[3] <= imageSize && 0 < ws[3] && ws[4] % 4 == 0
      && (forall i {:trigger segs[i]} :: 0 <= i < |segs| ==> segs[i].Acceptable(imageSize))
      && (forall i, j, va, vb {:trigger segs[i].Holds(va), segs[j].Holds(vb)} ::
            0 <= i < |segs| && 0 <= j < |segs| && segs[i].Holds(va) && segs[j].Holds(vb) && PageOf(va) == PageOf(vb) ==>
            segs[i].flags == segs[j].flags)
      && |TouchedPages(segs)| <= 16
      && exists i {:trigger segs[i]} :: 0 <= i < |segs| && segs[i].flags / 4 == 1
           && segs[i].vaddr <= ws[4] && ws[4] + 3 < segs[i].vaddr + segs[i].fileSize
  {
    ModuleOfWords(m, record, ws);
    if ws[2] + 32 * ws[3] <= imageSize {
      var table := ModuleSegments(m, record, imageSize);
      assert table == segs;
      AllByIndex(segs, imageSize);
      if AllAcceptable(segs, imageSize) {
        ConsistentMeans(segs, imageSize);
        EntryByIndex(segs, imageSize, ws[4]);
      }
    }
  }

  lemma AllByIndex(segs: seq<Segment>, imageSize: u32)
    ensures AllAcceptable(segs, imageSize) <==>
      forall i {:trigger segs[i]} :: 0 <= i < |segs| ==> segs[i].Acceptable(imageSize)
  {
    if AllAcceptable(segs, imageSize) {
      forall i | 0 <= i < |segs| ensures segs[i].Acceptable(imageSize) { assert segs[i] in segs; }
    }
  }

  lemma ConsistentMeans(segs: seq<Segment>, imageSize: u32)
    requires AllAcceptable(segs, imageSize)
    ensures Consistent(segs) <==>
      forall i, j, va, vb {:trigger segs[i].Holds(va), segs[j].Holds(vb)} ::
        0 <= i < |segs| && 0 <= j < |segs| && segs[i].Holds(va) && segs[j].Holds(vb) && PageOf(va) == PageOf(vb) ==>
        segs[i].flags == segs[j].flags
  {
    if Consistent(segs) {
      forall i, j, va, vb | 0 <= i < |segs| && 0 <= j < |segs| && segs[i].Holds(va) && segs[j].Holds(vb) && PageOf(va) == PageOf(vb)
        ensures segs[i].flags == segs[j].flags
      {
        HoldsTouches(segs[i], va);
        HoldsTouches(segs[j], vb);
        PageBounds(va);
        assert segs[i] in segs && segs[j] in segs;
      }
    } else {
      var s, t, page :| s in segs && t in segs && page % PAGE_SIZE == 0 && s.Touches(page) && t.Touches(page) && s.flags != t.flags;
      var i :| 0 <= i < |segs| && segs[i] == s;
      var j :| 0 <= j < |segs| && segs[j] == t;
      assert s.Acceptable(imageSize) && t.Acceptable(imageSize);
      TouchesMeans(s, page);
      TouchesMeans(t, page);
      var va :| page <= va < page + 0x1000 && s.Holds(va);
      var vb :| page <= vb < page + 0x1000 && t.Holds(vb);
      PageIsUnique(page, va);
      PageIsUnique(page, vb);
      assert segs[i].Holds(va) && segs[j].Holds(vb);
    }
  }

  lemma EntryByIndex(segs: seq<Segment>, imageSize: u32, entry: u32)
    requires AllAcceptable(segs, imageSize)
    ensures HasEntry(segs, entry) <==>
      exists i {:trigger segs[i]} :: 0 <= i < |segs| && segs[i].flags / 4 == 1
        && segs[i].vaddr <= entry && entry + 3 < segs[i].vaddr + segs[i].fileSize
  {
    if HasEntry(segs, entry) {
      var s :| s in segs && s.Enters(entry);
      EntersMeans(s, entry);
      assert s.Acceptable(imageSize);
      var i :| 0 <= i < |segs| && segs[i] == s;
    }
    forall i | 0 <= i < |segs| && segs[i].flags / 4 == 1 && segs[i].vaddr <= entry && entry + 3 < segs[i].vaddr + segs[i].fileSize
      ensures HasEntry(segs, entry)
    {
      EntersMeans(segs[i], entry);
      assert segs[i] in segs;
    }
  }

  /** What loading leaves alone: all but the loader's arrays, scratch bytes and one directory entry. */
  lemma LoaderFrameMeans(layout: Layout, m: Mem, m': Mem, i: int)
    requires LoaderFrame(layout, m, m') && 0 <= i < PHYS_TOP && i !in layout.scratch
    requires !(layout.userTable <= i < layout.userTable + 4096) && !(layout.userStack <= i < layout.userStack + 4096)
    requires !(layout.imagePages <= i < layout.imagePages + 16 * 4096) && !(0x4001_0004 <= i < 0x4001_0008)
    ensures m'[i] == m[i]
  {
  }
}
