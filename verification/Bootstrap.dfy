/** The bootstrap page tables: the table-filling loops and the translation they realise. */
module Bootstrap {
  import opened Bits
  import opened Memory
  import opened Mmu

  const ROOT := 0x4001_0000
  const IDENTITY_TABLE := 0x4001_1000
  const DIRECT_TABLES := 0x4001_2000
  const MMIO_TABLE := 0x4002_2000
  const TABLES_END := 0x4002_3000
  const MMIO_BASE := 0x1000_0000
  const MMIO_SIZE := 0x1_0000

  const SUPERVISOR_RWX := 0x1b
  const SUPERVISOR_RW := 0x13

  /** Table entries from, from+1, ..., up to (not including) upto count up in steps of stride. */
  ghost predicate Counts(m: Mem, table: int, upto: int, first: int, stride: int)
    requires 0 <= table && table + 4 * upto <= PHYS_TOP
  {
    forall k {:trigger Entry(m, table, k)} :: 0 <= k < upto ==> Entry(m, table, k) == first + stride * k
  }

  /** The directory entry the bootstrap code gives to each 4 MiB of virtual space. */
  function BootstrapDirectoryEntry(k: int): u32 {
    if k == 0x40 then MMIO_TABLE + 1
    else if k == 0x100 then IDENTITY_TABLE + 1
    else if 0x300 <= k < 0x310 then DIRECT_TABLES + 0x1000 * (k - 0x300) + 1
    else 0
  }

  /** The second-level tables as the bootstrap code builds them. */
  ghost predicate KernelTables(m: Mem) {
    && Counts(m, IDENTITY_TABLE, 1024, RAM_BASE + SUPERVISOR_RWX, PAGE_SIZE)
    && Counts(m, DIRECT_TABLES, 16384, RAM_BASE + SUPERVISOR_RWX, PAGE_SIZE)
    && Counts(m, MMIO_TABLE, 16, MMIO_BASE + SUPERVISOR_RW, PAGE_SIZE)
    && forall k {:trigger Entry(m, MMIO_TABLE, k)} :: 16 <= k < 1024 ==> Entry(m, MMIO_TABLE, k) == 0
  }

  ghost predicate BootstrapTables(m: Mem) {
    KernelTables(m) && BootstrapDirectory(m)
  }

  ghost predicate BootstrapDirectory(m: Mem) {
    forall k {:trigger Entry(m, ROOT, k)} :: 0 <= k < 1024 ==>
      Entry(m, ROOT, k) == BootstrapDirectoryEntry(k)
  }

  /** `str r1, [r0], #4; add r1, r1, #stride; subs r2, r2, #1; bne`, run to completion. */
  method FillLoop(mem: array<byte>, r0: int, r1: u32, stride: nat, r2: nat)
    requires mem.Length == PHYS_TOP
    requires r2 > 0 && 0 <= r0 && r0 + 4 * r2 <= PHYS_TOP
    requires stride <= PAGE_SIZE && r1 + PAGE_SIZE * r2 < 0x1_0000_0000
    modifies mem
    ensures Counts(mem[..], r0, r2, r1, stride)
    ensures SameBut(old(mem[..]), mem[..], r0, r0 + 4 * r2)
  {
    var p, v, left := r0, r1, r2;
    ghost var k := 0;
    while left != 0
      invariant k + left == r2 && p == r0 + 4 * k
      invariant 0 <= v <= r1 + PAGE_SIZE * k && v == r1 + stride * k
      invariant Counts(mem[..], r0, k, r1, stride)
      invariant SameBut(old(mem[..]), mem[..], r0, p)
    {
      CountsStep(mem[..], r0, k, r1, stride, v);
      WriteWord(mem, p, v);
      p, v, left := p + 4, v + stride, left - 1;
      k := k + 1;
    }
  }

  lemma CountsStep(m: Mem, table: int, k: nat, first: int, stride: nat, v: u32)
    requires 0 <= table && table + 4 * k + 4 <= PHYS_TOP && Counts(m, table, k, first, stride)
    requires v == first + stride * k
    ensures Counts(PutWord(m, table + 4 * k, v), table, k + 1, first, stride)
    ensures v + stride == first + stride * (k + 1)
  {
    var m' := PutWord(m, table + 4 * k, v);
    PutOutside(m, table + 4 * k, v, table, table + 4 * k);
    TableKept(m, m', table, k);
    forall i | 0 <= i < k + 1 ensures Entry(m', table, i) == first + stride * i {
      if i < k { assert Entry(m', table, i) == Entry(m, table, i); }
    }
  }

  lemma CountsKept(m: Mem, m': Mem, table: int, upto: int, first: int, stride: int, lo: int, hi: int)
    requires 0 <= table && 0 <= upto && table + 4 * upto <= PHYS_TOP
    requires Counts(m, table, upto, first, stride) && SameBut(m, m', lo, hi)
    requires table + 4 * upto <= lo || hi <= table
    ensures Counts(m', table, upto, first, stride)
  {
    TableKept(m, m', table, upto);
  }

  /** Directory entries written so far: all those below entry number 0x300 + slots. */
  ghost predicate DirectorySoFar(m: Mem, identity: bool, slots: int, mmio: bool) {
    forall k {:trigger Entry(m, ROOT, k)} :: 0 <= k < 1024 ==>
      Entry(m, ROOT, k) ==
        if (k == 0x40 && !mmio) || (k == 0x100 && !identity) || k >= 0x300 + slots then 0
        else BootstrapDirectoryEntry(k)
  }

  lemma DirectoryKept(m: Mem, m': Mem, identity: bool, slots: int, mmio: bool, lo: int, hi: int)
    requires DirectorySoFar(m, identity, slots, mmio) && SameBut(m, m', lo, hi)
    requires ROOT + 4096 <= lo
    ensures DirectorySoFar(m', identity, slots, mmio)
  {
    TableKept(m, m', ROOT, 1024);
  }

  /** One pass of the outer loop: directory slot j and direct-map table j. */
  method DirectSlot(mem: array<byte>, j: nat, r0: int, r1: u32, r3: int)
    requires mem.Length == PHYS_TOP && j < 16
    requires r0 == DIRECT_TABLES + 4096 * j && r3 == ROOT + 4 * (0x300 + j)
    requires r1 == RAM_BASE + SUPERVISOR_RWX + 4096 * (1024 * j)
    requires DirectorySoFar(mem[..], true, j, false)
    requires Counts(mem[..], DIRECT_TABLES, 1024 * j, RAM_BASE + SUPERVISOR_RWX, PAGE_SIZE)
    modifies mem
    ensures DirectorySoFar(mem[..], true, j + 1, false)
    ensures Counts(mem[..], DIRECT_TABLES, 1024 * (j + 1), RAM_BASE + SUPERVISOR_RWX, PAGE_SIZE)
    ensures SameBut(old(mem[..]), mem[..], r3, r0 + 4096)
    ensures SameOn(old(mem[..]), mem[..], IDENTITY_TABLE, DIRECT_TABLES)
  {
    OrPage(r0, 1);
    var r5 := Or(r0, 1);
    WriteWord(mem, r3, r5);
    ghost var m1: Mem := mem[..];
    assert Entry(m1, ROOT, 0x300 + j) == r5;
    forall k | 0 <= k < 1024 && k != 0x300 + j ensures Entry(m1, ROOT, k) == Entry(old(mem[..]), ROOT, k) {}
    assert DirectorySoFar(m1, true, j + 1, false);
    FillLoop(mem, r0, r1, 4096, 1024);
    ghost var m2: Mem := mem[..];
    DirectoryKept(m1, m2, true, j + 1, false, r0, r0 + 4096);
    CountsKept(old(mem[..]), m1, DIRECT_TABLES, 1024 * j, RAM_BASE + SUPERVISOR_RWX, PAGE_SIZE, r3, r3 + 4);
    CountsKept(m1, m2, DIRECT_TABLES, 1024 * j, RAM_BASE + SUPERVISOR_RWX, PAGE_SIZE, r0, r0 + 4096);
    DirectJoin(m2, j);
  }

  lemma DirectJoin(m: Mem, j: nat)
    requires j < 16
    requires Counts(m, DIRECT_TABLES, 1024 * j, RAM_BASE + SUPERVISOR_RWX, PAGE_SIZE)
    requires Counts(m, DIRECT_TABLES + 4096 * j, 1024, RAM_BASE + SUPERVISOR_RWX + 4096 * (1024 * j), PAGE_SIZE)
    ensures Counts(m, DIRECT_TABLES, 1024 * (j + 1), RAM_BASE + SUPERVISOR_RWX, PAGE_SIZE)
  {
    forall k | 1024 * j <= k < 1024 * (j + 1)
      ensures Entry(m, DIRECT_TABLES, k) == RAM_BASE + SUPERVISOR_RWX + PAGE_SIZE * k
    {
      assert Entry(m, DIRECT_TABLES, k) == Entry(m, DIRECT_TABLES + 4096 * j, k - 1024 * j);
    }
  }

  method BootstrapMap(mem: array<byte>)
    requires mem.Length == PHYS_TOP
    modifies mem
    ensures BootstrapTables(mem[..])
    ensures SameBut(old(mem[..]), mem[..], 0x4001_0000, 0x4002_3000)
    ensures forall va: u32 {:trigger Walk(mem[..], ROOT, va)} :: Walk(mem[..], ROOT, va) == BootstrapView(va)
  {
    ghost var m0: Mem := mem[..];
    FillLoop(mem, ROOT, 0, 0, 1024);
    ghost var m1: Mem := mem[..];
    FillLoop(mem, IDENTITY_TABLE, RAM_BASE + SUPERVISOR_RWX, 4096, 1024);
    ghost var m2: Mem := mem[..];
    DirectoryKept(m1, m2, false, 0, false, IDENTITY_TABLE, IDENTITY_TABLE + 4096);
    WriteWord(mem, 0x4001_0400, 0x4001_1001);
    ghost var m3: Mem := mem[..];
    CountsKept(m2, m3, IDENTITY_TABLE, 1024, RAM_BASE + SUPERVISOR_RWX, 4096, ROOT, IDENTITY_TABLE);
    assert Entry(m3, ROOT, 0x100) == 0x4001_1001;
    forall k | 0 <= k < 1024 && k != 0x100 ensures Entry(m3, ROOT, k) == Entry(m2, ROOT, k) {}

    var r3, r0, r1, r4 := 0x4001_0c00, DIRECT_TABLES, RAM_BASE + SUPERVISOR_RWX, 16;
    while r4 != 0
      invariant 0 <= r4 <= 16
      invariant r3 == ROOT + 4 * (0x310 - r4) && r0 == DIRECT_TABLES + 4096 * (16 - r4)
      invariant r1 == RAM_BASE + SUPERVISOR_RWX + 4096 * (1024 * (16 - r4))
      invariant DirectorySoFar(mem[..], true, 16 - r4, false)
      invariant Counts(mem[..], IDENTITY_TABLE, 1024, RAM_BASE + SUPERVISOR_RWX, 4096)
      invariant Counts(mem[..], DIRECT_TABLES, 1024 * (16 - r4), RAM_BASE + SUPERVISOR_RWX, PAGE_SIZE)
      invariant SameBut(m0, mem[..], ROOT, MMIO_TABLE)
    {
      ghost var before: Mem := mem[..];
      DirectSlot(mem, 16 - r4, r0, r1, r3);
      ghost var after: Mem := mem[..];
      forall k | 0 <= k < 1024 ensures Entry(after, IDENTITY_TABLE, k) == Entry(before, IDENTITY_TABLE, k) {}
      r3, r0, r1, r4 := r3 + 4, r0 + 4096, r1 + 4096 * 1024, r4 - 1;
    }
    MmioTable(mem);
    forall va: u32 ensures Walk(mem[..], ROOT, va) == BootstrapView(va) { BootstrapTranslation(mem[..], va); }
  }

  /** The last part: the MMIO window's table and its directory entry. */
  method MmioTable(mem: array<byte>)
    requires mem.Length == PHYS_TOP
    requires DirectorySoFar(mem[..], true, 16, false)
    requires Counts(mem[..], IDENTITY_TABLE, 1024, RAM_BASE + SUPERVISOR_RWX, PAGE_SIZE)
    requires Counts(mem[..], DIRECT_TABLES, 16384, RAM_BASE + SUPERVISOR_RWX, PAGE_SIZE)
    modifies mem
    ensures BootstrapTables(mem[..])
    ensures SameBut(old(mem[..]), mem[..], ROOT, TABLES_END)
  {
    ghost var m0: Mem := mem[..];
    FillLoop(mem, MMIO_TABLE, 0, 0, 1024);
    ghost var m1: Mem := mem[..];
    FillLoop(mem, MMIO_TABLE, 0x1000_0013, 4096, 16);
    ghost var m2: Mem := mem[..];
    forall k | 16 <= k < 1024 ensures Entry(m2, MMIO_TABLE, k) == Entry(m1, MMIO_TABLE, k) {}
    assert SameBut(m0, m2, MMIO_TABLE, TABLES_END);
    DirectoryKept(m0, m2, true, 16, false, MMIO_TABLE, TABLES_END);
    WriteWord(mem, 0x4001_0100, 0x4002_2001);
    ghost var m3: Mem := mem[..];
    assert Entry(m3, ROOT, 0x40) == 0x4002_2001;
    forall k | 0 <= k < 1024 && k != 0x40 ensures Entry(m3, ROOT, k) == Entry(m2, ROOT, k) {}
    assert SameBut(m0, m2, MMIO_TABLE, TABLES_END);
    CountsKept(m0, m2, IDENTITY_TABLE, 1024, RAM_BASE + SUPERVISOR_RWX, 4096, MMIO_TABLE, TABLES_END);
    CountsKept(m0, m2, DIRECT_TABLES, 16384, RAM_BASE + SUPERVISOR_RWX, 4096, MMIO_TABLE, TABLES_END);
    CountsKept(m2, m3, IDENTITY_TABLE, 1024, RAM_BASE + SUPERVISOR_RWX, 4096, ROOT, IDENTITY_TABLE);
    CountsKept(m2, m3, DIRECT_TABLES, 16384, RAM_BASE + SUPERVISOR_RWX, 4096, ROOT, IDENTITY_TABLE);
    forall k | 0 <= k < 1024 ensures Entry(m3, MMIO_TABLE, k) == Entry(m2, MMIO_TABLE, k) {}
  }

  /** What the bootstrap tables must do, said in addresses alone. */
  function BootstrapView(va: u32): Option<Translation> {
    if 0x4000_0000 <= va < 0x4040_0000 then Some(Page(PageOf(va), SUPERVISOR_RWX))
    else if KERNEL_DIRECT_BASE <= va < KERNEL_DIRECT_BASE + KERNEL_DIRECT_SIZE then
      Some(Page(PageOf(va) - 0x8000_0000, SUPERVISOR_RWX))
    else if MMIO_BASE <= va < MMIO_BASE + MMIO_SIZE then Some(Page(PageOf(va), SUPERVISOR_RW))
    else None
  }

  lemma BootstrapTranslation(m: Mem, va: u32)
    requires BootstrapTables(m)
    ensures Walk(m, ROOT, va) == BootstrapView(va)
    ensures Walk(m, 0x4001_0000, va).Some? ==>
      var t := Walk(m, 0x4001_0000, va).value;
      && t.Readable() && t.Writable() && !t.User() && (t.Executable() <==> !(0x1000_0000 <= va < 0x1001_0000))
  {
    BootstrapPermissions(va);
    AddressParts(va);
    var k, e := va / 0x40_0000, va / PAGE_SIZE % 1024;
    assert Entry(m, ROOT, k) == BootstrapDirectoryEntry(k);
    ViewByPage(k, e, va);
    if BootstrapDirectoryEntry(k) != 0 {
      KernelEntries(m, k, e);
    } else {
      EmptySlot(m, k, e);
    }
  }

  lemma EmptySlot(m: Mem, k: int, e: int)
    requires 0 <= k < 1024 && 0 <= e < 1024 && Entry(m, ROOT, k) == 0
    ensures WalkAt(m, ROOT, k, e) == None
  {
  }

  /** The view is the same over a page, and empty where the directory is. */
  lemma ViewByPage(k: int, e: int, va: u32)
    requires 0 <= k < 1024 && 0 <= e < 1024 && PageAt(k, e) == PageOf(va) <= va < PageAt(k, e) + PAGE_SIZE
    ensures 0 <= PageAt(k, e) < 0x1_0000_0000 && BootstrapView(PageAt(k, e)) == BootstrapView(va)
    ensures BootstrapDirectoryEntry(k) == 0 ==> BootstrapView(va) == None
  {
    PageAtAligned(k, e);
    assert PageOf(PageAt(k, e)) == PageAt(k, e);
  }

  /** A directory slot that bootstrap filled translates by BootstrapView. */
  lemma KernelEntries(m: Mem, k: int, e: int)
    requires KernelTables(m) && 0 <= k < 1024 && 0 <= e < 1024
    requires Entry(m, ROOT, k) == BootstrapDirectoryEntry(k) != 0
    ensures PageAt(k, e) < 0x1_0000_0000 && WalkAt(m, ROOT, k, e) == BootstrapView(PageAt(k, e))
  {
    PageAtAligned(k, e);
    if k == 0x40 {
      MmioEntries(m, e);
    } else if k == 0x100 {
      IdentityEntries(m, e);
    } else {
      DirectEntries(m, k, e);
    }
  }

  lemma MmioEntries(m: Mem, e: int)
    requires KernelTables(m) && 0 <= e < 1024 && Entry(m, ROOT, 0x40) == MMIO_TABLE + PDE_VALID
    ensures WalkAt(m, ROOT, 0x40, e) == if e < 16 then Some(Page(PageAt(0x40, e), SUPERVISOR_RW)) else None
  {
    WalkThrough(m, ROOT, 0x40, e, MMIO_TABLE);
    if e < 16 {
      PageAtAligned(0x40, e);
      DecodePage(PageAt(0x40, e), SUPERVISOR_RW);
    }
  }

  lemma IdentityEntries(m: Mem, e: int)
    requires KernelTables(m) && 0 <= e < 1024 && Entry(m, ROOT, 0x100) == IDENTITY_TABLE + PDE_VALID
    ensures WalkAt(m, ROOT, 0x100, e) == Some(Page(PageAt(0x100, e), SUPERVISOR_RWX))
  {
    WalkThrough(m, ROOT, 0x100, e, IDENTITY_TABLE);
    PageAtAligned(0x100, e);
    DecodePage(PageAt(0x100, e), SUPERVISOR_RWX);
  }

  lemma DirectEntries(m: Mem, k: int, e: int)
    requires KernelTables(m) && 0x300 <= k < 0x310 && 0 <= e < 1024
    requires Entry(m, ROOT, k) == DIRECT_TABLES + 4096 * (k - 0x300) + PDE_VALID
    ensures WalkAt(m, ROOT, k, e) == Some(Page(PageAt(k, e) - 0x8000_0000, SUPERVISOR_RWX))
  {
    var j := k - 0x300;
    AlignedPlusPages(DIRECT_TABLES, j);
    WalkThrough(m, ROOT, k, e, DIRECT_TABLES + 4096 * j);
    DirectEntry(m, j, e);
    AlignedPlusPages(RAM_BASE, 1024 * j + e);
    DecodePage(RAM_BASE + PAGE_SIZE * (1024 * j + e), SUPERVISOR_RWX);
  }

  lemma DirectEntry(m: Mem, j: int, e: int)
    requires KernelTables(m) && 0 <= j < 16 && 0 <= e < 1024
    ensures Entry(m, DIRECT_TABLES + 4096 * j, e) == RAM_BASE + PAGE_SIZE * (1024 * j + e) + SUPERVISOR_RWX
  {
    assert Entry(m, DIRECT_TABLES, 1024 * j + e) == Entry(m, DIRECT_TABLES + 4096 * j, e);
  }

  /** The same in numbers: what is mapped, to where, and with which permissions. */
  lemma BootstrapPermissions(va: u32)
    ensures BootstrapView(va).Some? <==>
      0x4000_0000 <= va < 0x4040_0000 || 0xc000_0000 <= va < 0xc400_0000 || 0x1000_0000 <= va < 0x1001_0000
    ensures BootstrapView(va).Some? ==>
      var t := BootstrapView(va).value;
      && Physical(t, va) == (if va < 0xc000_0000 then va else va - 0x8000_0000)
      && t.Readable() && t.Writable() && !t.User()
      && (t.Executable() <==> !(0x1000_0000 <= va < 0x1001_0000))
  {
  }

  /** The words of the directory and of the tables, in numbers. */
  lemma BootstrapWords(m: Mem, k: nat)
    requires BootstrapTables(m)
    ensures k == 0x40 ==> Word(m, 0x4001_0000 + 4 * k) == 0x4002_2001
    ensures k == 0x100 ==> Word(m, 0x4001_0000 + 4 * k) == 0x4001_1001
    ensures 0x300 <= k < 0x310 ==> Word(m, 0x4001_0000 + 4 * k) == 0x4001_2001 + 0x1000 * (k - 0x300)
    ensures k < 1024 && k != 0x40 && k != 0x100 && !(0x300 <= k < 0x310) ==> Word(m, 0x4001_0000 + 4 * k) == 0
    ensures k < 1024 ==> Word(m, 0x4001_1000 + 4 * k) == 0x4000_001b + 0x1000 * k
    ensures k < 16384 ==> Word(m, 0x4001_2000 + 4 * k) == 0x4000_001b + 0x1000 * k
    ensures k < 1024 ==> Word(m, 0x4002_2000 + 4 * k) == if k < 16 then 0x1000_0013 + 0x1000 * k else 0
  {
    if k < 16384 { assert Entry(m, DIRECT_TABLES, k) == Word(m, 0x4001_2000 + 4 * k); }
    if k < 1024 {
      assert Entry(m, ROOT, k) == Word(m, 0x4001_0000 + 4 * k);
      assert Entry(m, IDENTITY_TABLE, k) == Word(m, 0x4001_1000 + 4 * k);
      assert Entry(m, MMIO_TABLE, k) == Word(m, 0x4002_2000 + 4 * k);
    }
  }
}
