/** The TTBR0 switch test: copying the root, switching to the copy, and when cached translations stay right. */
module TtbrSwitch {
  import opened Bits
  import opened Memory
  import opened Mmu
  import opened PageUse
  import opened Bootstrap
  import opened Trap
  import opened FaultRepair
  import opened TestPage

  const PAGE_FLAGS := 0x13
  const PATTERN_A := 0xaaaa_aaaa
  const PATTERN_B := 0xbbbb_bbbb
  const SUCCESS := 0x2004_0001

  /** Root b is a copy of root a except for the slot of the test window. */
  ghost predicate CopiedRoot(m: Mem, a: int, b: int)
    requires IsTableAddress(a) && IsTableAddress(b)
  {
    forall k {:trigger Entry(m, b, k)} :: 0 <= k < 1024 && k != TEST_SLOT ==> Entry(m, b, k) == Entry(m, a, k)
  }

  predicate InWindow(va: int) { TEST_VADDR <= va < TEST_VADDR + 0x40_0000 }

  /** Outside the window both roots translate alike. */
  lemma RootsAgree(m: Mem, a: int, b: int, va: u32)
    requires IsTableAddress(a) && IsTableAddress(b) && CopiedRoot(m, a, b) && !InWindow(va)
    ensures Walk(m, b, va) == Walk(m, a, va)
  {
    var k := va / 0x40_0000;
    assert k != TEST_SLOT;
    assert Entry(m, b, k) == Entry(m, a, k);
  }

  /**
   * Switching to the copied root without TLBIALL: whatever a coherent TLB had cached outside the
   * window is what a walk from the new root gives, so only the window can be stale.
   */
  lemma SwitchKeepsCached(m: Mem, a: int, b: int, tlb: map<u32, Translation>)
    requires IsTableAddress(a) && IsTableAddress(b) && CopiedRoot(m, a, b) && Coherent(m, a, tlb)
    ensures forall page {:trigger tlb[page]} :: page in tlb && !InWindow(page) ==> Walk(m, b, page) == Some(tlb[page])
    ensures Coherent(m, b, tlb) <==>
      forall page {:trigger tlb[page]} :: page in tlb && InWindow(page) ==> Walk(m, b, page) == Walk(m, a, page)
  {
    forall page | page in tlb && !InWindow(page) ensures Walk(m, b, page) == Walk(m, a, page) {
      RootsAgree(m, a, b, page);
    }
  }

  /** Two pages that do not overlap. */
  predicate PagesApart(a: int, b: int) { a + PAGE_SIZE <= b || b + PAGE_SIZE <= a }

  /** A page of RAM past the bootstrap directory. */
  predicate AboveRoot(a: int) { ROOT + PAGE_SIZE <= a <= PHYS_TOP - PAGE_SIZE }

  /** Physical addresses of the page-aligned static arrays of the test. */
  datatype Arrays = Arrays(rootB: int, tableA: int, tableB: int, pageA: int, pageB: int) {
    predicate Valid() {
      && Aligned() && AboveRoot(rootB) && AboveRoot(tableA) && AboveRoot(tableB) && AboveRoot(pageA) && AboveRoot(pageB)
      && PagesApart(rootB, tableA) && PagesApart(rootB, tableB) && PagesApart(rootB, pageA) && PagesApart(rootB, pageB)
      && PagesApart(tableA, tableB) && PagesApart(tableA, pageA) && PagesApart(tableA, pageB)
      && PagesApart(tableB, pageA) && PagesApart(tableB, pageB) && PagesApart(pageA, pageB)
    }

    predicate Aligned() {
      IsTableAddress(rootB) && IsTableAddress(tableA) && IsTableAddress(tableB) && IsTableAddress(pageA) && IsTableAddress(pageB)
    }
  }

  type ValidArrays = a: Arrays | a.Valid()
    witness Arrays(0x4004_0000, 0x4004_1000, 0x4004_2000, 0x4004_3000, 0x4004_4000)

  /** Both roots are in place: root b copies root a, and each maps the test page to its own page. */
  ghost predicate Prepared(m: Mem, s: ValidArrays) {
    && CopiedRoot(m, ROOT, s.rootB)
    && Entry(m, ROOT, TEST_SLOT) == s.tableA + PDE_VALID && Entry(m, s.rootB, TEST_SLOT) == s.tableB + PDE_VALID
    && Decode(Entry(m, s.tableA, 0)) == Some(Page(s.pageA, PAGE_FLAGS))
    && Decode(Entry(m, s.tableB, 0)) == Some(Page(s.pageB, PAGE_FLAGS))
    && Word(m, s.pageA) == PATTERN_A && Word(m, s.pageB) == PATTERN_B
  }

  lemma TestLoadValid()
    ensures Access(TEST_VADDR, 0, false).Valid()
  {
  }

  /** The test address reaches page a from root a and page b from root b. */
  lemma TestTranslations(m: Mem, s: ValidArrays)
    requires Prepared(m, s)
    ensures Walk(m, 0x4001_0000, 0x2000_0000) == Some(Page(s.pageA, 0x13))
    ensures Walk(m, s.rootB, 0x2000_0000) == Some(Page(s.pageB, 0x13))
  {
    TestTranslation(m, ROOT, s.tableA, s.pageA);
    TestTranslation(m, s.rootB, s.tableB, s.pageB);
  }

  lemma TestTranslation(m: Mem, root: int, table: int, page: int)
    requires IsTableAddress(root) && IsTableAddress(table) && IsTableAddress(page)
    requires Entry(m, root, TEST_SLOT) == table + PDE_VALID && Decode(Entry(m, table, 0)) == Some(Page(page, PAGE_FLAGS))
    ensures Walk(m, root, TEST_VADDR) == Some(Page(page, PAGE_FLAGS))
  {
    TestIndices(m, root);
    WalkThrough(m, root, TEST_SLOT, 0, table);
  }

  lemma TestIndices(m: Mem, root: int)
    requires IsTableAddress(root)
    ensures Walk(m, root, TEST_VADDR) == WalkAt(m, root, TEST_SLOT, 0)
  {
    TestSlot(TEST_VADDR);
    SlotIndices(m, root, TEST_VADDR);
  }

  lemma SlotIndices(m: Mem, root: int, va: u32)
    requires IsTableAddress(root) && va / 0x40_0000 == TEST_SLOT && va / PAGE_SIZE % 1024 == 0
    ensures Walk(m, root, va) == WalkAt(m, root, TEST_SLOT, 0)
  {
  }

  /** The hardware has recorded a use of the page that a table maps first. */
  predicate Accessed(m: Mem, table: int)
    requires IsWordAddress(table)
  {
    And(Word(m, table), PTE_ACCESSED) != 0
  }

  lemma EntryAddress(m: Mem, root: int, va: u32, k: int, e: int, table: int)
    requires IsTableAddress(root) && IsTableAddress(table) && 0 <= k < 1024
    requires k == va / 0x40_0000 && e == va / PAGE_SIZE % 1024 && Entry(m, root, k) == table + PDE_VALID
    ensures PteAddress(m, root, va) == table + 4 * e
  {
    SplitPage(table, PDE_VALID);
  }

  lemma WalkIsMark(m: Mem, m': Mem, root: int, table: int, va: u32)
    requires IsTableAddress(root) && IsTableAddress(table) && Entry(m, root, TEST_SLOT) == table + PDE_VALID
    requires va / 0x40_0000 == TEST_SLOT && va / PAGE_SIZE % 1024 == 0
    requires Walk(m, root, va).Some? && m' == MarkWalk(m, root, va, false)
    ensures m' == MarkUsed(m, table, false)
  {
    EntryAddress(m, root, va, TEST_SLOT, 0, table);
  }

  lemma MarkedTable(m: Mem, m': Mem, s: ValidArrays, table: int)
    requires Prepared(m, s) && (table == s.tableA || table == s.tableB) && m' == MarkUsed(m, table, false)
    ensures Prepared(m', s) && Accessed(m', table)
    ensures (Accessed(m, s.tableA) ==> Accessed(m', s.tableA)) && (Accessed(m, s.tableB) ==> Accessed(m', s.tableB))
  {
    MarkKeepsDecodes(m, table, 0, false);
    UseIsRecorded(Word(m, table), false);
    MarkedPrepared(m, m', s, table);
  }

  /**
   * A load of the test address from either root, which walks unless the translation is cached: the
   * walk is recorded in that root's table and changes nothing prepared.
   */
  lemma LoadKeepsPrepared(m: Mem, m': Mem, s: ValidArrays, root: int, table: int, cached: bool, va: u32)
    requires Prepared(m, s) && va == TEST_VADDR
    requires (root == ROOT && table == s.tableA) || (root == s.rootB && table == s.tableB)
    requires m' == if cached then m else MarkWalk(m, root, va, false)
    ensures Prepared(m', s) && (cached || Accessed(m', table))
    ensures (Accessed(m, s.tableA) ==> Accessed(m', s.tableA)) && (Accessed(m, s.tableB) ==> Accessed(m', s.tableB))
  {
    if !cached {
      TestTranslations(m, s);
      TestSlot(va);
      WalkIsMark(m, m', root, table, va);
      MarkedTable(m, m', s, table);
    }
  }

  /** A permitted load through the cached translation or else a walk. */
  lemma LoadResult(g: Registers, m: Mem, tlb: map<u32, Translation>, x: Attempt, root: int, va: u32, t: Translation)
    requires IsTableAddress(root) && va == TEST_VADDR && !FromUser(g) && x == Execute(g, m, root, tlb, Access(va, 0, false))
    requires if va in tlb then tlb[va] == t else Walk(m, root, va) == Some(t)
    requires t.flags == PAGE_FLAGS && FaultRepair.InRam(t.frame)
    ensures x.Done? && x.m == if va in tlb then m else MarkWalk(m, root, va, false)
    ensures x.g.r[0] == Word(x.m, t.frame) && x.g.cpsr == g.cpsr && x.tlb == tlb[va := t]
  {
    TestSlot(va);
    PageLoad(g, m, tlb, x, root, Access(va, 0, false), t);
  }

  /** A permitted load from the start of a page. */
  lemma PageLoad(g: Registers, m: Mem, tlb: map<u32, Translation>, x: Attempt, root: int, a: Access, t: Translation)
    requires IsTableAddress(root) && a.Valid() && !a.write && PageOf(a.va) == a.va && x == Execute(g, m, root, tlb, a)
    requires Translate(m, root, tlb, a.va) == Some(t) && Permits(t, FromUser(g), false) && FaultRepair.InRam(t.frame)
    ensures x.Done? && x.m == if a.va in tlb then m else MarkWalk(m, root, a.va, false)
    ensures x.g == g.(pc := Add32(g.pc, 4), r := g.r[a.reg := Word(x.m, t.frame)]) && x.tlb == tlb[a.va := t]
  {
    assert x == Completed(g, m, root, tlb, t, a);
  }

  lemma MarkedPrepared(m: Mem, m': Mem, s: ValidArrays, table: int)
    requires Prepared(m, s) && (table == s.tableA || table == s.tableB)
    requires SameDecodes(m, m') && SameBut(m, m', table, table + PAGE_SIZE)
    ensures Prepared(m', s) && Word(m', if table == s.tableA then s.tableB else s.tableA) == Word(m, if table == s.tableA then s.tableB else s.tableA)
  {
    TableKept(m, m', ROOT, 1024);
    TableKept(m, m', s.rootB, 1024);
    assert Decode(Entry(m', s.tableA, 0)) == Decode(Entry(m, s.tableA, 0));
    assert Decode(Entry(m', s.tableB, 0)) == Decode(Entry(m, s.tableB, 0));
    WordKept(m, m', s.pageA);
    WordKept(m, m', s.pageB);
    WordKept(m, m', if table == s.tableA then s.tableB else s.tableA);
  }

  function PatternsSet(m: Mem, s: ValidArrays): Mem {
    PutWord(PutWord(m, s.pageA, PATTERN_A), s.pageB, PATTERN_B)
  }

  function TablesSet(m: Mem, s: ValidArrays): Mem {
    PutWord(PutWord(m, s.tableA, s.pageA + PAGE_FLAGS), s.tableB, s.pageB + PAGE_FLAGS)
  }

  function PagesFilled(m: Mem, s: ValidArrays): Mem { TablesSet(PatternsSet(m, s), s) }

  function RootsFilled(m: Mem, s: ValidArrays): Mem {
    PutWord(PutWord(m, ROOT + 4 * TEST_SLOT, s.tableA + PDE_VALID), s.rootB + 4 * TEST_SLOT, s.tableB + PDE_VALID)
  }

  class Cpu {
    const machine: Machine
    const arrays: ValidArrays
    var ttbr: int
    var trace: seq<u32>

    predicate Valid()
      reads this, machine
    {
      machine.Valid() && IsTableAddress(ttbr) && !FromUser(machine.g)
    }

    constructor (machine: Machine, arrays: ValidArrays)
      requires machine.Valid() && !FromUser(machine.g)
      ensures Valid() && this.machine == machine && this.arrays == arrays && ttbr == ROOT && trace == []
    {
      this.machine := machine;
      this.arrays := arrays;
      ttbr := ROOT;
      trace := [];
    }

    method Require(condition: bool, code: u32)
      requires code < 0x1000_0000
      modifies this`trace
      ensures trace == if condition then old(trace) else old(trace) + [0xf000_0000 + code]
    {
      if !condition {
        trace := trace + [0xf000_0000 + code];
      }
    }

    /** `MINEMU_REQUIRE(*test == expected, code)`, which passes when t is the cached or else the walked translation. */
    method Expect(expected: u32, code: u32, ghost t: Translation) returns (v: u32)
      requires Valid() && code < 0x1000_0000
      requires Prepared(machine.mem[..], arrays) && (ttbr == ROOT || ttbr == arrays.rootB)
      requires if TEST_VADDR in machine.tlb then machine.tlb[TEST_VADDR] == t else Walk(machine.mem[..], ttbr, TEST_VADDR) == Some(t)
      requires t.flags == PAGE_FLAGS
      requires (t.frame == arrays.pageA && expected == PATTERN_A) || (t.frame == arrays.pageB && expected == PATTERN_B)
      modifies machine`g, machine`tlb, this`trace, machine.mem
      ensures Valid() && machine.tlb == old(machine.tlb)[TEST_VADDR := t] && trace == old(trace) && Prepared(machine.mem[..], arrays)
      ensures v == expected
      ensures TEST_VADDR !in old(machine.tlb) ==> Accessed(machine.mem[..], if ttbr == ROOT then arrays.tableA else arrays.tableB)
      ensures Accessed(old(machine.mem[..]), arrays.tableA) ==> Accessed(machine.mem[..], arrays.tableA)
      ensures Accessed(old(machine.mem[..]), arrays.tableB) ==> Accessed(machine.mem[..], arrays.tableB)
    {
      ghost var g, m: Mem, tlb := machine.g, machine.mem[..], machine.tlb;
      TestLoadValid();
      var x := Attempted(machine, ttbr, Access(TEST_VADDR, 0, false));
      LoadResult(g, m, tlb, x, ttbr, TEST_VADDR, t);
      LoadKeepsPrepared(m, machine.mem[..], arrays, ttbr, if ttbr == ROOT then arrays.tableA else arrays.tableB,
                        TEST_VADDR in tlb, TEST_VADDR);
      v := machine.g.r[0];
      Require(x.Done? && v == expected, code);
    }

    /** The test's setup: copies the root, clears the two tables, fills in pages, tables and roots. */
    method Prepare()
      requires Valid()
      modifies machine.mem
      ensures Valid() && Prepared(machine.mem[..], arrays)
      ensures forall k {:trigger Entry(machine.mem[..], ROOT, k)} :: 0 <= k < 1024 && k != TEST_SLOT ==>
        Entry(machine.mem[..], ROOT, k) == Entry(old(machine.mem[..]), ROOT, k)
    {
      ghost var m0: Mem := machine.mem[..];
      CopyRoot();
      ghost var m1: Mem := machine.mem[..];
      FillPages();
      ghost var m2: Mem := machine.mem[..];
      FillRoots();
      PreparedAfter(m0, m1, m2, machine.mem[..], arrays);
    }

    method FillPages()
      requires Valid()
      modifies machine.mem
      ensures Valid() && machine.mem[..] == PagesFilled(old(machine.mem[..]), arrays)
    {
      SetPatterns();
      SetTables();
    }

    method SetTables()
      requires Valid()
      modifies machine.mem
      ensures Valid() && machine.mem[..] == TablesSet(old(machine.mem[..]), arrays)
    {
      var pteA := PteOf(arrays.pageA);
      var pteB := PteOf(arrays.pageB);
      WriteTwo(arrays.tableA, pteA, arrays.tableB, pteB);
    }

    method SetPatterns()
      requires Valid()
      modifies machine.mem
      ensures Valid() && machine.mem[..] == PatternsSet(old(machine.mem[..]), arrays)
    {
      WriteTwo(arrays.pageA, PATTERN_A, arrays.pageB, PATTERN_B);
    }

    method WriteTwo(a: int, v: u32, b: int, w: u32)
      requires Valid() && IsWordAddress(a) && IsWordAddress(b)
      modifies machine.mem
      ensures machine.mem[..] == PutWord(PutWord(old(machine.mem[..]), a, v), b, w)
    {
      WriteWord(machine.mem, a, v);
      WriteWord(machine.mem, b, w);
    }

    method FillRoots()
      requires Valid()
      modifies machine.mem
      ensures Valid() && machine.mem[..] == RootsFilled(old(machine.mem[..]), arrays)
    {
      var pdeA := PdeOf(arrays.tableA);
      var pdeB := PdeOf(arrays.tableB);
      WriteTwo(ROOT + 4 * TEST_SLOT, pdeA, arrays.rootB + 4 * TEST_SLOT, pdeB);
    }

    /** `root_b[i] = root_a[i]`, on memory that started out as m0. */
    method CopyEntry(ghost m0: Mem, rootA: int, i: nat)
      requires Valid() && i < 1024 && rootA == ROOT && SameOn(m0, machine.mem[..], rootA, rootA + PAGE_SIZE)
      requires CopiedBelow(m0, machine.mem[..], rootA, arrays.rootB, i)
      modifies machine.mem
      ensures SameOn(m0, machine.mem[..], rootA, rootA + PAGE_SIZE) && CopiedBelow(m0, machine.mem[..], rootA, arrays.rootB, i + 1)
    {
      ghost var m1: Mem := machine.mem[..];
      var w := ReadWord(machine.mem, rootA + 4 * i);
      WriteWord(machine.mem, arrays.rootB + 4 * i, w);
      EntryCopied(m0, m1, machine.mem[..], rootA, arrays.rootB, i, w);
    }

    /** `table[i] = 0`, for a table apart from both roots. */
    method ClearEntry(ghost m0: Mem, rootA: int, table: int, i: nat, clear: u32)
      requires Valid() && i < 1024 && rootA == ROOT && SameOn(m0, machine.mem[..], rootA, rootA + PAGE_SIZE)
      requires AboveRoot(table) && PagesApart(arrays.rootB, table)
      requires CopiedBelow(m0, machine.mem[..], rootA, arrays.rootB, i + 1)
      modifies machine.mem
      ensures SameOn(m0, machine.mem[..], rootA, rootA + PAGE_SIZE) && CopiedBelow(m0, machine.mem[..], rootA, arrays.rootB, i + 1)
    {
      ghost var m1: Mem := machine.mem[..];
      WriteWord(machine.mem, table + 4 * i, clear);
      EntryCleared(m0, m1, machine.mem[..], rootA, arrays.rootB, table, i, clear);
    }

    method CopyRoot()
      requires Valid()
      modifies machine.mem
      ensures Valid()
      ensures forall k {:trigger Entry(machine.mem[..], arrays.rootB, k)} :: 0 <= k < 1024 ==>
        Entry(machine.mem[..], arrays.rootB, k) == Entry(old(machine.mem[..]), ROOT, k)
      ensures SameOn(old(machine.mem[..]), machine.mem[..], ROOT, ROOT + PAGE_SIZE)
    {
      ghost var m0: Mem := machine.mem[..];
      var i := 0;
      while i < 1024
        invariant 0 <= i <= 1024 && Valid()
        invariant CopiedBelow(m0, machine.mem[..], ROOT, arrays.rootB, i)
        invariant SameOn(m0, machine.mem[..], ROOT, ROOT + PAGE_SIZE)
      {
        CopyEntry(m0, ROOT, i);
        ClearEntry(m0, ROOT, arrays.tableA, i, 0);
        ClearEntry(m0, ROOT, arrays.tableB, i, 0);
        i := i + 1;
      }
    }

    /** minemu_kernel_main of the test: no requirement fails and the success event is the only trace. */
    method Run() returns (seen: seq<u32>)
      requires Valid() && ttbr == ROOT && trace == []
      modifies machine.mem, this`ttbr, machine`g, machine`tlb, this`trace
      ensures Valid() && trace == [0x2004_0001] && Prepared(machine.mem[..], arrays)
      ensures seen == [0xaaaa_aaaa, 0xaaaa_aaaa, 0xbbbb_bbbb, 0xaaaa_aaaa]
      ensures ttbr == ROOT && Coherent(machine.mem[..], ROOT, machine.tlb)
      ensures Accessed(machine.mem[..], arrays.tableA) && Accessed(machine.mem[..], arrays.tableB)
    {
      Prepare();
      seen := Observe();
      TestTranslations(machine.mem[..], arrays);
      trace := trace + [SUCCESS];
    }

    /** The four loads of the test, with the root switched twice and the TLB emptied three times. */
    method Observe() returns (seen: seq<u32>)
      requires Valid() && ttbr == ROOT && Prepared(machine.mem[..], arrays)
      modifies machine.mem, this`ttbr, machine`g, machine`tlb, this`trace
      ensures Valid() && trace == old(trace) && Prepared(machine.mem[..], arrays)
      ensures seen == [PATTERN_A, PATTERN_A, PATTERN_B, PATTERN_A]
      ensures ttbr == ROOT && machine.tlb == map[TEST_VADDR := Page(arrays.pageA, PAGE_FLAGS)]
      ensures Accessed(machine.mem[..], arrays.tableA) && Accessed(machine.mem[..], arrays.tableB)
    {
      ghost var a, b := Page(arrays.pageA, PAGE_FLAGS), Page(arrays.pageB, PAGE_FLAGS);
      TestTranslations(machine.mem[..], arrays);
      machine.tlb := map[];
      var v1 := Expect(PATTERN_A, 1, a);
      ttbr := arrays.rootB;
      var v2 := Expect(PATTERN_A, 2, a);
      machine.tlb := map[];
      TestTranslations(machine.mem[..], arrays);
      var v3 := Expect(PATTERN_B, 3, b);
      ttbr := ROOT;
      machine.tlb := map[];
      TestTranslations(machine.mem[..], arrays);
      var v4 := Expect(PATTERN_A, 4, a);
      seen := [v1, v2, v3, v4];
    }
  }

  /** `paddr | VALID | READABLE | WRITABLE`. */
  method PteOf(page: nat) returns (pte: nat)
    requires page % PAGE_SIZE == 0
    ensures pte == page + PAGE_FLAGS
  {
    OrPage(page, PAGE_FLAGS);
    pte := Or(page, PAGE_FLAGS);
  }

  ghost predicate CopiedBelow(m0: Mem, m: Mem, rootA: int, rootB: int, n: nat)
    requires 0 <= rootA && rootA + 4 * n <= PHYS_TOP && 0 <= rootB && rootB + 4 * n <= PHYS_TOP
  {
    forall k {:trigger Entry(m, rootB, k)} :: 0 <= k < n ==> Entry(m, rootB, k) == Entry(m0, rootA, k)
  }

  /** The copied entries grow by one, and the original root stays as it was. */
  lemma EntryCopied(m0: Mem, m1: Mem, m2: Mem, rootA: int, rootB: int, i: nat, w: u32)
    requires i < 1024 && 0 <= rootA <= PHYS_TOP - PAGE_SIZE && 0 <= rootB <= PHYS_TOP - PAGE_SIZE && PagesApart(rootA, rootB)
    requires SameOn(m0, m1, rootA, rootA + PAGE_SIZE) && CopiedBelow(m0, m1, rootA, rootB, i)
    requires w == Entry(m1, rootA, i) && m2 == PutWord(m1, rootB + 4 * i, w)
    ensures SameOn(m0, m2, rootA, rootA + PAGE_SIZE) && CopiedBelow(m0, m2, rootA, rootB, i + 1)
  {
    WordKept(m0, m1, rootA + 4 * i);
    PutOutside(m1, rootB + 4 * i, w, rootA, rootA + PAGE_SIZE);
    PutOutside(m1, rootB + 4 * i, w, rootB, rootB + 4 * i);
    TableKept(m1, m2, rootB, i);
  }

  lemma EntryCleared(m0: Mem, m1: Mem, m2: Mem, rootA: int, rootB: int, table: int, i: nat, clear: u32)
    requires i < 1024 && 0 <= rootA <= PHYS_TOP - PAGE_SIZE && 0 <= rootB <= PHYS_TOP - PAGE_SIZE
    requires 0 <= table <= PHYS_TOP - PAGE_SIZE && PagesApart(rootA, table) && PagesApart(rootB, table)
    requires SameOn(m0, m1, rootA, rootA + PAGE_SIZE) && CopiedBelow(m0, m1, rootA, rootB, i + 1)
    requires m2 == PutWord(m1, table + 4 * i, clear)
    ensures SameOn(m0, m2, rootA, rootA + PAGE_SIZE) && CopiedBelow(m0, m2, rootA, rootB, i + 1)
  {
    PutOutside(m1, table + 4 * i, clear, rootA, rootA + PAGE_SIZE);
    PutOutside(m1, table + 4 * i, clear, rootB, rootB + 4 * i + 4);
    TableKept(m1, m2, rootB, i + 1);
  }

  lemma PagesFilledRead(m: Mem, s: ValidArrays)
    ensures var m' := PagesFilled(m, s);
      && Word(m', s.pageA) == PATTERN_A && Word(m', s.pageB) == PATTERN_B
      && Entry(m', s.tableA, 0) == s.pageA + PAGE_FLAGS && Entry(m', s.tableB, 0) == s.pageB + PAGE_FLAGS
  {
  }

  lemma PagesFilledElsewhere(m: Mem, s: ValidArrays, page: int)
    requires 0 <= page && PagesApart(page, s.pageA) && PagesApart(page, s.pageB)
    requires PagesApart(page, s.tableA) && PagesApart(page, s.tableB)
    ensures SameOn(m, PagesFilled(m, s), page, page + PAGE_SIZE)
  {
  }

  lemma RootsFilledRead(m: Mem, s: ValidArrays)
    ensures var m' := RootsFilled(m, s);
      && Entry(m', ROOT, TEST_SLOT) == s.tableA + PDE_VALID && Entry(m', s.rootB, TEST_SLOT) == s.tableB + PDE_VALID
      && Word(m', s.pageA) == Word(m, s.pageA) && Word(m', s.pageB) == Word(m, s.pageB)
      && Entry(m', s.tableA, 0) == Entry(m, s.tableA, 0) && Entry(m', s.tableB, 0) == Entry(m, s.tableB, 0)
  {
  }

  /** Only the test slot of each root changes when the roots are filled in. */
  lemma RootsFilledElsewhere(m: Mem, s: ValidArrays, k: int)
    requires 0 <= k < 1024 && k != TEST_SLOT
    ensures Entry(RootsFilled(m, s), ROOT, k) == Entry(m, ROOT, k)
    ensures Entry(RootsFilled(m, s), s.rootB, k) == Entry(m, s.rootB, k)
  {
  }

  lemma PreparedAfter(m0: Mem, m1: Mem, m2: Mem, m3: Mem, s: ValidArrays)
    requires forall k {:trigger Entry(m1, s.rootB, k)} :: 0 <= k < 1024 ==> Entry(m1, s.rootB, k) == Entry(m0, ROOT, k)
    requires SameOn(m0, m1, ROOT, ROOT + PAGE_SIZE) && m2 == PagesFilled(m1, s) && m3 == RootsFilled(m2, s)
    ensures Prepared(m3, s)
    ensures forall k {:trigger Entry(m3, ROOT, k)} :: 0 <= k < 1024 && k != TEST_SLOT ==>
      Entry(m3, ROOT, k) == Entry(m0, ROOT, k)
  {
    MappedAfter(m1, m2, m3, s);
    PagesFilledElsewhere(m1, s, ROOT);
    PagesFilledElsewhere(m1, s, s.rootB);
    TableKept(m0, m1, ROOT, 1024);
    TableKept(m1, m2, ROOT, 1024);
    TableKept(m1, m2, s.rootB, 1024);
    forall k | 0 <= k < 1024 && k != TEST_SLOT
      ensures Entry(m3, ROOT, k) == Entry(m0, ROOT, k) && Entry(m3, s.rootB, k) == Entry(m0, ROOT, k)
    {
      RootsFilledElsewhere(m2, s, k);
    }
  }

  lemma MappedAfter(m1: Mem, m2: Mem, m3: Mem, s: ValidArrays)
    requires m2 == PagesFilled(m1, s) && m3 == RootsFilled(m2, s)
    ensures Entry(m3, ROOT, TEST_SLOT) == s.tableA + PDE_VALID && Entry(m3, s.rootB, TEST_SLOT) == s.tableB + PDE_VALID
    ensures Decode(Entry(m3, s.tableA, 0)) == Some(Page(s.pageA, PAGE_FLAGS))
    ensures Decode(Entry(m3, s.tableB, 0)) == Some(Page(s.pageB, PAGE_FLAGS))
    ensures Word(m3, s.pageA) == PATTERN_A && Word(m3, s.pageB) == PATTERN_B
  {
    PagesFilledRead(m1, s);
    RootsFilledRead(m2, s);
    DecodePage(s.pageA, PAGE_FLAGS);
    DecodePage(s.pageB, PAGE_FLAGS);
  }
}
