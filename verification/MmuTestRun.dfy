/** The whole MMU test: its accesses through the MMU, its three staged aborts, and what it requires of the entry. */
module MmuTestRun {
  import opened Bits
  import opened Memory
  import opened Mmu
  import opened Bootstrap
  import opened Trap
  import opened PageUse
  import opened FaultRepair
  import opened TestPage
  import opened MmuTest

  /**
   * Physical addresses of the test's table and page, and the bytes it does not look at: the frame
   * that an abort saves, and the test's scratch bytes.
   */
  datatype Place = Place(table: int, page: int, aside: set<int>) {
    ghost predicate Valid() {
      && IsTableAddress(table) && IsTableAddress(page)
      && ROOT + PAGE_SIZE <= table && ROOT + PAGE_SIZE <= page
      && (table + PAGE_SIZE <= page || page + PAGE_SIZE <= table)
      && ClearOf(aside, ROOT) && ClearOf(aside, table) && ClearOf(aside, page)
      && forall i {:trigger i in aside} :: i in aside ==> RAM_BASE <= i
    }
  }

  predicate Mapped(m: Mem, pl: Place) {
    Entry(m, ROOT, TEST_SLOT) == pl.table + PDE_VALID
  }

  ghost predicate Ready(test: Test, pl: Place)
    reads test, test.machine, test.machine.mem
  {
    Placed(test, pl) && Mapped(test.machine.mem[..], pl)
  }

  ghost predicate Placed(test: Test, pl: Place)
    reads test, test.machine
  {
    && test.Valid() && pl.Valid() && pl.table == test.table
    && StackOk(test.machine.g.sp.abt) && !FromUser(test.machine.g)
    && var p := KernelPhysical(test.machine.g.sp.abt - FRAME_SIZE);
       NotInFrame(test.scratch, p) && pl.aside == FrameBytes(p) + test.scratch
  }

  lemma TestWalk(m: Mem, pl: Place, va: u32)
    requires pl.Valid() && Mapped(m, pl) && va == TEST_VADDR
    ensures Walk(m, ROOT, va) == Decode(Word(m, pl.table)) && PteAddress(m, ROOT, va) == pl.table && PageOf(va) == va
  {
    TestSlot(va);
    SlotWalk(m, pl, va);
  }

  lemma SlotWalk(m: Mem, pl: Place, va: u32)
    requires pl.Valid() && Mapped(m, pl) && va / 0x40_0000 == TEST_SLOT && va / PAGE_SIZE % 1024 == 0
    ensures Walk(m, ROOT, va) == Decode(Word(m, pl.table)) && PteAddress(m, ROOT, va) == pl.table
  {
    WalkThrough(m, ROOT, TEST_SLOT, 0, pl.table);
    SplitPage(pl.table, PDE_VALID);
  }

  /** The translation t lets the kernel make access a to the test page. */
  predicate Grants(t: Option<Translation>, pl: Place, write: bool) {
    t.Some? && t.value.frame == pl.page && Permits(t.value, false, write)
  }

  /** What an access to the test page by program g does, with pte the entry its walk finds. */
  ghost predicate AccessDone(pl: Place, g: Registers, m: Mem, g': Registers, m': Mem, a: Access, pte: u32)
    requires pl.Valid() && a.Valid()
  {
    && Mapped(m', pl) && Word(m', pl.table) == UsedPte(pte, a.write)
    && Word(m', pl.page) == (if a.write then g.r[a.reg] else Word(m, pl.page))
    && g'.r == (if a.write then g.r else g.r[a.reg := Word(m, pl.page)])
    && g'.sp.abt == g.sp.abt && g'.cpsr == g.cpsr
  }

  lemma DirectAccess(g: Registers, m: Mem, tlb: map<u32, Translation>, x: Attempt, pl: Place, a: Access)
    requires pl.Valid() && Mapped(m, pl) && a.Valid() && a.va == TEST_VADDR && !FromUser(g)
    requires Grants(Decode(Word(m, pl.table)), pl, a.write) && TEST_VADDR !in tlb && x == Execute(g, m, ROOT, tlb, a)
    ensures x.Done? && AccessDone(pl, g, m, x.g, x.m, a, Word(m, pl.table))
  {
    TestWalk(m, pl, a.va);
    var m1 := MarkUsed(m, pl.table, a.write);
    PermittedAccess(g, m, tlb, m1, x, pl, a, Decode(Word(m, pl.table)).value);
    MarkedWords(m, m1, x.m, pl, a, g);
  }

  lemma PermittedAccess(g: Registers, m: Mem, tlb: map<u32, Translation>, m1: Mem, x: Attempt, pl: Place, a: Access, t: Translation)
    requires a.Valid() && PageOf(a.va) !in tlb && x == Execute(g, m, ROOT, tlb, a)
    requires Walk(m, ROOT, a.va) == Some(t) && InRam(t.frame) && Target(t, a.va) == pl.page && Permits(t, FromUser(g), a.write)
    requires m1 == MarkWalk(m, ROOT, a.va, a.write)
    ensures x.Done? && x.g == Transfer(g, m1, pl.page, a).0 && x.m == Transfer(g, m1, pl.page, a).1
  {
    assert x == Completed(g, m, ROOT, tlb, t, a);
  }

  lemma MarkedWords(m: Mem, m1: Mem, m2: Mem, pl: Place, a: Access, g: Registers)
    requires pl.Valid() && Mapped(m, pl) && a.Valid() && m1 == MarkUsed(m, pl.table, a.write)
    requires m2 == if a.write then PutWord(m1, pl.page, g.r[a.reg]) else m1
    ensures Mapped(m2, pl) && Word(m2, pl.table) == UsedPte(Word(m, pl.table), a.write)
    ensures Word(m1, pl.page) == Word(m, pl.page)
    ensures Word(m2, pl.page) == if a.write then g.r[a.reg] else Word(m, pl.page)
  {
  }

  /** A retry that ends like the access done at once has done it. */
  lemma SameAccess(pl: Place, g: Registers, m: Mem, x: Attempt, y: Attempt, a: Access, pte: u32)
    requires pl.Valid() && a.Valid() && x.Done? && AccessDone(pl, g, m, x.g, x.m, a, pte) && SameOutcome(x, y, a.va, pl.aside)
    ensures y.Done? && AccessDone(pl, g, m, y.g, y.m, a, pte)
  {
    WordKept(x.m, y.m, ROOT + 4 * TEST_SLOT);
    WordKept(x.m, y.m, pl.table);
    WordKept(x.m, y.m, pl.page);
  }

  /** The access is granted at once (stage 0), or refused at first and granted by the repair of its stage. */
  predicate Allowed(pl: Place, stage: u32, pte: u32, a: Access) {
    && (stage == 0 || stage == 1 || stage == 2)
    && Grants(Decode(Repaired(stage, pte)), pl, a.write)
    && (stage != 0 ==>
          && (a.write <==> stage == 2) && And(pte, USED_BITS) == 0
          && Decode(pte).Some? && !Permits(Decode(pte).value, false, a.write))
  }

  lemma RefusedStatus(g: Registers, m: Mem, tlb: map<u32, Translation>, pl: Place, a: Access, stage: u32)
    requires pl.Valid() && Mapped(m, pl) && a.Valid() && a.va == TEST_VADDR && !FromUser(g)
    requires stage != 0 && Allowed(pl, stage, Word(m, pl.table), a) && TEST_VADDR !in tlb
    ensures Execute(g, m, ROOT, tlb, a) == Fault(if a.write then 0x203 else 2)
    ensures Expected(stage, a.va, if a.write then 0x203 else 2, Word(m, pl.table))
  {
    TestWalk(m, pl, a.va);
  }

  /** The abort frame is clear of everything the retried access uses. */
  lemma FrameClear(m: Mem, pl: Place, va: u32, pte: u32, write: bool)
    requires pl.Valid() && Mapped(m, pl) && va == TEST_VADDR && Grants(Decode(pte), pl, write)
    ensures Unused(PutWord(m, pl.table, pte), ROOT, va, pl.aside) && Mapped(PutWord(m, pl.table, pte), pl)
  {
    var m' := PutWord(m, pl.table, pte);
    WordKept(m, m', ROOT + 4 * TEST_SLOT);
    TestWalk(m', pl, va);
    TestSlot(va);
    SplitPage(pl.table, PDE_VALID);
  }

  /** One access of the test to its page, aborted and retried if a stage is set. */
  method Perform(test: Test, ghost pl: Place, a: Access)
    requires Ready(test, pl) && a.Valid() && a.va == TEST_VADDR && TEST_VADDR !in test.machine.tlb
    requires Allowed(pl, test.faultStage, Word(test.machine.mem[..], pl.table), a)
    modifies test`faultStage, test`trace, test.machine`g, test.machine`tlb, test.machine.mem
    ensures Ready(test, pl) && test.faultStage == 0 && test.trace == old(test.trace)
    ensures AccessDone(pl, old(test.machine.g), old(test.machine.mem[..]), test.machine.g, test.machine.mem[..], a,
                       Repaired(old(test.faultStage), Word(old(test.machine.mem[..]), pl.table)))
  {
    var status := First(test, pl, a);
    if status.Some? {
      Retry(test, pl, a, status.value);
    }
  }

  /** The first attempt: it completes in stage 0, and aborts as expected, with nothing done, in the others. */
  method First(test: Test, ghost pl: Place, a: Access) returns (status: Option<u32>)
    requires Ready(test, pl) && a.Valid() && a.va == TEST_VADDR && TEST_VADDR !in test.machine.tlb
    requires Allowed(pl, test.faultStage, Word(test.machine.mem[..], pl.table), a)
    modifies test.machine`g, test.machine`tlb, test.machine.mem
    ensures Ready(test, pl) && (status.None? <==> test.faultStage == 0)
    ensures status.None? ==>
      AccessDone(pl, old(test.machine.g), old(test.machine.mem[..]), test.machine.g, test.machine.mem[..], a,
                 Repaired(test.faultStage, Word(old(test.machine.mem[..]), pl.table)))
    ensures status.Some? ==> test.machine.g == old(test.machine.g) && test.machine.mem[..] == old(test.machine.mem[..])
    ensures status.Some? ==> Expected(test.faultStage, a.va, status.value, Word(test.machine.mem[..], pl.table))
  {
    ghost var g, m: Mem, tlb := test.machine.g, test.machine.mem[..], test.machine.tlb;
    var x := Attempted(test.machine, ROOT, a);
    FirstAttempt(g, m, tlb, x, pl, a, test.faultStage);
    return if x.Fault? then Some(x.dfsr) else None;
  }

  lemma FirstAttempt(g: Registers, m: Mem, tlb: map<u32, Translation>, x: Attempt, pl: Place, a: Access, stage: u32)
    requires pl.Valid() && Mapped(m, pl) && a.Valid() && a.va == TEST_VADDR && !FromUser(g)
    requires Allowed(pl, stage, Word(m, pl.table), a) && TEST_VADDR !in tlb && x == Execute(g, m, ROOT, tlb, a)
    ensures
      if stage == 0 then x.Done? && AccessDone(pl, g, m, x.g, x.m, a, Repaired(stage, Word(m, pl.table)))
      else x.Fault? && Expected(stage, a.va, x.dfsr, Word(m, pl.table))
  {
    if stage == 0 {
      DirectAccess(g, m, tlb, x, pl, a);
    } else {
      RefusedStatus(g, m, tlb, pl, a, stage);
    }
  }

  /** The abort of a refused access, its repair, and the second attempt. */
  method Retry(test: Test, ghost pl: Place, a: Access, status: u32)
    requires Ready(test, pl) && a.Valid() && a.va == TEST_VADDR && test.faultStage != 0
    requires Allowed(pl, test.faultStage, Word(test.machine.mem[..], pl.table), a)
    requires Expected(test.faultStage, a.va, status, Word(test.machine.mem[..], pl.table))
    modifies test`faultStage, test`trace, test.machine`g, test.machine`tlb, test.machine.mem
    ensures Ready(test, pl) && test.faultStage == 0 && test.trace == old(test.trace)
    ensures AccessDone(pl, old(test.machine.g), old(test.machine.mem[..]), test.machine.g, test.machine.mem[..], a,
                       Repaired(old(test.faultStage), Word(old(test.machine.mem[..]), pl.table)))
  {
    ghost var g, m: Mem := test.machine.g, test.machine.mem[..];
    ghost var pte := Repaired(test.faultStage, Word(m, pl.table));
    ghost var m1 := PutWord(m, pl.table, pte);
    ghost var once := RepairedAccess(g, m, m1, pl, a, pte);
    var ok, p := test.DataAbort(a, status);
    var x := Attempted(test.machine, ROOT, a);
    SameAccess(pl, g, m, once, x, a, pte);
  }

  /** The access done once in repaired memory m1, which the abort frame is clear of. */
  lemma RepairedAccess(g: Registers, m: Mem, m1: Mem, pl: Place, a: Access, pte: u32) returns (x: Attempt)
    requires pl.Valid() && Mapped(m, pl) && a.Valid() && a.va == TEST_VADDR && !FromUser(g)
    requires Grants(Decode(pte), pl, a.write) && m1 == PutWord(m, pl.table, pte)
    ensures x == Execute(g, m1, ROOT, map[], a) && x.Done? && AccessDone(pl, g, m, x.g, x.m, a, pte)
    ensures Unused(m1, ROOT, a.va, pl.aside)
  {
    FrameClear(m, pl, a.va, pte, a.write);
    x := Execute(g, m1, ROOT, map[], a);
    DirectAccess(g, m1, map[], x, pl, a);
  }

  /** An entry for the test page with low bits c. */
  lemma EntryDecodes(page: int, c: int)
    requires IsTableAddress(page) && 0 <= c < 4096 && c % 2 == 1
    ensures Decode(page + c) == Some(Page(page, c % 32))
  {
    Remainder4096(page / 4096, c);
    PageMask(page + c);
    LowBits(page + c);
    LowRemainders(page / 4096, c);
  }

  lemma LowRemainders(q: int, c: int)
    requires 0 <= c < 4096
    ensures (4096 * q + c) % 32 == c % 32 && (4096 * q + c) % 2 == c % 2
  {
    assert 4096 * q + c == 32 * (128 * q + c / 32) + c % 32;
    Remainder32(128 * q + c / 32, c % 32);
    assert 4096 * q + c == 2 * (2048 * q + c / 2) + c % 2;
    Remainder2(2048 * q + c / 2, c % 2);
  }

  /** What a store leaves under a mask of the entry. */
  lemma StoredMask(pte: u32, a: nat, d: nat, mask: nat)
    requires a == PTE_ACCESSED && d == PTE_DIRTY
    ensures And(UsedPte(pte, true), mask) == Or(Or(And(pte, mask), And(a, mask)), And(d, mask))
  {
    AndOverOr(Or(pte, a), d, mask);
    AndOverOr(pte, a, mask);
  }

  /** `table[0] & ~(ACCESSED | DIRTY)` forgets the use and nothing else. */
  lemma UseForgotten(x: u32)
    ensures var y := And(x, NOT_USED_BITS);
      y < 0x1_0000_0000 && And(y, USED_BITS) == 0 && And(y, PTE_DIRTY) == 0 && Decode(y) == Decode(x)
  {
    ForgottenMasks(NOT_USED_BITS);
    AndAtMost(x, NOT_USED_BITS);
    AndAnd(x, NOT_USED_BITS, USED_BITS);
    AndAnd(x, NOT_USED_BITS, PTE_DIRTY);
    AndAnd(x, NOT_USED_BITS, PTE_VALID);
    AndAnd(x, NOT_USED_BITS, PAGE_MASK);
    AndAnd(x, NOT_USED_BITS, PERMISSIONS);
  }

  lemma {:induction false} AndAtMost(x: nat, y: nat)
    ensures And(x, y) <= x
  {
    if x != 0 && y != 0 { AndAtMost(x / 2, y / 2); }
  }

  /** The mask by its arithmetic; its own bits need not be looked at. */
  lemma ForgottenMasks(n: nat)
    requires n < 0x1_0000_0000 && n - n % 4096 == PAGE_MASK && n % 32 == 31 && n % 2 == 1 && n / 32 % 4 == 0 && n / 64 % 2 == 0
    ensures And(n, USED_BITS) == 0 && And(n, PTE_DIRTY) == 0
    ensures And(n, PTE_VALID) == PTE_VALID && And(n, PERMISSIONS) == PERMISSIONS
    ensures And(n, PAGE_MASK) == PAGE_MASK
  {
    PageMask(n);
    LowBits(n);
    UsedMask(n);
    DirtyMask(n);
  }

  /** The masks of the test as arithmetic. */
  lemma UsedMask(x: nat)
    ensures And(x, USED_BITS) == 32 * (x / 32 % 4)
  {
    AndShifted(x, 3, 5);
    ShiftRight4(x, 1);
    assert ShiftRight(x, 5) == x / 32;
    LowTwoBits(x / 32);
    assert ShiftLeft(3, 5) == 96;
    assert ShiftLeft(x / 32 % 4, 5) == 32 * (x / 32 % 4);
  }

  lemma DirtyMask(x: nat)
    ensures And(x, PTE_DIRTY) == 64 * (x / 64 % 2)
  {
    AndShifted(x, 1, 6);
    ShiftRight4(x, 2);
    assert ShiftRight(x, 6) == x / 64;
    LowBits(x / 64);
    assert ShiftLeft(1, 6) == 64;
    assert ShiftLeft(x / 64 % 2, 6) == 64 * (x / 64 % 2);
  }

  lemma SoftwareMask(x: nat)
    ensures And(x, SOFTWARE_MASK) == 128 * (x / 128 % 32)
  {
    AndShifted(x, 31, 7);
    ShiftRight4(x, 3);
    assert ShiftRight(x, 7) == x / 128;
    LowBits(x / 128);
    assert ShiftLeft(31, 5) == 992 && ShiftLeft(31, 7) == 0xf80;
    assert ShiftLeft(x / 128 % 32, 5) == 32 * (x / 128 % 32);
    assert ShiftLeft(x / 128 % 32, 7) == 128 * (x / 128 % 32);
  }

  const SUCCESS := 0x2006_0001
  const METADATA := 0xa80
  const SOFTWARE_MASK := 0xf80
  const FIRST_VALUE: u32 := 0x1234_5678
  const SECOND_VALUE: u32 := 0x8765_4321

  /** `MINEMU_REQUIRE(condition, code)`. */
  method Require(test: Test, condition: bool, code: u32)
    requires code < 0x1000_0000
    modifies test`trace
    ensures condition ==> test.trace == old(test.trace)
  {
    if !condition {
      test.Fail(code);
    }
  }

  /** `table[0] = pte`, followed by TLBIALL and the setting of the stage. */
  method SetEntry(test: Test, ghost pl: Place, pte: u32, stage: u32)
    requires Ready(test, pl)
    modifies test`faultStage, test.machine`tlb, test.machine.mem
    ensures Ready(test, pl) && TEST_VADDR !in test.machine.tlb && test.faultStage == stage
    ensures Word(test.machine.mem[..], pl.table) == pte
    ensures Word(test.machine.mem[..], pl.page) == Word(old(test.machine.mem[..]), pl.page)
  {
    WriteWord(test.machine.mem, test.table, pte);
    test.machine.tlb := map[];
    test.faultStage := stage;
    test.Meanwhile();
  }

  /** `*test = v`. */
  method StoreTest(test: Test, ghost pl: Place, v: u32)
    requires Ready(test, pl) && TEST_VADDR !in test.machine.tlb
    requires Allowed(pl, test.faultStage, Word(test.machine.mem[..], pl.table), Access(TEST_VADDR, 0, true))
    modifies test`faultStage, test`trace, test.machine`g, test.machine`tlb, test.machine.mem
    ensures Ready(test, pl) && test.faultStage == 0 && test.trace == old(test.trace)
    ensures Word(test.machine.mem[..], pl.table) ==
      UsedPte(Repaired(old(test.faultStage), Word(old(test.machine.mem[..]), pl.table)), true)
    ensures Word(test.machine.mem[..], pl.page) == v
  {
    test.machine.g := test.machine.g.(r := test.machine.g.r[0 := v]);
    Perform(test, pl, Access(TEST_VADDR, 0, true));
  }

  /** The value of `*test`. */
  method LoadTest(test: Test, ghost pl: Place) returns (v: u32)
    requires Ready(test, pl) && TEST_VADDR !in test.machine.tlb
    requires Allowed(pl, test.faultStage, Word(test.machine.mem[..], pl.table), Access(TEST_VADDR, 0, false))
    modifies test`faultStage, test`trace, test.machine`g, test.machine`tlb, test.machine.mem
    ensures Ready(test, pl) && test.faultStage == 0 && test.trace == old(test.trace)
    ensures Word(test.machine.mem[..], pl.table) ==
      UsedPte(Repaired(old(test.faultStage), Word(old(test.machine.mem[..]), pl.table)), false)
    ensures v == Word(test.machine.mem[..], pl.page) == Word(old(test.machine.mem[..]), pl.page)
  {
    Perform(test, pl, Access(TEST_VADDR, 0, false));
    v := test.machine.g.r[0];
  }

  /** A store through a readable and writable page: both use bits appear, the software bits stay. */
  method StoreStage(test: Test, ghost pl: Place, page: int)
    requires Ready(test, pl) && page == pl.page
    modifies test`faultStage, test`trace, test.machine`g, test.machine`tlb, test.machine.mem
    ensures Ready(test, pl) && test.trace == old(test.trace) && test.faultStage == 0
    ensures Word(test.machine.mem[..], pl.page) == 0x1234_5678
    ensures Decode(Word(test.machine.mem[..], pl.table)) == Some(Page(pl.page, 0x13))
    ensures And(Word(test.machine.mem[..], pl.table), 0x60) == 0x60 && And(Word(test.machine.mem[..], pl.table), 0xf80) == 0xa80
  {
    var entry := FirstEntryOf(page);
    SetEntry(test, pl, entry, 0);
    GrantedAtOnce(pl, entry, Access(TEST_VADDR, 0, true));
    StoreTest(test, pl, FIRST_VALUE);
    CheckStored(test, page, UsedPte(entry, true));
    assert Word(test.machine.mem[..], pl.table) == UsedPte(entry, true);
  }

  lemma GrantedAtOnce(pl: Place, entry: u32, a: Access)
    requires pl.Valid() && Decode(entry) == Some(Page(pl.page, 0x13))
    ensures Allowed(pl, 0, entry, a) && Repaired(0, entry) == entry
    ensures Decode(UsedPte(entry, a.write)) == Some(Page(pl.page, 0x13))
  {
    UseKeepsTranslation(entry, a.write);
  }

  /** The requirements after the store, on a table that holds entry. */
  method CheckStored(test: Test, page: int, ghost entry: u32)
    requires test.Valid() && IsTableAddress(page) && Word(test.machine.mem[..], page) == FIRST_VALUE
    requires Word(test.machine.mem[..], test.table) == entry
    requires And(entry, USED_BITS) == USED_BITS && And(entry, SOFTWARE_MASK) == METADATA
    modifies test`trace
    ensures test.trace == old(test.trace)
  {
    var stored := ReadWord(test.machine.mem, page);
    Require(test, stored == FIRST_VALUE, 1);
    var pte := ReadWord(test.machine.mem, test.table);
    Require(test, And(pte, USED_BITS) == USED_BITS, 2);
    Require(test, And(pte, SOFTWARE_MASK) == METADATA, 3);
  }

  /** `paddr | VALID | READABLE | WRITABLE | METADATA`, and what a store will make of it. */
  method FirstEntryOf(page: int) returns (entry: u32)
    requires IsTableAddress(page)
    ensures Decode(entry) == Some(Page(page, 0x13))
    ensures And(UsedPte(entry, true), USED_BITS) == USED_BITS && And(UsedPte(entry, true), SOFTWARE_MASK) == METADATA
  {
    FlagOrs(page);
    OrMetadata(page, 19);
    entry := Or(Or(Or(Or(page, PTE_VALID), PTE_READABLE), PTE_WRITABLE), METADATA);
    EntryDecodes(page, 0xa93);
    FirstMetadata(page, entry, 0xa93);
  }

  lemma FirstMetadata(page: int, entry: u32, c: nat)
    requires IsTableAddress(page) && c < 4096 && entry == page + c && c / 32 % 4 == 0 && c / 128 % 32 == 21
    ensures And(UsedPte(entry, true), USED_BITS) == USED_BITS && And(UsedPte(entry, true), SOFTWARE_MASK) == METADATA
  {
    EntryMasks(page, c);
    StoredUsed(entry);
    StoredSoftware(entry);
  }

  lemma EntryMasks(page: int, c: nat)
    requires IsTableAddress(page) && c < 4096
    ensures And(page + c, USED_BITS) == 32 * (c / 32 % 4) && And(page + c, SOFTWARE_MASK) == 128 * (c / 128 % 32)
  {
    PageOffsetMask(page, c, USED_BITS);
    PageOffsetMask(page, c, SOFTWARE_MASK);
    UsedMask(c);
    SoftwareMask(c);
  }

  /** A store sets both use bits. */
  lemma StoredUsed(pte: u32)
    requires And(pte, USED_BITS) == 0
    ensures And(UsedPte(pte, true), USED_BITS) == USED_BITS
  {
    UseMasks(PTE_ACCESSED, PTE_DIRTY);
    UsedBitsTogether(PTE_ACCESSED, PTE_DIRTY);
    StoredMask(pte, PTE_ACCESSED, PTE_DIRTY, USED_BITS);
  }

  /** A store leaves the software bits alone. */
  lemma StoredSoftware(pte: u32)
    ensures And(UsedPte(pte, true), SOFTWARE_MASK) == And(pte, SOFTWARE_MASK)
  {
    UseMasks(PTE_ACCESSED, PTE_DIRTY);
    StoredMask(pte, PTE_ACCESSED, PTE_DIRTY, SOFTWARE_MASK);
  }

  /** The masks of Accessed a and of Dirty d, by their arithmetic. */
  lemma UseMasks(a: nat, d: nat)
    requires a / 32 % 4 == 1 && a / 128 % 32 == 0 && d / 32 % 4 == 2 && d / 128 % 32 == 0
    ensures And(a, USED_BITS) == 32 && And(d, USED_BITS) == 64
    ensures And(a, SOFTWARE_MASK) == 0 && And(d, SOFTWARE_MASK) == 0
  {
    UsedMask(a);
    UsedMask(d);
    SoftwareMask(a);
    SoftwareMask(d);
  }

  lemma UsedBitsTogether(a: nat, d: nat)
    requires a == PTE_ACCESSED && d == PTE_DIRTY
    ensures Or(a, d) == USED_BITS
  {
    assert ShiftLeft(1, 4) == 16;
    assert ShiftLeft(1, 6) == 64;
    OrTop(a, 6);
  }

  /** A load after the use bits are cleared: Accessed comes back, Dirty does not. */
  method LoadStage(test: Test, ghost pl: Place) returns (v: u32)
    requires Ready(test, pl) && test.faultStage == 0 && Word(test.machine.mem[..], pl.page) == FIRST_VALUE
    requires Decode(Word(test.machine.mem[..], pl.table)) == Some(Page(pl.page, 0x13))
    modifies test`faultStage, test`trace, test.machine`g, test.machine`tlb, test.machine.mem
    ensures Ready(test, pl) && test.trace == old(test.trace)
    ensures v == Word(test.machine.mem[..], pl.page) == 0x1234_5678
    ensures And(Word(test.machine.mem[..], pl.table), 32) != 0 && And(Word(test.machine.mem[..], pl.table), 64) == 0
  {
    var pte := ReadWord(test.machine.mem, test.table);
    UseForgotten(pte);
    SetEntry(test, pl, And(pte, NOT_USED_BITS), 0);
    GrantedAtOnce(pl, And(pte, NOT_USED_BITS), Access(TEST_VADDR, 0, false));
    UseIsRecorded(And(pte, NOT_USED_BITS), false);
    v := LoadTest(test, pl);
    Require(test, v == FIRST_VALUE, 4);
    pte := ReadWord(test.machine.mem, test.table);
    Require(test, And(pte, PTE_ACCESSED) != 0, 5);
    Require(test, And(pte, PTE_DIRTY) == 0, 6);
  }

  /** A load through an unreadable entry: the abort handler grants reading and the load goes through. */
  method ReadRepairStage(test: Test, ghost pl: Place, page: int) returns (v: u32)
    requires Ready(test, pl) && page == pl.page && Word(test.machine.mem[..], pl.page) == FIRST_VALUE
    modifies test`faultStage, test`trace, test.machine`g, test.machine`tlb, test.machine.mem
    ensures Ready(test, pl) && test.trace == old(test.trace) && test.faultStage == 0 && v == 0x1234_5678
  {
    var entry := UnreadableEntry(page);
    RefusedEntry(pl, entry, 0xa83, 1, Access(TEST_VADDR, 0, false));
    SetEntry(test, pl, entry, 1);
    v := LoadTest(test, pl);
    Require(test, v == FIRST_VALUE, 7);
    Require(test, test.faultStage == 0, 8);
  }

  /** A store through an unwritable entry: the abort handler grants writing and the store goes through. */
  method WriteRepairStage(test: Test, ghost pl: Place, page: int)
    requires Ready(test, pl) && page == pl.page
    modifies test`faultStage, test`trace, test.machine`g, test.machine`tlb, test.machine.mem
    ensures Ready(test, pl) && test.trace == old(test.trace) && test.faultStage == 0
    ensures Word(test.machine.mem[..], pl.page) == 0x8765_4321
  {
    var entry := UnwritableEntry(page);
    RefusedEntry(pl, entry, 0xa91, 2, Access(TEST_VADDR, 0, true));
    SetEntry(test, pl, entry, 2);
    StoreTest(test, pl, SECOND_VALUE);
    var stored := ReadWord(test.machine.mem, page);
    Require(test, stored == SECOND_VALUE, 9);
    Require(test, test.faultStage == 0, 10);
  }

  /** `paddr | VALID | WRITABLE | METADATA`. */
  method UnreadableEntry(page: int) returns (entry: u32)
    requires IsTableAddress(page)
    ensures entry == page + 0xa83
  {
    FlagOrs(page);
    OrMetadata(page, 3);
    entry := Or(Or(Or(page, PTE_VALID), PTE_WRITABLE), METADATA);
  }

  /** `paddr | VALID | READABLE | METADATA`. */
  method UnwritableEntry(page: int) returns (entry: u32)
    requires IsTableAddress(page)
    ensures entry == page + 0xa91
  {
    FlagOrs(page);
    OrMetadata(page, 17);
    entry := Or(Or(Or(page, PTE_VALID), PTE_READABLE), METADATA);
  }

  /** Flags or-ed one by one into a page address. */
  lemma FlagOrs(base: nat)
    requires base % PAGE_SIZE == 0
    ensures Or(base, PTE_VALID) == base + 1 && Or(base + 1, PTE_WRITABLE) == base + 3
    ensures Or(base + 1, PTE_READABLE) == base + 17 && Or(base + 17, PTE_WRITABLE) == base + 19
  {
    OrPageFlags(base, 0, 1);
    OrPageFlags(base, 1, 2);
    OrPageFlags(base, 1, 16);
    OrPageFlags(base, 17, 2);
    assert Or(1, 2) == 3 && Or(1, 16) == 17;
    assert Or(17, 2) == 19;
  }

  lemma OrMetadata(base: nat, f: nat)
    requires base % PAGE_SIZE == 0 && f < 128
    ensures Or(base + f, METADATA) == base + f + METADATA
  {
    OrPageFlags(base, f, METADATA);
    OrCommutes(f, METADATA);
    assert ShiftLeft(1, 5) == 32 && ShiftLeft(1, 7) == 128;
    assert ShiftLeft(0x15, 5) == 0x2a0 && ShiftLeft(0x15, 7) == METADATA;
    OrShifted(0x15, f, 7);
  }

  /** An entry that lacks just the permission its stage repairs. */
  lemma RefusedEntry(pl: Place, entry: u32, c: nat, stage: u32, a: Access)
    requires pl.Valid() && c < 4096 && entry == pl.page + c && c % 2 == 1 && c / 32 % 4 == 0 && c / 4 % 2 == 0
    requires (stage == 1 && !a.write && c / 16 % 2 == 0) || (stage == 2 && a.write && c / 2 % 2 == 0)
    ensures Allowed(pl, stage, entry, a)
  {
    EntryDecodes(pl.page, c);
    LowFlags(c / 32, c % 32);
    assert c == 32 * (c / 32) + c % 32;
    PageOffsetMask(pl.page, c, USED_BITS);
    UsedMask(c);
    RepairGrants(stage, entry);
  }

  lemma LowFlags(q: nat, r: nat)
    requires r < 32
    ensures (32 * q + r) / 16 % 2 == r / 16 % 2 && (32 * q + r) / 2 % 2 == r / 2 % 2
  {
    assert (32 * q + r) / 16 == 2 * q + r / 16;
    Remainder2(q, r / 16);
    assert (32 * q + r) / 2 == 2 * (8 * q) + r / 2;
    Remainder2(8 * q, r / 2);
  }

  /** A store to ROM through a writable entry: the handler skips it. */
  method SkipStage(test: Test, ghost pl: Place)
    requires Ready(test, pl)
    modifies test`faultStage, test`trace, test.machine`g, test.machine`tlb, test.machine.mem
    ensures Ready(test, pl) && test.trace == old(test.trace) && test.faultStage == 0
    ensures Word(test.machine.mem[..], pl.page) == Word(old(test.machine.mem[..]), pl.page)
  {
    FlagOrs(SYSTEM_ROM_BASE);
    var entry := Or(Or(Or(SYSTEM_ROM_BASE, PTE_VALID), PTE_READABLE), PTE_WRITABLE);
    SetEntry(test, pl, entry, 3);
    test.machine.g := test.machine.g.(r := test.machine.g.r[0 := 0]);
    SkipStore(test, pl, entry, Access(TEST_VADDR, 0, true));
    Require(test, test.faultStage == 0, 11);
  }

  method SkipStore(test: Test, ghost pl: Place, entry: u32, a: Access)
    requires Ready(test, pl) && TEST_VADDR !in test.machine.tlb && test.faultStage == 3
    requires entry == SYSTEM_ROM_BASE + 0x13 && Word(test.machine.mem[..], pl.table) == entry
    requires a.Valid() && a.va == TEST_VADDR && a.write
    modifies test`faultStage, test`trace, test.machine`g, test.machine`tlb, test.machine.mem
    ensures Ready(test, pl) && test.trace == old(test.trace) && test.faultStage == 0
    ensures SameProgram(old(test.machine.g).(pc := Add32(old(test.machine.g).pc, 4)), test.machine.g)
    ensures SameOutside(old(test.machine.mem[..]), test.machine.mem[..], pl.aside)
  {
    ghost var m: Mem := test.machine.mem[..];
    RomStoreRefused(test.machine.g, m, test.machine.tlb, pl, entry, a);
    var x := Attempted(test.machine, ROOT, a);
    var ok, p := test.DataAbort(a, x.dfsr);
    WordKept(m, test.machine.mem[..], ROOT + 4 * TEST_SLOT);
  }

  lemma RomStoreRefused(g: Registers, m: Mem, tlb: map<u32, Translation>, pl: Place, entry: u32, a: Access)
    requires pl.Valid() && Mapped(m, pl) && entry == SYSTEM_ROM_BASE + 0x13 && Word(m, pl.table) == entry
    requires a.Valid() && a.va == TEST_VADDR && a.write && !FromUser(g) && TEST_VADDR !in tlb
    ensures Execute(g, m, ROOT, tlb, a) == Fault(0x203) && Expected(3, a.va, 0x203, entry)
    ensures Unused(PutWord(m, pl.table, Repaired(3, entry)), ROOT, a.va, pl.aside)
  {
    TestWalk(m, pl, a.va);
    EntryDecodes(SYSTEM_ROM_BASE, 0x13);
    PageOffsetMask(SYSTEM_ROM_BASE, 0x13, USED_BITS);
    UsedMask(0x13);
    RomFrameClear(m, PutWord(m, pl.table, entry), pl, a.va, entry);
  }

  lemma RomFrameClear(m: Mem, m': Mem, pl: Place, va: u32, entry: u32)
    requires pl.Valid() && Mapped(m, pl) && va == TEST_VADDR && m' == PutWord(m, pl.table, entry)
    requires Decode(entry) == Some(Page(SYSTEM_ROM_BASE, 0x13))
    ensures Unused(m', ROOT, va, pl.aside)
  {
    WordKept(m, m', ROOT + 4 * TEST_SLOT);
    TestWalk(m', pl, va);
    TestSlot(va);
    SplitPage(pl.table, PDE_VALID);
  }

  /** minemu_kernel_main of the test: no requirement fails and the success event is the only trace. */
  method RunTest(test: Test, ghost pl: Place, page: int) returns (loaded: seq<u32>)
    requires Placed(test, pl) && pl.page == page && test.trace == []
    modifies test`faultStage, test`trace, test.machine`g, test.machine`tlb, test.machine.mem
    ensures Ready(test, pl) && test.trace == [0x2006_0001]
    ensures Word(test.machine.mem[..], pl.page) == 0x8765_4321 && loaded == [0x1234_5678, 0x1234_5678]
  {
    MapTable(test, pl);
    StoreStage(test, pl, page);
    var first := LoadStage(test, pl);
    var second := ReadRepairStage(test, pl, page);
    loaded := [first, second];
    WriteRepairStage(test, pl, page);
    SkipStage(test, pl);
    test.trace := test.trace + [SUCCESS];
  }

  /** The table is cleared and entered in the directory. */
  method MapTable(test: Test, ghost pl: Place)
    requires test.Valid() && pl.Valid() && pl.table == test.table
    modifies test.machine.mem
    ensures Mapped(test.machine.mem[..], pl)
  {
    var i := 0;
    while i < 1024
      invariant 0 <= i <= 1024
    {
      WriteWord(test.machine.mem, test.table + 4 * i, 0);
      i := i + 1;
    }
    var pde := PdeOf(test.table);
    WriteWord(test.machine.mem, ROOT + 4 * TEST_SLOT, pde);
  }
}
