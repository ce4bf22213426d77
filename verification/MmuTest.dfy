/** The abort handler of the MMU test, run between the entry and exit code of the data-abort vector. */
module MmuTest {
  import opened Bits
  import opened Memory
  import opened Mmu
  import opened Bootstrap
  import opened Trap
  import opened PageUse
  import opened FaultRepair
  import opened TestPage

  const USED_BITS := 0x60
  const FAILED := 0xf000_0000

  /** The data aborts the handler accepts. */
  predicate Expected(stage: u32, dfar: u32, dfsr: u32, pte: u32) {
    && dfar == TEST_VADDR && And(pte, USED_BITS) == 0
    && ((stage == 1 && dfsr == 2) || ((stage == 2 || stage == 3) && dfsr == 0x203))
  }

  /** What a refused abort leaves in the trace: the first requirement that fails decides. */
  function Refusal(stage: u32, exceptionId: u32, dfar: u32, dfsr: u32, pte: u32): (events: seq<u32>)
    ensures events == [] <==> exceptionId == ID_DATA_ABORT && Expected(stage, dfar, dfsr, pte)
  {
    if exceptionId != ID_DATA_ABORT then
      [0xe006_0000 + exceptionId % 0x100 * 0x100 + dfsr % 0x100, FAILED + 20]
    else if dfar != TEST_VADDR then [FAILED + 21]
    else if And(pte, USED_BITS) != 0 then [FAILED + 22]
    else if stage == 1 then if dfsr == 2 then [] else [FAILED + 23]
    else if stage == 2 then if dfsr == 0x203 then [] else [FAILED + 24]
    else if stage == 3 then if dfsr == 0x203 then [] else [FAILED + 25]
    else [FAILED + 26]
  }

  /** The repair of stages 1 and 2; stage 3 leaves the entry alone. */
  function Repaired(stage: u32, pte: u32): u32 {
    OrIsWord(pte, PTE_READABLE);
    OrIsWord(pte, PTE_WRITABLE);
    if stage == 1 then Or(pte, PTE_READABLE)
    else if stage == 2 then Or(pte, PTE_WRITABLE)
    else pte
  }

  /** Memory after an accepted abort: the repair, or in stage 3 the patch of the link word in the frame at p. */
  function Handled(stage: u32, table: int, p: int, m: Mem): Mem
    requires IsTableAddress(table) && IsFrameAddress(p)
  {
    if stage == 3 then PutWord(m, p + 52, Add32(Word(m, p + 52), 4))
    else PutWord(m, table, Repaired(stage, Word(m, table)))
  }

  class Test {
    const machine: Machine
    /** Physical address of the static page table of the test. */
    const table: int
    /**
     * Bytes that change while the test runs and that nothing here describes: the stacks of its C
     * code, fault_stage (whose value is the field below), and the table entries of kernel pages,
     * whose use the hardware records.
     */
    const scratch: set<int>
    var faultStage: u32
    var trace: seq<u32>

    ghost predicate Valid()
      reads this, machine
    {
      machine.Valid() && IsTableAddress(table) && RAM_BASE <= table && ClearOf(scratch, table)
    }

    constructor (machine: Machine, table: int, scratch: set<int>)
      requires machine.Valid() && IsTableAddress(table) && RAM_BASE <= table && ClearOf(scratch, table)
      ensures Valid() && this.machine == machine && this.table == table && this.scratch == scratch
      ensures faultStage == 0 && trace == []
    {
      this.machine := machine;
      this.table := table;
      this.scratch := scratch;
      faultStage := 0;
      trace := [];
    }

    /** What C code and hardware do besides: scratch bytes change, and walks for other pages are cached. */
    method Meanwhile()
      requires Valid()
      modifies machine`tlb, machine.mem
      ensures SameOutside(old(machine.mem[..]), machine.mem[..], scratch)
      ensures TEST_VADDR in machine.tlb <==> TEST_VADDR in old(machine.tlb)
    {
      Scribble(machine.mem, scratch);
      var others: map<u32, Translation> := *;
      var test: set<u32> := {TEST_VADDR};
      machine.tlb := machine.tlb + (others - test);
    }

    /** A failed requirement is traced, and the machine then stays in the fail-stop loop. */
    method Fail(code: u32)
      requires code < 0x1000_0000
      modifies this`trace
      ensures trace == old(trace) + [0xf000_0000 + code]
    {
      trace := trace + [0xf000_0000 + code];
    }

    /** `table[0] |= bit`. */
    method SetBit(pte: u32, bit: u32)
      requires Valid()
      modifies machine.mem
      ensures Or(pte, bit) < 0x1_0000_0000 && machine.mem[..] == PutWord(old(machine.mem[..]), table, Or(pte, bit))
    {
      OrIsWord(pte, bit);
      WriteWord(machine.mem, table, Or(pte, bit));
    }

    /** `frame->return_lr += 4`. */
    method SkipAccess(p: int)
      requires Valid() && IsFrameAddress(p)
      modifies machine.mem
      ensures machine.mem[..] == PutWord(old(machine.mem[..]), p + 52, Add32(Word(old(machine.mem[..]), p + 52), 4))
    {
      var returnLr := ReadWord(machine.mem, p + 52);
      WriteWord(machine.mem, p + 52, Add32(returnLr, 4));
    }

    /** minemu_abort_dispatch on the frame at p; false when it fail-stops. */
    method AbortDispatch(p: int) returns (ok: bool)
      requires Valid() && IsFrameAddress(p) && NotInFrame(scratch, p)
      requires p + FRAME_SIZE <= table || table + PAGE_SIZE <= p
      modifies this`faultStage, this`trace, machine`tlb, machine.mem
      ensures Valid()
      ensures var f, pte := ReadFrame(old(machine.mem[..]), p), Word(old(machine.mem[..]), table);
        && (ok <==> f.exceptionId == ID_DATA_ABORT && Expected(old(faultStage), f.dfar, f.dfsr, pte))
        && trace == old(trace) + Refusal(old(faultStage), f.exceptionId, f.dfar, f.dfsr, pte)
      ensures ok ==> faultStage == 0 && TEST_VADDR !in machine.tlb
      ensures ok ==> SameOutside(Handled(old(faultStage), table, p, old(machine.mem[..])), machine.mem[..], scratch)
      ensures !ok ==> SameOutside(old(machine.mem[..]), machine.mem[..], scratch)
    {
      var pte;
      ok, pte := CheckAbort(p);
      if !ok {
        return;
      }
      if faultStage == 1 {
        SetBit(pte, PTE_READABLE);
      } else if faultStage == 2 {
        SetBit(pte, PTE_WRITABLE);
      } else {
        SkipAccess(p);
      }
      machine.tlb := map[];
      faultStage := 0;
      Meanwhile();
    }

    /** The requirements of the dispatcher, in its order; none of them follows a repair. */
    method CheckAbort(p: int) returns (ok: bool, pte: u32)
      requires Valid() && IsFrameAddress(p)
      modifies this`trace
      ensures pte == Word(machine.mem[..], table)
      ensures var f := ReadFrame(machine.mem[..], p);
        && (ok <==> f.exceptionId == ID_DATA_ABORT && Expected(faultStage, f.dfar, f.dfsr, pte))
        && trace == old(trace) + Refusal(faultStage, f.exceptionId, f.dfar, f.dfsr, pte)
    {
      var exceptionId := ReadWord(machine.mem, p + 60);
      var dfsr := ReadWord(machine.mem, p + 68);
      var dfar := ReadWord(machine.mem, p + 72);
      pte := ReadWord(machine.mem, table);
      ok := false;
      if exceptionId != ID_DATA_ABORT {
        trace := trace + [0xe006_0000 + exceptionId % 0x100 * 0x100 + dfsr % 0x100];
        Fail(20);
        return;
      }
      if dfar != TEST_VADDR { Fail(21); return; }
      if And(pte, USED_BITS) != 0 { Fail(22); return; }
      if faultStage == 1 {
        if dfsr != 2 { Fail(23); return; }
      } else if faultStage == 2 {
        if dfsr != 0x203 { Fail(24); return; }
      } else if faultStage == 3 {
        if dfsr != 0x203 { Fail(25); return; }
      } else {
        Fail(26);
        return;
      }
      ok := true;
    }

    /**
     * A data abort from access a by the program in machine.g: exception entry, the vector's entry
     * code, the dispatcher (which may leave anything in r0-r12), the exit code and the return.
     */
    method DataAbort(a: Access, status: u32) returns (ok: bool, ghost p: int)
      requires Valid() && a.Valid() && StackOk(machine.g.sp.abt)
      requires AbortFrameApart(machine.g, machine.mem[..], a.va)
      modifies this`faultStage, this`trace, machine`g, machine`tlb, machine.mem
      ensures Valid() && p == KernelPhysical(old(machine.g.sp.abt) - FRAME_SIZE)
      ensures ok <==> Expected(old(faultStage), a.va, status, Word(old(machine.mem[..]), table))
      ensures ok ==> TEST_VADDR !in machine.tlb && faultStage == 0 && trace == old(trace)
      ensures ok ==> Continues(old(faultStage), table, old(machine.g), old(machine.mem[..]), a,
                               machine.g, machine.mem[..], machine.tlb, FrameBytes(p) + scratch)
    {
      ghost var g0, m0: Mem, stage := machine.g, machine.mem[..], faultStage;
      var frame: u32;
      var at: int;
      frame, at := Enter(a, status);
      p := at;
      ghost var m1: Mem := machine.mem[..];
      ok := AbortDispatch(at);
      if ok {
        Leave(frame, g0, m0, m1, stage, a, status, p);
      }
    }

    /** Exception entry and the vector's entry code. */
    method Enter(a: Access, status: u32) returns (frame: u32, p: int)
      requires Valid() && a.Valid() && StackOk(machine.g.sp.abt) && AbortFrameApart(machine.g, machine.mem[..], a.va)
      modifies machine`g, machine.mem
      ensures Valid() && frame == old(machine.g.sp.abt) - FRAME_SIZE == machine.g.sp.abt
      ensures p == KernelPhysical(frame) && IsFrameAddress(p) && HandlerReturns(old(machine.g), machine.g)
      ensures ReadFrame(machine.mem[..], p) == SavedFrame(Aborted(old(machine.g), a, status), Exception.DataAbort)
      ensures SameBut(old(machine.mem[..]), machine.mem[..], p, p + FRAME_SIZE)
      ensures NotInFrame(scratch, p) && (p + FRAME_SIZE <= table || table + PAGE_SIZE <= p)
      ensures Word(machine.mem[..], table) == Word(old(machine.mem[..]), table)
    {
      machine.g := Aborted(machine.g, a, status);
      frame, p := machine.SaveFrame(Exception.DataAbort);
      FrameClearOfTable(FrameBytes(p) + scratch, p, table);
    }

    /** The vector's exit code and the return, after a dispatcher that may leave anything in r0-r12. */
    method Leave(frame: u32, ghost g0: Registers, ghost m0: Mem, ghost m1: Mem, ghost stage: u32, ghost a: Access,
                 ghost status: u32, ghost p: int)
      requires Valid() && a.Valid() && TEST_VADDR !in machine.tlb && a.va == TEST_VADDR
      requires KERNEL_DIRECT_BASE <= frame && frame + FRAME_SIZE <= KERNEL_DIRECT_BASE + KERNEL_DIRECT_SIZE
      requires p == KernelPhysical(frame) && frame == machine.g.sp.abt && HandlerReturns(g0, machine.g)
      requires SameBut(m0, m1, p, p + FRAME_SIZE) && ReadFrame(m1, p) == SavedFrame(Aborted(g0, a, status), Exception.DataAbort)
      requires SameOutside(Handled(stage, table, p, m1), machine.mem[..], scratch)
      requires NotInFrame(scratch, p) && ClearOf(FrameBytes(p) + scratch, table)
      requires Unused(PutWord(m0, table, Repaired(stage, Word(m0, table))), ROOT, a.va, FrameBytes(p) + scratch)
      modifies machine`g
      ensures Continues(stage, table, g0, m0, a, machine.g, machine.mem[..], machine.tlb, FrameBytes(p) + scratch)
    {
      var anything: General := *;
      machine.g := machine.g.(r := anything);
      ghost var h := machine.g;
      machine.RestoreFrame(Exception.DataAbort, frame);
      TestSlot(a.va);
      HandledRun(g0, m0, m1, machine.mem[..], h, machine.tlb, stage, table, a, status, p, scratch);
    }

    /** The abort frame and the scratch bytes are apart, and clear of what the repaired access uses. */
    ghost predicate AbortFrameApart(g: Registers, m: Mem, va: u32)
      requires IsTableAddress(table) && StackOk(g.sp.abt)
      reads this
    {
      var p := KernelPhysical(g.sp.abt - FRAME_SIZE);
      && NotInFrame(scratch, p) && ClearOf(FrameBytes(p) + scratch, table)
      && Unused(PutWord(m, table, Repaired(faultStage, Word(m, table))), ROOT, va, FrameBytes(p) + scratch)
    }
  }

  lemma FrameClearOfTable(x: set<int>, p: int, table: int)
    requires ClearOf(x, table) && FrameBytes(p) <= x
    ensures p + FRAME_SIZE <= table || table + PAGE_SIZE <= p
  {
    var i := if p <= table then table else p;
    assert p + FRAME_SIZE <= table || table + PAGE_SIZE <= p || i in FrameBytes(p);
  }

  /**
   * What program g, whose access a aborted in memory m, finds after an accepted abort, with back, m2
   * and tlb the state it resumes in: a retry that ends like the access in repaired memory, or the
   * access skipped.  Bytes of x aside.
   */
  ghost predicate Continues(stage: u32, table: int, g: Registers, m: Mem, a: Access,
                            back: Registers, m2: Mem, tlb: map<u32, Translation>, x: set<int>)
    requires IsTableAddress(table) && a.Valid()
  {
    if stage == 3 then
      SameProgram(g.(pc := Add32(g.pc, 4)), back) && SameOutside(m, m2, x)
    else
      SameOutcome(Execute(g, PutWord(m, table, Repaired(stage, Word(m, table))), ROOT, map[], a),
                  Execute(back, m2, ROOT, tlb, a), a.va, x)
  }

  lemma HandledRun(g: Registers, m0: Mem, m1: Mem, m2: Mem, h: Registers, tlb: map<u32, Translation>, stage: u32,
                   table: int, a: Access, status: u32, p: int, scratch: set<int>)
    requires a.Valid() && IsTableAddress(table) && IsFrameAddress(p) && HandlerReturns(g, h) && PageOf(a.va) !in tlb
    requires NotInFrame(scratch, p) && ClearOf(FrameBytes(p) + scratch, table)
    requires SameBut(m0, m1, p, p + FRAME_SIZE) && ReadFrame(m1, p) == SavedFrame(Aborted(g, a, status), DataAbort)
    requires SameOutside(Handled(stage, table, p, m1), m2, scratch)
    requires Unused(PutWord(m0, table, Repaired(stage, Word(m0, table))), ROOT, a.va, FrameBytes(p) + scratch)
    ensures Continues(stage, table, g, m0, a, Resumed(h, ReadFrame(m2, p), h.sp.abt, DataAbort), m2, tlb,
                      FrameBytes(p) + scratch)
  {
    var m3, x, back := Handled(stage, table, p, m1), FrameBytes(p) + scratch, Resumed(h, ReadFrame(m2, p), h.sp.abt, DataAbort);
    FrameOutside(m3, m2, p, scratch);
    FrameClearOfTable(x, p, table);
    WordKept(m0, m1, table);
    if stage == 3 {
      SkipRun(g, m0, m1, m3, m2, h, a, status, p, scratch);
    } else {
      var pte := Repaired(stage, Word(m0, table));
      RepairRun(g, m0, m1, m3, m2, h, back, PutWord(m0, table, pte), pte, table, tlb, a, status, p, scratch);
    }
  }

  lemma SkipRun(g: Registers, m0: Mem, m1: Mem, m3: Mem, m2: Mem, h: Registers, a: Access, status: u32, p: int, scratch: set<int>)
    requires IsFrameAddress(p) && HandlerReturns(g, h) && SameBut(m0, m1, p, p + FRAME_SIZE)
    requires ReadFrame(m1, p) == SavedFrame(Aborted(g, a, status), DataAbort) && ReadFrame(m2, p) == ReadFrame(m3, p)
    requires m3 == PutWord(m1, p + 52, Add32(Word(m1, p + 52), 4)) && SameOutside(m3, m2, scratch)
    ensures SameProgram(g.(pc := Add32(g.pc, 4)), Resumed(h, ReadFrame(m2, p), h.sp.abt, DataAbort))
    ensures SameOutside(m0, m2, FrameBytes(p) + scratch)
  {
    LinkPatched(m1, m3, p, ReadFrame(m1, p));
    Joined(m0, m3, m2, FrameBytes(p), scratch);
    SkipOmitsAccess(g, status, a, h, ReadFrame(m2, p));
  }

  lemma RepairRun(g: Registers, m0: Mem, m1: Mem, m3: Mem, m2: Mem, h: Registers, back: Registers, repaired: Mem, pte: u32,
                  table: int, tlb: map<u32, Translation>, a: Access, status: u32, p: int, scratch: set<int>)
    requires a.Valid() && IsFrameAddress(p) && HandlerReturns(g, h) && PageOf(a.va) !in tlb
    requires IsTableAddress(table) && (p + FRAME_SIZE <= table || table + PAGE_SIZE <= p)
    requires SameBut(m0, m1, p, p + FRAME_SIZE) && repaired == PutWord(m0, table, pte) && m3 == PutWord(m1, table, pte)
    requires ReadFrame(m1, p) == SavedFrame(Aborted(g, a, status), DataAbort) && ReadFrame(m2, p) == ReadFrame(m3, p)
    requires SameOutside(m3, m2, scratch) && back == Resumed(h, ReadFrame(m2, p), h.sp.abt, DataAbort)
    requires Unused(repaired, ROOT, a.va, FrameBytes(p) + scratch)
    ensures SameOutcome(Execute(g, repaired, ROOT, map[], a), Execute(back, m2, ROOT, tlb, a), a.va, FrameBytes(p) + scratch)
  {
    FrameUnpatched(m0, m1, m3, p, table, pte);
    Joined(repaired, m3, m2, FrameBytes(p), scratch);
    RepairIsTransparent(g, status, a, ROOT, repaired, map[], h, m2, tlb, p, FrameBytes(p) + scratch);
  }

  lemma Joined(m0: Mem, m1: Mem, m2: Mem, x: set<int>, y: set<int>)
    requires SameOutside(m0, m1, x) && SameOutside(m1, m2, y)
    ensures SameOutside(m0, m2, x + y)
  {
  }

  /** The stage 3 handler changes one word of the frame. */
  lemma LinkPatched(m1: Mem, m2: Mem, p: int, f: TrapFrame)
    requires IsFrameAddress(p) && f == ReadFrame(m1, p) && m2 == PutWord(m1, p + 52, Add32(f.returnLr, 4))
    ensures ReadFrame(m2, p) == f.(returnLr := Add32(f.returnLr, 4))
  {
    var r1, r2 := ReadFrame(m1, p).r, ReadFrame(m2, p).r;
    forall i | 0 <= i < 13 ensures r2[i] == r1[i] {}
  }

  /** The page-table repair and the saved frame commute. */
  lemma FrameUnpatched(m0: Mem, m1: Mem, m2: Mem, p: int, table: int, pte: u32)
    requires IsFrameAddress(p) && IsTableAddress(table) && (p + FRAME_SIZE <= table || table + PAGE_SIZE <= p)
    requires SameBut(m0, m1, p, p + FRAME_SIZE) && m2 == PutWord(m1, table, pte)
    ensures SameOutside(PutWord(m0, table, pte), m2, FrameBytes(p))
    ensures ReadFrame(m2, p) == ReadFrame(m1, p)
  {
    PutWordUnseen(m0, m1, table, pte, FrameBytes(p));
    FrameKept(m1, m2, p);
  }

  /** A repair gives the missing permission on the same frame and takes none away. */
  lemma RepairGrants(stage: u32, pte: u32)
    requires (stage == 1 || stage == 2) && Decode(pte).Some?
    ensures var before, after := Decode(pte).value, Decode(Repaired(stage, pte));
      && after.Some? && after.value.frame == before.frame
      && (after.value.Readable() <==> before.Readable() || stage == 1)
      && (after.value.Writable() <==> before.Writable() || stage == 2)
      && (after.value.User() <==> before.User())
  {
    var bit: nat := if stage == 1 then 16 else 2;
    RepairLiterals();
    OrOutsideMask(pte, bit, 1);
    OrOutsideMask(pte, bit, PAGE_MASK);
    AndOverOr(pte, bit, PERMISSIONS);
    LowBits(pte);
    var f := And(pte, PERMISSIONS);
    assert Decode(pte).value.flags == f;
    if stage == 1 {
      OrSixteen(f);
      if f < 16 { PlusSixteen(f); }
    } else {
      OrTwo(f);
      if f / 2 % 2 == 0 { PlusTwo(f, f / 4); }
    }
    assert Decode(Repaired(stage, pte)).value.flags == Or(f, bit);
  }

  /** The aborted access goes through in the repaired memory: the stages read and write what they set out to. */
  lemma RepairLetsAccessThrough(stage: u32, g: Registers, m: Mem, table: int, a: Access, status: u32)
    requires IsTableAddress(table) && table != ROOT && a.Valid() && And(Entry(m, ROOT, TEST_SLOT), PAGE_MASK) == table
    requires stage != 3 && Expected(stage, a.va, status, Word(m, table))
    requires Execute(g, m, ROOT, map[], a) == Fault(status)
    requires Walk(m, ROOT, a.va).Some? ==> InRam(Walk(m, ROOT, a.va).value.frame)
    ensures Execute(g, PutWord(m, table, Repaired(stage, Word(m, table))), ROOT, map[], a).Done?
  {
    var pte := Word(m, table);
    var m' := PutWord(m, table, Repaired(stage, pte));
    StatusTells(stage, g, m, a, status, pte);
    TestWalks(m, m', table, a.va, Repaired(stage, pte));
    RepairGrants(stage, pte);
    PermittedIsDone(g, m', a, Decode(Repaired(stage, pte)).value);
  }

  /** Before and after a write to its entry, the walk of the test address ends with that entry. */
  lemma TestWalks(m: Mem, m': Mem, table: int, va: u32, pte: u32)
    requires IsTableAddress(table) && table != ROOT && va == TEST_VADDR && And(Entry(m, ROOT, TEST_SLOT), PAGE_MASK) == table
    requires m' == PutWord(m, table, pte) && Walk(m, ROOT, va).Some?
    ensures Walk(m, ROOT, va) == Decode(Word(m, table)) && Walk(m', ROOT, va) == Decode(pte)
  {
    TestSlot(va);
    SlotWalks(m, m', table, va, pte);
  }

  lemma SlotWalks(m: Mem, m': Mem, table: int, va: u32, pte: u32)
    requires IsTableAddress(table) && table != ROOT && va / 0x40_0000 == TEST_SLOT && va / PAGE_SIZE % 1024 == 0
    requires And(Entry(m, ROOT, TEST_SLOT), PAGE_MASK) == table && m' == PutWord(m, table, pte) && Walk(m, ROOT, va).Some?
    ensures Walk(m, ROOT, va) == Decode(Word(m, table)) && Walk(m', ROOT, va) == Decode(pte)
  {
    TablesApart(ROOT, table);
    PutOutside(m, table, pte, ROOT, ROOT + PAGE_SIZE);
    RepairedWalk(m, m', table, TEST_SLOT, va);
  }

  /** The status of an expected abort says that a privileged access was refused for want of one permission. */
  lemma StatusTells(stage: u32, g: Registers, m: Mem, a: Access, status: u32, pte: u32)
    requires a.Valid() && stage != 3 && Expected(stage, a.va, status, pte) && Execute(g, m, ROOT, map[], a) == Fault(status)
    ensures Walk(m, ROOT, a.va).Some? && !FromUser(g) && (a.write <==> stage == 2) && (stage == 1 || stage == 2)
  {
  }

  lemma PermittedIsDone(g: Registers, m: Mem, a: Access, t: Translation)
    requires a.Valid() && Walk(m, ROOT, a.va) == Some(t) && InRam(t.frame) && Permits(t, FromUser(g), a.write)
    ensures Execute(g, m, ROOT, map[], a).Done?
  {
  }

  /** A write to the table of the test page leaves the walk's first step alone. */
  lemma RepairedWalk(m: Mem, m': Mem, table: int, k: int, va: u32)
    requires 0 <= k < 1024 && k == va / 0x40_0000 && va / PAGE_SIZE % 1024 == 0 && 0 <= table <= PHYS_TOP - PAGE_SIZE
    requires And(Entry(m, ROOT, k), PAGE_MASK) == table && SameOn(m, m', ROOT, ROOT + PAGE_SIZE)
    ensures Walk(m, ROOT, va).Some? ==> Walk(m, ROOT, va) == Decode(Word(m, table))
    ensures Walk(m, ROOT, va).Some? ==> Walk(m', ROOT, va) == Decode(Word(m', table))
  {
    WordKept(m, m', ROOT + 4 * k);
  }

  lemma PlusSixteen(f: nat)
    requires f < 16
    ensures (f + 16) / 16 % 2 == 1 && f / 16 % 2 == 0
    ensures (f + 16) / 2 % 2 == f / 2 % 2 && (f + 16) / 4 % 2 == f / 4 % 2
  {
    assert (f + 16) / 2 == f / 2 + 8 && (f + 16) / 4 == f / 4 + 4;
  }

  lemma PlusTwo(f: nat, k: nat)
    requires f < 32 && f / 2 % 2 == 0 && k == f / 4
    ensures (f + 2) / 2 % 2 == 1 && (f + 2) / 4 == f / 4 && (f + 2) / 16 == f / 16
  {
    assert f / 2 == 2 * k;
    assert (f + 2) / 2 == 2 * k + 1;
    assert (f + 2) / 4 == k;
  }

  lemma RepairLiterals()
    ensures And(16, 1) == 0 && And(2, 1) == 0 && And(16, PAGE_MASK) == 0 && And(2, PAGE_MASK) == 0
    ensures And(16, PERMISSIONS) == 16 && And(2, PERMISSIONS) == 2
  {
  }

  lemma OrSixteen(f: nat)
    requires f < 32
    ensures Or(f, 16) == if f / 16 % 2 == 1 then f else f + 16
  {
    assert ShiftLeft(1, 4) == 16;
    OrTop(f, 4);
  }

  lemma OrTwo(f: nat)
    requires f < 32
    ensures Or(f, 2) == if f / 2 % 2 == 1 then f else f + 2
  {
    assert Or(f / 2, 1) == f / 2 + 1 - f / 2 % 2 by {
      if f / 2 != 0 { assert Or(f / 2, 1) == 2 * Or(f / 4, 0) + 1; }
    }
    assert Or(f, 2) == 2 * Or(f / 2, 1) + f % 2;
  }

  /** Which abort is refused with which event, in numbers. */
  lemma RefusalMeans(stage: u32, exceptionId: u32, dfar: u32, dfsr: u32, pte: u32)
    ensures var events := Refusal(stage, exceptionId, dfar, dfsr, pte);
      var data := exceptionId == 0xffff_ffff;
      var here := data && dfar == 0x2000_0000;
      var unused := here && And(pte, 0x60) == 0;
      && (events == [] <==> unused && ((stage == 1 && dfsr == 2) || (stage == 2 && dfsr == 0x203) || (stage == 3 && dfsr == 0x203)))
      && (|events| == 2 <==> !data) && (!data ==> events[1] == 0xf000_0014)
      && (events == [0xf000_0015] <==> data && dfar != 0x2000_0000)
      && (events == [0xf000_0016] <==> here && And(pte, 0x60) != 0)
      && (events == [0xf000_0017] <==> unused && stage == 1 && dfsr != 2)
      && (events == [0xf000_0018] <==> unused && stage == 2 && dfsr != 0x203)
      && (events == [0xf000_0019] <==> unused && stage == 3 && dfsr != 0x203)
      && (events == [0xf000_001a] <==> unused && stage != 1 && stage != 2 && stage != 3)
  {
  }

  /** What an accepted abort stores: one permission bit in the entry, or four added to the link. */
  lemma HandledMeans(stage: u32, table: int, p: int, m: Mem)
    requires IsTableAddress(table) && IsFrameAddress(p) && (stage == 1 || stage == 2 || stage == 3)
    ensures var m', at := Handled(stage, table, p, m), if stage == 3 then p + 52 else table;
      && Word(m', at) == (if stage == 1 then Or(Word(m, at), 16) else if stage == 2 then Or(Word(m, at), 2)
                          else (Word(m, at) + 4) % 0x1_0000_0000)
      && SameBut(m, m', at, at + 4)
  {
  }
}
