/**
 * Data accesses under translation, the abort handler of the MMU test, and the claim that a
 * fault whose handler only repairs the page table leaves no trace in the faulting program.
 */
module FaultRepair {
  import opened Bits
  import opened Memory
  import opened Mmu
  import opened PageUse
  import opened Trap

  const FAULT_TRANSLATION := 1
  const FAULT_READ_PROTECTION := 2
  const FAULT_WRITE_PROTECTION := 3
  const FAULT_FROM_USER := 0x100
  const FAULT_IS_WRITE := 0x200

  /** A word load into r[reg] or store from r[reg]. */
  datatype Access = Access(va: u32, reg: int, write: bool) {
    predicate Valid() { va % 4 == 0 && 0 <= reg < 13 }
  }

  /** The instruction completed, aborted with a fault status, or went to a device (outside this model). */
  datatype Attempt = Done(g: Registers, m: Mem, tlb: map<u32, Translation>) | Fault(dfsr: u32) | Device

  function FaultStatus(cause: u32, user: bool, write: bool): u32
    requires cause < 0x100
  {
    cause + (if user then FAULT_FROM_USER else 0) + (if write then FAULT_IS_WRITE else 0)
  }

  predicate FromUser(g: Registers) { g.cpsr % 32 == ModeBits(Usr) }

  /** The translation an access uses: a cached one if there is one. */
  function Translate(m: Mem, root: int, tlb: map<u32, Translation>, va: u32): Option<Translation>
    requires IsTableAddress(root)
  {
    if PageOf(va) in tlb then Some(tlb[PageOf(va)]) else Walk(m, root, va)
  }

  predicate Permits(t: Translation, user: bool, write: bool) {
    (user ==> t.User()) && (if write then t.Writable() else t.Readable())
  }

  predicate InRam(frame: int) { RAM_BASE <= frame <= PHYS_TOP - PAGE_SIZE }
  predicate InSystemRom(frame: int) { SYSTEM_ROM_BASE <= frame <= SYSTEM_ROM_BASE + SYSTEM_ROM_SIZE - PAGE_SIZE }

  function ProtectionCause(write: bool): u32 { if write then FAULT_WRITE_PROTECTION else FAULT_READ_PROTECTION }

  /** The data transfer itself. */
  function Transfer(g: Registers, m: Mem, at: int, a: Access): (r: (Registers, Mem))
    requires a.Valid() && IsWordAddress(at)
  {
    var next := g.(pc := Add32(g.pc, 4));
    if a.write then (next, PutWord(m, at, g.r[a.reg])) else (next.(r := g.r[a.reg := Word(m, at)]), m)
  }

  /** One attempt at the access by the program whose registers are g. */
  function Execute(g: Registers, m: Mem, root: int, tlb: map<u32, Translation>, a: Access): Attempt
    requires IsTableAddress(root) && a.Valid()
  {
    match Translate(m, root, tlb, a.va)
    case None => Fault(FaultStatus(FAULT_TRANSLATION, FromUser(g), a.write))
    case Some(t) =>
      if !Permits(t, FromUser(g), a.write) || (a.write && InSystemRom(t.frame)) then
        Fault(FaultStatus(ProtectionCause(a.write), FromUser(g), a.write))
      else if !InRam(t.frame) && !InSystemRom(t.frame) then Device
      else Completed(g, m, root, tlb, t, a)
  }

  /** A permitted access to memory: the walk, if one was made, records the use; then the data moves. */
  function Completed(g: Registers, m: Mem, root: int, tlb: map<u32, Translation>, t: Translation, a: Access): Attempt
    requires IsTableAddress(root) && a.Valid() && (InRam(t.frame) || InSystemRom(t.frame))
  {
    PageOfWord(a.va);
    var marked := if PageOf(a.va) in tlb then m else MarkWalk(m, root, a.va, a.write);
    var (g', m') := Transfer(g, marked, Target(t, a.va), a);
    Done(g', m', tlb[PageOf(a.va) := t])
  }

  /** The word a memory access reaches. */
  function Target(t: Translation, va: u32): (at: int)
    requires (InRam(t.frame) || InSystemRom(t.frame)) && va % 4 == 0
    ensures IsWordAddress(at) && t.frame <= at <= t.frame + PAGE_SIZE - 4
  {
    PageRemainder(va);
    t.frame + (va - PageOf(va))
  }

  lemma PageRemainder(va: u32)
    requires va % 4 == 0
    ensures 0 <= va - PageOf(va) <= PAGE_SIZE - 4
  {
  }

  /** The bytes of the frame at p. */
  function FrameBytes(p: int): set<int> { Range(p, p + FRAME_SIZE) }

  /** No byte of x lies in the page at a. */
  ghost predicate ClearOf(x: set<int>, a: int) {
    forall i {:trigger i in x} :: i in x ==> !(a <= i < a + PAGE_SIZE)
  }

  /** The bytes of x are clear of the tables and the page that an access to va uses. */
  ghost predicate Unused(m: Mem, root: int, va: u32, x: set<int>)
    requires IsTableAddress(root)
  {
    && ClearOf(x, root) && ClearOf(x, And(Entry(m, root, va / 0x40_0000), PAGE_MASK))
    && (Walk(m, root, va).Some? ==> ClearOf(x, Walk(m, root, va).value.frame))
  }

  /** A walk does not see such bytes. */
  lemma WalkUnseen(m: Mem, m': Mem, root: int, va: u32, x: set<int>)
    requires IsTableAddress(root) && Unused(m, root, va, x) && SameOutside(m, m', x)
    ensures Walk(m', root, va) == Walk(m, root, va) && Unused(m', root, va, x)
    ensures PteAddress(m', root, va) == PteAddress(m, root, va)
    ensures IsWordAddress(PteAddress(m, root, va)) ==>
      Word(m', PteAddress(m, root, va)) == Word(m, PteAddress(m, root, va))
  {
    var k, e := va / 0x40_0000, va / PAGE_SIZE % 1024;
    WordKept(m, m', root + 4 * k);
    var at := PteAddress(m, root, va);
    if IsWordAddress(at) {
      WordKept(m, m', at);
    }
  }

  /** Two attempts at va that start apart in bytes of x only end the same way, apart in bytes of x only. */
  ghost predicate SameOutcome(a: Attempt, b: Attempt, va: u32, x: set<int>) {
    match a
    case Device => b.Device?
    case Fault(c) => b == Fault(c)
    case Done(g, m, tlb) =>
      && b.Done? && SameOutside(m, b.m, x) && SameProgram(g, b.g)
      && PageOf(va) in tlb && PageOf(va) in b.tlb && b.tlb[PageOf(va)] == tlb[PageOf(va)]
  }

  /** Everything the interrupted program can see of the registers agrees. */
  predicate SameProgram(g: Registers, h: Registers) {
    && g.r == h.r && g.pc == h.pc && g.cpsr == h.cpsr
    && g.sp.usr == h.sp.usr && g.lr.usr == h.lr.usr
    && g.sp.svc == h.sp.svc && g.lr.svc == h.lr.svc && g.spsr.svc == h.spsr.svc
    && g.sp.und == h.sp.und && g.lr.und == h.lr.und && g.spsr.und == h.spsr.und
    && g.sp.abt == h.sp.abt
  }

  lemma PutWordUnseen(m: Mem, m': Mem, at: int, v: u32, x: set<int>)
    requires IsWordAddress(at) && SameOutside(m, m', x)
    ensures SameOutside(PutWord(m, at, v), PutWord(m', at, v), x)
  {
    var n, n' := PutWord(m, at, v), PutWord(m', at, v);
    forall i | 0 <= i < PHYS_TOP && i !in x ensures n'[i] == n[i] {
      if !(at <= i < at + 4) {
        assert m'[i] == m[i];
      }
    }
  }

  /** An access is not affected by bytes it does not use, nor by what else the TLB holds. */
  lemma ExecuteUnseen(g: Registers, m: Mem, tlb: map<u32, Translation>, h: Registers, m': Mem, tlb': map<u32, Translation>,
                      root: int, a: Access, x: set<int>)
    requires IsTableAddress(root) && a.Valid() && Unused(m, root, a.va, x)
    requires SameOutside(m, m', x) && SameProgram(g, h) && PageOf(a.va) !in tlb && PageOf(a.va) !in tlb'
    ensures SameOutcome(Execute(g, m, root, tlb, a), Execute(h, m', root, tlb', a), a.va, x)
  {
    WalkUnseen(m, m', root, a.va, x);
    var t := Walk(m, root, a.va);
    if t.Some? && (InRam(t.value.frame) || InSystemRom(t.value.frame)) {
      CompletedUnseen(g, m, tlb, h, m', tlb', root, t.value, a, x);
    }
  }

  lemma CompletedUnseen(g: Registers, m: Mem, tlb: map<u32, Translation>, h: Registers, m': Mem, tlb': map<u32, Translation>,
                        root: int, t: Translation, a: Access, x: set<int>)
    requires IsTableAddress(root) && a.Valid() && Unused(m, root, a.va, x)
    requires SameOutside(m, m', x) && SameProgram(g, h) && PageOf(a.va) !in tlb && PageOf(a.va) !in tlb'
    requires (InRam(t.frame) || InSystemRom(t.frame)) && ClearOf(x, t.frame)
    ensures SameOutcome(Completed(g, m, root, tlb, t, a), Completed(h, m', root, tlb', t, a), a.va, x)
  {
    MarkUnseen(m, m', root, a.va, a.write, x);
    TransferUnseen(g, MarkWalk(m, root, a.va, a.write), h, MarkWalk(m', root, a.va, a.write), Target(t, a.va), a, x);
  }

  lemma MarkUnseen(m: Mem, m': Mem, root: int, va: u32, write: bool, x: set<int>)
    requires IsTableAddress(root) && Unused(m, root, va, x) && SameOutside(m, m', x)
    ensures SameOutside(MarkWalk(m, root, va, write), MarkWalk(m', root, va, write), x)
  {
    WalkUnseen(m, m', root, va, x);
    if Walk(m, root, va).Some? {
      var at := PteAddress(m, root, va);
      PutWordUnseen(m, m', at, UsedPte(Word(m, at), write), x);
    }
  }

  lemma TransferUnseen(g: Registers, m: Mem, h: Registers, m': Mem, at: int, a: Access, x: set<int>)
    requires a.Valid() && IsWordAddress(at) && SameOutside(m, m', x) && SameProgram(g, h)
    requires forall i {:trigger i in x} :: at <= i < at + 4 ==> i !in x
    ensures var v, w := Transfer(g, m, at, a), Transfer(h, m', at, a);
      SameProgram(v.0, w.0) && SameOutside(v.1, w.1, x)
  {
    if a.write {
      PutWordUnseen(m, m', at, g.r[a.reg], x);
    } else {
      WordKept(m, m', at);
    }
  }

  /** The registers with which the abort handler is entered. */
  function Aborted(g: Registers, a: Access, status: u32): Registers {
    TakeException(g.(dfsr := status, dfar := a.va), DataAbort)
  }

  /**
   * Handler registers h at the end of the dispatcher: anything may have happened to r0-r12,
   * but the abort stack pointer addresses the frame again and other modes' banks are as found.
   */
  predicate HandlerReturns(g: Registers, h: Registers) {
    && h.sp.abt + FRAME_SIZE == g.sp.abt
    && h.sp.svc == g.sp.svc && h.lr.svc == g.lr.svc && h.spsr.svc == g.spsr.svc
    && h.sp.und == g.sp.und && h.lr.und == g.lr.und && h.spsr.und == g.spsr.und
  }

  /**
   * Transparency.  g is the program at the faulting access and repaired is memory with the handler's
   * page-table repair; m2 is memory when the handler returns, its frame at p as saved.  Besides the
   * frame the handler and the hardware may have changed any bytes that the access does not use, such
   * as the handler's stack, its variables and the use bits of kernel pages, and may have cached
   * anything but the page.  The retry ends exactly as one execution in repaired memory would have.
   */
  lemma RepairIsTransparent(g: Registers, status: u32, a: Access, root: int, repaired: Mem, tlb: map<u32, Translation>,
                            h: Registers, m2: Mem, tlb2: map<u32, Translation>, p: int, x: set<int>)
    requires IsTableAddress(root) && a.Valid() && Unused(repaired, root, a.va, x) && IsFrameAddress(p)
    requires HandlerReturns(g, h) && PageOf(a.va) !in tlb && PageOf(a.va) !in tlb2
    requires SameOutside(repaired, m2, x)
    requires ReadFrame(m2, p) == SavedFrame(Aborted(g, a, status), DataAbort)
    ensures var back := Resumed(h, ReadFrame(m2, p), h.sp.abt, DataAbort);
      SameOutcome(Execute(g, repaired, root, tlb, a), Execute(back, m2, root, tlb2, a), a.va, x)
  {
    ReturnIsSameProgram(g, status, a, h);
    ExecuteUnseen(g, repaired, tlb, Resumed(h, ReadFrame(m2, p), h.sp.abt, DataAbort), m2, tlb2, root, a, x);
  }

  lemma ReturnIsSameProgram(g: Registers, status: u32, a: Access, h: Registers)
    requires HandlerReturns(g, h)
    ensures SameProgram(g, Resumed(h, SavedFrame(Aborted(g, a, status), DataAbort), h.sp.abt, DataAbort))
  {
    ReturnRestores(g.(dfsr := status, dfar := a.va), DataAbort, h, h.sp.abt);
  }

  /** Adding 4 to return_lr instead resumes after the access, which then has had no effect at all. */
  lemma SkipOmitsAccess(g: Registers, status: u32, a: Access, h: Registers, f: TrapFrame)
    requires HandlerReturns(g, h)
    requires var saved := SavedFrame(Aborted(g, a, status), DataAbort);
      f == saved.(returnLr := Add32(saved.returnLr, 4))
    ensures SameProgram(g.(pc := Add32(g.pc, 4)), Resumed(h, f, h.sp.abt, DataAbort))
  {
    ReturnIsSameProgram(g, status, a, h);
    PlusTwice(g.pc);
  }

  lemma PlusTwice(pc: u32)
    ensures Add32(Add32(Add32(pc, 8), 4), -8) == Add32(pc, 4)
  {
    var b := Add32(pc, 8);
    assert b == pc + 8 || b == pc + 8 - 0x1_0000_0000;
  }

  /** The processor's part: one attempt through the tables at root, and the state it leaves if it completes. */
  method Attempted(machine: Machine, root: int, a: Access) returns (x: Attempt)
    requires machine.Valid() && IsTableAddress(root) && a.Valid()
    modifies machine`g, machine`tlb, machine.mem
    ensures x == Execute(old(machine.g), old(machine.mem[..]), root, old(machine.tlb), a)
    ensures x.Done? ==> machine.g == x.g && machine.mem[..] == x.m && machine.tlb == x.tlb
    ensures !x.Done? ==> machine.g == old(machine.g) && machine.mem[..] == old(machine.mem[..]) && machine.tlb == old(machine.tlb)
  {
    x := Execute(machine.g, machine.mem[..], root, machine.tlb, a);
    if x.Done? {
      machine.g := x.g;
      machine.tlb := x.tlb;
      var m := x.m;
      forall i | 0 <= i < PHYS_TOP { machine.mem[i] := m[i]; }
      assert machine.mem[..] == m;
    }
  }
}
