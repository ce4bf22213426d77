/** The one-byte UART system call: one user-mode SVC from trap to return. */
module UserSyscalls {
  import opened Bits
  import opened Memory
  import opened Mmu
  import opened Bootstrap
  import opened Trap
  import opened FaultRepair

  const A32_SVC_ZERO := 0xef00_0000
  const SYSCALL_UART_PUTCHAR := 1
  const SYSCALL_ERROR := 0xffff_ffff
  const TRACE_USER_SYSCALL := 0x4845_4c10

  /** The word a supervisor load from va returns, if it does not fault. */
  function KernelRead(m: Mem, va: u32): Option<u32> {
    match Walk(m, ROOT, va)
    case None => None
    case Some(t) =>
      if t.Readable() && (InRam(t.frame) || InSystemRom(t.frame)) && va % 4 == 0 then Some(Word(m, Target(t, va)))
      else None
  }

  lemma ReadableIsRead(m: Mem, va: u32)
    requires Walk(m, ROOT, va).Some? && Walk(m, ROOT, va).value.Readable()
    requires InRam(Walk(m, ROOT, va).value.frame) && va % 4 == 0
    ensures 0 <= Physical(Walk(m, ROOT, va).value, va) <= PHYS_TOP - 4
    ensures KernelRead(m, va) == Some(Word(m, Physical(Walk(m, ROOT, va).value, va)))
  {
    PageRemainder(va);
  }

  predicate FromArmUser(g: Registers) { g.cpsr % 32 == ModeBits(Usr) && g.cpsr / 32 % 2 == 0 }

  /** The words of frame f that describe the interrupted program g. */
  predicate FrameOf(f: TrapFrame, g: Registers) {
    f.exceptionId == ID_SVC && f.r == g.r && f.spsr == g.cpsr && f.faultPc == g.pc
  }

  /** A user-mode A32 `svc #0` asking for one byte to be written. */
  predicate IsPutchar(g: Registers, instruction: u32) {
    && FromArmUser(g)
    && instruction == A32_SVC_ZERO && g.r[7] == SYSCALL_UART_PUTCHAR && g.r[0] <= 0xff
  }

  /** The devices and the flag of the dispatcher. */
  datatype Console = Console(uart: seq<u32>, trace: seq<u32>, observed: bool)

  function AfterSvc(k: Console, g: Registers, instruction: u32): Console {
    if !IsPutchar(g, instruction) then k
    else Emitted(k, g.r[0])
  }

  /** A byte sent, after the trace event of the first one. */
  function Emitted(k: Console, byte: u32): Console {
    Console(k.uart + [byte], if k.observed then k.trace else k.trace + [TRACE_USER_SYSCALL], true)
  }

  /** The user program's registers after the call. */
  function ResultOf(g: Registers, instruction: u32): u32 {
    if IsPutchar(g, instruction) then 0 else SYSCALL_ERROR
  }

  /** The user program's registers, memory, the TLB and the devices. */
  datatype State = State(g: Registers, m: Mem, tlb: map<u32, Translation>, console: Console)

  /**
   * What one SVC does: the call's effect on the devices, its result in r0, and the program resumed
   * after the `svc`.  Only its frame and bytes of scratch change: the dispatcher's stack and its flag.
   */
  ghost predicate SvcStep(s: State, instruction: u32, s': State, scratch: set<int>)
    requires StackOk(s.g.sp.svc)
  {
    var p := KernelPhysical(s.g.sp.svc - FRAME_SIZE);
    && s'.console == AfterSvc(s.console, s.g, instruction)
    && s'.g.r == s.g.r[0 := ResultOf(s.g, instruction)] && s'.g.pc == Add32(s.g.pc, 4)
    && s'.g.cpsr == s.g.cpsr && s'.g.sp.usr == s.g.sp.usr && s'.g.lr.usr == s.g.lr.usr
    && s'.g.sp.svc == s.g.sp.svc
    && s'.tlb == s.tlb && SameOutside(s.m, s'.m, FrameBytes(p) + scratch)
  }

  /** What the program and the devices see of one call: a byte sent and 0, or nothing sent and -1. */
  lemma CallSeen(s: State, instruction: u32, s': State, scratch: set<int>)
    requires StackOk(s.g.sp.svc) && SvcStep(s, instruction, s', scratch)
    ensures s'.g.r[0] == if |s'.console.uart| > |s.console.uart| then 0 else 0xffff_ffff
    ensures if s.g.cpsr % 64 == 0x10 && instruction == 0xef00_0000 && s.g.r[7] == 1 && s.g.r[0] < 256 then
        && s'.console.uart == s.console.uart + [s.g.r[0]] && s'.console.observed
        && s'.console.trace == s.console.trace + (if s.console.observed then [] else [0x4845_4c10])
      else s'.console == s.console
    ensures forall k {:trigger s'.g.r[k]} :: 1 <= k < 13 ==> s'.g.r[k] == s.g.r[k]
    ensures s'.g.pc == (s.g.pc + 4) % 0x1_0000_0000 && s'.g.cpsr == s.g.cpsr
    ensures s'.g.sp.usr == s.g.sp.usr && s'.g.lr.usr == s.g.lr.usr
  {
    UserStatus(s.g.cpsr);
  }

  lemma UserStatus(cpsr: u32)
    ensures cpsr % 64 == 0x10 <==> cpsr % 32 == 0x10 && cpsr / 32 % 2 == 0
  {
    assert cpsr == 64 * (cpsr / 64) + cpsr % 64;
    assert cpsr / 32 == 2 * (cpsr / 64) + cpsr % 64 / 32;
  }

  /** `spsr & 0x1f` and `spsr & 0x20`. */
  lemma StatusBits(spsr: u32)
    ensures And(spsr, 0x1f) == spsr % 32
    ensures And(spsr, 0x20) != 0 <==> spsr / 32 % 2 == 1
  {
    LowBits(spsr);
    AndShifted(spsr, 1, 5);
    assert ShiftLeft(1, 5) == 32;
    ShiftRight4(spsr, 1);
    assert ShiftRight(spsr / 16, 1) == spsr / 32;
    LowBits(spsr / 32);
    assert ShiftLeft(spsr / 32 % 2, 5) == 32 * (spsr / 32 % 2);
  }

  class Kernel {
    const machine: Machine
    /** The bytes of the kernel's stacks and of user_syscall_observed, whose value is part of console. */
    const scratch: set<int>
    var console: Console

    predicate Valid()
      reads this, machine
    {
      machine.Valid()
    }

    constructor (machine: Machine, scratch: set<int>)
      requires machine.Valid()
      ensures Valid() && this.machine == machine && this.scratch == scratch && console == Console([], [], false)
    {
      this.machine := machine;
      this.scratch := scratch;
      console := Console([], [], false);
    }

    ghost function Current(): State
      requires machine.Valid()
      reads this, machine, machine.mem
    {
      State(machine.g, machine.mem[..], machine.tlb, console)
    }

    /** The dispatcher's tests on the frame at p, and the byte to send; the instruction is read only for an A32 user-mode trap. */
    method Accepts(p: int, ghost g: Registers, ghost instruction: u32) returns (ok: bool, byte: u32)
      requires Valid() && IsFrameAddress(p)
      requires FrameOf(ReadFrame(machine.mem[..], p), g)
      requires FromArmUser(g) ==> KernelRead(machine.mem[..], g.pc) == Some(instruction)
      ensures (ok <==> IsPutchar(g, instruction)) && byte == g.r[0]
    {
      var f := ReadFrame(machine.mem[..], p);
      StatusBits(f.spsr);
      if f.exceptionId != ID_SVC || And(f.spsr, 0x1f) != 0x10 || And(f.spsr, 0x20) != 0 {
        return false, f.r[0];
      }
      var word := KernelRead(machine.mem[..], f.faultPc).value;
      return !(word != A32_SVC_ZERO || f.r[7] != SYSCALL_UART_PUTCHAR || f.r[0] > 0xff), f.r[0];
    }

    /** minemu_svc_dispatch on the frame at p. */
    method SvcDispatch(p: int, ghost g: Registers, ghost instruction: u32)
      requires Valid() && IsFrameAddress(p)
      requires FrameOf(ReadFrame(machine.mem[..], p), g)
      requires FromArmUser(g) ==> KernelRead(machine.mem[..], g.pc) == Some(instruction)
      modifies this`console, machine.mem
      ensures Valid() && console == AfterSvc(old(console), g, instruction)
      ensures machine.mem[..] == PutWord(old(machine.mem[..]), p, ResultOf(g, instruction))
      ensures Word(machine.mem[..], p) == if |console.uart| > |old(console).uart| then 0 else 0xffff_ffff
    {
      var ok, byte := Accepts(p, g, instruction);
      if !ok {
        SetResult(p, SYSCALL_ERROR, g, instruction);
        return;
      }
      Emit(byte);
      SetResult(p, 0, g, instruction);
    }

    /** The trace event and the write to the UART. */
    method Emit(byte: u32)
      modifies this`console
      ensures console == Emitted(old(console), byte)
    {
      if !console.observed {
        console := console.(trace := console.trace + [TRACE_USER_SYSCALL], observed := true);
      }
      console := console.(uart := console.uart + [byte]);
    }

    method SetResult(p: int, v: u32, ghost g: Registers, ghost instruction: u32)
      requires Valid() && IsFrameAddress(p) && v == ResultOf(g, instruction)
      modifies machine.mem
      ensures machine.mem[..] == PutWord(old(machine.mem[..]), p, ResultOf(g, instruction))
    {
      WriteWord(machine.mem, p, v);
    }

    /** Exception entry and the trampoline up to the call of the dispatcher. */
    method Trap(ghost instruction: u32) returns (frame: u32, p: int)
      requires Valid() && StackOk(machine.g.sp.svc)
      requires Unused(machine.mem[..], ROOT, machine.g.pc, FrameBytes(KernelPhysical(machine.g.sp.svc - FRAME_SIZE)))
      requires FromArmUser(machine.g) ==> KernelRead(machine.mem[..], machine.g.pc) == Some(instruction)
      modifies machine`g, machine.mem
      ensures Valid() && frame == old(machine.g.sp.svc) - FRAME_SIZE == machine.g.sp.svc
      ensures p == KernelPhysical(frame) && IsFrameAddress(p)
      ensures ReadFrame(machine.mem[..], p) == SavedFrame(TakeException(old(machine.g), Supervisor), Supervisor)
      ensures FrameOf(ReadFrame(machine.mem[..], p), old(machine.g))
      ensures SameBut(old(machine.mem[..]), machine.mem[..], p, p + FRAME_SIZE)
      ensures FromArmUser(old(machine.g)) ==> KernelRead(machine.mem[..], old(machine.g).pc) == Some(instruction)
    {
      ghost var g, m: Mem := machine.g, machine.mem[..];
      machine.g := TakeException(machine.g, Supervisor);
      frame, p := machine.SaveFrame(Supervisor);
      SavedForSvc(g);
      if FromArmUser(g) {
        KernelReadUnseen(m, machine.mem[..], g.pc, FrameBytes(p));
      }
    }

    /**
     * One SVC of the user program in machine.g: exception entry, trampoline, dispatcher (free to
     * change r0-r12), trampoline and return.
     */
    method Svc(instruction: u32)
      requires Valid() && StackOk(machine.g.sp.svc)
      requires Unused(machine.mem[..], ROOT, machine.g.pc, FrameBytes(KernelPhysical(machine.g.sp.svc - FRAME_SIZE)))
      requires FromArmUser(machine.g) ==> KernelRead(machine.mem[..], machine.g.pc) == Some(instruction)
      modifies this`console, machine`g, machine.mem
      ensures Valid() && SvcStep(old(Current()), instruction, Current(), scratch)
    {
      ghost var s := Current();
      var frame, p := Trap(instruction);
      ghost var m1: Mem := machine.mem[..];
      SvcDispatch(p, s.g, instruction);
      Scribble(machine.mem, scratch - FrameBytes(p));
      Return(frame, p, s, m1, instruction);
    }

    /** From the dispatcher's return on; m1 is memory as the dispatcher found it. */
    method Return(frame: u32, p: int, ghost s: State, ghost m1: Mem, ghost instruction: u32)
      requires Valid() && StackOk(s.g.sp.svc) && frame == s.g.sp.svc - FRAME_SIZE == machine.g.sp.svc
      requires p == KernelPhysical(frame) && SameBut(s.m, m1, p, p + FRAME_SIZE)
      requires ReadFrame(m1, p) == SavedFrame(TakeException(s.g, Supervisor), Supervisor)
      requires SameOutside(PutWord(m1, p, ResultOf(s.g, instruction)), machine.mem[..], scratch - FrameBytes(p))
      requires console == AfterSvc(s.console, s.g, instruction) && machine.tlb == s.tlb
      modifies machine`g
      ensures Valid() && SvcStep(s, instruction, Current(), scratch)
    {
      var anything: General := *;
      machine.g := machine.g.(r := anything);
      ghost var h := machine.g;
      machine.RestoreFrame(Supervisor, frame);
      ghost var s' := Current();
      SvcDone(s, s', m1, h, p, instruction, scratch);
    }
  }

  /** Dispatcher and return make the step, with m1 the memory and h the registers around the dispatcher. */
  lemma SvcDone(s: State, s': State, m1: Mem, h: Registers, p: int, instruction: u32, scratch: set<int>)
    requires StackOk(s.g.sp.svc) && p == KernelPhysical(s.g.sp.svc - FRAME_SIZE) && h.sp.svc + FRAME_SIZE == s.g.sp.svc
    requires SameBut(s.m, m1, p, p + FRAME_SIZE)
    requires ReadFrame(m1, p) == SavedFrame(TakeException(s.g, Supervisor), Supervisor)
    requires SameOutside(PutWord(m1, p, ResultOf(s.g, instruction)), s'.m, scratch - FrameBytes(p))
    requires s'.g == Resumed(h, ReadFrame(s'.m, p), h.sp.svc, Supervisor)
    requires s'.console == AfterSvc(s.console, s.g, instruction) && s'.tlb == s.tlb
    ensures SvcStep(s, instruction, s', scratch)
  {
    var v := ResultOf(s.g, instruction);
    var m2 := PutWord(m1, p, v);
    ResultInFrame(m1, m2, p, v);
    FrameOutside(m2, s'.m, p, scratch - FrameBytes(p));
    SvcReturns(s.g, h, ReadFrame(s'.m, p), v);
    ResultFrame(s.m, m1, m2, s'.m, p, v, scratch);
  }

  lemma SavedForSvc(g: Registers)
    ensures FrameOf(SavedFrame(TakeException(g, Supervisor), Supervisor), g)
  {
    PlusBack(g.pc, 4);
  }

  lemma KernelReadUnseen(m: Mem, m': Mem, va: u32, x: set<int>)
    requires Unused(m, ROOT, va, x) && SameOutside(m, m', x) && KernelRead(m, va).Some?
    ensures KernelRead(m', va) == KernelRead(m, va)
  {
    WalkUnseen(m, m', ROOT, va, x);
    WordKept(m, m', Target(Walk(m, ROOT, va).value, va));
  }

  lemma ResultInFrame(m1: Mem, m2: Mem, p: int, v: u32)
    requires IsFrameAddress(p) && m2 == PutWord(m1, p, v)
    ensures ReadFrame(m2, p) == ReadFrame(m1, p).(r := ReadFrame(m1, p).r[0 := v])
  {
    var r1, r2 := ReadFrame(m1, p).r, ReadFrame(m2, p).r;
    forall i | 0 <= i < 13 ensures r2[i] == r1[0 := v][i] {}
    assert r2 == r1[0 := v];
  }

  lemma ResultFrame(m0: Mem, m1: Mem, m2: Mem, m3: Mem, p: int, v: u32, scratch: set<int>)
    requires IsFrameAddress(p) && SameBut(m0, m1, p, p + FRAME_SIZE) && m2 == PutWord(m1, p, v)
    requires SameOutside(m2, m3, scratch - FrameBytes(p))
    ensures SameOutside(m0, m3, FrameBytes(p) + scratch)
  {
  }

  lemma SvcReturns(g: Registers, h: Registers, f: TrapFrame, v: u32)
    requires f == var saved := SavedFrame(TakeException(g, Supervisor), Supervisor); saved.(r := saved.r[0 := v])
    requires h.sp.svc + FRAME_SIZE == g.sp.svc
    ensures var back := Resumed(h, f, h.sp.svc, Supervisor);
      && back.r == g.r[0 := v] && back.pc == Add32(g.pc, 4) && back.cpsr == g.cpsr
      && back.sp.usr == g.sp.usr && back.lr.usr == g.lr.usr && back.sp.svc == g.sp.svc
  {
    ReturnRestores(g, Supervisor, h, h.sp.svc);
  }
}
