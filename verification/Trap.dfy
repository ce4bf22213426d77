/**
 * Banked registers, exception entry and return, and the trap frame that the vector code
 * saves and restores.  Kernel stacks lie in the direct map, so a stack address names the
 * physical byte KernelPhysical gives.
 */
module Trap {
  import opened Bits
  import opened Memory
  import opened Mmu

  const VECTORS := 0xc003_0000
  const FRAME_SIZE := 88

  const ID_UNDEFINED := 0xffff_fffc
  const ID_SVC := 0xffff_fffd
  const ID_PREFETCH_ABORT := 0xffff_fffe
  const ID_DATA_ABORT := 0xffff_ffff

  datatype Mode = Usr | Svc | Abt | Und

  function ModeBits(mode: Mode): u32 {
    match mode
    case Usr => 0x10
    case Svc => 0x13
    case Abt => 0x17
    case Und => 0x1b
  }

  /** One value per processor mode. */
  datatype Bank = Bank(usr: u32, svc: u32, abt: u32, und: u32) {
    function Get(mode: Mode): u32 {
      match mode
      case Usr => usr
      case Svc => svc
      case Abt => abt
      case Und => und
    }

    function Set(mode: Mode, v: u32): (b: Bank)
      ensures b.Get(mode) == v
      ensures forall other {:trigger b.Get(other)} :: other != mode ==> b.Get(other) == Get(other)
    {
      match mode
      case Usr => this.(usr := v)
      case Svc => this.(svc := v)
      case Abt => this.(abt := v)
      case Und => this.(und := v)
    }
  }

  /** r0 to r12. */
  type General = s: seq<u32> | |s| == 13 witness [0, 0, 0, 0, 0, 0, 0, 0, 0, 0, 0, 0, 0]

  datatype Registers = Registers(r: General, pc: u32, cpsr: u32, sp: Bank, lr: Bank, spsr: Bank, dfsr: u32, dfar: u32)

  /** The exceptions whose entry code is modelled, with their mode, link offset and vector. */
  datatype Exception = Undefined | Supervisor | PrefetchAbort | DataAbort {
    function Mode(): Mode {
      match this
      case Undefined => Und
      case Supervisor => Svc
      case PrefetchAbort => Abt
      case DataAbort => Abt
    }

    /** Link register minus the address of the instruction that caused the exception. */
    function LinkOffset(): u32 { if DataAbort? then 8 else 4 }

    function Vector(): u32 {
      VECTORS + match this
                case Undefined => 4
                case Supervisor => 8
                case PrefetchAbort => 12
                case DataAbort => 16
    }

    function Id(): u32 {
      match this
      case Undefined => ID_UNDEFINED
      case Supervisor => ID_SVC
      case PrefetchAbort => ID_PREFETCH_ABORT
      case DataAbort => ID_DATA_ABORT
    }

    predicate ReadsFaultRegisters() { PrefetchAbort? || DataAbort? }

    /** What the return instruction subtracts from the restored link register. */
    function ReturnOffset(): u32 {
      match this
      case Undefined => 0
      case Supervisor => 0
      case PrefetchAbort => 4
      case DataAbort => 8
    }
  }

  /** Processor state during a handler: flags and F kept, I set, ARM state, the exception's mode. */
  function HandlerCpsr(cpsr: u32, mode: Mode): u32 {
    cpsr - cpsr % 0x100 + cpsr / 0x40 % 2 * 0x40 + 0x80 + ModeBits(mode)
  }

  /** Exception entry, section B1.8 of the architecture manual. */
  function TakeException(g: Registers, x: Exception): Registers {
    g.(lr := g.lr.Set(x.Mode(), Add32(g.pc, x.LinkOffset())),
       spsr := g.spsr.Set(x.Mode(), g.cpsr),
       cpsr := HandlerCpsr(g.cpsr, x.Mode()),
       pc := x.Vector())
  }

  /** The frame as the C structure names its words. */
  datatype TrapFrame = TrapFrame(
    r: General, returnLr: u32, spsr: u32, exceptionId: u32, faultPc: u32,
    dfsr: u32, dfar: u32, userSp: u32, userLr: u32, reserved: u32)

  predicate IsFrameAddress(p: int) {
    0 <= p <= PHYS_TOP - FRAME_SIZE
  }

  function ReadFrame(m: Mem, p: int): TrapFrame
    requires IsFrameAddress(p)
  {
    TrapFrame(seq(13, i requires 0 <= i < 13 => Word(m, p + 4 * i)), Word(m, p + 52), Word(m, p + 56), Word(m, p + 60),
              Word(m, p + 64), Word(m, p + 68), Word(m, p + 72), Word(m, p + 76), Word(m, p + 80), Word(m, p + 84))
  }

  /** What entry code saves for exception x, in a handler whose registers are g. */
  function SavedFrame(g: Registers, x: Exception): TrapFrame {
    TrapFrame(g.r, g.lr.Get(x.Mode()), g.spsr.Get(x.Mode()), x.Id(), Add32(g.lr.Get(x.Mode()), -(x.LinkOffset() as int)),
              if x.ReadsFaultRegisters() then g.dfsr else 0, if x.ReadsFaultRegisters() then g.dfar else 0,
              g.sp.usr, g.lr.usr, 0)
  }

  function FrameWords(f: TrapFrame): (ws: seq<u32>)
    ensures |ws| == 22
  {
    f.r + [f.returnLr, f.spsr, f.exceptionId, f.faultPc, f.dfsr, f.dfar, f.userSp, f.userLr, f.reserved]
  }

  lemma FrameRoundTrip(m: Mem, p: int, f: TrapFrame)
    requires IsFrameAddress(p)
    ensures ReadFrame(WordsStored(m, p, FrameWords(f)), p) == f
    ensures SameBut(m, WordsStored(m, p, FrameWords(f)), p, p + FRAME_SIZE)
  {
    var ws := FrameWords(f);
    WordsStoredRead(m, p, ws);
    FrameOfWords(WordsStored(m, p, ws), p, ws);
    assert ws[..13] == f.r;
  }

  /** The words at p, in the places the structure gives them. */
  lemma FrameOfWords(m: Mem, p: int, ws: seq<u32>)
    requires IsFrameAddress(p) && |ws| == 22
    requires WordsAt(m, p, ws)
    ensures ReadFrame(m, p) ==
      TrapFrame(ws[..13], ws[13], ws[14], ws[15], ws[16], ws[17], ws[18], ws[19], ws[20], ws[21])
  {
    var r := seq(13, i requires 0 <= i < 13 => Word(m, p + 4 * i));
    forall i | 0 <= i < 13 ensures r[i] == ws[i] {}
    assert r == ws[..13];
  }

  /** A frame outside the changed bytes reads the same. */
  lemma FrameKept(m: Mem, m': Mem, p: int)
    requires IsFrameAddress(p) && SameOn(m, m', p, p + FRAME_SIZE)
    ensures ReadFrame(m', p) == ReadFrame(m, p)
  {
    forall a | p <= a <= p + 84 ensures Word(m', a) == Word(m, a) { WordKept(m, m', a); }
    assert ReadFrame(m', p).r == ReadFrame(m, p).r;
  }

  /** The bytes of x are none of the frame at p. */
  ghost predicate NotInFrame(x: set<int>, p: int) {
    forall i {:trigger i in x} :: i in x ==> !(p <= i < p + FRAME_SIZE)
  }

  lemma FrameOutside(m: Mem, m': Mem, p: int, x: set<int>)
    requires IsFrameAddress(p) && SameOutside(m, m', x) && NotInFrame(x, p)
    ensures ReadFrame(m', p) == ReadFrame(m, p)
  {
    FrameKept(m, m', p);
  }

  /** A stack pointer with room for a frame below it, inside the direct map. */
  predicate StackOk(sp: u32) {
    KERNEL_DIRECT_BASE + FRAME_SIZE <= sp <= KERNEL_DIRECT_BASE + KERNEL_DIRECT_SIZE && sp % 4 == 0
  }

  /** Registers after the exit code has run on frame f at virtual address base and returned. */
  function Resumed(g: Registers, f: TrapFrame, base: u32, x: Exception): Registers
    requires x.Mode() != Usr && base + FRAME_SIZE < 0x1_0000_0000
  {
    Registers(f.r, Add32(f.returnLr, -(x.ReturnOffset() as int)), f.spsr,
              g.sp.Set(Usr, f.userSp).Set(x.Mode(), base + FRAME_SIZE),
              g.lr.Set(Usr, f.userLr).Set(x.Mode(), f.returnLr),
              g.spsr.Set(x.Mode(), f.spsr), g.dfsr, g.dfar)
  }

  /** Nothing of the interrupted program is lost: returning through an untouched frame resumes it where it was. */
  lemma ReturnRestores(g0: Registers, x: Exception, g: Registers, base: u32)
    requires base + FRAME_SIZE < 0x1_0000_0000 && base + FRAME_SIZE == g0.sp.Get(x.Mode())
    ensures var back := Resumed(g, SavedFrame(TakeException(g0, x), x), base, x);
      && back.r == g0.r && back.cpsr == g0.cpsr
      && back.sp.usr == g0.sp.usr && back.lr.usr == g0.lr.usr
      && back.sp.Get(x.Mode()) == g0.sp.Get(x.Mode())
      && back.pc == Add32(g0.pc, if x.PrefetchAbort? || x.DataAbort? then 0 else 4)
  {
    PlusBack(g0.pc, 8);
    PlusBack(g0.pc, 4);
  }

  lemma PlusBack(a: u32, b: u32)
    requires b < 16
    ensures Add32(Add32(a, b), -(b as int)) == a && Add32(Add32(a, b), 0) == Add32(a, b) && Add32(a, 0) == a
  {
  }

  class Machine {
    const mem: array<byte>
    var g: Registers
    /** Cached walk results, by page. */
    var tlb: map<u32, Translation>

    predicate Valid()
      reads this
    {
      mem.Length == PHYS_TOP
    }

    constructor (mem: array<byte>, g: Registers)
      requires mem.Length == PHYS_TOP
      ensures Valid() && this.mem == mem && this.g == g && tlb == map[]
    {
      this.mem := mem;
      this.g := g;
      tlb := map[];
    }

    /** The entry code of exception x, up to the call of the C dispatcher; p is the frame's physical address. */
    method SaveFrame(x: Exception) returns (frame: u32, p: int)
      requires Valid() && StackOk(g.sp.Get(x.Mode()))
      modifies this`g, mem
      ensures frame == old(g.sp.Get(x.Mode())) - 88 && p == KernelPhysical(frame) && IsFrameAddress(p)
      ensures ReadFrame(mem[..], p) == SavedFrame(old(g), x)
      ensures SameBut(old(mem[..]), mem[..], p, p + FRAME_SIZE)
      ensures g == old(g).(r := old(g).r[0 := frame][1 := 0], sp := old(g).sp.Set(x.Mode(), frame))
    {
      frame := g.sp.Get(x.Mode()) - FRAME_SIZE;
      p := KernelPhysical(frame);
      var words := WordsToSave(g, x);
      StoreFrame(mem, p, words, SavedFrame(g, x));
      g := g.(r := g.r[0 := frame][1 := 0], sp := g.sp.Set(x.Mode(), frame));
    }

    /** The exit code of exception x, from a frame at virtual address frame, and the return to the interrupted program. */
    method RestoreFrame(x: Exception, frame: u32)
      requires Valid() && KERNEL_DIRECT_BASE <= frame && frame + FRAME_SIZE <= KERNEL_DIRECT_BASE + KERNEL_DIRECT_SIZE
      modifies this`g
      ensures g == Resumed(old(g), ReadFrame(mem[..], KernelPhysical(frame)), frame, x)
    {
      var p := KernelPhysical(frame);
      var link := ReadWord(mem, p + 52);
      var spsr := ReadWord(mem, p + 56);
      var userSp := ReadWord(mem, p + 76);
      var userLr := ReadWord(mem, p + 80);
      var r := ReadGeneral(mem, p);
      g := Registers(r, Add32(link, -(x.ReturnOffset() as int)), spsr,
                     g.sp.Set(Usr, userSp).Set(x.Mode(), frame + FRAME_SIZE),
                     g.lr.Set(Usr, userLr).Set(x.Mode(), link),
                     g.spsr.Set(x.Mode(), spsr), g.dfsr, g.dfar);
    }
  }

  method StoreFrame(mem: array<byte>, p: int, words: seq<u32>, ghost f: TrapFrame)
    requires mem.Length == PHYS_TOP && IsFrameAddress(p) && words == FrameWords(f)
    modifies mem
    ensures ReadFrame(mem[..], p) == f
    ensures SameBut(old(mem[..]), mem[..], p, p + FRAME_SIZE)
  {
    FrameRoundTrip(mem[..], p, f);
    WriteWords(mem, p, words);
  }

  /** The words the entry code stores, in ascending order of address. */
  method WordsToSave(g: Registers, x: Exception) returns (words: seq<u32>)
    ensures words == FrameWords(SavedFrame(g, x))
  {
    var link := g.lr.Get(x.Mode());
    words := g.r + [link, g.spsr.Get(x.Mode()), x.Id(), Add32(link, -(x.LinkOffset() as int))];
    if x.ReadsFaultRegisters() {
      words := words + [g.dfsr, g.dfar];
    } else {
      words := words + [0, 0];
    }
    words := words + [g.sp.usr, g.lr.usr, 0];
  }

  /** `ldmia sp, {r0-r12}`. */
  method ReadGeneral(mem: array<byte>, p: int) returns (r: General)
    requires mem.Length == PHYS_TOP && IsFrameAddress(p)
    ensures r == ReadFrame(mem[..], p).r
  {
    var ws: seq<u32> := [];
    for i := 0 to 13
      invariant |ws| == i
      invariant forall j :: 0 <= j < i ==> ws[j] == Word(mem[..], p + 4 * j)
    {
      var w := ReadWord(mem, p + 4 * i);
      ws := ws + [w];
    }
    r := ws;
  }

  /** The frame of each vector, against the program that it interrupts. */
  lemma FrameOfInterrupted(g: Registers, x: Exception)
    ensures var f := SavedFrame(TakeException(g, x), x);
      && f.r == g.r && f.spsr == g.cpsr && f.faultPc == g.pc && f.userSp == g.sp.usr && f.userLr == g.lr.usr
      && f.returnLr == (g.pc + (if x == DataAbort then 8 else 4)) % 0x1_0000_0000
      && f.dfsr == (if x == PrefetchAbort || x == DataAbort then g.dfsr else 0)
      && f.dfar == (if x == PrefetchAbort || x == DataAbort then g.dfar else 0)
      && f.exceptionId == (if x == Undefined then 0xffff_fffc else if x == Supervisor then 0xffff_fffd
                           else if x == PrefetchAbort then 0xffff_fffe else 0xffff_ffff)
      && f.reserved == 0
  {
    PlusBack(g.pc, 4);
    PlusBack(g.pc, 8);
  }

  /** The state in which a vector is entered: its address, its mode, IRQs off, ARM instructions, flags and F kept. */
  lemma VectorEntered(g: Registers, x: Exception)
    ensures var h := TakeException(g, x);
      && h.pc == 0xc003_0000 + (if x == Undefined then 4 else if x == Supervisor then 8 else if x == PrefetchAbort then 12 else 16)
      && h.cpsr % 32 == (if x == Undefined then 0x1b else if x == Supervisor then 0x13 else 0x17)
      && h.cpsr / 0x20 % 2 == 0 && h.cpsr / 0x80 % 2 == 1
      && h.cpsr / 0x40 % 2 == g.cpsr / 0x40 % 2 && h.cpsr / 0x100 == g.cpsr / 0x100
  {
    StatusParts(g.cpsr / 0x100, g.cpsr / 0x40 % 2, ModeBits(x.Mode()));
    assert g.cpsr - g.cpsr % 0x100 == 0x100 * (g.cpsr / 0x100);
  }

  lemma StatusParts(top: nat, f: nat, mode: nat)
    requires f < 2 && mode < 32
    ensures var c := 0x100 * top + f * 0x40 + 0x80 + mode;
      c % 32 == mode && c / 0x20 % 2 == 0 && c / 0x80 % 2 == 1 && c / 0x40 % 2 == f && c / 0x100 == top
  {
    var c := 0x100 * top + f * 0x40 + 0x80 + mode;
    var fives, sixes := 8 * top + 2 * f + 4, 4 * top + f + 2;
    assert c == 32 * fives + mode;
    Remainder32(fives, mode);
    assert c / 0x20 == fives;
    assert fives == 2 * sixes;
    Remainder2(sixes, 0);
    assert c / 0x40 == sixes;
    assert sixes == 2 * (2 * top + 1) + f;
    Remainder2(2 * top + 1, f);
    assert c / 0x80 == 2 * top + 1;
    Remainder2(top, 1);
  }
}
