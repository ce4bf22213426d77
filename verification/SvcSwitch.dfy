/** The SVC task-switch example: frame selection by the dispatcher, and every run of two tasks over it. */
module SvcSwitch {
  import opened Memory
  import opened Mmu
  import opened Trap

  const TASK_STACK_SIZE := 1024

  /**
   * Task B's code address and the base of its stack, both kernel virtual addresses; how far below a
   * frame the dispatcher's own stack may reach; and the physical bytes that change unseen: the
   * dispatcher's two pointers (whose values are fields of the state) and the table entries of kernel
   * pages, whose use the hardware records.
   */
  datatype Tasks = Tasks(entryB: u32, stackB: u32, depth: nat, scratch: set<int>) {
    ghost predicate Valid() {
      && KERNEL_DIRECT_BASE <= stackB <= KERNEL_DIRECT_BASE + KERNEL_DIRECT_SIZE - TASK_STACK_SIZE && stackB % 8 == 0
      && forall i {:trigger i in scratch} :: i in scratch ==> !(KernelPhysical(stackB) <= i < KernelPhysical(stackB + TASK_STACK_SIZE))
    }

    /** What the dispatcher may change below and beside the frame it is given. */
    function DispatcherBytes(frame: u32): set<int> {
      Range(KernelPhysical(frame) - depth, KernelPhysical(frame)) + scratch
    }

    /** What a whole trap at stack pointer sp may change. */
    function TrapBytes(sp: u32): set<int> {
      Range(KernelPhysical(sp) - FRAME_SIZE - depth, KernelPhysical(sp)) + scratch
    }

    function StackBytesB(): set<int> {
      Range(KernelPhysical(stackB), KernelPhysical(stackB + TASK_STACK_SIZE))
    }

    function TopB(): u32
      requires Valid()
    {
      stackB + TASK_STACK_SIZE
    }

    function FirstFrameB(): u32
      requires Valid()
    {
      stackB + TASK_STACK_SIZE - FRAME_SIZE
    }
  }

  /** Registers, memory and the dispatcher's two frame pointers (0 for null). */
  datatype System = System(g: Registers, m: Mem, frameA: u32, frameB: u32)

  /** The frame the dispatcher builds for task B: registers clear, starting at its entry with A's status. */
  function StartFrame(tasks: Tasks, spsr: u32): TrapFrame {
    TrapFrame([0, 0, 0, 0, 0, 0, 0, 0, 0, 0, 0, 0, 0], tasks.entryB, spsr, ID_SVC, 0, 0, 0, 0, 0, 0)
  }

  /** A frame at virtual address frame lies in the direct map. */
  predicate FrameOk(frame: u32) {
    KERNEL_DIRECT_BASE <= frame && frame + FRAME_SIZE <= KERNEL_DIRECT_BASE + KERNEL_DIRECT_SIZE
  }

  function FrameAt(m: Mem, frame: u32): TrapFrame
    requires FrameOk(frame)
  {
    ReadFrame(m, KernelPhysical(frame))
  }

  /** The frame that the trampoline saves for a program that executes `svc` with registers g. */
  function SvcFrame(g: Registers): TrapFrame { SavedFrame(TakeException(g, Supervisor), Supervisor) }

  predicate FramesApart(a: u32, b: u32) { a + FRAME_SIZE <= b || b + FRAME_SIZE <= a }

  /** What one SVC trap does. */
  ghost predicate TrapStep(tasks: Tasks, s: System, s': System)
    requires tasks.Valid() && StackOk(s.g.sp.svc)
  {
    var frame := s.g.sp.svc - FRAME_SIZE;
    if s.frameB == 0 then
      && s'.frameA == frame && s'.frameB == tasks.FirstFrameB()
      && FrameAt(s'.m, frame) == SvcFrame(s.g)
      && s'.g.r == [0, 0, 0, 0, 0, 0, 0, 0, 0, 0, 0, 0, 0]
      && s'.g.pc == tasks.entryB && s'.g.cpsr == s.g.cpsr && s'.g.sp.svc == tasks.TopB()
    else
      && s'.frameA == s.frameA && s'.frameB == frame
      && FrameOk(s.frameA)
      && FrameAt(s'.m, frame) == SvcFrame(s.g)
      && SameOutside(s.m, s'.m, tasks.TrapBytes(s.g.sp.svc))
      && ResumedFrom(s'.g, FrameAt(s'.m, s.frameA), s.frameA)
  }

  /** g is what the exit code makes of frame f at virtual address base. */
  predicate ResumedFrom(g: Registers, f: TrapFrame, base: u32) {
    && g.r == f.r && g.pc == f.returnLr && g.cpsr == f.spsr
    && g.sp.svc == base + FRAME_SIZE && g.sp.usr == f.userSp && g.lr.usr == f.userLr
  }

  class Scheduler {
    const machine: Machine
    const tasks: Tasks
    var frameA: u32
    var frameB: u32

    ghost predicate Valid()
      reads this, machine
    {
      machine.Valid() && tasks.Valid() && (frameB != 0 ==> FrameOk(frameA))
    }

    constructor (machine: Machine, tasks: Tasks)
      requires machine.Valid() && tasks.Valid()
      ensures Valid() && this.machine == machine && this.tasks == tasks && frameA == 0 && frameB == 0
    {
      this.machine := machine;
      this.tasks := tasks;
      frameA := 0;
      frameB := 0;
    }

    ghost function State(): System
      requires machine.Valid()
      reads this, machine, machine.mem
    {
      System(machine.g, machine.mem[..], frameA, frameB)
    }

    /** minemu_svc_dispatch: returns the frame to resume. */
    method SvcDispatch(current: u32) returns (next: u32)
      requires Valid() && FrameOk(current) && NotInFrame(tasks.scratch, KernelPhysical(current))
      requires frameB == 0 ==> FramesApart(current, tasks.FirstFrameB())
      requires frameB == 0 ==> NotInFrame(tasks.DispatcherBytes(current), KernelPhysical(tasks.FirstFrameB()))
      modifies this`frameA, this`frameB, machine.mem
      ensures Valid() && FrameOk(next)
      ensures FrameAt(machine.mem[..], current) == FrameAt(old(machine.mem[..]), current)
      ensures if old(frameB) == 0 then
          && frameA == current && frameB == next == tasks.FirstFrameB()
          && FrameAt(machine.mem[..], next) == StartFrame(tasks, FrameAt(old(machine.mem[..]), current).spsr)
        else
          && frameA == old(frameA) == next && frameB == current
          && SameOutside(old(machine.mem[..]), machine.mem[..], tasks.DispatcherBytes(current))
    {
      ghost var before := frameB;
      if frameB == 0 {
        frameA := current;
        frameB := tasks.stackB + TASK_STACK_SIZE - FRAME_SIZE;
        StartTaskB(KernelPhysical(current), KernelPhysical(frameB));
        next := frameB;
      } else {
        frameB := current;
        next := frameA;
      }
      UseStack(current, next, before == 0);
    }

    /** Besides, the dispatcher has used its stack and stored its pointers, and the hardware has recorded walks. */
    method UseStack(current: u32, ghost next: u32, ghost first: bool)
      requires Valid() && FrameOk(current) && FrameOk(next) && NotInFrame(tasks.scratch, KernelPhysical(current))
      requires first ==> NotInFrame(tasks.DispatcherBytes(current), KernelPhysical(next))
      modifies machine.mem
      ensures SameOutside(old(machine.mem[..]), machine.mem[..], tasks.DispatcherBytes(current))
      ensures FrameAt(machine.mem[..], current) == FrameAt(old(machine.mem[..]), current)
      ensures first ==> FrameAt(machine.mem[..], next) == FrameAt(old(machine.mem[..]), next)
    {
      ghost var m: Mem := machine.mem[..];
      Scribble(machine.mem, tasks.DispatcherBytes(current));
      FrameOutside(m, machine.mem[..], KernelPhysical(current), tasks.DispatcherBytes(current));
      if first {
        FrameOutside(m, machine.mem[..], KernelPhysical(next), tasks.DispatcherBytes(current));
      }
    }

    /** Task B's first frame at p takes its status from the frame at q. */
    method StartTaskB(q: int, p: int)
      requires Valid() && IsFrameAddress(p) && IsFrameAddress(q) && (p + FRAME_SIZE <= q || q + FRAME_SIZE <= p)
      modifies machine.mem
      ensures ReadFrame(machine.mem[..], p) == StartFrame(tasks, ReadFrame(old(machine.mem[..]), q).spsr)
      ensures ReadFrame(machine.mem[..], q) == ReadFrame(old(machine.mem[..]), q)
    {
      ghost var m0: Mem := machine.mem[..];
      var spsr := ReadWord(machine.mem, q + 56);
      BuildFrame(spsr, p);
      FrameKept(m0, machine.mem[..], q);
    }

    /** Task B's first frame, word by word. */
    method BuildFrame(spsr: u32, p: int)
      requires Valid() && IsFrameAddress(p)
      modifies machine.mem
      ensures ReadFrame(machine.mem[..], p) == StartFrame(tasks, spsr)
      ensures SameBut(old(machine.mem[..]), machine.mem[..], p, p + FRAME_SIZE)
    {
      ClearFrameAt(machine.mem, p);
      ghost var m1: Mem := machine.mem[..];
      WriteWord(machine.mem, p + 52, tasks.entryB);
      WriteWord(machine.mem, p + 56, spsr);
      WriteWord(machine.mem, p + 60, ID_SVC);
      ThreeFields(m1, machine.mem[..], p, tasks.entryB, spsr, ID_SVC);
    }

    /** Exception entry and the trampoline up to the call of the dispatcher. */
    method Enter() returns (frame: u32)
      requires Valid() && StackOk(machine.g.sp.svc)
      modifies machine`g, machine.mem
      ensures Valid() && frame == old(machine.g.sp.svc) - FRAME_SIZE && FrameOk(frame)
      ensures FrameAt(machine.mem[..], frame) == SvcFrame(old(machine.g))
      ensures SameBut(old(machine.mem[..]), machine.mem[..], KernelPhysical(frame), KernelPhysical(old(machine.g.sp.svc)))
    {
      var p;
      machine.g := TakeException(machine.g, Supervisor);
      frame, p := machine.SaveFrame(Supervisor);
    }

    /** One `svc` by the running task: exception entry, trampoline, dispatcher, return through the chosen frame. */
    method SvcTrap()
      requires Valid() && StackOk(machine.g.sp.svc) && RoomToTrap(tasks, machine.g.sp.svc, frameB)
      modifies this`frameA, this`frameB, machine`g, machine.mem
      ensures Valid() && TrapStep(tasks, old(State()), State())
    {
      ghost var s := State();
      var frame := Enter();
      ghost var m1: Mem := machine.mem[..];
      var next := SvcDispatch(frame);
      var anything: General := *;
      machine.g := machine.g.(r := anything, sp := machine.g.sp.Set(Svc, next));
      ghost var h := machine.g;
      machine.RestoreFrame(Supervisor, next);
      SupervisorReturn(h, FrameAt(machine.mem[..], next), next);
      if s.frameB == 0 {
        FirstTrap(tasks, s, m1, State());
      } else {
        TrapMemory(tasks, s.m, m1, machine.mem[..], s.g.sp.svc, frame);
        LaterTrap(tasks, s, State());
      }
    }
  }

  /** The trap's frame is clear of what the dispatcher changes, and both are clear of task B's first frame. */
  ghost predicate RoomToTrap(tasks: Tasks, sp: u32, frameB: u32)
    requires tasks.Valid() && StackOk(sp)
  {
    var frame := sp - FRAME_SIZE;
    && NotInFrame(tasks.scratch, KernelPhysical(frame))
    && (frameB == 0 ==>
          && FramesApart(frame, tasks.FirstFrameB())
          && NotInFrame(tasks.DispatcherBytes(frame), KernelPhysical(tasks.FirstFrameB())))
  }

  lemma TrapMemory(tasks: Tasks, m0: Mem, m1: Mem, m2: Mem, sp: u32, frame: u32)
    requires StackOk(sp) && frame == sp - FRAME_SIZE && SameBut(m0, m1, KernelPhysical(frame), KernelPhysical(sp))
    requires SameOutside(m1, m2, tasks.DispatcherBytes(frame))
    ensures SameOutside(m0, m2, tasks.TrapBytes(sp))
  {
  }

  lemma SupervisorReturn(h: Registers, f: TrapFrame, base: u32)
    requires FrameOk(base)
    ensures ResumedFrom(Resumed(h, f, base, Supervisor), f, base)
  {
  }

  lemma FirstTrap(tasks: Tasks, s: System, m1: Mem, s': System)
    requires tasks.Valid() && StackOk(s.g.sp.svc) && s.frameB == 0
    requires FrameAt(m1, s.g.sp.svc - FRAME_SIZE) == SvcFrame(s.g)
    requires s'.frameA == s.g.sp.svc - FRAME_SIZE && s'.frameB == tasks.FirstFrameB()
    requires FrameAt(s'.m, s'.frameB) == StartFrame(tasks, FrameAt(m1, s'.frameA).spsr)
    requires FrameAt(s'.m, s'.frameA) == FrameAt(m1, s'.frameA)
    requires ResumedFrom(s'.g, FrameAt(s'.m, s'.frameB), s'.frameB)
    ensures TrapStep(tasks, s, s')
  {
  }

  lemma LaterTrap(tasks: Tasks, s: System, s': System)
    requires tasks.Valid() && StackOk(s.g.sp.svc) && s.frameB != 0 && FrameOk(s.frameA)
    requires s'.frameA == s.frameA && s'.frameB == s.g.sp.svc - FRAME_SIZE
    requires FrameAt(s'.m, s'.frameB) == SvcFrame(s.g)
    requires SameOutside(s.m, s'.m, tasks.TrapBytes(s.g.sp.svc))
    requires ResumedFrom(s'.g, FrameAt(s'.m, s.frameA), s.frameA)
    ensures TrapStep(tasks, s, s')
  {
  }

  /** The loop that clears the words of a new frame. */
  method ClearFrameAt(mem: array<byte>, p: int)
    requires mem.Length == PHYS_TOP && IsFrameAddress(p)
    modifies mem
    ensures ReadFrame(mem[..], p) == ClearFrame()
    ensures SameBut(old(mem[..]), mem[..], p, p + FRAME_SIZE)
  {
    var zero: seq<u32> := seq(22, i => 0);
    FrameOfZeros(mem[..], p, zero);
    WriteWords(mem, p, zero);
  }

  lemma FrameOfZeros(m: Mem, p: int, zero: seq<u32>)
    requires IsFrameAddress(p) && |zero| == 22 && forall i {:trigger zero[i]} :: 0 <= i < 22 ==> zero[i] == 0
    ensures ReadFrame(WordsStored(m, p, zero), p) == ClearFrame()
    ensures SameBut(m, WordsStored(m, p, zero), p, p + FRAME_SIZE)
  {
    assert zero == FrameWords(ClearFrame());
    FrameRoundTrip(m, p, ClearFrame());
  }

  function ClearFrame(): TrapFrame {
    TrapFrame([0, 0, 0, 0, 0, 0, 0, 0, 0, 0, 0, 0, 0], 0, 0, 0, 0, 0, 0, 0, 0, 0)
  }

  lemma ThreeFields(m: Mem, m': Mem, p: int, lr: u32, spsr: u32, id: u32)
    requires IsFrameAddress(p)
    requires m' == PutWord(PutWord(PutWord(m, p + 52, lr), p + 56, spsr), p + 60, id)
    ensures ReadFrame(m', p) == ReadFrame(m, p).(returnLr := lr, spsr := spsr, exceptionId := id)
    ensures SameBut(m, m', p, p + FRAME_SIZE)
  {
    var r, r' := ReadFrame(m, p).r, ReadFrame(m', p).r;
    forall i | 0 <= i < 13 ensures r'[i] == r[i] { WordKept(m, m', p + 4 * i); }
    assert r' == r;
  }

  /** One trap of a run: the system when `svc` executes and after the return. */
  datatype Event = Event(before: System, after: System)

  /** Task B, between two traps, changes only its own stack, and traps with room on it for a frame and the dispatcher. */
  ghost predicate RanB(tasks: Tasks, s: System, s': System)
    requires tasks.Valid()
  {
    && s'.frameA == s.frameA && s'.frameB == s.frameB
    && SameOutside(s.m, s'.m, tasks.StackBytesB() + tasks.scratch)
    && tasks.stackB + FRAME_SIZE + tasks.depth <= s'.g.sp.svc <= tasks.TopB() && s'.g.sp.svc % 4 == 0
  }

  /** Task A, between two traps, may change any memory but not the dispatcher's pointers, and traps at the same SP. */
  predicate RanA(spA: u32, s: System, s': System) {
    s'.frameA == s.frameA && s'.frameB == s.frameB && s'.g.sp.svc == spA
  }

  /** A run: A traps first, B runs next, and from then on whatever each return resumed. */
  ghost predicate Run(tasks: Tasks, spA: u32, run: seq<Event>) {
    && tasks.Valid() && StackOk(spA)
    && (spA <= tasks.stackB || tasks.TopB() <= spA - FRAME_SIZE) && NotInFrame(tasks.scratch, KernelPhysical(spA - FRAME_SIZE))
    && (forall i {:trigger run[i]} :: 0 <= i < |run| ==>
          StackOk(run[i].before.g.sp.svc) && TrapStep(tasks, run[i].before, run[i].after))
    && (|run| > 0 ==> run[0].before.frameB == 0 && run[0].before.g.sp.svc == spA)
    && (|run| > 1 ==> RanB(tasks, run[0].after, run[1].before))
    && forall i, j {:trigger run[i], run[j]} :: 1 <= i && j == i + 1 < |run| ==> RanA(spA, run[i].after, run[j].before)
  }

  /** The trap of the run whose context trap i resumes: A's most recent one. */
  function Resumes(i: int): int { if i == 1 then 0 else i }

  /** The dispatcher's pointer to A's frame is set once and always addresses the place where A traps. */
  lemma {:induction false} FrameAIsStable(tasks: Tasks, spA: u32, run: seq<Event>, i: nat)
    requires Run(tasks, spA, run) && i < |run|
    ensures run[i].after.frameA == spA - FRAME_SIZE && run[i].after.frameB != 0
    ensures i >= 1 ==> run[i].before.frameA == spA - FRAME_SIZE && run[i].before.frameB != 0
  {
    if i > 0 {
      FrameAIsStable(tasks, spA, run, i - 1);
      assert i > 1 ==> RanA(spA, run[i - 1].after, run[i].before);
    }
  }

  /** The first trap starts task B with clear registers at the top of its stack. */
  lemma FirstTrapStartsB(tasks: Tasks, spA: u32, run: seq<Event>)
    requires Run(tasks, spA, run) && |run| > 0
    ensures var g := run[0].after.g;
      && g.pc == tasks.entryB && g.sp.svc == tasks.stackB + 1024 && g.cpsr == run[0].before.g.cpsr
      && forall k :: 0 <= k < 13 ==> g.r[k] == 0
  {
  }

  /** Every later trap resumes task A just after its most recent `svc`, with nothing lost. */
  lemma LaterTrapsResumeA(tasks: Tasks, spA: u32, run: seq<Event>, i: nat)
    requires Run(tasks, spA, run) && 1 <= i < |run|
    ensures var a, g := run[Resumes(i)].before.g, run[i].after.g;
      && g.r == a.r && g.pc == Add32(a.pc, 4) && g.cpsr == a.cpsr && g.sp.svc == a.sp.svc == spA
      && g.sp.usr == a.sp.usr && g.lr.usr == a.lr.usr
  {
    FrameAIsStable(tasks, spA, run, i);
    if i == 1 {
      FirstReturnToA(tasks, spA, run[0], run[1]);
    } else {
      assert RanA(spA, run[i - 1].after, run[i].before);
      ReturnToA(tasks, spA, run[i]);
    }
    ResumesAfterSvc(run[Resumes(i)].before.g, run[i].after.g, spA);
  }

  /** A traps while B is already running somewhere: it is resumed from the frame it has just saved. */
  lemma ReturnToA(tasks: Tasks, spA: u32, e: Event)
    requires tasks.Valid() && StackOk(spA) && e.before.g.sp.svc == spA
    requires e.before.frameB != 0 && e.before.frameA == spA - FRAME_SIZE && TrapStep(tasks, e.before, e.after)
    ensures ResumedFrom(e.after.g, SvcFrame(e.before.g), spA - FRAME_SIZE)
  {
  }

  /** B's only trap: A's frame is as it was saved, for neither B nor its trap writes there. */
  lemma FirstReturnToA(tasks: Tasks, spA: u32, e0: Event, e1: Event)
    requires tasks.Valid() && StackOk(spA) && (spA <= tasks.stackB || tasks.TopB() <= spA - FRAME_SIZE)
    requires NotInFrame(tasks.scratch, KernelPhysical(spA - FRAME_SIZE))
    requires e0.before.g.sp.svc == spA && e0.before.frameB == 0 && TrapStep(tasks, e0.before, e0.after)
    requires RanB(tasks, e0.after, e1.before) && StackOk(e1.before.g.sp.svc) && TrapStep(tasks, e1.before, e1.after)
    requires e1.before.frameB != 0 && e1.before.frameA == spA - FRAME_SIZE
    ensures ResumedFrom(e1.after.g, SvcFrame(e0.before.g), spA - FRAME_SIZE)
  {
    var m0, m1, m2 := e0.after.m, e1.before.m, e1.after.m;
    ApartFromB(tasks, spA, e1.before.g.sp.svc, m0, m1, m2);
    FrameKept(m0, m2, KernelPhysical(spA - FRAME_SIZE));
  }

  /** Resuming from the frame of an `svc` continues just after it. */
  lemma ResumesAfterSvc(a: Registers, g: Registers, spA: u32)
    requires StackOk(spA) && ResumedFrom(g, SvcFrame(a), spA - FRAME_SIZE)
    ensures g.r == a.r && g.pc == Add32(a.pc, 4) && g.cpsr == a.cpsr && g.sp.svc == spA
    ensures g.sp.usr == a.sp.usr && g.lr.usr == a.lr.usr
  {
  }

  lemma ApartFromB(tasks: Tasks, spA: u32, spB: u32, m0: Mem, m1: Mem, m2: Mem)
    requires tasks.Valid() && StackOk(spA) && (spA <= tasks.stackB || tasks.TopB() <= spA - FRAME_SIZE)
    requires NotInFrame(tasks.scratch, KernelPhysical(spA - FRAME_SIZE))
    requires tasks.stackB + FRAME_SIZE + tasks.depth <= spB <= tasks.TopB()
    requires SameOutside(m0, m1, tasks.StackBytesB() + tasks.scratch) && SameOutside(m1, m2, tasks.TrapBytes(spB))
    ensures SameOn(m0, m2, KernelPhysical(spA - FRAME_SIZE), KernelPhysical(spA))
  {
  }

  /** The words of the frame that starts task B: all clear but the link, the status and the exception number. */
  lemma StartFrameWords(m: Mem, p: int, ws: seq<u32>, tasks: Tasks, spsr: u32)
    requires IsFrameAddress(p) && |ws| == 22 && WordsAt(m, p, ws) && ReadFrame(m, p) == StartFrame(tasks, spsr)
    ensures ws[..13] == [0, 0, 0, 0, 0, 0, 0, 0, 0, 0, 0, 0, 0]
    ensures ws[13] == tasks.entryB && ws[14] == spsr && ws[15] == 0xffff_fffd
    ensures ws[16] == ws[17] == ws[18] == ws[19] == ws[20] == ws[21] == 0
  {
    FrameOfWords(m, p, ws);
  }
}
