/**
 * Every run of the user program after boot.  The program computes, loads and stores, and makes
 * system calls; meanwhile walks record the use of pages, the TLB caches and forgets, and the
 * kernel uses its stack.  An abort ends the run: this kernel's abort dispatcher fail-stops.
 */
module UserRun {
  import opened Bits
  import opened Memory
  import opened Mmu
  import opened PageUse
  import opened Bootstrap
  import opened Trap
  import opened FaultRepair
  import opened UserSpace
  import opened UserPool
  import opened UserSegments
  import opened LiveTables
  import opened AddressSpace
  import BootRom
  import UserLoader
  import UserModule
  import opened KernelBoot
  import opened UserSyscalls

  /** What stays fixed over a run: the kernel's layout, the loaded module, and the supervisor stack pointer. */
  datatype World = World(layout: Layout, pool: seq<Slot>, segs: seq<Segment>, imageSize: u32, sp: u32) {
    /** The frames of system calls lie in the kernel's stack. */
    ghost predicate Valid() {
      && PoolFor(pool, segs, imageSize) && imageSize <= SYSTEM_ROM_SIZE && StackOk(sp)
      && forall i {:trigger i in layout.scratch} :: KernelPhysical(sp) - FRAME_SIZE <= i < KernelPhysical(sp) ==> i in layout.scratch
    }
  }

  /** The invariant of every run.  It says nothing about page contents, nor about which pages have been used. */
  ghost predicate Running(w: World, s: State) {
    && FinalTables(s.m, w.layout, w.pool, w.imageSize)
    && Coherent(s.m, ROOT, s.tlb)
    && FromUser(s.g) && s.g.sp.svc == w.sp
  }

  datatype Action =
    | Compute                          // an instruction that touches no memory
    | Data(a: Access)                  // a load or store that succeeds
    | Walked(va: u32, write: bool)     // a walk for a fetch, or for an access of the kernel
    | Forget                           // the TLB loses entries
    | Kernel                           // the kernel writes its stack or its bookkeeping
    | Call(instruction: u32)           // `svc`, with the word the processor has fetched at pc

  /** The word at pc has been fetched by user mode; it is the instruction of an A32 program. */
  ghost predicate Fetched(s: State, instruction: u32) {
    && UserReaches(s.m, s.g.pc) && Walk(s.m, ROOT, s.g.pc).value.Executable()
    && (FromArmUser(s.g) ==>
          && s.g.pc % 4 == 0 && IsWordAddress(Physical(Walk(s.m, ROOT, s.g.pc).value, s.g.pc))
          && instruction == Word(s.m, Physical(Walk(s.m, ROOT, s.g.pc).value, s.g.pc)))
  }

  ghost predicate Step(w: World, s: State, act: Action, s': State) {
    match act
    case Compute =>
      s'.m == s.m && s'.tlb == s.tlb && s'.console == s.console && FromUser(s'.g) && s'.g.sp.svc == s.g.sp.svc
    case Data(a) =>
      a.Valid() && Execute(s.g, s.m, ROOT, s.tlb, a) == Done(s'.g, s'.m, s'.tlb) && s'.console == s.console
    case Walked(va, write) =>
      PageOfWord(va);
      && Walk(s.m, ROOT, va).Some? && s'.m == MarkWalk(s.m, ROOT, va, write)
      && s'.tlb == s.tlb[PageOf(va) := Walk(s.m, ROOT, va).value] && s'.g == s.g && s'.console == s.console
    case Forget =>
      s'.tlb.Items <= s.tlb.Items && s'.m == s.m && s'.g == s.g && s'.console == s.console
    case Kernel =>
      SameOutside(s.m, s'.m, w.layout.scratch) && s'.tlb == s.tlb && s'.g == s.g && s'.console == s.console
    case Call(instruction) =>
      StackOk(s.g.sp.svc) && Fetched(s, instruction) && SvcStep(s, instruction, s', w.layout.scratch)
  }

  /** Both memories have the same walks, so a TLB right for one is right for the other. */
  lemma CoherentKept(w: World, m: Mem, m': Mem, tlb: map<u32, Translation>)
    requires FinalTables(m, w.layout, w.pool, w.imageSize) && FinalTables(m', w.layout, w.pool, w.imageSize)
    requires Coherent(m, ROOT, tlb)
    ensures Coherent(m', ROOT, tlb)
  {
    forall page | page in tlb ensures Walk(m', ROOT, page) == Some(tlb[page]) {
      assert Walk(m, ROOT, page) == Some(tlb[page]);
      FinalTranslation(m, w.layout, w.pool, w.imageSize, page);
      FinalTranslation(m', w.layout, w.pool, w.imageSize, page);
    }
  }

  /** What the processor uses for va, cached or walked, is what the page tables say. */
  lemma TranslateIsWalk(w: World, s: State, va: u32)
    requires FinalTables(s.m, w.layout, w.pool, w.imageSize) && Coherent(s.m, ROOT, s.tlb)
    ensures Translate(s.m, ROOT, s.tlb, va) == Walk(s.m, ROOT, va)
  {
    if PageOf(va) in s.tlb {
      CachedIsWalk(w, s, va, PageOf(va));
    }
  }

  lemma CachedIsWalk(w: World, s: State, va: u32, page: u32)
    requires FinalTables(s.m, w.layout, w.pool, w.imageSize) && Coherent(s.m, ROOT, s.tlb)
    requires page == PageOf(va) && page in s.tlb
    ensures Some(s.tlb[page]) == Walk(s.m, ROOT, va)
  {
    assert Walk(s.m, ROOT, page) == Some(s.tlb[page]);
    WalkOfPage(w, s.m, va, page);
  }

  lemma WalkOfPage(w: World, m: Mem, va: u32, page: u32)
    requires FinalTables(m, w.layout, w.pool, w.imageSize) && page == PageOf(va)
    ensures Walk(m, ROOT, page) == Walk(m, ROOT, va)
  {
    FinalTranslation(m, w.layout, w.pool, w.imageSize, va);
    FinalTranslation(m, w.layout, w.pool, w.imageSize, page);
    SameViewOnPage(w, va);
  }

  lemma SameViewOnPage(w: World, va: u32)
    ensures FinalView(w.layout, w.pool, w.imageSize, PageOf(va)) == FinalView(w.layout, w.pool, w.imageSize, va)
  {
    AddressParts(va);
    ViewOfPage(w.layout, Mapping(w.imageSize, Some(w.pool)), va / 0x40_0000, va / PAGE_SIZE % 1024, va);
  }

  /** Memory after the walk, if the access makes one. */
  function Marked(s: State, a: Access): Mem {
    if PageOf(a.va) in s.tlb then s.m else MarkWalk(s.m, ROOT, a.va, a.write)
  }

  /** A successful access by user mode has found its page, with the permission it needs. */
  lemma DataEffect(w: World, s: State, a: Access, s': State)
    requires w.Valid() && Running(w, s) && Step(w, s, Data(a), s')
    ensures UserReaches(s.m, a.va) && InRam(Walk(s.m, ROOT, a.va).value.frame)
    ensures a.write ==> Walk(s.m, ROOT, a.va).value.Writable()
    ensures s'.m == if a.write then PutWord(Marked(s, a), Target(Walk(s.m, ROOT, a.va).value, a.va), s.g.r[a.reg]) else Marked(s, a)
    ensures s'.tlb == s.tlb[PageOf(a.va) := Walk(s.m, ROOT, a.va).value]
    ensures FromUser(s'.g) && s'.g.sp.svc == s.g.sp.svc
  {
    TranslateIsWalk(w, s, a.va);
    UserFrameInRam(s.m, w.layout, w.pool, w.imageSize, a.va);
  }

  lemma MarkedKeeps(w: World, s: State, a: Access)
    requires FinalTables(s.m, w.layout, w.pool, w.imageSize)
    ensures FinalTables(Marked(s, a), w.layout, w.pool, w.imageSize) && OnlyBackground(w.layout, s.m, Marked(s, a))
  {
    var mapping := Mapping(w.imageSize, Some(w.pool));
    MarkKeepsTables(s.m, w.layout, mapping, a.va, a.write);
    KeptLive(s.m, MarkWalk(s.m, ROOT, a.va, a.write), w.layout, mapping);
  }

  /** The pages that user mode is given: the page pool and the stack page. */
  predicate UserArea(layout: Layout, i: int) {
    || layout.imagePages <= i < layout.imagePages + 0x1_0000
    || layout.userStack <= i < layout.userStack + 0x1000
  }

  lemma UserTarget(w: World, m: Mem, va: u32)
    requires FinalTables(m, w.layout, w.pool, w.imageSize) && UserReaches(m, va) && va % 4 == 0
    ensures InRam(Walk(m, ROOT, va).value.frame)
    ensures var at := Target(Walk(m, ROOT, va).value, va);
      forall i {:trigger UserArea(w.layout, i)} :: at <= i < at + 4 ==> UserArea(w.layout, i)
  {
    FinalTranslation(m, w.layout, w.pool, w.imageSize, va);
    UserReachesExactly(m, w.layout, w.pool, w.imageSize, va);
    UserFrame(w.layout, w.pool, va);
    UserFrameInRam(m, w.layout, w.pool, w.imageSize, va);
  }

  /** A store into the user area leaves every table alone. */
  lemma UserStoreKeeps(w: World, m: Mem, at: int, v: u32)
    requires FinalTables(m, w.layout, w.pool, w.imageSize) && IsWordAddress(at)
    requires forall i {:trigger UserArea(w.layout, i)} :: at <= i < at + 4 ==> UserArea(w.layout, i)
    ensures FinalTables(PutWord(m, at, v), w.layout, w.pool, w.imageSize)
  {
    var m' := PutWord(m, at, v);
    assert UserArea(w.layout, at) && UserArea(w.layout, at + 3);
    forall t, e | IsLiveTable(w.layout, t) && 0 <= e < 1024 ensures Decode(Entry(m', t, e)) == Decode(Entry(m, t, e)) {
      TableInTables(w.layout, t);
      assert TableByte(w.layout, t + 4 * e) && TableByte(w.layout, t + 4 * e + 3);
    }
    KeptLive(m, m', w.layout, Mapping(w.imageSize, Some(w.pool)));
  }

  /** What one step may change in memory. */
  ghost predicate StepFrame(w: World, m: Mem, m': Mem) {
    forall i {:trigger m'[i]} :: 0 <= i < PHYS_TOP && !BackgroundByte(w.layout, i) && !UserArea(w.layout, i) ==> m'[i] == m[i]
  }

  /** Every step keeps the invariant, and changes only background bytes and the user's own pages. */
  lemma StepKeeps(w: World, s: State, act: Action, s': State)
    requires w.Valid() && Running(w, s) && Step(w, s, act, s')
    ensures Running(w, s') && StepFrame(w, s.m, s'.m)
  {
    var mapping := Mapping(w.imageSize, Some(w.pool));
    match act
    case Compute =>
    case Data(a) =>
      DataKeeps(w, s, a, s');
    case Walked(va, write) =>
      MarkKeepsTables(s.m, w.layout, mapping, va, write);
      KeptLive(s.m, s'.m, w.layout, mapping);
      CoherentKept(w, s.m, s'.m, s.tlb);
      CachedMore(w, s'.m, s.m, s.tlb, va);
    case Forget =>
      forall page | page in s'.tlb ensures Walk(s.m, ROOT, page) == Some(s'.tlb[page]) {
        assert (page, s'.tlb[page]) in s'.tlb.Items;
      }
    case Kernel =>
      ScratchKeepsTables(s.m, s'.m, w.layout);
      KeptLive(s.m, s'.m, w.layout, mapping);
      CoherentKept(w, s.m, s'.m, s.tlb);
    case Call(_) =>
      ScratchKeepsTables(s.m, s'.m, w.layout);
      KeptLive(s.m, s'.m, w.layout, mapping);
      CoherentKept(w, s.m, s'.m, s.tlb);
  }

  /** Caching one more walk. */
  lemma CachedMore(w: World, m: Mem, m0: Mem, tlb: map<u32, Translation>, va: u32)
    requires FinalTables(m, w.layout, w.pool, w.imageSize) && FinalTables(m0, w.layout, w.pool, w.imageSize)
    requires Coherent(m, ROOT, tlb) && Walk(m0, ROOT, va).Some?
    ensures Coherent(m, ROOT, tlb[PageOf(va) := Walk(m0, ROOT, va).value])
  {
    FinalTranslation(m0, w.layout, w.pool, w.imageSize, va);
    FinalTranslation(m, w.layout, w.pool, w.imageSize, PageOf(va));
    SameViewOnPage(w, va);
  }

  lemma DataKeeps(w: World, s: State, a: Access, s': State)
    requires w.Valid() && Running(w, s) && Step(w, s, Data(a), s')
    ensures Running(w, s') && StepFrame(w, s.m, s'.m)
  {
    DataEffect(w, s, a, s');
    MarkedKeeps(w, s, a);
    UserTarget(w, s.m, a.va);
    if a.write {
      StoredFrame(w, s.m, Marked(s, a), Target(Walk(s.m, ROOT, a.va).value, a.va), s.g.r[a.reg]);
      UserStoreKeeps(w, Marked(s, a), Target(Walk(s.m, ROOT, a.va).value, a.va), s.g.r[a.reg]);
    }
    CoherentKept(w, s.m, s'.m, s.tlb);
    CachedMore(w, s'.m, s.m, s.tlb, a.va);
  }

  lemma StoredFrame(w: World, m: Mem, m1: Mem, at: int, v: u32)
    requires IsWordAddress(at) && OnlyBackground(w.layout, m, m1)
    requires forall i {:trigger UserArea(w.layout, i)} :: at <= i < at + 4 ==> UserArea(w.layout, i)
    ensures StepFrame(w, m, PutWord(m1, at, v))
  {
  }

  /** A byte of a page that user mode cannot write stays as it is. */
  lemma ReadOnlyStep(w: World, s: State, act: Action, s': State, va: u32)
    requires w.Valid() && Running(w, s) && Step(w, s, act, s')
    requires UserReaches(s.m, va) && !Walk(s.m, ROOT, va).value.Writable()
    ensures var p := Physical(Walk(s.m, ROOT, va).value, va);
      0 <= p < PHYS_TOP && s'.m[p] == s.m[p]
  {
    var p := Physical(Walk(s.m, ROOT, va).value, va);
    UserFramesIsolated(s.m, w.layout, w.pool, w.imageSize, va, va);
    assert UserArea(w.layout, p);
    if act.Data? {
      ReadOnlyData(w, s, act.a, s', va, p);
    } else {
      QuietStep(w, s, act, s');
    }
  }

  /** Only the program's own stores change memory outside the background. */
  lemma QuietStep(w: World, s: State, act: Action, s': State)
    requires w.Valid() && Running(w, s) && Step(w, s, act, s') && !act.Data?
    ensures OnlyBackground(w.layout, s.m, s'.m)
  {
    if act.Walked? {
      MarkKeepsTables(s.m, w.layout, Mapping(w.imageSize, Some(w.pool)), act.va, act.write);
    }
  }

  lemma ReadOnlyData(w: World, s: State, a: Access, s': State, va: u32, p: int)
    requires w.Valid() && Running(w, s) && Step(w, s, Data(a), s')
    requires UserReaches(s.m, va) && !Walk(s.m, ROOT, va).value.Writable()
    requires p == Physical(Walk(s.m, ROOT, va).value, va) && UserArea(w.layout, p)
    ensures s'.m[p] == s.m[p]
  {
    DataEffect(w, s, a, s');
    MarkedKeeps(w, s, a);
    UserAreaKept(w.layout, s.m, Marked(s, a), p);
    if a.write {
      StoreElsewhere(w, s.m, a.va, va);
      PutOutside(Marked(s, a), Target(Walk(s.m, ROOT, a.va).value, a.va), s.g.r[a.reg], p, p + 1);
    }
  }

  lemma UserAreaKept(layout: Layout, m: Mem, m': Mem, p: int)
    requires OnlyBackground(layout, m, m') && UserArea(layout, p)
    ensures 0 <= p < PHYS_TOP && m'[p] == m[p]
  {
    assert !BackgroundByte(layout, p);
  }

  /** A permitted store does not reach a byte of a read-only page, because no two user addresses share a byte. */
  lemma StoreElsewhere(w: World, m: Mem, store: u32, va: u32)
    requires FinalTables(m, w.layout, w.pool, w.imageSize)
    requires UserReaches(m, store) && Walk(m, ROOT, store).value.Writable() && store % 4 == 0
    requires UserReaches(m, va) && !Walk(m, ROOT, va).value.Writable()
    ensures InRam(Walk(m, ROOT, store).value.frame)
    ensures var at, p := Target(Walk(m, ROOT, store).value, store), Physical(Walk(m, ROOT, va).value, va);
      !(at <= p < at + 4)
  {
    UserFrameInRam(m, w.layout, w.pool, w.imageSize, store);
    var at, p := Target(Walk(m, ROOT, store).value, store), Physical(Walk(m, ROOT, va).value, va);
    if at <= p < at + 4 {
      var other := store + (p - at);
      SamePage(w, m, store, other);
      UserFramesIsolated(m, w.layout, w.pool, w.imageSize, other, va);
    }
  }

  /** The bytes of an aligned word lie on one page. */
  lemma SamePage(w: World, m: Mem, va: u32, other: int)
    requires FinalTables(m, w.layout, w.pool, w.imageSize) && va % 4 == 0 && va <= other < va + 4
    ensures other < 0x1_0000_0000 && PageOf(other) == PageOf(va) && Walk(m, ROOT, other) == Walk(m, ROOT, va)
  {
    SamePageAddress(va, other);
    FinalTranslation(m, w.layout, w.pool, w.imageSize, va);
    FinalTranslation(m, w.layout, w.pool, w.imageSize, other);
    SameViewOnPage(w, va);
    SameViewOnPage(w, other);
  }

  lemma SamePageAddress(va: u32, other: int)
    requires va % 4 == 0 && va <= other < va + 4
    ensures other < 0x1_0000_0000 && PageOf(other) == PageOf(va)
  {
    PageRemainder(va);
    PageBounds(va);
    PageIsUnique(PageOf(va), other);
    AddressParts(va);
    PageAtAligned(va / 0x40_0000, va / PAGE_SIZE % 1024);
  }

  /** A run: the state before each action, and the state it ends in. */
  ghost predicate Run(w: World, ss: seq<State>, acts: seq<Action>) {
    && w.Valid() && |ss| == |acts| + 1 && Running(w, ss[0])
    && forall i {:trigger acts[i]} :: 0 <= i < |acts| ==> Step(w, ss[i], acts[i], ss[i + 1])
  }

  lemma {:induction false} RunKeeps(w: World, ss: seq<State>, acts: seq<Action>, i: nat)
    requires Run(w, ss, acts) && i < |ss|
    ensures Running(w, ss[i]) && StepFrame(w, ss[0].m, ss[i].m)
  {
    if i > 0 {
      RunKeeps(w, ss, acts, i - 1);
      assert Step(w, ss[i - 1], acts[i - 1], ss[i]);
      StepKeeps(w, ss[i - 1], acts[i - 1], ss[i]);
    }
  }

  /**
   * Isolation, in every state of every run: the processor translates each address as it did at the
   * start, cached or not; user mode reaches its segments' pages and its stack and nothing else; what
   * it reaches lies in the page pool or the stack page; the kernel's translations stand, closed to user mode.
   */
  lemma AlwaysIsolated(w: World, ss: seq<State>, acts: seq<Action>, i: nat, va: u32)
    requires Run(w, ss, acts) && i < |ss|
    ensures Translate(ss[i].m, ROOT, ss[i].tlb, va) == Walk(ss[i].m, ROOT, va) == Walk(ss[0].m, ROOT, va)
    ensures UserReaches(ss[i].m, va) <==> Touched(w.segs, PageOf(va)) || PageOf(va) == USER_STACK_BOTTOM
    ensures UserReaches(ss[i].m, va) ==> UserArea(w.layout, Physical(Walk(ss[i].m, ROOT, va).value, va))
    ensures BootstrapView(va).Some? ==>
      && Walk(ss[i].m, ROOT, va) == BootstrapView(va) && !UserReaches(ss[i].m, va)
      && var t := Walk(ss[i].m, ROOT, va).value;
         t.Readable() && t.Writable() && !t.User() && (t.Executable() <==> !(0x1000_0000 <= va < 0x1001_0000))
    ensures StepFrame(w, ss[0].m, ss[i].m)
  {
    RunKeeps(w, ss, acts, i);
    var m := ss[i].m;
    TranslateIsWalk(w, ss[i], va);
    FinalTranslation(ss[0].m, w.layout, w.pool, w.imageSize, va);
    FinalTranslation(m, w.layout, w.pool, w.imageSize, va);
    UserReachesExactly(m, w.layout, w.pool, w.imageSize, va);
    PageBounds(va);
    assert IndexOf(w.pool, PageOf(va)) >= 0 <==> Touched(w.segs, PageOf(va));
    if UserReaches(m, va) {
      UserFramesIsolated(m, w.layout, w.pool, w.imageSize, va, va);
    }
    if BootstrapView(va).Some? {
      KernelViewUnchanged(m, w.layout, w.pool, w.imageSize, va);
    }
  }

  lemma {:induction false} ReadOnlyBytes(w: World, ss: seq<State>, acts: seq<Action>, i: nat, va: u32, p: int)
    requires Run(w, ss, acts) && i < |ss| && 0 <= p < PHYS_TOP
    requires UserReaches(ss[0].m, va) && !Walk(ss[0].m, ROOT, va).value.Writable()
    requires p == Physical(Walk(ss[0].m, ROOT, va).value, va)
    ensures ss[i].m[p] == ss[0].m[p]
  {
    if i > 0 {
      ReadOnlyBytes(w, ss, acts, i - 1, va, p);
      ReadOnlyAt(w, ss, acts, i - 1, va, p);
    }
  }

  lemma ReadOnlyAt(w: World, ss: seq<State>, acts: seq<Action>, i: nat, va: u32, p: int)
    requires Run(w, ss, acts) && i < |acts| && 0 <= p < PHYS_TOP
    requires UserReaches(ss[0].m, va) && !Walk(ss[0].m, ROOT, va).value.Writable()
    requires p == Physical(Walk(ss[0].m, ROOT, va).value, va)
    ensures ss[i + 1].m[p] == ss[i].m[p]
  {
    SameReach(w, ss, acts, i, va);
    StepAt(w, ss, acts, i);
    ReadOnlyStep(w, ss[i], acts[i], ss[i + 1], va);
  }

  lemma StepAt(w: World, ss: seq<State>, acts: seq<Action>, i: nat)
    requires Run(w, ss, acts) && i < |acts|
    ensures Running(w, ss[i]) && Step(w, ss[i], acts[i], ss[i + 1])
  {
    RunKeeps(w, ss, acts, i);
    assert Step(w, ss[i], acts[i], ss[i + 1]);
  }

  lemma SameReach(w: World, ss: seq<State>, acts: seq<Action>, i: nat, va: u32)
    requires Run(w, ss, acts) && i < |ss|
    ensures Walk(ss[i].m, ROOT, va) == Walk(ss[0].m, ROOT, va)
  {
    AlwaysIsolated(w, ss, acts, i, va);
  }

  /** Code and read-only data stay what the image says, whatever the program does. */
  lemma ReadOnlySegmentsStay(w: World, m0: Mem, ss: seq<State>, acts: seq<Action>, i: nat, s: Segment, va: u32)
    requires Run(w, ss, acts) && i < |ss| && Holding(m0, w.segs, w.imageSize, ss[0].m, w.layout, w.pool)
    requires s in w.segs && s.Holds(va) && s.flags / 2 % 2 == 0
    ensures ReadVirtual(ss[i].m, va) == Overlay(m0, w.segs, va)
  {
    assert s.Acceptable(w.imageSize);
    SegmentPermissions(w.segs, ss[0].m, w.layout, w.pool, w.imageSize, s, va);
    UserImageIsOverlay(m0, w.segs, ss[0].m, w.layout, w.pool, w.imageSize, va);
    var p := Physical(Walk(ss[0].m, ROOT, va).value, va);
    UserFramesIsolated(ss[0].m, w.layout, w.pool, w.imageSize, va, va);
    SameReach(w, ss, acts, i, va);
    ReadOnlyBytes(w, ss, acts, i, va, p);
  }

  /** The byte an action sends, if it is an accepted call. */
  function Said(s: State, act: Action): (said: seq<u32>)
    ensures said != [] ==> said == [s.g.r[0]] && s.g.r[0] <= 0xff
  {
    if act.Call? && IsPutchar(s.g, act.instruction) then [s.g.r[0]] else []
  }

  /** The bytes that the calls of a run ask for and may send, in order. */
  function Sent(ss: seq<State>, acts: seq<Action>): (sent: seq<u32>)
    requires |acts| <= |ss|
    ensures forall b {:trigger b in sent} :: b in sent ==> b <= 0xff
  {
    if acts == [] then [] else Said(ss[0], acts[0]) + Sent(ss[1..], acts[1..])
  }

  /** The UART has gained the bytes sent, and the trace one event if they were the first. */
  predicate Outputs(k: Console, k': Console, sent: seq<u32>) {
    && k'.uart == k.uart + sent
    && k'.observed == (k.observed || sent != [])
    && k'.trace == k.trace + (if !k.observed && sent != [] then [TRACE_USER_SYSCALL] else [])
  }

  lemma OutputsJoin(k0: Console, k1: Console, k2: Console, a: seq<u32>, b: seq<u32>)
    requires Outputs(k0, k1, a) && Outputs(k1, k2, b)
    ensures Outputs(k0, k2, a + b)
  {
    assert k0.uart + a + b == k0.uart + (a + b);
  }

  lemma StepOutput(w: World, s: State, act: Action, s': State)
    requires Step(w, s, act, s')
    ensures Outputs(s.console, s'.console, Said(s, act))
  {
  }

  lemma RunTail(w: World, ss: seq<State>, acts: seq<Action>)
    requires Run(w, ss, acts) && acts != []
    ensures Step(w, ss[0], acts[0], ss[1]) && Run(w, ss[1..], acts[1..])
  {
    assert Step(w, ss[0], acts[0], ss[1]);
    StepKeeps(w, ss[0], acts[0], ss[1]);
    forall i | 0 <= i < |acts[1..]| ensures Step(w, ss[1..][i], acts[1..][i], ss[1..][i + 1]) {
      assert acts[1..][i] == acts[i + 1];
    }
  }

  /** Over any run the UART gains exactly the bytes of the accepted calls, in order. */
  lemma {:induction false} RunOutput(w: World, ss: seq<State>, acts: seq<Action>)
    requires Run(w, ss, acts)
    ensures Outputs(ss[0].console, ss[|acts|].console, Sent(ss, acts))
  {
    if acts != [] {
      RunTail(w, ss, acts);
      StepOutput(w, ss[0], acts[0], ss[1]);
      RunOutput(w, ss[1..], acts[1..]);
      OutputsJoin(ss[0].console, ss[1].console, ss[|acts|].console, Said(ss[0], acts[0]), Sent(ss[1..], acts[1..]));
    }
  }

  /** The scratch areas are clear of a page of tables or user memory. */
  lemma ScratchClear(layout: Layout, p: int, a: int)
    requires forall i {:trigger i in layout.scratch} :: p <= i < p + FRAME_SIZE ==> i in layout.scratch
    requires forall i {:trigger i in layout.scratch} :: a <= i < a + PAGE_SIZE ==> i !in layout.scratch
    ensures ClearOf(FrameBytes(p), a)
  {
    forall i | i in FrameBytes(p) ensures !(a <= i < a + PAGE_SIZE) {
      assert i in layout.scratch;
    }
  }

  /** In every running state the trap finds room for its frame and the dispatcher can load the instruction. */
  lemma SvcAllowed(w: World, s: State, instruction: u32)
    requires w.Valid() && Running(w, s) && Fetched(s, instruction)
    ensures Unused(s.m, ROOT, s.g.pc, FrameBytes(KernelPhysical(s.g.sp.svc - FRAME_SIZE)))
    ensures FromArmUser(s.g) ==> KernelRead(s.m, s.g.pc) == Some(instruction)
  {
    var p, k := KernelPhysical(w.sp - FRAME_SIZE), s.g.pc / 0x40_0000;
    AddressParts(s.g.pc);
    assert p in w.layout.scratch;
    var mapping := Mapping(w.imageSize, Some(w.pool));
    assert Entry(s.m, ROOT, k) == DirectoryEntry(w.layout, mapping, k);
    UserFrameInRam(s.m, w.layout, w.pool, w.imageSize, s.g.pc);
    LiveTable(w.layout, mapping, k);
    var table, frame := And(Entry(s.m, ROOT, k), PAGE_MASK), Walk(s.m, ROOT, s.g.pc).value.frame;
    TableInTables(w.layout, table);
    assert forall i {:trigger i in w.layout.scratch} :: table <= i < table + PAGE_SIZE ==> i !in w.layout.scratch by {
      assert forall i {:trigger i in w.layout.scratch} :: table <= i < table + PAGE_SIZE ==> TableByte(w.layout, i);
    }
    ScratchClear(w.layout, p, table);
    UserFrameNotScratch(w, s.m, s.g.pc);
    ScratchClear(w.layout, p, frame);
    ScratchClear(w.layout, p, ROOT);
    if FromArmUser(s.g) {
      FetchedIsReadable(w, s, s.g.pc);
    }
  }

  /** The system-call dispatcher can always read the instruction that the user program has just executed. */
  lemma FetchedIsReadable(w: World, s: State, pc: u32)
    requires w.Valid() && Running(w, s)
    requires UserReaches(s.m, pc) && Walk(s.m, ROOT, pc).value.Executable() && pc % 4 == 0
    ensures IsWordAddress(Physical(Walk(s.m, ROOT, pc).value, pc))
    ensures KernelRead(s.m, pc) == Some(Word(s.m, Physical(Walk(s.m, ROOT, pc).value, pc)))
  {
    ExecutableIsReadable(w.segs, s.m, w.layout, w.pool, w.imageSize, pc);
    UserFrameInRam(s.m, w.layout, w.pool, w.imageSize, pc);
    ReadableIsRead(s.m, pc);
  }

  lemma UserFrameNotScratch(w: World, m: Mem, va: u32)
    requires FinalTables(m, w.layout, w.pool, w.imageSize) && UserReaches(m, va)
    ensures var frame := Walk(m, ROOT, va).value.frame;
      forall i {:trigger i in w.layout.scratch} :: frame <= i < frame + PAGE_SIZE ==> i !in w.layout.scratch
  {
    FinalTranslation(m, w.layout, w.pool, w.imageSize, va);
    UserReachesExactly(m, w.layout, w.pool, w.imageSize, va);
    UserFrame(w.layout, w.pool, va);
  }

  /** One system call of the running program, on the machine. */
  method SystemCall(kernel: UserSyscalls.Kernel, ghost w: World, instruction: u32)
    requires kernel.Valid() && kernel.scratch == w.layout.scratch
    requires w.Valid() && Running(w, kernel.Current()) && Fetched(kernel.Current(), instruction)
    modifies kernel`console, kernel.machine`g, kernel.machine.mem
    ensures kernel.Valid() && Step(w, old(kernel.Current()), Call(instruction), kernel.Current())
    ensures Running(w, kernel.Current())
  {
    ghost var s := kernel.Current();
    SvcAllowed(w, s, instruction);
    kernel.Svc(instruction);
    StepKeeps(w, s, Call(instruction), kernel.Current());
  }

  /** minemu_enter_user: the banked user registers through the supervisor stack, then the exception return. */
  method EnterUserMode(machine: Machine, entry: u32, stackTop: u32)
    requires machine.Valid() && StackOk(machine.g.sp.svc)
    modifies machine`g, machine.mem
    ensures machine.Valid() && UserEntered(old(machine.g), entry, stackTop, machine.g)
    ensures SameBut(old(machine.mem[..]), machine.mem[..], KernelPhysical(old(machine.g.sp.svc)) - 8,
                    KernelPhysical(old(machine.g.sp.svc)))
  {
    var g := machine.g;
    var p := KernelPhysical(g.sp.svc) - 8;
    WriteTwo(machine.mem, p, stackTop, 0);
    var sp := ReadWord(machine.mem, p);
    var lr := ReadWord(machine.mem, p + 4);
    machine.g := g.(r := g.r[0 := 0][1 := 0][2 := 0][3 := 0], pc := entry, cpsr := ModeBits(Usr),
                    sp := g.sp.Set(Usr, sp), lr := g.lr.Set(Usr, lr).Set(Svc, entry), spsr := g.spsr.Set(Svc, ModeBits(Usr)));
  }

  method WriteTwo(mem: array<byte>, p: int, v: u32, w: u32)
    requires mem.Length == PHYS_TOP && 0 <= p <= PHYS_TOP - 8
    modifies mem
    ensures Word(mem[..], p) == v && Word(mem[..], p + 4) == w && SameBut(old(mem[..]), mem[..], p, p + 8)
  {
    WriteWord(mem, p, v);
    WriteWord(mem, p + 4, w);
  }

  /** The registers with which the program starts: r4 to r12 are whatever the kernel left in them. */
  predicate UserEntered(g: Registers, entry: u32, stackTop: u32, g': Registers) {
    && g'.pc == entry && FromArmUser(g') && g'.sp.usr == stackTop && g'.lr.usr == 0 && g'.sp.svc == g.sp.svc
    && g'.r[0] == g'.r[1] == g'.r[2] == g'.r[3] == 0 && g'.r[4..] == g.r[4..]
  }

  /** The world of the module that boot has loaded. */
  function BootWorld(m: Mem, info: BootRom.BootInfo, layout: Layout, pool: seq<Slot>, sp: u32): World
    requires info.imageSize <= SYSTEM_ROM_SIZE
    requires UserModule.RecordInImage(ModuleRecord(m, info), info.imageSize)
    requires UserModule.TableInImage(m, ModuleRecord(m, info), info.imageSize)
  {
    World(layout, pool, RunSegments(m, info), info.imageSize, sp)
  }

  /**
   * From reset into the run: if boot reaches user mode, the first state of the program is a running
   * one, with silent devices, its entry and stack as loaded, and its pages showing the overlay.
   */
  method Start(loader: UserLoader.Loader, kernel: UserSyscalls.Kernel) returns (outcome: Outcome)
    requires loader.Valid() && kernel.Valid() && kernel.machine.mem == loader.mem
    requires BootRom.PackedKernel(loader.mem[..]) && kernel.console == Console([], [], false)
    requires StackOk(kernel.machine.g.sp.svc)
    requires forall i {:trigger i in loader.layout.scratch} ::
      KernelPhysical(kernel.machine.g.sp.svc) - FRAME_SIZE <= i < KernelPhysical(kernel.machine.g.sp.svc) ==>
      i in loader.layout.scratch
    modifies loader.mem, loader.vaddrs, loader.flags, loader`count, loader`pool, kernel.machine`g, kernel.machine`tlb
    ensures loader.Valid() && kernel.Valid()
    ensures var m, info := old(loader.mem[..]), PublishedInfoOf(old(loader.mem[..]));
      && (outcome.EnterUser? <==> ImageRuns(m, info))
      && (outcome.EnterUser? ==>
            var w := BootWorld(m, info, loader.layout, loader.pool, old(kernel.machine.g.sp.svc));
            && w.Valid() && Running(w, kernel.Current()) && kernel.console == Console([], [], false)
            && outcome.stackTop == 0x0080_0000 && outcome.entry == UserModule.EntryVaddr(m, ModuleRecord(m, info))
            && UserEntered(old(kernel.machine.g), outcome.entry, USER_STACK_TOP, kernel.machine.g)
            && StackClear(loader.mem[..], loader.layout)
            && Holding(m, w.segs, w.imageSize, loader.mem[..], loader.layout, loader.pool))
  {
    ghost var m: Mem, info := loader.mem[..], PublishedInfoOf(loader.mem[..]);
    var bootstrapEntry;
    bootstrapEntry, outcome := BootToUser(loader);
    if outcome.EnterUser? {
      ghost var m1: Mem, g := loader.mem[..], kernel.machine.g;
      kernel.machine.tlb := map[];
      EnterUserMode(kernel.machine, outcome.entry, outcome.stackTop);
      StartsRunning(m, info, m1, kernel.Current(), loader.layout, loader.pool, outcome.entry, g.sp.svc);
    }
  }

  lemma StartsRunning(m: Mem, info: BootRom.BootInfo, m1: Mem, s: State, layout: Layout, pool: seq<Slot>, entry: u32, sp: u32)
    requires ImageRuns(m, info) && ReadyForUser(m, info, m1, layout, pool, entry)
    requires StackOk(sp) && SameBut(m1, s.m, KernelPhysical(sp) - 8, KernelPhysical(sp))
    requires forall i {:trigger i in layout.scratch} ::
      KernelPhysical(sp) - FRAME_SIZE <= i < KernelPhysical(sp) ==> i in layout.scratch
    requires FromArmUser(s.g) && s.g.sp.svc == sp && s.tlb == map[]
    ensures var w := BootWorld(m, info, layout, pool, sp);
      && w.Valid() && Running(w, s) && Holding(m, w.segs, w.imageSize, s.m, layout, pool)
      && StackClear(s.m, layout)
  {
    ScratchKeepsTables(m1, s.m, layout);
    KeptLive(m1, s.m, layout, Mapping(info.imageSize, Some(pool)));
    LoadedKept(m, m, RunSegments(m, info), info.imageSize, m1, s.m, layout, pool);
  }

  /** Every call of a run answers 0 for the byte it sent, and -1 when it sent none. */
  lemma CallAnswers(w: World, ss: seq<State>, acts: seq<Action>, i: nat)
    requires Run(w, ss, acts) && i < |acts| && acts[i].Call?
    ensures var s, s' := ss[i], ss[i + 1];
      && s'.g.r[0] == (if |s'.console.uart| > |s.console.uart| then 0 else 0xffff_ffff)
      && (|s'.console.uart| > |s.console.uart| <==>
            s.g.cpsr % 64 == 0x10 && acts[i].instruction == 0xef00_0000 && s.g.r[7] == 1 && s.g.r[0] < 256)
      && s'.g.pc == (s.g.pc + 4) % 0x1_0000_0000 && s'.g.cpsr == s.g.cpsr
      && forall k {:trigger s'.g.r[k]} :: 1 <= k < 13 ==> s'.g.r[k] == s.g.r[k]
  {
    StepAt(w, ss, acts, i);
    CallSeen(ss[i], acts[i].instruction, ss[i + 1], w.layout.scratch);
  }
}
