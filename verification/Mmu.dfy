/** Page-table entries, the two-level walk, and what a translation permits. */
module Mmu {
  import opened Bits
  import opened Memory

  const PAGE_SIZE := 0x1000
  const PTE_VALID := 1
  const PTE_WRITABLE := 2
  const PTE_USER := 4
  const PTE_EXECUTABLE := 8
  const PTE_READABLE := 16
  const PDE_VALID := 1
  const KERNEL_DIRECT_BASE := 0xc000_0000
  const KERNEL_DIRECT_SIZE := 0x0400_0000

  datatype Option<+T> = None | Some(value: T)

  /** One page: the physical frame it maps to, and its permission bits (the low five bits of the entry). */
  datatype Translation = Page(frame: int, flags: int) {
    predicate Writable() { flags / PTE_WRITABLE % 2 == 1 }
    predicate User() { flags / PTE_USER % 2 == 1 }
    predicate Executable() { flags / PTE_EXECUTABLE % 2 == 1 }
    predicate Readable() { flags / PTE_READABLE % 2 == 1 }
  }

  function PageOf(a: int): int { a - a % PAGE_SIZE }

  const PERMISSIONS := 0x1f

  /** Bits 5 to 11 (accessed, dirty, software) do not take part in translation. */
  function Decode(pte: u32): Option<Translation> {
    if And(pte, PTE_VALID) == 0 then None
    else Some(Page(And(pte, PAGE_MASK), And(pte, PERMISSIONS)))
  }

  predicate IsTableAddress(t: int) {
    t % PAGE_SIZE == 0 && 0 <= t <= PHYS_TOP - PAGE_SIZE
  }

  /** The two-level walk, by directory index and table index. */
  function WalkAt(m: Mem, root: int, k: int, e: int): Option<Translation>
    requires IsTableAddress(root) && 0 <= k < 1024 && 0 <= e < 1024
  {
    var pde := Entry(m, root, k);
    var table := And(pde, PAGE_MASK);
    if And(pde, PDE_VALID) == 0 || !IsTableAddress(table) then None
    else Decode(Entry(m, table, e))
  }

  /** The two-level walk from the directory at root. */
  function Walk(m: Mem, root: int, va: u32): Option<Translation>
    requires IsTableAddress(root)
  {
    WalkAt(m, root, va / 0x40_0000, va / PAGE_SIZE % 1024)
  }

  /** The physical address a virtual address reaches under a translation. */
  function Physical(t: Translation, va: u32): int {
    t.frame + (va - PageOf(va))
  }

  /** Address of a direct-mapped kernel object. */
  function KernelPhysical(va: int): int { va - KERNEL_DIRECT_BASE + RAM_BASE }

  /** The page with directory index k and table index e. */
  function PageAt(k: int, e: int): int { 0x40_0000 * k + PAGE_SIZE * e }

  /** How a virtual address splits into directory index, table index and offset. */
  lemma AddressParts(va: u32)
    ensures 0 <= va / 0x40_0000 < 1024 && 0 <= va / PAGE_SIZE % 1024 < 1024
    ensures PageOf(va) == PageAt(va / 0x40_0000, va / PAGE_SIZE % 1024)
    ensures PageOf(va) <= va < PageOf(va) + PAGE_SIZE
  {
    var page := va / PAGE_SIZE;
    assert page / 1024 == va / 0x40_0000;
  }

  /** The page of a 32-bit address is one. */
  lemma PageOfWord(va: u32)
    ensures 0 <= PageOf(va) <= va
  {
  }

  lemma DecodePage(base: int, flags: int)
    requires base % PAGE_SIZE == 0 && 0 <= base < 0x1_0000_0000 && 0 <= flags < 32
    ensures base + flags < 0x1_0000_0000
    ensures Decode(base + flags) == if flags % 2 == 0 then None else Some(Page(base, flags))
  {
    SplitPage(base, flags);
  }

  lemma PageAtAligned(k: int, e: int)
    requires 0 <= k < 1024 && 0 <= e < 1024
    ensures PageAt(k, e) % PAGE_SIZE == 0 && 0 <= PageAt(k, e) <= 0xffff_f000
  {
    assert PageAt(k, e) == 0 + PAGE_SIZE * (1024 * k + e);
    AlignedPlusPages(0, 1024 * k + e);
  }

  lemma WalkThrough(m: Mem, root: int, k: int, e: int, table: int)
    requires IsTableAddress(root) && 0 <= k < 1024 && 0 <= e < 1024
    requires IsTableAddress(table) && Entry(m, root, k) == table + PDE_VALID
    ensures WalkAt(m, root, k, e) == Decode(Entry(m, table, e))
  {
    SplitPage(table, 1);
  }

  /** A TLB holding results of walks from root. */
  ghost predicate Coherent(m: Mem, root: int, tlb: map<u32, Translation>)
    requires IsTableAddress(root)
  {
    forall page {:trigger tlb[page]} :: page in tlb ==> Walk(m, root, page) == Some(tlb[page])
  }

  /** `paddr | PDE_VALID`. */
  method PdeOf(table: nat) returns (pde: nat)
    requires table % PAGE_SIZE == 0
    ensures pde == table + PDE_VALID
  {
    OrPage(table, PDE_VALID);
    pde := Or(table, PDE_VALID);
  }

  /** An entry means what its bits say, each tested alone as C does. */
  lemma EntryBits(pte: u32)
    ensures Decode(pte).Some? <==> And(pte, 1) != 0
    ensures Decode(pte).Some? ==>
      var t := Decode(pte).value;
      && t.frame == And(pte, 0xffff_f000)
      && (t.Writable() <==> And(pte, 2) != 0) && (t.User() <==> And(pte, 4) != 0)
      && (t.Executable() <==> And(pte, 8) != 0) && (t.Readable() <==> And(pte, 16) != 0)
  {
    LowBits(pte);
    BitOf(pte, 1, 2);
    BitOf(pte, 2, 4);
    BitOf(pte, 3, 8);
    BitOf(pte, 4, 16);
    LowFive(pte / 32, pte % 32);
    assert pte == 32 * (pte / 32) + pte % 32;
  }

  lemma BitOf(x: nat, k: nat, bit: nat)
    requires (k == 1 && bit == 2) || (k == 2 && bit == 4) || (k == 3 && bit == 8) || (k == 4 && bit == 16)
    ensures And(x, bit) != 0 <==> x / bit % 2 == 1
  {
    AndShifted(x, 1, k);
    assert ShiftLeft(1, 4) == 16;
    assert ShiftRight(x, k) == x / bit by { if k == 4 { ShiftRight4(x, 0); } }
    LowBits(x / bit);
    assert ShiftLeft(x / bit % 2, k) != 0 <==> x / bit % 2 == 1;
  }

  lemma LowFive(q: nat, r: nat)
    requires r < 32
    ensures (32 * q + r) / 2 % 2 == r / 2 % 2 && (32 * q + r) / 4 % 2 == r / 4 % 2
    ensures (32 * q + r) / 8 % 2 == r / 8 % 2 && (32 * q + r) / 16 % 2 == r / 16 % 2
  {
    assert (32 * q + r) / 2 == 2 * (8 * q) + r / 2;
    Remainder2(8 * q, r / 2);
    assert (32 * q + r) / 4 == 2 * (4 * q) + r / 4;
    Remainder2(4 * q, r / 4);
    assert (32 * q + r) / 8 == 2 * (2 * q) + r / 8;
    Remainder2(2 * q, r / 8);
    assert (32 * q + r) / 16 == 2 * q + r / 16;
    Remainder2(q, r / 16);
  }
}
