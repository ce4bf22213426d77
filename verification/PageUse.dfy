/** The record of use that the hardware keeps in page-table entries, and why no translation depends on it. */
module PageUse {
  import opened Bits
  import opened Memory
  import opened Mmu

  const PTE_ACCESSED := 32
  const PTE_DIRTY := 64
  const NOT_USED_BITS: nat := 0xffff_ff9f

  /** The entry after the walk of a successful access. */
  function UsedPte(pte: u32, write: bool): u32 {
    OrIsWord(pte, PTE_ACCESSED);
    OrIsWord(Or(pte, PTE_ACCESSED), PTE_DIRTY);
    if write then Or(Or(pte, PTE_ACCESSED), PTE_DIRTY) else Or(pte, PTE_ACCESSED)
  }

  /** Where the walk finds the page-table entry for va. */
  function PteAddress(m: Mem, root: int, va: u32): int
    requires IsTableAddress(root)
  {
    And(Entry(m, root, va / 0x40_0000), PAGE_MASK) + 4 * (va / PAGE_SIZE % 1024)
  }

  function MarkUsed(m: Mem, at: int, write: bool): Mem
    requires IsWordAddress(at)
  {
    PutWord(m, at, UsedPte(Word(m, at), write))
  }

  /** Memory after a walk for va that has found a page. */
  function MarkWalk(m: Mem, root: int, va: u32, write: bool): Mem
    requires IsTableAddress(root)
  {
    if Walk(m, root, va).Some? then MarkUsed(m, PteAddress(m, root, va), write) else m
  }

  /** The walk of an access sets the accessed bit, sets the dirty bit only for a store, and keeps every other bit. */
  lemma UseIsRecorded(pte: u32, write: bool)
    ensures var used := UsedPte(pte, write);
      && And(used, 32) != 0
      && (And(used, 64) != 0 <==> write || And(pte, 64) != 0)
      && And(used, 0xffff_ff9f) == And(pte, 0xffff_ff9f)
  {
    var a := Or(pte, PTE_ACCESSED);
    MaskedLiterals();
    AndOverOr(pte, 32, 32);
    OrAtLeast(And(pte, 32), 32);
    OrOutsideMask(a, 64, 32);
    OrOutsideMask(pte, 32, 64);
    AndOverOr(a, 64, 64);
    OrAtLeast(And(a, 64), 64);
    OrOutsideMask(pte, 32, NOT_USED_BITS);
    OrOutsideMask(a, 64, NOT_USED_BITS);
  }

  lemma MaskedLiterals()
    ensures And(32, 32) == 32 && And(64, 64) == 64 && And(64, 32) == 0 && And(32, 64) == 0
    ensures And(32, NOT_USED_BITS) == 0 && And(64, NOT_USED_BITS) == 0
    ensures And(32, PAGE_MASK) == 0 && And(64, PAGE_MASK) == 0
    ensures And(32, PERMISSIONS) == 0 && And(64, PERMISSIONS) == 0 && And(32, 1) == 0 && And(64, 1) == 0
  {
  }

  /** Recording the use of a page does not change its translation. */
  lemma UseKeepsTranslation(pte: u32, write: bool)
    ensures Decode(UsedPte(pte, write)) == Decode(pte)
  {
    var a := Or(pte, PTE_ACCESSED);
    MaskedLiterals();
    OrOutsideMask(pte, 32, 1);
    OrOutsideMask(a, 64, 1);
    OrOutsideMask(pte, 32, PAGE_MASK);
    OrOutsideMask(a, 64, PAGE_MASK);
    OrOutsideMask(pte, 32, PERMISSIONS);
    OrOutsideMask(a, 64, PERMISSIONS);
  }

  /** Every entry of every page-aligned table decodes alike. */
  ghost predicate SameDecodes(m: Mem, m': Mem) {
    forall t, e {:trigger Entry(m', t, e)} :: IsTableAddress(t) && 0 <= e < 1024 ==>
      Decode(Entry(m', t, e)) == Decode(Entry(m, t, e))
  }

  lemma MarkKeepsDecodes(m: Mem, table: int, k: int, write: bool)
    requires IsTableAddress(table) && 0 <= k < 1024
    ensures SameDecodes(m, MarkUsed(m, table + 4 * k, write))
    ensures SameBut(m, MarkUsed(m, table + 4 * k, write), table, table + PAGE_SIZE)
  {
    var m' := MarkUsed(m, table + 4 * k, write);
    forall t, e | IsTableAddress(t) && 0 <= e < 1024 ensures Decode(Entry(m', t, e)) == Decode(Entry(m, t, e)) {
      if t == table && e == k {
        UseKeepsTranslation(Entry(m, t, e), write);
      } else if t != table {
        TablesApart(t, table);
      }
    }
  }

  lemma TablesApart(t: int, u: int)
    requires IsTableAddress(t) && IsTableAddress(u) && t != u
    ensures t + PAGE_SIZE <= u || u + PAGE_SIZE <= t
  {
  }

  /** The walk for an access that succeeds, as the hardware makes it. */
  method RecordUse(mem: array<byte>, root: int, va: u32, write: bool)
    requires mem.Length == PHYS_TOP && IsTableAddress(root)
    modifies mem
    ensures mem[..] == MarkWalk(old(mem[..]), root, va, write)
  {
    if Walk(mem[..], root, va).Some? {
      var at := PteAddress(mem[..], root, va);
      var pte := ReadWord(mem, at);
      WriteWord(mem, at, UsedPte(pte, write));
    }
  }
}
