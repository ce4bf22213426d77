/**
 * What a user module's segments mean: the overlay of the segments over the user address
 * space, the pages they touch, and when a segment table is acceptable.
 */
module UserSpace {
  import opened Memory
  import opened Mmu

  const USER_IMAGE_BASE := 0x0040_0000
  const USER_STACK_BOTTOM := 0x007f_f000
  const USER_STACK_TOP := 0x0080_0000
  const MAX_USER_IMAGE_PAGES := 16
  const SEGMENT_EXECUTABLE := 4

  datatype Segment = Segment(dataOffset: u32, vaddr: u32, fileSize: u32, memorySize: u32, flags: u32) {
    predicate Holds(va: int) { vaddr <= va < vaddr + memorySize }

    predicate Touches(page: int) { page < vaddr + memorySize && vaddr < page + PAGE_SIZE }

    predicate IsExecutable() { flags >= SEGMENT_EXECUTABLE }

    /** The per-segment test, free of 32-bit arithmetic. */
    predicate Acceptable(imageSize: u32) {
      && 0 < memorySize && fileSize <= memorySize
      && flags < 8 && (IsExecutable() ==> flags % 2 == 1)
      && USER_IMAGE_BASE <= vaddr && vaddr + memorySize <= USER_STACK_BOTTOM
      && dataOffset + fileSize <= imageSize
    }

    /** The byte the segment puts at va: file bytes first, zeros after. */
    function ByteAt(m: Mem, va: int): byte
      requires Acceptable(SYSTEM_ROM_SIZE) && Holds(va)
    {
      if va - vaddr < fileSize then m[SYSTEM_ROM_BASE + dataOffset + (va - vaddr)] else 0
    }

    /** The four bytes at entry come from the file part of an executable segment. */
    predicate Enters(entry: u32) {
      IsExecutable() && fileSize >= 4 && vaddr <= entry <= vaddr + fileSize - 4
    }
  }

  predicate AllAcceptable(segs: seq<Segment>, imageSize: u32) {
    forall s {:trigger s in segs} :: s in segs ==> s.Acceptable(imageSize)
  }

  /** The last segment in table order that holds va, or -1. */
  function LastHolder(segs: seq<Segment>, va: int): (h: int)
    ensures -1 <= h < |segs|
    ensures h >= 0 ==> segs[h].Holds(va)
    ensures forall i :: h < i < |segs| ==> !segs[i].Holds(va)
  {
    if segs == [] then -1
    else if segs[|segs| - 1].Holds(va) then |segs| - 1
    else LastHolder(segs[..|segs| - 1], va)
  }

  predicate Touched(segs: seq<Segment>, page: int) {
    exists s {:trigger s in segs} :: s in segs && s.Touches(page)
  }

  /** The user address space the segments describe; None where nothing is mapped. */
  function Overlay(m: Mem, segs: seq<Segment>, va: int): Option<byte>
    requires AllAcceptable(segs, SYSTEM_ROM_SIZE)
  {
    var h := LastHolder(segs, va);
    if h >= 0 then
      assert segs[h] in segs;
      Some(segs[h].ByteAt(m, va))
    else if Touched(segs, PageOf(va)) then Some(0)
    else None
  }

  /** Segments that share a page ask for the same permissions. */
  ghost predicate Consistent(segs: seq<Segment>) {
    forall s, t, page {:trigger s.Touches(page), t.Touches(page)} ::
      s in segs && t in segs && page % PAGE_SIZE == 0 && s.Touches(page) && t.Touches(page) ==> s.flags == t.flags
  }

  ghost function TouchedPages(segs: seq<Segment>): set<int> {
    set page | USER_IMAGE_BASE <= page < USER_STACK_BOTTOM && page % PAGE_SIZE == 0 && Touched(segs, page)
  }

  /** Segments that can be loaded together. */
  ghost predicate Fits(segs: seq<Segment>, imageSize: u32) {
    && AllAcceptable(segs, imageSize)
    && Consistent(segs)
    && |TouchedPages(segs)| <= MAX_USER_IMAGE_PAGES
  }

  ghost predicate HasEntry(segs: seq<Segment>, entry: u32) {
    exists s {:trigger s in segs} :: s in segs && s.Enters(entry)
  }

  /** The exact condition on a segment table and entry point under which a module is loaded. */
  ghost predicate Accepts(segs: seq<Segment>, imageSize: u32, entry: u32) {
    segs != [] && entry % 4 == 0 && Fits(segs, imageSize) && HasEntry(segs, entry)
  }

  /** Fewer segments fit more easily. */
  lemma FitsSubset(a: seq<Segment>, b: seq<Segment>, imageSize: u32)
    requires Fits(b, imageSize) && forall s {:trigger s in a} :: s in a ==> s in b
    ensures Fits(a, imageSize)
  {
    assert TouchedPages(a) <= TouchedPages(b);
    SubsetCount(TouchedPages(a), TouchedPages(b));
  }

  lemma SubsetCount(a: set<int>, b: set<int>)
    requires a <= b
    ensures |a| <= |b|
  {
    assert b == a + (b - a);
  }

  /** Acceptance does not depend on the order or the repetition of the segments. */
  lemma AcceptsIgnoresOrder(a: seq<Segment>, b: seq<Segment>, imageSize: u32, entry: u32)
    requires forall s :: s in a <==> s in b
    ensures Accepts(a, imageSize, entry) <==> Accepts(b, imageSize, entry)
  {
    forall page ensures Touched(a, page) <==> Touched(b, page) {}
    assert TouchedPages(a) == TouchedPages(b);
    assert (a == []) == (b == []) by {
      if a != [] { assert a[0] in b; }
      if b != [] { assert b[0] in a; }
    }
  }

  lemma TouchedAppend(segs: seq<Segment>, s: Segment, page: int)
    ensures Touched(segs + [s], page) <==> Touched(segs, page) || s.Touches(page)
  {
    assert s in segs + [s];
    assert forall t :: t in segs + [s] <==> t in segs || t == s;
  }

  /** Adding a segment at the end of the table lays it over what was there. */
  lemma OverlayAppend(m: Mem, segs: seq<Segment>, s: Segment, va: int)
    requires AllAcceptable(segs, SYSTEM_ROM_SIZE) && s.Acceptable(SYSTEM_ROM_SIZE)
    ensures AllAcceptable(segs + [s], SYSTEM_ROM_SIZE)
    ensures Overlay(m, segs + [s], va) ==
      if s.Holds(va) then Some(s.ByteAt(m, va))
      else if Overlay(m, segs, va).Some? then Overlay(m, segs, va)
      else if s.Touches(PageOf(va)) then Some(0)
      else None
  {
    assert (segs + [s])[..|segs|] == segs;
    TouchedAppend(segs, s, PageOf(va));
  }

  /** A segment touches the page of every byte it holds. */
  lemma HoldsTouches(s: Segment, va: int)
    requires s.Holds(va)
    ensures s.Touches(PageOf(va))
  {
    PageBounds(va);
  }

  lemma PageBounds(va: int)
    ensures PageOf(va) <= va < PageOf(va) + PAGE_SIZE && PageOf(va) % PAGE_SIZE == 0
  {
  }

  lemma PageIsUnique(page: int, va: int)
    requires page % PAGE_SIZE == 0 && page <= va < page + PAGE_SIZE
    ensures PageOf(va) == page
  {
  }

  lemma NextPage(page: int, next: int)
    requires page % PAGE_SIZE == 0 && next % PAGE_SIZE == 0 && page < next
    ensures page + PAGE_SIZE <= next
  {
  }

  /** An unmapped address is one whose page no segment touches. */
  lemma OverlayMapped(m: Mem, segs: seq<Segment>, va: int)
    requires AllAcceptable(segs, SYSTEM_ROM_SIZE)
    ensures Overlay(m, segs, va).Some? <==> Touched(segs, PageOf(va))
  {
    var h := LastHolder(segs, va);
    if h >= 0 {
      HoldsTouches(segs[h], va);
      assert segs[h] in segs;
    }
  }

  /** Segments that a segment table in the ROM image describes. */
  function SegmentAt(m: Mem, a: int): Segment
    requires 0 <= a <= PHYS_TOP - 32
  {
    Segment(Word(m, a), Word(m, a + 4), Word(m, a + 8), Word(m, a + 12), Word(m, a + 16))
  }

  function SegmentTable(m: Mem, a: int, n: nat): (segs: seq<Segment>)
    requires 0 <= a && a + 32 * n <= PHYS_TOP
    ensures |segs| == n
    ensures forall i {:trigger segs[i]} :: 0 <= i < n ==> segs[i] == SegmentAt(m, a + 32 * i)
  {
    seq(n, i requires 0 <= i < n => SegmentAt(m, a + 32 * i))
  }

  /** Page-table permission bits of a segment with flags below 8. */
  function PteFlags(flags: u32): (r: u32)
    requires flags < 8
    ensures r < 32 && r % 2 == 0
  {
    16 * (flags % 2) + 2 * (flags / 2 % 2) + 8 * (flags / 4)
  }

  /** The permission bits say exactly what the segment flags say. */
  lemma PteFlagsMeaning(flags: u32, frame: int)
    requires flags < 8
    ensures var t := Page(frame, PteFlags(flags) + PTE_VALID + PTE_USER);
      && t.User()
      && (t.Readable() <==> flags % 2 == 1)
      && (t.Writable() <==> flags / 2 % 2 == 1)
      && (t.Executable() <==> flags / 4 % 2 == 1)
  {
  }

  lemma PteFlagsInjective(f: u32, g: u32)
    requires f < 8 && g < 8 && PteFlags(f) == PteFlags(g)
    ensures f == g
  {
    FlagBits(f);
    FlagBits(g);
  }

  lemma FlagBits(flags: u32)
    requires flags < 8
    ensures var p := PteFlags(flags); flags == p / 16 + 2 * (p / 2 % 2) + 4 * (p / 8 % 2)
  {
    assert flags == 0 || flags == 1 || flags == 2 || flags == 3 || flags == 4 || flags == 5 || flags == 6 || flags == 7;
  }

  /** The acceptable segments, in numbers: executable segments must be readable. */
  lemma AcceptableMeans(s: Segment, imageSize: u32)
    ensures s.Acceptable(imageSize) <==>
      && 0 < s.memorySize && s.fileSize <= s.memorySize && s.dataOffset + s.fileSize <= imageSize
      && 0x0040_0000 <= s.vaddr && s.vaddr + s.memorySize <= 0x007f_f000
      && (s.flags == 0 || s.flags == 1 || s.flags == 2 || s.flags == 3 || s.flags == 5 || s.flags == 7)
  {
  }

  /** Byte k of a segment: where it is, and what it is. */
  lemma SegmentByte(m: Mem, s: Segment, k: int)
    requires s.Acceptable(SYSTEM_ROM_SIZE)
    ensures s.Holds(s.vaddr + k) <==> 0 <= k < s.memorySize
    ensures 0 <= k < s.memorySize ==>
      s.ByteAt(m, s.vaddr + k) == if k < s.fileSize then m[0x0800_0000 + (s.dataOffset + k)] else 0
  {
  }

  /** A segment touches the pages on which it has a byte. */
  lemma TouchesMeans(s: Segment, page: int)
    requires s.memorySize > 0
    ensures s.Touches(page) <==> exists va {:trigger s.Holds(va)} :: page <= va < page + 0x1000 && s.Holds(va)
  {
    var va: int := if s.vaddr <= page then page else s.vaddr;
    assert s.Touches(page) ==> page <= va < page + 0x1000 && s.Holds(va);
  }

  /** A segment is entered where all four bytes of an instruction lie in its file part, its first byte included. */
  lemma EntersMeans(s: Segment, entry: u32)
    ensures s.Enters(entry) <==>
      && s.IsExecutable()
      && s.vaddr <= entry < s.vaddr + s.fileSize && s.vaddr <= entry + 1 < s.vaddr + s.fileSize
      && s.vaddr <= entry + 2 < s.vaddr + s.fileSize && s.vaddr <= entry + 3 < s.vaddr + s.fileSize
  {
  }

  lemma TouchedPagesMeans(segs: seq<Segment>, imageSize: u32, page: int)
    requires AllAcceptable(segs, imageSize)
    ensures page in TouchedPages(segs) <==>
      page % 0x1000 == 0 && exists s {:trigger s in segs} :: s in segs && s.vaddr < page + 0x1000 && page < s.vaddr + s.memorySize
  {
    if page % 0x1000 == 0 && Touched(segs, page) {
      var s :| s in segs && s.Touches(page);
      assert s.Acceptable(imageSize);
      if page < USER_IMAGE_BASE { NextPage(page, USER_IMAGE_BASE); }
    }
  }

  /** The words of a segment record, in order. */
  lemma SegmentOfWords(m: Mem, a: int, ws: seq<u32>)
    requires 0 <= a <= PHYS_TOP - 32 && |ws| == 8 && WordsAt(m, a, ws)
    ensures SegmentAt(m, a) == Segment(ws[0], ws[1], ws[2], ws[3], ws[4])
  {
    var w0, w1, w2, w3, w4 := ws[0], ws[1], ws[2], ws[3], ws[4];
    assert w0 == Word(m, a + 4 * 0) && w1 == Word(m, a + 4 * 1) && w2 == Word(m, a + 4 * 2);
    assert w3 == Word(m, a + 4 * 3) && w4 == Word(m, a + 4 * 4);
  }

  /** The byte at va comes from the last segment that holds it. */
  lemma OverlayByte(m: Mem, segs: seq<Segment>, i: nat, va: int)
    requires AllAcceptable(segs, SYSTEM_ROM_SIZE) && i < |segs| && segs[i].vaddr <= va < segs[i].vaddr + segs[i].memorySize
    requires forall j {:trigger segs[j]} :: i < j < |segs| ==> !(segs[j].vaddr <= va < segs[j].vaddr + segs[j].memorySize)
    ensures 0 <= segs[i].dataOffset + segs[i].fileSize <= SYSTEM_ROM_SIZE
    ensures Overlay(m, segs, va) ==
      Some(if va - segs[i].vaddr < segs[i].fileSize then m[0x0800_0000 + segs[i].dataOffset + (va - segs[i].vaddr)] else 0)
  {
    assert segs[i] in segs && segs[i].Acceptable(SYSTEM_ROM_SIZE);
    assert segs[i].Holds(va);
    var h := LastHolder(segs, va);
    assert h == i;
  }
}
