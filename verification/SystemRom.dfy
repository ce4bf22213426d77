/** Mapping the packed image for the kernel, and finding a module in it. */
module SystemRom {
  import opened Bits
  import opened Memory
  import opened Mmu
  import opened Bootstrap
  import opened UserPool
  import opened ImageChecks

  const ROM_FLAGS := 0x11
  const ROM_SLOT := 0x20
  const ROM_TABLES := 4

  function RomPages(imageSize: u32): int { (imageSize + PAGE_SIZE - 1) / PAGE_SIZE }
  function RomTableCount(imageSize: u32): int { (RomPages(imageSize) + 1023) / 1024 }

  /** Entry n of the system ROM tables, taken as one run of entries. */
  function RomEntry(n: int, pages: int): int {
    if n < pages then SYSTEM_ROM_BASE + PAGE_SIZE * n + ROM_FLAGS else 0
  }

  ghost predicate RomTablesFilled(m: Mem, layout: Layout, tables: int, pages: int)
    requires 0 <= tables <= ROM_TABLES
  {
    forall n {:trigger Entry(m, layout.romTables, n)} :: 0 <= n < 1024 * tables ==>
      Entry(m, layout.romTables, n) == RomEntry(n, pages)
  }

  ghost predicate RomSlots(m: Mem, layout: Layout, tables: int) {
    forall k {:trigger Entry(m, ROOT, k)} :: ROM_SLOT <= k < ROM_SLOT + tables && k < 1024 ==>
      Entry(m, ROOT, k) == layout.romTables + 0x1000 * (k - ROM_SLOT) + PDE_VALID
  }

  /** Bytes that mapping the ROM may change. */
  predicate RomOwned(layout: Layout, tables: int, i: int) {
    || layout.romTables <= i < layout.romTables + 0x1000 * tables
    || ROOT + 4 * ROM_SLOT <= i < ROOT + 4 * (ROM_SLOT + tables)
  }

  ghost predicate RomFrame(layout: Layout, tables: int, m: Mem, m': Mem) {
    forall i {:trigger m'[i]} :: 0 <= i < PHYS_TOP && !RomOwned(layout, tables, i) ==> m'[i] == m[i]
  }

  /** One table: cleared, then filled with the pages it covers. */
  method FillRomTable(mem: array<byte>, base: int, table: nat, pageCount: nat)
    requires mem.Length == PHYS_TOP && KERNEL_START <= base <= PHYS_TOP - 0x1000
    requires table < ROM_TABLES && 1024 * table < pageCount <= 4096
    modifies mem
    ensures forall e {:trigger Entry(mem[..], base, e)} :: 0 <= e < 1024 ==>
      Entry(mem[..], base, e) == RomEntry(1024 * table + e, pageCount)
    ensures SameBut(old(mem[..]), mem[..], base, base + 0x1000)
  {
    ZeroBytes(mem, base, PAGE_SIZE);
    ghost var m1: Mem := mem[..];
    ZeroEntries(m1, base);
    var remaining := pageCount - table * 1024;
    var entries := if remaining < 1024 then remaining else 1024;
    ghost var first := SYSTEM_ROM_BASE + PAGE_SIZE * (1024 * table) + ROM_FLAGS;
    var index := 0;
    while index < entries
      invariant 0 <= index <= entries
      invariant Counts(mem[..], base, index, first, PAGE_SIZE)
      invariant SameBut(m1, mem[..], base, base + 4 * index)
    {
      FillRomEntry(mem, m1, base, table, index, first);
      index := index + 1;
    }
    RomTableDone(m1, mem[..], base, table, pageCount, entries);
  }

  /** One turn of the inner loop, on memory that was m1 when the loop began. */
  method FillRomEntry(mem: array<byte>, ghost m1: Mem, base: int, table: nat, index: nat, ghost first: int)
    requires mem.Length == PHYS_TOP && 0 <= base <= PHYS_TOP - 0x1000 && table < ROM_TABLES && index < 1024
    requires first == SYSTEM_ROM_BASE + PAGE_SIZE * (1024 * table) + ROM_FLAGS
    requires Counts(mem[..], base, index, first, PAGE_SIZE) && SameBut(m1, mem[..], base, base + 4 * index)
    modifies mem
    ensures Counts(mem[..], base, index + 1, first, PAGE_SIZE) && SameBut(m1, mem[..], base, base + 4 * (index + 1))
  {
    var pte := RomPteOf(table * 1024 + index);
    CountsStep(mem[..], base, index, first, PAGE_SIZE, pte);
    WriteWord(mem, base + 4 * index, pte);
  }

  method RomPteOf(page: nat) returns (pte: nat)
    requires page < 4096
    ensures pte == SYSTEM_ROM_BASE + page * PAGE_SIZE + ROM_FLAGS
  {
    RomPte(page);
    pte := Or(Or(SYSTEM_ROM_BASE + page * PAGE_SIZE, PTE_VALID), PTE_READABLE);
  }

  lemma ZeroEntries(m: Mem, base: int)
    requires 0 <= base <= PHYS_TOP - 0x1000
    requires forall i {:trigger m[i]} :: base <= i < base + 0x1000 ==> m[i] == 0
    ensures forall e {:trigger Entry(m, base, e)} :: 0 <= e < 1024 ==> Entry(m, base, e) == 0
  {
  }

  lemma RomPte(page: nat)
    requires page < 4096
    ensures Or(Or(SYSTEM_ROM_BASE + page * PAGE_SIZE, PTE_VALID), PTE_READABLE) ==
      SYSTEM_ROM_BASE + page * PAGE_SIZE + ROM_FLAGS
  {
    var base := SYSTEM_ROM_BASE + page * PAGE_SIZE;
    OrPageFlags(base, 0, 1);
    OrPageFlags(base, 1, 16);
    assert Or(1, 16) == 17;
  }

  lemma RomTableDone(m1: Mem, m: Mem, base: int, table: nat, pageCount: nat, entries: nat)
    requires 0 <= base <= PHYS_TOP - 0x1000 && table < ROM_TABLES
    requires entries == if pageCount - 1024 * table < 1024 then pageCount - 1024 * table else 1024
    requires forall e {:trigger Entry(m1, base, e)} :: 0 <= e < 1024 ==> Entry(m1, base, e) == 0
    requires Counts(m, base, entries, SYSTEM_ROM_BASE + PAGE_SIZE * (1024 * table) + ROM_FLAGS, PAGE_SIZE)
    requires SameBut(m1, m, base, base + 4 * entries)
    ensures forall e {:trigger Entry(m, base, e)} :: 0 <= e < 1024 ==>
      Entry(m, base, e) == RomEntry(1024 * table + e, pageCount)
  {
    forall e | entries <= e < 1024 ensures Entry(m, base, e) == 0 {
      WordKept(m1, m, base + 4 * e);
      assert Entry(m1, base, e) == 0;
    }
  }

  /** The body of the table loop. */
  method MapRomTable(mem: array<byte>, layout: Layout, table: nat, pageCount: nat)
    requires mem.Length == PHYS_TOP
    requires table < ROM_TABLES && 1024 * table < pageCount <= 4096
    requires RomTablesFilled(mem[..], layout, table, pageCount) && RomSlots(mem[..], layout, table)
    modifies mem
    ensures RomTablesFilled(mem[..], layout, table + 1, pageCount) && RomSlots(mem[..], layout, table + 1)
    ensures RomFrame(layout, table + 1, old(mem[..]), mem[..])
  {
    ghost var m0: Mem := mem[..];
    var base := layout.romTables + 0x1000 * table;
    FillRomTable(mem, base, table, pageCount);
    ghost var m1: Mem := mem[..];
    TableAligned(layout, table);
    var pde := PdeOf(base);
    var at := ROOT + 4 * (SYSTEM_ROM_BASE / 0x40_0000 + table);
    WriteWord(mem, at, pde);
    RomTableStep(m0, m1, mem[..], layout, table, base, at, pde, pageCount);
  }

  lemma RomTableStep(m0: Mem, m1: Mem, m2: Mem, layout: Layout, table: nat, base: int, at: int, pde: u32, pages: nat)
    requires table < ROM_TABLES && base == layout.romTables + 0x1000 * table
    requires RomTablesFilled(m0, layout, table, pages) && RomSlots(m0, layout, table)
    requires SameBut(m0, m1, base, base + 0x1000)
    requires forall e {:trigger Entry(m1, base, e)} :: 0 <= e < 1024 ==>
      Entry(m1, base, e) == RomEntry(1024 * table + e, pages)
    requires at == ROOT + 4 * (ROM_SLOT + table) && pde == base + PDE_VALID && m2 == PutWord(m1, at, pde)
    ensures RomTablesFilled(m2, layout, table + 1, pages) && RomSlots(m2, layout, table + 1)
    ensures RomFrame(layout, table + 1, m0, m2)
  {
    RomEntriesStep(m0, m1, m2, layout, table, base, pages);
    forall k | ROM_SLOT <= k < ROM_SLOT + table + 1
      ensures Entry(m2, ROOT, k) == layout.romTables + 0x1000 * (k - ROM_SLOT) + PDE_VALID
    {
      if k < ROM_SLOT + table {
        WordKept(m0, m1, ROOT + 4 * k);
        assert Entry(m0, ROOT, k) == layout.romTables + 0x1000 * (k - ROM_SLOT) + PDE_VALID;
      }
    }
  }

  lemma RomEntriesStep(m0: Mem, m1: Mem, m2: Mem, layout: Layout, table: nat, base: int, pages: nat)
    requires table < ROM_TABLES && base == layout.romTables + 0x1000 * table
    requires RomTablesFilled(m0, layout, table, pages)
    requires SameBut(m0, m1, base, base + 0x1000)
    requires forall e {:trigger Entry(m1, base, e)} :: 0 <= e < 1024 ==>
      Entry(m1, base, e) == RomEntry(1024 * table + e, pages)
    requires SameBut(m1, m2, ROOT, ROOT + 0x1000)
    ensures RomTablesFilled(m2, layout, table + 1, pages)
  {
    forall n | 0 <= n < 1024 * (table + 1) ensures Entry(m2, layout.romTables, n) == RomEntry(n, pages) {
      WordKept(m1, m2, layout.romTables + 4 * n);
      if n < 1024 * table {
        WordKept(m0, m1, layout.romTables + 4 * n);
        assert Entry(m0, layout.romTables, n) == RomEntry(n, pages);
      } else {
        var e := n - 1024 * table;
        assert Entry(m1, layout.romTables, n) == Entry(m1, base, e) == RomEntry(1024 * table + e, pages);
      }
    }
  }

  /** The image is mapped: the tables it needs are filled and installed. */
  ghost predicate RomMapped(m: Mem, layout: Layout, imageSize: u32)
  {
    && 0 < imageSize <= SYSTEM_ROM_SIZE
    && 0 < RomTableCount(imageSize) <= ROM_TABLES
    && RomTablesFilled(m, layout, RomTableCount(imageSize), RomPages(imageSize))
    && RomSlots(m, layout, RomTableCount(imageSize))
  }

  /** Four tables are enough for any image that fits the ROM. */
  lemma FourTablesSuffice(imageSize: u32)
    requires 0 < imageSize <= SYSTEM_ROM_SIZE
    ensures 0 < RomTableCount(imageSize) <= ROM_TABLES && RomPages(imageSize) <= 4096
    ensures 1024 * (RomTableCount(imageSize) - 1) < RomPages(imageSize)
    ensures RomPages(imageSize) <= 1024 * RomTableCount(imageSize)
    ensures imageSize <= PAGE_SIZE * RomPages(imageSize) < imageSize + PAGE_SIZE
  {
  }

  method MapSystemRom(mem: array<byte>, layout: Layout, romBase: u32, imageSize: u32) returns (ok: bool)
    requires mem.Length == PHYS_TOP
    modifies mem
    ensures ok <==> romBase == 0x0800_0000 && 0 < imageSize <= 0x0100_0000
    ensures ok ==> RomMapped(mem[..], layout, imageSize)
    ensures ok ==> RomFrame(layout, RomTableCount(imageSize), old(mem[..]), mem[..])
    ensures !ok ==> mem[..] == old(mem[..])
  {
    if romBase != SYSTEM_ROM_BASE || imageSize == 0 || imageSize > SYSTEM_ROM_SIZE {
      return false;
    }
    FourTablesSuffice(imageSize);
    var pageCount := (imageSize + PAGE_SIZE - 1) / PAGE_SIZE;
    var tableCount := (pageCount + 1023) / 1024;
    if tableCount > ROM_TABLES {
      return false;
    }
    var table := 0;
    while table < tableCount
      invariant 0 <= table <= tableCount
      invariant RomTablesFilled(mem[..], layout, table, pageCount) && RomSlots(mem[..], layout, table)
      invariant RomFrame(layout, table, old(mem[..]), mem[..])
    {
      MapRomTable(mem, layout, table, pageCount);
      table := table + 1;
    }
    return true;
  }

  /** Every image address translates to itself: readable by the kernel and nothing more. */
  lemma RomTranslation(m: Mem, layout: Layout, imageSize: u32, k: int, e: int)
    requires RomMapped(m, layout, imageSize)
    requires ROM_SLOT <= k < ROM_SLOT + RomTableCount(imageSize) && 0 <= e < 1024
    ensures WalkAt(m, ROOT, k, e) ==
      if PageAt(k, e) < SYSTEM_ROM_BASE + PAGE_SIZE * RomPages(imageSize) then Some(Page(PageAt(k, e), ROM_FLAGS))
      else None
  {
    FourTablesSuffice(imageSize);
    var j := k - ROM_SLOT;
    TableAligned(layout, j);
    assert Entry(m, ROOT, k) == layout.romTables + 0x1000 * j + PDE_VALID;
    WalkThrough(m, ROOT, k, e, layout.romTables + 0x1000 * j);
    RomEntryAt(m, layout, imageSize, j, e);
    RomEntryDecodes(1024 * j + e, RomPages(imageSize));
  }

  lemma RomEntryDecodes(n: int, pages: int)
    requires 0 <= n < 4096
    ensures 0 <= RomEntry(n, pages) < 0x1_0000_0000
    ensures Decode(RomEntry(n, pages)) == if n < pages then Some(Page(SYSTEM_ROM_BASE + PAGE_SIZE * n, ROM_FLAGS)) else None
  {
    DecodePage(SYSTEM_ROM_BASE + PAGE_SIZE * n, ROM_FLAGS);
  }

  lemma TableAligned(layout: Layout, j: int)
    requires 0 <= j < ROM_TABLES
    ensures IsTableAddress(layout.romTables + 0x1000 * j)
  {
    AlignedPlusPages(layout.romTables, j);
  }

  lemma RomEntryAt(m: Mem, layout: Layout, imageSize: u32, j: int, e: int)
    requires RomMapped(m, layout, imageSize)
    requires 0 <= j < RomTableCount(imageSize) && 0 <= e < 1024
    ensures Entry(m, layout.romTables + 0x1000 * j, e) == RomEntry(1024 * j + e, RomPages(imageSize))
  {
    assert Entry(m, layout.romTables, 1024 * j + e) == Entry(m, layout.romTables + 0x1000 * j, e);
  }

  /** A module record whose name, inside the image, is the one looked for. */
  predicate Matches(m: Mem, record: int, name: seq<byte>, imageSize: u32)
    requires 0 <= record <= PHYS_TOP - 32 && imageSize <= SYSTEM_ROM_SIZE
  {
    && Word(m, record + 4) == |name|
    && Word(m, record) + |name| <= imageSize
    && BytesAt(m, SYSTEM_ROM_BASE + Word(m, record), name)
  }

  predicate BytesAt(m: Mem, a: int, bytes: seq<byte>)
    requires 0 <= a && a + |bytes| <= PHYS_TOP
  {
    forall k {:trigger bytes[k]} :: 0 <= k < |bytes| ==> m[a + k] == bytes[k]
  }

  method BytesEqual(mem: array<byte>, left: int, right: seq<byte>) returns (r: bool)
    requires mem.Length == PHYS_TOP && 0 <= left && left + |right| <= PHYS_TOP
    ensures r <==> BytesAt(mem[..], left, right)
  {
    var index := 0;
    while index < |right|
      invariant 0 <= index <= |right|
      invariant forall j :: 0 <= j < index ==> mem[left + j] == right[j]
    {
      if mem[left + index] != right[index] {
        return false;
      }
      index := index + 1;
    }
    return true;
  }

  /** Word reads the kernel makes in the image stay inside it. */
  method ReadImageWord(mem: array<byte>, a: int, imageSize: u32) returns (v: u32)
    requires mem.Length == PHYS_TOP && imageSize <= SYSTEM_ROM_SIZE
    requires SYSTEM_ROM_BASE <= a && a + 4 <= SYSTEM_ROM_BASE + imageSize
    ensures v == Word(mem[..], a)
  {
    v := ReadWord(mem, a);
  }

  /** The test on one record, which lies in the image. */
  method MatchesHere(mem: array<byte>, r: int, imageSize: u32, name: seq<byte>) returns (matches: bool)
    requires mem.Length == PHYS_TOP && imageSize <= SYSTEM_ROM_SIZE
    requires SYSTEM_ROM_BASE <= r && r + 32 <= SYSTEM_ROM_BASE + imageSize
    ensures matches <==> Matches(mem[..], r, name, imageSize)
  {
    var nameLength := ReadImageWord(mem, r + 4, imageSize);
    var nameOffset := ReadImageWord(mem, r, imageSize);
    matches := false;
    if nameLength == |name| {
      matches := NameHere(mem, nameOffset, name, imageSize);
    }
  }

  /** The bounds check on a record's name and the comparison of its bytes. */
  method NameHere(mem: array<byte>, nameOffset: u32, name: seq<byte>, imageSize: u32) returns (same: bool)
    requires mem.Length == PHYS_TOP && imageSize <= SYSTEM_ROM_SIZE && |name| < 0x1_0000_0000
    ensures same <==> nameOffset + |name| <= imageSize && BytesAt(mem[..], SYSTEM_ROM_BASE + nameOffset, name)
  {
    same := false;
    if ImageRangeValid(nameOffset, |name|, imageSize) {
      same := BytesEqual(mem, SYSTEM_ROM_BASE + nameOffset, name);
    }
  }

  /** The first record in table order that matches; -1 when the table is out of bounds or none does. */
  method FindModule(mem: array<byte>, tableOffset: u32, count: u32, imageSize: u32, name: seq<byte>)
    returns (record: int)
    requires mem.Length == PHYS_TOP && imageSize <= SYSTEM_ROM_SIZE
    ensures record == -1 || SYSTEM_ROM_BASE <= record <= SYSTEM_ROM_BASE + imageSize - 32
    ensures record == FirstMatch(mem[..], tableOffset, count, imageSize, name)
    ensures tableOffset + 32 * count > imageSize ==> record == -1
    ensures tableOffset + 32 * count <= imageSize && record == -1 ==>
      forall i {:trigger RecordAt(tableOffset, i)} :: 0 <= i < count ==>
        !Matches(mem[..], RecordAt(tableOffset, i), name, imageSize)
    ensures record != -1 ==>
      exists i {:trigger RecordAt(tableOffset, i)} :: 0 <= i < count && record == RecordAt(tableOffset, i)
        && Matches(mem[..], record, name, imageSize)
        && forall j {:trigger RecordAt(tableOffset, j)} :: 0 <= j < i ==>
             !Matches(mem[..], RecordAt(tableOffset, j), name, imageSize)
  {
    if tableOffset + 32 * count <= imageSize {
      MatchFromIsFirst(mem[..], tableOffset, 0, count, imageSize, name);
    }
    if !ImageRecordsValid(tableOffset, count, imageSize) {
      return -1;
    }
    var index := 0;
    while index < count
      invariant 0 <= index <= count
      invariant FirstMatch(mem[..], tableOffset, count, imageSize, name) ==
        MatchFrom(mem[..], tableOffset, index, count, imageSize, name)
    {
      var r := SYSTEM_ROM_BASE + tableOffset + 32 * index;
      var matches := MatchesHere(mem, r, imageSize, name);
      if matches {
        return r;
      }
      index := index + 1;
    }
    return -1;
  }

  /** The first match among records index, index + 1, ..., count - 1. */
  function MatchFrom(m: Mem, tableOffset: u32, index: nat, count: nat, imageSize: u32, name: seq<byte>): int
    requires index <= count && tableOffset + 32 * count <= imageSize <= SYSTEM_ROM_SIZE
    decreases count - index
  {
    if index == count then -1
    else
      var r := SYSTEM_ROM_BASE + tableOffset + 32 * index;
      if Matches(m, r, name, imageSize) then r else MatchFrom(m, tableOffset, index + 1, count, imageSize, name)
  }

  function FirstMatch(m: Mem, tableOffset: u32, count: u32, imageSize: u32, name: seq<byte>): int
    requires imageSize <= SYSTEM_ROM_SIZE
  {
    if tableOffset + 32 * count <= imageSize then MatchFrom(m, tableOffset, 0, count, imageSize, name) else -1
  }

  function RecordAt(tableOffset: u32, i: int): int { SYSTEM_ROM_BASE + tableOffset + 32 * i }

  /** FirstMatch is the first match, and finds one whenever there is one. */
  lemma {:induction false} MatchFromIsFirst(m: Mem, tableOffset: u32, index: nat, count: nat, imageSize: u32, name: seq<byte>)
    requires index <= count && tableOffset + 32 * count <= imageSize <= SYSTEM_ROM_SIZE
    ensures var r := MatchFrom(m, tableOffset, index, count, imageSize, name);
      if r == -1 then
        forall i {:trigger RecordAt(tableOffset, i)} :: index <= i < count ==>
          !Matches(m, RecordAt(tableOffset, i), name, imageSize)
      else
        exists i {:trigger RecordAt(tableOffset, i)} :: index <= i < count && r == RecordAt(tableOffset, i)
          && Matches(m, r, name, imageSize)
          && forall j {:trigger RecordAt(tableOffset, j)} :: index <= j < i ==>
               !Matches(m, RecordAt(tableOffset, j), name, imageSize)
    decreases count - index
  {
    if index < count {
      assert RecordAt(tableOffset, index) == SYSTEM_ROM_BASE + tableOffset + 32 * index;
      if !Matches(m, RecordAt(tableOffset, index), name, imageSize) {
        MatchFromIsFirst(m, tableOffset, index + 1, count, imageSize, name);
      }
    }
  }

  /** The words of a module record that a search looks at: the name's offset and its length. */
  lemma MatchesWords(m: Mem, record: int, ws: seq<u32>, name: seq<byte>, imageSize: u32)
    requires 0 <= record <= PHYS_TOP - 32 && imageSize <= SYSTEM_ROM_SIZE && |ws| == 8 && WordsAt(m, record, ws)
    ensures Matches(m, record, name, imageSize) <==>
      && ws[1] == |name| && ws[0] + |name| <= imageSize
      && forall k {:trigger name[k]} :: 0 <= k < |name| ==> m[0x0800_0000 + (ws[0] + k)] == name[k]
  {
    var w0, w1 := ws[0], ws[1];
    assert w0 == Word(m, record + 4 * 0) && w1 == Word(m, record + 4 * 1);
  }

  lemma RecordsInTable(tableOffset: u32, i: nat)
    ensures RecordAt(tableOffset, i) == 0x0800_0000 + (tableOffset as int) + 32 * i
  {
  }

  /** What mapping the ROM leaves alone: all but its tables and up to four directory entries. */
  lemma RomFrameMeans(layout: Layout, imageSize: u32, m: Mem, m': Mem, i: int)
    requires 0 < imageSize <= SYSTEM_ROM_SIZE && RomFrame(layout, RomTableCount(imageSize), m, m') && 0 <= i < PHYS_TOP
    requires !(layout.romTables <= i < layout.romTables + 4 * 4096) && !(0x4001_0080 <= i < 0x4001_0090)
    ensures m'[i] == m[i]
  {
    FourTablesSuffice(imageSize);
  }
}
