/** The boot ROM: loading the kernel segments of the packed image and publishing boot info. */
module BootRom {
  import opened Memory

  const IMAGE_SIZE_OFFSET := 0x08
  const KERNEL_TABLE_OFFSET := 0x0c
  const KERNEL_COUNT_OFFSET := 0x10
  const MODULE_TABLE_OFFSET := 0x14
  const MODULE_COUNT_OFFSET := 0x18
  const BOOTSTRAP_ENTRY_OFFSET := 0x1c
  const KERNEL_SEGMENT_SIZE := 32

  const BOOT_INFO_PADDR := 0x4000_7000
  const BOOT_INFO_VADDR := 0xc000_7000
  const BOOT_INFO_MAGIC := 0x4d42_4f4f
  const ABI_VERSION := 1
  const BOOT_INFO_SIZE := 64
  const DIRECT_MAP_VADDR := 0xc000_0000
  const DIRECT_MAP_PADDR := 0x4000_0000
  const DIRECT_MAP_SIZE := 0x0400_0000

  /** First byte of the page the loader uses as its own stack, just below boot info. */
  const LOADER_STACK_PADDR := 0x4000_6000

  function HeaderWord(m: Mem, offset: int): u32
    requires 0 <= offset <= 0x1c
  {
    Word(m, SYSTEM_ROM_BASE + offset)
  }

  function KernelCount(m: Mem): u32 { HeaderWord(m, KERNEL_COUNT_OFFSET) }

  /** The fields of a kernel segment record the loader uses. */
  datatype KernelSegment = KernelSegment(source: int, paddr: u32, fileSize: u32, memorySize: u32) {
    predicate Holds(a: int) { paddr <= a < paddr + memorySize }

    /** A loaded segment lies in the ROM image and in RAM, clear of boot info and the loader's stack. */
    predicate WellFormed(imageSize: int) {
      && SYSTEM_ROM_BASE <= source && source + fileSize <= SYSTEM_ROM_BASE + imageSize
      && fileSize <= memorySize
      && RAM_BASE <= paddr && paddr + memorySize <= PHYS_TOP
      && (paddr + memorySize <= LOADER_STACK_PADDR || BOOT_INFO_PADDR + BOOT_INFO_SIZE <= paddr)
    }

    /** The byte the segment puts at address a. */
    function ByteAt(m: Mem, a: int): byte
      requires Holds(a) && WellFormed(SYSTEM_ROM_SIZE)
    {
      if a - paddr < fileSize then m[source + (a - paddr)] else 0
    }
  }

  function SegmentRecord(m: Mem, i: int): int {
    SYSTEM_ROM_BASE + HeaderWord(m, KERNEL_TABLE_OFFSET) + i * KERNEL_SEGMENT_SIZE
  }

  predicate TableInImage(m: Mem) {
    && HeaderWord(m, IMAGE_SIZE_OFFSET) <= SYSTEM_ROM_SIZE
    && HeaderWord(m, KERNEL_TABLE_OFFSET) + KernelCount(m) * KERNEL_SEGMENT_SIZE <= HeaderWord(m, IMAGE_SIZE_OFFSET)
  }

  function SegmentAt(m: Mem, i: int): KernelSegment
    requires TableInImage(m) && 0 <= i < KernelCount(m)
  {
    var r := SegmentRecord(m, i);
    KernelSegment(SYSTEM_ROM_BASE + Word(m, r), Word(m, r + 4), Word(m, r + 0x0c), Word(m, r + 0x10))
  }

  /** What the image packer has checked before the image reaches the ROM. */
  ghost predicate PackedKernel(m: Mem) {
    && TableInImage(m)
    && (forall i {:trigger SegmentAt(m, i)} :: 0 <= i < KernelCount(m) ==>
          SegmentAt(m, i).WellFormed(HeaderWord(m, IMAGE_SIZE_OFFSET)))
    && forall i, j, a {:trigger SegmentAt(m, i).Holds(a), SegmentAt(m, j).Holds(a)} ::
         0 <= i < j < KernelCount(m) ==> !(SegmentAt(m, i).Holds(a) && SegmentAt(m, j).Holds(a))
  }

  /** The byte at a after the first n kernel segments of m have been loaded. */
  ghost function LoadedByte(m: Mem, n: nat, a: int): byte
    requires PackedKernel(m) && n <= KernelCount(m) && 0 <= a < PHYS_TOP
  {
    if n == 0 then m[a]
    else if SegmentAt(m, n - 1).Holds(a) then SegmentAt(m, n - 1).ByteAt(m, a)
    else LoadedByte(m, n - 1, a)
  }

  /** Nothing loaded later disturbs a segment: its range ends up as its file bytes, then zeros. */
  lemma {:induction false} SegmentsSurvive(m: Mem, n: nat, i: nat, a: int)
    requires PackedKernel(m) && i < n <= KernelCount(m)
    requires 0 <= a < PHYS_TOP && SegmentAt(m, i).Holds(a)
    ensures LoadedByte(m, n, a) == SegmentAt(m, i).ByteAt(m, a)
  {
    if i < n - 1 {
      assert !SegmentAt(m, n - 1).Holds(a);
      SegmentsSurvive(m, n - 1, i, a);
    }
  }

  /** RAM outside every segment keeps whatever it held before. */
  lemma {:induction false} OutsideSegments(m: Mem, n: nat, a: int)
    requires PackedKernel(m) && n <= KernelCount(m) && 0 <= a < PHYS_TOP
    requires forall i {:trigger SegmentAt(m, i)} :: 0 <= i < n ==> !SegmentAt(m, i).Holds(a)
    ensures LoadedByte(m, n, a) == m[a]
  {
    if n > 0 {
      OutsideSegments(m, n - 1, a);
    }
  }

  /** Boot info as the kernel's C structure lays it out. */
  datatype BootInfo = BootInfo(
    magic: u32, version: u32, size: u32, systemRomBase: u32, imageSize: u32,
    moduleTableOffset: u32, moduleCount: u32,
    directMapVaddr: u32, directMapPaddr: u32, directMapSize: u32,
    flags: u32, reserved: seq<u32>)

  function Half(m: Mem, a: int): (h: u32)
    requires 0 <= a <= PHYS_TOP - 2
  {
    m[a] + 0x100 * (m[a + 1] as int)
  }

  function ReadBootInfo(m: Mem, p: int): BootInfo
    requires 0 <= p <= PHYS_TOP - BOOT_INFO_SIZE
  {
    BootInfo(Word(m, p), Half(m, p + 4), Half(m, p + 6), Word(m, p + 8), Word(m, p + 12),
             Word(m, p + 16), Word(m, p + 20), Word(m, p + 24), Word(m, p + 28), Word(m, p + 32),
             Word(m, p + 36),
             [Word(m, p + 40), Word(m, p + 44), Word(m, p + 48), Word(m, p + 52), Word(m, p + 56), Word(m, p + 60)])
  }

  type u16 = x: int | 0 <= x < 0x1_0000

  function PutHalf(m: Mem, a: int, v: u16): (r: Mem)
    requires 0 <= a <= PHYS_TOP - 2
    ensures Half(r, a) == v
    ensures forall i {:trigger r[i]} :: 0 <= i < PHYS_TOP && !(a <= i < a + 2) ==> r[i] == m[i]
  {
    var r := Store(m, a, [v % 0x100, v / 0x100]);
    assert r[a] == v % 0x100 && r[a + 1] == v / 0x100;
    r
  }

  /** The stores of write_boot_info, in order: first the identification, then the fields. */
  function IdentityStored(m: Mem, p: int): Mem
    requires 0 <= p <= PHYS_TOP - BOOT_INFO_SIZE
  {
    var m0 := Store(m, p, Zeros(BOOT_INFO_SIZE));
    var m1 := PutWord(m0, p, BOOT_INFO_MAGIC);
    PutHalf(PutHalf(m1, p + 0x04, ABI_VERSION), p + 0x06, BOOT_INFO_SIZE)
  }

  function BootInfoStored(m: Mem, p: int, imageSize: u32, moduleTable: u32, moduleCount: u32): Mem
    requires 0 <= p <= PHYS_TOP - BOOT_INFO_SIZE
  {
    WordsStored(IdentityStored(m, p), p + 0x08,
                [SYSTEM_ROM_BASE, imageSize, moduleTable, moduleCount,
                 DIRECT_MAP_VADDR, DIRECT_MAP_PADDR, DIRECT_MAP_SIZE])
  }

  /** The structure the kernel finds at BOOT_INFO_VADDR. */
  function PublishedInfo(imageSize: u32, moduleTable: u32, moduleCount: u32): BootInfo {
    BootInfo(BOOT_INFO_MAGIC, ABI_VERSION, BOOT_INFO_SIZE, SYSTEM_ROM_BASE, imageSize, moduleTable, moduleCount,
             DIRECT_MAP_VADDR, DIRECT_MAP_PADDR, DIRECT_MAP_SIZE, 0, [0, 0, 0, 0, 0, 0])
  }

  /** r is m with a cleared boot-info record at p that only carries the identification. */
  ghost predicate Identified(m: Mem, r: Mem, p: int)
    requires 0 <= p <= PHYS_TOP - BOOT_INFO_SIZE
  {
    && Word(r, p) == BOOT_INFO_MAGIC && Half(r, p + 4) == ABI_VERSION && Half(r, p + 6) == BOOT_INFO_SIZE
    && (forall i {:trigger r[i]} :: p + 8 <= i < p + BOOT_INFO_SIZE ==> r[i] == 0)
    && SameBut(m, r, p, p + BOOT_INFO_SIZE)
  }

  lemma IdentityRead(m: Mem, p: int)
    requires 0 <= p <= PHYS_TOP - BOOT_INFO_SIZE
    ensures Identified(m, IdentityStored(m, p), p)
  {
  }

  lemma BootInfoRoundTrip(m: Mem, p: int, imageSize: u32, moduleTable: u32, moduleCount: u32)
    requires 0 <= p <= PHYS_TOP - BOOT_INFO_SIZE
    ensures var r := BootInfoStored(m, p, imageSize, moduleTable, moduleCount);
      && ReadBootInfo(r, p) == PublishedInfo(imageSize, moduleTable, moduleCount)
      && SameBut(m, r, p, p + BOOT_INFO_SIZE)
  {
    IdentityRead(m, p);
    var fields := [SYSTEM_ROM_BASE, imageSize, moduleTable, moduleCount, DIRECT_MAP_VADDR, DIRECT_MAP_PADDR, DIRECT_MAP_SIZE];
    var m3 := IdentityStored(m, p);
    WordsStoredRead(m3, p + 0x08, fields);
    FieldsRoundTrip(m, m3, WordsStored(m3, p + 0x08, fields), p, fields);
  }

  lemma FieldsRoundTrip(m: Mem, m3: Mem, r: Mem, p: int, fields: seq<u32>)
    requires 0 <= p <= PHYS_TOP - BOOT_INFO_SIZE && |fields| == 7
    requires Identified(m, m3, p) && WordsAt(r, p + 8, fields) && SameBut(m3, r, p + 8, p + 36)
    ensures ReadBootInfo(r, p) ==
      BootInfo(BOOT_INFO_MAGIC, ABI_VERSION, BOOT_INFO_SIZE, fields[0], fields[1], fields[2], fields[3],
               fields[4], fields[5], fields[6], 0, [0, 0, 0, 0, 0, 0])
    ensures SameBut(m, r, p, p + BOOT_INFO_SIZE)
  {
    FieldsRead(m3, r, p, fields);
  }

  lemma FieldsRead(m3: Mem, r: Mem, p: int, fields: seq<u32>)
    requires 0 <= p <= PHYS_TOP - BOOT_INFO_SIZE && |fields| == 7
    requires WordsAt(r, p + 8, fields) && SameBut(m3, r, p + 8, p + 36)
    requires forall i {:trigger m3[i]} :: p + 8 <= i < p + BOOT_INFO_SIZE ==> m3[i] == 0
    ensures ReadBootInfo(r, p) ==
      BootInfo(Word(m3, p), Half(m3, p + 4), Half(m3, p + 6), fields[0], fields[1], fields[2], fields[3],
               fields[4], fields[5], fields[6], 0, [0, 0, 0, 0, 0, 0])
  {
    ZeroTail(m3, r, p);
    assert Word(r, p) == Word(m3, p) && Half(r, p + 4) == Half(m3, p + 4) && Half(r, p + 6) == Half(m3, p + 6);
    SevenWords(r, p + 8, fields);
  }

  lemma SevenWords(r: Mem, q: int, ws: seq<u32>)
    requires 0 <= q <= PHYS_TOP - 28 && |ws| == 7 && WordsAt(r, q, ws)
    ensures Word(r, q) == ws[0] && Word(r, q + 4) == ws[1] && Word(r, q + 8) == ws[2] && Word(r, q + 12) == ws[3]
    ensures Word(r, q + 16) == ws[4] && Word(r, q + 20) == ws[5] && Word(r, q + 24) == ws[6]
  {
    var w0, w1, w2, w3, w4, w5, w6 := ws[0], ws[1], ws[2], ws[3], ws[4], ws[5], ws[6];
    assert w0 == Word(r, q + 4 * 0) && w1 == Word(r, q + 4 * 1) && w2 == Word(r, q + 4 * 2) && w3 == Word(r, q + 4 * 3);
    assert w4 == Word(r, q + 4 * 4) && w5 == Word(r, q + 4 * 5) && w6 == Word(r, q + 4 * 6);
  }

  lemma ZeroTail(m3: Mem, r: Mem, p: int)
    requires 0 <= p <= PHYS_TOP - BOOT_INFO_SIZE
    requires SameBut(m3, r, p + 8, p + 36)
    requires forall i {:trigger m3[i]} :: p + 8 <= i < p + BOOT_INFO_SIZE ==> m3[i] == 0
    ensures forall a {:trigger Word(r, a)} :: p + 36 <= a <= p + 60 ==> Word(r, a) == 0
  {
    forall a | p + 36 <= a <= p + 60 ensures Word(r, a) == 0 {}
  }

  method WriteHalf(mem: array<byte>, a: int, v: u16)
    requires mem.Length == PHYS_TOP && 0 <= a <= PHYS_TOP - 2
    modifies mem
    ensures mem[..] == PutHalf(old(mem[..]), a, v)
  {
    mem[a] := v % 0x100;
    mem[a + 1] := v / 0x100;
    assert mem[..] == Store(old(mem[..]), a, [v % 0x100, v / 0x100]);
  }

  method WriteBootInfo(mem: array<byte>, imageSize: u32, moduleTable: u32, moduleCount: u32)
    requires mem.Length == PHYS_TOP
    modifies mem
    ensures ReadBootInfo(mem[..], BOOT_INFO_PADDR) == PublishedInfo(imageSize, moduleTable, moduleCount)
    ensures SameBut(old(mem[..]), mem[..], BOOT_INFO_PADDR, BOOT_INFO_PADDR + BOOT_INFO_SIZE)
    ensures var m, info := mem[..], ReadBootInfo(mem[..], 0x4000_7000);
      && info.imageSize == Word(m, 0x4000_700c) == imageSize
      && info.moduleTableOffset == Word(m, 0x4000_7010) == moduleTable
      && info.moduleCount == Word(m, 0x4000_7014) == moduleCount
  {
    BootInfoRoundTrip(mem[..], BOOT_INFO_PADDR, imageSize, moduleTable, moduleCount);
    WriteIdentity(mem);
    WriteWords(mem, BOOT_INFO_PADDR + 0x08,
                [SYSTEM_ROM_BASE, imageSize, moduleTable, moduleCount,
                 DIRECT_MAP_VADDR, DIRECT_MAP_PADDR, DIRECT_MAP_SIZE]);
  }

  method WriteIdentity(mem: array<byte>)
    requires mem.Length == PHYS_TOP
    modifies mem
    ensures mem[..] == IdentityStored(old(mem[..]), BOOT_INFO_PADDR)
  {
    ZeroBytes(mem, BOOT_INFO_PADDR, BOOT_INFO_SIZE);
    WriteWord(mem, BOOT_INFO_PADDR, BOOT_INFO_MAGIC);
    WriteHalf(mem, BOOT_INFO_PADDR + 0x04, ABI_VERSION);
    WriteHalf(mem, BOOT_INFO_PADDR + 0x06, BOOT_INFO_SIZE);
  }

  /** Records are read from ROM, which loading leaves alone. */
  lemma RomRecordsKept(m: Mem, m': Mem, i: int)
    requires TableInImage(m) && 0 <= i < KernelCount(m)
    requires SameOn(m, m', 0, RAM_BASE)
    ensures TableInImage(m') && KernelCount(m') == KernelCount(m)
    ensures SegmentRecord(m', i) == SegmentRecord(m, i) && SegmentAt(m', i) == SegmentAt(m, i)
  {
    HeaderKept(m, m');
    var r := SegmentRecord(m, i);
    WordKept(m, m', r);
    WordKept(m, m', r + 4);
    WordKept(m, m', r + 0x0c);
    WordKept(m, m', r + 0x10);
  }

  /** The page the loader's own stack grows down in. */
  predicate InLoaderStack(a: int) { LOADER_STACK_PADDR <= a < BOOT_INFO_PADDR }

  /** Memory once the first n segments of m0 are in place; what the loader's stack holds is left open. */
  ghost predicate LoadedUpTo(m0: Mem, n: nat, m: Mem)
    requires PackedKernel(m0) && n <= KernelCount(m0)
  {
    forall a {:trigger m[a]} :: 0 <= a < PHYS_TOP && !InLoaderStack(a) ==> m[a] == LoadedByte(m0, n, a)
  }

  lemma {:induction false} RomKept(m0: Mem, n: nat, a: int)
    requires PackedKernel(m0) && n <= KernelCount(m0) && 0 <= a < RAM_BASE
    ensures LoadedByte(m0, n, a) == m0[a]
  {
    if n > 0 {
      assert SegmentAt(m0, n - 1).WellFormed(HeaderWord(m0, IMAGE_SIZE_OFFSET));
      RomKept(m0, n - 1, a);
    }
  }

  lemma LoadStep(m0: Mem, index: nat, s: KernelSegment, m1: Mem, m2: Mem, m3: Mem)
    requires PackedKernel(m0) && index < KernelCount(m0) && LoadedUpTo(m0, index, m1)
    requires s == SegmentAt(m0, index) && s.WellFormed(SYSTEM_ROM_SIZE)
    requires m2 == Store(m1, s.paddr, m1[s.source..s.source + s.fileSize])
    requires m3 == Store(m2, s.paddr + s.fileSize, Zeros(s.memorySize - s.fileSize))
    ensures LoadedUpTo(m0, index + 1, m3)
  {
    forall a | 0 <= a < PHYS_TOP && !InLoaderStack(a) ensures m3[a] == LoadedByte(m0, index + 1, a)
    {
      SegmentBytes(s, m1, m2, m3, a);
      assert m1[a] == LoadedByte(m0, index, a);
      if s.Holds(a) && a - s.paddr < s.fileSize {
        RomKept(m0, index, s.source + (a - s.paddr));
      }
    }
  }

  /** What copying and clearing leave at a. */
  lemma SegmentBytes(s: KernelSegment, m1: Mem, m2: Mem, m3: Mem, a: int)
    requires s.WellFormed(SYSTEM_ROM_SIZE) && 0 <= a < PHYS_TOP
    requires m2 == Store(m1, s.paddr, m1[s.source..s.source + s.fileSize])
    requires m3 == Store(m2, s.paddr + s.fileSize, Zeros(s.memorySize - s.fileSize))
    ensures m3[a] == if s.Holds(a) then s.ByteAt(m1, a) else m1[a]
  {
    if s.Holds(a) && a - s.paddr < s.fileSize {
      assert m3[a] == m2[a] == m1[s.source..s.source + s.fileSize][a - s.paddr];
    }
  }

  lemma RecordBounds(m: Mem, i: nat)
    requires TableInImage(m) && i < KernelCount(m)
    ensures SYSTEM_ROM_BASE <= SegmentRecord(m, i)
    ensures SegmentRecord(m, i) + KERNEL_SEGMENT_SIZE <= SYSTEM_ROM_BASE + HeaderWord(m, IMAGE_SIZE_OFFSET)
  {
  }

  method ReadSegment(mem: array<byte>, index: nat) returns (s: KernelSegment)
    requires mem.Length == PHYS_TOP && TableInImage(mem[..]) && index < KernelCount(mem[..])
    ensures s == SegmentAt(mem[..], index)
  {
    var table := ReadWord(mem, SYSTEM_ROM_BASE + KERNEL_TABLE_OFFSET);
    var record := SYSTEM_ROM_BASE + table + index * KERNEL_SEGMENT_SIZE;
    RecordBounds(mem[..], index);
    s := ReadRecord(mem, record);
  }

  method ReadRecord(mem: array<byte>, r: int) returns (s: KernelSegment)
    requires mem.Length == PHYS_TOP && 0 <= r <= PHYS_TOP - KERNEL_SEGMENT_SIZE
    ensures s == KernelSegment(SYSTEM_ROM_BASE + Word(mem[..], r), Word(mem[..], r + 4),
                               Word(mem[..], r + 0x0c), Word(mem[..], r + 0x10))
  {
    var data := ReadWord(mem, r);
    var destination := ReadWord(mem, r + 4);
    var fileSize := ReadWord(mem, r + 0x0c);
    var memorySize := ReadWord(mem, r + 0x10);
    s := KernelSegment(SYSTEM_ROM_BASE + data, destination, fileSize, memorySize);
  }

  method LoadSegment(mem: array<byte>, ghost m0: Mem, index: nat)
    requires mem.Length == PHYS_TOP
    requires PackedKernel(m0) && index < KernelCount(m0)
    requires LoadedUpTo(m0, index, mem[..])
    modifies mem
    ensures LoadedUpTo(m0, index + 1, mem[..])
  {
    ghost var m1: Mem := mem[..];
    LoadedRom(m0, index, m1);
    RomRecordsKept(m0, m1, index);
    var s := ReadSegment(mem, index);
    SegmentInRom(m0, index);
    ghost var m2 := CopyAndClear(mem, s);
    LoadStep(m0, index, s, m1, m2, mem[..]);
  }

  lemma SegmentInRom(m0: Mem, i: nat)
    requires PackedKernel(m0) && i < KernelCount(m0)
    ensures SegmentAt(m0, i).WellFormed(SYSTEM_ROM_SIZE)
  {
    assert SegmentAt(m0, i).WellFormed(HeaderWord(m0, IMAGE_SIZE_OFFSET));
  }

  /** The initialized bytes, then zeros up to the segment's size in memory. */
  method CopyAndClear(mem: array<byte>, s: KernelSegment) returns (ghost copied: Mem)
    requires mem.Length == PHYS_TOP && s.WellFormed(SYSTEM_ROM_SIZE)
    modifies mem
    ensures copied == Store(old(mem[..]), s.paddr, old(mem[..])[s.source..s.source + s.fileSize])
    ensures mem[..] == Store(copied, s.paddr + s.fileSize, Zeros(s.memorySize - s.fileSize))
  {
    CopyBytes(mem, s.paddr, s.source, s.fileSize);
    copied := mem[..];
    ZeroBytes(mem, s.paddr + s.fileSize, s.memorySize - s.fileSize);
  }

  lemma LoadedRom(m0: Mem, n: nat, m: Mem)
    requires PackedKernel(m0) && n <= KernelCount(m0) && LoadedUpTo(m0, n, m)
    ensures SameOn(m0, m, 0, RAM_BASE)
  {
    forall a | 0 <= a < RAM_BASE ensures m[a] == m0[a] { RomKept(m0, n, a); }
  }

  /** RAM as the boot ROM hands it to the kernel, given memory m0 at reset. */
  ghost predicate Booted(m0: Mem, m: Mem)
    requires PackedKernel(m0)
  {
    && (forall a {:trigger m[a]} ::
          0 <= a < PHYS_TOP && !InLoaderStack(a) && !(BOOT_INFO_PADDR <= a < BOOT_INFO_PADDR + BOOT_INFO_SIZE) ==>
          m[a] == LoadedByte(m0, KernelCount(m0), a))
    && ReadBootInfo(m, BOOT_INFO_PADDR) ==
         PublishedInfo(HeaderWord(m0, IMAGE_SIZE_OFFSET), HeaderWord(m0, MODULE_TABLE_OFFSET),
                       HeaderWord(m0, MODULE_COUNT_OFFSET))
  }

  lemma PublishingBoots(m0: Mem, m1: Mem, m2: Mem)
    requires PackedKernel(m0) && LoadedUpTo(m0, KernelCount(m0), m1)
    requires SameBut(m1, m2, BOOT_INFO_PADDR, BOOT_INFO_PADDR + BOOT_INFO_SIZE)
    requires ReadBootInfo(m2, BOOT_INFO_PADDR) ==
      PublishedInfo(HeaderWord(m0, IMAGE_SIZE_OFFSET), HeaderWord(m0, MODULE_TABLE_OFFSET),
                    HeaderWord(m0, MODULE_COUNT_OFFSET))
    ensures Booted(m0, m2)
  {
  }

  method LoadKernel(mem: array<byte>)
    requires mem.Length == PHYS_TOP && PackedKernel(mem[..])
    modifies mem
    ensures LoadedUpTo(old(mem[..]), KernelCount(old(mem[..])), mem[..])
  {
    ghost var m0: Mem := mem[..];
    var kernelCount := ReadWord(mem, SYSTEM_ROM_BASE + KERNEL_COUNT_OFFSET);
    var index := 0;
    while index < kernelCount
      invariant 0 <= index <= kernelCount
      invariant LoadedUpTo(m0, index, mem[..])
    {
      LoadSegment(mem, m0, index);
      index := index + 1;
    }
  }

  method BootMain(mem: array<byte>) returns (entry: u32, bootInfo: u32)
    requires mem.Length == PHYS_TOP && PackedKernel(mem[..])
    modifies mem
    ensures bootInfo == BOOT_INFO_VADDR && entry == HeaderWord(old(mem[..]), BOOTSTRAP_ENTRY_OFFSET)
    ensures Booted(old(mem[..]), mem[..])
    ensures bootInfo == 0xc000_7000 && entry == Word(old(mem[..]), 0x0800_001c)
    ensures var m, info := old(mem[..]), ReadBootInfo(mem[..], 0x4000_7000);
      && info.imageSize == Word(m, 0x0800_0008) && info.moduleTableOffset == Word(m, 0x0800_0014)
      && info.moduleCount == Word(m, 0x0800_0018)
      && info.magic == 0x4d42_4f4f && info.version == 1 && info.size == 64 && info.systemRomBase == 0x0800_0000
      && info.directMapVaddr == 0xc000_0000 && info.directMapPaddr == 0x4000_0000 && info.directMapSize == 0x0400_0000
      && info.flags == 0 && info.reserved == [0, 0, 0, 0, 0, 0]
  {
    ghost var m0: Mem := mem[..];
    entry := LoadAndPublish(mem);
    BootedFields(m0, mem[..]);
    bootInfo := BOOT_INFO_VADDR;
  }

  /** Everything but the hand-over. */
  method LoadAndPublish(mem: array<byte>) returns (entry: u32)
    requires mem.Length == PHYS_TOP && PackedKernel(mem[..])
    modifies mem
    ensures Booted(old(mem[..]), mem[..]) && entry == HeaderWord(old(mem[..]), BOOTSTRAP_ENTRY_OFFSET)
  {
    ghost var m0: Mem := mem[..];
    var imageSize := ReadWord(mem, SYSTEM_ROM_BASE + IMAGE_SIZE_OFFSET);
    LoadKernel(mem);
    ghost var m1: Mem := mem[..];
    LoadedRom(m0, KernelCount(m0), m1);
    HeaderKept(m0, m1);
    var moduleTable := ReadWord(mem, SYSTEM_ROM_BASE + MODULE_TABLE_OFFSET);
    var moduleCount := ReadWord(mem, SYSTEM_ROM_BASE + MODULE_COUNT_OFFSET);
    assert moduleTable == HeaderWord(m0, MODULE_TABLE_OFFSET) && moduleCount == HeaderWord(m0, MODULE_COUNT_OFFSET);
    entry := ReadWord(mem, SYSTEM_ROM_BASE + BOOTSTRAP_ENTRY_OFFSET);
    WriteBootInfo(mem, imageSize, moduleTable, moduleCount);
    PublishingBoots(m0, m1, mem[..]);
  }

  lemma HeaderKept(m: Mem, m': Mem)
    requires SameOn(m, m', 0, RAM_BASE)
    ensures forall o {:trigger HeaderWord(m', o)} | 0 <= o <= 0x1c :: HeaderWord(m', o) == HeaderWord(m, o)
  {
    forall o | 0 <= o <= 0x1c ensures HeaderWord(m', o) == HeaderWord(m, o) { WordKept(m, m', SYSTEM_ROM_BASE + o); }
  }

  /** Where the published fields lie, in memory and in the structure. */
  lemma InfoInMemory(m: Mem, p: int, imageSize: u32, moduleTable: u32, moduleCount: u32)
    requires 0 <= p <= PHYS_TOP - 64 && ReadBootInfo(m, p) == PublishedInfo(imageSize, moduleTable, moduleCount)
    ensures Word(m, p) == 0x4d42_4f4f && Half(m, p + 4) == 1 && Half(m, p + 6) == 64 && Word(m, p + 8) == 0x0800_0000
    ensures Word(m, p + 12) == imageSize && Word(m, p + 16) == moduleTable && Word(m, p + 20) == moduleCount
    ensures Word(m, p + 24) == 0xc000_0000 && Word(m, p + 28) == 0x4000_0000 && Word(m, p + 32) == 0x0400_0000
    ensures Word(m, p + 36) == Word(m, p + 40) == Word(m, p + 44) == Word(m, p + 48) == 0
    ensures Word(m, p + 52) == Word(m, p + 56) == Word(m, p + 60) == 0
  {
    var r := ReadBootInfo(m, p).reserved;
    assert r[0] == Word(m, p + 40) && r[1] == Word(m, p + 44) && r[2] == Word(m, p + 48);
    assert r[3] == Word(m, p + 52) && r[4] == Word(m, p + 56) && r[5] == Word(m, p + 60);
  }

  /** The words of the image header, in order. */
  lemma HeaderOfWords(m: Mem, ws: seq<u32>)
    requires |ws| == 8 && WordsAt(m, 0x0800_0000, ws)
    ensures HeaderWord(m, IMAGE_SIZE_OFFSET) == ws[2] && HeaderWord(m, KERNEL_TABLE_OFFSET) == ws[3]
    ensures KernelCount(m) == ws[4] && HeaderWord(m, MODULE_TABLE_OFFSET) == ws[5]
    ensures HeaderWord(m, MODULE_COUNT_OFFSET) == ws[6] && HeaderWord(m, BOOTSTRAP_ENTRY_OFFSET) == ws[7]
  {
    var w2, w3, w4, w5, w6, w7 := ws[2], ws[3], ws[4], ws[5], ws[6], ws[7];
  }

  /** The words of a kernel segment record at a, in order. */
  lemma KernelSegmentOfWords(m: Mem, i: nat, a: int, ws: seq<u32>)
    requires TableInImage(m) && i < KernelCount(m) && |ws| == 8
    requires a == 0x0800_0000 + HeaderWord(m, KERNEL_TABLE_OFFSET) + 32 * i && WordsAt(m, a, ws)
    ensures var s := SegmentAt(m, i);
      s.source == 0x0800_0000 + (ws[0] as int) && s.paddr == ws[1] && s.fileSize == ws[3] && s.memorySize == ws[4]
  {
    RecordBounds(m, i);
    var w0, w1, w3, w4 := ws[0], ws[1], ws[3], ws[4];
    assert w0 == Word(m, a + 4 * 0) && w1 == Word(m, a + 4 * 1) && w3 == Word(m, a + 4 * 3) && w4 == Word(m, a + 4 * 4);
  }

  /** The record that boot leaves, against the image header. */
  lemma BootedFields(m0: Mem, m: Mem)
    requires PackedKernel(m0) && Booted(m0, m)
    ensures var info := ReadBootInfo(m, 0x4000_7000);
      && info.imageSize == Word(m0, 0x0800_0008) && info.moduleTableOffset == Word(m0, 0x0800_0014)
      && info.moduleCount == Word(m0, 0x0800_0018)
      && info.magic == 0x4d42_4f4f && info.version == 1 && info.size == 64 && info.systemRomBase == 0x0800_0000
      && info.directMapVaddr == 0xc000_0000 && info.directMapPaddr == 0x4000_0000 && info.directMapSize == 0x0400_0000
      && info.flags == 0 && info.reserved == [0, 0, 0, 0, 0, 0]
  {
  }

  /** What boot leaves of segment i, byte by byte. */
  lemma KernelBytes(m0: Mem, m1: Mem, i: nat, s: KernelSegment, a: int)
    requires PackedKernel(m0) && Booted(m0, m1) && i < KernelCount(m0) && s == SegmentAt(m0, i)
    requires s.paddr <= a < s.paddr + s.memorySize
    ensures 0 <= a < PHYS_TOP && 0 <= s.source && s.source + s.fileSize <= PHYS_TOP
    ensures m1[a] == if a - s.paddr < s.fileSize then m0[s.source + (a - s.paddr)] else 0
  {
    SegmentInRom(m0, i);
    assert s.Holds(a);
    SegmentsSurvive(m0, KernelCount(m0), i, a);
  }
}
