/**
 * The synchronous block driver over a model of the controller that is fixed by what the block
 * tests assert, and the two-unit array of sectors that any sequence of calls amounts to.
 */
module Block {
  import opened Memory
  import opened Mmu

  const SECTOR_SIZE := 512
  const COMMAND_READ := 1
  const COMMAND_WRITE := 2
  const STATUS_BUSY := 1
  const STATUS_COMPLETE := 2
  const STATUS_ERROR := 4
  const COMPLETION_TICKS := 32
  const ERROR_NONE := 0
  const ERROR_NO_MEDIA := 1
  const ERROR_INVALID_COMMAND := 3
  const ERROR_INVALID_DMA := 4
  const ERROR_INVALID_LBA := 5
  const ERROR_INVALID_UNIT := 7

  /** A medium is a whole number of sectors. */
  type Medium = m: seq<byte> | |m| % SECTOR_SIZE == 0

  /** The media of the two units; None for a unit with nothing attached. */
  type Disk = d: seq<Option<Medium>> | |d| == 2 witness [None, None]

  datatype Request = Request(command: u32, unit: u32, lba: u32, count: u32, dma: u32)

  function MediumSize(disk: Disk, unit: int): int
    requires 0 <= unit < 2
  {
    if disk[unit].Some? then |disk[unit].value| / SECTOR_SIZE else 0
  }

  predicate DmaOk(r: Request) {
    r.dma % SECTOR_SIZE == 0 && RAM_BASE <= r.dma && r.dma + SECTOR_SIZE * r.count <= PHYS_TOP
  }

  /** The errors that apply to a request; which of several is reported is not specified. */
  function Errors(r: Request, disk: Disk): set<u32> {
    (if r.command != COMMAND_READ && r.command != COMMAND_WRITE then {ERROR_INVALID_COMMAND} else {})
    + (if r.unit > 1 then {ERROR_INVALID_UNIT} else {})
    + (if r.unit <= 1 && disk[r.unit].None? then {ERROR_NO_MEDIA} else {})
    + (if !DmaOk(r) then {ERROR_INVALID_DMA} else {})
    + (if r.unit <= 1 && disk[r.unit].Some? && r.lba + r.count > MediumSize(disk, r.unit) then {ERROR_INVALID_LBA} else {})
  }

  predicate Succeeds(r: Request, disk: Disk) {
    && (r.command == COMMAND_READ || r.command == COMMAND_WRITE)
    && r.unit <= 1 && disk[r.unit].Some? && DmaOk(r)
    && r.lba + r.count <= MediumSize(disk, r.unit)
  }

  lemma SucceedsMeansNoError(r: Request, disk: Disk)
    ensures Succeeds(r, disk) <==> Errors(r, disk) == {}
  {
    var e := Errors(r, disk);
    assert (r.command != COMMAND_READ && r.command != COMMAND_WRITE) ==> ERROR_INVALID_COMMAND in e;
    assert r.unit > 1 ==> ERROR_INVALID_UNIT in e;
    assert !DmaOk(r) ==> ERROR_INVALID_DMA in e;
    if r.unit <= 1 {
      assert disk[r.unit].None? ==> ERROR_NO_MEDIA in e;
      assert disk[r.unit].Some? && r.lba + r.count > MediumSize(disk, r.unit) ==> ERROR_INVALID_LBA in e;
    }
  }

  function Start(r: Request): int { SECTOR_SIZE * r.lba }
  function Length(r: Request): int { SECTOR_SIZE * r.count }

  /** The medium after a successful write of the bytes at r.dma. */
  function Overwritten(medium: Medium, r: Request, m: Mem): Medium
    requires DmaOk(r) && r.lba + r.count <= |medium| / SECTOR_SIZE
  {
    medium[..Start(r)] + m[r.dma..r.dma + Length(r)] + medium[Start(r) + Length(r)..]
  }

  function DiskAfter(disk: Disk, r: Request, m: Mem): Disk {
    if Succeeds(r, disk) && r.command == COMMAND_WRITE then
      disk[r.unit := Some(Overwritten(disk[r.unit].value, r, m))]
    else disk
  }

  function MemoryAfter(disk: Disk, r: Request, m: Mem): Mem {
    if Succeeds(r, disk) && r.command == COMMAND_READ then
      Store(m, r.dma, disk[r.unit].value[Start(r)..Start(r) + Length(r)])
    else m
  }

  /** The controller, its media and the RAM it transfers to and from. */
  class Controller {
    const mem: array<byte>
    var unit: u32
    var lba: u32
    var sectorCount: u32
    var dma: u32
    var status: u32
    var error: u32
    var media: Disk
    /** The request taken when the command register was written, and the ticks it still needs. */
    var active: Request
    var ticksLeft: nat

    predicate Valid()
      reads this
    {
      mem.Length == PHYS_TOP && (status == 0 || Busy() || Complete())
    }

    predicate Idle()
      reads this
    {
      status == 0
    }

    predicate Busy()
      reads this
    {
      status == STATUS_BUSY && ticksLeft > 0
    }

    predicate Complete()
      reads this
    {
      status == STATUS_COMPLETE || status == STATUS_COMPLETE + STATUS_ERROR
    }

    constructor (mem: array<byte>, media: Disk)
      requires mem.Length == PHYS_TOP
      ensures Valid() && Idle() && this.mem == mem && this.media == media
    {
      this.mem := mem;
      this.media := media;
      unit := 0;
      lba := 0;
      sectorCount := 0;
      dma := 0;
      status := 0;
      error := 0;
      active := Request(0, 0, 0, 0, 0);
      ticksLeft := 0;
    }

    /** Writing the command register of an idle controller takes the request and starts the clock. */
    method WriteCommand(command: u32)
      requires Valid() && Idle()
      modifies this`active, this`status, this`ticksLeft
      ensures Valid() && Busy() && active == Request(command, unit, lba, sectorCount, dma)
      ensures ticksLeft == COMPLETION_TICKS
    {
      active := Request(command, unit, lba, sectorCount, dma);
      status := STATUS_BUSY;
      ticksLeft := COMPLETION_TICKS;
    }

    /** A read of the status register: time has advanced by at least one tick since the last. */
    method ReadStatus() returns (s: u32)
      requires Valid()
      modifies this`status, this`error, this`media, this`ticksLeft, mem
      ensures Valid() && s == status
      ensures !old(Busy()) ==> status == old(status) && error == old(error) && ticksLeft == old(ticksLeft)
      ensures !old(Busy()) ==> media == old(media) && mem[..] == old(mem[..])
      ensures old(Busy()) && Busy() ==> ticksLeft < old(ticksLeft) && media == old(media) && mem[..] == old(mem[..])
      ensures old(Busy()) && !Busy() ==> Finished(old(media), old(mem[..]))
    {
      if status == STATUS_BUSY && ticksLeft > 0 {
        var elapsed :| 1 <= elapsed <= ticksLeft;
        if elapsed < ticksLeft {
          ticksLeft := ticksLeft - elapsed;
        } else {
          FinishRequest();
          assert Complete() && !Busy();
        }
      }
      s := status;
    }

    /** The active request has been carried out on the media and memory it found. */
    ghost predicate Finished(media0: Disk, m0: Mem)
      requires mem.Length == PHYS_TOP
      reads this, mem
    {
      && Complete()
      && media == DiskAfter(media0, active, m0) && mem[..] == MemoryAfter(media0, active, m0)
      && (status == STATUS_COMPLETE <==> Succeeds(active, media0))
      && (status != STATUS_COMPLETE ==> error in Errors(active, media0))
    }

    /** Completion of the active request. */
    method FinishRequest()
      requires Valid() && Busy()
      modifies this`status, this`error, this`media, this`ticksLeft, mem
      ensures Valid() && Finished(old(media), old(mem[..]))
    {
      ghost var m0: Mem := mem[..];
      ticksLeft := 0;
      SucceedsMeansNoError(active, media);
      var errors := Errors(active, media);
      if errors != {} {
        var e :| e in errors;
        error := e;
        status := STATUS_COMPLETE + STATUS_ERROR;
      } else {
        var bytes := media[active.unit].value;
        if active.command == COMMAND_READ {
          StoreBytes(mem, active.dma, bytes[Start(active)..Start(active) + Length(active)]);
        } else {
          media := media[active.unit := Some(Overwritten(bytes, active, mem[..]))];
        }
        error := ERROR_NONE;
        status := STATUS_COMPLETE;
      }
    }

    method Acknowledge()
      requires Valid() && Complete()
      modifies this`status
      ensures Valid() && Idle()
    {
      status := 0;
    }
  }

  /** Direct memory access into RAM. */
  method StoreBytes(mem: array<byte>, a: int, bs: seq<byte>)
    requires mem.Length == PHYS_TOP && 0 <= a && a + |bs| <= PHYS_TOP
    modifies mem
    ensures mem[..] == Store(old(mem[..]), a, bs)
  {
    ghost var m: Mem := mem[..];
    for i := 0 to |bs|
      invariant mem[..] == Store(m, a, bs[..i])
    {
      assert bs[..i + 1] == bs[..i] + [bs[i]];
      StoreAppend(m, a, bs[..i], bs[i]);
      mem[a + i] := bs[i];
    }
    assert bs[..|bs|] == bs;
  }

  /** The status word as the driver tests it. */
  predicate HasBit(status: u32, bit: u32)
    requires bit > 0
  {
    status / bit % 2 == 1
  }

  lemma StatusBits(status: u32)
    ensures HasBit(STATUS_BUSY, STATUS_COMPLETE) == HasBit(STATUS_BUSY, STATUS_ERROR) == false
    ensures status == STATUS_COMPLETE ==> HasBit(status, STATUS_COMPLETE) && !HasBit(status, STATUS_ERROR)
    ensures status == STATUS_COMPLETE + STATUS_ERROR ==> HasBit(status, STATUS_COMPLETE) && HasBit(status, STATUS_ERROR)
  {
  }

  class Driver {
    const block: Controller
    var irqMasked: bool

    predicate Valid()
      reads this, block
    {
      block.Valid() && block.Idle()
    }

    constructor (block: Controller)
      requires block.Valid() && block.Idle()
      ensures Valid() && this.block == block && !irqMasked
    {
      this.block := block;
      irqMasked := false;
    }

    /** minemu_block_transfer: one request from an idle controller to an idle controller. */
    method Transfer(command: u32, unit: u32, lba: u32, sectorCount: u32, dma: u32) returns (error: u32)
      requires Valid() && sectorCount > 0
      modifies this, block, block.mem
      ensures Valid() && irqMasked == old(irqMasked)
      ensures var r := Request(command, unit, lba, sectorCount, dma);
        && block.media == DiskAfter(old(block.media), r, old(block.mem[..]))
        && block.mem[..] == MemoryAfter(old(block.media), r, old(block.mem[..]))
        && (error == ERROR_NONE <==> Succeeds(r, old(block.media)))
        && (error != ERROR_NONE ==> error in Errors(r, old(block.media)))
    {
      var wasMasked := irqMasked;
      irqMasked := true;
      block.unit := unit;
      block.lba := lba;
      block.sectorCount := sectorCount;
      block.dma := dma;
      block.WriteCommand(command);
      WaitComplete();
      error := Collect();
      if !wasMasked {
        irqMasked := false;
      }
    }

    /** The error code of a finished request, which is acknowledged. */
    method Collect() returns (error: u32)
      requires block.Valid() && block.Complete()
      modifies block`status, block`error, block`media, block`ticksLeft, block.mem
      ensures block.Valid() && block.Idle() && block.media == old(block.media) && block.mem[..] == old(block.mem[..])
      ensures error == if old(block.status) == STATUS_COMPLETE then ERROR_NONE else old(block.error)
    {
      var status := block.ReadStatus();
      StatusBits(status);
      error := if HasBit(status, STATUS_ERROR) then block.error else ERROR_NONE;
      block.Acknowledge();
    }

    /** The polling loop, which ends because every status read uses up at least one tick. */
    method WaitComplete()
      requires block.Valid() && block.Busy()
      modifies block`status, block`error, block`media, block`ticksLeft, block.mem
      ensures block.Valid() && block.Finished(old(block.media), old(block.mem[..]))
    {
      ghost var disk, m: Mem := block.media, block.mem[..];
      var status := block.ReadStatus();
      StatusBits(status);
      while !HasBit(status, STATUS_COMPLETE)
        invariant block.Valid() && status == block.status
        invariant status == STATUS_BUSY || status == STATUS_COMPLETE || status == STATUS_COMPLETE + STATUS_ERROR
        invariant if block.Busy() then block.media == disk && block.mem[..] == m else block.Finished(disk, m)
        decreases if block.Busy() then block.ticksLeft else 0
      {
        status := block.ReadStatus();
      }
    }

    method Read(unit: u32, lba: u32, sectorCount: u32, dma: u32) returns (error: u32)
      requires Valid() && sectorCount > 0
      modifies this, block, block.mem
      ensures Valid() && irqMasked == old(irqMasked) && block.media == old(block.media)
      ensures var r := Request(1, unit, lba, sectorCount, dma);
        && (error == ERROR_NONE <==> Succeeds(r, old(block.media)))
        && block.mem[..] == MemoryAfter(old(block.media), r, old(block.mem[..]))
    {
      error := Transfer(COMMAND_READ, unit, lba, sectorCount, dma);
    }

    method Write(unit: u32, lba: u32, sectorCount: u32, dma: u32) returns (error: u32)
      requires Valid() && sectorCount > 0
      modifies this, block, block.mem
      ensures Valid() && irqMasked == old(irqMasked) && block.mem[..] == old(block.mem[..])
      ensures var r := Request(2, unit, lba, sectorCount, dma);
        && (error == ERROR_NONE <==> Succeeds(r, old(block.media)))
        && block.media == DiskAfter(old(block.media), r, old(block.mem[..]))
    {
      error := Transfer(COMMAND_WRITE, unit, lba, sectorCount, dma);
    }
  }

  /** Sector s of a unit. */
  function Sector(disk: Disk, unit: int, s: int): seq<byte>
    requires 0 <= unit < 2 && 0 <= s < MediumSize(disk, unit)
  {
    disk[unit].value[SECTOR_SIZE * s..SECTOR_SIZE * s + SECTOR_SIZE]
  }

  /** One call of a run: the request and memory when it was made. */
  datatype Call = Call(r: Request, m: Mem)

  function DiskAfterAll(disk: Disk, calls: seq<Call>): Disk {
    if calls == [] then disk
    else DiskAfter(DiskAfterAll(disk, calls[..|calls| - 1]), calls[|calls| - 1].r, calls[|calls| - 1].m)
  }

  /** The call is a successful write that covers sector s of the unit. */
  predicate Writes(disk: Disk, c: Call, unit: int, s: int) {
    c.r.command == COMMAND_WRITE && Succeeds(c.r, disk) && c.r.unit == unit && c.r.lba <= s < c.r.lba + c.r.count
  }

  /** The bytes such a call wrote to sector s. */
  function WrittenSector(c: Call, s: int): seq<byte>
    requires DmaOk(c.r) && c.r.lba <= s < c.r.lba + c.r.count
  {
    var at := c.r.dma + SECTOR_SIZE * (s - c.r.lba);
    c.m[at..at + SECTOR_SIZE]
  }

  /** What sector s of a unit should hold after the calls: the last successful write to it, or its first contents. */
  function Expected(disk: Disk, calls: seq<Call>, unit: int, s: int): seq<byte>
    requires 0 <= unit < 2 && 0 <= s < MediumSize(disk, unit)
  {
    if calls == [] then Sector(disk, unit, s)
    else
      var last := calls[|calls| - 1];
      if Writes(disk, last, unit, s) then WrittenSector(last, s)
      else Expected(disk, calls[..|calls| - 1], unit, s)
  }

  /** Two disks with the same units attached, of the same sizes. */
  predicate SameShape(d: Disk, e: Disk) {
    && (d[0].Some? <==> e[0].Some?) && (d[1].Some? <==> e[1].Some?)
    && MediumSize(d, 0) == MediumSize(e, 0) && MediumSize(d, 1) == MediumSize(e, 1)
  }

  lemma ShapeDecides(d: Disk, e: Disk, r: Request)
    requires SameShape(d, e)
    ensures Succeeds(r, d) == Succeeds(r, e)
  {
  }

  lemma StepShape(d: Disk, r: Request, m: Mem)
    ensures SameShape(d, DiskAfter(d, r, m))
  {
  }

  lemma {:induction false} ShapeKept(disk: Disk, calls: seq<Call>)
    ensures SameShape(disk, DiskAfterAll(disk, calls))
  {
    if calls != [] {
      var n := |calls| - 1;
      ShapeKept(disk, calls[..n]);
      StepShape(DiskAfterAll(disk, calls[..n]), calls[n].r, calls[n].m);
    }
  }

  /** One write changes exactly the sectors it covers, on its own unit. */
  lemma StepSector(d: Disk, c: Call, unit: int, s: int)
    requires 0 <= unit < 2 && 0 <= s < MediumSize(d, unit)
    ensures SameShape(d, DiskAfter(d, c.r, c.m))
    ensures Sector(DiskAfter(d, c.r, c.m), unit, s) == if Writes(d, c, unit, s) then WrittenSector(c, s) else Sector(d, unit, s)
  {
    StepShape(d, c.r, c.m);
    if Succeeds(c.r, d) && c.r.command == COMMAND_WRITE && c.r.unit == unit {
      SectorOfOverwritten(d[unit].value, c, s);
    }
  }

  lemma SectorOfOverwritten(medium: Medium, c: Call, s: int)
    requires DmaOk(c.r) && c.r.lba + c.r.count <= |medium| / SECTOR_SIZE && 0 <= s < |medium| / SECTOR_SIZE
    ensures |Overwritten(medium, c.r, c.m)| == |medium|
    ensures Overwritten(medium, c.r, c.m)[SECTOR_SIZE * s..SECTOR_SIZE * s + SECTOR_SIZE] ==
      if c.r.lba <= s < c.r.lba + c.r.count then WrittenSector(c, s)
      else medium[SECTOR_SIZE * s..SECTOR_SIZE * s + SECTOR_SIZE]
  {
    var w := Overwritten(medium, c.r, c.m);
    var x := w[SECTOR_SIZE * s..SECTOR_SIZE * s + SECTOR_SIZE];
    if c.r.lba <= s < c.r.lba + c.r.count {
      assert x == WrittenSector(c, s);
    } else {
      assert x == medium[SECTOR_SIZE * s..SECTOR_SIZE * s + SECTOR_SIZE];
    }
  }

  /** Any sequence of calls leaves the array of sectors that its successful writes describe. */
  lemma {:induction false} RunIsSectorArray(disk: Disk, calls: seq<Call>, unit: int, s: int)
    requires 0 <= unit < 2 && 0 <= s < MediumSize(disk, unit)
    ensures s < MediumSize(DiskAfterAll(disk, calls), unit)
    ensures Sector(DiskAfterAll(disk, calls), unit, s) == Expected(disk, calls, unit, s)
  {
    ShapeKept(disk, calls);
    if calls != [] {
      var n := |calls| - 1;
      ShapeKept(disk, calls[..n]);
      RunIsSectorArray(disk, calls[..n], unit, s);
      var d := DiskAfterAll(disk, calls[..n]);
      StepSector(d, calls[n], unit, s);
      ShapeDecides(disk, d, calls[n].r);
    }
  }

  /** A successful read after any calls puts in memory, sector by sector, what was last written there. */
  lemma ReadReturnsLastWrite(disk: Disk, calls: seq<Call>, r: Request, m: Mem, s: int)
    requires r.command == COMMAND_READ && Succeeds(r, DiskAfterAll(disk, calls)) && r.lba <= s < r.lba + r.count
    ensures s < MediumSize(disk, r.unit)
    ensures var at := r.dma + SECTOR_SIZE * (s - r.lba);
      MemoryAfter(DiskAfterAll(disk, calls), r, m)[at..at + SECTOR_SIZE] == Expected(disk, calls, r.unit, s)
  {
    ShapeKept(disk, calls);
    RunIsSectorArray(disk, calls, r.unit, s);
    SectorRead(DiskAfterAll(disk, calls), r, m, s);
  }

  lemma SectorRead(d: Disk, r: Request, m: Mem, s: int)
    requires r.command == COMMAND_READ && Succeeds(r, d) && r.lba <= s < r.lba + r.count
    ensures var at := r.dma + SECTOR_SIZE * (s - r.lba);
      MemoryAfter(d, r, m)[at..at + SECTOR_SIZE] == Sector(d, r.unit, s)
  {
    var at := r.dma + SECTOR_SIZE * (s - r.lba);
    var bytes := d[r.unit].value[Start(r)..Start(r) + Length(r)];
    var m' := Store(m, r.dma, bytes);
    var x, y := m'[at..at + SECTOR_SIZE], Sector(d, r.unit, s);
    forall i | 0 <= i < SECTOR_SIZE ensures x[i] == y[i] {
      assert x[i] == m'[at + i] == bytes[SECTOR_SIZE * (s - r.lba) + i];
    }
  }

  /** What a program does to memory between its calls. */
  method Meanwhile(mem: array<byte>)
    requires mem.Length == PHYS_TOP
    modifies mem
  {
    var stores: int := *;
    while stores > 0 {
      var i: int, b: byte :| 0 <= i < PHYS_TOP;
      mem[i] := b;
      stores := stores - 1;
    }
  }

  /** The calls of a run are those of the requests, each with the error it returned and the memory it left. */
  ghost predicate Served(disk: Disk, requests: seq<Request>, calls: seq<Call>, errors: seq<u32>, after: seq<Mem>) {
    && |calls| == |errors| == |after| <= |requests|
    && forall i {:trigger calls[i]} :: 0 <= i < |calls| ==>
         && calls[i].r == requests[i] && (errors[i] == ERROR_NONE <==> Succeeds(requests[i], disk))
         && after[i] == MemoryAfter(DiskAfterAll(disk, calls[..i]), calls[i].r, calls[i].m)
  }

  /**
   * Any sequence of requests through the driver, with memory changed at will between them: the media
   * end as the calls describe, a call succeeds exactly if its request does on the media at the start,
   * and a read delivers what ReadReturnsLastWrite says.
   */
  method TransferAll(driver: Driver, requests: seq<Request>)
    returns (errors: seq<u32>, ghost calls: seq<Call>, ghost after: seq<Mem>)
    requires driver.Valid() && forall i {:trigger requests[i]} :: 0 <= i < |requests| ==> requests[i].count > 0
    modifies driver, driver.block, driver.block.mem
    ensures driver.Valid() && driver.irqMasked == old(driver.irqMasked)
    ensures |calls| == |requests| && Served(old(driver.block.media), requests, calls, errors, after)
    ensures driver.block.media == DiskAfterAll(old(driver.block.media), calls)
  {
    ghost var disk := driver.block.media;
    errors, calls, after := [], [], [];
    for i := 0 to |requests|
      invariant driver.Valid() && driver.irqMasked == old(driver.irqMasked)
      invariant |calls| == i && Served(disk, requests, calls, errors, after)
      invariant driver.block.media == DiskAfterAll(disk, calls)
    {
      Meanwhile(driver.block.mem);
      ghost var m: Mem := driver.block.mem[..];
      var r := requests[i];
      var error := driver.Transfer(r.command, r.unit, r.lba, r.count, r.dma);
      OneMoreServed(disk, requests, calls, errors, after, Call(r, m), error, driver.block.mem[..]);
      errors, calls, after := errors + [error], calls + [Call(r, m)], after + [driver.block.mem[..]];
    }
  }

  lemma OneMoreServed(disk: Disk, requests: seq<Request>, calls: seq<Call>, errors: seq<u32>, after: seq<Mem>,
                      c: Call, error: u32, m: Mem)
    requires Served(disk, requests, calls, errors, after) && |calls| < |requests| && c.r == requests[|calls|]
    requires error == ERROR_NONE <==> Succeeds(c.r, DiskAfterAll(disk, calls))
    requires m == MemoryAfter(DiskAfterAll(disk, calls), c.r, c.m)
    ensures Served(disk, requests, calls + [c], errors + [error], after + [m])
    ensures DiskAfterAll(disk, calls + [c]) == DiskAfter(DiskAfterAll(disk, calls), c.r, c.m)
  {
    var more := calls + [c];
    assert more[..|calls|] == calls;
    ShapeKept(disk, calls);
    ShapeDecides(disk, DiskAfterAll(disk, calls), c.r);
    forall i | 0 <= i < |more|
      ensures more[i].r == requests[i] && ((errors + [error])[i] == ERROR_NONE <==> Succeeds(requests[i], disk))
      ensures (after + [m])[i] == MemoryAfter(DiskAfterAll(disk, more[..i]), more[i].r, more[i].m)
    {
      if i < |calls| {
        assert more[..i] == calls[..i] && more[i] == calls[i];
      }
    }
  }

  /** When a request succeeds, in numbers. */
  lemma SucceedsMeans(r: Request, disk: Disk)
    ensures Succeeds(r, disk) <==>
      && (r.command == 1 || r.command == 2) && (r.unit == 0 || r.unit == 1) && disk[r.unit].Some?
      && r.dma % 512 == 0 && 0x4000_0000 <= r.dma && r.dma + 512 * r.count <= 0x4400_0000
      && 512 * (r.lba + r.count) <= |disk[r.unit].value|
  {
    if r.unit <= 1 && disk[r.unit].Some? { WholeSectors(disk[r.unit].value, r.lba + r.count); }
  }

  lemma WholeSectors(medium: Medium, n: int)
    ensures n <= |medium| / SECTOR_SIZE <==> 512 * n <= |medium|
  {
    assert |medium| == SECTOR_SIZE * (|medium| / SECTOR_SIZE);
  }

  /** Which errors apply to a request, in numbers. */
  lemma ErrorsMean(r: Request, disk: Disk, e: u32)
    ensures e in Errors(r, disk) <==>
      || (e == 3 && r.command != 1 && r.command != 2)
      || (e == 7 && r.unit > 1)
      || (e == 1 && r.unit <= 1 && disk[r.unit].None?)
      || (e == 4 && !(r.dma % 512 == 0 && 0x4000_0000 <= r.dma && r.dma + 512 * r.count <= 0x4400_0000))
      || (e == 5 && r.unit <= 1 && disk[r.unit].Some? && 512 * (r.lba + r.count) > |disk[r.unit].value|)
  {
    if r.unit <= 1 && disk[r.unit].Some? { WholeSectors(disk[r.unit].value, r.lba + r.count); }
  }

  /** A successful write changes its sectors and no other byte of any medium. */
  lemma WrittenBytes(disk: Disk, r: Request, m: Mem, unit: int, b: int)
    requires Succeeds(r, disk) && r.command == 2 && 0 <= unit < 2 && disk[unit].Some? && 0 <= b < |disk[unit].value|
    ensures DiskAfter(disk, r, m)[unit].Some? && |DiskAfter(disk, r, m)[unit].value| == |disk[unit].value|
    ensures DiskAfter(disk, r, m)[unit].value[b] ==
      if unit == r.unit && 512 * r.lba <= b < 512 * (r.lba + r.count) then m[r.dma + (b - 512 * r.lba)] else disk[unit].value[b]
  {
  }

  /** A successful read fills its range of memory and no other byte. */
  lemma ReadBytes(disk: Disk, r: Request, m: Mem, a: int)
    requires Succeeds(r, disk) && r.command == 1 && 0 <= a < PHYS_TOP
    ensures MemoryAfter(disk, r, m)[a] ==
      if r.dma <= a < r.dma + 512 * r.count then disk[r.unit].value[512 * r.lba + (a - r.dma)] else m[a]
  {
  }

  /** What is written is read back, wherever the buffers lie. */
  lemma WriteThenRead(disk: Disk, w: Request, m: Mem, r: Request, m': Mem, k: int)
    requires Succeeds(w, disk) && w.command == 2 && Succeeds(r, DiskAfter(disk, w, m)) && r.command == 1
    requires r.unit == w.unit && r.lba == w.lba && r.count == w.count && 0 <= k < 512 * r.count
    ensures MemoryAfter(DiskAfter(disk, w, m), r, m')[r.dma + k] == m[w.dma + k]
  {
    var d := DiskAfter(disk, w, m);
    ReadBytes(d, r, m', r.dma + k);
    WrittenBytes(disk, w, m, w.unit, 512 * w.lba + k);
  }
}
