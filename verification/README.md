# Verified model of the minemu boot, memory and trap path

This project models, in Dafny 4.11, how a minemu machine gets from reset to a user program and back
through its traps, and proves what those steps promise together. All programs work on one physical
memory, an array of bytes indexed by physical address, and on one two-level page walk.

| module | part of the system |
|---|---|
| `Bits`, `Memory`, `Mmu`, `PageUse`, `TestPage` | C's `&`, `\|`, `<<`, `>>`; byte and word stores; page-table entries, the walk, the TLB; the Accessed and Dirty bits; the tests' page |
| `BootRom` | the boot ROM: loading kernel segments, publishing boot info |
| `Bootstrap` | the table-filling loops of `boot.S` and the translation they realise |
| `SystemRom`, `ImageChecks` | mapping the packed image, finding a module in it, the bounds and flag tests |
| `UserSpace` | the specification: segments laid over each other in table order, the exact condition for acceptance |
| `UserPool`, `UserLoader`, `UserSegments`, `UserTables`, `UserModule` | the user module loader, from one page slot up to `load_user_module` |
| `LiveTables`, `AddressSpace`, `KernelBoot` | the page tables in use; the finished address space; boot ROM, bootstrap and kernel main composed |
| `Trap`, `FaultRepair`, `MmuTest`, `MmuTestRun` | trap frames, exception entry and return, repairing a data abort, the whole MMU test |
| `UserSyscalls`, `UserRun`, `SvcSwitch` | the one-byte UART system call; every run of the user program after boot; the SVC task switch |
| `TtbrSwitch`, `Block`, `RuntimeMemory`, `ExceptionsTest` | TTBR0 switching and the TLB, the block driver, `memmove`, `direct_pte` |

## Main results

- `KernelBoot.BootToUser` and `KernelBoot.UserWorld`: from any RAM contents and any packed kernel image, boot
  ends in user mode if and only if the image carries an acceptable `user-hello` module. User mode then reaches
  exactly the pages the module's segments touch plus one cleared stack page, reads there exactly the ordered
  overlay of the segments, and every translation made by bootstrap is as it was.
- `UserModule.LoadUserModule`: the loader succeeds if and only if a condition on the segment table holds that
  mentions neither pages allocated so far nor 32-bit arithmetic, and that does not depend on segment order
  (`UserSpace.AcceptsIgnoresOrder`). The static arrays may hold anything beforehand.
- `UserRun.Start` and `UserRun.AlwaysIsolated`: from reset into user mode, and then in every state of every run of
  loads, stores, system calls, table walks and TLB changes: the processor translates each address as at the
  start; user mode reaches its segments' pages and its stack and nothing else; the kernel's translations stand.
  `UserRun.ReadOnlySegmentsStay`: code and read-only data stay, byte for byte, what the image says.
- `UserRun.SystemCall`: in each of those states a system call can be made, and the dispatcher's load of the
  instruction does not fault.
- `AddressSpace.UserFramesIsolated`: user mode cannot reach page tables, kernel memory, ROM or devices, and two
  user addresses never share a byte.
- `FaultRepair.RepairIsTransparent`, `MmuTest.Test.DataAbort`: a data abort whose handler only repairs the
  page table leaves no trace in the program that faulted.
- `Block.RunIsSectorArray`, `UserRun.RunOutput`, `SvcSwitch.LaterTrapsResumeA`, `MmuTestRun.RunTest`: whole runs of
  the block driver, of the system call, of the task switch and of the MMU test.
- `ExceptionsTest.DirectPteIsWalked`: whatever other slots the exceptions test has entered in the directory, its
  `direct_pte` finds the entry that the walk uses if and only if the address lies in the first 4 MiB of the direct
  map; `DirectPteMissesSecondTable` gives an address for which it names another page's entry.

## Assumptions

- The image packer has validated the kernel records, as `bootloader/src/boot.c:96-98` says: the table and the
  file bytes lie in the image, destinations are disjoint, in RAM, and clear of the boot-info record and of the
  page the boot ROM uses as its stack (`BootRom.PackedKernel`). Nothing is assumed about module records.
- The image's bootstrap entry (`BOOTSTRAP_ENTRY_OFFSET` in the header) is the address of `minemu_bootstrap`, which
  calls `minemu_bootstrap_map` and then, with the MMU on, `minemu_kernel_main`. `KernelBoot.BootToUser` returns the
  entry that the boot ROM jumps to; that this code lies there is the packer's doing.
- The linker places the loader's static arrays page-aligned, disjoint, and between 0x40030000 and the end of RAM
  (`UserPool.ArrayLayout.Valid`); likewise the arrays of the TTBR0 test (`TtbrSwitch.Arrays.Valid`) and of the MMU
  test (`MmuTestRun.Place.Valid`). The kernel's stacks and the statics `user_page_vaddrs`, `user_page_flags`,
  `user_page_count` and `user_syscall_observed` lie in RAM apart from those arrays (`scratch` in the layout); no
  contract says what their bytes hold, and `LiveTables.Background` may change them at any time.
- Handlers and dispatchers also change bytes that no contract describes: C stacks, their own statics, table entries
  of kernel pages. These lie apart from what the traps save and the tests look at (`scratch` in `MmuTest.Test`,
  `UserSyscalls.Kernel` and `SvcSwitch.Tasks`; the SVC switch's dispatcher uses at most `depth` bytes of stack
  below the frame it is given).
- Page tables in use may have Accessed and Dirty set at any time, by any walk: `LiveTables.Live` fixes the
  directory and the outcome of each walk, not the words of the second-level tables. `LiveTables.Background` does so
  between the phases of kernel main.
- The kernel's own accesses go through the direct map; the model makes them at the physical address. This is
  justified by `Bootstrap.BootstrapTranslation`, `AddressSpace.KernelViewUnchanged` and, for reads of the image,
  `AddressSpace.ImageIdentityMapped`.
- Exception entry and return follow section B1.8 of the ARMv7-A/R Architecture Reference Manual (DDI 0406C).
  A C dispatcher may leave anything in r0-r12. `minemu_enter_user` finds the supervisor stack pointer inside the
  supervisor stack.
- Words are little-endian. The MMU walks and caches as the MMU and TTBR0 tests assert. The block controller
  accepts the requests that `kernel/include/minemu/block.h:6-12` allows: a nonzero sector count and a 512-byte
  aligned RAM address covering the transfer; it reports the errors the block test asserts, and which of several
  is left open.

## Model

| member | source | states |
|---|---|---|
| Bootstrap.FillLoop | kernel/src/startup/boot.S:46-49 | a counted store loop leaves an arithmetic progression of entries and changes nothing else |
| Bootstrap.DirectSlot | kernel/src/startup/boot.S:67-77 | one turn of the nested loop extends the direct map by one directory slot and one table |
| Bootstrap.BootstrapMap | kernel/src/startup/boot.S:42-98 | from any RAM all 19 tables hold their entries, only 0x40010000-0x40022fff changes, and every walk is the one stated below |
| Bootstrap.BootstrapTranslation | kernel/src/startup/boot.S:42-98 | the walk of every 32-bit address: identity on 4 MiB, direct map minus 0x80000000 on 64 MiB, MMIO on 64 KiB, a fault everywhere else; readable, writable and closed to user mode, executable exactly outside the MMIO window |
| Bootstrap.BootstrapPermissions | kernel/src/startup/boot.S:42-98 | the view that later results keep, in numbers: the three ranges, the physical address of each, and that only the MMIO window is not executable |
| Bootstrap.BootstrapWords | kernel/src/startup/boot.S:42-98 | every word of the directory and of the 18 tables, as a number |
| Mmu.DecodePage | kernel/include/minemu/mmu.h:6-16 | a page address plus flags decodes to that page and those flags exactly when the valid bit is set |
| Mmu.EntryBits | kernel/include/minemu/mmu.h:6-16 | an entry is a page exactly if bit 0 is set; its frame is the top 20 bits; bits 1, 2, 3 and 4 are writable, user, executable and readable |
| Memory.WordInBytes | bootloader/src/boot.c:39-57 | the four bytes of a word, least significant first |
| BootRom.CopyAndClear | bootloader/src/boot.c:117-118 | the file bytes are copied, the rest of the extent cleared, nothing else changed |
| BootRom.LoadSegment | bootloader/src/boot.c:105-118 | one turn of the loop takes memory from n to n + 1 loaded segments, with records re-read from ROM; the loader's stack page is left open |
| BootRom.LoadKernel | bootloader/src/boot.c:102-119 | the loop leaves memory equal, byte by byte, to the segments loaded over what was there, the loader's stack page aside |
| BootRom.SegmentsSurvive | bootloader/src/boot.c:104-119 | the range of every segment ends up as its file bytes then zeros, whatever is loaded later |
| BootRom.OutsideSegments | bootloader/src/boot.c:104-119 | RAM outside all segments keeps its dirty contents |
| BootRom.BootInfoRoundTrip | kernel/include/minemu/boot.h:13-26 | reading the 64 stored bytes with the C structure's layout gives back the fields, zero flags and zero reserved words; nothing outside the record changes |
| BootRom.WriteBootInfo | bootloader/src/boot.c:74-92 | image size, module table and module count read back in their own fields, the constants in theirs, flags and reserved words zero; nothing else changes |
| BootRom.InfoInMemory | bootloader/src/boot.c:81-91 | each field of the published record at its own offset, as a number or as the value it was given |
| BootRom.BootMain | bootloader/src/boot.c:94-124 | loaded segments; boot info whose image size, module table and module count are the header words at 0x08, 0x14 and 0x18; all other memory as before, the loader's stack page aside; the entry and the boot-info pointer handed on |
| BootRom.BootedFields | bootloader/src/boot.c:94-124 | every field that the kernel finds in boot info, from the header words of the image at reset |
| BootRom.HeaderOfWords | bootloader/src/boot.c:8-14 | the header fields are words 2 to 7 of the image |
| BootRom.KernelSegmentOfWords | bootloader/src/boot.c:16-21 | data offset, address, file size and memory size are words 0, 1, 3 and 4 of a kernel record |
| BootRom.KernelBytes | bootloader/src/boot.c:104-119 | after boot each byte of a kernel segment is the image's byte at the same distance from its data offset, or zero past the file part |
| ImageChecks.ImageRangeValid | examples/user-mode-hello/kernel/main.c:62-64 | subtract-then-compare on 32 bits decides the unbounded sum |
| ImageChecks.ImageRecordsValid | examples/user-mode-hello/kernel/main.c:66-68 | the shifted test decides the unbounded bound on a table of 32-byte records |
| ImageChecks.SegmentRejected | examples/user-mode-hello/kernel/main.c:220-231 | the C condition rejects exactly the segments that fail the plain range, flag and size conditions |
| ImageChecks.PteFlagsFromSegment | examples/user-mode-hello/kernel/main.c:132-144 | computes the specified permission bits |
| UserSpace.PteFlagsMeaning | examples/user-mode-hello/kernel/main.c:132-144 | readable, writable and executable in the entry say exactly what the segment flags say |
| UserSpace.PteFlagsInjective | examples/user-mode-hello/kernel/main.c:132-144 | different segment flags give different permissions, so comparing entry flags compares segment flags |
| UserSpace.SegmentOfWords | kernel/include/minemu/boot.h:38-45 | the five fields of a segment are words 0 to 4 of its record |
| UserSpace.AcceptableMeans | examples/user-mode-hello/kernel/main.c:220-231 | which sizes, ranges and flag values a segment may have, in numbers |
| UserSpace.SegmentByte | examples/user-mode-hello/kernel/main.c:233-237 | a segment holds exactly its memory size from its address on: the file bytes from its data offset, then zeros |
| UserSpace.TouchesMeans | examples/user-mode-hello/kernel/main.c:165-174 | a page is touched exactly if the segment holds an address in it |
| UserSpace.TouchedPagesMeans | examples/user-mode-hello/kernel/main.c:165-174 | the pages counted against the pool are the aligned ones that meet some segment's range |
| UserSpace.EntersMeans | examples/user-mode-hello/kernel/main.c:241-243 | a segment may be entered at an address exactly if it is executable and each of the four bytes from there on lies in its file part, its first byte included |
| SystemRom.FourTablesSuffice | examples/user-mode-hello/kernel/main.c:85-89 | for any image that fits the ROM the four-table limit is never exceeded and the pages cover the image without a spare page |
| SystemRom.FillRomTable | examples/user-mode-hello/kernel/main.c:93-101 | one cleared and filled table: its image pages, then zeros |
| SystemRom.MapRomTable | examples/user-mode-hello/kernel/main.c:92-105 | one turn of the table loop extends the mapping by one table and one directory entry |
| SystemRom.MapSystemRom | examples/user-mode-hello/kernel/main.c:79-108 | succeeds exactly for the right base and a size in (0, 16 MiB]; fills tables and directory entries, changes nothing else, and nothing at all on failure |
| SystemRom.RomFrameMeans | examples/user-mode-hello/kernel/main.c:91-105 | every byte outside the four ROM tables and directory entries 0x20 to 0x23 is as before |
| SystemRom.RomTranslation | examples/user-mode-hello/kernel/main.c:96-104 | pages of the image translate to themselves as supervisor read-only; the rest of the last table faults |
| SystemRom.BytesEqual | examples/user-mode-hello/kernel/main.c:53-60 | true exactly when the bytes are the name's |
| SystemRom.FindModule | examples/user-mode-hello/kernel/main.c:110-130 | -1 exactly if the table is out of bounds or no record of it matches; otherwise a matching record of the table with no match before it, inside the image |
| SystemRom.MatchesWords | examples/user-mode-hello/kernel/main.c:122-125 | a record matches exactly if its second word is the name's length, its first plus that length lies in the image, and the bytes there are the name |
| SystemRom.RecordsInTable | examples/user-mode-hello/kernel/main.c:118-121 | record i stands 32 i bytes after the start of the table |
| SystemRom.MatchFromIsFirst | examples/user-mode-hello/kernel/main.c:120-129 | the record found is a match with none before it, and none is found only if there is none |
| UserPool.IndexOf | examples/user-mode-hello/kernel/main.c:147-154 | the first slot for a page, or -1 if no slot has it |
| UserLoader.Loader.UserPageIndex | examples/user-mode-hello/kernel/main.c:146-163 | lookup, permission conflict, full pool or a new zeroed slot; what each leaves of pool and memory |
| UserPool.CreatePage | examples/user-mode-hello/kernel/main.c:158-162 | a new slot shows a page of zeros and leaves every other user byte alone |
| UserPool.WriteInPage | examples/user-mode-hello/kernel/main.c:189-194 | a write inside one slot is a flat write at the user addresses of its page |
| UserLoader.Loader.PreparePage | examples/user-mode-hello/kernel/main.c:168-173 | one turn keeps the pool invariant and adds the page, or stops for a stated reason |
| UserLoader.Loader.PrepareUserRange | examples/user-mode-hello/kernel/main.c:165-175 | distinct aligned pages, at most 16; exactly the range's missing pages appear as zeros, old contents stay; a failure names a page with conflicting flags or a full pool; no addition wraps |
| UserLoader.Loader.WriteStep | examples/user-mode-hello/kernel/main.c:179-194 | one chunk stays inside one page, and advances unless the page is missing |
| UserLoader.Loader.WriteUserRange | examples/user-mode-hello/kernel/main.c:177-199 | succeeds exactly when every page of the range is in the pool, terminates, and equals one flat write on contiguous user addresses with all else unchanged |
| UserPool.PoolCount | examples/user-mode-hello/kernel/main.c:155-158 | the live slots are exactly the distinct pages touched |
| UserPool.PoolConsistent | examples/user-mode-hello/kernel/main.c:148-152 | a pool that holds all segments proves that segments sharing a page agree on permissions |
| UserSegments.PoolStep | examples/user-mode-hello/kernel/main.c:233-234 | a prepared segment extends the pool to the pages and permissions of one more segment |
| UserSegments.BytesStep | examples/user-mode-hello/kernel/main.c:234-237 | prepare, zero and copy lay one segment over what was shown before |
| UserSegments.SegmentCovered | examples/user-mode-hello/kernel/main.c:234-237 | once preparation succeeded neither write can fail |
| UserSegments.StuckDoesNotFit | examples/user-mode-hello/kernel/main.c:149-157 | a page that could not be had proves a permission conflict or a seventeenth distinct page |
| UserSegments.LoadSegment | examples/user-mode-hello/kernel/main.c:219-239 | succeeds if and only if the segment fits on top of the earlier ones, and then shows the overlay with it on top |
| UserSpace.LastHolder | examples/user-mode-hello/kernel/main.c:218-239 | the last segment in table order that holds an address, or none |
| UserSpace.OverlayAppend | examples/user-mode-hello/kernel/main.c:218-239 | a later segment wins where it has bytes, and elsewhere only adds zeros on new pages |
| UserSpace.OverlayByte | examples/user-mode-hello/kernel/main.c:218-239 | an address of segment i that no later segment covers shows that segment's file byte, or zero past its file part |
| UserSpace.OverlayMapped | examples/user-mode-hello/kernel/main.c:218-239 | an address is mapped exactly when some segment touches its page |
| UserSpace.AcceptsIgnoresOrder | examples/user-mode-hello/kernel/main.c:201-249 | acceptance does not depend on the order or repetition of segments |
| UserModule.EntersHere | examples/user-mode-hello/kernel/main.c:241-243 | the test is true exactly when the four entry bytes lie in the file part of an executable segment |
| UserModule.LoadSegments | examples/user-mode-hello/kernel/main.c:218-249 | the loop succeeds if and only if all segments fit together, and finds the entry if and only if some segment holds it |
| UserModule.CheckHeader | examples/user-mode-hello/kernel/main.c:204-209 | the early tests reject only what is not loadable, and passing them puts the table in the image |
| UserModule.ResetArrays | examples/user-mode-hello/kernel/main.c:214-216 | an empty pool, clear table and stack, whatever they held |
| UserTables.TableIndex | examples/user-mode-hello/kernel/main.c:252 | the masked shift is the walk's own index of the page, injective, and never the stack's 1023 |
| UserTables.InstallPages | examples/user-mode-hello/kernel/main.c:251-256 | every table entry is that of the slot holding its page, or clear |
| UserTables.InstallStack | examples/user-mode-hello/kernel/main.c:257-259 | the stack entry is added without disturbing an image page |
| UserTables.UserTranslation | examples/user-mode-hello/kernel/main.c:251-263 | the walk of each user page gives its slot's frame with exactly valid, user and the slot's permissions |
| UserModule.LoadTable | examples/user-mode-hello/kernel/main.c:211-265 | the loader past the header: result, final state, frame, and an untouched directory on failure |
| UserModule.LoadUserModule | examples/user-mode-hello/kernel/main.c:201-266 | true if and only if the module is loadable; then pool, page table and directory show the overlay; only the loader's arrays, its bookkeeping and stack, and one directory entry change; on failure the directory does not |
| UserModule.LoadableMeans | examples/user-mode-hello/kernel/main.c:201-249 | what loadable means, in the words of the module record and the records of its segments: table in the image, aligned entry, each segment acceptable, one set of flags per page, at most 16 pages, and an executable segment whose file part holds the four entry bytes |
| UserModule.ModuleOfWords | kernel/include/minemu/boot.h:28-36 | segment table, segment count and entry are words 2, 3 and 4 of the module record |
| UserModule.ConsistentMeans | examples/user-mode-hello/kernel/main.c:148-152 | segments agree on pages exactly if any two that hold addresses in one page have the same flags |
| UserModule.LoaderFrameMeans | examples/user-mode-hello/kernel/main.c:201-266 | every byte outside the page table, the stack, the page pool, directory entry 1 and the kernel's own bookkeeping is as before |
| LiveTables.LiveWalk | examples/user-mode-hello/kernel/main.c:79-108 | the walk of every 32-bit address, before and after the ROM and a module are mapped, whatever Accessed and Dirty bits are set |
| LiveTables.BootstrapLive | kernel/src/startup/boot.S:42-98 | the tables bootstrap has built are live |
| LiveTables.RomLive | examples/user-mode-hello/kernel/main.c:91-105 | mapping the ROM adds exactly its translations, whatever pages have been used before |
| LiveTables.UserLive | examples/user-mode-hello/kernel/main.c:251-263 | loading a module adds exactly its pages' and the stack's translations |
| LiveTables.MarkKeepsTables | headless/mmu/main.c:52-64 | the record of a walk, by anyone, changes no directory entry, no decoded entry and no byte outside the second-level tables |
| AddressSpace.FinalTranslation | examples/user-mode-hello/kernel/main.c:79-108 | the walk of every 32-bit address after bootstrap, ROM mapping and module loading, whatever pages have been used since |
| AddressSpace.FinalInNumbers | examples/user-mode-hello/kernel/main.c:79-108 | in numbers: the stack page with entry flags 0x17, the image with 0x11 at its own addresses, faults in between |
| AddressSpace.StackPermissions | examples/user-mode-hello/kernel/main.c:257-259 | the stack page is for user mode to read and write, not to execute |
| AddressSpace.ReadThrough | examples/user-mode-hello/kernel/main.c:251-266 | a byte read through the tables is the frame's byte at the address's offset in its page |
| AddressSpace.UserReachesExactly | examples/user-mode-hello/kernel/main.c:251-263 | user mode reaches the pool's pages and the stack page, and nothing else, whatever pages have been used |
| AddressSpace.UserFramesIsolated | examples/user-mode-hello/kernel/main.c:251-263 | user accesses land in the page pool or the stack, and distinct addresses on distinct bytes |
| AddressSpace.KernelViewUnchanged | examples/user-mode-hello/kernel/main.c:102-105 | every translation bootstrap made stays as it was: readable, writable, closed to user mode, executable exactly outside the MMIO window |
| AddressSpace.CachedWalksStayRight | examples/user-mode-hello/kernel/main.c:102-106 | walk results cached before the ROM was mapped, or between mapping it and loading a module, are still right afterwards |
| AddressSpace.ImageIdentityMapped | examples/user-mode-hello/kernel/main.c:96-106 | every image byte is at its own address: readable, not writable, not executable, not for user mode |
| AddressSpace.UserImageIsOverlay | examples/user-mode-hello/kernel/main.c:201-266 | reading [0x400000, 0x7ff000) through directory, page table and pool gives exactly the overlay, and a fault where no segment touches the page |
| AddressSpace.SegmentPermissions | examples/user-mode-hello/kernel/main.c:218-256 | every byte of every segment is a user page with exactly that segment's permissions, at load and ever after |
| AddressSpace.ExecutableIsReadable | examples/user-mode-hello/kernel/main.c:223-224 | what user mode can execute belongs to an executable segment and can be read |
| AddressSpace.EntryIsFetchable | examples/user-mode-hello/kernel/main.c:241-249 | the four entry bytes are user-readable and executable |
| KernelBoot.KernelMain | examples/user-mode-hello/kernel/main.c:304-324 | enters user mode if and only if boot info is accepted and the image holds a loadable module; otherwise which trace event; changes only its tables, its page pool, its directory entries, its bookkeeping and the kernel stacks |
| KernelBoot.RunModule | examples/user-mode-hello/kernel/main.c:317-323 | the part from `find_module` on, with the ROM tables surviving the load |
| KernelBoot.BootToUser | bootloader/src/boot.c:94-135 | boot ROM, bootstrap map and kernel main in sequence from any memory at reset: the entry jumped to, the outcome and the final state in terms of the image alone, with the module table and count that are searched taken from the header words at 0x14 and 0x18; all memory outside the tables, the arrays, the stacks, the bookkeeping and boot info is the kernel's segments over RAM at reset |
| KernelBoot.InfoAcceptedMeans | examples/user-mode-hello/kernel/main.c:306-311 | which boot info the kernel accepts, in numbers |
| KernelBoot.ModuleFound | examples/user-mode-hello/kernel/main.c:305-318 | the module that is loaded: the first record of the table whose name is `user-hello`; none exactly if the table is out of bounds or no record has that name |
| KernelBoot.BootFrameMeans | examples/user-mode-hello/kernel/main.c:304-324 | every byte outside the listed ranges and the kernel's scratch bytes is what the boot ROM loaded or what RAM held at reset |
| KernelBoot.UserWorld | examples/user-mode-hello/kernel/main.c:201-266 | what a started program can reach and read, in terms of its segments alone; stack zero, readable and writable only; bootstrap's translations kept with their permissions |
| KernelBoot.UserBytes | examples/user-mode-hello/kernel/main.c:233-266 | what the started program reads at an address of a segment that no later one covers: the byte of the image at reset, or zero past the file part |
| Trap.FrameRoundTrip | kernel/include/minemu/trap.h:12-31 | 22 words stored at a frame read back as the C structure's fields; nothing outside the 88 bytes changes |
| Trap.FrameOfWords | kernel/include/minemu/trap.h:12-31 | each field of the frame is its word of the 22 |
| Trap.VectorEntered | kernel/src/startup/vectors.S:24-100 | exception entry: which vector and mode, interrupts off, A32, the other status bits kept |
| Trap.FrameOfInterrupted | kernel/src/startup/vectors.S:24-100 | what each vector's frame says of the interrupted program: its registers, status and pc, the return link, the fault registers for both aborts and 0 otherwise, the exception's number |
| Trap.Machine.SaveFrame | kernel/src/startup/vectors.S:81-100 | entry code of each vector: the frame holds the interrupted state, its own bytes are all that change |
| Trap.Machine.RestoreFrame | kernel/src/startup/vectors.S:101-108 | exit code and return: each register from its frame word, stack pointer back above the frame |
| Trap.ReturnRestores | kernel/src/startup/vectors.S:24-108 | entry followed by exit on an untouched frame gives back r0-r12, status, user SP and LR and the stack pointer, at the faulting instruction for aborts and after it otherwise |
| FaultRepair.ExecuteUnseen | kernel/src/startup/vectors.S:81-108 | an access cannot tell memories apart that differ only in bytes it does not use, nor TLBs that do not hold its page |
| FaultRepair.RepairIsTransparent | kernel/src/startup/vectors.S:81-108 | after repair, TLBIALL and return the retry ends as one execution in repaired memory: registers, status, memory and the page's cached translation; the handler and the hardware may meanwhile have changed any bytes the access does not use and cached any other page |
| FaultRepair.SkipOmitsAccess | headless/mmu/main.c:30-32 | adding 4 to the saved link resumes just after the access, which has had no effect |
| PageUse.UseIsRecorded | headless/mmu/main.c:54-64 | the walk sets Accessed, sets Dirty for stores only, keeps all other bits |
| PageUse.UseKeepsTranslation | headless/mmu/main.c:52-64 | Accessed and Dirty do not change the translation |
| MmuTest.Test.AbortDispatch | headless/mmu/main.c:15-38 | accepts exactly the expected aborts; repairs the entry or patches the link word, empties the TLB, resets the stage; a rejected abort traces the first requirement that failed; scratch bytes (its stack, `fault_stage`, use bits of kernel pages) aside, nothing else changes |
| MmuTest.HandledMeans | headless/mmu/main.c:24-32 | the one word that an accepted abort changes: readable bit set, writable bit set, or 4 added to the saved link |
| MmuTest.Refusal | headless/mmu/main.c:16-35 | the events of a rejected abort; none exactly for the expected aborts |
| MmuTest.RefusalMeans | headless/mmu/main.c:16-35 | for each requirement in turn exactly which abort fails it and with which event, in numbers |
| MmuTest.Test.DataAbort | headless/mmu/main.c:15-38 | the whole abort, entry to return: stages 1 and 2 retry transparently, stage 3 skips the access; only the frame and scratch bytes change besides |
| MmuTest.RepairGrants | headless/mmu/main.c:24-29 | the repair adds exactly the missing permission on the same frame |
| MmuTest.RepairLetsAccessThrough | headless/mmu/main.c:66-70 | an access that aborted with the expected status completes in the repaired memory |
| MmuTestRun.Perform | headless/mmu/main.c:52-76 | one access to the test page, aborted and retried if its stage is set: the value moves, the entry ends repaired and marked used, no requirement fails |
| MmuTestRun.SkipStore | headless/mmu/main.c:79-84 | the store to ROM aborts and is skipped: the program resumes after it and only the abort frame and scratch bytes change |
| MmuTestRun.StoreStage | headless/mmu/main.c:49-58 | a store through a fresh entry sets both use bits and keeps the software bits |
| MmuTestRun.LoadStage | headless/mmu/main.c:60-64 | after the use bits are cleared a load sets Accessed and not Dirty, and gives the value in the page |
| MmuTestRun.UseForgotten | headless/mmu/main.c:60 | clearing the use bits leaves the translation alone |
| MmuTestRun.RunTest | headless/mmu/main.c:40-88 | the whole test: every requirement passes, both loads give 0x12345678 and the only trace is the success event |
| UserSyscalls.Kernel.Accepts | examples/user-mode-hello/kernel/main.c:269-278 | accepts exactly an A32 user-mode `svc #0` with the right number and a byte in r0 |
| UserSyscalls.Kernel.SvcDispatch | examples/user-mode-hello/kernel/main.c:268-290 | UART, trace, flag and result word for accepted and refused calls: result 0 exactly if the byte is sent, 0xffffffff otherwise |
| UserSyscalls.Kernel.Svc | examples/user-mode-hello/kernel/svc.S:9-36 | one SVC from trap to return: resumes after the `svc`, r0 is 0 or -1, everything else of the program as it was; only the frame, the kernel's stack and the dispatcher's flag change in memory |
| UserSyscalls.CallSeen | examples/user-mode-hello/kernel/main.c:268-290 | one call in numbers: r0 is 0 if the UART gained a byte and 0xffffffff if not; which status, instruction, r7 and r0 make it one; the trace; r1-r12, SP, LR and status kept, pc 4 further |
| UserRun.SystemCall | examples/user-mode-hello/kernel/main.c:268-290 | in every state of a run an SVC of the program can be taken: there is room for its frame, and the dispatcher's load at `fault_pc` succeeds with the word fetched; the result is a state of the run |
| UserRun.FetchedIsReadable | examples/user-mode-hello/kernel/main.c:276 | in every running state the dispatcher's load of an instruction that user mode could fetch does not fault and gives the word fetched |
| UserRun.StepKeeps | examples/user-mode-hello/kernel/main.c:251-290 | every step of the program, the kernel or the MMU keeps the tables, a coherent TLB and user mode, and changes only background bytes and the user's own pages |
| UserRun.AlwaysIsolated | examples/user-mode-hello/kernel/main.c:251-263 | in every state of every run user mode reaches exactly its segments' pages and its stack, translated as at the start, and the kernel's translations stand with their permissions |
| UserRun.StoreElsewhere | examples/user-mode-hello/kernel/main.c:251-256 | a permitted store never reaches a byte of a page that user mode may not write |
| UserRun.ReadOnlySegmentsStay | examples/user-mode-hello/kernel/main.c:233-256 | in every state of every run segments without write permission show the image's bytes |
| UserRun.EnterUserMode | examples/user-mode-hello/kernel/user.S:9-29 | user mode starts at the entry with the given stack pointer, LR and r0-r3 zero, A32 state; only two words of the supervisor stack change |
| UserRun.Start | examples/user-mode-hello/kernel/main.c:304-324 | from reset: if the image's module is loadable, the program's first state is a state of a run, at the module record's entry, with silent devices, the overlay in its pages and a cleared stack |
| UserRun.Sent | examples/user-mode-hello/kernel/main.c:277-287 | the bytes of the accepted calls of a run, each at most 0xff |
| UserRun.RunOutput | examples/user-mode-hello/kernel/main.c:283-289 | over any run of machine states the UART gains exactly those bytes in order, and the trace one event if they are the first |
| UserRun.CallAnswers | examples/user-mode-hello/kernel/main.c:268-290 | the same for every call of every run |
| SvcSwitch.Scheduler.SvcDispatch | examples/svc-context-switch/main.c:18-32 | the first trap builds B's frame; later traps choose A's frame; the given frame stays intact, and later traps write only the dispatcher's stack and pointers |
| SvcSwitch.Scheduler.SvcTrap | examples/svc-context-switch/svc.S:9-36 | one trap from `svc` to the return through the chosen frame |
| SvcSwitch.FrameAIsStable | examples/svc-context-switch/main.c:19-31 | in every run the pointer to A's frame is set once and addresses the place where A traps |
| SvcSwitch.FirstTrapStartsB | examples/svc-context-switch/main.c:20-28 | the first trap enters task B with r0-r12 zero at the top of its stack |
| SvcSwitch.StartFrameWords | examples/svc-context-switch/main.c:20-28 | the words of B's first frame: thirteen zeros, its entry, the status of the trap, the exception number -3, then zeros |
| SvcSwitch.LaterTrapsResumeA | examples/svc-context-switch/main.c:30-31 | every later trap resumes A just after its most recent `svc`, with its registers, SP and status of then |
| TtbrSwitch.RootsAgree | headless/ttbr-switch/main.c:22-26 | the copied root translates like the original outside the test window |
| TtbrSwitch.SwitchKeepsCached | headless/ttbr-switch/main.c:37-40 | without TLBIALL every cached translation outside the window equals the new walk, and the TLB is right as a whole if and only if the cached ones inside it do too |
| TtbrSwitch.TestTranslations | headless/ttbr-switch/main.c:27-32 | the test address reaches page a from root a and page b from root b |
| TtbrSwitch.Cpu.CopyRoot | headless/ttbr-switch/main.c:22-26 | the loop copies every entry of the root and leaves the root alone |
| TtbrSwitch.Cpu.Prepare | headless/ttbr-switch/main.c:22-32 | both roots are set up and differ in one slot only |
| TtbrSwitch.Cpu.Run | headless/ttbr-switch/main.c:17-46 | no requirement fails: the four loads give the stale page until TLBIALL and the new one after it; ends with a coherent TLB and Accessed recorded in both test tables |
| Block.SucceedsMeansNoError | headless/block/main.c:86-93 | a request succeeds exactly when none of the error conditions applies |
| Block.SucceedsMeans | kernel/include/minemu/block.h:6-12 | exactly when a request succeeds: command, unit, medium, buffer and sector range, in numbers |
| Block.ErrorsMean | headless/block/main.c:86-93 | exactly when each error code applies |
| Block.Controller.ReadStatus | headless/block/main.c:35-48 | time passes at each status read; a request is carried out once, all at once, when its ticks are used up |
| Block.Controller.FinishRequest | headless/block/main.c:54-93 | completion: the transfer and no error, or an applicable error and no transfer |
| Block.Driver.WaitComplete | kernel/src/runtime/block.c:14-15 | the polling loop ends, with the request carried out on the disk and memory it found |
| Block.Driver.Transfer | kernel/src/runtime/block.c:4-26 | from idle to idle with the interrupt mask as found: new disk, new memory, error zero exactly on success |
| Block.Driver.Read | kernel/src/runtime/block.c:28-31 | a read changes no medium and stores the sectors only on success |
| Block.Driver.Write | kernel/src/runtime/block.c:33-36 | a write changes no memory and the sectors only on success |
| Block.WrittenBytes | headless/block/main.c:62-84 | each byte of each medium after a successful write |
| Block.ReadBytes | headless/block/main.c:62-84 | each byte of memory after a successful read |
| Block.WriteThenRead | headless/block/main.c:62-84 | sectors written and read back, even to another buffer, are the bytes that were written |
| Block.StepSector | headless/block/main.c:62-84 | one call changes exactly the sectors a successful write covers, on its own unit |
| Block.TransferAll | kernel/src/runtime/block.c:4-26 | the driver run over any sequence of requests, memory changing at will between them: media as the calls describe, each call succeeding exactly if its request does, each read delivered as described |
| Block.RunIsSectorArray | headless/block/main.c:62-84 | after any calls each sector holds the last successful write to it, or its first contents |
| Block.ReadReturnsLastWrite | headless/block/main.c:124-138 | a successful read after any calls delivers, sector by sector, what was last written |
| RuntimeMemory.MemMove | kernel/src/runtime/memory.c:20-33 | for every overlap and length the destination becomes the original source and nothing else changes |
| RuntimeMemory.CopyDown | kernel/src/runtime/memory.c:28-30 | the descending loop is right whenever the destination does not precede the source |
| RuntimeMemory.MemCpy | kernel/src/runtime/memory.c:3-10 | on disjoint ranges memcpy does what memmove does |
| Memory.CopyBytes | kernel/src/runtime/memory.c:6-8 | the ascending loop is right whenever no source byte is overwritten before it is read |
| ExceptionsTest.DirectPteIsWalked | headless/exceptions/main.c:38-42 | for direct-mapped addresses, whatever other directory slots hold, the computed entry is the one walked if and only if the address is in the first 4 MiB |
| ExceptionsTest.DirectPteNeedsTable | headless/exceptions/main.c:38-42 | for any address and directory the computed entry is the one walked if and only if the address's slot holds the first direct-map table |
| ExceptionsTest.DirectPteFinds | headless/exceptions/main.c:38-42 | if no slot outside the direct map holds that table, the addresses found are exactly the first 4 MiB of the direct map |
| ExceptionsTest.DirectPteMissesSecondTable | headless/exceptions/main.c:38-42 | just past the first table it names the entry of another page |

## Left out

- The bootstrap code around the map (stack set-up, enabling the MMU).
- TLBIALL in `map_system_rom` and `load_user_module`: `CachedWalksStayRight` shows for both that on a first load
  cached walks stay right without it; for a second load it matters and is not modelled.
- The kernel's bootstrap tables are written after its segments are loaded; the model does not require that no
  kernel segment overlaps them.
- Alignment of the record tables inside the image; word loads are modelled at any address.
- FaultRepair.Execute: a TLB hit does not update Accessed and Dirty, reserved bits of a directory entry are
  ignored, and an access to a device ends in an outcome that is not followed further.
- Trap.Machine.SaveFrame: the stores of the vector code are modelled as one ascending run of words, not instruction
  by instruction; likewise the fields of boot info after its identification.
- Nested exceptions, FIQ, IRQ mode, Thumb state and the asynchronous-abort mask bit.
- SvcSwitch: task B is never resumed after its first trap, since later traps all return to A; no alternation is
  claimed. The link register of supervisor mode is not preserved across an SVC taken in that mode.
- `examples/irq-context-switch`: what it does depends on where the linker places objects next to its stacks.
- Block.Driver.Transfer: requires a nonzero sector count, as `kernel/include/minemu/block.h:8` does, and an idle
  controller; commands while busy, the persistence error and the interrupt line are not modelled; which of several
  applicable errors is reported is left open.
- UserRun.Step: user loads and stores are of whole words; byte and halfword accesses are not modelled. A user abort
  ends the run, as this kernel's abort dispatcher fail-stops. Walk marks made by the kernel's own accesses are steps
  of a run of their own, not interleaved inside one system call.
- BootRom.BootMain: what the boot ROM's stack page holds afterwards; KernelBoot.BootToUser: likewise the kernel's
  stacks and the loader's bookkeeping statics, which the kernel writes and nothing here describes.
- `memset`, `memcmp` and `user/lib/src/memory.c`: the same loops again, or a single comparison.
- The emulator's other devices, deadlines and tick budgets, image packing, linker scripts and build files.
