# LestraOS: verified models of the kernel's algorithms

LestraOS is a C kernel. This project models, in Dafny, the parts of it whose state and arithmetic are
self-contained, and proves what they do on all inputs and over all runs:

| files | what is modelled |
|---|---|
| `PageTables`, `PageTableCopy`, `AddressSpace`, `PteBits` | user address spaces: copying the boot page tables, splitting 2 MB pages, mapping 4 KB pages |
| `Powers`, `SoftFloat`, `SoftFloatOps`, `SquareRoot` | integer-only binary32 arithmetic and integer square roots |
| `Linker`, `SymbolHash` | the in-kernel dynamic linker: recursive loading and the two symbol hash tables |
| `TimeWarp` | dynamic time warping and word matching |
| `Signals`, `PipeQueue`, `Pipe`, `PipeTable`, `Futex`, `Options`, `SetSizes` | inter-process communication as step machines |
| `Fat32` | FAT entries packed in mirrored sectors, cluster chains, file reads and writes |
| `MemTree`, `MemPaths`, `MemFs`, `MemRuns`, `MemLaws`, `MemDriver` | memfs: a directory tree in parallel index arrays |
| `Gguf`, `GgufRoundTrip`, `GgufLayout`, `GgufWriter`, `GgufReader` | the GGUF writer script and the GGUF reader |

`dafny verify dfyconfig.toml` checks everything.

Code that changes things in place is modelled by classes and methods with loops; each such method is
proved against a specification function or states its result outright, and the properties are proved of
those functions. The physical-page allocator, `kmalloc`, faults while copying to user memory, the files on
disk and the interleaving of processes enter as parameters. Page tables are maps from frame
numbers to 512 entries, an entry being a frame and a set of flags; `PteBits` decodes the 64-bit words to
them. Hardware accessed/dirty bits are ignored. Integers that wrap around in C are wrapped explicitly.

## What the proofs found

Where the code does not do what its comments promise, the model follows the code, and the exact condition
is proved:

- `user_map_page` sets PAGE_USER on a page-directory-pointer entry before it looks for a 1 GB page: a user
  request below a 1 GB page fails, but opens the whole gigabyte to user mode (kernel/exec/elf.c:240-243).
- Intermediate entries keep the write bit of the first page mapped through them, so a writable page mapped
  later beside a read-only one stays read-only (kernel/exec/elf.c:183-275).
- `deep_copy_pd` copies links to page tables as they are. The copy shares a table with the boot tree exactly
  when a boot directory under the first four PML4 entries maps some page through one; library mapping puts
  such tables there (kernel/exec/elf.c:70-80, kernel/exec/ldso.c:236-278).
- `sfp_div` returns 2a/b, truncated: the 2^24 pre-scale is not taken back out of the exponent
  (kernel/ai/pickle_softfp.c:225-244). It is right only for zero, saturated or largest results.
- `sfp_add` of opposite signs is a unit of the larger operand or more away exactly when the difference, taken
  after the alignment shift has cut the smaller operand, is not zero and below the smallest normal number
  (kernel/ai/pickle_softfp.c:156-191); `sfp_mul` misses round-to-nearest-even exactly when a dropped bit decides
  an apparent tie.
- A library path over 255 characters is stored cut and never found again, so asking twice fills two slots
  (kernel/exec/ldso.c:309-346).
- A deliverable signal that is ignored uses up the check, and later ones wait for the next check; a signal
  is lost when the allocation or the copy to the user stack fails (kernel/exec/signals.c:155-225).
- A futex waiter whose bucket is full is dropped from the index and can never be woken; a wake of 2^31 or
  more wakes nobody.
- `fat32_read_file` copies whole clusters, past the buffer size it was given when the file ends in the
  buffer's last cluster.
- A `general.alignment` entry other than 32 can make the GGUF reader look for the data where the writer did
  not put it.
- `fat32_alloc_cluster` pairs FAT entry i with cluster i + 2, so two allocations in a row hand out the same
  cluster (kernel/fs/fat32.c:100-122).
- memfs: creating a file below a regular file, creating or renaming to a name of 64 or more characters whose
  first 63 are already a sibling's name (so creating it twice), moving a directory under itself, renaming a
  node onto another name of itself, and renaming a file over a directory that holds other nodes all break the tree;
  `MemRuns.ApplyIff` gives the exact conditions. With MAX_CHILDREN 64 and 64 slots a directory never fills
  up, so the rollback of `vfs_rename` is unreachable with the real constants.
- Q4_1, Q5_1 and Q8_1 tensors read four bytes a block more than `pickle_type_size` allots
  (kernel/ai/pickle.c:637-768).

## Model

| member | source | states |
|---|---|---|
| `PageTables.EditKeepsTranslations` | kernel/exec/elf.c:183-275 | in a private tree, an edit of one entry that walks through its own table tolerate changes no translation of any page |
| `PageTables.WalkElsewhere` | kernel/exec/elf.c:183-275 | a walk that does not read the changed entry is unchanged, at every level |
| `PageTables.AttachTable` | kernel/exec/elf.c:224-270 | hanging a zeroed table under an absent entry keeps the tree private and all translations |
| `PageTables.MarkLinkUser` | kernel/exec/elf.c:183-275 | setting PAGE_USER on a link exposes nothing: below a supervisor link there is no user entry |
| `PageTables.SplitHugePage` | kernel/exec/elf.c:158-181 | replacing a 2 MB page by 512 small ones changes no translation and keeps the tree private |
| `PageTables.InstallLeaf` | kernel/exec/elf.c:183-275 | writing a leaf changes the translation of that one page |
| `PageTables.ExposeGigabyte` | kernel/exec/elf.c:234-247 | PAGE_USER on a 1 GB entry opens exactly that gigabyte |
| `PageTables.GigabytesLinked` | kernel/exec/elf.c:224-233 | a link written into the PML4 makes no 1 GB page and hides none |
| `PageTables.GigabytesKept` | kernel/exec/elf.c:234-247 | nor does an edit of a PDPT entry that stays one or stays none |
| `PageTables.TranslationInstalled` | kernel/exec/elf.c:183-275 | what the hardware walk finds for the new page: its frame and the rights its path allows |
| `AddressSpace.AddressSpaces.ReadOnlyLinksWin` | kernel/exec/elf.c:183-275 | on any private tree, mapping a read-only page through new tables and then a writable one beside it leaves the second read-only |
| `PageTables.TreeKept` | kernel/exec/elf.c:70-147 | a tree whose tables are untouched keeps every translation |
| `PageTableCopy.CopyAgrees` | kernel/exec/elf.c:115-147 | the copy translates each page as the boot tree does without user access, or not at all |
| `PageTableCopy.CompleteCopy` | kernel/exec/elf.c:115-147 | a copy for which no allocation failed translates every page below the first four entries as the boot tree does, through 4 KB, 2 MB and 1 GB pages, without user access |
| `PageTableCopy.CopyElsewhere` | kernel/exec/elf.c:115-147 | beyond the first four entries the copy maps nothing |
| `PageTableCopy.CompleteWalk` | kernel/exec/elf.c:115-147 | a complete copy reaches every page table that the boot tree reaches there |
| `PageTableCopy.CopyGigabytes` | kernel/exec/elf.c:86-147 | the 1 GB pages of the copy are those of the boot tree below the first four entries, all of them if it is complete |
| `PageTableCopy.CopyIsPrivate` | kernel/exec/elf.c:70-147 | over boot directories of large pages the copy shares no table frame |
| `PageTableCopy.AttachSubtree` | kernel/exec/elf.c:115-147 | linking a finished PDPT copy keeps the copied tree well formed |
| `PageTableCopy.SharingIff` | kernel/exec/elf.c:70-80 | the copy shares a table frame with the boot tree if and only if the boot tree maps a page of the first four PML4 entries through a page table |
| `PteBits.StoredEntry` | kernel/exec/elf.c:183-275 | the word for address, flags and PAGE_PRESENT decodes to that frame and those flags |
| `PteBits.DecodeVectors` | kernel/include/lestra/mm.h:12-22 | three words with the frames and flags they stand for |
| `PteBits.UserBit` | kernel/exec/elf.c:70-147 | setting and clearing PAGE_USER in a word changes that flag of the decoded entry alone |
| `PteBits.CopiedLink` | kernel/exec/elf.c:86-109 | a copied link decodes to the new table under the old flags without PAGE_USER |
| `PteBits.SplitEntry` | kernel/exec/elf.c:158-181 | the i-th word of a split 2 MB page decodes to the i-th entry of the model's split table |
| `PteBits.SplitLink` | kernel/exec/elf.c:158-181 | the directory word after a split decodes to a link with the old flags without PAGE_HUGE |
| `AddressSpace.AddressSpaces.SplitHuge` | kernel/exec/elf.c:158-181 | splits a 2 MB entry without changing a translation, or fails and changes nothing |
| `AddressSpace.AddressSpaces.EnterTable` | kernel/exec/elf.c:183-275 | one level of the walk: entry becomes a link, no translation changes, fails iff no frame is left |
| `AddressSpace.AddressSpaces.MapInDirectory` | kernel/exec/elf.c:249-275 | the directory level: only the target page changes, and only on success |
| `AddressSpace.AddressSpaces.MapInPdpt` | kernel/exec/elf.c:234-275 | the same from the PDPT down |
| `AddressSpace.AddressSpaces.OpenGigabyte` | kernel/exec/elf.c:234-247 | the write that opens a 1 GB page |
| `AddressSpace.AddressSpaces.UserMapPage` | kernel/exec/elf.c:183-275 | changes the translation of exactly the target page; every other page keeps frame and rights; on allocation failure none changes; failure exactly when frames run out; takes one frame for each missing table; blocked exactly by a 1 GB page, which a user request opens; the 1 GB pages stay the same; other trees untouched |
| `AddressSpace.AddressSpaces.DeepCopyPd` | kernel/exec/elf.c:70-80 | a fresh directory with the boot entries without PAGE_USER, nothing else written |
| `AddressSpace.AddressSpaces.DeepCopyPdpt` | kernel/exec/elf.c:86-109 | a fresh PDPT whose directories are fresh copies; takes exactly one frame and one for each linked directory while frames last, and drops a directory exactly when these are too few |
| `PageTableCopy.LinkRoot` | kernel/exec/elf.c:115-147 | linking a finished PDPT keeps the copy made so far, and the copy stays complete exactly when this PDPT is |
| `AddressSpace.AddressSpaces.CreateUserAddressSpace` | kernel/exec/elf.c:115-147 | fails exactly when no frame is left; takes one frame for each table it copies; the copy is complete exactly when there were enough, and then every page below the first four entries translates as in the boot tree without user access; else a page may fault; private over large pages; no frame in use changed |
| `AddressSpace.AddressSpaces.MapAll` | kernel/exec/elf.c:183-275 | after any run of mappings each page maps the frame that the last successful request for it named, with no more rights than asked; other pages are as before, opened exactly if a user request was blocked in their gigabyte; a request is blocked exactly by a 1 GB page there at the start, and fails otherwise only once no frame is left, which three a request exclude; another tree's translations are untouched |
| `AddressSpace.AddressSpaces.CreateAndMap` | kernel/exec/elf.c:115-275 | a new address space followed by any run of mappings changes no boot translation; it fails exactly when no frame is left, and with frames for the copy its pages follow the requests from the boot translations closed to user mode, blocked exactly by the boot tree's 1 GB pages |
| `SoftFloat.Unpack` | kernel/ai/pickle_softfp.c:52-70 | fields in range; subnormals flush to zero, infinities and NaNs clamp |
| `SoftFloat.UnpackMeans` | kernel/ai/pickle_softfp.c:52-70 | the value of every bit pattern from its sign, exponent and fraction |
| `SoftFloat.Pack` | kernel/ai/pickle_softfp.c:72-93 | the normalising loops compute the specified packing |
| `SoftFloat.PackNormal` | kernel/ai/pickle_softfp.c:72-93 | packing inverts unpacking on normal significands |
| `SoftFloat.PackTruncates` | kernel/ai/pickle_softfp.c:72-93 | packing a wide significand truncates toward zero or saturates at the largest finite number |
| `SoftFloat.PackNarrow` | kernel/ai/pickle_softfp.c:72-93 | packing a narrow significand is exact, or off by the hidden bit when the exponent runs out |
| `SoftFloat.AddCommutes` | kernel/ai/pickle_softfp.c:156-191 | commutative on all bit patterns |
| `SoftFloat.AddZero` | kernel/ai/pickle_softfp.c:156-191 | zero is neutral up to unpacking |
| `SoftFloat.AddSameSign` | kernel/ai/pickle_softfp.c:156-191 | for equal signs the exact sum truncated toward zero, saturating |
| `SoftFloat.AddOppositeSign` | kernel/ai/pickle_softfp.c:156-191 | for opposite signs within one unit of the larger operand if and only if the difference after the alignment shift is zero or at least the smallest normal number |
| `SoftFloat.UnderflowWitness` | kernel/ai/pickle_softfp.c:156-191 | a concrete difference that underflows to the wrong number |
| `SoftFloat.ShiftLiftsDifference` | kernel/ai/pickle_softfp.c:156-191 | a pair whose exact difference is below the smallest normal number, but not the aligned one: the result is within a unit |
| `SoftFloatOps.Multiply` | kernel/ai/pickle_softfp.c:198-222 | computes the product that the following laws are about |
| `SoftFloatOps.MulCommutes` | kernel/ai/pickle_softfp.c:198-222 | commutative on all bit patterns |
| `SoftFloatOps.ProductRounding` | kernel/ai/pickle_softfp.c:205-221 | the significand kept of a product is within half a unit and one dropped bit |
| `SoftFloatOps.NearestEvenIs` | kernel/ai/pickle_softfp.c:205-221 | the reference rounding is the nearest integer, even on ties |
| `SoftFloatOps.MulNearestEven` | kernel/ai/pickle_softfp.c:198-222 | in range, sfp_mul is the correctly rounded product if and only if the shift drops no set bit on an apparent tie with an even significand |
| `SoftFloatOps.FalseTieWitness` | kernel/ai/pickle_softfp.c:198-222 | two factors whose product comes out one unit too small |
| `SoftFloatOps.MulError` | kernel/ai/pickle_softfp.c:198-222 | for all operands: within 1/2 + 2^-24 ulp of the exact signed product; above the range the largest number of its sign; zero below the range or for a zero operand |
| `SoftFloatOps.Divide` | kernel/ai/pickle_softfp.c:225-244 | computes the quotient that the following laws are about |
| `SoftFloatOps.DivTruncatesTwice` | kernel/ai/pickle_softfp.c:225-244 | for all operands: in range, 2a/b with its sign, truncated toward zero to 24 bits; above the range the largest number of its sign; a zero divisor gives the largest number of the dividend's sign |
| `SoftFloatOps.CorrectQuotientIs` | kernel/ai/pickle_softfp.c:225-244 | the reference quotient is a/b with its sign, cut toward zero to 24 bits, saturating and flushed to zero |
| `SoftFloatOps.DivMeetsIff` | kernel/ai/pickle_softfp.c:225-244 | sfp_div equals it if and only if both are zero or both saturate, or the quotient is the largest finite number |
| `SoftFloatOps.DivWitness` | kernel/ai/pickle_softfp.c:225-244 | 1/1 comes out as 2 |
| `SoftFloatOps.SquareRootOf` | kernel/ai/pickle_softfp.c:247-272 | computes the specified root |
| `SoftFloatOps.NewtonSteps` | kernel/ai/pickle_softfp.c:260-266 | the four unrolled steps |
| `SoftFloatOps.SqrtBracket` | kernel/ai/pickle_softfp.c:247-272 | for every positive normal number the result is within one unit of the root, for odd and negative exponents too; zero for all others |
| `SquareRoot.StepAbove` | kernel/ai/pickle_softfp.c:260-266 | a Newton step never falls below the floor of the root |
| `SquareRoot.StepContracts` | kernel/ai/pickle_softfp.c:260-266 | a step squares the distance to the root and divides it by 2x |
| `SquareRoot.FourStepsRoot` | kernel/ai/pickle_softfp.c:247-272 | four steps from the given start end at floor(sqrt N) or one above |
| `SquareRoot.BitwiseRoot` | kernel/audio/stt.c:119-140 | isqrt and isqrt64 return the floor of the square root |
| `Linker.DynamicLinker.FindLoadedLib` | kernel/exec/ldso.c:309-319 | the first slot in use whose name or soname matches, none exactly when there is none |
| `Linker.DynamicLinker.AllocLoadedLib` | kernel/exec/ldso.c:321-330 | takes a free slot, fails exactly when all are in use |
| `Linker.DynamicLinker.LibAllocPages` | kernel/exec/ldso.c:236-278 | bumps the address pointer by the fewest whole pages that hold the bytes, or fails and changes nothing |
| `Linker.PageRound` | kernel/exec/ldso.c:236-238 | at least the bytes, less than a page more, whole pages |
| `Linker.ImagesDisjoint` | kernel/exec/ldso.c:236-278 | no byte of one loaded file lies on a byte of another, and all lie in the library range |
| `Linker.DynamicLinker.MapLibrary` | kernel/exec/ldso.c:795-835 | a new slot that holds the file, with a fresh address range, or none; none exactly when the image is not loadable or slots, addresses or pages do not suffice; other slots kept |
| `Linker.DynamicLinker.LoadLibrary` | kernel/exec/ldso.c:795-861 | terminates on every dependency graph; fails exactly when the library is absent and not loadable or does not fit; else returns its slot or fills a free one from the file; whatever it brings in was asked for and is relocated, and nothing else takes addresses or pages; one slot per name, images disjoint |
| `Linker.DynamicLinker.LoadFile` | kernel/exec/ldso.c:795-861 | a file is mapped, then its dependencies, then relocated; each library is relocated only after its loadable dependencies that fit are in the table; without dependencies it takes exactly its own pages |
| `Linker.DynamicLinker.LoadTwice` | kernel/exec/ldso.c:795-861 | two successful loads of a name over 255 characters leave two slots in use with one name; without dependencies both succeed exactly when the image fits twice |
| `Linker.LongPathTwice` | kernel/exec/ldso.c:795-861 | a path of 256 characters that is loaded into two slots |
| `Linker.DynamicLinker.LoadNeeded` | kernel/exec/ldso.c:836-850 | every dependency is in the table, or is not loadable, or does not fit what is left; nothing else is brought in |
| `Linker.DynamicLinker.LoadTopLevel` | kernel/exec/ldso.c:795-861 | at return every dependency of every library in the table is there too, or not loadable, or too large for the slots, addresses or pages that the libraries in the table leave; when slots, addresses and pages suffice for all missing files that the DT_NEEDED links lead to, all of them are there, and only then if no file answers to the name of another (for names that stay apart when cut to 255 characters, and files answering to one name that need the same libraries) |
| `Linker.RoomTaken` | kernel/exec/ldso.c:236-278 | the slots and addresses used up are exactly those of the files brought in |
| `Linker.StillFits` | kernel/exec/ldso.c:836-850 | with room for all the files wanted, one that is still missing still fits |
| `Linker.PathPresent` | kernel/exec/ldso.c:836-850 | a table closed under DT_NEEDED holds whatever a chain of dependencies leads to |
| `Linker.RoomNeeded` | kernel/exec/ldso.c:795-861 | all files wanted are there only if there was room for all |
| `Linker.RelocateSlot` | kernel/exec/ldso.c:852-854 | relocating a library whose dependencies are satisfied keeps the closure |
| `Linker.LongNameNeverPresent` | kernel/exec/ldso.c:309-319 | a name over 255 characters is never found |
| `SymbolHash.ComputeElfHash` | kernel/exec/ldso.c:509-518 | computes the System V hash, below 2^28 |
| `SymbolHash.FoldIs` | kernel/exec/ldso.c:509-518 | what the fold does to each group of bits |
| `SymbolHash.ElfShort` | kernel/exec/ldso.c:509-518 | names of up to five bytes hash to their base-16 number |
| `SymbolHash.LookupSysv` | kernel/exec/ldso.c:520-538 | on a well-formed table finds a symbol of that name exactly when a scan does |
| `SymbolHash.ComputeGnuHash` | kernel/exec/ldso.c:555-561 | computes the GNU hash in 32 bits |
| `SymbolHash.GnuHashIs` | kernel/exec/ldso.c:555-561 | the hash is 5381 and the bytes as a polynomial in 33, modulo 2^32 |
| `SymbolHash.GnuLayout` | kernel/exec/ldso.c:576-596 | which bits of which filter word, and which bit ends a chain |
| `SymbolHash.NoFalseNegative` | kernel/exec/ldso.c:563-580 | the Bloom filter and the bucket test reject no defined name |
| `SymbolHash.WalkGnuChain` | kernel/exec/ldso.c:581-600 | the walk ends at the end mark and misses no symbol |
| `SymbolHash.LookupGnu` | kernel/exec/ldso.c:563-600 | finds a symbol of that name exactly when a scan of the hashed symbols does |
| `TimeWarp.BestIsLeast` | kernel/audio/stt.c:295-329 | no warping path is cheaper than the recurrence |
| `TimeWarp.CostIs` | kernel/audio/stt.c:309-315 | the cost of two frames is the sum of the sixteen absolute differences |
| `TimeWarp.DistanceMeans` | kernel/audio/stt.c:295-331 | the distance is that cost over the number of frames, on forty frames at most |
| `TimeWarp.BestIsAttained` | kernel/audio/stt.c:295-329 | some path costs exactly that |
| `TimeWarp.BestIsLeastPathCost` | kernel/audio/stt.c:295-329 | the recurrence is the minimum over all monotone warping paths |
| `TimeWarp.Relax` | kernel/audio/stt.c:308-325 | one cell from its neighbours, never adding to the sentinel |
| `TimeWarp.DtwDistance` | kernel/audio/stt.c:295-329 | the score is the least total path cost divided by the number of frames |
| `TimeWarp.MatchUtterance` | kernel/audio/stt.c:368-385 | the first lexicon word with the least score if that is at most 35, none otherwise |
| `Signals.StepValid` | kernel/exec/signals.c:36-225 | every call keeps SIGKILL and SIGSTOP unblocked and unbound, and in_signal_handler equal to a saved state |
| `Signals.RunValid` | kernel/exec/signals.c:36-225 | so does every run of calls |
| `Signals.RunRestores` | kernel/exec/signals.c:113-225 | over every run the interrupted state is kept, and it is back whenever no handler is active |
| `Signals.FrameLayout` | kernel/exec/signals.c:195-225 | RSP is 8 modulo 16 at handler entry; the frame is below the red zone if and only if RSP was at least 160 |
| `Signals.DeliverEntersHandler` | kernel/exec/signals.c:155-224 | the lowest deliverable signal with a handler enters it: rip, rdi, stack alignment and red zone, trap flag, other registers, saved state |
| `Signals.DeliverWithoutHandler` | kernel/exec/signals.c:170-181 | otherwise it ends the process with 128 plus its number, or is only used up: SIGCHLD, SIGCONT, SIGURG, ignored, or a fault |
| `Signals.DeliverNothing` | kernel/exec/signals.c:155-163 | in a handler or with nothing deliverable the check changes nothing |
| `Signals.StepMeans` | kernel/exec/signals.c:36-111 | what sigaction, sigprocmask and kill change, and for which numbers |
| `Signals.SigreturnMeans` | kernel/exec/signals.c:113-128 | sigreturn restores every register and checks again |
| `Signals.RunAtHandler` | kernel/exec/signals.c:155-224 | every handler entered in any run is entered so |
| `Signals.Process.EnterWith` | kernel/exec/signals.c:182-224 | a `ret` from the handler leads to the code that calls sigreturn, and no other byte of user memory changes |
| `Signals.FrameWritten` | kernel/exec/signals.c:200-217 | the two copies to the user stack do not overlap |
| `Signals.BurstDelivers` | kernel/exec/signals.c:113-225 | a burst of handled signals is delivered lowest first, each once, and ends in the interrupted state |
| `Signals.AscendingLists` | kernel/exec/signals.c:155-175 | the delivery order lists the set exactly, increasing |
| `Signals.CheckLeavesSignals` | kernel/exec/signals.c:155-195 | deliverable signals stay behind with no handler entered if and only if the lowest was ignored and not alone |
| `Signals.Process.SignalSigaction` | kernel/exec/signals.c:36-62 | the step of the state machine, with its error codes |
| `Signals.Process.SignalSigprocmask` | kernel/exec/signals.c:89-111 | the same for the mask |
| `Signals.LostIff` | kernel/exec/signals.c:155-225 | a handled signal is neither pending nor entered after the check if and only if the allocation or a copy to the stack failed |
| `Signals.NeverEntered` | kernel/exec/signals.c:36-225 | a signal that is not pending and not sent again is never entered in any run |
| `Signals.LostRun` | kernel/exec/signals.c:36-225 | a run that loses a signal for good |
| `Signals.Process.SignalKill` | kernel/exec/signals.c:64-87 | the step of kill on one process |
| `Signals.ProcessTable.SignalKill` | kernel/exec/signals.c:64-87 | reaches the process found for a positive pid, all live ones otherwise; makes the signal pending and unblocks; the error codes |
| `Signals.SentIsKill` | kernel/exec/signals.c:64-87 | what a reached process sees is the kill step |
| `Signals.Process.CheckAndDeliver` | kernel/exec/signals.c:155-225 | delivers the lowest deliverable signal as specified, with every failure path |
| `Signals.Process.SignalSigreturn` | kernel/exec/signals.c:113-128 | restores the interrupted state and checks again |
| `Pipe.CircularPut` | kernel/exec/pipe.c:125-128 | storing at the write position appends to the ring's contents |
| `Pipe.CircularTake` | kernel/exec/pipe.c:97-101 | advancing the read position drops the oldest byte |
| `Pipe.Ring.ReadStretch` | kernel/exec/pipe.c:83-108 | one stretch of pipe_read: blocks exactly on an empty open pipe, else hands out the oldest bytes up to the count, and wakes a blocked writer |
| `Pipe.Ring.WriteStretch` | kernel/exec/pipe.c:110-137 | one stretch of pipe_write: stores a run of the data from where it was, up to its end, a full ring or a broken pipe, and wakes a blocked reader |
| `Pipe.Ring.StartRead` | kernel/exec/pipe.c:83-108 | the same for a call, which keeps conservation (delivered + contents = accepted) and that reader and writer are never both blocked |
| `Pipe.Ring.ResumeRead` | kernel/exec/pipe.c:83-108 | the same after a block |
| `Pipe.Ring.StartWrite` | kernel/exec/pipe.c:110-137 | the same for a write: the bytes stored are a prefix of the data, all of it on success, and a blocked write remembers how many |
| `Pipe.Ring.ResumeWrite` | kernel/exec/pipe.c:110-137 | the same for a write after a block, from the byte it had reached |
| `PipeQueue.UnbrokenData` | kernel/exec/pipe.c:110-137 | what writes that did not break have stored is exactly their data |
| `Pipe.Ring.RunAll` | kernel/exec/pipe.c:83-137 | over every interleaving of calls, resumptions, closes and wake-ups the circular buffer, both processes and the calls that came back are those of the queue run through the same steps |
| `Pipe.Ring.TakeStep` | kernel/exec/pipe.c:83-137 | each stretch does to the ring exactly what it does to the queue |
| `PipeQueue.RunConserves` | kernel/exec/pipe.c:83-137 | over every run, what the reads returned and then the contents are what the writes stored; when none broke, the data of the finished ones and the stored part of the unfinished one |
| `PipeQueue.RunTakes` | kernel/exec/pipe.c:110-137 | the writes that came back and the unfinished one are exactly those started, in order |
| `PipeQueue.After` | kernel/exec/pipe.c:83-137 | keeps a blocked reader on an empty queue and a blocked writer on a full one, so never both |
| `PipeQueue.ReadWaits` | kernel/exec/pipe.c:83-137 | a read of an empty pipe waits and gets the first bytes of the write that follows |
| `PipeQueue.WriteWaits` | kernel/exec/pipe.c:110-137 | a write waits exactly when it does not fit into 4096 bytes, and goes on where it was |
| `Pipe.Ring.Transfer` | kernel/exec/pipe.c:83-137 | a write of any length and reads of any size, taking turns when one blocks, end, and hand over exactly the data |
| `PipeTable.FreePipeLeavesDescriptors` | kernel/exec/pipe.c:41-77 | a free pipe always leaves two free descriptors |
| `PipeTable.Tables.PipeCreate` | kernel/exec/pipe.c:41-77 | fails exactly when all 16 pipes are in use; otherwise two fresh descriptors of one fresh pipe |
| `PipeTable.Tables.PipeClose` | kernel/exec/pipe.c:139-148 | closes one end and releases the pipe with its last end |
| `Futex.WaiterLinked` | kernel/exec/futex.c:47-52 | linking a new waiter keeps both tables in step and drops nobody |
| `Futex.WaiterDropped` | kernel/exec/futex.c:47-52 | a new waiter whose bucket is full is exactly the one more that is dropped |
| `Futex.WaitersReleased` | kernel/exec/futex.c:111-144 | releasing waiters of one bucket keeps both tables in step |
| `Futex.ReleasedAccounts` | kernel/exec/futex.c:111-144 | and changes nothing about who is dropped |
| `Futex.BucketsDisjoint` | kernel/exec/futex.c:35-60 | no waiter is named in two buckets |
| `Futex.MatchingIs` | kernel/exec/futex.c:111-142 | a waiter matches if it waits on the address and shares a bit with the mask, if there is one |
| `Futex.HashBits` | kernel/exec/futex.c:35-39 | the bucket as bits of the page number |
| `Futex.WakeShortfall` | kernel/exec/futex.c:111-144 | a wake through the bucket finds as many as a scan if and only if no match was dropped or fewer are asked for than remain |
| `Futex.FutexTable.AllocWaiter` | kernel/exec/futex.c:41-45 | a free waiter, none exactly when all are in use |
| `Futex.FutexTable.BucketAdd` | kernel/exec/futex.c:47-52 | first empty entry, or dropped when the bucket is full |
| `Futex.FutexTable.BucketRemove` | kernel/exec/futex.c:54-60 | removes exactly that waiter |
| `Futex.FutexTable.Wait` | kernel/exec/futex.c:74-110 | every error code with its exact condition; on success one new waiter, entered in its bucket, or dropped exactly when that was full |
| `Futex.FutexTable.Wake` | kernel/exec/futex.c:111-144 | wakes min(val, matches not dropped) waiters, removes them from both structures and touches no others; as many as a linear scan if and only if no match was dropped or val stays within the others |
| `Futex.FutexTable.RunAll` | kernel/exec/futex.c:62-144 | a dropped waiter is woken by no later run of waits and wakes |
| `Futex.FutexTable.NineWaiters` | kernel/exec/futex.c:62-144 | nine waiters on one address: a wake of nine wakes eight and the ninth stays |
| `Fat32.SetIsUpdate` | kernel/fs/fat32.c:77-97 | fat_set is a map update on cluster numbers, keeps the second FAT equal and leaves the data region alone |
| `Fat32.EntryBytes` | kernel/fs/fat32.c:64-73 | an entry is the four little-endian bytes at its place on disk, without the top four bits |
| `Fat32.SetBytes` | kernel/fs/fat32.c:77-97 | fat_set writes those four bytes |
| `Fat32.MirrorBytes` | kernel/fs/fat32.c:77-97 | with two FATs the same sector goes into the second, else one sector changes |
| `Fat32.ContentsBytes` | kernel/fs/fat32.c:413-432 | where on disk each byte of a file is |
| `Fat32.InitLayout` | kernel/fs/fat32.c:331-375 | the layout fat32_init computes keeps the FATs before the data region |
| `Fat32.Volume.FatGet` | kernel/fs/fat32.c:64-73 | for every cluster number: reads the table, end of chain below 2 and past the disk, the word found otherwise |
| `Fat32.Volume.FatSet` | kernel/fs/fat32.c:77-97 | for every cluster number: updates the table on disk in both copies and nothing else; past the table, the words it hits |
| `Fat32.Volume.FreeChain` | kernel/fs/fat32.c:125-131 | terminates on every in-range table, cyclic ones too, and zeroes exactly the entries reachable from the start |
| `Fat32.FreeStep` | kernel/fs/fat32.c:125-131 | one round keeps the freed set closed under links and makes progress |
| `Fat32.ChainDistinct` | kernel/fs/fat32.c:413-432 | a chain that ends visits no cluster twice |
| `Fat32.SharedTail` | kernel/fs/fat32.c:413-432 | two chains that meet stay together |
| `Fat32.Volume.ScanSector` | kernel/fs/fat32.c:108-118 | the first free entry of one FAT sector |
| `Fat32.Volume.AllocCluster` | kernel/fs/fat32.c:100-122 | marks and returns the cluster two above the first zero entry, 0 exactly when there is none |
| `Fat32.Volume.AllocTwice` | kernel/fs/fat32.c:100-122 | two allocations in a row return the same cluster |
| `Fat32.Volume.ReadFile` | kernel/fs/fat32.c:413-432 | the first min(size, buffer, chain) bytes, in whole clusters; the rest of the buffer is kept; the count comes back as a 32-bit int |
| `Fat32.Overruns` | kernel/fs/fat32.c:413-432 | it stores past the given buffer size if and only if file and buffer end inside the same cluster |
| `Fat32.Volume.Forward` | kernel/fs/fat32.c:487-509 | the cluster that holds a byte offset |
| `Fat32.Volume.WriteFile` | kernel/fs/fat32.c:465-532 | the chain's contents with exactly the range replaced, new size, FAT and all other sectors unchanged |
| `Fat32.SameElsewhereKeeps` | kernel/fs/fat32.c:465-532 | after a write, every file on a disjoint chain reads the same and the FAT is the same |
| `Fat32.Volume.WriteThenRead` | kernel/fs/fat32.c:413-532 | writing then reading yields the old contents with the range replaced |
| `MemTree.FindIn` | kernel/fs/vfs.c:113-125 | a live child of that name, or none exactly when there is none |
| `MemTree.DetachKeepsTree` | kernel/fs/vfs.c:1000-1022 | removing a leaf keeps the tree and frees one slot |
| `MemTree.PlaceKeepsTree` | kernel/fs/vfs.c:1268-1304 | placing a new or moved node, with or without a replaced one, keeps the tree |
| `MemTree.PlaceUp` | kernel/fs/vfs.c:1268-1304 | every node still leads up to the root after a placement |
| `MemTree.CycleBreaks` | kernel/fs/vfs.c:1242-1324 | a directory moved below itself is cut off |
| `MemTree.OrphanBreaks` | kernel/fs/vfs.c:1268-1287 | a child of a replaced directory is orphaned |
| `MemTree.ClashBreaks` | kernel/fs/vfs.c:1268-1304 | a second child of one name breaks the tree |
| `MemTree.PlaceKeepsPaths` | kernel/fs/vfs.c:161-192 | paths to nodes outside the moved or replaced part lead where they did |
| `MemTree.PlaceKeepsSubtree` | kernel/fs/vfs.c:161-192 | below the moved node every name means what it meant, but for a freed node |
| `MemTree.PlaceAddsNoPaths` | kernel/fs/vfs.c:161-192 | a path that does not pass the moved node led to the same node before |
| `MemPaths.ComponentsJoin` | kernel/fs/vfs.c:161-192 | a slash always ends a component |
| `MemPaths.ResolveIsLookup` | kernel/fs/vfs.c:161-192 | resolving a path is looking its basename up in the split-off parent, for every basename that fits and is not dotted |
| `MemPaths.LongNameWitness` | kernel/fs/vfs.c:275-322 | a name of 64 characters is split as one name and resolved as two |
| `MemLaws.PathMeans` | kernel/fs/vfs.c:161-192 | a spelled-out path leads where its names lead from the root |
| `MemLaws.DottedMeans` | kernel/fs/vfs.c:161-192 | a slash at the end and a dot change nothing, two dots lead to the parent |
| `MemLaws.SplitMeans` | kernel/fs/vfs.c:275-322 | a path is split at its last slash, name and parent path cut to what fits |
| `MemFs.AttachIff` | kernel/fs/vfs.c:660-684 | a new node keeps the tree if and only if the parent is a directory with room and no child of that name |
| `MemFs.MoveIff` | kernel/fs/vfs.c:1242-1324 | whatever the paths resolve to, a successful rename keeps the tree if and only if it moves no directory under itself, frees neither the new parent nor a directory with other children, and gives no two children one name; a node that is its own replacement must be an empty directory and its own new parent |
| `MemFs.SelfMoveIff` | kernel/fs/vfs.c:1268-1304 | two names of one node: it is freed and listed again, unless it is its own new parent |
| `MemFs.FreedParentBreaks` | kernel/fs/vfs.c:1268-1304 | replacing the new parent leaves the moved node under a dead one |
| `MemFs.MoveFails` | kernel/fs/vfs.c:1304-1318 | a rename fails late exactly when the new parent is full and neither node is in it |
| `MemFs.FailedMoveRestores` | kernel/fs/vfs.c:1304-1318 | then the tree is restored up to the order of child lists, also when a node was to be replaced |
| `MemTree.ReorderedTree` | kernel/fs/vfs.c:1304-1318 | the order of children does not matter to the tree |
| `MemRuns.ApplyIff` | kernel/fs/vfs.c:635-1324 | for all paths, each of create, mkdir, unlink, rmdir and rename keeps the tree and the node count if and only if its condition holds |
| `MemRuns.PlainMake` | kernel/fs/vfs.c:635-684 | for a plain path a directory with room is all that is needed |
| `MemRuns.RemoveKeeps` | kernel/fs/vfs.c:1189-1220 | unlink and rmdir always keep the tree |
| `MemLaws.CreateResult` | kernel/fs/vfs.c:635-684 | when O_CREAT opens, creates or fails, and the regular file it makes; all other nodes as they were |
| `MemLaws.MkdirResult` | kernel/fs/vfs.c:894-956 | when mkdir succeeds, and the directory it makes |
| `MemLaws.MakeFound` | kernel/fs/vfs.c:635-684 | the path then leads to the new node |
| `MemLaws.RemoveResult` | kernel/fs/vfs.c:1000-1220 | unlink and rmdir succeed exactly on files and empty directories but the root, free that node alone, and its path leads nowhere |
| `MemLaws.RemoveKeepsPaths` | kernel/fs/vfs.c:1000-1220 | every other list of names leads where it led |
| `MemRuns.InitialOk` | kernel/fs/vfs.c:390-412 | vfs_init establishes it |
| `MemRuns.RunKeepsTree` | kernel/fs/vfs.c:635-1324 | every run of operations that meet their conditions ends in a tree with the right count |
| `MemRuns.NeverFull` | kernel/fs/vfs.c:129-142 | with the real constants no directory fills up |
| `MemRuns.UniquePath` | kernel/fs/vfs.c:161-192 | every node has exactly one path of names |
| `MemRuns.RenameFound` | kernel/fs/vfs.c:1242-1324 | the moved node is found under the parent path and the stored name |
| `MemLaws.RenameSucceeds` | kernel/fs/vfs.c:1242-1324 | the exact condition, on the state and the two paths, under which a rename returns 0 |
| `MemLaws.RenameResult` | kernel/fs/vfs.c:1264-1324 | the replaced node is freed and no longer counted, the moved one has its new name and parent, all others are as they were |
| `MemLaws.ReplaceFile` | kernel/fs/vfs.c:1264-1287 | renaming /a over a file /b replaces it |
| `MemRuns.PlainStored` | kernel/fs/vfs.c:1242-1324 | for a plain path these names are its components |
| `MemRuns.RenameMoves` | kernel/fs/vfs.c:1242-1324 | what the old path meant, alone or followed by more names, the stored names mean; the old path no longer leads there |
| `MemRuns.RenameKeepsOthers` | kernel/fs/vfs.c:1242-1324 | every path to a node outside the part moved or replaced means the same |
| `MemRuns.RenameAddsNoPaths` | kernel/fs/vfs.c:1242-1324 | a path that led nowhere still does, unless it extends the new one |
| `MemRuns.LongNameTwice` | kernel/fs/vfs.c:635-684 | creating a 64-character name twice breaks sibling uniqueness |
| `MemRuns.LongRename` | kernel/fs/vfs.c:1242-1324 | so does renaming to such a name beside a sibling with its first 63 characters |
| `MemRuns.MoveUnderItself` | kernel/fs/vfs.c:1242-1324 | renaming /a to /a/b breaks the tree |
| `MemRuns.MkdirThenMove` | kernel/fs/vfs.c:1242-1324 | a run from the initial state that does it |
| `MemDriver.FileTable.LookupChild` | kernel/fs/vfs.c:113-125 | computes the child lookup |
| `MemDriver.FileTable.AppendChild` | kernel/fs/vfs.c:129-142 | appends a child, or reports a full list or a non-directory |
| `MemDriver.FileTable.DropChild` | kernel/fs/vfs.c:145-158 | removes the child and shifts the rest |
| `MemDriver.FileTable.ResolvePath` | kernel/fs/vfs.c:161-192 | the cursor loop walks the components of the path |
| `MemDriver.FileTable.SplitPath` | kernel/fs/vfs.c:275-322 | parent and basename of the path, cut to what fits |
| `MemDriver.FileTable.AllocSlot` | kernel/fs/vfs.c:325-331 | the first free slot |
| `MemDriver.FileTable.MakeNode` | kernel/fs/vfs.c:635-956 | O_CREAT and mkdir compute the specified state and result |
| `MemDriver.FileTable.RemoveNode` | kernel/fs/vfs.c:1000-1220 | unlink and rmdir likewise |
| `MemDriver.FileTable.RenameNode` | kernel/fs/vfs.c:1242-1324 | rename likewise |
| `MemDriver.FileTable.Reparent` | kernel/fs/vfs.c:1264-1324 | the table changes of rename, with the rollback |
| `Gguf.FromLeInverts` | kernel/ai/pickle.c:120-131 | reading a little-endian integer inverts writing it |
| `GgufLayout.LeDigits` | kernel/ai/pickle.c:120-131 | byte i of an integer counts 256^i |
| `GgufLayout.HeaderMeans` | kernel/ai/pickle.c:293-375 | for every file: magic, version, limits and the order of the counts |
| `GgufLayout.ValueRead` | kernel/ai/pickle.c:235-283 | a metadata value of any of the thirteen types is read back from its bytes |
| `GgufLayout.ValueFails` | kernel/ai/pickle.c:183-283 | long or cut strings, long arrays and unknown types are errors |
| `GgufLayout.EntryRead` | kernel/ai/pickle.c:320-330 | an entry is key, type number and value |
| `GgufLayout.AlignmentMeans` | kernel/ai/pickle.c:320-333 | the last 32-bit general.alignment counts, 0 or none standing for 32 |
| `GgufLayout.RowRead` | kernel/ai/pickle.c:335-356 | a row of the tensor table with any type, cut name, element count and size |
| `GgufLayout.RowFails` | kernel/ai/pickle.c:335-356 | rows of no or more than 8 dimensions are errors |
| `GgufLayout.TensorRead` | kernel/ai/pickle.c:661-983 | a tensor of any type, laid out block by block, loads as exactly those fields in that order |
| `GgufLayout.FieldCut` | kernel/ai/pickle.c:657-983 | where the file ends inside a block |
| `GgufRoundTrip.StrRead` | kernel/ai/pickle.c:183-191 | read_string inverts write_str up to the length limit |
| `GgufRoundTrip.KvRead` | scripts/make_tiny_gguf.py:81-104 | a metadata entry of type string, u32, f32 or bool is read as written |
| `GgufRoundTrip.KvsRead` | kernel/ai/pickle.c:320-330 | so is the whole metadata |
| `GgufRoundTrip.InfosRead` | kernel/ai/pickle.c:335-356 | so is the tensor table, with names, shapes and offsets |
| `GgufRoundTrip.MetaRoundTrip` | kernel/ai/pickle.c:293-375 | every key, value, name and shape is recovered, whatever alignment the metadata asks for |
| `GgufRoundTrip.StartIff` | kernel/ai/pickle.c:358-366 | the reader looks for the data where the writer put it if and only if the two alignments lead to one place |
| `GgufRoundTrip.NextTensor` | scripts/make_tiny_gguf.py:107-117 | the padding after a tensor ends where the table says the next one begins |
| `GgufRoundTrip.TensorsRead` | kernel/ai/pickle.c:464-490 | every tensor's weights are read back bit by bit |
| `GgufRoundTrip.RoundTrip` | scripts/make_tiny_gguf.py:81-165 | pickle_load of the written file recovers every key, value, shape and weight within the reader's limits, under that condition |
| `GgufRoundTrip.MisalignedWitness` | kernel/ai/pickle.c:326-329 | a model with general.alignment 64 whose weight is read as 0 |
| `GgufRoundTrip.InfosAt` | kernel/ai/pickle.c:335-356 | each table row has the name, shape and element count of its tensor |
| `GgufRoundTrip.BlockWidths` | kernel/ai/pickle.c:661-983 | the bytes one block reads, for every type |
| `GgufRoundTrip.DequantConsumes` | kernel/ai/pickle.c:637-983 | a tensor consumes exactly pickle_type_size bytes if and only if its type is not Q4_1, Q5_1 or Q8_1 or it has no whole block |
| `GgufWriter.ComputeOffsets` | scripts/make_tiny_gguf.py:107-117 | the data offsets |
| `GgufWriter.File.WriteKv` | scripts/make_tiny_gguf.py:81-104 | appends one metadata entry |
| `GgufWriter.File.WriteFile` | scripts/make_tiny_gguf.py:119-165 | writes exactly the specified file |
| `GgufWriter.WriteAndLoad` | scripts/make_tiny_gguf.py:81-165 | writing with the script and loading with the kernel gives the model back, under the condition of RoundTrip |
| `GgufReader.Decode` | kernel/ai/pickle.c:125-131 | the byte loop computes the little-endian value |
| `GgufReader.Stream.ReadString` | kernel/ai/pickle.c:183-191 | reads a string, or fails on a long or cut one |
| `GgufReader.Stream.ParseValue` | kernel/ai/pickle.c:235-283 | every value type, with short reads and unknown tags |
| `GgufReader.Stream.ParseKvs` | kernel/ai/pickle.c:320-330 | the metadata loop and the alignment it tracks |
| `GgufReader.Stream.ParseInfos` | kernel/ai/pickle.c:335-356 | the tensor table loop |
| `GgufReader.Stream.SeekTo` | kernel/ai/pickle.c:1413-1424 | mem_seek clamps to the file |
| `GgufReader.Stream.ParseMeta` | kernel/ai/pickle.c:293-375 | pickle_load_meta on every file, errors included |
| `GgufReader.Stream.DequantStream` | kernel/ai/pickle.c:661-983 | reads the blocks of a tensor of any type |
| `GgufReader.Stream.LoadAll` | kernel/ai/pickle.c:464-490 | pickle_load on every file |

## Left out

- Transcendental functions, sfp_from_int, sfp_to_int and sfp_cmp of pickle_softfp.c: no clean error bound, or one-line facts.
- user_map_data, elf_load's segment loop, stack building and the jump to ring 3: clients of user_map_page.
- Accessed and dirty bits, TLB and CR3 switches: the hardware side of paging.
- ELF relocation numerics, DT_JMPREL, initialiser order and lookup_symbol_global: numeric formats and a dispatch loop.
- The wake-up of a pipe process when the other end closes, several readers, and preemption inside one stretch: the code does not handle them; each stretch between blocks is one step.
- The rollback branch of pipe_create: unreachable, since a free pipe leaves two descriptors.
- FUTEX timeouts and the scheduler behind task_block: a wait is modelled up to the point where it blocks.
- Writing past the end of a FAT chain and into new files, I/O errors, and clusters of several sectors: the allocator hands out used clusters, and the sector buffer holds one sector.
- FAT directory entries and 8.3 names: formatting.
- Fat32.Volume.WriteFile: requires the byte range to lie in the chain, since growing a file needs the broken allocator, and to end below 2^32 - 512, beyond which the driver's 32-bit byte count wraps around.
- PteBits.SplitEntry: requires bit 12 clear in the 2 MB entry, which is its PAT bit; elf.c takes that bit for a part of the address and would shift the range by one page.
- Fat32.Volume.ReadFile: requires a buffer for the whole clusters that the driver copies; a smaller one is overrun in C.
- memfs contents, modes, owners, open flags and offsets, chroot, O_TRUNC, and the delegation to ext2, FAT32, tmpfs, procfs and devfs: only the tree is modelled.
- Arithmetic on quantised blocks and the forward pass: the reader is modelled up to the fields of each block.
- GgufReader.Stream.ParseMeta: does not model allocation failures, whose only effect is an error code.
- GgufReader.Stream.LoadAll: does not model allocation failures, whose only effect is an error code.
- GgufReader.Stream.DequantStream: yields the fields of each block, not the dequantised values, whose arithmetic has no clean bound.
- Linker.DynamicLinker.LibAllocPages: does not count the page-table frames that vmm_map_page may take, nor the 64-bit wrap-around of the rounding near 2^64.
- Spectrum, voice detection, speech synthesis, drivers, GUI, network, shell and installer: heuristics, hardware or dispatch.
