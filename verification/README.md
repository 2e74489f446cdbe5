# AIOS kernel: verified models of its stateful components

AIOS is a freestanding x86-64 kernel. This project models the components that keep non-trivial state
and proves what their design relies on. State that the kernel changes in place is a class; each of its
methods is proved against a function or relation on an abstract value, and the design's promises are
lemmas about those abstract values, over whole runs where the promise is about runs.

`dafny verify dfyconfig.toml` checks everything.

| files | component | abstract value |
|---|---|---|
| `Pmm.dfy` | frame allocator (`kernel/pmm.c`) | the set of free frames |
| `Vmm.dfy` | four-level page tables (`kernel/vmm.c`) | a tree of tables, and the translation of each address |
| `HeapModel.dfy`, `Heap.dfy` | kernel heap (`kernel/heap.c`) | the list of blocks in address order, and the live payloads |
| `SchedModel.dfy`, `Sched.dfy` | scheduler and task table (`kernel/sched.c`, `kernel/task.c`) | two queues of task slots, task states, clock and quantum |
| `Sync.dfy` | mutex and semaphore (`kernel/sync.c`) | N tasks with program counters; one exchange, store or guarded section per step |
| `FatModel.dfy`, `FatFiles.dfy`, `FatDirectory.dfy`, `FatCreate.dfy`, `FatDisk.dfy`, `Fat32.dfy` | FAT32 driver (`kernel/fat32.c`) | the 28-bit table and the clusters, over a disk of sectors |
| `MergeTable.dfy`, `Bpe.dfy`, `TokenText.dfy`, `Tokenizer.dfy` | BPE tokenizer (`kernel/llm/tokenizer.c`) | the rule list, the token sequence, the text |
| `Initrd.dfy` | ramdisk writer and parser (`scripts/mkinitrd.py`, `kernel/initrd.c`) | the list of files |
| `TopK.dfy`, `Sampling.dfy`, `Nucleus.dfy` | top-k selection and sampling (`kernel/llm/model.c`) | the stable descending order, and the weights, over real numbers |
| `Arith.dfy`, `Bits.dfy`, `LittleEndian.dfy` | shared arithmetic, bit operations and byte order | |

## What the proofs brought to light

Where the code and its comments differ, the model follows the code. Where it breaks a promise, a lemma gives the
exact condition and another one an input.

- Frame counter: `free_frames` counts the clear bits exactly when the available ranges of the memory map
  are disjoint (`Pmm.CountExactIffDisjoint`, `Pmm.CountedTwice`); before the map has been read it is MAX_FRAMES
  short, and marking frames used takes it below zero, modulo 2^64 (`Pmm.FrameBitmap.CounterIff`,
  `Pmm.FrameBitmap.MarkEarly`).
- Page tables: the comment at kernel/vmm.c:52-54 speaks of 19 pool pages for the identity map; the code
  needs 35 (`Vmm.IdentityTableCount`, `Vmm.AddressSpace.Boot`). A table is zeroed and walked through the identity map;
  it lies there exactly when a frame below 64 MB was free or the pool served it (`Vmm.AddressSpace.AllocTable`,
  `Vmm.AddressSpace.HighTable`).
- Heap: the rounding mask `~15u` is a 32-bit constant (`HeapModel.RoundIsMask`), so a request above 0xFFFFFFF0
  bytes loses its upper half; `HeapModel.RoundCoversIff` gives the exact limit, `HeapModel.RoundLoses` an input.
- Mutex: `mutex_unlock` is two stores. Called by a task that does not hold the mutex, the first is harmless exactly
  while owner_pid is 0 and the second exactly while the lock word is clear (`Mutex.StrayIff`, over runs
  `Mutex.RunInvIff`); that the mutex is free at the call is not enough (`Mutex.FreeAtCallIsNotEnough`,
  `Mutex.TwoHoldersReachable`). Tasks beyond the sixteenth waiter are not registered, and an unlock wakes nobody:
  waiters spin.
- Tasks: `task_create` searches and claims its slot with interrupts on; the claim is harmless exactly while the slot is
  still DEAD (`SchedModel.ClaimIff`, `SchedModel.SameSlotTwice`).
- FAT32: writing an entry clears the upper four bits of the stored word (`FatDisk.UpperBitsKept`,
  `FatDisk.UpperBitsLost`); an entry put over an end marker can uncover stale entries behind it
  (`FatCreate.CreatedAndOthers`, `FatDirectory.StaleEntry`); a creation that fails while extending the directory
  leaks the file's clusters (`FatCreate.LeaksIff`, `FatCreate.FailureHappens`). The cluster count and the sum that
  clips a read have 32 bits: a file within one cluster of 4 GB gets one cluster (`FatCreate.NeededIsEnough`,
  `FatCreate.FourGigabytes`), and a read of that size copies past its buffer (`Fat32.Driver.ReadFile`,
  `Fat32.ReadOverruns`). A lookup in a cyclic directory need not end (`Fat32.EndsIffTrail`, `Fat32.NeverEnds`).
- Tokenizer: the header comment says a merge replaces the pair everywhere; the code merges one leftmost pair
  per round (`Bpe.MergeAllStep`). An empty text yields only the begin token, whatever the end-token setting, and
  stores it whatever the buffer size (`TokenText.FitsIff`, `TokenText.EmptyTextOverruns`); decoding stores its closing
  NUL into a buffer of size 0 when the ids decode to nothing (`Tokenizer.Decode`, `TokenText.NothingDecoded`);
  building reads past the vocabulary exactly when a merge pair does not name two entries
  (`Tokenizer.Tokenizer.Build`). The hash table holds 65536 rules; later ones are dropped, which matters exactly when
  their pair is new (`MergeTable.DropsNothingIff`, `MergeTable.RuleDropped`).
- Ramdisk: names of more than 47 bytes are cut (`Initrd.NameKept`), files past the 128th are not mounted, a second
  mount appends to the first (`Initrd.FirstMountWins`) and writes past the table when there are more than 128
  files in all (`Initrd.Ramdisk.Init`, `Initrd.SecondMountOverruns`).
- Sampling: a draw of exactly zero returns token 0 even when the filters removed it (`Sampling.SampleInTopK`,
  `Sampling.ZeroDrawEscapes`). The nucleus is documented as the smallest set that reaches top_p; ties at its border
  and the limit of 128 tokens make it larger (`Nucleus.NucleusSmallestIff`, `Nucleus.TieKeepsBoth`,
  `Nucleus.LimitKeepsAll`).

## Model

| member | source | states |
|---|---|---|
| Pmm.MasksAreShifts | kernel/pmm.c:24-26 | the mask spelling of the bit helpers is the C shift-and-mask, for every byte and bit |
| Pmm.SetBitAt | kernel/pmm.c:24-26 | setting a bit changes that bit and no other |
| Pmm.ClearBitAt | kernel/pmm.c:24-26 | clearing a bit changes that bit and no other |
| Pmm.StaysOut | kernel/pmm.c:110-183 | over every run of allocator calls a frame that left the free set stays out until it is released |
| Pmm.NoDoubleHandout | kernel/pmm.c:138-183 | in no run is a frame handed out twice without a release in between |
| Pmm.CountExactIffDisjoint | kernel/pmm.c:69-91 | the boot loop counts exactly the covered frames if and only if the available ranges do not overlap |
| Pmm.CountedTwice | kernel/pmm.c:69-91 | a memory map that reports one 16 MB range twice: its 4096 frames are counted as 8192 |
| Pmm.DisjointStep | kernel/pmm.c:69-91 | disjointness of a memory map is disjointness of its prefix plus the last range |
| Pmm.WholeFrames | kernel/pmm.c:78-85 | a usable entry covers exactly the frames below 4 GB that lie in it as a whole |
| Pmm.CoveredIff | kernel/pmm.c:69-91 | a frame is covered exactly when an entry covers it, and total_frames is one past the highest covered frame |
| Pmm.FrameBitmap.constructor | kernel/pmm.c:14-22 | before the memory map is read the bitmap is zero, so every frame counts as free while the counter stands at 0, MAX_FRAMES short; no frame is scanned |
| Pmm.FrameBitmap.CounterIff | kernel/pmm.c:14-26 | the counter equals the number of free frames exactly when it carries no excess; an excess that takes it below zero wraps it modulo 2^64 |
| Pmm.FrameBitmap.MarkEarly | kernel/pmm.c:110-118 | a frame marked used before the memory map has been read leaves the counter at 2^64 - 1 |
| Pmm.FrameBitmap.Test | kernel/pmm.c:26 | the bit test answers whether the frame is outside the free set |
| Pmm.FrameBitmap.Take | kernel/pmm.c:24 | setting a frame's bit removes it from the free set, and the counter follows |
| Pmm.FrameBitmap.Put | kernel/pmm.c:25 | clearing a frame's bit adds it to the free set, and the counter follows |
| Pmm.FrameBitmap.Init | kernel/pmm.c:51-105 | after boot the free set is the available ranges minus the low megabyte and the kernel image; the counter is exact if and only if the ranges are disjoint |
| Pmm.FrameBitmap.ScanMap | kernel/pmm.c:69-91 | scanning the map frees the union of the available ranges and adds up their lengths |
| Pmm.FrameBitmap.PmmMarkUsed | kernel/pmm.c:110-118 | exactly the frames of the range below the 4 GB limit leave the free set, and the counter follows |
| Pmm.FrameBitmap.PmmMarkFree | kernel/pmm.c:120-128 | exactly the frames of the range below the 4 GB limit enter the free set, and the counter follows |
| Pmm.FrameBitmap.AllocPage | kernel/pmm.c:138-148 | the lowest free frame is taken, or failure is reported exactly when nothing is free |
| Pmm.FrameBitmap.PmmFreePage | kernel/pmm.c:150-156 | one frame is released; the failure value and frames above the memory map are ignored |
| Pmm.FrameBitmap.Recycle | kernel/pmm.c:138-156 | a frame released while none is free is the one the next allocation returns |
| Pmm.UsableNone | kernel/pmm.c:138-148 | no frame can be allocated exactly when the count of usable frames, those in [1, total_frames), is 0 |
| Pmm.UsableTaken | kernel/pmm.c:138-148 | taking a free frame leaves one usable frame less |
| Pmm.FrameBitmap.FindRun | kernel/pmm.c:162-183 | the scan finds the lowest-addressed free run of the length asked for, or 0 exactly when none exists in [1, total_frames) |
| Pmm.FrameBitmap.AllocContiguous | kernel/pmm.c:162-183 | exactly the frames of the lowest free run are taken; failure changes nothing |
| Vmm.EntryFields | kernel/vmm.c:100-128 | the entry builders give back frame, flags and the present bit under the address mask, for flags in the low 12 bits |
| Vmm.OrIsPlus | kernel/vmm.c:100-128 | on 64-bit words with disjoint bits "or" is addition and masking undoes it |
| Vmm.EntriesAreBits | kernel/vmm.c:100-128 | the table and leaf entries of the model are the words the source builds with & and |, bit by bit, and reading back frame and present bit is its masking |
| Vmm.PageIsQuotient | kernel/vmm.c:42-45 | the four table indices read as one number are bits 12 to 47 of the address |
| Vmm.SamePage | kernel/vmm.c:42-45 | two addresses lie in one page exactly when they meet in one slot of one last-level table |
| Vmm.WalkFollowsTree | kernel/vmm.c:152-166 | the hardware walk over raw memory reaches exactly the tables of the ghost tree |
| Vmm.NoSharedTable | kernel/vmm.c:100-110 | two walks share a table only where they are the same walk: tables are unaliased |
| Vmm.ForeignStore | kernel/vmm.c:85-128 | writing a frame that holds no table keeps the tree and every translation |
| Vmm.HangTree | kernel/vmm.c:100-110 | hanging a zeroed unshared frame below an absent entry keeps the tree |
| Vmm.Hang | kernel/vmm.c:100-110 | hanging an empty table changes no translation |
| Vmm.SetLeafTree | kernel/vmm.c:115-147 | writing a last-level word keeps the tree |
| Vmm.SetLeaf | kernel/vmm.c:115-147 | writing a last-level word changes one page's translation and no other |
| Vmm.RangeIsPagewise | kernel/vmm.c:171-179 | after mapping a range, page i translates to the i-th frame and every page outside the range is as before |
| Vmm.IdentityTouches | kernel/vmm.c:219-229 | identity-mapping n pages needs the root, one table at each upper level and the last-level tables of the range |
| Vmm.IdentityTableCount | kernel/vmm.c:219-229 | that is ceil(n/512) + 2 tables below the root for every 0 < n <= 2^18 |
| Vmm.IdentityPage | kernel/vmm.c:219-229 | under the identity map every address below the limit translates to itself |
| Vmm.AddressSpace.AllocTable | kernel/vmm.c:62-95 | a new table is an empty frame that no table uses and that cannot be handed out again: the lowest free frame, without a free frame the next one of the pool; 0, the machine halts, exactly when no frame is free and the pool of 160 is used up, whether or not the frame allocator runs; it lies under the identity map if and only if a frame below 16384 was free, or without any free frame the next pool frame lies there |
| Vmm.SupplyCovers | kernel/vmm.c:85-128 | when every table created takes one off the supply, all the tables needed are there in the end exactly when the supply covered the missing ones |
| Vmm.LowestIsLow | kernel/vmm.c:85-95 | the lowest free frame lies under the identity map if and only if some free frame does |
| Vmm.AddressSpace.GetOrCreate | kernel/vmm.c:100-110 | the child table is found or created, which fails exactly when it is absent and no frame and no pool page is left; no entry for any address changes and the tables stay a tree |
| Vmm.AddressSpace.PageTable | kernel/vmm.c:115-128 | the three get-or-create steps reach the last table on the path and create exactly the missing tables of that path; they succeed exactly when the free frames and unused pool pages cover those |
| Vmm.AddressSpace.MapPage | kernel/vmm.c:115-128 | the page is mapped exactly when the free frames and unused pool pages cover the missing tables of its path, before and after the frame allocator starts; the stored word is (phys & mask) | flags | 1; every address of the page translates to the frame plus its offset; every other address keeps its entry, flags included, and on failure all do |
| Vmm.AddressSpace.UnmapPage | kernel/vmm.c:133-147 | exactly one page loses its translation |
| Vmm.AddressSpace.VirtToPhys | kernel/vmm.c:152-166 | the result is the translation of the address, or the failure value where there is none |
| Vmm.AddressSpace.MapRange | kernel/vmm.c:171-179 | mapping a range is mapping its pages in order; it succeeds exactly when the free frames and unused pool pages cover the missing tables of all their paths, and then the tables used are exactly those |
| Vmm.AddressSpace.MapMmio | kernel/vmm.c:196-203 | device pages are mapped to themselves, present, writable and uncached (0x13), exactly when the tables they need can be had |
| Vmm.AddressSpace.MapDevice | kernel/vmm.c:196-203 | one device page below 4 GB is mapped whenever three tables can still be had, with entry page * 4096 + 0x13, and no other entry changes |
| Vmm.AddressSpace.VmmInit | kernel/vmm.c:222-237 | initialisation uses exactly 35 tables, all of them among the 160 of the static pool while the frame allocator has not started, so 125 are left, and identity-maps the first 64 MB; nothing else translates |
| Vmm.AddressSpace.BootFrames | kernel/kernel_main.c:155-175 | starting the frame allocator over the running address space marks the image and with it every table used: the tree stays valid and every translation is kept |
| Vmm.AddressSpace.Boot | kernel/kernel_main.c:163-172 | the boot order vmm_init, then pmm_init, from a fresh address space: the tree is valid with the frame allocator running, 35 tables are in use, exactly the first 64 MB translate, to themselves, and the free set is what the memory map leaves |
| Vmm.AddressSpace.BootApic | kernel/apic.c:171-175 | boot, then the two MMIO calls of apic_init: on every memory map 0xFEE00000 and 0xFEC00000 translate to themselves, the first with entry 0xFEE00013, the first 64 MB translate to themselves, and no other address translates |
| Vmm.AddressSpace.HighTable | kernel/vmm.c:85-95 | after booting a machine whose one available frame lies at 64 MB the next table gets that frame, which no address maps |
| Vmm.AddressSpace.ReleaseFrame | kernel/pmm.c:150-156 | releasing any frame outside the address space keeps it valid |
| Vmm.AddressSpace.StillValid | kernel/pmm.c:110-183 | a step of the frame allocator that frees nothing of the address space keeps it valid |
| Vmm.AddressSpace.ReleaseFrames | kernel/pmm.c:120-128 | the same for a range of frames |
| Vmm.AddressSpace.ReserveFrames | kernel/pmm.c:110-118 | marking any range used keeps the address space valid |
| Vmm.AddressSpace.TakeFrame | kernel/pmm.c:138-148 | a frame allocated by another part of the kernel is no table and no pool frame, and the address space stays valid |
| Vmm.AddressSpace.TakeFrames | kernel/pmm.c:162-183 | the same for a contiguous run |
| Vmm.AddressSpace.StoreElsewhere | kernel/vmm.c:85-128 | a store into a frame outside the address space keeps it valid and changes no translation |
| HeapModel.RoundCoversIff | kernel/heap.c:124-128 | the rounded size covers the request if and only if the request is at most 0xFFFFFFF0, because the mask is a 32-bit constant |
| HeapModel.RoundLoses | kernel/heap.c:127 | a request of 4 GB is rounded to 0 |
| HeapModel.RoundIsMask | kernel/heap.c:127 | the rounding is the bitwise "and" with the 32-bit constant 0xFFFFFFF0 |
| HeapModel.OffsetAligned | kernel/heap.c:81-98 | every header and payload address is 16-aligned |
| HeapModel.PayloadsDisjoint | kernel/heap.c:124-149 | payloads are disjoint from each other and from all headers |
| HeapModel.AllocOk | kernel/heap.c:124-149 | allocation keeps the tiling, the alignment and "no two free neighbours" |
| HeapModel.AllocLive | kernel/heap.c:124-149 | allocation adds exactly one live payload |
| HeapModel.AllocGrants | kernel/heap.c:124-149 | allocation in numbers: the first free block of at least n bytes is taken, whole with fewer than n + 48 bytes, otherwise cut to n bytes with the rest less 32 as a free block right behind it |
| HeapModel.GrantBounds | kernel/heap.c:130-142 | the block granted has at least n and less than n + 48 bytes; if it is smaller than the block found, the rest less 32 is the free block right behind it |
| HeapModel.GrantUnique | kernel/heap.c:124-149 | a block list and a size determine the block granted, or that none is |
| HeapModel.RequestsSucceed | kernel/heap.c:81-149 | on the initial block a sequence of requests, each answered by a grant where one is possible, succeeds as long as their rounded sizes plus 32 each fit the region, and each block starts where those before it end |
| HeapModel.CoalesceOk | kernel/heap.c:104-119 | one merging pass keeps the region size and the rounding and leaves no two free neighbours |
| HeapModel.CoalesceLive | kernel/heap.c:104-119 | merging touches no live payload |
| HeapModel.CoalesceIdle | kernel/heap.c:104-119 | merging a list without free neighbours changes nothing |
| HeapModel.ReleaseOk | kernel/heap.c:207-215 | freeing keeps the heap invariant |
| HeapModel.ReleaseLive | kernel/heap.c:207-215 | freeing removes exactly one live payload |
| HeapModel.FreeUndoesAlloc | kernel/heap.c:104-215 | releasing the block just allocated restores the exact block list |
| HeapModel.FreeUndoesMalloc | kernel/heap.c:104-215 | the same for the pointer that the allocation returned |
| HeapModel.FailsOnlyWhenFull | kernel/heap.c:124-149 | first fit fails if and only if no maximal stretch of free blocks could hold the rounded request |
| HeapModel.FreeAllRestores | kernel/heap.c:207-215 | freeing all live payloads once each, in any order, gives the single initial block |
| Heap.BitTestIsPow2 | kernel/heap.c:175-180 | the test "a nonzero, a & (a - 1) zero" accepts exactly the powers of two, for every number |
| Heap.AlignIsMask | kernel/heap.c:187-188 | for a power of two, masking with ~(alignment - 1) is rounding down to a multiple |
| Heap.AlignBounds | kernel/heap.c:181-192 | rounding down to the alignment stays within one alignment step |
| Heap.KernelHeap.constructor | kernel/heap.c:81-98 | the heap starts as one free block that fills the region |
| Heap.KernelHeap.Kmalloc | kernel/heap.c:124-149 | the block granted is the first that fits, with fewer than n + 48 bytes, and its payload address is returned; the rest is the free block behind it; 0 and no change exactly when nothing fits; memory holds the headers of the new list and live payload words are unchanged |
| Heap.KernelHeap.TwoRequests | kernel/heap.c:124-149 | two requests on a fresh heap that has room for both return start + 32 and start + 64 + the first size rounded up to 16 |
| Heap.KernelHeap.CarveBlock | kernel/heap.c:131-144 | splitting writes exactly the headers of the carved list |
| Heap.KernelHeap.CoalescePass | kernel/heap.c:104-119 | the in-place merging loop computes the merging pass on the list and writes no state word, stale ones included |
| Heap.KernelHeap.Kfree | kernel/heap.c:207-215 | the guarded free releases exactly the block of the pointer; null, foreign and already free pointers change nothing; afterwards the pointer is refused, and so is every pointer that was refused before, merged-away headers included |
| Heap.KernelHeap.KfreeTwice | kernel/heap.c:207-215 | a second free of a pointer with no store in between does nothing more than the first |
| Heap.KernelHeap.StoreWord | kernel/heap.c:81-98 | a store into a live payload keeps the heap and every other payload |
| Heap.KernelHeap.KmallocAligned | kernel/heap.c:175-194 | for every power-of-two alignment the aligned payload and the stored back pointer lie inside the raw block; other alignments are refused |
| Heap.KernelHeap.PlaceAligned | kernel/heap.c:181-193 | the aligned address leaves room for the back pointer below and the request above |
| Heap.KernelHeap.KfreeAligned | kernel/heap.c:196-202 | exactly the raw block behind the back pointer is released |
| Heap.KernelHeap.CopyPayload | kernel/heap.c:59-65 | the copy reproduces the old payload and touches no other one |
| Heap.KernelHeap.Krealloc | kernel/heap.c:220-236 | in place, failed, freed or moved as the source says; a move keeps all old payload words and touches no other live payload |
| SchedModel.SwitchKeepsSafe | kernel/sched.c:167-196 | a switch leaves every live task in exactly one place and a READY-made-RUNNING task on the CPU; the "next == curr" branch is never taken |
| SchedModel.StepKeepsSafe | kernel/sched.c:201-272 | tick, yield, sleep, exit, add and create keep every live task in exactly one of current, ready ring and sleep list with the matching state |
| SchedModel.RunIsSafe | kernel/sched.c:35-272 | every state of every run is safe |
| SchedModel.ClaimIff | kernel/task.c:81-92 | overwriting a slot with a new task keeps the scheduler safe and loses no live task if and only if the slot is still DEAD |
| SchedModel.DeadStays | kernel/task.c:53-101 | every event leaves a DEAD slot DEAD, except a creation that takes it |
| SchedModel.StillDead | kernel/task.c:53-101 | along every run the slot found by the search is still DEAD at the claim unless another creation has taken it |
| SchedModel.SameSlotTwice | kernel/task.c:53-101 | from every safe state with a free slot, two creations that search before either claims take the same slot: the first task is lost, and adding both puts the slot into the ready queue twice |
| SchedModel.StepBringsCloser | kernel/sched.c:167-272 | every event dispatches a waiting task or brings it no further away, and a tick brings it one tick closer |
| SchedModel.BoundedDispatch | kernel/sched.c:45-61 | a task at index k with q ticks of the quantum left runs within 10k + max(q, 1) ticks of any run |
| SchedModel.AddedRuns | kernel/sched.c:150-215 | a task added behind k others, with q ticks of the quantum left, runs within 10k + max(q, 1) ticks of any run |
| SchedModel.StepAndSleeper | kernel/sched.c:93-115 | only a tick that has reached the wake time takes a sleeper off the sleep list, and then it runs or is in the ready queue |
| SchedModel.TickAndSleeper | kernel/sched.c:100-115 | a tick wakes a sleeper exactly when its wake time has come; the task woken runs or is in the ready queue |
| SchedModel.SleepsUntilWake | kernel/sched.c:231-253 | along every run a sleeper sleeps through exactly the ticks before its wake time |
| SchedModel.SleepLasts | kernel/sched.c:231-253 | along every run that starts with sched_sleep(ms) the calling task sleeps while fewer than max(ms, 1) ticks have passed, and leaves the sleep list at exactly that tick |
| SchedModel.YieldDispatches | kernel/sched.c:220-226 | a yield with a ready task dispatches the head of the ready queue and puts the caller at its tail |
| SchedModel.DispatchSetsQuantum | kernel/sched.c:186-196 | every dispatch gives the task a quantum of 10 |
| SchedModel.SliceLasts | kernel/sched.c:186-215 | a task dispatched by the first event of a run, unless it gives up the processor, keeps it for 10 ticks and loses it at the tenth (the idle task may stay) |
| SchedModel.StepAlive | kernel/sched.c:150-272 | no event loses or revives a task: it is in current, ready or sleeping afterwards exactly when it was before and did not exit, or was just added |
| SchedModel.ExitKills | kernel/sched.c:258-272 | the task that exits is DEAD and in no queue |
| SchedModel.StepCharges | kernel/sched.c:201-215 | a tick is charged to the task that was running and to no other |
| Sched.PushExtendsRing | kernel/sched.c:45-61 | the pointer writes of the push extend the ring at its tail |
| Sched.RemoveShrinksRing | kernel/sched.c:64-78 | the pointer writes of the removal leave a ring without its head |
| Sched.DropFromChain | kernel/sched.c:100-115 | writing through the pointer-to-pointer drops one sleeper from the list |
| Sched.Scheduler.constructor | kernel/sched.c:120-145 | after boot the boot task runs and idle is the only ready task |
| Sched.Scheduler.RqPushBack | kernel/sched.c:45-61 | the task becomes the last of the ready ring |
| Sched.Scheduler.RqRemove | kernel/sched.c:64-78 | the head leaves the ready ring |
| Sched.Scheduler.SqPush | kernel/sched.c:93-97 | the task becomes the first of the sleep list |
| Sched.Scheduler.SqWakeDue | kernel/sched.c:100-115 | exactly the due sleepers move, in list order, to the tail of the ready ring |
| Sched.Scheduler.DoSwitch | kernel/sched.c:167-196 | the pointer code carries out the abstract switch |
| Sched.Scheduler.SchedTick | kernel/sched.c:201-215 | the pointer code carries out the abstract tick |
| Sched.Scheduler.SchedYield | kernel/sched.c:220-226 | the pointer code carries out the abstract yield |
| Sched.Scheduler.SchedSleep | kernel/sched.c:231-253 | the pointer code carries out the abstract sleep |
| Sched.Scheduler.SchedExit | kernel/sched.c:258-272 | the pointer code carries out the abstract exit |
| Sched.Scheduler.SchedAdd | kernel/sched.c:150-160 | the pointer code carries out the abstract add |
| Sched.Scheduler.TaskCreate | kernel/task.c:53-101 | without interruption: the first dead slot after slot 0 is reused with a new pid; failures change nothing |
| Sched.Scheduler.ClaimSlot | kernel/task.c:81-92 | the claim of a dead slot on the linked structures: a new task outside all queues |
| Waiters.RegisterAdds | kernel/sync.c:115-120 | registration adds the pid once while there is room and keeps the array duplicate-free, within 16 and zero past its count |
| Waiters.UnregisterRemoves | kernel/sync.c:128-138 | removal takes out exactly the pid |
| Waiters.WaiterList.Clear | kernel/sync.c:87-94 | initialisation empties the array |
| Waiters.WaiterList.Add | kernel/sync.c:115-120 | the array code registers |
| Waiters.WaiterList.Remove | kernel/sync.c:128-138 | the array code removes |
| Exclusion.ExclusiveStays | kernel/sync.c:35-44 | a lock word stays exact when one task moves respecting it |
| Mutex.StepEffect | kernel/sync.c:96-148 | each careful step moves one task, respects both lock words and writes owner_pid only inside the lock |
| Mutex.StepExclusive | kernel/sync.c:96-148 | each careful step keeps at most one task inside the lock and inside the guard |
| Mutex.StepOwner | kernel/sync.c:96-148 | each careful step keeps "a nonzero owner_pid is the holder's pid" |
| Mutex.StepWaiting | kernel/sync.c:105-139 | each careful step keeps the waiter array equal to the registered slow-path tasks |
| Mutex.StepInvIff | kernel/sync.c:96-148 | a step keeps the whole invariant if and only if it is careful: every step of the protocol is, a stray unlock's first store is while owner_pid is 0, its second while the lock word is clear |
| Mutex.RunInv | kernel/sync.c:87-148 | every state of every interleaving of any number of tasks satisfies the invariant, stray unlocks included as long as they are careful |
| Mutex.RunInvIff | kernel/sync.c:87-148 | a run, with any number of stray unlocks, keeps the invariant if and only if each of their stores is careful |
| Mutex.HoldersAreCareful | kernel/sync.c:141-148 | runs in which only holders unlock are careful |
| Mutex.MutualExclusion | kernel/sync.c:96-148 | in every careful interleaving at most one task holds the mutex, and owner_pid is its pid |
| Mutex.CallsAlone | kernel/sync.c:96-148 | uninterrupted, mutex_lock and mutex_try_lock on a free mutex take it and record the pid, a try on a held one changes nothing, and the holder's unlock clears both words |
| Mutex.SlowLockAlone | kernel/sync.c:105-124 | uninterrupted, mutex_lock on a held mutex registers the task, if there is room, and spins outside the guard |
| Mutex.SpinAlone | kernel/sync.c:124-139 | uninterrupted, a spinning task that finds the mutex free holds it with its pid in owner_pid and is no longer a waiter |
| Mutex.StrayIff | kernel/sync.c:141-148 | the first store of a stray unlock keeps the invariant if and only if owner_pid is 0, the second if and only if the lock word is clear |
| Mutex.StrayUnlockBreaksExclusion | kernel/sync.c:141-148 | in every state that satisfies the invariant, with one task holding the mutex and another one outside, the two stores of a stray unlock and two more steps lead to two holders |
| Mutex.FreeAtCallIsNotEnough | kernel/sync.c:141-148 | a stray unlock called while the mutex is free leads to two holders too, when another task takes the mutex between its stores |
| Mutex.HolderIsReachable | kernel/sync.c:96-103 | a run leads to a state with one holder and one task outside |
| Mutex.TwoHoldersReachable | kernel/sync.c:96-148 | a run of six steps from the initial state, which begins with a stray unlock of the free mutex, ends with two holders |
| Semaphore.StepEffect | kernel/sync.c:162-217 | each step changes count exactly by the post it completes or the wait it completes, told from where the task was and is, and respects the guard |
| Semaphore.StepInv | kernel/sync.c:162-217 | each step keeps the invariant, waiter array included |
| Semaphore.RunInv | kernel/sync.c:154-217 | in every interleaving count is the initial value plus the posts less the waits and successful tries completed, counted from the tasks' program counters, and never negative below a non-negative start |
| Semaphore.NeverOverdrawn | kernel/sync.c:154-217 | from a non-negative start, never more waits have completed than there were units and posts |
| Semaphore.LookDecides | kernel/sync.c:162-209 | a task that looks at count under the guard gets through exactly when it is positive; sem_trywait reports which |
| Semaphore.CallsAlone | kernel/sync.c:162-217 | uninterrupted, a wait or try on a positive count takes one unit, a try on none changes nothing, and a post adds one |
| Semaphore.RetryAlone | kernel/sync.c:192-209 | uninterrupted, a spinning task that finds a positive count takes one unit, is no longer a waiter and returns |
| FatModel.LowestRun | kernel/fat32.c:374-408 | the result is the lowest free run of the length asked for, or 0 exactly when there is none |
| FatModel.LinkIsChain | kernel/fat32.c:390-400 | linking a run makes it a whole chain |
| FatModel.Followed | kernel/fat32.c:163-179 | the numbers followed as clusters are 2 to 0x0FFFFFF7; 0x0FFFFFF8 and above end a chain |
| FatModel.FreesExactlyReachable | kernel/fat32.c:417-430 | freeing from a cluster clears exactly the entries reachable from it, cycles included, on every table where following the links from there stays on the volume |
| FatModel.ChainOnVolume | kernel/fat32.c:417-430 | a chain ended by an end mark never leads off the volume, whatever the rest of the table holds |
| FatModel.FreeUndoesAlloc | kernel/fat32.c:374-430 | freeing the chain just allocated restores the 28-bit table |
| FatFiles.WriteKeeps | kernel/fat32.c:452-484 | writing touches only clusters of the chain |
| FatFiles.WritesAll | kernel/fat32.c:452-484 | the number of bytes written is the smaller of the request and what the chain holds |
| FatFiles.WrittenBytes | kernel/fat32.c:452-484 | each cluster of a written chain holds its part of the buffer byte by byte, then zeros up to its end |
| FatFiles.ReadBack | kernel/fat32.c:228-253 | reading back a written chain gives exactly the bytes written, whatever the rest of the table holds |
| FatFiles.ReadLength | kernel/fat32.c:228-253 | reading gives the smaller of the bytes asked for and what the chain holds |
| FatFiles.ReadSame | kernel/fat32.c:228-253 | reading depends only on the chain's own clusters and links |
| FatFiles.ReadZeros | kernel/fat32.c:442-449 | cleared clusters read as zeros |
| FatCreate.NeededIsEnough | kernel/fat32.c:494-496 | the 32-bit count of clusters is enough for the file if and only if size + cluster_bytes - 1 stays below 2^32; otherwise one cluster is allocated |
| FatCreate.NeededIsLeast | kernel/fat32.c:494-496 | where the count does not wrap it is the least number, at least 1, of clusters that hold the file |
| FatDirectory.NewEntryReads | kernel/fat32.c:529-538 | a new entry carries its cluster and size, is not vacant, and matches exactly its upper-cased name |
| FatDirectory.EntryLayout | kernel/fat32.c:529-538 | the 32 bytes of a new entry: name, attribute 0x20, the halves of the cluster number at 20 and 26, the size at 28, zeros elsewhere |
| FatDirectory.MatchesIff | kernel/fat32.c:194-205 | an entry matches exactly when it is not deleted, its attribute is not 0x0F and has bit 3 clear, and its name in capitals is the name |
| FatDirectory.FindAfterFill | kernel/fat32.c:182-225 | after filling the first vacant slot a lookup gives an earlier match, else the new entry, else what lies behind |
| FatDirectory.FindPastFree | kernel/fat32.c:182-225 | where a lookup goes at the first vacant slot: it stops at an end marker and passes a deleted entry |
| FatDirectory.OthersStayIff | kernel/fat32.c:526-545 | filling the first vacant slot leaves another name's lookup alone if and only if that slot is not an end marker in front of a stale entry of the name |
| FatDirectory.StaleEntry | kernel/fat32.c:526-545 | such a directory: the other name was missing and is found after the slot is filled |
| FatDirectory.CleanTailHides | kernel/fat32.c:191-192 | a directory whose entries behind the end marker are empty uncovers no name |
| FatDirectory.FindAfterExtend | kernel/fat32.c:552-579 | after extending a full directory the old entries are found first, then the new one |
| FatCreate.StoredReads | kernel/fat32.c:503-514 | the allocated run reads back as the file's content, zeros for a blank file, if and only if the count has not wrapped |
| FatCreate.EntryKeepsDir | kernel/fat32.c:516-579 | the directory stays a whole chain, with its slot filled or one cluster longer |
| FatCreate.FirstOfBytes | kernel/fat32.c:552-579 | a new directory cluster holds the entry and zeros |
| FatCreate.CreatedIsFound | kernel/fat32.c:182-225 | after a successful creation the name is found with the file's first cluster and size, unless an earlier entry has that name, which is then still found |
| FatCreate.CreatedReads | kernel/fat32.c:228-253 | reading that cluster for that size gives exactly the content if and only if the count has not wrapped, and otherwise one cluster of bytes |
| FatCreate.CreateFindRead | kernel/fat32.c:182-253 | for every size below 2^32, after a successful creation with no earlier entry of that name the lookup gives the file's cluster and size, and reading what it found gives exactly the content if and only if the count has not wrapped; the path that extends a full directory included |
| FatCreate.FourGigabytes | kernel/fat32.c:494-496 | a blank file of 2^32 - 1 bytes on clusters of 512: one cluster instead of 8388608, success, and 512 bytes read |
| FatCreate.CreateFailsIff | kernel/fat32.c:487-579 | told from the volume before the call: creation fails if and only if there is no free run, or there is data whose count wraps, or the directory is full and every free cluster lies in the file's run |
| FatCreate.LeaksIff | kernel/fat32.c:487-560 | and it leaves clusters allocated without an entry if and only if there is a free run and one of the other two holds |
| FatCreate.CreatedKeepsRest | kernel/fat32.c:487-579 | every cluster, in use or free, that is not newly allocated keeps its table entry and bytes, except the directory's own slot or its last link |
| FatCreate.CreatedAndOthers | kernel/fat32.c:487-579 | every other name is found as before if and only if the end marker does not hide a stale entry of that name |
| FatCreate.FailureLeaks | kernel/fat32.c:500-560 | what a failed creation leaves: the volume unchanged if and only if no run was free, otherwise all clusters of the file's run allocated |
| FatCreate.FailureHappens | kernel/fat32.c:500-560 | such a volume: the last free cluster goes to the file, the directory is full, and the cluster stays allocated |
| FatDisk.EntryWrite | kernel/fat32.c:348-371 | on the sectors of the disk, writing an entry changes that 28-bit entry, no other entry and no cluster, and all table copies stay equal |
| FatDisk.Addresses | kernel/fat32.c:329-371 | the 4-byte entries of a table copy lie one behind the other, the copies one table apart, the clusters one behind the other from number 2 on |
| FatDisk.UpperBitsKept | kernel/fat32.c:359-360 | the upper four bits of a stored word survive a write if and only if they are clear |
| FatDisk.UpperBitsLost | kernel/fat32.c:359-360 | on every volume whose table sector holds all ones they are lost |
| FatDisk.ClusterWrite | kernel/fat32.c:433-439 | on the sectors of the disk, writing a cluster changes that cluster, no other cluster and no table entry |
| Fat32.Driver.ReadFatEntry | kernel/fat32.c:329-345 | the low 28 bits at the cluster's place, which on the volume is its table entry; the bad mark for an unmounted volume, a number below 2 or a sector past the disk |
| Fat32.Driver.NextCluster | kernel/fat32.c:163-179 | the low 28 bits at the cluster's place, which on the volume is its table entry; 0 when not mounted or past the disk |
| Fat32.Driver.WriteFatEntry | kernel/fat32.c:348-371 | the entry is set in the table view and in every copy; refused when not mounted or below 2 |
| Fat32.Driver.ReadCluster | kernel/fat32.c:154-160 | the buffer holds the cluster; -1 and no change when not mounted or below 2 |
| Fat32.Driver.WriteCluster | kernel/fat32.c:433-439 | the cluster holds the buffer and nothing else changes; -1 and no change when not mounted or below 2 |
| Fat32.Driver.ClearCluster | kernel/fat32.c:442-449 | cluster and buffer are zero; the disk is unchanged when not mounted or below 2 |
| Fat32.Driver.AllocContiguous | kernel/fat32.c:374-408 | the scan finds the lowest run and links it as a chain, or reports 0 and changes nothing |
| Fat32.Driver.FreeChain | kernel/fat32.c:417-430 | the loop ends, on cyclic chains too, and frees as the model says |
| Fat32.Driver.WriteFile | kernel/fat32.c:452-484 | clusters after the loop, padding included, and the count returned as a 32-bit int |
| Fat32.Driver.ReadFile | kernel/fat32.c:228-253 | the bytes read and their number as a 32-bit int; the copy goes past the caller's buffer if and only if more bytes are to be read than the last cluster boundary below 2^32 |
| Fat32.BoundaryWraps | kernel/fat32.c:240-242 | the 32-bit sum that clips the last copy wraps exactly at that boundary |
| Fat32.ReadOverruns | kernel/fat32.c:240-247 | a volume of 65536 clusters of 64 KB in one chain, read with the largest size |
| Fat32.Driver.FindFile | kernel/fat32.c:182-225 | the loops return cluster and size of the first match before the end marker, or -1, whenever the lookup ends on the volume |
| Fat32.EndsIffTrail | kernel/fat32.c:189-222 | the lookup ends, without leaving the volume, if and only if a finite trail of linked clusters leads to a mark that is no cluster number, the name or the end marker |
| Fat32.NeverEnds | kernel/fat32.c:189-222 | a full directory cluster linked to itself: the lookup of a name it does not hold does not end after any number of rounds |
| Fat32.ChainIsTrail | kernel/fat32.c:189-222 | every whole chain is such a trail |
| Fat32.Driver.PlaceEntry | kernel/fat32.c:516-579 | the entry goes to the first vacant slot or to a new last cluster |
| Fat32.Driver.Extend | kernel/fat32.c:552-579 | the directory grows by a cleared cluster that starts with the entry |
| Fat32.Driver.StoreFile | kernel/fat32.c:503-514 | the allocated clusters are written or cleared; success unless data is given whose count wraps |
| Fat32.Driver.CreateFile | kernel/fat32.c:487-579 | the volume after creation, the result and the first cluster, on success and on each failure |
| Fat32.Driver.Fetch | kernel/fat32.c:182-253 | over the sectors: look a name up and read what was found |
| Fat32.Driver.StoreAndFetch | kernel/fat32.c:182-579 | over the sectors: create a file, look it up and read it; the bytes are the content if and only if the count has not wrapped, and the result is their number, -1 for an empty file |
| MergeTable.InsertKeeps | kernel/llm/tokenizer.c:270-284 | filling the first empty slot of the probe sequence keeps every rule findable in rank order |
| MergeTable.FirstHit | kernel/llm/tokenizer.c:162-173 | the first matching slot of a probe sequence holds the lowest rank; an empty slot means there is no rule |
| MergeTable.NoHit | kernel/llm/tokenizer.c:162-173 | a full round without a match means there is no rule |
| MergeTable.Table.constructor | kernel/llm/tokenizer.c:262-284 | the built table holds all rules, the first 65536 of them when there are more |
| MergeTable.DropsNothingIff | kernel/llm/tokenizer.c:262-284 | dropping the rules past the 65536th changes no lookup if and only if each dropped rule's pair occurs among the first 65536 |
| MergeTable.RuleDropped | kernel/llm/tokenizer.c:262-284 | a list of 65537 rules for different pairs whose last rule is not found |
| MergeTable.Table.Insert | kernel/llm/tokenizer.c:270-284 | one more rule is held, unless the table is full |
| MergeTable.Table.Lookup | kernel/llm/tokenizer.c:162-173 | the lookup agrees with a linear search of the rules: the lowest rank of the pair, or EMPTY exactly when there is none |
| Bpe.BestIsUnique | kernel/llm/tokenizer.c:498-512 | at most one pair is leftmost among the lowest-ranked |
| Bpe.SomePairHasBest | kernel/llm/tokenizer.c:498-512 | a best pair exists exactly when some adjacent pair can be merged |
| Bpe.MergeAllStep | kernel/llm/tokenizer.c:494-526 | merging the best pair is one step of the rule |
| Bpe.MergeAllFinishes | kernel/llm/tokenizer.c:494-526 | the rule ends with no mergeable adjacent pair |
| Bpe.MergeAllIsRounds | kernel/llm/tokenizer.c:494-527 | the merge loop is a chain of rounds, each of which replaces, for the first rule that has a pair, its leftmost pair by its result, until no rule has one |
| Bpe.DropsNoMerge | kernel/llm/tokenizer.c:494-527 | where every dropped rule's pair occurs among the kept ones, the merge loop gives what the whole list gives |
| Bpe.UnlinkKeeps | kernel/llm/tokenizer.c:515-525 | unlinking a node leaves a well-linked list without it |
| Bpe.NodeList.Fill | kernel/llm/tokenizer.c:483-488 | the node list holds the initial tokens in order |
| Bpe.NodeList.FindBest | kernel/llm/tokenizer.c:498-512 | the scan finds the leftmost lowest-ranked pair, or none exactly when none can be merged |
| Bpe.NodeList.Apply | kernel/llm/tokenizer.c:515-525 | the list holds the sequence after the merge |
| Bpe.NodeList.MergeLoop | kernel/llm/tokenizer.c:494-527 | the linked-node loop computes the rule "merge the leftmost lowest-ranked pair until none applies" in at most n - 1 merges |
| TokenText.FallbackReadsBack | kernel/llm/tokenizer.c:367-384 | the decoder reads back every byte that the fallback spelling encodes |
| TokenText.FallbackSpells | kernel/llm/tokenizer.c:330-384 | the fallback of 0xAB is "<0xAB>", and "<0xab>" is read as the same byte |
| TokenText.PreTokFits | kernel/llm/tokenizer.c:397-458 | a text of n bytes needs at most n + 1 nodes, so the static buffers suffice |
| TokenText.PreTokRender | kernel/llm/tokenizer.c:397-458 | pre-tokens decode to the text with each run of whitespace before a word replaced by one space |
| TokenText.PreTokFirst | kernel/llm/tokenizer.c:408-438 | text that is not blank starts with a token that begins with the marker |
| TokenText.SpacedIsWords | kernel/llm/tokenizer.c:397-458 | that spaced text is the words with one space before each |
| TokenText.FourWords | kernel/llm/tokenizer.c:397-412 | blank, tab, line feed and carriage return each end a word |
| TokenText.MergedPiece | kernel/llm/tokenizer.c:600-625 | a merged token decodes to its parts in order where no marker appears between them |
| TokenText.MergeKeepsRender | kernel/llm/tokenizer.c:515-525 | one merge keeps what the sequence decodes to |
| TokenText.MergeAllKeeps | kernel/llm/tokenizer.c:494-527 | the whole loop keeps it, and the marker at the start |
| TokenText.WrapDecoded | kernel/llm/tokenizer.c:576-634 | behind a begin token everything keeps its space; without one the first loses it; an end token adds nothing |
| TokenText.BlankIsInvalid | kernel/llm/tokenizer.c:479-480 | the encoder refuses exactly the blank texts |
| TokenText.RoundTrip | kernel/llm/tokenizer.c:463-634 | for every marker-free, non-blank text and every suitable vocabulary, decoding the encoding gives its words joined by single spaces, with a leading space exactly when a begin token is added |
| TokenText.EncodeIs | kernel/llm/tokenizer.c:463-547 | for every text the status and ids of the encoder, told without its functions: for text that is not blank the pre-tokens after rounds of merging until no rule has a pair, between the begin and end tokens |
| TokenText.EncodesAb | kernel/llm/tokenizer.c:463-547 | with the vocabulary above "ab" gives the begin token, the marker and the merged token |
| TokenText.EncodesAab | kernel/llm/tokenizer.c:463-547 | "aab": the earlier rule for "ab" wins over the leftmost pair |
| TokenText.EncodesAaa | kernel/llm/tokenizer.c:463-547 | "aaa": of equal pairs the leftmost is merged |
| TokenText.OneCharacter | kernel/llm/tokenizer.c:397-458 | a text of one character: its token with the marker, else the marker and its token, else, for a single byte, the marker and its fallback |
| TokenText.CharacterLength | kernel/llm/tokenizer.c:120-126 | the length read off a lead byte is the length of the character that UTF-8 (section 3 of RFC 3629) encodes, for every code point; other bytes stand alone |
| TokenText.FitsIff | kernel/llm/tokenizer.c:470-474 | the ids stored fit the caller's buffer if and only if it is not the case that the text is empty, a begin token is added and the buffer has no room |
| TokenText.EmptyTextOverruns | kernel/llm/tokenizer.c:470-474 | such a call: one id is stored into a buffer for none |
| TokenText.ByteVocabulary | kernel/llm/tokenizer.c:367-384 | a vocabulary of byte tokens and four ordinary ones, with two merge rules, meets the assumptions, so they are satisfiable |
| Tokenizer.BuiltConcatenates | kernel/llm/tokenizer.c:237-255 | a built merge rule concatenates exactly when the concatenation is in the vocabulary |
| Tokenizer.EncodesWithAllRules | kernel/llm/tokenizer.c:463-547 | there the encoding is that of the whole rule list |
| Tokenizer.FindToken | kernel/llm/tokenizer.c:313-324 | the first vocabulary entry equal to the string, or the unknown token |
| Tokenizer.PreTokenize | kernel/llm/tokenizer.c:397-458 | the buffer holds the pre-tokens and their number is returned; 0 when they do not fit |
| Tokenizer.Collect | kernel/llm/tokenizer.c:535-539 | the ids along the list, or overflow exactly when they do not fit |
| Tokenizer.Append | kernel/llm/tokenizer.c:73-80 | the bytes are appended exactly when they and a closing NUL fit |
| Tokenizer.EmitToken | kernel/llm/tokenizer.c:585-629 | one token is decoded behind what is already there |
| Tokenizer.Decode | kernel/llm/tokenizer.c:576-634 | the buffer holds the decoded bytes and a NUL exactly when they fit, otherwise overflow and length 0; the NUL goes past the buffer if and only if the buffer has no room at all and the ids decode to nothing |
| TokenText.DecodesToNothing | kernel/llm/tokenizer.c:576-634 | ids decode to nothing if and only if each of them does |
| TokenText.NothingDecoded | kernel/llm/tokenizer.c:576-634 | no id at all and a lone begin token decode to nothing |
| Tokenizer.Tokenizer.Build | kernel/llm/tokenizer.c:192-295 | vocabulary cut to 63 bytes an entry, rules with looked-up results, and a merge table that holds them; refused for an empty or too large vocabulary; reads past the vocabulary if and only if a merge pair does not name two entries |
| Tokenizer.Tokenizer.EncodeText | kernel/llm/tokenizer.c:463-547 | the outcome and ids for empty, blank, too long, overflowing and ordinary texts: optional begin token, the pre-tokens after rounds of merging until no rule has a pair, optional end token; an empty text stores its begin token without a look at the buffer |
| Initrd.BuildImage | scripts/mkinitrd.py:37-72 | the loops write header, entries and data as the format says; no image for no files |
| Initrd.MountableIff | kernel/initrd.c:29-60 | an image is mounted exactly when it starts with "SDRA" and version 1 and has room for 16 bytes of header and 64 bytes for each of at most 128 entries |
| Initrd.NameKept | scripts/mkinitrd.py:31-34 | a name is read back unchanged if and only if it has at most 47 bytes and no NUL |
| Initrd.DataIsWhereTold | scripts/mkinitrd.py:31-68 | entry i stands at 16 + 64 i and tells at 48 and 52 where its data starts and how long it is; the data lies there, behind all entries, in file order |
| Initrd.FileReads | kernel/initrd.c:62-79 | the parser finds each file's stored name and exactly its bytes where the writer put them |
| Initrd.ParsedImage | kernel/initrd.c:45-79 | mounting stores every file up to the 128th under its stored name, cut at 47 bytes |
| Initrd.RoundTrip | scripts/mkinitrd.py:31-68 | for at most 128 files with distinct NUL-free names of at most 47 bytes, every name is found with exactly its bytes and no other name is found |
| Initrd.Ramdisk.Init | kernel/initrd.c:29-94 | refuses exactly the malformed images, appends the files of the others, and overruns the table exactly when the files so far and the new ones are more than 128; the state in each case |
| Initrd.Ramdisk.FindFile | kernel/initrd.c:96-103 | the first file of that name, once mounted |
| Initrd.FirstMountWins | kernel/initrd.c:62-79 | over two successive mounts: a name found after the first gives the same file after the second, any other name gives the second image's first file of that name |
| Initrd.SecondMountOverruns | kernel/initrd.c:45-79 | two written images mounted one after the other overrun the table if and only if they hold more than 128 files together, each counted up to 128 |
| TopK.InsertKeepsOrder | kernel/llm/model.c:290-306 | adding an index keeps the stable descending order |
| TopK.OrderIsOrder | kernel/llm/model.c:283-307 | the reference order lists every index once, by descending score, ties by index |
| TopK.InsertPadded | kernel/llm/model.c:292-298 | the code's test for skipping a score is exact, and insertion is a shift of the first k places |
| TopK.Place | kernel/llm/model.c:300-305 | the shifting loop inserts at the stable position |
| TopK.TopkSort | kernel/llm/model.c:283-307 | the first min(k, n) indices of the stable descending order, then sentinels |
| Sampling.NormalIsDistribution | kernel/llm/model.c:332-338 | normalised weights sum to one and no weight appears or vanishes |
| Sampling.NormalRatio | kernel/llm/model.c:332-338 | normalising keeps the ratios of the weights |
| Sampling.ProbsRatio | kernel/llm/model.c:323-338 | the probabilities of any two tokens are in the ratio of the exponentials of their logits' distances from the largest, divided by the temperature |
| Sampling.TopKKeepsWeights | kernel/llm/model.c:340-359 | the top-k filter leaves weights only on the k best and at least one of them |
| Sampling.TopKKeepsIff | kernel/llm/model.c:340-359 | a token keeps a weight exactly when it had one and is among the first min(k, 128); with k = 0 or k at least the vocabulary nothing changes |
| Sampling.TopIsBest | kernel/llm/model.c:340-359 | a token among the first k outweighs every other one, or weighs as much and has a lower number |
| Sampling.TopKRatio | kernel/llm/model.c:340-359 | the top-k filter keeps the ratios of the weights it leaves |
| Sampling.TopPKeepsWeights | kernel/llm/model.c:362-387 | the nucleus filter adds no token, leaves at least one and gives a distribution |
| Sampling.TopPRatio | kernel/llm/model.c:362-387 | the nucleus filter keeps the ratios of the weights it leaves |
| Sampling.PickHasWeight | kernel/llm/model.c:394-401 | a positive draw picks the token whose slice of the cumulated weights holds it, and that token has a weight |
| Sampling.ZeroPicksFirst | kernel/llm/model.c:394-398 | a draw of zero picks token 0 whatever its weight |
| Sampling.SampleInTopK | kernel/llm/model.c:309-402 | with top-k active the result is one of the k best if and only if the draw is positive or token 0 is one of them |
| Sampling.ZeroDrawEscapes | kernel/llm/model.c:309-402 | two logits, top-k 1 and a draw of zero: token 0 is returned although only token 1 is kept |
| Sampling.SampleSlice | kernel/llm/model.c:309-402 | the filtered weights sum to one, and a token is drawn by exactly the draws in its slice of the unit interval, so with its filtered probability |
| Nucleus.NucleusSmallestIff | kernel/llm/model.c:271-273 | the nucleus reaches top_p, and is a smallest set that does if and only if it takes all tokens, or at most 128 of them and the next one in descending order weighs less |
| Nucleus.NucleusSurvives | kernel/llm/model.c:362-387 | exactly the tokens of the nucleus keep a weight; a top_p outside (0, 1) changes nothing |
| Nucleus.LeadingIsHeaviest | kernel/llm/model.c:362-387 | no set of tokens weighs more than as many tokens in descending order |
| Nucleus.TieKeepsBoth | kernel/llm/model.c:374-382 | two equal weights and top_p at one half: one token would do, both are kept |
| Nucleus.LimitKeepsAll | kernel/llm/model.c:362-387 | 200 equal weights and top_p at 0.9: 180 tokens would do, all are kept because of the limit of 128 |
| Sampling.Argmax | kernel/llm/model.c:313-321 | temperature 0 gives the first token of the largest logit |
| Sampling.FilterTopK | kernel/llm/model.c:340-359 | the loops compute the top-k filter |
| Sampling.FilterTopP | kernel/llm/model.c:362-387 | the loops compute the nucleus filter |
| Sampling.ModelSample | kernel/llm/model.c:309-402 | the loops compute the sampling function |

## Left out

- Hardware: port I/O, descriptor tables, interrupt controllers, `invlpg`, CR3 loads and the context-switch
  assembly. A context switch is a change of the current task; sector reads and writes always succeed.
- `task_destroy` (kernel/task.c:103-109): it does not dequeue the task, and nothing calls it.
- `fat32_init` and the long-file-name search: the driver starts from a well-formed geometry with equal table
  copies; names are the 11-byte short form.
- `vfs_read_raw`, the shell, windows, applications, tensor operations, model loading and quantisation.
- Machine-word wrap-around of heap request sizes beyond `HeapModel.RoundCoversIff`, pids, tick counters and semaphore counts: they are
  unbounded here, or bounded by a precondition where the original would wrap.
- Floating point: sampling is over real numbers. The approximated exponential and the random draw are parameters;
  the exponential is non-negative, and positive at zero. The first of the two loops over the cumulated weights in
  the nucleus filter (kernel/llm/model.c:365-372) computes nothing that is used and has no counterpart.
- Allocation failures inside `tokenizer_build`; in `task_create` the stack allocation's outcome is a parameter.
- Messages to the screen and the serial port, and statistics.
- Heap.KernelHeap.CopyPayload: copies 8-byte words instead of single bytes; payload sizes are multiples of 16.
- Heap.KernelHeap.KmallocAligned: the enlarged request must be at most 0xFFFFFFF0 bytes, the limit that
  `HeapModel.RoundCoversIff` shows; the same bound applies to `Heap.KernelHeap.Krealloc`.
- Heap.KernelHeap.Kfree: a pointer whose header looks allocated must be a live payload; a forged header is outside
  the model.
- Sched.Scheduler.SchedAdd: the original does not disable interrupts around the queue push; the model takes it as one
  atomic step, as it takes the sections that run with interrupts off.
- Sched.Scheduler.TaskCreate: search and claim without interruption; an interrupted one is a search, a run of other
  events and `Sched.Scheduler.ClaimSlot`, with `SchedModel.ClaimIff` and `SchedModel.StillDead` saying when it is sound.
- Mutex.RunInv: a section between `spin_lock_irqsave` and `spin_unlock_irqrestore` is one step; pids are distinct.
- Fat32.Driver.FindFile: the clusters visited are given as a ghost trail, which `Fat32.EndsIffTrail` shows to exist
  exactly when the lookup ends on the volume. `Fat32.Driver.CreateFile` needs the directory's whole chain, ended by an
  end-of-chain mark.
- Fat32.Driver.FreeChain: following the links from the first cluster must stay on the volume. The driver takes the
  bad-cluster mark 0x0FFFFFF7 for a cluster number, so a chain that runs into one leaves the volume; what the driver
  then reads and writes behind the table is not modelled. The same holds for the clusters that
  `Fat32.Driver.ReadFile` and `Fat32.Driver.WriteFile` visit. Bad marks elsewhere in the table are within the model.
- Fat32.Driver.WriteFatEntry: cluster numbers past the volume, which would patch sectors behind the table.
- Fat32.Driver.ReadFile: returns the bytes as a sequence instead of filling a caller's buffer, and stops in front of
  the copy that would go past it.
- TokenText.RoundTrip: the vocabulary must spell every non-space byte, directly or as `<0xNN>`, and the marker; no
  lookup of a character, byte or marked character may give a special token or one with whitespace inside; merges
  concatenate, have no right part that begins with the marker, and neither use nor make a `<0xNN>` or special token.
- Tokenizer.Tokenizer.EncodeText: returns the ids as a sequence; what is written to the caller's buffer before an
  overflow is reported is not modelled.
- Tokenizer.Tokenizer.Build: stops in front of a read past the vocabulary and reports it.
- Initrd.Ramdisk.Init: stops at the store past the table of 128 and reports it; what that store overwrites is not
  modelled. Names and data are copied values here, pointers into the image there.
- Vmm.AddressSpace.AllocTable: reads and writes physical memory directly, also for a table that the identity map does
  not cover; the page fault of the original is not modelled.
