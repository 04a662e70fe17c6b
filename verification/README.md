# TBS kernel: a verified model

This project models the core of TBS, an i686 hobby kernel, in Dafny 4.11 and proves what its code
keeps. `dafny verify dfyconfig.toml` checks everything. The modules follow the kernel's parts:

| part | modules | what is proved |
|---|---|---|
| frame allocator, paging, heap | `FrameAllocator`, `PageTables`, `BootLayout`, `HeapLayout`, `HeapMemory`, `BlockList`, `HeapSpec`, `Heap`, `MemoryMoves` | the pointer code over raw memory refines operations on a tiling of the heap, which refine an allocator of byte sets; the page tables give every heap page its own unreserved frame, and exactly when the heap's addresses themselves avoid what was reserved at boot |
| scheduler | `Scheduling`, `Scheduler` | the task ring refines a pure tick; bounded waiting and exact sleep times over whole runs |
| terminals | `Keyboard`, `RingBuffer`, `RingProtocol`, `LineEditor`, `LineLaws`, `InputRing`, `Pipeline`, `Tty` | ring safety over every interleaving of writers, reader and interrupt; end to end, over every interleaving of key interrupts, worker and reading task, the reader gets the lines that a pure editor makes of the accepted characters; what each key does to the lines, and that the echo keeps the line on display |
| file system | `FileTree`, `PathLaws`, `TreeGrowth`, `TreeRuns`, `RamFs`, `RamImage`, `FileContents`, `FileIo` | printed paths resolve to their directory in every reachable tree; dot names, slashes and new files resolve as they should, or exactly when; creation disturbs no path; reads give back what writes stored |
| display | `Painter`, `ScreenModel`, `ScreenPage`, `Compositor` | composition shows the topmost window in every cell; the text screen refines a pure machine, which is a window on the page that a text fills |
| numbers | `Numerals`, `Text` | parsing and printing against the mathematical value |

## How the model is built

The heap's memory is one array of 32-bit words, indexed by byte address; the heap touches only addresses
that are multiples of four. A ghost tiling of [HEAP_START, heap_next_virt) into blocks says what memory
means: free blocks are linked, single-page blocks are off the list while they are handed out, and
multi-page blocks stay linked with their used flag set. `HeapMemory.Represents` ties the tiling to the
words, `BlockList.List.Ok` keeps it, and `Heap.KernelHeap.Valid` adds the frames and the page tables.
`Valid` is required by every public method of `KernelHeap` and ensured by each, except `Kfree` of a multi-page
block, so it holds in every run of uninterrupted calls without such a release.

Objects that the kernel updates in place are classes here (`List`, `Frames`, `Tables`, `KernelHeap`,
`Task`, `TaskRing`, `Translator`, `CharRing`, `Terminal`, `Inode`, `FileSystem`, `OpenFile`, `Process`, `TextScreen`), and
each method's new state is tied to a function of the old one; the lemmas are about those functions. 32-bit
wrap-around is explicit (`Words.Add32`), and where it matters a lemma says exactly when the wrapped
arithmetic is right.

What lies outside comes in as parameters: the firmware memory map and linker addresses, the timer
frequency, whether kmalloc could serve `alloc_task` and `sys_open`, the text that other tasks still have
to deliver to a reader, and the picture that `compositor_init` draws.

## Where the code departs from its intent or its comments

The model follows the code.

- A memory-map entry clamped to end at 4 GiB is dropped by `pmm_init`, whose end reads as 0
  (`FrameAllocator.ClampedEntryLost`; `WrapExact` gives the exact condition, and the allocator's
  initialisation is described in the 32-bit sums that it computes).
- `remove_task_from_list` unlinks an exited task from a static table that the ring does not use, so the
  ring keeps it (`Scheduler.TaskRing.RemoveTask`).
- Letting one shift key go ends shifting although the other is still held (`Keyboard.LastShiftDecides`).
- Paging is never switched on: the boot code (src/arch/i686/boot/entry.asm:48-92) fills the directory and the
  tables, but nothing in the sources loads CR3 or sets CR0.PG. What is proved about translation is about what
  the tables say; a heap store at address a reaches frame a / 4096, reserved or not. `BootLayout.HeapClearExact`
  says exactly when such stores avoid everything reserved at boot, and `BootLayout.HeapMayMeetModule` gives a
  boot that the initialisation accepts and whose heap starts in a module.
- `vmm_check_identity_range` from an unaligned start can miss the last page (`PageTables.CheckExact`).
- `kmalloc` has room for the request exactly up to 0xFFFF_EFF8 bytes (`Heap.RequestExact`).
- `kfree` of a multi-page block links it to itself, and a free left neighbour then takes over that link; the
  list is a loop afterwards (`BlockList.List.Kfree`: memory still holds a heap exactly when the block was
  a single-page one), although `src/include/lib/memory.h:36` calls the link valid only while a
  block is free. The kernel's README calls the allocator a bump allocator; the code is first-fit.
- `int_to_str` prints only "-" for the least int, and stores no terminator: atoi gives back what it printed
  only when the caller sees to it that no digit stands behind the text (`Numerals.AtoiInvertsIntText`).
- `write_hex` prints nothing for zero with a negative width (`Numerals.HexPrintersAgree`).
- The compositor swallows an ordinary character that arrives at column 78, because it only wraps
  (src/kernel/modules/compositor.c:265): one in every 78 (`ScreenModel.RunShows`).
- `compositor_clear_screen` puts the cursor on the border row; the next character repairs this only if it
  is a newline (`ScreenModel.AfterClear`).
- `vfs_lookup` walks relative paths from its base as well, although its comment says "absolute paths only".
- `ramfs_create_root` reads the image's header and first bytes before its test for a missing image
  (src/kernel/drivers/ramfs.c:75-94), and reads the inode array after freeing it (ramfs.c:196-197).
- `tty_read_line` stores its terminator at index `maxlen`, so the buffer must be longer than `maxlen`.
- `ramfs_create` accepts a name that is already there; the new file is then not found under it
  (`TreeGrowth.FreshNameExact`).
- `heap_grow` does not join its page with a free block at the heap's end, so two free neighbours can stay
  apart until a release beside them (`HeapLayout.GrowMerged`).
- `sys_create` takes a path with two slashes in a row before its last name, and the file is then not found
  under that path (`PathLaws.CreatedIsFound`).

## Model

| member | source | states |
|---|---|---|
| FrameAllocator.PageLoopExact | src/lib/memory.c:109-114 | a page loop visits exactly the pages that hold a byte of its range, except for one page of an empty unaligned range |
| FrameAllocator.FreesExact | src/lib/memory.c:101-115 | an entry frees a page iff one of its bytes at or above 1 MiB lies in it |
| FrameAllocator.WrapExact | src/lib/memory.c:101-115 | the 32-bit loop frees what the entry says iff the entry's rounded end fits 32 bits |
| FrameAllocator.ClampedEntryLost | src/lib/memory.c:103-110 | a usable entry clamped at 4 GiB frees nothing although it should |
| FrameAllocator.HighestEnd | src/lib/memory.c:54-57 | the maximum over all entries of the end address modulo 2^32 |
| FrameAllocator.UsableExact | src/lib/memory.c:54-115 | in a map whose true ends fit 32 bits the 32-bit sums find exactly the usable pages |
| FrameAllocator.PageCountExact | src/lib/memory.c:68-68 | the page count is the least that reaches the highest end |
| FrameAllocator.BitmapPlaced | src/lib/memory.c:70-81 | the bitmap starts at the first page boundary behind the 256 page tables and has the fewest bytes that hold a bit per page |
| FrameAllocator.Frames.constructor | src/lib/memory.c:48-177 | after initialisation a frame is free iff some entry, in the 32-bit sums of the code, touches it at or above 1 MiB and no kernel, bitmap, table or module range covers it; without wrap-around iff some usable entry truly does |
| FrameAllocator.MaskExact | src/lib/memory.c:34-40 | bit k of a bitmap byte counts 2^k |
| FrameAllocator.Frames.SetBit | src/lib/memory.c:34-36 | exactly one frame becomes used |
| FrameAllocator.Frames.ClearBit | src/lib/memory.c:38-40 | exactly one frame becomes free |
| FrameAllocator.Frames.SetRange | src/lib/memory.c:124-134 | exactly the frames of the range become used |
| FrameAllocator.Frames.ClearRange | src/lib/memory.c:109-114 | exactly the frames of the range become free |
| FrameAllocator.Frames.FreeUsable | src/lib/memory.c:96-115 | from an all-ones bitmap, exactly the frames that the 32-bit sums call usable are free |
| FrameAllocator.Frames.ReserveBoot | src/lib/memory.c:117-173 | exactly the reserved frames are added to the used ones |
| FrameAllocator.Frames.AllocPage | src/lib/memory.c:216-224 | takes the lowest free frame, never a reserved one; 0 iff every frame is in use |
| PageTables.Tables.constructor | src/arch/i686/boot/entry.asm:48-88 | the boot tables translate every address below 1 GiB to itself and none above |
| PageTables.Tables.FillTable | src/arch/i686/boot/entry.asm:63-74 | one table of consecutive present, writable frames; earlier tables unchanged |
| PageTables.Tables.IndexFlat | src/lib/memory.c:14-15 | directory and table index together number the page below 1 GiB |
| PageTables.Tables.MapPage | src/lib/memory.c:233-263 | one table entry changes, and the translation changes on that page only |
| PageTables.Tables.CheckIdentityPage | src/lib/memory.c:286-309 | true iff the address translates to itself |
| PageTables.Tables.CheckIdentityRange | src/lib/memory.c:311-318 | true iff every visited address does, and iff every address of a covered range does |
| PageTables.CheckExact | src/lib/memory.c:311-318 | looking at one address per page-sized step decides the whole range iff the range ends late enough in its last page |
| PageTables.UncoveredMissesLastPage | src/lib/memory.c:311-318 | otherwise no visited address lies on the last page |
| PageTables.MakeEntry | src/lib/memory.c:259-259 | the entry decodes to the frame and present bit it was made from |
| HeapLayout.TilesOrder | src/lib/memory.c:196-214 | a tiling is strictly address-sorted, gap-free, 4-aligned, with blocks of at least 12 bytes |
| HeapLayout.BytesDisjoint | src/lib/memory.c:517-576 | blocks of a tiling share no byte, and no granted byte is free |
| HeapLayout.TakeTiles | src/lib/memory.c:517-537 | splitting and granting whole keep the tiling |
| HeapLayout.ReleaseTiles | src/lib/memory.c:546-576 | release with two-sided coalescing keeps the tiling |
| HeapLayout.TakeMeaning | src/lib/memory.c:517-537 | exactly the granted block's bytes leave the free set, and the block is large enough but wastes less than a minimal block |
| HeapLayout.CoalesceMeaning | src/lib/memory.c:560-576 | joining neighbours changes neither free bytes nor grants |
| HeapLayout.ReleaseMeaning | src/lib/memory.c:546-576 | exactly the freed block's bytes join the free set, none lost and none twice |
| HeapLayout.ReleaseShape | src/lib/memory.c:546-576 | a released block and its free neighbours become one free block, from where a free left neighbour started to where a free right one ended; all other blocks stay |
| HeapLayout.TakeShape | src/lib/memory.c:517-537 | what a grant does not need stays behind it as one free block up to the old end iff that makes a block; all other blocks stay |
| HeapLayout.ReleaseMerged | src/lib/memory.c:560-576 | a release leaves no two free neighbours if there were none |
| HeapLayout.TakeMerged | src/lib/memory.c:517-537 | nor does a grant |
| HeapLayout.GrowMerged | src/lib/memory.c:265-284 | a further page does iff the heap ended in a free block, because it is not joined |
| HeapMemory.SpliceRepresents | src/lib/memory.c:196-214 | memory holds a tiling again after a stretch of blocks and the one pointer to it are rewritten |
| HeapMemory.SplitRepresents | src/lib/memory.c:519-531 | the stores of the split leave the list of the split tiling |
| HeapMemory.WholeRepresents | src/lib/memory.c:532-537 | the stores of the whole grant leave the list without the block |
| HeapMemory.FreeRepresents | src/lib/memory.c:546-558 | the stores of kfree link an off-list block in address order |
| HeapMemory.FreeLoops | src/lib/memory.c:546-558 | the linking stores on a multi-page block leave a list that leads to the block and from there to itself |
| HeapMemory.LoopHoldsNothing | src/lib/memory.c:546-558 | such a memory is that of no heap whatever |
| HeapMemory.FreeListExact | src/lib/memory.c:546-558 | after the linking stores memory holds a heap iff the block was off the list, which multi-page blocks are not |
| HeapMemory.MergeRepresents | src/lib/memory.c:560-576 | the stores of a join leave the list of the joined tiling |
| HeapMemory.AppendRepresents | src/lib/memory.c:196-214 | the stores of add_block at the heap's end append one block |
| HeapMemory.SpanRepresents | src/lib/memory.c:496-498 | the two header stores of a multi-page request turn its pages into one used, still linked block |
| BlockList.WalkStep | src/lib/memory.c:459-473 | reading one list node gives its block and leads to the next linked block |
| BlockList.RewrittenKeeps | src/lib/memory.c:517-576 | stores in one block's stretch and one link change no other payload and nothing outside the heap |
| BlockList.List.FindPrevForSize | src/lib/memory.c:459-473 | the lowest-address free block that fits and the list node before it, or NULL iff none fits |
| BlockList.List.WalkTo | src/lib/memory.c:549-554 | the walk stops at the first linked block at or after the given one, remembering the one before |
| BlockList.List.AddBlock | src/lib/memory.c:196-214 | appends a free block to the tiling, or nothing when it is too small |
| BlockList.List.Grant | src/lib/memory.c:517-537 | the pointer code performs the grant on the tiling and keeps all payloads |
| BlockList.List.Split | src/lib/memory.c:519-531 | the splitting branch does so |
| BlockList.List.GrantWhole | src/lib/memory.c:532-537 | the branch that grants the whole block does so |
| BlockList.List.MakeSpan | src/lib/memory.c:496-498 | the new pages become one used block; all payloads kept |
| BlockList.List.Insert | src/lib/memory.c:547-558 | a single-page block is free and linked in order, payloads other than its own kept; a multi-page block makes the loop |
| BlockList.List.MergeNext | src/lib/memory.c:560-567 | joins with the right neighbour iff that one is free and adjacent; a self-linked block joins nothing |
| BlockList.List.MergePrev | src/lib/memory.c:569-576 | joins with the left neighbour iff that one is free and adjacent; a loop stays a loop |
| BlockList.FreeRight | src/lib/memory.c:560-562 | in a list the test finds exactly the free block right after |
| BlockList.FreeLeft | src/lib/memory.c:569-571 | in a list the test finds exactly the free block right before |
| BlockList.List.Kfree | src/lib/memory.c:543-577 | on a single-page block the whole of kfree is one release on the tiling: one free block in place of the block and its free neighbours on either side, all others as before; memory holds a heap afterwards iff the block was a single-page one |
| HeapSpec.EveryByteOnce | src/lib/memory.c:476-577 | a byte of the heap range is free or granted, and nothing outside is |
| HeapSpec.TilingPartitions | src/lib/memory.c:476-577 | a tiling means a partition of the heap's bytes |
| HeapSpec.MallocKeepsPartition | src/lib/memory.c:476-540 | any allocation step, failed ones included, keeps free and granted bytes a partition |
| HeapSpec.FreeKeepsPartition | src/lib/memory.c:543-577 | any release step does |
| HeapSpec.RunPartitioned | src/lib/memory.c:476-577 | in every run from the empty heap no byte is lost, free and granted at once, or granted twice |
| HeapSpec.GrowByMeaning | src/lib/memory.c:490-494 | growth by pages adds exactly their bytes to the free set, however far it gets |
| HeapSpec.TakeIsMalloc | src/lib/memory.c:503-539 | the single-page path is an allocation step of the byte-set allocator |
| HeapSpec.SpanIsMalloc | src/lib/memory.c:484-501 | the multi-page path is one |
| HeapSpec.GrowIsFailure | src/lib/memory.c:490-494 | a half-failed growth is a failed allocation step that loses nothing |
| HeapSpec.ReleaseIsFree | src/lib/memory.c:543-577 | kfree is a release step |
| Words.Add32Exact | src/lib/memory.c:55-55 | the model's 32-bit sum is the sum modulo 2^32 |
| Words.Align4Exact | src/lib/memory.c:10-10 | the least multiple of four that is not below the size, unless only 2^32 is, which reads as 0 |
| Heap.RequestExact | src/lib/memory.c:479-486 | the block has room for header and request iff the size is at most 0xFFFF_EFF8 |
| Heap.RequestFits | src/lib/memory.c:479-486 | up to there the block size is the least multiple of four with room for header and request, the page count the least that holds it, and neither wraps |
| Heap.TranslationGrows | src/lib/memory.c:278-282 | one more heap page changes the heap's translation on that page only |
| Heap.MapFresh | src/lib/memory.c:273-278 | a fresh frame is taken and mapped; fails only when every frame is in use |
| Heap.BlockPlacementIsMalloc | src/lib/memory.c:503-539 | first-fit placement, with growth at most once, is an allocation step |
| Heap.SpanPlacementIsMalloc | src/lib/memory.c:484-501 | placement at the heap's end is an allocation step |
| Heap.KernelHeap.constructor | src/lib/memory.c:382-390 | an empty, valid heap over the boot state |
| Heap.KernelHeap.HeapGrow | src/lib/memory.c:265-284 | adds one free page, or fails iff address range or physical memory is used up |
| Heap.KernelHeap.Kmalloc | src/lib/memory.c:476-540 | keeps the whole invariant, is an allocation step, keeps every payload, places single-page requests first-fit, and returns NULL only for size 0 or exhaustion |
| Heap.KernelHeap.AllocSpan | src/lib/memory.c:484-501 | new pages at the end become one block; on failure the pages had so far stay free |
| Heap.KernelHeap.AllocBlock | src/lib/memory.c:502-539 | lowest-address fit, after at most one growth |
| Heap.KernelHeap.FindOrGrow | src/lib/memory.c:503-514 | the retry loop ends after at most two searches |
| Heap.KernelHeap.GrowPages | src/lib/memory.c:490-494 | stops early only when the heap is exhausted |
| Heap.KernelHeap.Kfree | src/lib/memory.c:543-577 | of NULL or a single-page block: keeps the whole invariant, is a release step, joins the block with its free neighbours on either side, keeps every other payload; memory holds a heap afterwards iff the block was not a multi-page one |
| Heap.KernelHeap.Poke | src/kernel/core/task.c:135-137 | an aligned word store by a block's holder inside its payload disturbs neither list nor meaning |
| Heap.KernelHeap.FramesBehindPages | src/lib/memory.c:265-284 | by the page tables, different heap addresses translate differently, to used frames that were not reserved at boot, and other addresses below 1 GiB to themselves |
| Heap.KernelHeap.StoresAvoidReserved | src/arch/i686/boot/entry.asm:48-92 | with paging off, the heap's stores avoid every frame reserved at boot iff nothing reserved lies at the heap's addresses |
| BootLayout.HeapClearExact | src/lib/memory.c:117-173 | kernel, bitmap, directory, tables and modules all lie outside the heap's pages iff no heap address is in a reserved frame |
| BootLayout.HeapMayMeetModule | src/lib/memory.c:48-177 | a boot that the initialisation accepts whose first heap page is a module's |
| MemoryMoves.MemMove | src/lib/memory.c:610-628 | moves the bytes for every overlap and changes nothing else |
| MemoryMoves.CopyUp | src/lib/memory.c:584-594 | memcpy between two memories delivers the source's bytes and changes nothing else; within one it is the byte-by-byte upward copy |
| MemoryMoves.ForwardFollows | src/lib/memory.c:584-594 | with the destination inside the source, the upward copy repeats what it just wrote |
| MemoryMoves.ForwardIff | src/lib/memory.c:584-594 | the upward copy moves the bytes iff the destination is not after the source or the source is periodic with their distance |
| Scheduling.ChooseFirst | src/kernel/core/task.c:91-115 | the chosen task is ready or idle, and none between it and the current one was |
| Scheduling.TickChoice | src/kernel/core/task.c:91-128 | after a tick the current task is ready or the idle one, and no ready task and not the idle one lies strictly between it and the task before |
| Scheduling.AheadWraps | src/kernel/core/task.c:98-99 | steps along the ring count modulo the number of tasks |
| Scheduling.TickFrame | src/kernel/core/task.c:72-88 | a tick changes no wake tick and no state but a sleeper's, which becomes ready iff its wake tick lies at most 2^31 ticks back |
| Scheduling.DueExact | src/kernel/core/task.c:82-82 | the signed comparison takes a wake tick for past from the tick itself to 2^31 ticks later, across wrap-around |
| Scheduling.TickApproaches | src/kernel/core/task.c:117-128 | a tick runs a ready task or brings it strictly nearer along the ring |
| Scheduling.BoundedWaiting | src/kernel/core/task.c:91-158 | a task that stays ready becomes current within as many ticks as it is steps away, plus one for every task created meanwhile |
| Scheduling.WaitsAtMostMaxTasks | src/kernel/core/task.c:91-158 | so within 512 ticks, whatever is created meanwhile |
| Scheduling.SleepTicksExact | src/lib/sleep.c:7-16 | the tick count is in 1..2^31-1, and is max(1, ceil(ms*freq/1000)) iff the sum does not wrap |
| Scheduling.SleepExact | src/kernel/core/task.c:72-88 | whatever else happens between ticks, task creation included, a sleeper of n ticks that nobody wakes sleeps through n-1 ticks and is ready at the n-th, across clock wrap-around |
| Scheduler.TaskRing.AllocTask | src/kernel/core/task.c:130-158 | one new blocked task at the end of the one cycle, or none iff the limit or memory is reached |
| Scheduler.TaskRing.Link | src/kernel/core/task.c:143-152 | the ring is one cycle again, with the new task last |
| Scheduler.TaskRing.LastTask | src/kernel/core/task.c:148-149 | the walk ends at the task before the head |
| Scheduler.TaskRing.UpdateTime | src/kernel/core/task.c:72-88 | advances the clock and the usage counters, and wakes exactly the sleepers that are due at the new time |
| Scheduler.TaskRing.WakeSleepers | src/kernel/core/task.c:80-86 | the walk, which meets the head twice, wakes exactly the due sleepers |
| Scheduler.TaskRing.RemoveTask | src/kernel/core/task.c:61-69 | one entry of the static table changes; the ring and the other tasks stay |
| Scheduler.TaskRing.ChooseNext | src/kernel/core/task.c:91-115 | the pointer walk chooses what the pure choice does, with exited tasks in the ring as well; `Scheduling.TickChoice` says what that is |
| Scheduler.TaskRing.Tick | src/kernel/core/task.c:117-128 | a scheduler tick is exactly one step of the pure model, about which `Scheduling.TickChoice` and `Scheduling.TickFrame` speak |
| Scheduler.TaskRing.PutToSleep | src/lib/sleep.c:15-21 | the current task sleeps until now plus the tick count; nothing else changes |
| Scheduler.TaskRing.SleepMs | src/lib/sleep.c:13-24 | the current task goes to sleep until now plus the tick count, and the yield is one scheduler tick |
| Scheduler.TaskRing.SetState | src/kernel/core/task.c:46-54 | block and wake change one task's state only |
| RingBuffer.EmptyAndFull | src/lib/tty.c:49-54 | the index tests mean empty contents and 1023 waiting characters |
| RingBuffer.PushContents | src/kernel/drivers/ps2_key.c:74-79 | a push appends one character or drops it when 1023 wait |
| RingBuffer.PopContents | src/lib/tty.c:86-90 | a pop takes the oldest character |
| RingBuffer.PushAllPrefix | src/lib/tty.c:158-172 | what arrives of a text is the longest prefix that fits |
| RingProtocol.NextInv | src/lib/spinlock.c:17-41 | every memory access of writers, reader and interrupt keeps the protocol invariant |
| RingProtocol.RunInv | src/lib/tty.c:46-65 | so it holds at every point of every interleaving |
| RingProtocol.RingSafety | src/kernel/drivers/ps2_key.c:68-83 | over every interleaving accepted = consumed + waiting, at most 1023 wait, and critical sections exclude each other |
| RingProtocol.DroppedOnlyWhenFull | src/lib/tty.c:51-54 | a character is dropped only when 1023 wait |
| RingProtocol.WriterProgress | src/lib/spinlock.c:33-41 | a writer inside its critical section can always make its next access, which brings it nearer to its end, where the lock is clear |
| RingProtocol.WriterDetermined | src/lib/tty.c:156-174 | and that access is the only one it can make |
| RingProtocol.WriterLeaves | src/lib/tty.c:156-174 | on its own, a writer inside with n characters to push has left and cleared the lock after at most 3n + 2 accesses |
| RingProtocol.ReaderLeaves | src/lib/tty.c:86-92 | in three accesses the reader inside takes the oldest waiting character, just that one, and clears the lock |
| RingProtocol.FreeLockTaken | src/lib/spinlock.c:17-31 | a free lock goes to whoever tries it next |
| RingProtocol.IrqExact | src/kernel/drivers/ps2_key.c:68-83 | the interrupt's character is accepted iff fewer than 1023 wait, and is then the newest |
| LineEditor.LinesPlain | src/lib/tty.c:141-194 | edited lines have at most 255 characters, no line end and no backspace |
| LineLaws.LinesSplit | src/lib/tty.c:134-199 | a raw stream in two parts: the second goes on with the line that the first has begun |
| LineLaws.BackspaceTakesBack | src/lib/tty.c:141-152 | anywhere in a stream, a character typed on a line that is not full and then a backspace change neither the lines nor the line begun |
| LineLaws.BackspaceOnEmptyLine | src/lib/tty.c:141-152 | nor does a backspace on an empty line |
| LineLaws.FullLineIgnores | src/lib/tty.c:191-198 | nor does a character typed on a line of 255 |
| LineLaws.EndKeyDelivers | src/lib/tty.c:155-189 | newline and carriage return both end the line begun and start an empty one |
| LineLaws.TextStands | src/lib/tty.c:191-198 | a text typed on an empty line stands there as typed |
| LineLaws.EchoShows | src/lib/tty.c:141-198 | on a display that shows the line, with the cursor behind it and blanks after the cursor, the echo of any key makes it show the edited line so, in a new row iff the key ended the line |
| LineLaws.EchoesShow | src/lib/tty.c:134-199 | so after any raw stream the display shows the line begun, one row for every line ended |
| LineLaws.StepsEcho | src/lib/tty.c:134-199 | the worker's output is exactly that echo iff it fits behind what waits; with echo off there is none |
| LineLaws.StepsEdit | src/lib/tty.c:134-199 | the worker's edit buffer holds the line begun |
| LineEditor.StepsDeliver | src/lib/tty.c:134-200 | what a burst of raw characters delivers is exactly its edited lines iff they fit behind what waits |
| LineEditor.ReactConserves | src/lib/tty.c:155-188 | one event without a cut keeps what is seen plus what is still to come |
| LineEditor.CutExact | src/lib/tty.c:158-172 | a session counts as cut from the first line end on whose line and newline do not all arrive |
| LineEditor.NothingCutNothingLost | src/lib/tty.c:134-198 | whatever the interleaving, if nothing was cut the reader sees exactly the edited lines in order |
| LineEditor.ReadLinesReturnsLines | src/lib/tty.c:96-118 | successive reads of at least 256 characters return the lines one by one |
| LineEditor.TypedLinesComeBack | src/lib/tty.c:96-198 | from start-up, uncut input comes back line by line as edited |
| InputRing.WriterShows | src/lib/tty.c:156-174 | no memory access of a delivery under the lock changes what its end will leave |
| InputRing.CutsExact | src/lib/tty.c:158-172 | a delivery counts as cut iff the ring will not hold all of it |
| InputRing.AcquireShows | src/lib/tty.c:156-174 | getting the lock counts as the line end that delivers the whole line, cut iff it does not fit |
| InputRing.ReaderShows | src/lib/tty.c:79-93 | moving the tail takes the session's oldest character; the reader's other accesses change nothing |
| InputRing.RunProjects | src/lib/tty.c:96-174 | every run of the input ring is a session of the line editor that spells the delivered lines, with the same characters taken and, outside deliveries, the same input; it is cut iff some delivery did not fit |
| InputRing.DeliveredLinesArrive | src/lib/tty.c:96-174 | without a cut, characters taken, waiting and under way are exactly the delivered lines in order |
| Pipeline.MoveProjects | src/lib/tty.c:122-200 | every memory access of interrupt, worker and reading task keeps the link to a session of the line editor |
| Pipeline.PipeProjects | src/lib/tty.c:122-200 | so every run of the whole pipeline is such a session over the raw characters acted on |
| Pipeline.TypedLinesArrive | src/lib/tty.c:79-206 | end to end: whenever no line is on its way and none was cut, the reading task has and will get exactly the lines edited from the first characters that the interrupt accepted |
| Keyboard.Translator.Translate | src/kernel/drivers/ps2_key.c:37-64 | the table character of a key press under the shift flag, nothing for a release or a shift key, and the new flag |
| Keyboard.KeysExact | src/kernel/drivers/ps2_key.c:15-64 | every scan code has the character of its key by position, in capitals and signs exactly under the shift flag; releases, shift keys and keys without a character have none |
| Keyboard.LastShiftDecides | src/kernel/drivers/ps2_key.c:37-55 | over any stream of scan codes the flag tells whether the last event of either shift key was a press |
| Tty.CharRing.Push | src/lib/tty.c:160-164 | appends iff fewer than 1023 characters wait |
| Tty.CharRing.Pop | src/lib/tty.c:136-137 | removes the oldest |
| Tty.Terminal.HandleKey | src/kernel/drivers/ps2_key.c:68-83 | a scan code's character reaches the raw ring, and wakes the worker, iff it has one and there is room |
| Tty.Terminal.Write | src/lib/tty.c:46-65 | one character is pushed to the output ring; the backend is woken iff it was stored and somebody waits |
| Tty.Terminal.WriteLine | src/lib/tty.c:69-76 | the longest prefix that fits is appended; the backend is woken iff that is not empty and somebody waits |
| Tty.Terminal.WorkerStep | src/lib/tty.c:134-199 | one raw character is one step of the editor that `LineLaws` describes, on line, input and output, and wakes exactly the backend for stored echo and the reader at a line end |
| Tty.Terminal.EndLine | src/lib/tty.c:155-189 | delivery, echo, reset and wake-up at a line end are one step of the pure editor |
| Tty.Terminal.NewOutputWakes | src/lib/tty.c:56-61 | a step wakes the waiting backend iff it adds output, the waiting reader iff the character is a newline or carriage return, and never the worker |
| Tty.Terminal.DeliverLine | src/lib/tty.c:156-174 | a line end delivers the line and a newline as far as they fit |
| Tty.Terminal.Drain | src/lib/tty.c:134-204 | emptying the raw ring is running that editor over it; the input ring gains exactly the edited lines iff they fit; the reader is woken, and the backend whenever output was added |
| Tty.Incoming.Read | src/lib/tty.c:79-93 | takes the first character of the stream, waiting if need be |
| Tty.Incoming.ReadRound | src/lib/tty.c:100-114 | one round takes the stream's next character |
| Tty.Incoming.ReadLine | src/lib/tty.c:96-118 | takes the stream's prefix up to the first newline or maxlen, terminated, and leaves the rest |
| FileTree.FindNameWorks | src/lib/fs.c:277-291 | a child with a parent is found there under a proper name that looks up to it |
| FileTree.FindNameExact | src/lib/fs.c:277-291 | the name is that of the first entry which looks up to the child, if any does |
| FileTree.WalkSpelled | src/lib/vfs.c:45-70 | parsing and walking a spelled path is walking its components |
| FileTree.PathNamesWalk | src/lib/fs.c:300-308 | the collected names lead from the root to the directory |
| FileTree.PathRoundTrip | src/lib/fs.c:293-325 | in a well-formed tree the path printed for a directory resolves to it |
| PathLaws.WalkSplit | src/lib/vfs.c:45-70 | walking a path is walking what stands before a slash and from there what stands behind it |
| PathLaws.ResolveSplit | src/lib/vfs.c:29-72 | the same for lookups, absolute or from a base |
| PathLaws.ResolveName | src/kernel/drivers/ramfs.c:202-227 | a name behind a path to a directory: dot is that directory, dot-dot its parent or, at the top, itself, any other name the first entry that has it, if any; behind a path to a file, or longer than 255, nothing |
| PathLaws.FirstNamedExact | src/kernel/drivers/ramfs.c:217-222 | the node of the first entry with the name, or none iff no entry has it |
| PathLaws.DotDotOfPath | src/kernel/drivers/ramfs.c:209-215 | behind the printed path of any directory but the root, dot-dot leads to its parent and dot to itself |
| PathLaws.DotDotOfRoot | src/kernel/drivers/ramfs.c:209-215 | dot and dot-dot at the root lead to the root, and a path goes on from there |
| PathLaws.DownAndUp | src/lib/vfs.c:45-70 | going down into a directory and up by dot-dot is staying |
| PathLaws.TrailingSlash | src/lib/vfs.c:58-59 | a slash at the end changes nothing |
| PathLaws.EmptyComponent | src/lib/vfs.c:45-70 | any other empty component makes a path resolve to nothing |
| PathLaws.ResolveByParent | src/lib/vfs.c:74-111 | a path resolves to what its last name looks up to where its parent path leads, unless an empty component stands before the name; then to nothing |
| PathLaws.CreatedIsFound | src/lib/fs.c:174-196 | a file created under a path is found under it iff its name was new and no two slashes stand before it |
| TreeGrowth.ResolveKept | src/kernel/drivers/ramfs.c:229-297 | every path that resolved before an entry is added resolves to the same node after |
| TreeGrowth.FreshNameExact | src/kernel/drivers/ramfs.c:246-249 | the new entry is found under its name iff the name was not found before |
| TreeGrowth.FreshPathResolves | src/kernel/drivers/ramfs.c:246-249 | the directory's path with a fresh name behind it resolves to the new node |
| TreeGrowth.CreateWellFormed | src/kernel/drivers/ramfs.c:229-252 | creating a file keeps the tree well formed |
| TreeGrowth.MkdirWellFormed | src/kernel/drivers/ramfs.c:258-297 | making a directory keeps the tree well formed |
| TreeGrowth.RootedKept | src/kernel/drivers/ramfs.c:229-297 | what hung from the root still does |
| TreeGrowth.MkdirRoundTrip | src/kernel/drivers/ramfs.c:258-297 | a new directory's printed path resolves to it |
| TreeGrowth.PathKept | src/lib/fs.c:293-325 | adding an entry changes no printed path |
| TreeGrowth.NewNodesExact | src/kernel/drivers/ramfs.c:229-297 | a new directory has the two dot entries, which say what the dot names look up to, and no other name; in a new file no name is found |
| TreeGrowth.AddEntryFrame | src/kernel/drivers/ramfs.c:229-297 | an entry goes behind the others of its directory, and no other node changes |
| TreeRuns.RunHung | src/kernel/drivers/ramfs.c:229-297 | in every run of creations the tree is well formed and every directory hangs from the root |
| TreeRuns.DirectoriesRoundTrip | src/lib/fs.c:293-325 | at every point of every run each directory's printed path resolves to it |
| TreeRuns.PathsStay | src/lib/vfs.c:29-72 | a path that resolves at some point resolves to the same node from then on |
| RamImage.FirstNamedAt | src/kernel/drivers/ramfs.c:217-222 | an entry whose name is new among those before it is the one found |
| RamImage.ChildNamed | src/kernel/drivers/ramfs.c:160-168 | a child of a consistent directory is the first entry of its name, with the right inode |
| RamImage.ChildFound | src/kernel/drivers/ramfs.c:158-166 | in a consistent image every record is found in its parent under its name |
| RamImage.LoadedDots | src/kernel/drivers/ramfs.c:170-181 | a loaded directory has both dot entries iff it has fewer than 30 children, and they are what the dot names look up to |
| RamImage.LoadedWellFormed | src/kernel/drivers/ramfs.c:111-195 | a consistent image loads into a well-formed tree |
| RamImage.LoadedHung | src/kernel/drivers/ramfs.c:111-195 | in which every record hangs from the root, so that runs of creation may start from it |
| RamImage.LoadImage | src/kernel/drivers/ramfs.c:68-198 | every inode holds what its record says, or an empty root iff there is no image or a child index is out of range |
| RamImage.CreateInodes | src/kernel/drivers/ramfs.c:122-133 | one separate inode per record |
| RamImage.SetParents | src/kernel/drivers/ramfs.c:135-142 | every inode gets its record's parent and nothing else changes |
| RamImage.FillDirectory | src/kernel/drivers/ramfs.c:147-181 | the children in order, then the dot entries when they fit; fails iff a child index is out of range |
| RamImage.CollectChildren | src/kernel/drivers/ramfs.c:158-167 | the children's entries in order, or failure iff an index is out of range |
| RamImage.MountImage | src/kernel/drivers/ramfs.c:68-198 | mounting a consistent image, or none, gives a valid file system whose directories all hang from the root |
| RamFs.FileSystem.constructor | src/kernel/drivers/ramfs.c:87-93 | an empty root is a valid file system |
| RamFs.FileSystem.RamLookup | src/kernel/drivers/ramfs.c:202-227 | dot, dot-dot and the first entry of the name, as in the pure lookup |
| RamFs.FileSystem.VfsLookup | src/lib/vfs.c:29-72 | the pointer walk over the path resolves as the pure walk does, errors included |
| RamFs.FileSystem.NextComponent | src/lib/vfs.c:47-59 | copies one component of at most 255 characters and skips its slash |
| RamFs.FileSystem.FindNameInParent | src/lib/fs.c:277-291 | the first entry whose name looks up to the child |
| RamFs.FileSystem.Create | src/kernel/drivers/ramfs.c:229-252 | adds one file entry, or fails iff 32 entries are used, changing nothing else |
| RamFs.FileSystem.Mkdir | src/kernel/drivers/ramfs.c:258-297 | adds one directory with its dot entries, or fails iff the name is taken or its limit reached |
| RamFs.FileSystem.BuildPath | src/lib/fs.c:293-325 | writes exactly the spelled path and a terminator |
| RamFs.FileSystem.Climb | src/lib/fs.c:300-308 | the climb ends and collects the names in reverse |
| RamFs.FileSystem.WriteReversed | src/lib/fs.c:318-322 | the names come out root first |
| RamFs.FileSystem.PathLast | src/lib/vfs.c:74-85 | points behind the last slash |
| RamFs.FileSystem.LookupParent | src/lib/vfs.c:87-111 | resolves what stands before the last slash |
| RamFs.FileSystem.SysCreate | src/lib/fs.c:174-196 | creates the last name in the parent, or fails iff the parent does not resolve or is full |
| FileContents.ClampExact | src/kernel/drivers/ramfs.c:320-321 | the capacity check keeps a write inside the file iff offset plus size does not wrap |
| FileContents.ReadAtExact | src/kernel/drivers/ramfs.c:299-314 | a read returns the bytes from the offset on, as many as it asks for and the file has |
| FileContents.WriteAtExact | src/kernel/drivers/ramfs.c:316-329 | a write replaces just the bytes from the offset on that the capacity has room for, in the middle of the file too; the file ends where it did or where the write did, whichever is further |
| FileContents.ReadBack | src/kernel/drivers/ramfs.c:299-329 | what has been written reads back |
| FileContents.WriteRunAppends | src/kernel/drivers/ramfs.c:316-329 | writes of any sizes leave their concatenation cut at the capacity |
| FileContents.ReadRunCovers | src/kernel/drivers/ramfs.c:299-314 | reads of any sizes return consecutive bytes up to the end |
| FileContents.ReadsAll | src/lib/fs.c:119-144 | reads from the start return all bytes, and a further one nothing, iff they ask for at least as many |
| FileContents.WriteThenRead | src/lib/fs.c:119-172 | a fresh file written in pieces reads back the same bytes cut at 4096, and then nothing, iff the reads ask for at least what was stored |
| FileContents.PositiveSizesSuffice | src/lib/fs.c:119-144 | as many positive reads as there are bytes ask for all of them |
| FileIo.OpenFile.Read | src/kernel/drivers/ramfs.c:299-314 | fills the buffer with the bytes at the offset and advances by their number |
| FileIo.OpenFile.Write | src/kernel/drivers/ramfs.c:316-329 | overwrites and extends within the capacity, keeping offset <= size <= capacity |
| FileIo.Process.Open | src/lib/fs.c:27-86 | the lowest free descriptor at offset 0, or -1 iff there is no file, memory or descriptor |
| FileIo.Process.Close | src/lib/fs.c:88-116 | frees exactly that descriptor, or -1 iff it is not open |
| FileIo.Process.Read | src/lib/fs.c:119-144 | reads through a descriptor, keeping every descriptor's offset within its file |
| FileIo.Process.Write | src/lib/fs.c:146-172 | writes through a descriptor, keeping every descriptor's offset within its file |
| Painter.TopmostExists | src/lib/WM.c:387-391 | every cell is bare or has a topmost window by (z, index) |
| Painter.TopmostExact | src/lib/WM.c:377-391 | of the windows that show a cell, none has a higher z than the topmost, nor the same z and a later place |
| Painter.PutShows | src/lib/WM.c:32-39 | a character put at (x, y) of a window is what the window shows x columns and y rows from its corner; every other place shows what it did |
| Painter.PutChar | src/lib/WM.c:28-39 | the store of window_put_char, or nothing outside the window |
| Painter.SwapKeeps | src/lib/WM.c:379-383 | a swap of the sort keeps permutation, stability and the sorted end |
| Painter.PaintedIsTopmost | src/lib/WM.c:377-391 | painting a stably sorted list in order shows the topmost window of the original list |
| Painter.SortWindows | src/lib/WM.c:377-385 | the bubble sort is a stable sorting permutation |
| Painter.BubblePass | src/lib/WM.c:378-384 | one pass extends the sorted end by one |
| Painter.Blit | src/lib/WM.c:342-369 | every visible non-zero cell of the window overwrites the screen, and nothing else changes |
| Painter.PaintAll | src/lib/WM.c:387-391 | the painting loop is last-writer-wins |
| Painter.AllShowTop | src/lib/WM.c:377-391 | a screen painted from the sorted list shows the topmost windows of the original one |
| Painter.DrawGui | src/lib/WM.c:372-398 | every cell shows the topmost window's non-zero cell or the background; the window list is stably sorted |
| ScreenModel.StepInv | src/kernel/modules/compositor.c:256-276 | one character keeps border, status rows, cursor range and the blank last column |
| ScreenModel.RunKeepsBorder | src/kernel/modules/compositor.c:251-283 | so does every character stream without clears |
| ScreenModel.OrdinaryAdvances | src/kernel/modules/compositor.c:265-276 | an ordinary character advances the linear cursor by one through wrap and scroll |
| ScreenModel.NewlineAdvances | src/kernel/modules/compositor.c:265-272 | a newline goes to the start of the next row from any column; the text stays, or moves up by one row over a blank last one when there is no next |
| ScreenModel.BackspaceRetreats | src/kernel/modules/compositor.c:256-264 | a backspace goes one place back, over row ends too, and blanks the cell it comes to; at the first place it does nothing |
| ScreenModel.ShownExact | src/kernel/modules/compositor.c:265-276 | an ordinary character is shown iff it does not arrive at column 78 |
| ScreenModel.RunColumn | src/kernel/modules/compositor.c:265-276 | ordinary characters move the column round the 78 columns, through any number of wraps and scrolls |
| ScreenModel.RunShows | src/kernel/modules/compositor.c:251-283 | of a text of ordinary characters exactly one in every 78 is swallowed |
| ScreenModel.RunWrites | src/kernel/modules/compositor.c:251-283 | while nothing scrolls, the text stands on the screen from the cursor on, column 78 excepted, and every other cell is as before |
| ScreenPage.PenOfLine | src/kernel/modules/compositor.c:265-276 | on a page without a last row, the line behind a newline starts at the left end of the next row and fills rows of 78 |
| ScreenPage.PageShows | src/kernel/modules/compositor.c:265-276 | every character of a text stands on the page where the pen was, unless it ended a row |
| ScreenPage.PageKeeps | src/kernel/modules/compositor.c:265-276 | every other place of the page is as it was, blank below the screen |
| ScreenPage.RunIsWindow | src/kernel/modules/compositor.c:251-283 | for any text without backspaces the screen is a window on its page, moved up just as far as the pen has gone below the text area, with the cursor at the pen |
| ScreenPage.CharacterShows | src/kernel/modules/compositor.c:251-283 | so every character of the text that marks a place is on the screen as long as its row is |
| ScreenModel.RuboutUndoes | src/lib/tty.c:141-150 | the echoed backspace, space, backspace undoes a character up to scrolling |
| ScreenModel.ClearBlanksInterior | src/kernel/modules/compositor.c:127-147 | the clear blanks the whole interior although its loop skips the last column |
| ScreenModel.AfterClear | src/kernel/modules/compositor.c:142-143 | after a clear the invariant returns iff the next character is a newline; an ordinary one is drawn over the border |
| ScreenModel.ReactLoose | src/kernel/modules/compositor.c:127-147 | a character or a clear keeps the cursor range and the blank last column even while the cursor is on the border row |
| ScreenModel.EventsKeepFrame | src/kernel/modules/compositor.c:127-276 | over every stream of characters and clears, of the frame only columns 1..77 of the top row can change |
| Compositor.TextScreen.MoveRowUp | src/kernel/modules/compositor.c:158-166 | one text row becomes the row below it |
| Compositor.TextScreen.ScrollUp | src/kernel/modules/compositor.c:151-175 | the loops are one scroll of the text area |
| Compositor.TextScreen.Output | src/kernel/modules/compositor.c:253-276 | one character is one step of the screen that `ScreenModel` and `ScreenPage` describe, after clears too, and keeps its invariant |
| Compositor.TextScreen.ClearScreen | src/kernel/modules/compositor.c:127-147 | the loops clear columns 1..77 of the text rows and nothing else |
| Numerals.DigitsValue | src/lib/string.c:112-115 | the printed digits denote the number, without a leading zero |
| Numerals.ValuePlaces | src/lib/string.c:145-154 | every decimal digit counts ten times as much as the one behind it |
| Numerals.DenotedExact | src/lib/string.c:134-153 | spaces, at most one sign, digits and what is no digit denote the digits' value, negative iff behind a minus; 0 without digits |
| Numerals.ClampNearest | src/lib/string.c:145-154 | the clamped value is the int nearest to the value |
| Numerals.AtoiInvertsIntText | src/lib/string.c:100-155 | atoi gives back what int_to_str printed, with anything but a digit behind it, for every int iff it is not the least one |
| Numerals.HexDigitsValue | src/lib/string.c:75-79 | the hexadecimal digits denote the number, without a leading zero |
| Numerals.HexValuePlaces | src/lib/string.c:75-79 | every hexadecimal digit counts sixteen times as much as the one behind it |
| Numerals.HexDigitAlone | src/lib/string.c:75-79 | the digits 0 to f stand for 0 to 15 |
| Numerals.Hex64TextExact | src/lib/string.c:250-273 | what hex64_to_str prints denotes the value, in exactly the width or, when that is too few, in the value's own digits |
| Numerals.HexPrintersAgree | src/lib/string.c:66-90 | the two hexadecimal printers print the same text iff the width is not negative or the value not zero |
| Text.Atoi | src/lib/string.c:129-155 | the value of the space, sign and digit prefix clamped to 32 bits, for any length |
| Text.ReadDigits | src/lib/string.c:145-154 | the overflow test never lets the sum leave 32 bits and clamps exactly |
| Text.IntToStr | src/lib/string.c:100-125 | writes exactly the decimal text |
| Text.DigitsToBuffer | src/lib/string.c:109-115 | the digits, last first |
| Text.PutBackwards | src/lib/string.c:119-122 | the buffer reversed behind what was written before |
| Text.HexToBuffer | src/lib/string.c:75-79 | at most 16 hexadecimal digits, last first |
| Text.WriteHex | src/lib/string.c:66-90 | zero padding and digits behind what was written before |
| Text.Hex64ToStr | src/lib/string.c:250-273 | the padded digits, or a padded single zero |
| Text.Strcmp | src/lib/string.c:435-442 | 0 iff the strings are equal, negative iff the first precedes the second |
| Text.PrecedesExact | src/lib/string.c:435-442 | one string precedes another iff after a common beginning it ends first or has the smaller character |

## Left out

- Heap.KernelHeap.Kmalloc: sizes above 0xFFFF_EFF8, whose sum with the header wraps; `Heap.RequestExact` shows that the block is then too small.
- Heap.KernelHeap.Kfree: a pointer that kmalloc never returned, or that was freed before, is not modelled; of a multi-page block the contract says that the list is lost, and nothing after that.
- Interrupted allocation: kmalloc and kfree take no lock, and `sys_open` and `sys_close` call them with interrupts on, so a task switch in the middle of one call can let another task see half-made links. Runs here are runs of uninterrupted calls.
- BlockList.List.AddBlock: does the list walk before the store of the length word, which the walk does not read; only blocks at the heap's end with lengths that are multiples of four are added, as `heap_grow` does.
- FrameAllocator.Frames.constructor: only the normal bitmap placement, reserved ranges inside the map, and maps whose highest 32-bit end, rounded up, fits 32 bits (else the page count is 0 and every later store misses the bitmap); the fallback does not recompute `bitmap_end`, so the search for the earliest module is left out as well. Console messages are left out.
- FrameAllocator.Frames.FreeUsable: the same maps.
- FrameAllocator.Frames.ReserveBoot: reserved ranges inside the map and modules behind the bitmap, else the stores miss the bitmap or the fallback applies.
- Heap.KernelHeap.constructor: the same maps and placement.
- PageTables.Tables.MapPage: only under a present directory entry, below 1 GiB, where the heap is; the absent branch writes through a recursive mapping that nothing sets up. TLB invalidation has no counterpart.
- The page tables, the bitmap and the heap's words are separate arrays, not views of one physical memory. With paging off that is right as long as none of them lies at the heap's addresses, for which `Heap.KernelHeap.StoresAvoidReserved` gives the exact condition; that memory exists at those addresses is taken for granted.
- The bitmap's place: src/arch/i686/boot/entry.asm:103-108 puts the boot stack directly behind the 256 page tables, where `pmm_init` puts the bitmap (src/lib/memory.c:74-77), so in the kernel the bitmap overlaps the boot stack and whatever .bss follows it. `FrameAllocator.Frames` models the bitmap as memory of its own and does not show what this overlap does.
- Bit masks on page-table entries and lengths are written as division and remainder by powers of two.
- pmm_free_page, parse_memory_map, memset and the page-table debugging output: easy members.
- Scheduler.TaskRing.RemoveTask: not for task 0, for which it would write before the static table.
- Scheduler.TaskRing.ChooseNext: requires that task 0 has not exited, for which `remove_task_from_list` would write before the static table.
- Scheduler.TaskRing.Tick: the same; saving and restoring registers around it is left out, and so are kernel stacks and process creation.
- Scheduler.TaskRing.SleepMs: the same as Tick; and a timer interrupt between the stores and the yield would be one more tick before it.
- Lost wake-ups: the check and the block in tty_read and tty_read_line are not atomic, so no claim is made that a woken task has not blocked again.
- RingProtocol.RingSafety: one reader per ring, as the kernel has; the lock's owner field and timeout message are left out, and memory accesses are sequentially consistent.
- Pipeline.TypedLinesArrive: the echo, which goes to the output ring, is left out of this system, and a step that touches only the worker's own variables is joined to the memory access before it.
- Tty.Terminal.HandleKey: the worker is woken through a pointer that is NULL until it first blocks; the model takes it as set.
- Tty.Incoming.Read: the stream must hold a character that has arrived or will; on a stream that stays empty the code blocks for ever.
- Tty.Incoming.ReadRound: the same stream as ReadLine.
- Tty.Incoming.ReadLine: blocking is one step after which some awaited characters have arrived; it needs a stream that holds a newline or maxlen characters, else the code blocks for ever.
- RamFs.FileSystem.VfsLookup: the inode reference taken per component (close drops one per descriptor) is left out.
- RamFs.FileSystem.Mkdir: not called with 32 to 63 entries, where its check of 64 lets it write behind the entry array.
- RamFs.FileSystem.Create: names are those that fit an entry and a path component (1 to 31 characters, no slash, not dot or dot-dot), and kmalloc failures, which the code does not check, are left out; the same holds for Mkdir.
- RamFs.FileSystem.SysCreate: paths of at most 255 characters whose last name is proper and whose parent, when it resolves, is a directory; the code does not check this.
- RamFs.FileSystem.LookupParent: paths of at most 255 characters, the size of its buffer.
- RamFs.FileSystem.BuildPath: depth at most 32 and a buffer that holds the text, as its fixed arrays need.
- RamFs.FileSystem.Climb: depth at most 32, likewise.
- RamImage.LoadImage: parent indices in range and at most 32 children a directory, neither of which the code checks; file contents, kmalloc failures and the console output are left out, and an image that is missing, has the wrong magic number or has no inodes is the empty sequence.
- RamImage.CreateInodes: kmalloc failure, which gives an empty root, is left out.
- RamImage.SetParents: parent indices in range, which the code does not check.
- RamImage.FillDirectory: at most 32 children, the size of the entry array, which the code does not check.
- RamImage.CollectChildren: the same.
- RamImage.MountImage: images that describe a tree (`RamImage.Consistent`); the others load as `RamImage.LoadImage` says, but need not be well formed.
- sys_mkdir's string copies, sys_chdir, sys_readdir and unlink.
- FileIo.Process.Open: the path walk is `RamFs.FileSystem.VfsLookup`; here its result, and whether kmalloc could serve the request, are parameters. Directories opened as files are left out.
- FileIo.Process.Close: the inode's reference count is left out.
- FileIo.OpenFile.Write: requires that offset plus size does not wrap (`FileContents.ClampExact`).
- FileIo.Process.Write: the same.
- Painter.DrawGui: the push to video memory is left out.
- Window creation, titles, ids, the message interface and keyboard selection; GRID_WITDH, which the sources misspell and do not define, is read as 80.
- compositor_init's drawing (a parameter), the mouse overlay, the usage display and races on the drawing colour.
- Text.Hex64ToStr: widths up to 32, the size of its buffer.
- Negating the least int is modelled as wrap-around, which C leaves undefined.
- strncpy, string formatting with variable arguments, and panic output.
