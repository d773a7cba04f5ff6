# Paging, thread queues and the blocking disk of a teaching kernel

This project models, in Dafny, the core of a small x86 teaching kernel written in C++:

- **Two page tables.** The earlier one (MP3) keeps its page directory and page tables in kernel frames and dereferences their physical addresses as pointers. Once paging is on, that reaches them only because kernel frames lie in the identity-mapped shared region. Its fault handler serves only faults whose page table already exists. The later one (MP4) keeps its tables in process frames and reaches them through the recursive map. Slot 1023 of the directory names the directory itself, so the directory shows up at `0xFFFFF000` and page table `pd` at `0xFFC00000 | pd << 12`. Its fault handler first checks that a registered virtual-memory pool accepts the address. It then builds missing page tables and fills in missing entries, all through those windows. `free_page` gives a page's frame back to the process pool and clears its entry.
- **The FIFO thread queue.** It is a linked list whose head node is the queue object itself.
- **The FIFO scheduler.** It keeps a ready queue and its size. It gives priority to threads waiting on the blocking disk once the disk reports ready.
- **The blocking disk.** A thread that finds the device busy queues itself on the disk and yields the processor.

Physical memory is a class whose one field maps frame numbers to their 1024 words. The model's MP3 code accesses its tables physically; that is `Memory.Write`, which matches the source while the kernel frames are identity-mapped. MP4's `handle_fault` and `free_page` load and store through virtual addresses; that is `Memory.Fetch` and `Memory.Store`, which translate the address through the loaded directory with `Frames.Translate`. So the proofs about those two show that the recursive windows reach the words the code means to change. Frame allocators are supplier objects that log every frame they hand out and every frame given back.

Files:

- `x86_paging.dfy`: entry and address formats.
- `frames.dfy`: frame pools, physical memory, translation.
- `recursive_page_table.dfy`: MP4.
- `direct_page_table.dfy`: MP3.
- `round_robin_queue.dfy`: the queue.
- `termination.dfy`: what one `terminate` pass does to a queue.
- `scheduler.dfy`: the scheduler and the blocking disk.

## Model

| member | source | states |
|---|---|---|
| X86Paging.MakeEntry | MP4/MP4_Sources/page_table.C:74-88 | `frame * PAGE_SIZE \| flags`, with flags below bit 12: the low 12 bits are the flags and the rest is the frame. |
| X86Paging.EntryFrame | MP4/MP4_Sources/page_table.C:230 | `entry / PAGE_SIZE` is a frame number of the 32-bit physical space. |
| X86Paging.DirectoryIndex | MP4/MP4_Sources/page_table.C:138 | `address >> 22` is a directory slot, below 1024. |
| X86Paging.TableIndex | MP4/MP4_Sources/page_table.C:139 | `(address >> 12) & 0x3FF` is a table slot, below 1024. |
| X86Paging.TableWindow | MP4/MP4_Sources/page_table.C:184 | `0xFFC00000 \| pd << 12` is page-aligned and inside the last 4 MiB. |
| X86Paging.EntryRoundTrip | MP4/MP4_Sources/page_table.C:186 | An entry built from a frame gives back that frame. Masking its low 12 bits gives the frame's address. |
| X86Paging.EntryAddressFrame | MP3/MP3_Sources/page_table.C:140 | `entry & 0xFFFFF000` is the address of the frame the entry names, so dividing it by the page size gives that frame. |
| X86Paging.PresentWritableEntry | MP4/MP4_Sources/page_table.C:9-11 | `frame \| PAGE_WRITE \| PAGE_PRESENT` is present and writable, is not a user page, and names `frame`. |
| X86Paging.ConstantEntries | MP4/MP4_Sources/page_table.C:198 | `0 \| PAGE_WRITE` is writable but absent. `0 \| PAGE_LEVEL_USER` is an absent user page. Both name frame 0. |
| X86Paging.AddressSplit | MP4/MP4_Sources/page_table.C:138-139 | `address >> 22` and `(address >> 12) & 0x3FF` are table indices and `address & 0xFFF` is an offset. Together they reassemble the address. |
| X86Paging.WindowIndices | MP4/MP4_Sources/page_table.C:184 | Word `i` of the window `0xFFC00000 \| pd << 12` lies in directory slot 1023, at table index `pd` and offset `4 * i`. The window of slot 1023 is `0xFFFFF000`. |
| Frames.Memory.Write | MP3/MP3_Sources/page_table.C:145 | A store to a physical address replaces one word of one frame and nothing else. |
| Frames.Memory.Fetch | MP4/MP4_Sources/page_table.C:228-230 | A load through a virtual address. With slot 1023 mapping the directory onto itself, a load from the last 4 MiB returns the entry of the table that the table index names. |
| Frames.Memory.Store | MP4/MP4_Sources/page_table.C:184-186 | A store through a virtual address replaces the word at the same offset of the frame the walk reaches, and nothing else. |
| Frames.FramePool.GetFrame | MP4/MP4_Sources/page_table.C:58 | `get_frames(1)` hands out a frame it never handed out before, from its own range. The frame is logged and one fewer frame is available. |
| Frames.FramePool.ReleaseFrame | MP4/MP4_Sources/page_table.C:232 | `release_frames(f)` logs `f` as given back and hands out nothing. |
| Frames.TakeFrame | MP4/MP4_Sources/page_table.C:58-62 | A frame requested from either pool is new to memory and becomes addressable. Only the requesting pool's log grows, and the pools stay consistent with memory. |
| Frames.RecursiveWindow | MP4/MP4_Sources/page_table.C:184-194 | When slot 1023 maps the directory onto itself, word `i` of `0xFFFFF000` is directory entry `i`. Word `i` of table window `pd` is entry `i` of the table that slot `pd` names, and it does not translate when that slot is absent. |
| Frames.FillIdentityMap | MP4/MP4_Sources/page_table.C:72-78 | The first constructor loop makes entry `i` of the shared table map frame `i`, present and writable, for every shared frame. Every other word and frame is left as it was. |
| Frames.MarkAbsent | MP3/MP3_Sources/page_table.C:83-86 | The second constructor loop makes directory slots 1 to n-1 writable but absent. Slot 0 and the rest of memory are left as they were. |
| RecursivePageTable.UserTable | MP4/MP4_Sources/page_table.C:196-199 | A new page table has 1024 entries, all absent user pages. |
| RecursivePageTable.InstallKeepsTranslation | MP4/MP4_Sources/page_table.C:186 | Bringing in a frame that no directory slot names changes no translation and keeps the recursive slot. |
| Frames.WriteKeepsOtherTranslations | MP4/MP4_Sources/page_table.C:186 | Writing one entry of a table changes only the translations whose walk reads that entry. |
| RecursivePageTable.ExistingTableResolves | MP4/MP4_Sources/page_table.C:179-188 | When the slot is present, after the new frame is written at the faulting index the faulting address translates to that frame. The recursive slot is kept, and only addresses whose walk reads that entry can change. |
| RecursivePageTable.NewTableResolves | MP4/MP4_Sources/page_table.C:189-204 | When the slot is absent, after a new table is installed and filled and the new frame is written, the faulting address translates to the new frame and the recursive slot is kept. |
| RecursivePageTable.NewTableMapsOnlyFault | MP4/MP4_Sources/page_table.C:189-204 | After a new table is installed, every other address of the same 4 MiB region is still unmapped. Addresses in other regions translate as before, except the new table's own window (slot 1023, table index `pd`). |
| RecursivePageTable.FreedPageUnmapped | MP4/MP4_Sources/page_table.C:224-236 | After `free_page` clears the entry, the page no longer translates, the recursive slot is kept, and only addresses whose walk reads that entry can change. |
| RecursivePageTable.UntouchedPageNamesFrameZero | MP4/MP4_Sources/page_table.C:196-200 | In a table built by the fault handler, every page other than the faulting one has the entry `0 \| PAGE_LEVEL_USER`: it is absent and names frame 0. |
| RecursivePageTable.BuildDirectory | MP4/MP4_Sources/page_table.C:80-88 | Directory slot 0 names the shared table, slots 1 to n-2 are writable but absent, and slot n-1 maps the directory onto itself. |
| RecursivePageTable.PagingSystem.constructor | MP4/MP4_Sources/page_table.C:34-38 | The statics start with no current table, paging off, no pools and a shared size of 0. |
| RecursivePageTable.PagingSystem.InitPaging | MP4/MP4_Sources/page_table.C:42-51 | `init_paging` records the kernel pool, the process pool and the shared size. |
| RecursivePageTable.PagingSystem.EnablePaging | MP4/MP4_Sources/page_table.C:108-114 | `enable_paging` sets the paging flag. |
| RecursivePageTable.PagingSystem.HandleFault | MP4/MP4_Sources/page_table.C:116-207 | A protection fault (bit 0 of the error code set) changes nothing. A fault that no registered pool claims halts with memory unchanged. Otherwise the faulting address becomes mapped to a frame new to memory: one frame for a present slot, a new table plus a frame for an absent one, with memory changed exactly as described. The recursive slot and the pool logs stay consistent. |
| RecursivePageTable.PagingSystem.MapInExistingTable | MP4/MP4_Sources/page_table.C:179-188 | The new frame is written through table window `pd` at the faulting index, and that address now translates to it. |
| RecursivePageTable.PagingSystem.MapInNewTable | MP4/MP4_Sources/page_table.C:189-204 | Slot `pd` gets a new table frame, the table is filled with absent user entries, and then the faulting index gets a second new frame exactly as on the present-slot path. |
| RecursivePageTable.PagingSystem.InstallWindowTable | MP4/MP4_Sources/page_table.C:191-199 | A new process frame is written into the absent directory slot through the directory window and then filled with absent user entries through its own window. Nothing else in memory changes and one process frame is handed out. |
| RecursivePageTable.InstalledTableEmpty | MP4/MP4_Sources/page_table.C:191-199 | Right after that, the slot is present and names the new table, the recursive slot and the tables below the window are kept, and no address of the slot's 4 MiB is mapped yet. |
| RecursivePageTable.PagingSystem.ClearWindowTable | MP4/MP4_Sources/page_table.C:196-199 | The fill loop, storing through the window, makes every word of the new table `0 \| PAGE_LEVEL_USER` and changes nothing else. |
| RecursivePageTable.PageTable.ClaimingPool | MP4/MP4_Sources/page_table.C:156-173 | The pool scan returns the first registered slot, in index order, whose pool accepts the address, or -1 exactly when no registered pool accepts it. |
| RecursivePageTable.PageTable.constructor | MP4/MP4_Sources/page_table.C:53-97 | Two new process frames become the directory and the shared table. The shared table identity-maps the shared region, slot 0 names it, the middle slots are absent, and the last shared slot maps the directory onto itself. The registry is empty. With 1024 shared frames the table is valid. |
| RecursivePageTable.PageTable.BuildTables | MP4/MP4_Sources/page_table.C:58-88 | The memory half of the constructor: the two frames and their words, with the rest of memory unchanged. |
| RecursivePageTable.PageTable.FillRegistry | MP4/MP4_Sources/page_table.C:92-94 | Every registry slot becomes empty. |
| RecursivePageTable.PageTable.Load | MP4/MP4_Sources/page_table.C:100-106 | `load` makes this table the current one. |
| RecursivePageTable.PageTable.RegisterPool | MP4/MP4_Sources/page_table.C:209-222 | The pool takes the next free registry slot and the count grows by one. A full registry is left unchanged. |
| RecursivePageTable.PageTable.FreePage | MP4/MP4_Sources/page_table.C:224-242 | The frame named by the page's entry is logged as released and the entry becomes `0 \| PAGE_WRITE`, both through the table window. The page no longer translates and nothing else in memory changes. |
| RecursivePageTable.PageTable.FreeMappedPage | MP4/MP4_Sources/page_table.C:224-242 | Same as `free_page`, except that a frame is released only when the page's entry is present. |
| DirectPageTable.DirectFaultResolves | MP3/MP3_Sources/page_table.C:136-147 | Writing the new frame into the existing table resolves the fault, and every present directory slot still names a table in memory. No address whose walk does not read the rewritten entry changes its translation. |
| DirectPageTable.PagingSystem.constructor | MP3/MP3_Sources/page_table.C:33-37 | The statics start with no current table, paging off, no pools and a shared size of 0. |
| DirectPageTable.PagingSystem.InitPaging | MP3/MP3_Sources/page_table.C:42-51 | `init_paging` records the two pools and the shared size. |
| DirectPageTable.PagingSystem.EnablePaging | MP3/MP3_Sources/page_table.C:100-106 | `enable_paging` sets the paging flag. |
| DirectPageTable.PagingSystem.HandleFault | MP3/MP3_Sources/page_table.C:108-156 | A protection fault or a fault under an absent directory slot changes nothing. Otherwise one new process frame is written, at its physical address, into the existing table, and the faulting address now translates to it. |
| DirectPageTable.PageTable.constructor | MP3/MP3_Sources/page_table.C:53-89 | Two new kernel frames become the directory and the shared table. The shared table identity-maps the shared region, slot 0 names it and the other shared slots are absent. There is no recursive slot. |
| DirectPageTable.PageTable.BuildTables | MP3/MP3_Sources/page_table.C:58-86 | The memory half of that constructor. |
| DirectPageTable.PageTable.Load | MP3/MP3_Sources/page_table.C:92-98 | `load` makes this table the current one. |
| ThreadQueue.RoundRobinQueue.constructor | MP5/MP5_Sources/round_robin_queue.H:22-28 | A new queue is empty. |
| ThreadQueue.RoundRobinQueue.WithThread | MP5/MP5_Sources/round_robin_queue.H:30-34 | A one-node queue holding the thread, or an empty one for null. |
| ThreadQueue.RoundRobinQueue.EnqueueThread | MP5/MP5_Sources/round_robin_queue.H:37-52 | The thread joins the back of the queue. An empty head takes it with no new node. Otherwise exactly one new node, returned as `added`, holds the thread at the end; the head keeps its thread. |
| ThreadQueue.RoundRobinQueue.Dequeue | MP5/MP5_Sources/round_robin_queue.H:54-74 | The front thread is returned and removed, or null is returned and nothing changes when the queue is empty. No node is added. |
| ThreadQueue.FifoOrder | MP5/MP5_Sources/round_robin_queue.H:37-74 | Three threads enqueued in turn come out in the same order, and then the queue is empty. |
| Termination.Survivors | MP6/MP6_Sources/scheduler.C:93 | The threads kept by a termination: never more than were queued. |
| Termination.AsWrittenRound | MP6/MP6_Sources/scheduler.C:94-101 | One round of the loop: the head is dropped when its id matches, which shortens the queue by one, or else moved to the back, which keeps the length. |
| Termination.AsWrittenPass | MP6/MP6_Sources/scheduler.C:94-101 | The loop as written, bounded by the live size from round `i` on: it never makes the queue longer. |
| Termination.FixedPass | MP6/MP6_Sources/scheduler.C:94-101 | The same rounds bounded by the size the queue had when the pass started: it never makes the queue longer. |
| Termination.SurvivorsMembers | MP6/MP6_Sources/scheduler.C:93 | A thread survives exactly when it was queued and its id differs from the terminated one. |
| Termination.AsWrittenRotates | MP6/MP6_Sources/scheduler.C:94-101 | Rounds that meet only other threads move them from the front to the back, one per round. |
| Termination.AsWrittenWithoutMatch | MP6/MP6_Sources/scheduler.C:91-102 | Terminating a thread that is not queued leaves the ready queue exactly as it was. |
| Termination.AsWrittenSingleMatch | MP6/MP6_Sources/scheduler.C:91-102 | Terminating a thread queued once between `a` and `b` removes it, and the last thread of `b` (if any) comes out in front of `a`. |
| Termination.AsWrittenKeepsSurvivors | MP6/MP6_Sources/scheduler.C:91-102 | For any queue, `terminate` as written keeps each other thread exactly as many times as it was queued. |
| Termination.AsWrittenOnlyRemoves | MP6/MP6_Sources/scheduler.C:91-102 | `terminate` as written never adds a thread. |
| Termination.FixedPassAppendsSurvivors | MP6/MP6_Sources/scheduler.C:94-101 | `k` rounds over a queue `s + r` with `|s| = k` leave `r` followed by the survivors of `s`. |
| Termination.FixedPassFilters | MP6/MP6_Sources/scheduler.C:91-102 | A pass bounded by the starting size leaves exactly the survivors, in order. |
| Termination.TerminateReordersSurvivors | MP6/MP6_Sources/scheduler.C:94-97 | Terminating `x` in `[x, b1, b2]` as written leaves `[b2, b1]`, not the filter `[b1, b2]`. |
| Scheduling.Scheduler.constructor | MP6/MP6_Sources/scheduler.C:48-53 | Empty ready queue, size 0, no disk. |
| Scheduling.Scheduler.Yield | MP6/MP6_Sources/scheduler.C:55-76 | When a registered disk is ready and has waiters, its front thread is dispatched and removed. Otherwise the front ready thread is dispatched and removed, or nobody when the ready queue is empty. The other queue is unchanged and the sizes stay equal to the queue lengths. |
| Scheduling.Scheduler.Resume | MP6/MP6_Sources/scheduler.C:78-82 | The thread joins the back of the ready queue and the size follows. |
| Scheduling.Scheduler.Add | MP6/MP6_Sources/scheduler.C:84-89 | The thread joins the back of the ready queue and the size follows. |
| Scheduling.Scheduler.TerminateRound | MP6/MP6_Sources/scheduler.C:95-100 | One round of the loop: the ready queue becomes one round as written of the old queue, and the size follows. |
| Scheduling.Scheduler.Terminate | MP6/MP6_Sources/scheduler.C:91-102 | The ready queue becomes the pass as written applied to the old queue. The size stays equal to its length. |
| Scheduling.Scheduler.TerminateKeepingOrder | MP6/MP6_Sources/scheduler.C:91-102 | With the pass bounded by the starting size, the ready queue becomes exactly the old queue without the terminated thread, in order. |
| Scheduling.Scheduler.PassKernelDiskObjectToScheduler | MP6/MP6_Sources/scheduler.C:104-106 | The disk becomes the one `yield` serves, and the ready queue is untouched. |
| Scheduling.BlockingDisk.constructor | MP6/MP6_Sources/blocking_disk.C:33-38 | A new disk has an empty waiting queue of size 0. |
| Scheduling.BlockingDisk.WaitUntilReady | MP6/MP6_Sources/blocking_disk.C:40-47 | A ready device changes nothing. A busy one appends the current thread to the disk queue and yields, with the outcome of `yield` on that state. |
| Scheduling.BlockingDisk.DiskEnqueue | MP6/MP6_Sources/blocking_disk.C:49-52 | The thread joins the back of the disk queue and the size follows. |
| Scheduling.BlockingDisk.IsReady | MP6/MP6_Sources/blocking_disk.C:54-56 | The disk reports the device's readiness and changes nothing. |
| Scheduling.BlockingDisk.Read | MP6/MP6_Sources/blocking_disk.C:61-65 | The block's 512 bytes land in the buffer, the rest of the buffer is kept, and the disk's queue is untouched. |
| Scheduling.BlockingDisk.Write | MP6/MP6_Sources/blocking_disk.C:68-71 | The block becomes the buffer's first 512 bytes and the queue is untouched. |
| Scheduling.ReadyThreadsRunInOrder | MP6/MP6_Sources/scheduler.C:55-89 | Threads added or resumed are dispatched in the order they joined. An empty queue dispatches nobody. |
| Scheduling.DiskWaiterRunsFirst | MP6/MP6_Sources/scheduler.C:58-62 | A thread blocked on the registered disk runs before an already-ready thread once the disk is ready. |

## Left out

- Memory: frames are values in a map held by one object, not arrays the code writes through pointers. Aliasing between a frame and another object is not modelled.
- Memory: the shared 4 MiB that the first table identity-maps is not memory in the model, unless a pool handed out those frames.
- Words are 32-bit values written as bounded integers. Shifts, masks and ORs with flags below bit 12 are written as the division, remainder and addition they compute.
- Registers: `read_cr2`, `read_cr3`, `write_cr3`, `read_cr0` and `write_cr0` are not modelled. The faulting address and error code are parameters, and the loaded directory is the current table's frame. The TLB flush at the end of `free_page` is not modelled.
- `Console::puts` output is not modelled.
- `PAGE_SIZE` (4096) and `MAX_VIRTUAL_MEMORY_POOLS` come from headers that are not part of this model. The pool bound is taken to be 10.
- `VMPool::is_legitimate` is a function parameter. vm_pool.C itself is not part of this model.
- `ContFramePool` internals are not modelled. A pool hands out fresh frames from its own range and logs releases.
- RecursivePageTable.PagingSystem.HandleFault: requires two frames to be available in the process pool. The source does not handle an exhausted pool.
- RecursivePageTable.PagingSystem.HandleFault: requires that a not-present fault comes with an address whose walk hits an absent entry, which is what the processor guarantees.
- RecursivePageTable.PagingSystem.HandleFault: models the failed `assert` for an unclaimed address as a `halted` result rather than a stop.
- DirectPageTable.PagingSystem.HandleFault: requires one available process frame and the same processor guarantee.
- DirectPageTable.PagingSystem.HandleFault: reads the directory and writes the page table physically. The source dereferences those addresses with paging on, which matches only while the kernel frames holding them are identity-mapped; the model does not tie the kernel pool's range to the shared region, so it also resolves faults in configurations where the source's own store would fault.
- DirectPageTable.PageTable.constructor: its stores, like those of the MP4 constructor, are modelled as physical writes.
- RecursivePageTable.PageTable.FreePage: requires the page's directory slot to be present and below 1023. An absent slot makes the window load fault, which is not modelled. Slot 1023 does not fault: its window is the directory, so the code would release a page-table frame and clear directory slot `ti`, and at `ti == 1023` it would clear the self-map, which the table's validity rules out; that case is not modelled.
- RecursivePageTable.PageTable.FreeMappedPage: the same requires as FreePage and for the same reasons: an absent slot makes the window load fault, and slot 1023 would free a whole page table and, at `ti == 1023`, clear the self-map.
- RecursivePageTable.PageTable.constructor: its stores, and those of `BuildTables`, are modelled as physical writes. That matches the source only while paging is off or the two new frames are identity-mapped; the constructor does not promise it.
- RecursivePageTable.PageTable.constructor: requires 1 to 1024 shared frames. With zero frames the code writes before the directory. The table is proved valid only for exactly 1024.
- DirectPageTable.PageTable.constructor: requires 1 to 1024 shared frames, and is proved valid only for exactly 1024.
- ThreadQueue.RoundRobinQueue.EnqueueThread: takes a non-null thread. Enqueuing null into an empty queue is not modelled.
- Node deletion in `dequeue` is not modelled. The unlinked node simply leaves the queue's footprint.
- Scheduling.BlockingDisk.WaitUntilReady: requires the system scheduler to have this disk registered or none.
- Scheduling.Scheduler.PassKernelDiskObjectToScheduler: requires the disk's queue to be separate from the ready queue.
- `Thread::dispatch_to`, `Thread::CurrentThread`, thread ids and context switching are not modelled. The dispatched thread is the result, the current thread is a parameter, and the id is a field.
- The device's readiness is a parameter. The disk's readiness when `yield` runs inside `wait_until_ready` is a second parameter.
- Scheduling.BlockingDisk.Read: SimpleDisk's port I/O is not part of this model. The device is a sequence of blocks held by the disk, and an out-of-range block is excluded by a requires.
- Scheduling.BlockingDisk.Write: the same device model as Read.
- Interrupts and concurrency between threads are not modelled.

## Findings

| source | as written | input that shows it | evidently intended | confidence | as-written member | corrected member |
|---|---|---|---|---|---|---|
| MP6/MP6_Sources/scheduler.C:94-100 | The loop bound re-reads `size_of_queue`, which dropping the matching thread has just decremented, so the pass ends one round early and the survivors come back rotated. | A ready queue `[x, b1, b2]` and `terminate(x)` leave `[b2, b1]` (Termination.TerminateReordersSurvivors). | The other threads stay queued in their order: `[b1, b2]`. | medium; not executed | Scheduling.Scheduler.Terminate | Scheduling.Scheduler.TerminateKeepingOrder |
| MP4/MP4_Sources/page_table.C:230-232 | `free_page` releases `entry / PAGE_SIZE` whether or not the entry is present. | A page never touched, in a 4 MiB region where another page faulted, has entry `0 \| PAGE_LEVEL_USER` (RecursivePageTable.UntouchedPageNamesFrameZero). Freeing it releases frame 0. | Release a frame only for a page that is mapped. | low; not executed | RecursivePageTable.PageTable.FreePage | RecursivePageTable.PageTable.FreeMappedPage |
