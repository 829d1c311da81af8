# A model of the kernel's memory management, scheduler and console

This project models five parts of the kernel in Dafny and proves what they do on every input and in every
run:

- **the buddy allocator** (`kernel/mm/buddy.c`): the free lists inside the managed memory, the two bitmaps, the
  counters, and the binary tree that all four describe;
- **physical frames** (`kernel/mm/memory_map.c`, `kernel/mm/frame.c`): the map of memory areas, and the allocator
  that takes frames from the map and from a stack that lies in the free frames themselves;
- **virtual memory** (`kernel/mm/pages.c`, `kernel/arch/x64/paging_init32.c`): the boot mapping, recursive
  addressing of page tables, reference counts in page table entries, lazily mapped ranges, unmapping;
- **the scheduler** (`kernel/core/task.c`): two levels of rings whose heads rotate;
- **the console** (`kernel/arch/x64/io/tty.c`): a ring of 30 lines that agrees with 25 rows of video memory.

The C structs are classes whose methods change their fields; what the methods do is stated by functions on
mathematical values (a tree, a stack, a page table tree, a queue, a terminal), and the laws are proved about
those. Page table entries and addresses are modelled twice: `Words` sees the fields of an entry, `EntryBits`
its 64 bits, and lemmas connect the two. `dafny verify dfyconfig.toml` checks everything.

| files | what they hold |
|---|---|
| `Bits`, `Bitmap` | powers of two, exclusive or; byte bitmaps as sequences of bits |
| `BuddyTree`, `BuddyHeap`, `BuddyLinks`, `BuddyBits`, `BuddyRuns`, `BuddyExample`, `Buddy` | the tree of blocks, the heap operations on it, lists in memory, bits and addresses, whole runs, a run that breaks the lists, and the allocator itself |
| `MemoryMap`, `FrameSpec`, `Frame` | the map of areas; the frames to come and the stack of free frames; the frame allocator |
| `Words`, `PageTree`, `Pages`, `Addresses`, `Lazy`, `Unmap`, `UnmapCases`, `EntryBits` | physical memory, the tree of page tables, mapping and unmapping of one page, of ranges, bit by bit |
| `PagingInit`, `Boot` | the boot mapping, and how it becomes the first tree of page tables |
| `RoundRobin`, `Scheduler` | the queue of runnable threads; the rings |
| `TerminalSpec`, `Tty` | an unbounded terminal; the console |

## Model

| member | source | states |
|---|---|---|
| Bits.CeilToPowerOfTwoIsLeast | kernel/include/util/math.h:3-11 | the result is the least power of two that is not below the request, and less than twice the request |
| Bitmap.FlipBit | kernel/include/util/bitmap.h:4-9 | exactly the named bit of the bitmap changes |
| Bitmap.GetBit | kernel/include/util/bitmap.h:11-16 | the byte arithmetic reads the named bit |
| Bitmap.SetBit | kernel/include/util/bitmap.h:18-23 | exactly the named bit becomes 1 |
| Bitmap.ResetBit | kernel/include/util/bitmap.h:25-30 | exactly the named bit becomes 0 |
| BuddyTree.Tiling | kernel/mm/buddy.c:130-182 | every leaf of the managed memory lies in exactly one block of a well-formed tree |
| BuddyHeap.AllocateOk | kernel/mm/buddy.c:72-99 | allocation keeps the heap in order: maximal coalescing, lists with exactly the free nodes of their level |
| BuddyHeap.DeallocateOk | kernel/mm/buddy.c:205-233 | so does freeing any live block, and exactly that block is no longer live |
| BuddyBits.BuddyAddress | kernel/mm/buddy.c:260-266 | flipping the size bit of a relative address gives the address of the buddy |
| BuddyBits.ParentIndex | kernel/mm/buddy.c:118-128 | the index arithmetic on addresses finds the bit of a block's parent |
| Buddy.Allocator.constructor | kernel/mm/buddy.c:39-65 | one free block of the whole size and clear bitmaps; in order exactly when the memory handed over holds null pointers in its first node |
| Buddy.Allocator.Split | kernel/mm/buddy.c:158-182 | the block in hand becomes its first half, the second half is the head of its list, both bitmaps follow, no live block is written to |
| Buddy.Allocator.CreateBlock | kernel/mm/buddy.c:130-153 | the head of the nearest larger list is carved down to the level, or there is none |
| Buddy.Allocator.RemoveFromList | kernel/mm/buddy.c:184-196 | the pointers, head and counter after unlinking, on whatever the node's pointers say |
| Buddy.Allocator.Allocate | kernel/mm/buddy.c:72-99 | refused exactly when the rounded size exceeds the free size; otherwise the heap, the bitmaps, the lists and the counters are those of the tree operation, the free size is lower by the rounded size, and live blocks keep their contents |
| Buddy.Allocator.DeallocateLevel | kernel/mm/buddy.c:205-233 | tree, bitmaps and counters are always those of the tree operation; the lists are in order if and only if the block was safe to free, and otherwise memory holds no heap at all |
| Buddy.Allocator.AllocationLevel | kernel/mm/buddy.c:247-258 | the level at which a live block was allocated is found from its address |
| Buddy.Allocator.AllocationSize | kernel/mm/buddy.c:241-245 | and so is its size |
| Buddy.Allocator.Deallocate | kernel/mm/buddy.c:235-239 | freeing by address frees what was allocated there |
| Buddy.Allocator.DeallocateFast | kernel/mm/buddy.c:198-203 | freeing with any size that rounds to the block's size does the same |
| Buddy.Allocator.LiveBlocksDisjoint | kernel/mm/buddy.c:72-99 | live blocks lie in the managed memory, aligned to their own size, and do not overlap |
| Buddy.Allocator.WriteLive | kernel/mm/buddy.c:72-99 | whatever the owner of a live block writes into it, the allocator stays in order |
| Buddy.Allocator.AbsentBitsClear | kernel/mm/buddy.c:101-128 | every bit of a node that is not split is 0, and inside the bitmap |
| Buddy.Allocator.AllocationBitMeaning | kernel/mm/buddy.c:101-116 | for a split node the split bit is 1, its children are not both free, and the allocation bit says whether one of them is |
| Buddy.Allocator.FreeSizeIsCounted | kernel/mm/buddy.c:181-232 | the free size is the sum over the levels of the counter times the block size |
| Buddy.Allocator.AllFreed | kernel/mm/buddy.c:205-233 | with nothing live the state is the initial one: one block, clear bitmaps, full free size |
| BuddyRuns.ReachableInvariant | kernel/mm/buddy.c:72-233 | after any run of requests and frees the heap is in order, its blocks tile the memory without overlap, and sizes of live and listed blocks add up |
| BuddyRuns.AllFreedIsInitial | kernel/mm/buddy.c:205-233 | a heap in order with nothing live has the initial tree and lists, whatever the order of frees was |
| BuddyRuns.FreeUndoesAllocate | kernel/mm/buddy.c:72-99 | freeing the block just allocated is safe and restores tree and lists |
| BuddyRuns.StaleOrigin | kernel/mm/buddy.c:143-145 | a leftover `prev` arises only in a list of at least two blocks from which a request of a smaller size took the head |
| BuddyRuns.FreeingIsClean | kernel/mm/buddy.c:205-233 | frees never make one |
| BuddyRuns.NoStaleSafe | kernel/mm/buddy.c:205-233 | without leftovers every block is safe to free, and freeing it leaves none |
| BuddyExample.ReachableUnsafeHeap | kernel/mm/buddy.c:143-145 | a run of requests and safe frees leads to a live block that is not safe to free |
| MemoryMap.MemoryMap.AddArea | kernel/mm/memory_map.c:9-36 | the map covers exactly the old areas and the new interval, with gaps between its areas; a full map stays as it is |
| MemoryMap.MemoryMap.Sort | kernel/mm/memory_map.c:40-51 | the same areas, ordered |
| MemoryMap.MemoryMap.Sanitize | kernel/mm/memory_map.c:38-67 | the assertion passes exactly when every area has a whole page or begins inside the last page of the address space; then the areas are ordered, disjoint, aligned and hold exactly the whole pages of the old union if and only if none begins there |
| MemoryMap.BeginWraps | kernel/mm/memory_map.c:56-63 | an area that begins there: the assertion passes and the result is not the whole pages |
| FrameSpec.BumpContents | kernel/mm/frame.c:86-96 | the frames to come are exactly the aligned ones from `begin` on that lie in an area |
| FrameSpec.OverlapIsBump | kernel/mm/frame.c:55-60 | the free size computed at the start is 4096 times their number |
| Frame.FrameAllocator.constructor | kernel/mm/frame.c:48-84 | the usable frames of the range are all still to come, and nothing is handed out |
| Frame.FrameAllocator.Extend | kernel/mm/frame.c:86-96 | hands out the frames to come one after the other, without indexing past the map |
| Frame.FrameAllocator.AllocFrame | kernel/mm/frame.c:115-148 | the top of the stack, or the next frame of the map, zeroed; the other frames of the stack still lie in memory; no frame is out twice |
| Frame.FrameAllocator.DeallocFrame | kernel/mm/frame.c:150-165 | for any usable frame: it becomes the top of the stack if and only if it was handed out and the stack is not empty or was never used; otherwise memory holds no stack that accounts for the free frames |
| Frame.FrameAllocator.DrainedStackBreaks | kernel/mm/frame.c:99-165 | a run that gets there from any allocator whose stack is empty and was never used |
| PageTree.RecursiveSlot | kernel/mm/pages.c:43-53 | walking the recursive path to level `k` ends at the table that a walk of the address uses at depth `k` |
| PageTree.RecursiveWrite | kernel/mm/pages.c:43-53 | and the hardware lets the kernel write through that path, because all entries on it are present and writable |
| EntryBits.PathIsIndices | kernel/include/mm/pages.h:57-61 | the path of an address, by division, is what the hardware cuts out of its bits |
| EntryBits.Pointers | kernel/mm/pages.c:43-53 | the loop computes the pointers for all levels |
| EntryBits.PointerIsRecursivePath | kernel/mm/pages.c:48-53 | a pointer's own path is the recursive path, and its offset the index at level `k` |
| EntryBits.RecursiveAddressing | kernel/mm/pages.c:43-64 | the hardware gets from `entries[k]` to the very word that a walk of the address reads at depth `k` |
| EntryBits.IncreaseCounter | kernel/mm/pages.c:66-69 | adding to the 64-bit entry adds one to its count and changes no other field |
| EntryBits.DecreaseCounter | kernel/mm/pages.c:71-75 | the same for subtraction, and when the result tests as zero; a count that is zero already borrows and sets the bit that forbids execution |
| EntryBits.CountFits | kernel/include/mm/pages.h:49-52 | while the tables are in order every count is that of its table, and fits ten bits |
| EntryBits.MappedEntry | kernel/mm/pages.c:113-142 | the bits that `convert_flags` and `map_page` put together are the entry of the model |
| EntryBits.TableEntry | kernel/mm/pages.c:84-84 | the bits of a new table's entry let everything through |
| EntryBits.FilledEntry | kernel/mm/pages.c:197-199 | so are those that the fault handler puts together |
| Pages.VirtualMemory.Ptes | kernel/mm/pages.c:43-64 | the mask has exactly the levels that are present from the top down |
| Pages.VirtualMemory.ChangeCounter | kernel/mm/pages.c:66-75 | the count of one table changes, and no page, no other count, no other field of a table's entry and no data |
| Pages.VirtualMemory.EnsurePtExists | kernel/mm/pages.c:77-94 | the missing tables are made in new frames, one each, and all counts are exact; no page, no other table and no data change; a walk through the new tables is granted what the tables above them let through |
| Pages.GrantedAfter | kernel/mm/pages.c:77-94 | between any two states: when all tables that only the second one has let everything through, a walk is granted there what the tables of the first one let through |
| Pages.VirtualMemory.CleanPts | kernel/mm/pages.c:96-106 | the tables whose counts run out are unlinked and freed, up to the first that keeps an entry, and no others |
| Pages.VirtualMemory.MapPage | kernel/mm/pages.c:131-144 | the page has its entry, every other page is as before, all counts are exact, and exactly the missing tables took frames; the hardware allows with the page what its entry permits and the tables that were there before let through |
| Pages.VirtualMemory.UnmapPage | kernel/mm/pages.c:146-155 | the page is gone if and only if its table's count said it was the last one; otherwise it is still there and the count is off by one; what the hardware allows with the pages that are still there does not change |
| Pages.VirtualMemory.FreeFrame | kernel/mm/frame.c:150-165 | the tables stay in order if and only if the frame was handed out and holds no table; one that holds a table is then free, and a table in whichever tree memory holds |
| Pages.VirtualMemory.MapThenUnmap | kernel/mm/pages.c:131-155 | mapping an absent page and unmapping it restores the tables, the counts and the frames if and only if its last-level table did not exist before |
| Lazy.AddressSpace.MapRange | kernel/mm/pages.c:157-168 | whether frames come at once or later, a program sees new pages of zeros, writable as asked; each entry has the flags that were asked for, the hardware allows that much as far as the tables that were there before do, and other pages keep their entries and rights; the exact number of frames that it costs |
| Lazy.CostIsCount | kernel/mm/pages.c:157-168 | that number is one for each table that is missing and one for each page that gets its frame at once |
| Lazy.EagerIsMemory | kernel/mm/pages.c:157-204 | what eager memory means: a read finds what was last written to its address, or what was there at the start, and a write is refused exactly on a page that is not writable |
| Lazy.AddressSpace.PageFault | kernel/mm/pages.c:187-204 | handled exactly when a write hits a page that waits for its frame; the page gets a frame of its own and may be written to, the other flags and the other entries stay; a program sees no difference |
| Lazy.AddressSpace.Run | kernel/mm/pages.c:157-204 | any run of reads and writes, allowed or refused by the rights of the whole walk, has the outcomes and leaves the contents that it would have with eager memory, and takes one frame for each waiting page that it writes to |
| Unmap.UnmapOne | kernel/mm/pages.c:173-183 | tables and frames are in order afterwards if and only if the page did not give back a frame that was free already or holds a table; if it was free, memory holds no stack of free frames |
| Unmap.UnmapRange | kernel/mm/pages.c:170-185 | all other pages keep what they hold if and only if none of their tables has as many present pages in the range as it counts, and no page of the range gives back the zero page, the frame of another page, a frame that is free already, or a table; every other frame is kept, and pages that are still there keep their rights |
| Unmap.WhatIsGone | kernel/mm/pages.c:170-185 | while all counts are right, the other pages all stay, and a page of the range is gone if and only if the range has all present pages of its table |
| Unmap.WhenCountsAreRight | kernel/mm/pages.c:170-185 | all counts are right afterwards if and only if every table with a wrong count or a page in the range has vanished |
| Unmap.CountIsPresent | kernel/mm/pages.c:139-141 | the count of a table is the number of its present pages |
| Unmap.StillRemovable | kernel/mm/pages.c:170-185 | what could be unmapped before can still be unmapped after another range was |
| UnmapCases.UnmapReadOnly | kernel/mm/pages.c:157-185 | a page mapped read-only and lazily and unmapped again gives the zero page away |
| UnmapCases.MapThenLeave | kernel/mm/pages.c:131-185 | of two pages mapped in one new table, the one that is unmapped is still present |
| UnmapCases.UnmapTwice | kernel/mm/pages.c:131-185 | in any state: of two pages that their table counts, the first one unmapped, mapped again and unmapped again takes the second one with it |
| UnmapCases.MapThenLose | kernel/mm/pages.c:131-185 | the whole run, from a new table on |
| UnmapCases.UnmapAgain | kernel/mm/pages.c:170-185 | unmapping a page of an unmapped range once more keeps the frame allocator in order if and only if the page was gone or waits for a frame |
| UnmapCases.MapThenFreeTwice | kernel/mm/pages.c:131-185 | a run that gives a frame back twice, after which memory holds no stack of free frames |
| UnmapCases.MapThenShare | kernel/mm/pages.c:131-185 | a run after which a mapped page's frame is free, because a page unmapped before still named it |
| PagingInit.BootTables.Initialize | kernel/arch/x64/paging_init32.c:18-109 | the contents of all tables that the boot code fills, and where the kernel ends |
| PagingInit.KernelIsMapped | kernel/arch/x64/paging_init32.c:18-109 | a walk of an address of the kernel's gigabyte, from page `first` on, finds its entries present if and only if it lies below the kernel's end, and leads to the very page; it is executable exactly in the text section, writable exactly before it and from the data section on, and never for users; `first` is 0 after the boot code and 2 once the first two pages are windows |
| PagingInit.KernelRights | kernel/arch/x64/paging_init32.c:18-109 | the same of the rights that the whole walk grants, and no address of the kernel can be both written to and executed |
| PagingInit.IdentityWalk | kernel/arch/x64/paging_init32.c:25-36 | a walk of the first gigabyte gets to the identity directory |
| PagingInit.DirectoryCount | kernel/arch/x64/paging_init32.c:37-44 | the page directory's count is the number of its entries |
| PagingInit.BootCounts | kernel/arch/x64/paging_init32.c:51-52 | a last-level table's count is right if and only if it is the last one and the kernel does not end with it |
| Boot.BootIsNoTree | kernel/arch/x64/paging_init32.c:25-28 | with the identity mapping the boot tables are not a tree |
| Boot.DisableIdentityPaging | kernel/mm/pages.c:10-17 | two writes through the recursive slot clear the identity mapping and nothing else, whatever the windows show |
| Boot.BootTree | kernel/mm/pages.c:10-17 | after that the boot tables are a tree |
| Boot.BootCountsExact | kernel/arch/x64/paging_init32.c:23-52 | in which exactly the tables named have the count of their entries, less the one that the first `unmap_page` takes off |
| Boot.WindowTableCount | kernel/mm/pages.c:24-24 | the first `unmap_page` leaves a wrong count in every case: one too few below two megabytes, and from two megabytes on a borrow that forbids execution (if and only if) |
| Boot.WindowPointers | kernel/mm/frame.c:14-43 | the addresses written out in the frame allocator are the pointers that `ptes` makes for the two windows |
| Boot.UnmapWindow | kernel/mm/pages.c:146-155 | on the boot tables it lowers one count, frees no table, and leaves the window present |
| Boot.RemapWindow | kernel/mm/pages.c:24-27 | the second window shows its old frame again, the zero page is zero, and the count stays lowered |
| Boot.StillKernel | kernel/mm/pages.c:19-30 | the kernel's other pages do not notice what the windows show |
| Boot.StillGranted | kernel/mm/pages.c:19-30 | the rights to these pages stay what the sections are for, except that the first two megabytes cannot be executed when the directory's first entry forbids it |
| Boot.StartVirtualMemory | kernel/mm/pages.c:19-30 | the state left by the boot code is one from which all results on virtual memory start, with the count of the first table off by one below two megabytes; it still maps the kernel, apart from the two windows, and grants what the sections are for, except that from two megabytes on the code in the first two cannot be executed |
| RoundRobin.EveryThreadOnce | kernel/core/task.c:212-233 | serving the queue `R * n` times serves a thread exactly once if its task has `n` of the runnable threads and `R` tasks have one |
| RoundRobin.ServedBy | kernel/core/task.c:217-229 | moving the heads past the first runnable thread of the first task that has one serves the queue once |
| Scheduler.CListAddThread | kernel/include/ds.h:12-32 | the value goes in before the head, and the ring stays a ring |
| Scheduler.NewKernelTask | kernel/core/task.c:38-61 | the kernel's ring has the idle thread and the main thread |
| Scheduler.NextThread | kernel/core/task.c:220-228 | the first running thread after the head, or none and the ring where it was |
| Scheduler.Search | kernel/core/task.c:212-229 | the first such thread over all tasks, from the one after the current one on; the loops end |
| Scheduler.Schedule | kernel/core/task.c:212-233 | the first running thread of the first task that has one, or the idle thread exactly when no task has one |
| Scheduler.Scheduler.Preempt | kernel/core/task.c:235-251 | each call serves the queue once and keeps all rings in order |
| Scheduler.Scheduler.PreemptRepeatedly | kernel/core/task.c:235-251 | any number of calls choose what serving the queue so often chooses |
| Scheduler.Scheduler.Fairness | kernel/core/task.c:212-251 | in every state, every runnable thread is chosen exactly once in `R * n` consecutive calls, when its task has `n` runnable threads and `R` tasks have one |
| Scheduler.Scheduler.NobodyWaits | kernel/core/task.c:230-232 | the idle thread is chosen if and only if no thread at all is runnable |
| Scheduler.Scheduler.CreateThread | kernel/core/task.c:109-121 | the new thread is runnable and is linked in front of its task's head |
| Scheduler.Scheduler.CreateTask | kernel/core/task.c:175-190 | the new task is linked in front of the current one, with one runnable thread |
| TerminalSpec.TextWraps | kernel/arch/x64/io/tty.c:69-79 | printable text from the start of a line fills it and the following lines, 80 to a line, and disturbs no earlier line |
| TerminalSpec.TextLayout | kernel/arch/x64/io/tty.c:49-79 | text with newlines leaves its pieces one below the other, each from the start of a line on, 80 characters to a line, and the cursor behind the last one |
| TerminalSpec.PiecesJoined | kernel/arch/x64/io/tty.c:49-57 | the pieces are those between the newlines |
| TerminalSpec.ControlCharacters | kernel/arch/x64/io/tty.c:49-110 | newline starts a blank line at its first column, carriage return goes back to the start of the line, tab goes to the next multiple of the tab size and to a new line exactly if that is not on this one, and all others do nothing |
| TerminalSpec.PrintableCharacter | kernel/arch/x64/io/tty.c:69-79 | a character goes to the cursor's place, or to the start of a new line if this one is full, and nothing else changes |
| TerminalSpec.StringIsAscii | kernel/arch/x64/io/tty.c:97-124 | a string leaves what its ASCII characters leave, because `char` is signed |
| Tty.Tty.LineUp | kernel/arch/x64/io/tty.c:26-47 | the screen shows the terminal with one more line; the loop over the ring ends after 24 copies |
| Tty.Tty.PutChar | kernel/arch/x64/io/tty.c:97-110 | for every character the video memory shows what an unbounded terminal would show (see the laws of `TerminalSpec`) |
| Tty.Tty.PutString | kernel/arch/x64/io/tty.c:118-124 | and so for every string |
| Tty.Tty.SetTabSize | kernel/arch/x64/io/tty.c:126-131 | the tab size changes exactly when it is positive and less than the width |
| Tty.Tty.Clear | kernel/arch/x64/io/tty.c:133-140 | all of the video memory is zero, the cursor is home, no line is forgotten, and the ring is one line further on |
| Tty.Tty.ScreenIsRing | kernel/arch/x64/io/tty.c:20-47 | row `r` up to the cursor's row is ring line `(buffer_row - row + r) mod 30`, and rows below are blank |

## Findings

The code is modelled as it stands. These properties, which its comments or its design promise, do not hold of
it; each has the exact condition under which they do.

- **A leftover `prev` in the free lists** (`kernel/mm/buddy.c:143-145`). `create_block` takes the head of a
  larger list without clearing `prev` in the next node. Freeing a block that coalesces with such a node links
  through it to a block that is not free. *Input*: the run of `BuddyExample.ReachableUnsafeHeap`. *Condition*:
  `SafeToFree` in `Buddy.Allocator.DeallocateLevel` (if and only if): no buddy that coalesces is the head of
  its list with a leftover `prev`. `BuddyRuns.StaleOrigin` says where leftovers come from.
- **The drained stack of frames** (`kernel/mm/frame.c:107-109`, `154`). When the last frame is taken from the
  stack, the page table entry still names it; the next freed frame is chained to it. *Input*: take, free,
  take, free (`Frame.FrameAllocator.DrainedStackBreaks`). *Condition*: the stack is not empty or was never used
  (`Frame.FrameAllocator.DeallocFrame`, if and only if).
- **Unmapping leaves the page** (`kernel/mm/pages.c:152`). The line clears a local pointer, not the entry, so a
  page stays mapped, to a frame that is given back, unless the whole table goes. *Input*: two pages in one
  table, one of them unmapped (`UnmapCases.MapThenLeave`). *Condition*: `Pages.VirtualMemory.UnmapPage`, `Pages.VirtualMemory.MapThenUnmap`
  and, for ranges, `Unmap.WhatIsGone` (if and only if).
- **Unmapping takes other pages** (`kernel/mm/pages.c:139-141`, `152`). Mapping a page that is still present
  does not count it again, so a later `unmap_range` can free a table with live pages in it. *Input*:
  `UnmapCases.MapThenLose`. *Condition*: `Unmap.UnmapRange` (if and only if): the table has more references than
  present pages in the range.
- **A frame given back twice** (`kernel/mm/pages.c:152`, `174-182`, `kernel/mm/frame.c:150-165`). A page that is
  still there after `unmap_range` is unmapped and its frame freed once more by the next one. If the frame is
  free, it is chained to itself; if another page has it by then, that page loses it. *Input*:
  `UnmapCases.MapThenFreeTwice` and `UnmapCases.MapThenShare`. *Condition*: `Frame.FrameAllocator.DeallocFrame`,
  `Pages.VirtualMemory.FreeFrame`, `UnmapCases.UnmapAgain` and `Unmap.UnmapRange` (if and only if).
- **The zero page is given away** (`kernel/mm/pages.c:175-182`). A page that was mapped without `MAP_RW` and
  without `MAP_IMMEDIATE` shares the zero page but does not have `PG_LAZY`. *Input*: `UnmapCases.UnmapReadOnly`.
  *Condition*: `Unmap.UnmapRange` (if and only if).
- **The begin of an area wraps around** (`kernel/mm/memory_map.c:56-58`). *Input*: `MemoryMap.BeginWraps`.
  *Condition*: `MemoryMap.MemoryMap.Sanitize` (if and only if).
- **Reference counts of the boot mapping** (`kernel/arch/x64/paging_init32.c:51-52`). Only the last table gets a
  count, and a table that is full gets zero. *Input*: a kernel of two megabytes. *Condition*:
  `PagingInit.BootCounts` (if and only if).
- **The first `unmap_page`** (`kernel/mm/pages.c:24`). It subtracts from the count of the kernel's first table
  although the page stays, and lines 25 and 27 do not add to it, because the page is present. Below two megabytes
  the table counts one entry too few from then on; from two megabytes on the count was zero, and the subtraction
  borrows from the bits above and sets the one that forbids execution, in the first two megabytes and so of the
  code that lies there. *Input*: any kernel. *Condition*: `Boot.WindowTableCount` (if and only if) with
  `EntryBits.DecreaseCounter`; `Boot.StartVirtualMemory` has both in the state from which virtual memory starts.
- **`CLIST_ADD`** (`kernel/include/ds.h:12-32`, `kernel/core/task.c:113`, `183`). The comments say that the new
  element is the next one; it goes in before the head and is the last of the others to be served
  (`Scheduler.CListAddThread`, `Scheduler.CListAddTask`). The model follows the code.
- **Characters of strings** (`kernel/arch/x64/io/tty.c:118-124`). Bytes from 0x80 on are sign-extended and
  ignored, although `tty_putchar` prints them (`TerminalSpec.StringIsAscii`).

## Left out

- Buddy.Allocator.DeallocateLevel: the block that is the whole memory (level 0) is not freed in the model, because the code then shifts by -1 (`buddy.c:121`, `270`).
- Buddy.Allocator.Allocate: a request that passes the guard although no block is large enough is not allowed, because line 94 of `buddy.c` then computes a bit index from a null pointer; requests are at least 1, at most 2^30 (`math.h` shifts an `int`) and round up to at least a leaf.
- Buddy.Allocator.constructor: leaf size and total size are powers of two, a leaf has at least 16 bytes, there are at most 30 levels, and the bitmaps lie outside the managed memory, as in `kernel/mm/alloc.c`.
- Buddy.Allocator.WriteLive: memory is one cell for each leaf, with the two pointers of a free node and the rest of the leaf; bytes inside a leaf are not modelled.
- BuddyRuns.ReachableInvariant: runs free only blocks that are safe to free; what happens after an unsafe one is that memory holds no heap.
- `kernel/mm/alloc.c` (`kalloc`, `krealloc`) and `allocator_print_status` are not part of this model.
- MemoryMap.MemoryMap.Sanitize: the map is not empty; an empty one makes the code read `area[-1]`.
- Frame.FrameAllocator.AllocFrame: the two page table entries through which the allocator looks at frames are one address here; `Boot` has them as entries of the boot tables, and `Pages` not, where every later call of the allocator would change them. TLB entries are not modelled.
- Pages.VirtualMemory.MapPage: enough frames are free (`pages.c` does not check that `get_frame` returned one); addresses are page-aligned and outside slot 510 of the root, through which the tables are seen.
- Pages.VirtualMemory.UnmapPage: the page is present, its table counts it, and frames can be given back; otherwise the code frees table 0 or breaks the stack of frames.
- Pages.VirtualMemory.ChangeCounter: the count is a number here; `EntryBits.CountFits`, `EntryBits.IncreaseCounter` and `EntryBits.DecreaseCounter` connect it with the ten bits.
- Unmap.UnmapRange: the tables of present pages of the range were made by `map_page` and their frames come from the frame allocator, as `map_range` leaves them; frames can be given back at the start; after the first frame that was free already or holds a table nothing more is said, because there are no tables or no stack to go on with; a range does not go around the address space.
- Lazy.AddressSpace.Run: a run has reads and writes of mapped pages that no user bit stops, and enough frames are free for those it writes to; what users may do and what may be executed is said of the walk by `Lazy.AddressSpace.MapRange`, not in runs; the handler for other faults and the order of threads are not modelled.
- EntryBits.RecursiveAddressing: address bits 48 to 51 of an entry, which the hardware reads and the kernel's mask does not, are taken to be zero; large pages are not modelled.
- Boot.StartVirtualMemory: the fault handler is not installed, the kernel has at least two pages, and the frames are those of one range behind the kernel; the two window pages, whose entries change with every later allocation, are excepted from the kernel that stays mapped.
- PagingInit.BootTables.Initialize: sections are page-aligned and in order and the kernel has at most one gigabyte; the identity page directory is not filled, and the upper tables are zero before.
- `new_address_space` and the other callers of `map_range` are not part of this model.
- Scheduler.Scheduler.Preempt: switching contexts, address spaces and stacks, interrupts, and the initial stack frame of a thread are not modelled; thread states change only between calls, and the idle thread is never marked as running.
- Scheduler.Scheduler.CreateThread: its task has threads already; a new one gets its first thread in `Scheduler.NewTask`. The idle thread's entry code and thread numbers are left out.
- Tty.Tty.SetColor: colours are those of the enumeration, less than 16; characters are unsigned 32-bit numbers.
- `LIST_REMOVE`, `printk`, `assert`, `memset`, `memcpy`, multiboot parsing, interrupts and ports are not modelled; assertions of the code are preconditions or results.
