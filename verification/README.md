# Nodery-OS kernel: a verified model

Nodery-OS is a small i386 kernel. This project models its self-contained state
machines and its arithmetic in Dafny and proves what they are for. Machine words
are ranges of `int` with every wrap-around written out; code that updates memory
in place is a class or a method on arrays, proved against functions and predicates
whose own properties are lemmas.

| files | kernel source | main results |
|---|---|---|
| `FrameAllocation.dfy`, `PageTables.dfy`, `Spans.dfy`, `Protection.dfy`, `HeapMapping.dfy`, `DataFrames.dfy`, `Paging.dfy`, `AddressSpaces.dfy` | `kernel/mmap.c`, `create_pd` | `map_page` reaches the tables only through the hardware walk that they define, and changes one page of one address space; frames and tables stay distinct across all address spaces; `create_pd` disturbs no translation but the kernel's two windows, and no frame that holds data; exact prices in frames and bytes of memory; exactly when the screen is visible; nothing but what is meant is mapped, and all of it for the kernel only |
| `Blocks.dfy`, `Heap.dfy`, `Layout.dfy` | `kernel/malloc.c` | the headers in the heap's bytes decode to a list of blocks that tiles the span, over every run; header writes touch no payload; a drained heap is the initial one; a bound on fragmentation; which runs keep to the mapped bytes, and that these are the ones `init_paging` maps |
| `Clusters.dfy`, `FileWrites.dfy`, `FatFiles.dfy` | `kernel/fat.c`, files | chains stay disjoint and acyclic; `fread` and `fwrite` refine a flat byte string; exactly when `fwrite` and `fseek` are right; write, seek and read give the bytes back |
| `CStrings.dfy`, `DirectoryEntries.dfy`, `Directories.dfy` | `kernel/string.c`, `kernel/fat.c`, directories | exactly when the copy routines are right; 8.3 names are unambiguous; lookup is first match over all clusters of a directory; every run of `chdir` follows a path in the tree |
| `LongLong.dfy` | `kernel/sys/longlong.c` | restoring division never drops a bit and is division, signed division is truncating division |
| `Scheduler.dfy` | `kernel/scheduler.c`, `kernel/sys/pic.asm` | bounded waiting over all runs; fair rounds of ticks; a context switch restores what was saved; a task that exits never runs again, one that is created starts with its own stack and directory |
| `TaskCreation.dfy` | `create_task` | the first dispatch of a new task returns to its entry, through the page tables of its own address space, from a stack that the kernel wrote at another page |
| `Numerals.dfy` | `itoa` of `kernel/string.c` | reading back what was written, sign included; exactly when a negative number is written right |

`MachineWords.dfy`, `Arithmetic.dfy`, `ByteStrings.dfy` and `Options.dfy` hold words, facts
about products and division, byte strings, and values that may be missing. The hardware walk
follows section 4.3 ("32-Bit Paging"), and the meaning of the writable and user bits section 4.6,
of the Intel Software Developer's Manual, Volume 3A; division follows section 6.5.5 of
ISO/IEC 9899:1999; file allocation tables and directory entries follow Microsoft's
FAT File System Specification.

## Conventions

- Physical memory is a map from frame numbers to 1024 words each. Every access of
  the kernel to a table goes through `Walk`. The TLB is coherent: `invlpg` follows
  each store to a table of the loaded directory. The bitmap at 0x60000 is kept apart,
  as it lies in the identity-mapped first 4 MiB.
- A bit mask of the low twelve bits is `/ 4096` or `% 4096`.
- Well-formed page tables: each directory has its self-map in entry 1023, tables are
  pairwise distinct within and across directories, are no directories, and no frame at or
  above the allocator's next one is in use. All operations keep this.
- The loaded directory must have the window's table (entry 960) before a directory
  other than the loaded one is edited. It is there whenever that directory is
  reachable at 0xF0000000, so this is no demand of its own.
- The heap's span is 12 + 0x10000000 bytes from 0xE0000000: `init_malloc` does not
  take the first header out of the first block's size (kernel/malloc.c:24), so the
  last twelve bytes lie behind the 256 MiB that `init_paging` maps. The ghost field `reach`
  of the heap records the furthest byte that its code has read or written.
- Every entry of the allocation table stands for a real cluster and is below 0xFFF7,
  entries 0 and 1 are in use, and chains end in 0xFFFF.
- The disk is an array of clusters, indexed by cluster number. A file's chain is a
  ghost parameter of the file operations.
- A `char *` that is read is the bytes from there on, with a NUL somewhere among them.
  `find_entry` copies an entry to the stack; the bytes behind it there are the parameter
  `stack`.

## Where the code does not do what it is meant to do

These are proved, each with the exact condition under which the code is right.

- `init_paging` ignores errors while it maps the heap (kernel/mmap.c:109-112): every
  heap page gets a frame of its own exactly when the pool holds 65536 frames, and the tables
  that are missing, besides what the screen took, that is, on a machine with at least
  0x400000 + 4096 * `BootCost` bytes, which lies between 0x10441000 and 0x107FF000 (`Paging.BootCostIs`); exactly otherwise some page shares frame 0 or
  has no frame (`Paging.Mmu.MapHeap`, `Paging.Mmu.InitPaging`). 64 MiB of memory are too few
  (`Paging.SmallMemory`).
- `create_task` does not look whether `alloc_page` gave it a frame for the stack
  (kernel/scheduler.c:76-78): with an empty pool, and the stack's table already there, it succeeds
  with the stack in frame 0 (`TaskCreation.CreateTask`).
- The framebuffer loops (kernel/mmap.c:104-107, kernel/scheduler.c:56-59) count pages from the
  one that the framebuffer begins in, and miss the last page of a screen that begins too far
  into it: 4 KiB from 0xFD000800 on end in page 0xFD001, which is never visited
  (`Spans.ScreenPageMissed`). The heap loop then takes over every page of the screen that lies in
  the heap's range. After start-up all bytes of the screen are visible exactly if it keeps
  clear of that range, and the pages counted hold it or it ends within the first 4 MiB
  (`Paging.ScreenOutsideHeap`, `Paging.Mmu.InitPaging`). For a new address space see
  `AddressSpaces.SpaceShowsScreen`.
- `malloc` counts on twelve bytes that are not mapped. From a heap that keeps to the mapped
  bytes it leads to one that does exactly if the request is not met from the last block, or
  that block has 24 bytes more (`Blocks.MallocStaysInside`). It stores a header behind the mapped
  bytes itself exactly if the last block is cut with fewer than 24 left over
  (`Heap.KernelHeap.Malloc`). A first request of 0x0FFFFFF0 does (`Blocks.FirstRequestSpills`).
  The twelve bytes are those at 0xF0000000, where `create_pd` sees the directory that it builds
  (`Layout.BytesInPages`).
- On a machine with at least 4 KiB but less than 4 MiB of memory `MAX_PAGES` wraps and
  address 0 becomes a page of the pool, the same value as the report of failure
  (`FrameAllocation.NullIsUnambiguous`).
- `mmap` maps ceil(len / 4096) pages from the page of `virt` on, which hold all `len`
  bytes exactly when the offset in the first page leaves room (`Spans.SpanCovers`): a page
  from 0x800 on is not held (`Spans.UnalignedPage`).
- `fwrite` moves on to another cluster only at the end of a chain. It does what it
  is meant to exactly if it starts in the last cluster or stays in the cluster
  it starts in (`FileWrites.FaithfulExactly`). README.md of the kernel lists this as open.
- `itoa` turns round the digits of a negative number without the last one: -12
  becomes "-21". It is right exactly when all digits are equal (`Numerals.WrittenAsIntended`), and
  exactly then the text reads back as the value (`Numerals.WrittenReads`).
- `fseek` with `SEEK_END` takes the offset off where section 7.19.9.2 of ISO/IEC 9899:1999 adds
  it: of all offsets 0 is right, and -2^31 for a file of at least 2^31 bytes
  (`FatFiles.SeekAsStandard`, which also says where the other origins wrap).
- `mempcpy` (kernel/string.c:46-61) lets the assembly move `dest` and then returns
  `dest + n`, twice as far as the end of the copy. The NUL of `stpcpy` and `strcat` lands there:
  the text can be read back exactly if it is empty or its end was NUL before
  (`CStrings.PastedReads`). So does the padding of `strncpy` and `strncat`: the field
  is the text and zeros, and nothing behind it changes, exactly if the bytes that the padding
  misses, and those that it clears behind the field, were zero before (`CStrings.PaddedIsField`).
  "A" over "xxxx" reads as "Ax" (`CStrings.StaleBytes`). `format_entry` still leaves the
  right 13 bytes, because it clears them first; it clears a byte behind them exactly for
  names of 6 or 7 letters, and for names of 8 letters with an extension of 2
  (`DirectoryEntries.StaysInBuffer`).
- `strcmp` takes its bytes as signed, where section 7.21.4 of ISO/IEC 9899:1999 takes them as
  unsigned: its sign is that of the standard exactly when the bytes where the texts first differ
  are both ASCII, or neither is (`CStrings.SignedOrder`). It has "\x80" before "A"
  (`CStrings.SignedByte`).
- The quotient of `idiv64` is exact except for the minimum divided by -1, where it
  wraps to the minimum (`LongLong.QuotientFits`).

## Model

| member | source | states |
|---|---|---|
| FrameAllocation.NullIsUnambiguous | kernel/mmap.c:24-32 | no page's address is the null that reports failure, if and only if memory is not between 4 KiB and 4 MiB; bitmap indices stay below 0x20000 for every memory size |
| FrameAllocation.PoolPages | kernel/mmap.c:82-82 | with 4 MiB or more, page i is in the pool if and only if memory reaches to the end of it, and its address does not wrap |
| FrameAllocation.PoolHolds | kernel/mmap.c:82-82 | so many pages are in the pool, if and only if memory has so many bytes behind the first 4 MiB |
| FrameAllocation.SetBitEffect | kernel/mmap.c:14-21 | setting one bit of a byte changes the test of that bit only |
| FrameAllocation.FrameAllocator.constructor | kernel/mmap.c:81-84 | the bitmap starts with no page used |
| FrameAllocation.FrameAllocator.SetPageUsed | kernel/mmap.c:14-17 | exactly this page becomes used, for all pages of the bitmap; where the cursor goes |
| FrameAllocation.FrameAllocator.AllocPage | kernel/mmap.c:24-32 | the used pages are always a prefix; the scan from the cursor returns the lowest free page of all, never one used before, and 0 only when all are used |
| MachineWords.Mul32Is | kernel/fat.c:215-215 | a product in 32 bits is the product if that fits, and otherwise what is left of it modulo 2^32 |
| PageTables.EntryWord | kernel/mmap.c:66-66 | an entry divided by 4096 is the frame, and its low twelve bits are those of the flags |
| PageTables.WordsStored | kernel/mmap.c:54-66 | after a `map_page` the page walks to a word with the frame and all twelve bits of the flags, or to none if these are not present; the directory's word is the old one, or has a new frame under the same flags |
| PageTables.WithPageKeepsWellFormed | kernel/mmap.c:49-70 | editing one page keeps self-maps, and tables distinct within and across directories |
| PageTables.WithPageRemaps | kernel/mmap.c:49-70 | in the edited directory the page walks to the given entry, the one table-window page shows a new table, every other page and directory walks as before |
| PageTables.ShownIsReachable | kernel/mmap.c:39-47 | where `get_page_table` says that a table is, the walk of the loaded directory finds that table, for the loaded directory and for another one |
| PageTables.StoredInOldTable | kernel/mmap.c:60-66 | a store through that page is the edit of the table, although the table is part of the map |
| PageTables.StoredInNewTable | kernel/mmap.c:54-66 | entering, clearing and filling a new table through the map that it changes is the edit |
| PageTables.MapThroughObeysLaw | kernel/mmap.c:39-70 | the law of `map_page`: one page of the edited directory, its table window, and for a foreign directory the kernel's page 0xF0001000, which then shows the table |
| PageTables.MapThroughKeepsWellFormed | kernel/mmap.c:39-70 | also for a foreign directory, tables stay well-formed |
| PageTables.SelfMapShows | kernel/mmap.c:39-42 | the self-map shows the directory, and each of its tables at its window, through the walk |
| PageTables.StoreOffPath | kernel/mmap.c:57-66 | a store to a frame that is not on a page's path leaves its walk alone |
| PageTables.NewTablesCounted | kernel/mmap.c:104-107 | how many tables a run of pages takes, in closed form |
| PageTables.NewTablesOneMore | kernel/mmap.c:54-62 | the next page of a run takes a table if and only if it finds none |
| HeapMapping.HeapAtEnd | kernel/mmap.c:109-112 | after the heap loop every page has a frame of its own if and only if no page shares frame 0 or has none, if and only if the pool could pay; the frames taken, exactly |
| HeapMapping.HeapOneMore | kernel/mmap.c:109-112 | one turn keeps that account, whether a frame, a table, both or none is left |
| HeapMapping.RemappedOneMore | kernel/mmap.c:109-112 | each page is left with a frame of the pool, with frame 0, or, without a table, with none |
| HeapMapping.NewTablesMissing | kernel/mmap.c:104-112 | the tables that a run of pages makes are the missing ones of its range |
| DataFrames.MapKeepsData | kernel/mmap.c:49-70 | a frame that was no directory and no table of any address space is none afterwards, and holds what it held |
| DataFrames.OwnOneMore | kernel/mmap.c:72-79 | the frames given to pages are no table or directory of any space, whatever tables were made on the way |
| PageTables.UnusedIsInvisible | kernel/scheduler.c:48-54 | writing a frame on no walk's path changes no translation |
| PageTables.SpaceAdded | kernel/scheduler.c:53-54 | a blank directory with a table and a self-map is one more well-formed address space |
| PageTables.FirstDirectoryIsWellFormed | kernel/mmap.c:83-94 | the first directory is well-formed and maps the first 4 MiB to themselves, and nothing else but its windows |
| Spans.SpanCovers | kernel/mmap.c:72-79 | the mapped pages hold all the bytes asked for, if and only if the offset in the first page leaves room |
| Spans.UnalignedPage | kernel/mmap.c:72-79 | a request whose bytes they do not hold |
| Spans.PagesVisited | kernel/mmap.c:104-107 | the framebuffer loop visits pages of the screen only, and misses at most the last, if the offset leaves no room |
| Spans.ScreenPageMissed | kernel/mmap.c:104-107 | a screen whose last page is missed |
| Spans.VisibleExactly | kernel/mmap.c:104-107 | all bytes of a screen are visible, if and only if its pages in a given run are and no page outside it is missed |
| Protection.UnderKernelFlags | include/mmap.h:14-18 | if tables and pages were entered under flags that are present, writable and not the user's, then every mapped page is so at both levels |
| Protection.TablesStayUnder | kernel/mmap.c:57-57 | a run of edits enters its new tables under the same flags |
| Protection.NothingElseMapped | kernel/mmap.c:104-112 | after two runs of edits of a first directory no page is mapped but the first 4 MiB, those of the runs, and the windows of their tables |
| Paging.Mmu.ZeroPage | kernel/mmap.c:59-59 | clearing a page that is on no path of its own clears exactly its frame |
| Paging.Mmu.GetPageTable | kernel/mmap.c:39-47 | where the table can be reached afterwards, and what of memory changed for that; the recursion ends, as the inner call edits the loaded directory |
| Paging.Mmu.EnterTable | kernel/mmap.c:55-57 | a fresh frame enters the directory, or nothing happens and the pool is empty |
| Paging.Mmu.TableFor | kernel/mmap.c:54-64 | fails if and only if the table is missing and the pool is empty, and then changes nothing |
| Paging.Mmu.MapPage | kernel/mmap.c:49-70 | the whole new memory and the law of the edit; in raw words, the page walks to a word with the frame of the address and the twelve bits of the flags, and a new table is entered under the same bits; -1 if and only if a table is missing and no frame is left, and then no translation changes; tables stay well-formed; frames that are no tables keep their words |
| Paging.Mmu.Mmap | kernel/mmap.c:72-79 | ceil(len / 4096) pages get pairwise distinct frames that were never handed out before and are no table of any space, present and under the flags given; no other page and no other data frame changes, also on failure; it fails if and only if pages and missing tables are more than the pool has left |
| Paging.Mmu.MapFramebuffer | kernel/mmap.c:104-107 | the screen's pages walk to themselves, everything else as before, at the cost of exactly the missing tables; it fails if and only if these are more than the pool has left |
| Paging.Mmu.MapHeap | kernel/mmap.c:109-112 | in any directory, all heap pages get frames of their own, if and only if the pool can pay for them and the missing tables, if and only if no page is left with frame 0 or none; the frames taken, exactly |
| Paging.TablesAfterScreen | kernel/mmap.c:104-112 | the tables that pages of the heap take once the screen is mapped, wherever that lies |
| Paging.SmallMemory | kernel/mmap.c:109-112 | 64 MiB cannot hold the heap |
| Paging.ScreenInHeap | kernel/mmap.c:104-112 | a visited page of the screen in the heap's range is mapped, and not to itself |
| Paging.ScreenOutsideHeap | kernel/mmap.c:104-112 | the whole screen is visible, if and only if it is clear of the heap and no page outside the first 4 MiB is missed |
| Paging.WithPresentBits | kernel/mmap.c:76-76 | `flags or PAGE_PRESENT` has the present bit and otherwise the bits of the flags |
| Paging.BootCostIs | kernel/mmap.c:81-112 | start-up with the whole heap needs at least 0x10441000 bytes of memory, exactly that without a screen, and never more than 0x107FF000 |
| Paging.BootedForKernel | kernel/mmap.c:91-112 | the screen, the heap and the first 4 MiB are all that start-up maps, present and writable for the kernel only at both levels |
| Paging.Mmu.BootTables | kernel/mmap.c:83-95 | the first directory: 4 MiB identity-mapped, the self-map, nothing else |
| Paging.Mmu.InitPaging | kernel/mmap.c:81-115 | identity map, screen and heap after start-up, the heap if and only if memory has the bytes for it, the whole screen if and only if it is clear of the heap and no page is missed; nothing else is mapped, and all of it for the kernel only; it fails if and only if memory has not the bytes for the screen's tables; the frames taken, exactly; frame 0 stays out of all tables |
| AddressSpaces.OpenDirectory | kernel/scheduler.c:33-38 | a cleared fresh frame that the kernel sees at 0xF0000000; other translations kept |
| AddressSpaces.OpenTable | kernel/scheduler.c:41-51 | a fresh table with the identity map of 4 MiB, seen at 0xF0001000; other translations kept |
| AddressSpaces.Install | kernel/scheduler.c:53-54 | two stores make the blank directory an address space; no translation of any other changes |
| AddressSpaces.ShareHeap | kernel/scheduler.c:61-68 | the first 16 MiB of the heap walk to the same frames as in the kernel's directory |
| AddressSpaces.SpaceShowsScreen | kernel/scheduler.c:56-68 | a new space shows the whole screen, if and only if no page outside the first 4 MiB and the shared heap is missed, and the kernel has those in the shared heap where they are expected |
| AddressSpaces.SpaceForKernel | kernel/scheduler.c:50-68 | the same of a new address space and its shared heap |
| AddressSpaces.CreatePd | kernel/scheduler.c:32-70 | the new directory maps 4 MiB and the screen to themselves and shares the heap, for the kernel only, and maps nothing else but its table windows; in the kernel only the two windows and a table-window page for a table gained change, in other spaces nothing; no data frame changes; also on failure, which comes if and only if its exact price in frames is more than the pool has left |
| Layout.AddressMap | kernel/malloc.c:6-8 | the heap, the windows, the tables' windows, the pool and the first directory are where the source has them, in bytes, and share no page |
| Layout.BytesInPages | kernel/malloc.c:20-26 | the bytes that the heap may use are those in the pages that `init_paging` maps; the twelve behind them lie at 0xF0000000 |
| Layout.InsideIsReached | kernel/malloc.c:10-26 | with the whole heap mapped, and no screen behind it, every header and every used byte can be reached, if and only if the last block leaves room |
| Blocks.Disjoint | kernel/malloc.c:10-14 | blocks of a tiling, headers included, do not overlap |
| Blocks.MallocMeaning | kernel/malloc.c:58-96 | null if and only if no free block is large enough, and then nothing changes; otherwise one new live block of size s to s + 15, the others where they were |
| Blocks.MergeMeaning | kernel/malloc.c:103-111 | the coalescing pass keeps tiling and live blocks and leaves no two free neighbours |
| Blocks.FreeMeaning | kernel/malloc.c:98-113 | exactly the given block dies; no two free neighbours are left |
| Blocks.ReallocMeaning | kernel/malloc.c:43-56 | one live block is exchanged for one that is large enough, or nothing changes |
| Blocks.RunKeeps | kernel/malloc.c:43-113 | over every run of malloc, free and realloc on live pointers: tiling, no free neighbours, and live blocks that no call names stay |
| Blocks.Drained | kernel/malloc.c:19-113 | after any run from the start, nothing is live if and only if the heap is the initial single block |
| Blocks.Conserved | kernel/malloc.c:10-113 | the sum of sizes and headers is constant |
| Blocks.Fragmentation | kernel/malloc.c:58-96 | if malloc(s) fails with k blocks live, at most (k + 1) * (s - 1) bytes are free |
| Blocks.InsideExactly | kernel/malloc.c:23-25 | headers and used payloads lie in the mapped 256 MiB if and only if the last block is free with at least twelve bytes |
| Blocks.MallocStaysInside | kernel/malloc.c:61-71 | malloc keeps to them, if and only if the request is not met from the last block or that has 24 bytes more |
| Blocks.FirstRequestSpills | kernel/malloc.c:62-66 | a first request of 0x0FFFFFF0 does not |
| Blocks.FreeStaysInside | kernel/malloc.c:98-113 | free always keeps to them |
| Blocks.RunStaysInside | kernel/malloc.c:43-113 | a run keeps to them at every step, if and only if each of its requests meets that condition |
| Heap.BytesDetermineBlocks | kernel/malloc.c:10-14 | the same bytes cannot hold two block lists |
| Heap.SpliceHeld | kernel/malloc.c:62-69 | bytes that hold the headers of the new blocks and are unchanged outside hold the new list: links, sizes and flags |
| Heap.HeaderWriteKeepsPayloads | kernel/malloc.c:98-113 | writing a header changes no byte of a payload |
| Heap.ReallocKeeps | kernel/malloc.c:43-56 | realloc's three steps together change no payload but the new block's |
| Heap.KernelHeap.constructor | kernel/malloc.c:19-27 | the bytes hold the initial block |
| Heap.KernelHeap.Store | kernel/malloc.c:64-68 | a little-endian word at an unaligned address, other bytes kept |
| Heap.KernelHeap.CutBlock | kernel/malloc.c:62-70 | the stores that split a block, in the bytes, and how far the header of the rest reaches |
| Heap.KernelHeap.TakeWhole | kernel/malloc.c:70-70 | the one store when there is no split |
| Heap.KernelHeap.Malloc | kernel/malloc.c:58-96 | the bytes decode to the list that first fit gives; every other payload keeps its bytes; sums do not wrap; it stays in the mapped bytes if and only if the request leaves 24 bytes of a last block, and stores a header behind them if and only if it cuts one with fewer left |
| Heap.KernelHeap.JoinNext | kernel/malloc.c:105-107 | two free neighbours become one, in the bytes |
| Heap.KernelHeap.MergeAll | kernel/malloc.c:103-111 | the pass with a moving `current` is the coalescing of the list, and ends |
| Heap.KernelHeap.Free | kernel/malloc.c:98-113 | the list without the block; every payload keeps its bytes, that of the freed block included |
| Heap.KernelHeap.Copy | kernel/malloc.c:51-52 | the bytes arrive, no others change, headers still hold |
| Heap.KernelHeap.Realloc | kernel/malloc.c:43-56 | min(old block size, new size) bytes are kept; on failure no byte changes |
| Heap.KernelHeap.Run | kernel/malloc.c:43-113 | over every run of calls the headers in the bytes hold the list the calls lead to, and live blocks that no call names keep their place and every byte; if every request leaves that room, no access is to a byte that is not mapped |
| Clusters.ChainIsAcyclic | kernel/fat.c:203-210 | no cluster comes twice in a chain |
| Clusters.ChainIsDetermined | kernel/fat.c:203-210 | the first cluster determines the file |
| Clusters.AllocatesLeast | kernel/fat.c:256-265 | the entry taken is the least free one and becomes 0xFFFF, the current cluster leads to it, all other entries stay; nothing changes if none is free |
| Clusters.AllocateExtends | kernel/fat.c:256-265 | 0 if and only if no entry is free; otherwise the chain gains one cluster that was free, and the free count drops by one |
| Clusters.AllocateKeepsChains | kernel/fat.c:256-265 | the table stays a set of disjoint chains, all others untouched |
| Clusters.FlatSlice | kernel/fat.c:224-225 | reading in one cluster is reading the file |
| Clusters.FlatPatch | kernel/fat.c:278-280 | read-modify-write of one cluster overwrites the file there and nowhere else |
| FileWrites.WritesNoMore | kernel/fat.c:275-289 | no more bytes are counted than were given |
| FileWrites.WriteAtEnd | kernel/fat.c:275-289 | from the last cluster on, any length: old bytes overwritten or extended at the offset, short only when the volume is full; only the last cluster and free ones touched, one free cluster fewer for each added |
| FileWrites.OtherFilesKept | kernel/fat.c:267-293 | every other file keeps its chain and its bytes |
| FileWrites.NoneWasted | kernel/fat.c:285-288 | exactly as many clusters are taken as the bytes need |
| FileWrites.WriteStays | kernel/fat.c:285-288 | in a cluster that does not end its chain the loop stays there and reports success |
| FileWrites.FaithfulExactly | kernel/fat.c:275-289 | fwrite does what it is meant to for all data of a length, if and only if it starts in the last cluster or stays in its cluster |
| FatFiles.ChainFits | kernel/fat.c:203-217 | chain indices fit 16 bits and file positions 32 |
| FatFiles.FatFs.GetNthCluster | kernel/fat.c:203-210 | the count-th cluster of the chain, and the end marker from its end on |
| FatFiles.FatFs.AllocateCluster | kernel/fat.c:256-265 | the loop links the least free entry, which becomes 0xFFFF, and changes no other |
| FatFiles.FatFs.Fseek | kernel/fat.c:236-250 | the new position for each origin in plain numbers, filesize - offset from the end; when that is the standard's |
| FatFiles.SeekAsStandard | kernel/fat.c:236-250 | the new position is the C standard's, if and only if nothing wraps and, from the end, the offset is 0 (or -2^31 in a large file) |
| FatFiles.SeekBackAndForth | kernel/fat.c:241-243 | a seek from the position and the opposite one lead back |
| FatFiles.FatFs.ReadTurn | kernel/fat.c:222-230 | a turn that is not the last fills its cluster, so that moving on each turn is harmless |
| FatFiles.FatFs.ReadCluster | kernel/fat.c:222-230 | one turn delivers the file's next bytes and finds the next cluster |
| FatFiles.FatFs.Fread | kernel/fat.c:212-234 | exactly the bytes from the offset on, min(n * size, filesize - offset) of them, with what is left of n * size modulo 2^32 if it does not fit; the offset advances by the count returned; the rest of the buffer is untouched |
| FatFiles.FatFs.WriteCluster | kernel/fat.c:276-288 | one turn of the loop in place |
| FatFiles.FatFs.Fwrite | kernel/fat.c:267-293 | table, disk and count are those of the loop as a function on n * size bytes, modulo 2^32, from any cluster; where that is right, the file's bytes are overwritten or extended; new offset; filesize is the maximum of both |
| FatFiles.FatFs.WriteSeekRead | kernel/fat.c:212-293 | fwrite of n * size bytes, fseek back and fread give the bytes back, across any number of new clusters; a short count means a full volume |
| FatFiles.FatFs.WrittenIsRead | kernel/fat.c:212-293 | what a right write leaves at the offset is what it wrote |
| CStrings.TextCut | kernel/string.c:124-127 | the text of a field is the text of what follows, cut at the field's end |
| CStrings.Strlen | kernel/string.c:118-122 | the number of bytes before the first NUL |
| CStrings.Strnlen | kernel/string.c:124-127 | no more than a maximum of them |
| CStrings.Memset | kernel/string.c:31-39 | these bytes filled, all others kept |
| CStrings.Mempcpy | kernel/string.c:46-61 | these bytes copied, all others kept; the result lies twice as far as the copy's end |
| CStrings.PastedReads | kernel/string.c:64-68 | what stpcpy leaves reads as the text, if and only if that is empty or the byte at its end was NUL |
| CStrings.PaddedReads | kernel/string.c:89-97 | what strncpy leaves reads as the text, if and only if that is empty or the byte at its end was NUL |
| CStrings.PaddedIsField | kernel/string.c:89-97 | it is the text and zeros with nothing else changed, if and only if the bytes that the padding misses and those it clears behind were zero |
| CStrings.StaleBytes | kernel/string.c:64-97 | a buffer for which both are wrong |
| CStrings.Stpcpy | kernel/string.c:64-68 | the text, and a NUL at the place that mempcpy returns; when the text can be read back |
| CStrings.Strcat | kernel/string.c:75-78 | the same behind the text that is there; when the result is both texts joined |
| CStrings.Strncpy | kernel/string.c:89-97 | at most a field of the text, and the padding from the place that mempcpy returns; when that is the text and zeros |
| CStrings.Strncat | kernel/string.c:99-101 | the same behind the text that is there; when the result is both texts joined |
| CStrings.Strcmp | kernel/string.c:80-87 | 0 if and only if the texts are equal; otherwise the difference, as signed bytes, where they first differ, and exactly when its sign tells which of the texts comes first |
| CStrings.SignedOrder | kernel/string.c:80-87 | the difference of signed bytes tells the order of two texts, if and only if the bytes where they first differ are both ASCII or neither is |
| CStrings.SignedByte | kernel/string.c:80-87 | two texts that it puts in the wrong order |
| DirectoryEntries.ReadsFields | kernel/fat.c:35-49 | an entry laid out field by field gives back its cluster, low byte first, its directory bit, and the name that its blank-filled fields stand for |
| DirectoryEntries.CleanEntry | kernel/fat.c:60-65 | blanks in name and extension become NULs, nothing else changes |
| DirectoryEntries.FormatEntry | kernel/fat.c:87-93 | the whole buffer: the name, a dot and extension if there is one, zeros; and which byte behind it is cleared |
| DirectoryEntries.FormattedText | kernel/fat.c:87-93 | the buffer reads as exactly the name, whatever was there before |
| DirectoryEntries.StaysInBuffer | kernel/fat.c:87-93 | nothing behind the 13 bytes changes, if and only if the name has neither 6 nor 7 letters, nor 8 with an extension of 2 |
| DirectoryEntries.UnformattedName | kernel/fat.c:87-93 | the 11 bytes of a short name can be had back from its text |
| DirectoryEntries.NamesDiffer | kernel/fat.c:87-93 | so 8.3 formatting is injective on short names, "." and ".." included |
| DirectoryEntries.FirstMatchMeaning | kernel/fat.c:129-137 | the first entry of that name, none only if no entry has it |
| DirectoryEntries.FirstMatchAppend | kernel/fat.c:149-161 | searching cluster after cluster is searching them joined |
| DirectoryEntries.HasName | kernel/fat.c:152-155 | the comparison on the stack is equality of name and text, whatever lies behind the entry |
| DirectoryEntries.Scan | kernel/fat.c:151-159 | the first match of one buffer |
| Directories.Volume.FindEntry | kernel/fat.c:120-167 | first match over the root's entries, or over those of all clusters of the directory; -1 if there is none |
| Directories.Volume.Chdir | kernel/fat.c:169-185 | the new current directory, branch by branch, and the result; an entry laid out as the structure on disk leads to its cluster if it has the directory bit, and is refused if not |
| Directories.ChdirInTree | kernel/fat.c:169-185 | on a volume with a well-formed tree the call walks one step of a path |
| Directories.ChdirWalks | kernel/fat.c:169-185 | down, up, here and failures are those of a path; depth is its length, cluster 0 exactly at the root |
| Directories.RunWalks | kernel/fat.c:169-185 | so over every run of calls |
| Directories.EnterAndLeave | kernel/fat.c:169-185 | entering a directory and then ".." is the identity |
| Directories.OnePath | kernel/fat.c:178-182 | a directory has one path only |
| Directories.DepthDetermined | kernel/fat.c:178-182 | the cluster determines the depth |
| Directories.PathFits | kernel/fat.c:178-179 | paths are shorter than 2^16, so that the depth never wraps |
| LongLong.Sub64 | kernel/sys/longlong.c:6-13 | subtraction modulo 2^64 with a borrow found by comparison |
| LongLong.Ge64 | kernel/sys/longlong.c:15-18 | comparison of the values |
| LongLong.Shl1 | kernel/sys/longlong.c:20-25 | doubling modulo 2^64, the lowest bit clear |
| LongLong.BitEndsPrefix | kernel/sys/longlong.c:27-30 | bit i is the last of the prefix that ends with it, in either limb |
| LongLong.RemainderHasRoom | kernel/sys/longlong.c:39-41 | before turn i the remainder is at most the i-bit prefix, so that the shift drops nothing, for divisors above 2^63 too |
| LongLong.LaidOne | kernel/sys/longlong.c:46-47 | a digit set in the right limb is a digit of the quotient |
| LongLong.UDiv64 | kernel/sys/longlong.c:32-53 | quotient and remainder for every non-zero divisor; all ones and the dividend for zero |
| LongLong.Neg64 | kernel/sys/longlong.c:55-62 | negation modulo 2^64 |
| LongLong.TruncMeetsStandard | kernel/sys/longlong.c:64-88 | truncating division meets the standard's demands |
| LongLong.TruncUnique | kernel/sys/longlong.c:64-88 | and nothing else meets them |
| LongLong.SignsRestored | kernel/sys/longlong.c:80-84 | the signs put on the magnitudes make the truncated results |
| LongLong.IDiv64 | kernel/sys/longlong.c:64-88 | truncated quotient modulo 2^64 and exact remainder for every non-zero divisor; what comes of zero |
| LongLong.QuotientFits | kernel/sys/longlong.c:64-88 | the quotient is exact, if and only if it is not the minimum divided by -1 |
| LongLong.UDivDi3 | kernel/sys/longlong.c:90-94 | the library's unsigned quotient |
| LongLong.DivDi3 | kernel/sys/longlong.c:96-100 | the library's signed quotient, and the one case that wraps |
| LongLong.UModDi3 | kernel/sys/longlong.c:102-106 | the library's unsigned remainder |
| LongLong.ModDi3 | kernel/sys/longlong.c:108-112 | the library's signed remainder |
| Scheduler.NextIsNearest | kernel/scheduler.c:25-30 | the search never steps over a present slot |
| Scheduler.BoundedWaiting | kernel/scheduler.c:25-30 | in every run, whatever is created and whoever else exits, a slot that stays present is dispatched within as many switches as it is ahead, at most 16 |
| Scheduler.NextByPresence | kernel/scheduler.c:25-30 | where the search goes depends on who is present only |
| Scheduler.TicksFollowCalls | kernel/sys/pic.asm:30-45 | a run of ticks, each storing a stack pointer, goes where so many searches of the first table go |
| Scheduler.EveryRunIsFair | kernel/sys/pic.asm:30-45 | with k slots present, any k ticks in a row dispatch each exactly once |
| Scheduler.WaitingKeepsTask | kernel/scheduler.c:25-30 | while it waits, a slot's saved state is unchanged |
| Scheduler.Restores | kernel/sys/pic.asm:30-45 | stack pointer and page directory of the next dispatch are those of the interruption |
| Scheduler.ExitRemoves | kernel/scheduler.c:13-15 | an exit makes its slot absent and goes to another; all other slots stay, and one task fewer is present |
| Scheduler.ExitIsFinal | kernel/scheduler.c:13-30 | after an exit, in no run without a creation is that slot dispatched again |
| Scheduler.CreatePuts | kernel/scheduler.c:102-112 | the lowest absent slot gets exactly the stack pointer, the page directory and the creator's current directory; all others stay |
| Scheduler.CreatedIsDispatched | kernel/scheduler.c:83-112 | the first dispatch of a created task loads the stack pointer and page directory it was created with |
| Scheduler.Kernel.constructor | kernel/scheduler.c:17-23 | slot 0 present and running, on a cleared table |
| Scheduler.Kernel.Schedule | kernel/scheduler.c:25-30 | the do-while search goes to the nearest present slot, and ends |
| Scheduler.Kernel.TickHandler | kernel/sys/pic.asm:30-45 | save, schedule, restore are one step of the model |
| Scheduler.Kernel.Exit | kernel/scheduler.c:13-15 | with the interrupt that follows it, the exit step: the slot is absent, no other changes, and the stack pointer and page directory loaded are those of a present slot |
| Scheduler.Kernel.AddTask | kernel/scheduler.c:102-115 | the lowest absent slot holds exactly the stack pointer, the page directory and the creator's current directory, no other changes; -1 if and only if there is none |
| TaskCreation.PushStart | kernel/scheduler.c:86-101 | the eleven stores through the kernel's page leave these words at the end of the frame, and move no translation |
| TaskCreation.MapStack | kernel/scheduler.c:73-78 | one frame becomes the stack page of the new space and a page of the kernel's; exactly when that fails; which other translations can change; no data frame changes |
| TaskCreation.StartsAt | kernel/sys/pic.asm:43-45 | `popa` and `iretd` on that stack, through the walk of the new space, load the entry, the code segment, the flags with interrupts enabled and a whole stack |
| TaskCreation.CreateTask | kernel/scheduler.c:72-115 | the task in the lowest free slot resumes at its entry; -1 if and only if the pages cannot be mapped or no slot is free; the stack has a frame of its own if and only if the pool had one, and otherwise frame 0; other address spaces notice nothing, and no data frame changes unless that is frame 0 |
| TaskCreation.FirstRun | kernel/scheduler.c:72-115 | over any legal run up to the first dispatch, on an untouched stack, the interrupt's return goes to the entry |
| Numerals.ReadNumeral | kernel/string.c:138-158 | the digits read back give the value, without a leading zero |
| Numerals.UnsignedRoundTrip | kernel/string.c:130-158 | so for every value without a sign, in every base, and for every value in base 16 |
| Numerals.WrittenAsIntended | kernel/string.c:148-153 | what is written is what is meant, if and only if there is no sign or all digits are equal |
| Numerals.DigitIs | kernel/string.c:140-144 | the digits are the characters 0 to 9 and A to Z, in order |
| Numerals.IntendedReads | kernel/string.c:130-158 | what is meant begins with a minus sign for every signed value, and reads as the value; in base 16 as its 32-bit word |
| Numerals.WrittenReads | kernel/string.c:130-158 | what is written reads as the value; for a signed value, if and only if its digits are equal |
| Numerals.MinusTwelve | kernel/string.c:148-153 | -12 is written -21 |
| Numerals.PutDigits | kernel/string.c:138-147 | the first loop leaves the digits, lowest first |
| Numerals.TurnRound | kernel/string.c:149-153 | the second loop, with its pairing of j and idx - j - 1 |
| Numerals.Itoa | kernel/string.c:130-158 | the whole buffer: the text, a NUL, the rest untouched; the text reads as the value, for a signed one if and only if its digits are equal |

## Left out

- Paging.Mmu.MapPage: requires a page outside the table windows (entry 1023), and flags that include present or a table that is there; otherwise `get_page_table` would hand out a page that is not mapped.
- Paging.Mmu.Mmap: requires len <= 0xFFFFF000, as the loop's counter wraps above that, and pages below the table windows; for virt = 0 success and failure return the same value.
- Paging.Mmu.InitPaging: requires 4 MiB of memory, without which `MAX_PAGES` wraps; the number of bytes of the screen is a parameter, and the screen lies below 0xFFC00000.
- AddressSpaces.CreatePd: requires the kernel's four heap tables, which `init_paging` makes; its second `map_page` needs no frame, because the first one saw to the table, so the failure branch there is dead; a screen that meets pages of the shared heap which the kernel has not mapped is excluded from the statement about the screen.
- FatFiles.FatFs.GetNthCluster: excludes an index one past the end marker, where the guard skips the last check and the marker itself is looked up.
- FatFiles.FatFs.Fread: requires offset <= filesize <= the chain's length in bytes; seeking behind the end is caught by an equality only (kernel/fat.c:221).
- FatFiles.FatFs.Fwrite: requires an offset inside the chain; at the end of a full last cluster the loop would start at the end marker.
- Numerals.Itoa: bases 2 to 36.
- Blocks.MallocMeaning: speaks of the block list only, not of what is mapped, which `Blocks.MallocStaysInside` adds.
- Scheduler.Kernel.Exit: `exit_task` together with the interrupt that its only caller raises next (kernel/syscalls.c:135-136).
- Scheduler.Kernel.TickHandler: the registers that `pusha` keeps on the stack, and `handle_tick`, which counts and acknowledges the tick.
- Scheduler.Kernel.Schedule: requires a present slot, without which the search does not end.
- Heap.KernelHeap.Free: pointers that malloc did not return, and realloc of null, are excluded.
- Directories.Volume.FindEntry: `malloc` of the buffers in `find_entry`, `fread` and `fwrite` is taken to succeed; the copy from the buffer after it was freed (kernel/fat.c:162-165) relies on `Heap.KernelHeap.Free` keeping its bytes.
- DirectoryEntries.FormatEntry: what lies behind the 13 bytes on the stack is up to the compiler; the model gives the buffer two bytes more and says when they are cleared.
- `uint32_t *` parameters that a function updates are in- and out-parameters in `LongLong`; no caller lets them alias.
- Writing back the table and the directory entry: the kernel does neither, and the claims are about the table in memory and the data clusters.
- Preemption inside kernel code: each kernel function is one step.
- TaskCreation.CreateTask: requires a directory other than the loaded one, as `create_pd` makes it, and frame 0 outside all tables, which `Paging.Mmu.InitPaging` sees to and every later operation keeps; the stack pointer popped by `popa` is skipped, as the processor does.
- Page-size and other special bits of entries, faults that the writable and user bits cause, and the flags' upper bits.
- `malloc_expand` and growth of the heap, which are unused.
- `strcpy`, `strncmp`, `strchr`, `fopen`, `fclose`, file creation, and attributes other than the directory bit.
- `kernel/elf.c`, `kernel/syscalls.c`, `kernel/ui.c`, `printf`, `strtod`, drivers, boot code.
