# Verified models of the kernel's memory, process, terminal and formatting code

A 32-bit x86 kernel allocates physical pages from a bitmap, maps them through page tables that
map themselves, grows a heap on top of those pages, runs user processes in turn, copies them with
`fork`, and writes text with `printf` to a scrolling terminal. This project models these parts and
proves what they promise to one another.

Code that changes memory or static variables is modelled as a class whose methods change the same
state in the same order: the heap writes five-byte headers and four-byte trailers into an array of
bytes, the bitmap changes words, the page-table code writes physical memory only through addresses
that the hardware walk translates, the process list relinks `next` and `prev`, `printf` emits
characters as it finds them, the terminal moves cells of an 80 by 25 array. Each method is proved
against a specification function on values, and the properties are proved of those functions.

| modules | part of the kernel |
|---|---|
| `Page`, `Bits` | page arithmetic (`kernel/include/kernel/page.h`), 32-bit words and their binary digits |
| `HeapSpec`, `HeapExact`, `HeapMemory` | `libc/stdlib/dynamic_allocation.c` on the growth step of `kernel/arch/i386/heap.c` |
| `Bitmap` | the physical-page bitmap of `kernel/arch/i386/page.c` |
| `HeapFrames` | the heap on the pages that growth maps, and the frames that processes hold of it |
| `PagingSpec`, `PagingFlags`, `Paging`, `HeapPages` | the two-level page tables of `kernel/arch/i386/page.c`; `alloc_page` and `free_page` of `kernel/arch/i386/heap.c` |
| `ProcessSpec`, `ProcessRing` | the process list, yield, exit, fork and add of `kernel/arch/i386/process.c` |
| `AddressSpace`, `AddressCopy`, `Fork` | the address-space copy of `fork`, on one memory with the growing heap |
| `Machine` | the process list together with the address spaces: fork, yield and user writes |
| `Numerals`, `PrintfSpec`, `Printf` | `libc/stdio/printf.c` |
| `PrintfStandard`, `PrintfFormats`, `PrintfMeaning`, `PrintfResults` | section 7.21.6.1 of ISO C11, formats as it builds them, and what printf makes of them |
| `TerminalSpec`, `Terminal` | `kernel/arch/i386/tty.c` |

## Main results

* **Heap.** Over every run of `malloc`, `free` and `malloc_pages` that meets no gap of 5 to 17 bytes
  the blocks tile the memory from `start` to `end` exactly and end at or below a page-aligned
  `heap_end` that equals the kernel's own counter. (Such a gap ends the run here; below is what
  happens on one.) Every block handed out is large enough and disjoint from every live block, and no
  operation changes a byte of another live payload. The two local merges of `free` equal a pass
  over the whole list that joins all free neighbours; freeing everything leaves one block. No block
  is more than 12 bytes larger than what was asked for, what is split off is a free block again, and
  after every run each byte of the heap is accounted for.
* **Heap on pages.** Over every such run, with the pages that growth maps, each byte of a block is
  mapped, and no two bytes of the heap to the same physical memory.
* **Paging.** What `map_page` writes through the self-map is what the hardware walk then computes,
  for the page mapped and for every other address. Over every run of `map_virtual_address` and
  `unmap_virtual_address` no table is left empty, so that unmapping a page just mapped restores
  bitmap and translation exactly; the same holds for `free_page` after `alloc_page`. The hinted
  page search always finds the lowest free page. Every flag given to `map_page` is in the entry, and
  what `alloc_page` maps is present, writable and the kernel's alone at both levels. For a memory map
  written as the boot loader lays it out, exactly the frames in use at boot are marked.
* **Processes.** After any history of calls a process resumes with the registers it last gave up
  and under its own directory; it waits for no more switches than it has links ahead, plus one for
  each process added. The list stays one cycle and the pids stay in order until the counter wraps.
* **fork.** It makes two memories of one: after any sequence of writes by parent and child, in any
  order, each reads the last word it wrote itself, and elsewhere what the parent read at the fork.
  The low eight flag bits are kept. The loops run on one physical memory in which each `calloc` and
  `malloc_pages` between the copies grows the heap through the parent's directory: the pages are
  fresh, what processes hold is as it was, and parent and child can both fork again. With the
  process list: every process keeps an address space of its own, under its own directory, through
  fork, yield and user writes.
* **printf.** A result that is not negative is the number of characters written, for every format
  and argument list. Every format put together from characters, `%%` and conversion specifications,
  with any flags, widths, precisions and length modifiers, is read back as what it was put together
  from and printed as the texts of its parts in turn; for each conversion it is decided when that is
  the standard's text. The numerals are canonical and `parseInt` reads back what `%u` prints.
* **Terminal.** The screen always shows the last 25 lines of the text cut at newlines and after
  every 80 characters, whatever calls wrote it: the low byte of each cell is its character, the high
  byte the colour in force when it was written or its row blanked.

## Where the code does less than intended

The model does what the code does, and a lemma gives the exact condition under which that is what
was meant.

* `malloc_pages` on a gap of 5 to 17 bytes (`libc/stdlib/dynamic_allocation.c:50-55`) is commented
  as extending the previous block but reads and writes the size word of unused memory above it. The
  model follows the branch through the write of the trailer, which may overlap that size word, to
  the pointer returned. A page-aligned pointer is certain exactly when the gap has room for a block
  (`HeapSpec.PagesAlwaysAlignedIff`); for each content of the unused memory `HeapSpec.PagesAlignedIff`
  decides, and `HeapSpec.TenByteGapGoesAstray` gives a heap on which the branch writes beyond `heap_end`.
* `malloc_pages` may leave two free neighbours (`HeapSpec.MallocPagesCoalescedIff`, with a run that
  does in `HeapSpec.FreeThenPagesLeavesFreePair`).
* `unmap_virtual_address` releases a table that was already empty before the page was mapped
  (`PagingSpec.UnmapUndoesMap`, `HeapPages.FreePageUndoesAllocPage`); no run of mapping and
  unmapping leaves one (`PagingSpec.RunKeepsNoIdle`).
* `NUM_PAGES` counts a page for an empty interval inside a page (`Page.NumPagesCountsTouchedPages`).
* `init_bitmap` drops the high words of a memory map entry and takes an end of 0 for the top of
  memory (`Bitmap.RegionExactIff`; `Bitmap.HighEntryMarksEverything` is an entry for which every
  frame is marked). For some entries marking runs past the bitmap (`Bitmap.InBitmapIff`).
* `get_physical_address` ignores the present bit (`PagingSpec.PhysicalAddressIffMapped`).
* `pid_inc` wraps (`ProcessSpec.AddKeepsOrderIff`).
* `%o`, `%u`, `%x` and `%X` print a sign for the sign flags, `%x` and `%X` with `#` print the prefix
  for 0 too, `%o` with `#` prints 0 and the character behind the conversion, and the 0 flag counts
  beside a precision (`PrintfStandard.UnsignedIsStandardIff`).
* `%d` prints the two's complement digits of a negative number and ignores the precision
  (`PrintfStandard.SignedIsStandardIff`), a precision cuts the padding of `%s`
  (`PrintfSpec.StringIsStandardIff`), and `parseInt` counts with an 8-bit variable
  (`Numerals.CounterReachesIff`).

## Model

| member | source | states |
|---|---|---|
| Page.NumPagesCountsTouchedPages | kernel/include/kernel/page.h:24 | NUM_PAGES counts exactly the pages an interval touches, if and only if the interval is not empty or starts on a page boundary |
| Page.NumPagesShift | kernel/include/kernel/page.h:24 | counting from a page boundary gives the same number as counting from 0, which is why the first request may count from a null start |
| HeapSpec.TiledOrder | libc/stdlib/dynamic_allocation.c:9-13 | blocks reached later by NEXT_BLOCK lie entirely above earlier ones |
| HeapSpec.FirstFit | libc/stdlib/dynamic_allocation.c:90-110 | the search finds a free block that is large enough and before which none is, or none exists |
| HeapSpec.IndexOf | libc/stdlib/dynamic_allocation.c:143 | the block a pointer belongs to is the one with that payload address |
| HeapSpec.GrowthCovers | libc/stdlib/dynamic_allocation.c:111-116 | growing by NUM_PAGES from below heap_end covers the new block and keeps heap_end page aligned |
| HeapSpec.TakeTiled | libc/stdlib/dynamic_allocation.c:92-107 | taking a block, split or not, keeps the tiling, its start and the address of the last block |
| HeapSpec.TakeLive | libc/stdlib/dynamic_allocation.c:92-107 | taking a free block adds just that block to the live ones, at the same address and with at least the size asked for |
| HeapSpec.MergeTiled | libc/stdlib/dynamic_allocation.c:158-173 | merging neighbours keeps the tiling and its extent, and says where end lies afterwards |
| HeapSpec.MergeLive | libc/stdlib/dynamic_allocation.c:158-173 | merging free neighbours changes no live block |
| HeapSpec.MallocKeepsInv | libc/stdlib/dynamic_allocation.c:77-125 | malloc keeps the tiling from the first page of the heap and heap_end page aligned at or above the last block |
| HeapSpec.FreeKeepsInv | libc/stdlib/dynamic_allocation.c:142-175 | free of NULL or of the payload of a listed block keeps the same invariant |
| HeapSpec.MallocPagesKeepsInv | libc/stdlib/dynamic_allocation.c:27-65 | malloc_pages keeps it whenever it does not meet a gap of 5 to 17 bytes |
| HeapSpec.RunKeepsInv | libc/stdlib/dynamic_allocation.c:27-175 | every run of the three operations that meets no gap of 5 to 17 bytes, free being given NULL or payloads of listed blocks, keeps it |
| HeapSpec.MallocAddsOneLiveBlock | libc/stdlib/dynamic_allocation.c:77-125 | malloc adds exactly one live block: at the pointer returned, with at least size bytes, mapped, new, and disjoint from every live block |
| HeapExact.FirstRoomyIsFirstFit | libc/stdlib/dynamic_allocation.c:90-93 | the first free block of at least the size asked for is the one the search finds |
| HeapExact.MallocTakesFound | libc/stdlib/dynamic_allocation.c:92-107 | malloc takes that block whole if fewer than 13 bytes would be left; else exactly the bytes asked for, and the rest less nine bytes is a free block behind it, or lies behind the last block again |
| HeapExact.MallocAppendsExactly | libc/stdlib/dynamic_allocation.c:111-124 | otherwise the new block is of exactly the size asked for behind the last, and heap_end grows by the pages it touches if it would pass heap_end |
| HeapExact.MallocStartsHeap | libc/stdlib/dynamic_allocation.c:81-88 | the first request makes one block of the size asked for, on just the pages it needs |
| HeapExact.SplitRestIsFound | libc/stdlib/dynamic_allocation.c:94-103 | after a block of 100 bytes is taken for 40, the next request for 40 gets the rest |
| HeapExact.MallocAnswers | libc/stdlib/dynamic_allocation.c:77-125 | a block malloc makes live exceeds the size asked for by at most twelve bytes |
| HeapExact.RunAnswers | libc/stdlib/dynamic_allocation.c:27-175 | over every run each live block answers a request of the run: at most twelve bytes too large, or of exactly the pages asked for |
| HeapExact.TiledBytes | libc/stdlib/dynamic_allocation.c:9-13 | the blocks' payloads and nine bytes of tags each fill the memory from the first block to the end of the last |
| HeapExact.RunAccountsForBytes | libc/stdlib/dynamic_allocation.c:27-175 | after every run each byte up to heap_end is in a used payload, a free one, the tags of a block or the gap behind the last |
| HeapSpec.FreeRemovesOneLiveBlock | libc/stdlib/dynamic_allocation.c:142-175 | free removes exactly the block with that payload address from the live ones |
| HeapExact.FreeJoinsNeighbours | libc/stdlib/dynamic_allocation.c:142-175 | free joins the block with the free blocks directly before and behind it, sizes to the byte, and leaves all others as they were |
| HeapSpec.MallocPagesAddsAlignedBlock | libc/stdlib/dynamic_allocation.c:27-65 | malloc_pages adds exactly one live block of whole pages, page aligned, mapped and above every live block |
| HeapExact.MallocPagesExactly | libc/stdlib/dynamic_allocation.c:27-65 | on a gap of under 5 or at least 18 bytes: the sizes and addresses of the filler and the new block, the pointer and the new heap_end, to the byte |
| HeapExact.MallocPagesStartsHeap | libc/stdlib/dynamic_allocation.c:30-42 | the same for the first request |
| HeapSpec.PagesAlignedIff | libc/stdlib/dynamic_allocation.c:43-64 | on a given size word in the unused memory, read again after the trailer is written over it or not, the payload is page aligned if and only if the gap is at least 18 bytes or that word is one of those listed |
| HeapSpec.PagesAlwaysAlignedIff | libc/stdlib/dynamic_allocation.c:27-65 | malloc_pages returns a page-aligned pointer whatever the unused memory holds if and only if the gap has room for a block |
| HeapExact.RoomyGapIff | libc/stdlib/dynamic_allocation.c:43-55 | the branch of the short gap is taken if and only if 5 to 17 bytes are left behind the last block |
| HeapSpec.StrayTrailerAddress | libc/stdlib/dynamic_allocation.c:50-55 | where the short-gap branch writes the trailer |
| HeapSpec.StrayTrailerUnmappedIff | libc/stdlib/dynamic_allocation.c:50-55 | that write is at or above heap_end if and only if the 32-bit sum does not wrap |
| HeapSpec.TenByteGapGoesAstray | libc/stdlib/dynamic_allocation.c:50-55 | after malloc(4077) on a new heap, malloc_pages(1) comes to a write of the trailer at or beyond heap_end for every size word that does not make the sum wrap |
| HeapSpec.MallocKeepsCoalesced | libc/stdlib/dynamic_allocation.c:90-124 | malloc never leaves two free neighbours |
| HeapSpec.FreeCoalesces | libc/stdlib/dynamic_allocation.c:158-173 | the two local merges of free give what joining every run of free blocks in one pass over the whole list would |
| HeapSpec.CoalesceYieldsCoalesced | libc/stdlib/dynamic_allocation.c:158-173 | that pass leaves no two free neighbours |
| HeapSpec.FreeKeepsCoalesced | libc/stdlib/dynamic_allocation.c:142-175 | free never leaves two free neighbours |
| HeapSpec.MallocPagesCoalescedIff | libc/stdlib/dynamic_allocation.c:43-49 | malloc_pages leaves no two free neighbours if and only if the last block was in use |
| HeapSpec.FreeThenPagesLeavesFreePair | libc/stdlib/dynamic_allocation.c:27-175 | the run malloc(100), free, malloc_pages(1) on a new heap ends with two free neighbours |
| HeapSpec.MallocPagesLeavesGap | libc/stdlib/dynamic_allocation.c:56-60 | malloc_pages leaves the last block in use and a gap of 4092 bytes |
| HeapSpec.RecordLeavesRoom | kernel/arch/i386/process.c:172 | a record of 4100 bytes asked for after that leaves a gap of 4092 or 8175 bytes, so that the next malloc_pages has room for a block |
| HeapSpec.RequestGrowth | kernel/arch/i386/process.c:167-177 | a record or a page grows the heap by at most three pages |
| HeapSpec.RunKeepsCoalesced | libc/stdlib/dynamic_allocation.c:77-175 | over every run of malloc and free no two neighbours are both free |
| HeapSpec.FreesEmptyTheHeap | libc/stdlib/dynamic_allocation.c:142-175 | freeing every live pointer once, in any order, is always allowed and leaves no live block |
| HeapSpec.FreeingEverythingLeavesOneBlock | libc/stdlib/dynamic_allocation.c:77-175 | after any run of malloc and free, freeing what is live in any order leaves a single free block |
| HeapMemory.HoldsIffWord | libc/stdlib/dynamic_allocation.c:15-18 | four bytes hold a size if and only if the little-endian word read there is that size |
| HeapMemory.PrevInvertsNext | libc/stdlib/dynamic_allocation.c:9-11 | on every pair of neighbours the address arithmetic of NEXT_BLOCK and PREV_BLOCK is inverse |
| HeapMemory.Untouched | libc/stdlib/dynamic_allocation.c:9-13 | writes between two blocks' extents leave the tags and live payloads of all blocks outside alone |
| HeapMemory.Rewritten | libc/stdlib/dynamic_allocation.c:92-173 | rewriting consecutive free blocks inside their own extent keeps every other block's tags and payload |
| HeapMemory.TakeEffect | libc/stdlib/dynamic_allocation.c:92-107 | the tag writes of a split yield the tagged new list and change no live payload |
| HeapMemory.MergeEffect | libc/stdlib/dynamic_allocation.c:158-173 | so do the tag writes of a merge |
| HeapMemory.AppendEffect | libc/stdlib/dynamic_allocation.c:111-124 | so do those of a new last block |
| HeapMemory.ReleaseEffect | libc/stdlib/dynamic_allocation.c:146 | so does clearing a used flag |
| HeapMemory.FreeEffect | libc/stdlib/dynamic_allocation.c:142-175 | the three writes of free together keep every payload still live |
| HeapMemory.PagesEffect | libc/stdlib/dynamic_allocation.c:43-60 | the tag writes of malloc_pages yield the tagged new list and change no live payload |
| HeapMemory.Heap.constructor | libc/stdlib/dynamic_allocation.c:22-24 | the initial static variables are a valid empty heap |
| HeapMemory.Heap.Size | libc/stdlib/dynamic_allocation.c:15-18 | the size word of a tagged block is its size |
| HeapMemory.Heap.NextBlock | libc/stdlib/dynamic_allocation.c:9 | NEXT_BLOCK read from memory is the end of the block |
| HeapMemory.Heap.PrevBlock | libc/stdlib/dynamic_allocation.c:10-11 | PREV_BLOCK read through the trailer is the address of the block that ends here |
| HeapMemory.Heap.AllocPage | kernel/arch/i386/heap.c:8-19 | the kernel's counter starts at HEAP_START, advances by the pages asked for, and its old value is returned; the pages are mapped in Paging.PagingUnit.AllocPage and HeapFrames joins the two |
| HeapMemory.Heap.WriteTags | libc/stdlib/dynamic_allocation.c:118-120 | header and trailer agree afterwards and nothing outside the block changes |
| HeapMemory.Heap.Split | libc/stdlib/dynamic_allocation.c:94-103 | in memory a block is split into the tagged pieces that HeapExact.MallocTakesFound gives in numbers, inside its own extent |
| HeapMemory.Heap.TakeBlock | libc/stdlib/dynamic_allocation.c:92-107 | the found block is taken in memory as on the list; every live payload keeps its bytes |
| HeapMemory.Heap.FirstBlock | libc/stdlib/dynamic_allocation.c:81-88 | the first request sets up the heap the specification describes |
| HeapMemory.Heap.Grow | libc/stdlib/dynamic_allocation.c:111-116 | pages are added just when the new block would pass heap_end |
| HeapMemory.Heap.AppendBlock | libc/stdlib/dynamic_allocation.c:111-124 | the new last block is tagged and on the list; every live payload keeps its bytes |
| HeapMemory.Heap.Search | libc/stdlib/dynamic_allocation.c:90-110 | the walk over memory by NEXT_BLOCK stops at the first fit of the list, or past end |
| HeapMemory.Heap.Malloc | libc/stdlib/dynamic_allocation.c:77-125 | malloc on memory refines the specification (HeapExact.MallocTakesFound and MallocAppendsExactly give it in numbers) in blocks, heap_end and pointer, and changes no live payload |
| HeapMemory.Heap.MergeWithNext | libc/stdlib/dynamic_allocation.c:159-165 | the first merge of free, in memory as on the list, exactly if there is a free next block |
| HeapMemory.Heap.MergeWithPrev | libc/stdlib/dynamic_allocation.c:167-173 | the second merge of free, in memory as on the list |
| HeapMemory.Heap.ClearUsed | libc/stdlib/dynamic_allocation.c:146 | the flag is cleared in memory as on the list |
| HeapMemory.Heap.Free | libc/stdlib/dynamic_allocation.c:142-175 | free on memory refines the specification and changes no payload still live |
| HeapMemory.TrailerReadBack | libc/stdlib/dynamic_allocation.c:52-54 | what the size word reads after the trailer was written, in part over it or not |
| HeapMemory.Heap.StaleFiller | libc/stdlib/dynamic_allocation.c:50-52 | in the short-gap branch the size word is raised and the trailer is due at the address computed from it; live payloads are intact up to there |
| HeapMemory.Heap.FinishFiller | libc/stdlib/dynamic_allocation.c:53-54 | the trailer is written there and NEXT_BLOCK uses the size word as it reads afterwards |
| HeapMemory.Heap.LayLoose | libc/stdlib/dynamic_allocation.c:56-60 | the new block is tagged at the address that gave, if that is in the heap, and both heap_end counters agree |
| HeapMemory.Heap.FillShortGap | libc/stdlib/dynamic_allocation.c:50-64 | the branch comes to the outcome specified and changes no byte but the size word, the trailer and the new block |
| HeapMemory.Heap.OpenGap | libc/stdlib/dynamic_allocation.c:31-41 | where the gap starts and heap_end once a header fits in it |
| HeapMemory.Heap.LayOut | libc/stdlib/dynamic_allocation.c:43-60 | the filler and the aligned block are tagged, nothing outside them changes, both heap_end counters agree |
| HeapMemory.Heap.MallocPages | libc/stdlib/dynamic_allocation.c:27-65 | malloc_pages on memory has the outcome specified for the size word in the gap; on a gap of other than 5 to 17 bytes it refines the specification and changes no live payload |
| HeapFrames.ServedKeepsSound | kernel/arch/i386/heap.c:8-19 | a request with the pages its growth maps keeps every heap page on a frame of its own, and old pages on theirs |
| HeapFrames.RunKeepsSound | kernel/arch/i386/heap.c:8-19 | so does every run of requests |
| HeapFrames.BytesMapped | libc/stdlib/dynamic_allocation.c:77-125 | every byte of the heap is mapped in the kernel's own directory, to the frame of its page; Fork.HeapSeenByAll says it of the others |
| HeapFrames.BytesApart | libc/stdlib/dynamic_allocation.c:77-125 | different bytes of the heap are different bytes of physical memory |
| HeapFrames.MallocGivesOwnMemory | libc/stdlib/dynamic_allocation.c:77-125 | each byte malloc was asked for is mapped, to physical memory behind no byte of a block live before |
| HeapFrames.BytesElsewhere | libc/stdlib/dynamic_allocation.c:9-13 | a byte of the heap outside the payload of a block is not in the frames behind the whole pages of that payload |
| HeapFrames.FramesApart | libc/stdlib/dynamic_allocation.c:27-65 | the frames behind the whole pages of one block are behind no other block |
| HeapFrames.ServedKeepsHeld | kernel/arch/i386/process.c:166-186 | a request of fork leaves the frames processes hold behind live blocks |
| HeapFrames.PageIsFresh | kernel/arch/i386/process.c:177 | the frame behind the page malloc_pages(1) returns is one that no process holds |
| HeapFrames.SharedGrowth | kernel/arch/i386/process.c:186 | below 0xC0400000 the heap grows the same way under every directory that shares the kernel's table; of memory only that table changes |
| HeapFrames.SharedEnough | kernel/arch/i386/heap.c:13-16 | there the growth lasts as long as there are free frames, one for each page |
| Bits.FullIff | kernel/arch/i386/page.c:20 | a word's complement is zero exactly when all its bits are set |
| Bits.MaskTest | kernel/arch/i386/page.c:24 | a word and a one-bit mask have a common bit exactly when that bit is set |
| Bits.OrBit | kernel/arch/i386/page.c:68 | bitwise or, bit by bit |
| Bits.AndBit | kernel/arch/i386/page.c:44 | bitwise and, bit by bit |
| Bits.NotBit | kernel/arch/i386/page.c:43 | 32-bit complement, bit by bit |
| Bitmap.LowestFree | kernel/arch/i386/page.c:18-36 | the plain search: the lowest frame that is free, below which all are used |
| Bitmap.FirstRoomyWord | kernel/arch/i386/page.c:19-32 | if all words before it are full, the lowest clear bit of the first word that is not full is the lowest free frame |
| Bitmap.ZeroMeansExhausted | kernel/arch/i386/page.c:18-36 | a result of 0 means exhaustion if and only if frame 0 is used or memory is exhausted |
| Bitmap.ZeroMeansExhaustedAfterBoot | kernel/arch/i386/page.c:18-36 | while the pages marked at boot stay marked, 0 is returned exactly when no frame is free |
| Bitmap.FramesMarked | kernel/arch/i386/page.c:62-68 | or-ing a run of bits into a word marks exactly the frames of that run |
| Bitmap.FrameCleared | kernel/arch/i386/page.c:41-44 | and-ing the complement of a mask frees exactly that frame |
| Bitmap.BootCovered | kernel/arch/i386/page.c:135-137 | every page touching the low memory, the kernel or the boot information is among those marked |
| Bitmap.ModulesCovered | kernel/arch/i386/page.c:138-141 | every page touching a module is among those marked |
| Bitmap.RegionsCovered | kernel/arch/i386/page.c:143-161 | every page touching a reserved region below 4 GB is among those marked |
| Bitmap.MarkedForRegion | kernel/arch/i386/page.c:143-161 | a page marked for the memory map is marked for one of its reserved regions |
| Bitmap.InBitmapIff | kernel/arch/i386/page.c:151-158 | marking a region stays in the bitmap if and only if it is available memory, its low words do not wrap, or the wrapped end reaches the page of the start |
| Bitmap.RegionExactIff | kernel/arch/i386/page.c:147-159 | marking a reserved entry stays in the bitmap and marks exactly the pages below 4 GB it touches, if and only if its low words suffice to tell: conditions on empty entries, on entries above or reaching beyond 4 GB, and on low words that wrap |
| Bitmap.RegionsOfMap | kernel/arch/i386/page.c:147-156 | the memory map that section 3.3 of the Multiboot Specification prescribes for some entries is read as those entries |
| Bitmap.BootMarksExactly | kernel/arch/i386/page.c:134-162 | the pages marked at boot are exactly those that the low memory, the kernel, the boot information, a module or a reserved region touches, for intervals that page counts can tell and regions whose low words suffice |
| Bitmap.HighEntryMarksEverything | kernel/arch/i386/page.c:147-159 | a reserved entry at 0xFD_0000_0000 of length 0x3_0000_0000 has every frame marked and touches none |
| Bitmap.LowestClearBit | kernel/arch/i386/page.c:21-32 | the scan stops at the lowest clear bit and holds its mask |
| Bitmap.PageBitmap.constructor | kernel/arch/i386/page.c:15-16 | the initial hint is valid |
| Bitmap.PageBitmap.AllocateNextPage | kernel/arch/i386/page.c:18-36 | the hinted search returns the lowest free page, as the plain one does, marks it alone and keeps the hint valid |
| Bitmap.PageBitmap.TakeLowestBit | kernel/arch/i386/page.c:20-31 | in the first word that is not full: takes the lowest free frame and sets the hint to that word |
| Bitmap.PageBitmap.FreePhysicalPage | kernel/arch/i386/page.c:38-46 | frees exactly the page of the address and drops the hint |
| Bitmap.PageBitmap.CheckUsed | kernel/arch/i386/page.c:48-53 | true exactly if the page of the address is used |
| Bitmap.PageBitmap.WordUpdate | kernel/arch/i386/page.c:62-67 | the inner loop's mask has exactly the bits of the range in this word |
| Bitmap.PageBitmap.MarkUsed | kernel/arch/i386/page.c:55-72 | marks exactly the pages of its range and keeps the hint valid |
| Bitmap.PageBitmap.MarkModules | kernel/arch/i386/page.c:138-141 | marks exactly the pages of the modules |
| Bitmap.PageBitmap.MarkRegion | kernel/arch/i386/page.c:147-159 | the pointer walk over one memory map entry, as read by Regions, marks its pages unless it is available memory, and stops at the next entry |
| Bitmap.PageBitmap.MarkRegions | kernel/arch/i386/page.c:143-161 | marks exactly the pages of all regions that are not available memory |
| Bitmap.PageBitmap.InitBitmap | kernel/arch/i386/page.c:134-162 | marks exactly the low memory, the kernel, the boot information, the modules and the reserved regions; on a memory map laid out as prescribed a frame is used afterwards if and only if it was before or one of these touches it |
| PagingSpec.SelfMapShowsTables | kernel/include/kernel/page.h:20-21 | the hardware walk of PAGE_TABLE(o) leads to the table of entry o, of PAGE_DIRECTORY to the directory |
| PagingSpec.MapTranslates | kernel/arch/i386/page.c:81-98 | after map_page every address of the page walks to the frame plus its offset, and every other address walks as before, also when a table is created (whose window appears) |
| PagingSpec.MapLeaves | kernel/arch/i386/page.c:81-98 | the same entry by entry, and which tables exist |
| PagingFlags.MapPageFlags | kernel/arch/i386/page.c:96 | after map_page the entry of the page names its frame, has exactly the flags given in bits 1 to 11, and bit 0 |
| PagingFlags.NewTableFlags | kernel/arch/i386/page.c:90-95 | a table that is created is entered as present, writable and for the kernel only, and its other entries are 0 |
| PagingFlags.UnmapLeavesZero | kernel/arch/i386/page.c:109-117 | unmap_virtual_address leaves 0 in the page's entry, and in the directory if the table goes |
| PagingFlags.AllocPagesKernelOnly | kernel/arch/i386/heap.c:8-19 | over every run of alloc_page the entries of the pages, and of the tables created, have the low bits 3 and no other; tables there before stay as entered |
| PagingFlags.AllocPagesPermissions | kernel/arch/i386/heap.c:8-19 | so present, writable and user bits read 1, 1 and 0 at both levels of the walk |
| PagingSpec.MapKeepsWellFormed | kernel/arch/i386/page.c:81-98 | the self-map stays and every table keeps a frame of its own |
| PagingSpec.MapKeepsSelfMap | kernel/arch/i386/page.c:81-98 | the self-map stays unless its own page is mapped anew, also when the page mapped is a window on a table |
| PagingSpec.PhysicalAddressIffMapped | kernel/arch/i386/page.c:124-132 | where a table exists, get_physical_address agrees with the walk if and only if the page is mapped |
| PagingSpec.MapVirtualLeaves | kernel/arch/i386/page.c:74-98 | map_virtual_address takes free frames for the page and for a missing table, marks just those and keeps all other entries |
| PagingSpec.UnmapLeaves | kernel/arch/i386/page.c:100-118 | unmapping clears that entry only and frees its frame; the table goes exactly when this was its last entry |
| PagingSpec.DropTable | kernel/arch/i386/page.c:113-117 | unmapping the window of an empty table takes just it out of the directory and frees its frame |
| PagingSpec.UnmapUndoesMap | kernel/arch/i386/page.c:74-118 | unmapping a freshly mapped page restores the bitmap if and only if its table was not present but empty, and the translation of an address if and only if it is not, in that case, in the window on the table |
| PagingSpec.MapKeepsNoIdle | kernel/arch/i386/page.c:74-98 | mapping leaves no present table empty |
| PagingSpec.UnmapKeepsNoIdle | kernel/arch/i386/page.c:100-118 | neither does unmapping |
| PagingSpec.RunKeepsNoIdle | kernel/arch/i386/page.c:74-118 | over every run of map_virtual_address and unmap_virtual_address no present table is empty |
| PagingSpec.UnmapUndoesMapOverRuns | kernel/arch/i386/page.c:74-118 | in every state such a run reaches, unmapping a page just mapped restores the bitmap and the translation of every address |
| PagingSpec.MapBacksPage | kernel/arch/i386/heap.c:13-16 | mapping one page more keeps heap pages on different frames that are used and no page-table frames |
| PagingSpec.RunBacksHeap | kernel/arch/i386/heap.c:8-19 | over every run of alloc_page without exhaustion distinct heap pages have distinct frames, each used and none a page-table frame, and pages mapped before keep theirs |
| Paging.PagingUnit.LoadDirectory | kernel/arch/i386/process.c:25-29 | cr3 changes to a directory that maps itself |
| Paging.PagingUnit.LoadEntry | kernel/include/kernel/page.h:21 | reading through the self-map reads the physical table |
| Paging.PagingUnit.StoreEntry | kernel/include/kernel/page.h:21 | writing through the self-map changes that entry of the physical table alone |
| Paging.PagingUnit.ZeroTable | kernel/arch/i386/page.c:94 | clearing the window of a table zeroes its frame alone |
| Paging.PagingUnit.CreateTable | kernel/arch/i386/page.c:90-95 | a missing table gets the lowest free frame, zeroed and entered in the directory |
| Paging.PagingUnit.MapPage | kernel/arch/i386/page.c:81-98 | the accesses through the self-map have the effect specified on physical memory and bitmap, which PagingFlags.MapPageFlags and NewTableFlags give bit by bit |
| Paging.PagingUnit.MapVirtualAddress | kernel/arch/i386/page.c:74-76 | the page's frame is allocated before the table's, and the effect is that of map_page on it with the flags given |
| Paging.PagingUnit.GetPhysicalAddress | kernel/arch/i386/page.c:124-132 | the address is that of the entry read through the self-map |
| Paging.PagingUnit.AnyPresent | kernel/arch/i386/page.c:113-116 | the scan finds a present entry exactly if the table is not empty |
| Paging.PagingUnit.UnmapVirtualAddress | kernel/arch/i386/page.c:100-118 | the recursion has the effect specified and ends at depth two |
| Paging.PagingUnit.AllocPage | kernel/arch/i386/heap.c:8-19 | maps the pages at the end of the heap in turn, returns the old end and moves it |
| Paging.PagingUnit.FreePage | kernel/arch/i386/heap.c:21-29 | unmaps the pages in turn and lowers the end |
| HeapPages.MapAccounts | kernel/arch/i386/page.c:74-98 | mapping keeps the bitmap the disjoint union of tables, pages of the range and the rest |
| HeapPages.UnmapAccounts | kernel/arch/i386/page.c:100-118 | so does unmapping |
| HeapPages.FreePageUndoesAllocPage | kernel/arch/i386/heap.c:8-29 | after alloc_page and free_page over the same pages every page translates as before; the bitmap is as before if and only if no present but empty table covered one of them |
| HeapPages.FreePageRestoresUsed | kernel/arch/i386/heap.c:8-29 | with no table empty at the start the bitmap is as before |
| ProcessSpec.AddKeepsOrderIff | kernel/arch/i386/process.c:41-53 | a new process keeps the pids strictly increasing along the list if and only if the counter does not wrap |
| ProcessSpec.StepSource | kernel/arch/i386/process.c:101-197 | every process after a call was there before or is the one added; only a yield changes a saved state |
| ProcessSpec.StepKeepsOrder | kernel/arch/i386/process.c:101-197 | each call keeps the pids in order |
| ProcessSpec.RunKeepsOrder | kernel/arch/i386/process.c:31-197 | every run of calls up to a halt, with processes added by fork or add_process, keeps the pids in order and counts those added |
| ProcessSpec.SavedContexts | kernel/arch/i386/process.c:101-192 | after every run each process has saved what the history of calls prescribes for its pid |
| ProcessSpec.SwitchIsFaithful | kernel/arch/i386/process.c:101-197 | after every run a switch resumes a process with the registers it last gave up, or its parent's with eax 0, under its own directory; the parent gets the child's pid; the kernel halts exactly when the last process exits |
| ProcessSpec.StepTowards | kernel/arch/i386/process.c:92-109 | a switch brings every waiting process one link closer, a process added pushes it back by at most one |
| ProcessSpec.WaitingTime | kernel/arch/i386/process.c:92-164 | links ahead plus switches never exceed the initial distance plus processes added while it waits |
| ProcessSpec.BoundedWaiting | kernel/arch/i386/process.c:92-164 | a process d links ahead has run after d switches, plus one for each process added |
| ProcessSpec.YieldsRotate | kernel/arch/i386/process.c:107-109 | k yields move k links along an unchanged list |
| ProcessSpec.FullRound | kernel/arch/i386/process.c:107-109 | n yields run each of n processes exactly once, each at its distance, and return to the start |
| ProcessRing.Scheduler.constructor | kernel/arch/i386/process.c:10-13 | the initial list is empty and valid, pids start at 1 |
| ProcessRing.Scheduler.Append | kernel/arch/i386/process.c:76-96 | the relinking keeps one cycle with inverse links, the new node last, and no other field changes |
| ProcessRing.Scheduler.AddForkedProcess | kernel/arch/i386/process.c:74-99 | a new process with the next pid joins at the end, with ss 0x23, esp 0xBFFFFFFC, eflags 0x210, cs 0x1B and eip 0 |
| ProcessRing.Scheduler.AddProcess | kernel/arch/i386/process.c:31-72 | the same with argc, argv, envc and envp in its registers |
| ProcessRing.Scheduler.RunProcess | kernel/arch/i386/process.c:101-105 | current and cr3 become the process's, and its saved state is restored |
| ProcessRing.Scheduler.Yield | kernel/arch/i386/process.c:107-109 | on the linked list yield is the step of the specification |
| ProcessRing.Scheduler.Fork | kernel/arch/i386/process.c:187-191 | so is the list and register part of fork |
| ProcessRing.Scheduler.GetPid | kernel/arch/i386/process.c:194-197 | so is get_pid |
| ProcessRing.Scheduler.Bypass | kernel/arch/i386/process.c:139-140 | the two assignments leave one cycle of the other processes |
| ProcessRing.Scheduler.Unlink | kernel/arch/i386/process.c:129-141 | first and last follow, and the next process is at the expected place |
| ProcessRing.Scheduler.HandleExit | kernel/arch/i386/process.c:119-164 | exit is the step of the specification, halting for the last process |
| AddressSpace.ReadIsTracked | kernel/arch/i386/process.c:166-186 | what the hardware reads for a process is what its page records say |
| AddressSpace.CopiedEntry | kernel/arch/i386/process.c:179 | the entry built for the child names its frame and has the parent's low eight bits |
| AddressSpace.ForkEntries | kernel/arch/i386/process.c:179-186 | the words of the child's directory and tables: frame and the parent's low eight bits for what is tracked, the self-map and the kernel's table with 3, and 0 elsewhere |
| AddressSpace.UserAddresses | kernel/arch/i386/process.c:185-186 | the user addresses are the words below the self-map that are not in the kernel's four megabytes |
| AddressSpace.CopyTracks | kernel/arch/i386/process.c:166-186 | after fork the records of parent and child both describe what the hardware sees |
| AddressSpace.ForkPreservesView | kernel/arch/i386/process.c:166-186 | at every user address parent and child read what the parent read before, or fault as it did |
| AddressSpace.ForkKeepsFlags | kernel/arch/i386/process.c:179-182 | every entry for a tracked page or table keeps the parent's low eight flag bits |
| AddressSpace.ForkMakesTwoMemories | kernel/arch/i386/process.c:166-186 | after any writes of parent and child to user addresses, in any order, each reads the last word it wrote itself, and elsewhere what the parent read at fork |
| AddressSpace.ForkIsolates | kernel/arch/i386/process.c:166-186 | after any writes each reads as if the other had written nothing |
| AddressSpace.WritesStayApart | kernel/arch/i386/process.c:166-186 | after any writes the frames of each are as if it alone had written |
| AddressSpace.PlayKeepsSeparate | kernel/arch/i386/process.c:166-186 | after any writes the records of both describe what the hardware sees |
| AddressSpace.OwnWrite | kernel/arch/i386/process.c:166-186 | an address space is memory: a write changes what its process reads at that address only |
| AddressSpace.WriteStaysInside | kernel/arch/i386/process.c:166-186 | a write to a user address reaches no frame the process does not own |
| AddressSpace.ReadDependsOnFrames | kernel/arch/i386/process.c:166-186 | memory that agrees on a process's frames reads the same |
| AddressSpace.WriteAgrees | kernel/arch/i386/process.c:166-186 | and is changed the same way by its writes |
| AddressCopy.CopyPageProgress | kernel/arch/i386/process.c:176-180 | one page more is copied and its entry set, in a frame of its own, the frames kept as they were |
| AddressCopy.TableProgressStays | kernel/arch/i386/process.c:175-181 | the progress of the inner loop depends on the frames held alone: the heap may grow meanwhile |
| AddressCopy.TableDone | kernel/arch/i386/process.c:172-181 | a finished table holds the parent's pages as they were before fork |
| AddressCopy.TableEntered | kernel/arch/i386/process.c:170-184 | entering it extends the copy by one directory entry; pages and tables keep frames of their own |
| AddressCopy.PagesStayApart | kernel/arch/i386/process.c:172-181 | the child's pages, tables and directory keep frames of their own |
| AddressCopy.ForkDone | kernel/arch/i386/process.c:185-186 | the kernel's entry and the self-map complete the copy |
| Fork.HeldApart | kernel/arch/i386/process.c:166-186 | no frame a process holds is the kernel's directory or the shared table |
| Fork.HeapSeenByAll | kernel/include/kernel/page.h:36 | below 0xC0400000 every process sees the heap as the kernel does |
| Fork.WritesKeepKernel | kernel/arch/i386/process.c:176-186 | writes to other frames leave the heap, its frames and what lies behind live blocks as they are |
| Fork.RequestKeeps | kernel/arch/i386/process.c:167-177 | a request served under the parent's directory is the one the kernel's own would see; it keeps the kernel sound, the parent's directory and every frame but the shared table |
| Fork.BothSound | kernel/arch/i386/process.c:166-186 | after the copy parent and child are both as fork needs an address space to be |
| Fork.ChildSharesKernel | kernel/arch/i386/process.c:185-186 | the child's directory maps itself, shares the kernel's table, and has tables of its own |
| Fork.Forker.Bookkeeping | kernel/arch/i386/process.c:167-177 | whatever the allocator and the records write into heap pages outside the frames held, kernel and directory stay sound |
| Fork.Forker.NewPage | kernel/arch/i386/process.c:177 | malloc_pages(1): the heap grows, the frame is one no process held, and no frame held changes |
| Fork.Forker.Record | kernel/arch/i386/process.c:167 | calloc of a record: the heap grows and no frame held changes |
| Fork.Forker.CopyPageAt | kernel/arch/i386/process.c:176-180 | the round of the inner loop for a tracked page |
| Fork.Forker.CopyTable | kernel/arch/i386/process.c:172-181 | a record, a zeroed table and the inner loop copy the table into fresh frames, one for each tracked page |
| Fork.Forker.CopyAndEnter | kernel/arch/i386/process.c:170-184 | the round of the outer loop for a table that exists |
| Fork.Forker.EnterKernel | kernel/arch/i386/process.c:185-186 | the last two entries are set and complete the copy |
| Fork.Forker.Fork | kernel/arch/i386/process.c:166-186 | on one memory, with requests and copies in turn: the child is a copy of the parent as it was at the call, in exactly the frames newly held; every frame held before is as it was; kernel, parent and child are as fork needs them again. Only the gap for the first page must have room for a block |
| Machine.WriteKeepsSpaces | kernel/arch/i386/process.c:166-186 | a write by one process keeps every address space sound and changes no frame of another |
| Machine.GrowthKeepsSpaces | kernel/arch/i386/process.c:166-186 | the copy of an address space keeps all there are, which share no frame with it |
| Machine.Computer.Fork | kernel/arch/i386/process.c:166-192 | fork as a whole: the list step with the directory of the copied address space; every process has a sound address space of its own under its own directory |
| Machine.Computer.Yield | kernel/arch/i386/process.c:101-109 | the next process runs with the directory of its own address space in cr3 |
| Machine.Computer.UserWrite | kernel/arch/i386/process.c:166-186 | a write of the running process is seen by no other process |
| Numerals.NumeralIsCanonical | libc/stdio/printf.c:276-287 | the numeral of n denotes n and has a leading zero only for 0 |
| Numerals.DigitsInOrder | libc/stdio/printf.c:373-378 | the digits are 0 to 9 and a to f, or A to F |
| Numerals.NumeralLength | libc/stdio/printf.c:205-213 | its length is one more than the number of divisions by the base |
| Numerals.ShiftIsDivision | libc/stdio/printf.c:277-280 | dividing by a power of the base drops that many digits |
| Numerals.TopPower | libc/stdio/printf.c:205-213 | the loop never overflows div and ends with the power of the leading digit and the number of digits |
| Numerals.CounterReachesIff | libc/stdio/printf.c:33 | the 8-bit counter reaches its bound if and only if the bound is at most 255 |
| Numerals.PlaceDigit | libc/stdio/printf.c:32-35 | the inner loop multiplies by the power of ten of the digit's place |
| Numerals.ParseInt | libc/stdio/printf.c:29-39 | parseInt gives the decimal value |
| Numerals.ParseReadsNumeral | libc/stdio/printf.c:29-39 | parseInt is defined on the numeral of every int and gives it back |
| PrintfSpec.CharText | libc/stdio/printf.c:146-169 | %c writes the character at the end of the field its flag asks for and blanks up to max(width, 1) |
| PrintfSpec.StringText | libc/stdio/printf.c:170-202 | %s writes as many characters as the adjusted width counts |
| PrintfSpec.UnsignedText | libc/stdio/printf.c:203-488 | %o, %x, %X and %u write the larger of the width and the length of sign, prefix, zeros and digits |
| PrintfSpec.SignedText | libc/stdio/printf.c:489-561 | %d and %i write the larger of the width and the length of sign and digits |
| PrintfSpec.LiteralEnd | libc/stdio/printf.c:53-55 | a literal stretch ends at the next % or the end |
| PrintfSpec.Play | libc/stdio/printf.c:45-64 | for every format and arguments a result other than -1 is the number of characters written and at most INT_MAX |
| PrintfSpec.PlainUnsigned | libc/stdio/printf.c:203-488 | without flags, width and precision the text is the canonical numeral and denotes the argument |
| PrintfSpec.PrecisionFills | libc/stdio/printf.c:263-268 | whatever the flags, behind sign and prefix the digits are filled with zeros to the precision and keep the value; precision 0 writes nothing for 0 |
| PrintfSpec.UnsignedWidthPads | libc/stdio/printf.c:227-262 | a width only adds blanks in front or behind, or zeros after sign and prefix |
| PrintfSpec.SignedWidthPads | libc/stdio/printf.c:502-560 | the same for %d and %i |
| PrintfSpec.ParseReadsPlainUnsigned | libc/stdio/printf.c:29-39 | parseInt reads back every value below 2^31 that %u prints |
| PrintfSpec.PlainFormat | libc/stdio/printf.c:397-488 | printf("%u", n) as a whole writes the numeral and returns its length |
| PrintfSpec.LiteralFormat | libc/stdio/printf.c:50-65 | a format without % is written as it is |
| PrintfSpec.SignedIsDecimalIff | libc/stdio/printf.c:489-561 | %d without flags, width and precision prints the number if and only if it is not negative or is INT_MIN |
| PrintfStandard.UnsignedIsStandardIff | libc/stdio/printf.c:203-488 | for every flag, width and precision %o, %u, %x and %X write what section 7.21.6.1 of ISO C11 prescribes if and only if the conditions on flags, digits and width listed hold |
| PrintfStandard.OctalAgreesIff | libc/stdio/printf.c:249-255 | # with %o: the texts agree if and only if what is printed behind the 0 looks like the padding |
| PrintfStandard.HexZeroCase | libc/stdio/printf.c:340-346 | # with %x and %X never writes what is prescribed for 0 |
| PrintfStandard.SignedIsStandardIff | libc/stdio/printf.c:489-561 | for every flag, width and precision %d and %i write what is prescribed if and only if the number is not negative or is INT_MIN and ignoring the precision makes no difference |
| PrintfSpec.StringIsStandardIff | libc/stdio/printf.c:174-201 | %s writes what section 7.21.6.1 of ISO C11 prescribes if and only if there is no precision or the width does not exceed it |
| PrintfSpec.NegativeWidthOverflows | libc/stdio/printf.c:149-179 | a negative width asks for more than INT_MAX characters, so that -1 is returned; %c never does, %s unless the precision shortens the string |
| PrintfFormats.BodyIsLaid | libc/stdio/printf.c:67-144 | a conversion specification in the text of a format has its flags, width, precision and modifier, and its * arguments, where their lengths put them |
| PrintfFormats.ReadsFlags | libc/stdio/printf.c:69-83 | reading flags in any order and number gives those that occur |
| PrintfFormats.ReadsField | libc/stdio/printf.c:85-97 | reading a width or precision gives the number of its digits, or the next argument for * |
| PrintfFormats.ReadsModifier | libc/stdio/printf.c:123-144 | hh, h, l, ll, j, z, t, L or none is skipped |
| PrintfFormats.ReadsBack | libc/stdio/printf.c:67-144 | reading a conversion specification gives back the flags, width and precision it was put together from, and stops at its conversion character and behind its * arguments |
| PrintfMeaning.ConvertKnown | libc/stdio/printf.c:146-568 | o, u, x, X, d, i, c and s convert the next argument in base 8, 10, 16 (small and capital), signed decimal, as a character and as a string |
| PrintfMeaning.ConvertUnknown | libc/stdio/printf.c:562-573 | any other character has the rest of the format printed from its % on |
| PrintfMeaning.LiteralStep | libc/stdio/printf.c:50-65 | a character other than %, or %%, is written as one character before what follows it |
| PrintfMeaning.PlayWhole | libc/stdio/printf.c:45-64 | the texts of a format are written in full and their length returned, or as far as they fit and -1 returned |
| PrintfMeaning.ItemsArePlaced | libc/stdio/printf.c:48-144 | in a format put together from characters, %% and conversions each stands where the lengths of those before put it, with its arguments |
| PrintfMeaning.PrintfWrites | libc/stdio/printf.c:41-578 | printf as a whole, for every format put together from characters, %% and conversions, also one that ends in an unknown conversion: it writes the texts of these in turn and returns their length, or writes a part and returns -1 if that exceeds INT_MAX |
| PrintfResults.EffectIsStandardIff | libc/stdio/printf.c:146-561 | each conversion, for every flag, width and precision, writes what section 7.21.6.1 of ISO C11 prescribes if and only if its condition holds |
| PrintfResults.PrintfIsStandard | libc/stdio/printf.c:41-578 | printf of a format whose conversions all meet their conditions writes what is prescribed |
| PrintfResults.OneConversionIff | libc/stdio/printf.c:41-578 | printf of one conversion specification writes and returns what is prescribed if and only if the condition holds, for texts up to INT_MAX characters |
| PrintfResults.UnsignedExactly | libc/stdio/printf.c:203-488 | prescribed or not, %o, %u, %x and %X write the sign flags and the prefix before digits filled to the precision, laid out in the field |
| PrintfResults.SignedExactly | libc/stdio/printf.c:489-561 | prescribed or not, %d and %i write the sign before the digits of the unsigned number with the same bits, laid out in the field |
| PrintfResults.StringExactly | libc/stdio/printf.c:170-202 | %s writes what is prescribed for a width that the precision bounds too; for a negative width the characters up to a precision below the length |
| PrintfResults.PlainNumerals | libc/stdio/printf.c:203-488 | printf of "%o", "%x", "%X" and "%u" writes the numeral in base 8, 16 with small or capital letters, and 10, and returns its length |
| PrintfResults.PlainDecimals | libc/stdio/printf.c:489-561 | printf of "%d" and "%i" writes the sign and the decimal numeral of the bits |
| PrintfResults.PlainTexts | libc/stdio/printf.c:146-202 | printf of "%c" writes the character of the low eight bits, of "%s" the string |
| PrintfResults.PlainPercent | libc/stdio/printf.c:50-65 | printf of "%%" writes one % |
| Printf.Printer.PutDigits | libc/stdio/printf.c:276-287 | the digit loop writes the canonical numeral |
| Printf.Printer.MeasureUnsigned | libc/stdio/printf.c:206-228 | the in-place arithmetic gives the lengths and the width of the text |
| Printf.Printer.PutUnsigned | libc/stdio/printf.c:203-488 | writes the text and returns its length, or nothing if there is no room |
| Printf.Printer.MeasureSigned | libc/stdio/printf.c:492-503 | the same arithmetic for %d and %i |
| Printf.Printer.PutSigned | libc/stdio/printf.c:489-561 | writes the text and returns its length, or nothing if there is no room |
| Printf.Printer.PutChar | libc/stdio/printf.c:146-169 | the same for %c |
| Printf.Printer.PutString | libc/stdio/printf.c:170-202 | the same for %s |
| Printf.Printer.ScanFlags | libc/stdio/printf.c:69-83 | reads the flags and stops behind them |
| Printf.Printer.ScanInt | libc/stdio/printf.c:85-112 | reads a width or precision, from the format or the arguments |
| Printf.Printer.ScanLength | libc/stdio/printf.c:123-144 | skips the length modifiers |
| Printf.Printer.ScanDirective | libc/stdio/printf.c:67-144 | reads a whole conversion specification |
| Printf.Printer.LiteralLength | libc/stdio/printf.c:53-55 | counts the literal stretch |
| Printf.Printer.PutConversion | libc/stdio/printf.c:146-573 | chooses the conversion by its character, as PrintfMeaning.ConvertKnown gives it in numbers; an unknown one prints the rest of the format |
| Printf.Printer.PutPiece | libc/stdio/printf.c:48-573 | one round of the loop writes the next piece if it fits |
| Printf.Printer.Printf | libc/stdio/printf.c:41-578 | printf writes and returns what the specification says, for every format and arguments; PrintfMeaning.PrintfWrites says what that is |
| TerminalSpec.Put | kernel/arch/i386/tty.c:67-84 | every line has at most 80 cells and the open one fewer, after every character |
| TerminalSpec.PutShape | kernel/arch/i386/tty.c:67-84 | what one character does to the open line |
| TerminalSpec.CutFullLine | kernel/arch/i386/tty.c:71-74 | a full line of the text is cut off by itself |
| TerminalSpec.CutStep | kernel/arch/i386/tty.c:67-84 | cutting a text character by character |
| TerminalSpec.PutAllCuts | kernel/arch/i386/tty.c:86-89 | writing a text behind an open line continues the transcript as the text cut at newlines and every 80 characters, and leaves earlier lines alone |
| TerminalSpec.CutAppend | kernel/arch/i386/tty.c:86-89 | cutting a text that goes on: only the last line cut off so far is continued |
| TerminalSpec.PerformCuts | kernel/arch/i386/tty.c:42-89 | any calls that set the colour and write, behind an open line, continue the transcript as the text of all of them cut up |
| TerminalSpec.CallsShowText | kernel/arch/i386/tty.c:28-89 | after any such calls on a new terminal the low bytes of the cells are the last 25 lines of all the text so cut, blank elsewhere |
| TerminalSpec.TypeMatches | kernel/arch/i386/tty.c:62-84 | what a character does to rows of characters and colours, independent of how cells are stored |
| TerminalSpec.CallsShown | kernel/arch/i386/tty.c:28-89 | after any calls the low byte of each cell is its character or a blank, and the high byte the colour in force when it was written, or when its row was blanked |
| TerminalSpec.NewTerminalShowsText | kernel/arch/i386/tty.c:28-89 | after any text a new terminal shows in the low bytes the last 25 lines of the text so cut, blank elsewhere, and 7 in every high byte |
| Terminal.Screen.constructor | kernel/arch/i386/tty.c:28-40 | the blanked screen shows the empty transcript |
| Terminal.Screen.SetColor | kernel/arch/i386/tty.c:42-44 | later characters have the new colour, the screen is unchanged |
| Terminal.Screen.Scroll | kernel/arch/i386/tty.c:49-58 | in place every row moves up by one and the last is blank |
| Terminal.Screen.MoveRow | kernel/arch/i386/tty.c:50-53 | the inner loop copies one row and nothing else |
| Terminal.Screen.NextRow | kernel/arch/i386/tty.c:46-60 | the screen shows the last 25 lines of the transcript with one line more |
| Terminal.Screen.PutEntryAt | kernel/arch/i386/tty.c:62-65 | one cell changes, to the character plus 0x100 times the colour |
| Terminal.Screen.PutChar | kernel/arch/i386/tty.c:67-84 | the screen shows the last 25 lines after the character, with row and column in range |
| Terminal.Screen.Write | kernel/arch/i386/tty.c:86-89 | the same after a whole text |
| Terminal.ScrollShown | kernel/arch/i386/tty.c:49-58 | a further line shifts what is shown by one row |
| Terminal.AddShown | kernel/arch/i386/tty.c:62-65 | a further cell changes what is shown at the cursor alone |

## Left out

- HeapMemory.Heap.MallocPages: after a filler of 5 to 17 bytes was laid, the heap is not promised to be valid; a write outside the heap ends the model's step, as the source faults there or destroys memory of others.
- HeapMemory.Heap.Free: expects NULL or the payload of a block on the list; a second free of a block that has been merged away is not modelled.
- HeapMemory.Heap.Malloc: sizes for which the heap would pass the end of its region are excluded, so sums do not wrap at 32 bits.
- HeapMemory.Heap.AllocPage: moves the counter only; physical memory is added in HeapFrames and Fork, on the allocator's states.
- HeapFrames.BytesMapped: a heap that grew beyond 0xC0400000 is seen through the kernel's own directory; other processes have only the first four megabytes, to which the results on fork are bound.
- calloc and realloc: wrappers of malloc; calloc zeroes size bytes instead of n * size.
- Bitmap.BootMarksExactly: intervals that are empty inside a page are left to Page.NumPagesCountsTouchedPages, and regions whose low words do not suffice to Bitmap.RegionExactIff.
- Bitmap.PageBitmap.InitBitmap: no reserved entry may make mark_used run past the bitmap; memory map entries have 20 bytes; the boot information is a parameter.
- Paging.PagingUnit.MapPage: the page is not that of the directory itself, and a new table gets a frame that is not a page-table frame; the words of the bitmap are kept apart from the physical memory.
- PagingSpec.MapTranslates: pages below the self-map.
- Paging.PagingUnit.MapVirtualAddress: the branch in which no frame is left is excluded from the results by a condition on the frames left.
- Paging.PagingUnit.UnmapVirtualAddress: the table of the page exists, as an access through the self-map faults otherwise.
- Paging.PagingUnit.FreePage: the pages it is given are mapped.
- The translation look-aside buffer: cr3 is a field of the model.
- ProcessRing.Scheduler.HandleExit: the release of the process's memory and the message for a non-zero exit code; the code stops after the first page of table 0, so a forked child is not freed completely.
- ProcessRing.Scheduler.AddProcess: the page that holds the argument strings.
- Fork.Forker.Fork: frames last for three pages with each request; the allocator's tags and the records are arbitrary writes to heap pages that no process holds (HeapMemory has them byte by byte), and the record of an address space is a value.
- Machine.Computer.Fork: there is no exit, as the release of memory by exit is left out.
- AddressSpace.ForkMakesTwoMemories: the kernel's four megabytes and the self-map are shared or rewritten by design and not user addresses; the parent's pages, tables and directory have frames of their own, as fork itself leaves them for the child.
- Printf.Printer.Printf: print never fails, as in the kernel; a missing or mistyped argument, a width or precision that is no int, and a run of more than 255 digits are undefined.
- PrintfMeaning.PrintfWrites: a format whose arguments are missing or mistyped is undefined, and no format built here.
- PrintfStandard.UnsignedIsStandardIff: widths that are not negative (PrintfSpec.NegativeWidthOverflows covers the others); # with %u, which the standard leaves undefined.
- Terminal: the hardware cursor.
- load_module, input.c, interrupts, assembly, ports and the build.
