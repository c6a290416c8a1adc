/** The page-table code of kernel/arch/i386/page.c and alloc_page and free_page of
    kernel/arch/i386/heap.c, editing physical memory only through virtual addresses of the
    self-map. Every method is
    proved to refine PagingSpec. */
module Paging {
  import opened Page
  import opened Bitmap
  import opened PagingSpec
  import opened HeapPages

  class PagingUnit {
    const memory: array<Frame>       // physical memory
    var directory: FrameNumber       // cr3
    const bitmap: PageBitmap
    var heapEnd: nat                 // of alloc_page; 0 before the first call
    const heapStart: nat             // HEAP_START

    ghost predicate Valid()
      reads this, memory, bitmap, bitmap.words
    {
      && memory.Length == FRAMES
      && bitmap.Valid()
      && SelfMapped(memory[..], directory)
    }

    ghost function State(): Mmu
      requires memory.Length == FRAMES && bitmap.words.Length == WORDS
      reads memory, bitmap.words
    {
      Mmu(memory[..], bitmap.Used())
    }

    constructor (memory: array<Frame>, directory: FrameNumber, bitmap: PageBitmap, heapStart: nat)
      requires memory.Length == FRAMES && bitmap.Valid() && SelfMapped(memory[..], directory)
      ensures Valid() && heapEnd == 0
      ensures this.memory == memory && this.directory == directory && this.bitmap == bitmap
      ensures this.heapStart == heapStart
    {
      this.memory, this.directory, this.bitmap, this.heapStart := memory, directory, bitmap, heapStart;
      heapEnd := 0;
    }

    /** load_cr3 */
    method LoadDirectory(directory: FrameNumber)
      requires Valid() && SelfMapped(memory[..], directory)
      modifies this`directory
      ensures Valid() && this.directory == directory
    {
      this.directory := directory;
    }

    // ---- the processor's accesses to aligned words

    method Load(va: uint32) returns (w: uint32)
      requires Valid() && va % 4 == 0 && Walk(memory[..], directory, va).Some?
      ensures var pa := Walk(memory[..], directory, va).value; w == memory[FrameOf(pa)][pa % PAGE_SIZE / 4]
    {
      var pa := Walk(memory[..], directory, va).value;
      w := memory[FrameOf(pa)][pa % PAGE_SIZE / 4];
    }

    method Store(va: uint32, w: uint32)
      requires Valid() && va % 4 == 0 && Walk(memory[..], directory, va).Some?
      modifies memory
      ensures var pa := Walk(old(memory[..]), directory, va).value;
        memory[..] == SetEntry(old(memory[..]), FrameOf(pa), pa % PAGE_SIZE / 4, w)
    {
      var pa := Walk(memory[..], directory, va).value;
      memory[FrameOf(pa)] := memory[FrameOf(pa)][pa % PAGE_SIZE / 4 := w];
    }

    /** page_table->entries[i] of PAGE_TABLE(o) */
    method LoadEntry(o: Index, i: Index) returns (e: uint32)
      requires Valid() && Present(memory[directory][o])
      ensures e == memory[FrameOf(memory[directory][o])][i]
    {
      EntryPlace(memory[..], directory, o, i);
      e := Load(TableAddress(o) + 4 * i);
    }

    method StoreEntry(o: Index, i: Index, e: uint32)
      requires Valid() && Present(memory[directory][o])
      modifies memory
      ensures memory[..] == SetEntry(old(memory[..]), FrameOf(old(memory[directory][o])), i, e)
    {
      EntryPlace(memory[..], directory, o, i);
      Store(TableAddress(o) + 4 * i, e);
    }

    // ---- map_page

    /** memset(page_table, 0, PAGE_SIZE) through the window on table o */
    method ZeroTable(o: Index, ghost table: FrameNumber)
      requires Valid() && o < LAST && Present(memory[directory][o])
      requires FrameOf(memory[directory][o]) == table != directory
      modifies memory
      ensures memory[..] == old(memory[..])[table := ZeroFrame()]
    {
      ghost var m := memory[..];
      var i := 0;
      while i < 1024
        invariant i <= 1024 && |memory[..]| == |m| && memory[..] == m[table := memory[..][table]]
        invariant forall k :: 0 <= k < i ==> memory[..][table][k] == 0
      {
        StoreEntry(o, i, 0);
        i := i + 1;
      }
      assert memory[..][table] == ZeroFrame();
    }

    /** Creates the table of directory entry o. */
    method CreateTable(o: Index)
      requires Valid() && o < LAST && !Present(memory[directory][o])
      requires AllocatedFrame(bitmap.Used()) != directory
      modifies memory, bitmap, bitmap.words
      ensures Valid()
      ensures State() == Mmu(AddTable(old(memory[..]), directory, o, AllocatedFrame(old(bitmap.Used()))),
                             Allocate(old(bitmap.Used())).0)
    {
      ghost var table := AllocatedFrame(bitmap.Used());
      AllocatedPage(bitmap.Used());
      var page := bitmap.AllocateNextPage();
      EnterTable(o, page, table);
      ZeroTable(o, table);
    }

    /** page_directory->entries[o] = page | 0x03 */
    method EnterTable(o: Index, page: uint32, ghost table: FrameNumber)
      requires Valid() && o < LAST && page == table * PAGE_SIZE
      modifies memory
      ensures Valid() && memory[..] == SetEntry(old(memory[..]), directory, o, TableEntry(table))
      ensures Present(memory[directory][o]) && FrameOf(memory[directory][o]) == table
    {
      EntryFields(table, 0);
      StoreEntry(LAST, o, page + 3);
    }

    method MapPage(va: uint32, pa: uint32, flags: nat)
      requires Valid() && !SamePage(va, PAGE_DIRECTORY)
      requires WellFormed(memory[..], directory) && FreshTable(memory[..], directory, va, AllocatedFrame(bitmap.Used()))
      modifies memory, bitmap, bitmap.words
      ensures Valid()
      ensures State() == PagingSpec.MapPage(old(State()), directory, va, FrameOf(pa), flags)
    {
      EntryFields(FrameOf(pa), flags);
      MapKeepsSelfMap(memory[..], directory, va, MakeEntry(FrameOf(pa), flags), AllocatedFrame(bitmap.Used()));
      var o := DirIndex(va);
      var entry := LoadEntry(LAST, o);
      if entry % 2 == 0 {
        EntryFields(AllocatedFrame(bitmap.Used()), 0);
        CreateTable(o);
      }
      StoreEntry(o, TableIndex(va), MakeEntry(pa / PAGE_SIZE, flags));
    }

    method MapVirtualAddress(va: uint32, flags: nat)
      requires Valid() && !SamePage(va, PAGE_DIRECTORY)
      requires WellFormed(memory[..], directory)
      requires FreshTable(memory[..], directory, va, AllocatedFrame(Allocate(bitmap.Used()).0))
      modifies memory, bitmap, bitmap.words
      ensures Valid()
      ensures State() == MapVirtual(old(State()), directory, va, flags)
    {
      AllocatedPage(bitmap.Used());
      var page := bitmap.AllocateNextPage();
      MapPage(va, page, flags);
    }

    method GetPhysicalAddress(va: uint32) returns (pa: uint32)
      requires Valid() && Present(memory[directory][DirIndex(va)])
      ensures pa == PhysicalAddress(memory[..], directory, va)
    {
      var entry := LoadEntry(DirIndex(va), TableIndex(va));
      pa := entry / PAGE_SIZE * PAGE_SIZE + va % PAGE_SIZE;
    }

    // ---- unmap_virtual_address

    /** Whether table o has a present entry. */
    method AnyPresent(o: Index) returns (any: bool)
      requires Valid() && Present(memory[directory][o])
      ensures any <==> !EmptyTable(memory[..], FrameOf(memory[directory][o]))
    {
      var i := 0;
      while i < 1024
        invariant i <= 1024
        invariant forall k: Index :: k < i ==> !Present(memory[FrameOf(memory[directory][o])][k])
      {
        var entry := LoadEntry(o, i);
        if entry % 2 == 1 {
          return true;
        }
        i := i + 1;
      }
      any := false;
    }

    /** The table of va exists and is not the directory's own entry. */
    method UnmapVirtualAddress(va: uint32)
      requires Valid() && Present(memory[directory][DirIndex(va)]) && !SamePage(va, PAGE_DIRECTORY)
      requires DirIndex(va) < LAST ==> FrameOf(memory[directory][DirIndex(va)]) != directory
      modifies memory, bitmap, bitmap.words
      ensures Valid()
      ensures State() == Unmap(old(State()), directory, va)
      decreases LAST - DirIndex(va)
    {
      var o, t := DirIndex(va), TableIndex(va);
      Decompose(va, PAGE_DIRECTORY);
      ghost var s := State();
      var entry := LoadEntry(o, t);
      StoreEntry(o, t, 0);
      bitmap.FreePhysicalPage(entry);
      assert State() == ClearPage(s, directory, o, t);
      var any := AnyPresent(o);
      if any {
        return;
      }
      UnmapVirtualAddress(TableAddress(o));
    }

    // ---- alloc_page

    /** Maps `pages` pages at the end of the kernel heap, page number k, and returns their address. */
    method AllocPage(pages: nat, ghost k: nat) returns (block: nat)
      requires Valid() && k * PAGE_SIZE == if heapEnd == 0 then heapStart else heapEnd
      requires Inv(State(), directory) && EnoughFor(State(), directory, k, pages)
      modifies this`heapEnd, memory, bitmap, bitmap.words
      ensures Valid() && Inv(State(), directory)
      ensures block == k * PAGE_SIZE && heapEnd == (k + pages) * PAGE_SIZE
      ensures State() == AllocPages(old(State()), directory, k, pages)
    {
      if heapEnd == 0 {
        heapEnd := heapStart;
      }
      block := heapEnd;
      ghost var s := State();
      var i := 0;
      while i < pages
        invariant i <= pages && heapEnd == (k + i) * PAGE_SIZE && Valid() && Inv(State(), directory)
        invariant State() == AllocPages(s, directory, k, i)
      {
        ExtendHeap(s, k, i, pages);
        i := i + 1;
      }
    }

    /** One round of that loop. */
    method ExtendHeap(ghost s: Mmu, ghost k: nat, ghost i: nat, ghost n: nat)
      requires Valid() && i < n && EnoughFor(s, directory, k, n) && heapEnd == (k + i) * PAGE_SIZE
      requires Inv(State(), directory) && State() == AllocPages(s, directory, k, i)
      modifies this`heapEnd, memory, bitmap, bitmap.words
      ensures Valid() && Inv(State(), directory) && heapEnd == (k + i + 1) * PAGE_SIZE
      ensures State() == AllocPages(s, directory, k, i + 1)
    {
      assert NotExhausted(s, directory, k, i);
      AllocNext(s, directory, k, i);
      MapHeapPage(k + i);
    }

    method MapHeapPage(ghost page: nat)
      requires Valid() && page < HEAP_PAGES && heapEnd == page * PAGE_SIZE
      requires Inv(State(), directory) && EnoughFrames(State(), directory, heapEnd)
      modifies this`heapEnd, memory, bitmap, bitmap.words
      ensures Valid() && Inv(State(), directory) && heapEnd == old(heapEnd) + PAGE_SIZE
      ensures State() == MapVirtual(old(State()), directory, page * PAGE_SIZE, 3)
    {
      PageIndices(page);
      EnoughIsFresh(State(), directory, heapEnd);
      Decompose(heapEnd, PAGE_DIRECTORY);
      MapVirtualAddress(heapEnd, 3);
      heapEnd := heapEnd + PAGE_SIZE;
    }

    // ---- free_page

    /** Unmaps `pages` mapped pages from page number k on and lowers the end of the heap. */
    method FreePage(pages: nat, k: nat, ghost base: set<nat>)
      requires Valid() && ValidRange(Range(k, k + pages)) && pages * PAGE_SIZE <= heapEnd
      requires Accounts(State(), directory, Range(k, k + pages), base) && RangeMapped(State(), directory, k, k + pages)
      modifies this`heapEnd, memory, bitmap, bitmap.words
      ensures Valid() && heapEnd == old(heapEnd) - pages * PAGE_SIZE
      ensures State() == FreePages(old(State()), directory, k, pages)
    {
      ghost var s := State();
      var i := 0;
      while i < pages
        invariant i <= pages && Valid() && heapEnd == old(heapEnd)
        invariant State() == FreePages(s, directory, k, i)
        invariant Accounts(State(), directory, Range(k, k + pages), base)
        invariant RangeMapped(State(), directory, k + i, k + pages)
      {
        UnmapHeapPage(k + i, Range(k, k + pages), base);
        i := i + 1;
      }
      heapEnd := heapEnd - pages * PAGE_SIZE;
    }

    method UnmapHeapPage(page: nat, ghost r: Range, ghost base: set<nat>)
      requires Valid() && ValidRange(r) && r.from <= page < r.to
      requires Accounts(State(), directory, r, base) && RangeMapped(State(), directory, page, r.to)
      modifies memory, bitmap, bitmap.words
      ensures Valid() && State() == Unmap(old(State()), directory, page * PAGE_SIZE)
      ensures Accounts(State(), directory, r, base) && RangeMapped(State(), directory, page + 1, r.to)
    {
      ghost var s := State();
      MappedPage(s, directory, page);
      UnmapAccounts(s, directory, r, base, page);
      UnmapVirtualAddress(page * PAGE_SIZE);
    }
  }
}
