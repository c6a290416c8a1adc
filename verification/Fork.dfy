/** The copy of an address space by fork (kernel/arch/i386/process.c) on one physical memory, in
    which calloc and malloc_pages make the kernel heap grow between the copies. */
module Fork {
  import opened Page
  import opened Bitmap
  import HeapSpec
  import opened PagingSpec
  import opened Paging
  import opened AddressSpace
  import opened AddressCopy
  import opened HeapFrames

  // ---- the kernel and its processes

  /** The heap is sound and lies below 0xC0400000, in the table that the kernel's own directory
      names; the frames that processes hold lie behind its live blocks. */
  ghost predicate KernelSound(k: Kernel, dir: FrameNumber, table: FrameNumber, heapStart: nat, held: set<nat>) {
    && Sound(k, dir, heapStart) && OnHeap(k, dir, held)
    && k.mmu.mem[dir][KERNEL] == TableEntry(table)
    && InKernelTable(heapStart / PAGE_SIZE, Top(k.heap, heapStart))
  }

  /** A directory with the self-map and the kernel's table, all else of it among the frames held. */
  ghost predicate SharesKernel(m: Memory, d: FrameNumber, table: FrameNumber, held: set<nat>) {
    && WellFormed(m, d) && m[d][KERNEL] == TableEntry(table) && d in held
    && forall o: Index, f: FrameNumber | IsTable(m, d, o, f) :: f in held || f == table
  }

  /** An address space as fork finds and leaves it. */
  ghost predicate ProcessSound(m: Memory, p: ProcessMemory, table: FrameNumber, held: set<nat>) {
    && Tracks(m, p) && PagesApart(p) && PagesDistinct(p)
    && (forall f: FrameNumber :: Owns(p, f) ==> f in held)
    && SharesKernel(m, p.directory, table, held)
  }

  /** No frame held is the kernel's directory or the shared table. */
  lemma HeldApart(k: Kernel, dir: FrameNumber, table: FrameNumber, heapStart: nat, held: set<nat>)
    requires KernelSound(k, dir, table, heapStart, held)
    ensures dir !in held && table !in held && dir != table && table in k.mmu.used && held <= k.mmu.used
  {
    EntryFields(table, 0);
    assert IsTable(k.mmu.mem, dir, KERNEL, table);
    forall f | f in held
      ensures f != dir && f != table && f in k.mmu.used
    {
      assert BehindLive(k, dir, f);
      var b :| b in HeapSpec.Live(k.heap.blocks) && Behind(k, dir, b, f);
    }
  }

  lemma HeapInUse(k: Kernel, dir: FrameNumber, table: FrameNumber, heapStart: nat, held: set<nat>, f: nat)
    requires KernelSound(k, dir, table, heapStart, held) && f in held
    ensures k.heap.blocks != []
  {
    assert BehindLive(k, dir, f);
  }

  lemma SharesKernelInv(k: Kernel, dir: FrameNumber, d: FrameNumber, table: FrameNumber, heapStart: nat, held: set<nat>)
    requires KernelSound(k, dir, table, heapStart, held) && SharesKernel(k.mmu.mem, d, table, held)
    ensures Inv(k.mmu, d)
  {
    HeldApart(k, dir, table, heapStart, held);
  }

  /** Below 0xC0400000 every process sees the heap as the kernel does. */
  lemma HeapSeenByAll(k: Kernel, dir: FrameNumber, d: FrameNumber, table: FrameNumber, heapStart: nat, held: set<nat>,
                      a: nat)
    requires KernelSound(k, dir, table, heapStart, held) && SharesKernel(k.mmu.mem, d, table, held)
    requires heapStart <= a < k.heap.heapEnd && k.heap.blocks != []
    ensures 0xC000_0000 <= a < 0xC040_0000
    ensures Walk(k.mmu.mem, d, a) == Walk(k.mmu.mem, dir, a) && Walk(k.mmu.mem, d, a).Some?
  {
    BytesMapped(k, dir, heapStart, a);
    KernelPage(a / PAGE_SIZE);
    PageOf(a, FRAMES);
  }

  /** Only the directory itself counts. */
  lemma SharesKernelStays(m: Memory, n: Memory, d: FrameNumber, table: FrameNumber, held: set<nat>, more: set<nat>)
    requires SharesKernel(m, d, table, held) && n[d] == m[d] && held <= more
    ensures SharesKernel(n, d, table, more)
  {
    forall o: Index, f: FrameNumber
      ensures IsTable(n, d, o, f) <==> IsTable(m, d, o, f)
    {}
  }

  /** Writes to frames other than the kernel's directory and the shared table leave the kernel
      as it is. */
  lemma WritesKeepKernel(k: Kernel, m: Memory, dir: FrameNumber, table: FrameNumber, heapStart: nat, held: set<nat>)
    requires KernelSound(k, dir, table, heapStart, held) && m[dir] == k.mmu.mem[dir] && m[table] == k.mmu.mem[table]
    ensures KernelSound(k.(mmu := Mmu(m, k.mmu.used)), dir, table, heapStart, held)
  {
    var n := k.(mmu := Mmu(m, k.mmu.used));
    EntryFields(table, 0);
    TopAtLeastStart(k.heap, heapStart);
    forall o: Index, f: FrameNumber
      ensures IsTable(m, dir, o, f) <==> IsTable(k.mmu.mem, dir, o, f)
    {}
    forall l: nat | heapStart / PAGE_SIZE <= l < Top(k.heap, heapStart)
      ensures Backed(k.mmu, dir, l) && Backed(n.mmu, dir, l) && Backing(n.mmu, dir, l) == Backing(k.mmu, dir, l)
    {
      KernelPage(l);
      assert Backed(k.mmu, dir, l);
    }
    forall f | f in held
      ensures BehindLive(n, dir, f)
    {
      assert BehindLive(k, dir, f);
      var b :| b in HeapSpec.Live(k.heap.blocks) && Behind(k, dir, b, f);
      var l: nat :| l < FRAMES && Within(b, l) && Backed(k.mmu, dir, l) && Backing(k.mmu, dir, l) == f;
      WithinHeap(k.heap, heapStart, b, l);
      assert Behind(n, dir, b, f);
    }
  }

  /** Room for n requests of fork, each of at most three pages. */
  ghost predicate Room(k: Kernel, heapStart: nat, n: nat) {
    Top(k.heap, heapStart) + 3 * n <= (KERNEL + 1) * ENTRIES && 3 * n <= |FreeFrames(k.mmu.used)|
  }

  /** A request served under a process's directory: it is the one the kernel's directory would see,
      and no frame held changes. */
  lemma RequestKeeps(k: Kernel, h: HeapSpec.State, dir: FrameNumber, d: FrameNumber, table: FrameNumber,
                     heapStart: nat, held: set<nat>, r: HeapSpec.Request, n: nat)
    requires KernelSound(k, dir, table, heapStart, held) && SharesKernel(k.mmu.mem, d, table, held) && ForkRequest(r)
    requires HeapSpec.Serve(k.heap, heapStart, r) == Option.Some(h)
    requires Top(k.heap, heapStart) <= Top(h, heapStart) <= Top(k.heap, heapStart) + 3 && Room(k, heapStart, n + 1)
    ensures var pages := Top(h, heapStart) - Top(k.heap, heapStart);
      var s := AllocPages(k.mmu, d, Top(k.heap, heapStart), pages);
      && Inv(k.mmu, d) && EnoughFor(k.mmu, d, Top(k.heap, heapStart), pages)
      && Served(k, Kernel(h, s), dir, heapStart, r)
      && KernelSound(Kernel(h, s), dir, table, heapStart, held) && SharesKernel(s.mem, d, table, held)
      && Room(Kernel(h, s), heapStart, n)
      && forall f: FrameNumber :: f != table ==> s.mem[f] == k.mmu.mem[f]
  {
    var from, pages := Top(k.heap, heapStart), Top(h, heapStart) - Top(k.heap, heapStart);
    var s := AllocPages(k.mmu, d, from, pages);
    HeldApart(k, dir, table, heapStart, held);
    SharesKernelInv(k, dir, d, table, heapStart, held);
    TopAtLeastStart(k.heap, heapStart);
    SharedEnough(k.mmu, dir, table, from, pages);
    SharedEnough(k.mmu, d, table, from, pages);
    SharedGrowth(k.mmu, dir, d, table, from, pages);
    ServedKeepsSound(k, Kernel(h, s), dir, heapStart, r);
    ServedKeepsHeld(k, Kernel(h, s), dir, heapStart, r, held);
    SharesKernelStays(k.mmu.mem, s.mem, d, table, held, held);
  }

  /** What fork asks for from table i on: a record, a table and its pages. */
  function Requests(p: ProcessMemory, i: nat): nat
    requires i <= |p.tables|
    decreases |p.tables| - i
  {
    if i == |p.tables| then 0
    else (if p.tables[i].Some? then 2 + Count(p.tables[i].value.pages, 0) else 0) + Requests(p, i + 1)
  }

  class Forker {
    const unit: PagingUnit           // memory, bitmap and cr3
    var heap: HeapSpec.State
    const heapStart: nat             // HEAP_START
    const kernelTable: FrameNumber   // KERNEL_PAGE_TABLE_PHYSICAL_ADDRESS
    ghost const dir: FrameNumber     // the kernel's own directory
    var held: set<nat>               // frames of processes

    ghost predicate Valid()
      reads this, unit, unit.memory, unit.bitmap, unit.bitmap.words
    {
      && unit.Valid() && unit.heapStart == heapStart && unit.heapEnd == heap.heapEnd
      && KernelSound(State(), dir, kernelTable, heapStart, held)
      && SharesKernel(unit.memory[..], unit.directory, kernelTable, held)
    }

    ghost function State(): Kernel
      requires unit.memory.Length == FRAMES && unit.bitmap.words.Length == WORDS
      reads this, unit, unit.memory, unit.bitmap, unit.bitmap.words
    {
      Kernel(heap, unit.State())
    }

    constructor (unit: PagingUnit, heap: HeapSpec.State, kernelTable: FrameNumber, ghost dir: FrameNumber,
                 held: set<nat>)
      requires unit.Valid() && unit.heapEnd == heap.heapEnd
      requires KernelSound(Kernel(heap, unit.State()), dir, kernelTable, unit.heapStart, held)
      requires SharesKernel(unit.memory[..], unit.directory, kernelTable, held)
      ensures Valid() && this.unit == unit && this.heap == heap && this.held == held
      ensures this.kernelTable == kernelTable && this.dir == dir
    {
      this.unit, this.heap, this.heapStart := unit, heap, unit.heapStart;
      this.kernelTable, this.dir, this.held := kernelTable, dir, held;
    }

    // ---- requests

    /** The growth of the heap to h. */
    method Grow(h: HeapSpec.State, ghost r: HeapSpec.Request, ghost n: nat)
      requires Valid() && ForkRequest(r) && HeapSpec.Serve(heap, heapStart, r) == Option.Some(h)
      requires Top(heap, heapStart) <= Top(h, heapStart) <= Top(heap, heapStart) + 3 && Room(State(), heapStart, n + 1)
      modifies this`heap, unit`heapEnd, unit.memory, unit.bitmap, unit.bitmap.words
      ensures Valid() && heap == h && Room(State(), heapStart, n)
      ensures Served(old(State()), State(), dir, heapStart, r)
      ensures forall f: FrameNumber :: f in held ==> unit.memory[f] == old(unit.memory[f])
    {
      RequestKeeps(State(), h, dir, unit.directory, kernelTable, heapStart, held, r, n);
      HeldApart(State(), dir, kernelTable, heapStart, held);
      ghost var k := State();
      var from, pages := Top(heap, heapStart), Top(h, heapStart) - Top(heap, heapStart);
      TopsAgree(heap, h, heapStart, r);
      HeapInUse(Kernel(h, AllocPages(k.mmu, unit.directory, from, pages)), dir, kernelTable, heapStart, held,
                unit.directory);
      var _ := unit.AllocPage(pages, from);
      heap := h;
    }

    /** What the allocator and the records of processes write into the pages of the heap: anything,
        but not to the frames that processes hold. */
    method Bookkeeping()
      requires Valid()
      modifies unit.memory
      ensures Valid()
      ensures forall f: FrameNumber :: f in held || f == dir || f == kernelTable ==>
                unit.memory[f] == old(unit.memory[f])
    {
      ghost var k := State();
      HeldApart(k, dir, kernelTable, heapStart, held);
      var page := heapStart / PAGE_SIZE;
      TopAtLeastStart(heap, heapStart);
      while page < Top(heap, heapStart)
        invariant heapStart / PAGE_SIZE <= page <= Top(heap, heapStart) && unit.Valid()
        invariant forall f: FrameNumber :: f in held || f == dir || f == kernelTable ==> unit.memory[f] == k.mmu.mem[f]
      {
        var f := HeapFrame(k, page);
        if f !in held {
          unit.memory[f] := *;
        }
        page := page + 1;
      }
      WritesKeepKernel(k, unit.memory[..], dir, kernelTable, heapStart, held);
      SharesKernelStays(k.mmu.mem, unit.memory[..], unit.directory, kernelTable, held, held);
    }

    /** The frame behind a page of the heap, as get_physical_address gives it. */
    method HeapFrame(ghost k: Kernel, page: nat) returns (f: FrameNumber)
      requires unit.Valid() && KernelSound(k, dir, kernelTable, heapStart, held)
      requires SharesKernel(k.mmu.mem, unit.directory, kernelTable, held)
      requires heapStart / PAGE_SIZE <= page < Top(k.heap, heapStart)
      requires unit.memory[unit.directory] == k.mmu.mem[unit.directory]
      requires unit.memory[kernelTable] == k.mmu.mem[kernelTable]
      ensures Backed(k.mmu, dir, page) && f == Backing(k.mmu, dir, page) && f != dir && f != kernelTable
    {
      KernelPage(page);
      EntryFields(kernelTable, 0);
      assert Backed(k.mmu, dir, page);
      assert IsTable(k.mmu.mem, dir, KERNEL, kernelTable);
      var pa := unit.GetPhysicalAddress(page * PAGE_SIZE);
      f := pa / PAGE_SIZE;
      Packed(FrameOf(unit.memory[kernelTable][page % ENTRIES]), 0);
    }

    /** malloc_pages(1): the frame behind the page it returns, which no process holds. */
    method NewPage(ghost n: nat) returns (f: FrameNumber)
      requires Valid() && HeapSpec.RoomyGap(heap, heapStart) && Room(State(), heapStart, n + 1)
      modifies this`heap, this`held, unit`heapEnd, unit.memory, unit.bitmap, unit.bitmap.words
      ensures Valid() && HeapSpec.AfterPages(heap) && Room(State(), heapStart, n)
      ensures f !in old(held) && held == old(held) + {f}
      ensures forall g: FrameNumber :: g in old(held) ==> unit.memory[g] == old(unit.memory[g])
    {
      ghost var behind;
      var ptr;
      ptr, behind := AskPage(n);
      f := HoldPage(ptr, behind);
    }

    /** The growth for malloc_pages(1) and the frame behind its pointer. */
    method AskPage(ghost n: nat) returns (ptr: nat, ghost behind: FrameNumber)
      requires Valid() && HeapSpec.RoomyGap(heap, heapStart) && Room(State(), heapStart, n + 1)
      modifies this`heap, unit`heapEnd, unit.memory, unit.bitmap, unit.bitmap.words
      ensures Valid() && HeapSpec.AfterPages(heap) && Room(State(), heapStart, n)
      ensures behind !in held && NewlyBehind(State(), dir, heapStart, held, ptr, behind)
      ensures forall g: FrameNumber :: g in held ==> unit.memory[g] == old(unit.memory[g])
    {
      ghost var k := State();
      var (h, p) := HeapSpec.MallocPages(heap, heapStart, 1);
      HeapSpec.MallocPagesLeavesGap(heap, heapStart, 1);
      RequestTop(heap, heapStart, HeapSpec.RECORD);
      Grow(h, HeapSpec.AskPages(1), n);
      ptr := p;
      behind := PageIsFresh(k, State(), dir, heapStart, held);
      PageFrame(State(), dir, heapStart, ptr, behind);
    }

    /** get_physical_address of that page, after the heap's own writes */
    method HoldPage(ptr: nat, ghost behind: FrameNumber) returns (f: FrameNumber)
      requires Valid() && NewlyBehind(State(), dir, heapStart, held, ptr, behind)
      modifies this`held, unit.memory
      ensures Valid() && f == behind && held == old(held) + {f} && State().mmu.used == old(State().mmu.used)
      ensures forall g: FrameNumber :: g in old(held) ==> unit.memory[g] == old(unit.memory[g])
    {
      ghost var k := State();
      Bookkeeping();
      f := HeapFrame(k, ptr / PAGE_SIZE);
      HoldFrame(k, unit.memory[..], dir, unit.directory, kernelTable, heapStart, held, f);
      held := held + {f};
    }

    /** calloc or malloc of a record */
    method Record(size: nat, ghost n: nat)
      requires Valid() && 0 < size <= HeapSpec.RECORD && Room(State(), heapStart, n + 1)
      modifies this`heap, unit`heapEnd, unit.memory, unit.bitmap, unit.bitmap.words
      ensures Valid() && heap == HeapSpec.Malloc(old(heap), heapStart, size).0 && Room(State(), heapStart, n)
      ensures forall f: FrameNumber :: f in held ==> unit.memory[f] == old(unit.memory[f])
    {
      var h := HeapSpec.Malloc(heap, heapStart, size).0;
      RequestTop(heap, heapStart, size);
      Grow(h, HeapSpec.AskBytes(size), n);
      Bookkeeping();
    }

    // ---- copying

    /** A write to a frame of the child. */
    method WriteFrame(f: FrameNumber, x: Frame)
      requires Valid() && f in held && f != unit.directory
      modifies unit.memory
      ensures Valid() && unit.memory[..] == old(unit.memory[..])[f := x]
    {
      ghost var k := State();
      HeldApart(k, dir, kernelTable, heapStart, held);
      unit.memory[f] := x;
      WritesKeepKernel(k, unit.memory[..], dir, kernelTable, heapStart, held);
      SharesKernelStays(k.mmu.mem, unit.memory[..], unit.directory, kernelTable, held, held);
    }

    /** One round of the inner loop, for a page that is tracked. */
    method CopyPageAt(t: TableRecord, c: TableRecord, j: Index, ghost m: Memory, ghost kept: set<nat>, ghost n: nat)
      returns (d: TableRecord)
      requires Valid() && HeapSpec.AfterPages(heap) && Room(State(), heapStart, n + 1)
      requires TableProgress(m, unit.memory[..], t, c, j, kept, held) && PageAt(t, j) && unit.directory in kept
      requires forall f: FrameNumber :: TableOwns(t, f) ==> f in kept
      modifies this`heap, this`held, unit`heapEnd, unit.memory, unit.bitmap, unit.bitmap.words
      ensures Valid() && HeapSpec.AfterPages(heap) && Room(State(), heapStart, n)
      ensures TableProgress(m, unit.memory[..], t, d, j + 1, kept, held)
    {
      ghost var before, was := unit.memory[..], held;
      var f := NewPage(n);
      TableProgressStays(m, before, unit.memory[..], t, c, j, kept, was);
      d := PutPage(t, c, j, f, m, kept, was);
    }

    /** memcpy to the new page and its entry */
    method PutPage(t: TableRecord, c: TableRecord, j: Index, f: FrameNumber, ghost m: Memory, ghost kept: set<nat>,
                   ghost was: set<nat>)
      returns (d: TableRecord)
      requires Valid() && PageAt(t, j) && f !in was && held == was + {f} && unit.directory in kept
      requires TableProgress(m, unit.memory[..], t, c, j, kept, was)
      requires forall g: FrameNumber :: TableOwns(t, g) ==> g in kept
      modifies unit.memory
      ensures Valid() && TableProgress(m, unit.memory[..], t, d, j + 1, kept, held)
    {
      ghost var n := unit.memory[..];
      assert TableOwns(c, c.frame) && TableOwns(t, t.frame) && TableOwns(t, t.pages[j].value);
      CopyPageProgress(m, n, t, c, j, kept, was, f);
      WriteFrame(f, unit.memory[t.pages[j].value]);
      WriteFrame(c.frame, unit.memory[c.frame][j := CopyEntry(f, unit.memory[t.frame][j])]);
      assert unit.memory[..] == CopyPage(n, t, c, j, f);
      d := c.(pages := c.pages[j := Some(f)]);
    }

    /** A record, a zeroed table and the inner loop: the pages tracked in t. */
    method CopyTable(t: TableRecord, ghost n: nat) returns (c: TableRecord)
      requires Valid() && |t.pages| == 1024 && HeapSpec.AfterPages(heap) && unit.directory in held
      requires Room(State(), heapStart, n + 2 + Count(t.pages, 0))
      requires forall f: FrameNumber :: TableOwns(t, f) ==> f in held
      modifies this`heap, this`held, unit`heapEnd, unit.memory, unit.bitmap, unit.bitmap.words
      ensures Valid() && HeapSpec.AfterPages(heap) && Room(State(), heapStart, n)
      ensures TableProgress(old(unit.memory[..]), unit.memory[..], t, c, 1024, old(held), held)
    {
      ghost var m, kept := unit.memory[..], held;
      HeapSpec.RecordLeavesRoom(heap, heapStart);
      Record(HeapSpec.RECORD, n + 1 + Count(t.pages, 0));
      c := NewTable(t, m, kept, n + Count(t.pages, 0));
      var j := 0;
      while j < 1024
        invariant j <= 1024 && Valid() && HeapSpec.AfterPages(heap) && Room(State(), heapStart, n + Count(t.pages, j))
        invariant TableProgress(m, unit.memory[..], t, c, j, kept, held)
      {
        c := TableRound(t, c, j, m, kept, n + Count(t.pages, j + 1));
        j := j + 1;
      }
    }

    method TableRound(t: TableRecord, c: TableRecord, j: Index, ghost m: Memory, ghost kept: set<nat>, ghost n: nat)
      returns (d: TableRecord)
      requires Valid() && HeapSpec.AfterPages(heap) && unit.directory in kept
      requires TableProgress(m, unit.memory[..], t, c, j, kept, held)
      requires forall f: FrameNumber :: TableOwns(t, f) ==> f in kept
      requires Room(State(), heapStart, n + if t.pages[j].Some? then 1 else 0)
      modifies this`heap, this`held, unit`heapEnd, unit.memory, unit.bitmap, unit.bitmap.words
      ensures Valid() && HeapSpec.AfterPages(heap) && Room(State(), heapStart, n)
      ensures TableProgress(m, unit.memory[..], t, d, j + 1, kept, held)
    {
      if t.pages[j].Some? {
        d := CopyPageAt(t, c, j, m, kept, n);
      } else {
        SkipPage(m, unit.memory[..], t, c, j, kept, held);
        d := c;
      }
    }

    method NewTable(t: TableRecord, ghost m: Memory, ghost kept: set<nat>, ghost n: nat) returns (c: TableRecord)
      requires Valid() && |t.pages| == 1024 && HeapSpec.RoomyGap(heap, heapStart) && kept == held
      requires Room(State(), heapStart, n + 1) && forall f: FrameNumber :: f in kept ==> unit.memory[f] == m[f]
      modifies this`heap, this`held, unit`heapEnd, unit.memory, unit.bitmap, unit.bitmap.words
      ensures Valid() && HeapSpec.AfterPages(heap) && Room(State(), heapStart, n)
      ensures TableProgress(m, unit.memory[..], t, c, 0, kept, held)
    {
      var frame := NewPage(n);
      EmptyTableProgress(m, unit.memory[..], t, frame, kept);
      WriteFrame(frame, ZeroFrame());
      c := TableRecord(frame, seq(1024, i => None));
    }

    /** One round of the outer loop, for a table of the parent that exists. */
    method CopyAndEnter(p: ProcessMemory, c: ProcessMemory, i: Index, ghost m: Memory, ghost kept: set<nat>,
                        ghost n: nat)
      returns (d: ProcessMemory)
      requires Valid() && TableAt(p, i) && |p.tables[i].value.pages| == 1024 && HeapSpec.AfterPages(heap)
      requires Room(State(), heapStart, n + 2 + Count(p.tables[i].value.pages, 0)) && unit.directory in kept
      requires forall f: FrameNumber :: Owns(p, f) ==> f in kept
      requires ForkProgress(m, unit.memory[..], p, c, i, kept, held)
      modifies this`heap, this`held, unit`heapEnd, unit.memory, unit.bitmap, unit.bitmap.words
      ensures Valid() && HeapSpec.AfterPages(heap) && Room(State(), heapStart, n)
      ensures ForkProgress(m, unit.memory[..], p, d, i + 1, kept, held)
    {
      ghost var before, was := unit.memory[..], held;
      assert Owns(c, c.directory);
      forall f: FrameNumber | TableOwns(p.tables[i].value, f) ensures f in held {
        assert Owns(p, f);
      }
      var table := CopyTable(p.tables[i].value, n);
      TableEntered(m, before, unit.memory[..], p, c, i, table, kept, was, held);
      d := c.(tables := c.tables[i := Some(table)]);
      WriteFrame(c.directory, unit.memory[c.directory][i := CopyEntry(table.frame, unit.memory[p.directory][i])]);
    }

    /** The entry of the kernel's own table and the self-map. */
    method EnterKernel(p: ProcessMemory, c: ProcessMemory, ghost m: Memory, ghost kept: set<nat>)
      requires Valid() && ForkProgress(m, unit.memory[..], p, c, 1024, kept, held) && unit.directory in kept
      requires p.tables[KERNEL].None? && p.tables[LAST].None? && forall f: FrameNumber :: Owns(p, f) ==> f in kept
      modifies unit.memory
      ensures Valid() && Copied(m, unit.memory[..], p, c, kernelTable)
      ensures forall f: FrameNumber :: f in kept ==> unit.memory[f] == m[f]
    {
      ghost var n := unit.memory[..];
      assert Owns(c, c.directory);
      SetLastEntries(c.directory);
      ForkDone(m, n, p, c, kept, held, kernelTable);
    }

    method SetLastEntries(directory: FrameNumber)
      requires Valid() && directory in held && directory != unit.directory
      modifies unit.memory
      ensures Valid()
      ensures var d := old(unit.memory[directory])[LAST := TableEntry(directory)][KERNEL := TableEntry(kernelTable)];
        unit.memory[..] == old(unit.memory[..])[directory := d]
    {
      WriteFrame(directory, unit.memory[directory][LAST := TableEntry(directory)]);
      WriteFrame(directory, unit.memory[directory][KERNEL := TableEntry(kernelTable)]);
    }

    /** The copy of the running process's address space: a record, a zeroed directory, then table
        by table. After the first record the gap must have room for a block. */
    method Fork(p: ProcessMemory, ghost n: nat) returns (c: ProcessMemory)
      requires Valid() && ProcessSound(unit.memory[..], p, kernelTable, held) && p.directory == unit.directory
      requires HeapSpec.RoomyGap(HeapSpec.Malloc(heap, heapStart, HeapSpec.RECORD).0, heapStart)
      requires Room(State(), heapStart, n + 2 + Requests(p, 0))
      modifies this`heap, this`held, unit`heapEnd, unit.memory, unit.bitmap, unit.bitmap.words
      ensures Valid() && HeapSpec.AfterPages(heap) && Room(State(), heapStart, n)
      ensures Copied(old(unit.memory[..]), unit.memory[..], p, c, kernelTable)
      ensures ProcessSound(unit.memory[..], p, kernelTable, held) && ProcessSound(unit.memory[..], c, kernelTable, held)
      ensures old(held) <= held && forall f: FrameNumber :: Owns(c, f) <==> f in held && f !in old(held)
      ensures forall f: FrameNumber :: f in old(held) ==> unit.memory[f] == old(unit.memory[f])
    {
      ghost var m, kept := unit.memory[..], held;
      Record(HeapSpec.RECORD, n + 1 + Requests(p, 0));
      c := NewDirectory(p, m, kept, n + Requests(p, 0));
      var i := 0;
      while i < 1024
        invariant i <= 1024 && Valid() && HeapSpec.AfterPages(heap) && Room(State(), heapStart, n + Requests(p, i))
        invariant ForkProgress(m, unit.memory[..], p, c, i, kept, held)
      {
        c := DirectoryRound(p, c, i, m, kept, n + Requests(p, i + 1));
        i := i + 1;
      }
      EnterKernel(p, c, m, kept);
      BothSound(State(), m, p, c, dir, kernelTable, heapStart, kept, held);
    }

    method DirectoryRound(p: ProcessMemory, c: ProcessMemory, i: Index, ghost m: Memory, ghost kept: set<nat>,
                          ghost n: nat)
      returns (d: ProcessMemory)
      requires Valid() && HeapSpec.AfterPages(heap) && unit.directory in kept && Tracks(m, p)
      requires ForkProgress(m, unit.memory[..], p, c, i, kept, held)
      requires forall f: FrameNumber :: Owns(p, f) ==> f in kept
      requires Room(State(), heapStart, n + if TableAt(p, i) then 2 + Count(p.tables[i].value.pages, 0) else 0)
      modifies this`heap, this`held, unit`heapEnd, unit.memory, unit.bitmap, unit.bitmap.words
      ensures Valid() && HeapSpec.AfterPages(heap) && Room(State(), heapStart, n)
      ensures ForkProgress(m, unit.memory[..], p, d, i + 1, kept, held)
    {
      if p.tables[i].Some? {
        assert TableTracks(m, p.tables[i].value);
        d := CopyAndEnter(p, c, i, m, kept, n);
      } else {
        SkipTable(m, unit.memory[..], p, c, i, kept, held);
        d := c;
      }
    }

    method NewDirectory(p: ProcessMemory, ghost m: Memory, ghost kept: set<nat>, ghost n: nat)
      returns (c: ProcessMemory)
      requires Valid() && |p.tables| == 1024 && HeapSpec.RoomyGap(heap, heapStart) && kept == held
      requires Room(State(), heapStart, n + 1) && forall f: FrameNumber :: f in kept ==> unit.memory[f] == m[f]
      modifies this`heap, this`held, unit`heapEnd, unit.memory, unit.bitmap, unit.bitmap.words
      ensures Valid() && HeapSpec.AfterPages(heap) && Room(State(), heapStart, n)
      ensures ForkProgress(m, unit.memory[..], p, c, 0, kept, held)
    {
      var directory := NewPage(n);
      EmptyForkProgress(m, unit.memory[..], p, directory, kept);
      WriteFrame(directory, ZeroFrame());
      c := ProcessMemory(directory, seq(1024, i => None));
    }
  }

  lemma HoldFrame(k: Kernel, m: Memory, dir: FrameNumber, d: FrameNumber, table: FrameNumber, heapStart: nat,
                  held: set<nat>, f: FrameNumber)
    requires KernelSound(k, dir, table, heapStart, held) && OnHeap(k, dir, held + {f})
    requires SharesKernel(k.mmu.mem, d, table, held)
    requires m[dir] == k.mmu.mem[dir] && m[table] == k.mmu.mem[table] && m[d] == k.mmu.mem[d]
    ensures KernelSound(k.(mmu := Mmu(m, k.mmu.used)), dir, table, heapStart, held + {f})
    ensures SharesKernel(m, d, table, held + {f})
  {
    WritesKeepKernel(k, m, dir, table, heapStart, held + {f});
    SharesKernelStays(k.mmu.mem, m, d, table, held, held + {f});
  }

  lemma TopsAgree(s: HeapSpec.State, h: HeapSpec.State, heapStart: nat, r: HeapSpec.Request)
    requires HeapSpec.Inv(s, heapStart) && HeapSpec.Serve(s, heapStart, r) == Option.Some(h)
    requires Top(s, heapStart) <= Top(h, heapStart)
    ensures Top(s, heapStart) * PAGE_SIZE == if s.heapEnd == 0 then heapStart else s.heapEnd
    ensures h.blocks != [] ==> h.heapEnd == Top(h, heapStart) * PAGE_SIZE
  {
    HeapSpec.RunKeepsInv(s, heapStart, [r]);
    TopAtLeastStart(s, heapStart);
    TopAtLeastStart(h, heapStart);
  }

  lemma RequestTop(s: HeapSpec.State, heapStart: nat, size: nat)
    requires HeapSpec.Inv(s, heapStart) && 0 < size <= HeapSpec.RECORD
    ensures var h := HeapSpec.Malloc(s, heapStart, size).0;
      h.blocks != [] && Top(s, heapStart) <= Top(h, heapStart) <= Top(s, heapStart) + 3
    ensures HeapSpec.RoomyGap(s, heapStart) ==>
              var h := HeapSpec.MallocPages(s, heapStart, 1).0;
              h.blocks != [] && Top(s, heapStart) <= Top(h, heapStart) <= Top(s, heapStart) + 3
  {
    HeapSpec.RequestGrowth(s, heapStart, size);
  }

  /** The frame f lies behind the page at ptr, and with the frames held behind live blocks. */
  ghost predicate NewlyBehind(k: Kernel, dir: FrameNumber, heapStart: nat, held: set<nat>, ptr: nat, f: FrameNumber) {
    && OnHeap(k, dir, held + {f})
    && heapStart / PAGE_SIZE <= ptr / PAGE_SIZE < Top(k.heap, heapStart) <= FRAMES
    && Backed(k.mmu, dir, ptr / PAGE_SIZE) && Backing(k.mmu, dir, ptr / PAGE_SIZE) == f
  }

  /** The walk of a page's address tells its frame. */
  lemma PageFrame(k: Kernel, dir: FrameNumber, heapStart: nat, ptr: nat, f: FrameNumber)
    requires Sound(k, dir, heapStart) && ptr % PAGE_SIZE == 0 && heapStart <= ptr
    requires ptr / PAGE_SIZE < Top(k.heap, heapStart)
    requires ptr < LIMIT && Walk(k.mmu.mem, dir, ptr) == Option.Some(f * PAGE_SIZE)
    ensures Backed(k.mmu, dir, ptr / PAGE_SIZE) && Backing(k.mmu, dir, ptr / PAGE_SIZE) == f
  {
    PageOf(ptr, FRAMES);
    assert Backed(k.mmu, dir, ptr / PAGE_SIZE);
    WalkIsLeaf(k.mmu.mem, dir, ptr);
  }

  /** After the copy parent and child are both as fork needs an address space to be. */
  lemma BothSound(k: Kernel, m: Memory, p: ProcessMemory, c: ProcessMemory, dir: FrameNumber, table: FrameNumber,
                  heapStart: nat, kept: set<nat>, held: set<nat>)
    requires KernelSound(k, dir, table, heapStart, held) && kept <= held
    requires ProcessSound(m, p, table, kept) && Copied(m, k.mmu.mem, p, c, table)
    requires forall f: FrameNumber :: Owns(c, f) ==> f in held
    ensures ProcessSound(k.mmu.mem, p, table, held) && ProcessSound(k.mmu.mem, c, table, held)
  {
    var n := k.mmu.mem;
    CopyTracks(m, n, p, c, table);
    assert Owns(p, p.directory) && Owns(c, c.directory);
    SharesKernelStays(m, n, p.directory, table, kept, held);
    HeldApart(k, dir, table, heapStart, held);
    ChildSharesKernel(m, n, p, c, table, held);
  }

  lemma ChildSharesKernel(m: Memory, n: Memory, p: ProcessMemory, c: ProcessMemory, table: FrameNumber, held: set<nat>)
    requires Tracks(m, p) && Tracks(n, c) && Copied(m, n, p, c, table) && table !in held
    requires forall f: FrameNumber :: Owns(c, f) ==> f in held
    ensures SharesKernel(n, c.directory, table, held)
  {
    var d := c.directory;
    EntryFields(d, 0);
    EntryFields(table, 0);
    assert Owns(c, d);
    forall o: Index, f: FrameNumber | IsTable(n, d, o, f)
      ensures f != d && !Large(n[d][o]) && (f in held || f == table)
      ensures o == KERNEL <==> f == table
      ensures o != KERNEL ==> TableAt(c, o) && c.tables[o].value.frame == f
    {
      if o != KERNEL {
        assert TableAt(c, o);
        OwnsPage(c, o, 0);
      }
    }
  }
}
