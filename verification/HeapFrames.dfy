/** The heap of libc/stdlib/dynamic_allocation.c on the pages that alloc_page of
    kernel/arch/i386/heap.c maps: which physical memory lies behind its blocks, and what a request
    leaves of the memory that processes hold. */
module HeapFrames {
  import opened Page
  import HeapSpec
  import opened Bitmap
  import opened PagingSpec
  import opened AddressSpace

  /** The allocator's state with physical memory and bitmap. */
  datatype Kernel = Kernel(heap: HeapSpec.State, mmu: Mmu)

  /** The number of the first page above the heap. */
  function Top(h: HeapSpec.State, heapStart: nat): nat {
    (if h.blocks == [] then heapStart else h.heapEnd) / PAGE_SIZE
  }

  /** The blocks tile the heap and each page up to heap_end has a frame of its own, as seen through
      the kernel's own directory. */
  ghost predicate Sound(k: Kernel, dir: FrameNumber, heapStart: nat) {
    && HeapSpec.Inv(k.heap, heapStart) && Inv(k.mmu, dir)
    && Top(k.heap, heapStart) <= FRAMES && HeapBacked(k.mmu, dir, heapStart / PAGE_SIZE, Top(k.heap, heapStart))
  }

  /** A request is served, and alloc_page maps the pages by which the heap grows. */
  ghost predicate Served(k: Kernel, n: Kernel, dir: FrameNumber, heapStart: nat, r: HeapSpec.Request) {
    && HeapSpec.Serve(k.heap, heapStart, r) == Option.Some(n.heap)
    && Top(k.heap, heapStart) <= Top(n.heap, heapStart)
    && var pages := Top(n.heap, heapStart) - Top(k.heap, heapStart);
       EnoughFor(k.mmu, dir, Top(k.heap, heapStart), pages) &&
       n.mmu == AllocPages(k.mmu, dir, Top(k.heap, heapStart), pages)
  }

  lemma TopAtLeastStart(h: HeapSpec.State, heapStart: nat)
    requires HeapSpec.Inv(h, heapStart)
    ensures heapStart / PAGE_SIZE <= Top(h, heapStart)
    ensures h.blocks != [] ==> h.heapEnd == Top(h, heapStart) * PAGE_SIZE
  {
    if h.blocks != [] { HeapSpec.LastAddress(h.blocks, 0); }
  }

  lemma ServedKeepsSound(k: Kernel, n: Kernel, dir: FrameNumber, heapStart: nat, r: HeapSpec.Request)
    requires Sound(k, dir, heapStart) && Served(k, n, dir, heapStart, r)
    ensures Sound(n, dir, heapStart)
    ensures SameBacking(k.mmu, n.mmu, dir, heapStart / PAGE_SIZE, Top(k.heap, heapStart))
  {
    HeapSpec.RunKeepsInv(k.heap, heapStart, [r]);
    TopAtLeastStart(k.heap, heapStart);
    RunBacksHeap(k.mmu, dir, heapStart / PAGE_SIZE, Top(k.heap, heapStart),
                 Top(n.heap, heapStart) - Top(k.heap, heapStart));
  }

  ghost predicate ServedAt(ks: seq<Kernel>, rs: seq<HeapSpec.Request>, dir: FrameNumber, heapStart: nat, i: nat)
    requires i < |rs| && i + 1 < |ks|
  {
    Served(ks[i], ks[i + 1], dir, heapStart, rs[i])
  }

  /** The states that a series of requests goes through. */
  ghost predicate KernelRun(ks: seq<Kernel>, rs: seq<HeapSpec.Request>, dir: FrameNumber, heapStart: nat) {
    |ks| == |rs| + 1 && forall i: nat | i < |rs| :: ServedAt(ks, rs, dir, heapStart, i)
  }

  lemma {:induction false} RunKeepsSound(ks: seq<Kernel>, rs: seq<HeapSpec.Request>, dir: FrameNumber, heapStart: nat,
                                         n: nat)
    requires KernelRun(ks, rs, dir, heapStart) && Sound(ks[0], dir, heapStart) && n <= |rs|
    ensures Sound(ks[n], dir, heapStart)
    decreases n
  {
    if n > 0 {
      RunKeepsSound(ks, rs, dir, heapStart, n - 1);
      assert ServedAt(ks, rs, dir, heapStart, n - 1);
      ServedKeepsSound(ks[n - 1], ks[n], dir, heapStart, rs[n - 1]);
    }
  }

  // ---- memory behind the blocks

  /** Every byte of every block, and of the rest of the heap, is mapped: to its page's frame. */
  lemma BytesMapped(k: Kernel, dir: FrameNumber, heapStart: nat, a: nat)
    requires Sound(k, dir, heapStart) && k.heap.blocks != [] && heapStart <= a < k.heap.heapEnd
    ensures a < LIMIT && heapStart / PAGE_SIZE <= a / PAGE_SIZE < Top(k.heap, heapStart)
    ensures Backed(k.mmu, dir, a / PAGE_SIZE)
    ensures Walk(k.mmu.mem, dir, a) == Option.Some(Backing(k.mmu, dir, a / PAGE_SIZE) * PAGE_SIZE + a % PAGE_SIZE)
  {
    TopAtLeastStart(k.heap, heapStart);
    PageOf(a, Top(k.heap, heapStart));
    assert Backed(k.mmu, dir, a / PAGE_SIZE);
    WalkIsLeaf(k.mmu.mem, dir, a);
  }

  lemma PageOf(a: nat, top: nat)
    requires a < top * PAGE_SIZE && top <= FRAMES
    ensures a < LIMIT && a / PAGE_SIZE < top
    ensures DirIndex(a) == a / PAGE_SIZE / ENTRIES && TableIndex(a) == a / PAGE_SIZE % ENTRIES
  {
  }

  /** Different bytes of the heap are different bytes of physical memory. */
  lemma BytesApart(k: Kernel, dir: FrameNumber, heapStart: nat, a: nat, b: nat)
    requires Sound(k, dir, heapStart) && k.heap.blocks != [] && a != b
    requires heapStart <= a < k.heap.heapEnd && heapStart <= b < k.heap.heapEnd
    ensures a < LIMIT && b < LIMIT && Walk(k.mmu.mem, dir, a).Some? && Walk(k.mmu.mem, dir, b).Some?
    ensures Walk(k.mmu.mem, dir, a) != Walk(k.mmu.mem, dir, b)
  {
    BytesMapped(k, dir, heapStart, a);
    BytesMapped(k, dir, heapStart, b);
    BackingsDiffer(k, dir, heapStart, a / PAGE_SIZE, b / PAGE_SIZE);
    Quotient(Walk(k.mmu.mem, dir, a).value, PAGE_SIZE, Backing(k.mmu, dir, a / PAGE_SIZE), a % PAGE_SIZE);
    Quotient(Walk(k.mmu.mem, dir, b).value, PAGE_SIZE, Backing(k.mmu, dir, b / PAGE_SIZE), b % PAGE_SIZE);
  }

  lemma BackingsDiffer(k: Kernel, dir: FrameNumber, heapStart: nat, i: nat, j: nat)
    requires Sound(k, dir, heapStart)
    requires heapStart / PAGE_SIZE <= i < Top(k.heap, heapStart) && heapStart / PAGE_SIZE <= j < Top(k.heap, heapStart)
    ensures Backed(k.mmu, dir, i) && Backed(k.mmu, dir, j)
    ensures i != j ==> Backing(k.mmu, dir, i) != Backing(k.mmu, dir, j)
  {
    assert Backed(k.mmu, dir, i) && Backed(k.mmu, dir, j);
  }

  lemma BlockInHeap(h: HeapSpec.State, heapStart: nat, b: HeapSpec.Block)
    requires HeapSpec.Inv(h, heapStart) && b in h.blocks
    ensures heapStart <= b.addr && b.Next() <= h.heapEnd
  {
    var i: nat :| i < |h.blocks| && h.blocks[i] == b;
    if 0 < i { HeapSpec.TiledOrder(h.blocks, 0, i); }
    if i < |h.blocks| - 1 { HeapSpec.TiledOrder(h.blocks, i, |h.blocks| - 1); }
  }

  /** malloc(size): each of the bytes asked for is mapped, to physical memory that no byte of a
      block live before is mapped to. */
  lemma MallocGivesOwnMemory(k: Kernel, n: Kernel, dir: FrameNumber, heapStart: nat, size: nat, a: nat,
                             other: HeapSpec.Block, b: nat)
    requires Sound(k, dir, heapStart) && Served(k, n, dir, heapStart, HeapSpec.AskBytes(size))
    requires var ptr := HeapSpec.Malloc(k.heap, heapStart, size).1; ptr <= a < ptr + size
    requires other in HeapSpec.Live(k.heap.blocks) && other.addr <= b < other.Next()
    ensures a < LIMIT && b < LIMIT && Walk(n.mmu.mem, dir, a).Some? && Walk(n.mmu.mem, dir, b).Some?
    ensures Walk(n.mmu.mem, dir, a) != Walk(n.mmu.mem, dir, b)
  {
    ServedKeepsSound(k, n, dir, heapStart, HeapSpec.AskBytes(size));
    var block := HeapSpec.MallocAddsOneLiveBlock(k.heap, heapStart, size);
    assert block in HeapSpec.Live(n.heap.blocks) && other in HeapSpec.Live(n.heap.blocks);
    BlockInHeap(n.heap, heapStart, block);
    BlockInHeap(n.heap, heapStart, other);
    BytesApart(n, dir, heapStart, a, b);
  }

  // ---- pages that processes hold

  /** Page number l lies in the payload of b. */
  predicate Within(b: HeapSpec.Block, l: nat) { b.Payload() <= l * PAGE_SIZE && (l + 1) * PAGE_SIZE <= b.Trailer() }

  /** A frame behind a page of b's payload. */
  ghost predicate Behind(k: Kernel, dir: FrameNumber, b: HeapSpec.Block, f: nat) {
    exists l: nat :: l < FRAMES && Within(b, l) && Backed(k.mmu, dir, l) && Backing(k.mmu, dir, l) == f
  }

  ghost predicate BehindLive(k: Kernel, dir: FrameNumber, f: nat) {
    exists b :: b in HeapSpec.Live(k.heap.blocks) && Behind(k, dir, b, f)
  }

  /** The frames lie behind pages of live blocks. */
  ghost predicate OnHeap(k: Kernel, dir: FrameNumber, held: set<nat>) {
    forall f {:trigger BehindLive(k, dir, f)} | f in held :: BehindLive(k, dir, f)
  }

  lemma WithinHeap(h: HeapSpec.State, heapStart: nat, b: HeapSpec.Block, l: nat)
    requires HeapSpec.Inv(h, heapStart) && b in h.blocks && Within(b, l)
    ensures heapStart / PAGE_SIZE <= l < Top(h, heapStart)
  {
    BlockInHeap(h, heapStart, b);
    TopAtLeastStart(h, heapStart);
  }

  /** What the allocator writes outside the payload of b misses the frames behind b. */
  lemma BytesElsewhere(k: Kernel, dir: FrameNumber, heapStart: nat, b: HeapSpec.Block, f: nat, a: nat)
    requires Sound(k, dir, heapStart) && b in k.heap.blocks && Behind(k, dir, b, f)
    requires heapStart <= a < k.heap.heapEnd && !(b.Payload() <= a < b.Trailer())
    ensures a < LIMIT && Walk(k.mmu.mem, dir, a).Some? && FrameOf(Walk(k.mmu.mem, dir, a).value) != f
  {
    var l: nat :| l < FRAMES && Within(b, l) && Backed(k.mmu, dir, l) && Backing(k.mmu, dir, l) == f;
    WithinHeap(k.heap, heapStart, b, l);
    BytesMapped(k, dir, heapStart, a);
    BackingsDiffer(k, dir, heapStart, a / PAGE_SIZE, l);
    Quotient(Walk(k.mmu.mem, dir, a).value, PAGE_SIZE, Backing(k.mmu, dir, a / PAGE_SIZE), a % PAGE_SIZE);
  }

  /** The frames behind one block are not behind another. */
  lemma FramesApart(k: Kernel, dir: FrameNumber, heapStart: nat, b: HeapSpec.Block, other: HeapSpec.Block, f: nat)
    requires Sound(k, dir, heapStart) && b in k.heap.blocks && other in k.heap.blocks && b != other
    requires Behind(k, dir, b, f)
    ensures !Behind(k, dir, other, f)
  {
    var l: nat :| l < FRAMES && Within(b, l) && Backed(k.mmu, dir, l) && Backing(k.mmu, dir, l) == f;
    WithinHeap(k.heap, heapStart, b, l);
    HeapSpec.BlocksDisjoint(k.heap.blocks, b, other);
    if Behind(k, dir, other, f) {
      var i: nat :| i < FRAMES && Within(other, i) && Backed(k.mmu, dir, i) && Backing(k.mmu, dir, i) == f;
      WithinHeap(k.heap, heapStart, other, i);
      BackingsDiffer(k, dir, heapStart, i, l);
    }
  }

  /** A block that stays keeps its frames. */
  lemma BehindStays(k: Kernel, n: Kernel, dir: FrameNumber, heapStart: nat, r: HeapSpec.Request, b: HeapSpec.Block,
                    f: nat)
    requires Sound(k, dir, heapStart) && Served(k, n, dir, heapStart, r) && b in k.heap.blocks && Behind(k, dir, b, f)
    ensures Behind(n, dir, b, f)
  {
    ServedKeepsSound(k, n, dir, heapStart, r);
    var l: nat :| l < FRAMES && Within(b, l) && Backed(k.mmu, dir, l) && Backing(k.mmu, dir, l) == f;
    WithinHeap(k.heap, heapStart, b, l);
    assert Backed(n.mmu, dir, l) && Backing(n.mmu, dir, l) == f;
  }

  // ---- the requests of fork

  /** calloc of a record, malloc_pages(1) */
  predicate ForkRequest(r: HeapSpec.Request) { r.AskBytes? || r == HeapSpec.AskPages(1) }

  lemma LiveGrows(k: Kernel, n: Kernel, dir: FrameNumber, heapStart: nat, r: HeapSpec.Request)
    requires Sound(k, dir, heapStart) && Served(k, n, dir, heapStart, r) && ForkRequest(r)
    ensures HeapSpec.Live(k.heap.blocks) <= HeapSpec.Live(n.heap.blocks)
  {
    match r
    case AskBytes(size) => if size > 0 { var b := HeapSpec.MallocAddsOneLiveBlock(k.heap, heapStart, size); }
    case AskPages(pages) => var b := HeapSpec.MallocPagesAddsAlignedBlock(k.heap, heapStart, pages);
  }

  lemma ServedKeepsHeld(k: Kernel, n: Kernel, dir: FrameNumber, heapStart: nat, r: HeapSpec.Request, held: set<nat>)
    requires Sound(k, dir, heapStart) && Served(k, n, dir, heapStart, r) && ForkRequest(r) && OnHeap(k, dir, held)
    ensures OnHeap(n, dir, held)
  {
    LiveGrows(k, n, dir, heapStart, r);
    forall f | f in held
      ensures BehindLive(n, dir, f)
    {
      assert BehindLive(k, dir, f);
      var b :| b in HeapSpec.Live(k.heap.blocks) && Behind(k, dir, b, f);
      BehindStays(k, n, dir, heapStart, r, b, f);
    }
  }

  /** What malloc_pages(1) returns, and the frame behind it. */
  lemma PageBlock(k: Kernel, n: Kernel, dir: FrameNumber, heapStart: nat) returns (b: HeapSpec.Block, f: FrameNumber)
    requires Sound(k, dir, heapStart) && Served(k, n, dir, heapStart, HeapSpec.AskPages(1))
    ensures b.Payload() == HeapSpec.MallocPages(k.heap, heapStart, 1).1 && b.Payload() % PAGE_SIZE == 0
    ensures heapStart <= b.Payload() && b.Payload() / PAGE_SIZE < Top(n.heap, heapStart) <= FRAMES
    ensures b !in HeapSpec.Live(k.heap.blocks) && b in HeapSpec.Live(n.heap.blocks)
    ensures HeapSpec.Live(k.heap.blocks) <= HeapSpec.Live(n.heap.blocks)
    ensures Walk(n.mmu.mem, dir, b.Payload()) == Option.Some(f * PAGE_SIZE) && Behind(n, dir, b, f)
    ensures BehindLive(n, dir, f)
  {
    b := HeapSpec.MallocPagesAddsAlignedBlock(k.heap, heapStart, 1);
    ServedKeepsSound(k, n, dir, heapStart, HeapSpec.AskPages(1));
    BlockInHeap(n.heap, heapStart, b);
    BytesMapped(n, dir, heapStart, b.Payload());
    f := Backing(n.mmu, dir, b.Payload() / PAGE_SIZE);
    assert Within(b, b.Payload() / PAGE_SIZE);
    assert Behind(n, dir, b, f) && BehindLive(n, dir, f);
  }

  /** The frame behind the page malloc_pages(1) returns is one that no process holds. */
  lemma PageIsFresh(k: Kernel, n: Kernel, dir: FrameNumber, heapStart: nat, held: set<nat>) returns (f: FrameNumber)
    requires Sound(k, dir, heapStart) && Served(k, n, dir, heapStart, HeapSpec.AskPages(1)) && OnHeap(k, dir, held)
    ensures var ptr := HeapSpec.MallocPages(k.heap, heapStart, 1).1;
      && ptr % PAGE_SIZE == 0 && ptr / PAGE_SIZE < Top(n.heap, heapStart) <= FRAMES && heapStart <= ptr
      && Walk(n.mmu.mem, dir, ptr) == Option.Some(f * PAGE_SIZE)
    ensures f !in held && OnHeap(n, dir, held + {f})
  {
    var b;
    b, f := PageBlock(k, n, dir, heapStart);
    ServedKeepsSound(k, n, dir, heapStart, HeapSpec.AskPages(1));
    ServedKeepsHeld(k, n, dir, heapStart, HeapSpec.AskPages(1), held);
    if f in held {
      assert BehindLive(k, dir, f);
      var other :| other in HeapSpec.Live(k.heap.blocks) && Behind(k, dir, other, f);
      BehindStays(k, n, dir, heapStart, HeapSpec.AskPages(1), other, f);
      FramesApart(n, dir, heapStart, other, b, f);
    }
  }

  // ---- the table that all directories share

  ghost function FreeFrames(used: set<nat>): set<nat> {
    set f: nat | f < FRAMES && f !in used
  }

  lemma AllocateTakesOne(used: set<nat>)
    requires FreeFrames(used) != {}
    ensures HasFree(used) && used <= Allocate(used).0
    ensures FreeFrames(Allocate(used).0) == FreeFrames(used) - {AllocatedFrame(used)}
    ensures AllocatedFrame(used) in FreeFrames(used)
  {
    var f :| f in FreeFrames(used);
    assert LowestFree(used, 0) <= f;
  }

  /** Mapping a page of the shared table: the same under both directories, and nothing but that
      table changes. */
  lemma SharedMapping(s: Mmu, dir: FrameNumber, other: FrameNumber, table: FrameNumber, va: uint32)
    requires DirIndex(va) == KERNEL && s.mem[dir][KERNEL] == s.mem[other][KERNEL] == TableEntry(table)
    ensures var n := MapVirtual(s, dir, va, 3);
      && n == MapVirtual(s, other, va, 3) && n.used == Allocate(s.used).0
      && forall f: FrameNumber :: f != table ==> n.mem[f] == s.mem[f]
  {
    EntryFields(table, 0);
  }

  /** The heap lies below 0xC0400000, in the four megabytes of the kernel's table. */
  predicate InKernelTable(from: nat, to: nat) { KERNEL * ENTRIES <= from <= to <= (KERNEL + 1) * ENTRIES }

  /** n frames are taken, and memory differs in the shared table alone. */
  ghost predicate GrownBy(s: Mmu, t: Mmu, table: FrameNumber, n: nat) {
    && s.used <= t.used && |FreeFrames(t.used)| + n == |FreeFrames(s.used)|
    && forall f: FrameNumber :: f != table ==> t.mem[f] == s.mem[f]
  }

  lemma GrownByOne(s: Mmu, t: Mmu, dir: FrameNumber, other: FrameNumber, table: FrameNumber, n: nat, page: nat)
    requires s.mem[dir][KERNEL] == s.mem[other][KERNEL] == TableEntry(table) && dir != table && other != table
    requires KERNEL * ENTRIES <= page < (KERNEL + 1) * ENTRIES && n < |FreeFrames(s.used)| && GrownBy(s, t, table, n)
    ensures var u := MapVirtual(t, dir, page * PAGE_SIZE, 3);
      u == MapVirtual(t, other, page * PAGE_SIZE, 3) && GrownBy(s, u, table, n + 1)
  {
    KernelPage(page);
    SharedMapping(t, dir, other, table, page * PAGE_SIZE);
    AllocateTakesOne(t.used);
  }

  lemma KernelPage(page: nat)
    requires KERNEL * ENTRIES <= page < (KERNEL + 1) * ENTRIES
    ensures page * PAGE_SIZE < LIMIT && DirIndex(page * PAGE_SIZE) == KERNEL
    ensures TableIndex(page * PAGE_SIZE) == page % ENTRIES && page / ENTRIES == KERNEL
  {
  }

  /** Growth of the heap in those four megabytes, as far as frames last: the same under both
      directories; it writes to the shared table alone. */
  lemma {:induction false} SharedGrowth(s: Mmu, dir: FrameNumber, other: FrameNumber, table: FrameNumber, k: nat,
                                        n: nat)
    requires s.mem[dir][KERNEL] == s.mem[other][KERNEL] == TableEntry(table) && dir != table && other != table
    requires InKernelTable(k, k + n) && n <= |FreeFrames(s.used)|
    ensures AllocPages(s, dir, k, n) == AllocPages(s, other, k, n) && GrownBy(s, AllocPages(s, dir, k, n), table, n)
    decreases n
  {
    if n > 0 {
      SharedGrowth(s, dir, other, table, k, n - 1);
      AllocNext(s, dir, k, n - 1);
      AllocNext(s, other, k, n - 1);
      GrownByOne(s, AllocPages(s, dir, k, n - 1), dir, other, table, n - 1, k + n - 1);
    }
  }

  lemma SharedEnough(s: Mmu, dir: FrameNumber, table: FrameNumber, k: nat, n: nat)
    requires s.mem[dir][KERNEL] == TableEntry(table) && dir != table
    requires InKernelTable(k, k + n) && n <= |FreeFrames(s.used)|
    ensures EnoughFor(s, dir, k, n)
  {
    EntryFields(table, 0);
    forall j: nat | j < n
      ensures NotExhausted(s, dir, k, j)
    {
      SharedGrowth(s, dir, dir, table, k, j);
      KernelPage(k + j);
      AllocateTakesOne(AllocPages(s, dir, k, j).used);
    }
  }
}
