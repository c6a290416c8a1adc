/** free_page against alloc_page (kernel/arch/i386/heap.c): what a run of both leaves of the
    translation and of the bitmap. */
module HeapPages {
  import opened Page
  import opened Bitmap
  import opened PagingSpec

  /** The entry that translates page number k. */
  function PageLeaf(m: Memory, dir: FrameNumber, k: nat): Option<uint32>
    requires k < FRAMES
  {
    Leaf(m, dir, k / ENTRIES, k % ENTRIES)
  }

  /** The directory entry of table o, as the self-map shows it. */
  function TableLeaf(m: Memory, dir: FrameNumber, o: Index): Option<uint32> {
    Leaf(m, dir, LAST, o)
  }

  lemma TableLeafIsEntry(m: Memory, dir: FrameNumber, o: Index)
    requires SelfMapped(m, dir)
    ensures TableLeaf(m, dir, o) == if Present(m[dir][o]) then Some(m[dir][o]) else None
  {
  }

  lemma PageIndices(k: nat)
    requires k < FRAMES
    ensures DirIndex(k * PAGE_SIZE) == k / ENTRIES && TableIndex(k * PAGE_SIZE) == k % ENTRIES
  {
  }

  /** The pages from..to are a range below the self-map. */
  datatype Range = Range(from: nat, to: nat)

  predicate ValidRange(r: Range) { r.from <= r.to <= HEAP_PAGES }

  ghost function TableFrames(s: Mmu, dir: FrameNumber): set<nat> {
    set o: Index | o < LAST && TableLeaf(s.mem, dir, o).Some? :: FrameOf(TableLeaf(s.mem, dir, o).value)
  }

  ghost function PageFrames(s: Mmu, dir: FrameNumber, r: Range): set<nat>
    requires ValidRange(r)
  {
    set k: nat | r.from <= k < r.to && PageLeaf(s.mem, dir, k).Some? :: FrameOf(PageLeaf(s.mem, dir, k).value)
  }

  /** The bitmap marks the frames of `base`, the tables and the pages of the range, which are all
      different. */
  ghost predicate Accounts(s: Mmu, dir: FrameNumber, r: Range, base: set<nat>)
    requires ValidRange(r)
  {
    && Inv(s, dir) && dir in base
    && s.used == base + TableFrames(s, dir) + PageFrames(s, dir, r)
    && base !! TableFrames(s, dir) && base !! PageFrames(s, dir, r) && TableFrames(s, dir) !! PageFrames(s, dir, r)
    && (forall j: nat, k: nat :: r.from <= j < k < r.to && PageLeaf(s.mem, dir, j).Some? &&
                                     PageLeaf(s.mem, dir, k).Some? ==>
         FrameOf(PageLeaf(s.mem, dir, j).value) != FrameOf(PageLeaf(s.mem, dir, k).value))
  }

  /** The pages and tables after an unmapped page is mapped. */
  lemma MapLeavesPages(s: Mmu, dir: FrameNumber, k: nat) returns (frame: FrameNumber, table: FrameNumber)
    requires k < HEAP_PAGES && Inv(s, dir) && EnoughFrames(s, dir, k * PAGE_SIZE)
    ensures frame !in s.used && table !in s.used && (frame == table <==> TableLeaf(s.mem, dir, k / ENTRIES).Some?)
    ensures var n := MapVirtual(s, dir, k * PAGE_SIZE, 3);
      && Inv(n, dir)
      && n.used == s.used + {frame} + (if TableLeaf(s.mem, dir, k / ENTRIES).Some? then {} else {table})
      && PageLeaf(n.mem, dir, k).Some? && FrameOf(PageLeaf(n.mem, dir, k).value) == frame
      && (forall j: nat :: j < HEAP_PAGES && j != k ==> PageLeaf(n.mem, dir, j) == PageLeaf(s.mem, dir, j))
      && (forall p: Index :: p < LAST ==>
           (TableLeaf(n.mem, dir, p) == if p == k / ENTRIES && TableLeaf(s.mem, dir, k / ENTRIES).None?
                                        then Some(TableEntry(table)) else TableLeaf(s.mem, dir, p)))
  {
    PageIndices(k);
    var o: Index, t: Index := k / ENTRIES, k % ENTRIES;
    frame, table := MapVirtualLeaves(s, dir, k * PAGE_SIZE, 3);
    EntryFields(frame, 3);
    TableLeafIsEntry(s.mem, dir, o);
    forall j: nat | j < HEAP_PAGES && j != k
      ensures j / ENTRIES != o || j % ENTRIES != t
    {}
  }

  /** Mapping an unmapped page of the range. */
  lemma MapAccounts(s: Mmu, dir: FrameNumber, r: Range, base: set<nat>, k: nat)
    requires ValidRange(r) && r.from <= k < r.to && Accounts(s, dir, r, base)
    requires PageLeaf(s.mem, dir, k).None? && EnoughFrames(s, dir, k * PAGE_SIZE)
    ensures var n := MapVirtual(s, dir, k * PAGE_SIZE, 3);
      && Accounts(n, dir, r, base)
      && PageLeaf(n.mem, dir, k).Some? && TableLeaf(n.mem, dir, k / ENTRIES).Some?
      && (forall j: nat :: j < HEAP_PAGES && j != k ==> PageLeaf(n.mem, dir, j) == PageLeaf(s.mem, dir, j))
      && (forall o: Index :: o < LAST && (o != k / ENTRIES || TableLeaf(s.mem, dir, o).Some?) ==>
           TableLeaf(n.mem, dir, o) == TableLeaf(s.mem, dir, o))
  {
    var frame, table := MapLeavesPages(s, dir, k);
    var n := MapVirtual(s, dir, k * PAGE_SIZE, 3);
    EntryFields(table, 3);
    assert k / ENTRIES < LAST;
    MapFrames(s, n, dir, r, k, frame, table);
  }

  /** The frames after the mapping of page k. */
  lemma MapFrames(s: Mmu, n: Mmu, dir: FrameNumber, r: Range, k: nat, frame: FrameNumber, table: FrameNumber)
    requires ValidRange(r) && r.from <= k < r.to && PageLeaf(s.mem, dir, k).None?
    requires PageLeaf(n.mem, dir, k).Some? && FrameOf(PageLeaf(n.mem, dir, k).value) == frame
    requires forall j: nat :: j < HEAP_PAGES && j != k ==> PageLeaf(n.mem, dir, j) == PageLeaf(s.mem, dir, j)
    requires forall p: Index :: p < LAST ==>
               (TableLeaf(n.mem, dir, p) == if p == k / ENTRIES && TableLeaf(s.mem, dir, k / ENTRIES).None?
                                            then Some(TableEntry(table)) else TableLeaf(s.mem, dir, p))
    requires FrameOf(TableEntry(table)) == table
    ensures PageFrames(n, dir, r) == PageFrames(s, dir, r) + {frame}
    ensures TableFrames(n, dir) ==
            TableFrames(s, dir) + if TableLeaf(s.mem, dir, k / ENTRIES).None? then {table} else {}
  {
  }

  /** Unmapping a mapped page of the range: its table goes with the last entry. */
  lemma UnmapAccounts(s: Mmu, dir: FrameNumber, r: Range, base: set<nat>, k: nat)
    requires ValidRange(r) && r.from <= k < r.to && Accounts(s, dir, r, base) && PageLeaf(s.mem, dir, k).Some?
    ensures var n := Unmap(s, dir, k * PAGE_SIZE);
      && Accounts(n, dir, r, base)
      && PageLeaf(n.mem, dir, k).None?
      && (forall j: nat :: j < HEAP_PAGES && j != k ==> PageLeaf(n.mem, dir, j) == PageLeaf(s.mem, dir, j))
      && (forall o: Index :: o < LAST ==>
           TableLeaf(n.mem, dir, o) ==
           if o == k / ENTRIES && OnlyEntry(s.mem, dir, o, k % ENTRIES) then None else TableLeaf(s.mem, dir, o))
  {
    PageIndices(k);
    var o: Index, t: Index := k / ENTRIES, k % ENTRIES;
    var frame := FrameOf(PageLeaf(s.mem, dir, k).value);
    assert frame in PageFrames(s, dir, r);
    forall p: Index
      ensures !IsTable(s.mem, dir, p, frame)
    {
      TableLeafIsEntry(s.mem, dir, p);
    }
    UnmapLeaves(s, dir, k * PAGE_SIZE);
    var n := Unmap(s, dir, k * PAGE_SIZE);
    forall j: nat | j < HEAP_PAGES && j != k
      ensures PageLeaf(n.mem, dir, j) == PageLeaf(s.mem, dir, j)
    {
      assert j / ENTRIES != o || j % ENTRIES != t;
    }
    TableLeafIsEntry(s.mem, dir, o);
    UnmapFrames(s, n, dir, r, k, frame);
    TableFramesDiffer(s, dir);
    UnmapTables(s, n, dir, o, OnlyEntry(s.mem, dir, o, t));
  }

  lemma UnmapFrames(s: Mmu, n: Mmu, dir: FrameNumber, r: Range, k: nat, frame: FrameNumber)
    requires ValidRange(r) && r.from <= k < r.to
    requires PageLeaf(s.mem, dir, k).Some? && FrameOf(PageLeaf(s.mem, dir, k).value) == frame
    requires PageLeaf(n.mem, dir, k).None?
    requires forall j: nat :: j < HEAP_PAGES && j != k ==> PageLeaf(n.mem, dir, j) == PageLeaf(s.mem, dir, j)
    requires forall j: nat, l: nat ::
               r.from <= j < l < r.to && PageLeaf(s.mem, dir, j).Some? && PageLeaf(s.mem, dir, l).Some? ==>
               FrameOf(PageLeaf(s.mem, dir, j).value) != FrameOf(PageLeaf(s.mem, dir, l).value)
    ensures PageFrames(n, dir, r) == PageFrames(s, dir, r) - {frame}
  {
  }

  lemma TableFramesDiffer(s: Mmu, dir: FrameNumber)
    requires Inv(s, dir)
    ensures forall o: Index, p: Index ::
              o < p < LAST && TableLeaf(s.mem, dir, o).Some? && TableLeaf(s.mem, dir, p).Some? ==>
              FrameOf(TableLeaf(s.mem, dir, o).value) != FrameOf(TableLeaf(s.mem, dir, p).value)
  {
    forall o: Index, p: Index | o < p < LAST && TableLeaf(s.mem, dir, o).Some? && TableLeaf(s.mem, dir, p).Some?
      ensures FrameOf(TableLeaf(s.mem, dir, o).value) != FrameOf(TableLeaf(s.mem, dir, p).value)
    {
      TableLeafIsEntry(s.mem, dir, o);
      TableLeafIsEntry(s.mem, dir, p);
      assert IsTable(s.mem, dir, o, FrameOf(s.mem[dir][o])) && IsTable(s.mem, dir, p, FrameOf(s.mem[dir][p]));
    }
  }

  lemma UnmapTables(s: Mmu, n: Mmu, dir: FrameNumber, o: Index, gone: bool)
    requires o < LAST && TableLeaf(s.mem, dir, o).Some?
    requires forall p: Index :: p < LAST ==>
               (TableLeaf(n.mem, dir, p) == if p == o && gone then None else TableLeaf(s.mem, dir, p))
    requires forall o: Index, p: Index ::
               o < p < LAST && TableLeaf(s.mem, dir, o).Some? && TableLeaf(s.mem, dir, p).Some? ==>
               FrameOf(TableLeaf(s.mem, dir, o).value) != FrameOf(TableLeaf(s.mem, dir, p).value)
    ensures TableFrames(n, dir) == TableFrames(s, dir) - if gone then {FrameOf(TableLeaf(s.mem, dir, o).value)} else {}
  {
  }

  // ---- a run of alloc_page, then free_page over the same pages

  /** Table o covers one of the pages from..to. */
  predicate Touched(o: nat, from: nat, to: nat) {
    from < to && from / ENTRIES <= o <= (to - 1) / ENTRIES
  }

  /** No page of table o is mapped. */
  ghost predicate NoPages(s: Mmu, dir: FrameNumber, o: nat)
    requires o < LAST
  {
    forall j: nat :: j < HEAP_PAGES && j / ENTRIES == o ==> PageLeaf(s.mem, dir, j).None?
  }

  /** The pages from k on that one state maps and another does not. */
  ghost predicate RangeMapped(s: Mmu, dir: FrameNumber, from: nat, to: nat) {
    forall j: nat :: from <= j < to && j < HEAP_PAGES ==> PageLeaf(s.mem, dir, j).Some?
  }

  ghost predicate RangeUnmapped(s: Mmu, dir: FrameNumber, from: nat, to: nat) {
    forall j: nat :: from <= j < to && j < HEAP_PAGES ==> PageLeaf(s.mem, dir, j).None?
  }

  ghost predicate SameOutside(s: Mmu, n: Mmu, dir: FrameNumber, from: nat, to: nat) {
    forall j: nat :: j < HEAP_PAGES && !(from <= j < to) ==> PageLeaf(n.mem, dir, j) == PageLeaf(s.mem, dir, j)
  }

  /** Tables present before stay, others are there once a page of theirs is mapped. */
  ghost predicate TablesGrown(s: Mmu, n: Mmu, dir: FrameNumber, from: nat, to: nat) {
    forall o: Index :: o < LAST ==>
      if TableLeaf(s.mem, dir, o).Some? then TableLeaf(n.mem, dir, o) == TableLeaf(s.mem, dir, o)
      else TableLeaf(n.mem, dir, o).Some? <==> Touched(o, from, to)
  }

  /** Tables are gone whose pages were unmapped and that have none left. */
  ghost predicate TablesDropped(s: Mmu, n: Mmu, dir: FrameNumber, from: nat, to: nat) {
    forall o: Index :: o < LAST ==>
      TableLeaf(n.mem, dir, o) == if Touched(o, from, to) && NoPages(n, dir, o) then None else TableLeaf(s.mem, dir, o)
  }

  /** Between the states s and n the first of the pages from..to, those below k, were mapped. */
  ghost predicate MappedSoFar(s: Mmu, n: Mmu, dir: FrameNumber, r: Range, k: nat) {
    && RangeMapped(n, dir, r.from, k) && RangeUnmapped(n, dir, k, r.to)
    && SameOutside(s, n, dir, r.from, r.to) && TablesGrown(s, n, dir, r.from, k)
  }

  lemma MapNextPage(s: Mmu, m: Mmu, n: Mmu, dir: FrameNumber, r: Range, k: nat)
    requires ValidRange(r) && r.from <= k < r.to && MappedSoFar(s, m, dir, r, k)
    requires PageLeaf(n.mem, dir, k).Some? && TableLeaf(n.mem, dir, k / ENTRIES).Some?
    requires forall j: nat :: j < HEAP_PAGES && j != k ==> PageLeaf(n.mem, dir, j) == PageLeaf(m.mem, dir, j)
    requires forall o: Index :: o < LAST && (o != k / ENTRIES || TableLeaf(m.mem, dir, o).Some?) ==>
               TableLeaf(n.mem, dir, o) == TableLeaf(m.mem, dir, o)
    ensures MappedSoFar(s, n, dir, r, k + 1)
  {
  }

  ghost predicate AllocSound(s: Mmu, n: Mmu, dir: FrameNumber, r: Range, base: set<nat>, k: nat)
    requires ValidRange(r)
  {
    Accounts(n, dir, r, base) && MappedSoFar(s, n, dir, r, k)
  }

  lemma AllocStep(s: Mmu, m: Mmu, dir: FrameNumber, r: Range, base: set<nat>, k: nat)
    requires ValidRange(r) && r.from <= k < r.to
    ensures AllocSound(s, m, dir, r, base, k) && EnoughFrames(m, dir, k * PAGE_SIZE) ==>
              AllocSound(s, MapVirtual(m, dir, k * PAGE_SIZE, 3), dir, r, base, k + 1)
  {
    if AllocSound(s, m, dir, r, base, k) && EnoughFrames(m, dir, k * PAGE_SIZE) {
      assert PageLeaf(m.mem, dir, k).None?;
      MapAccounts(m, dir, r, base, k);
      MapNextPage(s, m, MapVirtual(m, dir, k * PAGE_SIZE, 3), dir, r, k);
    }
  }

  lemma AllocStart(s: Mmu, dir: FrameNumber, r: Range, base: set<nat>)
    requires ValidRange(r) && Accounts(s, dir, r, base) && RangeUnmapped(s, dir, r.from, r.to)
    ensures AllocSound(s, s, dir, r, base, r.from)
  {
  }

  ghost function AllocGoal(s: Mmu, dir: FrameNumber, r: Range, base: set<nat>): (Mmu, nat) -> bool
    requires ValidRange(r)
  {
    (t: Mmu, j: nat) => AllocSound(s, t, dir, r, base, r.from + j)
  }

  lemma AllocCarries(s: Mmu, dir: FrameNumber, r: Range, base: set<nat>, j: nat)
    requires ValidRange(r) && r.from + j < r.to && NotExhausted(s, dir, r.from, j)
    ensures StepKeeps(AllocGoal(s, dir, r, base), Mapper(dir, r.from), s, j)
  {
    AllocStep(s, AllocPages(s, dir, r.from, j), dir, r, base, r.from + j);
  }

  lemma AllocPhase(s: Mmu, dir: FrameNumber, r: Range, base: set<nat>)
    requires ValidRange(r) && EnoughFor(s, dir, r.from, r.to - r.from)
    requires Accounts(s, dir, r, base) && RangeUnmapped(s, dir, r.from, r.to)
    ensures AllocSound(s, AllocPages(s, dir, r.from, r.to - r.from), dir, r, base, r.to)
  {
    AllocStart(s, dir, r, base);
    forall j: nat | j < r.to - r.from
      ensures StepKeeps(AllocGoal(s, dir, r, base), Mapper(dir, r.from), s, j)
    {
      assert NotExhausted(s, dir, r.from, j);
      AllocCarries(s, dir, r, base, j);
    }
    StepInduction(AllocGoal(s, dir, r, base), Mapper(dir, r.from), s, r.to - r.from);
  }

  /** The steps of free_page from page number k on. */
  ghost function Unmapper(dir: FrameNumber, k: nat): (Mmu, nat) -> Mmu {
    (s: Mmu, j: nat) => if k + j < HEAP_PAGES then Unmap(s, dir, (k + j) * PAGE_SIZE) else s
  }

  /** Memory and bitmap after n pages were unmapped from page number k on. */
  ghost function FreePages(s: Mmu, dir: FrameNumber, k: nat, n: nat): Mmu {
    After(Unmapper(dir, k), s, n)
  }

  /** A mapped page has a table, whose frame is not the directory's. */
  lemma MappedPage(s: Mmu, dir: FrameNumber, k: nat)
    requires k < HEAP_PAGES && WellFormed(s.mem, dir) && PageLeaf(s.mem, dir, k).Some?
    ensures DirIndex(k * PAGE_SIZE) == k / ENTRIES < LAST
    ensures Present(s.mem[dir][k / ENTRIES]) && FrameOf(s.mem[dir][k / ENTRIES]) != dir
  {
    assert IsTable(s.mem, dir, k / ENTRIES, FrameOf(s.mem[dir][k / ENTRIES]));
  }

  lemma OnlyEntryIffNoPages(s: Mmu, n: Mmu, dir: FrameNumber, k: nat)
    requires k < HEAP_PAGES && PageLeaf(n.mem, dir, k).None?
    requires forall j: nat :: j < HEAP_PAGES && j != k ==> PageLeaf(n.mem, dir, j) == PageLeaf(s.mem, dir, j)
    ensures OnlyEntry(s.mem, dir, k / ENTRIES, k % ENTRIES) <==> NoPages(n, dir, k / ENTRIES)
  {
    var o: Index, t: Index := k / ENTRIES, k % ENTRIES;
    forall q: Index
      ensures PageLeaf(s.mem, dir, o * ENTRIES + q) == Leaf(s.mem, dir, o, q) && o * ENTRIES + q < HEAP_PAGES
      ensures (o * ENTRIES + q) / ENTRIES == o && (o * ENTRIES + q == k <==> q == t)
    {}
    if OnlyEntry(s.mem, dir, o, t) {
      forall j: nat | j < HEAP_PAGES && j / ENTRIES == o ensures PageLeaf(n.mem, dir, j).None? {
        assert j == o * ENTRIES + j % ENTRIES;
      }
    }
    if NoPages(n, dir, o) {
      forall q: Index | q != t ensures Leaf(s.mem, dir, o, q).None? {
        assert PageLeaf(n.mem, dir, o * ENTRIES + q).None?;
      }
    }
  }

  lemma DropStep(s: Mmu, m: Mmu, n: Mmu, dir: FrameNumber, from: nat, k: nat)
    requires from <= k < HEAP_PAGES && TablesDropped(s, m, dir, from, k)
    requires PageLeaf(m.mem, dir, k).Some? && PageLeaf(n.mem, dir, k).None?
    requires forall j: nat :: j < HEAP_PAGES && j != k ==> PageLeaf(n.mem, dir, j) == PageLeaf(m.mem, dir, j)
    requires forall o: Index :: o < LAST ==>
               (TableLeaf(n.mem, dir, o) ==
                if o == k / ENTRIES && OnlyEntry(m.mem, dir, o, k % ENTRIES) then None else TableLeaf(m.mem, dir, o))
    ensures TablesDropped(s, n, dir, from, k + 1)
  {
    OnlyEntryIffNoPages(m, n, dir, k);
    forall o: Index | o < LAST
      ensures TableLeaf(n.mem, dir, o) == if Touched(o, from, k + 1) && NoPages(n, dir, o) then None
                                          else TableLeaf(s.mem, dir, o)
    {
      if o != k / ENTRIES {
        assert NoPages(n, dir, o) <==> NoPages(m, dir, o);
        assert Touched(o, from, k + 1) <==> Touched(o, from, k);
      } else {
        assert !NoPages(m, dir, o);
      }
    }
  }

  /** Between the states s and n the first of the pages from..to, those below k, were unmapped. */
  ghost predicate UnmappedSoFar(s: Mmu, n: Mmu, dir: FrameNumber, r: Range, k: nat) {
    && RangeUnmapped(n, dir, r.from, k) && RangeMapped(n, dir, k, r.to)
    && SameOutside(s, n, dir, r.from, r.to) && TablesDropped(s, n, dir, r.from, k)
  }

  ghost predicate FreeSound(s: Mmu, n: Mmu, dir: FrameNumber, r: Range, base: set<nat>, k: nat)
    requires ValidRange(r)
  {
    Accounts(n, dir, r, base) && UnmappedSoFar(s, n, dir, r, k)
  }

  lemma FreeStep(s: Mmu, m: Mmu, dir: FrameNumber, r: Range, base: set<nat>, k: nat)
    requires ValidRange(r) && r.from <= k < r.to
    ensures FreeSound(s, m, dir, r, base, k) ==> FreeSound(s, Unmap(m, dir, k * PAGE_SIZE), dir, r, base, k + 1)
  {
    if FreeSound(s, m, dir, r, base, k) {
      assert PageLeaf(m.mem, dir, k).Some?;
      UnmapAccounts(m, dir, r, base, k);
      DropStep(s, m, Unmap(m, dir, k * PAGE_SIZE), dir, r.from, k);
    }
  }

  lemma FreeStart(s: Mmu, dir: FrameNumber, r: Range, base: set<nat>)
    requires ValidRange(r) && Accounts(s, dir, r, base) && RangeMapped(s, dir, r.from, r.to)
    ensures FreeSound(s, s, dir, r, base, r.from)
  {
  }

  ghost function FreeGoal(s: Mmu, dir: FrameNumber, r: Range, base: set<nat>): (Mmu, nat) -> bool
    requires ValidRange(r)
  {
    (t: Mmu, j: nat) => FreeSound(s, t, dir, r, base, r.from + j)
  }

  lemma FreeCarries(s: Mmu, dir: FrameNumber, r: Range, base: set<nat>, j: nat)
    requires ValidRange(r) && r.from + j < r.to
    ensures StepKeeps(FreeGoal(s, dir, r, base), Unmapper(dir, r.from), s, j)
  {
    FreeStep(s, FreePages(s, dir, r.from, j), dir, r, base, r.from + j);
  }

  lemma FreePhase(s: Mmu, dir: FrameNumber, r: Range, base: set<nat>)
    requires ValidRange(r) && Accounts(s, dir, r, base) && RangeMapped(s, dir, r.from, r.to)
    ensures FreeSound(s, FreePages(s, dir, r.from, r.to - r.from), dir, r, base, r.to)
  {
    FreeStart(s, dir, r, base);
    forall j: nat | j < r.to - r.from
      ensures StepKeeps(FreeGoal(s, dir, r, base), Unmapper(dir, r.from), s, j)
    {
      FreeCarries(s, dir, r, base, j);
    }
    StepInduction(FreeGoal(s, dir, r, base), Unmapper(dir, r.from), s, r.to - r.from);
  }

  /** Some table that maps nothing, yet is present, covers one of the pages. */
  ghost predicate IdleTableTouched(s: Mmu, dir: FrameNumber, from: nat, to: nat) {
    exists o: Index :: o < LAST && Touched(o, from, to) && IdleTable(s.mem, dir, o)
  }

  lemma NoPagesIff(s: Mmu, dir: FrameNumber, o: Index)
    requires WellFormed(s.mem, dir) && o < LAST
    ensures TableLeaf(s.mem, dir, o).None? ==> NoPages(s, dir, o)
    ensures IdleTable(s.mem, dir, o) <==> TableLeaf(s.mem, dir, o).Some? && NoPages(s, dir, o)
  {
    TableLeafIsEntry(s.mem, dir, o);
    IdleIff(s.mem, dir, o);
    forall q: Index
      ensures PageLeaf(s.mem, dir, o * ENTRIES + q) == Leaf(s.mem, dir, o, q) && o * ENTRIES + q < HEAP_PAGES
      ensures (o * ENTRIES + q) / ENTRIES == o
    {}
    if forall q: Index :: Leaf(s.mem, dir, o, q).None? {
      forall j: nat | j < HEAP_PAGES && j / ENTRIES == o ensures PageLeaf(s.mem, dir, j).None? {
        assert j == o * ENTRIES + j % ENTRIES;
      }
    }
  }

  /** The tables in the end: those of the start, without the idle ones that were touched. */
  lemma FinalTables(s: Mmu, m: Mmu, n: Mmu, dir: FrameNumber, from: nat, to: nat, o: Index)
    requires WellFormed(s.mem, dir) && o < LAST && from <= to <= HEAP_PAGES
    requires TablesGrown(s, m, dir, from, to) && TablesDropped(m, n, dir, from, to)
    requires forall j: nat :: j < HEAP_PAGES ==> PageLeaf(n.mem, dir, j) == PageLeaf(s.mem, dir, j)
    ensures TableLeaf(n.mem, dir, o) ==
            if Touched(o, from, to) && IdleTable(s.mem, dir, o) then None else TableLeaf(s.mem, dir, o)
  {
    NoPagesIff(s, dir, o);
    assert NoPages(n, dir, o) <==> NoPages(s, dir, o);
  }

  /** The frames of tables are those of the start exactly if no idle table was touched. */
  lemma FinalTableFrames(s: Mmu, n: Mmu, dir: FrameNumber, from: nat, to: nat)
    requires Inv(s, dir)
    requires forall o: Index :: o < LAST ==>
               (TableLeaf(n.mem, dir, o) ==
                if Touched(o, from, to) && IdleTable(s.mem, dir, o) then None else TableLeaf(s.mem, dir, o))
    ensures TableFrames(n, dir) <= TableFrames(s, dir)
    ensures TableFrames(n, dir) == TableFrames(s, dir) <==> !IdleTableTouched(s, dir, from, to)
  {
    TableFramesDiffer(s, dir);
    if IdleTableTouched(s, dir, from, to) {
      var o: Index :| o < LAST && Touched(o, from, to) && IdleTable(s.mem, dir, o);
      NoPagesIff(s, dir, o);
      var f := FrameOf(TableLeaf(s.mem, dir, o).value);
      assert f in TableFrames(s, dir) && f !in TableFrames(n, dir);
    } else {
      forall f | f in TableFrames(s, dir) ensures f in TableFrames(n, dir) {
        var o: Index :| o < LAST && TableLeaf(s.mem, dir, o).Some? && f == FrameOf(TableLeaf(s.mem, dir, o).value);
        assert TableLeaf(n.mem, dir, o) == TableLeaf(s.mem, dir, o);
      }
    }
  }

  /** free_page undoes alloc_page: after n pages are mapped at unmapped addresses from page number
      k on and then unmapped in the same order, every page below the self-map translates as
      before, and the bitmap is as before unless a present but empty table covered one of them;
      such a table is released. */
  lemma FreePageUndoesAllocPage(s: Mmu, dir: FrameNumber, k: nat, n: nat)
    requires EnoughFor(s, dir, k, n) && Inv(s, dir) && RangeUnmapped(s, dir, k, k + n)
    ensures var t := FreePages(AllocPages(s, dir, k, n), dir, k, n);
      && Inv(t, dir)
      && (forall j: nat :: j < HEAP_PAGES ==> PageLeaf(t.mem, dir, j) == PageLeaf(s.mem, dir, j))
      && (t.used == s.used <==> !IdleTableTouched(s, dir, k, k + n))
  {
    var r := Range(k, k + n);
    var base := s.used - TableFrames(s, dir);
    var m := AllocPages(s, dir, k, n);
    var t := FreePages(m, dir, k, n);
    StartAccounts(s, dir, r);
    AllocPhase(s, dir, r, base);
    FreePhase(m, dir, r, base);
    UndoneAccounts(s, m, t, dir, r, base);
  }

  lemma UndoneAccounts(s: Mmu, m: Mmu, t: Mmu, dir: FrameNumber, r: Range, base: set<nat>)
    requires ValidRange(r) && Accounts(s, dir, r, base) && RangeUnmapped(s, dir, r.from, r.to)
    requires AllocSound(s, m, dir, r, base, r.to) && FreeSound(m, t, dir, r, base, r.to)
    ensures Inv(t, dir)
    ensures forall j: nat :: j < HEAP_PAGES ==> PageLeaf(t.mem, dir, j) == PageLeaf(s.mem, dir, j)
    ensures t.used == s.used <==> !IdleTableTouched(s, dir, r.from, r.to)
  {
    forall o: Index | o < LAST
      ensures TableLeaf(t.mem, dir, o) ==
              if Touched(o, r.from, r.to) && IdleTable(s.mem, dir, o) then None else TableLeaf(s.mem, dir, o)
    {
      FinalTables(s, m, t, dir, r.from, r.to, o);
    }
    FinalTableFrames(s, t, dir, r.from, r.to);
    assert PageFrames(t, dir, r) == {} && PageFrames(s, dir, r) == {};
  }

  lemma StartAccounts(s: Mmu, dir: FrameNumber, r: Range)
    requires ValidRange(r) && Inv(s, dir) && RangeUnmapped(s, dir, r.from, r.to)
    ensures Accounts(s, dir, r, s.used - TableFrames(s, dir))
  {
    forall f | f in TableFrames(s, dir)
      ensures f in s.used && f != dir
    {
      var o: Index :| o < LAST && TableLeaf(s.mem, dir, o).Some? && f == FrameOf(TableLeaf(s.mem, dir, o).value);
      TableLeafIsEntry(s.mem, dir, o);
      assert IsTable(s.mem, dir, o, f);
    }
    assert PageFrames(s, dir, r) == {};
  }

  /** With no table left empty, free_page restores the bitmap whatever was allocated. */
  lemma FreePageRestoresUsed(s: Mmu, dir: FrameNumber, k: nat, n: nat)
    requires EnoughFor(s, dir, k, n) && Inv(s, dir) && RangeUnmapped(s, dir, k, k + n) && NoIdle(s.mem, dir)
    ensures FreePages(AllocPages(s, dir, k, n), dir, k, n).used == s.used
  {
    FreePageUndoesAllocPage(s, dir, k, n);
  }
}
