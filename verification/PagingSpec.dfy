/** Two-level 32-bit paging (section 4.3 of the Intel 64 and IA-32 Architectures Software
    Developer's Manual, Volume 3A) and what the page-table code of kernel/arch/i386/page.c does
    to the translation the hardware computes. */
module PagingSpec {
  import opened Page
  import opened Bitmap

  /** A page frame of 1024 words; physical memory is one for each frame number. */
  type Frame = f: seq<uint32> | |f| == 1024 witness seq(1024, i => 0)
  type Memory = m: seq<Frame> | |m| == 0x10_0000 ghost witness seq<Frame>(0x10_0000, i => ZeroFrame())
  type FrameNumber = f: nat | f < 0x10_0000
  type Index = i: nat | i < 1024

  function DirIndex(va: uint32): Index { va / 0x40_0000 }

  function TableIndex(va: uint32): Index { va / PAGE_SIZE % ENTRIES }

  predicate SamePage(a: uint32, b: uint32) { a / PAGE_SIZE == b / PAGE_SIZE }

  /** PAGE_TABLE(o): where the self-map shows the table of directory entry o. The directory
      itself shows as PAGE_TABLE(1023). */
  function TableAddress(o: Index): uint32 { 0xFFC0_0000 + o * PAGE_SIZE }

  const PAGE_DIRECTORY: uint32 := 0xFFFF_F000

  // ---- page-table entries

  function FrameOf(e: uint32): FrameNumber { e / PAGE_SIZE }

  predicate Present(e: uint32) { e % 2 == 1 }

  /** A directory entry that maps four megabytes by itself. */
  predicate Large(e: uint32) { e / 0x80 % 2 == 1 }

  /** physical_address | (flags & 0xFFF) | 1 for a page-aligned address */
  function MakeEntry(frame: FrameNumber, flags: nat): uint32 {
    var low := flags % PAGE_SIZE;
    frame * PAGE_SIZE + if low % 2 == 0 then low + 1 else low
  }

  function SetEntry(m: Memory, f: FrameNumber, i: Index, e: uint32): Memory {
    m[f := m[f][i := e]]
  }

  function ZeroFrame(): Frame { seq(1024, i => 0) }

  function TableEntry(table: FrameNumber): uint32 { table * PAGE_SIZE + 3 }

  lemma Packed(frame: FrameNumber, low: nat)
    requires low < PAGE_SIZE
    ensures (frame * PAGE_SIZE + low) / PAGE_SIZE == frame
    ensures low % 2 == 1 ==> (frame * PAGE_SIZE + low) % 2 == 1
  {
  }

  lemma EntryFields(frame: FrameNumber, flags: nat)
    ensures Present(MakeEntry(frame, flags)) && FrameOf(MakeEntry(frame, flags)) == frame
    ensures FrameOf(TableEntry(frame)) == frame && Present(TableEntry(frame)) && !Large(TableEntry(frame))
  {
    var low := flags % PAGE_SIZE;
    Packed(frame, if low % 2 == 0 then low + 1 else low);
    Packed(frame, 3);
    assert TableEntry(frame) / 0x80 == 2 * (frame * 16);
  }

  // ---- the hardware walk

  function Walk(m: Memory, dir: FrameNumber, va: uint32): Option<uint32> {
    var pde := m[dir][DirIndex(va)];
    if !Present(pde) then None
    else if Large(pde) then Some(pde / 0x40_0000 * 0x40_0000 + va % 0x40_0000)
    else
      var pte := m[FrameOf(pde)][TableIndex(va)];
      if Present(pte) then Some(FrameOf(pte) * PAGE_SIZE + va % PAGE_SIZE) else None
  }

  /** The last directory entry points back at the directory (kernel/arch/i386/boot.S). */
  ghost predicate SelfMapped(m: Memory, dir: FrameNumber) {
    var e := m[dir][LAST];
    Present(e) && !Large(e) && FrameOf(e) == dir
  }

  /** Through the self-map the table of entry o appears at PAGE_TABLE(o). */
  lemma SelfMapShowsTables(m: Memory, dir: FrameNumber, o: Index, i: Index)
    requires SelfMapped(m, dir)
    ensures Walk(m, dir, TableAddress(o) + 4 * i) ==
            if Present(m[dir][o]) then Some(FrameOf(m[dir][o]) * PAGE_SIZE + 4 * i) else None
    ensures TableAddress(LAST) == PAGE_DIRECTORY
  {
  }

  /** The place in memory of entry i of table o, seen through the self-map. */
  lemma EntryPlace(m: Memory, dir: FrameNumber, o: Index, i: Index)
    requires SelfMapped(m, dir) && Present(m[dir][o])
    ensures var pa := Walk(m, dir, TableAddress(o) + 4 * i);
      pa.Some? && FrameOf(pa.value) == FrameOf(m[dir][o]) && pa.value % PAGE_SIZE / 4 == i
  {
    SelfMapShowsTables(m, dir, o, i);
    Quotient(FrameOf(m[dir][o]) * PAGE_SIZE + 4 * i, PAGE_SIZE, FrameOf(m[dir][o]), 4 * i);
  }

  // ---- well-formed address spaces

  ghost predicate IsTable(m: Memory, dir: FrameNumber, o: Index, f: FrameNumber) {
    o < LAST && Present(m[dir][o]) && FrameOf(m[dir][o]) == f
  }

  /** Each present table has a frame of its own, which is not the directory's. */
  ghost predicate TablesApart(m: Memory, dir: FrameNumber) {
    && (forall o: Index, f: FrameNumber | IsTable(m, dir, o, f) :: f != dir && !Large(m[dir][o]))
    && (forall o: Index, p: Index, f: FrameNumber | IsTable(m, dir, o, f) && IsTable(m, dir, p, f) :: o == p)
  }

  ghost predicate WellFormed(m: Memory, dir: FrameNumber) {
    SelfMapped(m, dir) && TablesApart(m, dir)
  }

  /** Frame f holds neither the directory nor a table. */
  ghost predicate NotPaging(m: Memory, dir: FrameNumber, f: FrameNumber) {
    f != dir && forall o: Index :: !IsTable(m, dir, o, f)
  }

  /** The bitmap marks the directory and every table. */
  ghost predicate TablesUsed(m: Memory, dir: FrameNumber, used: set<nat>) {
    dir in used && forall o: Index, f: FrameNumber | IsTable(m, dir, o, f) :: f in used
  }

  // ---- map_page

  /** Memory after map_page; a missing table is created, zeroed, in frame `table`. */
  function MapMemory(m: Memory, dir: FrameNumber, va: uint32, e: uint32, table: FrameNumber): Memory {
    var o := DirIndex(va);
    if Present(m[dir][o]) then SetEntry(m, FrameOf(m[dir][o]), TableIndex(va), e)
    else
      SetEntry(AddTable(m, dir, o, table), table, TableIndex(va), e)
  }

  /** The frame a missing table gets is no page-table frame already. */
  ghost predicate FreshTable(m: Memory, dir: FrameNumber, va: uint32, table: FrameNumber) {
    Present(m[dir][DirIndex(va)]) || NotPaging(m, dir, table)
  }

  // ---- the walk entry by entry

  /** The page-table entry that translates page (o, t), if it is present. */
  function Leaf(m: Memory, dir: FrameNumber, o: Index, t: Index): Option<uint32> {
    if !Present(m[dir][o]) then None
    else
      var e := m[FrameOf(m[dir][o])][t];
      if Present(e) then Some(e) else None
  }

  lemma WalkIsLeaf(m: Memory, dir: FrameNumber, va: uint32)
    requires WellFormed(m, dir)
    ensures Walk(m, dir, va) ==
            match Leaf(m, dir, DirIndex(va), TableIndex(va))
            case None => None
            case Some(e) => Some(FrameOf(e) * PAGE_SIZE + va % PAGE_SIZE)
  {
    var o := DirIndex(va);
    if Present(m[dir][o]) && o < LAST { assert IsTable(m, dir, o, FrameOf(m[dir][o])); }
  }

  lemma Decompose(a: uint32, b: uint32)
    ensures SamePage(a, b) <==> DirIndex(a) == DirIndex(b) && TableIndex(a) == TableIndex(b)
  {
  }

  /** Setting an entry of an existing table. */
  lemma SetInTable(m: Memory, dir: FrameNumber, o: Index, t: Index, e: uint32)
    requires WellFormed(m, dir) && o < LAST && Present(m[dir][o])
    ensures var n := SetEntry(m, FrameOf(m[dir][o]), t, e);
      && n[dir] == m[dir] && WellFormed(n, dir)
      && (forall p: Index, s: Index :: Leaf(n, dir, p, s) ==
           if p == o && s == t then (if Present(e) then Some(e) else None) else Leaf(m, dir, p, s))
      && (forall p: Index, f: FrameNumber :: IsTable(n, dir, p, f) <==> IsTable(m, dir, p, f))
  {
    var f := FrameOf(m[dir][o]);
    assert IsTable(m, dir, o, f);
    var n := SetEntry(m, f, t, e);
    forall p: Index, s: Index
      ensures Leaf(n, dir, p, s) ==
              if p == o && s == t then (if Present(e) then Some(e) else None) else Leaf(m, dir, p, s)
    {
      if p < LAST && Present(m[dir][p]) { assert IsTable(m, dir, p, FrameOf(m[dir][p])); }
    }
    forall p: Index, g: FrameNumber ensures IsTable(n, dir, p, g) <==> IsTable(m, dir, p, g) {}
  }

  /** Entering a zeroed table into the directory. */
  function AddTable(m: Memory, dir: FrameNumber, o: Index, table: FrameNumber): Memory {
    SetEntry(m, dir, o, TableEntry(table))[table := ZeroFrame()]
  }

  lemma AddTableTables(m: Memory, dir: FrameNumber, o: Index, table: FrameNumber)
    requires WellFormed(m, dir) && o < LAST && !Present(m[dir][o]) && NotPaging(m, dir, table)
    ensures var n := AddTable(m, dir, o, table);
      && n[dir] == m[dir][o := TableEntry(table)] && WellFormed(n, dir)
      && (forall p: Index, f: FrameNumber :: IsTable(n, dir, p, f) <==>
           (IsTable(m, dir, p, f) || (p == o && f == table)))
  {
    var n := AddTable(m, dir, o, table);
    EntryFields(table, 0);
    forall p: Index, f: FrameNumber
      ensures IsTable(n, dir, p, f) <==> (IsTable(m, dir, p, f) || (p == o && f == table))
    {}
  }

  lemma AddTableLeaf(m: Memory, dir: FrameNumber, o: Index, table: FrameNumber, p: Index, s: Index)
    requires WellFormed(m, dir) && o < LAST && !Present(m[dir][o]) && NotPaging(m, dir, table)
    ensures Leaf(AddTable(m, dir, o, table), dir, p, s) ==
            if p == LAST && s == o then Some(TableEntry(table)) else Leaf(m, dir, p, s)
  {
    EntryFields(table, 0);
    if p < LAST && Present(m[dir][p]) { assert IsTable(m, dir, p, FrameOf(m[dir][p])); }
  }

  /** n differs from m in entry t of table o, in the window on table o if it is new, and in the
      tables there are accordingly. */
  ghost predicate Mapped(m: Memory, n: Memory, dir: FrameNumber, o: Index, t: Index, e: uint32, table: FrameNumber) {
    && WellFormed(n, dir)
    && (forall p: Index, s: Index :: Leaf(n, dir, p, s) ==
         if p == o && s == t then Some(e)
         else if p == LAST && s == o && !Present(m[dir][o]) then Some(TableEntry(table)) else Leaf(m, dir, p, s))
    && (forall p: Index, f: FrameNumber :: IsTable(n, dir, p, f) <==>
         (IsTable(m, dir, p, f) || (!Present(m[dir][o]) && p == o && f == table)))
  }

  lemma MapInTable(m: Memory, dir: FrameNumber, o: Index, t: Index, e: uint32, table: FrameNumber)
    requires WellFormed(m, dir) && o < LAST && Present(m[dir][o]) && Present(e)
    ensures Mapped(m, SetEntry(m, FrameOf(m[dir][o]), t, e), dir, o, t, e, table)
  {
    SetInTable(m, dir, o, t, e);
  }

  lemma MapInNewTable(m: Memory, dir: FrameNumber, o: Index, t: Index, e: uint32, table: FrameNumber)
    requires WellFormed(m, dir) && o < LAST && !Present(m[dir][o]) && NotPaging(m, dir, table) && Present(e)
    ensures Mapped(m, SetEntry(AddTable(m, dir, o, table), table, t, e), dir, o, t, e, table)
  {
    var a := AddTable(m, dir, o, table);
    EntryFields(table, 0);
    AddTableTables(m, dir, o, table);
    forall p: Index, s: Index
      ensures Leaf(a, dir, p, s) == if p == LAST && s == o then Some(TableEntry(table)) else Leaf(m, dir, p, s)
    {
      AddTableLeaf(m, dir, o, table, p, s);
    }
    SetInTable(a, dir, o, t, e);
    MapAfterAdd(m, a, SetEntry(a, table, t, e), dir, o, t, e, table);
  }

  lemma MapAfterAdd(m: Memory, a: Memory, n: Memory, dir: FrameNumber, o: Index, t: Index, e: uint32,
                    table: FrameNumber)
    requires o < LAST && !Present(m[dir][o]) && WellFormed(n, dir) && Present(e)
    requires forall p: Index, s: Index ::
               Leaf(a, dir, p, s) == if p == LAST && s == o then Some(TableEntry(table)) else Leaf(m, dir, p, s)
    requires forall p: Index, s: Index ::
               Leaf(n, dir, p, s) ==
               if p == o && s == t then (if Present(e) then Some(e) else None) else Leaf(a, dir, p, s)
    requires forall p: Index, f: FrameNumber :: IsTable(a, dir, p, f) <==>
               (IsTable(m, dir, p, f) || (p == o && f == table))
    requires forall p: Index, f: FrameNumber :: IsTable(n, dir, p, f) <==> IsTable(a, dir, p, f)
    ensures Mapped(m, n, dir, o, t, e, table)
  {
  }

  lemma MapLeaves(m: Memory, dir: FrameNumber, va: uint32, e: uint32, table: FrameNumber)
    requires WellFormed(m, dir) && DirIndex(va) < LAST && FreshTable(m, dir, va, table) && Present(e)
    ensures Mapped(m, MapMemory(m, dir, va, e, table), dir, DirIndex(va), TableIndex(va), e, table)
  {
    if Present(m[dir][DirIndex(va)]) {
      MapInTable(m, dir, DirIndex(va), TableIndex(va), e, table);
    } else {
      MapInNewTable(m, dir, DirIndex(va), TableIndex(va), e, table);
    }
  }

  lemma MapKeepsWellFormed(m: Memory, dir: FrameNumber, va: uint32, e: uint32, table: FrameNumber)
    requires WellFormed(m, dir) && DirIndex(va) < LAST && FreshTable(m, dir, va, table) && Present(e)
    ensures WellFormed(MapMemory(m, dir, va, e, table), dir)
  {
    MapLeaves(m, dir, va, e, table);
  }

  /** The self-map stays unless its own page is mapped anew. */
  lemma MapKeepsSelfMap(m: Memory, dir: FrameNumber, va: uint32, e: uint32, table: FrameNumber)
    requires WellFormed(m, dir) && !SamePage(va, PAGE_DIRECTORY) && FreshTable(m, dir, va, table) && Present(e)
    ensures SelfMapped(MapMemory(m, dir, va, e, table), dir)
  {
    if DirIndex(va) < LAST {
      MapKeepsWellFormed(m, dir, va, e, table);
    } else {
      Decompose(va, PAGE_DIRECTORY);
    }
  }

  /** map_page gives every address of va's page its translation and changes that of no other
      page, also when it has to create the table. (The window on a new table is the one page
      that becomes visible.) */
  lemma MapTranslates(m: Memory, dir: FrameNumber, va: uint32, frame: FrameNumber, flags: nat, table: FrameNumber,
                      a: uint32)
    requires WellFormed(m, dir) && DirIndex(va) < LAST && FreshTable(m, dir, va, table)
    ensures var n := MapMemory(m, dir, va, MakeEntry(frame, flags), table);
      Walk(n, dir, a) == if SamePage(a, va) then Some(frame * PAGE_SIZE + a % PAGE_SIZE)
                         else if !Present(m[dir][DirIndex(va)]) && SamePage(a, TableAddress(DirIndex(va)))
                         then Some(table * PAGE_SIZE + a % PAGE_SIZE)
                         else Walk(m, dir, a)
  {
    EntryFields(frame, flags);
    EntryFields(table, flags);
    MapLeaves(m, dir, va, MakeEntry(frame, flags), table);
    WalkIsLeaf(m, dir, a);
    WalkIsLeaf(MapMemory(m, dir, va, MakeEntry(frame, flags), table), dir, a);
    Decompose(a, va);
    Decompose(a, TableAddress(DirIndex(va)));
  }

  /** get_physical_address reads the entry without looking at its present bit. */
  function PhysicalAddress(m: Memory, dir: FrameNumber, va: uint32): uint32
    requires Present(m[dir][DirIndex(va)])
  {
    FrameOf(m[FrameOf(m[dir][DirIndex(va)])][TableIndex(va)]) * PAGE_SIZE + va % PAGE_SIZE
  }

  /** On a page whose table exists, get_physical_address gives what the walk gives exactly when
      the page is mapped. */
  lemma PhysicalAddressIffMapped(m: Memory, dir: FrameNumber, va: uint32)
    requires WellFormed(m, dir) && Present(m[dir][DirIndex(va)])
    ensures Some(PhysicalAddress(m, dir, va)) == Walk(m, dir, va) <==> Walk(m, dir, va).Some?
  {
    WalkIsLeaf(m, dir, va);
  }

  // ---- memory and bitmap together

  datatype Mmu = Mmu(mem: Memory, used: set<nat>)

  ghost predicate Inv(s: Mmu, dir: FrameNumber) {
    WellFormed(s.mem, dir) && TablesUsed(s.mem, dir, s.used)
  }

  ghost function AllocatedFrame(used: set<nat>): FrameNumber {
    var p := LowestFree(used, 0);
    if p < FRAMES then p else 0
  }

  lemma AllocatedPage(used: set<nat>)
    ensures FrameOf(Allocate(used).1) == AllocatedFrame(used) && Allocate(used).1 == AllocatedFrame(used) * PAGE_SIZE
  {
  }

  /** map_page(va, physical, flags) */
  ghost function MapPage(s: Mmu, dir: FrameNumber, va: uint32, frame: FrameNumber, flags: nat): Mmu {
    var table := AllocatedFrame(s.used);
    Mmu(MapMemory(s.mem, dir, va, MakeEntry(frame, flags), table),
        if Present(s.mem[dir][DirIndex(va)]) then s.used else Allocate(s.used).0)
  }

  /** map_virtual_address(va, flags): the frame for the page is allocated first. */
  ghost function MapVirtual(s: Mmu, dir: FrameNumber, va: uint32, flags: nat): Mmu {
    MapPage(s.(used := Allocate(s.used).0), dir, va, AllocatedFrame(s.used), flags)
  }

  /** Frames are left for the page and, if its table is missing, for the table. */
  ghost predicate EnoughFrames(s: Mmu, dir: FrameNumber, va: uint32) {
    HasFree(s.used) && (Present(s.mem[dir][DirIndex(va)]) || HasFree(Allocate(s.used).0))
  }

  lemma FreeIsNotPaging(s: Mmu, dir: FrameNumber, f: FrameNumber)
    requires Inv(s, dir) && f !in s.used
    ensures NotPaging(s.mem, dir, f)
  {
  }

  /** What map_virtual_address does entry by entry. */
  lemma MapVirtualLeaves(s: Mmu, dir: FrameNumber, va: uint32, flags: nat)
    returns (frame: FrameNumber, table: FrameNumber)
    requires Inv(s, dir) && DirIndex(va) < LAST && EnoughFrames(s, dir, va)
    ensures frame !in s.used && table !in s.used && (frame == table <==> Present(s.mem[dir][DirIndex(va)]))
    ensures var (n, o, t) := (MapVirtual(s, dir, va, flags), DirIndex(va), TableIndex(va));
      && Inv(n, dir)
      && (forall p: Index, q: Index :: Leaf(n.mem, dir, p, q) ==
           if p == o && q == t then Some(MakeEntry(frame, flags))
           else if p == LAST && q == o && !Present(s.mem[dir][o]) then Some(TableEntry(table))
           else Leaf(s.mem, dir, p, q))
      && (forall p: Index, f: FrameNumber :: IsTable(n.mem, dir, p, f) <==>
           (IsTable(s.mem, dir, p, f) || (!Present(s.mem[dir][o]) && p == o && f == table)))
      && n.used == s.used + {frame} + if Present(s.mem[dir][o]) then {} else {table}
  {
    frame := AllocatedFrame(s.used);
    var u := Allocate(s.used).0;
    var s1 := s.(used := u);
    assert Inv(s1, dir);
    var o := DirIndex(va);
    EntryFields(frame, flags);
    if !Present(s.mem[dir][o]) {
      table := AllocatedFrame(u);
      FreeIsNotPaging(s1, dir, table);
      MapLeaves(s.mem, dir, va, MakeEntry(frame, flags), table);
    } else {
      MapLeaves(s.mem, dir, va, MakeEntry(frame, flags), AllocatedFrame(u));
      table := frame;
    }
  }

  // ---- unmap_virtual_address

  ghost predicate EmptyTable(m: Memory, f: FrameNumber) {
    forall i: Index :: !Present(m[f][i])
  }

  /** Clearing the entry of va and freeing the frame it named. */
  ghost function ClearPage(s: Mmu, dir: FrameNumber, o: Index, t: Index): Mmu {
    var f := FrameOf(s.mem[dir][o]);
    Mmu(SetEntry(s.mem, f, t, 0), s.used - {FrameOf(s.mem[f][t])})
  }

  /** unmap_virtual_address(va): when the table has no present entry left, the page at which the
      self-map shows it is unmapped in turn; the directory is never empty. */
  ghost function Unmap(s: Mmu, dir: FrameNumber, va: uint32): Mmu {
    var o := DirIndex(va);
    var n := ClearPage(s, dir, o, TableIndex(va));
    if EmptyTable(n.mem, FrameOf(s.mem[dir][o])) then ClearPage(n, dir, LAST, o) else n
  }

  /** No page of table o other than t is mapped. */
  ghost predicate OnlyEntry(m: Memory, dir: FrameNumber, o: Index, t: Index) {
    forall i: Index :: i != t ==> Leaf(m, dir, o, i).None?
  }

  lemma UnmapLeaves(s: Mmu, dir: FrameNumber, va: uint32)
    requires Inv(s, dir) && DirIndex(va) < LAST && Present(s.mem[dir][DirIndex(va)])
    requires var e := Leaf(s.mem, dir, DirIndex(va), TableIndex(va));
      e.Some? && NotPaging(s.mem, dir, FrameOf(e.value))
    ensures var (n, o, t) := (Unmap(s, dir, va), DirIndex(va), TableIndex(va));
      var gone := OnlyEntry(s.mem, dir, o, t);
      && Inv(n, dir)
      && (forall p: Index, q: Index :: Leaf(n.mem, dir, p, q) ==
           if (p == o && q == t) || (gone && p == LAST && q == o) then None else Leaf(s.mem, dir, p, q))
      && n.used == s.used - {FrameOf(s.mem[FrameOf(s.mem[dir][o])][t])} - if gone then {FrameOf(s.mem[dir][o])} else {}
  {
    var o, t := DirIndex(va), TableIndex(va);
    var f := FrameOf(s.mem[dir][o]);
    SetInTable(s.mem, dir, o, t, 0);
    var n := ClearPage(s, dir, o, t);
    assert forall i: Index :: Present(n.mem[f][i]) <==> Leaf(n.mem, dir, o, i).Some?;
    assert forall i: Index :: Leaf(n.mem, dir, o, i).Some? <==> (i != t && Leaf(s.mem, dir, o, i).Some?);
    if EmptyTable(n.mem, f) {
      DropTable(n, dir, o);
    }
  }

  /** Taking an empty table out of the directory. */
  lemma DropTable(s: Mmu, dir: FrameNumber, o: Index)
    requires Inv(s, dir) && o < LAST && Present(s.mem[dir][o]) && EmptyTable(s.mem, FrameOf(s.mem[dir][o]))
    ensures var n := ClearPage(s, dir, LAST, o);
      && Inv(n, dir)
      && (forall p: Index, q: Index :: Leaf(n.mem, dir, p, q) ==
           if p == LAST && q == o then None else Leaf(s.mem, dir, p, q))
      && n.used == s.used - {FrameOf(s.mem[dir][o])}
  {
    var n := ClearPage(s, dir, LAST, o);
    var f := FrameOf(s.mem[dir][o]);
    assert IsTable(s.mem, dir, o, f);
    assert n.mem[dir] == s.mem[dir][o := 0];
    forall p: Index, g: FrameNumber
      ensures IsTable(n.mem, dir, p, g) <==> (IsTable(s.mem, dir, p, g) && p != o)
    {}
    forall p: Index, q: Index
      ensures Leaf(n.mem, dir, p, q) == if p == LAST && q == o then None else Leaf(s.mem, dir, p, q)
    {
      if p < LAST && Present(s.mem[dir][p]) { assert IsTable(s.mem, dir, p, FrameOf(s.mem[dir][p])); }
    }
  }

  /** A table that maps nothing, yet is present. */
  ghost predicate IdleTable(m: Memory, dir: FrameNumber, o: Index) {
    Present(m[dir][o]) && EmptyTable(m, FrameOf(m[dir][o]))
  }

  lemma IdleIff(m: Memory, dir: FrameNumber, o: Index)
    ensures IdleTable(m, dir, o) <==> Present(m[dir][o]) && forall i: Index :: Leaf(m, dir, o, i).None?
  {
    if Present(m[dir][o]) {
      forall i: Index ensures Leaf(m, dir, o, i).Some? <==> Present(m[FrameOf(m[dir][o])][i]) {}
      if !EmptyTable(m, FrameOf(m[dir][o])) {
        var i: Index :| Present(m[FrameOf(m[dir][o])][i]);
        assert Leaf(m, dir, o, i).Some?;
      }
    }
  }

  /** Of the pages of va's table, no other is mapped exactly if the table is new or was idle. */
  lemma OnlyEntryIffNew(s: Mmu, dir: FrameNumber, va: uint32, flags: nat)
    requires Inv(s, dir) && DirIndex(va) < LAST && EnoughFrames(s, dir, va) && Walk(s.mem, dir, va).None?
    ensures var o := DirIndex(va);
      OnlyEntry(MapVirtual(s, dir, va, flags).mem, dir, o, TableIndex(va)) <==>
      (!Present(s.mem[dir][o]) || IdleTable(s.mem, dir, o))
  {
    var frame, table := MapVirtualLeaves(s, dir, va, flags);
    var n, o := MapVirtual(s, dir, va, flags), DirIndex(va);
    WalkIsLeaf(s.mem, dir, va);
    IdleIff(s.mem, dir, o);
    forall i: Index | i != TableIndex(va) ensures Leaf(n.mem, dir, o, i) == Leaf(s.mem, dir, o, i) {}
  }

  /** Entry by entry: what is left after a page is mapped and unmapped again. */
  lemma UnmapUndoesLeaves(s: Mmu, dir: FrameNumber, va: uint32, flags: nat)
    requires Inv(s, dir) && DirIndex(va) < LAST && EnoughFrames(s, dir, va) && Walk(s.mem, dir, va).None?
    ensures var t := Unmap(MapVirtual(s, dir, va, flags), dir, va);
      var idle := IdleTable(s.mem, dir, DirIndex(va));
      && Inv(t, dir)
      && (t.used == s.used <==> !idle)
      && forall p: Index, q: Index :: Leaf(t.mem, dir, p, q) ==
           if idle && p == LAST && q == DirIndex(va) then None else Leaf(s.mem, dir, p, q)
  {
    var frame, table := MapVirtualLeaves(s, dir, va, flags);
    var n, o := MapVirtual(s, dir, va, flags), DirIndex(va);
    EntryFields(frame, flags);
    EntryFields(table, flags);
    WalkIsLeaf(s.mem, dir, va);
    FreeIsNotPaging(s, dir, frame);
    UnmapLeaves(n, dir, va);
    OnlyEntryIffNew(s, dir, va, flags);
    var f := FrameOf(n.mem[dir][o]);
    assert IsTable(n.mem, dir, o, f);
    assert Present(s.mem[dir][o]) ==> IsTable(s.mem, dir, o, f) && f in s.used;
  }

  /** unmap_virtual_address after map_virtual_address on an unmapped page: the bitmap is as before
      exactly if the page's table was not present but empty, and so is the translation of every
      address except, in that case, those of the window on the table, which is released. */
  lemma UnmapUndoesMap(s: Mmu, dir: FrameNumber, va: uint32, flags: nat, a: uint32)
    requires Inv(s, dir) && DirIndex(va) < LAST && EnoughFrames(s, dir, va) && Walk(s.mem, dir, va).None?
    ensures var t := Unmap(MapVirtual(s, dir, va, flags), dir, va);
      && Inv(t, dir)
      && (t.used == s.used <==> !IdleTable(s.mem, dir, DirIndex(va)))
      && (Walk(t.mem, dir, a) == Walk(s.mem, dir, a)
          <==> !(IdleTable(s.mem, dir, DirIndex(va)) && SamePage(a, TableAddress(DirIndex(va)))))
  {
    UnmapUndoesLeaves(s, dir, va, flags);
    WalkIsLeaf(s.mem, dir, a);
    WalkIsLeaf(Unmap(MapVirtual(s, dir, va, flags), dir, va).mem, dir, a);
    Decompose(a, TableAddress(DirIndex(va)));
    IdleIff(s.mem, dir, DirIndex(va));
    PresentIffLeaf(s.mem, dir, DirIndex(va));
  }

  // ---- no table is left empty

  ghost predicate NoIdle(m: Memory, dir: FrameNumber) {
    forall o: Index :: o < LAST ==> !IdleTable(m, dir, o)
  }

  lemma MapKeepsNoIdle(s: Mmu, dir: FrameNumber, va: uint32, flags: nat)
    requires Inv(s, dir) && DirIndex(va) < LAST && EnoughFrames(s, dir, va) && NoIdle(s.mem, dir)
    ensures var n := MapVirtual(s, dir, va, flags); Inv(n, dir) && NoIdle(n.mem, dir)
  {
    var frame, table := MapVirtualLeaves(s, dir, va, flags);
    var n := MapVirtual(s, dir, va, flags);
    forall o: Index | o < LAST
      ensures !IdleTable(n.mem, dir, o)
    {
      IdleIff(n.mem, dir, o);
      IdleIff(s.mem, dir, o);
      PresentIffLeaf(n.mem, dir, o);
      PresentIffLeaf(s.mem, dir, o);
      if o == DirIndex(va) { assert Leaf(n.mem, dir, o, TableIndex(va)).Some?; }
      else if Present(s.mem[dir][o]) {
        var i: Index :| Leaf(s.mem, dir, o, i).Some?;
        assert Leaf(n.mem, dir, o, i).Some?;
      }
    }
  }

  /** The window on a table is mapped exactly if the table is present. */
  lemma PresentIffLeaf(m: Memory, dir: FrameNumber, o: Index)
    requires SelfMapped(m, dir)
    ensures Present(m[dir][o]) <==> Leaf(m, dir, LAST, o).Some?
  {
  }

  lemma UnmapKeepsNoIdle(s: Mmu, dir: FrameNumber, va: uint32)
    requires Inv(s, dir) && DirIndex(va) < LAST && NoIdle(s.mem, dir)
    requires var e := Leaf(s.mem, dir, DirIndex(va), TableIndex(va)); e.Some? && NotPaging(s.mem, dir, FrameOf(e.value))
    ensures var n := Unmap(s, dir, va); Inv(n, dir) && NoIdle(n.mem, dir)
  {
    UnmapLeaves(s, dir, va);
    var n, t := Unmap(s, dir, va), TableIndex(va);
    forall o: Index | o < LAST
      ensures !IdleTable(n.mem, dir, o)
    {
      IdleIff(n.mem, dir, o);
      IdleIff(s.mem, dir, o);
      PresentIffLeaf(n.mem, dir, o);
      PresentIffLeaf(s.mem, dir, o);
      if o != DirIndex(va) {
        if Present(s.mem[dir][o]) {
          var i: Index :| Leaf(s.mem, dir, o, i).Some?;
          assert Leaf(n.mem, dir, o, i).Some?;
        }
      } else if !OnlyEntry(s.mem, dir, o, t) {
        var i: Index :| i != t && Leaf(s.mem, dir, o, i).Some?;
        assert Leaf(n.mem, dir, o, i).Some?;
      }
    }
  }

  /** A call of map_virtual_address or unmap_virtual_address. */
  datatype Edit = Map(va: uint32, flags: nat) | Remove(va: uint32)

  /** Pages are mapped below the self-map while frames last, mapped pages are unmapped. */
  ghost predicate Permitted(s: Mmu, dir: FrameNumber, e: Edit) {
    && DirIndex(e.va) < LAST
    && match e
       case Map(va, _) => EnoughFrames(s, dir, va)
       case Remove(va) =>
         var leaf := Leaf(s.mem, dir, DirIndex(va), TableIndex(va));
         leaf.Some? && NotPaging(s.mem, dir, FrameOf(leaf.value))
  }

  ghost function Applied(s: Mmu, dir: FrameNumber, e: Edit): Mmu {
    match e
    case Map(va, flags) => MapVirtual(s, dir, va, flags)
    case Remove(va) => Unmap(s, dir, va)
  }

  ghost predicate EditsNext(ss: seq<Mmu>, es: seq<Edit>, dir: FrameNumber, i: nat)
    requires i < |es| && i + 1 < |ss|
  {
    Permitted(ss[i], dir, es[i]) && ss[i + 1] == Applied(ss[i], dir, es[i])
  }

  /** The states that the calls go through. */
  ghost predicate EditRun(ss: seq<Mmu>, es: seq<Edit>, dir: FrameNumber) {
    |ss| == |es| + 1 && forall i: nat | i < |es| :: EditsNext(ss, es, dir, i)
  }

  /** Over every run of map_virtual_address and unmap_virtual_address no table is ever empty. */
  lemma {:induction false} RunKeepsNoIdle(ss: seq<Mmu>, es: seq<Edit>, dir: FrameNumber, n: nat)
    requires EditRun(ss, es, dir) && n <= |es| && Inv(ss[0], dir) && NoIdle(ss[0].mem, dir)
    ensures Inv(ss[n], dir) && NoIdle(ss[n].mem, dir)
    decreases n
  {
    if n > 0 {
      RunKeepsNoIdle(ss, es, dir, n - 1);
      assert EditsNext(ss, es, dir, n - 1);
      match es[n - 1]
      case Map(va, flags) => MapKeepsNoIdle(ss[n - 1], dir, va, flags);
      case Remove(va) => UnmapKeepsNoIdle(ss[n - 1], dir, va);
    }
  }

  /** In every state a run reaches, unmapping a page just mapped restores the bitmap and the
      translation of every address. */
  lemma UnmapUndoesMapOverRuns(ss: seq<Mmu>, es: seq<Edit>, dir: FrameNumber, va: uint32, flags: nat, a: uint32)
    requires EditRun(ss, es, dir) && Inv(ss[0], dir) && NoIdle(ss[0].mem, dir)
    requires DirIndex(va) < LAST && EnoughFrames(ss[|es|], dir, va) && Walk(ss[|es|].mem, dir, va).None?
    ensures var s := ss[|es|]; var t := Unmap(MapVirtual(s, dir, va, flags), dir, va);
      t.used == s.used && Walk(t.mem, dir, a) == Walk(s.mem, dir, a)
  {
    RunKeepsNoIdle(ss, es, dir, |es|);
    UnmapUndoesMap(ss[|es|], dir, va, flags, a);
  }

  // ---- alloc_page

  const HEAP_PAGES: nat := 0xFFC00   // page numbers below the self-map

  /** The state after n steps from s. */
  ghost function After(step: (Mmu, nat) -> Mmu, s: Mmu, n: nat): Mmu {
    if n == 0 then s else step(After(step, s, n - 1), n - 1)
  }

  /** Step j takes P at j to P at j + 1. */
  ghost predicate StepKeeps(P: (Mmu, nat) -> bool, step: (Mmu, nat) -> Mmu, s: Mmu, j: nat) {
    P(After(step, s, j), j) ==> P(step(After(step, s, j), j), j + 1)
  }

  lemma {:induction false} StepInduction(P: (Mmu, nat) -> bool, step: (Mmu, nat) -> Mmu, s: Mmu, n: nat)
    requires P(s, 0) && forall j: nat | j < n :: StepKeeps(P, step, s, j)
    ensures P(After(step, s, n), n)
  {
    if n > 0 {
      StepInduction(P, step, s, n - 1);
      assert StepKeeps(P, step, s, n - 1);
    }
  }

  /** The steps of alloc_page when heap_end starts at page number k: each maps the next page with
      flags 3. */
  ghost function Mapper(dir: FrameNumber, k: nat): (Mmu, nat) -> Mmu {
    (s: Mmu, j: nat) => if k + j < HEAP_PAGES then MapVirtual(s, dir, (k + j) * PAGE_SIZE, 3) else s
  }

  /** Memory and bitmap after n pages were mapped from page number k on. */
  ghost function AllocPages(s: Mmu, dir: FrameNumber, k: nat, n: nat): Mmu {
    After(Mapper(dir, k), s, n)
  }

  lemma AllocNext(s: Mmu, dir: FrameNumber, k: nat, j: nat)
    requires k + j < HEAP_PAGES
    ensures AllocPages(s, dir, k, j + 1) == MapVirtual(AllocPages(s, dir, k, j), dir, (k + j) * PAGE_SIZE, 3)
  {
  }

  /** After j pages the frames last for the next one. */
  ghost predicate NotExhausted(s: Mmu, dir: FrameNumber, k: nat, j: nat)
    requires k + j < HEAP_PAGES
  {
    EnoughFrames(AllocPages(s, dir, k, j), dir, (k + j) * PAGE_SIZE)
  }

  /** Mapping n pages does not exhaust memory. */
  ghost predicate EnoughFor(s: Mmu, dir: FrameNumber, k: nat, n: nat) {
    k + n <= HEAP_PAGES && forall j: nat | j < n :: NotExhausted(s, dir, k, j)
  }

  lemma EnoughIsFresh(s: Mmu, dir: FrameNumber, va: uint32)
    requires Inv(s, dir) && DirIndex(va) < LAST && EnoughFrames(s, dir, va)
    ensures FreshTable(s.mem, dir, va, AllocatedFrame(Allocate(s.used).0))
    ensures Inv(MapVirtual(s, dir, va, 3), dir)
  {
    var frame, table := MapVirtualLeaves(s, dir, va, 3);
  }

  /** Page number k is mapped to a frame that is marked used and is no page-table frame. */
  ghost predicate Backed(s: Mmu, dir: FrameNumber, k: nat)
    requires k < FRAMES
  {
    var e := Leaf(s.mem, dir, k / ENTRIES, k % ENTRIES);
    e.Some? && FrameOf(e.value) in s.used && NotPaging(s.mem, dir, FrameOf(e.value))
  }

  /** The frame behind page number k. */
  ghost function Backing(s: Mmu, dir: FrameNumber, k: nat): FrameNumber
    requires k < FRAMES && Backed(s, dir, k)
  {
    FrameOf(Leaf(s.mem, dir, k / ENTRIES, k % ENTRIES).value)
  }

  /** The pages from..to are backed by frames of their own. */
  ghost predicate HeapBacked(s: Mmu, dir: FrameNumber, from: nat, to: nat)
    requires to <= FRAMES
  {
    && (forall k: nat | from <= k < to :: Backed(s, dir, k))
    && (forall j: nat, k: nat | from <= j < k < to :: Backing(s, dir, j) != Backing(s, dir, k))
  }

  /** The pages from..to have the same frames behind them. */
  ghost predicate SameBacking(s: Mmu, n: Mmu, dir: FrameNumber, from: nat, to: nat) {
    forall k: nat | from <= k < to && k < FRAMES && Backed(s, dir, k) ::
      Backed(n, dir, k) && Backing(n, dir, k) == Backing(s, dir, k)
  }

  /** One page more. */
  lemma MapBacksPage(s: Mmu, dir: FrameNumber, from: nat, to: nat)
    requires Inv(s, dir) && from <= to < HEAP_PAGES
    requires EnoughFrames(s, dir, to * PAGE_SIZE) && HeapBacked(s, dir, from, to)
    ensures var n := MapVirtual(s, dir, to * PAGE_SIZE, 3);
      Inv(n, dir) && HeapBacked(n, dir, from, to + 1) && SameBacking(s, n, dir, from, to)
  {
    var va: uint32 := to * PAGE_SIZE;
    var frame, table := MapVirtualLeaves(s, dir, va, 3);
    var n := MapVirtual(s, dir, va, 3);
    EntryFields(frame, 3);
    assert DirIndex(va) == to / ENTRIES && TableIndex(va) == to % ENTRIES;
    FreeIsNotPaging(s, dir, frame);
    assert Backed(n, dir, to) && Backing(n, dir, to) == frame;
    forall k: nat | from <= k < to
      ensures Backed(n, dir, k) && Backing(n, dir, k) == Backing(s, dir, k) && Backing(s, dir, k) in s.used
    {
      assert Backed(s, dir, k);
      assert k / ENTRIES != to / ENTRIES || k % ENTRIES != to % ENTRIES;
    }
  }

  ghost predicate HeapSound(s: Mmu, n: Mmu, dir: FrameNumber, from: nat, k: nat, to: nat) {
    to <= FRAMES && Inv(n, dir) && HeapBacked(n, dir, from, to) && SameBacking(s, n, dir, from, k)
  }

  lemma HeapStep(s: Mmu, m: Mmu, dir: FrameNumber, from: nat, k: nat, to: nat)
    requires from <= k <= to < HEAP_PAGES
    ensures HeapSound(s, m, dir, from, k, to) && EnoughFrames(m, dir, to * PAGE_SIZE) ==>
              HeapSound(s, MapVirtual(m, dir, to * PAGE_SIZE, 3), dir, from, k, to + 1)
  {
    if HeapSound(s, m, dir, from, k, to) && EnoughFrames(m, dir, to * PAGE_SIZE) { MapBacksPage(m, dir, from, to); }
  }

  ghost function HeapGoal(s: Mmu, dir: FrameNumber, from: nat, k: nat): (Mmu, nat) -> bool {
    (t: Mmu, j: nat) => HeapSound(s, t, dir, from, k, k + j)
  }

  lemma HeapCarries(s: Mmu, dir: FrameNumber, from: nat, k: nat, j: nat)
    requires from <= k && k + j < HEAP_PAGES && NotExhausted(s, dir, k, j)
    ensures StepKeeps(HeapGoal(s, dir, from, k), Mapper(dir, k), s, j)
  {
    HeapStep(s, AllocPages(s, dir, k, j), dir, from, k, k + j);
  }

  /** Over every run of alloc_page that does not exhaust memory, distinct heap pages are mapped
      to distinct frames, each of them marked used and none a page-table frame; pages mapped
      before keep theirs. */
  lemma RunBacksHeap(s: Mmu, dir: FrameNumber, from: nat, k: nat, n: nat)
    requires from <= k && EnoughFor(s, dir, k, n) && Inv(s, dir) && HeapBacked(s, dir, from, k)
    ensures var t := AllocPages(s, dir, k, n);
      Inv(t, dir) && HeapBacked(t, dir, from, k + n) && SameBacking(s, t, dir, from, k)
  {
    assert HeapSound(s, s, dir, from, k, k);
    forall j: nat | j < n
      ensures StepKeeps(HeapGoal(s, dir, from, k), Mapper(dir, k), s, j)
    {
      assert NotExhausted(s, dir, k, j);
      HeapCarries(s, dir, from, k, j);
    }
    StepInduction(HeapGoal(s, dir, from, k), Mapper(dir, k), s, n);
    assert HeapSound(s, AllocPages(s, dir, k, n), dir, from, k, k + n);
  }
}
