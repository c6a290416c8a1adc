/** The entries that the page-table code of kernel/arch/i386/page.c writes, bit by bit: permissions of
    mapped pages and of new tables, and what alloc_page of kernel/arch/i386/heap.c gives the kernel. */
module PagingFlags {
  import opened Page
  import opened Bits
  import opened Bitmap
  import opened PagingSpec

  // ---- one entry

  /** Numbers that agree modulo 2^n have the same n low digits. */
  lemma {:induction false} LowBits(a: nat, b: nat, n: nat, c: nat)
    requires c < n && 0 < Pow2(n) && a % Pow2(n) == b % Pow2(n)
    ensures Bit(a, c) <==> Bit(b, c)
    decreases n
  {
    HalfModulo(a, n);
    HalfModulo(b, n);
    if c > 0 { LowBits(a / 2, b / 2, n - 1, c - 1); }
  }

  lemma HalfModulo(a: nat, n: nat)
    requires 0 < n && 0 < Pow2(n)
    ensures 0 < Pow2(n - 1) && a % Pow2(n) == 2 * (a / 2 % Pow2(n - 1)) + a % 2
  {
    var p := Pow2(n - 1);
    var q, r := a / 2 / p, a / 2 % p;
    assert a / 2 == p * q + r;
    assert a == 2 * (p * q + r) + a % 2;
    assert 2 * (p * q) == (2 * p) * q;
    Quotient(a, 2 * p, q, 2 * r + a % 2);
  }

  /** physical_address | (flags & 0xFFF) | 1: the frame, each of the flags 1 to 11, and bit 0. */
  lemma EntryBits(frame: FrameNumber, flags: nat)
    ensures var e := MakeEntry(frame, flags);
      && e / 4096 == frame && Bit(e, 0)
      && forall b: nat :: 1 <= b < 12 ==> (Bit(e, b) <==> Bit(flags, b))
  {
    var e, low := MakeEntry(frame, flags), flags % 4096;
    Quotient(e, 4096, frame, if low % 2 == 0 then low + 1 else low);
    HalfEntry(frame, flags);
    assert Pow2(11) == 2048;
    forall b: nat | 1 <= b < 12
      ensures Bit(e, b) <==> Bit(flags, b)
    {
      LowBits(e / 2, flags / 2, 11, b - 1);
    }
  }

  lemma HalfEntry(frame: FrameNumber, flags: nat)
    ensures MakeEntry(frame, flags) % 2 == 1 && MakeEntry(frame, flags) / 2 % 2048 == flags / 2 % 2048
  {
    var e, low := MakeEntry(frame, flags), flags % 4096;
    assert e == 2 * (frame * 2048 + low / 2) + 1;
    assert flags == 2 * (flags / 4096 * 2048 + low / 2) + low % 2;
    Quotient(e / 2, 2048, frame, low / 2);
    Quotient(flags / 2, 2048, flags / 4096, low / 2);
  }

  // ---- map_page and unmap_virtual_address

  /** The entry of a page that map_page maps names its frame and has exactly the flags given, and is
      present. */
  lemma MapPageFlags(m: Memory, dir: FrameNumber, va: uint32, frame: FrameNumber, flags: nat, table: FrameNumber)
    requires WellFormed(m, dir) && va < 0xFFC0_0000 && FreshTable(m, dir, va, table)
    ensures var e := Leaf(MapMemory(m, dir, va, MakeEntry(frame, flags), table), dir, va / 0x40_0000, va / 4096 % 1024);
      && e.Some? && e.value / 4096 == frame && Bit(e.value, 0)
      && forall b: nat :: 1 <= b < 12 ==> (Bit(e.value, b) <==> Bit(flags, b))
  {
    EntryFields(frame, flags);
    EntryBits(frame, flags);
    MapLeaves(m, dir, va, MakeEntry(frame, flags), table);
  }

  /** A table that map_page creates is entered as present, writable and for the kernel only, and all
      its other entries are 0. */
  lemma NewTableFlags(m: Memory, dir: FrameNumber, va: uint32, e: uint32, table: FrameNumber)
    requires WellFormed(m, dir) && va < 0xFFC0_0000 && m[dir][va / 0x40_0000] % 2 == 0 && NotPaging(m, dir, table)
    ensures var n := MapMemory(m, dir, va, e, table);
      && n[dir][va / 0x40_0000] == table * 4096 + 3
      && forall i: Index :: n[table][i] == if i == va / 4096 % 1024 then e else 0
  {
  }

  /** unmap_virtual_address leaves 0 in the entry, and in the directory if the table goes. */
  lemma UnmapLeavesZero(s: Mmu, dir: FrameNumber, va: uint32)
    requires Inv(s, dir) && va < 0xFFC0_0000 && Present(s.mem[dir][va / 0x40_0000])
    requires var e := Leaf(s.mem, dir, va / 0x40_0000, va / 4096 % 1024);
      e.Some? && NotPaging(s.mem, dir, FrameOf(e.value))
    ensures var n, o := Unmap(s, dir, va).mem, va / 0x40_0000;
      && n[FrameOf(s.mem[dir][o])][va / 4096 % 1024] == 0
      && n[dir][o] == if OnlyEntry(s.mem, dir, o, va / 4096 % 1024) then 0 else s.mem[dir][o]
  {
    var o: Index := DirIndex(va);
    assert IsTable(s.mem, dir, o, FrameOf(s.mem[dir][o]));
    UnmapLeaves(s, dir, va);
    var c := ClearPage(s, dir, o, TableIndex(va));
    assert c.mem[dir] == s.mem[dir];
    assert Present(Unmap(s, dir, va).mem[dir][o]) <==> Leaf(Unmap(s, dir, va).mem, dir, LAST, o).Some? by {
      PresentIffLeaf(Unmap(s, dir, va).mem, dir, o);
    }
    PresentIffLeaf(s.mem, dir, o);
  }

  // ---- alloc_page

  /** The pages from..to are present, writable and the kernel's, no other bit of their entries being
      set; so are the tables that s did not have, and those it had are entered as they were. */
  ghost predicate KernelOnly(s: Mmu, t: Mmu, dir: FrameNumber, from: nat, to: nat) {
    && (forall p: nat :: from <= p < to && p < FRAMES ==>
         var e := Leaf(t.mem, dir, p / 1024, p % 1024); e.Some? && e.value % 4096 == 3)
    && (forall o: Index :: o < 1023 && Present(t.mem[dir][o]) ==>
         if Present(s.mem[dir][o]) then t.mem[dir][o] == s.mem[dir][o] else t.mem[dir][o] % 4096 == 3)
  }

  lemma DirectoryEntry(m: Memory, dir: FrameNumber, o: Index)
    requires SelfMapped(m, dir)
    ensures Leaf(m, dir, LAST, o) == if Present(m[dir][o]) then Some(m[dir][o]) else None
  {
  }

  ghost predicate KernelSoFar(s: Mmu, t: Mmu, dir: FrameNumber, from: nat, to: nat) {
    && Inv(t, dir) && KernelOnly(s, t, dir, from, to)
    && forall o: Index :: o < 1023 && Present(s.mem[dir][o]) ==> Present(t.mem[dir][o])
  }

  lemma KernelOnlyStep(s: Mmu, t: Mmu, dir: FrameNumber, from: nat, to: nat)
    requires from <= to < HEAP_PAGES && EnoughFrames(t, dir, to * PAGE_SIZE) && KernelSoFar(s, t, dir, from, to)
    ensures KernelSoFar(s, MapVirtual(t, dir, to * PAGE_SIZE, 3), dir, from, to + 1)
  {
    var frame, table := MapVirtualLeaves(t, dir, to * PAGE_SIZE, 3);
    var n := MapVirtual(t, dir, to * PAGE_SIZE, 3);
    Quotient(MakeEntry(frame, 3), 4096, frame, 3);
    Quotient(TableEntry(table), 4096, table, 3);
    EntryFields(table, 3);
    forall p: nat | from <= p < to
      ensures Leaf(n.mem, dir, p / 1024, p % 1024) == Leaf(t.mem, dir, p / 1024, p % 1024)
    {
      assert p / 1024 != to / 1024 || p % 1024 != to % 1024;
    }
    assert DirIndex(to * PAGE_SIZE) == to / 1024 && TableIndex(to * PAGE_SIZE) == to % 1024;
    forall o: Index | o < 1023
      ensures n.mem[dir][o] == (if o == to / 1024 && !Present(t.mem[dir][o]) then TableEntry(table) else t.mem[dir][o])
           || (!Present(n.mem[dir][o]) && !Present(t.mem[dir][o]))
    {
      DirectoryEntry(t.mem, dir, o);
      DirectoryEntry(n.mem, dir, o);
    }
  }

  ghost function KernelGoal(s: Mmu, dir: FrameNumber, k: nat): (Mmu, nat) -> bool {
    (t: Mmu, j: nat) => KernelSoFar(s, t, dir, k, k + j)
  }

  lemma KernelCarries(s: Mmu, dir: FrameNumber, k: nat, j: nat)
    requires k + j < HEAP_PAGES && NotExhausted(s, dir, k, j)
    ensures StepKeeps(KernelGoal(s, dir, k), Mapper(dir, k), s, j)
  {
    var t := AllocPages(s, dir, k, j);
    if KernelSoFar(s, t, dir, k, k + j) {
      KernelOnlyStep(s, t, dir, k, k + j);
      assert KernelSoFar(s, Mapper(dir, k)(t, j), dir, k, k + (j + 1));
    }
  }

  /** Over every run of alloc_page each page is mapped present, writable and for the kernel only, with
      no other bit set, and so is each table that is created; tables there before stay as entered. */
  lemma AllocPagesKernelOnly(s: Mmu, dir: FrameNumber, k: nat, n: nat)
    requires EnoughFor(s, dir, k, n) && Inv(s, dir)
    ensures KernelOnly(s, AllocPages(s, dir, k, n), dir, k, k + n)
  {
    assert KernelSoFar(s, s, dir, k, k);
    forall j: nat | j < n
      ensures StepKeeps(KernelGoal(s, dir, k), Mapper(dir, k), s, j)
    {
      assert NotExhausted(s, dir, k, j);
      KernelCarries(s, dir, k, j);
    }
    StepInduction(KernelGoal(s, dir, k), Mapper(dir, k), s, n);
    assert KernelSoFar(s, AllocPages(s, dir, k, n), dir, k, k + n);
  }

  /** So bits 0 to 2, present, writable and user, read 1, 1 and 0 at both levels for every page in a
      table created in the run or entered so before it. */
  lemma AllocPagesPermissions(s: Mmu, dir: FrameNumber, k: nat, n: nat, p: nat)
    requires EnoughFor(s, dir, k, n) && Inv(s, dir) && k <= p < k + n
    requires Present(s.mem[dir][p / 1024]) ==> s.mem[dir][p / 1024] % 8 == 3
    ensures var t := AllocPages(s, dir, k, n);
      var pde := t.mem[dir][p / 1024];
      var pte := t.mem[FrameOf(pde)][p % 1024];
      Bit(pde, 0) && Bit(pde, 1) && !Bit(pde, 2) && Bit(pte, 0) && Bit(pte, 1) && !Bit(pte, 2)
  {
    AllocPagesKernelOnly(s, dir, k, n);
    var t := AllocPages(s, dir, k, n);
    var e := Leaf(t.mem, dir, p / 1024, p % 1024);
    ThreeLowBits(t.mem[dir][p / 1024]);
    ThreeLowBits(e.value);
  }

  lemma ThreeLowBits(e: nat)
    requires e % 4096 == 3 || e % 8 == 3
    ensures Bit(e, 0) && Bit(e, 1) && !Bit(e, 2)
  {
    if e % 4096 == 3 { Quotient(e, 8, 512 * (e / 4096), 3); }
    assert Pow2(3) == 8 && Bit(3, 0) && Bit(3, 1) && !Bit(3, 2);
    LowBits(e, 3, 3, 0);
    LowBits(e, 3, 3, 1);
    LowBits(e, 3, 3, 2);
  }
}
