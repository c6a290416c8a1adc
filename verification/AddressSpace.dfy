/** The address-space copy of fork (kernel/arch/i386/process.c), on the memory and the hardware
    walk of PagingSpec. */
module AddressSpace {
  import opened Page
  import opened PagingSpec

  const KERNEL: nat := 768   // KERNEL_VIRTUAL_BASE >> 22

  /** process_page_table_t: the frame of a page table and the page frames tracked in it. */
  datatype TableRecord = TableRecord(frame: FrameNumber, pages: seq<Option<FrameNumber>>)

  /** process_memory_t */
  datatype ProcessMemory = ProcessMemory(directory: FrameNumber, tables: seq<Option<TableRecord>>)

  // ---- frames of an address space

  predicate PageAt(t: TableRecord, j: nat) { j < |t.pages| && t.pages[j].Some? }

  predicate TableAt(p: ProcessMemory, i: nat) { i < |p.tables| && p.tables[i].Some? }

  /** f is the frame of the table or of a page tracked in it. */
  ghost predicate TableOwns(t: TableRecord, f: FrameNumber) {
    f == t.frame || exists j: nat :: PageAt(t, j) && t.pages[j].value == f
  }

  /** f is a frame of the address space. */
  ghost predicate Owns(p: ProcessMemory, f: FrameNumber) {
    f == p.directory || exists i: nat :: TableAt(p, i) && TableOwns(p.tables[i].value, f)
  }

  // ---- address spaces that describe what the hardware sees

  /** The entries of a table name the tracked pages; the rest are not present. */
  ghost predicate TableTracks(m: Memory, t: TableRecord) {
    && |t.pages| == 1024
    && forall j: Index :: if PageAt(t, j) then FrameOf(m[t.frame][j]) == t.pages[j].value else !Present(m[t.frame][j])
  }

  /** The same for the directory, apart from the kernel's table and the self-map. */
  ghost predicate Tracks(m: Memory, p: ProcessMemory) {
    && |p.tables| == 1024 && p.tables[KERNEL].None? && p.tables[LAST].None?
    && (forall i: Index :: TableAt(p, i) ==>
         FrameOf(m[p.directory][i]) == p.tables[i].value.frame && !Large(m[p.directory][i]) &&
         TableTracks(m, p.tables[i].value))
    && (forall i: Index :: i != KERNEL && i != LAST && !TableAt(p, i) ==> !Present(m[p.directory][i]))
  }

  /** No page frame of the address space serves as a table or as the directory, and no table as
      the directory. */
  ghost predicate PagesApart(p: ProcessMemory) {
    && (forall i: nat | TableAt(p, i) :: p.tables[i].value.frame != p.directory)
    && (forall i: nat, k: nat, j: nat | TableAt(p, i) && TableAt(p, k) && PageAt(p.tables[i].value, j) ::
         p.tables[i].value.pages[j].value != p.tables[k].value.frame && p.tables[i].value.pages[j].value != p.directory)
  }

  /** Different pages have different frames. */
  ghost predicate PagesDistinct(p: ProcessMemory) {
    forall i: nat, j: nat, k: nat, l: nat |
      TableAt(p, i) && PageAt(p.tables[i].value, j) && TableAt(p, k) && PageAt(p.tables[k].value, l) &&
      (i != k || j != l) ::
      p.tables[i].value.pages[j].value != p.tables[k].value.pages[l].value
  }

  /** Different tables have different frames. */
  ghost predicate TablesDistinct(p: ProcessMemory) {
    forall i: nat, k: nat | TableAt(p, i) && TableAt(p, k) && i != k ::
      p.tables[i].value.frame != p.tables[k].value.frame
  }

  // ---- what a process reads and writes

  /** Addresses outside the kernel's four megabytes and the self-map. */
  predicate User(va: uint32) {
    va % 4 == 0 && DirIndex(va) != KERNEL && DirIndex(va) != LAST
  }

  function Read(m: Memory, dir: FrameNumber, va: uint32): Option<uint32> {
    match Walk(m, dir, va)
    case None => None
    case Some(pa) => Some(m[FrameOf(pa)][pa % PAGE_SIZE / 4])
  }

  function Write(m: Memory, dir: FrameNumber, va: uint32, w: uint32): Memory {
    match Walk(m, dir, va)
    case None => m
    case Some(pa) => SetEntry(m, FrameOf(pa), pa % PAGE_SIZE / 4, w)
  }

  /** What an address space that tracks its pages reads at va. */
  function Tracked(m: Memory, p: ProcessMemory, va: uint32): Option<uint32> {
    var i, j := DirIndex(va), TableIndex(va);
    if TableAt(p, i) && Present(m[p.directory][i]) && PageAt(p.tables[i].value, j) &&
       Present(m[p.tables[i].value.frame][j]) then
      Some(m[p.tables[i].value.pages[j].value][va % PAGE_SIZE / 4])
    else None
  }

  lemma ReadIsTracked(m: Memory, p: ProcessMemory, va: uint32)
    requires Tracks(m, p) && User(va)
    ensures Read(m, p.directory, va) == Tracked(m, p, va)
    ensures Walk(m, p.directory, va).Some? ==>
              var (i, j) := (DirIndex(va), TableIndex(va));
              TableAt(p, i) && PageAt(p.tables[i].value, j) &&
              FrameOf(Walk(m, p.directory, va).value) == p.tables[i].value.pages[j].value
  {
  }

  // ---- the copy

  /** The frame address with the low eight bits of the parent's entry. */
  function CopyEntry(frame: FrameNumber, e: uint32): uint32 { frame * PAGE_SIZE + e % 0x100 }

  /** Table c of the child mirrors table t of the parent. */
  ghost predicate TableCopied(m: Memory, n: Memory, t: TableRecord, c: TableRecord) {
    && |t.pages| == |c.pages| == 1024
    && forall j: Index ::
         && (PageAt(t, j) <==> PageAt(c, j))
         && (PageAt(t, j) ==> n[c.pages[j].value] == m[t.pages[j].value])
         && n[c.frame][j] == if PageAt(t, j) then CopyEntry(c.pages[j].value, m[t.frame][j]) else 0
  }

  /** The directory entries of the child. */
  function ChildEntry(m: Memory, p: ProcessMemory, c: ProcessMemory, kernelTable: FrameNumber, i: Index): uint32 {
    if i == LAST then TableEntry(c.directory)
    else if i == KERNEL then TableEntry(kernelTable)
    else if TableAt(p, i) && TableAt(c, i) then CopyEntry(c.tables[i].value.frame, m[p.directory][i])
    else 0
  }

  /** What fork leaves behind: memory n, where p has the frames it had and c is a copy of it on
      frames of its own. */
  ghost predicate Copied(m: Memory, n: Memory, p: ProcessMemory, c: ProcessMemory, kernelTable: FrameNumber) {
    && |p.tables| == |c.tables| == 1024
    && (forall i: Index :: TableAt(p, i) <==> TableAt(c, i))
    && (forall i: Index :: TableAt(p, i) ==> TableCopied(m, n, p.tables[i].value, c.tables[i].value))
    && (forall i: Index :: n[c.directory][i] == ChildEntry(m, p, c, kernelTable, i))
    && (forall f: FrameNumber :: Owns(p, f) ==> n[f] == m[f])
    && (forall f: FrameNumber :: Owns(c, f) ==> !Owns(p, f))
    && PagesApart(c) && PagesDistinct(c) && TablesDistinct(c)
  }

  /** The addresses that are the process's own: not the kernel's four megabytes and not the self-map. */
  lemma UserAddresses(va: uint32)
    ensures User(va) <==> va % 4 == 0 && va < 0xFFC0_0000 && !(0xC000_0000 <= va < 0xC040_0000)
  {
  }

  lemma CopiedEntry(frame: FrameNumber, e: uint32)
    ensures CopyEntry(frame, e) % 4096 == e % 256
    ensures FrameOf(CopyEntry(frame, e)) == frame && CopyEntry(frame, e) % 0x100 == e % 0x100
    ensures Present(CopyEntry(frame, e)) == Present(e) && Large(CopyEntry(frame, e)) == Large(e)
  {
    assert CopyEntry(frame, e) == 0x100 * (frame * 16) + e % 0x100;
    assert e == 0x100 * (e / 0x100) + e % 0x100;
    LowByte(frame * 16, e % 0x100);
    LowByte(e / 0x100, e % 0x100);
  }

  lemma LowByte(high: nat, low: nat)
    requires low < 0x100
    ensures (0x100 * high + low) % 0x100 == low && (0x100 * high + low) / PAGE_SIZE == high / 16
    ensures (0x100 * high + low) % 2 == low % 2 && (0x100 * high + low) / 0x80 % 2 == low / 0x80
  {
    var v := 0x100 * high + low;
    Quotient(v, 0x100, high, low);
    Quotient(v, PAGE_SIZE, high / 16, 0x100 * (high % 16) + low);
    Quotient(v, 2, 0x80 * high + low / 2, low % 2);
    Quotient(v, 0x80, 2 * high + low / 0x80, low % 0x80);
    Quotient(2 * high + low / 0x80, 2, high, low / 0x80);
  }

  lemma OwnsPage(p: ProcessMemory, i: Index, j: Index)
    requires TableAt(p, i)
    ensures Owns(p, p.directory) && Owns(p, p.tables[i].value.frame)
    ensures PageAt(p.tables[i].value, j) ==> Owns(p, p.tables[i].value.pages[j].value)
  {
  }

  /** The parent's frames are as they were; the child tracks its own. */
  lemma CopyTracks(m: Memory, n: Memory, p: ProcessMemory, c: ProcessMemory, kernelTable: FrameNumber)
    requires Tracks(m, p) && Copied(m, n, p, c, kernelTable)
    ensures Tracks(n, p) && Tracks(n, c)
  {
    forall i: Index | TableAt(p, i)
      ensures TableTracks(n, p.tables[i].value) && n[p.directory][i] == m[p.directory][i]
      ensures TableTracks(n, c.tables[i].value)
      ensures FrameOf(n[c.directory][i]) == c.tables[i].value.frame && !Large(n[c.directory][i])
    {
      OwnsPage(p, i, 0);
      CopiedEntry(c.tables[i].value.frame, m[p.directory][i]);
      TableCopyTracks(m, n, p.tables[i].value, c.tables[i].value);
    }
    assert n[p.directory] == m[p.directory] by { assert Owns(p, p.directory); }
    assert !TableAt(p, KERNEL) && !TableAt(p, LAST) && !TableAt(c, KERNEL) && !TableAt(c, LAST);
    forall i: Index | i != KERNEL && i != LAST && !TableAt(p, i)
      ensures !Present(n[c.directory][i])
    {}
  }

  lemma TableCopyTracks(m: Memory, n: Memory, t: TableRecord, c: TableRecord)
    requires TableTracks(m, t) && TableCopied(m, n, t, c)
    ensures TableTracks(n, c)
  {
  }

  /** fork preserves meaning: at every user address parent and child read what the parent read
      before, or fault as it did. */
  lemma ForkPreservesView(m: Memory, n: Memory, p: ProcessMemory, c: ProcessMemory, kernelTable: FrameNumber,
                          va: uint32)
    requires Tracks(m, p) && Copied(m, n, p, c, kernelTable) && User(va)
    ensures Read(n, c.directory, va) == Read(m, p.directory, va)
    ensures Read(n, p.directory, va) == Read(m, p.directory, va)
  {
    CopyTracks(m, n, p, c, kernelTable);
    ReadIsTracked(m, p, va);
    ReadIsTracked(n, p, va);
    ReadIsTracked(n, c, va);
    var i, j := DirIndex(va), TableIndex(va);
    assert Owns(p, p.directory);
    if TableAt(p, i) {
      OwnsPage(p, i, j);
      CopiedEntry(c.tables[i].value.frame, m[p.directory][i]);
      if PageAt(p.tables[i].value, j) {
        CopiedEntry(c.tables[i].value.pages[j].value, m[p.tables[i].value.frame][j]);
      }
    }
  }

  /** A write by one process to a user address reaches only page frames of its own. */
  lemma WriteStaysInside(m: Memory, p: ProcessMemory, va: uint32, w: uint32, f: FrameNumber)
    requires Tracks(m, p) && User(va) && !Owns(p, f)
    ensures Write(m, p.directory, va, w)[f] == m[f]
  {
  }

  /** Memory that agrees on the frames of an address space reads the same. */
  lemma ReadDependsOnFrames(m: Memory, n: Memory, p: ProcessMemory, va: uint32)
    requires Tracks(m, p) && User(va) && forall f: FrameNumber :: Owns(p, f) ==> n[f] == m[f]
    ensures Read(n, p.directory, va) == Read(m, p.directory, va)
  {
  }

  /** The words of the child's directory and tables: the frame with the parent's low eight bits and no
      other for what is tracked, the self-map and the kernel's table writable and for the kernel only,
      and 0 elsewhere. */
  lemma ForkEntries(m: Memory, n: Memory, p: ProcessMemory, c: ProcessMemory, kernelTable: FrameNumber,
                    i: Index, j: Index)
    requires Tracks(m, p) && Copied(m, n, p, c, kernelTable)
    ensures n[c.directory][1023] == c.directory * 4096 + 3 && n[c.directory][768] == kernelTable * 4096 + 3
    ensures i != 1023 && i != 768 ==>
              n[c.directory][i] ==
              if p.tables[i].None? then 0 else c.tables[i].value.frame * 4096 + m[p.directory][i] % 256
    ensures p.tables[i].Some? ==>
              n[c.tables[i].value.frame][j] ==
              if p.tables[i].value.pages[j].None? then 0
              else var f: nat := c.tables[i].value.pages[j].value; f * 4096 + m[p.tables[i].value.frame][j] % 256
  {
    if TableAt(p, i) {
      assert TableCopied(m, n, p.tables[i].value, c.tables[i].value) && TableTracks(m, p.tables[i].value);
    }
  }

  /** Every entry the child has for a tracked page or table keeps the parent's low eight bits. */
  lemma ForkKeepsFlags(m: Memory, n: Memory, p: ProcessMemory, c: ProcessMemory, kernelTable: FrameNumber, i: Index,
                       j: Index)
    requires Tracks(m, p) && Copied(m, n, p, c, kernelTable) && TableAt(p, i) && PageAt(p.tables[i].value, j)
    ensures n[c.directory][i] % 0x100 == m[p.directory][i] % 0x100
    ensures n[c.tables[i].value.frame][j] % 0x100 == m[p.tables[i].value.frame][j] % 0x100
  {
    CopiedEntry(c.tables[i].value.frame, m[p.directory][i]);
    assert TableCopied(m, n, p.tables[i].value, c.tables[i].value);
    CopiedEntry(c.tables[i].value.pages[j].value, m[p.tables[i].value.frame][j]);
  }

  // ---- writes after fork

  /** A write to a user address, by the parent or the child. */
  datatype Access = Access(child: bool, va: uint32, w: uint32)

  ghost predicate UserAccesses(ws: seq<Access>) {
    forall k :: 0 <= k < |ws| ==> User(ws[k].va)
  }

  /** Memory after the writes. */
  function Play(n: Memory, p: ProcessMemory, c: ProcessMemory, ws: seq<Access>): Memory
    decreases |ws|
  {
    if ws == [] then n
    else
      var a := ws[|ws| - 1];
      Write(Play(n, p, c, ws[..|ws| - 1]), (if a.child then c else p).directory, a.va, a.w)
  }

  /** The writes of one side. */
  function Only(ws: seq<Access>, child: bool): seq<Access> {
    if ws == [] then []
    else Only(ws[..|ws| - 1], child) + if ws[|ws| - 1].child == child then [ws[|ws| - 1]] else []
  }

  /** What a memory of its own shows at va after the writes of one side, if it showed `before`:
      the last word written there. */
  function Latest(ws: seq<Access>, child: bool, va: uint32, before: Option<uint32>): Option<uint32> {
    if ws == [] || before.None? then before
    else
      var a := ws[|ws| - 1];
      if a.child == child && a.va == va then Some(a.w) else Latest(ws[..|ws| - 1], child, va, before)
  }

  /** Both address spaces are described by their records and share no frame. */
  ghost predicate Separate(m: Memory, p: ProcessMemory, c: ProcessMemory) {
    && Tracks(m, p) && Tracks(m, c) && PagesApart(p) && PagesApart(c)
    && forall f: FrameNumber :: Owns(c, f) ==> !Owns(p, f)
  }

  ghost predicate SameFrames(m: Memory, n: Memory, p: ProcessMemory) {
    forall f: FrameNumber :: Owns(p, f) ==> n[f] == m[f]
  }

  lemma TracksDependsOnFrames(m: Memory, n: Memory, p: ProcessMemory)
    requires Tracks(m, p) && SameFrames(m, n, p)
    ensures Tracks(n, p)
  {
    assert Owns(p, p.directory);
    forall i: Index | TableAt(p, i)
      ensures n[p.tables[i].value.frame] == m[p.tables[i].value.frame]
    {
      OwnsPage(p, i, 0);
    }
  }

  /** A write changes page frames alone, so that the records stay right. */
  lemma WriteKeepsTracks(m: Memory, p: ProcessMemory, va: uint32, w: uint32)
    requires Tracks(m, p) && PagesApart(p) && User(va)
    ensures Tracks(Write(m, p.directory, va, w), p)
  {
    ReadIsTracked(m, p, va);
    var n := Write(m, p.directory, va, w);
    forall i: Index | TableAt(p, i)
      ensures n[p.tables[i].value.frame] == m[p.tables[i].value.frame] && n[p.directory] == m[p.directory]
    {}
  }

  /** A write by one side keeps the other's frames and both records. */
  lemma WriteKeepsSeparate(m: Memory, p: ProcessMemory, c: ProcessMemory, va: uint32, w: uint32)
    requires Separate(m, p, c) && User(va)
    ensures var n := Write(m, c.directory, va, w); Separate(n, p, c) && SameFrames(m, n, p)
    ensures var n := Write(m, p.directory, va, w); Separate(n, p, c) && SameFrames(m, n, c)
  {
    WriteKeepsTracks(m, p, va, w);
    WriteKeepsTracks(m, c, va, w);
    forall f: FrameNumber | Owns(p, f) ensures Write(m, c.directory, va, w)[f] == m[f] {
      WriteStaysInside(m, c, va, w, f);
    }
    forall f: FrameNumber | Owns(c, f) ensures Write(m, p.directory, va, w)[f] == m[f] {
      WriteStaysInside(m, p, va, w, f);
    }
    TracksDependsOnFrames(m, Write(m, c.directory, va, w), p);
    TracksDependsOnFrames(m, Write(m, p.directory, va, w), c);
  }

  lemma {:induction false} PlayKeepsSeparate(n: Memory, p: ProcessMemory, c: ProcessMemory, ws: seq<Access>)
    requires Separate(n, p, c) && UserAccesses(ws)
    ensures Separate(Play(n, p, c, ws), p, c)
    decreases |ws|
  {
    if ws != [] {
      PlayKeepsSeparate(n, p, c, ws[..|ws| - 1]);
      WriteKeepsSeparate(Play(n, p, c, ws[..|ws| - 1]), p, c, ws[|ws| - 1].va, ws[|ws| - 1].w);
    }
  }

  /** A write has the same effect on an address space wherever that has the same contents. */
  lemma WriteAgrees(m: Memory, n: Memory, p: ProcessMemory, va: uint32, w: uint32)
    requires Tracks(m, p) && User(va) && SameFrames(m, n, p)
    ensures SameFrames(Write(m, p.directory, va, w), Write(n, p.directory, va, w), p)
  {
    var i := DirIndex(va);
    assert Owns(p, p.directory);
    if TableAt(p, i) {
      OwnsPage(p, i, TableIndex(va));
    }
    WalkSame(m, n, p.directory, va);
  }

  /** Isolation: whatever parent and child write after fork, in any order, the frames of each are
      as if it alone had written. */
  lemma {:induction false} WritesStayApart(n: Memory, p: ProcessMemory, c: ProcessMemory, ws: seq<Access>)
    requires Separate(n, p, c) && UserAccesses(ws)
    ensures SameFrames(Play(n, p, c, Only(ws, false)), Play(n, p, c, ws), p)
    ensures SameFrames(Play(n, p, c, Only(ws, true)), Play(n, p, c, ws), c)
    decreases |ws|
  {
    if ws != [] {
      var earlier, a := ws[..|ws| - 1], ws[|ws| - 1];
      WritesStayApart(n, p, c, earlier);
      PlayKeepsSeparate(n, p, c, earlier);
      WriteKeepsSeparate(Play(n, p, c, earlier), p, c, a.va, a.w);
      OnlyLast(n, p, c, ws);
      OnlyUser(earlier, a.child);
      PlayKeepsSeparate(n, p, c, Only(earlier, a.child));
      WriteAgrees(Play(n, p, c, Only(earlier, a.child)), Play(n, p, c, earlier), if a.child then c else p, a.va, a.w);
    }
  }

  lemma OnlyLast(n: Memory, p: ProcessMemory, c: ProcessMemory, ws: seq<Access>)
    requires ws != []
    ensures var earlier, a := ws[..|ws| - 1], ws[|ws| - 1];
      && Play(n, p, c, Only(ws, a.child)) ==
         Write(Play(n, p, c, Only(earlier, a.child)), (if a.child then c else p).directory, a.va, a.w)
      && Only(ws, !a.child) == Only(earlier, !a.child)
  {
    var earlier, a := ws[..|ws| - 1], ws[|ws| - 1];
    var mine := Only(earlier, a.child) + [a];
    assert mine[..|mine| - 1] == Only(earlier, a.child) && mine[|mine| - 1] == a;
  }

  lemma {:induction false} OnlyUser(ws: seq<Access>, child: bool)
    requires UserAccesses(ws)
    ensures UserAccesses(Only(ws, child))
  {
    if ws != [] { OnlyUser(ws[..|ws| - 1], child); }
  }

  /** A write changes what its own side reads at that address only. */
  lemma OwnWrite(m: Memory, p: ProcessMemory, va: uint32, w: uint32, seen: uint32)
    requires Tracks(m, p) && PagesApart(p) && PagesDistinct(p) && User(va) && User(seen)
    ensures Read(Write(m, p.directory, va, w), p.directory, seen) ==
            if seen == va && Read(m, p.directory, va).Some? then Some(w) else Read(m, p.directory, seen)
  {
    ReadIsTracked(m, p, va);
    ReadIsTracked(m, p, seen);
    var after := Write(m, p.directory, va, w);
    var i, j := DirIndex(va), TableIndex(va);
    var k, l := DirIndex(seen), TableIndex(seen);
    if Walk(m, p.directory, va).Some? {
      var f := p.tables[i].value.pages[j].value;
      WalkOffset(m, p.directory, va);
      assert after == SetEntry(m, f, va % PAGE_SIZE / 4, w);
      assert after[p.directory] == m[p.directory];
      if TableAt(p, k) { assert after[p.tables[k].value.frame] == m[p.tables[k].value.frame]; }
      WalkSame(m, after, p.directory, seen);
      if Walk(m, p.directory, seen).Some? {
        WalkOffset(m, p.directory, seen);
        Decompose(va, seen);
        SameWord(va, seen);
      }
    }
  }

  /** Whatever is written, in any order, each side reads the last word it wrote itself. */
  lemma {:induction false} ReadsLatest(n: Memory, p: ProcessMemory, c: ProcessMemory, ws: seq<Access>, seen: uint32)
    requires Separate(n, p, c) && PagesDistinct(p) && PagesDistinct(c) && UserAccesses(ws) && User(seen)
    ensures Read(Play(n, p, c, ws), p.directory, seen) == Latest(ws, false, seen, Read(n, p.directory, seen))
    ensures Read(Play(n, p, c, ws), c.directory, seen) == Latest(ws, true, seen, Read(n, c.directory, seen))
    decreases |ws|
  {
    if ws != [] {
      var earlier, a := ws[..|ws| - 1], ws[|ws| - 1];
      var m := Play(n, p, c, earlier);
      ReadsLatest(n, p, c, earlier, seen);
      PlayKeepsSeparate(n, p, c, earlier);
      WriteKeepsSeparate(m, p, c, a.va, a.w);
      LatestKeepsMapping(earlier, a.child, seen, Read(n, (if a.child then c else p).directory, seen));
      if a.child {
        OwnWrite(m, c, a.va, a.w, seen);
        ReadDependsOnFrames(m, Write(m, c.directory, a.va, a.w), p, seen);
      } else {
        OwnWrite(m, p, a.va, a.w, seen);
        ReadDependsOnFrames(m, Write(m, p.directory, a.va, a.w), c, seen);
      }
    }
  }

  lemma {:induction false} LatestKeepsMapping(ws: seq<Access>, child: bool, va: uint32, before: Option<uint32>)
    ensures Latest(ws, child, va, before).Some? <==> before.Some?
  {
    if ws != [] { LatestKeepsMapping(ws[..|ws| - 1], child, va, before); }
  }

  lemma ForkSeparates(m: Memory, n: Memory, p: ProcessMemory, c: ProcessMemory, kernelTable: FrameNumber)
    requires Tracks(m, p) && PagesApart(p) && Copied(m, n, p, c, kernelTable)
    ensures Separate(n, p, c)
  {
    CopyTracks(m, n, p, c, kernelTable);
  }

  /** Isolation: however parent and child write after fork, each reads as if the other had
      written nothing. */
  lemma ForkIsolates(m: Memory, n: Memory, p: ProcessMemory, c: ProcessMemory, kernelTable: FrameNumber,
                     ws: seq<Access>, seen: uint32)
    requires Tracks(m, p) && PagesApart(p) && Copied(m, n, p, c, kernelTable) && UserAccesses(ws) && User(seen)
    ensures Read(Play(n, p, c, ws), p.directory, seen) == Read(Play(n, p, c, Only(ws, false)), p.directory, seen)
    ensures Read(Play(n, p, c, ws), c.directory, seen) == Read(Play(n, p, c, Only(ws, true)), c.directory, seen)
  {
    ForkSeparates(m, n, p, c, kernelTable);
    WritesStayApart(n, p, c, ws);
    OnlyUser(ws, false);
    OnlyUser(ws, true);
    PlayKeepsSeparate(n, p, c, Only(ws, false));
    PlayKeepsSeparate(n, p, c, Only(ws, true));
    ReadDependsOnFrames(Play(n, p, c, Only(ws, false)), Play(n, p, c, ws), p, seen);
    ReadDependsOnFrames(Play(n, p, c, Only(ws, true)), Play(n, p, c, ws), c, seen);
  }

  /** fork makes two memories of one: after any writes of both, parent and child each read the
      last word they wrote themselves, and where they wrote none what the parent read at fork. */
  lemma ForkMakesTwoMemories(m: Memory, n: Memory, p: ProcessMemory, c: ProcessMemory, kernelTable: FrameNumber,
                             ws: seq<Access>, seen: uint32)
    requires Tracks(m, p) && PagesApart(p) && PagesDistinct(p) && Copied(m, n, p, c, kernelTable)
    requires UserAccesses(ws) && User(seen)
    ensures Read(Play(n, p, c, ws), p.directory, seen) == Latest(ws, false, seen, Read(m, p.directory, seen))
    ensures Read(Play(n, p, c, ws), c.directory, seen) == Latest(ws, true, seen, Read(m, p.directory, seen))
  {
    ForkSeparates(m, n, p, c, kernelTable);
    ForkPreservesView(m, n, p, c, kernelTable, seen);
    ReadsLatest(n, p, c, ws, seen);
  }

  lemma WalkOffset(m: Memory, dir: FrameNumber, va: uint32)
    requires Walk(m, dir, va).Some?
    ensures Walk(m, dir, va).value % PAGE_SIZE == va % PAGE_SIZE
  {
    var pde := m[dir][DirIndex(va)];
    if Large(pde) {
      LargeOffset(pde / 0x40_0000, va);
    } else {
      Packed(FrameOf(m[FrameOf(pde)][TableIndex(va)]), va % PAGE_SIZE);
      Quotient(Walk(m, dir, va).value, PAGE_SIZE, FrameOf(m[FrameOf(pde)][TableIndex(va)]), va % PAGE_SIZE);
    }
  }

  lemma LargeOffset(q: nat, va: nat)
    ensures (q * 0x40_0000 + va % 0x40_0000) % PAGE_SIZE == va % PAGE_SIZE
  {
    var rest := va % 0x40_0000;
    Quotient(va, PAGE_SIZE, ENTRIES * (va / 0x40_0000) + rest / PAGE_SIZE, rest % PAGE_SIZE);
    Quotient(q * 0x40_0000 + rest, PAGE_SIZE, ENTRIES * q + rest / PAGE_SIZE, rest % PAGE_SIZE);
  }

  lemma WalkSame(m: Memory, n: Memory, dir: FrameNumber, va: uint32)
    requires n[dir] == m[dir]
    requires Present(m[dir][DirIndex(va)]) ==> n[FrameOf(m[dir][DirIndex(va)])] == m[FrameOf(m[dir][DirIndex(va)])]
    ensures Walk(n, dir, va) == Walk(m, dir, va)
  {
  }

  lemma SameWord(a: uint32, b: uint32)
    requires a % 4 == 0 && b % 4 == 0
    ensures a == b <==> SamePage(a, b) && a % PAGE_SIZE / 4 == b % PAGE_SIZE / 4
  {
  }
}
