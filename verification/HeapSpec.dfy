/** What malloc, free and malloc_pages (libc/stdlib/dynamic_allocation.c) do to the list of
    blocks from `start` to `end`, and the properties that list keeps over every run. */
module HeapSpec {
  import opened Page

  const HEADER: nat := 5     // sizeof(metadata_t): packed used flag and size
  const TRAILER: nat := 4    // sizeof(size_t)
  const OVERHEAD: nat := 9
  const MIN_SPLIT: nat := 13 // overhead of a split plus four payload bytes
  const MIN_GAP: nat := 18   // two headers, one trailer, four payload bytes

  datatype Block = Block(addr: nat, size: nat, used: bool) {
    /** NEXT_BLOCK, which is also END_BLOCK of the block's address and size */
    function Next(): nat { addr + OVERHEAD + size }

    function Payload(): nat { addr + HEADER }

    /** ENDING_SIZE_FIELD */
    function Trailer(): nat { addr + HEADER + size }
  }

  function Last(bs: seq<Block>): Block
    requires bs != []
  {
    bs[|bs| - 1]
  }

  // ---- the block list as a tiling

  ghost predicate Linked(bs: seq<Block>, i: nat)
    requires i + 1 < |bs|
  {
    bs[i].Next() == bs[i + 1].addr
  }

  /** Walking NEXT_BLOCK from the first block visits exactly the listed blocks. */
  ghost predicate Tiled(bs: seq<Block>) {
    forall i: nat | i + 1 < |bs| :: Linked(bs, i)
  }

  lemma {:induction false} TiledOrder(bs: seq<Block>, i: nat, j: nat)
    requires Tiled(bs) && i < j < |bs|
    ensures bs[i].Next() <= bs[j].addr
    decreases j
  {
    assert Linked(bs, j - 1);
    if i < j - 1 {
      TiledOrder(bs, i, j - 1);
    }
  }

  lemma LastAddress(bs: seq<Block>, i: nat)
    requires Tiled(bs) && i < |bs|
    ensures bs[i].addr == Last(bs).addr <==> i == |bs| - 1
    ensures bs[i].addr <= Last(bs).addr
  {
    if i < |bs| - 1 { TiledOrder(bs, i, |bs| - 1); }
  }

  lemma TiledOrderAll(bs: seq<Block>)
    requires Tiled(bs)
    ensures forall i, j :: 0 <= i < j < |bs| ==> bs[i].Next() <= bs[j].addr
  {
    forall i, j | 0 <= i < j < |bs|
      ensures bs[i].Next() <= bs[j].addr
    {
      TiledOrder(bs, i, j);
    }
  }

  // ---- edits of the list

  /** What becomes of a free block b taken for a request of the given size: it is split if the
      remainder can hold four payload bytes. The remainder of the last block is not listed:
      `end` does not move, so it lies above the list again. */
  function Pieces(b: Block, size: nat, last: bool): seq<Block>
    requires size <= b.size
  {
    if b.size - size < MIN_SPLIT then [b.(used := true)]
    else [Block(b.addr, size, true)] +
         if last then [] else [Block(b.addr + OVERHEAD + size, b.size - size - OVERHEAD, false)]
  }

  /** malloc takes the free block i. */
  function Take(bs: seq<Block>, i: nat, size: nat): seq<Block>
    requires i < |bs| && size <= bs[i].size
  {
    bs[..i] + Pieces(bs[i], size, i == |bs| - 1) + bs[i + 1..]
  }

  /** Blocks i and i + 1 become one free block. */
  function Merge(bs: seq<Block>, i: nat): seq<Block>
    requires i + 1 < |bs|
  {
    bs[..i] + [Block(bs[i].addr, bs[i].size + OVERHEAD + bs[i + 1].size, false)] + bs[i + 2..]
  }

  lemma TakeTiled(bs: seq<Block>, i: nat, size: nat)
    requires Tiled(bs) && i < |bs| && size <= bs[i].size
    ensures Tiled(Take(bs, i, size))
    ensures Take(bs, i, size)[0].addr == bs[0].addr
    ensures Last(Take(bs, i, size)).Next() <= Last(bs).Next()
    ensures Last(Take(bs, i, size)).addr == Last(bs).addr
  {
    var cs := Take(bs, i, size);
    forall k: nat | k + 1 < |cs|
      ensures Linked(cs, k)
    {
      if k + 1 < |bs| { assert Linked(bs, k); }
      if 0 < k { assert Linked(bs, k - 1); }
    }
  }

  lemma MergeTiled(bs: seq<Block>, i: nat)
    requires Tiled(bs) && i + 1 < |bs|
    ensures Tiled(Merge(bs, i))
    ensures Merge(bs, i)[0].addr == bs[0].addr
    ensures Last(Merge(bs, i)).Next() == Last(bs).Next()
    ensures Last(Merge(bs, i)).addr == if i + 2 == |bs| then bs[i].addr else Last(bs).addr
  {
    var cs := Merge(bs, i);
    assert Linked(bs, i);
    forall k: nat | k + 1 < |cs|
      ensures Linked(cs, k)
    {
      assert Linked(bs, k);
      assert Linked(bs, k + 1);
    }
  }

  lemma MergeKeepsInv(s: State, heapStart: nat, i: nat)
    requires Inv(s, heapStart) && i + 1 < |s.blocks|
    ensures Inv(s.(blocks := Merge(s.blocks, i)), heapStart)
    ensures Last(Merge(s.blocks, i)).addr == if i + 2 == |s.blocks| then s.blocks[i].addr else Last(s.blocks).addr
  {
    MergeTiled(s.blocks, i);
  }

  lemma AppendTiled(bs: seq<Block>, b: Block)
    requires Tiled(bs) && bs != [] && b.addr == Last(bs).Next()
    ensures Tiled(bs + [b])
  {
    forall k: nat | k + 1 < |bs + [b]|
      ensures Linked(bs + [b], k)
    {
      if k + 1 < |bs| { assert Linked(bs, k); }
    }
  }

  // ---- the three operations

  /** The state the allocator keeps: the blocks from `start` to `end` (none before the first
      request) and `heap_end`. */
  datatype State = State(blocks: seq<Block>, heapEnd: nat)

  predicate Fits(b: Block, size: nat) { !b.used && size <= b.size }

  /** Index of the first block that fits, or |bs|. */
  function FirstFit(bs: seq<Block>, size: nat): (i: nat)
    ensures i <= |bs|
    ensures i < |bs| ==> Fits(bs[i], size)
    ensures forall k :: 0 <= k < i ==> !Fits(bs[k], size)
  {
    if bs == [] then 0 else if Fits(bs[0], size) then 0 else FirstFit(bs[1..], size) + 1
  }

  /** malloc(size): the new state and the pointer returned (0 is NULL). heapStart is the
      address of the first page the kernel hands out. */
  function Malloc(s: State, heapStart: nat, size: nat): (State, nat) {
    if size == 0 then (s, 0)
    else if s.blocks == [] then
      var b := Block(heapStart, size, true);
      (State([b], heapStart + PAGE_SIZE * NumPages(heapStart, b.Next())), b.Payload())
    else
      var i := FirstFit(s.blocks, size);
      if i < |s.blocks| then
        (State(Take(s.blocks, i, size), s.heapEnd), s.blocks[i].Payload())
      else
        var b := Block(Last(s.blocks).Next(), size, true);
        var heapEnd := if b.Next() > s.heapEnd then s.heapEnd + NumPages(b.addr, b.Next()) * PAGE_SIZE else s.heapEnd;
        (State(s.blocks + [b], heapEnd), b.Payload())
  }

  /** Index of the block with this payload address, or |bs|. */
  function IndexOf(bs: seq<Block>, ptr: nat): (i: nat)
    ensures i <= |bs|
    ensures i < |bs| ==> bs[i].Payload() == ptr
    ensures forall k :: 0 <= k < i ==> bs[k].Payload() != ptr
  {
    if bs == [] then 0 else if bs[0].Payload() == ptr then 0 else IndexOf(bs[1..], ptr) + 1
  }

  function Release(bs: seq<Block>, i: nat): seq<Block>
    requires i < |bs|
  {
    bs[i := bs[i].(used := false)]
  }

  /** First merge of free: with the next block. */
  function MergeNext(bs: seq<Block>, i: nat): (cs: seq<Block>)
    requires i < |bs|
    ensures i < |cs|
  {
    if i + 1 < |bs| && !bs[i + 1].used then Merge(bs, i) else bs
  }

  /** Second merge of free: with the previous block. */
  function MergePrev(bs: seq<Block>, i: nat): seq<Block>
    requires i < |bs|
  {
    if 0 < i && !bs[i - 1].used then Merge(bs, i - 1) else bs
  }

  /** free(ptr) */
  function Free(s: State, ptr: nat): State {
    var i := IndexOf(s.blocks, ptr);
    if i == |s.blocks| || !s.blocks[i].used then s
    else s.(blocks := MergePrev(MergeNext(Release(s.blocks, i), i), i))
  }

  /** Where malloc_pages starts laying out: NEXT_BLOCK(end), or the first page of a new heap. */
  function GapStart(s: State, heapStart: nat): nat {
    if s.blocks == [] then heapStart else Last(s.blocks).Next()
  }

  /** heap_end once malloc_pages has made room for one header. */
  function GapEnd(s: State, heapStart: nat): nat {
    var heapEnd := if s.blocks == [] then heapStart + PAGE_SIZE else s.heapEnd;
    if heapEnd - GapStart(s, heapStart) < HEADER then heapEnd + PAGE_SIZE else heapEnd
  }

  /** The gap is wide enough for a free block in front of the page-aligned one. */
  predicate RoomyGap(s: State, heapStart: nat) {
    GapEnd(s, heapStart) - GapStart(s, heapStart) >= MIN_GAP
  }

  /** What malloc_pages comes to: a pointer; a pointer after a filler was laid from a size word
      found in unused memory, with no promise about the heap; or a write outside the heap, of the
      filler's trailer or of the new block's header. */
  datatype PagesOutcome = Pointer(ptr: nat) | Loose(ptr: nat) | Stray(addr: nat) | Lost(addr: nat)

  /** malloc_pages(pages) when it does not go astray: the rest of the current page becomes a
      free block whose successor's payload starts on the page boundary. */
  function MallocPages(s: State, heapStart: nat, pages: nat): (State, nat)
    requires pages == 0 || RoomyGap(s, heapStart)
  {
    if pages == 0 then (s, 0)
    else
      var gapStart, gapEnd := GapStart(s, heapStart), GapEnd(s, heapStart);
      var filler := Block(gapStart, gapEnd - gapStart - 2 * HEADER - TRAILER, false);
      var b := Block(gapEnd - HEADER, PAGE_SIZE * pages, true);
      (State(s.blocks + [filler, b], gapEnd + PAGE_SIZE * (pages + 1)), b.Payload())
  }

  // ---- what every reachable state satisfies

  ghost predicate Inv(s: State, heapStart: nat) {
    && 0 < heapStart && heapStart % PAGE_SIZE == 0
    && Tiled(s.blocks)
    && s.heapEnd % PAGE_SIZE == 0
    && (s.blocks == [] ==> s.heapEnd == 0)
    && (s.blocks != [] ==> s.blocks[0].addr == heapStart && Last(s.blocks).Next() <= s.heapEnd)
  }

  lemma GrowthCovers(addr: nat, next: nat, heapEnd: nat)
    requires addr <= heapEnd && addr <= next && heapEnd % PAGE_SIZE == 0
    ensures next <= heapEnd + NumPages(addr, next) * PAGE_SIZE
    ensures (heapEnd + NumPages(addr, next) * PAGE_SIZE) % PAGE_SIZE == 0
  {
  }

  lemma MallocAppends(s: State, heapStart: nat, size: nat)
    requires s.blocks != [] && size > 0 && FirstFit(s.blocks, size) == |s.blocks|
    ensures var b := Block(Last(s.blocks).Next(), size, true);
      Malloc(s, heapStart, size) ==
      (State(s.blocks + [b],
             if b.Next() > s.heapEnd then s.heapEnd + NumPages(b.addr, b.Next()) * PAGE_SIZE else s.heapEnd),
       b.Payload())
  {
  }

  lemma MallocKeepsInv(s: State, heapStart: nat, size: nat)
    requires Inv(s, heapStart)
    ensures Inv(Malloc(s, heapStart, size).0, heapStart)
    ensures s.heapEnd <= Malloc(s, heapStart, size).0.heapEnd
  {
    if size > 0 && s.blocks == [] {
      GrowthCovers(heapStart, heapStart + OVERHEAD + size, heapStart);
    } else if size > 0 {
      var i := FirstFit(s.blocks, size);
      if i < |s.blocks| {
        TakeTiled(s.blocks, i, size);
      } else {
        var b := Block(Last(s.blocks).Next(), size, true);
        AppendTiled(s.blocks, b);
        GrowthCovers(b.addr, b.Next(), s.heapEnd);
      }
    }
  }

  lemma ReleaseTiled(bs: seq<Block>, i: nat)
    requires Tiled(bs) && i < |bs|
    ensures Tiled(Release(bs, i))
  {
    forall k: nat | k + 1 < |bs|
      ensures Linked(Release(bs, i), k)
    {
      assert Linked(bs, k);
    }
  }

  lemma MergeNextTiled(bs: seq<Block>, i: nat)
    requires Tiled(bs) && i < |bs|
    ensures Tiled(MergeNext(bs, i))
    ensures MergeNext(bs, i)[0].addr == bs[0].addr
    ensures Last(MergeNext(bs, i)).Next() == Last(bs).Next()
  {
    if i + 1 < |bs| && !bs[i + 1].used { MergeTiled(bs, i); }
  }

  lemma MergePrevTiled(bs: seq<Block>, i: nat)
    requires Tiled(bs) && i < |bs|
    ensures Tiled(MergePrev(bs, i)) && MergePrev(bs, i) != []
    ensures MergePrev(bs, i)[0].addr == bs[0].addr
    ensures Last(MergePrev(bs, i)).Next() == Last(bs).Next()
  {
    if 0 < i && !bs[i - 1].used { MergeTiled(bs, i - 1); }
  }

  lemma FreeKeepsInv(s: State, heapStart: nat, ptr: nat)
    requires Inv(s, heapStart)
    ensures Inv(Free(s, ptr), heapStart)
  {
    var i := IndexOf(s.blocks, ptr);
    if i < |s.blocks| && s.blocks[i].used {
      ReleaseTiled(s.blocks, i);
      MergeNextTiled(Release(s.blocks, i), i);
      MergePrevTiled(MergeNext(Release(s.blocks, i), i), i);
    }
  }

  lemma MallocPagesKeepsInv(s: State, heapStart: nat, pages: nat)
    requires Inv(s, heapStart) && (pages == 0 || RoomyGap(s, heapStart))
    ensures Inv(MallocPages(s, heapStart, pages).0, heapStart)
  {
    if pages > 0 {
      var gapStart, gapEnd := GapStart(s, heapStart), GapEnd(s, heapStart);
      TwoMoreTiled(s.blocks, Block(gapStart, gapEnd - gapStart - 2 * HEADER - TRAILER, false),
                   Block(gapEnd - HEADER, PAGE_SIZE * pages, true));
      WholePages(gapEnd, pages);
    }
  }

  lemma TwoMoreTiled(bs: seq<Block>, b: Block, c: Block)
    requires Tiled(bs) && (bs != [] ==> b.addr == Last(bs).Next()) && c.addr == b.Next()
    ensures Tiled(bs + [b, c])
  {
    if bs != [] { AppendTiled(bs, b); }
    AppendTiled(bs + [b], c);
    assert bs + [b] + [c] == bs + [b, c];
  }

  lemma WholePages(gapEnd: nat, pages: nat)
    requires gapEnd % PAGE_SIZE == 0
    ensures (gapEnd + PAGE_SIZE * (pages + 1)) % PAGE_SIZE == 0
  {
  }

  // ---- live blocks

  ghost function Live(bs: seq<Block>): set<Block> {
    set b | b in bs && b.used
  }

  ghost predicate Disjoint(a: Block, b: Block) {
    a.Next() <= b.addr || b.Next() <= a.addr
  }

  lemma BlocksDisjoint(bs: seq<Block>, a: Block, b: Block)
    requires Tiled(bs) && a in bs && b in bs && a != b
    ensures Disjoint(a, b)
  {
    TiledOrderAll(bs);
  }

  lemma LiveConcat(bs: seq<Block>, cs: seq<Block>)
    ensures Live(bs + cs) == Live(bs) + Live(cs)
  {
  }

  lemma LiveAt(bs: seq<Block>, i: nat)
    requires i < |bs|
    ensures Live(bs) == Live(bs[..i]) + (if bs[i].used then {bs[i]} else {}) + Live(bs[i + 1..])
  {
  }

  lemma UniqueAddresses(bs: seq<Block>, i: nat, j: nat)
    requires Tiled(bs) && i < |bs| && j < |bs| && bs[i].addr == bs[j].addr
    ensures i == j
  {
    TiledOrderAll(bs);
  }

  lemma TakeLive(bs: seq<Block>, i: nat, size: nat)
    requires Tiled(bs) && i < |bs| && Fits(bs[i], size)
    ensures var b := Take(bs, i, size)[i];
      b.addr == bs[i].addr && size <= b.size && b.used && Live(Take(bs, i, size)) == Live(bs) + {b}
  {
  }

  /** malloc(size) adds exactly one live block, which starts at the pointer returned, holds at
      least `size` bytes of mapped memory and overlaps no block that was live. */
  lemma MallocAddsOneLiveBlock(s: State, heapStart: nat, size: nat) returns (b: Block)
    requires Inv(s, heapStart) && size > 0
    ensures var (t, ptr) := Malloc(s, heapStart, size);
      && b.Payload() == ptr && size <= b.size && b.Next() <= t.heapEnd
      && b !in Live(s.blocks) && Live(t.blocks) == Live(s.blocks) + {b}
      && forall a :: a in Live(s.blocks) ==> Disjoint(a, b)
  {
    var (t, ptr) := Malloc(s, heapStart, size);
    MallocKeepsInv(s, heapStart, size);
    var i := FirstFit(s.blocks, size);
    b := t.blocks[i];
    if i < |s.blocks| {
      TakeLive(s.blocks, i, size);
    } else {
      LiveConcat(s.blocks, [b]);
    }
    NewBlockApart(s.blocks, t.blocks, i);
    TiledOrderAll(t.blocks);
  }

  lemma NewBlockApart(bs: seq<Block>, cs: seq<Block>, i: nat)
    requires Tiled(bs) && Tiled(cs) && i < |cs| && i <= |bs| && Live(cs) == Live(bs) + {cs[i]}
    requires if i < |bs| then !bs[i].used && cs[i].addr == bs[i].addr else bs != [] ==> cs[i].addr == Last(bs).Next()
    ensures cs[i] !in Live(bs)
    ensures forall a :: a in Live(bs) ==> Disjoint(a, cs[i])
  {
    TiledOrderAll(bs);
    if cs[i] in Live(bs) {
      var j: nat :| j < |bs| && bs[j] == cs[i];
      if i < |bs| { UniqueAddresses(bs, i, j); }
    }
    forall a | a in Live(bs)
      ensures Disjoint(a, cs[i])
    {
      assert a in Live(cs);
      BlocksDisjoint(cs, a, cs[i]);
    }
  }

  lemma MergeLive(bs: seq<Block>, i: nat)
    requires i + 1 < |bs| && !bs[i].used && !bs[i + 1].used
    ensures Live(Merge(bs, i)) == Live(bs)
  {
  }

  lemma ReleaseLive(bs: seq<Block>, i: nat)
    requires Tiled(bs) && i < |bs| && bs[i].used
    ensures Live(Release(bs, i)) == Live(bs) - {bs[i]}
  {
    var cs := Release(bs, i);
    LiveAt(bs, i);
    LiveAt(cs, i);
    assert cs[..i] == bs[..i] && cs[i + 1..] == bs[i + 1..];
    TiledOrderAll(bs);
  }

  lemma FreeLive(bs: seq<Block>, i: nat)
    requires i < |bs| && bs[i].used
    ensures Live(MergeNext(Release(bs, i), i)) == Live(Release(bs, i))
    ensures Live(MergePrev(MergeNext(Release(bs, i), i), i)) == Live(Release(bs, i))
  {
    var cs := Release(bs, i);
    if i + 1 < |cs| && !cs[i + 1].used { MergeLive(cs, i); }
    var ds := MergeNext(cs, i);
    if 0 < i && !ds[i - 1].used { MergeLive(ds, i - 1); }
  }

  /** free(ptr) ends the life of the block at ptr and of no other. */
  lemma FreeRemovesOneLiveBlock(s: State, heapStart: nat, ptr: nat)
    requires Inv(s, heapStart)
    ensures Live(Free(s, ptr).blocks) == set b | b in Live(s.blocks) && b.Payload() != ptr
  {
    var i := IndexOf(s.blocks, ptr);
    if i < |s.blocks| {
      forall b | b in s.blocks && b.Payload() == ptr
        ensures b == s.blocks[i]
      {
        var j: nat :| j < |s.blocks| && s.blocks[j] == b;
        UniqueAddresses(s.blocks, i, j);
      }
      if s.blocks[i].used {
        ReleaseLive(s.blocks, i);
        FreeLive(s.blocks, i);
      }
    }
  }

  /** malloc_pages(pages) adds one live block of whole pages whose payload starts on a page
      boundary; it overlaps no block that was live. */
  lemma MallocPagesAddsAlignedBlock(s: State, heapStart: nat, pages: nat) returns (b: Block)
    requires Inv(s, heapStart) && pages > 0 && RoomyGap(s, heapStart)
    ensures var (t, ptr) := MallocPages(s, heapStart, pages);
      && b.Payload() == ptr && ptr % PAGE_SIZE == 0 && b.size == pages * PAGE_SIZE && b.Next() <= t.heapEnd
      && b !in Live(s.blocks) && Live(t.blocks) == Live(s.blocks) + {b}
      && forall a :: a in Live(s.blocks) ==> a.Next() <= b.addr
  {
    var gapStart, gapEnd := GapStart(s, heapStart), GapEnd(s, heapStart);
    var filler := Block(gapStart, gapEnd - gapStart - 2 * HEADER - TRAILER, false);
    b := Block(gapEnd - HEADER, PAGE_SIZE * pages, true);
    LiveAppendPages(s.blocks, filler, b);
    forall a | a in Live(s.blocks)
      ensures a.Next() <= gapStart < b.addr
    {
      var j: nat :| j < |s.blocks| && s.blocks[j] == a;
      if j < |s.blocks| - 1 { TiledOrder(s.blocks, j, |s.blocks| - 1); }
    }
  }

  lemma LiveAppendPages(bs: seq<Block>, filler: Block, b: Block)
    requires !filler.used && b.used
    ensures Live(bs + [filler, b]) == Live(bs) + {b}
  {
    LiveConcat(bs, [filler, b]);
    assert [filler, b][0] == filler && [filler, b][1] == b;
  }

  // ---- the branch of malloc_pages for a gap of 5 to 17 bytes

  /** The size of the filler: `stale` is the size word found in the unused memory. */
  function FillerSize(gap: nat, stale: uint32): uint32
    requires HEADER <= gap
  {
    (stale + (gap - HEADER)) % LIMIT
  }

  /** What the size word reads once the trailer is written at the end of the filler: for a size
      just below 2^32 the trailer overlaps the size word. */
  function SizeReadBack(size: uint32): uint32 {
    if LIMIT - 7 <= size <= LIMIT - 5 then LIMIT - 1
    else if size == LIMIT - 3 then size - 0x200
    else if size == LIMIT - 2 then size - 0x1_0000
    else size
  }

  /** The address of the block malloc_pages returns: NEXT_BLOCK of the filler. */
  function PagesBlock(gapStart: nat, gapEnd: nat, stale: uint32): nat
    requires gapStart + HEADER <= gapEnd
  {
    if gapEnd - gapStart >= MIN_GAP then gapEnd - HEADER
    else (gapStart + OVERHEAD + SizeReadBack(FillerSize(gapEnd - gapStart, stale))) % LIMIT
  }

  /** Where that branch writes the trailer of the filler. */
  function StrayTrailer(gapEnd: nat, stale: uint32): nat {
    (gapEnd + stale) % LIMIT
  }

  /** malloc_pages(pages) on a gap of 5 to 17 bytes that holds the size word `stale`. */
  function ShortOutcome(heapStart: nat, gapStart: nat, gapEnd: nat, pages: nat, stale: uint32): PagesOutcome
    requires gapStart + HEADER <= gapEnd
  {
    var trailer, b := StrayTrailer(gapEnd, stale), PagesBlock(gapStart, gapEnd, stale);
    if trailer < heapStart || gapEnd < trailer + TRAILER then Stray(trailer)
    else if heapStart <= b && b + OVERHEAD + PAGE_SIZE * pages <= gapEnd + PAGE_SIZE * (pages + 1)
    then Loose(b + HEADER)
    else Lost(b)
  }

  lemma ShortOutcomeInside(heapStart: nat, gapStart: nat, gapEnd: nat, pages: nat, stale: uint32)
    requires HEADER <= gapEnd - gapStart < MIN_GAP
    requires heapStart <= StrayTrailer(gapEnd, stale) && StrayTrailer(gapEnd, stale) + TRAILER <= gapEnd
    ensures var b := (gapStart + OVERHEAD + SizeReadBack(FillerSize(gapEnd - gapStart, stale))) % LIMIT;
      ShortOutcome(heapStart, gapStart, gapEnd, pages, stale) ==
      if heapStart <= b && b + OVERHEAD + PAGE_SIZE * pages <= gapEnd + PAGE_SIZE * (pages + 1) then Loose(b + HEADER)
      else Lost(b)
  {
  }

  /** malloc_pages(pages), where `stale` is the size word in the gap. */
  function Outcome(s: State, heapStart: nat, pages: nat, stale: uint32): PagesOutcome
    requires Inv(s, heapStart)
  {
    if pages == 0 then Pointer(0)
    else if RoomyGap(s, heapStart) then Pointer(MallocPages(s, heapStart, pages).1)
    else ShortOutcome(heapStart, GapStart(s, heapStart), GapEnd(s, heapStart), pages, stale)
  }

  /** The size words with which the short-gap branch ends on a page boundary. */
  predicate LuckySize(gap: nat, stale: uint32)
    requires HEADER <= gap
  {
    var size := FillerSize(gap, stale);
    if LIMIT - 7 <= size <= LIMIT - 5 then gap == 13 else size != LIMIT - 3 && stale % PAGE_SIZE == 4087
  }

  /** 2^32 is a multiple of the page size. */
  lemma WrapKeepsOffset(a: nat)
    ensures a == a % LIMIT + PAGE_SIZE * (a / LIMIT * FRAMES)
  {
  }

  /** The new payload, but for wrapping, is this far from the end of the gap. */
  lemma PayloadOffset(gapStart: nat, gapEnd: nat, size: uint32)
    requires gapStart <= gapEnd < gapStart + MIN_GAP && gapEnd % PAGE_SIZE == 0
    ensures ((gapStart + OVERHEAD + SizeReadBack(size)) % LIMIT + HEADER) % PAGE_SIZE == 0
       <==> (SizeReadBack(size) - (gapEnd - gapStart) + OVERHEAD + HEADER) % PAGE_SIZE == 0
  {
    var a := gapStart + OVERHEAD + SizeReadBack(size);
    WrapKeepsOffset(a);
    SameOffset(a % LIMIT + HEADER, a + HEADER, a / LIMIT * FRAMES);
    SameOffset(SizeReadBack(size) - (gapEnd - gapStart) + OVERHEAD + HEADER, a + HEADER, gapEnd / PAGE_SIZE);
  }

  lemma SameOffset(a: int, b: int, pages: nat)
    requires b == a + PAGE_SIZE * pages
    ensures a % PAGE_SIZE == b % PAGE_SIZE
  {
  }

  lemma PagesAlignedIff(gapStart: nat, gapEnd: nat, stale: uint32)
    requires gapStart + HEADER <= gapEnd < LIMIT && gapEnd % PAGE_SIZE == 0
    ensures (PagesBlock(gapStart, gapEnd, stale) + HEADER) % PAGE_SIZE == 0
       <==> (gapEnd - gapStart >= MIN_GAP || LuckySize(gapEnd - gapStart, stale))
  {
    var gap := gapEnd - gapStart;
    if gap < MIN_GAP {
      PayloadOffset(gapStart, gapEnd, FillerSize(gap, stale));
      LuckyOffset(gap, stale);
    }
  }

  lemma LuckyOffset(gap: nat, stale: uint32)
    requires HEADER <= gap < MIN_GAP
    ensures (SizeReadBack(FillerSize(gap, stale)) - gap + OVERHEAD + HEADER) % PAGE_SIZE == 0 <==> LuckySize(gap, stale)
  {
    var size := FillerSize(gap, stale);
    var sum := stale + (gap - HEADER);
    if sum < LIMIT {
      assert size == sum;
    } else {
      assert size == sum - LIMIT;
      assert (size - gap + OVERHEAD + HEADER) == stale + OVERHEAD - PAGE_SIZE * FRAMES;
    }
  }

  /** malloc_pages returns a page-aligned pointer whatever the unused memory holds exactly when
      the gap has room for a block. */
  lemma PagesAlwaysAlignedIff(s: State, heapStart: nat, pages: nat)
    requires Inv(s, heapStart) && pages > 0 && GapEnd(s, heapStart) < LIMIT
    ensures (forall stale: uint32 :: AlignedOutcome(s, heapStart, pages, stale)) <==> RoomyGap(s, heapStart)
  {
    if RoomyGap(s, heapStart) {
      var b := MallocPagesAddsAlignedBlock(s, heapStart, pages);
    } else {
      assert Outcome(s, heapStart, pages, 0) == Stray(GapEnd(s, heapStart));
      assert !AlignedOutcome(s, heapStart, pages, 0);
    }
  }

  predicate AlignedOutcome(s: State, heapStart: nat, pages: nat, stale: uint32)
    requires Inv(s, heapStart)
  {
    var r := Outcome(s, heapStart, pages, stale);
    (r.Pointer? || r.Loose?) && r.ptr % PAGE_SIZE == 0
  }

  lemma StrayTrailerAddress(gapStart: nat, gapEnd: nat, stale: uint32)
    requires gapStart + HEADER <= gapEnd < gapStart + MIN_GAP
    ensures StrayTrailer(gapEnd, stale) == (gapStart + HEADER + FillerSize(gapEnd - gapStart, stale)) % LIMIT
  {
  }

  /** In that branch the trailer of the filler is written at or above heap_end, in memory that
      is not mapped yet, unless the 32-bit sum wraps round to lower memory. */
  lemma StrayTrailerUnmappedIff(gapEnd: nat, stale: uint32)
    requires gapEnd < LIMIT
    ensures gapEnd <= StrayTrailer(gapEnd, stale) <==> gapEnd + stale < LIMIT
  {
  }

  /** malloc(4077) on a new heap leaves a gap of ten bytes: a following malloc_pages(1) writes the
      filler's trailer beyond heap_end, unless the size word it finds makes the sum wrap. */
  lemma TenByteGapGoesAstray(heapStart: nat, stale: uint32)
    requires 0 < heapStart && heapStart % PAGE_SIZE == 0 && heapStart + PAGE_SIZE + stale < LIMIT
    ensures var s := Malloc(State([], 0), heapStart, 4077).0;
      && Inv(s, heapStart) && GapEnd(s, heapStart) - GapStart(s, heapStart) == 10
      && Outcome(s, heapStart, 1, stale) == Stray(s.heapEnd + stale)
  {
    MallocKeepsInv(State([], 0), heapStart, 4077);
  }

  // ---- coalescing

  ghost predicate NoFreePair(bs: seq<Block>, i: nat)
    requires i + 1 < |bs|
  {
    bs[i].used || bs[i + 1].used
  }

  /** No two neighbours are both free. */
  ghost predicate Coalesced(bs: seq<Block>) {
    forall i: nat | i + 1 < |bs| :: NoFreePair(bs, i)
  }

  lemma MallocKeepsCoalesced(s: State, heapStart: nat, size: nat)
    requires Coalesced(s.blocks)
    ensures Coalesced(Malloc(s, heapStart, size).0.blocks)
  {
    var t := Malloc(s, heapStart, size).0;
    var i := FirstFit(s.blocks, size);
    forall k: nat | k + 1 < |t.blocks|
      ensures NoFreePair(t.blocks, k)
    {
      if k + 1 < |s.blocks| { assert NoFreePair(s.blocks, k); }
      if 0 < k <= |s.blocks| - 1 { assert NoFreePair(s.blocks, k - 1); }
    }
  }

  /** Merging every run of free neighbours in one pass over the whole list. */
  function Coalesce(bs: seq<Block>): (cs: seq<Block>)
    ensures bs != [] ==> cs != [] && cs[0].addr == bs[0].addr && cs[0].used == bs[0].used
  {
    if bs == [] then []
    else Join(bs[0], Coalesce(bs[1..]))
  }

  /** Block b in front of others, joined with the first of them if both are free. */
  function Join(b: Block, cs: seq<Block>): seq<Block> {
    if cs != [] && !b.used && !cs[0].used then
      [Block(b.addr, b.size + OVERHEAD + cs[0].size, false)] + cs[1..]
    else [b] + cs
  }

  lemma {:induction false} CoalesceYieldsCoalesced(bs: seq<Block>)
    ensures Coalesced(Coalesce(bs))
  {
    if bs != [] {
      CoalesceYieldsCoalesced(bs[1..]);
      var cs, ds := Coalesce(bs[1..]), Coalesce(bs);
      forall k: nat | k + 1 < |ds|
        ensures NoFreePair(ds, k)
      {
        if 0 < |cs| && !bs[0].used && !cs[0].used { assert NoFreePair(cs, k); }
        else if 0 < k { assert NoFreePair(cs, k - 1); }
      }
    }
  }

  lemma CoalescedTail(bs: seq<Block>)
    requires Coalesced(bs) && bs != []
    ensures Coalesced(bs[1..])
    ensures |bs| > 1 ==> bs[0].used || bs[1].used
  {
    if |bs| > 1 { assert NoFreePair(bs, 0); }
    forall k: nat | k + 1 < |bs[1..]|
      ensures NoFreePair(bs[1..], k)
    {
      assert NoFreePair(bs, k + 1);
    }
  }

  lemma {:induction false} CoalesceIsIdentity(bs: seq<Block>)
    requires Coalesced(bs)
    ensures Coalesce(bs) == bs
  {
    if bs != [] {
      CoalescedTail(bs);
      CoalesceIsIdentity(bs[1..]);
    }
  }

  lemma MergeTail(bs: seq<Block>, i: nat)
    requires 0 < i && i + 1 < |bs|
    ensures Merge(bs, i) == [bs[0]] + Merge(bs[1..], i - 1)
  {
    assert bs[..i] == [bs[0]] + bs[1..][..i - 1];
    assert bs[i + 2..] == bs[1..][i + 1..];
    var b := Block(bs[i].addr, bs[i].size + OVERHEAD + bs[i + 1].size, false);
    assert [bs[0]] + bs[1..][..i - 1] + [b] + bs[i + 2..] == [bs[0]] + (bs[1..][..i - 1] + [b] + bs[i + 2..]);
  }

  lemma MergeNextTail(bs: seq<Block>, i: nat)
    requires 0 < i < |bs|
    ensures MergeNext(bs, i) == [bs[0]] + MergeNext(bs[1..], i - 1)
  {
    if i + 1 < |bs| && !bs[i + 1].used { MergeTail(bs, i); }
  }

  lemma MergePrevTail(bs: seq<Block>, i: nat)
    requires 1 < i < |bs|
    ensures MergePrev(bs, i) == [bs[0]] + MergePrev(bs[1..], i - 1)
    ensures MergePrev(bs[1..], i - 1) != [] && MergePrev(bs[1..], i - 1)[0].used == bs[1].used
  {
    if !bs[i - 1].used { MergeTail(bs, i - 1); }
  }

  /** The two local merges of free do what a pass over the whole list would. */
  lemma {:induction false} FreeCoalesces(bs: seq<Block>, i: nat)
    requires Coalesced(bs) && i < |bs| && bs[i].used
    ensures MergePrev(MergeNext(Release(bs, i), i), i) == Coalesce(Release(bs, i))
  {
    CoalescedTail(bs);
    if i == 0 {
      FirstCoalesces(bs);
    } else {
      FreeCoalesces(bs[1..], i - 1);
      TailCoalesces(bs, i);
    }
  }

  lemma FirstCoalesces(bs: seq<Block>)
    requires bs != [] && Coalesced(bs[1..])
    ensures MergePrev(MergeNext(Release(bs, 0), 0), 0) == Coalesce(Release(bs, 0))
  {
    assert Release(bs, 0)[1..] == bs[1..];
    CoalesceIsIdentity(bs[1..]);
  }

  lemma TailCoalesces(bs: seq<Block>, i: nat)
    requires 0 < i < |bs| && (bs[0].used || bs[1].used)
    requires MergePrev(MergeNext(Release(bs[1..], i - 1), i - 1), i - 1) == Coalesce(Release(bs[1..], i - 1))
    ensures MergePrev(MergeNext(Release(bs, i), i), i) == Coalesce(Release(bs, i))
  {
    assert Release(bs, i)[1..] == Release(bs[1..], i - 1);
    MergesTail(Release(bs, i), i);
  }

  /** The merges behind the first block leave it, unless the previous block is the first. */
  lemma MergesTail(cs: seq<Block>, i: nat)
    requires 0 < i < |cs| && !cs[i].used && (i > 1 ==> cs[0].used || cs[1].used)
    requires MergePrev(MergeNext(cs[1..], i - 1), i - 1) == Coalesce(cs[1..])
    ensures MergePrev(MergeNext(cs, i), i) == Coalesce(cs)
  {
    MergeNextTail(cs, i);
    MergeNextKeepsFirst(cs[1..], i - 1);
    PrevTail(cs[0], MergeNext(cs[1..], i - 1), i);
  }

  lemma MergeNextKeepsFirst(bs: seq<Block>, i: nat)
    requires i < |bs| && !bs[i].used
    ensures i < |MergeNext(bs, i)| && MergeNext(bs, i)[0].used == bs[0].used
  {
  }

  lemma PrevTail(b: Block, tail: seq<Block>, i: nat)
    requires 0 < i <= |tail| && if i > 1 then b.used || tail[0].used else !tail[0].used
    ensures MergePrev([b] + tail, i) == Join(b, MergePrev(tail, i - 1))
  {
    if i == 1 {
      MergeFirst(b, tail, [b] + tail);
    } else {
      MergeLater(b, tail, i);
    }
  }

  lemma MergeLater(b: Block, tail: seq<Block>, i: nat)
    requires 1 < i <= |tail| && (b.used || tail[0].used)
    ensures var rest := MergePrev(tail, i - 1);
      MergePrev([b] + tail, i) == [b] + rest && rest != [] && (b.used || rest[0].used)
  {
    var ds := [b] + tail;
    assert ds[1..] == tail;
    MergePrevTail(ds, i);
  }

  lemma MergeFirst(b: Block, tail: seq<Block>, ds: seq<Block>)
    requires ds == [b] + tail && tail != []
    ensures MergePrev(ds, 1) ==
            if b.used then ds else [Block(b.addr, b.size + OVERHEAD + tail[0].size, false)] + tail[1..]
  {
    assert ds[2..] == tail[1..];
  }

  lemma FreeKeepsCoalesced(s: State, ptr: nat)
    requires Coalesced(s.blocks)
    ensures Coalesced(Free(s, ptr).blocks)
  {
    var i := IndexOf(s.blocks, ptr);
    if i < |s.blocks| && s.blocks[i].used {
      FreeCoalesces(s.blocks, i);
      CoalesceYieldsCoalesced(Release(s.blocks, i));
    }
  }

  /** malloc_pages puts a free filler after the last block: the list stays coalesced exactly
      when that block is in use. */
  lemma MallocPagesCoalescedIff(s: State, heapStart: nat, pages: nat)
    requires Coalesced(s.blocks) && pages > 0 && RoomyGap(s, heapStart)
    ensures Coalesced(MallocPages(s, heapStart, pages).0.blocks) <==> (s.blocks == [] || Last(s.blocks).used)
  {
    var bs, cs := s.blocks, MallocPages(s, heapStart, pages).0.blocks;
    if bs != [] && !Last(bs).used {
      assert !NoFreePair(cs, |bs| - 1);
    }
    if bs == [] || Last(bs).used {
      forall k: nat | k + 1 < |cs|
        ensures NoFreePair(cs, k)
      {
        if k + 1 < |bs| { assert NoFreePair(bs, k); }
      }
    }
  }

  // ---- the requests of fork

  const RECORD: nat := 4100   // sizeof(process_memory_t) and sizeof(process_page_table_t)

  /** The bytes between the last block and heap_end. */
  function Gap(s: State): int
    requires s.blocks != []
  {
    s.heapEnd - Last(s.blocks).Next()
  }

  /** The last block is in use and the gap behind it what malloc_pages leaves. */
  predicate AfterPages(s: State) { s.blocks != [] && Last(s.blocks).used && Gap(s) == 4092 }

  lemma MallocPagesLeavesGap(s: State, heapStart: nat, pages: nat)
    requires pages > 0 && RoomyGap(s, heapStart)
    ensures AfterPages(MallocPages(s, heapStart, pages).0)
  {
  }

  /** After malloc_pages a record of fork leaves a gap with room for a block: it is put into an
      earlier free block, or behind the last one, where the heap grows by two pages. */
  lemma RecordLeavesRoom(s: State, heapStart: nat)
    requires Inv(s, heapStart) && AfterPages(s)
    ensures RoomyGap(Malloc(s, heapStart, RECORD).0, heapStart)
    ensures Gap(Malloc(s, heapStart, RECORD).0) in {4092, 8175}
  {
    var i := FirstFit(s.blocks, RECORD);
    if i < |s.blocks| {
      TakeTiled(s.blocks, i, RECORD);
    } else {
      MallocAppends(s, heapStart, RECORD);
      TwoPages(Last(s.blocks).Next(), s.heapEnd);
    }
  }

  lemma TwoPages(addr: nat, heapEnd: nat)
    requires heapEnd % PAGE_SIZE == 0 && heapEnd - addr == 4092
    ensures NumPages(addr, addr + OVERHEAD + RECORD) == 2
  {
    var q := heapEnd / PAGE_SIZE;
    assert addr == PAGE_SIZE * (q - 1) + 4;
    Quotient(addr, PAGE_SIZE, q - 1, 4);
    Quotient(addr + OVERHEAD + RECORD, PAGE_SIZE, q, 17);
  }

  /** A record or a page grows the heap by at most three pages. */
  lemma RequestGrowth(s: State, heapStart: nat, size: nat)
    requires Inv(s, heapStart) && 0 < size <= RECORD
    ensures var heapEnd := if s.blocks == [] then heapStart else s.heapEnd;
      && heapEnd <= Malloc(s, heapStart, size).0.heapEnd <= heapEnd + 3 * PAGE_SIZE
      && (RoomyGap(s, heapStart) ==> heapEnd <= MallocPages(s, heapStart, 1).0.heapEnd <= heapEnd + 3 * PAGE_SIZE)
  {
    if s.blocks != [] && FirstFit(s.blocks, size) == |s.blocks| { MallocAppends(s, heapStart, size); }
  }

  // ---- runs

  datatype Request = AskBytes(size: nat) | AskPages(pages: nat) | GiveBack(ptr: nat)

  /** free takes NULL and the payloads of listed blocks. */
  predicate Freeable(s: State, ptr: nat) { ptr == 0 || IndexOf(s.blocks, ptr) < |s.blocks| }

  /** One request; None when malloc_pages meets a gap of 5 to 17 bytes or free another pointer. */
  function Serve(s: State, heapStart: nat, r: Request): Option<State> {
    match r
    case AskBytes(size) => Some(Malloc(s, heapStart, size).0)
    case GiveBack(ptr) => if Freeable(s, ptr) then Some(Free(s, ptr)) else None
    case AskPages(pages) =>
      if pages == 0 || RoomyGap(s, heapStart) then Some(MallocPages(s, heapStart, pages).0) else None
  }

  function Run(s: State, heapStart: nat, rs: seq<Request>): Option<State>
    decreases rs
  {
    if rs == [] then Some(s)
    else
      var t := Serve(s, heapStart, rs[0]);
      if t.None? then None else Run(t.value, heapStart, rs[1..])
  }

  /** Every run from any valid state keeps the tiling and its bound by heap_end. */
  lemma {:induction false} RunKeepsInv(s: State, heapStart: nat, rs: seq<Request>)
    requires Inv(s, heapStart) && Run(s, heapStart, rs).Some?
    ensures Inv(Run(s, heapStart, rs).value, heapStart)
    decreases rs
  {
    if rs != [] {
      match rs[0] {
        case AskBytes(size) => MallocKeepsInv(s, heapStart, size);
        case GiveBack(ptr) => FreeKeepsInv(s, heapStart, ptr);
        case AskPages(pages) => MallocPagesKeepsInv(s, heapStart, pages);
      }
      RunKeepsInv(Serve(s, heapStart, rs[0]).value, heapStart, rs[1..]);
    }
  }

  /** malloc(100), free of it and malloc_pages(1) on a new heap end with two free neighbours. */
  lemma FreeThenPagesLeavesFreePair(heapStart: nat)
    requires 0 < heapStart && heapStart % PAGE_SIZE == 0
    ensures var t := Run(State([], 0), heapStart, [AskBytes(100), GiveBack(heapStart + HEADER), AskPages(1)]);
      t.Some? && !Coalesced(t.value.blocks)
  {
    var b, ptr := Block(heapStart, 100, true), heapStart + HEADER;
    var rs := [AskBytes(100), GiveBack(ptr), AskPages(1)];
    var s := Malloc(State([], 0), heapStart, 100).0;
    assert s.blocks == [b] && IndexOf([b], ptr) == 0;
    var t := Free(s, ptr);
    assert t.blocks == [b.(used := false)] && RoomyGap(t, heapStart);
    var u := MallocPages(t, heapStart, 1).0;
    assert !NoFreePair(u.blocks, 0);
    assert rs[1..] == [GiveBack(ptr), AskPages(1)] && rs[1..][1..] == [AskPages(1)] && rs[1..][1..][1..] == [];
    assert Run(u, heapStart, []) == Some(u);
    assert Run(t, heapStart, [AskPages(1)]) == Some(u);
    assert Run(s, heapStart, rs[1..]) == Some(u);
  }

  ghost predicate BytesOnly(rs: seq<Request>) {
    forall r :: r in rs ==> !r.AskPages?
  }

  lemma {:induction false} RunKeepsCoalesced(s: State, heapStart: nat, rs: seq<Request>)
    requires Coalesced(s.blocks) && BytesOnly(rs) && Run(s, heapStart, rs).Some?
    ensures Coalesced(Run(s, heapStart, rs).value.blocks)
    decreases rs
  {
    if rs != [] {
      assert rs[0] in rs;
      match rs[0] {
        case AskBytes(size) => MallocKeepsCoalesced(s, heapStart, size);
        case GiveBack(ptr) => FreeKeepsCoalesced(s, ptr);
      }
      RunKeepsCoalesced(Serve(s, heapStart, rs[0]).value, heapStart, rs[1..]);
    }
  }

  lemma {:induction false} RunSplit(s: State, heapStart: nat, rs: seq<Request>, qs: seq<Request>)
    requires Run(s, heapStart, rs).Some?
    ensures Run(s, heapStart, rs + qs) == Run(Run(s, heapStart, rs).value, heapStart, qs)
    decreases rs
  {
    if rs == [] {
      assert rs + qs == qs;
    } else {
      assert (rs + qs)[1..] == rs[1..] + qs;
      RunSplit(Serve(s, heapStart, rs[0]).value, heapStart, rs[1..], qs);
    }
  }

  function Frees(ptrs: seq<nat>): (rs: seq<Request>)
    ensures |rs| == |ptrs| && forall k :: 0 <= k < |rs| ==> rs[k] == GiveBack(ptrs[k])
  {
    seq(|ptrs|, k requires 0 <= k < |ptrs| => GiveBack(ptrs[k]))
  }

  ghost predicate HasPayload(live: set<Block>, ptr: nat) { exists b :: b in live && b.Payload() == ptr }

  /** The pointers are the payloads of the live blocks, each once, in some order. */
  ghost predicate Enumerates(ptrs: seq<nat>, live: set<Block>) {
    && (forall i, j :: 0 <= i < j < |ptrs| ==> ptrs[i] != ptrs[j])
    && (forall b :: b in live ==> b.Payload() in ptrs)
    && (forall i :: 0 <= i < |ptrs| ==> HasPayload(live, ptrs[i]))
  }

  lemma EnumeratesRest(ptrs: seq<nat>, live: set<Block>, left: set<Block>)
    requires ptrs != [] && Enumerates(ptrs, live) && left == set b | b in live && b.Payload() != ptrs[0]
    ensures Enumerates(ptrs[1..], left)
  {
    assert forall i :: 0 <= i < |ptrs[1..]| ==> ptrs[1..][i] == ptrs[i + 1];
    forall b | b in left
      ensures b.Payload() in ptrs[1..]
    {
      var j: nat :| j < |ptrs| && ptrs[j] == b.Payload();
      assert ptrs[1..][j - 1] == b.Payload();
    }
    forall i | 0 <= i < |ptrs[1..]|
      ensures HasPayload(left, ptrs[1..][i])
    {
      assert HasPayload(live, ptrs[i + 1]);
      var c :| c in live && c.Payload() == ptrs[i + 1];
      assert c in left;
    }
  }

  /** Freeing the first of them leaves the others. */
  lemma FreeFirst(s: State, heapStart: nat, ptrs: seq<nat>)
    requires Inv(s, heapStart) && ptrs != [] && Enumerates(ptrs, Live(s.blocks))
    ensures Freeable(s, ptrs[0]) && Enumerates(ptrs[1..], Live(Free(s, ptrs[0]).blocks))
    ensures s.blocks != [] && Free(s, ptrs[0]).blocks != []
  {
    FreeRemovesOneLiveBlock(s, heapStart, ptrs[0]);
    FreeKeepsInv(s, heapStart, ptrs[0]);
    assert HasPayload(Live(s.blocks), ptrs[0]);
    var b :| b in Live(s.blocks) && b.Payload() == ptrs[0];
    EnumeratesRest(ptrs, Live(s.blocks), Live(Free(s, ptrs[0]).blocks));
  }

  lemma {:induction false} FreesEmptyTheHeap(s: State, heapStart: nat, ptrs: seq<nat>)
    requires Inv(s, heapStart) && Enumerates(ptrs, Live(s.blocks))
    ensures Run(s, heapStart, Frees(ptrs)).Some?
    ensures Live(Run(s, heapStart, Frees(ptrs)).value.blocks) == {}
    ensures s.blocks != [] ==> Run(s, heapStart, Frees(ptrs)).value.blocks != []
    decreases |ptrs|
  {
    if ptrs == [] {
      forall b | b in Live(s.blocks) ensures false {}
    } else {
      FreeFirst(s, heapStart, ptrs);
      FreeKeepsInv(s, heapStart, ptrs[0]);
      assert Frees(ptrs)[1..] == Frees(ptrs[1..]);
      FreesEmptyTheHeap(Free(s, ptrs[0]), heapStart, ptrs[1..]);
    }
  }

  lemma FreeNeighbours(bs: seq<Block>)
    requires |bs| > 1 && Live(bs) == {}
    ensures !Coalesced(bs)
  {
    assert bs[0] !in Live(bs) && bs[1] !in Live(bs);
    assert !NoFreePair(bs, 0);
  }

  /** After any run of malloc and free on a new heap, freeing the live blocks in any order
      leaves a single free block: `start` equals `end`. */
  lemma FreeingEverythingLeavesOneBlock(heapStart: nat, rs: seq<Request>, ptrs: seq<nat>)
    requires 0 < heapStart && heapStart % PAGE_SIZE == 0 && BytesOnly(rs)
    requires var s := Run(State([], 0), heapStart, rs);
      s.Some? && s.value.blocks != [] && Enumerates(ptrs, Live(s.value.blocks))
    ensures var t := Run(State([], 0), heapStart, rs + Frees(ptrs));
      t.Some? && |t.value.blocks| == 1 && !t.value.blocks[0].used
  {
    var s := Run(State([], 0), heapStart, rs).value;
    RunKeepsInv(State([], 0), heapStart, rs);
    RunSplit(State([], 0), heapStart, rs, Frees(ptrs));
    FreesEmptyTheHeap(s, heapStart, ptrs);
    RunKeepsCoalesced(State([], 0), heapStart, rs + Frees(ptrs));
    var bs := Run(State([], 0), heapStart, rs + Frees(ptrs)).value.blocks;
    assert bs[0] !in Live(bs);
    if |bs| > 1 { FreeNeighbours(bs); }
  }
}
