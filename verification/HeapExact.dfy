/** The allocator in numbers (libc/stdlib/dynamic_allocation.c): which blocks malloc, malloc_pages and
    free leave, to the byte, and where every byte of the heap is after a run. */
module HeapExact {
  import opened Page
  import opened HeapSpec

  // ---- malloc

  /** Block i is the first that is free and large enough. */
  predicate FirstRoomy(bs: seq<Block>, i: nat, size: nat) {
    && i < |bs| && !bs[i].used && size <= bs[i].size
    && forall k :: 0 <= k < i ==> bs[k].used || bs[k].size < size
  }

  lemma FirstRoomyIsFirstFit(bs: seq<Block>, i: nat, size: nat)
    requires FirstRoomy(bs, i, size)
    ensures FirstFit(bs, size) == i
  {
    assert Fits(bs[i], size) && forall k :: 0 <= k < i ==> !Fits(bs[k], size);
  }

  /** malloc takes the first block found: whole if fewer than 13 bytes would be left over; else
      exactly the bytes asked for, and the rest, less nine, is a free block behind it, or lies
      behind the last block again. */
  lemma MallocTakesFound(s: State, heapStart: nat, size: nat, i: nat)
    requires size > 0 && FirstRoomy(s.blocks, i, size)
    ensures var (t, ptr) := Malloc(s, heapStart, size);
      var b, last := s.blocks[i], i == |s.blocks| - 1;
      && ptr == b.addr + 5 && t.heapEnd == s.heapEnd
      && t.blocks ==
         s.blocks[..i]
         + (if b.size < size + 13 then [Block(b.addr, b.size, true)]
            else if last then [Block(b.addr, size, true)]
            else [Block(b.addr, size, true), Block(b.addr + 9 + size, b.size - size - 9, false)])
         + s.blocks[i + 1..]
  {
    FirstRoomyIsFirstFit(s.blocks, i, size);
  }

  /** Without such a block the new one lies behind the last, of exactly the size asked for; the heap
      grows by the pages from the block's first to its last if it would pass heap_end. */
  lemma MallocAppendsExactly(s: State, heapStart: nat, size: nat)
    requires Inv(s, heapStart) && size > 0 && s.blocks != []
    requires forall k :: 0 <= k < |s.blocks| ==> s.blocks[k].used || s.blocks[k].size < size
    ensures var (t, ptr) := Malloc(s, heapStart, size);
      var addr := s.blocks[|s.blocks| - 1].addr + s.blocks[|s.blocks| - 1].size + 9;
      var end := addr + size + 9;
      && ptr == addr + 5 && t.blocks == s.blocks + [Block(addr, size, true)]
      && t.heapEnd == if end <= s.heapEnd then s.heapEnd
                      else s.heapEnd + 4096 * (end / 4096 - addr / 4096 + if end % 4096 != 0 then 1 else 0)
  {
    assert forall k :: 0 <= k < |s.blocks| ==> !Fits(s.blocks[k], size);
    MallocAppends(s, heapStart, size);
  }

  /** The first request: one block, on as many pages as it touches. */
  lemma MallocStartsHeap(heapStart: nat, size: nat)
    requires 0 < heapStart && heapStart % 4096 == 0 && size > 0
    ensures var (t, ptr) := Malloc(State([], 0), heapStart, size);
      && ptr == heapStart + 5 && t.blocks == [Block(heapStart, size, true)]
      && t.heapEnd % 4096 == 0 && t.heapEnd - 4096 < heapStart + 9 + size <= t.heapEnd
  {
    NumPagesShift(heapStart, 9 + size);
  }

  // ---- malloc_pages

  /** On a gap of at least 18 bytes, or on one of fewer than 5 after a page was added: the gap but
      for the new block's header becomes a free block, the new block's payload starts on the page
      boundary, and its pages and one more are added. */
  lemma MallocPagesExactly(s: State, heapStart: nat, pages: nat)
    requires Inv(s, heapStart) && pages > 0 && s.blocks != []
    requires var gap := s.heapEnd - (Last(s.blocks).addr + Last(s.blocks).size + 9); gap < 5 || 18 <= gap
    ensures RoomyGap(s, heapStart)
    ensures var (t, ptr) := MallocPages(s, heapStart, pages);
      var addr := Last(s.blocks).addr + Last(s.blocks).size + 9;
      var boundary := if s.heapEnd - addr < 5 then s.heapEnd + 4096 else s.heapEnd;
      && ptr == boundary && t.heapEnd == boundary + 4096 * (pages + 1)
      && t.blocks == s.blocks + [Block(addr, boundary - addr - 14, false), Block(boundary - 5, 4096 * pages, true)]
  {
  }

  /** It takes the branch that goes astray exactly on a gap of 5 to 17 bytes. */
  lemma RoomyGapIff(s: State, heapStart: nat)
    requires Inv(s, heapStart)
    ensures RoomyGap(s, heapStart) <==>
            (s.blocks == [] || !(5 <= s.heapEnd - (Last(s.blocks).addr + Last(s.blocks).size + 9) < 18))
  {
  }

  lemma MallocPagesStartsHeap(heapStart: nat, pages: nat)
    requires 0 < heapStart && heapStart % 4096 == 0 && pages > 0
    ensures RoomyGap(State([], 0), heapStart)
    ensures var (t, ptr) := MallocPages(State([], 0), heapStart, pages);
      && ptr == heapStart + 4096 && t.heapEnd == heapStart + 4096 * (pages + 2)
      && t.blocks == [Block(heapStart, 4082, false), Block(heapStart + 4091, 4096 * pages, true)]
  {
  }

  // ---- free

  /** The size of block i joined with its free neighbours, over the nine bytes of tags between. */
  function JoinedSize(bs: seq<Block>, i: nat): nat
    requires i < |bs|
  {
    bs[i].size + (if 0 < i && !bs[i - 1].used then bs[i - 1].size + 9 else 0)
    + if i + 1 < |bs| && !bs[i + 1].used then bs[i + 1].size + 9 else 0
  }

  /** free joins the block with the free blocks directly before and behind it, and leaves all others
      as they were. */
  lemma FreeJoinsNeighbours(s: State, heapStart: nat, i: nat)
    requires Inv(s, heapStart) && i < |s.blocks| && s.blocks[i].used
    ensures var bs, t := s.blocks, Free(s, s.blocks[i].addr + 5);
      var from := if 0 < i && !bs[i - 1].used then i - 1 else i;
      var to := if i + 1 < |bs| && !bs[i + 1].used then i + 1 else i;
      && t.heapEnd == s.heapEnd
      && t.blocks == bs[..from] + [Block(bs[from].addr, JoinedSize(bs, i), false)] + bs[to + 1..]
  {
    UniqueAddresses(s.blocks, i, IndexOf(s.blocks, s.blocks[i].addr + 5));
    JoinsNeighbours(s.blocks, i);
  }

  lemma JoinsNeighbours(bs: seq<Block>, i: nat)
    requires i < |bs|
    ensures var from := if 0 < i && !bs[i - 1].used then i - 1 else i;
      var to := if i + 1 < |bs| && !bs[i + 1].used then i + 1 else i;
      MergePrev(MergeNext(Release(bs, i), i), i) ==
      bs[..from] + [Block(bs[from].addr, JoinedSize(bs, i), false)] + bs[to + 1..]
  {
    var cs := Release(bs, i);
    var ds := MergeNext(cs, i);
    var to := if i + 1 < |bs| && !bs[i + 1].used then i + 1 else i;
    var size := bs[i].size + if to > i then bs[to].size + 9 else 0;
    assert ds == bs[..i] + [Block(bs[i].addr, size, false)] + bs[to + 1..];
    if 0 < i && !bs[i - 1].used {
      assert ds[..i - 1] == bs[..i - 1] && ds[i + 1..] == bs[to + 1..];
    }
  }

  // ---- where the bytes are

  /** The bytes of the payloads of used, or of free, blocks. */
  function Bytes(bs: seq<Block>, used: bool): nat {
    if bs == [] then 0 else Bytes(bs[..|bs| - 1], used) + if Last(bs).used == used then Last(bs).size else 0
  }

  lemma {:induction false} TiledBytes(bs: seq<Block>)
    requires Tiled(bs) && bs != []
    ensures Last(bs).addr + 9 + Last(bs).size - bs[0].addr == Bytes(bs, true) + Bytes(bs, false) + 9 * |bs|
    decreases |bs|
  {
    var front := bs[..|bs| - 1];
    if front == [] {
      assert Bytes(front, true) == 0 && Bytes(front, false) == 0;
    } else {
      assert Linked(bs, |bs| - 2);
      forall k: nat | k + 1 < |front| ensures Linked(front, k) { assert Linked(bs, k); }
      TiledBytes(front);
    }
  }

  /** After any run every byte from the start of the heap to heap_end is in a used payload, in a free
      one, in the nine bytes of tags of a block, or in the gap behind the last block. */
  lemma RunAccountsForBytes(s: State, heapStart: nat, rs: seq<Request>)
    requires Inv(s, heapStart) && Run(s, heapStart, rs).Some? && Run(s, heapStart, rs).value.blocks != []
    ensures var t := Run(s, heapStart, rs).value;
      t.heapEnd - heapStart == Bytes(t.blocks, true) + Bytes(t.blocks, false) + 9 * |t.blocks| + Gap(t)
  {
    RunKeepsInv(s, heapStart, rs);
    TiledBytes(Run(s, heapStart, rs).value.blocks);
  }

  /** The block is of the size asked for, give or take what is too little to split off. */
  predicate Answers(r: Request, b: Block) {
    match r
    case AskBytes(size) => size <= b.size <= size + 12
    case AskPages(pages) => b.size == 4096 * pages
    case GiveBack(_) => false
  }

  ghost predicate Answered(rs: seq<Request>, b: Block) { exists k :: 0 <= k < |rs| && Answers(rs[k], b) }

  lemma MallocAnswers(s: State, heapStart: nat, size: nat, b: Block)
    requires Inv(s, heapStart) && b in Live(Malloc(s, heapStart, size).0.blocks)
    ensures b in Live(s.blocks) || Answers(AskBytes(size), b)
  {
    if size > 0 {
      var bs, i := s.blocks, FirstFit(s.blocks, size);
      var t := Malloc(s, heapStart, size).0;
      var j: nat :| j < |t.blocks| && t.blocks[j] == b;
      if bs != [] && i < |bs| {
        MallocTakesFound(s, heapStart, size, i);
        if j < i { assert b == bs[j]; }
      }
    }
  }

  lemma ServedAnswers(s: State, heapStart: nat, r: Request, b: Block)
    requires Inv(s, heapStart) && Serve(s, heapStart, r).Some? && b in Live(Serve(s, heapStart, r).value.blocks)
    ensures b in Live(s.blocks) || Answers(r, b)
  {
    match r
    case AskBytes(size) => MallocAnswers(s, heapStart, size, b);
    case GiveBack(ptr) => FreeRemovesOneLiveBlock(s, heapStart, ptr);
    case AskPages(pages) => if pages > 0 { var c := MallocPagesAddsAlignedBlock(s, heapStart, pages); }
  }

  /** After any run from a new heap each live block answers a request of the run: it exceeds the size
      asked for by at most twelve bytes, or is of exactly the pages asked for. */
  lemma {:induction false} RunAnswers(s: State, heapStart: nat, rs: seq<Request>, b: Block)
    requires Inv(s, heapStart) && Run(s, heapStart, rs).Some? && b in Live(Run(s, heapStart, rs).value.blocks)
    ensures b in Live(s.blocks) || Answered(rs, b)
    decreases rs
  {
    if rs != [] {
      var t := Serve(s, heapStart, rs[0]).value;
      RunKeepsInv(s, heapStart, rs[..1]);
      assert rs[..1][0] == rs[0] && rs[..1][1..] == [];
      RunAnswers(t, heapStart, rs[1..], b);
      if b in Live(t.blocks) {
        ServedAnswers(s, heapStart, rs[0], b);
        assert b in Live(s.blocks) || Answers(rs[0], b);
      } else {
        var k :| 0 <= k < |rs[1..]| && Answers(rs[1..][k], b);
        assert Answers(rs[k + 1], b);
      }
    }
  }

  /** A block that is split leaves the rest to the next request. */
  lemma SplitRestIsFound(heapStart: nat)
    requires 0 < heapStart && heapStart % 4096 == 0
    ensures var s := State([Block(heapStart, 100, false), Block(heapStart + 109, 50, true)], heapStart + 4096);
      var (t, ptr) := Malloc(s, heapStart, 40);
      && ptr == heapStart + 5 && Malloc(t, heapStart, 40).1 == heapStart + 54
      && t.blocks == [Block(heapStart, 40, true), Block(heapStart + 49, 51, false), Block(heapStart + 109, 50, true)]
  {
    var s := State([Block(heapStart, 100, false), Block(heapStart + 109, 50, true)], heapStart + 4096);
    MallocTakesFound(s, heapStart, 40, 0);
    var t := Malloc(s, heapStart, 40).0;
    assert s.blocks[..0] == [] && s.blocks[1..] == [Block(heapStart + 109, 50, true)];
    MallocTakesFound(t, heapStart, 40, 1);
  }
}
