/** The allocator as it works on raw memory: five-byte headers, four-byte trailers and address
    arithmetic (libc/stdlib/dynamic_allocation.c), on pages handed out by alloc_page
    (kernel/arch/i386/heap.c). Every method is proved to refine HeapSpec. */
module HeapMemory {
  import opened Page
  import opened HeapSpec

  // ---- reading memory

  /** The little-endian word at a. */
  function WordAt(m: seq<byte>, a: nat): uint32
    requires a + 4 <= |m|
  {
    m[a] as int + 0x100 * m[a + 1] as int + 0x1_0000 * m[a + 2] as int + 0x100_0000 * m[a + 3] as int
  }

  function ByteOf(v: uint32, j: nat): byte
    requires j < 4
  {
    if j == 0 then v % 0x100 else if j == 1 then v / 0x100 % 0x100
    else if j == 2 then v / 0x1_0000 % 0x100 else v / 0x100_0000
  }

  /** The four bytes at a are those of v. */
  ghost predicate Holds(m: seq<byte>, a: nat, v: uint32) {
    a + 4 <= |m| && forall j: nat | j < 4 :: m[a + j] == ByteOf(v, j)
  }

  lemma BytesOfSum(a: byte, b: byte, c: byte, d: byte, v: uint32)
    requires v == a + 0x100 * (b + 0x100 * (c + 0x100 * d))
    ensures ByteOf(v, 0) == a && ByteOf(v, 1) == b && ByteOf(v, 2) == c && ByteOf(v, 3) == d
  {
  }

  lemma SumOfBytes(v: uint32)
    ensures v == ByteOf(v, 0) + 0x100 * (ByteOf(v, 1) + 0x100 * (ByteOf(v, 2) + 0x100 * ByteOf(v, 3)))
  {
    assert v / 0x1_0000 == v / 0x100 / 0x100;
    assert v / 0x100_0000 == v / 0x1_0000 / 0x100;
  }

  lemma HoldsIffWord(m: seq<byte>, a: nat, v: uint32)
    requires a + 4 <= |m|
    ensures Holds(m, a, v) <==> WordAt(m, a) == v
  {
    var w := WordAt(m, a);
    BytesOfSum(m[a], m[a + 1], m[a + 2], m[a + 3], w);
    if Holds(m, a, v) {
      SumOfBytes(v);
      assert m[a + 0] == ByteOf(v, 0);
    }
  }

  ghost predicate Tagged(m: seq<byte>, b: Block) {
    && b.Next() <= |m| && b.size < LIMIT
    && m[b.addr] == (if b.used then 1 else 0)
    && Holds(m, b.addr + 1, b.size)
    && Holds(m, b.Trailer(), b.size)
  }

  ghost predicate AllTagged(m: seq<byte>, bs: seq<Block>) {
    forall i :: 0 <= i < |bs| ==> Tagged(m, bs[i])
  }

  ghost predicate SameOutside(m: seq<byte>, m': seq<byte>, lo: nat, hi: nat) {
    |m| == |m'| && forall k :: 0 <= k < |m| && !(lo <= k < hi) ==> m'[k] == m[k]
  }

  /** Every live payload keeps its bytes. */
  ghost predicate PayloadsKept(m: seq<byte>, m': seq<byte>, live: set<Block>) {
    && |m| == |m'|
    && forall b, k :: b in live && b.Payload() <= k < b.Trailer() && k < |m| ==> m'[k] == m[k]
  }

  lemma OtherTags(m: seq<byte>, m': seq<byte>, b: Block, lo: nat, hi: nat)
    requires Tagged(m, b) && SameOutside(m, m', lo, hi) && (b.Next() <= lo || hi <= b.addr)
    ensures Tagged(m', b)
  {
  }

  /** Writes to [lo, hi) leave the tags and payloads of all blocks outside that range alone. */
  lemma Untouched(m: seq<byte>, m': seq<byte>, bs: seq<Block>, lo: nat, hi: nat)
    requires AllTagged(m, bs) && SameOutside(m, m', lo, hi)
    requires forall i :: 0 <= i < |bs| ==> bs[i].Next() <= lo || hi <= bs[i].addr
    ensures AllTagged(m', bs) && PayloadsKept(m, m', Live(bs))
  {
  }

  /** The blocks of the list other than from..to. */
  function Without(bs: seq<Block>, from: nat, to: nat): seq<Block>
    requires from <= to <= |bs|
  {
    bs[..from] + bs[to..]
  }

  lemma RewrittenTags(m': seq<byte>, bs: seq<Block>, from: nat, to: nat, mid: seq<Block>)
    requires from < to <= |bs| && AllTagged(m', Without(bs, from, to)) && AllTagged(m', mid)
    ensures AllTagged(m', bs[..from] + mid + bs[to..])
  {
    var rest, cs := Without(bs, from, to), bs[..from] + mid + bs[to..];
    forall i | 0 <= i < |cs|
      ensures Tagged(m', cs[i])
    {
      if i < from {
        assert cs[i] == rest[i];
      } else if i >= from + |mid| {
        assert cs[i] == rest[i - |mid|];
      } else {
        assert cs[i] == mid[i - from];
      }
    }
  }

  lemma FreeBlocksDropped(bs: seq<Block>, from: nat, to: nat)
    requires from < to <= |bs| && forall i :: from <= i < to ==> !bs[i].used
    ensures Live(bs) == Live(Without(bs, from, to))
  {
    assert bs == bs[..from] + bs[from..to] + bs[to..];
  }

  /** Rewriting the blocks from..to of the list inside their own extent keeps every other block. */
  lemma Rewritten(m: seq<byte>, m': seq<byte>, bs: seq<Block>, from: nat, to: nat, mid: seq<Block>)
    requires from < to <= |bs| && Tiled(bs) && AllTagged(m, bs)
    requires SameOutside(m, m', bs[from].addr, bs[to - 1].Next()) && AllTagged(m', mid)
    ensures AllTagged(m', bs[..from] + mid + bs[to..])
    ensures (forall i :: from <= i < to ==> !bs[i].used) ==> PayloadsKept(m, m', Live(bs))
  {
    TiledOrderAll(bs);
    Untouched(m, m', Without(bs, from, to), bs[from].addr, bs[to - 1].Next());
    RewrittenTags(m', bs, from, to, mid);
    if forall i :: from <= i < to ==> !bs[i].used { FreeBlocksDropped(bs, from, to); }
  }

  lemma TakeEffect(m: seq<byte>, m': seq<byte>, bs: seq<Block>, i: nat, size: nat)
    requires i < |bs| && Fits(bs[i], size) && Tiled(bs) && AllTagged(m, bs)
    requires SameOutside(m, m', bs[i].addr, bs[i].Next()) && AllTagged(m', Pieces(bs[i], size, false))
    ensures AllTagged(m', Take(bs, i, size)) && PayloadsKept(m, m', Live(bs))
  {
    var all, mid := Pieces(bs[i], size, false), Pieces(bs[i], size, i == |bs| - 1);
    assert AllTagged(m', mid) by {
      assert mid <= all;
    }
    Rewritten(m, m', bs, i, i + 1, mid);
  }

  lemma MergeEffect(m: seq<byte>, m': seq<byte>, bs: seq<Block>, i: nat)
    requires i + 1 < |bs| && !bs[i].used && !bs[i + 1].used && Tiled(bs) && AllTagged(m, bs)
    requires SameOutside(m, m', bs[i].addr, bs[i + 1].Next())
    requires Tagged(m', Block(bs[i].addr, bs[i].size + OVERHEAD + bs[i + 1].size, false))
    ensures AllTagged(m', Merge(bs, i)) && PayloadsKept(m, m', Live(bs))
  {
    Rewritten(m, m', bs, i, i + 2, [Block(bs[i].addr, bs[i].size + OVERHEAD + bs[i + 1].size, false)]);
  }

  lemma AboveUntouched(m: seq<byte>, m': seq<byte>, bs: seq<Block>, lo: nat, hi: nat)
    requires bs != [] && Tiled(bs) && AllTagged(m, bs) && Last(bs).Next() <= lo && SameOutside(m, m', lo, hi)
    ensures AllTagged(m', bs) && PayloadsKept(m, m', Live(bs))
  {
    TiledOrderAll(bs);
    Untouched(m, m', bs, lo, hi);
  }

  lemma AppendEffect(m: seq<byte>, m': seq<byte>, bs: seq<Block>, b: Block)
    requires bs != [] && Tiled(bs) && AllTagged(m, bs) && b.addr == Last(bs).Next()
    requires SameOutside(m, m', b.addr, b.Next()) && Tagged(m', b)
    ensures AllTagged(m', bs + [b]) && PayloadsKept(m, m', Live(bs))
  {
    AboveUntouched(m, m', bs, b.addr, b.Next());
  }

  lemma PagesEffect(m: seq<byte>, m': seq<byte>, bs: seq<Block>, filler: Block, b: Block)
    requires Tiled(bs) && AllTagged(m, bs) && (bs != [] ==> filler.addr == Last(bs).Next()) && filler.Next() == b.addr
    requires SameOutside(m, m', filler.addr, b.Next()) && Tagged(m', filler) && Tagged(m', b)
    ensures AllTagged(m', bs + [filler, b]) && PayloadsKept(m, m', Live(bs))
  {
    TiledOrderAll(bs);
    Untouched(m, m', bs, filler.addr, b.Next());
  }

  lemma FreeEffect(m0: seq<byte>, m1: seq<byte>, m2: seq<byte>, m3: seq<byte>, bs: seq<Block>, i: nat)
    requires Tiled(bs) && i < |bs| && bs[i].used
    requires PayloadsKept(m0, m1, Live(bs)) && PayloadsKept(m1, m2, Live(Release(bs, i)))
    requires PayloadsKept(m2, m3, Live(MergeNext(Release(bs, i), i)))
    ensures PayloadsKept(m0, m3, Live(MergePrev(MergeNext(Release(bs, i), i), i)))
  {
    ReleaseLive(bs, i);
    FreeLive(bs, i);
    assert Live(Release(bs, i)) <= Live(bs) && Live(MergeNext(Release(bs, i), i)) == Live(Release(bs, i));
  }

  lemma ReleaseEffect(m: seq<byte>, m': seq<byte>, bs: seq<Block>, i: nat)
    requires i < |bs| && bs[i].used && Tiled(bs) && AllTagged(m, bs)
    requires SameOutside(m, m', bs[i].addr, bs[i].addr + 1) && m'[bs[i].addr] == 0
    ensures AllTagged(m', Release(bs, i)) && PayloadsKept(m, m', Live(bs))
  {
    TiledOrderAll(bs);
    var cs := Release(bs, i);
    forall k | 0 <= k < |cs|
      ensures Tagged(m', cs[k])
    {
      assert Tagged(m, bs[k]);
    }
  }

  /** NEXT_BLOCK and PREV_BLOCK as address arithmetic on memory */
  function NextAt(m: seq<byte>, a: nat): nat
    requires a + HEADER <= |m|
  {
    a + HEADER + WordAt(m, a + 1) + TRAILER
  }

  function PrevAt(m: seq<byte>, a: nat): int
    requires TRAILER <= a <= |m|
  {
    a - TRAILER - WordAt(m, a - TRAILER) - HEADER
  }

  /** On every pair of neighbours NEXT_BLOCK and PREV_BLOCK are inverse. */
  lemma PrevInvertsNext(m: seq<byte>, bs: seq<Block>, i: nat)
    requires Tiled(bs) && AllTagged(m, bs) && i + 1 < |bs|
    ensures bs[i].addr + HEADER <= |m| && TRAILER <= bs[i + 1].addr <= |m|
    ensures NextAt(m, bs[i].addr) == bs[i + 1].addr && PrevAt(m, bs[i + 1].addr) == bs[i].addr
  {
    assert Tagged(m, bs[i]) && Tagged(m, bs[i + 1]) && Linked(bs, i);
    HoldsIffWord(m, bs[i].addr + 1, bs[i].size);
    HoldsIffWord(m, bs[i].Trailer(), bs[i].size);
  }

  /** The size word malloc_pages finds in a gap that has one. */
  ghost function GapWord(m: seq<byte>, s: State, heapStart: nat): uint32 {
    if GapStart(s, heapStart) + HEADER <= |m| then WordAt(m, GapStart(s, heapStart) + 1) else 0
  }

  /** The bytes the short-gap branch may have changed: the size word of the filler, its trailer
      and the new block. */
  ghost predicate ShortGapWrites(m: seq<byte>, m': seq<byte>, block: nat, trailer: nat, end: nat, pages: nat,
                                 r: PagesOutcome) {
    && |m'| == |m|
    && forall k :: 0 <= k < |m| ==>
         || m'[k] == m[k]
         || block + 1 <= k < block + HEADER
         || (!r.Stray? && trailer <= k < trailer + TRAILER)
         || (r.Loose? && end <= k < end + OVERHEAD + PAGE_SIZE * pages)
  }

  lemma WritesAfterSize(m: seq<byte>, m': seq<byte>, m'': seq<byte>, block: nat, trailer: nat, end: nat, pages: nat,
                        r: PagesOutcome)
    requires SameOutside(m, m', block + 1, block + HEADER) && ShortGapWrites(m', m'', block, trailer, end, pages, r)
    ensures ShortGapWrites(m, m'', block, trailer, end, pages, r)
  {
  }

  /** The bytes of sizes just below 2^32 and of what they read back as. */
  lemma HighBytes(size: uint32, j: nat)
    requires LIMIT - 7 <= size && j < 4
    ensures ByteOf(size, j) == if j == 0 then size - (LIMIT - 0x100) else 0xFF
    ensures ByteOf(SizeReadBack(size), j) ==
            if size <= LIMIT - 5 then 0xFF
            else if (size == LIMIT - 3 && j == 1) || (size == LIMIT - 2 && j == 2) then size - (LIMIT - 0x100)
            else ByteOf(size, j)
  {
    var low := size - (LIMIT - 0x100);
    BytesOfSum(low, 0xFF, 0xFF, 0xFF, size);
    if size <= LIMIT - 5 { BytesOfSum(0xFF, 0xFF, 0xFF, 0xFF, SizeReadBack(size)); }
    else if size == LIMIT - 3 { BytesOfSum(low, low, 0xFF, 0xFF, SizeReadBack(size)); }
    else if size == LIMIT - 2 { BytesOfSum(low, 0xFF, low, 0xFF, SizeReadBack(size)); }
  }

  /** Writing a trailer over the size word it belongs to, in part or not at all. */
  lemma TrailerReadBack(m: seq<byte>, m': seq<byte>, block: nat, size: uint32, trailer: nat)
    requires Holds(m, block + 1, size) && 2 <= block && block + HEADER <= |m| <= LIMIT
    requires trailer == (block + HEADER + size) % LIMIT && trailer + TRAILER <= |m|
    requires SameOutside(m, m', trailer, trailer + TRAILER) && Holds(m', trailer, size)
    ensures Holds(m', block + 1, SizeReadBack(size))
  {
    var a := block + HEADER + size;
    assert trailer == a || trailer == a - LIMIT;
    if trailer + TRAILER <= block + 1 || block + HEADER <= trailer {
      assert size < LIMIT - 7 || size == LIMIT - 4;
    } else {
      var d := trailer - block;
      assert size == LIMIT - HEADER + d;
      forall j: nat | j < 4
        ensures m'[block + 1 + j] == ByteOf(SizeReadBack(size), j)
      {
        HighBytes(size, j);
        if 0 <= 1 + j - d < 4 {
          HighBytes(size, 1 + j - d);
          assert m'[trailer + (1 + j - d)] == ByteOf(size, 1 + j - d);
        }
      }
    }
  }

  class Heap {
    const mem: array<byte>     // kernel virtual memory below the limit of the heap region
    const heapStart: nat       // HEAP_START
    var start: nat             // 0 is NULL
    var end: nat
    var heapEnd: nat           // the allocator's own copy
    var kernelHeapEnd: nat     // the copy in kernel/arch/i386/heap.c
    ghost var blocks: seq<Block>

    constructor (mem: array<byte>, heapStart: nat)
      requires 0 < heapStart <= mem.Length <= LIMIT && heapStart % PAGE_SIZE == 0
      ensures Valid() && blocks == [] && this.mem == mem && this.heapStart == heapStart
    {
      this.mem, this.heapStart := mem, heapStart;
      start, end, heapEnd, kernelHeapEnd, blocks := 0, 0, 0, 0, [];
    }

    ghost function Abstract(): State
      reads this
    {
      State(blocks, heapEnd)
    }

    ghost predicate Valid()
      reads this, mem
    {
      && mem.Length <= LIMIT
      && Inv(Abstract(), heapStart)
      && heapEnd <= mem.Length
      && kernelHeapEnd == heapEnd
      && (blocks == [] ==> start == 0 && end == 0)
      && (blocks != [] ==> start == heapStart && end == Last(blocks).addr)
      && AllTagged(mem[..], blocks)
    }

    method LoadWord(a: nat, ghost v: uint32) returns (w: uint32)
      requires Holds(mem[..], a, v)
      ensures w == v
    {
      HoldsIffWord(mem[..], a, v);
      w := mem[a] as int + 0x100 * mem[a + 1] as int + 0x1_0000 * mem[a + 2] as int + 0x100_0000 * mem[a + 3] as int;
    }

    method StoreWord(a: nat, v: uint32)
      requires a + 4 <= mem.Length
      modifies mem
      ensures Holds(mem[..], a, v)
      ensures SameOutside(old(mem[..]), mem[..], a, a + 4)
    {
      mem[a], mem[a + 1] := v % 0x100, v / 0x100 % 0x100;
      mem[a + 2], mem[a + 3] := v / 0x1_0000 % 0x100, v / 0x100_0000;
    }

    method StoreByte(a: nat, v: byte)
      requires a < mem.Length
      modifies mem
      ensures mem[..][a] == v
      ensures SameOutside(old(mem[..]), mem[..], a, a + 1)
    {
      mem[a] := v;
    }

    /** block->size */
    method Size(block: nat, ghost b: Block) returns (size: nat)
      requires Tagged(mem[..], b) && b.addr == block
      ensures size == b.size
    {
      size := LoadWord(block + 1, b.size);
    }

    /** NEXT_BLOCK(block) */
    method NextBlock(block: nat, ghost b: Block) returns (next: nat)
      requires Tagged(mem[..], b) && b.addr == block
      ensures next == b.Next()
    {
      next := LoadWord(block + 1, b.size);
      next := block + HEADER + next + TRAILER;
    }

    /** PREV_BLOCK(block), found through the trailer in front of it */
    method PrevBlock(block: nat, ghost b: Block) returns (prev: nat)
      requires Tagged(mem[..], b) && b.Next() == block
      ensures prev == b.addr
    {
      prev := LoadWord(block - TRAILER, b.size);
      prev := block - TRAILER - prev - HEADER;
    }

    // ---- alloc_page

    method AllocPage(pages: nat) returns (block: nat)
      requires (if kernelHeapEnd == 0 then heapStart else kernelHeapEnd) + pages * PAGE_SIZE <= mem.Length
      modifies `kernelHeapEnd
      ensures block == if old(kernelHeapEnd) == 0 then heapStart else old(kernelHeapEnd)
      ensures kernelHeapEnd == block + pages * PAGE_SIZE
    {
      if kernelHeapEnd == 0 {
        kernelHeapEnd := heapStart;
      }
      block := kernelHeapEnd;
      var i := 0;
      while i < pages
        invariant i <= pages && kernelHeapEnd == block + i * PAGE_SIZE
      {
        kernelHeapEnd := kernelHeapEnd + PAGE_SIZE;
        i := i + 1;
      }
    }

    /** block->used, block->size and *ENDING_SIZE_FIELD(block) */
    method WriteTags(block: nat, size: uint32, used: bool)
      requires block + OVERHEAD + size <= mem.Length
      modifies mem
      ensures Tagged(mem[..], Block(block, size, used))
      ensures SameOutside(old(mem[..]), mem[..], block, block + OVERHEAD + size)
    {
      StoreByte(block, if used then 1 else 0);
      StoreWord(block + 1, size);
      StoreWord(block + HEADER + size, size);
    }

    // ---- malloc

    /** The first request: no heap yet. */
    method FirstBlock(size: nat) returns (ptr: nat)
      requires Valid() && blocks == [] && size > 0
      requires HeapSpec.Malloc(Abstract(), heapStart, size).0.heapEnd <= mem.Length
      modifies this, mem
      ensures Valid()
      ensures (Abstract(), ptr) == HeapSpec.Malloc(old(Abstract()), heapStart, size)
    {
      MallocKeepsInv(Abstract(), heapStart, size);
      NumPagesShift(heapStart, OVERHEAD + size);
      var pages := NumPages(start, start + OVERHEAD + size);
      start := AllocPage(pages);
      end := start;
      heapEnd := start + PAGE_SIZE * NumPages(start, start + OVERHEAD + size);
      blocks := [Block(start, size, true)];
      WriteTags(start, size, true);
      ptr := start + HEADER;
    }

    /** block->size = size; *ENDING_SIZE_FIELD(block) = size */
    method Resize(block: nat, size: uint32, ghost used: bool)
      requires block + OVERHEAD + size <= mem.Length && mem[block] == if used then 1 else 0
      modifies mem
      ensures Tagged(mem[..], Block(block, size, used))
      ensures SameOutside(old(mem[..]), mem[..], block + 1, block + OVERHEAD + size)
    {
      StoreWord(block + 1, size);
      StoreWord(block + HEADER + size, size);
    }

    /** Splits a used block if four payload bytes would be left over. */
    method Split(block: nat, size: nat, ghost b: Block)
      requires Tagged(mem[..], b) && b.addr == block && b.used && size <= b.size
      modifies mem
      ensures SameOutside(old(mem[..]), mem[..], b.addr, b.Next())
      ensures AllTagged(mem[..], Pieces(b, size, false))
    {
      var oldSize := Size(block, b);
      if oldSize - size >= MIN_SPLIT {
        Resize(block, size, true);
        var next := NextBlock(block, Block(block, size, true));
        ghost var m := mem[..];
        WriteTags(next, oldSize - size - OVERHEAD, false);
        OtherTags(m, mem[..], Block(block, size, true), next, b.Next());
      }
    }

    method Carve(block: nat, size: nat, ghost b: Block)
      requires Tagged(mem[..], b) && b.addr == block && Fits(b, size)
      modifies mem
      ensures SameOutside(old(mem[..]), mem[..], b.addr, b.Next())
      ensures AllTagged(mem[..], Pieces(b, size, false))
    {
      StoreByte(block, 1);
      assert Tagged(mem[..], b.(used := true));
      Split(block, size, b.(used := true));
    }

    method TakeBlock(block: nat, size: nat, ghost i: nat)
      requires Valid() && i < |blocks| && blocks[i].addr == block && Fits(blocks[i], size)
      modifies mem, `blocks
      ensures Valid()
      ensures blocks == Take(old(blocks), i, size)
      ensures PayloadsKept(old(mem[..]), mem[..], Live(old(blocks)))
    {
      ghost var m := mem[..];
      assert Tagged(m, blocks[i]);
      Carve(block, size, blocks[i]);
      TakeEffect(m, mem[..], blocks, i, size);
      TakeTiled(blocks, i, size);
      blocks := Take(blocks, i, size);
    }

    /** Grows the heap until a block of this size fits at addr. */
    method Grow(addr: nat, size: nat)
      requires addr <= heapEnd == kernelHeapEnd && 0 < heapEnd && addr + OVERHEAD + size <= LIMIT
      requires addr + OVERHEAD + size > heapEnd ==>
                 heapEnd + NumPages(addr, addr + OVERHEAD + size) * PAGE_SIZE <= mem.Length
      modifies `heapEnd, `kernelHeapEnd
      ensures heapEnd == kernelHeapEnd
      ensures heapEnd == if addr + OVERHEAD + size > old(heapEnd)
                         then old(heapEnd) + NumPages(addr, addr + OVERHEAD + size) * PAGE_SIZE else old(heapEnd)
    {
      if addr + OVERHEAD + size > heapEnd {
        var pages := NumPages(addr, addr + OVERHEAD + size);
        var _ := AllocPage(pages);
        heapEnd := heapEnd + pages * PAGE_SIZE;
      }
    }

    method AppendBlock(size: nat) returns (ptr: nat)
      requires Valid() && blocks != [] && size > 0 && FirstFit(blocks, size) == |blocks|
      requires HeapSpec.Malloc(Abstract(), heapStart, size).0.heapEnd <= mem.Length
      modifies this, mem
      ensures Valid()
      ensures (Abstract(), ptr) == HeapSpec.Malloc(old(Abstract()), heapStart, size)
      ensures PayloadsKept(old(mem[..]), mem[..], Live(old(blocks)))
    {
      MallocAppends(Abstract(), heapStart, size);
      ghost var m, b := mem[..], Block(Last(blocks).Next(), size, true);
      MallocKeepsInv(Abstract(), heapStart, size);
      assert Tagged(m, Last(blocks));
      end := NextBlock(end, Last(blocks));
      Grow(end, size);
      WriteTags(end, size, true);
      AppendEffect(m, mem[..], blocks, b);
      blocks := blocks + [b];
      ptr := end + HEADER;
    }

    /** The walk from `start` to the first block that fits, or past `end`. */
    method Search(size: nat) returns (block: nat)
      requires Valid() && blocks != []
      ensures var i := FirstFit(blocks, size); block == if i < |blocks| then blocks[i].addr else Last(blocks).Next()
    {
      block := start;
      ghost var i := 0;
      while block <= end
        invariant i <= |blocks|
        invariant block == if i < |blocks| then blocks[i].addr else Last(blocks).Next()
        invariant forall k :: 0 <= k < i ==> !Fits(blocks[k], size)
        decreases |blocks| - i
      {
        assert Tagged(mem[..], blocks[i]);
        var blockSize := Size(block, blocks[i]);
        if mem[block] == 0 && blockSize >= size {
          return;
        }
        assert i + 1 < |blocks| ==> Linked(blocks, i);
        block := NextBlock(block, blocks[i]);
        i := i + 1;
      }
      if i < |blocks| { LastAddress(blocks, i); }
    }

    method Malloc(size: nat) returns (ptr: nat)
      requires Valid() && HeapSpec.Malloc(Abstract(), heapStart, size).0.heapEnd <= mem.Length
      modifies this, mem
      ensures Valid()
      ensures (Abstract(), ptr) == HeapSpec.Malloc(old(Abstract()), heapStart, size)
      ensures PayloadsKept(old(mem[..]), mem[..], Live(old(blocks)))
    {
      if size == 0 {
        return 0;
      }
      if blocks != [] { LastAddress(blocks, 0); }
      if start == 0 || start >= heapEnd {
        ptr := FirstBlock(size);
        return;
      }
      var block := Search(size);
      ghost var i := FirstFit(blocks, size);
      if i < |blocks| { LastAddress(blocks, i); }
      if block <= end {
        TakeBlock(block, size, i);
        return block + HEADER;
      }
      ptr := AppendBlock(size);
    }

    // ---- free

    /** block->size += sizeof(size_t) + sizeof(metadata_t) + NEXT_BLOCK(block)->size */
    method AbsorbNext(block: nat, ghost a: Block, ghost b: Block)
      requires Tagged(mem[..], a) && Tagged(mem[..], b) && a.addr == block && a.Next() == b.addr && !a.used
      requires mem.Length <= LIMIT
      modifies mem
      ensures Tagged(mem[..], Block(a.addr, a.size + OVERHEAD + b.size, false))
      ensures SameOutside(old(mem[..]), mem[..], a.addr, b.Next())
    {
      var size := Size(block, a);
      var next := NextBlock(block, a);
      var nextSize := Size(next, b);
      Resize(block, size + TRAILER + HEADER + nextSize, false);
    }

    method MergeWithNext(block: nat, ghost i: nat)
      requires Valid() && i < |blocks| && blocks[i].addr == block && !blocks[i].used
      modifies `end, `blocks, mem
      ensures Valid() && blocks == MergeNext(old(blocks), i)
      ensures PayloadsKept(old(mem[..]), mem[..], Live(old(blocks)))
    {
      assert Tagged(mem[..], blocks[i]);
      LastAddress(blocks, i);
      if block != end {
        assert Linked(blocks, i) && Tagged(mem[..], blocks[i + 1]);
        var next := NextBlock(block, blocks[i]);
        if mem[next] == 0 {
          JoinNext(block, next, i);
        }
      }
    }

    /** The merge with a free next block. */
    method JoinNext(block: nat, next: nat, ghost i: nat)
      requires Valid() && i + 1 < |blocks| && !blocks[i].used && !blocks[i + 1].used
      requires blocks[i].addr == block && blocks[i + 1].addr == next
      modifies `end, `blocks, mem
      ensures Valid() && blocks == Merge(old(blocks), i)
      ensures PayloadsKept(old(mem[..]), mem[..], Live(old(blocks)))
    {
      ghost var m := mem[..];
      assert Linked(blocks, i) && Tagged(m, blocks[i]) && Tagged(m, blocks[i + 1]);
      LastAddress(blocks, i + 1);
      if next == end {
        end := block;
      }
      AbsorbNext(block, blocks[i], blocks[i + 1]);
      MergeEffect(m, mem[..], blocks, i);
      MergeKeepsInv(Abstract(), heapStart, i);
      blocks := Merge(blocks, i);
    }

    /** PREV_BLOCK(block)->size += sizeof(size_t) + sizeof(metadata_t) + block->size */
    method AbsorbIntoPrev(block: nat, ghost a: Block, ghost b: Block)
      requires Tagged(mem[..], a) && Tagged(mem[..], b) && b.addr == block && a.Next() == b.addr && !a.used
      requires mem.Length <= LIMIT
      modifies mem
      ensures Tagged(mem[..], Block(a.addr, a.size + OVERHEAD + b.size, false))
      ensures SameOutside(old(mem[..]), mem[..], a.addr, b.Next())
    {
      var prev := PrevBlock(block, a);
      var prevSize := Size(prev, a);
      var size := Size(block, b);
      StoreWord(prev + 1, prevSize + TRAILER + HEADER + size);
      StoreWord(block + HEADER + size, prevSize + TRAILER + HEADER + size);
    }

    method MergeWithPrev(block: nat, ghost i: nat)
      requires Valid() && i < |blocks| && blocks[i].addr == block && !blocks[i].used
      modifies `end, `blocks, mem
      ensures Valid() && blocks == MergePrev(old(blocks), i)
      ensures PayloadsKept(old(mem[..]), mem[..], Live(old(blocks)))
    {
      if 0 < i { TiledOrder(blocks, 0, i); }
      if block != start {
        assert Linked(blocks, i - 1) && Tagged(mem[..], blocks[i - 1]);
        var prev := PrevBlock(block, blocks[i - 1]);
        if mem[prev] == 0 {
          JoinPrev(block, prev, i - 1);
        }
      }
    }

    /** The merge with a free previous block. */
    method JoinPrev(block: nat, prev: nat, ghost i: nat)
      requires Valid() && i + 1 < |blocks| && !blocks[i].used && !blocks[i + 1].used
      requires blocks[i].addr == prev && blocks[i + 1].addr == block
      modifies `end, `blocks, mem
      ensures Valid() && blocks == Merge(old(blocks), i)
      ensures PayloadsKept(old(mem[..]), mem[..], Live(old(blocks)))
    {
      ghost var m := mem[..];
      assert Linked(blocks, i) && Tagged(m, blocks[i]) && Tagged(m, blocks[i + 1]);
      LastAddress(blocks, i + 1);
      if block == end {
        end := prev;
      }
      AbsorbIntoPrev(block, blocks[i], blocks[i + 1]);
      MergeEffect(m, mem[..], blocks, i);
      MergeKeepsInv(Abstract(), heapStart, i);
      blocks := Merge(blocks, i);
    }

    /** block->used = false */
    method ClearUsed(block: nat, ghost i: nat)
      requires Valid() && i < |blocks| && blocks[i].addr == block && blocks[i].used
      modifies `blocks, mem
      ensures Valid() && blocks == Release(old(blocks), i)
      ensures PayloadsKept(old(mem[..]), mem[..], Live(old(blocks)))
    {
      ghost var m := mem[..];
      assert Tagged(m, blocks[i]);
      StoreByte(block, 0);
      ReleaseEffect(m, mem[..], blocks, i);
      ReleaseTiled(blocks, i);
      blocks := Release(blocks, i);
    }

    /** ptr is NULL or the payload of a block on the list. */
    method Free(ptr: nat)
      requires Valid() && (ptr == 0 || IndexOf(blocks, ptr) < |blocks|)
      modifies `end, `blocks, mem
      ensures Valid()
      ensures Abstract() == HeapSpec.Free(old(Abstract()), ptr)
      ensures PayloadsKept(old(mem[..]), mem[..], Live(blocks))
    {
      if ptr == 0 {
        return;
      }
      var block := ptr - HEADER;
      ghost var i, m0, bs := IndexOf(blocks, ptr), mem[..], blocks;
      assert Tagged(m0, bs[i]);
      if mem[block] != 0 {
        ClearUsed(block, i);
        ghost var m1 := mem[..];
        MergeWithNext(block, i);
        ghost var m2 := mem[..];
        MergeWithPrev(block, i);
        FreeEffect(m0, m1, m2, mem[..], bs, i);
      }
    }

    // ---- malloc_pages

    /** The gap of 5 to 17 bytes: the size word at NEXT_BLOCK(end) is whatever the unused memory
        holds. It is increased, and the trailer is due at the address returned. */
    method StaleFiller(block: nat, ghost stale: uint32) returns (trailer: nat)
      requires Valid() && blocks != [] && block == Last(blocks).Next() && block + HEADER <= heapEnd
      requires heapEnd - block < MIN_GAP && Holds(mem[..], block + 1, stale)
      modifies mem
      ensures Valid()
      ensures trailer == StrayTrailer(heapEnd, stale)
      ensures Holds(mem[..], block + 1, FillerSize(heapEnd - block, stale))
      ensures SameOutside(old(mem[..]), mem[..], block + 1, block + HEADER)
      ensures PayloadsKept(old(mem[..]), mem[..], Live(blocks))
    {
      ghost var m := mem[..];
      var size := LoadWord(block + 1, stale);
      size := (size + (heapEnd - block - HEADER)) % LIMIT;
      StoreWord(block + 1, size);
      trailer := (block + HEADER + size) % LIMIT;
      StrayTrailerAddress(block, heapEnd, stale);
      AboveUntouched(m, mem[..], blocks, block, block + HEADER);
    }

    /** The trailer is written where it is due, and NEXT_BLOCK reads the size word again. */
    method FinishFiller(block: nat, trailer: nat, ghost size: uint32) returns (next: nat)
      requires Holds(mem[..], block + 1, size) && 2 <= block && block + HEADER <= mem.Length <= LIMIT
      requires trailer == (block + HEADER + size) % LIMIT && trailer + TRAILER <= mem.Length
      modifies mem
      ensures next == (block + OVERHEAD + SizeReadBack(size)) % LIMIT
      ensures SameOutside(old(mem[..]), mem[..], trailer, trailer + TRAILER)
    {
      ghost var m := mem[..];
      var s := LoadWord(block + 1, size);
      StoreWord(trailer, s);
      TrailerReadBack(m, mem[..], block, size, trailer);
      next := LoadWord(block + 1, SizeReadBack(size));
      next := (block + HEADER + next + TRAILER) % LIMIT;
    }

    /** The rest of malloc_pages after such a filler: the header goes to `block`, if that is in
        the heap. */
    method LayLoose(block: nat, pages: nat) returns (fits: bool)
      requires pages > 0 && 0 < heapEnd == kernelHeapEnd && heapEnd + PAGE_SIZE * (pages + 1) <= mem.Length <= LIMIT
      modifies `end, `heapEnd, `kernelHeapEnd, mem
      ensures heapEnd == kernelHeapEnd == old(heapEnd) + PAGE_SIZE * (pages + 1) && end == block
      ensures fits <==> start <= block && block + OVERHEAD + PAGE_SIZE * pages <= heapEnd
      ensures fits ==> Tagged(mem[..], Block(block, PAGE_SIZE * pages, true))
      ensures SameOutside(old(mem[..]), mem[..], block, if fits then block + OVERHEAD + PAGE_SIZE * pages else block)
    {
      end := block;
      var _ := AllocPage(pages + 1);
      heapEnd := heapEnd + PAGE_SIZE * (pages + 1);
      fits := start <= end && end + OVERHEAD + PAGE_SIZE * pages <= heapEnd;
      if fits {
        WriteTags(end, PAGE_SIZE * pages, true);
      }
    }

    /** Fills the gap with a free block and puts the page-aligned block behind it. */
    method LayOut(block: nat, pages: nat, ghost filler: Block, ghost b: Block)
      requires 0 < heapEnd == kernelHeapEnd && pages > 0 && heapEnd + PAGE_SIZE * (pages + 1) <= mem.Length <= LIMIT
      requires block + MIN_GAP <= heapEnd && filler == Block(block, heapEnd - block - 2 * HEADER - TRAILER, false)
      requires b == Block(heapEnd - HEADER, PAGE_SIZE * pages, true)
      modifies `end, `heapEnd, `kernelHeapEnd, mem
      ensures heapEnd == kernelHeapEnd == old(heapEnd) + PAGE_SIZE * (pages + 1) && end == b.addr
      ensures Tagged(mem[..], filler) && Tagged(mem[..], b)
      ensures SameOutside(old(mem[..]), mem[..], filler.addr, b.Next())
    {
      WriteTags(block, heapEnd - block - 2 * HEADER - TRAILER, false);
      end := NextBlock(block, filler);
      var _ := AllocPage(pages + 1);
      heapEnd := heapEnd + PAGE_SIZE * (pages + 1);
      ghost var m := mem[..];
      WriteTags(end, PAGE_SIZE * pages, true);
      OtherTags(m, mem[..], filler, b.addr, b.Next());
    }

    method FillGap(block: nat, pages: nat, ghost s: State)
      requires mem.Length <= LIMIT && Inv(s, heapStart) && blocks == s.blocks && AllTagged(mem[..], blocks)
      requires heapEnd == kernelHeapEnd == GapEnd(s, heapStart) && block == GapStart(s, heapStart) && start == heapStart
      requires pages > 0 && RoomyGap(s, heapStart)
      requires HeapSpec.MallocPages(s, heapStart, pages).0.heapEnd <= mem.Length
      modifies `end, `heapEnd, `kernelHeapEnd, `blocks, mem
      ensures Valid()
      ensures (Abstract(), end + HEADER) == HeapSpec.MallocPages(s, heapStart, pages)
      ensures PayloadsKept(old(mem[..]), mem[..], Live(s.blocks))
    {
      ghost var m := mem[..];
      ghost var filler := Block(block, heapEnd - block - 2 * HEADER - TRAILER, false);
      ghost var b := Block(heapEnd - HEADER, PAGE_SIZE * pages, true);
      MallocPagesKeepsInv(s, heapStart, pages);
      LayOut(block, pages, filler, b);
      PagesEffect(m, mem[..], s.blocks, filler, b);
      blocks := s.blocks + [filler, b];
    }

    /** Finds where the gap starts and makes sure a header fits in it. */
    method OpenGap() returns (block: nat)
      requires Valid() && GapEnd(Abstract(), heapStart) <= mem.Length
      modifies `start, `end, `heapEnd, `kernelHeapEnd
      ensures block == GapStart(old(Abstract()), heapStart) && start == heapStart
      ensures heapEnd == kernelHeapEnd == GapEnd(old(Abstract()), heapStart)
      ensures blocks != [] ==> end == old(end)
    {
      if start == 0 {
        block := AllocPage(1);
        start, end := block, block;
        heapEnd := start + PAGE_SIZE;
      } else {
        assert Tagged(mem[..], Last(blocks));
        block := NextBlock(end, Last(blocks));
      }
      if heapEnd - block < HEADER {
        var _ := AllocPage(1);
        heapEnd := heapEnd + PAGE_SIZE;
      }
    }

    /** Trailer and new block, once the trailer is known to lie in the heap. */
    method PlaceLoose(block: nat, trailer: nat, pages: nat, ghost size: uint32) returns (r: PagesOutcome)
      requires Holds(mem[..], block + 1, size) && 2 <= block && block + HEADER <= mem.Length <= LIMIT
      requires trailer == (block + HEADER + size) % LIMIT && trailer + TRAILER <= mem.Length
      requires pages > 0 && 0 < heapEnd == kernelHeapEnd && heapEnd + PAGE_SIZE * (pages + 1) <= mem.Length
      modifies `end, `heapEnd, `kernelHeapEnd, mem
      ensures heapEnd == kernelHeapEnd == old(heapEnd) + PAGE_SIZE * (pages + 1)
      ensures end == (block + OVERHEAD + SizeReadBack(size)) % LIMIT
      ensures r == if start <= end && end + OVERHEAD + PAGE_SIZE * pages <= heapEnd then Loose(end + HEADER)
                   else Lost(end)
      ensures r.Loose? ==> Tagged(mem[..], Block(end, PAGE_SIZE * pages, true))
      ensures ShortGapWrites(old(mem[..]), mem[..], block, trailer, end, pages, r)
    {
      var next := FinishFiller(block, trailer, size);
      var fits := LayLoose(next, pages);
      r := if fits then Loose(next + HEADER) else Lost(next);
    }

    /** The branch for a gap of 5 to 17 bytes. */
    method FillShortGap(block: nat, pages: nat, ghost stale: uint32) returns (r: PagesOutcome)
      requires Valid() && pages > 0 && blocks != [] && block == Last(blocks).Next()
      requires HEADER <= heapEnd - block < MIN_GAP && heapEnd + PAGE_SIZE * (pages + 1) <= mem.Length
      requires Holds(mem[..], block + 1, stale)
      modifies `end, `heapEnd, `kernelHeapEnd, mem
      ensures r == ShortOutcome(heapStart, block, old(heapEnd), pages, stale)
      ensures r.Stray? ==> Valid() && Abstract() == old(Abstract()) && PayloadsKept(old(mem[..]), mem[..], Live(blocks))
      ensures r.Loose? ==> end == r.ptr - HEADER && Tagged(mem[..], Block(end, PAGE_SIZE * pages, true))
      ensures !r.Stray? ==> heapEnd == kernelHeapEnd == old(heapEnd) + PAGE_SIZE * (pages + 1)
      ensures ShortGapWrites(old(mem[..]), mem[..], block, StrayTrailer(old(heapEnd), stale), end, pages, r)
    {
      ghost var m := mem[..];
      var trailer := StaleFiller(block, stale);
      ghost var m' := mem[..];
      if trailer < start || heapEnd < trailer + TRAILER {
        return Stray(trailer);
      }
      StrayTrailerAddress(block, heapEnd, stale);
      ShortOutcomeInside(heapStart, block, heapEnd, pages, stale);
      r := PlaceLoose(block, trailer, pages, FillerSize(heapEnd - block, stale));
      WritesAfterSize(m, m', mem[..], block, trailer, end, pages, r);
    }

    method MallocPages(pages: nat) returns (r: PagesOutcome)
      requires Valid() && (pages == 0 || GapEnd(Abstract(), heapStart) + PAGE_SIZE * (pages + 1) <= mem.Length)
      modifies this, mem
      ensures r == Outcome(old(Abstract()), heapStart, pages, GapWord(old(mem[..]), old(Abstract()), heapStart))
      ensures r.Pointer? || r.Stray? ==> Valid() && PayloadsKept(old(mem[..]), mem[..], Live(old(blocks)))
      ensures r.Pointer? ==> (Abstract(), r.ptr) == HeapSpec.MallocPages(old(Abstract()), heapStart, pages)
      ensures r.Stray? ==> Abstract() == old(Abstract())
      ensures !r.Pointer? ==>
                var (block, gapEnd) := (GapStart(old(Abstract()), heapStart), GapEnd(old(Abstract()), heapStart));
                && block + HEADER <= gapEnd <= mem.Length
                && ShortGapWrites(old(mem[..]), mem[..], block,
                                  StrayTrailer(gapEnd, WordAt(old(mem[..]), block + 1)), end,
                                  pages, r)
                && (!r.Stray? ==> heapEnd == kernelHeapEnd == gapEnd + PAGE_SIZE * (pages + 1))
                && (r.Loose? ==> end == r.ptr - HEADER && Tagged(mem[..], Block(end, PAGE_SIZE * pages, true)))
    {
      if pages == 0 {
        return Pointer(0);
      }
      ghost var s := Abstract();
      var block := OpenGap();
      if heapEnd - block >= MIN_GAP {
        FillGap(block, pages, s);
        return Pointer(end + HEADER);
      } else {
        HoldsIffWord(mem[..], block + 1, WordAt(mem[..], block + 1));
        r := FillShortGap(block, pages, WordAt(mem[..], block + 1));
      }
    }
  }
}
