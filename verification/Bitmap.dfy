/** The physical page bitmap (kernel/arch/i386/page.c): one bit a page frame, 32 to a word, and a
    search hint that skips words known to be full. */
module Bitmap {
  import opened Page
  import opened Bits

  const WORDS: nat := 32768

  // ---- what the bitmap means

  predicate IsUsed(ws: seq<uint32>, p: nat)
    requires |ws| == WORDS && p < FRAMES
  {
    Bit(ws[p / 32], p % 32)
  }

  ghost function UsedFrames(ws: seq<uint32>): set<nat>
    requires |ws| == WORDS
  {
    set p: nat | p < FRAMES && IsUsed(ws, p)
  }

  /** The lowest free frame at or above `from`, or FRAMES. */
  ghost function LowestFree(used: set<nat>, from: nat): (p: nat)
    requires from <= FRAMES
    ensures from <= p <= FRAMES
    ensures forall q :: from <= q < p ==> q in used
    ensures p < FRAMES ==> p !in used
    decreases FRAMES - from
  {
    if from == FRAMES then FRAMES else if from !in used then from else LowestFree(used, from + 1)
  }

  ghost predicate HasFree(used: set<nat>) {
    LowestFree(used, 0) < FRAMES
  }

  /** allocate_next_page: the frames in use afterwards and the address returned. */
  ghost function Allocate(used: set<nat>): (set<nat>, nat) {
    var p := LowestFree(used, 0);
    if p < FRAMES then (used + {p}, p * PAGE_SIZE) else (used, 0)
  }

  /** Once frame 0 is in use, an address of 0 means that no frame was free. */
  lemma ZeroMeansExhausted(used: set<nat>)
    ensures (Allocate(used).1 == 0 <==> !HasFree(used)) <==> (0 in used || !HasFree(used))
    ensures !HasFree(used) <==> forall p: nat :: p < FRAMES ==> p in used
  {
  }

  ghost predicate FullBefore(ws: seq<uint32>, w: nat)
    requires w <= |ws|
  {
    forall v :: 0 <= v < w ==> ws[v] == FULL
  }

  /** Whatever words before the hint are full, the first word that is not full holds the lowest
      free frame: starting at the hint loses nothing. */
  lemma FirstRoomyWord(ws: seq<uint32>, w: nat, b: nat)
    requires |ws| == WORDS && w < WORDS && b < 32 && !Bit(ws[w], b)
    requires FullBefore(ws, w)
    requires forall c: nat :: c < b ==> Bit(ws[w], c)
    ensures LowestFree(UsedFrames(ws), 0) == w * 32 + b
  {
    var p := w * 32 + b;
    assert p / 32 == w && p % 32 == b;
    assert !IsUsed(ws, p);
    forall q: nat | q < p
      ensures q in UsedFrames(ws)
    {
      FullIff(ws[q / 32]);
      assert IsUsed(ws, q);
    }
    assert p !in UsedFrames(ws);
    LowestFreeIs(UsedFrames(ws), p);
  }

  lemma LowestFreeIs(used: set<nat>, p: nat)
    requires p < FRAMES && p !in used && forall q: nat :: q < p ==> q in used
    ensures LowestFree(used, 0) == p
  {
  }

  /** Setting the bits lo..hi of a word marks the frames they stand for. */
  lemma FramesMarked(ws: seq<uint32>, offset: nat, u: uint32, lo: nat, hi: nat)
    requires |ws| == WORDS && offset < WORDS && lo <= hi <= 32
    requires HasBits(u, lo, hi)
    ensures UsedFrames(ws[offset := Or32(ws[offset], u)]) ==
            UsedFrames(ws) + WordFrames(offset, lo, hi)
  {
    var vs := ws[offset := Or32(ws[offset], u)];
    forall p: nat | p < FRAMES
      ensures IsUsed(vs, p) <==> (IsUsed(ws, p) || InWord(offset, lo, hi, p))
    {
      OrBit(ws[offset], u, p % 32);
    }
  }

  ghost function WordFrames(offset: nat, lo: nat, hi: nat): set<nat> {
    set p: nat | p < FRAMES && InWord(offset, lo, hi, p)
  }

  predicate InWord(offset: nat, lo: nat, hi: nat, p: nat) {
    offset * 32 + lo <= p < offset * 32 + hi
  }

  lemma SingleFrame(offset: nat, b: nat)
    requires b < 32 && offset < WORDS
    ensures WordFrames(offset, b, b + 1) == {offset * 32 + b}
  {
  }

  /** Taking the lowest clear bit of the first word that is not full is Allocate. */
  lemma TakeEffect(ws: seq<uint32>, w: nat, b: nat)
    requires |ws| == WORDS && w < WORDS && b < 32 && !Bit(ws[w], b) && FullBefore(ws, w)
    requires forall c: nat :: c < b ==> Bit(ws[w], c)
    ensures HasBits(Mask(b), b, b + 1)
    ensures Allocate(UsedFrames(ws)) == (UsedFrames(ws) + WordFrames(w, b, b + 1), (w * 32 + b) * PAGE_SIZE)
  {
    FirstRoomyWord(ws, w, b);
    SingleFrame(w, b);
    MaskHasBit(b);
  }

  lemma FrameCleared(ws: seq<uint32>, offset: nat, bit: nat)
    requires |ws| == WORDS && offset < WORDS && bit < 32
    ensures UsedFrames(ws[offset := And32(ws[offset], Not(Mask(bit)))]) == UsedFrames(ws) - {offset * 32 + bit}
  {
    var vs := ws[offset := And32(ws[offset], Not(Mask(bit)))];
    forall p: nat | p < FRAMES
      ensures IsUsed(vs, p) <==> (IsUsed(ws, p) && p != offset * 32 + bit)
    {
      AndBit(ws[offset], Not(Mask(bit)), p % 32);
      NotBit(Mask(bit), p % 32);
      Pow2Bit(bit, p % 32);
    }
  }

  lemma AllWordsFull(ws: seq<uint32>)
    requires |ws| == WORDS && FullBefore(ws, WORDS)
    ensures !HasFree(UsedFrames(ws))
  {
    var p := LowestFree(UsedFrames(ws), 0);
    if p < FRAMES {
      FullIff(ws[p / 32]);
    }
  }

  // ---- regions reserved at boot

  ghost function Pages(start: nat, n: nat): set<nat> {
    set p: nat | p < FRAMES && InSpan(start, n, p)
  }

  /** A memory map entry: address and length in two words each, and its type. */
  datatype Region = Region(start: uint32, startHigh: uint32, length: uint32, lengthHigh: uint32, kind: uint32) {
    function Start(): nat { start + startHigh * LIMIT }

    function End(): nat { Start() + length + lengthHigh * LIMIT }
  }

  /** The end the code computes: 32-bit wrap-around to 0 stands for the top of memory. */
  function RegionEnd(r: Region): uint32 {
    var end := (r.start + r.length) % LIMIT;
    if end == 0 then LIMIT - 1 else end
  }

  /** NUM_PAGES of a region in 32-bit arithmetic. */
  function RegionCount(r: Region): nat {
    (RegionEnd(r) / PAGE_SIZE - r.start / PAGE_SIZE + if RegionEnd(r) % PAGE_SIZE != 0 then 1 else 0) % LIMIT
  }

  const ENTRY: nat := 6   // words of a memory map entry: its size field and 20 bytes

  function Regions(mm: seq<uint32>): seq<Region>
    requires |mm| % ENTRY == 0
  {
    seq(|mm| / ENTRY, i requires 0 <= i < |mm| / ENTRY =>
      Region(mm[i * ENTRY + 1], mm[i * ENTRY + 2], mm[i * ENTRY + 3], mm[i * ENTRY + 4], mm[i * ENTRY + 5]))
  }

  /** The words of an entry as the boot loader lays it out (section 3.3 of the Multiboot Specification
      0.6.96): the size of what follows, address, length and type, low words first. */
  function EntryWords(r: Region): seq<uint32> { [20, r.start, r.startHigh, r.length, r.lengthHigh, r.kind] }

  function MapWords(rs: seq<Region>): seq<uint32> {
    if rs == [] then [] else MapWords(rs[..|rs| - 1]) + EntryWords(rs[|rs| - 1])
  }

  lemma {:induction false} MapWordsAt(rs: seq<Region>, i: nat, j: nat)
    requires i < |rs| && j < 6
    ensures |MapWords(rs)| == 6 * |rs| && MapWords(rs)[6 * i + j] == EntryWords(rs[i])[j]
    decreases |rs|
  {
    var front := rs[..|rs| - 1];
    if front == [] {
      assert MapWords(front) == [];
    } else {
      MapWordsAt(front, if i < |front| then i else 0, j);
    }
  }

  /** A memory map that lists these entries is read as these entries. */
  lemma RegionsOfMap(rs: seq<Region>)
    ensures |MapWords(rs)| % ENTRY == 0 && Regions(MapWords(rs)) == rs
  {
    if rs != [] { MapWordsAt(rs, 0, 0); }
    forall i | 0 <= i < |rs|
      ensures Regions(MapWords(rs))[i] == rs[i]
    {
      forall j: nat | j < 6 ensures MapWords(rs)[6 * i + j] == EntryWords(rs[i])[j] { MapWordsAt(rs, i, j); }
    }
  }

  /** Marking a reserved region does not run past the end of the bitmap. */
  predicate InBitmap(r: Region) { r.kind != 1 ==> r.start / PAGE_SIZE + RegionCount(r) <= FRAMES }

  ghost predicate AllInBitmap(rs: seq<Region>) {
    forall r :: r in rs ==> InBitmap(r)
  }

  /** The pages from address 0 that the computed end reaches into. */
  function EndPages(r: Region): nat { RegionEnd(r) / PAGE_SIZE + if RegionEnd(r) % PAGE_SIZE != 0 then 1 else 0 }

  /** The low words sum to more than 4 GB. */
  predicate Wraps(r: Region) { LIMIT < r.start + r.length }

  /** It does not exactly if the region is available memory, or its low words do not wrap, or the
      wrapped end is still in the page of the start or at its lower bound. */
  lemma InBitmapIff(r: Region)
    ensures InBitmap(r) <==> r.kind == 1 || !Wraps(r) || r.start / PAGE_SIZE <= EndPages(r)
  {
    if !Wraps(r) {
      NoWrapCount(r);
    } else {
      WrapCount(r);
    }
  }

  lemma WrapCount(r: Region)
    requires Wraps(r)
    ensures EndPages(r) <= r.start / PAGE_SIZE + 1
    ensures RegionCount(r) ==
            EndPages(r) - r.start / PAGE_SIZE + if r.start / PAGE_SIZE <= EndPages(r) then 0 else LIMIT
  {
    assert RegionEnd(r) == r.start + r.length - LIMIT;
  }

  lemma NoWrapCount(r: Region)
    requires r.start + r.length <= LIMIT
    ensures r.start <= RegionEnd(r) && RegionCount(r) == NumPages(r.start, RegionEnd(r)) && InBitmap(r)
  {
  }

  ghost function BootPages(kernelStart: nat, kernelEnd: nat, info: nat, infoSize: nat): set<nat>
    requires kernelStart <= kernelEnd && 0xC000_0000 <= info
  {
    Pages(0, kernelStart / PAGE_SIZE) + Pages(kernelStart, NumPages(kernelStart, kernelEnd))
    + Pages(info - 0xC000_0000, NumPages(info, info + infoSize))
  }

  /** The low memory below the kernel, the kernel and the boot information are all marked. */
  lemma BootCovered(kernelStart: nat, kernelEnd: nat, info: nat, infoSize: nat, p: nat)
    requires kernelStart <= kernelEnd < LIMIT && kernelStart % PAGE_SIZE == 0
    requires 0xC000_0000 <= info && info + infoSize < LIMIT
    ensures Touches(0, kernelStart, p) || Touches(kernelStart, kernelEnd, p) ||
            Touches(info - 0xC000_0000, info - 0xC000_0000 + infoSize, p)
        ==> p in BootPages(kernelStart, kernelEnd, info, infoSize)
  {
  }

  /** While the pages marked at boot stay so, allocate_next_page returns 0 exactly if no frame is
      free. */
  lemma ZeroMeansExhaustedAfterBoot(used: set<nat>, kernelStart: nat, kernelEnd: nat, info: nat, infoSize: nat)
    requires 0 < kernelStart <= kernelEnd < LIMIT && kernelStart % PAGE_SIZE == 0
    requires 0xC000_0000 <= info && info + infoSize < LIMIT
    requires BootPages(kernelStart, kernelEnd, info, infoSize) <= used
    ensures Allocate(used).1 == 0 <==> !HasFree(used)
  {
  }

  ghost function RegionPages(rs: seq<Region>): set<nat> {
    if rs == [] then {}
    else RegionPages(rs[..|rs| - 1]) + ReservedPages(rs[|rs| - 1])
  }

  /** The pages marked for one region: none if it is available memory. */
  ghost function ReservedPages(r: Region): set<nat> {
    if r.kind != 1 then Pages(r.start, RegionCount(r)) else {}
  }

  lemma RegionStep(rs: seq<Region>, i: nat)
    requires i < |rs|
    ensures RegionPages(rs[..i + 1]) == RegionPages(rs[..i]) + ReservedPages(rs[i])
  {
    assert rs[..i + 1][..i] == rs[..i];
  }

  datatype Module = Module(start: uint32, end: uint32)

  ghost function ModulePages(ms: seq<Module>): set<nat>
    requires forall m :: m in ms ==> m.start <= m.end
  {
    if ms == [] then {}
    else ModulePages(ms[..|ms| - 1]) + Pages(ms[|ms| - 1].start, NumPages(ms[|ms| - 1].start, ms[|ms| - 1].end))
  }

  lemma {:induction false} ModulesCovered(ms: seq<Module>, m: Module, p: nat)
    requires (forall m :: m in ms ==> m.start <= m.end) && m in ms && Touches(m.start, m.end, p)
    ensures p in ModulePages(ms)
  {
    if m == ms[|ms| - 1] {
      NumPagesCountsTouchedPages(m.start, m.end);
    } else {
      assert m in ms[..|ms| - 1];
      ModulesCovered(ms[..|ms| - 1], m, p);
    }
  }

  /** Every page a reserved region below 4 GB touches is among those marked. */
  lemma {:induction false} RegionsCovered(rs: seq<Region>, r: Region, p: nat)
    requires r in rs && r.kind != 1 && r.End() <= LIMIT && Touches(r.Start(), r.End(), p)
    ensures p in RegionPages(rs)
  {
    if r == rs[|rs| - 1] {
      NoWrapCount(r);
      assert p < FRAMES && InSpan(r.start, RegionCount(r), p);
    } else {
      assert r in rs[..|rs| - 1];
      RegionsCovered(rs[..|rs| - 1], r, p);
    }
  }

  /** A marked page was marked for some region. */
  lemma {:induction false} MarkedForRegion(rs: seq<Region>, p: nat) returns (r: Region)
    requires p in RegionPages(rs)
    ensures r in rs && r.kind != 1 && p in ReservedPages(r)
  {
    if p in ReservedPages(rs[|rs| - 1]) {
      r := rs[|rs| - 1];
    } else {
      r := MarkedForRegion(rs[..|rs| - 1], p);
    }
  }

  /** The pages below 4 GB that a region touches. */
  ghost function TouchedPages(r: Region): set<nat> {
    set p: nat | p < FRAMES && Touches(r.Start(), r.End(), p)
  }

  /** When the low words alone give the pages a region touches. An empty entry must lie on a page
      boundary other than 0; an entry above 4 GB must have an empty low part in such a place; one
      that reaches beyond 4 GB must end in the last page by its low words. If these wrap, the end
      must come to lie at the start's page for an entry above 4 GB, else in the last page. */
  predicate LowWordsSuffice(r: Region) {
    if Wraps(r) then EndPages(r) == if r.startHigh > 0 then r.start / PAGE_SIZE else FRAMES
    else if r.startHigh > 0 then r.length == 0 && r.start != 0 && r.start % PAGE_SIZE == 0
    else if r.lengthHigh == 0 then 0 < r.length || (r.start != 0 && r.start % PAGE_SIZE == 0)
    else LIMIT - PAGE_SIZE < r.start + r.length || r.start + r.length == 0
  }

  /** Exactly then the marking stays in the bitmap and the pages marked for a reserved region are
      those it touches. */
  lemma RegionExactIff(r: Region)
    requires r.kind != 1
    ensures InBitmap(r) && ReservedPages(r) == TouchedPages(r) <==> LowWordsSuffice(r)
  {
    assert forall p: nat :: p in ReservedPages(r) <==> p < FRAMES && InSpan(r.start, RegionCount(r), p);
    assert forall p: nat :: p in TouchedPages(r) <==> p < FRAMES && Touches(r.Start(), r.End(), p);
    if Wraps(r) {
      WrappedExactIff(r);
    } else {
      NoWrapCount(r);
      UnwrappedExactIff(r);
    }
  }

  lemma WrappedExactIff(r: Region)
    requires r.kind != 1 && Wraps(r)
    ensures InBitmap(r) && ReservedPages(r) == TouchedPages(r) <==> LowWordsSuffice(r)
  {
    var first, last := r.start / PAGE_SIZE, FRAMES - 1;
    InBitmapIff(r);
    WrapCount(r);
    assert forall p: nat :: p in ReservedPages(r) <==> p < FRAMES && InSpan(r.start, RegionCount(r), p);
    assert forall p: nat :: p in TouchedPages(r) <==> p < FRAMES && Touches(r.Start(), r.End(), p);
    if r.startHigh > 0 {
      AboveTouchesNothing(r);
      if RegionCount(r) > 0 { assert InSpan(r.start, RegionCount(r), first); }
    } else {
      BeyondTouchesRest(r);
      assert first in TouchedPages(r) && last in TouchedPages(r);
    }
  }

  lemma UnwrappedExactIff(r: Region)
    requires r.kind != 1 && !Wraps(r)
    ensures ReservedPages(r) == TouchedPages(r) <==> LowWordsSuffice(r)
  {
    NoWrapCount(r);
    var first, last := r.start / PAGE_SIZE, FRAMES - 1;
    assert forall p: nat :: p in ReservedPages(r) <==> p < FRAMES && InSpan(r.start, RegionCount(r), p);
    assert forall p: nat :: p in TouchedPages(r) <==> p < FRAMES && Touches(r.Start(), r.End(), p);
    if r.startHigh > 0 {
      AboveTouchesNothing(r);
      if !LowWordsSuffice(r) { assert InSpan(r.start, RegionCount(r), first); }
    } else if r.lengthHigh == 0 {
      if 0 < r.length {
        SpanIsTouched(r);
      } else {
        assert !Touches(r.Start(), r.End(), first);
        if !LowWordsSuffice(r) { assert InSpan(r.start, RegionCount(r), first); }
      }
    } else {
      BeyondTouchesRest(r);
      if !LowWordsSuffice(r) { assert !InSpan(r.start, RegionCount(r), last); }
    }
  }

  /** A reserved entry far above 4 GB, at 0xFD_0000_0000 with length 0x3_0000_0000, has every frame
      marked though it touches none below 4 GB. */
  lemma HighEntryMarksEverything(p: nat)
    requires p < FRAMES
    ensures var r := Region(0, 0xFD, 0, 3, 2);
      r.Start() == 0xFD_0000_0000 && r.End() == r.Start() + 0x3_0000_0000 &&
      p in ReservedPages(r) && p !in TouchedPages(r)
  {
    var r := Region(0, 0xFD, 0, 3, 2);
    NoWrapCount(r);
    assert InSpan(r.start, RegionCount(r), p);
  }

  lemma AboveTouchesNothing(r: Region)
    requires r.startHigh > 0
    ensures TouchedPages(r) == {}
  {
    forall p: nat | p < FRAMES ensures !Touches(r.Start(), r.End(), p) {}
  }

  lemma SpanIsTouched(r: Region)
    requires r.startHigh == 0 && r.lengthHigh == 0 && 0 < r.length && r.start + r.length <= LIMIT
    ensures forall p: nat :: p < FRAMES ==> (InSpan(r.start, RegionCount(r), p) <==> Touches(r.Start(), r.End(), p))
  {
    NoWrapCount(r);
  }

  lemma BeyondTouchesRest(r: Region)
    requires r.startHigh == 0 && (r.lengthHigh > 0 || Wraps(r))
    ensures forall p: nat :: p < FRAMES ==> (Touches(r.Start(), r.End(), p) <==> r.start / PAGE_SIZE <= p)
  {
  }

  // ---- what is marked at boot, by the intervals that reserve memory

  /** Page p is touched by something that is in use at boot. */
  ghost predicate InUseAtBoot(kernelStart: nat, kernelEnd: nat, info: nat, infoSize: nat, ms: seq<Module>,
                              rs: seq<Region>, p: nat)
    requires 0xC000_0000 <= info
  {
    || Touches(0, kernelStart, p) || Touches(kernelStart, kernelEnd, p)
    || Touches(info - 0xC000_0000, info - 0xC000_0000 + infoSize, p)
    || (exists i :: 0 <= i < |ms| && Touches(ms[i].start, ms[i].end, p))
    || (exists i :: 0 <= i < |rs| && rs[i].kind != 1 && Touches(rs[i].Start(), rs[i].End(), p))
  }

  /** The intervals can be told by their page counts: the kernel starts on a page boundary, nothing is
      empty inside a page, and the low words of reserved regions suffice. */
  predicate Tellable(kernelStart: nat, kernelEnd: nat, infoSize: nat, ms: seq<Module>, rs: seq<Region>) {
    && kernelStart <= kernelEnd < LIMIT && kernelStart % 4096 == 0 && 0 < infoSize
    && (forall i :: 0 <= i < |ms| ==> ms[i].start < ms[i].end || (ms[i].start == ms[i].end && ms[i].start % 4096 == 0))
    && (forall i :: 0 <= i < |rs| ==> rs[i].kind == 1 || LowWordsSuffice(rs[i]))
  }

  lemma PagesAreTouched(start: nat, end: nat, p: nat)
    requires start < end || (start == end && start % 4096 == 0)
    ensures p in Pages(start, NumPages(start, end)) <==> p < FRAMES && Touches(start, end, p)
  {
    NumPagesCountsTouchedPages(start, end);
    assert InSpan(start, NumPages(start, end), p) <==> Touches(start, end, p);
  }

  lemma InfoIsTouched(info: nat, infoSize: nat, p: nat)
    requires 0xC000_0000 <= info && 0 < infoSize
    ensures p in Pages(info - 0xC000_0000, NumPages(info, info + infoSize)) <==>
            p < FRAMES && Touches(info - 0xC000_0000, info - 0xC000_0000 + infoSize, p)
  {
    var a := info - 0xC000_0000;
    assert info == a + PAGE_SIZE * 0xC_0000;
    Quotient(info, PAGE_SIZE, a / PAGE_SIZE + 0xC_0000, a % PAGE_SIZE);
    Quotient(info + infoSize, PAGE_SIZE, (a + infoSize) / PAGE_SIZE + 0xC_0000, (a + infoSize) % PAGE_SIZE);
    PagesAreTouched(a, a + infoSize, p);
  }

  lemma {:induction false} ModulesAreTouched(ms: seq<Module>, p: nat)
    requires forall i :: 0 <= i < |ms| ==>
               ms[i].start < ms[i].end || (ms[i].start == ms[i].end && ms[i].start % 4096 == 0)
    requires forall m :: m in ms ==> m.start <= m.end
    ensures p in ModulePages(ms) <==> p < FRAMES && exists i :: 0 <= i < |ms| && Touches(ms[i].start, ms[i].end, p)
  {
    if ms != [] {
      var front, m := ms[..|ms| - 1], ms[|ms| - 1];
      ModulesAreTouched(front, p);
      PagesAreTouched(m.start, m.end, p);
      assert forall i :: 0 <= i < |front| ==> front[i] == ms[i];
    }
  }

  lemma {:induction false} RegionsAreTouched(rs: seq<Region>, p: nat)
    requires forall i :: 0 <= i < |rs| ==> rs[i].kind == 1 || LowWordsSuffice(rs[i])
    ensures p in RegionPages(rs) <==>
            p < FRAMES && exists i :: 0 <= i < |rs| && rs[i].kind != 1 && Touches(rs[i].Start(), rs[i].End(), p)
  {
    if rs != [] {
      var front, r := rs[..|rs| - 1], rs[|rs| - 1];
      RegionsAreTouched(front, p);
      if r.kind != 1 { RegionExactIff(r); }
      assert p in TouchedPages(r) <==> p < FRAMES && Touches(r.Start(), r.End(), p);
      assert forall i :: 0 <= i < |front| ==> front[i] == rs[i];
    }
  }

  /** The pages marked at boot are exactly those that something in use touches. */
  lemma BootMarksExactly(kernelStart: nat, kernelEnd: nat, info: nat, infoSize: nat, ms: seq<Module>,
                         rs: seq<Region>, p: nat)
    requires Tellable(kernelStart, kernelEnd, infoSize, ms, rs) && 0xC000_0000 <= info
    requires forall m :: m in ms ==> m.start <= m.end
    ensures p in BootPages(kernelStart, kernelEnd, info, infoSize) + ModulePages(ms) + RegionPages(rs) <==>
            p < FRAMES && InUseAtBoot(kernelStart, kernelEnd, info, infoSize, ms, rs, p)
  {
    Quotient(kernelStart, PAGE_SIZE, kernelStart / PAGE_SIZE, 0);
    PagesAreTouched(0, kernelStart, p);
    PagesAreTouched(kernelStart, kernelEnd, p);
    InfoIsTouched(info, infoSize, p);
    ModulesAreTouched(ms, p);
    RegionsAreTouched(rs, p);
  }

  /** The same of the frames used before and after they were marked. */
  lemma BootMarksAll(before: set<nat>, after: set<nat>, kernelStart: nat, kernelEnd: nat, info: nat, infoSize: nat,
                     ms: seq<Module>, rs: seq<Region>)
    requires Tellable(kernelStart, kernelEnd, infoSize, ms, rs) && 0xC000_0000 <= info
    requires forall m :: m in ms ==> m.start <= m.end
    requires after == before + BootPages(kernelStart, kernelEnd, info, infoSize) + ModulePages(ms) + RegionPages(rs)
    ensures UsedAtBoot(before, after, kernelStart, kernelEnd, info, infoSize, ms, rs)
  {
    forall p: nat
      ensures p in after <==>
              p in before || (p < FRAMES && InUseAtBoot(kernelStart, kernelEnd, info, infoSize, ms, rs, p))
    {
      BootMarksExactly(kernelStart, kernelEnd, info, infoSize, ms, rs, p);
    }
  }

  ghost predicate UsedAtBoot(before: set<nat>, after: set<nat>, kernelStart: nat, kernelEnd: nat, info: nat,
                             infoSize: nat, ms: seq<Module>, rs: seq<Region>)
    requires 0xC000_0000 <= info
  {
    forall p: nat ::
      p in after <==>
      p in before || (p < FRAMES && InUseAtBoot(kernelStart, kernelEnd, info, infoSize, ms, rs, p))
  }

  lemma PagesGrow(start: nat, n: nat, offset: nat, bit: nat, end: nat)
    requires bit <= end && offset * 32 + bit == start / PAGE_SIZE + n
    ensures Pages(start, n + (end - bit)) == Pages(start, n) + WordFrames(offset, bit, end)
  {
  }

  /** The scan of a word that is not full for its lowest clear bit. */
  method LowestClearBit(w: uint32) returns (mask: uint32, bit: nat)
    requires w != FULL
    ensures bit < 32 && mask == Mask(bit) && !Bit(w, bit)
    ensures forall c: nat :: c < bit ==> Bit(w, c)
  {
    mask, bit := 1, 0;
    FullIff(w);
    MaskTest(w, 0);
    while And32(w, mask) != 0
      invariant bit < 32 && mask == Mask(bit)
      invariant And32(w, mask) != 0 <==> Bit(w, bit)
      invariant forall c: nat :: c < bit ==> Bit(w, c)
      decreases 32 - bit
    {
      if bit == 31 {
        assert AllSet(w);
      }
      NextMask(bit);
      mask := mask * 2;
      bit := bit + 1;
      MaskTest(w, bit);
    }
  }

  class PageBitmap {
    const words: array<uint32>
    var freed: bool
    var lastAllocated: Option<nat>   // index of a word

    ghost predicate Valid()
      reads this, words
    {
      && words.Length == WORDS
      && (lastAllocated.Some? ==> lastAllocated.value < WORDS)
      && (!freed && lastAllocated.Some? ==> FullBefore(words[..], lastAllocated.value))
    }

    ghost function Used(): set<nat>
      requires words.Length == WORDS
      reads words
    {
      UsedFrames(words[..])
    }

    constructor (words: array<uint32>)
      requires words.Length == WORDS
      ensures Valid() && this.words == words && !freed && lastAllocated == None
    {
      this.words, freed, lastAllocated := words, false, None;
    }

    method AllocateNextPage() returns (page: nat)
      requires Valid()
      modifies this, words
      ensures Valid()
      ensures (Used(), page) == Allocate(old(Used()))
    {
      var block := if !freed && lastAllocated.Some? then lastAllocated.value else 0;
      while block < WORDS
        invariant block <= WORDS && unchanged(this, words)
        invariant FullBefore(words[..], block)
      {
        if words[block] != FULL {
          page := TakeLowestBit(block);
          return;
        }
        block := block + 1;
      }
      AllWordsFull(words[..]);
      page := 0;
    }

    method TakeLowestBit(block: nat) returns (page: nat)
      requires words.Length == WORDS && block < WORDS && words[block] != FULL
      requires FullBefore(words[..], block)
      modifies this, words
      ensures Valid() && !freed && lastAllocated == Some(block)
      ensures (Used(), page) == Allocate(old(Used()))
    {
      var mask, bit := LowestClearBit(words[block]);
      TakeEffect(words[..], block, bit);
      OrWord(block, mask, bit, bit + 1);
      lastAllocated := Some(block);
      freed := false;
      page := (block * 32 + bit) * PAGE_SIZE;
    }

    method StoreWord(offset: nat, w: uint32)
      requires offset < words.Length
      modifies words
      ensures words[..] == old(words[..])[offset := w]
    {
      words[offset] := w;
    }

    /** *(BITMAP_START + offset) |= update, where update has the bits from..to */
    method OrWord(offset: nat, update: uint32, ghost from: nat, ghost to: nat)
      requires words.Length == WORDS && offset < WORDS && from <= to <= 32 && HasBits(update, from, to)
      modifies words
      ensures Used() == old(Used()) + WordFrames(offset, from, to)
      ensures forall v :: 0 <= v < WORDS && (old(words[v]) == FULL || v != offset) ==> words[v] == old(words[v])
    {
      FramesMarked(words[..], offset, update, from, to);
      FullStaysFull(update);
      StoreWord(offset, Or32(words[offset], update));
    }

    method FreePhysicalPage(page: uint32)
      requires Valid()
      modifies this, words
      ensures Valid() && freed
      ensures Used() == old(Used()) - {page / PAGE_SIZE}
    {
      var offset, bit := page / PAGE_SIZE / 32, page / PAGE_SIZE % 32;
      FrameCleared(words[..], offset, bit);
      var update := Not(Mask(bit));
      StoreWord(offset, And32(words[offset], update));
      freed := true;
    }

    method CheckUsed(page: uint32) returns (used: bool)
      requires Valid()
      ensures used <==> page / PAGE_SIZE in Used()
    {
      var offset, bit := page / PAGE_SIZE / 32, page / PAGE_SIZE % 32;
      used := And32(words[offset], Mask(bit)) != 0;
      MaskTest(words[offset], bit);
      assert used == IsUsed(words[..], page / PAGE_SIZE);
    }

    /** The inner loop of mark_used: the bits of one word. */
    method WordUpdate(bit: nat, num: nat) returns (update: uint32, end: nat)
      requires bit < 32 && num > 0
      ensures end == if bit + num < 32 then bit + num else 32
      ensures HasBits(update, bit, end)
    {
      update, end := 0, bit;
      var left := num;
      NoBits(bit);
      while end < 32 && left > 0
        invariant bit <= end <= 32 && left == num - (end - bit)
        invariant HasBits(update, bit, end)
      {
        ExtendBits(update, bit, end);
        update := Or32(update, Mask(end));
        end := end + 1;
        left := left - 1;
      }
    }

    method MarkUsed(start: uint32, num: nat)
      requires Valid() && start / PAGE_SIZE + num <= FRAMES
      modifies words
      ensures Valid()
      ensures Used() == old(Used()) + Pages(start, num)
    {
      var offset: nat, bit: nat, left: nat := start / PAGE_SIZE / 32, start / PAGE_SIZE % 32, num;
      while left > 0
        invariant left <= num && bit < 32
        invariant left > 0 ==> offset * 32 + bit == start / PAGE_SIZE + (num - left)
        invariant Valid() && Used() == old(Used()) + Pages(start, num - left)
        decreases left
      {
        var update, end := WordUpdate(bit, left);
        ghost var done := Used();
        OrWord(offset, update, bit, end);
        PagesGrow(start, num - left, offset, bit, end);
        left := left - (end - bit);
        offset := offset + 1;
        bit := 0;
      }
    }

    /** kernelStart and kernelEnd are the physical bounds of the kernel image, info the virtual
        address of the boot information and infoSize its size; memoryMap holds the words of the
        boot loader's memory map, which may list the entries rs. */
    method InitBitmap(kernelStart: uint32, kernelEnd: uint32, info: uint32, infoSize: nat, modules: seq<Module>,
                      hasMemoryMap: bool, memoryMap: seq<uint32>, ghost rs: seq<Region>)
      requires Valid() && kernelStart <= kernelEnd && 0xC000_0000 <= info && info + infoSize < LIMIT
      requires forall m :: m in modules ==> m.start <= m.end
      requires |memoryMap| % ENTRY == 0 && AllInBitmap(Regions(memoryMap))
      modifies words
      ensures Valid()
      ensures Used() == old(Used()) + BootPages(kernelStart, kernelEnd, info, infoSize) + ModulePages(modules)
                        + if hasMemoryMap then RegionPages(Regions(memoryMap)) else {}
      ensures memoryMap == MapWords(rs) && Tellable(kernelStart, kernelEnd, infoSize, modules, rs) ==>
                UsedAtBoot(old(Used()), Used(), kernelStart, kernelEnd, info, infoSize, modules,
                           if hasMemoryMap then rs else [])
    {
      MarkUsed(0, kernelStart / PAGE_SIZE);
      MarkUsed(kernelStart, NumPages(kernelStart, kernelEnd));
      MarkUsed(info - 0xC000_0000, NumPages(info, info + infoSize));
      assert Used() == old(Used()) + BootPages(kernelStart, kernelEnd, info, infoSize);
      MarkModules(modules);
      if hasMemoryMap {
        MarkRegions(memoryMap);
      }
      if memoryMap == MapWords(rs) && Tellable(kernelStart, kernelEnd, infoSize, modules, rs) {
        RegionsOfMap(rs);
        assert RegionPages([]) == {};
        BootMarksAll(old(Used()), Used(), kernelStart, kernelEnd, info, infoSize, modules,
                     if hasMemoryMap then rs else []);
      }
    }

    method MarkModules(modules: seq<Module>)
      requires Valid() && forall m :: m in modules ==> m.start <= m.end
      modifies words
      ensures Valid() && Used() == old(Used()) + ModulePages(modules)
    {
      var i := 0;
      while i < |modules|
        invariant i <= |modules| && Valid() && Used() == old(Used()) + ModulePages(modules[..i])
      {
        MarkUsed(modules[i].start, NumPages(modules[i].start, modules[i].end));
        assert modules[..i + 1][..i] == modules[..i];
        i := i + 1;
      }
      assert modules[..i] == modules;
    }

    /** The pointer walk over one memory map entry. */
    method MarkRegion(memoryMap: seq<uint32>, entry: nat, ghost i: nat) returns (next: nat)
      requires Valid() && |memoryMap| % ENTRY == 0 && i < |Regions(memoryMap)| && entry == i * ENTRY
      requires InBitmap(Regions(memoryMap)[i])
      modifies words
      ensures Valid() && Used() == old(Used()) + ReservedPages(Regions(memoryMap)[i])
      ensures next == (i + 1) * ENTRY
    {
      next := entry + 1;
      var start := memoryMap[next];
      next := next + 2;
      var end := (start + memoryMap[next]) % LIMIT;
      if end == 0 {
        end := LIMIT - 1;
      }
      next := next + 2;
      var kind := memoryMap[next];
      next := next + 1;
      assert Regions(memoryMap)[i] ==
             Region(start, memoryMap[next - 4], memoryMap[next - 3], memoryMap[next - 2], kind);
      if kind != 1 {
        MarkUsed(start, (end / PAGE_SIZE - start / PAGE_SIZE + if end % PAGE_SIZE != 0 then 1 else 0) % LIMIT);
      }
    }

    method MarkRegions(memoryMap: seq<uint32>)
      requires Valid() && |memoryMap| % ENTRY == 0 && AllInBitmap(Regions(memoryMap))
      modifies words
      ensures Valid() && Used() == old(Used()) + RegionPages(Regions(memoryMap))
    {
      ghost var rs := Regions(memoryMap);
      ghost var i := 0;
      var mmap := 0;
      while mmap < |memoryMap|
        invariant i <= |rs| && mmap == i * ENTRY && Valid()
        invariant Used() == old(Used()) + RegionPages(rs[..i])
      {
        RegionStep(rs, i);
        mmap := MarkRegion(memoryMap, mmap, i);
        i := i + 1;
      }
      assert rs[..i] == rs;
    }
  }
}
