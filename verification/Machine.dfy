/** The process list with the address spaces of its processes: what fork, yield and the writes of
    user code do to all of them (kernel/arch/i386/process.c). */
module Machine {
  import opened Page
  import opened Bitmap
  import HeapSpec
  import opened PagingSpec
  import opened Paging
  import opened AddressSpace
  import AddressCopy
  import opened HeapFrames
  import opened ProcessSpec
  import opened ProcessRing
  import opened Fork

  const PROCESS: nat := 68   // sizeof(process_t)

  ghost predicate NoneShared(p: ProcessMemory, q: ProcessMemory) {
    forall f: FrameNumber :: Owns(p, f) ==> !Owns(q, f)
  }

  /** Process i has the directory of address space i; each is sound and no two share a frame. */
  ghost predicate SpacesSound(procs: seq<Proc>, spaces: seq<ProcessMemory>, m: Memory, table: FrameNumber,
                              held: set<nat>) {
    && |procs| == |spaces|
    && (forall i :: 0 <= i < |procs| ==> procs[i].directory == spaces[i].directory * PAGE_SIZE)
    && (forall i :: 0 <= i < |procs| ==> ProcessSound(m, spaces[i], table, held))
    && (forall i, j :: 0 <= i < |procs| && 0 <= j < |procs| && i != j ==> NoneShared(spaces[i], spaces[j]))
  }

  /** An address space depends on its own frames. */
  lemma ProcessSoundStays(m: Memory, n: Memory, p: ProcessMemory, table: FrameNumber, held: set<nat>, more: set<nat>)
    requires ProcessSound(m, p, table, held) && held <= more && SameFrames(m, n, p)
    ensures ProcessSound(n, p, table, more)
  {
    assert Owns(p, p.directory);
    TracksDependsOnFrames(m, n, p);
    SharesKernelStays(m, n, p.directory, table, held, more);
  }

  lemma SameDirectories(procs: seq<Proc>, after: seq<Proc>, spaces: seq<ProcessMemory>, m: Memory, table: FrameNumber,
                        held: set<nat>)
    requires SpacesSound(procs, spaces, m, table, held) && |after| == |procs|
    requires forall i :: 0 <= i < |procs| ==> after[i].directory == procs[i].directory
    ensures SpacesSound(after, spaces, m, table, held)
  {
  }

  /** The copy of an address space leaves those there are. */
  lemma GrowthKeepsSpaces(procs: seq<Proc>, spaces: seq<ProcessMemory>, m: Memory, n: Memory, table: FrameNumber,
                          held: set<nat>, more: set<nat>, c: ProcessMemory)
    requires SpacesSound(procs, spaces, m, table, held) && held <= more
    requires forall f: FrameNumber :: f in held ==> n[f] == m[f]
    requires forall f: FrameNumber :: Owns(c, f) ==> f !in held
    ensures SpacesSound(procs, spaces, n, table, more)
    ensures forall i :: 0 <= i < |spaces| ==> NoneShared(spaces[i], c) && NoneShared(c, spaces[i])
  {
    forall i | 0 <= i < |procs|
      ensures ProcessSound(n, spaces[i], table, more) && NoneShared(spaces[i], c) && NoneShared(c, spaces[i])
    {
      ProcessSoundStays(m, n, spaces[i], table, held, more);
    }
  }

  lemma AddedSpace(procs: seq<Proc>, spaces: seq<ProcessMemory>, m: Memory, table: FrameNumber, held: set<nat>,
                   c: ProcessMemory, q: Proc)
    requires SpacesSound(procs, spaces, m, table, held) && ProcessSound(m, c, table, held)
    requires q.directory == c.directory * PAGE_SIZE
    requires forall i :: 0 <= i < |spaces| ==> NoneShared(spaces[i], c) && NoneShared(c, spaces[i])
    ensures SpacesSound(procs + [q], spaces + [c], m, table, held)
  {
  }

  /** A write by one process leaves the others as they are. */
  lemma WriteKeepsSpaces(procs: seq<Proc>, spaces: seq<ProcessMemory>, m: Memory, table: FrameNumber, held: set<nat>,
                         i: nat, va: uint32, w: uint32)
    requires SpacesSound(procs, spaces, m, table, held) && i < |spaces| && User(va)
    ensures var n := Write(m, spaces[i].directory, va, w);
      && SpacesSound(procs, spaces, n, table, held)
      && (forall j :: 0 <= j < |spaces| && j != i ==> SameFrames(m, n, spaces[j]))
      && (forall f: FrameNumber :: f !in held ==> n[f] == m[f])
  {
    var p, n := spaces[i], Write(m, spaces[i].directory, va, w);
    forall f: FrameNumber | !Owns(p, f)
      ensures n[f] == m[f]
    {
      WriteStaysInside(m, p, va, w, f);
    }
    forall j | 0 <= j < |spaces| && j != i
      ensures SameFrames(m, n, spaces[j]) && ProcessSound(n, spaces[j], table, held)
    {
      assert NoneShared(spaces[j], p);
      ProcessSoundStays(m, n, spaces[j], table, held, held);
    }
    WriteKeepsTracks(m, p, va, w);
    WriteKeepsDirectory(m, p, va, w);
    SharesKernelStays(m, n, p.directory, table, held, held);
  }

  lemma WriteKeepsDirectory(m: Memory, p: ProcessMemory, va: uint32, w: uint32)
    requires Tracks(m, p) && PagesApart(p) && User(va)
    ensures Write(m, p.directory, va, w)[p.directory] == m[p.directory]
  {
    ReadIsTracked(m, p, va);
  }

  class Computer {
    const scheduler: Scheduler
    const forker: Forker
    ghost var spaces: seq<ProcessMemory>   // process_memory of each process on the list

    ghost predicate Valid()
      reads this, scheduler, scheduler.ring
      reads forker, forker.unit, forker.unit.memory, forker.unit.bitmap, forker.unit.bitmap.words
    {
      && scheduler.Valid() && scheduler.current != null && forker.Valid()
      && SpacesSound(Procs(), spaces, forker.unit.memory[..], forker.kernelTable, forker.held)
      && forker.unit.directory == spaces[scheduler.cur].directory
    }

    ghost function Procs(): seq<Proc>
      reads scheduler, scheduler.ring
    {
      scheduler.Abstract().procs
    }

    constructor (scheduler: Scheduler, forker: Forker, ghost spaces: seq<ProcessMemory>)
      requires scheduler.Valid() && scheduler.current != null && forker.Valid()
      requires SpacesSound(scheduler.Abstract().procs, spaces, forker.unit.memory[..], forker.kernelTable, forker.held)
      requires forker.unit.directory == spaces[scheduler.cur].directory
      ensures Valid() && this.scheduler == scheduler && this.forker == forker && this.spaces == spaces
    {
      this.scheduler, this.forker, this.spaces := scheduler, forker, spaces;
    }

    /** fork by the running process, whose process_memory is p */
    method Fork(state: Registers, p: ProcessMemory, stale: Registers) returns (out: Outcome, c: ProcessMemory)
      requires Valid() && p == spaces[scheduler.cur]
      requires HeapSpec.RoomyGap(HeapSpec.Malloc(forker.heap, forker.heapStart, HeapSpec.RECORD).0, forker.heapStart)
      requires Room(forker.State(), forker.heapStart, 3 + Requests(p, 0))
      modifies this`spaces, scheduler`first, scheduler`last, scheduler`ring, scheduler`pidInc, scheduler.ring
      modifies forker`heap, forker`held, forker.unit`heapEnd
      modifies forker.unit.memory, forker.unit.bitmap, forker.unit.bitmap.words
      ensures Valid() && spaces == old(spaces) + [c]
      ensures (scheduler.Abstract(), out) ==
              Step(old(scheduler.Abstract()), ProcessSpec.Fork(state, c.directory * PAGE_SIZE))
      ensures Copied(old(forker.unit.memory[..]), forker.unit.memory[..], p, c, forker.kernelTable)
      ensures forall f: FrameNumber :: f in old(forker.held) ==> forker.unit.memory[f] == old(forker.unit.memory[f])
    {
      ghost var s := scheduler.Abstract();
      c := CopyRunning(p);
      assert scheduler.Abstract() == s;
      out := AddProcess(state, c, stale);
    }

    /** The copy of the running process's address space, beside those of all processes */
    method CopyRunning(p: ProcessMemory) returns (c: ProcessMemory)
      requires Valid() && p == spaces[scheduler.cur]
      requires HeapSpec.RoomyGap(HeapSpec.Malloc(forker.heap, forker.heapStart, HeapSpec.RECORD).0, forker.heapStart)
      requires Room(forker.State(), forker.heapStart, 3 + Requests(p, 0))
      modifies forker`heap, forker`held, forker.unit`heapEnd
      modifies forker.unit.memory, forker.unit.bitmap, forker.unit.bitmap.words
      ensures Valid() && ProcessSound(forker.unit.memory[..], c, forker.kernelTable, forker.held)
      ensures forall i :: 0 <= i < |spaces| ==> NoneShared(spaces[i], c) && NoneShared(c, spaces[i])
      ensures Copied(old(forker.unit.memory[..]), forker.unit.memory[..], p, c, forker.kernelTable)
      ensures forall f: FrameNumber :: f in old(forker.held) ==> forker.unit.memory[f] == old(forker.unit.memory[f])
    {
      ghost var m, held := forker.unit.memory[..], forker.held;
      c := CopySpace(p);
      GrowthKeepsSpaces(Procs(), spaces, m, forker.unit.memory[..], forker.kernelTable, held, forker.held, c);
    }

    /** The list part of fork */
    method AddProcess(state: Registers, c: ProcessMemory, stale: Registers) returns (out: Outcome)
      requires Valid() && ProcessSound(forker.unit.memory[..], c, forker.kernelTable, forker.held)
      requires forall i :: 0 <= i < |spaces| ==> NoneShared(spaces[i], c) && NoneShared(c, spaces[i])
      modifies this`spaces, scheduler`first, scheduler`last, scheduler`ring, scheduler`pidInc, scheduler.ring
      ensures Valid() && spaces == old(spaces) + [c]
      ensures (scheduler.Abstract(), out) ==
              Step(old(scheduler.Abstract()), ProcessSpec.Fork(state, c.directory * PAGE_SIZE))
    {
      ghost var s := scheduler.Abstract();
      out := scheduler.Fork(state, c.directory * PAGE_SIZE, stale);
      ghost var q := Proc(s.nextPid, c.directory * PAGE_SIZE, state.(eax := 0));
      assert Procs() == s.procs + [q];
      AddedSpace(s.procs, spaces, forker.unit.memory[..], forker.kernelTable, forker.held, c, q);
      spaces := spaces + [c];
    }

    /** The memory part of fork, with the record of the new process. */
    method CopySpace(p: ProcessMemory) returns (c: ProcessMemory)
      requires forker.Valid() && ProcessSound(forker.unit.memory[..], p, forker.kernelTable, forker.held)
      requires p.directory == forker.unit.directory
      requires HeapSpec.RoomyGap(HeapSpec.Malloc(forker.heap, forker.heapStart, HeapSpec.RECORD).0, forker.heapStart)
      requires Room(forker.State(), forker.heapStart, 3 + Requests(p, 0))
      modifies forker`heap, forker`held, forker.unit`heapEnd
      modifies forker.unit.memory, forker.unit.bitmap, forker.unit.bitmap.words
      ensures forker.Valid() && old(forker.held) <= forker.held
      ensures Copied(old(forker.unit.memory[..]), forker.unit.memory[..], p, c, forker.kernelTable)
      ensures ProcessSound(forker.unit.memory[..], c, forker.kernelTable, forker.held)
      ensures forall f: FrameNumber :: Owns(c, f) ==> f !in old(forker.held)
      ensures forall f: FrameNumber :: f in old(forker.held) ==> forker.unit.memory[f] == old(forker.unit.memory[f])
    {
      ghost var m := forker.unit.memory[..];
      c := forker.Fork(p, 1);
      ghost var n := forker.unit.memory[..];
      forker.Record(PROCESS, 0);
      CopiedStays(m, n, forker.unit.memory[..], p, c, forker.kernelTable);
      ProcessSoundStays(n, forker.unit.memory[..], c, forker.kernelTable, forker.held, forker.held);
    }

    /** yield: the next process runs under its own directory. */
    method Yield(state: Registers) returns (out: Outcome)
      requires Valid()
      modifies scheduler`current, scheduler`cr3, scheduler`cur, scheduler.current, forker.unit`directory
      ensures Valid() && spaces == old(spaces)
      ensures (scheduler.Abstract(), out) == Step(old(scheduler.Abstract()), ProcessSpec.Yield(state))
    {
      ghost var procs := Procs();
      out := scheduler.Yield(state);
      SameDirectories(procs, Procs(), spaces, forker.unit.memory[..], forker.kernelTable, forker.held);
      forker.unit.LoadDirectory(scheduler.cr3 / PAGE_SIZE);
    }

    /** A write of the running process to a user address that is mapped: no other process's memory
        changes. */
    method UserWrite(va: uint32, w: uint32)
      requires Valid() && User(va) && Walk(forker.unit.memory[..], forker.unit.directory, va).Some?
      modifies forker.unit.memory
      ensures Valid()
      ensures forker.unit.memory[..] == Write(old(forker.unit.memory[..]), forker.unit.directory, va, w)
      ensures forall i, seen :: 0 <= i < |spaces| && i != scheduler.cur && User(seen) ==>
                Read(forker.unit.memory[..], spaces[i].directory, seen) ==
                Read(old(forker.unit.memory[..]), spaces[i].directory, seen)
    {
      ghost var m, k := forker.unit.memory[..], forker.State();
      WriteKeepsSpaces(Procs(), spaces, m, forker.kernelTable, forker.held, scheduler.cur, va, w);
      HeldApart(k, forker.dir, forker.kernelTable, forker.heapStart, forker.held);
      forker.unit.Store(va, w);
      ghost var n := forker.unit.memory[..];
      WritesKeepKernel(k, n, forker.dir, forker.kernelTable, forker.heapStart, forker.held);
      forall i, seen | 0 <= i < |spaces| && i != scheduler.cur && User(seen)
        ensures Read(n, spaces[i].directory, seen) == Read(m, spaces[i].directory, seen)
      {
        ReadDependsOnFrames(m, n, spaces[i], seen);
      }
    }
  }

  lemma CopiedStays(m: Memory, n: Memory, n2: Memory, p: ProcessMemory, c: ProcessMemory, table: FrameNumber)
    requires Copied(m, n, p, c, table) && SameFrames(n, n2, p) && SameFrames(n, n2, c)
    ensures Copied(m, n2, p, c, table)
  {
    assert Owns(c, c.directory);
    forall i: Index | TableAt(p, i)
      ensures TableCopied(m, n2, p.tables[i].value, c.tables[i].value)
    {
      forall f: FrameNumber | TableOwns(c.tables[i].value, f) ensures n2[f] == n[f] {
        assert Owns(c, f);
      }
      AddressCopy.TableStays(m, n, n2, p.tables[i].value, c.tables[i].value);
    }
  }
}
