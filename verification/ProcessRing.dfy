/** The circular doubly linked process list of kernel/arch/i386/process.c, edited in place.
    Every method is proved to refine a step of ProcessSpec. */
module ProcessRing {
  import opened Page
  import opened ProcessSpec

  class Process {
    var state: Registers
    var directory: uint32
    var pid: uint32
    var next: Process?
    var prev: Process?

    constructor (state: Registers, directory: uint32, pid: uint32)
      ensures this.state == state && this.directory == directory && this.pid == pid
    {
      this.state, this.directory, this.pid, next, prev := state, directory, pid, null, null;
    }
  }

  ghost predicate Linked(ring: seq<Process>, i: nat)
    requires i < |ring|
    reads ring
  {
    ring[i].next == ring[Succ(i, |ring|)] && ring[Succ(i, |ring|)].prev == ring[i]
  }

  /** The processes form one cycle in this order, next and prev being inverse. */
  ghost predicate Cycle(ring: seq<Process>)
    reads ring
  {
    && (forall i: nat | i < |ring| :: Linked(ring, i))
    && (forall i, j :: 0 <= i < j < |ring| ==> ring[i] != ring[j])
  }

  function Pred(i: nat, n: nat): int { if i == 0 then n - 1 else i - 1 }

  function Without<T>(s: seq<T>, c: nat): seq<T>
    requires c < |s|
  {
    s[..c] + s[c + 1..]
  }

  /** The register state given to a new process before its own registers are set. */
  const USER_STACK: uint32 := 0xBFFF_FFFC
  const USER_CODE: uint32 := 0x1B
  const USER_DATA: uint32 := 0x23
  const USER_FLAGS: uint32 := 0x210

  class Scheduler {
    var first: Process?
    var last: Process?
    var current: Process?
    var pidInc: uint32
    var cr3: uint32
    ghost var ring: seq<Process>
    ghost var cur: nat

    /** `first` and `last` are the ends of the cycle. */
    ghost predicate ListValid()
      reads this, ring
    {
      && Cycle(ring)
      && (ring == [] ==> first == null && last == null)
      && (ring != [] ==> first == ring[0] && last == ring[|ring| - 1])
    }

    /** The process that runs, if any, is on the list. */
    ghost predicate Valid()
      reads this, ring
    {
      ListValid() && (current != null ==> cur < |ring| && current == ring[cur])
    }

    ghost function Abstract(): System
      reads this, ring
    {
      System(seq(|ring|, i requires 0 <= i < |ring| reads this, ring =>
                 Proc(ring[i].pid, ring[i].directory, ring[i].state)),
             cur, pidInc, cr3)
    }

    constructor ()
      ensures Valid() && ring == [] && pidInc == 1
    {
      first, last, current, pidInc, cr3, ring, cur := null, null, null, 1, 0, [], 0;
    }

    /** The list part of add_process and add_forked_process. */
    method Append(p: Process)
      requires Valid() && p !in ring
      modifies this`first, this`last, this`ring, ring, p
      ensures Valid() && ring == old(ring) + [p]
      ensures p.pid == old(p.pid) && p.directory == old(p.directory) && p.state == old(p.state)
      ensures forall q :: q in old(ring) ==>
                q.pid == old(q.pid) && q.directory == old(q.directory) && q.state == old(q.state)
    {
      if first == null {
        first, last := p, p;
        first.prev := null;
      }
      p.prev := last;
      p.next := first;
      first.prev := p;
      last.next := p;
      last := p;
      ghost var old_ring := ring;
      ring := ring + [p];
      forall i: nat | i < |ring|
        ensures Linked(ring, i)
      {
        assert i < |old_ring| ==> old(Linked(ring, i));
        assert 0 < i ==> old(Linked(ring, i - 1));
      }
    }

    /** add_forked_process; stale is what malloc left in the registers it does not set. */
    method AddForkedProcess(directory: uint32, stale: Registers) returns (p: Process)
      requires Valid()
      modifies this`first, this`last, this`ring, this`pidInc, ring
      ensures Valid() && fresh(p) && ring == old(ring) + [p]
      ensures p.pid == old(pidInc) && p.directory == directory && pidInc == (old(pidInc) + 1) % LIMIT
      ensures p.state == stale.(ss := 0x23, esp := 0xBFFF_FFFC, eflags := 0x210, cs := 0x1B, eip := 0)
      ensures Abstract() == Add(old(Abstract()), directory, p.state)
      ensures forall q :: q in old(ring) ==>
                q.pid == old(q.pid) && q.directory == old(q.directory) && q.state == old(q.state)
    {
      ghost var s := Abstract();
      p := new Process(stale, directory, pidInc);
      pidInc := (pidInc + 1) % LIMIT;
      p.state := p.state.(ss := USER_DATA, esp := USER_STACK, eflags := USER_FLAGS, cs := USER_CODE, eip := 0);
      Append(p);
      assert Abstract().procs == s.procs + [Proc(s.nextPid, directory, p.state)];
    }

    /** add_process: as above with the registers that carry argc, argv, envc and envp. */
    method AddProcess(directory: uint32, argc: uint32, envc: uint32, envp: uint32, stale: Registers)
      returns (p: Process)
      requires Valid()
      modifies this`first, this`last, this`ring, this`pidInc, ring
      ensures Valid() && fresh(p) && ring == old(ring) + [p]
      ensures p.pid == old(pidInc) && p.directory == directory && pidInc == (old(pidInc) + 1) % LIMIT
      ensures p.state == stale.(ss := 0x23, esp := 0xBFFF_FFFC, eflags := 0x210, cs := 0x1B, eip := 0,
                                edx := envp, ecx := envc, ebx := 0x40_0000, eax := argc)
      ensures Abstract() == Add(old(Abstract()), directory, p.state)
      ensures forall q :: q in old(ring) ==>
                q.pid == old(q.pid) && q.directory == old(q.directory) && q.state == old(q.state)
    {
      ghost var s := Abstract();
      p := AddForkedProcess(directory, stale);
      SetState(p, p.state.(edx := envp, ecx := envc, ebx := 0x40_0000, eax := argc));
      assert Abstract().procs == s.procs + [Proc(s.nextPid, directory, p.state)];
    }

    method RunProcess(p: Process, ghost i: nat) returns (out: Outcome)
      requires ListValid() && i < |ring| && ring[i] == p
      modifies this`current, this`cr3, this`cur
      ensures Valid() && current == p && ring == old(ring)
      ensures (Abstract(), out) == Switch(old(Abstract()), i)
    {
      current, cur := p, i;
      cr3 := p.directory;
      out := Resume(p.state);
      assert Abstract().procs == old(Abstract().procs);
    }

    /** An assignment to p->process_state. */
    method SetState(p: Process, state: Registers)
      requires Valid()
      modifies p`state
      ensures Valid() && p.state == state
    {
      p.state := state;
      assert forall i: nat | i < |ring| :: old(Linked(ring, i)) ==> Linked(ring, i);
    }

    method Yield(state: Registers) returns (out: Outcome)
      requires Valid() && current != null
      modifies this`current, this`cr3, this`cur, current
      ensures Valid() && current != null && ring == old(ring)
      ensures (Abstract(), out) == Step(old(Abstract()), ProcessSpec.Yield(state))
    {
      assert Linked(ring, cur);
      ghost var s := Abstract();
      SetState(current, state);
      assert Abstract().procs == s.procs[cur := s.procs[cur].(saved := state)];
      out := RunProcess(current.next, Succ(cur, |ring|));
    }

    /** fork, given the directory of the copied address space. */
    method Fork(state: Registers, directory: uint32, stale: Registers) returns (out: Outcome)
      requires Valid() && current != null
      modifies this`first, this`last, this`ring, this`pidInc, ring
      ensures Valid() && current == old(current)
      ensures (Abstract(), out) == Step(old(Abstract()), ProcessSpec.Fork(state, directory))
    {
      ghost var s, before := Abstract(), ring;
      var p := AddForkedProcess(directory, stale);
      SetState(p, state);
      SetState(p, p.state.(eax := 0));
      out := Resume(state.(eax := p.pid));
      assert Abstract().procs == s.procs + [Proc(s.nextPid, directory, state.(eax := 0))];
    }

    method GetPid(state: Registers) returns (out: Outcome)
      requires Valid() && current != null
      ensures (Abstract(), out) == Step(Abstract(), ProcessSpec.GetPid(state))
    {
      out := Resume(state.(eax := current.pid));
    }

    /** The neighbours of the running process are linked to each other. */
    method Bypass()
      requires Cycle(ring) && |ring| > 1 && cur < |ring| && current == ring[cur]
      modifies ring
      ensures Cycle(Without(ring, cur)) && current.next == old(current.next)
      ensures forall q :: q in ring ==>
                q.pid == old(q.pid) && q.directory == old(q.directory) && q.state == old(q.state)
    {
      ghost var c, n := cur, |ring|;
      assert Linked(ring, c) && Linked(ring, Pred(c, n));
      current.prev.next := current.next;
      current.next.prev := current.prev;
      ghost var after := Without(ring, c);
      forall k: nat | k < |after|
        ensures Linked(after, k)
      {
        var a := if k < c then k else k + 1;
        assert old(Linked(ring, a));
        assert a == Pred(c, n) || after[Succ(k, n - 1)] == ring[Succ(a, n)];
      }
    }

    /** Takes the running process, one of several, off the list. */
    method Unlink() returns (next: Process, ghost i: nat)
      requires Valid() && current != null && |ring| > 1
      modifies this`first, this`last, this`ring, ring
      ensures ListValid() && ring == Without(old(ring), cur)
      ensures i == (if cur + 1 == |old(ring)| then 0 else cur) && i < |ring| && ring[i] == next
      ensures forall q :: q in old(ring) ==>
                q.pid == old(q.pid) && q.directory == old(q.directory) && q.state == old(q.state)
    {
      assert Linked(ring, cur) && Linked(ring, Pred(cur, |ring|));
      if current == first {
        first := current.next;
      }
      if current == last {
        last := current.prev;
      }
      Bypass();
      next := current.next;
      i := if cur + 1 == |ring| then 0 else cur;
      ring := Without(ring, cur);
    }

    /** The running process leaves the list; Halt when it is the only one. */
    method HandleExit(state: Registers) returns (out: Outcome)
      requires Valid() && current != null
      modifies this`first, this`last, this`current, this`cr3, this`ring, this`cur, ring
      ensures Valid() && current != null
      ensures (Abstract(), out) == Step(old(Abstract()), Exit(state))
    {
      if current == first && current == last {
        return Halt;
      }
      out := SwitchAway();
    }

    /** The running process, one of several, leaves the list and the next one runs. */
    method SwitchAway() returns (out: Outcome)
      requires Valid() && current != null && |ring| > 1
      modifies this`first, this`last, this`current, this`cr3, this`ring, this`cur, ring
      ensures Valid() && current != null
      ensures var s := old(Abstract());
        (Abstract(), out) == Switch(s.(procs := Without(s.procs, s.cur)), if s.cur + 1 == |s.procs| then 0 else s.cur)
    {
      ghost var s := Abstract();
      var next;
      ghost var i;
      next, i := Unlink();
      cr3 := next.directory;
      assert Abstract().procs == Without(s.procs, cur);
      out := RunProcess(next, i);
    }
  }
}
