/** The process list and the cooperative round robin of kernel/arch/i386/process.c as a state
    machine: which process runs, with which registers and which directory. */
module ProcessSpec {
  import opened Page

  datatype Registers = Registers(ebp: uint32, edi: uint32, esi: uint32, edx: uint32, ecx: uint32, ebx: uint32,
                                 eax: uint32,
                                 eip: uint32, cs: uint32, eflags: uint32, esp: uint32, ss: uint32)

  /** saved is process_state; directory the physical address of the page directory. */
  datatype Proc = Proc(pid: uint32, directory: uint32, saved: Registers)

  /** The list from `first` to `last`, the place of `current` in it, pid_inc and cr3. */
  datatype System = System(procs: seq<Proc>, cur: nat, nextPid: uint32, cr3: uint32)

  predicate Running(s: System) { s.cur < |s.procs| }

  /** A call into the kernel by the running process; fork comes with the child's directory. Launch
      is the kernel's own call of add_process. */
  datatype Call = Yield(regs: Registers) | Exit(regs: Registers) | Fork(regs: Registers, child: uint32)
                | GetPid(regs: Registers) | Launch(directory: uint32, saved: Registers)

  /** Resume with what sys_return restores, Stay in the kernel after add_process, or Halt when the
      last process has exited. */
  datatype Outcome = Resume(regs: Registers) | Stay | Halt

  function Succ(i: nat, n: nat): nat { if i + 1 == n then 0 else i + 1 }

  /** add_process and add_forked_process: a new process joins at the end. */
  function Add(s: System, directory: uint32, saved: Registers): System {
    s.(procs := s.procs + [Proc(s.nextPid, directory, saved)], nextPid := (s.nextPid + 1) % LIMIT)
  }

  /** run_process on place i */
  function Switch(s: System, i: nat): (System, Outcome)
    requires i < |s.procs|
  {
    (s.(cur := i, cr3 := s.procs[i].directory), Resume(s.procs[i].saved))
  }

  function Step(s: System, c: Call): (System, Outcome)
    requires Running(s)
  {
    match c
    case Yield(regs) =>
      Switch(s.(procs := s.procs[s.cur := s.procs[s.cur].(saved := regs)]), Succ(s.cur, |s.procs|))
    case Exit(regs) =>
      if |s.procs| == 1 then (s, Halt)
      else Switch(s.(procs := s.procs[..s.cur] + s.procs[s.cur + 1..]), if s.cur + 1 == |s.procs| then 0 else s.cur)
    case Fork(regs, child) =>
      (Add(s, child, regs.(eax := 0)), Resume(regs.(eax := s.nextPid)))
    case GetPid(regs) => (s, Resume(regs.(eax := s.procs[s.cur].pid)))
    case Launch(directory, saved) => (Add(s, directory, saved), Stay)
  }

  /** The kernel has not halted after the calls. */
  predicate Survives(s: System, cs: seq<Call>)
    requires Running(s)
    decreases |cs|, 0
  {
    cs == [] || (Survives(s, cs[..|cs| - 1]) && Step(Run(s, cs[..|cs| - 1]), cs[|cs| - 1]).1 != Halt)
  }

  /** The state after the calls; there is none once the kernel has halted. */
  function Run(s: System, cs: seq<Call>): (t: System)
    requires Running(s) && Survives(s, cs)
    ensures Running(t)
    decreases |cs|, 1
  {
    if cs == [] then s else Step(Run(s, cs[..|cs| - 1]), cs[|cs| - 1]).0
  }

  lemma {:induction false} PrefixSurvives(s: System, cs: seq<Call>, k: nat)
    requires Running(s) && Survives(s, cs) && k <= |cs|
    ensures Survives(s, cs[..k])
    decreases |cs|
  {
    if k == |cs| {
      assert cs[..k] == cs;
    } else {
      PrefixSurvives(s, cs[..|cs| - 1], k);
      assert cs[..|cs| - 1][..k] == cs[..k];
    }
  }

  // ---- pids

  /** Pids increase strictly along the list and stay below pid_inc. */
  ghost predicate Ordered(s: System) {
    && (forall i, j :: 0 <= i < j < |s.procs| ==> s.procs[i].pid < s.procs[j].pid)
    && (forall i :: 0 <= i < |s.procs| ==> s.procs[i].pid < s.nextPid)
  }

  /** A new process keeps the pids in order exactly until the counter wraps. */
  lemma AddKeepsOrderIff(s: System, directory: uint32, saved: Registers)
    requires Ordered(s)
    ensures Ordered(Add(s, directory, saved)) <==> s.nextPid + 1 < LIMIT
  {
    var t := Add(s, directory, saved);
    assert t.procs[|s.procs|].pid == s.nextPid;
  }

  /** fork or add_process */
  predicate Adds(c: Call) { c.Fork? || c.Launch? }

  /** The processes the calls add. */
  function Added(cs: seq<Call>): nat {
    if cs == [] then 0 else Added(cs[..|cs| - 1]) + if Adds(cs[|cs| - 1]) then 1 else 0
  }

  /** The pid counter does not wrap during the calls. */
  predicate NoWrap(s: System, cs: seq<Call>) { s.nextPid + Added(cs) < LIMIT }

  /** The place a process had before the call. */
  function Source(s: System, c: Call, i: nat): nat {
    if c.Exit? && |s.procs| > 1 && s.cur <= i then i + 1 else i
  }

  /** Every process after a call was there before, or is the one added; only a yield
      changes a saved state, and an exit removes the running process alone. */
  lemma StepSource(s: System, c: Call, i: nat)
    requires Running(s) && i < |Step(s, c).0.procs| && !(Adds(c) && i == |s.procs|)
    ensures var h := Source(s, c, i);
      && h < |s.procs|
      && Step(s, c).0.procs[i] ==
         (if c.Yield? && h == s.cur then s.procs[h].(saved := c.regs) else s.procs[h])
      && (c.Exit? && |s.procs| > 1 ==> h != s.cur)
  {
  }

  lemma StepKeepsOrder(s: System, c: Call)
    requires Running(s) && Ordered(s) && (Adds(c) ==> s.nextPid + 1 < LIMIT)
    ensures Ordered(Step(s, c).0)
    ensures Step(s, c).0.nextPid == s.nextPid + if Adds(c) then 1 else 0
  {
    match c
    case Fork(regs, child) => AddKeepsOrderIff(s, child, regs.(eax := 0));
    case Launch(directory, saved) => AddKeepsOrderIff(s, directory, saved);
    case _ =>
      forall i: nat | i < |Step(s, c).0.procs|
        ensures Source(s, c, i) < |s.procs| && Step(s, c).0.procs[i].pid == s.procs[Source(s, c, i)].pid
      {
        StepSource(s, c, i);
      }
      SourcesOrdered(s, Step(s, c).0, c);
  }

  lemma SourcesOrdered(s: System, t: System, c: Call)
    requires Ordered(s) && t.nextPid == s.nextPid
    requires forall i: nat :: i < |t.procs| ==>
               Source(s, c, i) < |s.procs| && t.procs[i].pid == s.procs[Source(s, c, i)].pid
    ensures Ordered(t)
  {
    forall i: nat, j: nat | i < j < |t.procs|
      ensures Source(s, c, i) < Source(s, c, j)
    {}
  }

  lemma {:induction false} RunKeepsOrder(s: System, cs: seq<Call>)
    requires Running(s) && Survives(s, cs) && Ordered(s) && NoWrap(s, cs)
    ensures Ordered(Run(s, cs)) && Run(s, cs).nextPid == s.nextPid + Added(cs)
    decreases |cs|
  {
    if cs != [] {
      RunKeepsOrder(s, cs[..|cs| - 1]);
      StepKeepsOrder(Run(s, cs[..|cs| - 1]), cs[|cs| - 1]);
    }
  }

  // ---- context switches

  function CurrentPid(s: System): uint32
    requires Running(s)
  {
    s.procs[s.cur].pid
  }

  datatype Context = Context(directory: uint32, regs: Registers)

  /** The context of process pid on a list, if it is there. */
  ghost function Initial(ps: seq<Proc>, pid: uint32): Option<Context> {
    if ps == [] then None
    else if ps[0].pid == pid then Some(Context(ps[0].directory, ps[0].saved))
    else Initial(ps[1..], pid)
  }

  lemma {:induction false} InitialAt(ps: seq<Proc>, i: nat)
    requires i < |ps| && forall j, k :: 0 <= j < k < |ps| ==> ps[j].pid < ps[k].pid
    ensures Initial(ps, ps[i].pid) == Some(Context(ps[i].directory, ps[i].saved))
  {
    if i > 0 { InitialAt(ps[1..], i - 1); }
  }

  /** What the calls so far say the process pid must continue with: the registers it passed to
      its own last yield, or those its parent passed to the fork that created it with eax = 0,
      or what it was launched with; and the directory it was created with. */
  ghost function Expected(s: System, cs: seq<Call>, pid: uint32): Option<Context>
    requires Running(s) && Survives(s, cs)
    decreases |cs|
  {
    if cs == [] then Initial(s.procs, pid)
    else
      var earlier, c := cs[..|cs| - 1], cs[|cs| - 1];
      var t := Run(s, earlier);
      var before := Expected(s, earlier, pid);
      match c
      case Yield(regs) => if pid == CurrentPid(t) && before.Some? then Some(before.value.(regs := regs)) else before
      case Exit(regs) => if pid == CurrentPid(t) then None else before
      case Fork(regs, child) => if pid == t.nextPid then Some(Context(child, regs.(eax := 0))) else before
      case GetPid(regs) => before
      case Launch(directory, saved) => if pid == t.nextPid then Some(Context(directory, saved)) else before
  }

  /** The saved contexts are those the history of calls prescribes. */
  lemma {:induction false} SavedContexts(s: System, cs: seq<Call>, i: nat)
    requires Running(s) && Survives(s, cs) && Ordered(s) && NoWrap(s, cs) && i < |Run(s, cs).procs|
    ensures var p := Run(s, cs).procs[i]; Expected(s, cs, p.pid) == Some(Context(p.directory, p.saved))
    decreases |cs|
  {
    if cs == [] {
      InitialAt(s.procs, i);
    } else {
      var earlier, c := cs[..|cs| - 1], cs[|cs| - 1];
      var t := Run(s, earlier);
      RunKeepsOrder(s, earlier);
      if !(Adds(c) && i == |t.procs|) {
        StepSource(t, c, i);
        SavedContexts(s, earlier, Source(t, c, i));
      }
    }
  }

  /** After any calls, a switch resumes a process with exactly the registers it last gave up the
      processor with, under its own directory; fork returns the child's pid to the parent, whose
      registers and directory are otherwise untouched. The kernel halts exactly when the last process exits. */
  lemma SwitchIsFaithful(s: System, cs: seq<Call>, c: Call)
    requires Running(s) && Survives(s, cs) && Ordered(s) && NoWrap(s, cs + [c])
    ensures var (t, out) := Step(Run(s, cs), c);
      && (out == Halt <==> c.Exit? && |Run(s, cs).procs| == 1)
      && (out == Halt <==> !Survives(s, cs + [c]))
      && (!c.Yield? && !c.Exit? ==> t.cr3 == Run(s, cs).cr3 && t.procs[t.cur] == Run(s, cs).procs[t.cur])
      && match c
         case Fork(regs, _) => out == Resume(regs.(eax := t.procs[|t.procs| - 1].pid)) &&
                               CurrentPid(t) == CurrentPid(Run(s, cs))
         case GetPid(regs) => out == Resume(regs.(eax := CurrentPid(t)))
         case Launch(_, _) => out == Stay && CurrentPid(t) == CurrentPid(Run(s, cs))
         case _ => out.Resume? ==> Expected(s, cs + [c], CurrentPid(t)) == Some(Context(t.cr3, out.regs))
  {
    assert (cs + [c])[..|cs|] == cs;
    if (c.Yield? || c.Exit?) && Survives(s, cs + [c]) {
      SavedContexts(s, cs + [c], Run(s, cs + [c]).cur);
    }
  }

  // ---- bounded waiting

  /** Links from `current` forward to place i. */
  function Ahead(s: System, i: nat): nat
    requires Running(s) && i < |s.procs|
  {
    if s.cur <= i then i - s.cur else i - s.cur + |s.procs|
  }

  function Switches(cs: seq<Call>): nat {
    if cs == [] then 0 else Switches(cs[..|cs| - 1]) + if cs[|cs| - 1].Yield? || cs[|cs| - 1].Exit? then 1 else 0
  }

  /** A switch brings every process that does not run one link closer; a process that is added
      pushes back by one those behind its place. */
  lemma StepTowards(s: System, c: Call, i: nat) returns (j: nat)
    requires Running(s) && i < |s.procs| && i != s.cur && Step(s, c).1 != Halt
    ensures var t := Step(s, c).0;
      && j < |t.procs| && t.procs[j].pid == s.procs[i].pid
      && Ahead(t, j) + (if c.Yield? || c.Exit? then 1 else 0) <= Ahead(s, i) + if Adds(c) then 1 else 0
  {
    j := if c.Exit? && s.cur < i then i - 1 else i;
  }

  /** Process pid runs after the first k of the calls. */
  ghost predicate RunsAfter(s: System, cs: seq<Call>, k: nat, pid: uint32)
    requires Running(s) && Survives(s, cs) && k <= |cs|
  {
    PrefixSurvives(s, cs, k);
    CurrentPid(Run(s, cs[..k])) == pid
  }

  lemma {:induction false} WaitingTime(s: System, cs: seq<Call>, i: nat) returns (j: nat)
    requires Running(s) && Survives(s, cs) && i < |s.procs|
    requires forall k: nat :: k <= |cs| ==> !RunsAfter(s, cs, k, s.procs[i].pid)
    ensures CloserBy(s, Run(s, cs), i, j, Switches(cs), Added(cs)) && j != Run(s, cs).cur
    decreases |cs|
  {
    assert cs[..|cs|] == cs && !RunsAfter(s, cs, |cs|, s.procs[i].pid);
    if cs == [] {
      j := i;
    } else {
      var earlier, c := cs[..|cs| - 1], cs[|cs| - 1];
      forall k: nat | k <= |earlier|
        ensures !RunsAfter(s, earlier, k, s.procs[i].pid)
      {
        assert earlier[..k] == cs[..k] && !RunsAfter(s, cs, k, s.procs[i].pid);
      }
      var h := WaitingTime(s, earlier, i);
      j := CloserStep(s, Run(s, earlier), c, i, h, Switches(earlier), Added(earlier));
    }
  }

  /** Place j of t holds the process at place i of s, which came closer with every switch but for
      the processes added. */
  ghost predicate CloserBy(s: System, t: System, i: nat, j: nat, switches: nat, added: nat)
    requires Running(s) && Running(t) && i < |s.procs|
  {
    j < |t.procs| && t.procs[j].pid == s.procs[i].pid && Ahead(t, j) + switches <= Ahead(s, i) + added
  }

  lemma CloserStep(s: System, t: System, c: Call, i: nat, h: nat, switches: nat, added: nat) returns (j: nat)
    requires Running(s) && Running(t) && i < |s.procs| && CloserBy(s, t, i, h, switches, added)
    requires h != t.cur && Step(t, c).1 != Halt
    ensures Running(Step(t, c).0)
    ensures CloserBy(s, Step(t, c).0, i, j, switches + (if c.Yield? || c.Exit? then 1 else 0),
                     added + if Adds(c) then 1 else 0)
  {
    j := StepTowards(t, c, h);
  }

  /** A process d links ahead of the running one has run after at most d switches, plus one for
      every process added in the meantime. */
  lemma BoundedWaiting(s: System, cs: seq<Call>, i: nat)
    requires Running(s) && Survives(s, cs) && i < |s.procs|
    requires Ahead(s, i) + Added(cs) <= Switches(cs)
    ensures exists k: nat :: k <= |cs| && RunsAfter(s, cs, k, s.procs[i].pid)
  {
    if forall k: nat :: k <= |cs| ==> !RunsAfter(s, cs, k, s.procs[i].pid) {
      var j := WaitingTime(s, cs, i);
    }
  }

  // ---- rotation

  ghost predicate AllYields(cs: seq<Call>) {
    forall k :: 0 <= k < |cs| ==> cs[k].Yield?
  }

  /** Place reached from place i of n by k links. */
  function Forward(i: nat, k: nat, n: nat): nat
    requires i < n && k <= n
  {
    if i + k < n then i + k else i + k - n
  }

  lemma {:induction false} YieldsRotate(s: System, cs: seq<Call>)
    requires Running(s) && AllYields(cs) && |cs| <= |s.procs|
    ensures Survives(s, cs)
    ensures var t := Run(s, cs);
      && |t.procs| == |s.procs| && t.cur == Forward(s.cur, |cs|, |s.procs|)
      && forall i :: 0 <= i < |s.procs| ==> t.procs[i].pid == s.procs[i].pid
    decreases |cs|
  {
    if cs != [] {
      assert cs[|cs| - 1].Yield?;
      YieldsRotate(s, cs[..|cs| - 1]);
    }
  }

  /** With n processes and nothing but yields, n of them let every process run exactly once and
      return to the first. */
  lemma FullRound(s: System, cs: seq<Call>, i: nat)
    requires Running(s) && AllYields(cs) && |cs| == |s.procs| && i < |s.procs|
    ensures Survives(s, cs) && Run(s, cs).cur == s.cur
    ensures forall k: nat :: k < |cs| ==> Survives(s, cs[..k]) && (Run(s, cs[..k]).cur == i <==> k == Ahead(s, i))
  {
    YieldsRotate(s, cs);
    forall k: nat | k < |cs|
      ensures Survives(s, cs[..k]) && (Run(s, cs[..k]).cur == i <==> k == Ahead(s, i))
    {
      YieldsRotate(s, cs[..k]);
    }
  }
}
