/** The flat arrays that represent the stacks of processes, and what the system calls and the
    timer do to them. */
module ProcessTable {
  import opened Stacks
  import opened Wrappers
  import opened Descriptors

  const START_OF_USER: nat := 0x800000
  const FRAME_SIZE: nat := 0x400000

  datatype Pcb = Pcb(pid: int, parentPid: int, terminalIdx: nat, fds: seq<Descriptor>)

  /** The kernel's globals: `frame` is the page frame mapped at 128 MB, `active` the terminal that
      output goes to. */
  datatype KState = KState(tasks: seq<int>, termArr: seq<int>, pcbs: seq<Pcb>, pid: nat, frame: nat, active: nat)

  /** The 20-bit frame number of the 4 MB page of process `p`. */
  function Frame(p: nat): nat {
    (START_OF_USER + p * FRAME_SIZE) / 0x1000 % 0x10_0000
  }

  function FreshDescriptors(): (fds: seq<Descriptor>)
    ensures |fds| == FD_COUNT
  {
    [Descriptor(StdinOps, 0, 0, true), Descriptor(StdoutOps, 0, 0, true)]
    + seq(FD_COUNT - FD_START, i => Descriptor(BadOps, 0, 0, false))
  }

  // ---------- representation ----------

  /** The PCB of the process at depth `i` of terminal `t`. */
  predicate PcbFor(pcb: Pcb, s: seq<seq<nat>>, t: nat, i: nat)
    requires t < |s| && i < |s[t]|
  {
    && pcb.pid == s[t][i]
    && pcb.terminalIdx == t
    && pcb.parentPid == (if i == 0 then s[t][0] else s[t][i - 1])
    && |pcb.fds| == FD_COUNT
  }

  ghost predicate Shaped(k: KState, pids: nat, terminals: nat) {
    |k.tasks| == pids && |k.pcbs| == pids && |k.termArr| == terminals
  }

  /** The arrays represent the stacks. */
  ghost predicate Represents(k: KState, tb: Table, pids: nat) {
    && WellFormed(tb, pids)
    && Shaped(k, pids, |tb.stacks|)
    && (forall t: nat :: t < |tb.stacks| ==> k.termArr[t] == if tb.stacks[t] == [] then -1 else Top(tb.stacks[t]))
    && (forall p: nat :: p < pids ==> (k.tasks[p] != 0 <==> Live(tb.stacks, p)))
    && (forall t: nat, i: nat, p: nat :: On(tb.stacks, t, i, p) ==> PcbFor(k.pcbs[p], tb.stacks, t, i))
    && k.pid < pids && k.pid == Top(tb.stacks[tb.cur])
    && k.active == tb.cur
    && k.frame == Frame(k.pid)
  }

  /** The arrays before the first process runs. */
  ghost predicate NotBooted(k: KState, pids: nat, terminals: nat) {
    && 0 < pids && 0 < terminals && Shaped(k, pids, terminals)
    && (forall p :: 0 <= p < pids ==> k.tasks[p] == 0)
    && (forall t :: 0 <= t < terminals ==> k.termArr[t] == -1)
    && k.pid == 0 && k.pcbs[0].terminalIdx == 0
  }

  // ---------- what the operations do to the arrays ----------

  /** The first unused slot from `i` on, or the number of slots. */
  function FirstZero(tasks: seq<int>, i: nat): (n: nat)
    requires i <= |tasks|
    ensures i <= n <= |tasks|
    ensures n < |tasks| ==> tasks[n] == 0
    ensures forall q :: i <= q < n ==> tasks[q] != 0
    decreases |tasks| - i
  {
    if i == |tasks| || tasks[i] == 0 then i else FirstZero(tasks, i + 1)
  }

  /** A new process `n` runs in the foreground of terminal `t`; unless it is the first one there,
      its parent is the process that was running. */
  function Started(k: KState, t: nat, n: nat): KState
    requires n < |k.tasks| == |k.pcbs| && t < |k.termArr| && k.pid < |k.pcbs|
  {
    var parent := if k.termArr[t] == -1 then n else k.pcbs[k.pid].pid;
    KState(k.tasks[n := 1], k.termArr[t := n], k.pcbs[n := Pcb(n, parent, t, FreshDescriptors())], n, Frame(n), t)
  }

  /** execute_terminal: nothing changes unless there is an executable and a free slot. */
  function Executed(k: KState, found: bool, t: nat): KState
    requires |k.tasks| == |k.pcbs| && t < |k.termArr| && k.pid < |k.pcbs|
  {
    var n := FirstZero(k.tasks, 0);
    if found && n < |k.tasks| then Started(k, t, n) else k
  }

  /** The parent's descriptors after the loop that closes, in the parent, every descriptor that the
      halting child still has open. */
  function CloseLeftOpen(parent: seq<Descriptor>, child: seq<Descriptor>): (fds: seq<Descriptor>)
    requires |parent| == |child| == FD_COUNT
    ensures |fds| == FD_COUNT
  {
    seq(FD_COUNT, (i: nat) requires i < FD_COUNT => ClosedIf(parent[i], i, child[i]))
  }

  /** Descriptor `i` of the parent, given that of the halting child. */
  function ClosedIf(parent: Descriptor, i: nat, child: Descriptor): Descriptor {
    if i >= FD_START && child.inUse then parent.(inUse := false) else parent
  }

  function Released(child: seq<Descriptor>): (fds: seq<Descriptor>)
    requires |child| == FD_COUNT
    ensures |fds| == FD_COUNT
  {
    seq(FD_COUNT, (i: nat) requires i < FD_COUNT => child[i].(ops := BadOps, inUse := false))
  }

  ghost predicate CanHalt(k: KState) {
    && k.pid < |k.pcbs| == |k.tasks|
    && var pcb := k.pcbs[k.pid];
       && pcb.pid == k.pid && 0 <= pcb.parentPid < |k.pcbs| && pcb.terminalIdx < |k.termArr|
       && |pcb.fds| == FD_COUNT && |k.pcbs[pcb.parentPid].fds| == FD_COUNT
       && k.pcbs[pcb.parentPid].pid == pcb.parentPid
  }

  /** sys_halt: back to the parent, or a new shell if there is none. */
  ghost function Halted(k: KState): KState
    requires CanHalt(k)
  {
    var p, pcb := k.pid, k.pcbs[k.pid];
    var q := pcb.parentPid;
    if q == p then
      Executed(k.(tasks := k.tasks[p := 0], termArr := k.termArr[pcb.terminalIdx := p]), true, pcb.terminalIdx)
    else
      var fds := CloseLeftOpen(k.pcbs[q].fds, pcb.fds);
      KState(k.tasks[p := 0], k.termArr[pcb.terminalIdx := q],
             k.pcbs[q := k.pcbs[q].(fds := fds)][p := pcb.(fds := Released(pcb.fds))], q, Frame(q), k.active)
  }

  /** The timer switches to the foreground process of terminal `t`. */
  function SwitchedTo(k: KState, t: nat): KState
    requires t < |k.termArr| && 0 <= k.termArr[t]
  {
    k.(pid := k.termArr[t], frame := Frame(k.termArr[t]), active := t)
  }

  // ---------- refinement ----------

  lemma FreeSlotIsLowestFree(k: KState, tb: Table, pids: nat)
    requires Represents(k, tb, pids)
    ensures FirstZero(k.tasks, 0) == LowestFree(tb.stacks, pids, 0)
  {
    var n, m := FirstZero(k.tasks, 0), LowestFree(tb.stacks, pids, 0);
    assert n < pids ==> !Live(tb.stacks, n);
    assert m < pids ==> k.tasks[m] == 0;
  }

  /** A new process on top of the running one, or first on an empty terminal. */
  lemma StartedRepresents(k: KState, tb: Table, pids: nat, t: nat, n: nat)
    requires Represents(k, tb, pids) && t < |tb.stacks|
    requires tb.stacks[t] == [] || t == tb.cur
    requires n < pids && !Live(tb.stacks, n)
    ensures Represents(Started(k, t, n), Table(tb.stacks[t := tb.stacks[t] + [n]], t), pids)
  {
    var s := tb.stacks;
    var s' := s[t := s[t] + [n]];
    var k' := Started(k, t, n);
    SubstWellFormed(s, pids, t, s[t] + [n], n);
    assert On(s', t, |s[t]|, n);
    assert On(s, tb.cur, |s[tb.cur]| - 1, k.pid);
    forall u: nat, i: nat, p: nat | On(s', u, i, p)
      ensures PcbFor(k'.pcbs[p], s', u, i)
    {
      if u == t && i == |s[t]| {
      } else {
        assert On(s, u, i, p);
        assert Live(s, p);
      }
    }
    forall p: nat | p < pids
      ensures k'.tasks[p] != 0 <==> Live(s', p)
    {
      LiveAfterPush(s, t, n, p);
    }
  }

  lemma LiveAfterPush(s: seq<seq<nat>>, t: nat, n: nat, p: nat)
    requires t < |s|
    ensures Live(s[t := s[t] + [n]], p) <==> Live(s, p) || p == n
  {
    var s' := s[t := s[t] + [n]];
    assert On(s', t, |s[t]|, n);
    if Live(s, p) {
      var u: nat, i: nat :| On(s, u, i, p);
      assert On(s', u, i, p);
    }
    if Live(s', p) && p != n {
      var u: nat, i: nat :| On(s', u, i, p);
      assert On(s, u, i, p);
    }
  }

  lemma LiveAfterPop(s: seq<seq<nat>>, t: nat, p: nat)
    requires Distinct(s) && t < |s| && s[t] != []
    ensures Live(s[t := s[t][..|s[t]| - 1]], p) <==> Live(s, p) && p != Top(s[t])
  {
    var s' := s[t := s[t][..|s[t]| - 1]];
    assert On(s, t, |s[t]| - 1, Top(s[t]));
    if Live(s, p) && p != Top(s[t]) {
      var u: nat, i: nat :| On(s, u, i, p);
      assert On(s', u, i, p);
    }
    if Live(s', p) {
      var u: nat, i: nat :| On(s', u, i, p);
      assert On(s, u, i, p);
    }
  }

  lemma RunningCanHalt(k: KState, tb: Table, pids: nat)
    requires Represents(k, tb, pids)
    ensures CanHalt(k) && k.pcbs[k.pid].terminalIdx == tb.cur
    ensures k.pcbs[k.pid].parentPid == k.pid <==> |tb.stacks[tb.cur]| == 1
    ensures |tb.stacks[tb.cur]| > 1 ==> k.pcbs[k.pid].parentPid == tb.stacks[tb.cur][|tb.stacks[tb.cur]| - 2]
  {
    var st := tb.stacks[tb.cur];
    assert On(tb.stacks, tb.cur, |st| - 1, k.pid);
    if |st| > 1 {
      assert On(tb.stacks, tb.cur, |st| - 2, st[|st| - 2]);
    }
  }

  lemma PoppedRepresents(k: KState, tb: Table, pids: nat)
    requires Represents(k, tb, pids) && |tb.stacks[tb.cur]| > 1
    ensures CanHalt(k)
    ensures Represents(Halted(k), Step(tb, pids, Halt), pids)
  {
    RunningCanHalt(k, tb, pids);
    StepWellFormed(tb, pids, Halt);
    var s, c, k' := tb.stacks, tb.cur, Halted(k);
    var s' := Step(tb, pids, Halt).stacks;
    forall u: nat, i: nat, p: nat | On(s', u, i, p)
      ensures PcbFor(k'.pcbs[p], s', u, i)
    {
      assert On(s, u, i, p);
      assert On(s, c, |s[c]| - 1, k.pid);
    }
    forall p: nat | p < pids
      ensures k'.tasks[p] != 0 <==> Live(s', p)
    {
      LiveAfterPop(s, c, p);
    }
  }

  /** Halting the first shell of a terminal keeps the representation, if no smaller pid is free. */
  lemma RootHaltRepresents(k: KState, tb: Table, pids: nat)
    requires Represents(k, tb, pids) && |tb.stacks[tb.cur]| == 1 && Allowed(tb, Halt)
    ensures CanHalt(k)
    ensures Represents(Halted(k), tb, pids)
  {
    RunningCanHalt(k, tb, pids);
    var s, c, p, k' := tb.stacks, tb.cur, k.pid, Halted(k);
    var tasks := k.tasks[p := 0];
    assert On(s, c, 0, p);
    forall q: nat | q < p
      ensures tasks[q] != 0
    {
      assert Live(s, q);
    }
    var n := FirstZero(tasks, 0);
    assert tasks[p] == 0 && n <= p;
    assert n == p;
    assert k'.tasks == tasks[p := 1];
    forall u: nat, i: nat, q: nat | On(s, u, i, q)
      ensures PcbFor(k'.pcbs[q], s, u, i)
    {
    }
  }

  /** If a smaller pid is free, the new shell takes it and keeps the dead process as its parent:
      the arrays then represent no stacks at all. */
  lemma RootHaltBreaks(k: KState, tb: Table, pids: nat, tb': Table)
    requires Represents(k, tb, pids) && |tb.stacks[tb.cur]| == 1 && !Allowed(tb, Halt)
    ensures CanHalt(k)
    ensures !Represents(Halted(k), tb', pids)
  {
    RunningCanHalt(k, tb, pids);
    var c, p, k' := tb.cur, k.pid, Halted(k);
    var tasks := k.tasks[p := 0];
    var n := FirstZero(tasks, 0);
    var q: nat :| q < p && !Live(tb.stacks, q);
    assert On(tb.stacks, c, 0, p);
    assert tasks[q] == 0;
    assert n < p && k'.pcbs[n].parentPid == p && k'.termArr[c] == n && k'.tasks[p] == 0;
    if Represents(k', tb', pids) {
      var st := tb'.stacks[c];
      assert st != [] && Top(st) == n;
      assert On(tb'.stacks, c, |st| - 1, n);
      assert PcbFor(k'.pcbs[n], tb'.stacks, c, |st| - 1);
      assert On(tb'.stacks, c, |st| - 2, p);
      assert Live(tb'.stacks, p);
      assert false;
    }
  }

  lemma TickRepresents(k: KState, tb: Table, pids: nat)
    requires Represents(k, tb, pids)
    ensures Represents(SwitchedTo(k, NextLive(InUse(tb.stacks), tb.cur)),
                       Table(tb.stacks, NextLive(InUse(tb.stacks), tb.cur)), pids)
  {
    var t := NextLive(InUse(tb.stacks), tb.cur);
    assert On(tb.stacks, t, |tb.stacks[t]| - 1, Top(tb.stacks[t]));
  }

  /** The first process of all. */
  lemma BootRepresents(k: KState, pids: nat, terminals: nat, t: nat)
    requires NotBooted(k, pids, terminals) && t < terminals
    ensures Represents(Executed(k, true, t), Table(seq(terminals, (u: nat) => if u == t then [0] else []), t), pids)
  {
    var s: seq<seq<nat>> := seq(terminals, (u: nat) => if u == t then [0] else []);
    assert FirstZero(k.tasks, 0) == 0;
    assert On(s, t, 0, 0);
    assert forall u: nat, i: nat, p: nat :: On(s, u, i, p) ==> u == t && i == 0 && p == 0;
  }

  // ---------- the arrays determine the stacks ----------

  lemma {:induction false} SameFromTop(k: KState, a: Table, b: Table, pids: nat, t: nat, j: nat)
    requires Represents(k, a, pids) && Represents(k, b, pids) && t < |a.stacks|
    requires j < |a.stacks[t]|
    ensures j < |b.stacks[t]|
    ensures a.stacks[t][|a.stacks[t]| - 1 - j] == b.stacks[t][|b.stacks[t]| - 1 - j]
    decreases j
  {
    var s, s' := a.stacks[t], b.stacks[t];
    if j > 0 {
      SameFromTop(k, a, b, pids, t, j - 1);
      var i, i' := |s| - j, |s'| - j;
      var p := s[i];
      assert On(a.stacks, t, i, p) && On(b.stacks, t, i', p);
      assert On(a.stacks, t, i - 1, s[i - 1]);
      assert s[i - 1] != p;
    }
  }

  /** The flat arrays represent one vector of stacks only. */
  lemma RepresentsOne(k: KState, a: Table, b: Table, pids: nat)
    requires Represents(k, a, pids) && Represents(k, b, pids)
    ensures a == b
  {
    forall t: nat | t < |a.stacks|
      ensures a.stacks[t] == b.stacks[t]
    {
      var s, s' := a.stacks[t], b.stacks[t];
      if s != [] { SameFromTop(k, a, b, pids, t, |s| - 1); }
      if s' != [] { SameFromTop(k, b, a, pids, t, |s'| - 1); }
      forall i | 0 <= i < |s|
        ensures s[i] == s'[i]
      {
        SameFromTop(k, a, b, pids, t, |s| - 1 - i);
      }
    }
    assert a.stacks == b.stacks;
  }

  // ---------- runs of the arrays ----------

  ghost predicate Coherent(k: KState, pids: nat) {
    exists tb :: Represents(k, tb, pids)
  }

  function InUseTerminals(termArr: seq<int>): (live: seq<bool>)
    ensures |live| == |termArr| && forall t :: 0 <= t < |termArr| ==> live[t] == (termArr[t] != -1)
  {
    seq(|termArr|, (t: nat) requires t < |termArr| => termArr[t] != -1)
  }

  lemma SameInUse(k: KState, tb: Table, pids: nat)
    requires Represents(k, tb, pids)
    ensures InUseTerminals(k.termArr) == InUse(tb.stacks)
  {
    assert forall t: nat :: t < |tb.stacks| ==> InUseTerminals(k.termArr)[t] == InUse(tb.stacks)[t];
  }

  /** One event on the arrays. */
  ghost function KStep(k: KState, pids: nat, ev: Event): KState
    requires Coherent(k, pids)
  {
    var tb :| Represents(k, tb, pids);
    RunningCanHalt(k, tb, pids);
    SameInUse(k, tb, pids);
    var c := k.pcbs[k.pid].terminalIdx;
    match ev
    case Execute(found) => Executed(k, found, c)
    case Halt => Halted(k)
    case Open(t) => if t < |k.termArr| && k.termArr[t] == -1 then Executed(k, true, t) else k
    case Tick =>
      if k.termArr[0] == -1 && FirstZero(k.tasks, 0) < |k.tasks| then Executed(k, true, 0)
      else SwitchedTo(k, NextLive(InUseTerminals(k.termArr), c))
  }

  /** Every event keeps the refinement, halting a first shell under its guard. */
  lemma KStepRefines(k: KState, tb: Table, pids: nat, ev: Event)
    requires Represents(k, tb, pids) && Allowed(tb, ev)
    ensures Coherent(k, pids)
    ensures Represents(KStep(k, pids, ev), Step(tb, pids, ev), pids)
  {
    RunningCanHalt(k, tb, pids);
    SameInUse(k, tb, pids);
    FreeSlotIsLowestFree(k, tb, pids);
    var s, c, n := tb.stacks, tb.cur, FirstZero(k.tasks, 0);
    match ev
    case Execute(found) =>
      if found && n < pids { StartedRepresents(k, tb, pids, c, n); }
    case Halt =>
      if |s[c]| > 1 { PoppedRepresents(k, tb, pids); } else { RootHaltRepresents(k, tb, pids); }
    case Open(t) =>
      if t < |s| && s[t] == [] && n < pids {
        StartedRepresents(k, tb, pids, t, n);
        assert s[t] + [n] == [n];
      }
    case Tick =>
      if s[0] == [] && n < pids {
        StartedRepresents(k, tb, pids, 0, n);
        assert s[0] + [n] == [n];
      } else {
        TickRepresents(k, tb, pids);
      }
  }

  ghost predicate AllAllowed(tb: Table, pids: nat, evs: seq<Event>)
    requires WellFormed(tb, pids)
    decreases |evs|
  {
    evs == [] ||
    (Allowed(tb, evs[0])
     && (StepWellFormed(tb, pids, evs[0]); AllAllowed(Step(tb, pids, evs[0]), pids, evs[1..])))
  }

  ghost function KRun(k: KState, pids: nat, evs: seq<Event>): KState
    decreases |evs|
  {
    if evs == [] || !Coherent(k, pids) then k else KRun(KStep(k, pids, evs[0]), pids, evs[1..])
  }

  /** Over every run the flat arrays represent the stacks of the machine. */
  lemma {:induction false} KRunRefines(k: KState, tb: Table, pids: nat, evs: seq<Event>)
    requires Represents(k, tb, pids) && AllAllowed(tb, pids, evs)
    ensures Represents(KRun(k, pids, evs), Run(tb, pids, evs), pids)
    decreases |evs|
  {
    if evs != [] {
      KStepRefines(k, tb, pids, evs[0]);
      KRunRefines(KStep(k, pids, evs[0]), Step(tb, pids, evs[0]), pids, evs[1..]);
    }
  }

  // ---------- descriptors of a halting process ----------

  /** Halting leaves the parent's descriptors alone if and only if no descriptor from 2 on is open
      in both processes. */
  lemma ParentDescriptorsKept(parent: seq<Descriptor>, child: seq<Descriptor>)
    requires |parent| == |child| == FD_COUNT
    ensures CloseLeftOpen(parent, child) == parent
       <==> forall i :: FD_START <= i < FD_COUNT ==> !(parent[i].inUse && child[i].inUse)
  {
    var fds := CloseLeftOpen(parent, child);
    if forall i :: FD_START <= i < FD_COUNT ==> !(parent[i].inUse && child[i].inUse) {
      assert forall i :: 0 <= i < FD_COUNT ==> fds[i] == parent[i];
    } else {
      var i :| FD_START <= i < FD_COUNT && parent[i].inUse && child[i].inUse;
      assert fds[i] != parent[i];
    }
  }

  function WithFds(k: KState, p: nat, fds: seq<Descriptor>): KState
    requires p < |k.pcbs|
  {
    k.(pcbs := k.pcbs[p := k.pcbs[p].(fds := fds)])
  }

  /** Opening and closing files does not concern the stacks. */
  lemma FdsRepresent(k: KState, tb: Table, pids: nat, p: nat, fds: seq<Descriptor>)
    requires Represents(k, tb, pids) && p < pids && |fds| == FD_COUNT
    ensures Represents(WithFds(k, p, fds), tb, pids)
  {
    var k' := WithFds(k, p, fds);
    forall t: nat, i: nat, q: nat | On(tb.stacks, t, i, q)
      ensures PcbFor(k'.pcbs[q], tb.stacks, t, i)
    {
      assert PcbFor(k.pcbs[q], tb.stacks, t, i);
    }
  }

  // ---------- memory layout ----------

  const PCB_SPACING: nat := 0x2000
  const STACK_SPACING: nat := 0x1000
  const PCB_BYTES: nat := 168

  /** get_pcb_from_pid. */
  function PcbAddress(p: nat): int {
    START_OF_USER - (p + 1) * PCB_SPACING
  }

  /** The top of the kernel stack of process `p`. */
  function StackTop(p: nat): int {
    START_OF_USER - p * STACK_SPACING
  }

  predicate Overlap(a: int, aEnd: int, b: int, bEnd: int) {
    a < bEnd && b < aEnd
  }

  /** With `depth` bytes of kernel stack in use, no stack touches a PCB or another stack, for any
      two processes, if and only if a stack never grows into the last 168 bytes of its 4 KB. */
  lemma StacksSpareThePcbs(depth: nat)
    ensures (forall p: nat, q: nat ::
               && !Overlap(PcbAddress(p), PcbAddress(p) + PCB_BYTES, StackTop(q) - depth, StackTop(q))
               && (p != q ==> !Overlap(StackTop(p) - depth, StackTop(p), StackTop(q) - depth, StackTop(q))))
       <==> depth <= STACK_SPACING - PCB_BYTES
  {
    if depth > STACK_SPACING - PCB_BYTES {
      assert Overlap(PcbAddress(0), PcbAddress(0) + PCB_BYTES, StackTop(1) - depth, StackTop(1));
    }
  }

  /** Two processes never share a user page, as long as frame numbers fit their 20 bits. */
  lemma FramesDistinct(p: nat, q: nat)
    requires p < 1022 && q < 1022
    ensures Frame(p) == Frame(q) <==> p == q
    ensures p < q ==> Frame(p) + FRAME_SIZE / 0x1000 <= Frame(q)
  {
  }

  // ---------- in terms of addresses and descriptors alone ----------

  /** The kernel's 4 MB page. */
  predicate InKernelPage(a: int) {
    0x40_0000 <= a < 0x80_0000
  }

  /** The page of process `p` is the 4 MB from 8 MB + p * 4 MB on: it never touches the kernel's own
      page, and so no PCB or kernel stack that lies there. */
  lemma FrameIs(p: nat, a: int)
    requires p < 1022
    ensures Frame(p) * 0x1000 == 0x80_0000 + 0x40_0000 * p
    ensures Frame(p) * 0x1000 <= a < Frame(p) * 0x1000 + 0x40_0000 ==> !InKernelPage(a)
  {
    FrameNumber(p);
  }

  lemma FrameNumber(p: nat)
    requires p < 1022
    ensures Frame(p) == 0x800 + 0x400 * p
  {
    var n := 0x800 + 0x400 * p;
    assert START_OF_USER + p * FRAME_SIZE == 0x1000 * n;
    assert 0x1000 * n / 0x1000 == n && n % 0x10_0000 == n;
  }

  /** PCBs and the 4 KB below each stack top lie in the kernel's page, for as many processes as fit. */
  lemma KernelPageHolds(q: nat)
    ensures PcbAddress(q) == 0x7F_E000 - 0x2000 * q && StackTop(q) == 0x80_0000 - 0x1000 * q
    ensures InKernelPage(PcbAddress(q)) && InKernelPage(PcbAddress(q) + PCB_BYTES - 1) <==> q <= 511
    ensures InKernelPage(StackTop(q) - 0x1000) && InKernelPage(StackTop(q) - 1) <==> q <= 1023
  {
  }

  /** Over every run the mapped page is that of the running process, and never the kernel's. */
  lemma MappedOverRuns(k: KState, tb: Table, pids: nat, evs: seq<Event>, a: int)
    requires Represents(k, tb, pids) && AllAllowed(tb, pids, evs) && pids <= 1022
    ensures var r := KRun(k, pids, evs);
            && r.pid < pids && r.frame * 0x1000 == 0x80_0000 + 0x40_0000 * r.pid
            && (r.frame * 0x1000 <= a < r.frame * 0x1000 + 0x40_0000 ==> !InKernelPage(a))
  {
    KRunRefines(k, tb, pids, evs);
    FrameIs(KRun(k, pids, evs).pid, a);
  }

  /** A new process has its input and output open and nothing else; the first known file that it
      opens gets descriptor 2. */
  lemma NewProcessOpens(k: KState, t: nat, n: nat, found: Option<Entry>)
    requires n < |k.tasks| == |k.pcbs| && t < |k.termArr| && k.pid < |k.pcbs|
    requires found.Some? && found.value.filetype <= 2
    ensures var k' := Started(k, t, n);
            && k'.pid == n && |k'.pcbs[n].fds| == FD_COUNT
            && ReaderOf(k'.pcbs[n].fds, 0) == Some(StdinOps) && k'.pcbs[n].fds[1].ops == StdoutOps
            && k'.pcbs[n].fds[1].inUse
            && (forall i :: 2 <= i < 8 ==> !k'.pcbs[n].fds[i].inUse && k'.pcbs[n].fds[i].ops == BadOps)
            && OpenResult(k'.pcbs[n].fds, found) == 2
  {
  }

  /** When a process with a parent halts, the parent loses exactly the descriptors from 2 on that the
      halting process had open, and keeps the rest; the halted one keeps none; no one else's change. */
  lemma HaltedDescriptors(k: KState, p: nat, i: nat)
    requires CanHalt(k) && k.pcbs[k.pid].parentPid != k.pid && p < |k.pcbs| && i < 8
    ensures var q, k' := k.pcbs[k.pid].parentPid, Halted(k);
            && k'.pid == q && |k'.pcbs| == |k.pcbs|
            && |k'.pcbs[q].fds| == |k'.pcbs[k.pid].fds| == FD_COUNT
            && (k'.pcbs[q].fds[i]
                == if i >= 2 && k.pcbs[k.pid].fds[i].inUse then k.pcbs[q].fds[i].(inUse := false) else k.pcbs[q].fds[i])
            && !k'.pcbs[k.pid].fds[i].inUse && k'.pcbs[k.pid].fds[i].ops == BadOps
            && (p != q && p != k.pid ==> k'.pcbs[p] == k.pcbs[p])
  {
  }
}
