/** The kernel's process management: system calls, terminal opening and the timer, on its globals. */
module Kernel {
  import opened Stacks
  import opened ProcessTable
  import opened Wrappers
  import opened Descriptors
  import Bytes
  import Directory
  import FileReads
  import FileSystem
  import ReadRuns

  lemma RunningTerminal(k: KState, tb: Table, pids: nat)
    requires Represents(k, tb, pids)
    ensures k.pid < |k.pcbs| && k.pcbs[k.pid].terminalIdx == tb.cur < |k.termArr|
    ensures k.termArr[tb.cur] == k.pid
  {
    RunningCanHalt(k, tb, pids);
  }

  lemma ForegroundOf(k: KState, tb: Table, pids: nat, t: nat)
    requires Represents(k, tb, pids) && t < |k.termArr| && k.termArr[t] != -1
    ensures 0 <= k.termArr[t] < pids
    ensures k.pcbs[k.termArr[t]].pid == k.termArr[t] && k.pcbs[k.termArr[t]].terminalIdx == t
  {
    assert On(tb.stacks, t, |tb.stacks[t]| - 1, Top(tb.stacks[t]));
  }

  /** The first `i` elements of `a`, then those of `b`. */
  function Mix<T>(a: seq<T>, b: seq<T>, i: nat): (m: seq<T>)
    requires |a| == |b| && i <= |a|
    ensures |m| == |a|
  {
    a[..i] + b[i..]
  }

  lemma MixStep<T>(a: seq<T>, b: seq<T>, i: nat)
    requires |a| == |b| && i < |a|
    ensures Mix(a, b, i)[i] == b[i]
    ensures Mix(a, b, i)[i := a[i]] == Mix(a, b, i + 1)
    ensures a[i] == b[i] ==> Mix(a, b, i + 1) == Mix(a, b, i)
  {
  }

  /** The loop that closes the descriptors of a halting child has dealt with those below `i`. */
  ghost predicate HalfClosed(now: seq<Pcb>, before: seq<Pcb>, pid: nat, child: nat, i: nat) {
    && |now| == |before| && pid < |now| && child < |now| && pid != child && i <= FD_COUNT
    && |before[pid].fds| == FD_COUNT && |before[child].fds| == FD_COUNT
    && var fds, childFds := before[pid].fds, before[child].fds;
       && now[pid] == before[pid].(fds := Mix(CloseLeftOpen(fds, childFds), fds, i))
       && now[child] == before[child].(fds := Mix(Released(childFds), childFds, i))
       && forall p :: 0 <= p < |now| && p != pid && p != child ==> now[p] == before[p]
  }

  lemma HalfClosedNext(now: seq<Pcb>, next: seq<Pcb>, before: seq<Pcb>, pid: nat, child: nat, i: nat)
    requires HalfClosed(now, before, pid, child, i) && i < FD_COUNT && |next| == |now|
    requires var d, c := now[pid].fds[i], now[child].fds[i];
             && next[pid] == now[pid].(fds := now[pid].fds[i := ClosedIf(d, i, c)])
             && next[child] == now[child].(fds := now[child].fds[i := c.(ops := BadOps, inUse := false)])
    requires forall p :: 0 <= p < |now| && p != pid && p != child ==> next[p] == now[p]
    ensures HalfClosed(next, before, pid, child, i + 1)
  {
    var fds, childFds := before[pid].fds, before[child].fds;
    MixStep(CloseLeftOpen(fds, childFds), fds, i);
    MixStep(Released(childFds), childFds, i);
  }

  lemma AllClosed(now: seq<Pcb>, before: seq<Pcb>, pid: nat, child: nat)
    requires HalfClosed(now, before, pid, child, FD_COUNT)
    ensures var fds, childFds := before[pid].fds, before[child].fds;
            now == before[pid := before[pid].(fds := CloseLeftOpen(fds, childFds))]
                         [child := before[child].(fds := Released(childFds))]
  {
    assert Mix(CloseLeftOpen(before[pid].fds, before[child].fds), before[pid].fds, FD_COUNT)
        == CloseLeftOpen(before[pid].fds, before[child].fds);
    assert Mix(Released(before[child].fds), before[child].fds, FD_COUNT) == Released(before[child].fds);
  }

  lemma SlotIsFree(tasks: seq<int>, p: nat)
    requires p < |tasks|
    ensures FirstZero(tasks[p := 0], 0) <= p
  {
    assert tasks[p := 0][p] == 0;
  }

  class Kernel {
    const pids: nat
    const terminals: nat
    const tasks: array<int>
    const termArr: array<int>
    const pcbs: array<Pcb>
    /** terminal_2_active and terminal_3_active; terminal 0 has no such flag. */
    const everOpened: array<bool>
    var pid: nat
    var frame: nat
    var activeTerm: nat
    ghost var table: Table

    ghost function View(): KState
      reads this, tasks, termArr, pcbs
    {
      KState(tasks[..], termArr[..], pcbs[..], pid, frame, activeTerm)
    }

    ghost predicate Arrays()
      reads this
    {
      && tasks != termArr
      && tasks.Length == pids == pcbs.Length && termArr.Length == terminals == everOpened.Length
      && pid < pids && 0 < terminals
    }

    /** The flags say which of the other terminals have a process. */
    ghost predicate Flags()
      requires Arrays()
      reads this, termArr, everOpened
    {
      forall t :: 0 < t < terminals ==> (everOpened[t] <==> termArr[t] != -1)
    }

    /** The arrays represent the ghost table. */
    ghost predicate Valid()
      reads this, tasks, termArr, pcbs, everOpened
    {
      Arrays() && Flags() && Represents(View(), table, pids)
    }

    /** Zeroed memory and no terminal in use, as at power-on. */
    constructor (pids: nat, terminals: nat)
      requires 0 < pids && 0 < terminals
      ensures Arrays() && this.pids == pids && this.terminals == terminals
      ensures NotBooted(View(), pids, terminals) && Flags()
      ensures fresh(tasks) && fresh(termArr) && fresh(pcbs) && fresh(everOpened)
    {
      this.pids, this.terminals := pids, terminals;
      tasks := new int[pids](_ => 0);
      termArr := new int[terminals](_ => -1);
      everOpened := new bool[terminals](_ => false);
      pcbs := new Pcb[pids](_ => Pcb(0, 0, 0, []));
      pid, frame, activeTerm := 0, 0, 0;
      table := Table([], 0);
    }

    method MapMemory(p: nat)
      modifies this`frame
      ensures frame == Frame(p)
      ensures p < 1022 ==> frame * 0x1000 == 0x80_0000 + 0x40_0000 * p
    {
      if p < 1022 { FrameIs(p, 0); }
      frame := (START_OF_USER + p * FRAME_SIZE) / 0x1000 % 0x10_0000;
    }

    method FindAvailablePid() returns (next: int)
      requires Arrays()
      ensures next == if FirstZero(tasks[..], 0) < pids then FirstZero(tasks[..], 0) else -1
    {
      var i := 0;
      while i < pids
        invariant 0 <= i <= pids
        invariant forall q :: 0 <= q < i ==> tasks[q] != 0
      {
        if tasks[i] == 0 {
          assert FirstZero(tasks[..], 0) == i;
          return i;
        }
        i := i + 1;
      }
      return -1;
    }

    /** execute_terminal; `found` is the result of check_executable. On success the kernel leaves
        for user space and never returns here. */
    method ExecuteTerminal(found: bool, t: nat) returns (left: bool)
      requires Arrays() && t < terminals
      modifies this`pid, this`frame, this`activeTerm, tasks, termArr, pcbs
      ensures Arrays()
      ensures View() == Executed(old(View()), found, t)
      ensures left == (found && FirstZero(old(tasks[..]), 0) < pids)
    {
      if !found {
        return false;
      }
      var next := FindAvailablePid();
      if next == -1 {
        return false;
      }
      StartProcess(next, t);
      return true;
    }

    /** The rest of execute_terminal, once a slot has been found. */
    method StartProcess(next: nat, t: nat)
      requires Arrays() && t < terminals && next < pids
      modifies this`pid, this`frame, this`activeTerm, tasks, termArr, pcbs
      ensures Arrays() && View() == Started(old(View()), t, next)
    {
      tasks[next] := 1;
      MapMemory(next);
      var parent := pcbs[pid].pid;
      if termArr[t] == -1 {
        pcbs[next] := pcbs[next].(parentPid := next);
      } else {
        pcbs[next] := pcbs[next].(parentPid := parent);
      }
      pcbs[next] := pcbs[next].(pid := next);
      termArr[t] := next;
      pid := next;
      pcbs[next] := pcbs[next].(terminalIdx := t);
      activeTerm := t;
      var fds := StandardDescriptors();
      pcbs[next] := pcbs[next].(fds := fds);
    }

    method StandardDescriptors() returns (fds: seq<Descriptor>)
      ensures fds == FreshDescriptors()
    {
      fds := [Descriptor(StdinOps, 0, 0, true), Descriptor(StdoutOps, 0, 0, true)];
      for j := FD_START to FD_COUNT
        invariant |fds| == j
        invariant fds == FreshDescriptors()[..j]
      {
        fds := fds + [Descriptor(BadOps, 0, 0, false)];
      }
    }

    /** The call from the boot code. */
    method Boot() returns (left: bool)
      requires Arrays() && Flags() && NotBooted(View(), pids, terminals)
      modifies this, tasks, termArr, pcbs
      ensures left && Valid()
      ensures table == Table(seq(terminals, (u: nat) => if u == 0 then [0] else []), 0)
    {
      ghost var k := View();
      table := Table(seq(terminals, (u: nat) => if u == 0 then [0] else []), 0);
      left := ExecuteTerminal(true, pcbs[pid].terminalIdx);
      BootRepresents(k, pids, terminals, 0);
    }

    method SysExecute(found: bool) returns (left: bool)
      requires Valid()
      modifies this, tasks, termArr, pcbs
      ensures Valid()
      ensures table == Step(old(table), pids, Execute(found))
      ensures left <==> found && exists n: nat :: n < pids && !Live(old(table).stacks, n)
      ensures !left ==> View() == old(View())
    {
      ghost var k, tb := View(), table;
      RunningTerminal(k, tb, pids);
      FreeSlotIsLowestFree(k, tb, pids);
      KStepRefines(k, tb, pids, Execute(found));
      table := Step(tb, pids, Execute(found));
      left := ExecuteTerminal(found, pcbs[pid].terminalIdx);
    }

    /** The user switches to another terminal than the first; its first visit starts a shell there. */
    method OpenTerminal(t: nat)
      requires Valid() && 0 < t < terminals
      modifies this, tasks, termArr, pcbs, everOpened
      ensures Valid() && table == Step(old(table), pids, Open(t))
    {
      ghost var k, tb := View(), table;
      KStepRefines(k, tb, pids, Open(t));
      table := Step(tb, pids, Open(t));
      if !everOpened[t] {
        var p := FindAvailablePid();
        if p != -1 {
          everOpened[t] := true;
          var _ := ExecuteTerminal(true, t);
        } else {
          return;
        }
      }
    }

    /** sys_open, given the result of the lookup. */
    method SysOpen(found: Option<Entry>) returns (fd: int)
      requires Valid() && |pcbs[pid].fds| == FD_COUNT
      modifies pcbs
      ensures Valid()
      ensures fd == OpenResult(old(pcbs[pid].fds), found)
      ensures View() == WithFds(old(View()), pid, Opened(old(pcbs[pid].fds), found))
    {
      ghost var k := View();
      RunningCanHalt(k, table, pids);
      if found.None? {
        assert View() == WithFds(k, pid, Opened(pcbs[pid].fds, found));
        return -1;
      }
      var fds := pcbs[pid].fds;
      var i := FD_START;
      while i < FD_COUNT
        invariant FD_START <= i <= FD_COUNT
        invariant FreeFrom(fds, FD_START) == FreeFrom(fds, i)
      {
        if !fds[i].inUse {
          var d := fds[i].(inUse := true, inode := found.value.inode, position := 0);
          var ops := OpsFor(found.value.filetype);
          if ops.Some? {
            d := d.(ops := ops.value);
          }
          FdsRepresent(k, table, pids, pid, fds[i := d]);
          pcbs[pid] := pcbs[pid].(fds := fds[i := d]);
          return if ops.Some? then i else -1;
        }
        i := i + 1;
      }
      assert View() == WithFds(k, pid, Opened(pcbs[pid].fds, found));
      return -1;
    }

    /** sys_close, on the descriptors of the running process. */
    method SysClose(fd: int) returns (rc: int)
      requires Arrays() && |pcbs[pid].fds| == FD_COUNT
      modifies pcbs
      ensures rc == CloseResult(old(pcbs[pid].fds), fd)
      ensures pcbs[pid] == old(pcbs[pid]).(fds := Closed(old(pcbs[pid].fds), fd))
      ensures forall p :: 0 <= p < pids && p != pid ==> pcbs[p] == old(pcbs[p])
    {
      if fd == 0 || fd == 1 {
        return -1;
      }
      if fd < 1 || fd > 7 {
        return -1;
      }
      var fds := pcbs[pid].fds;
      if !fds[fd].inUse {
        return -1;
      }
      pcbs[pid] := pcbs[pid].(fds := fds[fd := fds[fd].(inUse := false)]);
      return if fds[fd].ops == BadOps then -1 else 0;
    }

    /** read_f, on a descriptor of the running process. */
    method ReadF(img: FileSystem.Image, fd: nat, buf: array<Bytes.byte>, nbytes: nat) returns (rc: int)
      requires Valid() && |pcbs[pid].fds| == FD_COUNT && fd < FD_COUNT
      requires FileSystem.WellFormed(img) && nbytes <= buf.Length
      modifies pcbs, buf
      ensures Valid()
      ensures var d := old(pcbs[pid].fds[fd]);
              && rc == FileSystem.ReadOutcome(img, d.inode, d.position, nbytes).rc
              && (rc >= 0 ==> rc <= nbytes && buf[..rc] == FileSystem.Delivered(img, d.inode, d.position, nbytes))
              && View() == WithFds(old(View()), pid,
                                   old(pcbs[pid].fds)[fd := ReadRuns.NextRead(img, ReadRuns.Reader(d, nbytes)).fd])
    {
      ghost var k := View();
      var fds := pcbs[pid].fds;
      var d := fds[fd];
      rc := FileReads.ReadData(img, d.inode, d.position, buf, nbytes);
      FdsRepresent(k, table, pids, pid, fds[fd := d.(position := (d.position + rc) % 0x1_0000_0000)]);
      pcbs[pid] := pcbs[pid].(fds := fds[fd := d.(position := (d.position + rc) % 0x1_0000_0000)]);
      if rc >= 0 {
        FileReads.ResultIsStored(img, d.inode, d.position, nbytes);
        assert buf[..rc] == FileReads.StoredBytes(img, d.inode, d.position, nbytes)[..rc];
      }
    }

    /** sys_read: `device` is what the read routine of the terminal or the clock returns. */
    method SysRead(img: FileSystem.Image, fd: int, buf: array<Bytes.byte>, nbytes: nat, device: int) returns (rc: int)
      requires Valid() && |pcbs[pid].fds| == FD_COUNT && FileSystem.WellFormed(img) && nbytes <= buf.Length
      requires 0 <= fd < 8 && pcbs[pid].fds[fd].ops == DirectoryOps ==> 32 <= buf.Length
      modifies pcbs, buf
      ensures Valid()
      ensures var fds := old(pcbs[pid].fds);
              if fd < 0 || fd > 7 || fd == 1 || !fds[fd].inUse || fds[fd].ops == BadOps || fds[fd].ops == StdoutOps then
                rc == -1 && View() == old(View()) && buf[..] == old(buf[..])
              else
                var d := fds[fd];
                match d.ops
                case RegularFileOps =>
                  && rc == FileSystem.ReadOutcome(img, d.inode, d.position, nbytes).rc
                  && (rc >= 0 ==> rc <= nbytes && buf[..rc] == FileSystem.Delivered(img, d.inode, d.position, nbytes))
                  && View() == WithFds(old(View()), pid, fds[fd := d.(position := (d.position + rc) % 0x1_0000_0000)])
                case DirectoryOps =>
                  && rc == Directory.ListOutcome(img, d.position, nbytes)
                  && (rc > 0 ==> buf[..32] == img.dentries[d.position].filename)
                  && View() == WithFds(old(View()), pid, fds[fd := d.(position := (d.position + 1) % 0x1_0000_0000)])
                case _ => rc == device && View() == old(View()) && buf[..] == old(buf[..])
    {
      if fd < 0 || fd > 7 {
        return -1;
      }
      var d := pcbs[pid].fds[fd];
      if !d.inUse {
        return -1;
      }
      if fd == 1 {
        return -1;
      }
      match d.ops {
        case RegularFileOps =>
          rc := ReadF(img, fd, buf, nbytes);
        case DirectoryOps =>
          rc := ReadD(img, fd, buf, nbytes);
        case BadOps =>
          rc := -1;
        case StdoutOps =>
          rc := -1;
        case _ =>
          rc := device;
      }
    }

    /** read_d, on a descriptor of the running process. */
    method ReadD(img: FileSystem.Image, fd: nat, buf: array<Bytes.byte>, nbytes: nat) returns (rc: int)
      requires Valid() && |pcbs[pid].fds| == FD_COUNT && fd < FD_COUNT
      requires FileSystem.WellFormed(img) && 32 <= buf.Length
      modifies pcbs, buf
      ensures Valid()
      ensures var d := old(pcbs[pid].fds[fd]);
              && rc == Directory.ListOutcome(img, d.position, nbytes)
              && (rc > 0 ==> buf[..32] == img.dentries[d.position].filename)
              && View() == WithFds(old(View()), pid,
                                   old(pcbs[pid].fds)[fd := d.(position := (d.position + 1) % 0x1_0000_0000)])
    {
      ghost var k := View();
      var fds := pcbs[pid].fds;
      var d := fds[fd];
      var position;
      rc, position := Directory.ReadD(img, d.position, buf, nbytes);
      FdsRepresent(k, table, pids, pid, fds[fd := d.(position := position)]);
      pcbs[pid] := pcbs[pid].(fds := fds[fd := d.(position := position)]);
    }

    /** The loop at the end of sys_halt: `child` has halted, its parent already runs. */
    method CloseDescriptors(child: nat)
      requires Arrays() && child < pids && child != pid
      requires |pcbs[pid].fds| == FD_COUNT && |pcbs[child].fds| == FD_COUNT
      modifies pcbs
      ensures var fds, childFds := old(pcbs[pid].fds), old(pcbs[child].fds);
              pcbs[..] == old(pcbs[..])[pid := old(pcbs[pid]).(fds := CloseLeftOpen(fds, childFds))]
                                       [child := old(pcbs[child]).(fds := Released(childFds))]
    {
      ghost var before := pcbs[..];
      for i := 0 to FD_COUNT
        invariant HalfClosed(pcbs[..], before, pid, child, i)
      {
        ghost var now := pcbs[..];
        CloseOne(child, i);
        HalfClosedNext(now, pcbs[..], before, pid, child, i);
      }
      AllClosed(pcbs[..], before, pid, child);
    }

    /** The loop's body. */
    method CloseOne(child: nat, i: nat)
      requires Arrays() && child < pids && child != pid && i < FD_COUNT
      requires |pcbs[pid].fds| == FD_COUNT && |pcbs[child].fds| == FD_COUNT
      modifies pcbs
      ensures var d, c := old(pcbs[pid].fds[i]), old(pcbs[child].fds[i]);
              && pcbs[pid] == old(pcbs[pid]).(fds := old(pcbs[pid].fds)[i := ClosedIf(d, i, c)])
              && pcbs[child] == old(pcbs[child]).(fds := old(pcbs[child].fds)[i := c.(ops := BadOps, inUse := false)])
      ensures forall p :: 0 <= p < pids && p != pid && p != child ==> pcbs[p] == old(pcbs[p])
    {
      if pcbs[child].fds[i].inUse {
        var _ := SysClose(i);
      }
      assert pcbs[pid].fds == old(pcbs[pid].fds)[i := ClosedIf(old(pcbs[pid].fds[i]), i, old(pcbs[child].fds[i]))];
      var d := pcbs[child].fds[i].(ops := BadOps, inUse := false);
      pcbs[child] := pcbs[child].(fds := pcbs[child].fds[i := d]);
    }

    /** sys_halt. Halting the first shell of a terminal while a smaller pid is free leaves arrays
        that represent no table; in every other case the process is popped off its stack. */
    method SysHalt()
      requires Valid()
      modifies this, tasks, termArr, pcbs
      ensures Coherent(old(View()), pids) && View() == KStep(old(View()), pids, Halt)
      ensures Allowed(old(table), Halt) ==> Valid() && table == Step(old(table), pids, Halt)
      ensures !Allowed(old(table), Halt) ==> forall tb :: !Represents(View(), tb, pids)
    {
      ghost var k, tb := View(), table;
      RunningCanHalt(k, tb, pids);
      if Allowed(tb, Halt) {
        KStepRefines(k, tb, pids, Halt);
      } else {
        forall tb' {
          RootHaltBreaks(k, tb, pids, tb');
        }
      }
      table := Step(tb, pids, Halt);
      HaltRunning();
    }

    /** sys_halt on the arrays. */
    method HaltRunning()
      requires Arrays() && CanHalt(View())
      modifies this`pid, this`frame, this`activeTerm, tasks, termArr, pcbs
      ensures Arrays() && View() == Halted(old(View()))
    {
      var cur := pid;
      var parent, t := pcbs[cur].parentPid, pcbs[cur].terminalIdx;
      tasks[pcbs[cur].pid] := 0;
      pid := parent;
      termArr[t] := parent;
      if pcbs[cur].pid == parent {
        var left := ExecuteTerminal(true, t);
        SlotIsFree(old(tasks[..]), cur);
        assert left;
        return;
      }
      MapMemory(pcbs[parent].pid);
      CloseDescriptors(cur);
    }

    /** The search of the timer handler for the next live terminal. */
    method NextTerminal(c: nat) returns (next: nat)
      requires Arrays() && c < terminals && termArr[c] != -1
      ensures next == NextLive(InUseTerminals(termArr[..]), c)
    {
      ghost var live := InUseTerminals(termArr[..]);
      ghost var d := 1;
      WrapIsMod(c + 1, terminals);
      next := (c + 1) % terminals;
      while termArr[next] == -1
        invariant 1 <= d <= terminals && next == Wrap(c + d, terminals)
        invariant NextDistance(live, c, 1) == NextDistance(live, c, d)
        decreases terminals - d
      {
        assert Dead(live, c, d);
        WrapIsMod(next + 1, terminals);
        next := (next + 1) % terminals;
        d := d + 1;
      }
      assert !Dead(live, c, d);
    }

    /** The switch to the foreground process of terminal `t`. */
    method SwitchTo(t: nat)
      requires Arrays() && t < terminals
      requires 0 <= termArr[t] < pids && pcbs[termArr[t]].pid == termArr[t] && pcbs[termArr[t]].terminalIdx == t
      modifies this`pid, this`frame, this`activeTerm
      ensures Arrays() && View() == SwitchedTo(old(View()), t)
    {
      var p := pcbs[termArr[t]].pid;
      MapMemory(p);
      pid := p;
      activeTerm := pcbs[p].terminalIdx;
    }

    method PitHandler()
      requires Valid()
      modifies this, tasks, termArr, pcbs
      ensures Coherent(old(View()), pids) && View() == KStep(old(View()), pids, Tick)
      ensures Valid() && table == Step(old(table), pids, Tick)
    {
      ghost var k, tb := View(), table;
      RunningTerminal(k, tb, pids);
      SameInUse(k, tb, pids);
      KStepRefines(k, tb, pids, Tick);
      table := Step(tb, pids, Tick);
      var started := RestartFirst();
      if !started {
        var t := NextTerminal(pcbs[pid].terminalIdx);
        ForegroundOf(k, tb, pids, t);
        SwitchTo(t);
      }
    }

    /** A shell on terminal 0, should it have no process. */
    method RestartFirst() returns (started: bool)
      requires Arrays()
      modifies this`pid, this`frame, this`activeTerm, tasks, termArr, pcbs
      ensures Arrays() && started == (old(termArr[0]) == -1 && FirstZero(old(tasks[..]), 0) < pids)
      ensures View() == if started then Executed(old(View()), true, 0) else old(View())
    {
      started := false;
      if termArr[0] == -1 {
        started := ExecuteTerminal(true, 0);
      }
    }
  }
}
