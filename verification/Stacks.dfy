/** Processes as one call stack of pids per terminal, and the runs of that machine. */
module Stacks {

  /** `stacks[t]` lists the processes of terminal `t`, its first shell at the bottom and its
      foreground process on top. The scheduler runs the top of `stacks[cur]`. */
  datatype Table = Table(stacks: seq<seq<nat>>, cur: nat)

  /** What can happen: the running process executes a program (`found` says whether it is an
      executable file) or halts, the user opens a terminal, the timer ticks. */
  datatype Event = Execute(found: bool) | Halt | Open(terminal: nat) | Tick

  predicate On(s: seq<seq<nat>>, t: nat, i: nat, p: nat) {
    t < |s| && i < |s[t]| && s[t][i] == p
  }

  ghost predicate Live(s: seq<seq<nat>>, p: nat) {
    exists t: nat, i: nat :: On(s, t, i, p)
  }

  /** No pid occurs twice, on one stack or on two. */
  ghost predicate Distinct(s: seq<seq<nat>>) {
    forall t: nat, i: nat, u: nat, j: nat, p: nat :: On(s, t, i, p) && On(s, u, j, p) ==> t == u && i == j
  }

  ghost predicate Bounded(s: seq<seq<nat>>, pids: nat) {
    forall t: nat, i: nat, p: nat :: On(s, t, i, p) ==> p < pids
  }

  ghost predicate WellFormed(tb: Table, pids: nat) {
    tb.cur < |tb.stacks| && tb.stacks[tb.cur] != [] && Distinct(tb.stacks) && Bounded(tb.stacks, pids)
  }

  function Top(s: seq<nat>): nat
    requires s != []
  {
    s[|s| - 1]
  }

  // ---------- the steps ----------

  /** `n` is the smallest pid that is not in use. */
  ghost predicate IsLowestFree(s: seq<seq<nat>>, pids: nat, n: nat) {
    n < pids && !Live(s, n) && forall q: nat :: q < n ==> Live(s, q)
  }

  /** The smallest free pid that is at least `i`, or `pids`. */
  ghost function LowestFree(s: seq<seq<nat>>, pids: nat, i: nat): (n: nat)
    requires i <= pids
    requires forall q: nat :: q < i ==> Live(s, q)
    ensures n <= pids && (n < pids ==> IsLowestFree(s, pids, n))
    ensures n == pids ==> forall q: nat :: q < pids ==> Live(s, q)
    decreases pids - i
  {
    if i == pids || !Live(s, i) then i else LowestFree(s, pids, i + 1)
  }

  /** Which terminals have a process. */
  function InUse(s: seq<seq<nat>>): (live: seq<bool>)
    ensures |live| == |s| && forall t :: 0 <= t < |s| ==> live[t] == (s[t] != [])
  {
    seq(|s|, (t: nat) requires t < |s| => s[t] != [])
  }

  /** The terminal `d` places after `c`, counting around, has no process. */
  predicate Dead(live: seq<bool>, c: nat, d: nat)
    requires c + d < 2 * |live|
  {
    !live[Wrap(c + d, |live|)]
  }

  /** The least distance, from `d` on, at which a live terminal comes after `c`. */
  function NextDistance(live: seq<bool>, c: nat, d: nat): (r: nat)
    requires c < |live| && live[c] && 1 <= d <= |live|
    ensures d <= r <= |live| && !Dead(live, c, r)
    ensures forall e: nat :: d <= e < r ==> Dead(live, c, e)
    decreases |live| - d
  {
    if !Dead(live, c, d) then d else NextDistance(live, c, d + 1)
  }

  function Wrap(x: nat, n: nat): (r: nat)
    requires x < 2 * n
    ensures r < n
  {
    if x < n then x else x - n
  }

  /** The terminal the timer switches to. */
  function NextLive(live: seq<bool>, c: nat): (t: nat)
    requires c < |live| && live[c]
    ensures t < |live| && live[t]
  {
    Wrap(c + NextDistance(live, c, 1), |live|)
  }

  ghost function OpenOn(tb: Table, pids: nat, t: nat): Table {
    var n := LowestFree(tb.stacks, pids, 0);
    if t < |tb.stacks| && tb.stacks[t] == [] && n < pids then Table(tb.stacks[t := [n]], t) else tb
  }

  ghost function Step(tb: Table, pids: nat, ev: Event): Table
    requires WellFormed(tb, pids)
  {
    var s, c := tb.stacks, tb.cur;
    match ev
    case Execute(found) =>
      var n := LowestFree(s, pids, 0);
      if found && n < pids then Table(s[c := s[c] + [n]], c) else tb
    case Halt =>
      // the first shell of a terminal is replaced by a new shell with the same pid
      if |s[c]| > 1 then Table(s[c := s[c][..|s[c]| - 1]], c) else tb
    case Open(t) => OpenOn(tb, pids, t)
    case Tick =>
      if s[0] == [] && LowestFree(s, pids, 0) < pids then OpenOn(tb, pids, 0) else Table(s, NextLive(InUse(s), c))
  }

  /** The first shell of a terminal may halt only when no smaller pid is free. */
  ghost predicate Allowed(tb: Table, ev: Event)
    requires tb.cur < |tb.stacks| && tb.stacks[tb.cur] != []
  {
    ev == Halt && |tb.stacks[tb.cur]| == 1 ==> forall q: nat :: q < tb.stacks[tb.cur][0] ==> Live(tb.stacks, q)
  }

  /** Putting an unused pid on a stack, or removing a top, keeps all pids distinct. */
  lemma SubstWellFormed(s: seq<seq<nat>>, pids: nat, t: nat, stack: seq<nat>, n: nat)
    requires Distinct(s) && Bounded(s, pids) && t < |s|
    requires stack <= s[t] || (stack == s[t] + [n] && n < pids && !Live(s, n))
    ensures Distinct(s[t := stack]) && Bounded(s[t := stack], pids)
  {
    var s' := s[t := stack];
    forall u: nat, i: nat, p: nat | On(s', u, i, p)
      ensures On(s, u, i, p) || (u == t && i == |s[t]| && p == n && stack == s[t] + [n])
    {
    }
    assert !Live(s, n) ==> forall u: nat, i: nat :: !On(s, u, i, n);
  }

  lemma StepWellFormed(tb: Table, pids: nat, ev: Event)
    requires WellFormed(tb, pids)
    ensures WellFormed(Step(tb, pids, ev), pids)
    ensures |Step(tb, pids, ev).stacks| == |tb.stacks|
  {
    var s, c := tb.stacks, tb.cur;
    var n := LowestFree(s, pids, 0);
    match ev
    case Execute(found) =>
      if found && n < pids { SubstWellFormed(s, pids, c, s[c] + [n], n); }
    case Halt =>
      SubstWellFormed(s, pids, c, s[c][..|s[c]| - 1], 0);
    case Open(t) =>
      if t < |s| && s[t] == [] && n < pids { SubstWellFormed(s, pids, t, [n], n); }
    case Tick =>
      if s[0] == [] && n < pids { SubstWellFormed(s, pids, 0, [n], n); }
  }

  /** execute puts the smallest pid that is not in use on top of the running process; without an
      executable or a free pid nothing happens. */
  lemma ExecuteCalls(tb: Table, pids: nat, found: bool, n: nat)
    requires WellFormed(tb, pids) && n < pids && !Live(tb.stacks, n) && forall q: nat :: q < n ==> Live(tb.stacks, q)
    ensures var tb' := Step(tb, pids, Execute(found));
            if !found then tb' == tb
            else
              && tb'.cur == tb.cur && |tb'.stacks| == |tb.stacks| && tb'.stacks[tb.cur] == tb.stacks[tb.cur] + [n]
              && forall t :: 0 <= t < |tb.stacks| && t != tb.cur ==> tb'.stacks[t] == tb.stacks[t]
  {
  }

  lemma NothingFree(tb: Table, pids: nat, ev: Event)
    requires WellFormed(tb, pids) && forall q: nat :: q < pids ==> Live(tb.stacks, q)
    ensures ev.Execute? || ev.Open? ==> Step(tb, pids, ev) == tb
  {
  }

  /** A terminal without a process gets the smallest free pid and runs; one with a process does not
      change anything. */
  lemma OpenStarts(tb: Table, pids: nat, t: nat, n: nat)
    requires WellFormed(tb, pids) && n < pids && !Live(tb.stacks, n) && forall q: nat :: q < n ==> Live(tb.stacks, q)
    requires t < |tb.stacks|
    ensures Step(tb, pids, Open(t)) == if tb.stacks[t] == [] then Table(tb.stacks[t := [n]], t) else tb
  {
  }

  /** The terminal `e` places after `c`, counted around, has no process. */
  predicate EmptyAfter(s: seq<seq<nat>>, c: nat, e: nat) {
    |s| > 0 && s[(c + e) % |s|] == []
  }

  lemma DeadIsEmpty(s: seq<seq<nat>>, c: nat, e: nat)
    requires c < |s| && e <= |s|
    ensures Dead(InUse(s), c, e) <==> EmptyAfter(s, c, e)
  {
    WrapIsMod(c + e, |s|);
  }

  /** A tick starts a shell on terminal 0 if it has no process and a pid is free; otherwise it goes on
      to the nearest terminal, counted around from the running one, that has a process. */
  lemma TickIs(tb: Table, pids: nat, d: nat)
    requires WellFormed(tb, pids) && 1 <= d <= |tb.stacks| && !EmptyAfter(tb.stacks, tb.cur, d)
    requires forall e: nat :: 1 <= e < d ==> EmptyAfter(tb.stacks, tb.cur, e)
    ensures tb.stacks[0] == [] && (exists q: nat :: q < pids && !Live(tb.stacks, q)) ==>
              Step(tb, pids, Tick) == Step(tb, pids, Open(0)) && Step(tb, pids, Tick).stacks[0] != []
    ensures tb.stacks[0] != [] || (forall q: nat :: q < pids ==> Live(tb.stacks, q)) ==>
              Step(tb, pids, Tick) == Table(tb.stacks, (tb.cur + d) % |tb.stacks|)
  {
    var r := NextDistance(InUse(tb.stacks), tb.cur, 1);
    DeadIsEmpty(tb.stacks, tb.cur, r);
    DeadIsEmpty(tb.stacks, tb.cur, d);
    assert r == d;
    WrapIsMod(tb.cur + d, |tb.stacks|);
  }

  lemma WrapIsMod(x: nat, n: nat)
    requires x < 2 * n
    ensures Wrap(x, n) == x % n
  {
    if x >= n {
      assert x == 1 * n + (x - n);
    }
  }

  // ---------- runs ----------

  ghost function Run(tb: Table, pids: nat, evs: seq<Event>): (r: Table)
    requires WellFormed(tb, pids)
    ensures WellFormed(r, pids) && |r.stacks| == |tb.stacks|
    decreases |evs|
  {
    if evs == [] then tb
    else
      StepWellFormed(tb, pids, evs[0]);
      Run(Step(tb, pids, evs[0]), pids, evs[1..])
  }

  /** While a process lives, the stack below it does not change. */
  lemma StepKeepsCallers(tb: Table, pids: nat, ev: Event, t: nat, callers: seq<nat>, n: nat)
    requires WellFormed(tb, pids) && t < |tb.stacks| && callers != []
    requires callers + [n] <= tb.stacks[t]
    ensures var tb' := Step(tb, pids, ev);
            if Live(tb'.stacks, n) then |tb'.stacks| == |tb.stacks| && callers + [n] <= tb'.stacks[t]
            else ev == Halt && tb' == Table(tb.stacks[t := callers], t)
  {
    var s, c, s' := tb.stacks, tb.cur, Step(tb, pids, ev).stacks;
    assert On(s, t, |callers|, n);
    if callers + [n] <= s'[t] {
      assert On(s', t, |callers|, n);
    } else {
      assert ev == Halt && c == t;
      assert s[t] == callers + [n];
      assert s'[t] == callers;
      assert forall u: nat, i: nat :: On(s', u, i, n) ==> On(s, u, i, n);
    }
  }

  /** When a process started by execute is gone, the process that executed it is in the foreground
      of its terminal again and runs, whatever happened on the other terminals in between. */
  lemma {:induction false} CallReturn(tb: Table, pids: nat, evs: seq<Event>, t: nat, callers: seq<nat>, n: nat)
    requires WellFormed(tb, pids) && t < |tb.stacks| && callers != [] && callers + [n] <= tb.stacks[t]
    requires forall k: nat :: k < |evs| ==> Live(Run(tb, pids, evs[..k]).stacks, n)
    requires !Live(Run(tb, pids, evs).stacks, n)
    ensures Run(tb, pids, evs).stacks[t] == callers && Run(tb, pids, evs).cur == t
    decreases |evs|
  {
    if evs == [] {
      assert On(tb.stacks, t, |callers|, n);
    } else {
      var tb' := Step(tb, pids, evs[0]);
      StepWellFormed(tb, pids, evs[0]);
      StepKeepsCallers(tb, pids, evs[0], t, callers, n);
      if |evs| == 1 {
        assert Run(tb, pids, evs) == tb';
      } else {
        assert evs[..1][1..] == [];
        assert Run(tb, pids, evs[..1]) == tb';
        forall k: nat | k < |evs[1..]|
          ensures Live(Run(tb', pids, evs[1..][..k]).stacks, n)
        {
          assert evs[..k + 1][1..] == evs[1..][..k];
          assert Run(tb, pids, evs[..k + 1]) == Run(tb', pids, evs[1..][..k]);
        }
        CallReturn(tb', pids, evs[1..], t, callers, n);
      }
    }
  }
}
