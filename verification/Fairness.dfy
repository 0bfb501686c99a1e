/** The timer serves the live terminals round robin. */
module Fairness {
  import opened Stacks

  /** The live terminals from `from` on, in ascending order. */
  function LiveFrom(s: seq<seq<nat>>, from: nat): seq<nat>
    requires from <= |s|
    decreases |s| - from
  {
    if from == |s| then []
    else if s[from] != [] then [from] + LiveFrom(s, from + 1)
    else LiveFrom(s, from + 1)
  }

  /** `l` lists exactly the live terminals from `from` on, in ascending order. */
  ghost predicate Lists(l: seq<nat>, s: seq<seq<nat>>, from: nat) {
    && (forall i :: 0 <= i < |l| ==> from <= l[i] < |s| && s[l[i]] != [])
    && (forall i, j :: 0 <= i < j < |l| ==> l[i] < l[j])
    && (forall t: nat :: from <= t < |s| && s[t] != [] ==> t in l)
  }

  lemma {:induction false} LiveFromLists(s: seq<seq<nat>>, from: nat)
    requires from <= |s|
    ensures Lists(LiveFrom(s, from), s, from)
    decreases |s| - from
  {
    if from < |s| {
      LiveFromLists(s, from + 1);
    }
  }

  function LiveTerminals(s: seq<seq<nat>>): seq<nat> {
    LiveFrom(s, 0)
  }

  /** The place after `i` in a circle of `k`. */
  function After(i: nat, k: nat): (r: nat)
    requires i < k
    ensures r < k
  {
    Wrap(i + 1, k)
  }

  /** No live terminal lies between neighbours in the list. */
  lemma LiveNeighbours(l: seq<nat>, s: seq<seq<nat>>, i: nat, u: nat)
    requires Lists(l, s, 0) && i < |l| && u < |s| && s[u] != []
    ensures l[0] <= u <= l[|l| - 1]
    ensures i + 1 < |l| ==> u <= l[i] || l[i + 1] <= u
  {
    var j :| 0 <= j < |l| && l[j] == u;
    assert j <= i || i + 1 <= j;
  }

  /** The search over terminal numbers finds the next live terminal in the circle. */
  lemma NextLiveIsAfter(s: seq<seq<nat>>, l: seq<nat>, i: nat)
    requires Lists(l, s, 0) && i < |l|
    ensures NextLive(InUse(s), l[i]) == l[After(i, |l|)]
  {
    var c, t := l[i], l[After(i, |l|)];
    var d := NextDistance(InUse(s), c, 1);
    var d' := if c < t then t - c else t + |s| - c;
    assert Wrap(c + d', |s|) == t;
    assert !Dead(InUse(s), c, d');
    LiveNeighbours(l, s, i, Wrap(c + d, |s|));
    assert d == d';
  }

  /** The terminals that the ticks of a run switch to. */
  ghost function Schedule(tb: Table, pids: nat, evs: seq<Event>): seq<nat>
    requires WellFormed(tb, pids)
    decreases |evs|
  {
    if evs == [] then []
    else
      StepWellFormed(tb, pids, evs[0]);
      var tb' := Step(tb, pids, evs[0]);
      (if evs[0] == Tick then [tb'.cur] else []) + Schedule(tb', pids, evs[1..])
  }

  ghost predicate SameLive(s: seq<seq<nat>>, s': seq<seq<nat>>) {
    |s| == |s'| && forall t :: 0 <= t < |s| ==> (s[t] == [] <==> s'[t] == [])
  }

  /** No event of the run gives a terminal its first process. */
  ghost predicate OpensNone(tb: Table, pids: nat, evs: seq<Event>)
    requires WellFormed(tb, pids)
    decreases |evs|
  {
    evs == [] ||
    (StepWellFormed(tb, pids, evs[0]);
     SameLive(tb.stacks, Step(tb, pids, evs[0]).stacks) && OpensNone(Step(tb, pids, evs[0]), pids, evs[1..]))
  }

  lemma {:induction false} SameLiveList(s: seq<seq<nat>>, s': seq<seq<nat>>, from: nat)
    requires SameLive(s, s') && from <= |s|
    ensures LiveFrom(s, from) == LiveFrom(s', from)
    decreases |s| - from
  {
    if from < |s| {
      SameLiveList(s, s', from + 1);
    }
  }

  /** An event that opens no terminal moves on only if it is a tick, to the next live terminal. */
  lemma StepMovesOn(tb: Table, pids: nat, ev: Event)
    requires WellFormed(tb, pids) && SameLive(tb.stacks, Step(tb, pids, ev).stacks)
    ensures Step(tb, pids, ev).cur == if ev == Tick then NextLive(InUse(tb.stacks), tb.cur) else tb.cur
  {
    var t := if ev.Open? then ev.terminal else 0;
    if OpenOn(tb, pids, t) != tb {
      assert tb.stacks[t] == [] && OpenOn(tb, pids, t).stacks[t] != [];
    }
  }

  /** `j` places after `i` in a circle of `k`. */
  function Places(i: nat, j: nat, k: nat): (r: nat)
    requires i < k
    ensures r < k
    decreases j
  {
    if j == 0 then i else After(Places(i, j - 1, k), k)
  }

  lemma {:induction false} PlacesWrap(i: nat, j: nat, k: nat)
    requires i < k && j < k
    ensures Places(i, j, k) == Wrap(i + j, k)
    decreases j
  {
    if j > 0 {
      PlacesWrap(i, j - 1, k);
    }
  }

  lemma {:induction false} PlacesAdd(i: nat, a: nat, j: nat, k: nat)
    requires i < k
    ensures Places(i, a + j, k) == Places(Places(i, a, k), j, k)
    decreases j
  {
    if j > 0 {
      PlacesAdd(i, a, j - 1, k);
    }
  }

  /** The `j`th tick switches to the terminal `j + 1` places after `i` in the circle `l`. */
  ghost predicate GoesAround(sched: seq<nat>, l: seq<nat>, i: nat)
    requires i < |l|
  {
    forall j: nat :: j < |sched| ==> sched[j] == l[Places(i, j + 1, |l|)]
  }

  lemma GoesAroundCons(sched: seq<nat>, l: seq<nat>, i: nat)
    requires i < |l| && GoesAround(sched, l, After(i, |l|))
    ensures GoesAround([l[After(i, |l|)]] + sched, l, i)
  {
    var sched' := [l[After(i, |l|)]] + sched;
    assert Places(i, 1, |l|) == After(Places(i, 0, |l|), |l|) == After(i, |l|);
    forall j: nat | j < |sched'|
      ensures sched'[j] == l[Places(i, j + 1, |l|)]
    {
      if j > 0 {
        PlacesAdd(i, 1, j, |l|);
        assert sched'[j] == sched[j - 1] == l[Places(After(i, |l|), j - 1 + 1, |l|)];
      }
    }
  }

  /** Whatever is executed and halted in between, the ticks go around the live terminals. */
  lemma {:induction false} ScheduleIsCircular(tb: Table, pids: nat, evs: seq<Event>, l: seq<nat>, i: nat)
    requires WellFormed(tb, pids) && OpensNone(tb, pids, evs)
    requires l == LiveTerminals(tb.stacks) && i < |l| && l[i] == tb.cur
    ensures GoesAround(Schedule(tb, pids, evs), l, i)
    decreases |evs|
  {
    if evs != [] {
      var ev := evs[0];
      var tb' := Step(tb, pids, ev);
      StepWellFormed(tb, pids, ev);
      StepMovesOn(tb, pids, ev);
      SameLiveList(tb.stacks, tb'.stacks, 0);
      if ev == Tick {
        LiveFromLists(tb.stacks, 0);
        NextLiveIsAfter(tb.stacks, l, i);
        ScheduleIsCircular(tb', pids, evs[1..], l, After(i, |l|));
        GoesAroundCons(Schedule(tb', pids, evs[1..]), l, i);
      } else {
        ScheduleIsCircular(tb', pids, evs[1..], l, i);
        assert Schedule(tb, pids, evs) == Schedule(tb', pids, evs[1..]);
      }
    }
  }

  ghost predicate ExactlyOnce(sched: seq<nat>, a: nat, k: nat, t: nat)
    requires a + k <= |sched|
  {
    exists j :: a <= j < a + k && sched[j] == t && forall j' :: a <= j' < a + k && sched[j'] == t ==> j' == j
  }

  /** Among any k consecutive ticks, k being the number of live terminals, every live terminal is
      served exactly once. */
  lemma RoundRobin(tb: Table, pids: nat, evs: seq<Event>, a: nat, t: nat)
    requires WellFormed(tb, pids) && OpensNone(tb, pids, evs)
    requires a + |LiveTerminals(tb.stacks)| <= |Schedule(tb, pids, evs)|
    requires t < |tb.stacks| && tb.stacks[t] != []
    ensures ExactlyOnce(Schedule(tb, pids, evs), a, |LiveTerminals(tb.stacks)|, t)
  {
    var l, sched := LiveTerminals(tb.stacks), Schedule(tb, pids, evs);
    LiveFromLists(tb.stacks, 0);
    var i: nat :| i < |l| && l[i] == tb.cur;
    var m: nat :| m < |l| && l[m] == t;
    ScheduleIsCircular(tb, pids, evs, l, i);
    CircleServesOnce(sched, l, i, a, m);
  }

  lemma ServedAt(sched: seq<nat>, l: seq<nat>, i: nat, a: nat, d: nat)
    requires i < |l| && GoesAround(sched, l, i) && d < |l| && a + |l| <= |sched|
    ensures sched[a + d] == l[Wrap(Places(i, a + 1, |l|) + d, |l|)]
  {
    PlacesAdd(i, a + 1, d, |l|);
    PlacesWrap(Places(i, a + 1, |l|), d, |l|);
    var x := a + d;
    assert sched[x] == l[Places(i, x + 1, |l|)];
  }

  lemma WrapInjective(b: nat, d: nat, e: nat, k: nat)
    requires b < k && d < k && e < k && Wrap(b + d, k) == Wrap(b + e, k)
    ensures d == e
  {
  }

  lemma ServedExactlyAt(sched: seq<nat>, l: seq<nat>, i: nat, a: nat, m: nat, d: nat, e: nat)
    requires i < |l| && GoesAround(sched, l, i) && d < |l| && e < |l| && a + |l| <= |sched|
    requires forall x, y :: 0 <= x < y < |l| ==> l[x] < l[y]
    requires m == Wrap(Places(i, a + 1, |l|) + d, |l|)
    ensures sched[a + e] == l[m] <==> e == d
  {
    ServedAt(sched, l, i, a, e);
    var b := Places(i, a + 1, |l|);
    if Wrap(b + e, |l|) == m {
      WrapInjective(b, d, e, |l|);
    }
  }

  lemma CircleServesOnce(sched: seq<nat>, l: seq<nat>, i: nat, a: nat, m: nat)
    requires i < |l| && m < |l| && GoesAround(sched, l, i) && a + |l| <= |sched|
    requires forall x, y :: 0 <= x < y < |l| ==> l[x] < l[y]
    ensures ExactlyOnce(sched, a, |l|, l[m])
  {
    var b := Places(i, a + 1, |l|);
    var d := if b <= m then m - b else m + |l| - b;
    forall y: nat | a <= y < a + |l|
      ensures sched[y] == l[m] <==> y == a + d
    {
      ServedExactlyAt(sched, l, i, a, m, d, y - a);
    }
    assert sched[a + d] == l[m];
  }
}
