/** Blinking characters: the entries of the list, their periodic steps and what the screen shows. */
module Blink {
  import opened Bytes

  const CELLS: nat := 2000

  type word = x: int | 0 <= x < 0x1_0000

  datatype Entry = Entry(location: word, onChar: byte, offChar: byte, onLength: word, offLength: word,
                         countdown: word, status: word)

  const ZERO_ENTRY: Entry := Entry(0, 0, 0, 0, 0, 0, 0)

  predicate IsOn(e: Entry) {
    e.status % 2 == 1
  }

  /** The character that belongs on the screen. */
  function CharOf(e: Entry): byte {
    if IsOn(e) then e.onChar else e.offChar
  }

  function Flipped(status: word): word {
    if status % 2 == 1 then status - 1 else status + 1
  }

  /** The countdown wraps at 16 bits and is compared as a signed number. */
  function Decremented(countdown: word): word {
    if countdown == 0 then 0xFFFF else countdown - 1
  }

  predicate Positive(w: word) {
    0 < w < 0x8000
  }

  /** One timer interrupt for one entry. */
  function Tick(e: Entry): Entry {
    var c := Decremented(e.countdown);
    if Positive(c) then e.(countdown := c)
    else e.(countdown := if IsOn(e) then e.offLength else e.onLength, status := Flipped(e.status))
  }

  predicate Flips(e: Entry) {
    !Positive(Decremented(e.countdown))
  }

  /** The entry as it is put into the list. */
  function Started(e: Entry): Entry {
    e.(status := 1, countdown := e.onLength)
  }

  // ---------- closed form ----------

  /** How many ticks a length lasts: 1 to 0x8000 as many as it says; zero, and lengths from 0x8001 on,
      which stay negative as signed words, last one. */
  function Duration(length: word): (d: nat)
    ensures d > 0
  {
    if length == 0 || length > 0x8000 then 1 else length
  }

  function Period(e: Entry): nat {
    Duration(e.onLength) + Duration(e.offLength)
  }

  function Ticks(e: Entry, n: nat): Entry
    decreases n
  {
    if n == 0 then e else Tick(Ticks(e, n - 1))
  }

  /** The entry `m` ticks into its period. */
  function Phase(e: Entry, m: nat): Entry
    requires m < Period(e)
  {
    if m < Duration(e.onLength) then e.(status := 1, countdown := e.onLength - m)
    else e.(status := 0, countdown := e.offLength - (m - Duration(e.onLength)))
  }

  lemma PhaseStep(e: Entry, m: nat)
    requires m < Period(e)
    ensures Tick(Phase(e, m)) == Phase(e, if m + 1 < Period(e) then m + 1 else 0)
  {
  }

  /** The place after `n` steps around a circle of `p`. */
  function CircleIndex(n: nat, p: nat): (r: nat)
    requires p > 0
    ensures r < p
    decreases n
  {
    if n == 0 then 0
    else
      var r := CircleIndex(n - 1, p);
      if r + 1 < p then r + 1 else 0
  }

  lemma {:induction false} CircleIndexIsMod(n: nat, p: nat)
    requires p > 0
    ensures CircleIndex(n, p) == n % p
    decreases n
  {
    if n == 0 {
      ModUnique(0, p, 0, 0);
    } else {
      CircleIndexIsMod(n - 1, p);
      var q, r := (n - 1) / p, (n - 1) % p;
      assert n - 1 == p * q + r;
      if r + 1 < p {
        ModUnique(n, p, q, r + 1);
      } else {
        assert n == p * (q + 1) + 0;
        ModUnique(n, p, q + 1, 0);
      }
    }
  }

  lemma ModUnique(n: nat, p: nat, q: nat, r: nat)
    requires r < p && n == p * q + r
    ensures n % p == r
  {
    var d := n / p - q;
    assert p * d == r - n % p by {
      assert n == p * (n / p) + n % p;
      assert p * (n / p) == p * q + p * d;
    }
    ProductAtLeast(p, d);
  }

  lemma ProductAtLeast(p: nat, d: int)
    ensures d > 0 ==> p * d >= p
    ensures d < 0 ==> p * d <= -(p as int)
  {
  }

  lemma {:induction false} TicksAreCircular(e: Entry, n: nat)
    ensures Ticks(Started(e), n) == Phase(e, CircleIndex(n, Period(e)))
    decreases n
  {
    if n > 0 {
      TicksAreCircular(e, n - 1);
      PhaseStep(e, CircleIndex(n - 1, Period(e)));
    }
  }

  /** For all on and off lengths: after n ticks an entry is on for the first Duration(onLength)
      ticks of each period and off for the rest, its countdown falling by one per tick. */
  lemma ClosedForm(e: Entry, n: nat)
    ensures n % Period(e) < Period(e)
    ensures Ticks(Started(e), n) == Phase(e, n % Period(e))
  {
    TicksAreCircular(e, n);
    CircleIndexIsMod(n, Period(e));
  }

  /** For lengths from 1 to 32767, in plain numbers: after n ticks, m = n modulo on + off into the
      period, the entry is on with countdown on - m or off with countdown on + off - m. */
  lemma ClosedFormIs(e: Entry, n: nat)
    requires 1 <= e.onLength <= 32767 && 1 <= e.offLength <= 32767
    ensures var m, now := n % (e.onLength + e.offLength), Ticks(Started(e), n);
            && now.status == (if m < e.onLength then 1 else 0)
            && now.countdown == (if m < e.onLength then e.onLength - m else e.onLength + e.offLength - m)
            && CharOf(now) == (if m < e.onLength then e.onChar else e.offChar)
            && now == e.(status := now.status, countdown := now.countdown)
  {
    ClosedForm(e, n);
  }

  // ---------- synchronising ----------

  /** The copy of the source's timing into another entry. */
  function Synced(dst: Entry, src: Entry): Entry {
    dst.(onLength := src.onLength, offLength := src.offLength, countdown := src.countdown, status := src.status)
  }

  lemma SyncedIs(src: Entry, dst: Entry)
    ensures Synced(dst, src).location == dst.location
    ensures Synced(dst, src).onChar == dst.onChar && Synced(dst, src).offChar == dst.offChar
    ensures Synced(dst, src).onLength == src.onLength && Synced(dst, src).offLength == src.offLength
    ensures Synced(dst, src).countdown == src.countdown && Synced(dst, src).status == src.status
  {
  }

  /** From then on the two blink in step. */
  lemma {:induction false} SyncedForever(src: Entry, dst: Entry, n: nat)
    ensures Ticks(Synced(dst, src), n).countdown == Ticks(src, n).countdown
    ensures Ticks(Synced(dst, src), n).status == Ticks(src, n).status
    ensures Ticks(Synced(dst, src), n) == Synced(dst, Ticks(src, n))
    decreases n
  {
    if n > 0 {
      SyncedForever(src, dst, n - 1);
      assert Ticks(src, n - 1).onLength == Ticks(src, n).onLength;
    }
  }

  // ---------- the list and the screen ----------

  type Screen = s: seq<byte> | |s| == 2 * CELLS witness seq(2 * CELLS, i => 0)

  function Poke(s: Screen, location: nat, c: byte): Screen
    requires location < CELLS
  {
    s[2 * location := c]
  }

  predicate OnScreen(es: seq<Entry>) {
    forall i :: 0 <= i < |es| ==> es[i].location < CELLS
  }

  function TickAll(es: seq<Entry>): (r: seq<Entry>)
    ensures |r| == |es| && forall i :: 0 <= i < |es| ==> r[i] == Tick(es[i])
  {
    seq(|es|, (i: nat) requires i < |es| => Tick(es[i]))
  }

  /** The screen after the interrupt has gone through the list. */
  function PokeAll(s: Screen, es: seq<Entry>): Screen
    requires OnScreen(es)
    decreases |es|
  {
    if es == [] then s
    else
      var e := es[|es| - 1];
      var s' := PokeAll(s, es[..|es| - 1]);
      if Flips(e) then Poke(s', e.location, CharOf(Tick(e))) else s'
  }

  /** Every entry's cell shows the character of its status. */
  predicate Shows(s: Screen, es: seq<Entry>)
    requires OnScreen(es)
  {
    forall i :: 0 <= i < |es| ==> s[2 * es[i].location] == CharOf(es[i])
  }

  predicate DistinctLocations(es: seq<Entry>) {
    forall i, j :: 0 <= i < j < |es| ==> es[i].location != es[j].location
  }

  /** Only the character byte of one cell changes. */
  lemma PokeIs(s: Screen, location: nat, c: byte, p: nat)
    requires location < 2000 && p < 4000
    ensures Poke(s, location, c)[p] == if p == 2 * location then c else s[p]
  {
  }

  lemma {:induction false} PokeAllShows(s: Screen, es: seq<Entry>)
    requires OnScreen(es) && DistinctLocations(es) && Shows(s, es)
    ensures Shows(PokeAll(s, es), TickAll(es))
    ensures forall p :: 0 <= p < 2 * CELLS && (forall i :: 0 <= i < |es| ==> p != 2 * es[i].location) ==>
              PokeAll(s, es)[p] == s[p]
    decreases |es|
  {
    if es != [] {
      var front, e := es[..|es| - 1], es[|es| - 1];
      PokeAllShows(s, front);
      var s' := PokeAll(s, front);
      assert s'[2 * e.location] == CharOf(e) by {
        assert forall i :: 0 <= i < |front| ==> 2 * e.location != 2 * front[i].location;
      }
      forall i | 0 <= i < |es|
        ensures PokeAll(s, es)[2 * es[i].location] == CharOf(Tick(es[i]))
      {
        if i < |front| {
          assert s'[2 * front[i].location] == CharOf(TickAll(front)[i]);
        }
      }
    }
  }

  /** An interrupt keeps the screen right, as long as no two entries share a location. */
  lemma TickKeepsScreen(s: Screen, es: seq<Entry>)
    requires OnScreen(es) && DistinctLocations(es) && Shows(s, es)
    ensures Shows(PokeAll(s, es), TickAll(es)) && DistinctLocations(TickAll(es)) && OnScreen(TickAll(es))
  {
    PokeAllShows(s, es);
  }

  lemma AddKeepsScreen(s: Screen, es: seq<Entry>, e: Entry)
    requires OnScreen(es) && DistinctLocations(es) && Shows(s, es) && e.location < CELLS
    requires forall i :: 0 <= i < |es| ==> es[i].location != e.location
    ensures Shows(Poke(s, e.location, e.onChar), [Started(e)] + es) && DistinctLocations([Started(e)] + es)
  {
  }

  /** mp1_ioctl_sync tests the status with a condition that never holds, so it always shows the
      off character: the screen stays right if and only if that is the right one. */
  lemma SyncKeepsScreenIff(s: Screen, es: seq<Entry>, i: nat, j: nat)
    requires OnScreen(es) && DistinctLocations(es) && Shows(s, es) && i < |es| && j < |es|
    ensures var e := Synced(es[j], es[i]);
            Shows(Poke(s, e.location, e.offChar), es[j := e]) <==> !IsOn(es[i]) || es[j].onChar == es[j].offChar
  {
    var e := Synced(es[j], es[i]);
    var s', es' := Poke(s, e.location, e.offChar), es[j := e];
    assert es'[j] == e && s'[2 * es'[j].location] == e.offChar;
    forall k | 0 <= k < |es| && k != j
      ensures s'[2 * es'[k].location] == CharOf(es'[k])
    {
      assert es[k].location != es[j].location;
    }
  }

  // ---------- the interrupt, entry by entry ----------

  /** The first `k` entries have had their tick. */
  ghost predicate HalfTicked(es: seq<Entry>, before: seq<Entry>, k: nat) {
    |es| == |before| && forall i :: 0 <= i < |es| ==> es[i] == if i < k then Tick(before[i]) else before[i]
  }

  lemma TickNext(es: seq<Entry>, before: seq<Entry>, k: nat)
    requires HalfTicked(es, before, k) && k < |es|
    ensures HalfTicked(es[k := Tick(before[k])], before, k + 1)
  {
  }

  lemma PokeNext(s: Screen, es: seq<Entry>, k: nat)
    requires OnScreen(es) && k < |es|
    ensures OnScreen(es[..k]) && OnScreen(es[..k + 1])
    ensures PokeAll(s, es[..k + 1])
         == if Flips(es[k]) then Poke(PokeAll(s, es[..k]), es[k].location, CharOf(Tick(es[k]))) else PokeAll(s, es[..k])
  {
    assert es[..k + 1][..k] == es[..k];
  }

  // ---------- lookup ----------

  /** The first entry at a location, from `i` on; |es| if there is none. */
  function FirstAt(es: seq<Entry>, location: nat, i: nat): (k: nat)
    requires i <= |es|
    ensures i <= k <= |es|
    ensures k < |es| ==> es[k].location == location
    ensures forall j :: i <= j < k ==> es[j].location != location
    decreases |es| - i
  {
    if i == |es| || es[i].location == location then i else FirstAt(es, location, i + 1)
  }

  function Without(es: seq<Entry>, k: nat): seq<Entry>
    requires k < |es|
  {
    es[..k] + es[k + 1..]
  }

  /** Removing what was just added restores the list. */
  lemma RemoveUndoesAdd(es: seq<Entry>, e: Entry)
    ensures FirstAt([Started(e)] + es, e.location, 0) == 0
    ensures Without([Started(e)] + es, 0) == es
  {
  }

  // ---------- runs ----------

  /** The timer interrupt and the commands that change something. */
  datatype Event = Interrupt | Add(e: Entry) | Remove(arg: nat) | Sync(arg: nat)

  datatype State = State(es: seq<Entry>, screen: Screen)

  function AddTo(st: State, e: Entry): State {
    if e.location < CELLS && |st.es| < CELLS
    then State([Started(e)] + st.es, Poke(st.screen, e.location, e.onChar))
    else st
  }

  function RemoveFrom(st: State, arg: nat): State {
    var k := FirstAt(st.es, arg % 0x1_0000, 0);
    if k < |st.es| then st.(es := Without(st.es, k)) else st
  }

  function SyncIn(st: State, arg: nat): State
    requires OnScreen(st.es)
  {
    var i, j := FirstAt(st.es, arg / 0x1_0000, 0), FirstAt(st.es, arg % 0x1_0000, 0);
    if i < |st.es| && j < |st.es|
    then State(st.es[j := Synced(st.es[j], st.es[i])], Poke(st.screen, st.es[j].location, st.es[j].offChar))
    else st
  }

  function Step(st: State, ev: Event): (st': State)
    requires OnScreen(st.es)
    ensures OnScreen(st'.es)
  {
    match ev
    case Interrupt => State(TickAll(st.es), PokeAll(st.screen, st.es))
    case Add(e) => AddTo(st, e)
    case Remove(arg) => RemoveFrom(st, arg)
    case Sync(arg) => SyncIn(st, arg)
  }

  /** Location 0 is refused or not asked for. */
  predicate Accepts(st: State, ev: Event) {
    ev.Add? && ev.e.location == 0 ==> |st.es| >= CELLS
  }

  /** Additions are at new locations, and a sync finds its source off or its characters equal. */
  predicate Harmless(st: State, ev: Event) {
    match ev
    case Add(e) => forall i :: 0 <= i < |st.es| ==> st.es[i].location != e.location
    case Sync(arg) =>
      var i, j := FirstAt(st.es, arg / 0x1_0000, 0), FirstAt(st.es, arg % 0x1_0000, 0);
      i < |st.es| && j < |st.es| ==> !IsOn(st.es[i]) || st.es[j].onChar == st.es[j].offChar
    case _ => true
  }

  /** Every cell with an entry shows the character of its status. */
  predicate InPicture(st: State) {
    OnScreen(st.es) && DistinctLocations(st.es) && Shows(st.screen, st.es)
  }

  lemma StepInPicture(st: State, ev: Event)
    requires InPicture(st) && Harmless(st, ev)
    ensures InPicture(Step(st, ev))
  {
    match ev
    case Interrupt => TickKeepsScreen(st.screen, st.es);
    case Add(e) =>
      if e.location < CELLS && |st.es| < CELLS { AddKeepsScreen(st.screen, st.es, e); }
    case Remove(arg) =>
      var k := FirstAt(st.es, arg % 0x1_0000, 0);
      if k < |st.es| { RemoveKeepsScreen(st.screen, st.es, k); }
    case Sync(arg) =>
      var i, j := FirstAt(st.es, arg / 0x1_0000, 0), FirstAt(st.es, arg % 0x1_0000, 0);
      if i < |st.es| && j < |st.es| { SyncKeepsScreenIff(st.screen, st.es, i, j); }
  }

  lemma RemoveKeepsScreen(s: Screen, es: seq<Entry>, k: nat)
    requires OnScreen(es) && DistinctLocations(es) && Shows(s, es) && k < |es|
    ensures OnScreen(Without(es, k)) && DistinctLocations(Without(es, k)) && Shows(s, Without(es, k))
  {
    var r := Without(es, k);
    assert forall i :: 0 <= i < |r| ==> r[i] == if i < k then es[i] else es[i + 1];
  }

  ghost predicate AllHarmless(st: State, evs: seq<Event>)
    requires OnScreen(st.es)
    decreases |evs|
  {
    evs == [] || (Accepts(st, evs[0]) && Harmless(st, evs[0]) && AllHarmless(Step(st, evs[0]), evs[1..]))
  }

  function Run(st: State, evs: seq<Event>): (st': State)
    requires OnScreen(st.es)
    ensures OnScreen(st'.es)
    decreases |evs|
  {
    if evs == [] then st else Run(Step(st, evs[0]), evs[1..])
  }

  /** Over every such run the screen stays right. */
  lemma {:induction false} RunInPicture(st: State, evs: seq<Event>)
    requires InPicture(st) && AllHarmless(st, evs)
    ensures InPicture(Run(st, evs))
    decreases |evs|
  {
    if evs != [] {
      StepInPicture(st, evs[0]);
      RunInPicture(Step(st, evs[0]), evs[1..]);
    }
  }
}
