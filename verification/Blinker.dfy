/** The linked list of blinking characters, kept in a static pool of 2000 slots. */
module Blinker {
  import opened Bytes
  import opened Blink

  const NULL: int := -1

  /** One slot of the pool; `next` is the slot number of the next list element. */
  datatype Slot = Slot(e: Entry, next: int)

  const FREE_SLOT: Slot := Slot(ZERO_ENTRY, NULL)

  // ---------- the list in the pool ----------

  predicate Distinct(list: seq<int>) {
    forall i, j :: 0 <= i < j < |list| ==> list[i] != list[j]
  }

  predicate InPool(pool: seq<Slot>, list: seq<int>) {
    forall i :: 0 <= i < |list| ==> 0 <= list[i] < |pool|
  }

  function LinkAt(list: seq<int>, i: nat): int {
    if i < |list| then list[i] else NULL
  }

  /** Element `i` leads on to element i + 1. */
  predicate LeadsOn(pool: seq<Slot>, list: seq<int>, i: nat)
    requires i < |list| && InPool(pool, list)
  {
    pool[list[i]].next == LinkAt(list, i + 1)
  }

  ghost predicate Linked(pool: seq<Slot>, head: int, list: seq<int>)
    requires InPool(pool, list)
  {
    head == LinkAt(list, 0) && forall i: nat {:trigger LeadsOn(pool, list, i)} :: i < |list| ==> LeadsOn(pool, list, i)
  }

  predicate Located(pool: seq<Slot>, list: seq<int>)
    requires InPool(pool, list)
  {
    forall i :: 0 <= i < |list| ==> 0 < pool[list[i]].e.location < CELLS
  }

  /** Every slot outside the list is free. */
  predicate RestFree(pool: seq<Slot>, list: seq<int>) {
    forall p :: 0 <= p < |pool| && p !in list ==> pool[p].e.location == 0
  }

  /** `list` names the slots of the linked list from `head` on: it ends, no slot occurs twice, and
      its slots are exactly those with a non-zero location. */
  ghost predicate IsList(pool: seq<Slot>, head: int, list: seq<int>) {
    Distinct(list) && InPool(pool, list) && Linked(pool, head, list) && Located(pool, list) && RestFree(pool, list)
  }

  function Entries(pool: seq<Slot>, list: seq<int>): (es: seq<Entry>)
    requires InPool(pool, list)
    ensures |es| == |list| && forall i :: 0 <= i < |list| ==> es[i] == pool[list[i]].e
  {
    seq(|list|, (i: nat) requires i < |list| => pool[list[i]].e)
  }

  // ---------- used and free slots ----------

  function Below(n: nat): (s: set<int>)
    ensures forall p :: p in s <==> 0 <= p < n
    ensures |s| == n
  {
    if n == 0 then {} else Below(n - 1) + {n - 1}
  }

  function Used(list: seq<int>): set<int> {
    set p | p in list
  }

  function Free(pool: seq<Slot>): (s: set<int>)
    ensures forall p :: p in s <==> 0 <= p < |pool| && pool[p].e.location == 0
  {
    set p | 0 <= p < |pool| && pool[p].e.location == 0
  }

  lemma {:induction false} SetOfDistinct(list: seq<int>)
    requires Distinct(list)
    ensures |Used(list)| == |list|
  {
    if list != [] {
      var front, last := list[..|list| - 1], list[|list| - 1];
      SetOfDistinct(front);
      assert list == front + [last];
      assert last !in front;
      assert Used(list) == Used(front) + {last};
    }
  }

  lemma SlotInList(pool: seq<Slot>, head: int, list: seq<int>, p: int)
    requires IsList(pool, head, list) && 0 <= p < |pool|
    ensures pool[p].e.location != 0 <==> p in list
  {
  }

  /** Used and free slots add up to the pool. */
  lemma UsedPlusFree(pool: seq<Slot>, head: int, list: seq<int>)
    requires IsList(pool, head, list)
    ensures |list| + |Free(pool)| == |pool|
  {
    SetOfDistinct(list);
    forall p
      ensures p in Below(|pool|) <==> p in Used(list) || p in Free(pool)
      ensures !(p in Used(list) && p in Free(pool))
    {
      if 0 <= p < |pool| {
        SlotInList(pool, head, list, p);
      }
    }
    assert Below(|pool|) == Used(list) + Free(pool);
    assert Used(list) !! Free(pool);
  }

  /** The list is full exactly when no slot is free. */
  lemma FullMeansNoFree(pool: seq<Slot>, head: int, list: seq<int>)
    requires IsList(pool, head, list)
    ensures |list| <= |pool|
    ensures |list| == |pool| <==> Free(pool) == {}
  {
    UsedPlusFree(pool, head, list);
  }

  // ---------- changes of the list ----------

  lemma DistinctAt(list: seq<int>, i: nat, j: nat)
    requires Distinct(list) && i < |list| && j < |list| && i != j
    ensures list[i] != list[j]
  {
    assert i < j || j < i;
  }

  lemma PushLinked(pool: seq<Slot>, head: int, list: seq<int>, p: int, e: Entry)
    requires InPool(pool, list) && Linked(pool, head, list) && 0 <= p < |pool| && p !in list
    ensures InPool(pool[p := Slot(e, head)], [p] + list)
    ensures Linked(pool[p := Slot(e, head)], p, [p] + list)
  {
    var pool', list' := pool[p := Slot(e, head)], [p] + list;
    forall i: nat | i < |list'|
      ensures LeadsOn(pool', list', i)
    {
      if i > 0 {
        assert list[i - 1] in list;
        assert LeadsOn(pool, list, i - 1);
      }
    }
  }

  lemma PushEntries(pool: seq<Slot>, list: seq<int>, p: int, slot: Slot)
    requires InPool(pool, list) && 0 <= p < |pool| && p !in list
    ensures InPool(pool[p := slot], [p] + list)
    ensures Entries(pool[p := slot], [p] + list) == [slot.e] + Entries(pool, list)
  {
    var pool', list' := pool[p := slot], [p] + list;
    assert forall i :: 0 <= i < |list| ==> list[i] in list && pool'[list[i]] == pool[list[i]];
    assert forall i :: 1 <= i < |list'| ==> list'[i] == list[i - 1];
  }

  /** A free slot put in front of the list. */
  lemma PushIsList(pool: seq<Slot>, head: int, list: seq<int>, p: int, e: Entry)
    requires IsList(pool, head, list) && 0 <= p < |pool| && pool[p].e.location == 0
    requires 0 < e.location < CELLS
    ensures IsList(pool[p := Slot(e, head)], p, [p] + list)
    ensures Entries(pool[p := Slot(e, head)], [p] + list) == [e] + Entries(pool, list)
  {
    var pool', list' := pool[p := Slot(e, head)], [p] + list;
    SlotInList(pool, head, list, p);
    PushLinked(pool, head, list, p, e);
    PushEntries(pool, list, p, Slot(e, head));
    PushLocated(pool, list, p, Slot(e, head));
  }

  lemma PushLocated(pool: seq<Slot>, list: seq<int>, p: int, slot: Slot)
    requires InPool(pool, list) && Located(pool, list) && RestFree(pool, list)
    requires 0 <= p < |pool| && p !in list && 0 < slot.e.location < CELLS
    ensures InPool(pool[p := slot], [p] + list)
    ensures Located(pool[p := slot], [p] + list) && RestFree(pool[p := slot], [p] + list)
  {
    var pool', list' := pool[p := slot], [p] + list;
    PushEntries(pool, list, p, slot);
    LocatedEntries(pool, list);
    LocatedEntries(pool', list');
    assert forall q :: q !in list' ==> q !in list && q != p;
  }

  /** An entry with location 0 at the head contradicts the free marker: no list represents it. */
  lemma ZeroLocationBreaks(pool: seq<Slot>, head: int, list: seq<int>)
    requires 0 <= head < |pool| && pool[head].e.location == 0
    ensures !IsList(pool, head, list)
  {
  }

  function Relinked(pool: seq<Slot>, list: seq<int>, k: nat): (r: seq<Slot>)
    requires k < |list| && InPool(pool, list)
    ensures |r| == |pool|
  {
    if k == 0 then pool else pool[list[k - 1] := pool[list[k - 1]].(next := pool[list[k]].next)]
  }

  function Removed(list: seq<int>, k: nat): (r: seq<int>)
    requires k < |list|
    ensures |r| == |list| - 1 && forall i: nat :: i < |r| ==> r[i] == list[Old(i, k)]
  {
    list[..k] + list[k + 1..]
  }

  /** The index before element `k` was taken out. */
  function Old(i: nat, k: nat): nat {
    if i < k then i else i + 1
  }

  lemma RemovedMembers(list: seq<int>, k: nat)
    requires Distinct(list) && k < |list|
    ensures Distinct(Removed(list, k)) && list[k] !in Removed(list, k)
    ensures forall q :: q in list && q != list[k] ==> q in Removed(list, k)
  {
    var r := Removed(list, k);
    forall i: nat | i < |r|
      ensures r[i] != list[k]
    {
      DistinctAt(list, Old(i, k), k);
    }
    forall i, j | 0 <= i < j < |r|
      ensures r[i] != r[j]
    {
      DistinctAt(list, Old(i, k), Old(j, k));
    }
    forall q | q in list && q != list[k]
      ensures q in r
    {
      var i :| 0 <= i < |list| && list[i] == q;
      assert r[if i < k then i else i - 1] == q;
    }
  }

  /** Slots of the pool after element `k` has been unlinked. */
  lemma UnlinkedSlots(pool: seq<Slot>, list: seq<int>, k: nat, j: nat)
    requires Distinct(list) && InPool(pool, list) && k < |list| && j < |list| && j != k
    ensures var pool' := Relinked(pool, list, k)[list[k] := FREE_SLOT];
            && pool'[list[j]].e == pool[list[j]].e
            && pool'[list[j]].next == if j + 1 == k then pool[list[k]].next else pool[list[j]].next
  {
    DistinctAt(list, j, k);
    if k > 0 && j != k - 1 {
      DistinctAt(list, j, k - 1);
    }
  }

  lemma UnlinkLinked(pool: seq<Slot>, head: int, list: seq<int>, k: nat)
    requires Distinct(list) && InPool(pool, list) && Linked(pool, head, list) && k < |list|
    ensures var pool' := Relinked(pool, list, k)[list[k] := FREE_SLOT];
            && InPool(pool', Removed(list, k))
            && Linked(pool', if k == 0 then pool[list[k]].next else head, Removed(list, k))
  {
    var pool', list' := Relinked(pool, list, k)[list[k] := FREE_SLOT], Removed(list, k);
    assert LeadsOn(pool, list, k);
    forall i: nat | i < |list'|
      ensures LeadsOn(pool', list', i)
    {
      UnlinkedSlots(pool, list, k, Old(i, k));
      assert LeadsOn(pool, list, Old(i, k));
    }
  }

  lemma UnlinkEntries(pool: seq<Slot>, list: seq<int>, k: nat)
    requires Distinct(list) && InPool(pool, list) && k < |list|
    ensures var pool' := Relinked(pool, list, k)[list[k] := FREE_SLOT];
            && InPool(pool', Removed(list, k))
            && Entries(pool', Removed(list, k)) == Without(Entries(pool, list), k)
  {
    var pool', list' := Relinked(pool, list, k)[list[k] := FREE_SLOT], Removed(list, k);
    forall i: nat | i < |list'|
      ensures Entries(pool', list')[i] == Without(Entries(pool, list), k)[i]
    {
      UnlinkedSlots(pool, list, k, Old(i, k));
    }
  }

  lemma LocatedEntries(pool: seq<Slot>, list: seq<int>)
    requires InPool(pool, list)
    ensures Located(pool, list) <==> forall i :: 0 <= i < |list| ==> 0 < Entries(pool, list)[i].location < CELLS
  {
    assert forall i :: 0 <= i < |list| ==> pool[list[i]].e == Entries(pool, list)[i];
  }

  /** Element `k` is taken out: the link that led to it leads on, and its slot is cleared. */
  lemma UnlinkIsList(pool: seq<Slot>, head: int, list: seq<int>, k: nat)
    requires IsList(pool, head, list) && k < |list|
    ensures var pool' := Relinked(pool, list, k)[list[k] := FREE_SLOT];
            && IsList(pool', if k == 0 then pool[list[k]].next else head, Removed(list, k))
            && Entries(pool', Removed(list, k)) == Without(Entries(pool, list), k)
  {
    var pool' := Relinked(pool, list, k)[list[k] := FREE_SLOT];
    RemovedMembers(list, k);
    UnlinkLinked(pool, head, list, k);
    UnlinkEntries(pool, list, k);
    LocatedEntries(pool, list);
    LocatedEntries(pool', Removed(list, k));
    RestFreeAfterUnlink(pool, list, k);
  }

  lemma RestFreeAfterUnlink(pool: seq<Slot>, list: seq<int>, k: nat)
    requires Distinct(list) && InPool(pool, list) && RestFree(pool, list) && k < |list|
    ensures RestFree(Relinked(pool, list, k)[list[k] := FREE_SLOT], Removed(list, k))
  {
    RemovedMembers(list, k);
    var pool' := Relinked(pool, list, k)[list[k] := FREE_SLOT];
    assert forall q :: 0 <= q < |pool| && q != list[k] ==> pool'[q].e == pool[q].e;
  }

  /** New contents for an entry, links untouched. */
  lemma UpdateIsList(pool: seq<Slot>, head: int, list: seq<int>, k: nat, e: Entry)
    requires IsList(pool, head, list) && k < |list| && e.location == pool[list[k]].e.location
    ensures IsList(pool[list[k] := pool[list[k]].(e := e)], head, list)
    ensures Entries(pool[list[k] := pool[list[k]].(e := e)], list) == Entries(pool, list)[k := e]
  {
    var pool' := pool[list[k] := pool[list[k]].(e := e)];
    forall i: nat | i < |list|
      ensures LeadsOn(pool', list, i)
    {
      assert LeadsOn(pool, list, i);
      assert i < k || i == k || k < i;
    }
    forall i | 0 <= i < |list|
      ensures pool'[list[i]].e == if i == k then e else pool[list[i]].e
    {
      assert i < k || i == k || k < i;
    }
  }

  class Blinker {
    const pool: array<Slot>
    var head: int
    const vmem: array<byte>
    ghost var list: seq<int>

    ghost predicate Valid()
      reads this, pool, vmem
    {
      pool.Length == CELLS && vmem.Length == 2 * CELLS && IsList(pool[..], head, list)
    }

    ghost function View(): (es: seq<Entry>)
      requires Valid()
      reads this, pool, vmem
      ensures OnScreen(es) && |es| == |list|
    {
      Entries(pool[..], list)
    }

    /** The pool is cleared before use. */
    constructor (vmem: array<byte>)
      requires vmem.Length == 2 * CELLS
      ensures Valid() && View() == [] && this.vmem == vmem && fresh(pool)
    {
      pool := new Slot[CELLS](_ => FREE_SLOT);
      head := NULL;
      this.vmem := vmem;
      list := [];
    }

    method Malloc() returns (p: int)
      requires Valid()
      ensures |list| <= CELLS && (p == NULL <==> |list| == CELLS)
      ensures p != NULL ==> 0 <= p < CELLS && pool[p].e.location == 0
    {
      FullMeansNoFree(pool[..], head, list);
      var i := 0;
      while i < CELLS
        invariant 0 <= i <= CELLS
        invariant forall q :: 0 <= q < i ==> pool[q].e.location != 0
      {
        if pool[i].e.location == 0 {
          assert i in Free(pool[..]);
          return i;
        }
        i := i + 1;
      }
      assert Free(pool[..]) == {};
      return NULL;
    }

    method FindHelper(location: word) returns (p: int, ghost k: nat)
      requires Valid()
      ensures k == FirstAt(View(), location, 0)
      ensures p == LinkAt(list, FirstAt(View(), location, 0))
    {
      p := head;
      k := 0;
      while p != NULL
        invariant 0 <= k <= |list| && p == LinkAt(list, k)
        invariant FirstAt(View(), location, 0) == FirstAt(View(), location, k)
        decreases |list| - k
      {
        if pool[p].e.location == location {
          return;
        }
        assert LeadsOn(pool[..], list, k);
        p := pool[p].next;
        k := k + 1;
      }
    }

    /** mp1_ioctl_add. An entry at location 0 is accepted, but what follows is no list any more. */
    method Add(e: Entry) returns (rc: int)
      requires Valid()
      modifies this, pool, vmem
      ensures rc == if e.location < CELLS && old(|list|) < CELLS then 0 else -1
      ensures rc == -1 ==> Valid() && View() == old(View()) && vmem[..] == old(vmem[..])
      ensures rc == 0 ==> vmem[..] == Poke(old(vmem[..]), e.location, e.onChar)
      ensures rc == 0 && e.location != 0 ==> Valid() && View() == [Started(e)] + old(View())
      ensures rc == 0 && e.location == 0 ==> forall l :: !IsList(pool[..], head, l)
    {
      if e.location >= CELLS {
        return -1;
      }
      var copy := e.(status := 1, countdown := e.onLength);
      var p := Malloc();
      if p == NULL {
        return -1;
      }
      ghost var before := pool[..];
      pool[p] := Slot(copy, head);
      assert pool[..] == before[p := Slot(copy, head)];
      if e.location != 0 {
        PushIsList(before, head, list, p, copy);
      } else {
        forall l {
          ZeroLocationBreaks(pool[..], p, l);
        }
      }
      list := [p] + list;
      head := p;
      vmem[2 * pool[p].e.location] := pool[p].e.onChar;
      return 0;
    }

    /** mp1_ioctl_remove: the most recent entry at the location goes. */
    method Remove(arg: nat) returns (rc: int)
      requires Valid()
      modifies this, pool
      ensures Valid()
      ensures var k := FirstAt(old(View()), arg % 0x1_0000, 0);
              if k < |old(View())| then rc == 0 && View() == Without(old(View()), k)
              else rc == -1 && View() == old(View())
    {
      var p, k := FindHelper(arg % 0x1_0000);
      if p == NULL {
        return -1;
      }
      var prev := FindPrevious(p, k);
      Unlink(p, prev, k);
      return 0;
    }

    /** The walk to the link that leads to `p`: the head, or the `next` field of the result. */
    method FindPrevious(p: int, ghost k: nat) returns (prev: int)
      requires Valid() && k < |list| && p == list[k]
      ensures prev == if k == 0 then NULL else list[k - 1]
    {
      var link := head;
      prev := NULL;
      ghost var i := 0;
      while link != p
        invariant 0 <= i <= k && link == LinkAt(list, i)
        invariant prev == if i == 0 then NULL else list[i - 1]
        decreases k - i
      {
        assert LeadsOn(pool[..], list, i);
        prev, link := link, pool[link].next;
        i := i + 1;
      }
    }

    method Unlink(p: int, prev: int, ghost k: nat)
      requires Valid() && k < |list| && p == list[k] && prev == if k == 0 then NULL else list[k - 1]
      modifies this, pool
      ensures Valid() && View() == Without(old(View()), k)
    {
      UnlinkIsList(pool[..], head, list, k);
      ghost var before := pool[..];
      var next := pool[p].next;
      if prev == NULL {
        head := next;
      } else {
        pool[prev] := pool[prev].(next := next);
      }
      assert pool[..] == Relinked(before, list, k);
      pool[p] := FREE_SLOT;
      assert pool[..] == Relinked(before, list, k)[p := FREE_SLOT];
      list := Removed(list, k);
    }

    /** mp1_ioctl_find: the most recent entry at the location. */
    method Find(location: word) returns (rc: int, e: Entry)
      requires Valid()
      ensures var k := FirstAt(View(), location, 0);
              if k < |View()| then rc == 0 && e == View()[k] else rc == -1
    {
      var p, k := FindHelper(location);
      if p == NULL {
        return -1, ZERO_ENTRY;
      }
      return 0, pool[p].e;
    }

    /** mp1_ioctl_sync: source in the upper half of the argument, destination in the lower. The
        conditional move after the status test never happens, so the off character is shown. */
    method Sync(arg: nat) returns (rc: int)
      requires Valid() && arg < 0x1_0000_0000
      modifies pool, vmem
      ensures Valid()
      ensures var es := old(View());
              var i, j := FirstAt(es, arg / 0x1_0000, 0), FirstAt(es, arg % 0x1_0000, 0);
              if i < |es| && j < |es|
              then rc == 0 && View() == es[j := Synced(es[j], es[i])]
                   && vmem[..] == Poke(old(vmem[..]), es[j].location, es[j].offChar)
              else rc == -1 && View() == es && vmem[..] == old(vmem[..])
    {
      var src, i := FindHelper(arg / 0x1_0000);
      if src == NULL {
        return -1;
      }
      var dst, j := FindHelper(arg % 0x1_0000);
      if dst == NULL {
        return -1;
      }
      var s, d := pool[src].e, pool[dst].e;
      var copy := d.(onLength := s.onLength, offLength := s.offLength, countdown := s.countdown, status := s.status);
      UpdateIsList(pool[..], head, list, j, copy);
      ghost var before := pool[..];
      pool[dst] := pool[dst].(e := copy);
      assert pool[..] == before[list[j] := before[list[j]].(e := copy)];
      vmem[2 * copy.location] := copy.offChar;
      return 0;
    }

    /** mp1_rtc_tasklet. */
    method Tasklet()
      requires Valid()
      modifies pool, vmem
      ensures Valid() && View() == TickAll(old(View()))
      ensures vmem[..] == PokeAll(old(vmem[..]), old(View()))
    {
      ghost var es, screen := View(), vmem[..];
      var p := head;
      ghost var k := 0;
      assert es[..0] == [];
      while p != NULL
        invariant Valid() && 0 <= k <= |list| && p == LinkAt(list, k)
        invariant HalfTicked(View(), es, k)
        invariant OnScreen(es[..k]) && vmem[..] == PokeAll(screen, es[..k])
        decreases |list| - k
      {
        PokeNext(screen, es, k);
        TickNext(View(), es, k);
        assert LeadsOn(pool[..], list, k);
        TickOne(p, k, es);
        p := pool[p].next;
        k := k + 1;
      }
      assert es[..|list|] == es;
    }

    /** The body of the loop. */
    method TickOne(p: nat, ghost k: nat, ghost es: seq<Entry>)
      requires Valid() && k < |list| && p == list[k]
      requires |es| == |list| && OnScreen(es) && View()[k] == es[k]
      modifies pool, vmem
      ensures Valid() && View() == old(View())[k := Tick(es[k])]
      ensures pool[p].next == old(pool[p].next)
      ensures vmem[..]
           == if Flips(es[k]) then Poke(old(vmem[..]), es[k].location, CharOf(Tick(es[k]))) else old(vmem[..])
    {
      UpdateIsList(pool[..], head, list, k, Tick(pool[p].e));
      ghost var before := pool[..];
      var e := CountDown(pool[p].e);
      pool[p] := pool[p].(e := e);
      assert pool[..] == before[list[k] := before[list[k]].(e := e)];
    }

    method CountDown(e0: Entry) returns (e: Entry)
      requires vmem.Length == 2 * CELLS && e0.location < CELLS
      modifies vmem
      ensures e == Tick(e0)
      ensures vmem[..] == if Flips(e0) then Poke(old(vmem[..]), e0.location, CharOf(e)) else old(vmem[..])
    {
      e := e0;
      var c := if e.countdown == 0 then 0xFFFF else e.countdown - 1;
      if 0 < c < 0x8000 {
        e := e.(countdown := c);
      } else {
        if e.status % 2 == 1 {
          vmem[2 * e.location] := e.offChar;
          e := e.(countdown := e.offLength);
        } else {
          vmem[2 * e.location] := e.onChar;
          e := e.(countdown := e.onLength);
        }
        e := e.(status := if e.status % 2 == 1 then e.status - 1 else e.status + 1);
      }
    }

    // ---------- everything that happens ----------

    ghost function Picture(): State
      requires Valid()
      reads this, pool, vmem
    {
      State(View(), vmem[..])
    }

    /** The interrupt or a command, through the table of mp1_ioctl. */
    method Perform(ev: Event)
      requires Valid() && Accepts(Picture(), ev) && (ev.Sync? ==> ev.arg < 0x1_0000_0000)
      modifies this, pool, vmem
      ensures Valid() && Picture() == Step(old(Picture()), ev)
    {
      match ev
      case Interrupt => Tasklet();
      case Add(e) =>
        FullMeansNoFree(pool[..], head, list);
        var _ := Add(e);
      case Remove(arg) => var _ := Remove(arg);
      case Sync(arg) => var _ := Sync(arg);
    }

    /** Any run: whenever every cell showed the character of its entry's status, it still does. */
    method PerformAll(evs: seq<Event>)
      requires Valid() && AllHarmless(Picture(), evs)
      requires forall i :: 0 <= i < |evs| ==> evs[i].Sync? ==> evs[i].arg < 0x1_0000_0000
      modifies this, pool, vmem
      ensures Valid() && Picture() == Run(old(Picture()), evs)
      ensures old(InPicture(Picture())) ==> InPicture(Picture())
      decreases |evs|
    {
      ghost var st := Picture();
      if evs != [] {
        assert evs[0].Sync? ==> evs[0].arg < 0x1_0000_0000;
        Perform(evs[0]);
        PerformAll(evs[1..]);
      }
      if InPicture(st) { RunInPicture(st, evs); }
    }
  }
}
