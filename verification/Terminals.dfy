/** Several terminals, each with a private screen, of which one is visible. */
module Terminals {
  import opened Bytes
  import opened Screen

  datatype Display = Display(screens: seq<Screen>, vis: nat, act: nat, tab: bool)

  /** Output by the active process, echo of a typed key, the scheduler's and the user's choice of a
      terminal, and clearing the visible screen. */
  datatype Event =
    | Putc(c: byte)
    | PutcDisplay(c: byte)
    | SetActive(t: nat)
    | SetDisplay(t: nat)
    | SetTab
    | Clear
    | ClearPos

  ghost predicate Ok(d: Display) {
    && d.vis < |d.screens| && d.act < |d.screens|
    && forall t :: 0 <= t < |d.screens| ==> OnScreen(d.screens[t].x, d.screens[t].y)
  }

  /** The terminal whose screen an event changes, and the output it gets. */
  function Target(d: Display, ev: Event): nat {
    if ev.Putc? then d.act else d.vis
  }

  function OutputOf(d: Display, ev: Event): Output
    requires ev.Putc? || ev.PutcDisplay?
  {
    Output(ev.c, ev.PutcDisplay?, d.tab)
  }

  ghost predicate Allowed(d: Display, ev: Event)
    requires Ok(d)
  {
    match ev
    case SetActive(t) => t < |d.screens|
    case SetDisplay(t) => t < |d.screens|
    case Putc(_) => Safe(d.screens[d.act].x, d.screens[d.act].y, OutputOf(d, ev))
    case PutcDisplay(_) => Safe(d.screens[d.vis].x, d.screens[d.vis].y, OutputOf(d, ev))
    case _ => true
  }

  function ClearedScreen(s: Screen): Screen {
    s.(page := Cleared(s.page))
  }

  ghost function Step(d: Display, ev: Event): (d': Display)
    requires Ok(d) && Allowed(d, ev)
    ensures Ok(d') && |d'.screens| == |d.screens|
  {
    var t := Target(d, ev);
    match ev
    case SetActive(u) => d.(act := u)
    case SetDisplay(u) => d.(vis := u)
    case SetTab => d.(tab := true)
    case Clear => d.(screens := d.screens[t := ClearedScreen(d.screens[t])])
    case ClearPos => d.(screens := d.screens[t := d.screens[t].(x := 0, y := 0)])
    case _ =>
      var o := OutputOf(d, ev);
      d.(screens := d.screens[t := Put(d.screens[t], o)], tab := TabAfter(d.screens[t].x, o))
  }

  // ---------- a private screen of its own ----------

  datatype Op = Write(o: Output) | Wipe | Home

  function Apply(s: Screen, op: Op): (r: Screen)
    requires OnScreen(s.x, s.y)
    ensures OnScreen(r.x, r.y)
  {
    match op
    case Write(o) => if Safe(s.x, s.y, o) then Put(s, o) else s
    case Wipe => ClearedScreen(s)
    case Home => s.(x := 0, y := 0)
  }

  function ApplyAll(s: Screen, ops: seq<Op>): (r: Screen)
    requires OnScreen(s.x, s.y)
    ensures OnScreen(r.x, r.y)
    decreases |ops|
  {
    if ops == [] then s else ApplyAll(Apply(s, ops[0]), ops[1..])
  }

  ghost predicate AllAllowed(d: Display, evs: seq<Event>)
    requires Ok(d)
    decreases |evs|
  {
    evs == [] || (Allowed(d, evs[0]) && AllAllowed(Step(d, evs[0]), evs[1..]))
  }

  ghost function Run(d: Display, evs: seq<Event>): (d': Display)
    requires Ok(d) && AllAllowed(d, evs)
    ensures Ok(d') && |d'.screens| == |d.screens|
    decreases |evs|
  {
    if evs == [] then d else Run(Step(d, evs[0]), evs[1..])
  }

  /** The operations of a run that are meant for terminal `t`: what is written while it is active or
      typed while it is visible. */
  ghost function Meant(d: Display, evs: seq<Event>, t: nat): seq<Op>
    requires Ok(d) && AllAllowed(d, evs)
    decreases |evs|
  {
    if evs == [] then []
    else
      var ev := evs[0];
      var mine :=
        if ev.SetActive? || ev.SetDisplay? || ev.SetTab? || Target(d, ev) != t then []
        else if ev.Clear? then [Wipe]
        else if ev.ClearPos? then [Home]
        else [Write(OutputOf(d, ev))];
      mine + Meant(Step(d, ev), evs[1..], t)
  }

  /** Over every run, the screen of a terminal is that of a private screen fed only the operations
      meant for it, however often the active and the visible terminal change. */
  lemma {:induction false} PrivateScreens(d: Display, evs: seq<Event>, t: nat)
    requires Ok(d) && AllAllowed(d, evs) && t < |d.screens|
    ensures Run(d, evs).screens[t] == ApplyAll(d.screens[t], Meant(d, evs, t))
    decreases |evs|
  {
    if evs != [] {
      var d', rest := Step(d, evs[0]), Meant(Step(d, evs[0]), evs[1..], t);
      PrivateScreens(d', evs[1..], t);
      if Meant(d, evs, t) != rest {
        assert Meant(d, evs, t)[1..] == rest;
        assert d'.screens[t] == Apply(d.screens[t], Meant(d, evs, t)[0]);
      }
    }
  }

  // ---------- without tabs ----------

  /** The operations for terminal `t` as the events alone determine them, the tab flag being down. */
  function Own(vis: nat, act: nat, evs: seq<Event>, t: nat): seq<Op>
    decreases |evs|
  {
    if evs == [] then []
    else
      var mine :=
        match evs[0]
        case Putc(c) => if act == t then [Write(Output(c, false, false))] else []
        case PutcDisplay(c) => if vis == t then [Write(Output(c, true, false))] else []
        case Clear => if vis == t then [Wipe] else []
        case ClearPos => if vis == t then [Home] else []
        case _ => [];
      mine + Own(if evs[0].SetDisplay? then evs[0].t else vis, if evs[0].SetActive? then evs[0].t else act, evs[1..], t)
  }

  lemma {:induction false} MeantIsOwn(d: Display, evs: seq<Event>, t: nat)
    requires Ok(d) && AllAllowed(d, evs)
    requires !d.tab && forall i :: 0 <= i < |evs| ==> !evs[i].SetTab?
    ensures Meant(d, evs, t) == Own(d.vis, d.act, evs, t)
    decreases |evs|
  {
    if evs != [] {
      assert !evs[0].SetTab?;
      MeantIsOwn(Step(d, evs[0]), evs[1..], t);
    }
  }

  /** While the tab flag stays down, the screen of a terminal depends on nothing but its own
      characters: neither on those of other terminals nor on anything the flag says. */
  lemma OwnScreen(d: Display, evs: seq<Event>, t: nat)
    requires Ok(d) && AllAllowed(d, evs) && t < |d.screens|
    requires !d.tab && forall i :: 0 <= i < |evs| ==> !evs[i].SetTab?
    ensures Run(d, evs).screens[t] == ApplyAll(d.screens[t], Own(d.vis, d.act, evs, t))
  {
    PrivateScreens(d, evs, t);
    MeantIsOwn(d, evs, t);
  }

  // ---------- the tab flag ----------

  /** The flag that the keyboard raises makes its next backspace one of four columns, and is then
      down again, except in the last column. */
  lemma TabFlagActs(d: Display)
    requires Ok(d) && 4 <= d.screens[d.vis].x < 79
    ensures Allowed(Step(d, SetTab), PutcDisplay(8))
    ensures var d' := Step(Step(d, SetTab), PutcDisplay(8));
            && !d'.tab && d'.screens == d.screens[d.vis := Put(d.screens[d.vis], Output(8, true, true))]
            && d'.vis == d.vis && d'.act == d.act
  {
  }

  /** It stays up through other characters. */
  lemma TabFlagStays(d: Display, ev: Event)
    requires Ok(d) && Allowed(d, ev) && d.tab
    ensures Step(d, ev).tab <==>
            && !(ev.Putc? && ev.c == 8 && d.screens[d.act].x != 79)
            && !(ev.PutcDisplay? && ev.c == 8 && d.screens[d.vis].x != 79)
  {
  }
}
