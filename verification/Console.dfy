/** The text memory that realises the terminals: one visible page and a backing page each. */
module Console {
  import opened Bytes
  import opened Screen
  import opened Terminals
  import Memory

  /** A page apart from the one written to stays as it was. */
  lemma OtherPage(before: seq<byte>, after: seq<byte>, written: nat, base: nat)
    requires |before| == |after| && base + PAGE <= |after|
    requires base + PAGE <= written || written + PAGE <= base
    requires forall p :: 0 <= p < |after| && !(written <= p < written + PAGE) ==> after[p] == before[p]
    ensures after[base..base + PAGE] == before[base..base + PAGE]
  {
  }

  class Console {
    const terminals: nat
    const vmem: array<byte>
    const xs: array<int>
    const ys: array<int>
    var vis: nat
    var act: nat
    var tabFlag: bool
    ghost var display: Display

    /** Where the screen of terminal `t` is kept. */
    function Base(t: nat): nat
      reads this`vis
    {
      if t == vis then 0 else (t + 1) * PAGE
    }

    ghost predicate Arrays()
      reads this
    {
      && vmem.Length == (terminals + 1) * PAGE
      && xs.Length == ys.Length == terminals && xs != ys
      && vis < terminals && act < terminals
    }

    function PageAt(base: nat): Page
      requires base + PAGE <= vmem.Length
      reads vmem
    {
      vmem[base..base + PAGE]
    }

    /** The screens are where the video code looks for them. */
    ghost predicate Valid()
      reads this, vmem, xs, ys
    {
      && Arrays() && Ok(display)
      && |display.screens| == terminals
      && display.vis == vis && display.act == act && display.tab == tabFlag
      && forall t: nat :: t < terminals ==> Shows(t, display.screens[t])
    }

    ghost predicate Shows(t: nat, s: Screen)
      requires Arrays() && t < terminals
      reads this, vmem, xs, ys
    {
      s == Screen(PageAt(Base(t)), xs[t], ys[t])
    }

    /** Blank memory, the first terminal visible and active. */
    constructor (terminals: nat)
      requires 0 < terminals
      ensures Valid() && this.terminals == terminals
      ensures display == Display(seq(terminals, (t: nat) => Screen(seq(PAGE, i => NUL), 0, 0)), 0, 0, false)
      ensures fresh(vmem) && fresh(xs) && fresh(ys)
    {
      this.terminals := terminals;
      vmem := new byte[(terminals + 1) * PAGE](_ => NUL);
      xs := new int[terminals](_ => 0);
      ys := new int[terminals](_ => 0);
      vis, act, tabFlag := 0, 0, false;
      display := Display(seq(terminals, (t: nat) => Screen(seq(PAGE, i => NUL), 0, 0)), 0, 0, false);
      new;
      forall t: nat | t < terminals
        ensures Shows(t, display.screens[t])
      {
        assert PageAt(Base(t)) == seq(PAGE, i => NUL);
      }
    }

    /** The two loops that scroll a page in place. */
    method ScrollPage(base: nat)
      requires base + PAGE <= vmem.Length
      modifies vmem
      ensures PageAt(base) == Scroll(old(PageAt(base)))
      ensures forall p :: 0 <= p < vmem.Length && !(base <= p < base + PAGE) ==> vmem[p] == old(vmem[p])
    {
      ghost var page := PageAt(base);
      MoveRowsUp(base, page);
      BlankLastRow(base, page);
      forall j | 0 <= j < PAGE
        ensures PageAt(base)[j] == Scroll(page)[j]
      {
        var p := base + j;
        assert vmem[p] == BlankedByte(page, CELLS, p - base);
      }
    }

    method MoveRowsUp(base: nat, ghost page: Page)
      requires base + PAGE <= vmem.Length && page == PageAt(base)
      modifies vmem
      ensures forall p :: base <= p < base + PAGE ==> vmem[p] == ScrolledByte(page, CELLS, p - base)
      ensures forall p :: 0 <= p < vmem.Length && !(base <= p < base + PAGE) ==> vmem[p] == old(vmem[p])
    {
      var i := NUM_COLS;
      while i < NUM_ROWS * NUM_COLS
        invariant NUM_COLS <= i <= CELLS
        invariant forall p :: base <= p < base + PAGE ==> vmem[p] == ScrolledByte(page, i, p - base)
        invariant forall p :: 0 <= p < vmem.Length && !(base <= p < base + PAGE) ==> vmem[p] == old(vmem[p])
      {
        vmem[base + 2 * (i - NUM_COLS)] := vmem[base + 2 * i];
        vmem[base + 2 * i + 1] := TEXT_ATTRIB;
        i := i + 1;
      }
    }

    method BlankLastRow(base: nat, ghost page: Page)
      requires base + PAGE <= vmem.Length
      requires forall p :: base <= p < base + PAGE ==> vmem[p] == ScrolledByte(page, CELLS, p - base)
      modifies vmem
      ensures forall p :: base <= p < base + PAGE ==> vmem[p] == BlankedByte(page, CELLS, p - base)
      ensures forall p :: 0 <= p < vmem.Length && !(base <= p < base + PAGE) ==> vmem[p] == old(vmem[p])
    {
      var i := NUM_COLS * (NUM_ROWS - 1);
      while i < NUM_ROWS * NUM_COLS
        invariant CELLS - NUM_COLS <= i <= CELLS
        invariant forall p :: base <= p < base + PAGE ==> vmem[p] == BlankedByte(page, i, p - base)
        invariant forall p :: 0 <= p < vmem.Length && !(base <= p < base + PAGE) ==> vmem[p] == old(vmem[p])
      {
        vmem[base + 2 * i] := SPACE;
        i := i + 1;
      }
    }

    method WriteCell(base: nat, x: nat, y: nat, c: byte)
      requires base + PAGE <= vmem.Length && x < NUM_COLS && y < NUM_ROWS
      modifies vmem
      ensures PageAt(base) == SetCell(old(PageAt(base)), x, y, c)
      ensures forall p :: 0 <= p < vmem.Length && !(base <= p < base + PAGE) ==> vmem[p] == old(vmem[p])
    {
      vmem[base + 2 * (NUM_COLS * y + x)] := c;
      vmem[base + 2 * (NUM_COLS * y + x) + 1] := TEXT_ATTRIB;
    }

    /** A line break in the last row scrolls. */
    method BreakLine(base: nat, y: nat) returns (y': nat)
      requires base + PAGE <= vmem.Length && y < NUM_ROWS
      modifies vmem
      ensures y' == if y < 24 then y + 1 else y
      ensures PageAt(base) == if y < 24 then old(PageAt(base)) else Scroll(old(PageAt(base)))
      ensures forall p :: 0 <= p < vmem.Length && !(base <= p < base + PAGE) ==> vmem[p] == old(vmem[p])
    {
      y' := y;
      if y == 24 {
        ScrollPage(base);
      } else {
        y' := y' + 1;
      }
    }

    method EraseBack(base: nat, x: int, y: int, keyboard: bool) returns (x': int, y': int)
      requires base + PAGE <= vmem.Length
      requires OnScreen(x, y) && OnScreen(BackTo(x, y, Output(BACKSPACE, keyboard, tabFlag)).0, y)
      modifies this`tabFlag, vmem
      ensures (x', y') == BackTo(x, y, Output(BACKSPACE, keyboard, old(tabFlag))) && OnScreen(x', y') && !tabFlag
      ensures PageAt(base) == SetCell(old(PageAt(base)), x', y', SPACE)
      ensures forall p :: 0 <= p < vmem.Length && !(base <= p < base + PAGE) ==> vmem[p] == old(vmem[p])
    {
      x', y' := x, y;
      if tabFlag {
        x' := x' - 4;
        tabFlag := false;
      } else if !keyboard && x == 0 && y != 0 {
        y' := y' - 1;
        x' := 78;
      } else if !keyboard && x == 0 && y == 0 {
      } else {
        x' := x' - 1;
      }
      WriteCell(base, x', y', SPACE);
      x' := x' % NUM_COLS;
      y' := (y' + x' / NUM_COLS) % NUM_ROWS;
    }

    /** putc and putc_display on terminal `t`, whose page is at `base` and whose cursor is at x, y;
        they differ in the terminal and in the test for column 0, which putc_display makes on the
        address of its array and so never finds true. */
    method PutOnPage(base: nat, x: int, y: int, c: byte, keyboard: bool) returns (x': int, y': int)
      requires base + PAGE <= vmem.Length
      requires OnScreen(x, y) && Safe(x, y, Output(c, keyboard, tabFlag))
      modifies this`tabFlag, vmem
      ensures Screen(PageAt(base), x', y') == Put(Screen(old(PageAt(base)), x, y), Output(c, keyboard, old(tabFlag)))
      ensures tabFlag == TabAfter(x, Output(c, keyboard, old(tabFlag)))
      ensures forall p :: 0 <= p < vmem.Length && !(base <= p < base + PAGE) ==> vmem[p] == old(vmem[p])
    {
      x', y' := x, y;
      if x == 79 {
        x' := 0;
        y' := BreakLine(base, y);
      } else if c == NEWLINE || c == RETURN {
        x' := 0;
        y' := BreakLine(base, y);
      } else if c == BACKSPACE {
        x', y' := EraseBack(base, x, y, keyboard);
      } else if c == TAB {
        if x < 76 {
          x' := x' + 4;
        } else {
          y' := y' + 1;
          x' := 0;
        }
      } else {
        WriteCell(base, x', y', c);
        x' := x' + 1;
        y' := (y' + x' % NUM_COLS / NUM_COLS) % NUM_ROWS;
      }
    }

    method PutOn(t: nat, c: byte, keyboard: bool)
      requires Arrays() && t < terminals && Base(t) + PAGE <= vmem.Length
      requires OnScreen(xs[t], ys[t]) && Safe(xs[t], ys[t], Output(c, keyboard, tabFlag))
      modifies this`tabFlag, vmem, xs, ys
      ensures Screen(PageAt(Base(t)), xs[t], ys[t])
           == Put(old(Screen(PageAt(Base(t)), xs[t], ys[t])), Output(c, keyboard, old(tabFlag)))
      ensures tabFlag == TabAfter(old(xs[t]), Output(c, keyboard, old(tabFlag)))
      ensures forall p :: 0 <= p < vmem.Length && !(Base(t) <= p < Base(t) + PAGE) ==> vmem[p] == old(vmem[p])
      ensures forall u :: 0 <= u < terminals && u != t ==> xs[u] == old(xs[u]) && ys[u] == old(ys[u])
    {
      var x, y := PutOnPage(if t == vis then 0 else (t + 1) * PAGE, xs[t], ys[t], c, keyboard);
      xs[t] := x;
      ys[t] := y;
    }

    /** What PutOn does to one terminal leaves the other screens alone. */
    lemma OtherScreen(before: seq<byte>, t: nat, u: nat, page: Page)
      requires Arrays() && t < terminals && u < terminals && u != t
      requires |before| == vmem.Length && before[Base(u)..Base(u) + PAGE] == page
      requires forall p :: 0 <= p < vmem.Length && !(Base(t) <= p < Base(t) + PAGE) ==> vmem[p] == before[p]
      ensures PageAt(Base(u)) == page
    {
      OtherPage(before, vmem[..], Base(t), Base(u));
    }

    method Putc(c: byte)
      requires Valid() && Allowed(display, Event.Putc(c))
      modifies this, vmem, xs, ys
      ensures Valid() && display == Step(old(display), Event.Putc(c))
    {
      PutAndFrame(act, c, false);
      display := Step(display, Event.Putc(c));
    }

    method PutcDisplay(c: byte)
      requires Valid() && Allowed(display, Event.PutcDisplay(c))
      modifies this, vmem, xs, ys
      ensures Valid() && display == Step(old(display), Event.PutcDisplay(c))
    {
      PutAndFrame(vis, c, true);
      display := Step(display, Event.PutcDisplay(c));
    }

    method PutAndFrame(t: nat, c: byte, keyboard: bool)
      requires Valid() && t < terminals
      requires Safe(display.screens[t].x, display.screens[t].y, Output(c, keyboard, tabFlag))
      modifies this`tabFlag, vmem, xs, ys
      ensures Arrays() && Shows(t, Put(display.screens[t], Output(c, keyboard, old(tabFlag))))
      ensures tabFlag == TabAfter(display.screens[t].x, Output(c, keyboard, old(tabFlag)))
      ensures forall u: nat :: u < terminals && u != t ==> Shows(u, display.screens[u])
    {
      assert Shows(t, display.screens[t]);
      PutOn(t, c, keyboard);
      forall u: nat | u < terminals && u != t
        ensures Shows(u, display.screens[u])
      {
        assert old(Shows(u, display.screens[u]));
        OtherScreen(old(vmem[..]), t, u, display.screens[u].page);
      }
    }

    method SetActTerminal(t: nat)
      requires Valid() && t < terminals
      modifies this
      ensures Valid() && display == Step(old(display), SetActive(t))
    {
      act := t;
      display := Step(display, SetActive(t));
    }

    /** The keyboard is about to take back a tab. */
    method SetTabFlag()
      requires Valid()
      modifies this`tabFlag, this`display
      ensures Valid() && display == Step(old(display), SetTab)
    {
      tabFlag := true;
      display := Step(display, SetTab);
      assert forall t: nat :: t < terminals && old(Shows(t, display.screens[t])) ==> Shows(t, display.screens[t]);
    }

    method CopyPage(to: nat, from: nat)
      requires to + PAGE <= vmem.Length && from + PAGE <= vmem.Length
      requires to + PAGE <= from || from + PAGE <= to
      modifies vmem
      ensures PageAt(to) == old(PageAt(from))
      ensures forall p :: 0 <= p < vmem.Length && !(to <= p < to + PAGE) ==> vmem[p] == old(vmem[p])
    {
      Memory.Memcpy(vmem, to, from, PAGE);
      forall j | 0 <= j < PAGE
        ensures PageAt(to)[j] == old(PageAt(from))[j]
      {
        assert vmem[to + j] == old(vmem[from + j]);
      }
    }

    /** The first copy: the visible page goes to its backing page, so that every screen is in its
        backing page. */
    method SavePage(ghost screens: seq<Screen>)
      requires Arrays() && |screens| == terminals && forall u: nat :: u < terminals ==> Shows(u, screens[u])
      modifies vmem
      ensures forall u: nat :: u < terminals ==> BackedUp(u, screens[u])
    {
      CopyPage((vis + 1) * PAGE, 0);
      forall u: nat | u < terminals
        ensures BackedUp(u, screens[u])
      {
        assert old(Shows(u, screens[u]));
        if u != vis {
          OtherPage(old(vmem[..]), vmem[..], (vis + 1) * PAGE, (u + 1) * PAGE);
        }
      }
    }

    ghost predicate BackedUp(u: nat, s: Screen)
      requires Arrays() && u < terminals
      reads this, vmem, xs, ys
    {
      s == Screen(PageAt((u + 1) * PAGE), xs[u], ys[u])
    }

    /** The second copy shows the chosen terminal. */
    method ShowPage(t: nat, ghost screens: seq<Screen>)
      requires Arrays() && t < terminals && |screens| == terminals
      requires forall u: nat :: u < terminals ==> BackedUp(u, screens[u])
      modifies this`vis, vmem
      ensures Arrays() && vis == t && forall u: nat :: u < terminals ==> Shows(u, screens[u])
    {
      CopyPage(0, (t + 1) * PAGE);
      vis := t;
      forall u: nat | u < terminals
        ensures Shows(u, screens[u])
      {
        assert old(BackedUp(u, screens[u]));
        if u != t {
          OtherPage(old(vmem[..]), vmem[..], 0, (u + 1) * PAGE);
        }
      }
    }

    method SetDisplayTerminal(t: nat)
      requires Valid() && t < terminals
      modifies this, vmem
      ensures Valid() && display == Step(old(display), SetDisplay(t))
    {
      SavePage(display.screens);
      ShowPage(t, display.screens);
      display := Step(display, SetDisplay(t));
      SetActTerminal(act);
    }

    /** clear: blanks the visible page, whichever terminal is active. */
    method ClearScreen()
      requires Valid()
      modifies this`display, vmem
      ensures Valid() && display == Step(old(display), Clear)
    {
      WipeVisible(display.screens);
      display := Step(display, Clear);
    }

    method WipeVisible(ghost screens: seq<Screen>)
      requires Arrays() && |screens| == terminals && forall u: nat :: u < terminals ==> Shows(u, screens[u])
      modifies vmem
      ensures Shows(vis, ClearedScreen(screens[vis]))
      ensures forall u: nat :: u < terminals && u != vis ==> Shows(u, screens[u])
    {
      assert Shows(vis, screens[vis]);
      BlankPage();
      forall u: nat | u < terminals && u != vis
        ensures Shows(u, screens[u])
      {
        assert old(Shows(u, screens[u]));
        OtherPage(old(vmem[..]), vmem[..], 0, Base(u));
      }
    }

    method BlankPage()
      requires PAGE <= vmem.Length
      modifies vmem
      ensures PageAt(0) == Cleared(old(PageAt(0)))
      ensures forall p :: PAGE <= p < vmem.Length ==> vmem[p] == old(vmem[p])
    {
      ghost var page := PageAt(0);
      var i := 0;
      while i < NUM_ROWS * NUM_COLS
        invariant 0 <= i <= CELLS
        invariant forall p :: 0 <= p < 2 * i ==> vmem[p] == if p % 2 == 0 then SPACE else CLEAR_ATTRIB
        invariant forall p :: 2 * i <= p < vmem.Length ==> vmem[p] == old(vmem[p])
      {
        vmem[2 * i] := SPACE;
        vmem[2 * i + 1] := CLEAR_ATTRIB;
        i := i + 1;
      }
    }

    method ClearPosition()
      requires Valid()
      modifies this`display, xs, ys
      ensures Valid() && display == Step(old(display), ClearPos)
    {
      assert forall u: nat :: u < terminals ==> Shows(u, display.screens[u]);
      ghost var screens := display.screens;
      xs[vis] := 0;
      ys[vis] := 0;
      display := Step(display, ClearPos);
      assert forall u: nat :: u < terminals && u != vis ==> Shows(u, screens[u]);
    }

    // ---------- everything that happens ----------

    /** One call of the console, whatever it is. */
    method Perform(ev: Event)
      requires Valid() && Allowed(display, ev)
      modifies this, vmem, xs, ys
      ensures Valid() && display == Step(old(display), ev)
    {
      match ev
      case Putc(c) => Putc(c);
      case PutcDisplay(c) => PutcDisplay(c);
      case SetActive(t) => SetActTerminal(t);
      case SetDisplay(t) => SetDisplayTerminal(t);
      case SetTab => SetTabFlag();
      case Clear => ClearScreen();
      case ClearPos => ClearPosition();
    }

    /** Any run of calls: in the shared memory, each terminal's page and cursor are those of a
        private screen that was given only what was meant for it. */
    method PerformAll(evs: seq<Event>)
      requires Valid() && AllAllowed(display, evs)
      modifies this, vmem, xs, ys
      ensures Valid() && display == Run(old(display), evs)
      ensures forall t: nat :: t < terminals ==>
                Shows(t, ApplyAll(old(display).screens[t], Meant(old(display), evs, t)))
      ensures forall t: nat :: t < terminals ==>
                var s := ApplyAll(old(display).screens[t], Meant(old(display), evs, t));
                vmem[if t == vis then 0 else 4096 * (t + 1)..][..4096] == s.page && xs[t] == s.x && ys[t] == s.y
      decreases |evs|
    {
      ghost var d := display;
      if evs != [] {
        Perform(evs[0]);
        PerformAll(evs[1..]);
      }
      forall t: nat | t < terminals
        ensures Shows(t, ApplyAll(d.screens[t], Meant(d, evs, t)))
      {
        PrivateScreens(d, evs, t);
        assert Shows(t, display.screens[t]);
      }
    }
  }
}
