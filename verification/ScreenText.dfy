/** What a user sees of the text that is written to a screen. */
module ScreenText {
  import opened Bytes
  import opened Text
  import opened Screen

  function Feed(s: Screen, os: seq<Output>): (r: Screen)
    requires OnScreen(s.x, s.y)
    ensures OnScreen(r.x, r.y)
    decreases |os|
  {
    if os == [] || !Safe(s.x, s.y, os[0]) then s else Feed(Put(s, os[0]), os[1..])
  }

  /** The characters of a text, through putc or through putc_display, while the tab flag is down. */
  function Typed(text: seq<byte>, keyboard: bool): (os: seq<Output>)
    ensures |os| == |text| && forall i :: 0 <= i < |text| ==> os[i] == Output(text[i], keyboard, false)
  {
    seq(|text|, (i: nat) requires i < |text| => Output(text[i], keyboard, false))
  }

  /** The byte of a page that holds the character in a row and a column. */
  function Cell(row: nat, col: nat): (at: nat)
    ensures row < 25 && col < 80 ==> at == 2 * (80 * row + col) < 4000
  {
    160 * row + 2 * col
  }

  predicate PlainText(text: seq<byte>) {
    forall c :: c in text ==> Printable(c) || c == NEWLINE
  }

  lemma {:induction false} FeedAppend(s: Screen, a: seq<byte>, b: seq<byte>, keyboard: bool)
    requires OnScreen(s.x, s.y) && PlainText(a)
    ensures Feed(s, Typed(a + b, keyboard)) == Feed(Feed(s, Typed(a, keyboard)), Typed(b, keyboard))
    decreases |a|
  {
    if a == [] {
      assert a + b == b;
    } else {
      assert a[0] in a;
      assert Typed(a + b, keyboard)[1..] == Typed(a[1..] + b, keyboard);
      assert Typed(a, keyboard)[1..] == Typed(a[1..], keyboard);
      FeedAppend(Put(s, Typed(a, keyboard)[0]), a[1..], b, keyboard);
    }
  }

  // ---------- one line ----------

  /** The page with `text` in row `y` from column `x` on. */
  function WithText(p: Page, x: nat, y: nat, text: seq<byte>): Page
    requires x + |text| <= NUM_COLS && y < NUM_ROWS
    decreases |text|
  {
    if text == [] then p else WithText(SetCell(p, x, y, text[0]), x + 1, y, text[1..])
  }

  lemma {:induction false} WithTextShows(p: Page, x: nat, y: nat, text: seq<byte>, row: nat, col: nat)
    requires x + |text| <= 80 && y < 25 && row < 25 && col < 80
    ensures WithText(p, x, y, text)[Cell(row, col)]
         == if row == y && x <= col < x + |text| then text[col - x] else p[Cell(row, col)]
    ensures WithText(p, x, y, text)[Cell(row, col) + 1]
         == if row == y && x <= col < x + |text| then 3 else p[Cell(row, col) + 1]
    decreases |text|
  {
    if text != [] {
      WithTextShows(SetCell(p, x, y, text[0]), x + 1, y, text[1..], row, col);
    }
  }

  /** A line of at most 79 columns appears as it was written. */
  lemma {:induction false} LineAppears(s: Screen, text: seq<byte>, keyboard: bool)
    requires OnScreen(s.x, s.y) && s.x + |text| <= 79 && forall c :: c in text ==> Printable(c)
    ensures Feed(s, Typed(text, keyboard)) == Screen(WithText(s.page, s.x, s.y, text), s.x + |text|, s.y)
    decreases |text|
  {
    if text != [] {
      assert text[0] in text;
      assert Typed(text, keyboard)[1..] == Typed(text[1..], keyboard);
      LineAppears(Put(s, Typed(text, keyboard)[0]), text[1..], keyboard);
    }
  }

  // ---------- single characters, by what they leave on the screen ----------

  /** A newline or return goes to the start of the next row; below the last row a blank one appears
      and the others move up. After column 79 every character does just that. */
  lemma LineBreak(s: Screen, o: Output, row: nat, col: nat)
    requires OnScreen(s.x, s.y) && (o.c == 10 || o.c == 13 || s.x == 79) && row < 25 && col < 80
    ensures Put(s, o).x == 0 && Put(s, o).y == if s.y < 24 then s.y + 1 else 24
    ensures Put(s, o).page[Cell(row, col)]
         == if s.y < 24 then s.page[Cell(row, col)] else if row < 24 then s.page[Cell(row + 1, col)] else 32
  {
    ScrollMovesRows(s.page, row, col);
  }

  /** A tab moves by four columns, or from column 76 on to the next row, and shows nothing. */
  lemma TabMoves(s: Screen, o: Output)
    requires OnScreen(s.x, s.y) && o.c == 9 && s.x < 79 && Safe(s.x, s.y, o)
    ensures Put(s, o) == if s.x < 76 then Screen(s.page, s.x + 4, s.y) else Screen(s.page, 0, s.y + 1)
  {
  }

  /** A backspace of putc goes back by one column, from column 0 to column 78 of the row above, and
      in the first cell stays; one after a tab goes back by four. The cell it reaches is blanked. */
  lemma BackspaceMoves(s: Screen, o: Output, row: nat, col: nat)
    requires OnScreen(s.x, s.y) && o.c == 8 && s.x < 79 && Safe(s.x, s.y, o) && row < 25 && col < 80
    ensures var r := Put(s, o);
            && (o.tab ==> r.x == s.x - 4 && r.y == s.y)
            && (!o.tab && s.x > 0 ==> r.x == s.x - 1 && r.y == s.y)
            && (!o.tab && s.x == 0 && s.y > 0 ==> r.x == 78 && r.y == s.y - 1)
            && (!o.tab && s.x == 0 && s.y == 0 ==> r.x == 0 && r.y == 0)
            && r.page[Cell(row, col)] == if row == r.y && col == r.x then 32 else s.page[Cell(row, col)]
  {
  }

  /** The four blanks of a typed tab and the backspace behind it put the cursor back where it was,
      up to column 74, and leave blanks. */
  lemma TabTakenBack(s: Screen, row: nat, col: nat)
    requires OnScreen(s.x, s.y) && s.x <= 74 && row < 25 && col < 80
    ensures var s1 := Feed(s, Typed([32, 32, 32, 32], true));
            && s1.x == s.x + 4 && s1.y == s.y
            && var r := Put(s1, Output(8, true, true));
               && r.x == s.x && r.y == s.y
               && r.page[Cell(row, col)] == if row == s.y && s.x <= col < s.x + 4 then 32 else s.page[Cell(row, col)]
  {
    var blanks := [32, 32, 32, 32];
    LineAppears(s, blanks, true);
    WithTextShows(s.page, s.x, s.y, blanks, row, col);
    BackspaceMoves(Screen(WithText(s.page, s.x, s.y, blanks), s.x + 4, s.y), Output(8, true, true), row, col);
  }

  // ---------- whole texts ----------

  /** By how many rows the screen moves up when `n` lines are written from row `y` on. */
  function Up(y: nat, n: nat): nat {
    if y + n > 25 then y + n - 25 else 0
  }

  /** The character that belongs in row `v`, counted from the old first row, and column `col`. */
  function Shown(p: Page, y: nat, ls: seq<seq<byte>>, v: nat, col: nat): byte
    requires col < 80
  {
    if y <= v < y + |ls| && col < |ls[v - y]| then ls[v - y][col]
    else if v < 25 then p[Cell(v, col)]
    else 32
  }

  predicate ShortLines(ls: seq<seq<byte>>) {
    forall i :: 0 <= i < |ls| ==> |ls[i]| <= 79 && forall c :: c in ls[i] ==> Printable(c)
  }

  /** The first line and the newline behind it. */
  function AfterFirst(s: Screen, line: seq<byte>, keyboard: bool): (r: Screen)
    requires OnScreen(s.x, s.y) && s.x == 0 && |line| <= 79
    ensures OnScreen(r.x, r.y)
  {
    Put(Screen(WithText(s.page, 0, s.y, line), |line|, s.y), Output(NEWLINE, keyboard, false))
  }

  lemma AfterFirstShows(s: Screen, line: seq<byte>, keyboard: bool, v: nat, col: nat)
    requires OnScreen(s.x, s.y) && s.x == 0 && |line| <= 79 && v < 25 && col < 80
    ensures var r := AfterFirst(s, line, keyboard);
            && r.x == 0 && r.y == (if s.y < 24 then s.y + 1 else 24)
            && r.page[Cell(v, col)] == Shown(s.page, s.y, [line], v + Up(s.y, 2), col)
  {
    var q := WithText(s.page, 0, s.y, line);
    LineBreak(Screen(q, |line|, s.y), Output(NEWLINE, keyboard, false), v, col);
    WithTextShows(s.page, 0, s.y, line, v, col);
    if v < 24 { WithTextShows(s.page, 0, s.y, line, v + 1, col); }
    BreakShown(s.page, q, AfterFirst(s, line, keyboard).page, s.y, line, v, col);
  }

  lemma BreakShown(p: Page, q: Page, r: Page, y: nat, line: seq<byte>, v: nat, col: nat)
    requires y < 25 && v < 25 && col < 80
    requires q[Cell(v, col)] == if v == y && col < |line| then line[col] else p[Cell(v, col)]
    requires v < 24 ==> q[Cell(v + 1, col)] == if v + 1 == y && col < |line| then line[col] else p[Cell(v + 1, col)]
    requires r[Cell(v, col)] == if y < 24 then q[Cell(v, col)] else if v < 24 then q[Cell(v + 1, col)] else 32
    ensures r[Cell(v, col)] == Shown(p, y, [line], v + Up(y, 2), col)
  {
  }

  /** Where the other lines show in the screen after the first one. */
  lemma ShownNext(p: Page, q: Page, y: nat, y': nat, ls: seq<seq<byte>>, row: nat, col: nat)
    requires y < 25 && |ls| > 1 && row < 25 && col < 80 && y' == if y < 24 then y + 1 else 24
    requires var v := row + Up(y', |ls| - 1);
             v < 25 ==> q[Cell(v, col)] == Shown(p, y, [ls[0]], v + Up(y, 2), col)
    ensures Shown(q, y', ls[1..], row + Up(y', |ls| - 1), col) == Shown(p, y, ls, row + Up(y, |ls|), col)
  {
  }

  /** `r` shows the lines from row `s.y` on, as far as one cell and the cursor are concerned. */
  predicate ShowsText(r: Screen, s: Screen, ls: seq<seq<byte>>, row: nat, col: nat)
    requires 0 <= s.y && ls != [] && row < 25 && col < 80
  {
    && r.page[Cell(row, col)] == Shown(s.page, s.y, ls, row + Up(s.y, |ls|), col)
    && r.x == |ls[|ls| - 1]| && r.y == if s.y + |ls| > 25 then 24 else s.y + |ls| - 1
  }

  lemma LastLineShows(s: Screen, ls: seq<seq<byte>>, keyboard: bool, row: nat, col: nat)
    requires OnScreen(s.x, s.y) && s.x == 0 && |ls| == 1 && ShortLines(ls) && row < 25 && col < 80
    ensures ShowsText(Feed(s, Typed(Join(ls), keyboard)), s, ls, row, col)
  {
    LineAppears(s, ls[0], keyboard);
    var r := Feed(s, Typed(Join(ls), keyboard));
    WithTextShows(s.page, 0, s.y, ls[0], row, col);
    LineShown(s.page, r.page, s.y, ls, row, col);
  }

  lemma LineShown(p: Page, q: Page, y: nat, ls: seq<seq<byte>>, row: nat, col: nat)
    requires y < 25 && |ls| == 1 && row < 25 && col < 80
    requires q[Cell(row, col)] == if row == y && col < |ls[0]| then ls[0][col] else p[Cell(row, col)]
    ensures q[Cell(row, col)] == Shown(p, y, ls, row + Up(y, 1), col)
  {
  }

  /** The screen after the first line and the newline, as far as the cell needs it. */
  lemma FirstLine(s: Screen, ls: seq<seq<byte>>, keyboard: bool, row: nat, col: nat) returns (next: Screen)
    requires OnScreen(s.x, s.y) && s.x == 0 && |ls| > 1 && ShortLines(ls) && row < 25 && col < 80
    ensures next.x == 0 && next.y == if s.y < 24 then s.y + 1 else 24
    ensures Feed(s, Typed(Join(ls), keyboard)) == Feed(next, Typed(Join(ls[1..]), keyboard))
    ensures var v := row + Up(next.y, |ls| - 1);
            v < 25 ==> next.page[Cell(v, col)] == Shown(s.page, s.y, [ls[0]], v + Up(s.y, 2), col)
  {
    next := AfterFirst(s, ls[0], keyboard);
    FeedFirst(s, ls, keyboard);
    AfterFirstShows(s, ls[0], keyboard, 0, col);
    var v := row + Up(next.y, |ls| - 1);
    if v < 25 { AfterFirstShows(s, ls[0], keyboard, v, col); }
  }

  lemma OtherLinesShow(r: Screen, s: Screen, next: Screen, ls: seq<seq<byte>>, row: nat, col: nat)
    requires 0 <= s.y < 25 && |ls| > 1 && row < 25 && col < 80 && next.y == if s.y < 24 then s.y + 1 else 24
    requires var v := row + Up(next.y, |ls| - 1);
             v < 25 ==> next.page[Cell(v, col)] == Shown(s.page, s.y, [ls[0]], v + Up(s.y, 2), col)
    requires ShowsText(r, next, ls[1..], row, col)
    ensures ShowsText(r, s, ls, row, col)
  {
    ShownNext(s.page, next.page, s.y, next.y, ls, row, col);
  }

  /** Lines of at most 79 columns, separated by newlines and written from column 0 of any row on,
      show in the rows from there on, one below the other; when they reach the last row, everything
      moves up as far as needed. */
  lemma {:induction false} TextAppears(s: Screen, ls: seq<seq<byte>>, keyboard: bool, row: nat, col: nat)
    requires OnScreen(s.x, s.y) && s.x == 0 && ls != [] && ShortLines(ls) && row < 25 && col < 80
    ensures ShowsText(Feed(s, Typed(Join(ls), keyboard)), s, ls, row, col)
    decreases |ls|
  {
    if |ls| == 1 {
      LastLineShows(s, ls, keyboard, row, col);
    } else {
      var next := FirstLine(s, ls, keyboard, row, col);
      TextAppears(next, ls[1..], keyboard, row, col);
      OtherLinesShow(Feed(next, Typed(Join(ls[1..]), keyboard)), s, next, ls, row, col);
    }
  }

  lemma FeedCons(s: Screen, o: Output, os: seq<Output>)
    requires OnScreen(s.x, s.y) && Safe(s.x, s.y, o)
    ensures Feed(s, [o] + os) == Feed(Put(s, o), os)
  {
    assert ([o] + os)[1..] == os;
  }

  lemma TypedCons(c: byte, text: seq<byte>, keyboard: bool)
    ensures Typed([c] + text, keyboard) == [Output(c, keyboard, false)] + Typed(text, keyboard)
  {
  }

  lemma FeedFirst(s: Screen, ls: seq<seq<byte>>, keyboard: bool)
    requires OnScreen(s.x, s.y) && s.x == 0 && |ls| > 1 && ShortLines(ls)
    ensures Feed(s, Typed(Join(ls), keyboard))
         == Feed(AfterFirst(s, ls[0], keyboard), Typed(Join(ls[1..]), keyboard))
  {
    var rest := Join(ls[1..]);
    var s1 := Screen(WithText(s.page, 0, s.y, ls[0]), |ls[0]|, s.y);
    calc {
      Feed(s, Typed(Join(ls), keyboard));
    ==  { assert Join(ls) == ls[0] + ([NEWLINE] + rest); }
      Feed(s, Typed(ls[0] + ([NEWLINE] + rest), keyboard));
    ==  { FeedAppend(s, ls[0], [NEWLINE] + rest, keyboard); }
      Feed(Feed(s, Typed(ls[0], keyboard)), Typed([NEWLINE] + rest, keyboard));
    ==  { LineAppears(s, ls[0], keyboard); }
      Feed(s1, Typed([NEWLINE] + rest, keyboard));
    ==  { TypedCons(NEWLINE, rest, keyboard); }
      Feed(s1, [Output(NEWLINE, keyboard, false)] + Typed(rest, keyboard));
    ==  { FeedCons(s1, Output(NEWLINE, keyboard, false), Typed(rest, keyboard)); }
      Feed(AfterFirst(s, ls[0], keyboard), Typed(rest, keyboard));
    }
  }
}
