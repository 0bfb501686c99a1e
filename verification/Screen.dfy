/** A private 80x25 text screen and what a character does to it. */
module Screen {
  import opened Bytes

  const NUM_COLS: nat := 80
  const NUM_ROWS: nat := 25
  const CELLS: nat := 2000
  const PAGE: nat := 4096
  const TEXT_ATTRIB: byte := 3
  const CLEAR_ATTRIB: byte := 7
  const BACKSPACE: byte := 8
  const TAB: byte := 9
  const RETURN: byte := 13

  /** One 4 KB page of text memory: a character and an attribute byte per cell, 96 spare bytes. */
  type Page = p: seq<byte> | |p| == PAGE witness seq(PAGE, i => 0)

  datatype Screen = Screen(page: Page, x: int, y: int)

  /** One character of output: through putc, or through putc_display by the keyboard, with the
      value of the global tab flag. */
  datatype Output = Output(c: byte, keyboard: bool, tab: bool)

  predicate OnScreen(x: int, y: int) {
    0 <= x < NUM_COLS && 0 <= y < NUM_ROWS
  }

  predicate Printable(c: byte) {
    c != NEWLINE && c != RETURN && c != BACKSPACE && c != TAB
  }

  function CharAt(p: Page, row: nat, col: nat): byte
    requires row < NUM_ROWS && col < NUM_COLS
  {
    p[2 * (NUM_COLS * row + col)]
  }

  function SetCell(p: Page, x: nat, y: nat, c: byte): Page
    requires x < NUM_COLS && y < NUM_ROWS
  {
    var at := 2 * (NUM_COLS * y + x);
    p[at := c][at + 1 := TEXT_ATTRIB]
  }

  /** Byte `j` of a page when the scrolling loop has dealt with the cells before `i`. */
  function ScrolledByte(p: Page, i: nat, j: nat): byte
    requires NUM_COLS <= i <= CELLS && j < PAGE
  {
    if j % 2 == 0 then if j < 2 * (i - NUM_COLS) then p[j + 2 * NUM_COLS] else p[j]
    else if 2 * NUM_COLS <= j < 2 * i then TEXT_ATTRIB
    else p[j]
  }

  /** ... and the last row has been blanked before cell `i`. */
  function BlankedByte(p: Page, i: nat, j: nat): byte
    requires CELLS - NUM_COLS <= i <= CELLS && j < PAGE
  {
    if j % 2 == 0 && 2 * (CELLS - NUM_COLS) <= j < 2 * i then SPACE else ScrolledByte(p, CELLS, j)
  }

  function Scroll(p: Page): Page {
    seq(PAGE, (j: nat) requires j < PAGE => BlankedByte(p, CELLS, j))
  }

  /** Scrolling drops row 0, moves every other row up by one and appends a blank row. */
  lemma ScrollMovesRows(p: Page, row: nat, col: nat)
    requires row < NUM_ROWS && col < NUM_COLS
    ensures CharAt(Scroll(p), row, col) == if row + 1 < NUM_ROWS then CharAt(p, row + 1, col) else SPACE
    ensures Scroll(p)[2 * (NUM_COLS * row + col) + 1]
         == if row == 0 then p[2 * col + 1] else 3
  {
    var j := 2 * (NUM_COLS * row + col);
    assert Scroll(p)[j] == BlankedByte(p, CELLS, j);
    assert Scroll(p)[j + 1] == BlankedByte(p, CELLS, j + 1);
  }

  function Cleared(p: Page): Page {
    seq(PAGE, (j: nat) requires j < PAGE =>
      if j >= 2 * CELLS then p[j] else if j % 2 == 0 then SPACE else CLEAR_ATTRIB)
  }

  lemma ClearBlanks(p: Page, row: nat, col: nat)
    requires row < NUM_ROWS && col < NUM_COLS
    ensures CharAt(Cleared(p), row, col) == SPACE && Cleared(p)[2 * (NUM_COLS * row + col) + 1] == 7
    ensures Cleared(p)[2 * CELLS..] == p[2 * CELLS..]
  {
    assert 2 * (NUM_COLS * row + col) < 2 * CELLS;
  }

  /** Where the cursor is when a backspace blanks a cell. */
  function BackTo(x: int, y: int, o: Output): (int, int) {
    if o.tab then (x - 4, y)
    else if !o.keyboard && x == 0 then if y == 0 then (x, y) else (78, y - 1)
    else (x - 1, y)
  }

  /** Where the cursor ends up. */
  function Cursor(x: int, y: int, o: Output): (int, int) {
    if x == 79 then (0, if y < 24 then y + 1 else y)
    else if o.c == NEWLINE || o.c == RETURN then (0, if y == 24 then y else y + 1)
    else if o.c == BACKSPACE then BackTo(x, y, o)
    else if o.c == TAB then if x < 76 then (x + 4, y) else (0, y + 1)
    else (x + 1, y)
  }

  /** The inputs on which the cursor stays on the screen. */
  predicate Safe(x: int, y: int, o: Output) {
    x != 79 ==>
      && (o.c == BACKSPACE && o.tab ==> x >= 4)
      && (o.c == BACKSPACE && !o.tab && o.keyboard ==> x > 0)
      && (o.c == TAB ==> x < 76 || y < 24)
  }

  /** The cursor leaves the screen exactly on a backspace that undoes a tab in the first four
      columns, a typed backspace in column 0, and a tab near the end of the last row. */
  lemma CursorStays(x: int, y: int, o: Output)
    requires OnScreen(x, y)
    ensures OnScreen(Cursor(x, y, o).0, Cursor(x, y, o).1) <==> Safe(x, y, o)
  {
  }

  /** What one character does to a screen. */
  function Put(s: Screen, o: Output): (r: Screen)
    requires OnScreen(s.x, s.y) && Safe(s.x, s.y, o)
    ensures OnScreen(r.x, r.y)
  {
    var (x, y) := Cursor(s.x, s.y, o);
    var page :=
      if s.x == 79 then if s.y < 24 then s.page else Scroll(s.page)
      else if o.c == NEWLINE || o.c == RETURN then if s.y == 24 then Scroll(s.page) else s.page
      else if o.c == BACKSPACE then SetCell(s.page, x, y, SPACE)
      else if o.c == TAB then s.page
      else SetCell(s.page, s.x, s.y, o.c);
    Screen(page, x, y)
  }

  /** The tab flag is cleared by the first backspace that acts on it. */
  function TabAfter(x: int, o: Output): bool {
    o.tab && !(x != 79 && o.c == BACKSPACE)
  }

  // ---------- what a user sees ----------

  /** In the last column a character is swallowed: whatever it is, only the line breaks. */
  lemma LastColumnSwallows(s: Screen, o: Output, c: byte)
    requires OnScreen(s.x, s.y) && Printable(o.c) && Printable(c) && c != o.c
    ensures Put(s, o) == Put(s, o.(c := c)) <==> s.x == 79
  {
    if s.x < 79 {
      assert Put(s, o).page[2 * (NUM_COLS * s.y + s.x)] == o.c;
    }
  }

  /** A backspace takes back a character if and only if that character left the cursor short of
      the last column. */
  lemma BackspaceUndoes(s: Screen, c: byte, keyboard: bool)
    requires OnScreen(s.x, s.y) && Printable(c)
    ensures var b := Output(BACKSPACE, keyboard, false);
            var s' := Put(s, Output(c, keyboard, false));
            s.x < 78 <==> Safe(s'.x, s'.y, b) && Put(s', b) == s.(page := SetCell(s.page, s.x, s.y, SPACE))
  {
    if s.x < 78 {
      var page := Put(s, Output(c, keyboard, false)).page;
      assert SetCell(page, s.x, s.y, SPACE) == SetCell(s.page, s.x, s.y, SPACE);
    }
  }
}
