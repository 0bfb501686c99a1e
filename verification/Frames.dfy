/** add_frames: two text files are read in step, each cell that is not blank in both blinks
    between their characters. */
module Frames {
  import opened Bytes
  import opened Text

  const COLS: nat := 80
  const OFFSET: nat := 40

  /** A call of the add operation. */
  datatype Request = Request(onChar: byte, offChar: byte, location: nat)

  /** A position in the pictures. */
  datatype Cell = Cell(row: nat, col: nat)

  // ---------- the two files as pictures ----------

  /** Column `col` of a line padded with spaces. */
  function Padded(line: seq<byte>, col: nat): byte {
    if col < |line| then line[col] else SPACE
  }

  function Longer(a: seq<byte>, b: seq<byte>): nat {
    if |a| < |b| then |b| else |a|
  }

  /** The cell is not blank in both lines. */
  predicate Marked(a: seq<byte>, b: seq<byte>, col: nat) {
    Padded(a, col) != SPACE || Padded(b, col) != SPACE
  }

  function CellRequests(a: seq<byte>, b: seq<byte>, row: nat, col: nat): seq<Request> {
    if Marked(a, b, col) then [RequestAt(a, b, Cell(row, col))] else []
  }

  /** The requests of one row from column `col` on. */
  function RowRequests(a: seq<byte>, b: seq<byte>, row: nat, col: nat): seq<Request>
    decreases Longer(a, b) - col
  {
    if col >= Longer(a, b) then []
    else CellRequests(a, b, row, col) + RowRequests(a, b, row, col + 1)
  }

  function RequestAt(a: seq<byte>, b: seq<byte>, cell: Cell): Request {
    Request(Padded(a, cell.col), Padded(b, cell.col), (cell.row * COLS + cell.col + OFFSET) % 0x1_0000)
  }

  function FirstLine(ls: seq<seq<byte>>): seq<byte> {
    if ls == [] then [] else ls[0]
  }

  function OtherLines(ls: seq<seq<byte>>): (r: seq<seq<byte>>)
    ensures ls != [] ==> |r| < |ls|
    ensures |r| <= |ls|
  {
    if ls == [] then [] else ls[1..]
  }

  /** The requests for two lists of lines, the shorter one padded with empty lines. */
  function PictureRequests(a: seq<seq<byte>>, b: seq<seq<byte>>, row: nat): seq<Request>
    decreases |a| + |b|
  {
    if a == [] && b == [] then []
    else RowRequests(FirstLine(a), FirstLine(b), row, 0) + PictureRequests(OtherLines(a), OtherLines(b), row + 1)
  }

  // ---------- what is requested, and in which order ----------

  /** The marked cells of one row from column `col` on. */
  function RowCells(a: seq<byte>, b: seq<byte>, row: nat, col: nat): seq<Cell>
    decreases Longer(a, b) - col
  {
    if col >= Longer(a, b) then []
    else (if Marked(a, b, col) then [Cell(row, col)] else []) + RowCells(a, b, row, col + 1)
  }

  function Cells(a: seq<seq<byte>>, b: seq<seq<byte>>, row: nat): seq<Cell>
    decreases |a| + |b|
  {
    if a == [] && b == [] then []
    else RowCells(FirstLine(a), FirstLine(b), row, 0) + Cells(OtherLines(a), OtherLines(b), row + 1)
  }

  /** Row-major order. */
  predicate Before(c: Cell, d: Cell) {
    c.row < d.row || (c.row == d.row && c.col < d.col)
  }

  predicate Ordered(cs: seq<Cell>) {
    forall i, j :: 0 <= i < j < |cs| ==> Before(cs[i], cs[j])
  }

  lemma {:induction false} RowCellsAre(a: seq<byte>, b: seq<byte>, row: nat, col: nat)
    ensures Ordered(RowCells(a, b, row, col))
    ensures forall c: Cell :: c in RowCells(a, b, row, col) <==> c.row == row && col <= c.col && Marked(a, b, c.col)
    decreases Longer(a, b) - col
  {
    if col < Longer(a, b) {
      RowCellsAre(a, b, row, col + 1);
      var rest, all := RowCells(a, b, row, col + 1), RowCells(a, b, row, col);
      assert forall j :: 0 <= j < |rest| ==> rest[j] in rest;
      assert forall c: Cell :: c in all <==> c in rest || (c == Cell(row, col) && Marked(a, b, col));
    }
  }

  /** Line `i` of a file, which is followed by empty lines. */
  function LineAt(ls: seq<seq<byte>>, i: nat): seq<byte> {
    if i < |ls| then ls[i] else []
  }

  lemma OrderedConcat(a: seq<Cell>, b: seq<Cell>)
    requires Ordered(a) && Ordered(b)
    requires forall c, d :: c in a && d in b ==> Before(c, d)
    ensures Ordered(a + b)
  {
    assert forall i :: 0 <= i < |a| ==> a[i] in a;
    assert forall i :: 0 <= i < |b| ==> b[i] in b;
  }

  /** The cells that blink are exactly those that are not blank in both pictures, each once and in
      row-major order. */
  lemma {:induction false} CellsAre(a: seq<seq<byte>>, b: seq<seq<byte>>, row: nat)
    ensures Ordered(Cells(a, b, row))
    ensures forall c: Cell :: c in Cells(a, b, row)
                         <==> row <= c.row && Marked(LineAt(a, c.row - row), LineAt(b, c.row - row), c.col)
    decreases |a| + |b|
  {
    if a != [] || b != [] {
      var first, rest := RowCells(FirstLine(a), FirstLine(b), row, 0), Cells(OtherLines(a), OtherLines(b), row + 1);
      RowCellsAre(FirstLine(a), FirstLine(b), row, 0);
      CellsAre(OtherLines(a), OtherLines(b), row + 1);
      OrderedConcat(first, rest);
      forall c: Cell
        ensures c in first + rest <==> row <= c.row && Marked(LineAt(a, c.row - row), LineAt(b, c.row - row), c.col)
      {
        assert c in first + rest <==> c in first || c in rest;
        if c.row > row {
          assert LineAt(a, c.row - row) == LineAt(OtherLines(a), c.row - (row + 1));
          assert LineAt(b, c.row - row) == LineAt(OtherLines(b), c.row - (row + 1));
        }
      }
    }
  }

  lemma {:induction false} RowRequestsAre(a: seq<byte>, b: seq<byte>, row: nat, col: nat)
    ensures |RowRequests(a, b, row, col)| == |RowCells(a, b, row, col)|
    ensures forall i :: 0 <= i < |RowCells(a, b, row, col)|
              ==> RowRequests(a, b, row, col)[i] == RequestAt(a, b, RowCells(a, b, row, col)[i])
    decreases Longer(a, b) - col
  {
    if col < Longer(a, b) {
      RowRequestsAre(a, b, row, col + 1);
    }
  }

  /** `q` asks for the cell `c` with its two characters. */
  predicate AsksFor(a: seq<seq<byte>>, b: seq<seq<byte>>, row: nat, q: Request, c: Cell) {
    row <= c.row && q == RequestAt(LineAt(a, c.row - row), LineAt(b, c.row - row), c)
  }

  predicate AskFor(a: seq<seq<byte>>, b: seq<seq<byte>>, row: nat, qs: seq<Request>, cs: seq<Cell>) {
    |qs| == |cs| && forall i :: 0 <= i < |cs| ==> AsksFor(a, b, row, qs[i], cs[i])
  }

  lemma AskForFirst(a: seq<seq<byte>>, b: seq<seq<byte>>, row: nat)
    ensures AskFor(a, b, row, RowRequests(FirstLine(a), FirstLine(b), row, 0),
                   RowCells(FirstLine(a), FirstLine(b), row, 0))
  {
    var first := RowCells(FirstLine(a), FirstLine(b), row, 0);
    RowCellsAre(FirstLine(a), FirstLine(b), row, 0);
    RowRequestsAre(FirstLine(a), FirstLine(b), row, 0);
    assert forall i :: 0 <= i < |first| ==> first[i] in first;
  }

  lemma AskForLater(a: seq<seq<byte>>, b: seq<seq<byte>>, row: nat, qs: seq<Request>, cs: seq<Cell>)
    requires AskFor(OtherLines(a), OtherLines(b), row + 1, qs, cs)
    ensures AskFor(a, b, row, qs, cs)
  {
    forall i | 0 <= i < |cs|
      ensures AsksFor(a, b, row, qs[i], cs[i])
    {
      assert AsksFor(OtherLines(a), OtherLines(b), row + 1, qs[i], cs[i]);
      assert LineAt(a, cs[i].row - row) == LineAt(OtherLines(a), cs[i].row - (row + 1));
      assert LineAt(b, cs[i].row - row) == LineAt(OtherLines(b), cs[i].row - (row + 1));
    }
  }

  lemma AskForBoth(a: seq<seq<byte>>, b: seq<seq<byte>>, row: nat, qs: seq<Request>, cs: seq<Cell>,
                   qs': seq<Request>, cs': seq<Cell>)
    requires AskFor(a, b, row, qs, cs) && AskFor(a, b, row, qs', cs')
    ensures AskFor(a, b, row, qs + qs', cs + cs')
  {
  }

  /** Each of these cells is requested once, in this order. */
  lemma {:induction false} RequestsAre(a: seq<seq<byte>>, b: seq<seq<byte>>, row: nat)
    ensures AskFor(a, b, row, PictureRequests(a, b, row), Cells(a, b, row))
    decreases |a| + |b|
  {
    if a != [] || b != [] {
      var a', b' := OtherLines(a), OtherLines(b);
      AskForFirst(a, b, row);
      RequestsAre(a', b', row + 1);
      AskForLater(a, b, row, PictureRequests(a', b', row + 1), Cells(a', b', row + 1));
      AskForBoth(a, b, row,
                 RowRequests(FirstLine(a), FirstLine(b), row, 0), RowCells(FirstLine(a), FirstLine(b), row, 0),
                 PictureRequests(a', b', row + 1), Cells(a', b', row + 1));
    }
  }

  /** The character of a picture at a cell; lines are followed by blanks, files by empty lines. */
  function CharOf(ls: seq<seq<byte>>, c: Cell): byte {
    if c.row < |ls| && c.col < |ls[c.row]| then ls[c.row][c.col] else 32
  }

  /** In terms of the two pictures alone: the cells are those that are not blank in both, in
      row-major order. */
  lemma PictureCellsAre(a: seq<seq<byte>>, b: seq<seq<byte>>)
    ensures forall c: Cell :: c in Cells(a, b, 0) <==> CharOf(a, c) != 32 || CharOf(b, c) != 32
    ensures forall i, j :: 0 <= i < j < |Cells(a, b, 0)| ==> Cells(a, b, 0)[i].row <= Cells(a, b, 0)[j].row
    ensures forall i, j :: 0 <= i < j < |Cells(a, b, 0)| && Cells(a, b, 0)[i].row == Cells(a, b, 0)[j].row ==>
              Cells(a, b, 0)[i].col < Cells(a, b, 0)[j].col
  {
    CellsAre(a, b, 0);
    forall i, j | 0 <= i < j < |Cells(a, b, 0)|
      ensures Before(Cells(a, b, 0)[i], Cells(a, b, 0)[j])
    {
    }
  }

  /** `q` shows the first picture's character at the cell while on and the second's while off. */
  predicate Blinks(a: seq<seq<byte>>, b: seq<seq<byte>>, q: Request, c: Cell) {
    q.onChar == CharOf(a, c) && q.offChar == CharOf(b, c) && q.location == (80 * c.row + c.col + 40) % 0x1_0000
  }

  /** Each of these cells is requested once. */
  lemma PictureRequestsAre(a: seq<seq<byte>>, b: seq<seq<byte>>)
    ensures |PictureRequests(a, b, 0)| == |Cells(a, b, 0)|
    ensures forall i :: 0 <= i < |Cells(a, b, 0)| ==> Blinks(a, b, PictureRequests(a, b, 0)[i], Cells(a, b, 0)[i])
  {
    RequestsAre(a, b, 0);
    forall i | 0 <= i < |Cells(a, b, 0)|
      ensures Blinks(a, b, PictureRequests(a, b, 0)[i], Cells(a, b, 0)[i])
    {
      AskedBlinks(a, b, PictureRequests(a, b, 0)[i], Cells(a, b, 0)[i]);
    }
  }

  lemma AskedBlinks(a: seq<seq<byte>>, b: seq<seq<byte>>, q: Request, c: Cell)
    requires AsksFor(a, b, 0, q, c)
    ensures Blinks(a, b, q, c)
  {
  }

  // ---------- the loop ----------

  /** A row as the loop meets it: what is still to be requested from a column on. */
  type Row = nat -> seq<Request>

  ghost predicate RowStep(owed: Row, a: seq<byte>, b: seq<byte>, row: nat, col: nat) {
    owed(col) == if col >= Longer(a, b) then [] else CellRequests(a, b, row, col) + owed(col + 1)
  }

  ghost predicate IsRow(owed: Row, a: seq<byte>, b: seq<byte>, row: nat) {
    forall col: nat {:trigger RowStep(owed, a, b, row, col)} :: RowStep(owed, a, b, row, col)
  }

  ghost function RowOf(a: seq<byte>, b: seq<byte>, row: nat): (owed: Row)
    ensures IsRow(owed, a, b, row) && owed(0) == RowRequests(a, b, row, 0)
  {
    (col: nat) => RowRequests(a, b, row, col)
  }

  /** The rows as the outer loop meets them. */
  type Picture = (seq<seq<byte>>, seq<seq<byte>>, nat) -> seq<Request>

  ghost predicate PictureStep(owed: Picture, a: seq<seq<byte>>, b: seq<seq<byte>>, row: nat) {
    owed(a, b, row)
    == if a == [] && b == [] then []
       else RowRequests(FirstLine(a), FirstLine(b), row, 0) + owed(OtherLines(a), OtherLines(b), row + 1)
  }

  ghost predicate IsPicture(owed: Picture) {
    forall a: seq<seq<byte>>, b: seq<seq<byte>>, row: nat {:trigger PictureStep(owed, a, b, row)} ::
      PictureStep(owed, a, b, row)
  }

  ghost function TheRequests(): (owed: Picture)
    ensures IsPicture(owed) && forall a, b, row :: owed(a, b, row) == PictureRequests(a, b, row)
  {
    (a: seq<seq<byte>>, b: seq<seq<byte>>, row: nat) => PictureRequests(a, b, row)
  }

  /** `adds` has been requested, `rest` is still to come. */
  ghost predicate Parts(all: seq<Request>, adds: seq<Request>, rest: seq<Request>) {
    all == adds + rest
  }

  lemma PartsNext(all: seq<Request>, adds: seq<Request>, rest: seq<Request>, found: seq<Request>, rest': seq<Request>)
    requires Parts(all, adds, rest) && rest == found + rest'
    ensures Parts(all, adds + found, rest')
  {
  }

  // ---------- reading a line byte by byte ----------

  /** Where the line that starts at `s` ends: its newline or the end of the file. */
  ghost function StopOf(file: seq<byte>, s: nat): (e: nat)
    requires s <= |file|
    ensures IsLineEnd(file, s, |file|, e)
  {
    LineEndIn(file, s, |file|)
  }

  lemma SplitFrom(file: seq<byte>, s: nat)
    requires s <= |file|
    ensures StopOf(file, s) == |file| ==> Split(file[s..]) == [file[s..]]
    ensures StopOf(file, s) < |file| ==>
              Split(file[s..]) == [file[s..StopOf(file, s)]] + Split(file[StopOf(file, s) + 1..])
  {
    var t, e := file[s..], StopOf(file, s);
    FirstIndexUnique(t, NEWLINE, e - s);
    if e < |file| {
      assert t[..e - s] == file[s..e];
      assert t[e - s + 1..] == file[e + 1..];
    }
  }

  /** A file while its line from `s` is read: `pos` is the file position, `c` the last byte, and
      columns before `col` have been dealt with. A file that ended earlier stays at its end. */
  datatype Stream = Stream(pos: nat, c: byte, eof: bool)

  ghost predicate InLine(file: seq<byte>, s: nat, ended: bool, col: nat, st: Stream) {
    if ended then st == Stream(|file|, NEWLINE, true)
    else
      && s <= |file|
      && var e := StopOf(file, s);
         if st.c != NEWLINE then st.pos == s + col && st.pos <= e && !st.eof
         else e <= s + col && (if e < |file| then st.pos == e + 1 && !st.eof else st.pos == |file| && st.eof)
  }

  ghost function LineOf(file: seq<byte>, s: nat, ended: bool): seq<byte>
    requires s <= |file|
  {
    if ended then [] else file[s..StopOf(file, s)]
  }

  /** The lines not yet read. */
  ghost function RestLines(file: seq<byte>, s: nat, ended: bool): seq<seq<byte>>
    requires s <= |file|
  {
    if ended then [] else Split(file[s..])
  }

  /** read one byte, unless the line is over; the end of the file counts as a newline. */
  method ReadChar(file: seq<byte>, st: Stream, ghost s: nat, ghost ended: bool, ghost col: nat) returns (st': Stream)
    requires s <= |file| && InLine(file, s, ended, col, st)
    ensures InLine(file, s, ended, col + 1, st')
    ensures st'.c == NEWLINE ==> |LineOf(file, s, ended)| <= col && InLine(file, s, ended, col, st')
    ensures st'.c != NEWLINE ==> col < |LineOf(file, s, ended)| && st'.c == LineOf(file, s, ended)[col]
    ensures st'.c != NEWLINE ==> st.pos < st'.pos <= |file|
    ensures st.pos <= st'.pos <= |file|
  {
    st' := st;
    if st.c != NEWLINE {
      if st.pos == |file| {
        st' := Stream(st.pos, NEWLINE, true);
      } else {
        st' := Stream(st.pos + 1, file[st.pos], st.eof);
      }
    }
  }

  /** The stream at the start of the next row. */
  method NextRow(file: seq<byte>, st: Stream, ghost s: nat, ghost ended: bool, ghost col: nat) returns (st': Stream)
    requires s <= |file| && InLine(file, s, ended, col, st) && st.c == NEWLINE
    ensures st'.pos == st.pos <= |file| && st'.eof == st.eof
    ensures InLine(file, st.pos, st.eof, 0, st')
    ensures RestLines(file, st.pos, st.eof) == OtherLines(RestLines(file, s, ended))
    ensures !ended ==> st.eof || s < st.pos
    ensures ended ==> st.eof
  {
    st' := if st.eof then st.(c := NEWLINE) else st.(c := 48);
    if !ended {
      SplitFrom(file, s);
    }
  }

  lemma LineIsFirst(file: seq<byte>, s: nat, ended: bool)
    requires s <= |file|
    ensures LineOf(file, s, ended) == FirstLine(RestLines(file, s, ended))
  {
    if !ended {
      SplitFrom(file, s);
    }
  }

  /** One row: both lines are read to their ends. */
  method AddRow(f0: seq<byte>, f1: seq<byte>, st0: Stream, st1: Stream, row: nat,
                ghost s0: nat, ghost s1: nat, ghost ended0: bool, ghost ended1: bool, ghost owed: Row)
    returns (st0': Stream, st1': Stream, adds: seq<Request>, ghost col: nat)
    requires s0 <= |f0| && s1 <= |f1| && InLine(f0, s0, ended0, 0, st0) && InLine(f1, s1, ended1, 0, st1)
    requires IsRow(owed, LineOf(f0, s0, ended0), LineOf(f1, s1, ended1), row)
    ensures adds == owed(0)
    ensures InLine(f0, s0, ended0, col, st0') && InLine(f1, s1, ended1, col, st1')
    ensures st0'.c == NEWLINE && st1'.c == NEWLINE
  {
    st0', st1', adds := st0, st1, [];
    var at := 0;
    while true
      invariant st0'.pos <= |f0| && st1'.pos <= |f1|
      invariant InLine(f0, s0, ended0, at, st0') && InLine(f1, s1, ended1, at, st1')
      invariant Parts(owed(0), adds, owed(at))
      decreases |f0| - st0'.pos + |f1| - st1'.pos
    {
      var done, found;
      st0', st1', done, found := AddCell(f0, f1, st0', st1', row, at, s0, s1, ended0, ended1, owed);
      if done {
        col := at;
        return;
      }
      PartsNext(owed(0), adds, owed(at), found, owed(at + 1));
      adds := adds + found;
      at := at + 1;
    }
  }

  /** One cell: the next byte of each line that is not over, and the request for them. */
  method AddCell(f0: seq<byte>, f1: seq<byte>, st0: Stream, st1: Stream, row: nat, at: nat,
                 ghost s0: nat, ghost s1: nat, ghost ended0: bool, ghost ended1: bool, ghost owed: Row)
    returns (st0': Stream, st1': Stream, done: bool, found: seq<Request>)
    requires s0 <= |f0| && s1 <= |f1| && InLine(f0, s0, ended0, at, st0) && InLine(f1, s1, ended1, at, st1)
    requires IsRow(owed, LineOf(f0, s0, ended0), LineOf(f1, s1, ended1), row)
    ensures st0.pos <= st0'.pos <= |f0| && st1.pos <= st1'.pos <= |f1|
    ensures InLine(f0, s0, ended0, if done then at else at + 1, st0')
    ensures InLine(f1, s1, ended1, if done then at else at + 1, st1')
    ensures if done then st0'.c == NEWLINE && st1'.c == NEWLINE && owed(at) == []
            else st0.pos + st1.pos < st0'.pos + st1'.pos && owed(at) == found + owed(at + 1)
  {
    st0' := ReadChar(f0, st0, s0, ended0, at);
    st1' := ReadChar(f1, st1, s1, ended1, at);
    assert RowStep(owed, LineOf(f0, s0, ended0), LineOf(f1, s1, ended1), row, at);
    done, found := st0'.c == NEWLINE && st1'.c == NEWLINE, [];
    if !done {
      found := CellAdds(st0'.c, st1'.c, row, at);
      assert found == CellRequests(LineOf(f0, s0, ended0), LineOf(f1, s1, ended1), row, at);
    }
  }

  /** The test and the call for one cell. */
  method CellAdds(c0: byte, c1: byte, row: nat, col: nat) returns (adds: seq<Request>)
    ensures var on, off := if c0 == NEWLINE then SPACE else c0, if c1 == NEWLINE then SPACE else c1;
            adds == if on == SPACE && off == SPACE then []
                    else [Request(on, off, (row * COLS + col + OFFSET) % 0x1_0000)]
  {
    adds := [];
    if (c0 != SPACE && c0 != NEWLINE) || (c1 != SPACE && c1 != NEWLINE) {
      var on := if c0 == NEWLINE then SPACE else c0;
      var off := if c1 == NEWLINE then SPACE else c1;
      adds := [Request(on, off, (row * 80 + col + 40) % 0x1_0000)];
    }
  }

  /** add_frames, once both files are open. */
  method AddFrames(f0: seq<byte>, f1: seq<byte>) returns (adds: seq<Request>)
    ensures adds == PictureRequests(Split(f0), Split(f1), 0)
  {
    assert f0[0..] == f0 && f1[0..] == f1;
    adds := AddRows(f0, f1, TheRequests());
  }

  method AddRows(f0: seq<byte>, f1: seq<byte>, ghost owed: Picture) returns (adds: seq<Request>)
    requires IsPicture(owed)
    ensures adds == owed(RestLines(f0, 0, false), RestLines(f1, 0, false), 0)
  {
    adds := [];
    var row := 0;
    var st0, st1 := Stream(0, 48, false), Stream(0, 48, false);
    ghost var all := owed(RestLines(f0, 0, false), RestLines(f1, 0, false), 0);
    while !st0.eof || !st1.eof
      invariant st0.pos <= |f0| && st1.pos <= |f1|
      invariant InLine(f0, st0.pos, st0.eof, 0, st0) && InLine(f1, st1.pos, st1.eof, 0, st1)
      invariant Parts(all, adds, owed(RestLines(f0, st0.pos, st0.eof), RestLines(f1, st1.pos, st1.eof), row))
      decreases |f0| - st0.pos + |f1| - st1.pos + (if st0.eof then 0 else 1) + (if st1.eof then 0 else 1)
    {
      var found;
      st0, st1, found := ReadRow(f0, f1, st0, st1, row, all, adds, owed);
      adds := adds + found;
      row := row + 1;
    }
    assert PictureStep(owed, [], [], row);
  }

  /** The body of the outer loop. */
  method ReadRow(f0: seq<byte>, f1: seq<byte>, st0: Stream, st1: Stream, row: nat,
                 ghost all: seq<Request>, ghost adds: seq<Request>, ghost owed: Picture)
    returns (st0': Stream, st1': Stream, found: seq<Request>)
    requires st0.pos <= |f0| && st1.pos <= |f1| && (!st0.eof || !st1.eof) && IsPicture(owed)
    requires InLine(f0, st0.pos, st0.eof, 0, st0) && InLine(f1, st1.pos, st1.eof, 0, st1)
    requires Parts(all, adds, owed(RestLines(f0, st0.pos, st0.eof), RestLines(f1, st1.pos, st1.eof), row))
    ensures st0.pos <= st0'.pos <= |f0| && st1.pos <= st1'.pos <= |f1|
    ensures !st0.eof ==> st0'.eof || st0.pos < st0'.pos
    ensures !st1.eof ==> st1'.eof || st1.pos < st1'.pos
    ensures st0.eof ==> st0'.eof
    ensures st1.eof ==> st1'.eof
    ensures InLine(f0, st0'.pos, st0'.eof, 0, st0') && InLine(f1, st1'.pos, st1'.eof, 0, st1')
    ensures Parts(all, adds + found,
                  owed(RestLines(f0, st0'.pos, st0'.eof), RestLines(f1, st1'.pos, st1'.eof), row + 1))
  {
    ghost var a, b := RestLines(f0, st0.pos, st0.eof), RestLines(f1, st1.pos, st1.eof);
    LineIsFirst(f0, st0.pos, st0.eof);
    LineIsFirst(f1, st1.pos, st1.eof);
    ghost var col;
    ghost var cells := RowOf(FirstLine(a), FirstLine(b), row);
    st0', st1', found, col := AddRow(f0, f1, st0, st1, row, st0.pos, st1.pos, st0.eof, st1.eof, cells);
    st0' := NextRow(f0, st0', st0.pos, st0.eof, col);
    st1' := NextRow(f1, st1', st1.pos, st1.eof, col);
    assert PictureStep(owed, a, b, row);
    PartsNext(all, adds, owed(a, b, row), found, owed(OtherLines(a), OtherLines(b), row + 1));
  }
}
