/** The line buffer of a terminal, from the keyboard to the shell. */
module LineInput {
  import opened Bytes

  const KB_SIZE: nat := 128
  const TERM_SIZE: nat := 2050
  const LINE_MAX: nat := 127

  type KbBuffer = b: seq<byte> | |b| == KB_SIZE witness seq(KB_SIZE, i => 0)
  type TermBuffer = b: seq<byte> | |b| == TERM_SIZE witness seq(TERM_SIZE, i => 0)

  /** kb_buffer, term_buffer, count and enter_pressed of one terminal. */
  datatype Tty = Tty(kb: KbBuffer, term: TermBuffer, count: nat, entered: bool)

  /** A key after the scan code table: a character or tab, or a key with an effect of its own;
      `Switch` is alt with a function key, which shows another terminal. */
  datatype Key = Char(c: byte) | Backspace | CtrlL | Enter | Switch | Other

  function Zeros(n: nat): (z: seq<byte>)
    ensures |z| == n && forall i :: 0 <= i < n ==> z[i] == NUL
  {
    seq(n, i => NUL)
  }

  // ---------- what the keyboard handler and terminal_read do to the buffers ----------

  /** A waiting Enter moves the whole keyboard buffer over. */
  function Flushed(t: Tty): Tty {
    if t.entered then t.(term := t.kb + Zeros(TERM_SIZE - KB_SIZE), kb := Zeros(KB_SIZE)) else t
  }

  /** What a key does to the line, once a waiting line has been moved over. */
  function Effect(u: Tty, key: Key): (v: Tty)
    requires u.count <= LINE_MAX
    ensures v.count <= LINE_MAX && v.entered == u.entered && v.term == u.term
  {
    match key
    case CtrlL => u.(kb := Zeros(u.count) + u.kb[u.count..], count := 0)
    case Char(c) => if u.count < LINE_MAX then u.(kb := u.kb[u.count := c], count := u.count + 1) else u
    case Backspace =>
      if 0 < u.count < LINE_MAX then u.(kb := u.kb[u.count - 1 := NUL], count := u.count - 1) else u
    case Enter => u.(kb := u.kb[u.count := NEWLINE], count := if u.count < LINE_MAX then u.count + 1 else 0)
    case _ => u
  }

  function Press(t: Tty, key: Key): Tty
    requires t.count <= LINE_MAX
  {
    if key == Other then t else Effect(Flushed(if key == Enter then t.(entered := true) else t), key)
  }

  /** terminal_read on terminal `act` while `visible` is shown: what becomes of a terminal. */
  function AfterRead(t: Tty, isActive: bool, isVisible: bool): Tty {
    var u := if isActive then t.(entered := false) else t;
    if isVisible then u.(count := 0) else u
  }

  /** The caller's buffer after terminal_read(0, buf, nbytes). */
  function ReadInto(t: Tty, buf: seq<byte>, nbytes: nat): (r: seq<byte>)
    requires nbytes <= |buf|
    ensures |r| == |buf|
  {
    var n := if nbytes > KB_SIZE then KB_SIZE else nbytes;
    t.term[..n] + buf[n..]
  }

  /** The shell's command string: the C string in its buffer without a final newline. */
  ghost function Command(buf: seq<byte>): seq<byte> {
    var cnt := FirstIndex(buf, NUL);
    if cnt > 0 && buf[cnt - 1] == NEWLINE then buf[..cnt - 1] else buf[..cnt]
  }

  // ---------- what the user edits ----------

  /** The line a user sees while typing; at 127 characters only Enter has an effect. */
  function Edit(text: seq<byte>, key: Key): seq<byte> {
    match key
    case Char(c) => if |text| < LINE_MAX then text + [c] else text
    case Backspace => if 0 < |text| < LINE_MAX then text[..|text| - 1] else text
    case CtrlL => []
    case _ => text
  }

  function EditAll(text: seq<byte>, keys: seq<Key>): seq<byte>
    decreases |keys|
  {
    if keys == [] then text else EditAll(Edit(text, keys[0]), keys[1..])
  }

  predicate EditKey(key: Key) {
    key != Enter && (key.Char? ==> key.c != NUL && key.c != NEWLINE)
  }

  predicate Plain(text: seq<byte>) {
    |text| <= LINE_MAX && forall c :: c in text ==> c != NUL && c != NEWLINE
  }

  /** The buffer starts with `text`; behind it is nothing but perhaps a newline at `mark`, left
      over from an earlier line. */
  predicate Holds(b: seq<byte>, text: seq<byte>, mark: nat)
    requires |b| >= KB_SIZE
  {
    && Plain(text) && mark < KB_SIZE
    && (forall i :: 0 <= i < |text| ==> b[i] == text[i])
    && (forall i :: |text| <= i < |b| ==> b[i] == NUL || (b[i] == NEWLINE && i == mark))
    && (mark == LINE_MAX ==> b[mark] == NEWLINE)
  }

  /** A line is being typed. */
  predicate Editing(t: Tty, text: seq<byte>, mark: nat) {
    !t.entered && t.count == |text| && Holds(t.kb, text, mark)
  }

  /** A line waits to be read; the next line will start with the mark `next`. */
  predicate Waiting(t: Tty, text: seq<byte>, mark: nat, next: nat) {
    t.entered && t.count <= LINE_MAX && Holds(t.term, text, mark) && Holds(t.kb, [], next)
  }

  /** The buffers of a terminal no key has been typed on. */
  function EmptyTty(): Tty {
    Tty(Zeros(KB_SIZE), Zeros(TERM_SIZE), 0, false)
  }

  lemma EmptyIsEditing()
    ensures Editing(EmptyTty(), [], 0)
  {
  }

  lemma PressEdits(t: Tty, text: seq<byte>, mark: nat, key: Key)
    requires Editing(t, text, mark) && EditKey(key)
    ensures Editing(Press(t, key), Edit(text, key), mark)
  {
    var text' := Edit(text, key);
    assert forall i :: 0 <= i < |text| ==> text[i] in text;
    assert forall c :: c in text' ==> c in text || key == Char(c);
  }

  lemma {:induction false} PressAllEdits(t: Tty, text: seq<byte>, mark: nat, keys: seq<Key>)
    requires Editing(t, text, mark) && forall k :: k in keys ==> EditKey(k)
    ensures Editing(PressAll(t, keys), EditAll(text, keys), mark)
    decreases |keys|
  {
    if keys != [] {
      assert keys[0] in keys;
      PressEdits(t, text, mark, keys[0]);
      PressAllEdits(Press(t, keys[0]), Edit(text, keys[0]), mark, keys[1..]);
    }
  }

  function PressAll(t: Tty, keys: seq<Key>): Tty
    decreases |keys|
  {
    if keys == [] || t.count > LINE_MAX then t else PressAll(Press(t, keys[0]), keys[1..])
  }

  lemma EnterWaits(t: Tty, text: seq<byte>, mark: nat)
    requires Editing(t, text, mark)
    ensures Waiting(Press(t, Enter), text, mark, |text|)
  {
  }

  /** Reading on the visible terminal starts a new line. */
  lemma ReadStartsLine(t: Tty, text: seq<byte>, mark: nat, next: nat)
    requires Waiting(t, text, mark, next)
    ensures Editing(AfterRead(t, true, true), [], next)
  {
  }

  /** The shell gets the line as it was edited, unless a full line of 127 characters follows
      another one and the shell's buffer holds old bytes behind the 128 that are copied. */
  lemma CommandIsLine(t: Tty, text: seq<byte>, mark: nat, next: nat, buf: seq<byte>, nbytes: nat)
    requires Waiting(t, text, mark, next)
    requires 128 <= nbytes < |buf|
    ensures Command(ReadInto(t, buf, nbytes)) == text
       <==> !(|text| == 127 && mark == 127 && buf[128] != NUL)
  {
    var raw, n := ReadInto(t, buf, nbytes), |text|;
    assert forall i :: 0 <= i < KB_SIZE ==> raw[i] == t.term[i];
    assert raw[KB_SIZE] == buf[KB_SIZE];
    assert forall i :: 0 <= i < n ==> text[i] in text;
    var cnt := FirstIndex(raw, NUL);
    if raw[n] == NUL {
      FirstIndexUnique(raw, NUL, n);
      assert raw[..n] == text;
    } else if n < LINE_MAX || buf[KB_SIZE] == NUL {
      FirstIndexUnique(raw, NUL, n + 1);
      assert raw[..n] == text;
    } else {
      assert cnt > n + 1;
      assert |Command(raw)| > n;
    }
  }

  /** Every read, short ones too, gets the beginning of the waiting line; behind the line come NULs,
      or one newline, up to the 128 bytes that are copied at most, and the rest is not touched. */
  lemma ReadIs(t: Tty, text: seq<byte>, mark: nat, next: nat, buf: seq<byte>, nbytes: nat, j: nat)
    requires Waiting(t, text, mark, next) && nbytes <= |buf| && j < |buf|
    ensures |ReadInto(t, buf, nbytes)| == |buf|
    ensures j < nbytes && j < |text| ==> ReadInto(t, buf, nbytes)[j] == text[j]
    ensures j < nbytes && |text| <= j < 128 ==>
              ReadInto(t, buf, nbytes)[j] == NUL || (ReadInto(t, buf, nbytes)[j] == NEWLINE && j == mark)
    ensures j >= nbytes || j >= 128 ==> ReadInto(t, buf, nbytes)[j] == buf[j]
  {
  }

  /** A backspace takes back the character before it, below 127 characters. */
  lemma BackspaceTakesBack(text: seq<byte>, c: byte)
    ensures |text| < 126 ==> Edit(Edit(text, Char(c)), Backspace) == text
    ensures |text| >= 127 ==> Edit(text, Char(c)) == text && Edit(text, Backspace) == text
    ensures Edit([], Backspace) == [] && Edit(text, CtrlL) == [] && Edit(text, Switch) == Edit(text, Other) == text
  {
  }

  // ---------- histories ----------

  /** One line: editing keys, Enter, and the shell's read into whatever its buffer held. */
  datatype Session = Session(keys: seq<Key>, buf: seq<byte>, nbytes: nat)

  predicate ProperSession(s: Session) {
    && (forall k :: k in s.keys ==> EditKey(k))
    && 128 <= s.nbytes < |s.buf|
  }

  function EnteredLine(t: Tty, keys: seq<Key>): Tty {
    var u := PressAll(t, keys);
    if u.count <= LINE_MAX then Press(u, Enter) else u
  }

  /** The command strings the shell obtains in a history. */
  ghost function Commands(t: Tty, history: seq<Session>): seq<seq<byte>>
    requires forall s :: s in history ==> ProperSession(s)
    decreases |history|
  {
    if history == [] then []
    else
      assert history[0] in history && ProperSession(history[0]);
      var u := EnteredLine(t, history[0].keys);
      [Command(ReadInto(u, history[0].buf, history[0].nbytes))] + Commands(AfterRead(u, true, true), history[1..])
  }

  /** The lines the user edited. */
  function EditedLines(history: seq<Session>): seq<seq<byte>>
    decreases |history|
  {
    if history == [] then [] else [EditAll([], history[0].keys)] + EditedLines(history[1..])
  }

  /** Whatever was typed before, every line of at most 126 characters is delivered as edited. */
  lemma {:induction false} LinesDelivered(t: Tty, mark: nat, history: seq<Session>)
    requires Editing(t, [], mark)
    requires forall s :: s in history ==> ProperSession(s) && |EditAll([], s.keys)| < 127
    ensures Commands(t, history) == EditedLines(history)
    decreases |history|
  {
    if history != [] {
      var s := history[0];
      assert s in history;
      var text := EditAll([], s.keys);
      PressAllEdits(t, [], mark, s.keys);
      var u := EnteredLine(t, s.keys);
      EnterWaits(PressAll(t, s.keys), text, mark);
      CommandIsLine(u, text, mark, |text|, s.buf, s.nbytes);
      ReadStartsLine(u, text, mark, |text|);
      LinesDelivered(AfterRead(u, true, true), |text|, history[1..]);
    }
  }

  // ---------- reads that come too late, or from another terminal ----------

  /** If a key is pressed before the line has been read, the shell gets an empty line: the one that
      was waiting if and only if that was empty. */
  lemma TypeAheadLosesLine(t: Tty, text: seq<byte>, mark: nat, next: nat, key: Key, buf: seq<byte>, nbytes: nat)
    requires Waiting(t, text, mark, next) && key != Other
    requires KB_SIZE <= nbytes < |buf|
    ensures Press(t, key).entered && Command(ReadInto(Press(t, key), buf, nbytes)) == []
    ensures Command(ReadInto(Press(t, key), buf, nbytes)) == text <==> text == []
  {
    assert Flushed(t).term == t.kb + Zeros(TERM_SIZE - KB_SIZE);
    EmptyCommand(ReadInto(Press(t, key), buf, nbytes));
  }

  /** Nothing, or a newline and nothing behind it, is an empty command. */
  lemma EmptyCommand(buf: seq<byte>)
    requires |buf| > 1 && (buf[0] == NUL || (buf[0] == NEWLINE && buf[1] == NUL))
    ensures Command(buf) == []
  {
    FirstIndexUnique(buf, NUL, if buf[0] == NUL then 0 else 1);
  }

  lemma NoNewlineInLine(t: Tty, text: seq<byte>, mark: nat, i: nat)
    requires Editing(t, text, mark) && i < t.count
    ensures t.kb[i] != NEWLINE
  {
    assert text[i] in text;
  }

  /** Reading a line starts a new one if and only if the terminal is visible or the line was a full
      one: otherwise the wrong counter is reset, and the terminal that was read keeps the old line's
      newline inside what counts as its next line. */
  lemma ReadStartsLineIff(t: Tty, text: seq<byte>, mark: nat, isVisible: bool)
    requires Editing(t, text, mark)
    ensures (exists text': seq<byte>, mark': nat :: Editing(AfterRead(Press(t, Enter), true, isVisible), text', mark'))
       <==> isVisible || |text| == 127
  {
    var u := AfterRead(Press(t, Enter), true, isVisible);
    if isVisible || |text| == LINE_MAX {
      assert Editing(u, [], |text|);
    } else {
      forall text': seq<byte>, mark': nat
        ensures !Editing(u, text', mark')
      {
        if Editing(u, text', mark') {
          NoNewlineInLine(u, text', mark', |text|);
          assert false;
        }
      }
    }
  }

  function Keys(text: seq<byte>): (keys: seq<Key>)
    ensures |keys| == |text| && forall i :: 0 <= i < |text| ==> keys[i] == Char(text[i])
  {
    seq(|text|, (i: nat) requires i < |text| => Char(text[i]))
  }

  lemma {:induction false} TypedIsEdited(text: seq<byte>, more: seq<byte>)
    requires |text| + |more| <= 127
    ensures EditAll(text, Keys(more)) == text + more
    decreases |more|
  {
    if more == [] {
      assert text + more == text;
    } else {
      assert Keys(more)[1..] == Keys(more[1..]);
      TypedIsEdited(text + [more[0]], more[1..]);
      assert text + [more[0]] + more[1..] == text + more;
    }
  }

  /** Typing behind the newline that a foreign read has left. */
  lemma {:induction false} TypedBehind(u: Tty, more: seq<byte>)
    requires !u.entered && u.count <= LINE_MAX
    requires forall c :: c in more ==> c != NUL && c != NEWLINE
    ensures var v := PressAll(u, Keys(more));
            && !v.entered && u.count <= v.count <= LINE_MAX
            && (forall i :: 0 <= i < u.count ==> v.kb[i] == u.kb[i])
            && (forall i :: u.count <= i < v.count ==> v.kb[i] != NUL)
            && (more != [] && u.count < LINE_MAX ==> v.count > u.count)
    decreases |more|
  {
    if more != [] {
      assert more[0] in more && forall c :: c in more[1..] ==> c in more;
      assert Keys(more)[1..] == Keys(more[1..]);
      TypedBehind(Press(u, Keys(more)[0]), more[1..]);
    }
  }

  /** The line typed after a read, by character keys, arrives as it was typed if and only if the
      terminal was visible at that read, or the line read was a full one, or this line is empty. */
  lemma NextLineIff(t: Tty, text: seq<byte>, mark: nat, isVisible: bool, typed: seq<byte>, buf: seq<byte>, nbytes: nat)
    requires Editing(t, text, mark) && Plain(typed) && |typed| < 127 && 128 <= nbytes < |buf|
    ensures var v := EnteredLine(AfterRead(Press(t, Enter), true, isVisible), Keys(typed));
            (Command(ReadInto(v, buf, nbytes)) == typed <==> isVisible || |text| == 127 || typed == [])
  {
    var u := AfterRead(Press(t, Enter), true, isVisible);
    if isVisible || |text| == LINE_MAX {
      EnterWaits(t, text, mark);
      TypedIsEdited([], typed);
      assert forall k :: k in Keys(typed) ==> EditKey(k) by {
        assert forall i :: 0 <= i < |typed| ==> typed[i] in typed;
      }
      assert Editing(u, [], |text|);
      PressAllEdits(u, [], |text|, Keys(typed));
      assert [] + typed == typed;
      var v := PressAll(u, Keys(typed));
      EnterWaits(v, typed, |text|);
      CommandIsLine(Press(v, Enter), typed, |text|, |typed|, buf, nbytes);
    } else {
      StrayCommand(t, text, mark, typed, buf, nbytes);
      assert typed != [] ==> typed[0] in typed;
    }
  }

  /** After a foreign read the shell gets nothing, or a line that starts with a newline. */
  lemma StrayCommand(t: Tty, text: seq<byte>, mark: nat, typed: seq<byte>, buf: seq<byte>, nbytes: nat)
    requires Editing(t, text, mark) && |text| < LINE_MAX && Plain(typed) && KB_SIZE <= nbytes < |buf|
    ensures var v := EnteredLine(AfterRead(Press(t, Enter), true, false), Keys(typed));
            var command := Command(ReadInto(v, buf, nbytes));
            if text != [] || typed == [] then command == [] else command != [] && command[0] == NEWLINE
  {
    var u := AfterRead(Press(t, Enter), true, false);
    var w := PressAll(u, Keys(typed));
    TypedBehind(u, typed);
    var v := Press(w, Enter);
    assert v == EnteredLine(u, Keys(typed));
    var raw := ReadInto(v, buf, nbytes);
    assert v.term == w.kb + Zeros(TERM_SIZE - KB_SIZE);
    assert raw[0] == w.kb[0] && raw[1] == w.kb[1];
    if text != [] || typed == [] {
      EmptyCommand(raw);
    } else {
      assert FirstIndex(raw, NUL) > 1;
    }
  }
}
