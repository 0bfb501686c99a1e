/** The keyboard handler and terminal_read on the buffers of all terminals. */
module Keyboard {
  import opened Bytes
  import opened LineInput

  const SHELL_BUFSIZE: nat := 1024

  class Keyboard {
    const terminals: nat
    const kb: array2<byte>
    const term: array2<byte>
    const count: array<int>
    const entered: array<bool>
    /** The handler's own copy of the visible terminal, refreshed at every key. */
    var visibleTerm: nat

    ghost predicate Valid()
      reads this, count
    {
      && kb.Length0 == term.Length0 == count.Length == entered.Length == terminals
      && kb.Length1 == KB_SIZE && term.Length1 == TERM_SIZE && kb != term
      && visibleTerm < terminals
      && forall t :: 0 <= t < terminals ==> 0 <= count[t] <= LINE_MAX
    }

    ghost function Row(a: array2<byte>, t: nat): (r: seq<byte>)
      requires t < a.Length0
      reads a
      ensures |r| == a.Length1 && forall j :: 0 <= j < |r| ==> r[j] == a[t, j]
    {
      seq(a.Length1, (j: nat) requires j < a.Length1 reads a => a[t, j])
    }

    ghost function TtyOf(t: nat): Tty
      requires Valid() && t < terminals
      reads this, kb, term, count, entered
    {
      Tty(Row(kb, t), Row(term, t), count[t], entered[t])
    }

    constructor (terminals: nat)
      requires 0 < terminals
      ensures Valid() && this.terminals == terminals
      ensures forall t: nat :: t < terminals ==> TtyOf(t) == EmptyTty()
      ensures fresh(kb) && fresh(term) && fresh(count) && fresh(entered)
    {
      this.terminals := terminals;
      kb := new byte[terminals, KB_SIZE]((_, _) => NUL);
      term := new byte[terminals, TERM_SIZE]((_, _) => NUL);
      count := new int[terminals](_ => 0);
      entered := new bool[terminals](_ => false);
      visibleTerm := 0;
      new;
      forall t: nat | t < terminals
        ensures TtyOf(t) == EmptyTty()
      {
        assert Row(kb, t) == Zeros(KB_SIZE) && Row(term, t) == Zeros(TERM_SIZE);
      }
    }

    /** memset and memcpy of rows when Enter has been pressed. */
    method Flush(v: nat)
      requires Valid() && v < terminals
      modifies kb, term
      ensures Row(term, v) == old(Row(kb, v)) + Zeros(TERM_SIZE - KB_SIZE) && Row(kb, v) == Zeros(KB_SIZE)
      ensures forall t: nat :: t < terminals && t != v ==>
                Row(kb, t) == old(Row(kb, t)) && Row(term, t) == old(Row(term, t))
    {
      ghost var row := Row(kb, v);
      forall j | 0 <= j < TERM_SIZE {
        term[v, j] := NUL;
      }
      forall j | 0 <= j < KB_SIZE {
        term[v, j] := kb[v, j];
      }
      forall j | 0 <= j < KB_SIZE {
        kb[v, j] := NUL;
      }
      RowsEqual(Row(term, v), row + Zeros(TERM_SIZE - KB_SIZE));
      RowsEqual(Row(kb, v), Zeros(KB_SIZE));
      forall t: nat | t < terminals && t != v
        ensures Row(kb, t) == old(Row(kb, t)) && Row(term, t) == old(Row(term, t))
      {
        RowsEqual(Row(kb, t), old(Row(kb, t)));
        RowsEqual(Row(term, t), old(Row(term, t)));
      }
    }

    static lemma RowsEqual(a: seq<byte>, b: seq<byte>)
      requires |a| == |b| && forall j :: 0 <= j < |a| ==> a[j] == b[j]
      ensures a == b
    {
    }

    method SetKb(v: nat, i: nat, c: byte)
      requires Valid() && v < terminals && i < KB_SIZE
      modifies kb
      ensures Row(kb, v) == old(Row(kb, v))[i := c]
      ensures forall t: nat :: t < terminals && t != v ==> Row(kb, t) == old(Row(kb, t))
    {
      kb[v, i] := c;
    }

    /** The loop of ctrl-L. */
    method ClearKb(v: nat, n: nat)
      requires Valid() && v < terminals && n <= KB_SIZE
      modifies kb
      ensures Row(kb, v) == Zeros(n) + old(Row(kb, v))[n..]
      ensures forall t: nat :: t < terminals && t != v ==> Row(kb, t) == old(Row(kb, t))
    {
      for i := 0 to n
        invariant Row(kb, v) == Zeros(i) + old(Row(kb, v))[i..]
        invariant forall t: nat :: t < terminals && t != v ==> Row(kb, t) == old(Row(kb, t))
      {
        SetKb(v, i, NUL);
      }
    }

    /** keyboard_handler for one key while terminal `visible` is shown. */
    method KeyboardHandler(visible: nat, key: Key)
      requires Valid() && visible < terminals
      modifies this, kb, term, count, entered
      ensures Valid() && visibleTerm == visible
      ensures TtyOf(visible) == Press(old(TtyOf(visible)), key)
      ensures forall t: nat :: t < terminals && t != visible ==> TtyOf(t) == old(TtyOf(t))
    {
      visibleTerm := visible;
      var v := visible;
      if key == Enter {
        entered[v] := true;
      }
      if key != Other {
        if entered[v] {
          Flush(v);
        }
        EditLine(v, key);
      }
    }

    /** The chain of tests behind that. */
    method EditLine(v: nat, key: Key)
      requires Valid() && v < terminals && key != Other
      modifies kb, count
      ensures Valid() && TtyOf(v) == Effect(old(TtyOf(v)), key)
      ensures forall t: nat :: t < terminals && t != v ==> TtyOf(t) == old(TtyOf(t))
    {
      if key == CtrlL {
        ClearKb(v, count[v]);
        count[v] := 0;
      } else if key == Switch {
        // the screens are exchanged
      } else if count[v] < LINE_MAX {
        if key == Backspace {
          if count[v] > 0 {
            SetKb(v, count[v] - 1, NUL);
            count[v] := count[v] - 1;
          }
        } else {
          SetKb(v, count[v], if key == Enter then NEWLINE else key.c);
          count[v] := count[v] + 1;
        }
      } else if count[v] == LINE_MAX && key == Enter {
        SetKb(v, count[v], NEWLINE);
        count[v] := 0;
      }
    }

    /** strlen. */
    method StrLen(buf: array<byte>) returns (len: nat)
      requires NUL in buf[..]
      ensures len == FirstIndex(buf[..], NUL)
    {
      len := 0;
      while buf[len] != NUL
        invariant 0 <= len < buf.Length && forall i :: 0 <= i < len ==> buf[i] != NUL
        decreases buf.Length - len
      {
        len := len + 1;
      }
      FirstIndexUnique(buf[..], NUL, len);
    }

    /** terminal_read for a process on terminal `act`, once its wait for Enter is over. */
    method TerminalRead(act: nat, buf: array<byte>, nbytes: int) returns (r: int)
      requires Valid() && act < terminals && nbytes <= buf.Length
      requires nbytes > 0 ==> entered[visibleTerm] && NUL in ReadInto(TtyOf(act), buf[..], nbytes)
      modifies buf, count, entered
      ensures Valid()
      ensures nbytes <= 0 ==> r == 0 && buf[..] == old(buf[..])
      ensures nbytes <= 0 ==> forall t: nat :: t < terminals ==> TtyOf(t) == old(TtyOf(t))
      ensures nbytes > 0 ==> buf[..] == ReadInto(old(TtyOf(act)), old(buf[..]), nbytes)
      ensures nbytes > 0 ==> forall j :: 0 <= j < buf.Length ==>
                buf[j] == if j < nbytes && j < 128 then old(term[act, j]) else old(buf[j])
      ensures nbytes > 0 ==> r == FirstIndex(buf[..], NUL)
      ensures nbytes > 0 ==> forall t: nat :: t < terminals ==>
                TtyOf(t) == AfterRead(old(TtyOf(t)), t == act, t == visibleTerm)
    {
      if nbytes <= 0 {
        return 0;
      }
      var n := if nbytes > KB_SIZE then KB_SIZE else nbytes;
      forall j | 0 <= j < n {
        buf[j] := term[act, j];
      }
      assert buf[..] == ReadInto(old(TtyOf(act)), old(buf[..]), nbytes);
      entered[act] := false;
      count[visibleTerm] := 0;
      r := StrLen(buf);
    }

    /** The shell's line: read, strip the newline. */
    method ShellLine(act: nat, buf: array<byte>) returns (command: seq<byte>)
      requires Valid() && act < terminals && buf.Length == SHELL_BUFSIZE
      requires entered[visibleTerm] && NUL in ReadInto(TtyOf(act), buf[..], SHELL_BUFSIZE - 1)
      modifies buf, count, entered
      ensures Valid()
      ensures command == Command(ReadInto(old(TtyOf(act)), old(buf[..]), SHELL_BUFSIZE - 1))
      ensures forall t: nat :: t < terminals ==> TtyOf(t) == AfterRead(old(TtyOf(t)), t == act, t == visibleTerm)
    {
      var cnt := TerminalRead(act, buf, SHELL_BUFSIZE - 1);
      if cnt > 0 && buf[cnt - 1] == NEWLINE {
        cnt := cnt - 1;
      }
      command := buf[..cnt];
      buf[cnt] := NUL;
    }
  }
}
