/** Text files as lists of lines: splitting on newlines and joining back. */
module Text {
  import opened Bytes

  /** The lines of `s`; a text without a newline is one line, an empty text one empty line. */
  ghost function Split(s: seq<byte>): (ls: seq<seq<byte>>)
    ensures ls != []
  {
    var k := FirstIndex(s, NEWLINE);
    if k == |s| then [s] else [s[..k]] + Split(s[k + 1..])
  }

  function Join(ls: seq<seq<byte>>): seq<byte>
    requires ls != []
  {
    if |ls| == 1 then ls[0] else ls[0] + [NEWLINE] + Join(ls[1..])
  }

  /** Splitting loses nothing and leaves no newline inside a line. */
  lemma {:induction false} JoinAfterSplit(s: seq<byte>)
    ensures Join(Split(s)) == s
    ensures forall l :: l in Split(s) ==> NEWLINE !in l
    decreases |s|
  {
    var k := FirstIndex(s, NEWLINE);
    if k < |s| {
      var rest := s[k + 1..];
      JoinAfterSplit(rest);
      assert Split(s)[1..] == Split(rest);
      assert s == s[..k] + [NEWLINE] + rest;
    }
  }

  /** Hence `Split` is the only way to cut a text into newline-free lines. */
  lemma {:induction false} SplitAfterJoin(ls: seq<seq<byte>>)
    requires ls != []
    requires forall l :: l in ls ==> NEWLINE !in l
    ensures Split(Join(ls)) == ls
  {
    var s := Join(ls);
    assert ls[0] in ls;
    if |ls| == 1 {
      FirstIndexUnique(s, NEWLINE, |s|);
    } else {
      var k := |ls[0]|;
      assert s[..k] == ls[0];
      FirstIndexUnique(s, NEWLINE, k);
      assert s[k + 1..] == Join(ls[1..]);
      SplitAfterJoin(ls[1..]);
    }
  }

  // ---------- line ends by position ----------

  /** `e` ends the line that starts at `at`, as far as the bytes before `limit` tell. */
  predicate IsLineEnd(s: seq<byte>, at: nat, limit: nat, e: nat) {
    && at <= e <= limit <= |s|
    && (forall i :: at <= i < e ==> s[i] != NEWLINE)
    && (e < limit ==> s[e] == NEWLINE)
  }

  ghost function LineEndIn(s: seq<byte>, at: nat, limit: nat): (e: nat)
    requires at <= limit <= |s|
    ensures IsLineEnd(s, at, limit, e)
  {
    LineEndExists(s, at, limit);
    var e: nat :| IsLineEnd(s, at, limit, e);
    e
  }

  lemma {:induction false} LineEndExists(s: seq<byte>, at: nat, limit: nat)
    requires at <= limit <= |s|
    ensures exists e: nat :: IsLineEnd(s, at, limit, e)
    decreases limit - at
  {
    if at == limit || s[at] == NEWLINE {
      assert IsLineEnd(s, at, limit, at);
    } else {
      LineEndExists(s, at + 1, limit);
      var e: nat :| IsLineEnd(s, at + 1, limit, e);
      assert IsLineEnd(s, at, limit, e);
    }
  }

  // ---------- programs that treat a text line by line ----------

  /** The output of `f` on every line of a text, in order. */
  ghost function PerLine(s: seq<byte>, f: seq<byte> -> seq<byte>): seq<byte>
    decreases |s|
  {
    var k := FirstIndex(s, NEWLINE);
    if k == |s| then f(s) else f(s[..k]) + PerLine(s[k + 1..], f)
  }

  function MapLines(ls: seq<seq<byte>>, f: seq<byte> -> seq<byte>): seq<byte> {
    if ls == [] then [] else f(ls[0]) + MapLines(ls[1..], f)
  }

  lemma {:induction false} PerLineIsBatch(s: seq<byte>, f: seq<byte> -> seq<byte>)
    ensures PerLine(s, f) == MapLines(Split(s), f)
    decreases |s|
  {
    var k := FirstIndex(s, NEWLINE);
    if k < |s| {
      PerLineIsBatch(s[k + 1..], f);
      assert Split(s)[1..] == Split(s[k + 1..]);
    } else {
      assert Split(s)[1..] == [];
    }
  }

  lemma PerLineOne(s: seq<byte>, f: seq<byte> -> seq<byte>)
    requires NEWLINE !in s
    ensures PerLine(s, f) == f(s)
  {
    assert s[..|s|] == s;
    FirstIndexUnique(s, NEWLINE, |s|);
  }

  /** Texts put together at a newline are treated independently. */
  lemma {:induction false} PerLineAppend(a: seq<byte>, b: seq<byte>, f: seq<byte> -> seq<byte>)
    ensures PerLine(a + [NEWLINE] + b, f) == PerLine(a, f) + PerLine(b, f)
    decreases |a|
  {
    var s := a + [NEWLINE] + b;
    var k := FirstIndex(a, NEWLINE);
    assert s[..k] == a[..k];
    FirstIndexUnique(s, NEWLINE, k);
    if k == |a| {
      assert s[k + 1..] == b;
      assert a[..k] == a;
    } else {
      var a' := a[k + 1..];
      assert s[k + 1..] == a' + [NEWLINE] + b;
      PerLineAppend(a', b, f);
    }
  }

  lemma PerLineEndedLine(s: seq<byte>, end: nat, f: seq<byte> -> seq<byte>)
    requires end < |s| && s[end] == NEWLINE && f([]) == []
    ensures PerLine(s[..end + 1], f) == PerLine(s[..end], f)
  {
    assert s[..end + 1] == s[..end] + [NEWLINE] + [];
    PerLineAppend(s[..end], [], f);
    PerLineOne([], f);
  }

  lemma PerLineAfterNewline(a: seq<byte>, b: seq<byte>, f: seq<byte> -> seq<byte>)
    requires a != [] && a[|a| - 1] == NEWLINE && f([]) == []
    ensures PerLine(a + b, f) == PerLine(a, f) + PerLine(b, f)
  {
    var k := |a| - 1;
    assert a + b == a[..k] + [NEWLINE] + b;
    PerLineAppend(a[..k], b, f);
    PerLineEndedLine(a, k, f);
    assert a[..k + 1] == a;
  }

  lemma PerLineStep(s: seq<byte>, at: nat, e: nat, limit: nat, f: seq<byte> -> seq<byte>)
    requires IsLineEnd(s, at, limit, e) && e < limit
    ensures PerLine(s[at..limit], f) == f(s[at..e]) + PerLine(s[e + 1..limit], f)
  {
    var t := s[at..limit];
    assert t[..e - at] == s[at..e];
    assert t[e - at + 1..] == s[e + 1..limit];
    FirstIndexUnique(t, NEWLINE, e - at);
  }
}
