/** Exactly when the streaming grep prints what splitting the whole file into lines would print. */
module GrepExact {
  import opened Bytes
  import opened Text
  import opened Grep

  // ---------- the condition, as a user can check it ----------

  predicate LinesShort(ls: seq<seq<byte>>) {
    forall i :: 0 <= i < |ls| ==> |ls[i]| <= 1024
  }

  predicate BlockEndsLine(s: seq<byte>, j: nat) {
    0 < j && 1024 * j < |s| && s[1024 * j - 1] == NEWLINE
  }

  /** Of the multiples of 1024 inside the file, number `j` is the first that does not follow a newline. */
  ghost predicate FirstUnaligned(s: seq<byte>, j: nat) {
    && 0 < j && 1024 * j < |s| && !BlockEndsLine(s, j)
    && forall i: nat :: 0 < i < j ==> BlockEndsLine(s, i)
  }

  /** If the byte behind the window starts out as a newline, the first line that runs across a
      multiple of 1024 is cut there; that does no harm if the line ends there anyway. */
  ghost predicate StaleHarmless(s: seq<byte>) {
    forall j: nat :: FirstUnaligned(s, j) ==> s[1024 * j] == NEWLINE
  }

  /** The same output for every pattern and file name. */
  ghost predicate SameOutput(s: seq<byte>, behind: byte) {
    forall pat: seq<byte>, fname: seq<byte> :: IsCString(pat) && IsCString(fname) ==>
      Output(Seen(s, behind), pat, fname) == Output(s, pat, fname)
  }

  // ---------- cut by cut ----------

  /** Every cut that the program makes falls just before a newline. */
  ghost predicate Harmless(s: seq<byte>, behind: byte)
    decreases |s|
  {
    |s| > BUFSIZE ==>
      var c := NextCut(s[..BUFSIZE], behind);
      (c.forced ==> s[BUFSIZE] == NEWLINE) && Harmless(s[c.size..], NextBehind(s[BUFSIZE - 1], behind))
  }

  /** Output is put together from that of complete lines and of the rest. */
  lemma PerLineFrom(s: seq<byte>, at: nat, f: seq<byte> -> seq<byte>)
    requires at <= |s| && (at == 0 || s[at - 1] == NEWLINE) && f([]) == []
    ensures PerLine(s, f) == PerLine(s[..at], f) + PerLine(s[at..], f)
  {
    assert s[..at] + s[at..] == s;
    if at == 0 {
      PerLineOne(s[..at], f);
    } else {
      PerLineAfterNewline(s[..at], s[at..], f);
    }
  }

  lemma PerLineSkip(b: seq<byte>, f: seq<byte> -> seq<byte>)
    requires f([]) == []
    ensures PerLine([NEWLINE] + b, f) == PerLine(b, f)
  {
    PerLineAppend([], b, f);
    PerLineOne([], f);
    assert [] + [NEWLINE] + b == [NEWLINE] + b;
  }

  /** The same at the end of a line. */
  lemma PerLineBefore(a: seq<byte>, b: seq<byte>, f: seq<byte> -> seq<byte>)
    requires b != [] && b[0] == NEWLINE && f([]) == []
    ensures PerLine(a + b, f) == PerLine(a, f) + PerLine(b, f)
  {
    var b' := b[1..];
    assert [NEWLINE] + b' == b;
    PerLineSkip(b', f);
    PerLineAppend(a, b', f);
    assert a + [NEWLINE] + b' == a + b;
  }

  lemma HarmlessCut(s: seq<byte>, behind: byte, f: seq<byte> -> seq<byte>)
    requires |s| > BUFSIZE && f([]) == []
    requires NextCut(s[..BUFSIZE], behind).forced ==> s[BUFSIZE] == NEWLINE
    ensures var c := NextCut(s[..BUFSIZE], behind);
            PerLine(s, f) == PerLine(s[..c.size], f) + PerLine(s[c.size..], f)
  {
    var window := s[..BUFSIZE];
    var c := NextCut(window, behind);
    if c.forced {
      assert s == window + s[BUFSIZE..];
      PerLineBefore(window, s[BUFSIZE..], f);
    } else {
      assert s[c.size - 1] == window[c.size - 1];
      PerLineFrom(s, c.size, f);
    }
  }

  lemma {:induction false} HarmlessIsSame(s: seq<byte>, behind: byte, f: seq<byte> -> seq<byte>)
    requires Harmless(s, behind) && f([]) == []
    ensures PerLine(Seen(s, behind), f) == PerLine(s, f)
    decreases |s|
  {
    if |s| > BUFSIZE {
      var c, behind' := NextCut(s[..BUFSIZE], behind), NextBehind(s[BUFSIZE - 1], behind);
      SeenStep(s, behind, f);
      HarmlessIsSame(s[c.size..], behind', f);
      HarmlessCut(s, behind, f);
    }
  }

  // ---------- a harmful cut shows ----------

  /** A search for one byte. */
  function ByteReport(x: byte): (f: seq<byte> -> seq<byte>) {
    LineReport([x], [])
  }

  lemma FirstByteMatches(line: seq<byte>)
    requires line != []
    ensures ByteReport(line[0])(line) == [COLON] + line + [NEWLINE]
  {
    assert OccursAt(line, 0, [line[0]]);
  }

  lemma SamePrefix(a: seq<byte>, b: seq<byte>, a': seq<byte>, b': seq<byte>, p: seq<byte>)
    requires a == p + a' && b == p + b'
    ensures a == b ==> a' == b'
  {
    assert a[|p|..] == a' && b[|p|..] == b';
  }

  ghost predicate InThree(all: seq<byte>, before: seq<byte>, piece: seq<byte>, more: seq<byte>) {
    all == before + piece + more
  }

  /** A line that is cut after `m` bytes is printed as two. */
  lemma CutLineShows(cut: seq<byte>, whole: seq<byte>, before: seq<byte>, line: seq<byte>, m: nat,
                     more: seq<byte>, more': seq<byte>, x: byte)
    requires 0 < m < |line| && line[m] != NEWLINE && line[0] == x
    requires InThree(cut, before, ByteReport(x)(line[..m]), more)
    requires InThree(whole, before, ByteReport(x)(line), more')
    ensures cut != whole
  {
    FirstByteMatches(line);
    FirstByteMatches(line[..m]);
    var k := |before| + 1 + m;
    assert cut[k] == NEWLINE;
    assert whole[k] == line[m];
  }

  /** The window ends with the beginning of a line. */
  lemma WindowEnd(s: seq<byte>, at: nat, e: nat, f: seq<byte> -> seq<byte>)
    requires at < BUFSIZE < e && IsLineEnd(s, at, |s|, e) && (at == 0 || s[at - 1] == NEWLINE) && f([]) == []
    ensures PerLine(s[..BUFSIZE], f) == PerLine(s[..at], f) + f(s[at..e][..BUFSIZE - at])
  {
    var window := s[..BUFSIZE];
    assert window[..at] == s[..at] && window[at..] == s[at..e][..BUFSIZE - at];
    PerLineFrom(window, at, f);
    PerLineOne(window[at..], f);
  }

  /** A forced cut inside a line: the search for the first byte of that line tells. */
  lemma HarmfulCutShows(s: seq<byte>, behind: byte) returns (x: byte)
    requires |s| > BUFSIZE && IsCString(s)
    requires NextCut(s[..BUFSIZE], behind).forced && s[BUFSIZE] != NEWLINE
    ensures x != NUL && PerLine(Seen(s, behind), ByteReport(x)) != PerLine(s, ByteReport(x))
  {
    var at, e := CutLine(s, behind);
    x := s[at];
    var f := ByteReport(x);
    var before, line, m := PerLine(s[..at], f), s[at..e], BUFSIZE - at;
    var cut, more := SeenAsCut(s, behind, at, e, f, before, line, m);
    var whole, rest := LineThenRest(s, at, e, f, before, line);
    CutLineShows(cut, whole, before, line, m, more, rest, x);
  }

  lemma SeenAsCut(s: seq<byte>, behind: byte, at: nat, e: nat, f: seq<byte> -> seq<byte>,
                  before: seq<byte>, line: seq<byte>, m: nat)
    returns (cut: seq<byte>, more: seq<byte>)
    requires at < BUFSIZE < e && IsLineEnd(s, at, |s|, e) && (at == 0 || s[at - 1] == NEWLINE) && f([]) == []
    requires NextCut(s[..BUFSIZE], behind).forced
    requires before == PerLine(s[..at], f) && line == s[at..e] && m == BUFSIZE - at
    ensures cut == PerLine(Seen(s, behind), f) && InThree(cut, before, f(line[..m]), more)
  {
    cut := PerLine(Seen(s, behind), f);
    SeenStep(s, behind, f);
    WindowEnd(s, at, e, f);
    more := PerLine(Seen(s[BUFSIZE..], NextBehind(s[BUFSIZE - 1], behind)), f);
  }

  lemma CutLine(s: seq<byte>, behind: byte) returns (at: nat, e: nat)
    requires |s| > BUFSIZE && NextCut(s[..BUFSIZE], behind).forced && s[BUFSIZE] != NEWLINE
    ensures at < BUFSIZE < e && IsLineEnd(s, at, |s|, e) && (at == 0 || s[at - 1] == NEWLINE)
    ensures s[at] in s && s[at..e][0] == s[at] && s[at..e][BUFSIZE - at] != NEWLINE
  {
    var window := s[..BUFSIZE];
    assert forall i :: 0 <= i < BUFSIZE ==> window[i] == s[i];
    at := LastNewline(window) + 1;
    e := LineEndIn(s, at, |s|);
  }

  lemma LineThenRest(s: seq<byte>, at: nat, e: nat, f: seq<byte> -> seq<byte>, before: seq<byte>, line: seq<byte>)
    returns (whole: seq<byte>, rest: seq<byte>)
    requires IsLineEnd(s, at, |s|, e) && (at == 0 || s[at - 1] == NEWLINE) && f([]) == []
    requires before == PerLine(s[..at], f) && line == s[at..e]
    ensures whole == PerLine(s, f) && InThree(whole, before, f(line), rest)
  {
    whole := PerLine(s, f);
    rest := RestAfterLine(s, at, e, f);
    PerLineFrom(s, at, f);
    assert PerLine(s[..at], f) + (f(s[at..e]) + rest) == PerLine(s[..at], f) + f(s[at..e]) + rest;
  }

  lemma RestAfterLine(s: seq<byte>, at: nat, e: nat, f: seq<byte> -> seq<byte>) returns (rest: seq<byte>)
    requires IsLineEnd(s, at, |s|, e)
    ensures PerLine(s[at..], f) == f(s[at..e]) + rest
  {
    assert s[at..|s|] == s[at..];
    if e < |s| {
      PerLineStep(s, at, e, |s|, f);
      rest := PerLine(s[e + 1..|s|], f);
    } else {
      PerLineOne(s[at..], f);
      rest := [];
    }
  }

  lemma {:induction false} HarmShows(s: seq<byte>, behind: byte) returns (x: byte)
    requires !Harmless(s, behind) && IsCString(s)
    ensures x != NUL && PerLine(Seen(s, behind), ByteReport(x)) != PerLine(s, ByteReport(x))
    decreases |s|
  {
    var c, behind' := NextCut(s[..BUFSIZE], behind), NextBehind(s[BUFSIZE - 1], behind);
    if c.forced && s[BUFSIZE] != NEWLINE {
      x := HarmfulCutShows(s, behind);
    } else {
      x := HarmShows(s[c.size..], behind');
      var f := ByteReport(x);
      SeenStep(s, behind, f);
      HarmlessCut(s, behind, f);
      SamePrefix(PerLine(Seen(s, behind), f), PerLine(s, f), PerLine(Seen(s[c.size..], behind'), f),
                 PerLine(s[c.size..], f), PerLine(s[..c.size], f));
    }
  }

  // ---------- which files have harmless cuts only ----------

  ghost predicate NewlineWithin(s: seq<byte>, a: nat)
    requires a + BUFSIZE < |s|
  {
    exists j :: a <= j <= a + BUFSIZE && s[j] == NEWLINE
  }

  /** No 1025 bytes in a row are without a newline. */
  ghost predicate Short(s: seq<byte>) {
    forall i: nat :: i + BUFSIZE < |s| ==> NewlineWithin(s, i)
  }

  lemma ShortSuffix(s: seq<byte>, n: nat)
    requires 0 < n <= BUFSIZE + 1 && n <= |s| && s[n - 1] == NEWLINE
    ensures Short(s) <==> Short(s[n..])
  {
    var t := s[n..];
    assert forall j :: 0 <= j < |t| ==> t[j] == s[n + j];
    if Short(s) {
      forall i: nat | i + BUFSIZE < |t|
        ensures NewlineWithin(t, i)
      {
        assert NewlineWithin(s, n + i);
        var j :| n + i <= j <= n + i + BUFSIZE && s[j] == NEWLINE;
        assert t[j - n] == NEWLINE;
      }
    }
    if Short(t) {
      forall i: nat | i + BUFSIZE < |s|
        ensures NewlineWithin(s, i)
      {
        if i >= n {
          assert NewlineWithin(t, i - n);
          var j :| i - n <= j <= i - n + BUFSIZE && t[j] == NEWLINE;
          assert s[n + j] == NEWLINE;
        }
      }
    }
  }

  lemma {:induction false} ShortIsLinesShort(s: seq<byte>)
    ensures Short(s) <==> LinesShort(Split(s))
    decreases |s|
  {
    var k := FirstIndex(s, NEWLINE);
    if k > BUFSIZE {
      assert !NewlineWithin(s, 0);
      assert Split(s)[0] == if k == |s| then s else s[..k];
    } else if k < |s| {
      ShortSuffix(s, k + 1);
      ShortIsLinesShort(s[k + 1..]);
      var tail := Split(s[k + 1..]);
      assert Split(s) == [s[..k]] + tail;
      assert forall i :: 0 <= i < |tail| ==> tail[i] == Split(s)[i + 1];
    }
  }

  lemma StaleSuffix(s: seq<byte>)
    requires |s| > BUFSIZE && s[BUFSIZE - 1] == NEWLINE
    ensures StaleHarmless(s) <==> StaleHarmless(s[BUFSIZE..])
  {
    var t := s[BUFSIZE..];
    forall j: nat
      ensures BlockEndsLine(t, j) <==> 0 < j && BlockEndsLine(s, j + 1)
    {
    }
    assert BlockEndsLine(s, 1);
    forall j: nat | FirstUnaligned(t, j)
      ensures FirstUnaligned(s, j + 1)
    {
      forall i: nat | 0 < i < j + 1
        ensures BlockEndsLine(s, i)
      {
        assert i > 1 ==> BlockEndsLine(t, i - 1);
      }
    }
    forall j: nat | FirstUnaligned(s, j)
      ensures j > 1 && FirstUnaligned(t, j - 1)
    {
      forall i: nat | 0 < i < j - 1
        ensures BlockEndsLine(t, i)
      {
        assert BlockEndsLine(s, i + 1);
      }
    }
    if StaleHarmless(s) {
      forall j: nat | FirstUnaligned(t, j)
        ensures t[BUFSIZE * j] == NEWLINE
      {
        assert FirstUnaligned(s, j + 1);
      }
    }
    if StaleHarmless(t) {
      forall j: nat | FirstUnaligned(s, j)
        ensures s[BUFSIZE * j] == NEWLINE
      {
        assert FirstUnaligned(t, j - 1);
      }
    }
  }

  lemma StaleAtOnce(s: seq<byte>)
    requires |s| > BUFSIZE && s[BUFSIZE - 1] != NEWLINE
    ensures StaleHarmless(s) <==> s[BUFSIZE] == NEWLINE
  {
    assert !BlockEndsLine(s, 1);
    assert FirstUnaligned(s, 1);
    assert forall j: nat :: FirstUnaligned(s, j) ==> j <= 1;
  }

  lemma {:induction false} HarmlessIff(s: seq<byte>, behind: byte)
    ensures Harmless(s, behind) <==> Short(s) && (behind == NEWLINE ==> StaleHarmless(s))
    decreases |s|
  {
    if |s| > BUFSIZE {
      var window := s[..BUFSIZE];
      var c, behind' := NextCut(window, behind), NextBehind(s[BUFSIZE - 1], behind);
      HarmlessIff(s[c.size..], behind');
      assert forall i :: 0 <= i < BUFSIZE ==> s[i] == window[i];
      if c.forced {
        StaleAtOnce(s);
        if s[BUFSIZE] == NEWLINE {
          ShortSuffix(s, BUFSIZE + 1);
          ShortSuffix(s[BUFSIZE..], 1);
          assert s[BUFSIZE..][1..] == s[BUFSIZE + 1..];
        } else if behind != NEWLINE {
          assert !NewlineWithin(s, 0);
        }
      } else {
        ShortSuffix(s, c.size);
        if behind == NEWLINE {
          StaleSuffix(s);
        }
      }
    }
  }

  // ---------- the result ----------

  /** grep prints exactly the matching lines of the file, for every pattern and every file name, if
      and only if every line has at most 1024 bytes and, should the byte behind the window start out
      as a newline, the first line across a multiple of 1024 ends just there. */
  lemma GrepCorrectIff(s: seq<byte>, behind: byte)
    requires IsCString(s)
    ensures SameOutput(s, behind) <==> LinesShort(Split(s)) && (behind == NEWLINE ==> StaleHarmless(s))
  {
    HarmlessIff(s, behind);
    ShortIsLinesShort(s);
    if Harmless(s, behind) {
      forall pat: seq<byte>, fname: seq<byte>
        ensures Output(Seen(s, behind), pat, fname) == Output(s, pat, fname)
      {
        GrepCorrect(s, behind, pat, fname);
      }
    } else {
      var x := HarmShows(s, behind);
      PerLineIsBatch(s, ByteReport(x));
      PerLineIsBatch(Seen(s, behind), ByteReport(x));
      assert Output(Seen(s, behind), [x], []) != Output(s, [x], []);
    }
  }

  /** The sufficient half, for one search. */
  lemma GrepCorrect(s: seq<byte>, behind: byte, pat: seq<byte>, fname: seq<byte>)
    requires LinesShort(Split(s)) && (behind == NEWLINE ==> StaleHarmless(s))
    ensures Output(Seen(s, behind), pat, fname) == Output(s, pat, fname)
  {
    var f := LineReport(pat, fname);
    ShortIsLinesShort(s);
    HarmlessIff(s, behind);
    HarmlessIsSame(s, behind, f);
    PerLineIsBatch(s, f);
    PerLineIsBatch(Seen(s, behind), f);
  }
}
