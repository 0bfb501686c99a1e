/** When the lines that the streaming grep searches, empty ones included, are those of the file. */
module GrepLimits {
  import opened Bytes
  import opened Text
  import opened Grep

  /** Every line, with its newline, fits the 1024-byte window. */
  predicate LinesFit(ls: seq<seq<byte>>) {
    forall i :: 0 <= i < |ls| ==> |ls[i]| < BUFSIZE || (i == |ls| - 1 && |ls[i]| == BUFSIZE)
  }

  /** Every 1024th byte before the end of the file is a newline. */
  ghost predicate Aligned(s: seq<byte>) {
    forall j: nat :: 0 < j && BUFSIZE * j < |s| ==> s[BUFSIZE * j - 1] == NEWLINE
  }

  ghost predicate HasNewline(s: seq<byte>, a: nat)
    requires a + BUFSIZE <= |s|
  {
    exists j :: a <= j < a + BUFSIZE && s[j] == NEWLINE
  }

  /** No 1024 bytes before the last byte are without a newline. */
  ghost predicate WindowsFit(s: seq<byte>) {
    forall i: nat :: i + BUFSIZE < |s| ==> HasNewline(s, i)
  }

  lemma WindowsFitSuffix(s: seq<byte>, n: nat)
    requires 0 < n <= BUFSIZE && n <= |s| && s[n - 1] == NEWLINE
    ensures WindowsFit(s) <==> WindowsFit(s[n..])
  {
    var t := s[n..];
    assert forall j :: 0 <= j < |t| ==> t[j] == s[n + j];
    if WindowsFit(s) {
      forall i: nat | i + BUFSIZE < |t|
        ensures HasNewline(t, i)
      {
        assert HasNewline(s, n + i);
        var j :| n + i <= j < n + i + BUFSIZE && s[j] == NEWLINE;
        assert t[j - n] == NEWLINE;
      }
    }
    if WindowsFit(t) {
      forall i: nat | i + BUFSIZE < |s|
        ensures HasNewline(s, i)
      {
        if i >= n {
          assert HasNewline(t, i - n);
          var j :| i - n <= j < i - n + BUFSIZE && t[j] == NEWLINE;
          assert s[n + j] == NEWLINE;
        }
      }
    }
  }

  lemma {:induction false} WindowsFitIsLinesFit(s: seq<byte>)
    ensures WindowsFit(s) <==> LinesFit(Split(s))
    decreases |s|
  {
    var k := FirstIndex(s, NEWLINE);
    if k >= BUFSIZE && BUFSIZE < |s| {
      assert !HasNewline(s, 0);
      assert Split(s)[0] == if k == |s| then s else s[..k];
    } else if k < |s| {
      WindowsFitSuffix(s, k + 1);
      WindowsFitIsLinesFit(s[k + 1..]);
      var tail := Split(s[k + 1..]);
      assert Split(s) == [s[..k]] + tail;
      assert forall i :: 0 <= i < |tail| ==> tail[i] == Split(s)[i + 1];
    }
  }

  lemma AlignedSuffix(s: seq<byte>)
    requires |s| > BUFSIZE && s[BUFSIZE - 1] == NEWLINE
    ensures Aligned(s) <==> Aligned(s[BUFSIZE..])
  {
    var t := s[BUFSIZE..];
    if Aligned(s) {
      forall j: nat | 0 < j && BUFSIZE * j < |t|
        ensures t[BUFSIZE * j - 1] == NEWLINE
      {
        assert s[BUFSIZE * (j + 1) - 1] == NEWLINE;
      }
    }
    if Aligned(t) {
      forall j: nat | 0 < j && BUFSIZE * j < |s|
        ensures s[BUFSIZE * j - 1] == NEWLINE
      {
        if j > 1 {
          assert t[BUFSIZE * (j - 1) - 1] == NEWLINE;
        }
      }
    }
  }

  /** No newline is ever inserted. */
  ghost predicate Uncut(s: seq<byte>, behind: byte) {
    WindowsFit(s) && (behind == NEWLINE ==> Aligned(s))
  }

  lemma SeenLength(s: seq<byte>, behind: byte)
    requires |s| > BUFSIZE
    ensures var c := NextCut(s[..BUFSIZE], behind);
            var tail := Seen(s[c.size..], NextBehind(s[BUFSIZE - 1], behind));
            && |Seen(s, behind)| == c.size + (if c.forced then 1 else 0) + |tail|
            && (!c.forced && tail == s[c.size..] ==> Seen(s, behind) == s)
  {
    var c := NextCut(s[..BUFSIZE], behind);
    assert s == s[..c.size] + s[c.size..];
  }

  lemma UncutStep(s: seq<byte>, behind: byte)
    requires |s| > BUFSIZE
    ensures var c := NextCut(s[..BUFSIZE], behind);
            Uncut(s, behind) <==> !c.forced && Uncut(s[c.size..], NextBehind(s[BUFSIZE - 1], behind))
  {
    var window := s[..BUFSIZE];
    var c := NextCut(window, behind);
    assert forall i :: 0 <= i < BUFSIZE ==> s[i] == window[i];
    if c.forced {
      if LastNewline(window) == -1 {
        assert !HasNewline(s, 0);
      } else {
        assert s[BUFSIZE * 1 - 1] != NEWLINE;
      }
    } else {
      WindowsFitSuffix(s, c.size);
      if c.size == BUFSIZE {
        AlignedSuffix(s);
      }
    }
  }

  /** The program never drops a byte, and inserts no newline exactly when all windows fit and no
      stale newline can strike. */
  lemma {:induction false} SeenExact(s: seq<byte>, behind: byte)
    ensures |Seen(s, behind)| >= |s|
    ensures |Seen(s, behind)| == |s| ==> Seen(s, behind) == s
    ensures |Seen(s, behind)| == |s| <==> WindowsFit(s) && (behind == NEWLINE ==> Aligned(s))
    decreases |s|
  {
    assert Uncut(s, behind) <==> WindowsFit(s) && (behind == NEWLINE ==> Aligned(s));
    if |s| > BUFSIZE {
      var c := NextCut(s[..BUFSIZE], behind);
      SeenExact(s[c.size..], NextBehind(s[BUFSIZE - 1], behind));
      SeenLength(s, behind);
      UncutStep(s, behind);
    }
  }

  /** The lines that are searched are the lines of the file if and only if every line fits the
      window and, should the byte behind the window start out as a newline, every 1024th byte is
      a newline. */
  lemma GrepFaithful(s: seq<byte>, behind: byte)
    ensures Split(Seen(s, behind)) == Split(s)
       <==> LinesFit(Split(s)) && (behind == NEWLINE ==> Aligned(s))
  {
    SeenExact(s, behind);
    WindowsFitIsLinesFit(s);
    JoinAfterSplit(s);
    JoinAfterSplit(Seen(s, behind));
  }

  /** One line of 1024 spaces and a colon. */
  function LongLine(): seq<byte> {
    seq(BUFSIZE, i => SPACE) + [COLON]
  }

  /** A line one byte too long is cut, and a match across the cut is lost. */
  lemma LongLineMissed(fname: seq<byte>)
    ensures IsCString(LongLine())
    ensures Output(Seen(LongLine(), NUL), [SPACE, COLON], fname) == []
    ensures Output(LongLine(), [SPACE, COLON], fname) == fname + [COLON] + LongLine() + [NEWLINE]
  {
    var s, pat := LongLine(), [SPACE, COLON];
    var f := LineReport(pat, fname);
    LongLineSeen(f);
    HeadHasNoMatch();
    assert OccursAt(s, BUFSIZE - 1, pat);
    PerLineOne(s, f);
    PerLineIsBatch(s, f);
    PerLineIsBatch(Seen(s, NUL), f);
  }

  lemma LongLineSeen(f: seq<byte> -> seq<byte>)
    ensures PerLine(Seen(LongLine(), NUL), f) == f(LongLine()[..BUFSIZE]) + f([COLON])
  {
    var s, head := LongLine(), LongLine()[..BUFSIZE];
    LastNewlineIs(head, -1);
    assert s[BUFSIZE..] == [COLON];
    assert Seen(s, NUL) == head + [NEWLINE] + [COLON];
    PerLineAppend(head, [COLON], f);
    PerLineOne(head, f);
    PerLineOne([COLON], f);
  }

  lemma HeadHasNoMatch()
    ensures !Matches(LongLine()[..BUFSIZE], [SPACE, COLON]) && !Matches([COLON], [SPACE, COLON])
  {
    var head, pat := LongLine()[..BUFSIZE], [SPACE, COLON];
    assert forall i: nat :: OccursAt(head, i, pat) ==> head[i..i + 2][1] == head[i + 1];
  }
}
