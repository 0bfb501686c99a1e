/** The streaming `grep` program: one 1024-byte window slides over the file. */
module Grep {
  import opened Bytes
  import opened Text
  import opened Wrappers

  const BUFSIZE: nat := 1024

  const OPEN_FAILED: seq<byte> := [102, 105, 108, 101, 32, 111, 112, 101, 110, 32, 102, 97, 105, 108, 101, 100, 10]
  const READ_FAILED: seq<byte> := [102, 105, 108, 101, 32, 114, 101, 97, 100, 32, 102, 97, 105, 108, 101, 100, 10]
  const CLOSE_FAILED: seq<byte> := [102, 105, 108, 101, 32, 99, 108, 111, 115, 101, 32, 102, 97, 105, 108, 101, 100, 10]

  /** What the system calls do with the file: its bytes, whether open and close succeed, and the
      number of reads that succeed before one fails, if one ever does. */
  datatype File = File(content: seq<byte>, opens: bool, closes: bool, readsBeforeError: Option<nat>)

  /** The three messages, as text. */
  lemma MessagesAre()
    ensures |OPEN_FAILED| == |READ_FAILED| == 17 && |CLOSE_FAILED| == 18
    ensures forall i :: 0 <= i < 17 ==> OPEN_FAILED[i] == "file open failed\n"[i] as int
    ensures forall i :: 0 <= i < 17 ==> READ_FAILED[i] == "file read failed\n"[i] as int
    ensures forall i :: 0 <= i < 18 ==> CLOSE_FAILED[i] == "file close failed\n"[i] as int
  {
  }

  // ---------- the batch meaning of grep ----------

  predicate OccursAt(line: seq<byte>, i: nat, pat: seq<byte>) {
    i + |pat| <= |line| && line[i..i + |pat|] == pat
  }

  /** `pat` is a non-empty substring of `line`. */
  predicate Matches(line: seq<byte>, pat: seq<byte>) {
    pat != [] && exists i: nat | i < |line| :: OccursAt(line, i, pat)
  }

  /** That is, `line` is some text, `pat` and some more text. */
  lemma MatchesIff(line: seq<byte>, pat: seq<byte>)
    ensures Matches(line, pat) <==> pat != [] && exists a: seq<byte>, b: seq<byte> :: line == a + pat + b
  {
    if Matches(line, pat) {
      var i: nat :| i < |line| && OccursAt(line, i, pat);
      assert line == line[..i] + pat + line[i + |pat|..];
    }
    forall a: seq<byte>, b: seq<byte> | pat != [] && line == a + pat + b
      ensures Matches(line, pat)
    {
      assert line[|a|..|a| + |pat|] == pat;
      assert OccursAt(line, |a|, pat);
    }
  }

  /** What is printed for one line. */
  function LineReport(pat: seq<byte>, fname: seq<byte>): (f: seq<byte> -> seq<byte>) {
    (line: seq<byte>) => if Matches(line, pat) then fname + [COLON] + line + [NEWLINE] else []
  }

  /** The output for a text: every matching line once, in order. */
  ghost function Output(s: seq<byte>, pat: seq<byte>, fname: seq<byte>): seq<byte> {
    MapLines(Split(s), LineReport(pat, fname))
  }

  // ---------- what the window makes of a file ----------

  /** `k` is the index of the last newline of `s`, or -1 when there is none. */
  predicate IsLastNewline(s: seq<byte>, k: int) {
    -1 <= k < |s| && (k >= 0 ==> s[k] == NEWLINE) && forall i :: k < i < |s| ==> s[i] != NEWLINE
  }

  ghost function LastNewline(s: seq<byte>): (k: int)
    ensures IsLastNewline(s, k)
  {
    LastNewlineExists(s);
    var k: int :| IsLastNewline(s, k);
    k
  }

  lemma {:induction false} LastNewlineExists(s: seq<byte>)
    ensures exists k :: IsLastNewline(s, k)
  {
    if s == [] || s[|s| - 1] == NEWLINE {
      assert IsLastNewline(s, |s| - 1);
    } else {
      var t := s[..|s| - 1];
      LastNewlineExists(t);
      var k :| IsLastNewline(t, k);
      assert forall i :: 0 <= i < |t| ==> s[i] == t[i];
      assert IsLastNewline(s, k);
    }
  }

  lemma LastNewlineIs(s: seq<byte>, k: int)
    requires IsLastNewline(s, k)
    ensures LastNewline(s) == k
  {
  }

  /** How the program cuts a text longer than the window: the number of bytes it is done with
      after one window, and whether a line is cut short there. A line that fills the window is cut
      after 1024 bytes; if the byte behind the window happens to be a newline, so is an incomplete
      last line. */
  datatype Cut = Cut(size: nat, forced: bool)

  ghost function NextCut(window: seq<byte>, behind: byte): (c: Cut)
    requires |window| == BUFSIZE
    ensures 0 < c.size <= BUFSIZE && (c.forced ==> c.size == BUFSIZE)
  {
    var k := LastNewline(window);
    if k == -1 then Cut(BUFSIZE, true)
    else if k == BUFSIZE - 1 then Cut(BUFSIZE, false)
    else if behind == NEWLINE then Cut(BUFSIZE, true)
    else Cut(k + 1, false)
  }

  /** The byte behind the window after a full window has been dealt with. */
  function NextBehind(lastByte: byte, behind: byte): byte {
    if lastByte == NEWLINE then behind else NUL
  }

  /** The text whose lines the program really searches. */
  ghost function Seen(rest: seq<byte>, behind: byte): (s: seq<byte>)
    decreases |rest|
  {
    if |rest| <= BUFSIZE then rest
    else
      var c := NextCut(rest[..BUFSIZE], behind);
      var tail := Seen(rest[c.size..], NextBehind(rest[BUFSIZE - 1], behind));
      rest[..c.size] + (if c.forced then [NEWLINE] else []) + tail
  }

  /** How often the program reads: once for every window and once more to find the end. */
  ghost function ReadsOf(rest: seq<byte>, behind: byte): nat
    decreases |rest|
  {
    if rest == [] then 1
    else if |rest| <= BUFSIZE then 2
    else 1 + ReadsOf(rest[NextCut(rest[..BUFSIZE], behind).size..], NextBehind(rest[BUFSIZE - 1], behind))
  }

  /** A file of at most one window takes two reads, an empty one only one; every window more takes one
      more, and there are as many windows as 1024-byte blocks at least. */
  lemma {:induction false} ReadsAre(s: seq<byte>, behind: byte)
    ensures s == [] ==> ReadsOf(s, behind) == 1
    ensures 0 < |s| <= 1024 ==> ReadsOf(s, behind) == 2
    ensures (|s| + 1023) / 1024 + 1 <= ReadsOf(s, behind) <= |s| + 1
    decreases |s|
  {
    if |s| > BUFSIZE {
      ReadsAre(s[NextCut(s[..BUFSIZE], behind).size..], NextBehind(s[BUFSIZE - 1], behind));
    }
  }

  // ---------- the routines of the program ----------

  /** read(): fills the request until the end of the file. */
  method Read(content: seq<byte>, pos: nat, data: array<byte>, at: nat, n: nat) returns (cnt: nat)
    requires pos <= |content| && at + n <= data.Length
    modifies data
    ensures cnt == if |content| - pos < n then |content| - pos else n
    ensures forall j :: at <= j < at + cnt ==> data[j] == content[pos + j - at]
    ensures forall j :: 0 <= j < at || at + cnt <= j < data.Length ==> data[j] == old(data[j])
  {
    cnt := if |content| - pos < n then |content| - pos else n;
    forall i | 0 <= i < cnt {
      data[at + i] := content[pos + i];
    }
  }

  /** ece391_strncmp(data + i, s, strlen(s)) == 0 means that `s` occurs at `i`. */
  method Strncmp(data: array<byte>, i: nat, s: seq<byte>, ghost end: nat) returns (r: int)
    requires IsCString(s)
    requires i <= end < data.Length && data[end] == NUL
    ensures r == 0 <==> OccursAt(data[..], i, s)
  {
    if |s| == 0 {
      assert data[i..i] == s;
      return 0;
    }
    var k := 0;
    while data[i + k] == s[k]
      invariant 0 <= k < |s| && i + k <= end
      invariant forall j :: 0 <= j < k ==> data[i + j] == s[j]
      decreases |s| - k
    {
      if data[i + k] == NUL || k + 1 == |s| {
        assert data[i..i + |s|] == s;
        return 0;
      }
      k := k + 1;
    }
    NotAt(data[..], i, s, k);
    r := data[i + k] as int - s[k] as int;
  }

  lemma NotAt(d: seq<byte>, i: nat, s: seq<byte>, k: nat)
    requires k < |s| && i + k < |d| && d[i + k] != s[k]
    ensures !OccursAt(d, i, s)
  {
    if i + |s| <= |d| {
      assert d[i..i + |s|][k] == d[i + k];
    }
  }

  /** ece391_strcpy(data, data + from): source and destination overlap. */
  method CopyDown(data: array<byte>, from: nat, ghost end: nat)
    requires 0 < from <= end < data.Length && data[end] == NUL
    requires forall j :: from <= j < end ==> data[j] != NUL
    modifies data
    ensures forall j :: 0 <= j <= end - from ==> data[j] == old(data[from + j])
    ensures forall j :: end - from < j < data.Length ==> data[j] == old(data[j])
  {
    var k := 0;
    while data[from + k] != NUL
      invariant 0 <= k && from + k <= end
      invariant forall j :: 0 <= j < k ==> data[j] == old(data[from + j])
      invariant forall j :: k <= j < data.Length ==> data[j] == old(data[j])
      decreases end - k
    {
      data[k] := data[from + k];
      k := k + 1;
    }
    data[k] := data[from + k];
  }

  /** ece391_fdputs(1, data + start): the bytes up to the first NUL. */
  method Puts(data: array<byte>, start: nat, ghost end: nat) returns (out: seq<byte>)
    requires start <= end < data.Length && data[end] == NUL
    requires forall j :: start <= j < end ==> data[j] != NUL
    ensures out == data[start..end]
  {
    var len := 0;
    while data[start + len] != NUL
      invariant 0 <= len && start + len <= end
      decreases end - len
    {
      len := len + 1;
    }
    out := data[start..start + len];
  }

  /** Search one NUL-terminated line in the window and print it if it matches. */
  method SearchLine(data: array<byte>, start: nat, end: nat, pat: seq<byte>, fname: seq<byte>, ghost line: seq<byte>)
    returns (out: seq<byte>)
    requires IsCString(pat) && IsCString(line)
    requires start <= end < data.Length && data[end] == NUL
    requires |line| == end - start && forall j :: start <= j < end ==> data[j] == line[j - start]
    ensures out == LineReport(pat, fname)(line)
    ensures out == if Matches(line, pat) then fname + [58] + line + [10] else []
  {
    out := [];
    var check := start;
    while check < end
      invariant start <= check <= end
      invariant pat != [] ==> forall i: nat | i < check - start :: !OccursAt(line, i, pat)
    {
      OccursInLine(data[..], start, end, check, pat, line);
      // s[0] of an empty pattern is its terminator, which no byte of a line equals
      if pat != [] && pat[0] == data[check] {
        var c := Strncmp(data, check, pat, end);
        if c == 0 {
          out := Puts(data, start, end);
          assert out == line;
          out := fname + [COLON] + out + [NEWLINE];
          return;
        }
      }
      check := check + 1;
    }
  }

  /** The terminating NUL keeps an occurrence inside its line. */
  lemma OccursInLine(d: seq<byte>, start: nat, end: nat, check: nat, pat: seq<byte>, line: seq<byte>)
    requires IsCString(pat) && start <= check < end < |d| && d[end] == NUL
    requires |line| == end - start && forall j :: start <= j < end ==> d[j] == line[j - start]
    ensures OccursAt(d, check, pat) <==> OccursAt(line, check - start, pat)
    ensures pat != [] && OccursAt(d, check, pat) ==> pat[0] == d[check]
  {
    var i, m := check - start, |pat|;
    if check + m <= end {
      assert line[i..i + m] == d[check..check + m];
    } else {
      NotAt(d, check, pat, end - check);
    }
    if OccursAt(d, check, pat) && m > 0 {
      assert d[check..check + m][0] == d[check];
    }
  }

  // ---------- the scan, line by line ----------

  function WindowLimit(s: seq<byte>, w: nat): (limit: nat)
    requires w <= |s|
    ensures w <= limit <= |s|
  {
    if w + BUFSIZE <= |s| then w + BUFSIZE else |s|
  }

  /** What is printed from the line at `at` on, when the window starts at `w` and `behind` is the
      byte behind it. */
  type Scanner = (nat, nat, byte) -> seq<byte>

  predicate InWindow(s: seq<byte>, w: nat, at: nat) {
    w <= at <= |s| && at <= w + BUFSIZE
  }

  /** One line of the scan: a complete line is searched; a line that the window cuts is carried
      over to the next window, or searched as it stands. */
  ghost predicate ScanStep(scan: Scanner, s: seq<byte>, w: nat, at: nat, behind: byte, f: seq<byte> -> seq<byte>)
    requires InWindow(s, w, at)
  {
    var limit := WindowLimit(s, w);
    scan(w, at, behind) ==
      if at == limit then
        if limit == |s| then [] else scan(limit, limit, behind)
      else
        var e := LineEndIn(s, at, limit);
        if e < limit then f(s[at..e]) + scan(w, e + 1, behind)
        else if limit == |s| then f(s[at..e])
        else if w < at && behind != NEWLINE then scan(at, at, NUL)
        else f(s[at..e]) + scan(limit, limit, NUL)
  }

  ghost predicate IsScanner(scan: Scanner, s: seq<byte>, f: seq<byte> -> seq<byte>) {
    forall w: nat, at: nat, behind: byte {:trigger ScanStep(scan, s, w, at, behind, f)} ::
      InWindow(s, w, at) ==> ScanStep(scan, s, w, at, behind, f)
  }

  /** There is such a scan. */
  ghost function Scan(s: seq<byte>, w: nat, at: nat, behind: byte, f: seq<byte> -> seq<byte>): seq<byte>
    decreases |s| - at, |s| - w
  {
    if !InWindow(s, w, at) then []
    else
      var limit := WindowLimit(s, w);
      if at == limit then
        if limit == |s| then [] else Scan(s, limit, limit, behind, f)
      else
        var e := LineEndIn(s, at, limit);
        if e < limit then f(s[at..e]) + Scan(s, w, e + 1, behind, f)
        else if limit == |s| then f(s[at..e])
        else if w < at && behind != NEWLINE then Scan(s, at, at, NUL, f)
        else f(s[at..e]) + Scan(s, limit, limit, NUL, f)
  }

  ghost function ScannerOf(s: seq<byte>, f: seq<byte> -> seq<byte>): (scan: Scanner)
    ensures IsScanner(scan, s, f)
  {
    (w: nat, at: nat, behind: byte) => Scan(s, w, at, behind, f)
  }

  lemma ScanLine(scan: Scanner, s: seq<byte>, w: nat, at: nat, e: nat, behind: byte, f: seq<byte> -> seq<byte>)
    requires IsScanner(scan, s, f) && InWindow(s, w, at)
    requires e < WindowLimit(s, w) && IsLineEnd(s, at, WindowLimit(s, w), e)
    ensures scan(w, at, behind) == f(s[at..e]) + scan(w, e + 1, behind)
  {
    assert ScanStep(scan, s, w, at, behind, f);
  }

  /** While the window reaches the end of the file, the scan goes through the rest line by line. */
  lemma {:induction false} ScanLastWindow(scan: Scanner, s: seq<byte>, w: nat, at: nat, behind: byte,
                                          f: seq<byte> -> seq<byte>)
    requires IsScanner(scan, s, f) && f([]) == []
    requires w <= at <= |s| && |s| <= w + BUFSIZE
    ensures scan(w, at, behind) == PerLine(s[at..], f)
    decreases |s| - at
  {
    assert ScanStep(scan, s, w, at, behind, f);
    if at == |s| {
      PerLineOne([], f);
      assert s[at..] == [];
    } else {
      var e := LineEndIn(s, at, |s|);
      assert s[at..|s|] == s[at..];
      if e == |s| {
        PerLineOne(s[at..], f);
      } else {
        calc {
          scan(w, at, behind);
        ==  { ScanLine(scan, s, w, at, e, behind, f); }
          f(s[at..e]) + scan(w, e + 1, behind);
        ==  { ScanLastWindow(scan, s, w, e + 1, behind, f); }
          f(s[at..e]) + PerLine(s[e + 1..], f);
        ==  { assert s[e + 1..|s|] == s[e + 1..]; PerLineStep(s, at, e, |s|, f); }
          PerLine(s[at..], f);
        }
      }
    }
  }

  /** `c` is how the window at `w` is cut, in terms of the bytes of the file. */
  ghost predicate IsCut(s: seq<byte>, w: nat, behind: byte, c: Cut)
    requires w + BUFSIZE < |s|
  {
    var limit, next := w + BUFSIZE, w + c.size;
    && 0 < c.size <= BUFSIZE
    && if c.forced then
         && next == limit && s[limit - 1] != NEWLINE
         && (behind == NEWLINE || forall i :: w <= i < limit ==> s[i] != NEWLINE)
       else
         && s[next - 1] == NEWLINE && (next < limit ==> behind != NEWLINE)
         && forall i :: next <= i < limit ==> s[i] != NEWLINE
  }

  lemma NextCutIsCut(s: seq<byte>, w: nat, behind: byte)
    requires w + BUFSIZE < |s|
    ensures IsCut(s, w, behind, NextCut(s[w..w + BUFSIZE], behind))
  {
    var window := s[w..w + BUFSIZE];
    assert forall i :: w <= i < w + BUFSIZE ==> s[i] == window[i - w];
    assert s[w + BUFSIZE - 1] == window[BUFSIZE - 1];
  }

  lemma CutIs(s: seq<byte>, w: nat, behind: byte, c: Cut)
    requires w + BUFSIZE < |s| && IsCut(s, w, behind, c)
    ensures NextCut(s[w..w + BUFSIZE], behind) == c
  {
    NextCutIsCut(s, w, behind);
  }

  /** In a full window the lines are searched up to the cut; the next window starts there. */
  lemma {:induction false} ScanFullWindow(scan: Scanner, s: seq<byte>, w: nat, at: nat, c: Cut, behind: byte,
                                          f: seq<byte> -> seq<byte>)
    requires IsScanner(scan, s, f) && f([]) == []
    requires w + BUFSIZE < |s| && IsCut(s, w, behind, c)
    requires w <= at <= w + c.size && (at == w || s[at - 1] == NEWLINE)
    ensures scan(w, at, behind)
         == PerLine(s[at..w + c.size], f) + scan(w + c.size, w + c.size, NextBehind(s[w + BUFSIZE - 1], behind))
    decreases |s| - at
  {
    var e := LineEndIn(s, at, w + BUFSIZE);
    if e < w + BUFSIZE {
      var next := w + c.size;
      var tail := scan(next, next, NextBehind(s[w + BUFSIZE - 1], behind));
      calc {
        scan(w, at, behind);
      ==  { ScanLine(scan, s, w, at, e, behind, f); }
        f(s[at..e]) + scan(w, e + 1, behind);
      ==  { ScanFullWindow(scan, s, w, e + 1, c, behind, f); }
        f(s[at..e]) + (PerLine(s[e + 1..next], f) + tail);
      ==
        f(s[at..e]) + PerLine(s[e + 1..next], f) + tail;
      ==  { PerLineStep(s, at, e, next, f); }
        PerLine(s[at..next], f) + tail;
      }
    } else {
      ScanAtCut(scan, s, w, at, c, behind, f);
    }
  }

  /** The last line of a full window, which is either empty, carried over or cut short. */
  lemma ScanAtCut(scan: Scanner, s: seq<byte>, w: nat, at: nat, c: Cut, behind: byte, f: seq<byte> -> seq<byte>)
    requires IsScanner(scan, s, f) && f([]) == []
    requires w + BUFSIZE < |s| && IsCut(s, w, behind, c)
    requires w <= at <= w + c.size && (at == w || s[at - 1] == NEWLINE)
    requires IsLineEnd(s, at, w + BUFSIZE, w + BUFSIZE)
    ensures scan(w, at, behind)
         == PerLine(s[at..w + c.size], f) + scan(w + c.size, w + c.size, NextBehind(s[w + BUFSIZE - 1], behind))
  {
    assert ScanStep(scan, s, w, at, behind, f);
    PerLineOne(s[at..w + c.size], f);
    if !c.forced {
      assert at == w + c.size && s[at..w + c.size] == [];
    }
  }

  /** What is printed is the output for the text that is seen. */
  lemma {:induction false} ScanIsPerLineOfSeen(scan: Scanner, s: seq<byte>, w: nat, behind: byte,
                                               f: seq<byte> -> seq<byte>)
    requires IsScanner(scan, s, f) && f([]) == []
    requires w <= |s|
    ensures scan(w, w, behind) == PerLine(Seen(s[w..], behind), f)
    decreases |s| - w
  {
    var rest := s[w..];
    if |rest| <= BUFSIZE {
      ScanLastWindow(scan, s, w, w, behind, f);
    } else {
      var c, behind' := NextCut(rest[..BUFSIZE], behind), NextBehind(rest[BUFSIZE - 1], behind);
      var next := w + c.size;
      assert rest[..BUFSIZE] == s[w..w + BUFSIZE];
      assert rest[c.size..] == s[next..];
      assert rest[..c.size] == s[w..next];
      NextCutIsCut(s, w, behind);
      ScanFullWindow(scan, s, w, w, c, behind, f);
      ScanIsPerLineOfSeen(scan, s, next, behind', f);
      SeenStep(rest, behind, f);
    }
  }

  lemma SeenStep(rest: seq<byte>, behind: byte, f: seq<byte> -> seq<byte>)
    requires |rest| > BUFSIZE && f([]) == []
    ensures var c := NextCut(rest[..BUFSIZE], behind);
            PerLine(Seen(rest, behind), f)
            == PerLine(rest[..c.size], f) + PerLine(Seen(rest[c.size..], NextBehind(rest[BUFSIZE - 1], behind)), f)
  {
    var window := rest[..BUFSIZE];
    var c := NextCut(window, behind);
    var head := rest[..c.size];
    var tail := Seen(rest[c.size..], NextBehind(rest[BUFSIZE - 1], behind));
    if c.forced {
      assert Seen(rest, behind) == head + [NEWLINE] + tail;
      PerLineAppend(head, tail, f);
    } else {
      assert head[c.size - 1] == window[c.size - 1];
      assert Seen(rest, behind) == head + tail;
      PerLineAfterNewline(head, tail, f);
    }
  }

  lemma ScanIsGrepOfSeen(scan: Scanner, s: seq<byte>, behind: byte, pat: seq<byte>, fname: seq<byte>)
    requires IsScanner(scan, s, LineReport(pat, fname))
    ensures scan(0, 0, behind) == Output(Seen(s, behind), pat, fname)
  {
    var f := LineReport(pat, fname);
    assert s[0..] == s;
    ScanIsPerLineOfSeen(scan, s, 0, behind, f);
    PerLineIsBatch(Seen(s, behind), f);
  }

  /** Scan for the end of the line that starts at `start`. */
  method LineEnd(data: array<byte>, start: nat, last: nat) returns (end: nat)
    requires start <= last < data.Length
    ensures start <= end <= last
    ensures forall j :: start <= j < end ==> data[j] != NEWLINE
    ensures end < last ==> data[end] == NEWLINE
  {
    end := start;
    while end < last && data[end] != NEWLINE
      invariant start <= end <= last
      invariant forall j :: start <= j < end ==> data[j] != NEWLINE
    {
      end := end + 1;
    }
  }

  /** `all` is `out` followed by what the scan still prints from a state. */
  ghost predicate Prints(all: seq<byte>, out: seq<byte>, scan: Scanner, w: nat, at: nat, behind: byte) {
    all == out + scan(w, at, behind)
  }

  lemma PrintsStep(all: seq<byte>, out: seq<byte>, scan: Scanner, w: nat, at: nat, behind: byte,
                   found: seq<byte>, w': nat, at': nat, behind': byte)
    requires Prints(all, out, scan, w, at, behind)
    requires scan(w, at, behind) == found + scan(w', at', behind')
    ensures Prints(all, out + found, scan, w', at', behind')
  {
  }

  /** The two ways one line of a window is dealt with, for the end `e` that was found. */
  lemma StepSearch(scan: Scanner, s: seq<byte>, w: nat, at: nat, e: nat, behind: byte, behind': byte,
                   f: seq<byte> -> seq<byte>)
    requires IsScanner(scan, s, f) && InWindow(s, w, at)
    requires f([]) == []
    requires at == w || at < WindowLimit(s, w)
    requires IsLineEnd(s, at, WindowLimit(s, w), e)
    requires var limit := WindowLimit(s, w);
             e < limit || limit == |s| || at == w || behind == NEWLINE
    requires WindowLimit(s, w) < |s| ==> behind' == if e < WindowLimit(s, w) then behind else NUL
    ensures var limit := WindowLimit(s, w);
            scan(w, at, behind)
            == f(s[at..e]) + if e + 1 < limit then scan(w, e + 1, behind) else scan(limit, limit, behind')
  {
    var limit := WindowLimit(s, w);
    assert ScanStep(scan, s, w, at, behind, f);
    if e + 1 == limit {
      assert ScanStep(scan, s, w, limit, behind, f);
    }
    if limit == |s| {
      assert ScanStep(scan, s, limit, limit, behind', f);
      assert at == e ==> s[at..e] == [];
    }
  }

  lemma StepCarry(scan: Scanner, s: seq<byte>, w: nat, at: nat, behind: byte, behind': byte, f: seq<byte> -> seq<byte>)
    requires IsScanner(scan, s, f) && w <= |s| && w < at < WindowLimit(s, w)
    requires IsLineEnd(s, at, WindowLimit(s, w), WindowLimit(s, w))
    requires w + BUFSIZE <= |s| ==> behind != NEWLINE && behind' == NUL
    ensures scan(w, at, behind) == scan(at, at, behind')
  {
    assert ScanStep(scan, s, w, at, behind, f);
    assert ScanStep(scan, s, at, at, behind', f);
  }

  /** The window holds the bytes of `s` from `w` on; the lines before `start` are done with. */
  ghost predicate Window(data: array<byte>, last: nat, start: nat, s: seq<byte>, w: nat)
    reads data
  {
    && data.Length == BUFSIZE + 1
    && w <= |s| && w + last == WindowLimit(s, w)
    && start <= last
    && (forall j :: start <= j < last ==> data[j] == s[w + j])
  }

  /** An incomplete line is moved to the front. */
  method CarryOver(data: array<byte>, last: nat, start: nat, ghost s: seq<byte>, ghost w: nat, ghost scan: Scanner,
                   ghost f: seq<byte> -> seq<byte>)
    requires Window(data, last, start, s, w) && IsCString(s) && 0 < start < last
    requires IsScanner(scan, s, f) && IsLineEnd(s, w + start, w + last, w + last)
    requires data[last] != NEWLINE
    modifies data
    ensures forall j :: 0 <= j < last - start ==> data[j] == s[w + start + j]
    ensures last == BUFSIZE ==> data[BUFSIZE] == NUL
    ensures scan(w, w + start, old(data[BUFSIZE])) == scan(w + start, w + start, data[BUFSIZE])
  {
    ghost var behind := data[BUFSIZE];
    data[last] := NUL;
    CopyDown(data, start, last);
    StepCarry(scan, s, w, w + start, behind, data[BUFSIZE], f);
  }

  /** A line is terminated and searched where it stands. */
  method SearchInPlace(data: array<byte>, last: nat, cnt: nat, start: nat, end: nat, pat: seq<byte>, fname: seq<byte>,
                       ghost s: seq<byte>, ghost w: nat, ghost scan: Scanner)
    returns (found: seq<byte>)
    requires Window(data, last, start, s, w) && IsCString(s) && IsCString(pat)
    requires IsScanner(scan, s, LineReport(pat, fname)) && IsLineEnd(s, w + start, w + last, w + end)
    requires start == 0 || start < last
    requires end < last || w + last == |s| || start == 0 || data[last] == NEWLINE
    modifies data
    ensures forall j :: end < j <= BUFSIZE ==> data[j] == old(data[j])
    ensures data[end] == NUL
    ensures scan(w, w + start, old(data[BUFSIZE]))
         == found + if end + 1 < last then scan(w, w + end + 1, data[BUFSIZE])
                    else scan(w + last, w + last, data[BUFSIZE])
  {
    ghost var behind := data[BUFSIZE];
    data[end] := NUL;
    found := SearchLine(data, start, end, pat, fname, s[w + start..w + end]);
    StepSearch(scan, s, w, w + start, w + end, behind, data[BUFSIZE], LineReport(pat, fname));
  }

  /** A full window is done with: `size` bytes were, and the byte behind it is `behind'` now. */
  ghost predicate CutDone(s: seq<byte>, w: nat, behind: byte, size: nat, behind': byte)
    requires w + BUFSIZE <= |s|
  {
    size == NextCut(s[w..w + BUFSIZE], behind).size && behind' == NextBehind(s[w + BUFSIZE - 1], behind)
  }

  /** The last line of a window starts at `start` and is carried over, or ends at `end` and has been
      searched. */
  lemma CutAtCarry(s: seq<byte>, w: nat, start: nat, behind: byte)
    requires w + BUFSIZE < |s| && 0 < start < BUFSIZE && s[w + start - 1] == NEWLINE && behind != NEWLINE
    requires IsLineEnd(s, w + start, w + BUFSIZE, w + BUFSIZE)
    ensures CutDone(s, w, behind, start, NUL)
  {
    CutIs(s, w, behind, Cut(start, false));
  }

  lemma CutAtEnd(s: seq<byte>, w: nat, start: nat, end: nat, behind: byte, behind': byte)
    requires w + BUFSIZE < |s| && start <= end <= BUFSIZE <= end + 1
    requires start == 0 || (start < BUFSIZE && s[w + start - 1] == NEWLINE)
    requires IsLineEnd(s, w + start, w + BUFSIZE, w + end)
    requires end < BUFSIZE || start == 0 || behind == NEWLINE
    requires behind' == if end < BUFSIZE then behind else NUL
    ensures CutDone(s, w, behind, BUFSIZE, behind')
  {
    CutIs(s, w, behind, Cut(BUFSIZE, end == BUFSIZE));
  }

  /** One pass over the window after a read that delivered `cnt` bytes: every complete line is
      searched, an incomplete one is moved to the front for the next pass. */
  method SearchWindow(data: array<byte>, last: nat, cnt: nat, pat: seq<byte>, fname: seq<byte>,
                      ghost s: seq<byte>, ghost w: nat, ghost scan: Scanner)
    returns (last': nat, out: seq<byte>)
    requires Window(data, last, 0, s, w) && IsCString(pat) && IsCString(s)
    requires IsScanner(scan, s, LineReport(pat, fname))
    requires cnt == 0 ==> w + last == |s|
    modifies data
    ensures last' <= last && last' < BUFSIZE && (cnt == 0 ==> last' == 0)
    ensures forall j :: 0 <= j < last' ==> data[j] == s[w + last - last' + j]
    ensures w + last < |s| ==> CutDone(s, w, old(data[BUFSIZE]), last - last', data[BUFSIZE])
    ensures Prints(scan(w, w, old(data[BUFSIZE])), out, scan, w + last - last', w + last - last', data[BUFSIZE])
  {
    ghost var all := scan(w, w, data[BUFSIZE]);
    out := [];
    var lineStart := 0;
    while true
      invariant Window(data, last, lineStart, s, w)
      invariant lineStart == 0 || (lineStart < last && s[w + lineStart - 1] == NEWLINE)
      invariant w + last < |s| ==> data[BUFSIZE] == old(data[BUFSIZE])
      invariant Prints(all, out, scan, w, w + lineStart, data[BUFSIZE])
      decreases last - lineStart
    {
      var lineEnd := LineEnd(data, lineStart, last);
      assert IsLineEnd(s, w + lineStart, w + last, w + lineEnd) by {
        assert forall i :: w + lineStart <= i < w + last ==> s[i] == data[i - w];
      }
      ghost var at, behind := w + lineStart, data[BUFSIZE];
      if data[lineEnd] != NEWLINE && cnt != 0 && lineStart != 0 {
        CarryOver(data, last, lineStart, s, w, scan, LineReport(pat, fname));
        PrintsStep(all, out, scan, w, at, behind, [], at, at, data[BUFSIZE]);
        if w + last < |s| { CutAtCarry(s, w, lineStart, behind); }
        last' := last - lineStart;
        return;
      }
      var found := SearchInPlace(data, last, cnt, lineStart, lineEnd, pat, fname, s, w, scan);
      if lineEnd + 1 >= last && w + last < |s| { CutAtEnd(s, w, lineStart, lineEnd, behind, data[BUFSIZE]); }
      lineStart := lineEnd + 1;
      if lineStart >= last {
        PrintsStep(all, out, scan, w, at, behind, found, w + last, w + last, data[BUFSIZE]);
        last', out := 0, out + found;
        return;
      }
      PrintsStep(all, out, scan, w, at, behind, found, w, w + lineStart, data[BUFSIZE]);
      out := out + found;
    }
  }

  /** The reads still to come when the window starts at `w` and the file has been read up to `pos`. */
  ghost function ReadsLeft(s: seq<byte>, w: nat, pos: nat, behind: byte): nat
    requires w <= pos <= |s|
  {
    if pos == |s| then 1 else ReadsOf(s[w..], behind)
  }

  lemma OneRead(s: seq<byte>, w: nat, pos: nat, behind: byte, pos': nat, w': nat, behind': byte)
    requires w <= pos < w + BUFSIZE && pos < |s| && pos' == WindowLimit(s, w) && w <= w' <= pos'
    requires pos' < |s| ==> CutDone(s, w, behind, w' - w, behind')
    ensures ReadsLeft(s, w, pos, behind) == 1 + ReadsLeft(s, w', pos', behind')
  {
    var rest := s[w..];
    if pos' < |s| {
      assert rest[..BUFSIZE] == s[w..w + BUFSIZE];
      assert rest[w' - w..] == s[w'..];
    }
  }

  /** The first `last` bytes of the window are carried over; `pos` bytes have been read. */
  ghost predicate Carried(data: array<byte>, last: nat, content: seq<byte>, pos: nat)
    reads data
  {
    && data.Length == BUFSIZE + 1
    && last < BUFSIZE && last <= pos <= |content|
    && forall j :: 0 <= j < last ==> data[j] == content[pos - last + j]
  }

  /** The body of the read loop after the test for an error. */
  method ReadAndSearch(content: seq<byte>, pos: nat, data: array<byte>, last: nat, pat: seq<byte>, fname: seq<byte>,
                       ghost scan: Scanner)
    returns (cnt: nat, last': nat, found: seq<byte>)
    requires Carried(data, last, content, pos) && IsCString(pat) && IsCString(content)
    requires IsScanner(scan, content, LineReport(pat, fname))
    modifies data
    ensures cnt == 0 <==> pos == |content|
    ensures pos + cnt <= |content| && Carried(data, last', content, pos + cnt) && (cnt == 0 ==> last' == 0)
    ensures Prints(scan(pos - last, pos - last, old(data[BUFSIZE])), found,
                   scan, pos + cnt - last', pos + cnt - last', data[BUFSIZE])
    ensures ReadsLeft(content, pos - last, pos, old(data[BUFSIZE]))
         == if cnt == 0 then 1 else 1 + ReadsLeft(content, pos + cnt - last', pos + cnt, data[BUFSIZE])
  {
    ghost var w, behind := pos - last, data[BUFSIZE];
    cnt := Read(content, pos, data, last, BUFSIZE - last);
    last', found := SearchWindow(data, last + cnt, cnt, pat, fname, content, w, scan);
    if cnt > 0 {
      OneRead(content, w, pos, behind, pos + cnt, pos + cnt - last', data[BUFSIZE]);
    }
  }

  lemma PrintsAll(all: seq<byte>, out: seq<byte>, scan: Scanner, s: seq<byte>, behind: byte, f: seq<byte> -> seq<byte>)
    requires Prints(all, out, scan, |s|, |s|, behind) && IsScanner(scan, s, f)
    ensures all == out
  {
    assert ScanStep(scan, s, |s|, |s|, behind, f);
  }

  /** The read loop. `ok` is false when a read fails, which happens if and only if the failing
      read is one of those the file takes; what was printed by then is a beginning of the full output. */
  method SearchFile(content: seq<byte>, readsBeforeError: Option<nat>, data: array<byte>, pat: seq<byte>,
                    fname: seq<byte>, ghost scan: Scanner)
    returns (ok: bool, out: seq<byte>)
    requires data.Length == BUFSIZE + 1 && IsCString(pat) && IsCString(content)
    requires IsScanner(scan, content, LineReport(pat, fname))
    modifies data
    ensures !ok <==> readsBeforeError.Some? && readsBeforeError.value < ReadsOf(content, old(data[BUFSIZE]))
    ensures ok ==> out == scan(0, 0, old(data[BUFSIZE]))
    ensures !ok ==> out <= scan(0, 0, old(data[BUFSIZE]))
  {
    ghost var all, total := scan(0, 0, data[BUFSIZE]), ReadsOf(content, data[BUFSIZE]);
    assert content[0..] == content;
    out := [];
    var last, pos, readCount := 0, 0, 0;
    while true
      invariant Carried(data, last, content, pos)
      invariant Prints(all, out, scan, pos - last, pos - last, data[BUFSIZE])
      invariant 0 <= readCount && (readsBeforeError.Some? ==> readCount <= readsBeforeError.value)
      invariant total == readCount + ReadsLeft(content, pos - last, pos, data[BUFSIZE])
      decreases |content| - pos
    {
      if readsBeforeError == Some(readCount) {
        return false, out;
      }
      ghost var w, behind := pos - last, data[BUFSIZE];
      var cnt, last', found := ReadAndSearch(content, pos, data, last, pat, fname, scan);
      readCount := readCount + 1;
      last, pos := last', pos + cnt;
      PrintsStep(all, out, scan, w, w, behind, found, pos - last, pos - last, data[BUFSIZE]);
      out := out + found;
      if cnt == 0 {
        PrintsAll(all, out, scan, content, data[BUFSIZE], LineReport(pat, fname));
        return true, out;
      }
    }
  }

  /** Everything printed before a read failed, followed by the error message. */
  ghost predicate ReadFailed(out: seq<byte>, all: seq<byte>) {
    exists printed :: printed <= all && out == printed + READ_FAILED
  }

  /** do_one_file: what is printed is the batch meaning of the text the window sees. */
  method DoOneFile(pat: seq<byte>, fname: seq<byte>, file: File, data: array<byte>) returns (rc: int, out: seq<byte>)
    requires data.Length == BUFSIZE + 1
    requires IsCString(pat) && IsCString(fname) && IsCString(file.content)
    modifies data
    ensures !file.opens ==> rc == -1 && out == OPEN_FAILED
    ensures file.opens ==>
              var all := Output(Seen(file.content, old(data[BUFSIZE])), pat, fname);
              var n := file.readsBeforeError;
              if n.Some? && n.value < ReadsOf(file.content, old(data[BUFSIZE])) then rc == -1 && ReadFailed(out, all)
              else if file.closes then rc == 0 && out == all
              else rc == -1 && out == all + CLOSE_FAILED
  {
    if !file.opens {
      return -1, OPEN_FAILED;
    }
    ghost var scan := ScannerOf(file.content, LineReport(pat, fname));
    ScanIsGrepOfSeen(scan, file.content, data[BUFSIZE], pat, fname);
    var ok;
    ok, out := SearchFile(file.content, file.readsBeforeError, data, pat, fname, scan);
    if !ok {
      return -1, out + READ_FAILED;
    }
    if !file.closes {
      return -1, out + CLOSE_FAILED;
    }
    return 0, out;
  }
}
