/** The emulator's command line: cut into arguments in place, and joined again for getargs. */
module Argv {
  import opened Bytes

  const MAX_COMMAND: nat := 1023
  const BUF_SIZE: nat := 1026
  const MAX_ARGS: nat := 1024
  const DOT: byte := 46
  const SLASH: byte := 47

  predicate Delimiter(c: byte) {
    c == SPACE || c == NEWLINE
  }

  /** Length of the beginning of `s` that has no space and no newline. */
  function TokenLen(s: seq<byte>): (k: nat)
    ensures k <= |s| && forall i :: 0 <= i < k ==> !Delimiter(s[i])
    ensures k < |s| ==> Delimiter(s[k])
  {
    if s == [] || Delimiter(s[0]) then 0 else 1 + TokenLen(s[1..])
  }

  /** The arguments in the text behind the command name: a newline right behind an argument
      separates, any other newline ends the list. */
  function ArgsOf(s: seq<byte>): (args: seq<seq<byte>>)
    decreases |s|
  {
    if s == [] || s[0] == NEWLINE then []
    else if s[0] == SPACE then ArgsOf(s[1..])
    else
      var k := TokenLen(s);
      [s[..k]] + if k < |s| then ArgsOf(s[k + 1..]) else []
  }

  /** The text behind the command name and its delimiter. */
  function ArgText(command: seq<byte>): seq<byte> {
    if TokenLen(command) < |command| then command[TokenLen(command) + 1..] else []
  }

  /** What execute passes on: the path of the program and the arguments. */
  function ArgvOf(command: seq<byte>): (argv: seq<seq<byte>>) {
    [[DOT, SLASH] + command[..TokenLen(command)]] + ArgsOf(ArgText(command))
  }

  /** The words of a text: its maximal runs without a space. */
  function Words(s: seq<byte>): seq<seq<byte>>
    decreases |s|
  {
    if s == [] then []
    else if s[0] == SPACE then Words(s[1..])
    else
      var k := WordLen(s);
      [s[..k]] + Words(s[k..])
  }

  function WordLen(s: seq<byte>): (k: nat)
    ensures k <= |s| && SPACE !in s[..k]
    ensures k < |s| ==> s[k] == SPACE
    ensures s != [] && s[0] != SPACE ==> k > 0
  {
    if s == [] || s[0] == SPACE then 0
    else
      assert s[..1 + WordLen(s[1..])] == [s[0]] + s[1..][..WordLen(s[1..])];
      1 + WordLen(s[1..])
  }

  function Join(words: seq<seq<byte>>): seq<byte> {
    if words == [] then []
    else if |words| == 1 then words[0]
    else words[0] + [SPACE] + Join(words[1..])
  }

  /** No leading or trailing space, and no two spaces in a row. */
  predicate Normal(s: seq<byte>) {
    && (s != [] ==> s[0] != SPACE && s[|s| - 1] != SPACE)
    && forall i :: 0 < i < |s| ==> s[i - 1] != SPACE || s[i] != SPACE
  }

  // ---------- joining undoes cutting ----------

  lemma {:induction false} TokenLenIsWordLen(s: seq<byte>)
    requires NEWLINE !in s
    ensures TokenLen(s) == WordLen(s)
  {
    if s != [] {
      assert s[0] in s;
      TokenLenIsWordLen(s[1..]);
    }
  }

  /** Without newlines the arguments are the words of the text. */
  lemma {:induction false} ArgsAreWords(s: seq<byte>)
    requires NEWLINE !in s
    ensures ArgsOf(s) == Words(s)
    decreases |s|
  {
    if s != [] {
      assert s[0] in s;
      if s[0] == SPACE {
        ArgsAreWords(s[1..]);
      } else {
        TokenLenIsWordLen(s);
        var k := TokenLen(s);
        if k < |s| {
          ArgsAreWords(s[k + 1..]);
          assert s[k] == SPACE && s[k..][1..] == s[k + 1..];
        } else {
          assert s[k..] == [];
        }
      }
    }
  }

  predicate ProperWords(ws: seq<seq<byte>>) {
    forall w :: w in ws ==> w != [] && SPACE !in w
  }

  lemma {:induction false} WordsAreProper(s: seq<byte>)
    ensures ProperWords(Words(s))
    decreases |s|
  {
    if s != [] {
      if s[0] == SPACE { WordsAreProper(s[1..]); } else { WordsAreProper(s[WordLen(s)..]); }
    }
  }

  lemma WordLenIs(s: seq<byte>, k: nat)
    requires k <= |s| && SPACE !in s[..k] && (k < |s| ==> s[k] == SPACE)
    ensures WordLen(s) == k
  {
  }

  lemma FirstWord(w: seq<byte>, t: seq<byte>)
    requires w != [] && SPACE !in w
    ensures Words(w + [SPACE] + t) == [w] + Words(t)
  {
    var s := w + [SPACE] + t;
    assert w[0] in w;
    assert s[..|w|] == w;
    WordLenIs(s, |w|);
    assert s[|w|..][1..] == t;
    assert Words(s[|w|..]) == Words(t);
  }

  lemma OnlyWord(w: seq<byte>)
    requires w != [] && SPACE !in w
    ensures Words(w) == [w] && Normal(w)
  {
    assert w[..|w|] == w && w[|w|..] == [];
    WordLenIs(w, |w|);
    assert forall i :: 0 <= i < |w| ==> w[i] in w;
  }

  /** The joined text has the same words, separated by single spaces. */
  lemma {:induction false} JoinedWords(ws: seq<seq<byte>>)
    requires ProperWords(ws)
    ensures Words(Join(ws)) == ws && Normal(Join(ws)) && (ws != [] ==> Join(ws) != [])
  {
    if ws != [] {
      var w, rest := ws[0], ws[1..];
      assert w in ws;
      if |ws| == 1 {
        OnlyWord(w);
      } else {
        assert forall v :: v in rest ==> v in ws;
        JoinedWords(rest);
        FirstWord(w, Join(rest));
        NormalJoin(w, Join(rest));
      }
    }
  }

  lemma NormalJoin(w: seq<byte>, t: seq<byte>)
    requires w != [] && SPACE !in w && t != [] && Normal(t)
    ensures Normal(w + [SPACE] + t)
  {
    var s := w + [SPACE] + t;
    assert forall i :: 0 <= i < |w| ==> s[i] == w[i] && w[i] in w;
    assert forall i :: |w| < i < |s| ==> s[i] == t[i - |w| - 1];
  }

  /** A normal text does not end after a space, and what follows a space is normal. */
  lemma NormalTail(s: seq<byte>, k: nat)
    requires Normal(s) && k < |s| && s[k] == SPACE
    ensures k + 1 < |s| && Normal(s[k + 1..])
  {
    assert k + 1 < |s|;
    assert s[k + 1 - 1] == SPACE;
    var t := s[k + 1..];
    assert t[0] == s[k + 1] && t[|t| - 1] == s[|s| - 1];
    forall i | 0 < i < |t|
      ensures t[i - 1] != SPACE || t[i] != SPACE
    {
      assert t[i - 1] == s[k + 1 + i - 1] && t[i] == s[k + 1 + i];
    }
  }

  lemma WordsOfRest(s: seq<byte>)
    requires s != [] && s[0] != SPACE && WordLen(s) < |s|
    ensures Words(s) == [s[..WordLen(s)]] + Words(s[WordLen(s) + 1..])
  {
    var k := WordLen(s);
    assert s[k..][1..] == s[k + 1..];
    assert Words(s[k..]) == Words(s[k + 1..]);
  }

  /** A normal text is determined by its words. */
  lemma {:induction false} NormalIsJoin(s: seq<byte>)
    requires Normal(s)
    ensures Join(Words(s)) == s
    decreases |s|
  {
    if s != [] {
      var k := WordLen(s);
      if k == |s| {
        assert s[..k] == s && s[k..] == [];
      } else {
        var t := s[k + 1..];
        NormalTail(s, k);
        assert Words(t) != [];
        calc {
          Join(Words(s));
        ==  { WordsOfRest(s); }
          Join([s[..k]] + Words(t));
        ==  { JoinCons(s[..k], Words(t)); }
          s[..k] + [SPACE] + Join(Words(t));
        ==  { NormalIsJoin(t); }
          s[..k] + [SPACE] + t;
        ==
          s;
        }
      }
    }
  }

  lemma JoinCons(w: seq<byte>, ws: seq<seq<byte>>)
    requires ws != []
    ensures Join([w] + ws) == w + [SPACE] + Join(ws)
  {
    assert ([w] + ws)[1..] == ws;
  }

  /** For a command without newlines, joining the arguments gives the text behind the command name
      with its ends trimmed and its runs of spaces collapsed: the only normal text with the same words. */
  lemma JoinUndoesCut(command: seq<byte>, t: seq<byte>)
    requires NEWLINE !in command
    ensures t == Join(ArgvOf(command)[1..]) <==> Normal(t) && Words(t) == Words(ArgText(command))
  {
    var text := ArgText(command);
    ArgsAreWords(text);
    assert ArgvOf(command)[1..] == Words(text);
    NormalOfWords(t, text);
  }

  lemma NormalOfWords(t: seq<byte>, text: seq<byte>)
    ensures t == Join(Words(text)) <==> Normal(t) && Words(t) == Words(text)
  {
    WordsAreProper(text);
    JoinedWords(Words(text));
    if Normal(t) {
      NormalIsJoin(t);
    }
  }

  /** A command made of a name and words arrives as just these, however many spaces lie between, in
      front of and behind them. */
  lemma CommandArrives(name: seq<byte>, text: seq<byte>, ws: seq<seq<byte>>)
    requires NEWLINE !in text && SPACE !in name && NEWLINE !in name && Words(text) == ws
    ensures ArgvOf(name) == [[46, 47] + name]
    ensures ArgvOf(name + [32] + text) == [[46, 47] + name] + ws
  {
    var command := name + [SPACE] + text;
    TokenLenIs(name, name);
    TokenLenIs(command, name);
    assert command[|name| + 1..] == text && command[..|name|] == name && name[..|name|] == name;
    ArgsAreWords(text);
  }

  /** In particular words that are separated by single spaces. */
  lemma WordsArrive(name: seq<byte>, ws: seq<seq<byte>>)
    requires ProperWords(ws) && NEWLINE !in Join(ws) && SPACE !in name && NEWLINE !in name
    ensures ArgvOf(name + [32] + Join(ws)) == [[46, 47] + name] + ws
  {
    JoinedWords(ws);
    CommandArrives(name, Join(ws), ws);
  }

  lemma {:induction false} TokenLenIs(s: seq<byte>, token: seq<byte>)
    requires token <= s && SPACE !in token && NEWLINE !in token && (|token| < |s| ==> Delimiter(s[|token|]))
    ensures TokenLen(s) == |token|
    decreases |token|
  {
    if token != [] {
      assert token[0] in token && s[0] == token[0];
      TokenLenIs(s[1..], token[1..]);
    }
  }

  /** A newline right behind a word separates it from the next one; any other newline ends the list. */
  lemma NewlinesInArgs(w: seq<byte>, more: seq<byte>)
    requires w != [] && SPACE !in w && NEWLINE !in w
    ensures ArgsOf(w + [10] + more) == [w] + ArgsOf(more) && ArgsOf([10] + more) == []
  {
    var s := w + [NEWLINE] + more;
    TokenLenIs(s, w);
    assert w[0] in w && s[0] == w[0];
    assert s[..|w|] == w && s[|w| + 1..] == more;
  }

  // ---------- ece391_execute up to the fork ----------

  /** The C string `s` starts at `at`; its terminator is not behind `limit`. */
  predicate StringAt(buf: seq<byte>, at: nat, s: seq<byte>, limit: nat) {
    && at + |s| <= limit < |buf| && buf[at + |s|] == NUL
    && forall i :: at <= i < at + |s| ==> buf[i] == s[i - at] && buf[i] != NUL
  }

  lemma {:induction false} ArgsCount(s: seq<byte>)
    ensures 2 * |ArgsOf(s)| <= |s| + 1
    decreases |s|
  {
    if s != [] && s[0] != NEWLINE {
      if s[0] == SPACE {
        ArgsCount(s[1..]);
      } else {
        var k := TokenLen(s);
        if k < |s| {
          ArgsCount(s[k + 1..]);
        }
      }
    }
  }

  /** The pointers in `args` name the strings in `argv`. */
  ghost predicate Points(buf: seq<byte>, args: seq<nat>, argv: seq<seq<byte>>, limit: nat) {
    |args| == |argv| && forall j :: 0 <= j < |args| ==> StringAt(buf, args[j], argv[j], limit)
  }

  /** `s` is the rest of the command, from `scan` to its terminator. */
  predicate Rest(buf: seq<byte>, scan: nat, s: seq<byte>) {
    && scan + |s| < |buf| && buf[scan + |s|] == NUL
    && forall i :: scan <= i < scan + |s| ==> buf[i] == s[i - scan] && buf[i] != NUL
  }

  method SkipToken(buf: array<byte>, scan: nat, ghost s: seq<byte>) returns (end: nat)
    requires Rest(buf[..], scan, s)
    ensures end == scan + TokenLen(s)
  {
    end := scan;
    while buf[end] != NUL && buf[end] != SPACE && buf[end] != NEWLINE
      invariant scan <= end <= scan + TokenLen(s)
      decreases scan + |s| - end
    {
      assert buf[end] == s[end - scan];
      end := end + 1;
    }
    assert end < scan + |s| ==> buf[end] == s[end - scan];
  }

  method SkipSpaces(buf: array<byte>, scan: nat, ghost s: seq<byte>) returns (end: nat, ghost rest: seq<byte>)
    requires Rest(buf[..], scan, s)
    ensures Rest(buf[..], end, rest) && scan <= end && |rest| <= |s| && (rest == [] || rest[0] != SPACE)
    ensures ArgsOf(rest) == ArgsOf(s)
  {
    end, rest := scan, s;
    while buf[end] == SPACE
      invariant Rest(buf[..], end, rest) && scan <= end && |rest| <= |s|
      invariant ArgsOf(rest) == ArgsOf(s)
      decreases |rest|
    {
      assert rest[0] == SPACE;
      end, rest := end + 1, rest[1..];
    }
  }

  /** A token gets its terminator: it becomes a string, and the pointers stay as they are. */
  lemma PointsKept(before: seq<byte>, after: seq<byte>, args: seq<nat>, argv: seq<seq<byte>>, limit: nat, limit': nat)
    requires Points(before, args, argv, limit) && |before| == |after| && limit <= limit' < |after|
    requires forall i :: 0 <= i <= limit && i < |after| ==> after[i] == before[i]
    ensures Points(after, args, argv, limit')
  {
    forall j | 0 <= j < |args|
      ensures StringAt(after, args[j], argv[j], limit')
    {
      assert StringAt(before, args[j], argv[j], limit);
    }
  }

  /** One argument is cut off. */
  method CutOne(buf: array<byte>, scan: nat, args: seq<nat>, ghost argv: seq<seq<byte>>, ghost s: seq<byte>)
    returns (scan': nat, args': seq<nat>, ghost rest: seq<byte>)
    requires Rest(buf[..], scan, s) && s != [] && !Delimiter(s[0]) && Points(buf[..], args, argv, scan)
    modifies buf
    ensures Rest(buf[..], scan', rest) && |rest| < |s|
    ensures |args'| == |args| + 1 && Points(buf[..], args', argv + [s[..TokenLen(s)]], scan')
    ensures ArgsOf(s) == [s[..TokenLen(s)]] + ArgsOf(rest)
  {
    ghost var before, k := buf[..], TokenLen(s);
    var end := SkipToken(buf, scan, s);
    args' := args + [scan];
    if buf[end] != NUL {
      RestAfter(before, scan, s, k);
      buf[end] := NUL;
      scan', rest := end + 1, s[k + 1..];
    } else {
      scan', rest := end, [];
    }
    PointsKept(before, buf[..], args, argv, scan, scan');
    TokenIsString(before, buf[..], scan, s, k, scan');
    PointsSnoc(buf[..], args, argv, scan, s[..k], scan');
  }

  lemma TokenIsString(before: seq<byte>, buf: seq<byte>, scan: nat, s: seq<byte>, k: nat, limit: nat)
    requires Rest(before, scan, s) && k <= |s| && |buf| == |before| && scan + k <= limit < |buf|
    requires buf[scan + k] == NUL && forall i :: scan <= i < scan + k ==> buf[i] == before[i]
    ensures StringAt(buf, scan, s[..k], limit)
  {
  }

  lemma PointsSnoc(buf: seq<byte>, args: seq<nat>, argv: seq<seq<byte>>, at: nat, word: seq<byte>, limit: nat)
    requires Points(buf, args, argv, limit) && StringAt(buf, at, word, limit)
    ensures Points(buf, args + [at], argv + [word], limit)
  {
  }

  /** The argument loop, from behind the command name. */
  method CutArguments(buf: array<byte>, start: nat, args0: seq<nat>, ghost argv0: seq<seq<byte>>, ghost s0: seq<byte>)
    returns (args: seq<nat>)
    requires Rest(buf[..], start, s0) && Points(buf[..], args0, argv0, start)
    modifies buf
    ensures Points(buf[..], args, argv0 + ArgsOf(s0), buf.Length - 1)
  {
    var scan: nat := start;
    args := args0;
    ghost var all, argv, s := argv0 + ArgsOf(s0), argv0, s0;
    while true
      invariant Rest(buf[..], scan, s) && Points(buf[..], args, argv, scan)
      invariant Owed(all, argv, s)
      decreases |s|
    {
      ghost var t;
      ghost var before := scan;
      scan, t := SkipSpaces(buf, scan, s);
      PointsKept(buf[..], buf[..], args, argv, before, scan);
      if buf[scan] == NUL || buf[scan] == NEWLINE {
        ghost var last := buf[..];
        buf[scan] := NUL;
        ArgsEnd(last, buf[..], args, argv, scan, t);
        return;
      }
      scan, args, s := CutOne(buf, scan, args, argv, t);
      OwedCut(all, argv, t, s);
      argv := argv + [t[..TokenLen(t)]];
    }
  }

  /** `argv` has been cut off, and `s` holds the rest. */
  ghost predicate Owed(all: seq<seq<byte>>, argv: seq<seq<byte>>, s: seq<byte>) {
    all == argv + ArgsOf(s)
  }

  lemma OwedCut(all: seq<seq<byte>>, argv: seq<seq<byte>>, t: seq<byte>, s: seq<byte>)
    requires Owed(all, argv, t) && ArgsOf(t) == [t[..TokenLen(t)]] + ArgsOf(s)
    ensures Owed(all, argv + [t[..TokenLen(t)]], s)
  {
  }

  lemma ArgsEnd(before: seq<byte>, after: seq<byte>, args: seq<nat>, argv: seq<seq<byte>>, scan: nat, t: seq<byte>)
    requires Rest(before, scan, t) && Points(before, args, argv, scan)
    requires before[scan] == NUL || before[scan] == NEWLINE
    requires after == before[scan := NUL]
    ensures ArgsOf(t) == [] && Points(after, args, argv + ArgsOf(t), |after| - 1)
  {
    assert argv + [] == argv;
    forall j | 0 <= j < |args|
      ensures StringAt(after, args[j], argv[j], |after| - 1)
    {
      assert StringAt(before, args[j], argv[j], scan);
    }
  }

  /** execute up to the fork: `args` holds the offsets of the argument strings in `buf`. */
  method Execute(command: seq<byte>, buf: array<byte>) returns (rc: int, args: seq<nat>)
    requires IsCString(command) && buf.Length == BUF_SIZE
    modifies buf
    ensures |command| > 1023 ==> rc == -1 && buf[..] == old(buf[..])
    ensures |command| <= 1023 ==>
              rc == 0 && Points(buf[..], args, ArgvOf(command), BUF_SIZE - 1) && |args| < 1024
  {
    args := [];
    if MAX_COMMAND < |command| {
      return -1, args;
    }
    CopyCommand(command, buf);
    args := CutCommand(command, buf);
    ArgsCount(ArgText(command));
    return 0, args;
  }

  /** The command name, then its arguments. */
  method CutCommand(command: seq<byte>, buf: array<byte>) returns (args: seq<nat>)
    requires |command| <= MAX_COMMAND && buf.Length == BUF_SIZE
    requires buf[0] == DOT && buf[1] == SLASH && Rest(buf[..], 2, command)
    modifies buf
    ensures Points(buf[..], args, ArgvOf(command), BUF_SIZE - 1)
  {
    var scan := SkipToken(buf, 2, command);
    ghost var before, k := buf[..], TokenLen(command);
    args := [0];
    if buf[scan] != NUL {
      RestAfter(buf[..], 2, command, k);
      buf[scan] := NUL;
      NameIsString(before, buf[..], command, k, scan + 1);
      args := CutArguments(buf, scan + 1, args, [NameOf(command)], ArgText(command));
    } else {
      NameIsString(before, buf[..], command, k, BUF_SIZE - 1);
    }
  }

  function NameOf(command: seq<byte>): seq<byte> {
    [DOT, SLASH] + command[..TokenLen(command)]
  }

  /** The command name, once a NUL ends it, is the first argument. */
  lemma NameIsString(before: seq<byte>, buf: seq<byte>, command: seq<byte>, k: nat, limit: nat)
    requires Rest(before, 2, command) && k == TokenLen(command) && before[0] == DOT && before[1] == SLASH
    requires |buf| == |before| && 2 + k <= limit < |buf| && buf[2 + k] == NUL
    requires forall i :: 0 <= i < 2 + k ==> buf[i] == before[i]
    ensures Points(buf, [0], [NameOf(command)], limit)
  {
    forall i | 0 <= i < 2 + k
      ensures buf[i] == NameOf(command)[i] && buf[i] != NUL
    {
    }
    assert StringAt(buf, 0, NameOf(command), limit);
  }

  lemma RestAfter(buf: seq<byte>, scan: nat, s: seq<byte>, k: nat)
    requires Rest(buf, scan, s) && k < |s|
    ensures Rest(buf, scan + k + 1, s[k + 1..])
  {
  }

  /** "./" and the command. */
  method CopyCommand(command: seq<byte>, buf: array<byte>)
    requires IsCString(command) && |command| <= MAX_COMMAND && buf.Length == BUF_SIZE
    modifies buf
    ensures buf[0] == DOT && buf[1] == SLASH && Rest(buf[..], 2, command)
  {
    buf[0] := DOT;
    buf[1] := SLASH;
    forall i | 0 <= i < |command| {
      buf[2 + i] := command[i];
    }
    buf[2 + |command|] := NUL;
    assert forall i :: 0 <= i < |command| ==> command[i] in command;
  }

  // ---------- ece391_getargs ----------

  lemma JoinSnoc(words: seq<seq<byte>>, w: seq<byte>)
    ensures Join(words + [w]) == if words == [] then w else Join(words) + [SPACE] + w
  {
    if words != [] {
      assert (words + [w])[1..] == words[1..] + [w];
      JoinSnoc(words[1..], w);
    }
  }

  lemma {:induction false} JoinPrefixShorter(words: seq<seq<byte>>, k: nat)
    requires k <= |words|
    ensures |Join(words[..k])| <= |Join(words)|
    ensures 0 < k < |words| ==> |Join(words[..k])| + 1 <= |Join(words)|
    decreases |words| - k
  {
    if k == |words| {
      assert words[..k] == words;
    } else {
      JoinPrefixShorter(words, k + 1);
      assert words[..k + 1] == words[..k] + [words[k]];
      JoinSnoc(words[..k], words[k]);
    }
  }

  /** strcpy(buf, s): the string and its terminator. */
  method StrCpy(buf: array<byte>, at: nat, s: seq<byte>)
    requires at + |s| < buf.Length
    modifies buf
    ensures forall i :: at <= i < at + |s| ==> buf[i] == s[i - at]
    ensures forall i :: 0 <= i < at ==> buf[i] == old(buf[i])
  {
    forall i | 0 <= i < |s| {
      buf[at + i] := s[i];
    }
    buf[at + |s|] := NUL;
  }

  /** getargs joins the arguments with spaces and succeeds exactly if the result and its terminator
      fit; a copy that fills the space exactly writes its terminator one byte behind. */
  method GetArgs(args: seq<seq<byte>>, buf: array<byte>, nbytes: int) returns (rc: int)
    requires nbytes < buf.Length
    modifies buf
    ensures rc == if |Join(args)| < nbytes then 0 else -1
    ensures rc == 0 ==> buf[..|Join(args)|] == Join(args) && buf[|Join(args)|] == NUL
  {
    var idx, at, left := 0, 0, nbytes;
    assert args[..|args|] == args;
    while idx < |args|
      invariant 0 <= idx <= |args| && at + left == nbytes
      invariant 0 <= at && (idx > 0 ==> left >= 0)
      invariant if idx < |args| then Started(buf[..], at, args, idx) else Joined(buf[..], at, args, idx)
    {
      var len := |args[idx]|;
      JoinPrefixShorter(args, idx + 1);
      JoinedLength(args, idx);
      if len > left {
        return -1;
      }
      AppendArg(buf, at, args, idx);
      at, left := at + len, left - len;
      idx := idx + 1;
      if idx >= |args| {
        break;
      }
      if left < 1 {
        return -1;
      }
      buf[at] := SPACE;
      at, left := at + 1, left - 1;
    }
    if left < 1 {
      return -1;
    }
    buf[at] := NUL;
    return 0;
  }

  /** The first `idx` arguments have been joined in the first `at` bytes. */
  ghost predicate Joined(buf: seq<byte>, at: nat, args: seq<seq<byte>>, idx: nat) {
    idx <= |args| && at == |Join(args[..idx])| && at <= |buf| && buf[..at] == Join(args[..idx])
  }

  /** ... and a space behind them separates them from the next one. */
  ghost predicate Started(buf: seq<byte>, at: nat, args: seq<seq<byte>>, idx: nat) {
    if idx == 0 then at == 0 else at > 0 && at <= |buf| && Joined(buf, at - 1, args, idx) && buf[at - 1] == SPACE
  }

  lemma JoinedLength(args: seq<seq<byte>>, idx: nat)
    requires idx < |args|
    ensures |Join(args[..idx + 1])| == |args[idx]| + if idx == 0 then 0 else |Join(args[..idx])| + 1
  {
    assert args[..idx + 1] == args[..idx] + [args[idx]];
    JoinSnoc(args[..idx], args[idx]);
  }

  method AppendArg(buf: array<byte>, at: nat, args: seq<seq<byte>>, idx: nat)
    requires idx < |args| && Started(buf[..], at, args, idx) && at + |args[idx]| < buf.Length
    modifies buf
    ensures Joined(buf[..], at + |args[idx]|, args, idx + 1)
  {
    assert args[..idx + 1] == args[..idx] + [args[idx]];
    JoinSnoc(args[..idx], args[idx]);
    ghost var before := if idx == 0 then [] else Join(args[..idx]) + [SPACE];
    assert buf[..at] == before;
    StrCpy(buf, at, args[idx]);
    assert buf[..at + |args[idx]|] == before + args[idx];
  }
}
