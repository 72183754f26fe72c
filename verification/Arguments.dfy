/** ece391emulate.c: a command is split into arguments in place, and arguments are joined into one text. */
module Arguments {
  import opened Common

  const BUF := 1026
  const MAX_COMMAND := 1023

  predicate IsSeparator(c: char) {
    c == ' ' || c == '\n'
  }

  predicate IsWord(w: string) {
    w != [] && forall i :: 0 <= i < |w| ==> !IsSeparator(w[i])
  }

  /** The length of the word that `s` starts with. */
  function WordLen(s: string): (n: nat)
    ensures n <= |s|
    ensures n < |s| ==> IsSeparator(s[n])
    ensures forall i :: 0 <= i < n ==> !IsSeparator(s[i])
  {
    if s == [] || IsSeparator(s[0]) then 0 else 1 + WordLen(s[1..])
  }

  function SkipSpaces(s: string): (r: string)
    ensures |r| <= |s| && (r == [] || r[0] != ' ')
  {
    if s != [] && s[0] == ' ' then SkipSpaces(s[1..]) else s
  }

  /** What follows the word of length `n`, without the separator that ended it. */
  function After(s: string, n: nat): string
    requires n <= |s|
  {
    if n < |s| then s[n + 1..] else []
  }

  /** The arguments of a text. A newline right after a word separates; anywhere else it ends the text. */
  function Tokens(s: string): (r: seq<string>)
    ensures |r| <= |s|
    ensures forall w :: w in r ==> IsWord(w)
    decreases |s|
  {
    var t := SkipSpaces(s);
    if t == [] || t[0] == '\n' then []
    else [t[..WordLen(t)]] + Tokens(After(t, WordLen(t)))
  }

  /** The argument vector of a command. */
  function Parsed(command: string): (r: seq<string>)
    ensures 1 <= |r| <= |command| + 1
  {
    ["./" + command[..WordLen(command)]] + Tokens(After(command, WordLen(command)))
  }

  function Join(args: seq<string>): string {
    if args == [] then [] else if |args| == 1 then args[0] else args[0] + [' '] + Join(args[1..])
  }

  lemma WordLenIs(s: string, n: nat)
    requires n <= |s| && (n < |s| ==> IsSeparator(s[n])) && forall i :: 0 <= i < n ==> !IsSeparator(s[i])
    ensures WordLen(s) == n
  {}

  lemma {:induction false} TokensOfJoin(args: seq<string>)
    requires forall w :: w in args ==> IsWord(w)
    ensures Tokens(Join(args)) == args
    decreases |args|
  {
    if args != [] {
      var w, s := args[0], Join(args);
      assert w in args;
      assert s[..|w|] == w && SkipSpaces(s) == s;
      WordLenIs(s, |w|);
      if |args| > 1 {
        assert After(s, |w|) == Join(args[1..]);
        assert forall v :: v in args[1..] ==> v in args;
        TokensOfJoin(args[1..]);
      }
    }
  }

  /** Splitting undoes joining exactly when every argument is a word. */
  lemma SplitUndoesJoinIff(args: seq<string>)
    ensures Tokens(Join(args)) == args <==> forall w :: w in args ==> IsWord(w)
  {
    if forall w :: w in args ==> IsWord(w) {
      TokensOfJoin(args);
    }
  }

  /** The text that getargs builds for a program gives the same arguments when it is executed again. */
  lemma ReexecutingKeepsArguments(command: string, program: string)
    requires IsWord(program)
    ensures var args := Parsed(command)[1..];
      Parsed(program + [' '] + Join(args)) == ["./" + program] + args
  {
    var args := Parsed(command)[1..];
    var again := program + [' '] + Join(args);
    WordLenIs(again, |program|);
    assert again[..|program|] == program && After(again, |program|) == Join(args);
    TokensOfJoin(args);
  }

  // ----- Any command -----

  function Spaces(n: nat): string {
    seq(n, _ => ' ')
  }

  /** A word, the separator that ends it, and the spaces after that. */
  datatype Piece = Piece(word: string, sep: char, spaces: nat)

  function Laid(pieces: seq<Piece>, end: string): string {
    if pieces == [] then end
    else pieces[0].word + [pieces[0].sep] + Spaces(pieces[0].spaces) + Laid(pieces[1..], end)
  }

  /** Words between separators, up to the end of the text: nothing, a newline where a word could start and
      anything after it, or a last word. */
  ghost predicate Proper(pieces: seq<Piece>, end: string) {
    && (forall i :: 0 <= i < |pieces| ==> IsWord(pieces[i].word) && IsSeparator(pieces[i].sep))
    && (end == [] || end[0] == '\n' || IsWord(end))
  }

  function Words(pieces: seq<Piece>, end: string): (r: seq<string>)
    ensures |r| == |pieces| + if end == [] || end[0] == '\n' then 0 else 1
    ensures forall i :: 0 <= i < |pieces| ==> r[i] == pieces[i].word
    ensures end != [] && end[0] != '\n' ==> r[|pieces|] == end
  {
    if pieces == [] then (if end == [] || end[0] == '\n' then [] else [end])
    else [pieces[0].word] + Words(pieces[1..], end)
  }

  lemma {:induction false} SkipsSpaces(n: nat, s: string)
    ensures SkipSpaces(Spaces(n) + s) == SkipSpaces(s)
  {
    if n == 0 {
      assert Spaces(0) + s == s;
    } else {
      assert (Spaces(n) + s)[1..] == Spaces(n - 1) + s;
      SkipsSpaces(n - 1, s);
    }
  }

  lemma LeadingSpaces(n: nat, s: string)
    ensures Tokens(Spaces(n) + s) == Tokens(s)
  {
    hide SkipSpaces, WordLen;
    SkipsSpaces(n, s);
  }

  lemma WordFirst(w: string, sep: char, rest: string)
    requires IsWord(w) && IsSeparator(sep)
    ensures Tokens(w + [sep] + rest) == [w] + Tokens(rest)
  {
    var s := w + [sep] + rest;
    WordLenIs(s, |w|);
    assert SkipSpaces(s) == s && s[..|w|] == w && After(s, |w|) == rest;
  }

  lemma EndTokens(end: string)
    requires end == [] || end[0] == '\n' || IsWord(end)
    ensures Tokens(end) == if end == [] || end[0] == '\n' then [] else [end]
  {
    if IsWord(end) {
      WordLenIs(end, |end|);
      assert SkipSpaces(end) == end && end[..|end|] == end && After(end, |end|) == [];
    }
  }

  /** The arguments of a text are its words in order, whatever the spaces before, between and behind them. */
  lemma {:induction false} TokensAreTheWords(lead: nat, pieces: seq<Piece>, end: string)
    requires Proper(pieces, end)
    ensures Tokens(Spaces(lead) + Laid(pieces, end)) == Words(pieces, end)
    decreases |pieces|
  {
    hide Tokens, IsWord;
    LeadingSpaces(lead, Laid(pieces, end));
    if pieces == [] {
      EndTokens(end);
    } else {
      var p := pieces[0];
      var rest := Spaces(p.spaces) + Laid(pieces[1..], end);
      TokensAreTheWords(p.spaces, pieces[1..], end);
      assert Laid(pieces, end) == p.word + [p.sep] + rest;
      WordFirst(p.word, p.sep, rest);
    }
  }

  lemma LaidCons(p: Piece, pieces: seq<Piece>, end: string)
    ensures Laid([p] + pieces, end) == p.word + [p.sep] + (Spaces(p.spaces) + Laid(pieces, end))
  {
    assert ([p] + pieces)[1..] == pieces;
  }

  lemma OneMoreSpace(lead: nat, text: string)
    ensures Spaces(0) + text == text && Spaces(lead + 1) + text == [' '] + (Spaces(lead) + text)
  {}

  /** And every text is such words between separators. */
  lemma {:induction false} EveryTextIsLaid(s: string) returns (lead: nat, pieces: seq<Piece>, end: string)
    ensures Proper(pieces, end) && s == Spaces(lead) + Laid(pieces, end)
    decreases |s|
  {
    hide Laid, Spaces;
    lead, pieces, end := 0, [], s;
    if s != [] && s[0] == ' ' {
      lead, pieces, end := EveryTextIsLaid(s[1..]);
      OneMoreSpace(lead, Laid(pieces, end));
      lead := lead + 1;
    } else if s != [] && s[0] != '\n' && WordLen(s) < |s| {
      var n := WordLen(s);
      var spaces, rest, last := EveryTextIsLaid(s[n + 1..]);
      pieces, end := [Piece(s[..n], s[n], spaces)] + rest, last;
      LaidCons(pieces[0], rest, last);
      assert s == s[..n] + [s[n]] + s[n + 1..];
      OneMoreSpace(0, Laid(pieces, end));
    } else {
      EmptyLaid(end);
      OneMoreSpace(0, Laid(pieces, end));
    }
  }

  lemma EmptyLaid(end: string)
    ensures Laid([], end) == end
  {}

  /** The program is the command up to its first separator, and the arguments are those of the text behind
      it. */
  lemma ProgramAndArguments(command: string, n: nat)
    requires n <= |command| && (forall i :: 0 <= i < n ==> command[i] != ' ' && command[i] != '\n')
    requires n < |command| ==> command[n] == ' ' || command[n] == '\n'
    ensures Parsed(command) == ["./" + command[..n]] + if n < |command| then Tokens(command[n + 1..]) else []
  {
    WordLenIs(command, n);
    EndTokens([]);
  }

  /** Joining puts one space before each argument but the first. */
  lemma {:induction false} JoinAppends(args: seq<string>, w: string)
    ensures Join([w]) == w
    ensures args != [] ==> Join(args + [w]) == Join(args) + " " + w
    decreases |args|
  {
    if |args| == 1 {
      assert (args + [w])[1..] == [w];
    } else if |args| > 1 {
      assert (args + [w])[1..] == args[1..] + [w];
      JoinAppends(args[1..], w);
    }
  }

  // ----- The tokeniser -----

  /** `text` stands at `at` in the buffer, ended by a NUL. */
  ghost predicate Stands(buf: array<char>, at: int, text: string)
    reads buf
  {
    0 <= at && at + |text| < buf.Length && buf[at..at + |text|] == text && buf[at + |text|] == '\0'
  }

  /** The finished arguments lie below `scan`, or end with the text itself, at `end`. */
  ghost predicate Finished(buf: array<char>, args: seq<nat>, texts: seq<string>, scan: int, end: int)
    reads buf
  {
    && |args| == |texts|
    && forall k :: 0 <= k < |args| ==>
         Stands(buf, args[k], texts[k]) && (args[k] + |texts[k]| < scan || args[k] + |texts[k]| == end == scan)
  }

  /** The text still to be split. */
  ghost predicate Unsplit(buf: array<char>, scan: int, end: int, rest: string)
    reads buf
  {
    0 <= scan <= end < buf.Length && buf[scan..end] == rest && buf[end] == '\0' && NulFree(rest)
  }

  /** Move over the word at `scan`. */
  method WordEnd(buf: array<char>, scan: nat, ghost end: nat, ghost rest: string) returns (stop: nat)
    requires Unsplit(buf, scan, end, rest)
    ensures stop == scan + WordLen(rest) <= end
    ensures buf[stop] == '\0' <==> stop == end
    ensures buf[scan..stop] == rest[..WordLen(rest)]
    ensures stop < end ==> buf[stop + 1..end] == rest[WordLen(rest) + 1..]
  {
    stop := scan;
    while '\0' != buf[stop] && ' ' != buf[stop] && '\n' != buf[stop]
      invariant scan <= stop <= end
      invariant forall i :: 0 <= i < stop - scan ==> !IsSeparator(rest[i])
      decreases end - stop
    {
      assert stop < end ==> buf[stop] == rest[stop - scan];
      stop := stop + 1;
    }
    assert stop < end ==> buf[stop] == rest[stop - scan];
    WordLenIs(rest, stop - scan);
  }

  /** Move over spaces. */
  method SpacesEnd(buf: array<char>, scan: nat, ghost end: nat, ghost rest: string) returns (stop: nat, ghost left: string)
    requires Unsplit(buf, scan, end, rest)
    ensures scan <= stop <= end && left == SkipSpaces(rest) && Unsplit(buf, stop, end, left)
  {
    stop, left := scan, rest;
    while ' ' == buf[stop]
      invariant scan <= stop <= end && Unsplit(buf, stop, end, left)
      invariant SkipSpaces(left) == SkipSpaces(rest)
      decreases end - stop
    {
      assert left[0] == buf[stop] && buf[stop + 1..end] == left[1..];
      stop, left := stop + 1, left[1..];
    }
    assert left != [] ==> left[0] == buf[stop];
  }

  /** End the word from `start` to `stop` with a NUL and step past it, unless the text ends there. */
  method EndWord(buf: array<char>, start: nat, stop: nat, ghost end: nat, ghost word: string, ghost rest: string,
                 ghost args: seq<nat>, ghost texts: seq<string>)
    returns (next: nat)
    requires start <= stop <= end < buf.Length && buf[end] == '\0'
    requires buf[start..stop] == word && (buf[stop] == '\0' <==> stop == end) && NulFree(rest)
    requires rest == if stop < end then buf[stop + 1..end] else []
    requires Finished(buf, args, texts, start, end) && (args != [] ==> start < end)
    modifies buf
    ensures Finished(buf, args + [start], texts + [word], next, end)
    ensures Unsplit(buf, next, end, rest)
  {
    next := stop;
    if '\0' != buf[stop] {
      buf[stop] := '\0';
      next := stop + 1;
    }
    forall k | 0 <= k < |args| ensures Stands(buf, args[k], texts[k]) && args[k] + |texts[k]| < start {
      assert old(Stands(buf, args[k], texts[k]));
      assert buf[args[k]..args[k] + |texts[k]|] == old(buf[args[k]..args[k] + |texts[k]|]);
    }
    assert buf[start..stop] == word && Stands(buf, start, word);
  }

  /** One argument, from `scan` on. */
  method SplitWord(buf: array<char>, scan: nat, ghost end: nat, ghost rest: string,
                   ghost args: seq<nat>, ghost texts: seq<string>)
    returns (next: nat)
    requires Unsplit(buf, scan, end, rest) && WordLen(rest) > 0
    requires Finished(buf, args, texts, scan, end)
    modifies buf
    ensures Finished(buf, args + [scan], texts + [rest[..WordLen(rest)]], next, end)
    ensures Unsplit(buf, next, end, After(rest, WordLen(rest)))
  {
    hide WordLen;
    var stop := WordEnd(buf, scan, end, rest);
    ghost var n := WordLen(rest);
    next := EndWord(buf, scan, stop, end, rest[..n], After(rest, n), args, texts);
  }

  /** Where no argument starts, the text ends. */
  method EndText(buf: array<char>, scan: nat, ghost end: nat, ghost rest: string, args: seq<nat>, ghost texts: seq<string>)
    requires Unsplit(buf, scan, end, rest) && Finished(buf, args, texts, scan, end)
    modifies buf
    ensures Finished(buf, args, texts, end, end)
  {
    buf[scan] := '\0';
    forall k | 0 <= k < |args| ensures Stands(buf, args[k], texts[k]) && args[k] + |texts[k]| <= scan {
      assert old(Stands(buf, args[k], texts[k]));
      assert buf[args[k]..args[k] + |texts[k]|] == old(buf[args[k]..args[k] + |texts[k]|]);
    }
  }

  /** The parsing loop of ece391_execute: arguments from `scan` on, NULs written where they end. */
  method SplitRest(buf: array<char>, scan0: nat, ghost end: nat, ghost rest0: string, args0: seq<nat>, ghost texts0: seq<string>)
    returns (args: seq<nat>)
    requires Unsplit(buf, scan0, end, rest0) && Finished(buf, args0, texts0, scan0, end)
    modifies buf
    ensures Finished(buf, args, texts0 + Tokens(rest0), end, end)
  {
    hide Tokens, WordLen, SkipSpaces, After, Finished;
    var scan := scan0;
    args := args0;
    ghost var rest, texts := rest0, texts0;
    while true
      invariant Unsplit(buf, scan, end, rest) && Finished(buf, args, texts, scan, end)
      invariant texts + Tokens(rest) == texts0 + Tokens(rest0)
      decreases |rest|
    {
      ghost var left;
      ghost var before := scan;
      scan, left := SpacesEnd(buf, scan, end, rest);
      FinishedLater(buf, args, texts, before, scan, end);
      TokensStep(rest, texts);
      if '\0' == buf[scan] || '\n' == buf[scan] {
        EndText(buf, scan, end, left, args, texts);
        return;
      }
      var next := SplitWord(buf, scan, end, left, args, texts);
      args, texts := args + [scan], texts + [left[..WordLen(left)]];
      scan, rest := next, After(left, WordLen(left));
    }
  }

  lemma FinishedLater(buf: array<char>, args: seq<nat>, texts: seq<string>, scan: int, later: int, end: int)
    requires Finished(buf, args, texts, scan, end) && scan <= later <= end
    ensures Finished(buf, args, texts, later, end)
  {}

  lemma TokensStep(s: string, texts: seq<string>)
    ensures |SkipSpaces(s)| <= |s|
    ensures var t := SkipSpaces(s); var n := WordLen(t);
      if t == [] || t[0] == '\n' then texts + Tokens(s) == texts
      else n > 0 && |After(t, n)| < |t| && texts + Tokens(s) == texts + [t[..n]] + Tokens(After(t, n))
  {}

  /** "./" and the command, in the buffer. */
  method Prepare(command: string) returns (buf: array<char>)
    requires |command| <= MAX_COMMAND && NulFree(command)
    ensures fresh(buf) && buf.Length == BUF && buf[0] == '.' && buf[1] == '/'
    ensures Unsplit(buf, 2, 2 + |command|, command)
  {
    buf := new char[BUF];
    buf[0] := '.';
    buf[1] := '/';
    StrCpy(buf, 2, command);
    assert buf[2..2 + |command|] == command;
  }

  lemma NoTokens()
    ensures Tokens([]) == []
  {}

  /** The buffer and argument vector that ece391_execute hands to execv; the vector has room for its NULL. A
      command that is too long fails. */
  method Tokenise(command: string) returns (ok: bool, buf: array<char>, args: seq<nat>)
    requires NulFree(command)
    ensures fresh(buf) && buf.Length == 1026 && (ok <==> |command| <= 1023)
    ensures ok ==> |args| == |Parsed(command)| < 1024
    ensures ok ==> forall k :: 0 <= k < |args| ==> Stands(buf, args[k], Parsed(command)[k])
  {
    hide Tokens, WordLen;
    ok, args := |command| <= MAX_COMMAND, [];
    if !ok {
      buf := new char[BUF];
      return;
    }
    buf := Prepare(command);
    ghost var end, n := 2 + |command|, WordLen(command);
    ghost var program, rest := "./" + command[..n], After(command, n);
    var stop := WordEnd(buf, 2, end, command);
    assert buf[0..stop] == "./" + buf[2..stop];
    var more := '\0' != buf[stop];
    var scan := EndWord(buf, 0, stop, end, program, rest, [], []);
    args := [0];
    assert [] + args == args && [] + [program] == [program];
    if more {
      args := SplitRest(buf, scan, end, rest, args, [program]);
    } else {
      NoTokens();
    }
  }

  // ----- The joiner -----

  /** The first `k` arguments, each with a space after it. */
  function Lead(args: seq<string>, k: nat): string
    requires k <= |args|
  {
    if k == 0 then [] else Lead(args, k - 1) + args[k - 1] + [' ']
  }

  lemma JoinStep(args: seq<string>)
    requires |args| > 1
    ensures Join(args) == args[0] + [' '] + Join(args[1..])
  {}

  lemma Reassociate(a: string, b: string, c: string, d: string)
    ensures a + (b + c + d) == (a + b + c) + d
  {}

  lemma {:induction false} JoinFrom(args: seq<string>, k: nat)
    requires k < |args|
    ensures Join(args) == Lead(args, k) + Join(args[k..])
  {
    hide Join;
    if k == 0 {
      assert args[0..] == args;
    } else {
      JoinFrom(args, k - 1);
      JoinStep(args[k - 1..]);
      assert args[k - 1..][1..] == args[k..];
      Reassociate(Lead(args, k - 1), args[k - 1], [' '], Join(args[k..]));
    }
  }

  method StrCpy(buf: array<char>, at: nat, s: string)
    requires at + |s| < buf.Length
    modifies buf
    ensures forall i :: 0 <= i < buf.Length ==>
      buf[i] == if at <= i < at + |s| then s[i - at] else if i == at + |s| then '\0' else old(buf[i])
  {
    for k := 0 to |s|
      invariant forall i :: 0 <= i < buf.Length ==> buf[i] == if at <= i < at + k then s[i - at] else old(buf[i])
    {
      buf[at + k] := s[k];
    }
    buf[at + |s|] := '\0';
  }

  /** The copy of one argument behind `text`. */
  method Append(buf: array<char>, at: nat, s: string, ghost text: string)
    requires at + |s| < buf.Length && buf[..at] == text
    modifies buf
    ensures buf[..at + |s|] == text + s && buf[at + |s|] == '\0'
    ensures forall i :: at + |s| < i < buf.Length ==> buf[i] == old(buf[i])
  {
    StrCpy(buf, at, s);
    assert buf[..at + |s|] == buf[..at] + buf[at..at + |s|];
    assert buf[..at] == text;
  }

  /** Where argument `k` ends in the joined text. */
  function EndOf(args: seq<string>, k: nat): nat
    requires k < |args|
  {
    |Lead(args, k)| + |args[k]|
  }

  /** An argument that ends exactly with the buffer has its NUL copied behind it. */
  ghost predicate Overruns(args: seq<string>, nbytes: int) {
    exists k: nat :: k < |args| && EndOf(args, k) == nbytes
  }

  lemma {:induction false} EndsGrow(args: seq<string>, j: nat, k: nat)
    requires j < k < |args|
    ensures EndOf(args, j) < EndOf(args, k)
    decreases k
  {
    if j < k - 1 {
      EndsGrow(args, j, k - 1);
    }
  }

  lemma OverrunsAt(args: seq<string>, idx: nat, nbytes: int)
    requires idx < |args| && EndOf(args, idx) >= nbytes
    requires idx > 0 ==> EndOf(args, idx - 1) < nbytes
    ensures Overruns(args, nbytes) <==> EndOf(args, idx) == nbytes
  {
    forall k: nat | k < |args| && k != idx ensures EndOf(args, k) != nbytes {
      if k > idx {
        EndsGrow(args, idx, k);
      } else if k < idx - 1 {
        EndsGrow(args, k, idx - 1);
      }
    }
  }

  lemma NoOverrun(args: seq<string>, nbytes: int)
    requires args != [] ==> EndOf(args, |args| - 1) < nbytes
    ensures !Overruns(args, nbytes)
  {
    forall k: nat | k < |args| ensures EndOf(args, k) != nbytes {
      if k < |args| - 1 {
        EndsGrow(args, k, |args| - 1);
      }
    }
  }

  /** ece391_getargs; `argv` holds argv[1] on. The buffer is written up to its end, and behind it exactly
      when an argument overruns it. */
  method GetArgs(buf: array<char>, nbytes: int, argv: seq<string>) returns (r: int)
    requires nbytes <= buf.Length && (Overruns(argv, nbytes) ==> nbytes < buf.Length)
    modifies buf
    ensures r == if |Join(argv)| < nbytes then 0 else -1
    ensures r == 0 ==> buf[..|Join(argv)|] == Join(argv) && buf[|Join(argv)|] == '\0'
    ensures forall i :: 0 <= i < buf.Length && nbytes <= i ==>
      buf[i] == if i == nbytes && Overruns(argv, nbytes) then '\0' else old(buf[i])
  {
    hide Join, Lead, Overruns;
    var idx, at, left := 0, 0, nbytes;
    LeadNone(argv);
    while idx < |argv|
      invariant 0 <= idx <= |argv| && at + left == nbytes && 0 <= at <= buf.Length
      invariant idx == |argv| ==> argv == []
      invariant idx > 0 ==> EndOf(argv, idx - 1) < nbytes && left >= 0
      invariant if argv == [] then at == 0 else buf[..at] == Lead(argv, idx)
      invariant forall i :: 0 <= i < buf.Length && nbytes <= i ==> buf[i] == old(buf[i])
    {
      var len := |argv[idx]|;
      LeadNext(argv, idx);
      if EndOf(argv, idx) >= nbytes {
        OverrunsAt(argv, idx, nbytes);
      }
      if len > left {
        return -1;
      }
      ghost var text := Lead(argv, idx);
      Append(buf, at, argv[idx], text);
      at := at + len;
      left := left - len;
      idx := idx + 1;
      if idx >= |argv| {
        break;
      }
      if left < 1 {
        return -1;
      }
      buf[at] := ' ';
      at := at + 1;
      left := left - 1;
      assert buf[..at] == text + argv[idx - 1] + [' '];
    }
    if left < 1 {
      if argv == [] {
        NoOverrun(argv, nbytes);
      }
      return -1;
    }
    NoOverrun(argv, nbytes);
    buf[at] := '\0';
    return 0;
  }

  lemma LeadNone(args: seq<string>)
    ensures Lead(args, 0) == []
    ensures args == [] ==> Join(args) == []
  {}

  lemma LeadNext(args: seq<string>, k: nat)
    requires k < |args|
    ensures if k + 1 == |args| then Join(args) == Lead(args, k) + args[k]
            else Lead(args, k + 1) == Lead(args, k) + args[k] + [' '] && |Join(args)| > |Lead(args, k)| + |args[k]|
  {
    JoinFrom(args, k);
    if k + 1 == |args| {
      assert args[k..] == [args[k]];
    } else {
      JoinFrom(args, k + 1);
    }
  }
}
