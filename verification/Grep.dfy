/** ece391grep.c: the line search over a sliding buffer, against a search of the whole file. */
module Grep {
  import opened Common
  import opened Lines

  const BUFSIZE := 1024

  ghost predicate OccursAt(pattern: string, line: string, i: nat) {
    i + |pattern| <= |line| && line[i..i + |pattern|] == pattern
  }

  ghost predicate Occurs(pattern: string, line: string) {
    exists i: nat :: OccursAt(pattern, line, i)
  }

  /** What a search reports of one line. */
  ghost function Report(pattern: string, line: string): seq<string> {
    if pattern != [] && Occurs(pattern, line) then [line] else []
  }

  /** The lines that contain a non-empty pattern, in order. */
  ghost function Matching(pattern: string, lines: seq<string>): seq<string> {
    if lines == [] then []
    else Report(pattern, lines[0]) + Matching(pattern, lines[1..])
  }

  /** What the buffer makes of a file: its lines, with a line that fills the buffer taken in pieces. */
  function Pieces(file: string): (pieces: seq<string>)
    decreases |file|
  {
    var i := Find(file, '\n');
    if file == [] then []
    else if i >= BUFSIZE then [file[..BUFSIZE]] + Pieces(file[BUFSIZE..])
    else if i == |file| then [file]
    else [file[..i]] + Pieces(file[i + 1..])
  }

  /** What an uninitialised buffer makes of the rest of a file when a newline happens to stand in its last
      byte, `room` characters on: a line on which the buffer is full is taken to end there. */
  function Torn(rest: string, room: nat): (pieces: seq<string>)
    requires 0 < room <= BUFSIZE
    decreases |rest|
  {
    var i := Find(rest, '\n');
    if rest == [] then []
    else if i < room && i < |rest| then
      [rest[..i]] + Torn(rest[i + 1..], if i + 1 == room then BUFSIZE else room - i - 1)
    else if |rest| <= room then [rest]
    else [rest[..room]] + Pieces(rest[room..])
  }

  /** The pieces that are searched, from a place in the buffer with `room` characters to its last byte. */
  function Searched(stale: bool, rest: string, room: nat): seq<string>
    requires 0 < room <= BUFSIZE
  {
    if stale then Torn(rest, room) else Pieces(rest)
  }

  /** `c` is not among the bytes of `data` from `from` to `end`. */
  ghost predicate Without(data: array<char>, from: int, end: int, c: char)
    requires 0 <= from <= end <= data.Length
    reads data
  {
    forall k :: from <= k < end ==> data[k] != c
  }

  // ----- The program -----

  /** ece391_strncmp(data + at, s, s_len) == 0, for a NUL-terminated line that ends at `end`. */
  method Matches(data: array<char>, at: nat, end: nat, s: string) returns (same: bool)
    requires at < end < data.Length && data[end] == '\0'
    requires s != [] && NulFree(s) && Without(data, at, end, '\0')
    ensures same <==> at + |s| <= end && data[at..at + |s|] == s
  {
    var k := 0;
    while data[at + k] == s[k]
      invariant 0 <= k < |s| && at + k <= end
      invariant data[at..at + k] == s[..k]
      decreases |s| - k
    {
      assert at + k != end;
      assert data[at..at + k + 1] == s[..k + 1];
      if k + 1 == |s| {
        return true;
      }
      k := k + 1;
    }
    if at + |s| <= end {
      assert data[at..at + |s|][k] == data[at + k];
    }
    return false;
  }

  lemma HeadDiffers(pattern: string, line: string, i: nat)
    requires pattern != [] && i < |line| && line[i] != pattern[0]
    ensures !OccursAt(pattern, line, i)
  {}

  /** Search one line; a match is reported once. */
  method SearchLine(data: array<char>, lineStart: nat, lineEnd: nat, s: string) returns (found: bool)
    requires lineStart <= lineEnd < data.Length && data[lineEnd] == '\0'
    requires NulFree(s) && Without(data, lineStart, lineEnd, '\0')
    ensures found <==> s != [] && Occurs(s, data[lineStart..lineEnd])
  {
    ghost var buf, line := data[..], data[lineStart..lineEnd];
    var check := lineStart;
    while check < lineEnd
      invariant lineStart <= check <= lineEnd
      invariant s != [] ==> forall i: nat :: i < check - lineStart ==> !OccursAt(s, line, i)
    {
      ghost var j := check - lineStart;
      assert line[j] == data[check];
      if s != [] && s[0] == data[check] {
        SliceOfSlice(buf, lineStart, lineEnd, j, |line|);
        assert data[check..lineEnd] == line[j..];
        var same := Matches(data, check, lineEnd, s);
        if check + |s| <= lineEnd {
          SliceOfSlice(buf, lineStart, lineEnd, j, j + |s|);
          assert data[check..check + |s|] == line[j..j + |s|];
        }
        if same {
          assert OccursAt(s, line, j);
          return true;
        }
        assert !OccursAt(s, line, j);
      } else if s != [] {
        HeadDiffers(s, line, j);
      }
      check := check + 1;
    }
    return false;
  }

  /** The byte behind the buffer's capacity holds a newline. Nothing but the uninitialised memory puts one
      there. */
  ghost predicate Stale(data: array<char>)
    requires data.Length == BUFSIZE + 1
    reads data
  {
    data[BUFSIZE] == '\n'
  }

  /** ece391_strcpy(data, data + from): the tail of the buffer moves down over itself. */
  method CopyDown(data: array<char>, from: nat, end: nat)
    requires 0 < from <= end < data.Length && data[end] == '\0' && Without(data, from, end, '\0')
    modifies data
    ensures forall k :: 0 <= k < data.Length ==>
      data[k] == if k < end - from then old(data[from + k]) else if k == end - from then '\0' else old(data[k])
  {
    var i := 0;
    while data[from + i] != '\0'
      invariant 0 <= i <= end - from
      invariant forall k :: 0 <= k < data.Length ==> data[k] == if k < i then old(data[from + k]) else old(data[k])
      decreases end - from - i
    {
      data[i] := data[from + i];
      i := i + 1;
    }
    data[i] := '\0';
  }

  /** A read from the file: as much as fits, unless the file ends first. */
  method ReadChunk(file: string, pos: nat, data: array<char>, last: nat, n: nat) returns (cnt: nat)
    requires pos <= |file| && last + n <= data.Length
    modifies data
    ensures cnt == if n <= |file| - pos then n else |file| - pos
    ensures forall k :: 0 <= k < data.Length ==>
      data[k] == if last <= k < last + cnt then file[pos + k - last] else old(data[k])
  {
    cnt := if n <= |file| - pos then n else |file| - pos;
    for i := 0 to cnt
      invariant forall k :: 0 <= k < data.Length ==>
        data[k] == if last <= k < last + i then file[pos + k - last] else old(data[k])
    {
      data[last + i] := file[pos + i];
    }
  }

  /** The part of the file not yet searched: the rest of the buffer, then the rest of the file. */
  ghost function Rest(data: array<char>, from: nat, last: nat, file: string, pos: nat): string
    requires from <= last <= data.Length && pos <= |file|
    reads data
  {
    data[from..last] + file[pos..]
  }

  /** The search of one piece: its line, and what is left after it. */
  lemma PieceStep(rest: string, i: nat, next: string, pattern: string)
    requires i <= |rest| && forall j :: 0 <= j < i ==> rest[j] != '\n'
    requires || (i < BUFSIZE && i < |rest| && rest[i] == '\n' && next == rest[i + 1..])
             || (i == |rest| < BUFSIZE && next == [])
             || (i == BUFSIZE && next == rest[BUFSIZE..])
    ensures Matching(pattern, Pieces(rest)) ==
      Report(pattern, rest[..i]) + Matching(pattern, Pieces(next))
  {
    if rest == [] {
      assert Pieces(next) == [];
      assert pattern != [] ==> !Occurs(pattern, []);
    } else if i < BUFSIZE {
      FindIs(rest, '\n', i);
      assert i < |rest| ==> Pieces(rest)[1..] == Pieces(next);
      assert i == |rest| ==> rest[..i] == rest;
    } else {
      assert Find(rest, '\n') >= BUFSIZE;
      assert Pieces(rest)[1..] == Pieces(next);
    }
  }

  lemma NothingLeft(pattern: string)
    ensures Matching(pattern, Pieces([])) == Matching(pattern, Torn([], BUFSIZE)) == []
  {}

  /** The same with a newline standing `room` characters on. */
  lemma TornStep(rest: string, room: nat, i: nat, pattern: string)
    requires 0 < room <= BUFSIZE && i <= |rest| && forall j :: 0 <= j < i ==> rest[j] != '\n'
    requires (i < room && i < |rest| && rest[i] == '\n') || i == |rest| <= room || i == room
    ensures Matching(pattern, Torn(rest, room)) == Report(pattern, rest[..i]) + Matching(pattern,
      if i < room && i < |rest| then Torn(rest[i + 1..], if i + 1 == room then BUFSIZE else room - i - 1)
      else Pieces(rest[i..]))
  {
    if rest == [] {
      assert pattern != [] ==> !Occurs(pattern, []);
    } else if i < room && i < |rest| {
      FindIs(rest, '\n', i);
      assert Torn(rest, room)[1..] == Torn(rest[i + 1..], if i + 1 == room then BUFSIZE else room - i - 1);
    } else {
      assert Find(rest, '\n') >= i;
      assert rest[..i] == rest || i == room < |rest|;
      assert Torn(rest, room)[1..] == Pieces(rest[i..]);
    }
  }

  lemma NothingSearched(stale: bool, room: nat)
    requires 0 < room <= BUFSIZE
    ensures Searched(stale, [], room) == []
  {}

  lemma SearchStep(stale: bool, rest: string, room: nat, i: nat, pattern: string)
    requires 0 < room <= BUFSIZE && i <= |rest| && forall j :: 0 <= j < i ==> rest[j] != '\n'
    requires (i < room && i < |rest| && rest[i] == '\n') || i == |rest| <= room || (i == room && (stale || i == BUFSIZE))
    ensures Matching(pattern, Searched(stale, rest, room)) == Report(pattern, rest[..i]) + Matching(pattern,
      if i < room && i < |rest| then Searched(stale, rest[i + 1..], if i + 1 == room then BUFSIZE else room - i - 1)
      else Pieces(rest[i..]))
  {
    hide Occurs, Matching, Pieces, Torn;
    if stale {
      TornStep(rest, room, i, pattern);
    } else if i < BUFSIZE {
      assert i == |rest| ==> rest[i..] == [];
      PieceStep(rest, i, if i < |rest| then rest[i + 1..] else [], pattern);
    } else {
      PieceStep(rest, i, rest[BUFSIZE..], pattern);
    }
  }

  /** The same, for a line of the buffer that stops at a newline, at the end of the file, or full. */
  lemma BufferStep(stale: bool, buf: string, from: nat, end: nat, filled: nat, tail: string, pattern: string)
    requires from < BUFSIZE && from <= end <= filled <= BUFSIZE < |buf|
    requires forall j :: from <= j < end ==> buf[j] != '\n'
    requires if end < filled then buf[end] == '\n' else from == 0 || filled < BUFSIZE || stale
    requires filled < BUFSIZE ==> tail == []
    ensures var next := if end + 1 < filled then buf[end + 1..filled] + tail else tail;
      Matching(pattern, Searched(stale, buf[from..filled] + tail, BUFSIZE - from)) ==
      Report(pattern, buf[from..end]) + Matching(pattern,
        Searched(stale && end < BUFSIZE, next, if end + 1 < filled then BUFSIZE - end - 1 else BUFSIZE))
  {
    hide Occurs, Matching, Pieces, Torn;
    var rest, i := buf[from..filled] + tail, end - from;
    assert rest[..i] == buf[from..end];
    forall j | 0 <= j < i ensures rest[j] != '\n' {
      assert rest[j] == buf[from + j];
    }
    SearchStep(stale, rest, BUFSIZE - from, i, pattern);
    NothingSearched(stale, BUFSIZE);
    NothingSearched(false, BUFSIZE);
    if end < filled {
      DropOfConcat(buf, from, filled, tail, i + 1);
      if end + 1 == filled {
        assert buf[filled..filled] + tail == tail;
        if filled < BUFSIZE {
          NothingSearched(stale, BUFSIZE - from - i - 1);
        }
      }
    } else {
      assert rest[i..] == tail;
    }
  }

  /** An incomplete line that is kept is the same wherever it stands in the buffer. */
  lemma KeptLine(stale: bool, rest: string, room: nat)
    requires 0 < room <= BUFSIZE && (stale ==> |rest| < room && forall j :: 0 <= j < |rest| ==> rest[j] != '\n')
    ensures Searched(stale, rest, room) == Searched(stale, rest, BUFSIZE)
  {
    if stale {
      FindIs(rest, '\n', |rest|);
    }
  }

  /** One line of the buffer: find its end, and either keep it for the next read or search it. */
  method NextLine(s: string, cnt: nat, data: array<char>, last: nat, lineStart: nat)
    returns (lineEnd: nat, keep: bool, found: bool)
    requires lineStart <= last <= BUFSIZE && data.Length == BUFSIZE + 1
    requires NulFree(s) && Without(data, lineStart, last, '\0')
    modifies data
    ensures lineStart <= lineEnd <= last && old(Without(data, lineStart, lineEnd, '\n'))
    ensures lineEnd < last ==> old(data[lineEnd]) == '\n'
    ensures keep <==> lineEnd == last && old(data[last]) != '\n' && cnt != 0 && lineStart != 0
    ensures data[..] == old(data[..])[lineEnd := '\0']
    ensures !keep ==>
      Report(s, data[lineStart..lineEnd]) == if found then [data[lineStart..lineEnd]] else []
  {
    lineEnd := lineStart;
    while lineEnd < last && '\n' != data[lineEnd]
      invariant lineStart <= lineEnd <= last && Without(data, lineStart, lineEnd, '\n')
    {
      lineEnd := lineEnd + 1;
    }
    found := false;
    keep := '\n' != data[lineEnd] && cnt != 0 && lineStart != 0;
    ghost var line := data[lineStart..lineEnd];
    data[lineEnd] := '\0';
    assert data[lineStart..lineEnd] == line;
    if !keep {
      found := SearchLine(data, lineStart, lineEnd, s);
    }
  }

  /** The buffer from `lineStart` to `filled` is still to be searched. */
  ghost predicate Pending(data: array<char>, lineStart: nat, filled: nat)
    reads data
  {
    && lineStart <= filled <= BUFSIZE && data.Length == BUFSIZE + 1
    && Without(data, lineStart, filled, '\0')
  }

  /** What remains to be searched from `from` on. */
  ghost function ToSearch(data: array<char>, from: nat, last: nat, file: string, pos: nat): seq<string>
    requires data.Length == BUFSIZE + 1 && from < BUFSIZE && from <= last <= BUFSIZE && pos <= |file|
    reads data
  {
    Searched(Stale(data), Rest(data, from, last, file, pos), BUFSIZE - from)
  }

  /** The incomplete line becomes the front of the buffer. */
  method KeepTail(file: string, ghost pos: nat, data: array<char>, filled: nat, lineStart: nat) returns (last: nat)
    requires Pending(data, lineStart, filled) && 0 < lineStart < filled && data[filled] == '\0' && pos <= |file|
    requires filled < BUFSIZE ==> pos == |file|
    requires Without(data, lineStart, filled, '\n')
    modifies data
    ensures last == filled - lineStart && Without(data, 0, last, '\0')
    ensures Stale(data) ==> old(Stale(data))
    ensures ToSearch(data, 0, last, file, pos) == old(ToSearch(data, lineStart, filled, file, pos))
  {
    hide Searched;
    ghost var rest := Rest(data, lineStart, filled, file, pos);
    KeptLine(Stale(data), rest, BUFSIZE - lineStart);
    CopyDown(data, lineStart, filled);
    last := filled - lineStart;
    assert data[..last] == old(data[lineStart..filled]);
  }

  /** One turn of the inner loop. Either `lineStart` moves past the line just searched, or the buffer is
      done with: empty, or holding an incomplete line moved down to its front. */
  method SearchNext(s: string, file: string, ghost pos: nat, cnt: nat, data: array<char>, filled: nat, lineStart: nat)
    returns (report: seq<string>, next: nat, last: nat)
    requires NulFree(s) && pos <= |file| && Pending(data, lineStart, filled)
    requires lineStart == 0 || lineStart < filled
    requires filled < BUFSIZE ==> pos == |file|
    requires cnt == 0 ==> filled < BUFSIZE
    modifies data
    ensures next != 0 ==> lineStart < next < filled && Pending(data, next, filled)
    ensures next == 0 ==> last < BUFSIZE && Without(data, 0, last, '\0')
    ensures next == 0 && cnt == 0 ==> last == 0
    ensures Stale(data) ==> old(Stale(data))
    ensures Matching(s, old(ToSearch(data, lineStart, filled, file, pos))) ==
      report + Matching(s, ToSearch(data, next, if next == 0 then last else filled, file, pos))
  {
    hide Searched, Matching, Report;
    ghost var buf, stale := data[..], Stale(data);
    var lineEnd, keep, found := NextLine(s, cnt, data, filled, lineStart);
    assert data[lineStart..lineEnd] == buf[lineStart..lineEnd];
    report, next, last := [], 0, 0;
    if keep {
      last := KeepTail(file, pos, data, filled, lineStart);
      return;
    }
    BufferStep(stale, buf, lineStart, lineEnd, filled, file[pos..], s);
    report := if found then [data[lineStart..lineEnd]] else [];
    if lineEnd + 1 < filled {
      next := lineEnd + 1;
      assert data[next..filled] == buf[next..filled];
    } else {
      assert data[..0] + file[pos..] == file[pos..];
    }
  }

  /** The inner loop: every complete line of the buffer is searched. */
  method SearchBuffer(s: string, file: string, ghost pos: nat, cnt: nat, data: array<char>, filled: nat)
    returns (reports: seq<string>, last: nat)
    requires NulFree(s) && pos <= |file| && Pending(data, 0, filled)
    requires filled < BUFSIZE ==> pos == |file|
    requires cnt == 0 ==> filled < BUFSIZE
    modifies data
    ensures last < BUFSIZE && Without(data, 0, last, '\0')
    ensures cnt == 0 ==> last == 0
    ensures Stale(data) ==> old(Stale(data))
    ensures Matching(s, old(ToSearch(data, 0, filled, file, pos))) ==
      reports + Matching(s, ToSearch(data, 0, last, file, pos))
  {
    hide Pieces, Torn, Matching, Occurs;
    var report, lineStart;
    reports, lineStart, last := SearchNext(s, file, pos, cnt, data, filled, 0);
    while lineStart != 0
      invariant lineStart != 0 ==> lineStart < filled && Pending(data, lineStart, filled)
      invariant lineStart == 0 ==> last < BUFSIZE && Without(data, 0, last, '\0')
      invariant lineStart == 0 && cnt == 0 ==> last == 0
      invariant Stale(data) ==> old(Stale(data))
      invariant Matching(s, old(ToSearch(data, 0, filled, file, pos))) == reports
        + Matching(s, ToSearch(data, lineStart, if lineStart == 0 then last else filled, file, pos))
      decreases lineStart != 0, filled - lineStart
    {
      report, lineStart, last := SearchNext(s, file, pos, cnt, data, filled, lineStart);
      reports := reports + report;
    }
  }

  /** Read as much of the file as the buffer has room for. */
  method FillBuffer(file: string, pos: nat, data: array<char>, last: nat) returns (cnt: nat)
    requires NulFree(file) && pos <= |file| && last < BUFSIZE && data.Length == BUFSIZE + 1
    requires Without(data, 0, last, '\0')
    modifies data
    ensures pos + cnt <= |file| && last + cnt <= BUFSIZE && Pending(data, 0, last + cnt)
    ensures cnt == 0 || last + cnt < BUFSIZE ==> pos + cnt == |file|
    ensures data[BUFSIZE] == old(data[BUFSIZE])
    ensures Rest(data, 0, last + cnt, file, pos + cnt) == old(Rest(data, 0, last, file, pos))
  {
    cnt := ReadChunk(file, pos, data, last, BUFSIZE - last);
    assert data[..last] == old(data[..last]);
  }

  /** do_one_file, on the contents of an opened file and a buffer that holds anything. */
  method DoOneFile(s: string, file: string, data: array<char>) returns (reports: seq<string>)
    requires NulFree(s) && NulFree(file)
    requires data.Length == BUFSIZE + 1
    modifies data
    ensures reports == Matching(s, if old(Stale(data)) then Torn(file, BUFSIZE) else Pieces(file))
    ensures Stale(data) ==> old(Stale(data))
  {
    hide Pieces, Torn, Matching, Occurs;
    reports := [];
    var last: nat, pos: nat := 0, 0;
    ghost var wanted := Searched(Stale(data), file, BUFSIZE);
    assert data[..0] + file[0..] == file;
    while true
      invariant last < BUFSIZE && pos <= |file| && Without(data, 0, last, '\0')
      invariant Stale(data) ==> old(Stale(data))
      invariant Matching(s, wanted) == reports + Matching(s, ToSearch(data, 0, last, file, pos))
      decreases |file| - pos
    {
      var cnt := FillBuffer(file, pos, data, last);
      var found;
      found, last := SearchBuffer(s, file, pos + cnt, cnt, data, last + cnt);
      reports := reports + found;
      pos := pos + cnt;
      if cnt == 0 {
        break;
      }
    }
    assert data[..0] + file[pos..] == [];
    NothingLeft(s);
  }

  // ----- The whole file at once -----

  lemma MatchingCons(pattern: string, line: string, rest: seq<string>)
    ensures Matching(pattern, [line] + rest) == Report(pattern, line) + Matching(pattern, rest)
  {
    assert ([line] + rest)[1..] == rest;
  }

  lemma LineStep(pattern: string, file: string, i: nat)
    requires i < |file| && i <= BUFSIZE && file[i] == '\n' && forall j :: 0 <= j < i ==> file[j] != '\n'
    ensures Matching(pattern, Pieces(file)) == Report(pattern, file[..i]) + Matching(pattern, Pieces(file[i + 1..]))
  {
    hide Matching, Pieces, Occurs;
    if i < BUFSIZE {
      PieceStep(file, i, file[i + 1..], pattern);
    } else {
      PieceStep(file, i, file[i..], pattern);
      NewlineAlone(pattern, file[i..]);
      assert file[i..][1..] == file[i + 1..];
    }
  }

  lemma {:induction false} PiecesFindTheLines(pattern: string, file: string)
    requires forall line :: line in Split(file) ==> |line| <= BUFSIZE
    ensures Matching(pattern, Pieces(file)) == Matching(pattern, Split(file))
    decreases |file|
  {
    hide Matching, Pieces, Occurs;
    var i := Find(file, '\n');
    assert Split(file)[0] == file[..i];
    if i < |file| {
      var rest := file[i + 1..];
      MatchingCons(pattern, file[..i], Split(rest));
      PiecesFindTheLines(pattern, rest);
      LineStep(pattern, file, i);
    } else {
      MatchingCons(pattern, file, []);
      MatchingNone(pattern);
      NothingLeft(pattern);
      assert file[..i] == file && [file] + [] == Split(file);
      PieceStep(file, i, [], pattern);
    }
  }

  lemma MatchingNone(pattern: string)
    ensures Matching(pattern, []) == []
  {}

  /** The newline after a line that fills the buffer reports nothing. */
  lemma NewlineAlone(pattern: string, rest: string)
    requires rest != [] && rest[0] == '\n'
    ensures Matching(pattern, Pieces(rest)) == Matching(pattern, Pieces(rest[1..]))
  {
    PieceStep(rest, 0, rest[1..], pattern);
    assert pattern != [] ==> !Occurs(pattern, []);
  }

  /** No piece is longer than the buffer or holds a newline. */
  lemma {:induction false} PiecesFit(file: string)
    ensures forall i :: 0 <= i < |Pieces(file)| ==> '\n' !in Pieces(file)[i]
    ensures forall piece :: piece in Pieces(file) ==> |piece| <= BUFSIZE
    decreases |file|
  {
    var i := Find(file, '\n');
    if i >= BUFSIZE {
      PiecesFit(file[BUFSIZE..]);
    } else if i < |file| {
      PiecesFit(file[i + 1..]);
    }
  }

  function Flat(pieces: seq<string>): string {
    if pieces == [] then [] else pieces[0] + Flat(pieces[1..])
  }

  function NoNewlines(s: string): string {
    if s == [] then [] else (if s[0] == '\n' then [] else [s[0]]) + NoNewlines(s[1..])
  }

  lemma {:induction false} NoNewlinesAfter(s: string, i: nat)
    requires i <= |s| && forall j :: 0 <= j < i ==> s[j] != '\n'
    ensures NoNewlines(s) == s[..i] + NoNewlines(s[i..])
    decreases i
  {
    if i > 0 {
      NoNewlinesAfter(s[1..], i - 1);
      assert s[1..][i - 1..] == s[i..] && [s[0]] + s[1..][..i - 1] == s[..i];
    } else {
      assert s[0..] == s;
    }
  }

  lemma FlatCons(piece: string, pieces: seq<string>)
    ensures Flat([piece] + pieces) == piece + Flat(pieces)
  {
    assert ([piece] + pieces)[1..] == pieces;
  }

  lemma NoNewlinesCut(s: string, i: nat)
    requires i < |s| && s[i] == '\n' && forall j :: 0 <= j < i ==> s[j] != '\n'
    ensures NoNewlines(s) == s[..i] + NoNewlines(s[i + 1..])
  {
    NoNewlinesAfter(s, i);
    assert s[i..][1..] == s[i + 1..];
    assert NoNewlines(s[i..]) == NoNewlines(s[i + 1..]);
  }

  lemma OnePiece(s: string)
    requires forall j :: 0 <= j < |s| ==> s[j] != '\n'
    ensures NoNewlines(s) == s == Flat([s]) && Flat([]) == [] && NoNewlines([]) == []
  {
    NoNewlinesAfter(s, |s|);
    assert s[|s|..] == [] && s[..|s|] == s;
  }

  /** The pieces hold every character of the file but its newlines, in order. */
  lemma {:induction false} PiecesCover(file: string)
    ensures Flat(Pieces(file)) == NoNewlines(file)
    decreases |file|
  {
    hide Flat, NoNewlines;
    var i := Find(file, '\n');
    if i >= BUFSIZE {
      NoNewlinesAfter(file, BUFSIZE);
      PiecesCover(file[BUFSIZE..]);
      FlatCons(file[..BUFSIZE], Pieces(file[BUFSIZE..]));
    } else if i == |file| {
      OnePiece(file);
    } else {
      NoNewlinesCut(file, i);
      PiecesCover(file[i + 1..]);
      FlatCons(file[..i], Pieces(file[i + 1..]));
    }
  }

  /** So do they with a newline in the last byte of the buffer. */
  lemma {:induction false} TornCovers(rest: string, room: nat)
    requires 0 < room <= BUFSIZE
    ensures Flat(Torn(rest, room)) == NoNewlines(rest)
    decreases |rest|
  {
    hide Flat, NoNewlines, Pieces;
    var i := Find(rest, '\n');
    if i < room && i < |rest| {
      var left := if i + 1 == room then BUFSIZE else room - i - 1;
      NoNewlinesCut(rest, i);
      TornCovers(rest[i + 1..], left);
      FlatCons(rest[..i], Torn(rest[i + 1..], left));
    } else if |rest| <= room {
      OnePiece(rest);
    } else {
      NoNewlinesAfter(rest, room);
      PiecesCover(rest[room..]);
      FlatCons(rest[..room], Pieces(rest[room..]));
    }
  }

  lemma {:induction false} MatchingIsFilter(pattern: string, lines: seq<string>)
    ensures forall line :: line in Matching(pattern, lines) <==>
      line in lines && pattern != [] && Occurs(pattern, line)
    decreases |lines|
  {
    if lines != [] {
      MatchingIsFilter(pattern, lines[1..]);
      assert lines == [lines[0]] + lines[1..];
    }
  }

  /** A pattern occurs in a line when the line is some text, the pattern, and some text. */
  lemma OccursIff(pattern: string, line: string)
    ensures Occurs(pattern, line) <==> exists a: string, b: string :: line == a + pattern + b
  {
    if Occurs(pattern, line) {
      var i: nat :| OccursAt(pattern, line, i);
      assert line == line[..i] + pattern + line[i + |pattern|..];
    }
    forall a: string, b: string | line == a + pattern + b ensures Occurs(pattern, line) {
      assert OccursAt(pattern, line, |a|);
    }
  }

  ghost predicate Selected(pattern: string, line: string) {
    pattern != [] && Occurs(pattern, line)
  }

  /** The places of the lines to report. */
  ghost function Places(pattern: string, lines: seq<string>): (at: seq<nat>)
    ensures forall j :: 0 <= j < |at| ==> at[j] < |lines| && Selected(pattern, lines[at[j]])
    ensures forall j, k :: 0 <= j < k < |at| ==> at[j] < at[k]
    ensures forall i: nat :: i < |lines| && Selected(pattern, lines[i]) ==> i in at
    decreases |lines|
  {
    if lines == [] then []
    else
      var n := |lines| - 1;
      Places(pattern, lines[..n]) + if Selected(pattern, lines[n]) then [n] else []
  }

  lemma {:induction false} MatchingLast(pattern: string, lines: seq<string>, line: string)
    ensures Matching(pattern, lines + [line]) == Matching(pattern, lines) + Report(pattern, line)
    decreases |lines|
  {
    hide Occurs;
    if lines == [] {
      assert (lines + [line])[1..] == [];
    } else {
      assert (lines + [line])[1..] == lines[1..] + [line];
      MatchingLast(pattern, lines[1..], line);
    }
  }

  /** The reports are the selected lines by their places: each once, in order, and no other. */
  lemma {:induction false} MatchingByPlace(pattern: string, lines: seq<string>)
    ensures |Matching(pattern, lines)| == |Places(pattern, lines)|
    ensures forall j :: 0 <= j < |Places(pattern, lines)| ==>
      Matching(pattern, lines)[j] == lines[Places(pattern, lines)[j]]
    decreases |lines|
  {
    hide Occurs, Matching;
    if lines != [] {
      var init, last := lines[..|lines| - 1], lines[|lines| - 1];
      assert lines == init + [last];
      MatchingByPlace(pattern, init);
      MatchingLast(pattern, init, last);
    } else {
      MatchingNone(pattern);
    }
  }

  /** For a file whose lines all fit the buffer, the program's reports are the selected lines of the file. */
  lemma PiecesReportByPlace(pattern: string, file: string) returns (at: seq<nat>)
    requires forall line :: line in Split(file) ==> |line| <= BUFSIZE
    ensures var reports, lines := Matching(pattern, Pieces(file)), Split(file);
      && |at| == |reports|
      && (forall j, k :: 0 <= j < k < |at| ==> at[j] < at[k])
      && (forall j :: 0 <= j < |at| ==> at[j] < |lines| && reports[j] == lines[at[j]])
      && (forall i: nat :: i < |lines| ==>
            (i in at <==> pattern != [] && exists a: string, b: string :: lines[i] == a + pattern + b))
  {
    hide Occurs, Matching, Pieces, Split;
    PiecesFindTheLines(pattern, file);
    MatchingByPlace(pattern, Split(file));
    at := Places(pattern, Split(file));
    forall i: nat | i < |Split(file)|
      ensures Occurs(pattern, Split(file)[i]) <==> exists a: string, b: string :: Split(file)[i] == a + pattern + b
    {
      OccursIff(pattern, Split(file)[i]);
    }
  }

  /** A line longer than the buffer is never reported whole. */
  lemma LongLineIsLost(file: string, line: string)
    requires line in Split(file) && |line| > BUFSIZE
    ensures Matching(line[..1], Pieces(file)) != Matching(line[..1], Split(file))
  {
    var pattern := line[..1];
    assert OccursAt(pattern, line, 0);
    MatchingIsFilter(pattern, Split(file));
    MatchingIsFilter(pattern, Pieces(file));
    PiecesFit(file);
    assert line in Matching(pattern, Split(file)) && line !in Matching(pattern, Pieces(file));
  }

  /** Searching through the buffer finds exactly the lines of the file that contain the pattern, in
      order and once each, for every pattern, if and only if no line is longer than the buffer. */
  lemma BufferedIsNaiveIff(file: string)
    ensures (forall pattern :: Matching(pattern, Pieces(file)) == Matching(pattern, Split(file))) <==>
            (forall line :: line in Split(file) ==> |line| <= BUFSIZE)
  {
    if forall line :: line in Split(file) ==> |line| <= BUFSIZE {
      forall pattern ensures Matching(pattern, Pieces(file)) == Matching(pattern, Split(file)) {
        PiecesFindTheLines(pattern, file);
      }
    } else {
      var line :| line in Split(file) && |line| > BUFSIZE;
      LongLineIsLost(file, line);
    }
  }

  // ----- A newline left in the buffer -----

  /** A full buffer, not all one line, ends inside a line before any other full buffer has ended inside a
      line. */
  predicate Tears(rest: string, room: nat)
    requires 0 < room <= BUFSIZE
    decreases |rest|
  {
    var i := Find(rest, '\n');
    if i < room && i < |rest| then Tears(rest[i + 1..], if i + 1 == room then BUFSIZE else room - i - 1)
    else room < BUFSIZE && room < i
  }

  lemma {:induction false} TornIsWhole(rest: string, room: nat, pattern: string)
    requires 0 < room <= BUFSIZE && !Tears(rest, room)
    ensures Matching(pattern, Torn(rest, room)) == Matching(pattern, Pieces(rest))
    decreases |rest|
  {
    hide Matching, Occurs, Pieces, Torn;
    var i := Find(rest, '\n');
    if i < room && i < |rest| {
      var left := if i + 1 == room then BUFSIZE else room - i - 1;
      TornStep(rest, room, i, pattern);
      PieceStep(rest, i, rest[i + 1..], pattern);
      TornIsWhole(rest[i + 1..], left, pattern);
    } else if i < BUFSIZE {
      TornStep(rest, room, i, pattern);
      if i < |rest| {
        PieceStep(rest, i, rest[i + 1..], pattern);
        NewlineAlone(pattern, rest[i..]);
        assert rest[i..][1..] == rest[i + 1..];
      } else {
        assert rest[i..] == [];
        PieceStep(rest, i, [], pattern);
      }
    } else {
      TornStep(rest, BUFSIZE, BUFSIZE, pattern);
      PieceStep(rest, BUFSIZE, rest[BUFSIZE..], pattern);
    }
  }

  lemma {:induction false} TornDiffers(rest: string, room: nat) returns (pattern: string)
    requires 0 < room <= BUFSIZE && Tears(rest, room)
    ensures Matching(pattern, Torn(rest, room)) != Matching(pattern, Pieces(rest))
    decreases |rest|
  {
    hide Matching, Pieces, Torn;
    var i := Find(rest, '\n');
    if i < room && i < |rest| {
      pattern := TornDiffers(rest[i + 1..], if i + 1 == room then BUFSIZE else room - i - 1);
      TornStep(rest, room, i, pattern);
      PieceStep(rest, i, rest[i + 1..], pattern);
      var report, torn := Report(pattern, rest[..i]), Matching(pattern, Torn(rest, room));
      assert torn[|report|..] != Matching(pattern, Pieces(rest))[|report|..];
    } else {
      pattern := rest[room - 1..room];
      var j := if i < BUFSIZE then i else BUFSIZE;
      assert OccursAt(pattern, rest[..room], room - 1) && OccursAt(pattern, rest[..j], room - 1);
      assert Report(pattern, rest[..room]) == [rest[..room]] && Report(pattern, rest[..j]) == [rest[..j]];
      TornStep(rest, room, room, pattern);
      PieceStep(rest, j, if j == BUFSIZE then rest[j..] else if j < |rest| then rest[j + 1..] else [], pattern);
      assert Matching(pattern, Torn(rest, room))[0] == rest[..room];
      assert Matching(pattern, Pieces(rest))[0] == rest[..j];
    }
  }

  /** A newline in the uninitialised last byte of the buffer changes what some search reports exactly when a
      full buffer ends inside a line. */
  lemma StaleNewlineHarmlessIff(file: string)
    ensures (forall pattern :: Matching(pattern, Torn(file, BUFSIZE)) == Matching(pattern, Pieces(file))) <==>
            !Tears(file, BUFSIZE)
  {
    if Tears(file, BUFSIZE) {
      var pattern := TornDiffers(file, BUFSIZE);
    } else {
      forall pattern ensures Matching(pattern, Torn(file, BUFSIZE)) == Matching(pattern, Pieces(file)) {
        TornIsWhole(file, BUFSIZE, pattern);
      }
    }
  }

  /** A line that starts on the last byte of a full buffer. */
  lemma StaleNewlineShows()
    ensures Tears(seq(1022, _ => 'a') + "\n" + "bc", BUFSIZE)
  {
    var file := seq(1022, _ => 'a') + "\n" + "bc";
    FindIs(file, '\n', 1022);
    assert file[1023..] == "bc";
    FindIs("bc", '\n', 2);
  }
}
