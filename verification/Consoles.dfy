/** One terminal on its own: its screen, its line buffer, and what keys, output and reads do to them. */
module Consoles {
  import opened Screen
  import opened Keyboard

  const BUFFER := 128

  /** A terminal's display, key_buf, keyb_char_count and enterKeyPressed. */
  datatype Console = Console(display: Display, buf: string, count: int, enter: bool) {
    /** There is room on the screen to erase every character of the line. */
    predicate Valid() {
      display.Valid() && |buf| == BUFFER && 0 <= count <= LINE_LIMIT && count <= display.Pos()
    }
  }

  /** A character that programs print. */
  type Printed = c: char | c != BACKSPACE witness 'a'

  datatype Event =
    | Press(key: Key)
    | Print(c: Printed)
    | Read(nbytes: int)

  lemma PutKeepsRoom(d: Display, c: char)
    requires d.Valid() && (c == BACKSPACE ==> d.Pos() > 0)
    ensures c == BACKSPACE ==> Put(d, c).Pos() == d.Pos() - 1
    ensures c != BACKSPACE ==> Put(d, c).Pos() > d.Pos() || Put(d, c).Pos() == COLS * (ROWS - 1)
  {}

  predicate Echoes(c: Console, key: Key) {
    match key
    case Char(_) => c.count < LINE_LIMIT
    case Backspace => c.count > 0
    case Enter => c.count != 0
    case _ => false
  }

  const BLANK := Cell(' ', ATTRIB)

  function Cleared(cells: seq<Cell>): seq<Cell>
    requires |cells| == PAGE_CELLS
  {
    seq(VISIBLE, _ => BLANK) + cells[VISIBLE..]
  }

  function PressKey(c: Console, key: Key): (r: Console)
    requires c.Valid()
    ensures r.Valid()
  {
    match key
    case Char(ch) =>
      if c.count == LINE_LIMIT then c else
        PutKeepsRoom(c.display, ch);
        Console(Put(c.display, ch), c.buf[c.count := ch], c.count + 1, c.enter)
    case Backspace =>
      if c.count == 0 then c else
        Console(Put(c.display, BACKSPACE), c.buf[c.count := ' '], c.count - 1, c.enter)
    case Enter =>
      if c.count == 0 then c else
        Console(Put(c.display, '\n'), c.buf[c.count := '\n'], c.count, true)
    case ClearScreen =>
      Console(Display(0, 0, Cleared(c.display.cells)), c.buf, 0, c.enter)
    case _ => c
  }

  /** How many characters a read of `nbytes` takes: up to the newline, up to nbytes - 1. */
  function Taken(buf: string, nbytes: int, i: nat := 0): (k: nat)
    requires i <= |buf|
    ensures i <= k <= |buf| && (nbytes > i ==> k < nbytes)
    ensures forall j :: i <= j < k ==> buf[j] != '\n'
    ensures k == i || k < nbytes
    ensures k >= nbytes - 1 || k == |buf| || buf[k] == '\n'
    decreases |buf| - i
  {
    if i >= nbytes - 1 || i == |buf| || buf[i] == '\n' then i
    else Taken(buf, nbytes, i + 1)
  }

  /** What a read puts in the caller's buffer. */
  function Returned(buf: string, nbytes: int): string {
    var k := Taken(buf, nbytes);
    buf[..k] + ['\n'] + if nbytes > k + 1 then seq(nbytes - k - 1, _ => '\0') else []
  }

  /** What a read leaves behind: the characters taken become NUL, the newline a space. */
  function Emptied(buf: string, nbytes: int): (r: string)
    ensures |r| == |buf|
  {
    var k := Taken(buf, nbytes);
    seq(|buf|, i requires 0 <= i < |buf| =>
      if i < k then '\0' else if i == k && k < nbytes - 1 then ' ' else buf[i])
  }

  function PrintChar(c: Console, ch: Printed): (r: Console)
    requires c.Valid()
    ensures r.Valid()
  {
    if ch == '\0' then c else
      PutKeepsRoom(c.display, ch);
      c.(display := Put(c.display, ch))
  }

  // ----- Reads that stay in the buffer -----

  /** The copying loop of a read stops before the end of `buf`. */
  predicate ReadsWithin(buf: string, nbytes: int) {
    nbytes <= |buf| + 1 || '\n' in buf
  }

  /** How many bytes of memory the copying loop of a read looks at. */
  function Touched(memory: string, nbytes: int): nat {
    var k := Taken(memory, nbytes);
    if k < |memory| && k < nbytes - 1 then k + 1 else k
  }

  /** The loop looks at no byte behind key_buf exactly when the read is short or a newline stops it. */
  lemma ReadStaysInBufferIff(buf: string, behind: string, nbytes: int)
    requires |buf| == BUFFER && behind != []
    ensures Touched(buf + behind, nbytes) <= 128 <==> nbytes <= 129 || '\n' in buf
  {
    var memory := buf + behind;
    var k := Taken(memory, nbytes);
    assert forall i :: 0 <= i < BUFFER ==> memory[i] == buf[i];
    if '\n' in buf {
      var i :| 0 <= i < |buf| && buf[i] == '\n';
      assert memory[i] == '\n';
    } else if k < BUFFER {
      assert buf[k] in buf;
    }
  }

  /** Then what lies behind key_buf plays no part; otherwise the whole of key_buf is taken. */
  lemma ReadInMemory(buf: string, behind: string, nbytes: int)
    requires |buf| == BUFFER
    ensures Emptied(buf + behind, nbytes)[..BUFFER] == Emptied(buf, nbytes)
    ensures if ReadsWithin(buf, nbytes)
      then Returned(buf + behind, nbytes) == Returned(buf, nbytes) && Emptied(buf + behind, nbytes)[BUFFER..] == behind
      else Taken(buf + behind, nbytes) >= BUFFER
  {
    var memory := buf + behind;
    assert forall i :: 0 <= i < BUFFER ==> memory[i] == buf[i];
    var k, m := Taken(buf, nbytes), Taken(memory, nbytes);
    if '\n' in buf {
      var i :| 0 <= i < |buf| && buf[i] == '\n';
      assert memory[i] == '\n';
    }
    assert k < BUFFER && k < nbytes - 1 ==> memory[k] == '\n';
    assert m < BUFFER && m < nbytes - 1 ==> buf[m] == '\n';
    assert ReadsWithin(buf, nbytes) ==> m == k && memory[..m] == buf[..k];
    assert Emptied(memory, nbytes)[BUFFER..] == seq(|behind|, i requires 0 <= i < |behind| => Emptied(memory, nbytes)[BUFFER + i]);
  }

  /** A read by a terminal whose Enter flag is set stays in its buffer. */
  predicate Within(c: Console, e: Event) {
    e.Read? && c.enter ==> ReadsWithin(c.buf, e.nbytes)
  }

  /** A pending Enter has left its newline in the buffer. */
  predicate Pending(c: Console) {
    c.enter ==> '\n' in c.buf
  }

  /** No character and no Backspace comes between Enter and the read. */
  predicate Prompt(c: Console, e: Event) {
    c.enter && e.Press? ==> !e.key.Char? && !e.key.Backspace?
  }

  lemma PromptReadsStayWithin(c: Console, e: Event)
    requires c.Valid() && Pending(c) && Prompt(c, e)
    ensures Within(c, e) && Pending(Step(c, e))
  {
    if e == Press(Enter) && c.count != 0 {
      assert PressKey(c, Enter).buf[c.count] == '\n';
    }
  }

  function Step(c: Console, e: Event): (r: Console)
    requires c.Valid() && Within(c, e)
    ensures r.Valid()
  {
    match e
    case Press(key) => PressKey(c, key)
    case Print(ch) => PrintChar(c, ch)
    case Read(n) =>
      if c.enter then Console(c.display, Emptied(c.buf, n), 0, false)
      else c // the reader is still waiting
  }

  predicate RunsWithin(c: Console, es: seq<Event>)
    requires c.Valid()
    decreases |es|
  {
    es == [] || (Within(c, es[0]) && RunsWithin(Step(c, es[0]), es[1..]))
  }

  function Run(c: Console, es: seq<Event>): (r: Console)
    requires c.Valid() && RunsWithin(c, es)
    ensures r.Valid()
    decreases |es|
  {
    if es == [] then c else Run(Step(c, es[0]), es[1..])
  }

  // ----- What a run writes -----

  /** What one event writes on the screen. */
  function Echo(c: Console, e: Event): string {
    match e
    case Press(Char(ch)) => if c.count < LINE_LIMIT then [ch] else []
    case Press(Backspace) => if c.count > 0 then [BACKSPACE] else []
    case Press(Enter) => if c.count > 0 then ['\n'] else []
    case Print(ch) => if ch == '\0' then [] else [ch]
    case _ => []
  }

  function Transcript(c: Console, es: seq<Event>): string
    requires c.Valid() && RunsWithin(c, es)
    decreases |es|
  {
    if es == [] then [] else Echo(c, es[0]) + Transcript(Step(c, es[0]), es[1..])
  }

  lemma StepShowsEcho(c: Console, e: Event)
    requires c.Valid() && Within(c, e) && e != Press(ClearScreen)
    ensures StaysOnPage(c.display, Echo(c, e)) && Step(c, e).display == PutAll(c.display, Echo(c, e))
  {
    hide Put;
    if Echo(c, e) != [] {
      assert Echo(c, e)[1..] == [];
    }
  }

  lemma {:induction false} PutAllAppend(d: Display, s: string, t: string)
    requires d.Valid() && StaysOnPage(d, s) && StaysOnPage(PutAll(d, s), t)
    ensures StaysOnPage(d, s + t) && PutAll(d, s + t) == PutAll(PutAll(d, s), t)
    decreases |s|
  {
    hide Put;
    if s == [] {
      assert s + t == t;
    } else {
      assert (s + t)[1..] == s[1..] + t;
      PutAllAppend(Put(d, s[0]), s[1..], t);
    }
  }

  /** The screen after a run without Ctrl-L is the screen before, with the run's transcript put on it. */
  lemma {:induction false} RunShowsTranscript(c: Console, es: seq<Event>)
    requires c.Valid() && RunsWithin(c, es) && forall e :: e in es ==> e != Press(ClearScreen)
    ensures StaysOnPage(c.display, Transcript(c, es))
    ensures Run(c, es).display == PutAll(c.display, Transcript(c, es))
    decreases |es|
  {
    hide Step, Echo;
    if es != [] {
      assert es[0] in es && forall e :: e in es[1..] ==> e in es;
      StepShowsEcho(c, es[0]);
      RunShowsTranscript(Step(c, es[0]), es[1..]);
      PutAllAppend(c.display, Echo(c, es[0]), Transcript(Step(c, es[0]), es[1..]));
    }
  }

  /** So it is the window onto the sheet on which the transcript was written. */
  lemma RunIsWindow(c: Console, es: seq<Event>, p: Paper, top: nat)
    requires c.Valid() && RunsWithin(c, es) && forall e :: e in es ==> e != Press(ClearScreen)
    requires Shows(c.display, p, top)
    ensures var (q, bottom) := WriteAll(p, top, Transcript(c, es)); Shows(Run(c, es).display, q, bottom)
  {
    RunShowsTranscript(c, es);
    ScreenIsWindow(c.display, p, top, Transcript(c, es));
  }

  /** An accepted Enter takes the cursor to the start of the next row, or of the last row. */
  lemma EnterStartsRow(c: Console)
    requires c.Valid()
    ensures var d := PressKey(c, Enter).display;
      if c.count == 0 then d == c.display
      else d.x == 0 && d.y == if c.display.y == 24 then 24 else c.display.y + 1
  {}

  /** Ctrl-L leaves 25 rows of 80 blanks, the cursor at the top, and an empty line. */
  lemma ClearScreenBlanks(c: Console)
    requires c.Valid()
    ensures var r := PressKey(c, ClearScreen);
      && r.display.x == r.display.y == 0 && r.count == 0 && r.buf == c.buf && r.enter == c.enter
      && forall i :: 0 <= i < 2048 ==>
           r.display.cells[i] == if i < 80 * 25 then Cell(' ', ATTRIB) else c.display.cells[i]
  {}

  // ----- What is shown is what will be read -----

  /** The cells just before the cursor hold exactly the line typed so far. */
  ghost predicate ShowsLine(c: Console)
    requires c.Valid()
  {
    forall i :: 0 <= i < c.count ==> c.display.cells[c.display.Pos() - c.count + i].ch == c.buf[i]
  }

  /** Once Enter is pressed the line belongs to the reader, and the claim lapses until it is read. */
  ghost predicate Faithful(c: Console)
    requires c.Valid()
  {
    c.enter || ShowsLine(c)
  }

  /** Programs print only while no line is being typed. */
  predicate Orderly(c: Console, e: Event) {
    e.Print? ==> c.enter || c.count == 0
  }

  lemma StepKeepsFaithful(c: Console, e: Event)
    requires c.Valid() && Within(c, e) && Faithful(c) && Orderly(c, e)
    ensures Faithful(Step(c, e))
  {}

  // ----- The line discipline -----

  predicate IsEditing(key: Key) {
    key.Char? || key.Backspace? || key.Enter? || key.NoKey?
  }

  /** The front of the buffer is `line`, whatever lies beyond it. */
  ghost predicate Holds(c: Console, line: string)
    requires c.Valid()
  {
    |line| == c.count && c.buf[..c.count] == line && '\n' !in line
  }

  ghost predicate AllEditing(keys: seq<Key>) {
    forall k :: k in keys ==> IsEditing(k)
  }

  /** Only an empty line has been entered: every Enter in `keys` comes when nothing is typed. */
  ghost predicate NotYetEntered(keys: seq<Key>) {
    AllEditing(keys) && forall i :: 0 <= i < |keys| && keys[i].Enter? ==> Spell(keys[..i]) == []
  }

  function Type(c: Console, keys: seq<Key>): (r: Console)
    requires c.Valid()
    ensures r.Valid()
    decreases |keys|
  {
    if keys == [] then c else PressKey(Type(c, keys[..|keys| - 1]), keys[|keys| - 1])
  }

  function Presses(keys: seq<Key>): (es: seq<Event>)
    ensures |es| == |keys|
  {
    seq(|keys|, i requires 0 <= i < |keys| => Press(keys[i]))
  }

  lemma {:induction false} RunAppend(c: Console, es: seq<Event>, e: Event)
    requires c.Valid() && RunsWithin(c, es)
    ensures RunsWithin(c, es + [e]) <==> Within(Run(c, es), e)
    ensures Within(Run(c, es), e) ==> Run(c, es + [e]) == Step(Run(c, es), e)
    decreases |es|
  {
    if es == [] {
      assert ([] + [e])[1..] == [];
      assert Within(c, e) ==> Run(Step(c, e), []) == Step(c, e);
    } else {
      assert (es + [e])[1..] == es[1..] + [e];
      RunAppend(Step(c, es[0]), es[1..], e);
    }
  }

  lemma {:induction false} TypingIsARun(c: Console, keys: seq<Key>)
    requires c.Valid()
    ensures RunsWithin(c, Presses(keys)) && Run(c, Presses(keys)) == Type(c, keys)
    decreases |keys|
  {
    if keys != [] {
      var init, key := keys[..|keys| - 1], keys[|keys| - 1];
      TypingIsARun(c, init);
      assert Presses(keys) == Presses(init) + [Press(key)];
      RunAppend(c, Presses(init), Press(key));
    }
  }

  lemma InitIsEditing(keys: seq<Key>)
    requires keys != [] && AllEditing(keys)
    ensures AllEditing(keys[..|keys| - 1]) && IsEditing(keys[|keys| - 1])
  {
    forall k | k in keys[..|keys| - 1] ensures IsEditing(k) {
      assert k in keys;
    }
  }

  /** Any editing keys, whether or not an Enter is pending, edit the line at the front of the buffer. */
  lemma {:induction false} TypingEdits(c: Console, line: string, keys: seq<Key>)
    requires c.Valid() && Holds(c, line) && AllEditing(keys)
    ensures Holds(Type(c, keys), Spell(keys, line))
    decreases |keys|
  {
    if keys != [] {
      InitIsEditing(keys);
      TypingEdits(c, line, keys[..|keys| - 1]);
    }
  }

  lemma {:induction false} TypingWaits(c: Console, keys: seq<Key>)
    requires c.Valid() && c.count == 0 && !c.enter && NotYetEntered(keys)
    ensures !Type(c, keys).enter
    decreases |keys|
  {
    if keys != [] {
      var init := keys[..|keys| - 1];
      InitIsEditing(keys);
      forall i | 0 <= i < |init| && init[i].Enter? ensures Spell(init[..i]) == [] {
        assert init[..i] == keys[..i];
      }
      TypingWaits(c, init);
      TypingEdits(c, [], init);
    }
  }

  /** Until an Enter is accepted, the front of the buffer is the line that the keys spell. */
  lemma TypingSpells(c: Console, keys: seq<Key>)
    requires c.Valid() && c.count == 0 && !c.enter && NotYetEntered(keys)
    ensures Holds(Type(c, keys), Spell(keys)) && !Type(c, keys).enter
  {
    TypingEdits(c, [], keys);
    TypingWaits(c, keys);
  }

  /** The first newline of the buffer ends the line, so a read takes the line or what fits. */
  lemma TakenIsLine(buf: string, line: string, nbytes: int)
    requires |line| < |buf| && buf[..|line|] == line && buf[|line|] == '\n' && '\n' !in line
    requires nbytes >= 1
    ensures Taken(buf, nbytes) == if |line| < nbytes then |line| else nbytes - 1
  {}

  function Cut(line: string, nbytes: int): string
    requires nbytes >= 1
  {
    if |line| < nbytes then line else line[..nbytes - 1]
  }

  /** What a reader who asks for `nbytes` should get: the line cut to nbytes - 1, one newline, zero fill. */
  function Delivery(line: string, nbytes: int): string
    requires nbytes >= 1
  {
    var cut := Cut(line, nbytes);
    cut + ['\n'] + seq(nbytes - |cut| - 1, _ => '\0')
  }

  /** An accepted Enter ends whatever line is there, and a read then delivers it. */
  lemma EnterDelivers(c: Console, line: string, nbytes: int)
    requires c.Valid() && Holds(c, line) && line != [] && nbytes >= 1
    ensures var e := PressKey(c, Enter);
      && e.enter && Pending(e) && Holds(e, line) && e.buf[|line|] == '\n'
      && Returned(e.buf, nbytes) == Delivery(line, nbytes) && Taken(e.buf, nbytes) == |Cut(line, nbytes)|
  {
    var e := PressKey(c, Enter);
    assert e.buf[|line|] == '\n' && e.buf[..|line|] == line;
    TakenIsLine(e.buf, line, nbytes);
  }

  /** Until Enter a reader waits: its read changes nothing. */
  lemma ReadWaits(c: Console, nbytes: int)
    requires c.Valid() && !c.enter
    ensures Within(c, Read(nbytes)) && Step(c, Read(nbytes)) == c
  {}

  /** A read erases what it has taken: NULs for the characters, a space for the newline it stopped at. */
  lemma ReadErases(c: Console, line: string, nbytes: int)
    requires c.Valid() && c.enter && |line| < BUFFER && c.buf[..|line|] == line && c.buf[|line|] == '\n'
    requires '\n' !in line && nbytes >= 1
    ensures Within(c, Read(nbytes))
    ensures var r := Step(c, Read(nbytes));
      && r.display == c.display && r.count == 0 && !r.enter
      && forall i :: 0 <= i < BUFFER ==>
           r.buf[i] == if i < |Cut(line, nbytes)| then '\0'
                       else if i == |line| < nbytes - 1 then ' ' else c.buf[i]
  {
    TakenIsLine(c.buf, line, nbytes);
  }

  /** A line typed to a waiting reader is what the reader gets, cut to nbytes - 1, with one newline and
      zero fill, whatever the buffer held before. */
  lemma LineDiscipline(c: Console, keys: seq<Key>, nbytes: int)
    requires c.Valid() && c.count == 0 && !c.enter
    requires NotYetEntered(keys) && Spell(keys) != []
    requires nbytes >= 1
    ensures var entered := Type(c, keys + [Enter]);
      && !Type(c, keys).enter && entered.enter
      && Returned(entered.buf, nbytes) == Delivery(Spell(keys), nbytes)
      && Taken(entered.buf, nbytes) == |Cut(Spell(keys), nbytes)|
      && Within(entered, Read(nbytes))
      && Step(entered, Read(nbytes)).count == 0 && !Step(entered, Read(nbytes)).enter
  {
    TypingSpells(c, keys);
    assert (keys + [Enter])[..|keys|] == keys;
    EnterDelivers(Type(c, keys), Spell(keys), nbytes);
  }

  /** The same from scan codes: Shift and Caps Lock choose the table, and codes that press no key leave no
      trace. */
  lemma ScanCodesToLine(c: Console, m: Modifiers, codes: seq<int>, nbytes: int)
    requires c.Valid() && c.count == 0 && !c.enter && nbytes >= 1
    requires NotYetEntered(DecodeAll(m, codes)) && Spell(DecodeAll(m, codes)) != []
    ensures var entered := Type(c, DecodeAll(m, codes + [SCAN_ENTER]));
      entered.enter && Returned(entered.buf, nbytes) == Delivery(Spell(DecodeAll(m, codes)), nbytes)
  {
    DecodeEnter(m, codes);
    LineDiscipline(c, DecodeAll(m, codes), nbytes);
  }

  lemma {:induction false} DecodeEnter(m: Modifiers, codes: seq<int>)
    ensures DecodeAll(m, codes + [SCAN_ENTER]) == DecodeAll(m, codes) + [Enter]
    decreases |codes|
  {
    var all := codes + [SCAN_ENTER];
    if codes != [] {
      assert all[1..] == codes[1..] + [SCAN_ENTER];
      DecodeEnter(Decode(m, codes[0]).0, codes[1..]);
    } else {
      assert all[1..] == [];
    }
  }

  // ----- Keys between Enter and the read -----

  /** Editing goes on after Enter: a second Enter delivers the line as further edited. */
  lemma LateLine(c: Console, line: string, keys: seq<Key>, nbytes: int)
    requires c.Valid() && Holds(c, line) && line != []
    requires AllEditing(keys) && Spell(keys, line) != [] && nbytes >= 1
    ensures var late := Type(PressKey(c, Enter), keys + [Enter]);
      late.enter && Returned(late.buf, nbytes) == Delivery(Spell(keys, line), nbytes)
  {
    var entered := PressKey(c, Enter);
    EnterDelivers(c, line, nbytes);
    TypingEdits(entered, line, keys);
    assert (keys + [Enter])[..|keys|] == keys;
    EnterDelivers(Type(entered, keys), Spell(keys, line), nbytes);
  }

  /** No key of `keys` has changed the line since the last Enter among them, or since before them. */
  predicate Settled(keys: seq<Key>, line: string)
    requires |line| <= LINE_LIMIT
    decreases |keys|
  {
    if keys == [] then true
    else
      var before := Spell(keys[..|keys| - 1], line);
      match keys[|keys| - 1]
      case Enter => before != [] || Settled(keys[..|keys| - 1], line)
      case key => Edit(before, key) == before && Settled(keys[..|keys| - 1], line)
  }

  /** The newline stays where Enter put it exactly while the line has its length and is settled. */
  lemma {:induction false} NewlineStaysIff(c: Console, line: string, keys: seq<Key>)
    requires c.Valid() && Holds(c, line) && line != [] && c.buf[|line|] == '\n' && AllEditing(keys)
    ensures Type(c, keys).buf[|line|] == '\n' <==> |Spell(keys, line)| == |line| && Settled(keys, line)
    decreases |keys|
  {
    if keys != [] {
      var init := keys[..|keys| - 1];
      InitIsEditing(keys);
      NewlineStaysIff(c, line, init);
      TypingEdits(c, line, init);
      var before := Type(c, init);
      assert before.count > |line| ==> before.buf[|line|] == Spell(init, line)[|line|];
    }
  }

  /** Two buffers give a reader the same exactly when they agree up to the newline or the cut. */
  lemma SameReadIff(buf: string, other: string, line: string, nbytes: int)
    requires |buf| == |other| && |line| < |buf|
    requires buf[..|line|] == line && buf[|line|] == '\n' && '\n' !in line
    ensures Returned(other, nbytes) == Returned(buf, nbytes) <==>
            forall i :: 0 <= i <= |line| && i < nbytes - 1 ==> other[i] == buf[i]
  {
    if nbytes >= 1 {
      TakenIsLine(buf, line, nbytes);
      var k, l := Taken(buf, nbytes), Taken(other, nbytes);
      var r, s := Returned(buf, nbytes), Returned(other, nbytes);
      if forall i :: 0 <= i <= |line| && i < nbytes - 1 ==> other[i] == buf[i] {
        assert l == k && other[..l] == buf[..k];
      }
      if s == r {
        assert r[k] == '\n' && s[l] == '\n';
        assert forall i :: 0 <= i < k ==> r[i] == buf[i] != '\n';
        assert forall i :: 0 <= i < l ==> s[i] == other[i] != '\n';
        assert l == k;
        assert forall i :: 0 <= i < k ==> other[i] == s[i] == r[i] == buf[i];
      }
    }
  }

  /** Keys typed after Enter do not change what a read of `nbytes` gives. */
  ghost predicate SparesRead(c: Console, keys: seq<Key>, nbytes: int)
    requires c.Valid()
  {
    var entered := PressKey(c, Enter);
    Returned(Type(entered, keys).buf, nbytes) == Returned(entered.buf, nbytes)
  }

  /** A reader with room for the newline gets the same line in spite of late keys exactly when they spell
      that line again and are followed by Enter. */
  lemma LateKeysShowIff(c: Console, line: string, keys: seq<Key>, nbytes: int)
    requires c.Valid() && Holds(c, line) && line != []
    requires AllEditing(keys) && nbytes > |line| + 1
    ensures SparesRead(c, keys, nbytes) <==> Spell(keys, line) == line && Settled(keys, line)
  {
    var entered := PressKey(c, Enter);
    var late := Type(entered, keys);
    EnterDelivers(c, line, nbytes);
    NewlineStaysIff(entered, line, keys);
    TypingEdits(entered, line, keys);
    SameReadIff(entered.buf, late.buf, line, nbytes);
    if late.buf[|line|] == '\n' && forall i :: 0 <= i <= |line| ==> late.buf[i] == entered.buf[i] {
      assert late.buf[..|line|] == line;
    }
  }

  /** The count after some keys, and the lowest place of the buffer they have written to. */
  function CountAfter(keys: seq<Key>, count: nat): (n: nat)
    requires count <= LINE_LIMIT
    ensures n <= LINE_LIMIT
    decreases |keys|
  {
    if keys == [] then count
    else
      var n := CountAfter(keys[..|keys| - 1], count);
      match keys[|keys| - 1]
      case Char(_) => if n < LINE_LIMIT then n + 1 else n
      case Backspace => if n > 0 then n - 1 else 0
      case ClearScreen => 0
      case _ => n
  }

  /** A key writes at the place of the count, if it is accepted. */
  predicate Writes(key: Key, n: nat) {
    match key
    case Char(_) => n < LINE_LIMIT
    case Backspace => n > 0
    case Enter => n > 0
    case _ => false
  }

  /** What a key writes at the place of the count. */
  function Stroke(key: Key): char {
    match key
    case Char(c) => c
    case Enter => '\n'
    case _ => ' '
  }

  /** What the keys leave at place `i`: what the last of them to write there wrote. */
  function LeftAt(keys: seq<Key>, count: nat, i: nat, before: char): char
    requires count <= LINE_LIMIT
    decreases |keys|
  {
    if keys == [] then before
    else
      var init, key := keys[..|keys| - 1], keys[|keys| - 1];
      if i == CountAfter(init, count) && Writes(key, i) then Stroke(key) else LeftAt(init, count, i, before)
  }

  lemma {:induction false} TypingLeaves(c: Console, keys: seq<Key>, i: nat)
    requires c.Valid() && i < BUFFER
    ensures Type(c, keys).count == CountAfter(keys, c.count)
    ensures Type(c, keys).buf[i] == LeftAt(keys, c.count, i, c.buf[i])
    decreases |keys|
  {
    if keys != [] {
      TypingLeaves(c, keys[..|keys| - 1], i);
    }
  }

  /** Any late keys, Ctrl-L among them, and any reader: the read is the same exactly when the keys leave
      every place up to the newline or the cut as it was. */
  lemma LateKeysIff(c: Console, line: string, keys: seq<Key>, nbytes: int)
    requires c.Valid() && Holds(c, line) && line != []
    ensures SparesRead(c, keys, nbytes) <==>
      forall i :: 0 <= i <= |line| && i < nbytes - 1 ==>
        LeftAt(keys, |line|, i, (line + ['\n'])[i]) == (line + ['\n'])[i]
  {
    var entered := PressKey(c, Enter);
    EnterDelivers(c, line, 1);
    assert forall i :: 0 <= i <= |line| ==> entered.buf[i] == (line + ['\n'])[i];
    forall i | 0 <= i <= |line|
      ensures Type(entered, keys).buf[i] == LeftAt(keys, |line|, i, (line + ['\n'])[i])
    {
      TypingLeaves(entered, keys, i);
    }
    SameReadIff(entered.buf, Type(entered, keys).buf, line, nbytes);
  }

  function LowestWritten(keys: seq<Key>, count: nat): (low: nat)
    requires count <= LINE_LIMIT
    ensures low <= BUFFER
    decreases |keys|
  {
    if keys == [] then BUFFER
    else
      var low, n := LowestWritten(keys[..|keys| - 1], count), CountAfter(keys[..|keys| - 1], count);
      if Writes(keys[|keys| - 1], n) && n < low then n else low
  }

  /** Places below the lowest one written keep their characters. */
  lemma {:induction false} LowPlacesKeep(c: Console, keys: seq<Key>, i: nat)
    requires c.Valid() && i < BUFFER
    ensures Type(c, keys).count == CountAfter(keys, c.count)
    ensures i < LowestWritten(keys, c.count) ==> Type(c, keys).buf[i] == c.buf[i]
    decreases |keys|
  {
    if keys != [] {
      LowPlacesKeep(c, keys[..|keys| - 1], i);
    }
  }

  /** What the lowest place written holds in the end does not depend on what it held before. */
  lemma {:induction false} LowestPlaceForgets(c: Console, d: Console, keys: seq<Key>, i: nat)
    requires c.Valid() && d.Valid() && c.count == d.count && i < BUFFER
    requires c.buf[i] == d.buf[i] || i == LowestWritten(keys, c.count)
    ensures Type(c, keys).count == Type(d, keys).count
    ensures Type(c, keys).buf[i] == Type(d, keys).buf[i]
    decreases |keys|
  {
    hide Put, Taken;
    if keys != [] {
      var init := keys[..|keys| - 1];
      LowPlacesKeep(c, init, i);
      LowPlacesKeep(d, init, i);
      if c.buf[i] == d.buf[i] || i == LowestWritten(init, c.count) {
        LowestPlaceForgets(c, d, init, i);
      }
    }
  }

  /** A console with a line of n times the same character. */
  function Filled(n: nat, ch: Text): (c: Console)
    requires n <= LINE_LIMIT
    ensures c.Valid() && Holds(c, seq(n, _ => ch))
  {
    Console(Display(0, ROWS - 1, seq(PAGE_CELLS, _ => BLANK)), seq(BUFFER, _ => ch), n, false)
  }

  /** A reader too short for the newline is safe from late keys, whatever the line says, exactly when it
      stops short of the lowest place they write to. */
  lemma LateKeysSpareEveryLineIff(keys: seq<Key>, n: nat, nbytes: int)
    requires 1 <= n <= LINE_LIMIT && 1 <= nbytes <= n + 1
    ensures (forall c: Console, line :: c.Valid() && Holds(c, line) && |line| == n ==> SparesRead(c, keys, nbytes)) <==>
            nbytes - 1 <= LowestWritten(keys, n)
  {
    hide Type, Returned, LowestWritten, PressKey, Taken;
    var low := LowestWritten(keys, n);
    if nbytes - 1 <= low {
      forall c: Console, line | c.Valid() && Holds(c, line) && |line| == n ensures SparesRead(c, keys, nbytes) {
        SparedBelow(c, line, keys, nbytes);
      }
    } else {
      var c, d := Filled(n, 'a'), Filled(n, 'b');
      var ce, de := PressKey(c, Enter), PressKey(d, Enter);
      EnterDelivers(c, seq(n, _ => 'a'), nbytes);
      EnterDelivers(d, seq(n, _ => 'b'), nbytes);
      LowestPlaceForgets(ce, de, keys, low);
      SameReadIff(ce.buf, Type(ce, keys).buf, seq(n, _ => 'a'), nbytes);
      SameReadIff(de.buf, Type(de, keys).buf, seq(n, _ => 'b'), nbytes);
      assert !(SparesRead(c, keys, nbytes) && SparesRead(d, keys, nbytes)) by {
        assert ce.buf[low] == 'a' && de.buf[low] == 'b';
      }
    }
  }

  lemma SparedBelow(c: Console, line: string, keys: seq<Key>, nbytes: int)
    requires c.Valid() && Holds(c, line) && line != []
    requires 1 <= nbytes <= |line| + 1 && nbytes - 1 <= LowestWritten(keys, |line|)
    ensures SparesRead(c, keys, nbytes)
  {
    var entered := PressKey(c, Enter);
    EnterDelivers(c, line, nbytes);
    forall i | 0 <= i < nbytes - 1 ensures Type(entered, keys).buf[i] == entered.buf[i] {
      LowPlacesKeep(entered, keys, i);
    }
    SameReadIff(entered.buf, Type(entered, keys).buf, line, nbytes);
  }

  /** One late key: the reader still gets the line it would have got unless the key lands on the newline
      and the reader has room to see it gone. */
  lemma LateKey(c: Console, line: string, key: Key, nbytes: int)
    requires c.Valid() && Holds(c, line) && line != []
    ensures var entered := PressKey(c, Enter);
      Returned(PressKey(entered, key).buf, nbytes) == Returned(entered.buf, nbytes) <==>
      !(nbytes > |line| + 1 && (key.Backspace? || (key.Char? && |line| < LINE_LIMIT)))
  {
    EnterDelivers(c, line, 1);
    SameReadIff(PressKey(c, Enter).buf, PressKey(PressKey(c, Enter), key).buf, line, nbytes);
  }

  /** A character typed between Enter and the read can send the shell's read of 1023 bytes past the end of
      the buffer. */
  lemma LateKeyOverruns(c: Console)
    requires c.Valid() && c.count == 0 && '\n' !in c.buf
    ensures var keys := [Char('a'), Enter, Char('b')];
      Type(c, keys).enter && !ReadsWithin(Type(c, keys).buf, 1023)
    ensures !RunsWithin(c, Presses([Char('a'), Enter, Char('b')]) + [Read(1023)])
  {
    var keys := [Char('a'), Enter, Char('b')];
    assert keys[..2] == [Char('a'), Enter] && keys[..2][..1] == [Char('a')] && keys[..2][..1][..0] == [];
    assert Type(c, keys[..2][..1]) == PressKey(c, Char('a'));
    assert Type(c, keys[..2]) == PressKey(PressKey(c, Char('a')), Enter);
    var late := Type(c, keys);
    forall i | 0 <= i < BUFFER ensures late.buf[i] != '\n' {
      assert c.buf[i] in c.buf;
    }
    TypingIsARun(c, keys);
    RunAppend(c, Presses(keys), Read(1023));
  }
}
