/** The live globals of lib.c, keyboard.c and terminal.c, updated in place. Each method is proved to be
    one step of the Demultiplexer's kernel. */
module Terminals {
  import opened Common
  import opened Screen
  import opened Keyboard
  import opened Consoles
  import D = Demultiplexer

  /** memcpy of `n` cells between two buffers. */
  method MemCopy(dst: array<Cell>, to: nat, src: array<Cell>, from: nat, n: nat)
    requires dst != src && to + n <= dst.Length && from + n <= src.Length
    modifies dst
    ensures forall i :: 0 <= i < dst.Length ==>
      dst[i] == if to <= i < to + n then src[i - to + from] else old(dst[i])
  {
    for k := 0 to n
      invariant forall i :: 0 <= i < dst.Length ==>
        dst[i] == if to <= i < to + k then src[i - to + from] else old(dst[i])
    {
      dst[to + k] := src[from + k];
    }
  }

  method ClearPage(page: array<Cell>, at: nat)
    requires at + VISIBLE <= page.Length
    modifies page
    ensures forall i :: 0 <= i < page.Length ==>
      page[i] == if at <= i < at + VISIBLE then BLANK else old(page[i])
  {
    for k := 0 to VISIBLE
      invariant forall i :: 0 <= i < page.Length ==>
        page[i] == if at <= i < at + k then BLANK else old(page[i])
    {
      page[at + k] := Cell(' ', ATTRIB);
    }
  }

  /** terminal_t, a struct held by value in terminals[]. */
  datatype Terminal = Terminal(cursorX: int, cursorY: int, enterKeyPressed: bool, charCount: int, keyBuf: string)

  class Driver {
    const video: array<Cell>              // page 0xB8
    const backing: array<Cell>            // pages 0xB9 to 0xBB, one after the other
    const keyBuf: array<char>             // key_buf, and the memory behind it
    const terminals: array<Terminal>
    var viewTerm: Tid
    var screenX: int
    var screenY: int
    var charCount: int
    var enterKeyPressed: bool
    var mapped: int
    var running: Tid
    var mods: Modifiers

    /** init_terms: three empty records whose line buffers hold whatever was in memory. The cursor stands
        wherever the boot messages left it, and 0xB8000 is mapped to itself. */
    constructor (video: array<Cell>, backing: array<Cell>, x: int, y: int, memory: string)
      requires video != backing && video.Length == PAGE_CELLS && backing.Length == 3 * PAGE_CELLS
      requires 0 <= x < COLS && 0 <= y < ROWS && |memory| >= BUFFER
      ensures Shaped() && Valid() && fresh(keyBuf) && fresh(terminals)
      ensures this.video == video && this.backing == backing
      ensures keyBuf[..] == memory
      ensures viewTerm == 0 && State().mapped == 0 && D.AllFaithful(State()) && D.AllPending(State())
    {
      this.video, this.backing := video, backing;
      screenX, screenY, enterKeyPressed, mapped, running := x, y, false, 0, 0;
      mods := Modifiers(false, false, false, false);
      terminals := new Terminal[3](_ => Terminal(0, 0, false, 0, if |memory| >= BUFFER then memory[..BUFFER] else []));
      keyBuf := new char[|memory|](i requires 0 <= i < |memory| => memory[i]);
      charCount := 0;
      viewTerm := 0;
    }

    ghost predicate Shaped() {
      && video != backing
      && video.Length == PAGE_CELLS && backing.Length == 3 * PAGE_CELLS
      && keyBuf.Length >= BUFFER && terminals.Length == 3
    }

    ghost function Shown(): Display
      reads this, video
    {
      Display(screenX, screenY, video[..])
    }

    ghost function Live(): Console
      requires Shaped()
      reads this, video, keyBuf
    {
      Console(Shown(), keyBuf[..BUFFER], charCount, enterKeyPressed)
    }

    ghost function Page(t: Tid): seq<Cell>
      requires Shaped()
      reads backing
    {
      backing[PAGE_CELLS * t..PAGE_CELLS * (t + 1)]
    }

    ghost function Saved(t: Tid): Console
      requires Shaped()
      reads terminals, backing
    {
      var r := terminals[t];
      Console(Display(r.cursorX, r.cursorY, Page(t)),
              r.keyBuf, r.charCount, r.enterKeyPressed)
    }

    ghost function Records(): (r: seq<Console>)
      requires Shaped()
      reads terminals, backing
      ensures |r| == 3 && forall t: Tid :: r[t] == Saved(t)
    {
      [Saved(0), Saved(1), Saved(2)]
    }

    ghost function State(): (k: D.Kernel)
      requires Shaped()
      reads this, video, keyBuf, terminals, backing
    {
      D.Kernel(viewTerm, Live(), Records(), running, mapped)
    }

    lemma RecordsAre(records: seq<Console>)
      requires Shaped() && |records| == 3
      requires forall t: Tid :: Saved(t) == records[t]
      ensures Records() == records
    {}

    ghost predicate Valid()
      requires Shaped()
      reads this, video, keyBuf, terminals, backing
    {
      State().Valid()
    }

    /** update_video_memory_paging */
    method MapVideo(tid: Tid)
      modifies this`mapped
      ensures mapped == if viewTerm == tid then 0 else tid + 1
    {
      mapped := if viewTerm == tid then 0 else tid + 1;
    }

    /** The writing half of putc. */
    method Emit(c: char)
      requires Shown().Valid() && (c == BACKSPACE ==> Shown().Pos() > 0)
      modifies this`screenX, this`screenY, video
      ensures Shown() == Written(old(Shown()), c)
    {
      if c == BACKSPACE {
        video[COLS * screenY + screenX - 1] := Cell(' ', ATTRIB);
        if screenX == 0 {
          screenX := COLS - 1;
          screenY := screenY - 1;
        } else {
          screenX := screenX - 1;
        }
      } else if c == '\n' || c == '\r' {
        screenY := screenY + 1;
        screenX := 0;
      } else {
        video[COLS * screenY + screenX] := Cell(c, ATTRIB);
        screenX := screenX + 1;
        screenX := screenX % COLS;
        if screenX == 0 {
          screenY := screenY + 1;
        }
      }
    }

    method Putc(c: char)
      requires Shaped() && Valid()
      requires c == BACKSPACE ==> Live().display.Pos() > charCount
      modifies this`screenX, this`screenY, this`mapped, video
      ensures Valid()
      ensures State() == old(State()).(live := old(Live()).(display := Put(old(Shown()), c)), mapped := 0)
    {
      hide Written;
      PutKeepsRoom(Shown(), c);
      MapVideo(viewTerm);
      Emit(c);
      if screenY == ROWS {
        screenY := screenY - 1;
        screenX := 0;
        ScrollUp(video);
      }
      MapVideo(viewTerm);
      assert Shown() == Put(old(Shown()), c);
    }

    /** terminal_write: every character but NUL goes to the screen. */
    method TerminalWrite(text: seq<Printed>)
      requires Shaped() && Valid()
      modifies this`screenX, this`screenY, this`mapped, video
      ensures Valid()
      ensures D.StaysWithin(old(State()), D.Prints(text))
      ensures State() == D.ActAll(old(State()), D.Prints(text))
      ensures StaysOnPage(old(Shown()), D.Visible(text)) && Shown() == PutAll(old(Shown()), D.Visible(text))
    {
      D.OutputIsShown(State(), text);
      D.PrintsStayWithin(State(), text);
      for i := 0 to |text|
        invariant Valid()
        invariant D.StaysWithin(State(), D.Prints(text[i..]))
        invariant D.ActAll(old(State()), D.Prints(text)) == D.ActAll(State(), D.Prints(text[i..]))
      {
        assert text[i..][1..] == text[i + 1..];
        if text[i] != '\0' {
          Putc(text[i]);
        }
      }
    }

    /** Clears the page behind 0xB8000, whichever it is. */
    method Clear()
      requires Shaped() && Valid()
      requires charCount == 0
      modifies this`screenX, this`screenY, video, backing
      ensures State() == D.ClearMapped(old(State()))
      ensures Valid()
    {
      hide Put;
      ghost var k := State();
      if mapped == 0 {
        ClearPage(video, 0);
        assert video[..] == Cleared(old(video[..]));
      } else {
        ghost var t: Tid := mapped - 1;
        ClearPage(backing, PAGE_CELLS * (mapped - 1));
        assert Page(t) == Cleared(old(Page(t)));
        assert forall u: Tid :: u != t ==> Page(u) == old(Page(u));
      }
      screenX := 0;
      screenY := 0;
      RecordsAre(D.ClearMapped(k).saved);
    }

    /** Exchange the live line, count, cursor and Enter flag for the target's. */
    method SwapRecords(target: Tid)
      requires Shaped() && target != viewTerm && |terminals[target].keyBuf| == BUFFER
      modifies this`charCount, this`enterKeyPressed, keyBuf, terminals
      ensures forall t: Tid :: terminals[t] == if t != viewTerm then old(terminals[t])
        else Terminal(screenX, screenY, old(enterKeyPressed), old(charCount), old(keyBuf[..BUFFER]))
      ensures keyBuf[..BUFFER] == old(terminals[target].keyBuf)
      ensures charCount == old(terminals[target].charCount)
      ensures enterKeyPressed == old(terminals[target].enterKeyPressed)
    {
      terminals[viewTerm] := terminals[viewTerm].(cursorX := screenX, cursorY := screenY);
      terminals[viewTerm] := terminals[viewTerm].(keyBuf := keyBuf[..BUFFER]);
      forall i | 0 <= i < BUFFER {
        keyBuf[i] := terminals[target].keyBuf[i];
      }
      terminals[viewTerm] := terminals[viewTerm].(charCount := charCount);
      charCount := terminals[target].charCount;
      terminals[viewTerm] := terminals[viewTerm].(enterKeyPressed := enterKeyPressed);
      enterKeyPressed := terminals[target].enterKeyPressed;
    }

    /** Exchange the video page for the target's backing page. */
    method SwapPages(target: Tid)
      requires Shaped() && target != viewTerm
      modifies video, backing
      ensures video[..] == old(Page(target))
      ensures forall t: Tid :: Page(t) == if t == viewTerm then old(video[..]) else old(Page(t))
    {
      MemCopy(backing, PAGE_CELLS * viewTerm, video, 0, PAGE_CELLS);
      assert Page(viewTerm) == old(video[..]);
      assert forall t: Tid :: t != viewTerm ==> Page(t) == old(Page(t));
      MemCopy(video, 0, backing, PAGE_CELLS * target, PAGE_CELLS);
    }

    /** Everything terminal_switch copies, before the cursor is loaded. */
    method Exchange(target: Tid)
      requires Shaped() && target != viewTerm && |terminals[target].keyBuf| == BUFFER
      modifies this`charCount, this`enterKeyPressed, video, backing, keyBuf, terminals
      ensures Records() == old(Records())[viewTerm := old(Live())]
      ensures Live() == old(Saved(target)).(display := old(Saved(target)).display.(x := screenX, y := screenY))
    {
      ghost var records := Records()[viewTerm := Live()];
      SwapRecords(target);
      SwapPages(target);
      RecordsAre(records);
    }

    method TerminalSwitch(target: Tid)
      requires Shaped() && Valid()
      modifies this`viewTerm, this`screenX, this`screenY, this`charCount, this`enterKeyPressed, this`mapped
      modifies video, backing, keyBuf, terminals
      ensures State() == D.SwitchTo(old(State()), target)
      ensures Valid()
    {
      if target == viewTerm {
        return;
      }
      assert Saved(target).Valid();
      MapVideo(viewTerm);
      Exchange(target);
      assert Records()[target] == Saved(target);
      viewTerm := target;
      MapVideo(running);
      screenX := terminals[target].cursorX;
      screenY := terminals[target].cursorY;
      assert State() == D.SwitchTo(old(State()), target);
    }

    method BackspaceKey()
      requires Shaped() && Valid() && charCount > 0
      modifies this`screenX, this`screenY, this`mapped, this`charCount, video, keyBuf
      ensures Valid()
      ensures State() == D.Act(old(State()), D.ToView(Press(Backspace)))
    {
      keyBuf[charCount] := ' ';
      charCount := charCount - 1;
      Putc(BACKSPACE);
    }

    method EnterKey()
      requires Shaped() && Valid() && charCount != 0
      modifies this`screenX, this`screenY, this`mapped, this`enterKeyPressed, video, keyBuf
      ensures Valid()
      ensures State() == D.Act(old(State()), D.ToView(Press(Enter)))
    {
      Putc('\n');
      enterKeyPressed := true;
      keyBuf[charCount] := '\n';
    }

    method TypeKey(ch: Text)
      requires Shaped() && Valid() && charCount < LINE_LIMIT
      modifies this`screenX, this`screenY, this`mapped, this`charCount, video, keyBuf
      ensures Valid()
      ensures State() == D.Act(old(State()), D.ToView(Press(Char(ch))))
    {
      Putc(ch);
      keyBuf[charCount] := ch;
      charCount := charCount + 1;
    }

    /** The keys that edit the line. */
    method EditingKey(userin: int, bufLimit: bool)
      requires Shaped() && Valid() && bufLimit == (charCount == LINE_LIMIT)
      requires IsEditing(Decode(mods, userin).1)
      requires userin == SCAN_BACKSPACE || userin == SCAN_ENTER || Decode(mods, userin).1 ==
        if 2 <= userin < 0x3A && IsText(Lookup(mods, userin)) then Char(Lookup(mods, userin)) else NoKey
      modifies this`screenX, this`screenY, this`mapped, this`charCount, this`enterKeyPressed, video, keyBuf
      ensures Valid()
      ensures State() == D.Act(old(State()), D.ToView(Press(Decode(mods, userin).1)))
    {
      hide Legends, Lookup, PressKey, D.Act;
      if !Echoes(Live(), Decode(mods, userin).1) {
        D.UnacceptedIsIgnored(State(), Decode(mods, userin).1);
      }
      if userin == SCAN_BACKSPACE {
        if charCount > 0 { BackspaceKey(); }
      } else if userin == SCAN_ENTER {
        if charCount != 0 { EnterKey(); }
      } else if userin < 0x3A && userin >= 2 && !bufLimit {
        var ascii := Lookup(mods, userin);
        TablesHoldText(mods, userin);
        if ascii != '\0' {
          TypeKey(ascii);
        }
      }
    }

    method CtrlL()
      requires Shaped() && Valid()
      modifies this`screenX, this`screenY, this`charCount, video, backing
      ensures Valid()
      ensures State() == D.ClearMapped(old(State()))
    {
      charCount := 0;
      assert State() == old(State()).(live := old(Live()).(count := 0));
      Clear();
    }

    /** F1, F2 and F3 switch terminals while Alt is down. */
    method FunctionKey(userin: int)
      requires Shaped() && Valid() && 0x3B <= userin <= 0x3D
      modifies this, video, backing, keyBuf, terminals
      ensures Valid() && mods == old(mods)
      ensures State() == if mods.alt then D.SwitchTo(old(State()), userin - 0x3B) else old(State())
    {
      if userin == 0x3B {
        if mods.alt { TerminalSwitch(0); }
      } else if userin == 0x3C {
        if mods.alt { TerminalSwitch(1); }
      } else {
        if mods.alt { TerminalSwitch(2); }
      }
    }

    /** The keyboard interrupt, with a scan code waiting. */
    method KeybMain(userin: int)
      requires Shaped() && Valid()
      modifies this, video, backing, keyBuf, terminals
      ensures Valid()
      ensures mods == Decode(old(mods), userin).0
      ensures State() == D.Act(old(State()), D.KeyInput(Decode(old(mods), userin).1))
    {
      hide Legends, Lookup, PressKey, D.Act, D.SwitchTo, D.ClearMapped;
      D.KeyActs(State(), Decode(mods, userin).1);
      var bufLimit := charCount == LINE_LIMIT;
      if userin == SCAN_CTRL {
        mods := mods.(ctrl := true);
      } else if mods.ctrl && userin == SCAN_L {
        CtrlL();
      } else if userin == 0x9D {
        mods := mods.(ctrl := false);
      } else if userin == 0x2A || userin == 0x36 {
        mods := mods.(shift := true);
      } else if userin == 0xAA || userin == 0xB6 {
        mods := mods.(shift := false);
      } else if userin == 0x38 {
        mods := mods.(alt := true);
      } else if userin == 0xB8 {
        mods := mods.(alt := false);
      } else if userin == 0x3B || userin == 0x3C || userin == 0x3D {
        FunctionKey(userin);
      } else if userin == 0xBB || userin == 0xBC || userin == 0xBD {
      } else if userin == 0x3A {
        mods := mods.(caps := !mods.caps);
      } else {
        EditingKey(userin, bufLimit);
      }
    }

    /** The copying loop of terminal_read, over memory that starts with key_buf. `touched` counts the bytes
        of it that the loop looks at. */
    static method TakeLine(memory: array<char>, buf: array<char>, nbytes: int)
      returns (i: int, ghost touched: nat)
      requires buf != memory && buf.Length >= nbytes && ReadsWithin(memory[..], nbytes)
      modifies memory, buf
      ensures i == Taken(old(memory[..]), nbytes)
      ensures touched == Touched(old(memory[..]), nbytes)
      ensures memory[..] == Emptied(old(memory[..]), nbytes)
      ensures forall j :: 0 <= j < buf.Length ==> buf[j] == if j < i then old(memory[j]) else old(buf[j])
    {
      ghost var line, k := memory[..], Taken(memory[..], nbytes);
      i, touched := 0, 0;
      while i < nbytes - 1
        invariant 0 <= i <= k && touched == i
        invariant forall j :: 0 <= j < memory.Length ==> memory[j] == if j < i then '\0' else line[j]
        invariant forall j :: 0 <= j < buf.Length ==> buf[j] == if j < i then line[j] else old(buf[j])
      {
        touched := i + 1;
        if memory[i] == '\n' {
          memory[i] := ' ';
          break;
        }
        buf[i] := memory[i];
        memory[i] := '\0';
        i := i + 1;
      }
    }

    /** The newline and the zero fill of terminal_read. */
    static method EndLine(buf: array<char>, k: int, nbytes: int)
      requires 0 <= k < buf.Length && buf.Length >= nbytes
      modifies buf
      ensures forall j :: 0 <= j < buf.Length ==>
        buf[j] == if j == k then '\n' else if k < j < nbytes then '\0' else old(buf[j])
    {
      var i := k;
      buf[i] := '\n';
      i := i + 1;
      while i < nbytes
        invariant k < i
        invariant forall j :: 0 <= j < buf.Length ==>
          buf[j] == if j == k then '\n' else if k < j < i && j < nbytes then '\0' else old(buf[j])
      {
        buf[i] := '\0';
        i := i + 1;
      }
    }

    /** The copying loop on key_buf. */
    method TakeKeys(buf: array<char>, nbytes: int) returns (i: int, ghost touched: nat)
      requires Shaped() && buf != keyBuf && buf.Length >= nbytes && ReadsWithin(keyBuf[..], nbytes)
      modifies keyBuf, buf
      ensures i == Taken(old(keyBuf[..]), nbytes)
      ensures forall j :: 0 <= j < buf.Length ==> buf[j] == if j < i then old(keyBuf[j]) else old(buf[j])
      ensures keyBuf[..BUFFER] == Emptied(old(keyBuf[..BUFFER]), nbytes)
      ensures keyBuf[BUFFER..] == Emptied(old(keyBuf[..]), nbytes)[BUFFER..]
      ensures keyBuf.Length > BUFFER ==> (touched <= 128 <==> nbytes <= 129 || '\n' in old(keyBuf[..BUFFER]))
      ensures ReadsWithin(old(keyBuf[..BUFFER]), nbytes) ==>
        && Returned(old(keyBuf[..]), nbytes) == Returned(old(keyBuf[..BUFFER]), nbytes)
        && keyBuf[BUFFER..] == old(keyBuf[BUFFER..])
    {
      hide Taken, Touched, Returned, Emptied, ReadsWithin;
      ghost var key, behind := keyBuf[..BUFFER], keyBuf[BUFFER..];
      assert keyBuf[..] == key + behind;
      ReadInMemory(key, behind, nbytes);
      if behind != [] {
        ReadStaysInBufferIff(key, behind, nbytes);
      }
      i, touched := TakeLine(keyBuf, buf, nbytes);
      assert keyBuf[..][..BUFFER] == keyBuf[..BUFFER] && keyBuf[..][BUFFER..] == keyBuf[BUFFER..];
    }

    /** terminal_read, once Enter has been pressed. The caller's buffer holds at least one byte, and the
        memory goes on far enough for the read. The read is the terminals' own step when it stays in
        key_buf; otherwise it takes all of key_buf and goes on behind it. */
    method TerminalRead(buf: array<char>, nbytes: int) returns (readBytes: int, ghost touched: nat)
      requires Shaped() && Valid() && enterKeyPressed
      requires buf != keyBuf && buf.Length >= 1 && buf.Length >= nbytes
      requires ReadsWithin(keyBuf[..], nbytes)
      modifies this`charCount, this`enterKeyPressed, keyBuf, buf
      ensures Valid()
      ensures var line := Returned(old(keyBuf[..]), nbytes);
        |line| <= buf.Length && buf[..] == line + old(buf[..])[|line|..]
      ensures readBytes == Taken(old(keyBuf[..]), nbytes) + 1
      ensures Live() == Console(old(Shown()), Emptied(old(keyBuf[..BUFFER]), nbytes), 0, false)
      ensures keyBuf[BUFFER..] == Emptied(old(keyBuf[..]), nbytes)[BUFFER..]
      ensures keyBuf.Length > BUFFER ==> (touched <= 128 <==> nbytes <= 129 || '\n' in old(keyBuf[..BUFFER]))
      ensures ReadsWithin(old(keyBuf[..BUFFER]), nbytes) ==>
        && State() == D.Act(old(State()), D.ToView(Read(nbytes)))
        && Returned(old(keyBuf[..]), nbytes) == Returned(old(keyBuf[..BUFFER]), nbytes)
        && keyBuf[BUFFER..] == old(keyBuf[BUFFER..])
    {
      hide Touched, Emptied, ReadsWithin, Taken;
      ghost var k, memory, before := State(), keyBuf[..], buf[..];
      var i;
      i, touched := TakeKeys(buf, nbytes);
      readBytes := i + 1;
      EndLine(buf, i, nbytes);
      charCount := 0;
      enterKeyPressed := false;
      FillsLine(buf[..], before, memory, i, nbytes);
    }

    static lemma FillsLine(after: string, before: string, memory: string, i: nat, nbytes: int)
      requires |after| == |before| && i == Taken(memory, nbytes) < |before| && nbytes <= |before|
      requires forall j :: 0 <= j < |before| ==>
        after[j] == if j < i then memory[j] else if j == i then '\n' else if i < j < nbytes then '\0' else before[j]
      ensures var line := Returned(memory, nbytes); |line| <= |before| && after == line + before[|line|..]
    {}
  }
}
