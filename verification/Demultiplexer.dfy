/** Three terminals behind one set of live globals: the state that terminal.c swaps, and the proof
    that nobody can tell the swapped copies from three independent terminals. */
module Demultiplexer {
  import opened Common
  import opened Screen
  import opened Keyboard
  import opened Consoles

  /** `mapped` is the page behind virtual 0xB8000: 0 is the video page, t + 1 the backing page of
      terminal t. `saved[t]` is the record and backing page of terminal t. `running` is the terminal of
      the running process. */
  datatype Kernel = Kernel(view: Tid, live: Console, saved: seq<Console>, running: Tid, mapped: int) {
    predicate Valid() {
      && live.Valid()
      && |saved| == 3
      && (forall t :: 0 <= t < 3 ==> saved[t].Valid())
      && 0 <= mapped <= 3
    }

    /** The terminal's own state, wherever it is kept. */
    function Term(t: Tid): (c: Console)
      requires Valid()
      ensures c.Valid()
    {
      if t == view then live else saved[t]
    }
  }

  datatype Input =
    | ToView(e: Event)      // a key, a printed character or a read
    | Switch(tid: Tid)      // Alt and a function key
    | Dispatch(tid: Tid)    // execute or halt changes the running process

  function SwitchTo(k: Kernel, target: Tid): (r: Kernel)
    requires k.Valid()
    ensures r.Valid()
  {
    if target == k.view then k else
      Kernel(target, k.saved[target], k.saved[k.view := k.live], k.running,
             if k.running == target then 0 else k.running + 1)
  }

  /** `clear` writes through the current mapping, unlike `putc`. */
  function ClearMapped(k: Kernel): (r: Kernel)
    requires k.Valid()
    ensures r.Valid()
  {
    if k.mapped == 0 then k.(live := PressKey(k.live, ClearScreen))
    else
      var t := k.mapped - 1;
      var back := k.saved[t];
      k.(live := k.live.(display := Display(0, 0, k.live.display.cells), count := 0),
         saved := k.saved[t := back.(display := back.display.(cells := Cleared(back.display.cells)))])
  }

  /** `putc` maps the video page before it writes. */
  function MappedAfter(k: Kernel, e: Event): int {
    match e
    case Press(key) => if Echoes(k.live, key) then 0 else k.mapped
    case Print(c) => if c == '\0' then k.mapped else 0
    case Read(_) => k.mapped
  }

  /** A read by the terminal in view stays in key_buf. */
  predicate WithinBuffer(k: Kernel, i: Input) {
    i.ToView? ==> Within(k.live, i.e)
  }

  function Act(k: Kernel, i: Input): (r: Kernel)
    requires k.Valid() && WithinBuffer(k, i)
    ensures r.Valid()
  {
    match i
    case ToView(e) =>
      if e == Press(ClearScreen) then ClearMapped(k)
      else k.(live := Step(k.live, e), mapped := MappedAfter(k, e))
    case Switch(t) => SwitchTo(k, t)
    case Dispatch(t) => k.(running := t)
  }

  /** A decoded key reaches the terminal in view, except for a switch. */
  function KeyInput(key: Key): Input {
    if key.Select? then Switch(key.tid) else ToView(Press(key))
  }

  lemma KeyActs(k: Kernel, key: Key)
    requires k.Valid()
    ensures Act(k, KeyInput(key)) ==
      match key
      case ClearScreen => ClearMapped(k)
      case Select(t) => SwitchTo(k, t)
      case NoKey => k
      case _ => Act(k, ToView(Press(key)))
  {}

  lemma UnacceptedIsIgnored(k: Kernel, key: Key)
    requires k.Valid() && IsEditing(key) && !Echoes(k.live, key)
    ensures Act(k, ToView(Press(key))) == k
  {}

  /** Every read of a run stays in key_buf. */
  predicate StaysWithin(k: Kernel, inputs: seq<Input>)
    requires k.Valid()
    decreases |inputs|
  {
    inputs == [] || (WithinBuffer(k, inputs[0]) && StaysWithin(Act(k, inputs[0]), inputs[1..]))
  }

  function ActAll(k: Kernel, inputs: seq<Input>): (r: Kernel)
    requires k.Valid() && StaysWithin(k, inputs)
    ensures r.Valid()
    decreases |inputs|
  {
    if inputs == [] then k else ActAll(Act(k, inputs[0]), inputs[1..])
  }

  function Prints(text: seq<Printed>): seq<Input> {
    if text == [] then [] else [ToView(Print(text[0]))] + Prints(text[1..])
  }

  lemma {:induction false} PrintsStayWithin(k: Kernel, text: seq<Printed>)
    requires k.Valid()
    ensures StaysWithin(k, Prints(text))
    decreases |text|
  {
    if text != [] {
      assert Prints(text)[1..] == Prints(text[1..]);
      PrintsStayWithin(Act(k, ToView(Print(text[0]))), text[1..]);
    }
  }

  /** What a program's output puts on the screen: every character but NUL. */
  function Visible(text: seq<Printed>): string {
    if text == [] then [] else (if text[0] == '\0' then [] else [text[0]]) + Visible(text[1..])
  }

  /** A program's output goes to the screen of the terminal in view, and touches nothing else but the
      mapping. */
  lemma {:induction false} OutputIsShown(k: Kernel, text: seq<Printed>)
    requires k.Valid()
    ensures StaysWithin(k, Prints(text)) && StaysOnPage(k.live.display, Visible(text))
    ensures ActAll(k, Prints(text)) ==
      k.(live := k.live.(display := PutAll(k.live.display, Visible(text))),
         mapped := if Visible(text) == [] then k.mapped else 0)
    decreases |text|
  {
    hide Put;
    if text != [] {
      var rest := Visible(text[1..]);
      var next := Act(k, ToView(Print(text[0])));
      assert Prints(text)[1..] == Prints(text[1..]);
      OutputIsShown(next, text[1..]);
      if text[0] != '\0' {
        assert Visible(text)[0] == text[0] && Visible(text)[1..] == rest;
      } else {
        assert Visible(text) == rest;
      }
    }
  }

  /** So output is written, character by character, on the sheet that the screen is the window onto. */
  lemma OutputIsOnPaper(k: Kernel, text: seq<Printed>, p: Paper, top: nat)
    requires k.Valid() && Shows(k.live.display, p, top)
    ensures StaysWithin(k, Prints(text))
    ensures var (q, bottom) := WriteAll(p, top, Visible(text));
      Shows(ActAll(k, Prints(text)).live.display, q, bottom)
  {
    OutputIsShown(k, text);
    ScreenIsWindow(k.live.display, p, top, Visible(text));
  }

  /** Alt and F1 to F3 bring terminals 0 to 2 into view; without Alt they do nothing. */
  lemma FunctionKeysSwitch(k: Kernel, m: Modifiers, t: Tid)
    requires k.Valid()
    ensures var r := Act(k, KeyInput(Decode(m, 0x3B + t).1));
      r.view == (if m.alt then t else k.view) && forall u: Tid :: r.Term(u) == k.Term(u)
  {
    FunctionKeys(m, t);
    assert forall u: Tid :: SwitchTo(k, t).Term(u) == k.Term(u);
  }

  /** Ctrl-L blanks the visible part of the mapped page, whichever it is, and sends the cursor of the
      terminal in view home. */
  lemma ClearBlanksMappedPage(k: Kernel)
    requires k.Valid() && k.mapped != k.view + 1
    ensures var r := Act(k, ToView(Press(ClearScreen)));
      && r.live.display.x == r.live.display.y == 0 && r.live.count == 0
      && forall t: Tid ::
           r.Term(t).display.cells ==
           if t == (if k.mapped == 0 then k.view else k.mapped - 1)
           then seq(80 * 25, _ => Cell(' ', ATTRIB)) + k.Term(t).display.cells[80 * 25..]
           else k.Term(t).display.cells
  {}

  /** The events that reach terminal `t`: those that come while it is in view. */
  function Delivered(view: Tid, t: Tid, inputs: seq<Input>): seq<Event>
    decreases |inputs|
  {
    if inputs == [] then [] else
      match inputs[0]
      case ToView(e) =>
        if view == t then [e] + Delivered(view, t, inputs[1..]) else Delivered(view, t, inputs[1..])
      case Switch(v) => Delivered(v, t, inputs[1..])
      case Dispatch(_) => Delivered(view, t, inputs[1..])
  }

  /** `clear` finds the video page mapped. */
  predicate ClearsVideo(k: Kernel, i: Input) {
    i == ToView(Press(ClearScreen)) ==> k.mapped == 0
  }

  predicate AlwaysClearsVideo(k: Kernel, inputs: seq<Input>)
    requires k.Valid() && StaysWithin(k, inputs)
    decreases |inputs|
  {
    inputs == [] || (ClearsVideo(k, inputs[0]) && AlwaysClearsVideo(Act(k, inputs[0]), inputs[1..]))
  }

  /** One input: the terminal in view takes the event, every other terminal keeps its whole state. */
  lemma ActIsStepInView(k: Kernel, i: Input, t: Tid)
    requires k.Valid() && WithinBuffer(k, i) && ClearsVideo(k, i)
    ensures i.ToView? && t == k.view ==> Within(k.Term(t), i.e)
    ensures Act(k, i).Term(t) == if i.ToView? && t == k.view then Step(k.Term(t), i.e) else k.Term(t)
  {}

  /** Each terminal holds what it would hold had it alone received the events delivered to it. */
  lemma {:induction false} TerminalsAreIndependent(k: Kernel, inputs: seq<Input>, t: Tid)
    requires k.Valid() && StaysWithin(k, inputs) && AlwaysClearsVideo(k, inputs)
    ensures RunsWithin(k.Term(t), Delivered(k.view, t, inputs))
    ensures ActAll(k, inputs).Term(t) == Run(k.Term(t), Delivered(k.view, t, inputs))
    decreases |inputs|
  {
    if inputs != [] {
      var i, rest := inputs[0], inputs[1..];
      ActIsStepInView(k, i, t);
      TerminalsAreIndependent(Act(k, i), rest, t);
      if i.ToView? && k.view == t {
        var es := Delivered(k.view, t, inputs);
        assert es[0] == i.e && es[1..] == Delivered(k.view, t, rest);
      }
    }
  }

  /** `page` already looks cleared. */
  predicate IsBlank(cells: seq<Cell>)
    requires |cells| == PAGE_CELLS
  {
    cells == Cleared(cells)
  }

  /** Ctrl-L is demultiplexed exactly when `clear` finds the video page mapped, or finds nothing to
      change on either page. */
  lemma ClearIsDemultiplexedIff(k: Kernel)
    requires k.Valid() && k.mapped != k.view + 1
    ensures (forall t: Tid :: ClearMapped(k).Term(t) ==
               if t == k.view then PressKey(k.live, ClearScreen) else k.Term(t)) <==>
            (k.mapped == 0 || (IsBlank(k.live.display.cells) && IsBlank(k.saved[k.mapped - 1].display.cells)))
  {
    var r := ClearMapped(k);
    if k.mapped != 0 {
      var t: Tid := k.mapped - 1;
      assert r.Term(t).display.cells == Cleared(k.Term(t).display.cells);
      assert r.Term(k.view).display.cells == k.live.display.cells;
      assert PressKey(k.live, ClearScreen).display.cells == Cleared(k.live.display.cells);
      if IsBlank(k.live.display.cells) && IsBlank(k.saved[t].display.cells) {
        assert r.saved[t] == k.saved[t];
      }
    }
  }

  /** A program of a background terminal prints, which maps the video page, and the next switch maps that
      terminal's page: Ctrl-L then clears what it printed. */
  lemma ClearStrikesAnotherTerminal(k: Kernel)
    requires k.Valid() && k.view == 0 && k.mapped == 0
    ensures var inputs := [Switch(1), Dispatch(1), ToView(Print('3')), Switch(0)];
      && StaysWithin(k, inputs)
      && var r := ActAll(k, inputs);
         r.view == 0 && r.mapped == 2 && ClearMapped(r).Term(1) != r.Term(1)
  {
    var inputs := [Switch(1), Dispatch(1), ToView(Print('3')), Switch(0)];
    var k1 := Act(k, inputs[0]);
    var k2 := Act(k1, inputs[1]);
    var k3 := Act(k2, inputs[2]);
    var r := Act(k3, inputs[3]);
    assert inputs[1..] == [Dispatch(1), ToView(Print('3')), Switch(0)];
    assert inputs[1..][1..] == [ToView(Print('3')), Switch(0)];
    assert inputs[1..][1..][1..] == [Switch(0)];
    assert ActAll(k, inputs) == r;
    var d := k.saved[1].display;
    assert r.Term(1).display == Put(d, '3');
    assert Put(d, '3').cells[if d.Pos() == VISIBLE - 1 then d.Pos() - COLS else d.Pos()].ch == '3';
    assert ClearMapped(r).Term(1).display.cells == Cleared(r.Term(1).display.cells);
  }

  // ----- Reads that stay in the buffer -----

  ghost predicate AllPending(k: Kernel)
    requires k.Valid()
  {
    forall t: Tid :: Pending(k.Term(t))
  }

  /** In every terminal, each line is read before that terminal gets another character or Backspace. */
  ghost predicate PromptRun(k: Kernel, inputs: seq<Input>)
    requires k.Valid()
    decreases |inputs|
  {
    inputs == [] ||
    (&& (inputs[0].ToView? ==> Prompt(k.live, inputs[0].e))
     && (WithinBuffer(k, inputs[0]) ==> PromptRun(Act(k, inputs[0]), inputs[1..])))
  }

  /** Then no read of the run, however long, leaves key_buf, Ctrl-L on the wrong page included. */
  lemma {:induction false} PromptRunsStayWithin(k: Kernel, inputs: seq<Input>)
    requires k.Valid() && AllPending(k) && PromptRun(k, inputs)
    ensures StaysWithin(k, inputs) && AllPending(ActAll(k, inputs))
    decreases |inputs|
  {
    if inputs != [] {
      var i := inputs[0];
      assert Pending(k.Term(k.view));
      if i.ToView? {
        PromptReadsStayWithin(k.live, i.e);
      }
      var r := Act(k, i);
      forall t: Tid ensures Pending(r.Term(t)) {
        assert Pending(k.Term(t));
      }
      PromptRunsStayWithin(r, inputs[1..]);
    }
  }

  /** The video page of the terminal in view never stands behind its own backing page. */
  predicate MappingFollowsView(k: Kernel) {
    k.mapped != k.view + 1
  }

  lemma {:induction false} MappingAlwaysFollowsView(k: Kernel, inputs: seq<Input>)
    requires k.Valid() && StaysWithin(k, inputs) && MappingFollowsView(k)
    ensures MappingFollowsView(ActAll(k, inputs))
    decreases |inputs|
  {
    if inputs != [] {
      MappingAlwaysFollowsView(Act(k, inputs[0]), inputs[1..]);
    }
  }

  /** In every run each terminal keeps room on its screen to erase its line: a backspace never leaves
      the screen, not even when Ctrl-L strikes the wrong page. */
  lemma BackspaceStaysOnScreen(k: Kernel, inputs: seq<Input>, t: Tid)
    requires k.Valid() && StaysWithin(k, inputs)
    ensures var c := ActAll(k, inputs).Term(t);
      && 0 <= c.display.x < 80 && 0 <= c.display.y < 25
      && 0 <= c.count <= 127 && c.count <= 80 * c.display.y + c.display.x
  {}

  // ----- What is shown is what will be read, in every terminal -----

  predicate OrderlyInput(k: Kernel, i: Input) {
    ClearsVideo(k, i) && (i.ToView? ==> Orderly(k.live, i.e))
  }

  predicate OrderlyRun(k: Kernel, inputs: seq<Input>)
    requires k.Valid() && StaysWithin(k, inputs)
    decreases |inputs|
  {
    inputs == [] || (OrderlyInput(k, inputs[0]) && OrderlyRun(Act(k, inputs[0]), inputs[1..]))
  }

  ghost predicate AllFaithful(k: Kernel)
    requires k.Valid()
  {
    forall t: Tid :: Faithful(k.Term(t))
  }

  /** Through any keys, reads and switches, the line in every terminal's buffer is the text standing
      before its cursor, until that terminal's Enter. */
  lemma {:induction false} ShownIsRead(k: Kernel, inputs: seq<Input>)
    requires k.Valid() && AllFaithful(k) && StaysWithin(k, inputs) && OrderlyRun(k, inputs)
    ensures AllFaithful(ActAll(k, inputs))
    decreases |inputs|
  {
    if inputs != [] {
      var i := inputs[0];
      if i.ToView? {
        assert Faithful(k.Term(k.view));
        StepKeepsFaithful(k.live, i.e);
      }
      var r := Act(k, i);
      forall t: Tid ensures Faithful(r.Term(t)) {
        assert Faithful(k.Term(t));
        ActIsStepInView(k, i, t);
      }
      ShownIsRead(r, inputs[1..]);
    }
  }

  /** A line typed into one terminal, with switches and other terminals' traffic in between, is what that
      terminal's reader gets. */
  lemma LineSurvivesSwitching(k: Kernel, inputs: seq<Input>, t: Tid, keys: seq<Key>, nbytes: int)
    requires k.Valid() && StaysWithin(k, inputs) && AlwaysClearsVideo(k, inputs)
    requires k.Term(t).count == 0 && !k.Term(t).enter
    requires NotYetEntered(keys) && Spell(keys) != [] && nbytes >= 1
    requires Delivered(k.view, t, inputs) == Presses(keys + [Enter])
    ensures var c := ActAll(k, inputs).Term(t);
      c.enter && Returned(c.buf, nbytes) == Delivery(Spell(keys), nbytes)
  {
    TerminalsAreIndependent(k, inputs, t);
    TypingIsARun(k.Term(t), keys + [Enter]);
    LineDiscipline(k.Term(t), keys, nbytes);
  }

  /** The inputs that a sequence of scan codes makes. */
  function Interrupts(m: Modifiers, codes: seq<int>): (r: seq<Input>)
    ensures |r| == |codes|
    decreases |codes|
  {
    if codes == [] then []
    else
      var (after, key) := Decode(m, codes[0]);
      [KeyInput(key)] + Interrupts(after, codes[1..])
  }

  lemma {:induction false} KeysReachTheView(k: Kernel, m: Modifiers, codes: seq<int>)
    requires k.Valid() && forall key :: key in DecodeAll(m, codes) ==> !key.Select? && !key.ClearScreen?
    ensures StaysWithin(k, Interrupts(m, codes)) && AlwaysClearsVideo(k, Interrupts(m, codes))
    ensures Delivered(k.view, k.view, Interrupts(m, codes)) == Presses(DecodeAll(m, codes))
    ensures ActAll(k, Interrupts(m, codes)).view == k.view
    decreases |codes|
  {
    hide Decode, PressKey;
    if codes != [] {
      var (after, key) := Decode(m, codes[0]);
      var keys, inputs := DecodeAll(m, codes), Interrupts(m, codes);
      assert key in keys && forall other :: other in DecodeAll(after, codes[1..]) ==> other in keys;
      assert inputs[0] == ToView(Press(key)) && inputs[1..] == Interrupts(after, codes[1..]);
      KeysReachTheView(Act(k, inputs[0]), after, codes[1..]);
      assert Presses(keys) == [Press(key)] + Presses(DecodeAll(after, codes[1..]));
    }
  }

  /** From the keyboard interrupt to the reader: scan codes that spell a line and end with Enter give the
      reader of the terminal in view that line. */
  lemma ScanCodesReachReader(k: Kernel, m: Modifiers, codes: seq<int>, nbytes: int)
    requires k.Valid() && k.live.count == 0 && !k.live.enter && nbytes >= 1
    requires forall key :: key in DecodeAll(m, codes) ==> !key.Select? && !key.ClearScreen?
    requires NotYetEntered(DecodeAll(m, codes)) && Spell(DecodeAll(m, codes)) != []
    ensures StaysWithin(k, Interrupts(m, codes + [SCAN_ENTER]))
    ensures var c := ActAll(k, Interrupts(m, codes + [SCAN_ENTER])).live;
      c.enter && Returned(c.buf, nbytes) == Delivery(Spell(DecodeAll(m, codes)), nbytes)
  {
    hide Decode, PressKey;
    DecodeEnter(m, codes);
    KeysReachTheView(k, m, codes + [SCAN_ENTER]);
    LineSurvivesSwitching(k, Interrupts(m, codes + [SCAN_ENTER]), k.view, DecodeAll(m, codes), nbytes);
  }
}
