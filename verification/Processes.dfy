/** process.c: six process slots, a parent chain for each of three terminals, and the bookkeeping of
    execute, halt and terminal switches. */
module Processes {
  import opened Common
  import opened Paging

  const SLOTS := 6
  const TERMS := 3
  const NOBODY := -1

  /** The fields of a PCB that outlive a call. `files` holds the descriptors in use. */
  datatype Pcb = Pcb(parent: int, tid: int, files: set<int>)

  /** process_slots, the PCBs, terminals[].pid, view_term, cur_PID, tss.esp0 and the user page's frame. */
  datatype System = System(used: seq<bool>, pcbs: seq<Pcb>, heads: seq<int>, view: Tid, cur: int, esp0: int, window: int) {
    predicate Valid() {
      |used| == |pcbs| == SLOTS && |heads| == TERMS
    }
  }

  const STANDARD := {0, 1}

  /** What close(0) to close(7) leave of a set of descriptors. */
  function Closed(files: set<int>): set<int> {
    set f | f in files && !(2 <= f <= 7)
  }

  function StackTop(pid: int): int {
    0x80_0000 - 0x2000 * pid
  }

  function FreeSlot(used: seq<bool>): (i: nat)
    ensures i <= |used|
    ensures i < |used| ==> !used[i]
    ensures forall j :: 0 <= j < i ==> used[j]
  {
    if used == [] || !used[0] then 0 else 1 + FreeSlot(used[1..])
  }

  /** system_execute of a program that is found and loads; with no slot left it does nothing. */
  function Execute(s: System): (r: System)
    requires s.Valid()
    ensures r.Valid()
  {
    var pid := FreeSlot(s.used);
    if pid == SLOTS then s
    else System(s.used[pid := true], s.pcbs[pid := Pcb(s.heads[s.view], s.view, STANDARD)], s.heads[s.view := pid],
                s.view, pid, StackTop(pid), Frame(pid))
  }

  /** system_execute of a program whose image fails to load: it gives up half-way. */
  function ExecuteBroken(s: System): (r: System)
    requires s.Valid()
    ensures r.Valid()
  {
    var pid := FreeSlot(s.used);
    if pid == SLOTS then s else s.(used := s.used[pid := true], cur := pid, window := Frame(pid))
  }

  /** system_halt. A root process is replaced by a shell in the terminal in view; any other returns to
      its parent, which is the running process by the time descriptors are closed. */
  function Halt(s: System): (r: System)
    requires s.Valid() && 0 <= s.cur < SLOTS && 0 <= s.pcbs[s.cur].tid < TERMS
    requires NOBODY <= s.pcbs[s.cur].parent < SLOTS
    ensures r.Valid()
  {
    var pcb := s.pcbs[s.cur];
    var q := pcb.parent;
    if q == NOBODY then
      Execute(s.(used := s.used[s.cur := false], pcbs := s.pcbs[s.cur := pcb.(files := Closed(pcb.files))],
                 heads := s.heads[pcb.tid := NOBODY]))
    else
      System(s.used[s.cur := false], s.pcbs[q := s.pcbs[q].(files := Closed(s.pcbs[q].files))],
             s.heads[pcb.tid := q], s.view, q, StackTop(q), Frame(q))
  }

  /** terminal_switch starts a shell in a terminal that has none, if the shell is found. */
  function Switch(s: System, target: Tid, found: bool): (r: System)
    requires s.Valid()
    ensures r.Valid()
  {
    if target == s.view then s
    else if s.heads[target] == NOBODY && found then Execute(s.(view := target))
    else s.(view := target)
  }

  // ----- The forest -----

  /** Following parents from `head` visits exactly `chain`, used slots of terminal `t`, once each. */
  ghost predicate Path(s: System, t: Tid, head: int, chain: seq<int>)
    requires s.Valid()
    decreases |chain|
  {
    if chain == [] then head == NOBODY
    else
      && head == chain[0] && 0 <= head < SLOTS && head !in chain[1..]
      && s.used[head] && s.pcbs[head].tid == t
      && Path(s, t, s.pcbs[head].parent, chain[1..])
  }

  /** The used slots are the three chains and nothing else. */
  ghost predicate Slots(s: System, chains: seq<seq<int>>) {
    && s.Valid() && |chains| == TERMS
    && (forall t: Tid :: Path(s, t, s.heads[t], chains[t]))
    && (forall p :: 0 <= p < SLOTS && s.used[p] ==> 0 <= s.pcbs[p].tid < TERMS && p in chains[s.pcbs[p].tid])
  }

  /** The running process heads its own chain, on its own stack and user page. */
  ghost predicate Running(s: System)
    requires s.Valid()
  {
    && 0 <= s.cur < SLOTS && s.used[s.cur] && 0 <= s.pcbs[s.cur].tid < TERMS
    && s.heads[s.pcbs[s.cur].tid] == s.cur
    && s.esp0 == StackTop(s.cur) && s.window == Frame(s.cur)
  }

  ghost predicate Forest(s: System, chains: seq<seq<int>>) {
    Slots(s, chains) && Running(s)
  }

  /** A path depends only on the PCBs along it. */
  lemma {:induction false} PathFrame(s: System, r: System, t: Tid, head: int, chain: seq<int>)
    requires s.Valid() && r.Valid() && Path(s, t, head, chain)
    requires forall p :: 0 <= p < SLOTS && p in chain ==>
      r.used[p] && r.pcbs[p].tid == s.pcbs[p].tid && r.pcbs[p].parent == s.pcbs[p].parent
    ensures Path(r, t, head, chain)
    decreases |chain|
  {
    if chain != [] {
      assert chain[0] in chain;
      assert forall p :: p in chain[1..] ==> p in chain;
      PathFrame(s, r, t, s.pcbs[head].parent, chain[1..]);
    }
  }

  lemma {:induction false} PathIsUsed(s: System, t: Tid, head: int, chain: seq<int>, p: int)
    requires s.Valid() && Path(s, t, head, chain) && p in chain
    ensures 0 <= p < SLOTS && s.used[p] && s.pcbs[p].tid == t
    decreases |chain|
  {
    if p != chain[0] {
      PathIsUsed(s, t, s.pcbs[head].parent, chain[1..], p);
    }
  }

  lemma SlotsUsed(s: System, chains: seq<seq<int>>, t: Tid, p: int)
    requires Slots(s, chains) && p in chains[t]
    ensures 0 <= p < SLOTS && s.used[p] && s.pcbs[p].tid == t
  {
    PathIsUsed(s, t, s.heads[t], chains[t], p);
  }

  /** A new process becomes the head of the chain in view. */
  lemma ExecuteKeepsForest(s: System, chains: seq<seq<int>>)
    requires Slots(s, chains) && FreeSlot(s.used) < SLOTS
    ensures Forest(Execute(s), chains[s.view := [FreeSlot(s.used)] + chains[s.view]])
    ensures var r := Execute(s);
      && r.cur == FreeSlot(s.used) && r.view == s.view && r.pcbs[r.cur].files == {0, 1}
      && forall p :: 0 <= p < SLOTS && p != r.cur ==> r.pcbs[p] == s.pcbs[p]
  {
    var pid, r := FreeSlot(s.used), Execute(s);
    var grown := chains[s.view := [pid] + chains[s.view]];
    assert grown[s.view][1..] == chains[s.view];
    forall t: Tid ensures pid !in chains[t] && Path(r, t, s.heads[t], chains[t]) {
      forall p | p in chains[t] ensures 0 <= p < SLOTS && s.used[p] && p != pid {
        SlotsUsed(s, chains, t, p);
      }
      PathFrame(s, r, t, s.heads[t], chains[t]);
    }
    assert forall p :: p in chains[s.view] ==> p in grown[s.view];
    assert pid in grown[s.view];
  }

  /** With all six slots taken an execute does nothing. */
  lemma NoSlotNoProcess(s: System)
    requires s.Valid() && forall p :: 0 <= p < 6 ==> s.used[p]
    ensures Execute(s) == ExecuteBroken(s) == s
  {
    FreeSlotIs(s.used, SLOTS);
  }

  /** A process that leaves takes the head off its chain. */
  lemma LeavingKeepsSlots(s: System, chains: seq<seq<int>>, r: System)
    requires Forest(s, chains) && r.Valid()
    requires r.used == s.used[s.cur := false]
    requires r.heads == s.heads[s.pcbs[s.cur].tid := s.pcbs[s.cur].parent]
    requires forall p :: 0 <= p < SLOTS ==> r.pcbs[p].tid == s.pcbs[p].tid && r.pcbs[p].parent == s.pcbs[p].parent
    ensures chains[s.pcbs[s.cur].tid] != []
    ensures Slots(r, chains[s.pcbs[s.cur].tid := chains[s.pcbs[s.cur].tid][1..]])
    ensures s.pcbs[s.cur].parent == NOBODY || s.pcbs[s.cur].parent in chains[s.pcbs[s.cur].tid][1..]
  {
    var tid: Tid := s.pcbs[s.cur].tid;
    var chain := chains[tid];
    assert Path(s, tid, s.cur, chain) && Path(s, tid, s.pcbs[s.cur].parent, chain[1..]);
    assert chain[1..] != [] ==> chain[1..][0] in chain[1..];
    var cut := chains[tid := chain[1..]];
    forall t: Tid ensures Path(r, t, r.heads[t], cut[t]) {
      assert Path(s, t, s.heads[t], chains[t]);
      forall p | p in cut[t] ensures 0 <= p < SLOTS && r.used[p] {
        SlotsUsed(s, chains, t, p);
      }
      PathFrame(s, r, t, r.heads[t], cut[t]);
    }
    forall p | 0 <= p < SLOTS && r.used[p] ensures p in cut[r.pcbs[p].tid] {
      assert chain == [s.cur] + chain[1..];
    }
  }

  lemma HaltKeepsForest(s: System, chains: seq<seq<int>>) returns (after: seq<seq<int>>)
    requires Forest(s, chains)
    ensures NOBODY <= s.pcbs[s.cur].parent < SLOTS
    ensures Forest(Halt(s), after) && Halt(s).view == s.view
    ensures var tid, parent := s.pcbs[s.cur].tid, s.pcbs[s.cur].parent;
      chains[tid] != [] &&
      var left := chains[tid := chains[tid][1..]];
      if parent == NOBODY then after == left[s.view := [Halt(s).cur] + left[s.view]]
      else after == left && Halt(s).cur == parent
  {
    var pcb := s.pcbs[s.cur];
    var tid: Tid := pcb.tid;
    var left := s.(used := s.used[s.cur := false], heads := s.heads[tid := pcb.parent]);
    LeavingKeepsSlots(s, chains, left);
    after := chains[tid := chains[tid][1..]];
    if pcb.parent == NOBODY {
      var gone := left.(pcbs := s.pcbs[s.cur := pcb.(files := Closed(pcb.files))]);
      LeavingKeepsSlots(s, chains, gone);
      ExecuteKeepsForest(gone, after);
      after := after[s.view := [FreeSlot(gone.used)] + after[s.view]];
    } else {
      SlotsUsed(left, after, tid, pcb.parent);
      LeavingKeepsSlots(s, chains, Halt(s));
    }
  }

  lemma SwitchKeepsForest(s: System, chains: seq<seq<int>>, target: Tid, found: bool) returns (after: seq<seq<int>>)
    requires Forest(s, chains)
    ensures Forest(Switch(s, target, found), after) && Switch(s, target, found).view == target
    ensures var r := Switch(s, target, found);
      if target != s.view && chains[target] == [] && found && exists p :: 0 <= p < SLOTS && !s.used[p]
      then after == chains[target := [r.cur] + chains[target]]
      else after == chains && r.cur == s.cur
  {
    after := chains;
    var moved := s.(view := target);
    forall t: Tid ensures Path(moved, t, moved.heads[t], chains[t]) {
      forall p | p in chains[t] ensures 0 <= p < SLOTS && s.used[p] {
        SlotsUsed(s, chains, t, p);
      }
      PathFrame(s, moved, t, s.heads[t], chains[t]);
    }
    if target != s.view && s.heads[target] == NOBODY && found && FreeSlot(s.used) < SLOTS {
      ExecuteKeepsForest(moved, chains);
      after := chains[target := [FreeSlot(s.used)] + chains[target]];
    }
  }

  // ----- Runs -----

  /** An execute, or the shell of a switch, may not be found. `Use` stands for opens and closes of the running
      process, which leave it with these descriptors. */
  datatype Op = Exec(found: bool) | Exit | View(tid: Tid, found: bool) | Use(files: set<int>)

  predicate CanStep(s: System, op: Op) {
    && s.Valid()
    && (op.Exit? || op.Use? ==> 0 <= s.cur < SLOTS)
    && (op.Exit? ==> 0 <= s.pcbs[s.cur].tid < TERMS && NOBODY <= s.pcbs[s.cur].parent < SLOTS)
  }

  function Step(s: System, op: Op): (r: System)
    requires CanStep(s, op)
    ensures r.Valid()
  {
    match op
    case Exec(found) => if found then Execute(s) else s
    case Exit => Halt(s)
    case View(t, found) => Switch(s, t, found)
    case Use(files) => s.(pcbs := s.pcbs[s.cur := s.pcbs[s.cur].(files := files)])
  }

  ghost predicate IsForest(s: System) {
    exists chains :: Forest(s, chains)
  }

  function Empty(pcbs: seq<Pcb>): System {
    System(seq(SLOTS, _ => false), pcbs, seq(TERMS, _ => NOBODY), 0, NOBODY, 0, 0)
  }

  lemma FirstShellIsForest(pcbs: seq<Pcb>)
    requires |pcbs| == SLOTS
    ensures Forest(Execute(Empty(pcbs)), [[0], [], []])
  {}

  lemma UseKeepsForest(s: System, chains: seq<seq<int>>, files: set<int>)
    requires Forest(s, chains)
    ensures Forest(Step(s, Use(files)), chains)
  {
    var r := Step(s, Use(files));
    forall t: Tid ensures Path(r, t, r.heads[t], chains[t]) {
      forall p | p in chains[t] ensures 0 <= p < SLOTS && s.used[p] {
        SlotsUsed(s, chains, t, p);
      }
      PathFrame(s, r, t, s.heads[t], chains[t]);
    }
  }

  /** init_terms: no slot used and no terminal occupied, and then the first shell. */
  ghost function Boot(pcbs: seq<Pcb>): (s: System)
    requires |pcbs| == SLOTS
    ensures IsForest(s)
  {
    FirstShellIsForest(pcbs);
    Execute(Empty(pcbs))
  }

  lemma StepKeepsForest(s: System, op: Op)
    requires IsForest(s)
    ensures CanStep(s, op) && IsForest(Step(s, op))
  {
    var chains :| Forest(s, chains);
    var halted := HaltKeepsForest(s, chains);
    match op
    case Exec(found) =>
      if found && FreeSlot(s.used) < SLOTS {
        ExecuteKeepsForest(s, chains);
      }
    case Exit =>
    case View(t, found) =>
      var viewed := SwitchKeepsForest(s, chains, t, found);
    case Use(files) =>
      UseKeepsForest(s, chains, files);
  }

  ghost function Run(s: System, ops: seq<Op>): (r: System)
    requires IsForest(s)
    ensures IsForest(r)
    decreases |ops|
  {
    if ops == [] then s
    else
      StepKeepsForest(s, ops[0]);
      Run(Step(s, ops[0]), ops[1..])
  }

  /** Over every run from boot the used slots are the three parent chains, and the running process heads
      its own chain on its own stack and user page. */
  lemma ProcessesStayAForest(pcbs: seq<Pcb>, ops: seq<Op>) returns (chains: seq<seq<int>>)
    requires |pcbs| == SLOTS
    ensures Forest(Run(Boot(pcbs), ops), chains)
    ensures forall p :: 0 <= p < SLOTS ==>
      (Run(Boot(pcbs), ops).used[p] <==> p in chains[0] || p in chains[1] || p in chains[2])
    ensures forall t: Tid, u: Tid, p :: p in chains[t] && p in chains[u] ==> t == u
    ensures var s := Run(Boot(pcbs), ops);
      && 0 <= s.cur < 6 && 0 <= s.pcbs[s.cur].tid < 3
      && chains[s.pcbs[s.cur].tid] != [] && chains[s.pcbs[s.cur].tid][0] == s.cur
      && s.esp0 == 0x80_0000 - 0x2000 * s.cur && s.window == 0x80_0000 + 0x40_0000 * s.cur
  {
    var s := Run(Boot(pcbs), ops);
    chains :| Forest(s, chains);
    forall t: Tid, p | p in chains[t] ensures 0 <= p < SLOTS && s.used[p] && s.pcbs[p].tid == t {
      SlotsUsed(s, chains, t, p);
    }
    forall t: Tid, u: Tid, p | p in chains[t] && p in chains[u] ensures t == u {
      SlotsUsed(s, chains, t, p);
      SlotsUsed(s, chains, u, p);
    }
  }

  /** When a root process halts, its own slot is free again, so a new shell always starts in the terminal
      in view. */
  lemma RootHaltRestarts(s: System)
    requires IsForest(s) && s.pcbs[s.cur].parent == NOBODY
    ensures var r := Halt(s);
      && 0 <= r.cur < SLOTS && (r.cur == s.cur || !s.used[r.cur]) && r.used[r.cur]
      && r.view == s.view && r.heads[s.view] == r.cur && r.pcbs[r.cur].tid == s.view
  {}

  /** A program whose image does not load leaves a running process that no chain holds, with its own user page
      on its caller's kernel stack; every chain is as it was. */
  lemma BrokenLoadOrphans(s: System, chains: seq<seq<int>>)
    requires Forest(s, chains) && FreeSlot(s.used) < SLOTS
    ensures var r := ExecuteBroken(s);
      && 0 <= r.cur < SLOTS && !s.used[r.cur] && r.used[r.cur]
      && (forall t: Tid :: r.cur !in chains[t] && Path(r, t, r.heads[t], chains[t]))
      && r.window == Frame(r.cur) && r.esp0 == StackTop(s.cur) && r.view == s.view
  {
    var r := ExecuteBroken(s);
    forall t: Tid ensures r.cur !in chains[t] && Path(r, t, r.heads[t], chains[t]) {
      forall p | p in chains[t] ensures 0 <= p < SLOTS && s.used[p] && p != r.cur {
        SlotsUsed(s, chains, t, p);
      }
      PathFrame(s, r, t, s.heads[t], chains[t]);
    }
  }

  /** A program whose image does not load costs a slot that no chain accounts for, if there is one. */
  lemma BrokenLoadKeepsForestIff(s: System)
    requires IsForest(s)
    ensures IsForest(ExecuteBroken(s)) <==> FreeSlot(s.used) == SLOTS
  {}

  /** It does cost the first shell of a booted system one. */
  lemma BrokenLoadLosesASlot(pcbs: seq<Pcb>)
    requires |pcbs| == SLOTS
    ensures FreeSlot(Boot(pcbs).used) < SLOTS && !IsForest(ExecuteBroken(Boot(pcbs)))
  {}

  /** Halting closes the descriptors of the parent, so they survive only if there were none to lose. */
  lemma ParentKeepsFilesIff(s: System)
    requires IsForest(s) && s.pcbs[s.cur].parent != NOBODY
    ensures var q := s.pcbs[s.cur].parent;
      0 <= q < SLOTS && (Halt(s).pcbs[q].files == s.pcbs[q].files <==> forall f :: f in s.pcbs[q].files ==> !(2 <= f <= 7))
  {
    var chains :| Forest(s, chains);
    var after := HaltKeepsForest(s, chains);
  }

  /** A shell that opens a file and executes a program has lost the file when the program halts. */
  lemma ParentLosesItsFile(pcbs: seq<Pcb>)
    requires |pcbs| == SLOTS
    ensures var s := Run(Boot(pcbs), [Use({0, 1, 2}), Exec(true)]);
      s.cur == 1 && s.pcbs[1].parent == 0 && 2 in s.pcbs[0].files && 2 !in Halt(s).pcbs[0].files
  {
    var boot := Boot(pcbs);
    FreeSlotIs(Empty(pcbs).used, 0);
    FreeSlotIs(boot.used, 1);
    var busy := Step(boot, Use({0, 1, 2}));
    assert IsForest(busy) by { StepKeepsForest(boot, Use({0, 1, 2})); }
    assert [Use({0, 1, 2}), Exec(true)][1..] == [Exec(true)];
    assert Run(boot, [Use({0, 1, 2}), Exec(true)]) == Step(busy, Exec(true));
  }

  /** The 8 KB blocks that hold the PCBs and kernel stacks are disjoint and inside the kernel's page. */
  lemma StacksAreApart(p: int, q: int)
    requires 0 <= p < q < SLOTS
    ensures KERNEL_ADDR <= StackTop(q) - 0x2000 < StackTop(q) <= StackTop(p) - 0x2000 < StackTop(p) <= KERNEL_ADDR + FOUR_MB
  {}

  // ----- Nested execution -----

  /** Well-bracketed calls: each execute is matched by the halt of what it started. */
  datatype Calls = Done | Call(inner: Calls, next: Calls)

  function Depth(calls: Calls): nat {
    match calls
    case Done => 0
    case Call(inner, next) => if 1 + Depth(inner) > Depth(next) then 1 + Depth(inner) else Depth(next)
  }

  function Perform(s: System, calls: Calls): (r: System)
    requires s.Valid()
    ensures r.Valid()
    decreases calls
  {
    match calls
    case Done => s
    case Call(inner, next) =>
      var ran := Perform(Execute(s), inner);
      if CanStep(ran, Exit) then Perform(Halt(ran), next) else ran
  }

  function FreeSlots(used: seq<bool>): nat {
    if used == [] then 0 else (if used[0] then 0 else 1) + FreeSlots(used[1..])
  }

  lemma {:induction false} TakingASlot(used: seq<bool>)
    ensures FreeSlots(used) > 0 <==> FreeSlot(used) < |used|
    ensures FreeSlots(used) > 0 ==> FreeSlots(used[FreeSlot(used) := true]) == FreeSlots(used) - 1
    decreases |used|
  {
    if used != [] {
      TakingASlot(used[1..]);
      var i := FreeSlot(used);
      if 0 < i < |used| {
        assert used[i := true][1..] == used[1..][i - 1 := true];
      } else if i == 0 {
        assert used[i := true][1..] == used[1..];
      }
    }
  }

  /** All that a caller can tell: slots, terminals, the running process, and the PCBs still in use. */
  ghost predicate Same(s: System, r: System)
    requires s.Valid() && r.Valid()
  {
    && r == s.(pcbs := r.pcbs)
    && forall p :: 0 <= p < SLOTS && s.used[p] ==>
         r.pcbs[p].tid == s.pcbs[p].tid && r.pcbs[p].parent == s.pcbs[p].parent
  }

  /** Nested execution unwinds exactly, as deep as there are free slots, when the caller runs in the
      terminal in view. */
  lemma {:induction false} NestedCallsUnwind(s: System, calls: Calls)
    requires s.Valid() && Running(s) && s.pcbs[s.cur].tid == s.view
    requires Depth(calls) <= FreeSlots(s.used)
    ensures Same(s, Perform(s, calls))
    decreases calls
  {
    hide FreeSlots, FreeSlot, StackTop, Frame, Closed;
    match calls
    case Done =>
    case Call(inner, next) =>
      TakingASlot(s.used);
      var started := Execute(s);
      NestedCallsUnwind(started, inner);
      var ran := Perform(started, inner);
      assert ran.used[s.cur] && ran.cur == started.cur;
      assert CanStep(ran, Exit);
      assert Halt(ran).used == s.used;
      assert Halt(ran).heads == s.heads;
      NestedCallsUnwind(Halt(ran), next);
  }

  /** A child returns to the process that executed it if and only if that process runs in the terminal in
      view: the child joins the chain of the viewed terminal, whoever called. */
  lemma ChildReturnsToCallerIff(s: System)
    requires IsForest(s) && FreeSlot(s.used) < SLOTS
    ensures CanStep(Execute(s), Exit)
    ensures Halt(Execute(s)).cur == s.cur <==> s.pcbs[s.cur].tid == s.view
  {}

  /** After a switch to a second terminal and back, a program that the second shell executes will return to
      the first one. */
  lemma ChildReturnsElsewhere(pcbs: seq<Pcb>)
    requires |pcbs| == SLOTS
    ensures var s := Run(Boot(pcbs), [View(1, true), View(0, true)]);
      && FreeSlot(s.used) < SLOTS && CanStep(Execute(s), Exit)
      && s.cur == 1 && Halt(Execute(s)).cur == 0
  {
    var boot := Boot(pcbs);
    FreeSlotIs(Empty(pcbs).used, 0);
    FreeSlotIs(boot.used, 1);
    var away := Step(boot, View(1, true));
    assert IsForest(away) by { StepKeepsForest(boot, View(1, true)); }
    assert [View(1, true), View(0, true)][1..] == [View(0, true)];
    assert Run(boot, [View(1, true), View(0, true)]) == Step(away, View(0, true));
    FreeSlotIs(away.used, 2);
  }

  // ----- The program -----

  class Kernel {
    const processSlots: array<bool>
    const pcbs: array<Pcb>
    const termPids: array<int>
    const paging: Tables
    var viewTerm: Tid
    var curPid: int
    var esp0: int

    /** init_terms, as far as processes go: every terminal is empty, and then the first shell starts. */
    constructor (paging: Tables, memory: seq<Pcb>)
      requires paging.Shaped() && Configured(paging.View()) && |memory| == SLOTS
      modifies paging.directory
      ensures Shaped() && this.paging == paging && fresh(processSlots) && fresh(pcbs) && fresh(termPids)
      ensures State() == Boot(memory) && Configured(paging.View())
    {
      hide Configured;
      this.paging := paging;
      processSlots := new bool[SLOTS](_ => false);
      pcbs := new Pcb[SLOTS](i requires 0 <= i < SLOTS => if i < |memory| then memory[i] else Pcb(0, 0, {}));
      termPids := new int[TERMS](_ => NOBODY);
      viewTerm, curPid, esp0 := 0, NOBODY, 0;
      new;
      assert processSlots[..] == Empty(memory).used && pcbs[..] == memory && termPids[..] == Empty(memory).heads;
      var _ := SystemExecute(true, true);
    }

    ghost predicate Shaped() {
      && processSlots.Length == pcbs.Length == SLOTS && termPids.Length == TERMS
      && paging.Shaped()
    }

    ghost function State(): (s: System)
      requires Shaped()
      reads this, processSlots, pcbs, termPids, paging.directory
      ensures s.Valid()
    {
      System(processSlots[..], pcbs[..], termPids[..], viewTerm, curPid, esp0, paging.directory[USER_IDX].base * FOUR_KB)
    }

    /** In every reachable state user code reaches the frame of the running process, and nothing else:
        execute, halt and switch keep both hypotheses. */
    lemma UserReachesOwnFrameOnly(addr: nat)
      requires Shaped() && Configured(paging.View()) && IsForest(State()) && addr < U32
      ensures 0 <= curPid < SLOTS
      ensures Translate(paging.View(), addr, true) ==
        if 0x800_0000 <= addr < 0x840_0000 then Some(0x80_0000 + 0x40_0000 * curPid + (addr - 0x800_0000)) else None
    {
      var chains :| Forest(State(), chains);
      var screen: nat :| Booted(paging.View(), paging.View().directory[USER_IDX].base * FOUR_KB, screen);
      TranslatesExactly(paging.View(), Frame(curPid), screen, addr, true);
    }

    /** The loop over close(0) to close(7), on the running process. */
    method CloseAll()
      requires Shaped() && 0 <= curPid < SLOTS
      modifies pcbs
      ensures pcbs[..] == old(pcbs[..])[curPid := old(pcbs[curPid]).(files := Closed(old(pcbs[curPid]).files))]
    {
      ghost var pcb := pcbs[curPid];
      for i := 0 to 8
        invariant pcbs[..] == old(pcbs[..])[curPid := pcb.(files := ClosedBelow(pcb.files, i))]
      {
        if 2 <= i <= 7 {
          pcbs[curPid] := pcbs[curPid].(files := pcbs[curPid].files - {i});
        }
      }
      ClosedBelowIs(pcb.files, 8);
      assert ClosedBelow(pcb.files, 8) == Closed(pcb.files);
    }

    method FindSlot() returns (checkPid: int)
      requires Shaped()
      modifies processSlots
      ensures checkPid == if FreeSlot(old(processSlots[..])) < SLOTS then FreeSlot(old(processSlots[..])) else -1
      ensures processSlots[..] ==
        if checkPid == -1 then old(processSlots[..]) else old(processSlots[..])[checkPid := true]
    {
      checkPid := -1;
      for i := 0 to SLOTS
        invariant processSlots[..] == old(processSlots[..])
        invariant forall j :: 0 <= j < i ==> processSlots[j]
      {
        if !processSlots[i] {
          FreeSlotIs(processSlots[..], i);
          processSlots[i] := true;
          checkPid := i;
          return;
        }
      }
      FreeSlotIs(processSlots[..], SLOTS);
    }

    /** The new process joins the terminal in view, with a fresh descriptor table. */
    method Enlist()
      requires Shaped() && 0 <= curPid < SLOTS
      modifies pcbs, termPids
      ensures pcbs[..] == old(pcbs[..])[curPid := Pcb(old(termPids[viewTerm]), viewTerm, STANDARD)]
      ensures termPids[..] == old(termPids[..])[viewTerm := curPid]
    {
      pcbs[curPid] := pcbs[curPid].(parent := termPids[viewTerm]);
      termPids[viewTerm] := curPid;
      pcbs[curPid] := pcbs[curPid].(tid := viewTerm);
      pcbs[curPid] := pcbs[curPid].(files := STANDARD);
    }

    /** `found` and `loads` say what the file system makes of the command. */
    method SystemExecute(found: bool, loads: bool) returns (r: int)
      requires Shaped()
      modifies this`curPid, this`esp0, processSlots, pcbs, termPids, paging.directory
      ensures State() == if !found then old(State()) else if loads then Execute(old(State())) else ExecuteBroken(old(State()))
      ensures Configured(old(paging.View())) ==> Configured(paging.View())
      ensures r == if !found || (!loads && FreeSlot(old(State()).used) < SLOTS) then -1 else 0
    {
      hide Configured;
      if !found {
        return -1;
      }
      var checkPid := FindSlot();
      if checkPid == -1 {
        return 0;
      }
      curPid := checkPid;
      paging.UserPageSetup(curPid);
      if !loads {
        return -1;
      }
      Enlist();
      esp0 := 0x80_0000 - 0x2000 * curPid;
      return 0;
    }

    method SystemHalt()
      requires Shaped() && CanStep(State(), Exit)
      modifies this`curPid, this`esp0, processSlots, pcbs, termPids, paging.directory
      ensures State() == Halt(old(State()))
      ensures Configured(old(paging.View())) ==> Configured(paging.View())
    {
      hide Configured;
      var pid := curPid;
      var pcb := pcbs[pid];
      if pcb.parent == NOBODY {
        processSlots[pid] := false;
        CloseAll();
        termPids[pcb.tid] := NOBODY;
        var _ := SystemExecute(true, true);
        return;
      }
      termPids[pcb.tid] := pcb.parent;
      curPid := pcb.parent;
      esp0 := 0x80_0000 - 0x2000 * pcb.parent;
      paging.UserPageSetup(curPid);
      processSlots[pid] := false;
      CloseAll();
    }

    /** The process part of terminal_switch; `found` and `loads` are about the shell it may start. */
    method TerminalSwitch(target: Tid, found: bool, loads: bool)
      requires Shaped()
      modifies this`viewTerm, this`curPid, this`esp0, processSlots, pcbs, termPids, paging.directory
      ensures State() ==
        if found && !loads && target != old(viewTerm) && old(State()).heads[target] == NOBODY
        then ExecuteBroken(old(State()).(view := target))
        else Switch(old(State()), target, found)
      ensures Configured(old(paging.View())) ==> Configured(paging.View())
    {
      hide Configured;
      if target == viewTerm {
        return;
      }
      viewTerm := target;
      if termPids[viewTerm] == NOBODY {
        var _ := SystemExecute(found, loads);
      }
    }
  }

  /** The descriptors left after close(0) to close(n - 1). */
  function ClosedBelow(files: set<int>, n: nat): set<int> {
    if n == 0 then files
    else if 2 <= n - 1 <= 7 then ClosedBelow(files, n - 1) - {n - 1} else ClosedBelow(files, n - 1)
  }

  lemma {:induction false} ClosedBelowIs(files: set<int>, n: nat)
    ensures forall x :: x in ClosedBelow(files, n) <==> x in files && !(2 <= x < n && x <= 7)
  {
    if n > 0 { ClosedBelowIs(files, n - 1); }
  }

  lemma FreeSlotIs(used: seq<bool>, i: nat)
    requires i <= |used| && (i < |used| ==> !used[i]) && forall j :: 0 <= j < i ==> used[j]
    ensures FreeSlot(used) == i
  {}
}
