/** page.c: the page directory and tables, and how 32-bit paging with 4 KB and 4 MB pages reads them. */
module Paging {
  import opened Common

  const FOUR_KB := 0x1000
  const FOUR_MB := 0x40_0000
  const PAGE_SIZE := 1024
  const KERNEL_IDX := 1
  const USER_IDX := 32
  const KERNEL_ADDR := 0x40_0000
  const USER_ADDR := 0x800_0000
  const VIDEO_ADDR := 0xB_8000
  const VIDEO_PAGE := 0xB8
  const PROGRAM_IMAGE := 0x804_8000

  /** The fields of directory and table entries that translation reads. */
  datatype Entry = Entry(present: bool, user: bool, large: bool, base: nat)

  /** `tablesFrame` and `videoFrame` are the page frames that hold the two tables. */
  datatype Space = Space(directory: seq<Entry>, tables: seq<Entry>, videoMap: seq<Entry>,
                         tablesFrame: nat, videoFrame: nat) {
    predicate Valid() {
      |directory| == |tables| == |videoMap| == PAGE_SIZE && tablesFrame != videoFrame
    }
  }

  predicate Allows(e: Entry, user: bool) {
    e.present && (user ==> e.user)
  }

  /** The physical address of a virtual one, for kernel or user accesses. */
  function Translate(s: Space, addr: nat, user: bool): Option<nat>
    requires s.Valid() && addr < U32
  {
    var d := s.directory[addr / FOUR_MB];
    if !Allows(d, user) then None
    else if d.large then Some(d.base / PAGE_SIZE * FOUR_MB + addr % FOUR_MB)
    else if d.base == s.tablesFrame then TranslateSmall(s.tables, addr, user)
    else if d.base == s.videoFrame then TranslateSmall(s.videoMap, addr, user)
    else None
  }

  function TranslateSmall(table: seq<Entry>, addr: nat, user: bool): Option<nat>
    requires |table| == PAGE_SIZE && addr < U32
  {
    var e := table[addr / FOUR_KB % PAGE_SIZE];
    if Allows(e, user) then Some(e.base * FOUR_KB + addr % FOUR_KB) else None
  }

  /** The 4 MB frame that user_page_setup gives a process. */
  function Frame(pid: nat): nat {
    0x80_0000 + pid * KERNEL_ADDR
  }

  // ----- What page_init builds -----

  /** The kernel's view, with the user page at physical `window` and the screen at page `screen`. */
  ghost predicate Booted(s: Space, window: nat, screen: nat) {
    && s.Valid()
    && s.directory[0] == Entry(true, false, false, s.tablesFrame)
    && s.directory[KERNEL_IDX] == Entry(true, false, true, KERNEL_ADDR / FOUR_KB)
    && s.directory[USER_IDX] == Entry(true, true, true, window / FOUR_KB)
    && (forall i :: 0 <= i < PAGE_SIZE && i != 0 && i != KERNEL_IDX && i != USER_IDX ==> !s.directory[i].present)
    && (forall i :: 0 <= i < PAGE_SIZE ==>
          (s.tables[i].present <==> VIDEO_PAGE <= i < VIDEO_PAGE + 4)
          && s.tables[i].base == (if i == VIDEO_PAGE then screen else i) && !s.tables[i].user)
  }

  /** Every address: the four video pages and the kernel page for the kernel, the user page for all, and
      nothing else. */
  lemma TranslatesExactly(s: Space, window: nat, screen: nat, addr: nat, user: bool)
    requires Booted(s, window, screen) && window % FOUR_MB == 0 && addr < U32
    ensures Translate(s, addr, user) ==
      if 0x800_0000 <= addr < 0x840_0000 then Some(window + addr - 0x800_0000)
      else if user then None
      else if 0x40_0000 <= addr < 0x80_0000 then Some(addr)
      else if 0xB_8000 <= addr < 0xB_9000 then Some(0x1000 * screen + addr - 0xB_8000)
      else if 0xB_9000 <= addr < 0xB_C000 then Some(addr)
      else None
  {}

  // ----- Switching processes and screens -----

  datatype Change = UserPage(pid: nat) | Screen(page: nat)

  function Apply(s: Space, c: Change): Space
    requires s.Valid()
  {
    match c
    case UserPage(pid) =>
      s.(directory := s.directory[USER_IDX := s.directory[USER_IDX].(base := Frame(pid) / FOUR_KB, large := true)])
    case Screen(page) => s.(tables := s.tables[VIDEO_PAGE := s.tables[VIDEO_PAGE].(base := page)])
  }

  function ApplyAll(s: Space, cs: seq<Change>): (r: Space)
    requires s.Valid()
    ensures r.Valid()
    decreases |cs|
  {
    if cs == [] then s else ApplyAll(Apply(s, cs[0]), cs[1..])
  }

  /** The frame and the screen page that the latest changes chose. */
  function Chosen(window: nat, screen: nat, cs: seq<Change>): (nat, nat)
    decreases |cs|
  {
    if cs == [] then (window, screen) else
      match cs[0]
      case UserPage(pid) => Chosen(Frame(pid), screen, cs[1..])
      case Screen(page) => Chosen(window, page, cs[1..])
  }

  lemma {:induction false} ChangesKeepBooted(s: Space, window: nat, screen: nat, cs: seq<Change>)
    requires Booted(s, window, screen) && window % FOUR_MB == 0
    ensures Booted(ApplyAll(s, cs), Chosen(window, screen, cs).0, Chosen(window, screen, cs).1)
    ensures Chosen(window, screen, cs).0 % FOUR_MB == 0
    decreases |cs|
  {
    if cs != [] {
      match cs[0]
      case UserPage(pid) => ChangesKeepBooted(Apply(s, cs[0]), Frame(pid), screen, cs[1..]);
      case Screen(page) => ChangesKeepBooted(Apply(s, cs[0]), window, page, cs[1..]);
    }
  }

  lemma FrameIsAligned(pid: nat)
    ensures Frame(pid) == 0x80_0000 + pid * KERNEL_ADDR
    ensures Frame(pid) / FOUR_KB * FOUR_KB == Frame(pid)
  {
    var pages := 0x800 + 0x400 * pid;
    assert Frame(pid) == FOUR_KB * pages;
    assert FOUR_KB * pages / FOUR_KB == pages;
  }

  /** The tables are as page_init built them, but for the frame of the user page and the screen. */
  ghost predicate Configured(s: Space)
    requires s.Valid()
  {
    exists screen: nat :: Booted(s, s.directory[USER_IDX].base * FOUR_KB, screen)
  }

  lemma UserPageKeepsConfigured(s: Space, pid: nat)
    requires s.Valid() && Configured(s)
    ensures Configured(Apply(s, UserPage(pid)))
  {
    var screen: nat :| Booted(s, s.directory[USER_IDX].base * FOUR_KB, screen);
    var r := Apply(s, UserPage(pid));
    assert Booted(r, r.directory[USER_IDX].base * FOUR_KB, screen);
  }

  // ----- Loading a program -----

  /** Physical memory. */
  type Memory = nat -> char

  function Poke(m: Memory, at: nat, c: char): Memory {
    (p: nat) => if p == at then c else m(p)
  }

  /** Memory after some stores, and whether they ended in a page fault. */
  datatype Stored = Stored(memory: Memory, fault: bool)

  /** The kernel writes `bytes` from virtual address `addr` on, up to the first page fault. */
  ghost function Store(s: Space, m: Memory, addr: nat, bytes: string): Stored
    requires s.Valid() && addr + |bytes| <= U32
    decreases |bytes|
  {
    if bytes == [] then Stored(m, false)
    else
      match Translate(s, addr, false)
      case None => Stored(m, true)
      case Some(p) => Store(s, Poke(m, p, bytes[0]), addr + 1, bytes[1..])
  }

  /** Stores that start in the user page put the bytes that fit at their places in the frame, change nothing
      else, and fault exactly when some do not fit. */
  lemma {:induction false} StoreInUserPage(s: Space, window: nat, screen: nat, m: Memory, addr: nat, bytes: string)
    requires Booted(s, window, screen) && window % FOUR_MB == 0
    requires USER_ADDR <= addr <= USER_ADDR + FOUR_MB && addr + |bytes| <= U32
    ensures Store(s, m, addr, bytes).fault <==> addr + |bytes| > USER_ADDR + FOUR_MB
    ensures forall p: nat ::
      var at := p - window + USER_ADDR - addr;
      Store(s, m, addr, bytes).memory(p) == if 0 <= at < |bytes| && p < window + FOUR_MB then bytes[at] else m(p)
    decreases |bytes|
  {
    if bytes != [] {
      TranslatesExactly(s, window, screen, addr, false);
      if addr < USER_ADDR + FOUR_MB {
        var q := window + addr - USER_ADDR;
        StoreInUserPage(s, window, screen, Poke(m, q, bytes[0]), addr + 1, bytes[1..]);
      }
    }
  }

  /** After any switches that end at `pid`, loading its program faults exactly when the program does not fit
      its window; the bytes that fit are in its frame, and every byte outside the frame is as it was: the
      kernel's, the screens' and every other process's. */
  lemma LoadingIsIsolated(s: Space, cs: seq<Change>, pid: nat, m: Memory, program: string)
    requires Booted(s, USER_ADDR, VIDEO_PAGE)
    requires |program| <= 1023 * FOUR_KB
    ensures var r := Store(ApplyAll(s, cs + [UserPage(pid)]), m, PROGRAM_IMAGE, program);
      && (r.fault <==> PROGRAM_IMAGE - USER_ADDR + |program| > FOUR_MB)
      && forall p: nat :: r.memory(p) ==
           var at := p - Frame(pid) - (PROGRAM_IMAGE - USER_ADDR);
           if 0 <= at < |program| && p < Frame(pid + 1) then program[at] else m(p)
  {
    var all := cs + [UserPage(pid)];
    ChangesKeepBooted(s, USER_ADDR, VIDEO_PAGE, all);
    ChosenLast(USER_ADDR, VIDEO_PAGE, cs, pid);
    var (window, screen) := Chosen(USER_ADDR, VIDEO_PAGE, all);
    StoreInUserPage(ApplyAll(s, all), window, screen, m, PROGRAM_IMAGE, program);
  }

  lemma {:induction false} ChosenLast(window: nat, screen: nat, cs: seq<Change>, pid: nat)
    ensures Chosen(window, screen, cs + [UserPage(pid)]).0 == Frame(pid)
    decreases |cs|
  {
    var all := cs + [UserPage(pid)];
    if cs != [] {
      assert all[1..] == cs[1..] + [UserPage(pid)];
      match cs[0]
      case UserPage(q) => ChosenLast(Frame(q), screen, cs[1..], pid);
      case Screen(page) => ChosenLast(window, page, cs[1..], pid);
    }
  }

  /** The frames of two processes are disjoint, and lie above the kernel and the screens. */
  lemma FramesAreApart(p: nat, q: nat)
    ensures p < q ==> Frame(p) + FOUR_MB <= Frame(q)
    ensures Frame(p) >= KERNEL_ADDR + FOUR_MB > VIDEO_ADDR + 4 * FOUR_KB
  {}

  // ----- The program -----

  class Tables {
    const directory: array<Entry>
    const tables: array<Entry>
    const videoMap: array<Entry>
    const tablesFrame: nat
    const videoFrame: nat

    ghost predicate Shaped() {
      && directory.Length == tables.Length == videoMap.Length == PAGE_SIZE
      && directory != tables && directory != videoMap && tables != videoMap
      && tablesFrame != videoFrame
    }

    ghost function View(): Space
      reads directory, tables, videoMap
    {
      Space(directory[..], tables[..], videoMap[..], tablesFrame, videoFrame)
    }

    method PageInit()
      requires Shaped()
      modifies directory, tables, videoMap
      ensures Booted(View(), USER_ADDR, VIDEO_PAGE) && Configured(View())
      ensures forall i :: 0 <= i < PAGE_SIZE ==> !videoMap[i].present
    {
      directory[0] := Entry(true, false, false, tablesFrame);
      for i := 1 to PAGE_SIZE
        modifies directory
        invariant directory[0] == Entry(true, false, false, tablesFrame)
        invariant i > KERNEL_IDX ==> directory[KERNEL_IDX] == Entry(true, false, true, KERNEL_ADDR / FOUR_KB)
        invariant i > USER_IDX ==> directory[USER_IDX] == Entry(true, true, true, USER_ADDR / FOUR_KB)
        invariant forall j :: 1 <= j < i && j != KERNEL_IDX && j != USER_IDX ==> !directory[j].present
      {
        if i == KERNEL_IDX {
          directory[i] := Entry(true, false, true, KERNEL_ADDR / FOUR_KB);
        } else if i == USER_IDX {
          directory[i] := Entry(true, true, true, USER_ADDR / FOUR_KB);
        } else {
          directory[i] := directory[i].(user := false, present := false, large := true);
        }
      }
      for i := 0 to PAGE_SIZE
        modifies tables
        invariant forall j :: 0 <= j < i ==>
          (tables[j].present <==> VIDEO_PAGE <= j < VIDEO_PAGE + 4) && tables[j].base == j && !tables[j].user
      {
        if i * FOUR_KB != VIDEO_ADDR {
          tables[i] := tables[i].(present := false);
        } else {
          tables[i] := tables[i].(present := true);
        }
        if (i - 1) * FOUR_KB == VIDEO_ADDR || (i - 2) * FOUR_KB == VIDEO_ADDR || (i - 3) * FOUR_KB == VIDEO_ADDR {
          tables[i] := tables[i].(present := true);
        }
        tables[i] := tables[i].(base := i, user := false);
      }
      for i := 0 to PAGE_SIZE
        modifies videoMap
        invariant forall j :: 0 <= j < i ==> !videoMap[j].present
      {
        videoMap[i] := videoMap[i].(present := false, user := false, base := i);
      }
      assert Booted(View(), View().directory[USER_IDX].base * FOUR_KB, VIDEO_PAGE);
    }

    method UserPageSetup(pid: nat)
      requires Shaped()
      modifies directory
      ensures View() == Apply(old(View()), UserPage(pid))
      ensures directory[USER_IDX].base * FOUR_KB == Frame(pid)
      ensures Configured(old(View())) ==> Configured(View())
    {
      hide Configured, Frame;
      FrameIsAligned(pid);
      ghost var before := View();
      directory[USER_IDX] := directory[USER_IDX].(base := (0x80_0000 + pid * KERNEL_ADDR) / FOUR_KB);
      directory[USER_IDX] := directory[USER_IDX].(large := true);
      assert View() == Apply(before, UserPage(pid));
      if Configured(before) {
        UserPageKeepsConfigured(before, pid);
      }
    }
  }
}
