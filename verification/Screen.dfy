/** The 25x80 text screen of lib.c: what `putc` and `scroll_up` do to one page of video
    memory, and the unbounded sheet of paper that the scrolling page is a window onto. */
module Screen {

  const COLS := 80
  const ROWS := 25
  const ATTRIB := 11
  const BACKSPACE: char := '\U{0008}'

  /** One character position: the even byte and the attribute byte after it. */
  datatype Cell = Cell(ch: char, attr: int)

  /** A 4 KB page of video memory holds 2048 cells, of which the first 2000 are visible. */
  const PAGE_CELLS := 2048
  const VISIBLE := 2000

  datatype Display = Display(x: int, y: int, cells: seq<Cell>) {
    predicate Valid() {
      0 <= x < COLS && 0 <= y < ROWS && |cells| == PAGE_CELLS
    }

    function Pos(): int {
      COLS * y + x
    }
  }

  predicate IsNewline(c: char) {
    c == '\n' || c == '\r'
  }

  /** Every row moves up by one at once; the bottom row loses its characters and keeps its attributes. */
  function Shifted(cells: seq<Cell>): seq<Cell>
    requires |cells| == PAGE_CELLS
  {
    seq(PAGE_CELLS, i requires 0 <= i < PAGE_CELLS =>
      if i < VISIBLE - COLS then cells[i + COLS]
      else if i < VISIBLE then Cell('\0', cells[i].attr)
      else cells[i])
  }

  /** The cursor and page after one character, before the check for the bottom of the screen. */
  function Written(d: Display, c: char): Display
    requires d.Valid()
    requires c == BACKSPACE ==> d.Pos() > 0
  {
    if c == BACKSPACE then
      Display(if d.x == 0 then COLS - 1 else d.x - 1, if d.x == 0 then d.y - 1 else d.y,
              d.cells[d.Pos() - 1 := Cell(' ', ATTRIB)])
    else if IsNewline(c) then
      Display(0, d.y + 1, d.cells)
    else
      Display((d.x + 1) % COLS, if d.x + 1 == COLS then d.y + 1 else d.y,
              d.cells[d.Pos() := Cell(c, ATTRIB)])
  }

  function Put(d: Display, c: char): (r: Display)
    requires d.Valid()
    requires c == BACKSPACE ==> d.Pos() > 0
    ensures r.Valid()
  {
    var w := Written(d, c);
    if w.y == ROWS then Display(0, ROWS - 1, Shifted(w.cells)) else w
  }

  function At(row: int, col: int): int {
    COLS * row + col
  }

  /** `scroll_up`: the copy runs column by column, in place. */
  method ScrollUp(video: array<Cell>)
    requires video.Length == PAGE_CELLS
    modifies video
    ensures video[..] == Shifted(old(video[..]))
  {
    for i := 0 to COLS
      invariant forall r, c :: 0 <= r < ROWS && 0 <= c < COLS ==>
        video[At(r, c)] == if c < i && r < ROWS - 1 then old(video[At(r + 1, c)]) else old(video[At(r, c)])
      invariant forall k :: VISIBLE <= k < PAGE_CELLS ==> video[k] == old(video[k])
    {
      for j := 1 to ROWS
        invariant forall r, c :: 0 <= r < ROWS && 0 <= c < COLS ==>
          video[At(r, c)] == if (c < i && r < ROWS - 1) || (c == i && r < j - 1)
                             then old(video[At(r + 1, c)]) else old(video[At(r, c)])
        invariant forall k :: VISIBLE <= k < PAGE_CELLS ==> video[k] == old(video[k])
      {
        var inter := video[At(j, i)];
        video[At(j - 1, i)] := inter;
      }
    }
    forall k | 0 <= k < VISIBLE
      ensures video[k] == if k < VISIBLE - COLS then old(video[k + COLS]) else old(video[k])
    {
      assert k == At(k / COLS, k % COLS) && k + COLS == At(k / COLS + 1, k % COLS);
    }
    for i := 0 to COLS
      invariant forall k :: 0 <= k < PAGE_CELLS ==>
        video[k] == if k < VISIBLE - COLS then old(video[k + COLS])
                    else if k < VISIBLE - COLS + i then Cell('\0', old(video[k]).attr)
                    else old(video[k])
    {
      video[At(ROWS - 1, i)] := video[At(ROWS - 1, i)].(ch := '\0');
    }
  }

  // ----- The unbounded sheet -----

  /** A sheet without a bottom: it never scrolls. `at` is the absolute cursor. */
  datatype Paper = Paper(at: nat, ink: nat -> char)

  function Mark(p: Paper, i: nat, c: char): nat -> char {
    (k: nat) => if k == i then c else p.ink(k)
  }

  /** Writing on paper moves the cursor by one, back by one, or to the start of the next row. */
  function Write(p: Paper, c: char): Paper
    requires c == BACKSPACE ==> p.at > 0
  {
    if c == BACKSPACE then Paper(p.at - 1, Mark(p, p.at - 1, ' '))
    else if c == '\n' || c == '\r' then Paper(COLS * (p.at / COLS + 1), p.ink)
    else Paper(p.at + 1, Mark(p, p.at, c))
  }

  /** The screen shows rows `top` to `top + 24` of the paper; below them the paper is blank. */
  ghost predicate Shows(d: Display, p: Paper, top: nat) {
    && d.Valid()
    && p.at == COLS * top + d.Pos()
    && (forall i :: 0 <= i < VISIBLE ==> d.cells[i].ch == p.ink(COLS * top + i))
    && (forall i: nat :: i >= COLS * top + VISIBLE ==> p.ink(i) == '\0')
  }

  /** The window moves down only as far as the cursor forces it to. */
  function Follow(top: nat, p: Paper): nat {
    if p.at / COLS >= top + ROWS then p.at / COLS - (ROWS - 1) else top
  }

  /** Before any scrolling, the cursor may stand on the row below the screen. */
  lemma WrittenRefinesWrite(d: Display, p: Paper, top: nat, c: char)
    requires Shows(d, p, top)
    requires c == BACKSPACE ==> d.Pos() > 0
    ensures var w, q := Written(d, c), Write(p, c);
      && q.at == COLS * (top + w.y) + w.x && 0 <= w.x < COLS && 0 <= w.y <= ROWS && (w.y == ROWS ==> w.x == 0)
      && |w.cells| == PAGE_CELLS
      && (forall i :: 0 <= i < VISIBLE ==> w.cells[i].ch == q.ink(COLS * top + i))
      && (forall i: nat :: i >= COLS * top + VISIBLE ==> q.ink(i) == '\0')
  {
    if c != BACKSPACE && IsNewline(c) {
      assert p.at / COLS == top + d.y;
    }
  }

  lemma PutRefinesWrite(d: Display, p: Paper, top: nat, c: char)
    requires Shows(d, p, top)
    requires c == BACKSPACE ==> d.Pos() > 0
    ensures Shows(Put(d, c), Write(p, c), Follow(top, Write(p, c)))
    ensures Follow(top, Write(p, c)) <= top + 1
  {
    hide Written, Write;
    WrittenRefinesWrite(d, p, top, c);
    var w, q := Written(d, c), Write(p, c);
    assert q.at / COLS == top + w.y;
    if w.y == ROWS {
      forall i | 0 <= i < VISIBLE ensures Shifted(w.cells)[i].ch == q.ink(COLS * (top + 1) + i) {
        if i < VISIBLE - COLS {
          assert w.cells[i + COLS].ch == q.ink(COLS * top + (i + COLS));
        }
      }
    }
  }

  /** No backspace of `s` is typed at the top-left corner of the screen. */
  ghost predicate StaysOnPage(d: Display, s: string)
    requires d.Valid()
    decreases |s|
  {
    s == [] || ((s[0] == BACKSPACE ==> d.Pos() > 0) && StaysOnPage(Put(d, s[0]), s[1..]))
  }

  function PutAll(d: Display, s: string): (r: Display)
    requires d.Valid() && StaysOnPage(d, s)
    ensures r.Valid()
    decreases |s|
  {
    if s == [] then d else PutAll(Put(d, s[0]), s[1..])
  }

  /** Write `s` on the paper, and the row the window has followed it to. */
  ghost function WriteAll(p: Paper, top: nat, s: string): (Paper, nat)
    decreases |s|
  {
    if s == [] || (s[0] == BACKSPACE && p.at == 0) then (p, top)
    else WriteAll(Write(p, s[0]), Follow(top, Write(p, s[0])), s[1..])
  }

  /** Any output: the scrolling page is the window onto the paper that never scrolls. */
  lemma {:induction false} ScreenIsWindow(d: Display, p: Paper, top: nat, s: string)
    requires Shows(d, p, top)
    requires StaysOnPage(d, s)
    ensures var (q, bottom) := WriteAll(p, top, s); Shows(PutAll(d, s), q, bottom)
    decreases |s|
  {
    if s != [] {
      PutRefinesWrite(d, p, top, s[0]);
      ScreenIsWindow(Put(d, s[0]), Write(p, s[0]), Follow(top, Write(p, s[0])), s[1..]);
    }
  }

  /** Any page can be read as the first rows of a sheet. */
  lemma EveryScreenIsAWindow(d: Display) returns (p: Paper)
    requires d.Valid()
    ensures Shows(d, p, 0)
  {
    p := Paper(d.Pos(), (k: nat) => if k < VISIBLE && k < |d.cells| then d.cells[k].ch else '\0');
  }

  /** Once every visible cell has the kernel's attribute, output never shows another one. */
  ghost predicate Uniform(d: Display)
    requires d.Valid()
  {
    forall i :: 0 <= i < VISIBLE ==> d.cells[i].attr == 11
  }

  lemma {:induction false} OutputStaysUniform(d: Display, s: string)
    requires d.Valid() && Uniform(d) && StaysOnPage(d, s)
    ensures Uniform(PutAll(d, s))
    decreases |s|
  {
    if s != [] {
      OutputStaysUniform(Put(d, s[0]), s[1..]);
    }
  }
}
