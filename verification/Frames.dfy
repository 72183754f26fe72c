/** add_frames of fish.c: two text files are read a character at a time and merged into blinking characters. */
module Frames {
  import opened Common
  import opened Lines
  import B = Blinkers

  const COLS := 80
  const OFFSET := 40

  /** A cell of the picture at which something is to be shown. */
  datatype Spot = Spot(row: nat, col: nat, on: char, off: char)

  /** What is handed to RTC_ADD: the location is 16 bits wide. */
  datatype Placed = Placed(location: nat, onChar: char, offChar: char)

  function Place(s: Spot): Placed {
    Placed((s.row * COLS + s.col + OFFSET) % U16, s.on, s.off)
  }

  function PlaceAll(spots: seq<Spot>): seq<Placed> {
    seq(|spots|, i requires 0 <= i < |spots| => Place(spots[i]))
  }

  // ----- The picture -----

  function First<T>(s: seq<T>, default: T): T {
    if s == [] then default else s[0]
  }

  function Rest<T>(s: seq<T>): seq<T> {
    if s == [] then [] else s[1..]
  }

  /** The spots of what is left of one row, lines padded with blanks. */
  function Row(a: string, b: string, row: nat, col: nat): seq<Spot>
    decreases |a| + |b|
  {
    if a == [] && b == [] then []
    else
      var x, y := First(a, ' '), First(b, ' ');
      (if x == ' ' && y == ' ' then [] else [Spot(row, col, x, y)]) + Row(Rest(a), Rest(b), row, col + 1)
  }

  /** The spots of what is left of the picture. */
  function Grid(a: seq<string>, b: seq<string>, row: nat): seq<Spot>
    decreases |a| + |b|
  {
    if a == [] && b == [] then []
    else Row(First(a, []), First(b, []), row, 0) + Grid(Rest(a), Rest(b), row + 1)
  }

  /** The character of a padded picture at a row and a column. */
  function Glyph(lines: seq<string>, row: nat, col: nat): char {
    if row < |lines| && col < |lines[row]| then lines[row][col] else ' '
  }

  predicate Shown(a: char, b: char) {
    a != ' ' || b != ' '
  }

  lemma InRow(a: string, b: string, row: nat, col: nat, s: Spot)
    ensures s in Row(a, b, row, col) <==>
      (a != [] || b != []) &&
      ((s == Spot(row, col, First(a, ' '), First(b, ' ')) && Shown(s.on, s.off))
       || s in Row(Rest(a), Rest(b), row, col + 1))
  {}

  lemma {:induction false} RowIs(a: string, b: string, row: nat, col: nat, s: Spot)
    ensures s in Row(a, b, row, col) <==>
      s.row == row && s.col >= col && Shown(s.on, s.off)
      && s.on == Glyph([a], 0, s.col - col) && s.off == Glyph([b], 0, s.col - col)
    decreases |a| + |b|
  {
    hide Row;
    InRow(a, b, row, col, s);
    if a != [] || b != [] {
      RowIs(Rest(a), Rest(b), row, col + 1, s);
    }
  }

  lemma InGrid(a: seq<string>, b: seq<string>, row: nat, s: Spot)
    ensures s in Grid(a, b, row) <==>
      (a != [] || b != []) &&
      (s in Row(First(a, []), First(b, []), row, 0) || s in Grid(Rest(a), Rest(b), row + 1))
  {}

  lemma GlyphRest(a: seq<string>, row: nat, col: nat)
    ensures row > 0 ==> Glyph(a, row, col) == Glyph(Rest(a), row - 1, col)
    ensures Glyph(a, 0, col) == Glyph([First(a, [])], 0, col)
  {}

  lemma {:induction false} GridIs(a: seq<string>, b: seq<string>, row: nat, s: Spot)
    ensures s in Grid(a, b, row) <==>
      s.row >= row && Shown(s.on, s.off)
      && s.on == Glyph(a, s.row - row, s.col) && s.off == Glyph(b, s.row - row, s.col)
    decreases |a| + |b|
  {
    hide Row, Grid;
    InGrid(a, b, row, s);
    if a != [] || b != [] {
      hide Glyph;
      RowIs(First(a, []), First(b, []), row, 0, s);
      GridIs(Rest(a), Rest(b), row + 1, s);
      if s.row >= row {
        GlyphRest(a, s.row - row, s.col);
        GlyphRest(b, s.row - row, s.col);
      }
    }
  }

  predicate Before(s: Spot, t: Spot) {
    s.row < t.row || (s.row == t.row && s.col < t.col)
  }

  ghost predicate InOrder(spots: seq<Spot>) {
    forall i, j :: 0 <= i < j < |spots| ==> Before(spots[i], spots[j])
  }

  lemma {:induction false} RowInOrder(a: string, b: string, row: nat, col: nat)
    ensures InOrder(Row(a, b, row, col))
    decreases |a| + |b|
  {
    if a != [] || b != [] {
      var rest := Row(Rest(a), Rest(b), row, col + 1);
      RowInOrder(Rest(a), Rest(b), row, col + 1);
      forall j | 0 <= j < |rest| ensures rest[j].row == row && rest[j].col > col {
        RowIs(Rest(a), Rest(b), row, col + 1, rest[j]);
      }
    }
  }

  lemma {:induction false} GridInOrder(a: seq<string>, b: seq<string>, row: nat)
    ensures InOrder(Grid(a, b, row))
    decreases |a| + |b|
  {
    if a != [] || b != [] {
      var line, rest := Row(First(a, []), First(b, []), row, 0), Grid(Rest(a), Rest(b), row + 1);
      RowInOrder(First(a, []), First(b, []), row, 0);
      GridInOrder(Rest(a), Rest(b), row + 1);
      forall i | 0 <= i < |line| ensures line[i].row == row {
        RowIs(First(a, []), First(b, []), row, 0, line[i]);
      }
      forall j | 0 <= j < |rest| ensures rest[j].row > row {
        GridIs(Rest(a), Rest(b), row + 1, rest[j]);
      }
    }
  }

  /** The merge shows each cell at which the two pictures are not both blank, once, with that pair of
      characters, in reading order. */
  lemma MergeIsExact(f0: string, f1: string)
    ensures var spots := Grid(Split(f0), Split(f1), 0);
      && InOrder(spots)
      && forall row: nat, col: nat, a: char, b: char ::
           Spot(row, col, a, b) in spots <==>
           a == Glyph(Split(f0), row, col) && b == Glyph(Split(f1), row, col) && Shown(a, b)
  {
    hide Grid, Glyph, Split;
    var spots := Grid(Split(f0), Split(f1), 0);
    GridInOrder(Split(f0), Split(f1), 0);
    forall row: nat, col: nat, a: char, b: char
      ensures Spot(row, col, a, b) in spots <==>
              a == Glyph(Split(f0), row, col) && b == Glyph(Split(f1), row, col) && Shown(a, b)
    {
      GridIs(Split(f0), Split(f1), 0, Spot(row, col, a, b));
    }
  }

  /** Pictures that fit the right half of the screen get distinct locations on it. */
  lemma FittingSpotsAreDistinct(spots: seq<Spot>)
    requires InOrder(spots)
    requires forall s :: s in spots ==> s.row < 25 && s.col < COLS - OFFSET
    ensures forall p :: p in PlaceAll(spots) ==> 1 <= p.location < 25 * COLS
    ensures forall i, j :: 0 <= i < j < |spots| ==> PlaceAll(spots)[i].location < PlaceAll(spots)[j].location
  {
    hide Place;
    var placed := PlaceAll(spots);
    forall i | 0 <= i < |spots| ensures placed[i].location == spots[i].row * COLS + spots[i].col + OFFSET {
      assert spots[i] in spots;
      FittingPlace(spots[i]);
    }
    forall i | 0 <= i < |spots| ensures spots[i].row < 25 && spots[i].col < COLS - OFFSET {
      assert spots[i] in spots;
    }
  }

  /** Where a spot goes, and which picture it shows in which phase. */
  lemma PlaceIs(s: Spot)
    ensures Place(s) == Placed((80 * s.row + s.col + 40) % 65536, s.on, s.off)
  {}

  lemma FittingPlace(s: Spot)
    requires s.row < 25 && s.col < COLS - OFFSET
    ensures Place(s).location == s.row * COLS + s.col + OFFSET
  {}

  lemma RowStep(a: string, b: string, row: nat, col: nat)
    ensures a == [] && b == [] ==> PlaceAll(Row(a, b, row, col)) == []
    ensures a != [] || b != [] ==>
      PlaceAll(Row(a, b, row, col)) ==
        (if Shown(First(a, ' '), First(b, ' ')) then [Place(Spot(row, col, First(a, ' '), First(b, ' ')))] else [])
        + PlaceAll(Row(Rest(a), Rest(b), row, col + 1))
  {}

  lemma GridStep(a: seq<string>, b: seq<string>, row: nat)
    ensures a == [] && b == [] ==> PlaceAll(Grid(a, b, row)) == []
    ensures a != [] || b != [] ==>
      PlaceAll(Grid(a, b, row)) ==
        PlaceAll(Row(First(a, []), First(b, []), row, 0)) + PlaceAll(Grid(Rest(a), Rest(b), row + 1))
  {}

  lemma SplitParts(s: string)
    ensures Split(s) == [s[..Find(s, '\n')]] + Rest(Split(s))
  {
    if Find(s, '\n') == |s| {
      assert s[..|s|] == s;
    }
  }

  /** The blink_struct that add_frames passes for a spot, and the adds of a whole picture. */
  function Blinks(p: Placed): B.Blinker {
    B.Blinker(p.location, p.onChar, p.offChar, 15, 15, 0, 0)
  }

  function Adds(placed: seq<Placed>): seq<B.Op> {
    seq(|placed|, i requires 0 <= i < |placed| => B.Op.Add(Blinks(placed[i])))
  }

  /** The list grows at its front. */
  function Piled(placed: seq<Placed>): seq<B.Blinker> {
    if placed == [] then [] else Piled(placed[1..]) + [B.Started(Blinks(placed[0]))]
  }

  lemma {:induction false} AddsPileUp(list: seq<B.Blinker>, placed: seq<Placed>)
    requires |list| + |placed| <= B.CELLS && forall p :: p in placed ==> p.location < B.CELLS
    ensures B.RunList(list, Adds(placed)) == Piled(placed) + list
    decreases |placed|
  {
    hide Blinks, B.RunList, B.Step, B.Started;
    if placed == [] {
      RunNothing(list);
    } else {
      assert Adds(placed)[1..] == Adds(placed[1..]);
      assert placed[0] in placed && forall p :: p in placed[1..] ==> p in placed;
      RunAdd(list, placed[0], Adds(placed));
      AddsPileUp([B.Started(Blinks(placed[0]))] + list, placed[1..]);
    }
  }

  lemma RunNothing(list: seq<B.Blinker>)
    ensures B.RunList(list, []) == list
  {}

  lemma RunAdd(list: seq<B.Blinker>, p: Placed, ops: seq<B.Op>)
    requires ops != [] && ops[0] == B.Op.Add(Blinks(p)) && p.location < B.CELLS && |list| < B.CELLS
    ensures B.RunList(list, ops) == B.RunList([B.Started(Blinks(p))] + list, ops[1..])
  {}

  lemma {:induction false} IncreasingIsShort(placed: seq<Placed>, i: nat)
    requires i < |placed|
    requires forall j, k :: 0 <= j < k < |placed| ==> placed[j].location < placed[k].location
    ensures placed[i].location >= i
  {
    if i > 0 { IncreasingIsShort(placed, i - 1); }
  }

  /** The adds for two pictures that fit are all taken: the list is the merge, latest spot first. */
  lemma PicturesFillTheList(f0: string, f1: string)
    requires forall s :: s in Grid(Split(f0), Split(f1), 0) ==> s.row < 25 && s.col < COLS - OFFSET
    ensures var placed := PlaceAll(Grid(Split(f0), Split(f1), 0));
      && B.RunList([], Adds(placed)) == Piled(placed) && |Piled(placed)| == |placed|
      && forall i :: 0 <= i < |placed| ==>
           Piled(placed)[|placed| - 1 - i]
           == B.Blinker(placed[i].location, placed[i].onChar, placed[i].offChar, 15, 15, 15, 1)
  {
    hide Grid, Split, Place, Piled, Adds, B.RunList;
    var spots := Grid(Split(f0), Split(f1), 0);
    var placed := PlaceAll(spots);
    GridInOrder(Split(f0), Split(f1), 0);
    FittingSpotsAreDistinct(spots);
    if placed != [] {
      IncreasingIsShort(placed, |placed| - 1);
      assert placed[|placed| - 1] in placed;
    }
    AddsPileUp([], placed);
    PiledIs(placed);
  }

  lemma {:induction false} PiledIs(placed: seq<Placed>)
    ensures |Piled(placed)| == |placed|
    ensures forall i :: 0 <= i < |placed| ==>
      Piled(placed)[|placed| - 1 - i]
      == B.Blinker(placed[i].location, placed[i].onChar, placed[i].offChar, 15, 15, 15, 1)
  {
    if placed != [] {
      var rest := placed[1..];
      PiledIs(rest);
      forall i | 0 < i < |placed|
        ensures Piled(placed)[|placed| - 1 - i] == Piled(rest)[|rest| - 1 - (i - 1)] && placed[i] == rest[i - 1] {}
    }
  }

  // ----- The program -----

  /** One file being read: the position, the last character, and whether the end was seen. */
  datatype Reader = Reader(text: string, pos: nat, c: char, eof: bool) {
    predicate Valid() {
      pos <= |text| && (eof ==> c == '\n')
    }

    /** What is left of the current line. */
    function Ahead(): string
      requires Valid()
    {
      if c == '\n' then [] else text[pos..][..Find(text[pos..], '\n')]
    }

    /** The lines after the current one. */
    function Later(): seq<string>
      requires Valid()
    {
      if eof then []
      else if c == '\n' then Split(text[pos..])
      else Rest(Split(text[pos..]))
    }
  }

  /** Read one character unless the line has ended. */
  method NextChar(r: Reader) returns (n: Reader)
    requires r.Valid()
    ensures n.Valid() && n.text == r.text
    ensures n.Ahead() == Rest(r.Ahead()) && n.Later() == r.Later()
    ensures if r.Ahead() == [] then n.c == '\n' else n.c == r.Ahead()[0] != '\n'
  {
    n := r;
    if r.c != '\n' {
      ghost var rest := r.text[r.pos..];
      if r.pos == |r.text| {
        n := n.(c := '\n', eof := true);
      } else {
        n := n.(c := r.text[r.pos], pos := r.pos + 1);
        assert rest[1..] == n.text[n.pos..];
        if n.c != '\n' {
          TailOfLine(rest);
        }
      }
    }
  }

  lemma TailOfLine(rest: string)
    requires rest != [] && rest[0] != '\n'
    ensures Find(rest, '\n') == Find(rest[1..], '\n') + 1
    ensures rest[..Find(rest, '\n')][1..] == rest[1..][..Find(rest[1..], '\n')]
    ensures Rest(Split(rest)) == Rest(Split(rest[1..]))
  {
    hide Split, Rest;
    var i := Find(rest[1..], '\n');
    FindIs(rest, '\n', i + 1);
    LinesAfter(rest);
    LinesAfter(rest[1..]);
    assert rest[1..][i..] == rest[i + 1..];
    if i < |rest| - 1 {
      assert rest[1..][i + 1..] == rest[i + 2..];
    }
    assert rest[..i + 1][1..] == rest[1..][..i];
  }

  lemma LinesAfter(s: string)
    ensures Rest(Split(s)) == if Find(s, '\n') == |s| then [] else Split(s[Find(s, '\n') + 1..])
  {
    hide Find;
    var i := Find(s, '\n');
    if i < |s| {
      assert Split(s) == [s[..i]] + Split(s[i + 1..]);
      RestOfCons(s[..i], Split(s[i + 1..]));
    }
  }

  lemma RestOfCons(line: string, lines: seq<string>)
    ensures Rest([line] + lines) == lines
  {}

  /** One row: both lines are read to their ends. */
  method AddRow(r0: Reader, r1: Reader, row: nat) returns (n0: Reader, n1: Reader, adds: seq<Placed>)
    requires r0.Valid() && r1.Valid()
    ensures n0.Valid() && n1.Valid() && n0.c == n1.c == '\n'
    ensures n0.text == r0.text && n1.text == r1.text && n0.Later() == r0.Later() && n1.Later() == r1.Later()
    ensures adds == PlaceAll(Row(r0.Ahead(), r1.Ahead(), row, 0))
  {
    hide Row, PlaceAll, Find, Split, Reader.Ahead, Reader.Later;
    n0, n1, adds := r0, r1, [];
    var col := 0;
    while true
      invariant n0.Valid() && n1.Valid()
      invariant n0.text == r0.text && n1.text == r1.text && n0.Later() == r0.Later() && n1.Later() == r1.Later()
      invariant PlaceAll(Row(r0.Ahead(), r1.Ahead(), row, 0)) == adds + PlaceAll(Row(n0.Ahead(), n1.Ahead(), row, col))
      decreases |n0.Ahead()| + |n1.Ahead()|
    {
      RowStep(n0.Ahead(), n1.Ahead(), row, col);
      n0 := NextChar(n0);
      n1 := NextChar(n1);
      if n0.c == '\n' && n1.c == '\n' {
        break;
      } else if (n0.c != ' ' && n0.c != '\n') || (n1.c != ' ' && n1.c != '\n') {
        var onChar := if n0.c == '\n' then ' ' else n0.c;
        var offChar := if n1.c == '\n' then ' ' else n1.c;
        adds := adds + [Placed((row * COLS + col + OFFSET) % U16, onChar, offChar)];
      }
      col := col + 1;
    }
  }

  /** After a row a file that has ended stays ended, and any other goes on to its next line. */
  method NextLine(r: Reader) returns (n: Reader)
    requires r.Valid() && r.c == '\n'
    ensures n.Valid() && n.text == r.text && n.eof == r.eof
    ensures if n.eof then r.Later() == [] && n.Ahead() == [] && n.Later() == []
            else n.c != '\n' && r.Later() == [n.Ahead()] + n.Later()
  {
    if !r.eof {
      SplitParts(r.text[r.pos..]);
    }
    n := if r.eof then r.(c := '\n') else r.(c := '0');
  }

  lemma Reassociate(a: seq<Placed>, b: seq<Placed>, c: seq<Placed>)
    ensures a + (b + c) == (a + b) + c
  {}

  lemma Ended(r: Reader)
    requires r.Valid()
    ensures r.eof ==> r.Ahead() == [] && r.Later() == []
  {}

  lemma Opening(text: string)
    ensures Split(text) == [Reader(text, 0, '0', false).Ahead()] + Reader(text, 0, '0', false).Later()
  {
    assert text[0..] == text;
    SplitParts(text);
  }

  /** `cells` holds the row and column of each add. */
  method AddFrames(f0: string, f1: string) returns (adds: seq<Placed>, ghost cells: seq<(nat, nat)>)
    ensures adds == PlaceAll(Grid(Split(f0), Split(f1), 0))
    ensures IsMerge(f0, f1, adds, cells)
  {
    hide Row, Grid, PlaceAll, Split, Find, Reader.Ahead, Reader.Later;
    var r0, r1 := Reader(f0, 0, '0', false), Reader(f1, 0, '0', false);
    var row := 0;
    adds := [];
    ghost var left0, left1 := Split(f0), Split(f1);
    Opening(f0);
    Opening(f1);
    while !r0.eof || !r1.eof
      invariant r0.Valid() && r1.Valid()
      invariant left0 == if r0.eof then [] else [r0.Ahead()] + r0.Later()
      invariant left1 == if r1.eof then [] else [r1.Ahead()] + r1.Later()
      invariant PlaceAll(Grid(Split(f0), Split(f1), 0)) == adds + PlaceAll(Grid(left0, left1, row))
      decreases |left0| + |left1|
    {
      var more;
      GridStep(left0, left1, row);
      Ended(r0);
      Ended(r1);
      r0, r1, more := AddRow(r0, r1, row);
      Reassociate(adds, more, PlaceAll(Grid(Rest(left0), Rest(left1), row + 1)));
      adds := adds + more;
      left0, left1 := Rest(left0), Rest(left1);
      r0 := NextLine(r0);
      r1 := NextLine(r1);
      row := row + 1;
    }
    GridStep([], [], row);
    cells := MergeCells(f0, f1);
  }

  /** One add for each cell that is not blank in both pictures, in reading order: at its place on the screen,
      the first picture's character in the on phase and the second's in the off phase. */
  ghost predicate IsMerge(f0: string, f1: string, adds: seq<Placed>, cells: seq<(nat, nat)>) {
    && |adds| == |cells|
    && (forall i, j :: 0 <= i < j < |cells| ==>
          cells[i].0 < cells[j].0 || (cells[i].0 == cells[j].0 && cells[i].1 < cells[j].1))
    && (forall row: nat, col: nat :: (row, col) in cells <==>
          Glyph(Split(f0), row, col) != ' ' || Glyph(Split(f1), row, col) != ' ')
    && (forall i :: 0 <= i < |cells| ==>
          var (row, col) := cells[i];
          adds[i] == Placed((80 * row + col + 40) % 65536, Glyph(Split(f0), row, col), Glyph(Split(f1), row, col)))
  }

  lemma MergeCells(f0: string, f1: string) returns (cells: seq<(nat, nat)>)
    ensures IsMerge(f0, f1, PlaceAll(Grid(Split(f0), Split(f1), 0)), cells)
  {
    hide Grid, Glyph, Split, Place;
    var spots := Grid(Split(f0), Split(f1), 0);
    cells := seq(|spots|, i requires 0 <= i < |spots| => (spots[i].row, spots[i].col));
    MergeIsExact(f0, f1);
    forall i | 0 <= i < |spots|
      ensures spots[i].on == Glyph(Split(f0), spots[i].row, spots[i].col)
      ensures spots[i].off == Glyph(Split(f1), spots[i].row, spots[i].col)
      ensures spots[i].on != ' ' || spots[i].off != ' '
    {
      var s := spots[i];
      assert Spot(s.row, s.col, s.on, s.off) in spots;
    }
    forall i | 0 <= i < |spots|
      ensures Place(spots[i]) == Placed((80 * cells[i].0 + cells[i].1 + 40) % 65536, spots[i].on, spots[i].off)
    {
      PlaceIs(spots[i]);
    }
    forall row: nat, col: nat
      ensures (row, col) in cells <==> Glyph(Split(f0), row, col) != ' ' || Glyph(Split(f1), row, col) != ' '
    {
      CellIn(f0, f1, spots, cells, row, col);
    }
  }

  lemma CellIn(f0: string, f1: string, spots: seq<Spot>, cells: seq<(nat, nat)>, row: nat, col: nat)
    requires spots == Grid(Split(f0), Split(f1), 0) && |cells| == |spots|
    requires forall i :: 0 <= i < |spots| ==> cells[i] == (spots[i].row, spots[i].col)
    ensures (row, col) in cells <==> Glyph(Split(f0), row, col) != ' ' || Glyph(Split(f1), row, col) != ' '
  {
    hide Grid, Glyph, Split;
    MergeIsExact(f0, f1);
    var a, b := Glyph(Split(f0), row, col), Glyph(Split(f1), row, col);
    if a != ' ' || b != ' ' {
      assert Spot(row, col, a, b) in spots;
      var i :| 0 <= i < |spots| && spots[i] == Spot(row, col, a, b);
      assert cells[i] == (row, col);
    }
    if (row, col) in cells {
      var i :| 0 <= i < |cells| && cells[i] == (row, col);
      assert Spot(row, col, spots[i].on, spots[i].off) in spots;
    }
  }
}
