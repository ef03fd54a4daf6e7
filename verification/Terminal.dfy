// The text terminal: an 80 by 25 buffer scrolled in place, as a window on an unbounded log.

module Terminal {
  import opened Common

  const WIDTH := 80
  const HEIGHT := 25
  const TAB_WIDTH := 8

  const NEWLINE: Byte := 10
  const RETURN: Byte := 13
  const BACKSPACE: Byte := 8
  const TAB: Byte := 9
  const ESCAPE: Byte := 27
  const SPACE: Byte := 32

  type Cell = x: int | 0 <= x < 0x1_0000

  // The character in the low byte, the colour in the high one.
  function VgaEntry(c: Byte, color: Byte): Cell {
    c + 256 * color
  }

  // The hardware takes the glyph from the low byte of a cell and the colours from the high one.
  predicate CellIs(cell: Cell, c: Byte, color: Byte) {
    cell % 256 == c && cell / 256 == color
  }

  lemma EntryIs(c: Byte, color: Byte)
    ensures CellIs(VgaEntry(c, color), c, color)
  {
  }

  // ---------------------------------------------------------------- the log

  // Every row ever shown, the cursor in it, and the current colour.
  datatype Log = Log(rows: seq<seq<Cell>>, row: nat, col: nat, color: Byte)

  ghost predicate LogOk(l: Log) {
    && |l.rows| >= HEIGHT && |l.rows| - HEIGHT <= l.row < |l.rows| && l.col < WIDTH
    && forall i :: 0 <= i < |l.rows| ==> |l.rows[i]| == WIDTH
  }

  function BlankRow(color: Byte): seq<Cell> {
    seq(80, _ => VgaEntry(SPACE, color))
  }

  ghost function Put(l: Log, c: Byte): Log
    requires LogOk(l)
  {
    var line: seq<Cell> := l.rows[l.row][l.col := VgaEntry(c, l.color)];
    l.(rows := l.rows[l.row := line])
  }

  // A row is added only when the cursor leaves the last one.
  ghost function NextRow(l: Log): Log {
    l.(rows := if l.row + 1 < |l.rows| then l.rows else l.rows + [BlankRow(l.color)], row := l.row + 1, col := 0)
  }

  // Spaces up to the next multiple of eight.
  ghost function Tabbed(l: Log): Log
    requires LogOk(l)
    decreases WIDTH - l.col
  {
    if l.col % TAB_WIDTH == 0 then l
    else if l.col + 1 == WIDTH then Put(l, SPACE).(col := WIDTH)
    else Tabbed(Put(l, SPACE).(col := l.col + 1))
  }

  ghost function Typed(l: Log, c: Byte): Log
    requires LogOk(l)
  {
    if c == NEWLINE then NextRow(l)
    else if c == RETURN then l.(col := 0)
    else if c == BACKSPACE then if l.col == 0 then l else Put(l.(col := l.col - 1), SPACE)
    else if c == TAB then Tabbed(l)
    else if c == ESCAPE then l
    else if l.col + 1 == WIDTH then NextRow(Put(l, c))
    else Put(l, c).(col := l.col + 1)
  }

  // A tab from one of the last seven columns would leave the screen.
  predicate Fits(col: nat, c: Byte) {
    c == TAB ==> !(73 <= col <= 79)
  }

  lemma {:induction false} TabColumn(l: Log)
    requires LogOk(l)
    ensures Tabbed(l).col == (l.col + 7) / 8 * 8
    ensures Tabbed(l).row == l.row && Tabbed(l).color == l.color && |Tabbed(l).rows| == |l.rows|
    ensures forall i :: 0 <= i < |l.rows| ==> |Tabbed(l).rows[i]| == WIDTH
    decreases WIDTH - l.col
  {
    hide VgaEntry;
    if l.col % TAB_WIDTH != 0 {
      NextTabStop(l.col);
      if l.col + 1 < WIDTH {
        TabColumn(Put(l, SPACE).(col := l.col + 1));
      }
    }
  }

  lemma NextTabStop(col: nat)
    requires col % TAB_WIDTH != 0
    ensures (col + 7) / 8 * 8 == (col + 1 + 7) / 8 * 8 && (col + 1 == WIDTH ==> (col + 7) / 8 * 8 == WIDTH)
  {
  }

  // A character keeps the cursor on the screen exactly when it is not such a tab.
  lemma StaysOnScreen(l: Log, c: Byte)
    requires LogOk(l)
    ensures LogOk(Typed(l, c)) <==> Fits(l.col, c)
  {
    if c == TAB {
      TabColumn(l);
    }
  }

  // From column 73, say, a tab leaves the column at 80.
  lemma TabLeavesScreen()
    ensures var l := Log(seq(25, _ => BlankRow(7)), 0, 73, 7);
            LogOk(l) && Typed(l, TAB).col == WIDTH && !LogOk(Typed(l, TAB))
  {
    TabColumn(Log(seq(25, _ => BlankRow(7)), 0, 73, 7));
  }

  // ---------------------------------------------------------------- texts

  // Typing stops at a tab that does not fit.
  ghost function TypedAll(l: Log, text: seq<Byte>): Log
    requires LogOk(l)
    decreases |text|
  {
    if text == [] then l
    else
      var before := TypedAll(l, text[..|text| - 1]);
      if LogOk(before) then Typed(before, text[|text| - 1]) else before
  }

  ghost predicate AllFit(l: Log, text: seq<Byte>)
    requires LogOk(l)
    decreases |text|
  {
    text == [] || (AllFit(l, text[..|text| - 1]) && Fits(TypedAll(l, text[..|text| - 1]).col, text[|text| - 1]))
  }

  lemma {:induction false} TextStaysOnScreen(l: Log, text: seq<Byte>)
    requires LogOk(l)
    ensures LogOk(TypedAll(l, text)) <==> AllFit(l, text)
    decreases |text|
  {
    if text != [] {
      var front := text[..|text| - 1];
      TextStaysOnScreen(l, front);
      if LogOk(TypedAll(l, front)) {
        StaysOnScreen(TypedAll(l, front), text[|text| - 1]);
      }
    }
  }

  lemma {:induction false} TablessTextsFit(l: Log, text: seq<Byte>)
    requires LogOk(l) && TAB !in text
    ensures AllFit(l, text)
  {
    if text != [] {
      TablessTextsFit(l, text[..|text| - 1]);
    }
  }

  predicate Printing(c: Byte) {
    c != NEWLINE && c != RETURN && c != BACKSPACE && c != TAB && c != ESCAPE
  }

  lemma PrintingStep(l: Log, c: Byte)
    requires LogOk(l) && Printing(c)
    ensures var n := Typed(l, c);
            && LogOk(n) && n.color == l.color && |n.rows| >= |l.rows|
            && n.row == l.row + (l.col + 1) / WIDTH && n.col == (l.col + 1) % WIDTH
            && n.rows[l.row][l.col] % 256 == c && n.rows[l.row][l.col] / 256 == l.color
            && forall i, j :: 0 <= i < |l.rows| && 0 <= j < WIDTH && (i != l.row || j != l.col) ==>
                 n.rows[i][j] == l.rows[i][j]
    ensures Typed(l, c).rows[l.row][l.col] == VgaEntry(c, l.color)
  {
    EntryIs(c, l.color);
    hide VgaEntry;
  }

  // Every cell from (row, from) up to (row, to) is a space in the colour, and no other cell of
  // the old rows has changed.
  ghost predicate Blanked(was: seq<seq<Cell>>, now: seq<seq<Cell>>, row: nat, from: int, to: int, color: Byte) {
    && |was| <= |now| && (forall i :: 0 <= i < |was| ==> |now[i]| == |was[i]|)
    && forall i, j :: 0 <= i < |was| && 0 <= j < |was[i]| ==>
         if i == row && from <= j < to then now[i][j] % 256 == 32 && now[i][j] / 256 == color
         else now[i][j] == was[i][j]
  }

  // A newline goes to the first column of the next row, which is blank if it is new; a carriage
  // return to the first column; a backspace one cell back, which it blanks, and from the first
  // column nowhere; a tab blanks the cells up to the next multiple of eight; an escape does
  // nothing.
  lemma ControlStep(l: Log, c: Byte)
    requires LogOk(l)
    ensures c == 10 ==>
              var n := Typed(l, c);
              && n.row == l.row + 1 && n.col == 0 && n.color == l.color && l.rows <= n.rows
              && |n.rows| == (if l.row + 1 < |l.rows| then |l.rows| else |l.rows| + 1)
              && forall i :: |l.rows| <= i < |n.rows| ==>
                   && |n.rows[i]| == 80
                   && forall x :: 0 <= x < 80 ==> n.rows[i][x] % 256 == 32 && n.rows[i][x] / 256 == l.color
    ensures c == 13 ==> Typed(l, c) == l.(col := 0)
    ensures c == 8 ==>
              var n, col := Typed(l, c), if l.col == 0 then 0 else l.col - 1;
              n.row == l.row && n.col == col && n.color == l.color && |n.rows| == |l.rows|
              && Blanked(l.rows, n.rows, l.row, col, l.col, l.color)
    ensures c == 9 ==>
              var n := Typed(l, c);
              n.row == l.row && n.col == (l.col + 7) / 8 * 8 && n.color == l.color && |n.rows| == |l.rows|
              && Blanked(l.rows, n.rows, l.row, l.col, n.col, l.color)
    ensures c == 27 ==> Typed(l, c) == l
  {
    EntryIs(SPACE, l.color);
    hide VgaEntry, Tabbed;
    if c == TAB {
      TabColumn(l);
      TabBlanks(l);
    }
  }

  lemma {:induction false} TabBlanks(l: Log)
    requires LogOk(l)
    ensures Blanked(l.rows, Tabbed(l).rows, l.row, l.col, Tabbed(l).col, l.color)
    ensures Tabbed(l).col >= l.col
    decreases WIDTH - l.col
  {
    EntryIs(SPACE, l.color);
    hide VgaEntry;
    if l.col % TAB_WIDTH != 0 && l.col + 1 < WIDTH {
      TabBlanks(Put(l, SPACE).(col := l.col + 1));
    }
  }

  // The row and the column of the i-th character typed from the cursor on.
  function RowOf(l: Log, i: nat): nat {
    l.row + (l.col + i) / WIDTH
  }

  function ColOf(l: Log, i: nat): (c: nat)
    ensures c < WIDTH
  {
    (l.col + i) % WIDTH
  }

  lemma PlaceStep(l: Log, n: nat)
    requires l.col < WIDTH
    ensures RowOf(l, 0) == l.row && ColOf(l, 0) == l.col
    ensures RowOf(l, n + 1) == RowOf(l, n) + (ColOf(l, n) + 1) / WIDTH && ColOf(l, n + 1) == (ColOf(l, n) + 1) % WIDTH
    ensures ColOf(l, n) < WIDTH
  {
  }

  lemma PlacesDiffer(l: Log, i: nat, n: nat)
    requires i < n
    ensures RowOf(l, i) != RowOf(l, n) || ColOf(l, i) != ColOf(l, n)
    ensures RowOf(l, i) <= RowOf(l, n)
  {
    var a, b := l.col + i, l.col + n;
    assert a == WIDTH * (a / WIDTH) + a % WIDTH && b == WIDTH * (b / WIDTH) + b % WIDTH;
  }

  // Where a run of printing characters lands: wrapped at eighty columns, in order, from the
  // cursor on, whatever scrolling it causes.
  lemma {:induction false} PrintingRunWraps(l: Log, text: seq<Byte>)
    requires LogOk(l) && forall i :: 0 <= i < |text| ==> Printing(text[i])
    ensures var after := TypedAll(l, text);
            && LogOk(after) && after.color == l.color
            && after.row == RowOf(l, |text|) && after.col == ColOf(l, |text|)
            && forall i :: 0 <= i < |text| ==>
                 RowOf(l, i) <= after.row && CellIs(after.rows[RowOf(l, i)][ColOf(l, i)], text[i], l.color)
    decreases |text|
  {
    hide Typed, RowOf, ColOf, LogOk, Printing;
    LogBounds(l);
    PlaceStep(l, |text|);
    if text != [] {
      var n := |text| - 1;
      var front := text[..n];
      PrintingRunWraps(l, front);
      var before := TypedAll(l, front);
      PrintingStep(before, text[n]);
      PlaceStep(l, n);
      LogBounds(before);
      LogBounds(Typed(before, text[n]));
      forall i | 0 <= i < |text|
        ensures RowOf(l, i) <= Typed(before, text[n]).row
        ensures CellIs(Typed(before, text[n]).rows[RowOf(l, i)][ColOf(l, i)], text[i], l.color)
      {
        if i < n {
          PlacesDiffer(l, i, n);
          PlaceStep(l, i);
        }
      }
    }
  }

  lemma LogBounds(l: Log)
    requires LogOk(l)
    ensures l.col < WIDTH && l.row < |l.rows| && forall i :: 0 <= i < |l.rows| ==> |l.rows[i]| == WIDTH
  {
  }

  // Nothing above the cursor ever changes.
  lemma RowsAboveAreFinal(l: Log, c: Byte)
    requires LogOk(l)
    ensures Typed(l, c).row >= l.row
    ensures |Typed(l, c).rows| >= |l.rows| && forall i :: 0 <= i < l.row ==> Typed(l, c).rows[i] == l.rows[i]
  {
    if c == TAB {
      TabKeepsRowsAbove(l);
    }
  }

  lemma {:induction false} TabKeepsRowsAbove(l: Log)
    requires LogOk(l)
    ensures Tabbed(l).row == l.row && |Tabbed(l).rows| == |l.rows|
    ensures forall i :: 0 <= i < l.row ==> Tabbed(l).rows[i] == l.rows[i]
    decreases WIDTH - l.col
  {
    if l.col % TAB_WIDTH != 0 && l.col + 1 < WIDTH {
      TabKeepsRowsAbove(Put(l, SPACE).(col := l.col + 1));
    }
  }

  // ---------------------------------------------------------------- the window

  function At(b: seq<Cell>, y: nat, x: nat): Cell
    requires |b| == 2000 && y < HEIGHT && x < WIDTH
  {
    b[80 * y + x]
  }

  // The buffer is the last 25 rows of the log.
  ghost predicate Shows(b: seq<Cell>, l: Log)
    requires |b| == 2000 && LogOk(l)
  {
    forall y: nat, x: nat :: y < HEIGHT && x < WIDTH ==> At(b, y, x) == l.rows[|l.rows| - HEIGHT + y][x]
  }

  ghost function ScreenRow(l: Log): int {
    l.row - (|l.rows| - HEIGHT)
  }

  lemma PutShows(b: seq<Cell>, l: Log, c: Byte)
    requires |b| == 2000 && LogOk(l) && Shows(b, l)
    ensures Shows(b[80 * ScreenRow(l) + l.col := VgaEntry(c, l.color)], Put(l, c))
  {
    var n := b[80 * ScreenRow(l) + l.col := VgaEntry(c, l.color)];
    forall y: nat, x: nat | y < HEIGHT && x < WIDTH
      ensures At(n, y, x) == Put(l, c).rows[|l.rows| - HEIGHT + y][x]
    {
      assert At(b, y, x) == l.rows[|l.rows| - HEIGHT + y][x];
    }
  }

  lemma ScrollShows(b: seq<Cell>, n: seq<Cell>, l: Log)
    requires |b| == 2000 && |n| == 2000 && LogOk(l) && Shows(b, l) && l.row + 1 == |l.rows|
    requires forall k :: 0 <= k < 1920 ==> n[k] == b[k + 80]
    requires forall k :: 1920 <= k < 2000 ==> n[k] == VgaEntry(SPACE, l.color)
    ensures Shows(n, NextRow(l))
  {
    forall y: nat, x: nat | y < HEIGHT && x < WIDTH
      ensures At(n, y, x) == NextRow(l).rows[|l.rows| + 1 - HEIGHT + y][x]
    {
      if y + 1 < HEIGHT {
        assert At(b, y + 1, x) == l.rows[|l.rows| - HEIGHT + y + 1][x];
      }
    }
  }

  // ---------------------------------------------------------------- the machine's view

  const PAGE_CELLS := 2048

  // The page of video memory, row after row, and the cursor. The column may have left the
  // screen.
  datatype Raw = Raw(cells: seq<Cell>, row: nat, col: nat, color: Byte)

  ghost predicate RawOk(r: Raw) {
    |r.cells| == PAGE_CELLS && r.row < HEIGHT
  }

  function Place(row: nat, col: nat): nat {
    row * 80 + col
  }

  ghost function RawPut(r: Raw, c: Byte): Raw
    requires RawOk(r) && Place(r.row, r.col) < PAGE_CELLS
  {
    r.(cells := r.cells[Place(r.row, r.col) := VgaEntry(c, r.color)])
  }

  ghost function RawScroll(cells: seq<Cell>, color: Byte): (scrolled: seq<Cell>)
    requires |cells| == PAGE_CELLS
    ensures |scrolled| == PAGE_CELLS
  {
    cells[80..2000] + BlankRow(color) + cells[2000..]
  }

  ghost function RawNewline(r: Raw): Raw
    requires RawOk(r)
  {
    if r.row + 1 < HEIGHT then r.(row := r.row + 1, col := 0)
    else r.(cells := RawScroll(r.cells, r.color), col := 0)
  }

  ghost function RawTab(r: Raw): Raw
    requires RawOk(r)
    decreases WIDTH - r.col
  {
    if r.col >= WIDTH || r.col % TAB_WIDTH == 0 then r else RawTab(RawPut(r, SPACE).(col := r.col + 1))
  }

  // The cell that the character writes, if any, lies in the page.
  ghost predicate CellMapped(r: Raw, c: Byte) {
    && (c == BACKSPACE && r.col > 0 ==> Place(r.row, r.col - 1) < PAGE_CELLS)
    && (Printing(c) ==> Place(r.row, r.col) < PAGE_CELLS)
  }

  // terminal_putchar, wherever the cursor is.
  ghost function RawTyped(r: Raw, c: Byte): Raw
    requires RawOk(r) && CellMapped(r, c)
  {
    if c == NEWLINE then RawNewline(r)
    else if c == RETURN then r.(col := 0)
    else if c == BACKSPACE then if r.col == 0 then r else RawPut(r.(col := r.col - 1), SPACE)
    else if c == TAB then RawTab(r)
    else if c == ESCAPE then r
    else if r.col + 1 == WIDTH then RawNewline(RawPut(r, c))
    else RawPut(r, c).(col := r.col + 1)
  }

  lemma {:induction false} RawTabKeeps(r: Raw)
    requires RawOk(r)
    ensures RawOk(RawTab(r)) && RawTab(r).row == r.row && RawTab(r).color == r.color
    decreases WIDTH - r.col
  {
    if r.col < WIDTH && r.col % TAB_WIDTH != 0 {
      RawTabKeeps(RawPut(r, SPACE).(col := r.col + 1));
    }
  }

  lemma RawTypedKeeps(r: Raw, c: Byte)
    requires RawOk(r) && CellMapped(r, c)
    ensures RawOk(RawTyped(r, c)) && RawTyped(r, c).color == r.color
  {
    hide VgaEntry;
    if c == TAB {
      RawTabKeeps(r);
    }
  }

  // The first 25 rows of the page are the last 25 of the log, and the cursors agree.
  ghost predicate RawShows(r: Raw, l: Log) {
    && RawOk(r) && LogOk(l) && Shows(r.cells[..2000], l)
    && r.row == ScreenRow(l) && r.col == l.col && r.color == l.color
  }

  lemma RawPutShows(r: Raw, l: Log, c: Byte)
    requires RawShows(r, l)
    ensures Place(r.row, r.col) < 2000 && RawShows(RawPut(r, c), Put(l, c))
  {
    hide VgaEntry, Shows;
    PutShows(r.cells[..2000], l, c);
    var at := Place(r.row, r.col);
    assert RawPut(r, c).cells[..2000] == r.cells[..2000][at := VgaEntry(c, r.color)];
  }

  lemma RawNewlineShows(r: Raw, before: Log, l: Log, col: nat)
    requires RawShows(r.(col := col), before) && l == NextRow(before)
    ensures RawShows(RawNewline(r), l)
  {
    hide VgaEntry;
    if r.row + 1 == HEIGHT {
      ScrollShows(r.cells[..2000], RawScroll(r.cells, r.color)[..2000], before);
    }
  }

  lemma {:induction false} RawTabShows(r: Raw, l: Log)
    requires RawShows(r, l) && Fits(l.col, TAB)
    ensures RawShows(RawTab(r), Tabbed(l))
    decreases WIDTH - r.col
  {
    hide VgaEntry, Shows, RawPut, Put;
    if r.col % TAB_WIDTH != 0 {
      RawPutShows(r, l, SPACE);
      PutKeepsColumns(r, l, SPACE);
      RawColShows(RawPut(r, SPACE), Put(l, SPACE), r.col + 1);
      RawTabShows(RawPut(r, SPACE).(col := r.col + 1), Put(l, SPACE).(col := l.col + 1));
    }
  }

  lemma PutKeepsColumns(r: Raw, l: Log, c: Byte)
    requires RawShows(r, l)
    ensures RawPut(r, c).col == r.col && Put(l, c).col == l.col
  {
    hide Shows, VgaEntry;
  }

  lemma RawColShows(r: Raw, l: Log, col: nat)
    requires RawShows(r, l) && col < WIDTH
    ensures RawShows(r.(col := col), l.(col := col))
  {
  }

  // While every tab fits, the page shows the log.
  lemma RawTypedShows(r: Raw, l: Log, c: Byte)
    requires RawShows(r, l) && Fits(l.col, c)
    ensures CellMapped(r, c) && RawShows(RawTyped(r, c), Typed(l, c))
  {
    hide VgaEntry, Shows, RawTab, Tabbed;
    if c == TAB {
      RawTabShows(r, l);
    } else if c == BACKSPACE {
      if r.col > 0 {
        RawColShows(r, l, r.col - 1);
        RawPutShows(r.(col := r.col - 1), l.(col := l.col - 1), SPACE);
      }
    } else if c == RETURN {
      RawColShows(r, l, 0);
    } else if c == NEWLINE {
      RawNewlineShows(r, l, NextRow(l), r.col);
    } else if Printing(c) {
      RawPutShows(r, l, c);
      PutKeepsColumns(r, l, c);
      if r.col + 1 == WIDTH {
        RawNewlineShows(RawPut(r, c), Put(l, c), NextRow(Put(l, c)), r.col);
      } else {
        RawColShows(RawPut(r, c), Put(l, c), r.col + 1);
      }
    }
  }

  // ---------------------------------------------------------------- texts in the page

  // Typing stops where the page ends.
  ghost function RawTypedAll(r: Raw, text: seq<Byte>): (after: Raw)
    requires RawOk(r)
    ensures RawOk(after)
    decreases |text|
  {
    if text == [] then r
    else
      var before := RawTypedAll(r, text[..|text| - 1]);
      var c := text[|text| - 1];
      if !CellMapped(before, c) then before
      else
        RawTypedKeeps(before, c);
        RawTyped(before, c)
  }

  ghost predicate AllMapped(r: Raw, text: seq<Byte>)
    requires RawOk(r)
    decreases |text|
  {
    text == [] || (AllMapped(r, text[..|text| - 1]) && CellMapped(RawTypedAll(r, text[..|text| - 1]), text[|text| - 1]))
  }

  lemma {:induction false} MappedAt(r: Raw, text: seq<Byte>, i: nat)
    requires RawOk(r) && AllMapped(r, text) && i < |text|
    ensures AllMapped(r, text[..i]) && CellMapped(RawTypedAll(r, text[..i]), text[i])
    decreases |text|
  {
    hide CellMapped, RawTyped;
    var n := |text| - 1;
    if i < n {
      MappedAt(r, text[..n], i);
      assert text[..n][..i] == text[..i];
    }
  }

  lemma {:induction false} BeforeColor(r: Raw, text: seq<Byte>)
    requires RawOk(r)
    ensures RawTypedAll(r, text).color == r.color
    decreases |text|
  {
    hide CellMapped, RawTyped;
    if text != [] {
      var before := RawTypedAll(r, text[..|text| - 1]);
      BeforeColor(r, text[..|text| - 1]);
      if CellMapped(before, text[|text| - 1]) {
        RawTypedKeeps(before, text[|text| - 1]);
      }
    }
  }

  // A cursor that a tab has put past the last column never wraps: printing goes on in the
  // cells that follow, and no row is ever added.
  lemma {:induction false} OverhangNeverWraps(r: Raw, text: seq<Byte>)
    requires RawOk(r) && r.col >= WIDTH && AllMapped(r, text) && forall i :: 0 <= i < |text| ==> Printing(text[i])
    ensures var after := RawTypedAll(r, text);
            && after.row == r.row && after.col == r.col + |text| && |after.cells| == PAGE_CELLS
            && forall k :: 0 <= k < PAGE_CELLS ==>
                 after.cells[k] == if Place(r.row, r.col) <= k < Place(r.row, r.col) + |text|
                                   then VgaEntry(text[k - Place(r.row, r.col)], r.color) else r.cells[k]
    decreases |text|
  {
    hide VgaEntry;
    if text != [] {
      var n := |text| - 1;
      OverhangNeverWraps(r, text[..n]);
      var before := RawTypedAll(r, text[..n]);
      var from := Place(r.row, r.col);
      assert Printing(text[n]) && before.col >= WIDTH && CellMapped(before, text[n]);
      assert Place(before.row, before.col) == from + n;
      var after := RawPut(before, text[n]).(col := before.col + 1);
      assert RawTypedAll(r, text) == after;
      BeforeColor(r, text[..n]);
      forall k | 0 <= k < PAGE_CELLS
        ensures after.cells[k] == if from <= k < from + n + 1 then VgaEntry(text[k - from], r.color) else r.cells[k]
      {
        if from <= k < from + n {
          assert text[..n][k - from] == text[k - from];
        }
      }
    }
  }

  // Only newline and carriage return bring such a cursor back at once.
  lemma OverhangEnds(r: Raw, c: Byte)
    requires RawOk(r) && r.col >= WIDTH && CellMapped(r, c)
    ensures RawTyped(r, c).col < WIDTH <==> c == NEWLINE || c == RETURN || (c == BACKSPACE && r.col == WIDTH)
    ensures c == TAB ==> RawTyped(r, c) == r
  {
    hide VgaEntry;
  }

  // ---------------------------------------------------------------- the driver

  class Screen {
    const buffer: array<Cell>
    var row: nat
    var column: nat
    var color: Byte

    // The cursor registers of the CRT controller, reached through an index port.
    var crtcIndex: Byte
    var cursorHigh: Byte
    var cursorLow: Byte

    ghost predicate Sized()
      reads this`row
    {
      buffer.Length == PAGE_CELLS && row < HEIGHT
    }

    ghost function State(): Raw
      reads this`row, this`column, this`color, buffer
    {
      Raw(buffer[..], row, column, color)
    }

    // The register holds the cursor's place, as far as its 16 bits go.
    ghost predicate Synced()
      reads this`row, this`column, this`cursorHigh, this`cursorLow
    {
      256 * cursorHigh + cursorLow == Place(row, column) % 0x1_0000
    }

    method OutIndex(value: Byte)
      modifies this`crtcIndex
      ensures crtcIndex == value
    {
      crtcIndex := value;
    }

    method OutData(value: Byte)
      modifies this`cursorHigh, this`cursorLow
      ensures cursorLow == (if crtcIndex == 0x0F then value else old(cursorLow))
      ensures cursorHigh == (if crtcIndex == 0x0E then value else old(cursorHigh))
    {
      if crtcIndex == 0x0F {
        cursorLow := value;
      } else if crtcIndex == 0x0E {
        cursorHigh := value;
      }
    }

    method SyncCursor()
      modifies this`crtcIndex, this`cursorHigh, this`cursorLow
      ensures Synced()
    {
      var pos := (row * 80 + column) % 0x1_0000;
      OutIndex(0x0F);
      OutData(pos % 256);
      OutIndex(0x0E);
      OutData(pos / 256 % 256);
    }

    // terminal_initialize, over whatever the page held.
    constructor ()
      ensures Sized() && Synced() && fresh(buffer)
      ensures RawShows(State(), Log(seq(25, _ => BlankRow(7)), 0, 0, 7))
    {
      buffer := new Cell[2048];
      row, column, color := 0, 0, 7;
      crtcIndex, cursorHigh, cursorLow := 0x0E, 0, 0;
      new;
      var y := 0;
      while y < HEIGHT
        invariant 0 <= y <= HEIGHT && row == column == 0 && color == 7
        invariant forall k :: 0 <= k < 80 * y ==> buffer[k] == VgaEntry(SPACE, 7)
      {
        var x := 0;
        while x < WIDTH
          invariant 0 <= x <= WIDTH && row == column == 0 && color == 7
          invariant forall k :: 0 <= k < 80 * y + x ==> buffer[k] == VgaEntry(SPACE, 7)
        {
          var index := y * 80 + x;
          buffer[index] := VgaEntry(SPACE, color);
          x := x + 1;
        }
        y := y + 1;
      }
      SyncCursor();
    }

    // The nested copy loops.
    method Scroll()
      requires buffer.Length == PAGE_CELLS
      modifies this`row, buffer
      ensures buffer[..] == RawScroll(old(buffer[..]), color)
      ensures row == if old(row) > 0 then old(row) - 1 else 0
    {
      var y := 1;
      while y < HEIGHT
        invariant 1 <= y <= HEIGHT && row == old(row)
        invariant forall k :: 0 <= k < 80 * (y - 1) ==> buffer[k] == old(buffer[k + 80])
        invariant forall k :: 80 * (y - 1) <= k < 2048 ==> buffer[k] == old(buffer[k])
      {
        var x := 0;
        while x < WIDTH
          invariant 0 <= x <= WIDTH && row == old(row)
          invariant forall k :: 0 <= k < 80 * (y - 1) + x ==> buffer[k] == old(buffer[k + 80])
          invariant forall k :: 80 * (y - 1) + x <= k < 2048 ==> buffer[k] == old(buffer[k])
        {
          var dst := (y - 1) * 80 + x;
          var src := y * 80 + x;
          buffer[dst] := buffer[src];
          x := x + 1;
        }
        y := y + 1;
      }
      var x := 0;
      while x < WIDTH
        invariant 0 <= x <= WIDTH && row == old(row)
        invariant forall k :: 0 <= k < 1920 ==> buffer[k] == old(buffer[k + 80])
        invariant forall k :: 1920 <= k < 1920 + x ==> buffer[k] == VgaEntry(SPACE, color)
        invariant forall k :: 1920 + x <= k < 2048 ==> buffer[k] == old(buffer[k])
      {
        var index := (HEIGHT - 1) * 80 + x;
        buffer[index] := VgaEntry(SPACE, color);
        x := x + 1;
      }
      if row > 0 {
        row := row - 1;
      }
    }

    method Newline()
      requires Sized()
      modifies this`row, this`column, buffer
      ensures Sized() && State() == RawNewline(old(State()))
    {
      hide VgaEntry, RawScroll;
      column := 0;
      row := row + 1;
      if row >= HEIGHT {
        Scroll();
      }
    }

    method PutEntryAt(c: Byte, entryColor: Byte, x: nat, y: nat)
      requires Place(y, x) < buffer.Length
      modifies buffer
      ensures buffer[..] == old(buffer[..])[Place(y, x) := VgaEntry(c, entryColor)]
      ensures buffer[y * 80 + x] % 256 == c && buffer[y * 80 + x] / 256 == entryColor
    {
      EntryIs(c, entryColor);
      var index := y * 80 + x;
      buffer[index] := VgaEntry(c, entryColor);
    }

    // The tab of terminal_putchar.
    method TabHere()
      requires Sized()
      modifies this`column, buffer
      ensures Sized() && State() == RawTab(old(State()))
    {
      hide VgaEntry;
      ghost var target := RawTab(State());
      while column < WIDTH && column % TAB_WIDTH != 0
        invariant Sized() && RawTab(State()) == target
        decreases WIDTH - column
      {
        PutEntryAt(SPACE, color, column, row);
        column := column + 1;
      }
    }

    // Wherever the cursor is; the register follows it.
    method PutChar(c: Byte)
      requires Sized() && CellMapped(State(), c)
      modifies this`row, this`column, this`crtcIndex, this`cursorHigh, this`cursorLow, buffer
      ensures Sized() && State() == RawTyped(old(State()), c)
      ensures old(Synced()) || c != ESCAPE ==> Synced()
    {
      hide VgaEntry, RawTab, RawScroll;
      if c == NEWLINE {
        Newline();
        SyncCursor();
        return;
      }
      if c == RETURN {
        column := 0;
        SyncCursor();
        return;
      }
      if c == BACKSPACE {
        if column > 0 {
          column := column - 1;
          PutEntryAt(SPACE, color, column, row);
        }
        SyncCursor();
        return;
      }
      if c == TAB {
        TabHere();
        SyncCursor();
        return;
      }
      if c == ESCAPE {
        return;
      }
      PutEntryAt(c, color, column, row);
      column := column + 1;
      if column == WIDTH {
        Newline();
      }
      SyncCursor();
    }

    method SetColor(newColor: Byte)
      modifies this`color
      ensures State() == old(State()).(color := newColor)
    {
      color := newColor;
    }

    // The whole of terminal_write: the page holds what typing the whole text leaves.
    method Write(text: seq<Byte>)
      requires Sized() && AllMapped(State(), text)
      modifies this`row, this`column, this`crtcIndex, this`cursorHigh, this`cursorLow, buffer
      ensures Sized() && State() == RawTypedAll(old(State()), text)
      ensures old(Synced()) ==> Synced()
    {
      hide RawTyped, CellMapped, Synced;
      ghost var start := State();
      var i := 0;
      assert text[..0] == [];
      while i < |text|
        invariant 0 <= i <= |text| && Sized() && State() == RawTypedAll(start, text[..i])
        invariant old(Synced()) ==> Synced()
      {
        MappedAt(start, text, i);
        assert text[..i + 1][..i] == text[..i];
        PutChar(text[i]);
        i := i + 1;
      }
      assert text[..i] == text;
    }
  }

  // A text whose tabs all fit stays in the page, and leaves what the log of the text shows.
  lemma {:induction false} TextShown(r: Raw, l: Log, text: seq<Byte>)
    requires RawOk(r) && LogOk(l) && RawShows(r, l) && AllFit(l, text)
    ensures AllMapped(r, text) && RawShows(RawTypedAll(r, text), TypedAll(l, text))
    decreases |text|
  {
    hide Typed, RawTyped, CellMapped, Fits, RawShows;
    ShownIsOk(r, l);
    if text != [] {
      var n := |text| - 1;
      TextShown(r, l, text[..n]);
      ShownIsOk(RawTypedAll(r, text[..n]), TypedAll(l, text[..n]));
      ColumnsAgree(RawTypedAll(r, text[..n]), TypedAll(l, text[..n]));
      RawTypedShows(RawTypedAll(r, text[..n]), TypedAll(l, text[..n]), text[n]);
    }
  }

  lemma ColumnsAgree(r: Raw, l: Log)
    requires RawShows(r, l)
    ensures r.col == l.col
  {
  }

  lemma ShownIsOk(r: Raw, l: Log)
    requires RawShows(r, l)
    ensures RawOk(r) && LogOk(l)
  {
  }
}
