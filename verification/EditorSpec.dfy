/** Lines and screen layout of the entry editor's text. */
module EditorSpec {
  import opened Bytes

  type Text = seq<char>

  // ----- lines

  /** Where the line that holds offset `i` starts. */
  function LineStart(t: Text, i: nat): (s: nat)
    requires i <= |t|
    ensures s <= i && (s == 0 || t[s - 1] == '\n') && '\n' !in t[s..i]
  {
    if i == 0 || t[i - 1] == '\n' then i
    else
      var s := LineStart(t, i - 1);
      assert t[s..i] == t[s..i - 1] + [t[i - 1]];
      s
  }

  /** Where it ends: at a newline or at the end of the text. */
  function LineEnd(t: Text, i: nat): (e: nat)
    requires i <= |t|
    ensures i <= e <= |t| && (e == |t| || t[e] == '\n') && '\n' !in t[i..e]
    decreases |t| - i
  {
    if i == |t| || t[i] == '\n' then i
    else
      var e := LineEnd(t, i + 1);
      assert t[i..e] == [t[i]] + t[i + 1..e];
      e
  }

  function Min(a: nat, b: nat): nat {
    if a < b then a else b
  }

  /** The same column one line down, or the end of the text when there is no line below. */
  function Below(t: Text, i: nat): (r: nat)
    requires i <= |t|
    ensures i <= r <= |t|
  {
    var s, e := LineStart(t, i), LineEnd(t, i);
    if e == |t| then e else e + 1 + Min(i - s, LineEnd(t, e + 1) - (e + 1))
  }

  /** The same column one line up, or the start of the text when there is no line above. */
  function Above(t: Text, i: nat): (r: nat)
    requires i <= |t|
    ensures r <= i
  {
    var s := LineStart(t, i);
    if s == 0 then 0
    else
      var p := LineStart(t, s - 1);
      LineEndFromStart(t, p, s - 1);
      p + Min(i - s, s - 1 - p)
  }

  lemma {:induction false} LineStartIs(t: Text, s: nat, i: nat)
    requires s <= i <= |t| && (s == 0 || t[s - 1] == '\n') && '\n' !in t[s..i]
    ensures LineStart(t, i) == s
    decreases i
  {
    if s < i {
      assert t[i - 1] == t[s..i][i - 1 - s];
      assert t[s..i - 1] == t[s..i][..i - 1 - s];
      LineStartIs(t, s, i - 1);
    }
  }

  lemma {:induction false} LineEndIs(t: Text, i: nat, e: nat)
    requires i <= e <= |t| && (e == |t| || t[e] == '\n') && '\n' !in t[i..e]
    ensures LineEnd(t, i) == e
    decreases e - i
  {
    if i < e {
      assert t[i] == t[i..e][0];
      assert t[i + 1..e] == t[i..e][1..];
      LineEndIs(t, i + 1, e);
    }
  }

  /** The line before a line start ends at the newline in between. */
  lemma LineEndFromStart(t: Text, p: nat, n: nat)
    requires n < |t| && t[n] == '\n' && p == LineStart(t, n)
    ensures LineEnd(t, p) == n
  {
    LineEndIs(t, p, n);
  }

  /** Moving down lands on the next line, in the same column or at its end. */
  lemma BelowIsNextLine(t: Text, i: nat)
    requires i <= |t| && LineEnd(t, i) < |t|
    ensures var s, e, r := LineStart(t, i), LineEnd(t, i), Below(t, i);
            LineStart(t, r) == e + 1 && r - (e + 1) == Min(i - s, LineEnd(t, e + 1) - (e + 1))
  {
    hide LineStart, LineEnd;
    var e, r := LineEnd(t, i), Below(t, i);
    PlainSplit(t, e + 1, r, LineEnd(t, e + 1));
    LineStartIs(t, e + 1, r);
  }

  lemma PlainSplit(t: Text, a: nat, m: nat, b: nat)
    requires a <= m <= b <= |t|
    ensures '\n' !in t[a..b] <==> '\n' !in t[a..m] && '\n' !in t[m..b]
  {
    assert t[a..b] == t[a..m] + t[m..b];
  }

  /** Moving up again comes back, whenever the line below is long enough to keep the column. */
  lemma AboveUndoesBelow(t: Text, i: nat)
    requires i <= |t| && LineEnd(t, i) < |t|
    requires i - LineStart(t, i) <= LineEnd(t, LineEnd(t, i) + 1) - (LineEnd(t, i) + 1)
    ensures Above(t, Below(t, i)) == i
  {
    hide LineStart, LineEnd;
    var s, e, r := LineStart(t, i), LineEnd(t, i), Below(t, i);
    BelowIsNextLine(t, i);
    PlainSplit(t, s, i, e);
    LineStartIs(t, s, e);
  }

  // ----- layout

  /** A screen row, and a column that keeps counting over the rows of a wrapped line. */
  datatype Place = Place(row: nat, col: nat)

  type Width = n: nat | n >= 1 witness 1

  /** One character cell further; the last cell of a row wraps. */
  function NextCell(p: Place, width: Width): Place {
    Place(if p.col % width == width - 1 then p.row + 1 else p.row, p.col + 1)
  }

  function Cells(p: Place, n: nat, width: Width): Place {
    if n == 0 then p else NextCell(Cells(p, n - 1, width), width)
  }

  function TabCells(col: nat): (n: nat)
    ensures 1 <= n <= 8
  {
    8 - col % 8
  }

  /** How many cells a character takes. */
  function CellCount(c: char, col: nat): nat {
    if c == '\t' then TabCells(col) else 1
  }

  function After(p: Place, c: char, width: Width): Place {
    if c == '\n' then Place(p.row + 1, 0) else Cells(p, CellCount(c, p.col), width)
  }

  /** Where offset `i` is put. No window is involved. */
  function PlaceOf(t: Text, i: nat, width: Width): Place
    requires i <= |t|
  {
    if i == 0 then Place(0, 0) else After(PlaceOf(t, i - 1, width), t[i - 1], width)
  }

  /** The display column within the line, tabs going to the next multiple of eight. */
  function Column(t: Text, i: nat): nat
    requires i <= |t|
  {
    if i == 0 || t[i - 1] == '\n' then 0
    else Column(t, i - 1) + CellCount(t[i - 1], Column(t, i - 1))
  }

  /** How many full rows lie before a column. */
  function FullRows(col: nat, width: Width): nat {
    col / width
  }

  /** The row counted line by line: each line above takes one row for every full width it has, and one more. */
  function ScreenRow(t: Text, i: nat, width: Width): nat
    requires i <= |t|
    decreases i
  {
    var s := LineStart(t, i);
    (if s == 0 then 0 else ScreenRow(t, s - 1, width) + 1) + FullRows(Column(t, i), width)
  }

  lemma {:induction false} CellsAre(p: Place, n: nat, width: Width, base: nat)
    requires p.row == base + p.col / width
    ensures Cells(p, n, width) == Place(base + (p.col + n) / width, p.col + n)
  {
    if n > 0 {
      CellsAre(p, n - 1, width, base);
      NextQuotient(p.col + n - 1, width);
    }
  }

  lemma NextQuotient(k: nat, width: Width)
    ensures (k + 1) / width == k / width + if k % width == width - 1 then 1 else 0
  {
    var q, r := k / width, k % width;
    if r == width - 1 {
      assert k + 1 == (q + 1) * width;
      DivModUnique(k + 1, width, q + 1, 0);
    } else {
      DivModUnique(k + 1, width, q, r + 1);
    }
  }

  /** Row by row or line by line, the layout is the same. */
  lemma {:induction false} PlaceIsReference(t: Text, i: nat, width: Width)
    requires i <= |t|
    ensures PlaceOf(t, i, width) == Place(ScreenRow(t, i, width), Column(t, i))
    decreases i
  {
    hide CellCount, Cells;
    if i > 0 {
      PlaceIsReference(t, i - 1, width);
      if t[i - 1] != '\n' {
        var s := LineStart(t, i);
        var base := if s == 0 then 0 else ScreenRow(t, s - 1, width) + 1;
        assert LineStart(t, i - 1) == s;
        CellsAre(PlaceOf(t, i - 1, width), CellCount(t[i - 1], Column(t, i - 1)), width, base);
      } else {
        DivModUnique(0, width, 0, 0);
      }
    } else {
      DivModUnique(0, width, 0, 0);
    }
  }

  // ----- cells and clicks

  /** A screen cell: row and column inside the window's frame. Rows count from the start of the text. */
  datatype Cell = Cell(row: int, x: int)

  /** Reading order. */
  ghost predicate Before(a: Cell, b: Cell) {
    a.row < b.row || (a.row == b.row && a.x < b.x)
  }

  function Across(col: nat, width: Width): (x: nat)
    ensures x < width
  {
    col % width
  }

  function CellAt(p: Place, width: Width): Cell {
    Cell(p.row, Across(p.col, width))
  }

  lemma NextCellIsLater(p: Place, width: Width)
    ensures Before(CellAt(p, width), CellAt(NextCell(p, width), width))
    ensures CellAt(NextCell(p, width), width) == Cell(p.row, Across(p.col, width) + 1)
            || CellAt(NextCell(p, width), width) == Cell(p.row + 1, 0)
  {
    var q, r := p.col / width, p.col % width;
    if r < width - 1 {
      DivModUnique(p.col + 1, width, q, r + 1);
    } else {
      DivModUnique(p.col + 1, width, q + 1, 0);
    }
  }

  lemma {:induction false} CellsAreLater(p: Place, m: nat, n: nat, width: Width)
    requires m < n
    ensures Before(CellAt(Cells(p, m, width), width), CellAt(Cells(p, n, width), width))
    decreases n - m
  {
    hide CellAt, NextCell;
    NextCellIsLater(Cells(p, n - 1, width), width);
    if m < n - 1 {
      CellsAreLater(p, m, n - 1, width);
    }
  }

  /** The first cell of an offset. */
  function Spot(t: Text, i: nat, width: Width): Cell
    requires i <= |t|
  {
    CellAt(PlaceOf(t, i, width), width)
  }

  lemma SpotIsLater(t: Text, i: nat, width: Width)
    requires i < |t|
    ensures Before(Spot(t, i, width), Spot(t, i + 1, width))
  {
    if t[i] != '\n' {
      var p := PlaceOf(t, i, width);
      CellsAreLater(p, 0, CellCount(t[i], p.col), width);
    }
  }

  /** Text is laid out in reading order. */
  lemma {:induction false} SpotsIncrease(t: Text, i: nat, j: nat, width: Width)
    requires i < j <= |t|
    ensures Before(Spot(t, i, width), Spot(t, j, width))
    decreases j - i
  {
    hide Spot;
    SpotIsLater(t, j - 1, width);
    if i < j - 1 {
      SpotsIncrease(t, i, j - 1, width);
    }
  }

  /** The last offset, up to `n`, that starts at or before a cell. */
  ghost function LastStart(t: Text, width: Width, c: Cell, n: nat): (i: nat)
    requires n <= |t|
    ensures i <= n
  {
    if n == 0 || !Before(c, Spot(t, n, width)) then n else LastStart(t, width, c, n - 1)
  }

  /** It is the offset that starts at or before the cell and whose successor starts after it. */
  lemma {:induction false} LastStartIs(t: Text, width: Width, c: Cell, i: nat, n: nat)
    requires i <= n <= |t| && !Before(c, Spot(t, i, width)) && (i < |t| ==> Before(c, Spot(t, i + 1, width)))
    ensures LastStart(t, width, c, n) == i
    decreases n
  {
    hide Spot;
    if i < n {
      if i + 1 < n { SpotsIncrease(t, i + 1, n, width); }
      LastStartIs(t, width, c, i, n - 1);
    }
  }

  /**
   Where a click puts the cursor, given the window: on the last offset that starts at or
   before the cell in reading order, if the cell is in the window's rows and on a row of
   the text, not left of it; otherwise the cursor stays.
   */
  ghost function Landing(t: Text, width: Width, top: nat, size: nat, cursor: nat, row: int, x: int): (i: nat)
    requires cursor <= |t|
    ensures i <= |t|
  {
    if 0 <= row < size && 0 <= x && top + row <= ScreenRow(t, |t|, width)
    then LastStart(t, width, Cell(top + row, x), |t|) else cursor
  }

  /** A click on an offset's own cell finds it. */
  lemma ClickOnOffset(t: Text, width: Width, i: nat)
    requires i <= |t|
    ensures LastStart(t, width, Spot(t, i, width), |t|) == i
  {
    hide Spot;
    if i < |t| { SpotIsLater(t, i, width); }
    LastStartIs(t, width, Spot(t, i, width), i, |t|);
  }

  /** A click anywhere in the cells of a tab finds the tab. */
  lemma ClickInsideTab(t: Text, width: Width, i: nat, n: nat)
    requires i < |t| && t[i] == '\t' && n < TabCells(PlaceOf(t, i, width).col)
    ensures LastStart(t, width, CellAt(Cells(PlaceOf(t, i, width), n, width), width), |t|) == i
  {
    var p := PlaceOf(t, i, width);
    CellsAreLater(p, n, TabCells(p.col), width);
    if n > 0 { CellsAreLater(p, 0, n, width); }
    LastStartIs(t, width, CellAt(Cells(p, n, width), width), i, |t|);
  }

  /** Past the last cell of a line's last row, a click finds the end of the line. */
  lemma ClickPastLineEnd(t: Text, width: Width, e: nat, x: int)
    requires e <= |t| && (e == |t| || t[e] == '\n') && x >= Spot(t, e, width).x
    ensures LastStart(t, width, Cell(Spot(t, e, width).row, x), |t|) == e
  {
    if e < |t| {
      assert PlaceOf(t, e + 1, width) == Place(PlaceOf(t, e, width).row + 1, 0);
    }
    LastStartIs(t, width, Cell(Spot(t, e, width).row, x), e, |t|);
  }

  /** Where the window starts after a redraw: unmoved if the row is in it, else moved as little as shows the row. */
  function Anchored(top: nat, row: nat, size: nat): (r: nat)
    requires size >= 1
    ensures r <= row < r + size
  {
    if row < top then row else if row >= top + size then row - size + 1 else top
  }
}
