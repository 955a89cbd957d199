/** The entry editor: a text edited in place, and the window it is shown through. */
module Editor {
  import opened Bytes
  import opened EditorSpec

  const BUFFER_SIZE: nat := 4096

  /** A key that edits or moves, or a click, in cells from the window's top left corner. */
  datatype Event = Pressed(key: Key) | Clicked(row: int, x: int)

  datatype Key =
    | Down | Up | Left | Right | Home | End | Backspace | Delete
    | Type(c: char) | Wheel(lines: int)

  /** Characters the editor takes: printable ASCII, the upper half of Latin-1, newline and tab. */
  predicate Acceptable(c: char) {
    ' ' <= c <= '~' || 0xa0 as char <= c <= 0xff as char || c == '\n' || c == '\t'
  }

  function Inserted(t: Text, i: nat, c: char): Text
    requires i <= |t|
  {
    t[..i] + [c] + t[i..]
  }

  function Removed(t: Text, i: nat): Text
    requires i <= |t|
  {
    if i == |t| then t else t[..i] + t[i + 1..]
  }

  /** The text and the cursor, as values. */
  datatype Document = Doc(text: Text, cursor: nat)

  predicate Editable(d: Document) {
    d.cursor <= |d.text| < BUFFER_SIZE
  }

  /** What a key makes of a document: a character sequence with one insertion point. */
  function Edited(d: Document, k: Key): (r: Document)
    requires Editable(d)
    ensures Editable(r)
  {
    var Doc(t, i) := d;
    match k
    case Down => Doc(t, Below(t, i))
    case Up => Doc(t, Above(t, i))
    case Left => Doc(t, if i == 0 then 0 else i - 1)
    case Right => Doc(t, Min(i + 1, |t|))
    case Home => Doc(t, LineStart(t, i))
    case End => Doc(t, LineEnd(t, i))
    case Backspace => if i == 0 then d else Doc(Removed(t, i - 1), i - 1)
    case Delete => Doc(Removed(t, i), i)
    case Type(c) => if |t| < BUFFER_SIZE - 1 && Acceptable(c) then Doc(Inserted(t, i, c), i + 1) else d
    case Wheel(lines) => Doc(t, Wheeled(t, i, lines))
  }

  /** Backspace takes back what was just typed, and Delete what the cursor was moved left over. */
  lemma TypingIsUndone(d: Document, c: char)
    requires Editable(d) && |d.text| < BUFFER_SIZE - 1 && Acceptable(c)
    ensures Edited(Edited(d, Type(c)), Backspace) == d
    ensures Edited(Edited(Edited(d, Type(c)), Left), Delete) == d
  {
    assert Removed(Inserted(d.text, d.cursor, c), d.cursor) == d.text;
  }

  /** A document and the row its window starts at. */
  datatype Session = Session(doc: Document, top: nat)

  /** What the redraw makes of the window. */
  function Redrawn(d: Document, top: nat, width: Width, size: nat): (s: Session)
    requires Editable(d) && size >= 1
    ensures Editable(s.doc)
  {
    Session(d, Anchored(top, ScreenRow(d.text, d.cursor, width), size))
  }

  /** What one event and the redraw make of a session. */
  ghost function Stepped(s: Session, e: Event, width: Width, size: nat): (r: Session)
    requires Editable(s.doc) && size >= 1
    ensures Editable(r.doc)
  {
    match e
    case Pressed(key) => Redrawn(Edited(s.doc, key), s.top, width, size)
    case Clicked(row, x) =>
      var Doc(t, i) := s.doc;
      Redrawn(Doc(t, Landing(t, width, s.top, size, i, row, x)), s.top, width, size)
  }

  /** Keys, wheel and clicks, one after the other. */
  ghost function AllEdited(s: Session, events: seq<Event>, width: Width, size: nat): (r: Session)
    requires Editable(s.doc) && size >= 1
    ensures Editable(r.doc)
  {
    if events == [] then s
    else Stepped(AllEdited(s, events[..|events| - 1], width, size), events[|events| - 1], width, size)
  }

  class Editor {
    const buffer: array<char>
    const width: Width
    const windowSize: nat
    var cursor: nat
    var windowRow: nat
    /** Which offset each cell on screen holds. */
    var cells: map<Cell, nat>
    /** The text, as a value. */
    ghost var text: Text

    /** The buffer holds the text, terminated; the cursor is in it or at its end. */
    ghost predicate Valid()
      reads this`cursor, this`text, buffer
    {
      && buffer.Length == BUFFER_SIZE && windowSize >= 1
      && |text| <= BUFFER_SIZE - 1
      && buffer[..|text|] == text && buffer[|text|] == '\0' && '\0' !in text
      && cursor <= |text|
    }

    lemma CharAt(i: nat)
      requires Valid() && i <= |text|
      ensures i < buffer.Length && buffer[i] == if i < |text| then text[i] else '\0'
      ensures buffer[i] == '\0' <==> i == |text|
    {
      if i < |text| {
        assert buffer[i] == buffer[..|text|][i];
      }
    }

    /** Leading newlines are dropped; an entry that then does not fit is not edited at all. */
    constructor (entry: Text, width: Width, windowSize: nat)
      requires '\0' !in entry && |entry| - Leading(entry) < BUFFER_SIZE && windowSize >= 1
      ensures Valid() && text == entry[Leading(entry)..] && cursor == 0 && fresh(buffer)
      ensures this.width == width && this.windowSize == windowSize && windowRow == 0
    {
      var skip := Leading(entry);
      this.width, this.windowSize, cursor, windowRow, cells := width, windowSize, 0, 0, map[];
      buffer := new char[BUFFER_SIZE](i requires 0 <= i => if i < |entry| - skip then entry[skip + i] else '\0');
      text := entry[skip..];
      new;
      assert forall i :: 0 <= i < |text| ==> text[i] in entry;
    }

    method Length() returns (n: nat)
      requires Valid()
      ensures n == |text|
    {
      n := 0;
      CharAt(0);
      while buffer[n] != '\0'
        invariant n <= |text|
        decreases |text| - n
      {
        CharAt(n);
        n := n + 1;
        CharAt(n);
      }
      CharAt(n);
    }

    // ----- moving by lines

    method LineOffset(index: nat) returns (offset: nat)
      requires Valid() && index <= |text|
      ensures offset == LineStart(text, index)
    {
      hide Valid;
      Bounds();
      offset := 0;
      var i, left := 0, index;
      CharAt(0);
      while buffer[i] != '\0'
        invariant i <= index && left == index - i && offset == LineStart(text, i)
        invariant i <= |text|
        decreases |text| - i
      {
        CharAt(i);
        if left == 0 {
          break;
        }
        left := left - 1;
        if buffer[i] == '\n' {
          offset := i + 1;
        }
        i := i + 1;
        CharAt(i);
      }
      CharAt(i);
    }

    method LineLength(index: nat) returns (n: nat)
      requires Valid() && index <= |text|
      ensures index + n == LineEnd(text, index)
    {
      hide Valid;
      Bounds();
      var i := index;
      CharAt(i);
      while buffer[i] != '\n' && buffer[i] != '\0'
        invariant index <= i <= |text| && LineEnd(text, i) == LineEnd(text, index)
        decreases |text| - i
      {
        CharAt(i);
        i := i + 1;
        CharAt(i);
      }
      CharAt(i);
      n := i - index;
    }

    method NextLine(from: nat) returns (to: nat)
      requires Valid() && from <= |text|
      ensures to == Below(text, from)
    {
      hide LineStart, LineEnd, Valid;
      Bounds();
      CharAt(from);
      LineEndStep(text, from);
      if buffer[from] == '\0' {
        return from;
      }
      var offset := LineOffset(from);
      var displacement := from - offset;
      var found, index := ToNewline(from);
      if !found {
        return index;
      }
      index := index + 1;
      var length := LineLength(index);
      if displacement > length {
        displacement := length;
      }
      return index + displacement;
    }

    /** Up to the end of the line; `found` if that is a newline and not the end of the text. */
    method ToNewline(from: nat) returns (found: bool, index: nat)
      requires Valid() && from <= |text|
      ensures index == LineEnd(text, from) && (found <==> index < |text|)
    {
      hide LineEnd, Valid;
      Bounds();
      index := from;
      CharAt(index);
      while buffer[index] != '\n'
        invariant from <= index <= |text| && LineEnd(text, index) == LineEnd(text, from)
        decreases |text| - index
      {
        CharAt(index);
        LineEndStep(text, index);
        if buffer[index] == '\0' {
          return false, index;
        }
        index := index + 1;
        CharAt(index);
      }
      CharAt(index);
      LineEndStep(text, index);
      return true, index;
    }

    method PrevLine(from: nat) returns (to: nat)
      requires Valid() && from <= |text|
      ensures to == Above(text, from)
    {
      hide LineStart, LineEnd, Valid;
      var offset := LineOffset(from);
      var displacement := from - offset;
      if offset != 0 {
        var previous := LineOffset(offset - 1);
        LineEndFromStart(text, previous, offset - 1);
        var length := LineLength(previous);
        if displacement > length {
          displacement := length;
        }
        return previous + displacement;
      }
      return offset;
    }

    // ----- editing in place

    /** Shifts the tail up by one and stores the character, unless the buffer is full. */
    method Insert(c: char)
      requires Valid()
      modifies this`cursor, this`text, buffer
      ensures Valid()
      ensures if |old(text)| < BUFFER_SIZE - 1 && Acceptable(c)
              then text == Inserted(old(text), old(cursor), c) && cursor == old(cursor) + 1
              else text == old(text) && cursor == old(cursor)
    {
      var n := Length();
      if n < BUFFER_SIZE - 1 {
        if Acceptable(c) {
          ShiftUp(n, cursor);
          buffer[cursor] := c;
          assert buffer[..n + 1] == Inserted(text, cursor, c);
          text := Inserted(text, cursor, c);
          cursor := cursor + 1;
        }
      }
    }

    method ShiftUp(n: nat, from: nat)
      requires from <= n && n + 1 < buffer.Length
      modifies buffer
      ensures buffer[..from] == old(buffer[..from]) && buffer[from + 1..n + 2] == old(buffer[from..n + 1])
    {
      var i := n;
      while true
        invariant from <= i <= n
        invariant buffer[..i + 1] == old(buffer[..i + 1])
        invariant forall j :: i + 1 < j <= n + 1 ==> buffer[j] == old(buffer[j - 1])
        decreases i
      {
        assert buffer[i] == buffer[..i + 1][i] == old(buffer[..i + 1])[i];
        buffer[i + 1] := buffer[i];
        if i == from {
          break;
        }
        assert buffer[..i] == old(buffer[..i + 1])[..i] == old(buffer[..i]);
        i := i - 1;
      }
      assert buffer[..from] == old(buffer[..from]);
    }

    /** Shifts the tail down by one over the character at the cursor. */
    method DeleteAtCursor()
      requires Valid()
      modifies this`text, buffer
      ensures Valid() && text == Removed(old(text), old(cursor))
    {
      var n := Length();
      ghost var t, t' := text, Removed(text, cursor);
      assert forall j :: 0 <= j < |t'| ==> t'[j] in t;
      assert forall j :: 0 <= j < n ==> t[j] in t && buffer[j] == buffer[..n][j];
      ShiftDown(n, cursor);
      assert buffer[..|t'|] == t';
      text := t';
    }

    /** Copies each character up to the terminator one place down. */
    method ShiftDown(n: nat, from: nat)
      requires from <= n < buffer.Length && buffer[n] == '\0' && forall j :: from <= j < n ==> buffer[j] != '\0'
      modifies buffer
      ensures forall j :: 0 <= j < from ==> buffer[j] == old(buffer[j])
      ensures forall j :: from <= j < n ==> buffer[j] == old(buffer[j + 1])
      ensures buffer[n] == '\0'
    {
      var i := from;
      while i < n
        invariant from <= i <= n
        invariant forall j :: 0 <= j < buffer.Length && !(from <= j < i) ==> buffer[j] == old(buffer[j])
        invariant forall j :: from <= j < i ==> buffer[j] == old(buffer[j + 1])
      {
        buffer[i] := buffer[i + 1];
        if buffer[i] == '\0' {
          assert i + 1 == n;
          break;
        }
        i := i + 1;
      }
    }

    /** What a key does to the text and the cursor. */
    method Press(k: Key)
      requires Valid()
      modifies this`cursor, this`text, buffer
      ensures Valid()
      ensures Doc(text, cursor) == Edited(Doc(old(text), old(cursor)), k)
    {
      hide LineStart, LineEnd, Above, Below, Removed, Inserted, Wheeled;
      Bounds();
      match k
      case Down => cursor := NextLine(cursor);
      case Up => cursor := PrevLine(cursor);
      case Left =>
        if cursor > 0 {
          cursor := cursor - 1;
        }
      case Right =>
        var n := Length();
        if cursor < n {
          cursor := cursor + 1;
        }
      case Home =>
        var offset := LineOffset(cursor);
        cursor := offset;
      case End =>
        var n := LineLength(cursor);
        cursor := cursor + n;
      case Backspace =>
        if cursor > 0 {
          RemovedFits(text, cursor - 1);
          cursor := cursor - 1;
          DeleteAtCursor();
        }
      case Delete => DeleteAtCursor();
      case Type(c) => Insert(c);
      case Wheel(lines) => TurnWheel(lines);
    }

    lemma RemovedFits(t: Text, i: nat)
      requires i < |t|
      ensures |Removed(t, i)| == |t| - 1
    {
    }

    method TurnWheel(lines: int)
      requires Valid()
      modifies this`cursor
      ensures Valid() && cursor == Wheeled(text, old(cursor), lines)
    {
      hide Above, Below;
      var i := lines;
      while i < 0
        invariant Valid() && (lines >= 0 ==> i == lines) && (lines < 0 ==> lines <= i <= 0)
        invariant Wheeled(text, cursor, i) == Wheeled(text, old(cursor), lines)
      {
        cursor := PrevLine(cursor);
        i := i + 1;
      }
      i := if lines > 0 then lines else 0;
      while i > 0
        invariant Valid() && i >= 0
        invariant Wheeled(text, cursor, i) == Wheeled(text, old(cursor), lines)
      {
        cursor := NextLine(cursor);
        i := i - 1;
      }
    }

    // ----- drawing

    method MapCell(row: nat, col: nat, i: nat)
      modifies this`cells
      ensures cells == old(cells)[CellAt(Place(row, col), width) := i]
    {
      cells := cells[CellAt(Place(row, col), width) := i];
    }

    /** The cells of one character that is neither newline nor terminator: one, or a tab's worth. */
    method DrawCharacter(i: nat, row0: nat, col0: nat) returns (row: nat, col: nat)
      requires Valid() && i < |text| && text[i] != '\n' && Place(row0, col0) == PlaceOf(text, i, width)
      requires Shows(cells, text, width, windowRow, windowSize, i, Spot(text, i, width))
      modifies this`cells
      ensures Place(row, col) == PlaceOf(text, i + 1, width)
      ensures Shows(cells, text, width, windowRow, windowSize, i + 1, Spot(text, i + 1, width))
    {
      hide Valid, Shows, Across, TabCells;
      row, col := row0, col0;
      CharAt(i);
      var spaces := if buffer[i] == '\t' then TabCells(col) else 0;
      ghost var total, n := CellCount(text[i], col0), 0;
      ghost var start := Place(row0, col0);
      while true
        invariant Valid() && n < total && Place(row, col) == Cells(start, n, width)
        invariant spaces == if text[i] == '\t' then total - n else 0
        invariant Shows(cells, text, width, windowRow, windowSize,
                        if n == 0 then i else i + 1, CellAt(Place(row, col), width))
        decreases total - n
      {
        ghost var here, before := Place(row, col), cells;
        var early := false;
        if col % width == width - 1 {
          if windowRow <= row < windowRow + windowSize {
            MapCell(row, col, i);
          }
          if spaces != 0 {
            spaces := spaces - 1;
          }
          early := true;
          row := row + 1;
        }
        if !early {
          if windowRow <= row < windowRow + windowSize {
            MapCell(row, col, i);
          }
          if spaces != 0 {
            spaces := spaces - 1;
          }
        }
        col := col + 1;
        ShowsNextCell(before, cells, text, width, windowRow, windowSize, i, n, here, start);
        n := n + 1;
        if spaces == 0 {
          break;
        }
      }
    }

    /**
     The walk over the text that draws the window. What row an offset is on does not
     depend on the window; only which cells are recorded does.
     */
    method Draw() returns (cursorRow: nat, shown: bool, lastRow: nat)
      requires Valid()
      modifies this`cells
      ensures cursorRow == ScreenRow(text, cursor, width) && lastRow == ScreenRow(text, |text|, width)
      ensures shown <==> windowRow <= cursorRow < windowRow + windowSize
      ensures OnScreen(cells, text, width, windowRow, windowSize)
    {
      hide Valid, Shows, Across, ScreenRow, Column, CellCount, PlaceOf;
      Bounds();
      cells := map[];
      cursorRow, shown := 0, false;
      var row: nat, col: nat, i: nat := 0, 0, 0;
      ShowsNothing(text, width, windowRow, windowSize);
      PlaceZero(text, width);
      while true
        invariant Valid() && i <= |text| && Place(row, col) == PlaceOf(text, i, width)
        invariant Shows(cells, text, width, windowRow, windowSize, i, Spot(text, i, width))
        invariant cursor < i ==> cursorRow == PlaceOf(text, cursor, width).row
        invariant cursor < i ==> (shown <==> windowRow <= cursorRow < windowRow + windowSize)
        invariant cursor >= i ==> !shown
        decreases |text| - i
      {
        if i == cursor {
          cursorRow := row;
          if windowRow <= row < windowRow + windowSize {
            shown := true;
          }
        }
        CharAt(i);
        ghost var before := cells;
        if buffer[i] == '\n' && windowRow <= row < windowRow + windowSize {
          MapCell(row, col, i);
          ShowsNextLine(before, cells, text, width, windowRow, windowSize, i);
          row, col, i := row + 1, 0, i + 1;
          continue;
        }
        if buffer[i] == '\0' {
          if windowRow <= row < windowRow + windowSize {
            MapCell(row, col, i);
          }
          ShowsEnd(before, cells, text, width, windowRow, windowSize);
          break;
        }
        if buffer[i] == '\n' {
          ShowsNextLine(before, cells, text, width, windowRow, windowSize, i);
          row, col, i := row + 1, 0, i + 1;
          continue;
        }
        row, col := DrawCharacter(i, row, col);
        i := i + 1;
      }
      lastRow := row;
      PlaceIsReference(text, cursor, width);
      PlaceIsReference(text, |text|, width);
    }

    lemma Bounds()
      requires Valid()
      ensures windowSize >= 1 && cursor <= |text| < buffer.Length == BUFFER_SIZE
    {
    }

    /**
     The redraw. When the cursor falls outside, the window is anchored to its row and
     drawn once more, and then the cursor is inside: there is never a third pass.
     */
    method Refresh() returns (passes: nat)
      requires Valid()
      modifies this`cells, this`windowRow
      ensures passes <= 2
      ensures Visible() && OnScreen(cells, text, width, windowRow, windowSize)
      ensures passes == 1 <==> old(windowRow) <= ScreenRow(text, cursor, width) < old(windowRow) + windowSize
      ensures windowRow == Anchored(old(windowRow), ScreenRow(text, cursor, width), windowSize)
    {
      hide Valid, ScreenRow, OnScreen;
      Bounds();
      passes := 0;
      while true
        invariant Valid() && passes <= 1
        invariant passes == 0 ==> windowRow == old(windowRow)
        invariant passes == 1 ==>
                    && windowRow == Anchored(old(windowRow), ScreenRow(text, cursor, width), windowSize)
                    && Visible() && !(old(windowRow) <= ScreenRow(text, cursor, width) < old(windowRow) + windowSize)
        decreases 2 - passes
      {
        var cursorRow, shown, lastRow := Draw();
        passes := passes + 1;
        if !shown {
          var anchor := cursorRow;
          if cursorRow >= windowRow + windowSize {
            anchor := cursorRow - windowSize + 1;
          }
          if anchor != windowRow {
            windowRow := anchor;
            continue;
          }
        }
        break;
      }
    }

    /** The offset drawn at a cell or, failing that, at the nearest drawn cell to its left. */
    method CellToOffset(row: int, x: int) returns (ok: bool, offset: nat)
      ensures ok ==> exists k :: Nearest(cells, row, k, x, width) && cells[Cell(row, k)] == offset
      ensures !ok ==> forall k :: 0 <= k <= x && k <= width ==> !Filled(cells, row, k)
    {
      var i := (if x > width then width else x) + 1;
      offset := 0;
      while i > 0
        invariant i <= x + 1 && i <= width + 1
        invariant forall k :: 0 <= k && i <= k <= x && k <= width ==> !Filled(cells, row, k)
      {
        i := i - 1;
        if Filled(cells, row, i) {
          assert Nearest(cells, row, i, x, width);
          return true, cells[Cell(row, i)];
        }
      }
      return false, offset;
    }

    /** Where a click puts the cursor; `moved` is false when there is nothing on that row to its left. */
    method Click(row: int, x: int) returns (moved: bool)
      requires Valid() && OnScreen(cells, text, width, windowRow, windowSize)
      modifies this`cursor
      ensures Valid()
      ensures cursor == Landing(text, width, windowRow, windowSize, old(cursor), row, x)
      ensures !moved ==> cursor == old(cursor)
    {
      hide OnScreen, Landing;
      var offset;
      moved, offset := CellToOffset(windowRow + row, x);
      if moved {
        ghost var k :| Nearest(cells, windowRow + row, k, x, width) && cells[Cell(windowRow + row, k)] == offset;
        NearestLands(cells, text, width, windowRow, windowSize, cursor, row, x, k);
        cursor := offset;
      } else {
        NothingLands(cells, text, width, windowRow, windowSize, cursor, row, x, windowRow + row);
      }
    }

    /** One event and, unless it was a click on nothing, the redraw after it. */
    method Handle(e: Event)
      requires Valid() && Visible() && OnScreen(cells, text, width, windowRow, windowSize)
      modifies this, buffer
      ensures Valid() && Visible() && OnScreen(cells, text, width, windowRow, windowSize)
      ensures Editable(Doc(old(text), old(cursor))) && windowSize >= 1
      ensures Now() == Stepped(old(Now()), e, width, windowSize)
    {
      hide Valid, OnScreen, Edited, ScreenRow, Landing;
      Bounds();
      match e {
        case Pressed(key) =>
          Press(key);
        case Clicked(row, x) =>
          var moved := Click(row, x);
          if !moved {
            return;
          }
      }
      Bounds();
      var passes := Refresh();
    }

    /** Text, cursor and window, as values. */
    ghost function Now(): Session
      reads this`text, this`cursor, this`windowRow
    {
      Session(Doc(text, cursor), windowRow)
    }

    /**
     Every run of events, keys, wheel and clicks alike: the buffer stays a terminated
     text with the cursor in it and on screen, and text, cursor and window are what the
     events make of them one after the other, from the first drawing on.
     */
    method Run(events: seq<Event>)
      requires Valid()
      modifies this, buffer
      ensures Valid() && Visible() && OnScreen(cells, text, width, windowRow, windowSize)
      ensures Editable(Doc(old(text), old(cursor))) && windowSize >= 1
      ensures Now() == AllEdited(Redrawn(Doc(old(text), old(cursor)), old(windowRow), width, windowSize),
                                 events, width, windowSize)
    {
      hide Valid, OnScreen, Visible, Stepped, ScreenRow;
      Bounds();
      var passes := Refresh();
      ghost var start := Now();
      for i := 0 to |events|
        invariant Valid() && Visible() && OnScreen(cells, text, width, windowRow, windowSize)
        invariant Now() == AllEdited(start, events[..i], width, windowSize)
      {
        assert events[..i + 1][..i] == events[..i];
        Handle(events[i]);
      }
      assert events[..|events|] == events;
    }

    ghost predicate Visible()
      reads this`text, this`cursor, this`windowRow
    {
      cursor <= |text| && windowRow <= ScreenRow(text, cursor, width) < windowRow + windowSize
    }
  }

  ghost predicate InWindow(c: Cell, top: nat, size: nat) {
    top <= c.row < top + size
  }

  predicate Filled(cells: CellMap, row: int, k: int) {
    Cell(row, k) in cells
  }

  /** The cell itself or the first one to its left that is drawn. */
  ghost predicate Nearest(cells: CellMap, row: int, k: int, x: int, width: nat) {
    && Filled(cells, row, k) && k <= x && k <= width
    && forall j :: k < j <= x && j <= width ==> !Filled(cells, row, j)
  }

  type CellMap = map<Cell, nat>

  /** The offset recorded for a cell starts at or before it, and the next one after it. */
  ghost predicate Holds(t: Text, width: Width, c: Cell, i: int) {
    && 0 <= i <= |t| && 0 <= c.x && !Before(c, Spot(t, i, width))
    && if i < |t| then Before(c, Spot(t, i + 1, width)) else c == Spot(t, i, width)
  }

  /** Offset `i` has its cell, if that is in the window. */
  ghost predicate Recorded(cells: CellMap, t: Text, width: Width, top: nat, size: nat, i: nat)
    requires i <= |t|
  {
    InWindow(Spot(t, i, width), top, size) ==> Spot(t, i, width) in cells && cells[Spot(t, i, width)] == i
  }

  /** The first cell of a row is drawn, if that is in the window. */
  ghost predicate Started(cells: CellMap, top: nat, size: nat, row: nat) {
    top <= row < top + size ==> Filled(cells, row, 0)
  }

  /** Everything before `next` is drawn: the offsets below `n` and the start of each row; and nothing else. */
  ghost predicate Shows(cells: CellMap, t: Text, width: Width, top: nat, size: nat, n: nat, next: Cell) {
    && n <= |t| + 1
    && (forall k :: k in cells ==> Before(k, next) && InWindow(k, top, size) && Holds(t, width, k, cells[k]))
    && (forall i :: 0 <= i < n ==> Recorded(cells, t, width, top, size, i))
    && (forall r: nat :: Before(Cell(r, 0), next) ==> Started(cells, top, size, r))
  }

  /** A finished drawing: every offset and every row on show is there, and each cell holds the offset it belongs to. */
  ghost predicate OnScreen(cells: CellMap, t: Text, width: Width, top: nat, size: nat) {
    && (forall k :: k in cells ==> InWindow(k, top, size) && Holds(t, width, k, cells[k]))
    && (forall i :: 0 <= i <= |t| ==> Recorded(cells, t, width, top, size, i))
    && (forall r: nat :: r <= Spot(t, |t|, width).row ==> Started(cells, top, size, r))
  }

  lemma ShowsNothing(t: Text, width: Width, top: nat, size: nat)
    ensures Shows(map[], t, width, top, size, 0, Spot(t, 0, width))
  {
    DivModUnique(0, width, 0, 0);
  }

  lemma PlaceZero(t: Text, width: Width)
    ensures PlaceOf(t, 0, width) == Place(0, 0)
  {
  }

  /** One more cell, at the place reached, for offset `i`. */
  lemma ShowsStep(before: CellMap, cells: CellMap, t: Text, width: Width, top: nat, size: nat,
                  m: nat, i: nat, here: Cell, next: Cell)
    requires Shows(before, t, width, top, size, m, here) && Holds(t, width, here, i)
    requires i < m <= |t| + 1 || (i == m && Spot(t, i, width) == here)
    requires cells == if InWindow(here, top, size) then before[here := i] else before
    requires next == Cell(here.row, here.x + 1) || next == Cell(here.row + 1, 0)
    ensures Shows(cells, t, width, top, size, if i == m then m + 1 else m, next)
  {
    hide Spot, Holds;
    var n := if i == m then m + 1 else m;
    assert here.x >= 0 && i <= |t| by { HoldsPlainly(t, width, here, i); }
    forall j | 0 <= j < n
      ensures Recorded(cells, t, width, top, size, j)
    {
      if j < m {
        assert Recorded(before, t, width, top, size, j);
      }
    }
    forall r: nat | Before(Cell(r, 0), next)
      ensures Started(cells, top, size, r)
    {
      if Cell(r, 0) != here {
        assert Before(Cell(r, 0), here);
        assert Started(before, top, size, r);
      }
    }
  }

  lemma HoldsPlainly(t: Text, width: Width, c: Cell, i: int)
    requires Holds(t, width, c, i)
    ensures c.x >= 0 && 0 <= i <= |t|
  {
  }

  lemma ShowsNextCell(before: CellMap, cells: CellMap, t: Text, width: Width, top: nat, size: nat,
                      i: nat, n: nat, here: Place, start: Place)
    requires i < |t| && t[i] != '\n' && start == PlaceOf(t, i, width) && here == Cells(start, n, width)
    requires n < CellCount(t[i], start.col)
    requires cells == if top <= here.row < top + size then before[CellAt(here, width) := i] else before
    requires Shows(before, t, width, top, size, if n == 0 then i else i + 1, CellAt(here, width))
    ensures Shows(cells, t, width, top, size, i + 1, CellAt(NextCell(here, width), width))
  {
    hide Shows, Across;
    var total := CellCount(t[i], start.col);
    assert Spot(t, i + 1, width) == CellAt(Cells(start, total, width), width);
    CellsAreLater(start, n, total, width);
    if n > 0 { CellsAreLater(start, 0, n, width); }
    NextCellIsLater(here, width);
    hide NextCell, PlaceOf, Cells;
    ShowsStep(before, cells, t, width, top, size,
              if n == 0 then i else i + 1, i, CellAt(here, width), CellAt(NextCell(here, width), width));
  }

  lemma ShowsNextLine(before: CellMap, cells: CellMap, t: Text, width: Width, top: nat, size: nat, i: nat)
    requires i < |t| && t[i] == '\n' && Shows(before, t, width, top, size, i, Spot(t, i, width))
    requires cells == if top <= Spot(t, i, width).row < top + size then before[Spot(t, i, width) := i] else before
    ensures Shows(cells, t, width, top, size, i + 1, Spot(t, i + 1, width))
    ensures PlaceOf(t, i + 1, width) == Place(PlaceOf(t, i, width).row + 1, 0)
  {
    hide Shows;
    assert PlaceOf(t, i + 1, width) == Place(PlaceOf(t, i, width).row + 1, 0);
    assert Spot(t, i + 1, width) == Cell(Spot(t, i, width).row + 1, 0) by { DivModUnique(0, width, 0, 0); }
    hide PlaceOf, Across;
    ShowsStep(before, cells, t, width, top, size, i, i, Spot(t, i, width), Spot(t, i + 1, width));
  }

  lemma ShowsEnd(before: CellMap, cells: CellMap, t: Text, width: Width, top: nat, size: nat)
    requires Shows(before, t, width, top, size, |t|, Spot(t, |t|, width))
    requires cells == if top <= Spot(t, |t|, width).row < top + size then before[Spot(t, |t|, width) := |t|] else before
    ensures OnScreen(cells, t, width, top, size)
  {
    hide PlaceOf, Across;
    var last := Spot(t, |t|, width);
    ShowsStep(before, cells, t, width, top, size, |t|, |t|, last, Cell(last.row + 1, 0));
  }

  /** The nearest drawn cell at or left of a click holds the offset the click lands on. */
  lemma NearestLands(cells: CellMap, t: Text, width: Width, top: nat, size: nat, cursor: nat, row: int, x: int, k: int)
    requires OnScreen(cells, t, width, top, size) && cursor <= |t| && Nearest(cells, top + row, k, x, width)
    ensures cells[Cell(top + row, k)] == Landing(t, width, top, size, cursor, row, x)
  {
    var c, click := Cell(top + row, k), Cell(top + row, x);
    var i := cells[c];
    assert Holds(t, width, c, i) && InWindow(c, top, size);
    PlaceIsReference(t, |t|, width);
    assert ScreenRow(t, |t|, width) == Spot(t, |t|, width).row;
    hide PlaceOf, ScreenRow, Across, OnScreen;
    if i < |t| {
      if i + 1 < |t| { SpotsIncrease(t, i + 1, |t|, width); }
      NextIsPast(cells, t, width, top, size, i, c, x);
    }
    LastStartIs(t, width, click, i, |t|);
  }

  /** Between a click and the nearest drawn cell to its left no offset starts. */
  lemma NextIsPast(cells: CellMap, t: Text, width: Width, top: nat, size: nat, i: nat, c: Cell, x: int)
    requires i < |t| && OnScreen(cells, t, width, top, size)
    requires InWindow(c, top, size) && Before(c, Spot(t, i + 1, width))
    requires Nearest(cells, c.row, c.x, x, width)
    ensures Before(Cell(c.row, x), Spot(t, i + 1, width))
  {
    var next := Spot(t, i + 1, width);
    assert Recorded(cells, t, width, top, size, i + 1);
    assert next.x <= width;
    hide PlaceOf, Across, Holds;
    assert next.row == c.row ==> Filled(cells, c.row, next.x);
  }

  lemma NothingLands(cells: CellMap, t: Text, width: Width, top: nat, size: nat, cursor: nat, row: int, x: int, at: int)
    requires OnScreen(cells, t, width, top, size) && cursor <= |t| && at == top + row
    requires forall k :: 0 <= k <= x && k <= width ==> !Filled(cells, at, k)
    ensures Landing(t, width, top, size, cursor, row, x) == cursor
  {
    PlaceIsReference(t, |t|, width);
    hide PlaceOf, ScreenRow, Column, Across, Holds;
    assert 0 <= row < size && at <= Spot(t, |t|, width).row ==> Started(cells, top, size, at);
    assert x >= 0 ==> !Filled(cells, at, 0);
  }

  lemma LineEndStep(t: Text, i: nat)
    requires i <= |t|
    ensures LineEnd(t, i) == if i < |t| && t[i] != '\n' then LineEnd(t, i + 1) else i
  {
  }

  /** So many lines down, or up when negative. */
  function Wheeled(t: Text, i: nat, lines: int): (r: nat)
    requires i <= |t|
    ensures r <= |t|
    decreases if lines < 0 then -lines else lines
  {
    if lines < 0 then Wheeled(t, Above(t, i), lines + 1)
    else if lines > 0 then Wheeled(t, Below(t, i), lines - 1)
    else i
  }

  function Leading(t: Text): (n: nat)
    ensures n <= |t|
  {
    if t != [] && t[0] == '\n' then 1 + Leading(t[1..]) else 0
  }
}
