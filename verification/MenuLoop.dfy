/** The menu's event loop: selection, scroll window and mouse rows over every run of events. */
module MenuLoop {
  import opened MenuTree
  import opened MenuPath
  import opened Menu
  import opened Wrappers

  /**
   Prints an entry's path, looks it up again and walks to the index found: the walk
   selects that very entry, and the index, the walk's count and the plain count agree.
   */
  method SelectByPath(menu: Menu, pos: Pos, buf: array<char>) returns (index: nat, entries: nat, count: nat)
    requires menu.Valid() && ValidPos(menu.tree, pos) && |PathOf(menu.tree, pos)| < buf.Length
    requires Shown(menu.tree, pos) && (|pos| == 1 || LastComponent(menu.tree, pos) != [])
    modifies menu, buf
    ensures index < entries == count == |AllVisible(menu.tree, [], menu.open)|
    ensures AllVisible(menu.tree, [], menu.open)[index] == pos && menu.current == Some(pos)
    ensures menu.open == old(menu.open) + Trail(menu.tree, [], PathOf(menu.tree, pos))
  {
    hide Lookup, PathOf, Visible, Trail, Emitted, Counted;
    PathRoundTrip(menu.tree, [], pos);
    assert [] + pos == pos;
    var end := menu.EntryPath(pos, buf, 0);
    var path := buf[..end];
    assert path == PathOf(menu.tree, pos);
    var found, p;
    found, p, index := menu.Find(path, menu.tree, [], 0, true);
    entries := menu.Walk(View(false, 0, 0, index), 0, menu.tree, []);
    count := menu.CountVisible(menu.tree, []);
  }

  // ----- the screen

  /** The entry printed on a terminal row. */
  method RowToEntry(row: nat, rowStart: nat, window: nat, offset: nat, entries: nat) returns (ok: bool, index: nat)
    ensures ok <==> rowStart <= row < rowStart + window && offset + (row - rowStart) < entries
    ensures ok ==> index == offset + (row - rowStart)
  {
    if row < rowStart || row >= rowStart + window {
      return false, 0;
    }
    index := offset + (row - rowStart);
    return index < entries, index;
  }

  datatype Event =
    | Digit(n: nat) | Home | End | Up | Down | Activate
    | Mouse(wheel: int, click: Option<nat>, moved: Option<nat>)

  datatype Step = Waiting | Boot(pos: Pos)

  /** The least scrolling that brings `selected` into a window of `size` lines. */
  function Scrolled(offset: nat, selected: nat, size: nat): (r: nat)
    requires size > 0
    ensures r <= selected < r + size
    ensures offset <= selected < offset + size ==> r == offset
  {
    if selected < offset then selected else if selected >= offset + size then selected - size + 1 else offset
  }

  lemma NoScrollIsLess(offset: nat, selected: nat, size: nat, other: nat)
    requires size > 0 && other <= selected < other + size
    ensures Distance(offset, Scrolled(offset, selected, size)) <= Distance(offset, other)
  {
  }

  function Distance(a: nat, b: nat): nat {
    if a <= b then b - a else a - b
  }

  function Toggled(open: set<Pos>, p: Pos): set<Pos> {
    if p in open then open - {p} else open + {p}
  }

  predicate OnLine(row: nat, start: nat, n: nat) {
    start <= row < start + n
  }

  function Clamp(k: int, n: nat): nat
    requires n > 0
  {
    if k < 0 then 0 else if k >= n then n - 1 else k
  }

  // ----- one event after another, as values

  /** What decides the menu's next move: the open directories, the selection and the scroll position. */
  datatype Look = Look(open: set<Pos>, selected: nat, offset: nat)

  function Listed(tree: seq<Node>, look: Look): seq<Pos> {
    AllVisible(tree, [], look.open)
  }

  /** The selection is an entry of the list. */
  predicate Placed(tree: seq<Node>, look: Look) {
    look.selected < |Listed(tree, look)|
  }

  function WindowOf(rows: nat, header: nat): int {
    rows - 8 - header
  }

  /** Where a tree of that height starts: centred, but below the header. */
  function StartRow(rows: nat, header: nat, height: nat): nat
    requires WindowOf(rows, header) >= 1
  {
    var h := if height > WindowOf(rows, header) then WindowOf(rows, header) else height;
    var start := (rows - h) / 2;
    if start < 4 + header then 4 + header else start
  }

  /** The selection put on an index. */
  function Picked(look: Look, index: nat, window: nat): Look
    requires window > 0
  {
    Look(look.open, index, Scrolled(look.offset, index, window))
  }

  /** The selected entry activated: a leaf boots as it is, a directory is opened or closed and drawn. */
  function Acted(tree: seq<Node>, look: Look, window: nat): (r: (Look, Step))
    requires Placed(tree, look) && window > 0
    ensures r.1.Waiting? ==> Placed(tree, r.0)
  {
    var p := Listed(tree, look)[look.selected];
    if Directory(tree, p) then
      ToggleKeepsFront(tree, [], look.open, Toggled(look.open, p), |tree|, look.selected);
      (Look(Toggled(look.open, p), look.selected, Scrolled(look.offset, look.selected, window)), Waiting)
    else (look, Boot(p))
  }

  /** The index of the entry drawn on a row, if there is one. */
  function Hit(row: Option<nat>, start: nat, window: nat, offset: nat, entries: nat): Option<nat> {
    if row.Some? && start <= row.value < start + window && offset + (row.value - start) < entries
    then Some(offset + (row.value - start)) else None
  }

  /** What one event makes of it. */
  function Next(tree: seq<Node>, rows: nat, header: nat, look: Look, e: Event): (r: (Look, Step))
    requires Placed(tree, look) && WindowOf(rows, header) >= 1
    ensures r.1.Waiting? ==> Placed(tree, r.0)
  {
    var n, window := |Listed(tree, look)|, WindowOf(rows, header);
    match e
    case Digit(k) => if 1 <= k <= 9 && k <= n then Acted(tree, look.(selected := k - 1), window) else (look, Waiting)
    case Home => (Picked(look, 0, window), Waiting)
    case End => (Picked(look, n - 1, window), Waiting)
    case Up => (Picked(look, if look.selected == 0 then n - 1 else look.selected - 1, window), Waiting)
    case Down => (Picked(look, if look.selected + 1 == n then 0 else look.selected + 1, window), Waiting)
    case Activate => Acted(tree, look, window)
    case Mouse(wheel, click, moved) =>
      var start := StartRow(rows, header, n);
      var clicked, over := Hit(click, start, window, look.offset, n), Hit(moved, start, window, look.offset, n);
      if wheel != 0 then (Picked(look, Clamp(look.selected + wheel, n), window), Waiting)
      else if clicked.Some? then Acted(tree, look.(selected := clicked.value), window)
      else if over.Some? then (Picked(look, over.value, window), Waiting)
      else (look, Waiting)
  }

  /** What a run of events makes of it, up to the first that boots an entry. */
  function AllNext(tree: seq<Node>, rows: nat, header: nat, look: Look, events: seq<Event>): (r: (Look, Step))
    requires Placed(tree, look) && WindowOf(rows, header) >= 1
    decreases |events|
  {
    if events == [] then (look, Waiting)
    else
      var (now, step) := Next(tree, rows, header, look, events[0]);
      if step.Boot? then (now, step) else AllNext(tree, rows, header, now, events[1..])
  }

  class Screen {
    const menu: Menu
    const rows: nat
    const header: nat
    var selected: nat
    var offset: nat
    var entries: nat
    var rowStart: nat
    var drawn: seq<Pos>

    function Window(): int {
      WindowOf(rows, header)
    }

    ghost function Now(): Look
      reads this, menu
    {
      Look(menu.open, selected, offset)
    }

    ghost function List(): seq<Pos>
      reads menu
    {
      AllVisible(menu.tree, [], menu.open)
    }

    /** After every redraw: the selection is on show, inside the window, and each line on its row. */
    ghost predicate Settled()
      reads this, menu
    {
      && Window() >= 1
      && entries == |List()| && selected < entries
      && offset <= selected < offset + Window()
      && menu.current == Some(List()[selected]) && rowStart == TreeStart(entries)
      && drawn == List()[offset..if offset + Window() < entries then offset + Window() else entries]
    }

    /** The menu knows the selected entry, whether or not it is drawn yet. */
    ghost predicate Aimed()
      reads this, menu
    {
      Window() >= 1 && selected < |List()| && menu.current == Some(List()[selected])
    }

    /** A row the mouse is on leads to the entry drawn on it, and rows without one lead nowhere. */
    lemma RowsMatch(row: nat)
      requires Settled()
      ensures var hit := rowStart <= row < rowStart + Window() && offset + (row - rowStart) < entries;
              && (hit <==> rowStart <= row < rowStart + |drawn|)
              && (hit ==> drawn[row - rowStart] == List()[offset + (row - rowStart)])
    {
    }

    constructor (menu: Menu, rows: nat, header: nat)
      requires rows >= 9 + header
      ensures this.menu == menu && this.rows == rows && this.header == header && selected == 0 && offset == 0
    {
      this.menu, this.rows, this.header := menu, rows, header;
      selected, offset, entries, rowStart, drawn := 0, 0, 0, 0, [];
    }

    /** Where the tree starts. */
    function TreeStart(height: nat): nat
      requires Window() >= 1
    {
      StartRow(rows, header, height)
    }

    /** Scrolls as little as brings the selection into the window. */
    method Scroll()
      requires Window() >= 1
      modifies this`offset
      ensures offset <= selected < offset + Window()
      ensures offset == Scrolled(old(offset), selected, Window())
    {
      if selected >= offset + Window() {
        offset := selected - (Window() - 1);
      }
      if selected < offset {
        offset := selected;
      }
    }

    /** Measures the tree, places it and draws the window. */
    method Draw()
      requires Window() >= 1 && selected < |List()| && offset <= selected < offset + Window()
      modifies this`entries, this`rowStart, this`drawn, menu`current, menu`lines, menu`height
      ensures Settled()
    {
      hide Emitted, Counted, AllVisible, TreeStart;
      ghost var list := List();
      menu.height := 0;
      var measure := View(false, offset, Window(), selected);
      entries := menu.Walk(measure, 0, menu.tree, []);
      CountedAll(list, 0, measure);
      rowStart := TreeStart(menu.height);
      menu.lines := [];
      var view := View(true, offset, Window(), selected);
      entries := menu.Walk(view, 0, menu.tree, []);
      EmittedIsSlice(list, view);
      drawn := menu.lines;
    }

    /** The redraw. */
    method Refresh()
      requires Window() >= 1 && selected < |List()|
      modifies this, menu`current, menu`lines, menu`height
      ensures Settled() && selected == old(selected)
      ensures offset == Scrolled(old(offset), selected, Window())
    {
      hide AllVisible, TreeStart;
      Scroll();
      Draw();
    }

    /** The first redraw. A default past the end falls back to the first entry. */
    method Open(default: nat)
      requires Window() >= 1
      modifies this, menu`current, menu`lines, menu`height
      ensures List() == old(List()) && entries == |List()|
      ensures entries > 0 ==> Settled() && selected == if default < entries then default else 0
      ensures entries > 0 ==> offset == Scrolled(old(offset), selected, Window())
    {
      hide AllVisible;
      selected := default;
      entries := menu.Walk(View(false, 0, 0, selected), 0, menu.tree, []);
      if selected >= entries {
        selected := 0;
      }
      if entries > 0 {
        Refresh();
      }
    }

    /** Opens or closes the selected directory; the selection stays where it is. */
    method Toggle()
      requires Aimed()
      modifies this, menu
      ensures Settled() && selected == old(selected) && List()[selected] == old(List()[selected])
      ensures menu.open == Toggled(old(menu.open), old(List()[selected]))
      ensures offset == Scrolled(old(offset), selected, Window())
    {
      hide Visible;
      var p := menu.current.value;
      ghost var before, list := menu.open, List();
      if p in menu.open {
        menu.open := menu.open - {p};
      } else {
        menu.open := menu.open + {p};
      }
      ToggleKeepsFront(menu.tree, [], before, menu.open, |menu.tree|, selected);
      assert List()[selected] == List()[..selected + 1][selected] == list[..selected + 1][selected];
      Refresh();
    }

    /** A leaf boots; a directory is toggled. */
    method ActivateSelected() returns (step: Step)
      requires Aimed()
      modifies this, menu
      ensures Activated(step, old(List()[selected]), old(menu.open))
      ensures (Now(), step) == Acted(menu.tree, old(Now()), Window())
    {
      hide Visible, ValidPos, At, Shown;
      ghost var p := List()[selected];
      VisibleValid(menu.tree, [], menu.open, |menu.tree|, selected);
      assert p[0..] == p;
      DirectoryOrLeaf(menu.tree, p);
      if Directory(menu.tree, menu.current.value) {
        Toggle();
        return Waiting;
      }
      return Boot(menu.current.value);
    }

    /**
     What activating `p` comes to: a directory is opened or closed and stays selected;
     anything else is a leaf, on show, and boots.
     */
    ghost predicate Activated(step: Step, p: Pos, before: set<Pos>)
      reads this, menu
    {
      if Directory(menu.tree, p) then
        step.Waiting? && Settled() && List()[selected] == p && menu.open == Toggled(before, p)
      else
        step == Boot(p) && menu.open == before && Bootable(p)
    }

    /** An entry of the list on show, and a leaf. */
    ghost predicate Bootable(p: Pos)
      reads menu
    {
      p in List() && Leaf(menu.tree, p)
    }

    /** Puts the selection on an index without drawing anything. */
    method Aim(index: nat)
      requires Settled() && index < entries
      modifies this`selected, menu`current, menu`lines, menu`height
      ensures Aimed() && List() == old(List()) && Now() == old(Now()).(selected := index)
    {
      hide AllVisible, Emitted, Counted;
      selected := index;
      var count := menu.Walk(View(false, 0, 0, selected), 0, menu.tree, []);
    }

    /** Puts the selection on an index and redraws. */
    method Choose(index: nat)
      requires Settled() && index < entries
      modifies this, menu`current, menu`lines, menu`height
      ensures Settled() && List() == old(List()) && Now() == Picked(old(Now()), index, Window())
    {
      hide AllVisible;
      selected := index;
      Refresh();
    }

    /** The wheel moves the selection and stops at the ends. */
    method HandleWheel(wheel: int)
      requires Settled() && wheel != 0
      modifies this, menu`current, menu`lines, menu`height
      ensures Settled() && Now() == Picked(old(Now()), Clamp(old(selected) + wheel, old(entries)), Window())
    {
      hide AllVisible;
      if wheel < 0 {
        Choose(if selected > -wheel then selected + wheel else 0);
      } else {
        Choose(if selected + wheel >= entries then entries - 1 else selected + wheel);
      }
    }

    /** The mouse selects the entry of the line it is over; elsewhere it changes nothing. */
    method HandleMove(row: nat)
      requires Settled()
      modifies this, menu`current, menu`lines, menu`height
      ensures Settled()
      ensures if OnLine(row, old(rowStart), |old(drawn)|)
              then List()[selected] == old(drawn)[row - old(rowStart)] else selected == old(selected)
      ensures var hit := Hit(Some(row), old(rowStart), Window(), old(offset), old(entries));
              Now() == if hit.Some? then Picked(old(Now()), hit.value, Window()) else old(Now())
    {
      hide AllVisible;
      RowsMatch(row);
      var ok, target := RowToEntry(row, rowStart, Window(), offset, entries);
      if ok && target != selected {
        Choose(target);
      }
    }

    /** A click on a drawn line activates its entry; elsewhere it does nothing. */
    method HandleClick(row: nat) returns (hit: bool, step: Step)
      requires Settled()
      modifies this, menu
      ensures hit <==> OnLine(row, old(rowStart), |old(drawn)|)
      ensures Hit(Some(row), old(rowStart), Window(), old(offset), old(entries)).Some? <==> hit
      ensures hit ==> Activated(step, old(drawn)[row - old(rowStart)], old(menu.open))
      ensures hit ==>
                var target := Hit(Some(row), old(rowStart), Window(), old(offset), old(entries)).value;
                (Now(), step) == Acted(menu.tree, old(Now()).(selected := target), Window())
      ensures !hit ==> Settled() && unchanged(this) && unchanged(menu)
    {
      hide AllVisible, Directory, Bootable, Acted, Scrolled, StartRow;
      RowsMatch(row);
      var target;
      step := Waiting;
      hit, target := RowToEntry(row, rowStart, Window(), offset, entries);
      if hit {
        Aim(target);
        step := ActivateSelected();
      }
    }

    /** The wheel, a click and a move of the mouse, in this order of precedence. */
    method HandleMouse(wheel: int, click: Option<nat>, moved: Option<nat>) returns (step: Step)
      requires Settled()
      modifies this, menu
      ensures step.Waiting? ==> Settled()
      ensures wheel != 0 ==>
                step.Waiting? && menu.open == old(menu.open) && selected == Clamp(old(selected) + wheel, old(entries))
      ensures wheel == 0 && click.Some? && OnLine(click.value, old(rowStart), |old(drawn)|) ==>
                Activated(step, old(drawn)[click.value - old(rowStart)], old(menu.open))
      ensures wheel == 0 && !(click.Some? && OnLine(click.value, old(rowStart), |old(drawn)|)) ==>
                step.Waiting? && menu.open == old(menu.open) &&
                if moved.Some? && OnLine(moved.value, old(rowStart), |old(drawn)|)
                then List()[selected] == old(drawn)[moved.value - old(rowStart)] else selected == old(selected)
      ensures step.Boot? ==> Bootable(step.pos)
      ensures (Now(), step) == Next(menu.tree, rows, header, old(Now()), Mouse(wheel, click, moved))
    {
      hide AllVisible, Directory, Bootable, Acted, Scrolled, Clamp, StartRow;
      if wheel != 0 {
        HandleWheel(wheel);
        return Waiting;
      }
      if click.Some? {
        var hit;
        hit, step := HandleClick(click.value);
        if hit {
          return;
        }
      }
      if moved.Some? {
        HandleMove(moved.value);
      }
      step := Waiting;
    }

    /** The keys that only move the selection; the arrows wrap around at both ends. */
    method HandleArrow(e: Event)
      requires Settled() && (e.Up? || e.Down? || e.Home? || e.End?)
      modifies this, menu`current, menu`lines, menu`height
      ensures Settled() && (Now(), Waiting) == Next(menu.tree, rows, header, old(Now()), e)
      ensures e.Up? ==> selected == (old(selected) + old(entries) - 1) % old(entries)
      ensures e.Down? ==> selected == (old(selected) + 1) % old(entries)
      ensures e.Home? ==> selected == 0
      ensures e.End? ==> selected == old(entries) - 1
    {
      hide AllVisible, Scrolled, StartRow;
      match e
      case Home => Choose(0);
      case End => Choose(entries - 1);
      case Up =>
        WrapUp(selected, entries);
        Choose(if selected == 0 then entries - 1 else selected - 1);
      case Down =>
        WrapDown(selected, entries);
        Choose(if selected + 1 == entries then 0 else selected + 1);
    }

    /** A digit activates the entry it counts to, if there is one. */
    method HandleDigit(n: nat) returns (step: Step)
      requires Settled()
      modifies this, menu
      ensures (Now(), step) == Next(menu.tree, rows, header, old(Now()), Digit(n))
      ensures step.Waiting? ==> Settled()
      ensures step.Boot? ==> Bootable(step.pos)
      ensures 1 <= n <= old(entries) && n <= 9 ==> Activated(step, old(List())[n - 1], old(menu.open))
      ensures !(1 <= n <= old(entries) && n <= 9) ==> step.Waiting? && Now() == old(Now())
    {
      hide AllVisible, Directory, Bootable, Acted, Scrolled, StartRow;
      if 1 <= n <= 9 && n - 1 < entries {
        Aim(n - 1);
        step := ActivateSelected();
      } else {
        Refresh();
        step := Waiting;
      }
    }

    /** One event. */
    method Handle(e: Event) returns (step: Step)
      requires Settled()
      modifies this, menu
      ensures (Now(), step) == Next(menu.tree, rows, header, old(Now()), e)
      ensures step.Waiting? ==> Settled()
      ensures step.Boot? ==> Bootable(step.pos)
      ensures e.Up? ==> step.Waiting? && selected == (old(selected) + old(entries) - 1) % old(entries)
      ensures e.Down? ==> step.Waiting? && selected == (old(selected) + 1) % old(entries)
      ensures e.Home? ==> step.Waiting? && selected == 0
      ensures e.End? ==> step.Waiting? && selected == old(entries) - 1
      ensures e.Digit? && 1 <= e.n <= old(entries) && e.n <= 9 ==> Activated(step, old(List())[e.n - 1], old(menu.open))
      ensures e.Digit? && !(1 <= e.n <= old(entries) && e.n <= 9) ==> step.Waiting? && Now() == old(Now())
      ensures e.Activate? ==> Activated(step, old(List()[selected]), old(menu.open))
      ensures e.Up? || e.Down? || e.Home? || e.End? ==> menu.open == old(menu.open)
    {
      hide AllVisible, Directory, Bootable, Acted, Scrolled, StartRow;
      match e
      case Digit(n) => step := HandleDigit(n);
      case Activate => step := ActivateSelected();
      case Mouse(wheel, click, moved) => step := HandleMouse(wheel, click, moved);
      case _ =>
        HandleArrow(e);
        step := Waiting;
    }

    /** Every run of events, up to the first that boots an entry: none is lost, and only a leaf on show boots. */
    method Run(events: seq<Event>) returns (step: Step)
      requires Settled()
      modifies this, menu
      ensures (Now(), step) == AllNext(menu.tree, rows, header, old(Now()), events)
      ensures step.Waiting? ==> Settled()
      ensures step.Boot? ==> Bootable(step.pos)
    {
      step := Waiting;
      var i := 0;
      ghost var start := Now();
      SettledIsPlaced();
      hide AllVisible, Directory, Settled, Bootable, Next;
      assert events[0..] == events;
      while i < |events| && step.Waiting?
        invariant 0 <= i <= |events|
        invariant step.Waiting? ==> Settled() && Placed(menu.tree, Now())
        invariant step.Boot? ==> Bootable(step.pos)
        invariant AllNext(menu.tree, rows, header, start, events) ==
                  if step.Boot? then (Now(), step) else AllNext(menu.tree, rows, header, Now(), events[i..])
      {
        assert events[i..][1..] == events[i + 1..];
        step := Handle(events[i]);
        if step.Waiting? { SettledIsPlaced(); }
        i := i + 1;
      }
      assert step.Waiting? ==> events[i..] == [];
    }

    lemma SettledIsPlaced()
      requires Settled()
      ensures Placed(menu.tree, Now()) && Window() >= 1
    {
    }
  }

  lemma WrapUp(k: nat, n: nat)
    requires k < n
    ensures (k + n - 1) % n == if k == 0 then n - 1 else k - 1
  {
    if k > 0 {
      assert (k - 1 + n) % n == k - 1;
    }
  }

  lemma WrapDown(k: nat, n: nat)
    requires k < n
    ensures (k + 1) % n == if k + 1 == n then 0 else k + 1
  {
  }

  lemma {:induction false} CountedAll(list: seq<Pos>, base: nat, view: View)
    requires !view.drawn
    ensures Counted(list, base, view) == |list|
    decreases |list|
  {
    if list != [] { CountedAll(list[..|list| - 1], base, view); }
  }
}
