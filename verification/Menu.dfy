/** The boot menu: counting, finding, printing and choosing entries. */
module Menu {
  import opened MenuTree
  import opened MenuPath
  import opened MenuPathBuffer
  import opened Wrappers

  /** The siblings of an entry. */
  ghost function Siblings(level: seq<Node>, pos: Pos): (s: seq<Node>)
    requires ValidPos(level, pos)
    ensures pos[|pos| - 1] < |s| && s[pos[|pos| - 1]] == At(level, pos)
    decreases |pos|
  {
    if |pos| == 1 then level else Siblings(level[pos[0]].sub, pos[1..])
  }

  lemma {:induction false} PathSnoc(level: seq<Node>, pos: Pos)
    requires ValidPos(level, pos) && |pos| > 1
    ensures ValidPos(level, pos[..|pos| - 1])
    ensures PathOf(level, pos) == PathOf(level, pos[..|pos| - 1]) + ['/'] + LastComponent(level, pos)
    decreases |pos|
  {
    hide EntryComponent;
    var parent := pos[..|pos| - 1];
    if |pos| > 2 {
      assert pos[1..][..|pos| - 2] == parent[1..];
      PathSnoc(level[pos[0]].sub, pos[1..]);
      var x, y := PathOf(level[pos[0]].sub, parent[1..]), LastComponent(level, pos);
      assert ['/'] + (x + ['/'] + y) == ['/'] + x + ['/'] + y;
    } else {
      assert pos[1..] == [pos[1]] && parent == [pos[0]];
    }
  }

  lemma {:induction false} LastComponentIs(level: seq<Node>, pos: Pos)
    requires ValidPos(level, pos)
    ensures LastComponent(level, pos) == EntryComponent(Siblings(level, pos), pos[|pos| - 1])
    decreases |pos|
  {
    if |pos| > 1 { LastComponentIs(level[pos[0]].sub, pos[1..]); }
  }

  class Menu {
    const tree: seq<Node>
    /** The directories that are expanded. */
    var open: set<Pos>
    /** Duplicate numbers already computed. */
    var dups: map<Pos, nat>
    /** The entry the cursor is on, as last determined by a walk over the tree. */
    var current: Option<Pos>
    /** The lines walks have printed, and how many entries they passed. */
    var lines: seq<Pos>
    var height: nat

    ghost predicate Valid()
      reads this`dups
    {
      forall p :: p in dups ==> ValidPos(tree, p) && dups[p] == DupIndex(Siblings(tree, p), p[|p| - 1])
    }

    // ----- paths

    /** Shown namesakes before an entry, computed once. */
    method SiblingDupIndex(pos: Pos, level: seq<Node>) returns (index: nat)
      requires Valid() && ValidPos(tree, pos) && level == Siblings(tree, pos)
      modifies this`dups
      ensures Valid() && index == DupIndex(level, pos[|pos| - 1])
    {
      if pos in dups {
        return dups[pos];
      }
      index := 0;
      var entry := pos[|pos| - 1];
      for e := 0 to entry
        invariant index == CountName(level, level[entry].name, e)
      {
        if level[e].skipped {
          continue;
        }
        if level[e].name == level[entry].name {
          index := index + 1;
        }
      }
      dups := dups[pos := index];
    }

    /** Escaped name and duplicate number. */
    method WriteComponent(pos: Pos, buf: array<char>, at: nat) returns (end: nat)
      requires Valid() && ValidPos(tree, pos) && at < buf.Length
      modifies this`dups, buf
      ensures Valid() && at <= end < buf.Length && buf[end] == '\0'
      ensures at + |LastComponent(tree, pos)| < buf.Length ==> buf[..end] == old(buf[..at]) + LastComponent(tree, pos)
    {
      hide Valid, Escape, Suffix, LastComponent, Siblings, DupIndex;
      var level := LevelOf(pos);
      var name := level[pos[|pos| - 1]].name;
      ComponentParts(tree, pos, level);
      ghost var was, fits := buf[..at], at + |LastComponent(tree, pos)| < buf.Length;
      end := EscapeName(name, buf, at);
      var dup := SiblingDupIndex(pos, level);
      end := WriteSuffix(dup, buf, end);
      assert fits ==> buf[..end] == was + Escape(name) + Suffix(dup) == was + LastComponent(tree, pos);
      ghost var now := buf[..end];
      buf[end] := '\0';
      assert buf[..end] == now;
    }

    /** Prints the path of an entry: terminated always, and in full whenever the buffer has room. */
    method EntryPath(pos: Pos, buf: array<char>, at: nat) returns (end: nat)
      requires Valid() && ValidPos(tree, pos) && at < buf.Length
      modifies this`dups, buf
      ensures Valid() && at <= end < buf.Length && buf[end] == '\0'
      ensures at + |PathOf(tree, pos)| < buf.Length ==> buf[..end] == old(buf[..at]) + PathOf(tree, pos)
      decreases |pos|
    {
      hide PathOf, Valid, LastComponent;
      end := at;
      ghost var fits, was := at + |PathOf(tree, pos)| < buf.Length, buf[..at];
      if |pos| > 1 {
        PathSnoc(tree, pos);
        ghost var front, last := PathOf(tree, pos[..|pos| - 1]), LastComponent(tree, pos);
        end := EntryPath(pos[..|pos| - 1], buf, end);
        if end < buf.Length - 1 {
          ghost var now := buf[..end];
          buf[end] := '/';
          end := end + 1;
          assert buf[..end] == now + ['/'];
        }
        end := WriteComponent(pos, buf, end);
        assert fits ==> was + front + ['/'] + last == was + (front + ['/'] + last);
      } else {
        SinglePath(tree, pos);
        end := WriteComponent(pos, buf, end);
      }
    }

    lemma ComponentParts(tree: seq<Node>, pos: Pos, level: seq<Node>)
      requires ValidPos(tree, pos) && level == Siblings(tree, pos)
      ensures var i := pos[|pos| - 1]; LastComponent(tree, pos) == Escape(level[i].name) + Suffix(DupIndex(level, i))
    {
      LastComponentIs(tree, pos);
    }

    lemma SinglePath(level: seq<Node>, pos: Pos)
      requires ValidPos(level, pos) && |pos| == 1
      ensures PathOf(level, pos) == LastComponent(level, pos)
    {
    }

    method LevelOf(pos: Pos) returns (level: seq<Node>)
      requires ValidPos(tree, pos)
      ensures level == Siblings(tree, pos)
    {
      level := tree;
      var k := 0;
      assert pos[0..] == pos;
      while k < |pos| - 1
        invariant 0 <= k < |pos| && ValidPos(level, pos[k..]) && Siblings(level, pos[k..]) == Siblings(tree, pos)
      {
        assert pos[k..][1..] == pos[k + 1..];
        level := level[pos[k]].sub;
        k := k + 1;
      }
    }

    // ----- counting and finding

    method CountVisible(level: seq<Node>, prefix: Pos) returns (count: nat)
      ensures count == |AllVisible(level, prefix, open)|
      decreases level
    {
      hide Visible;
      count := 0;
      NothingVisible(level, prefix, open);
      var i := 0;
      while i < |level|
        invariant 0 <= i <= |level| && count == |Visible(level, prefix, open, i)|
      {
        VisibleStep(level, prefix, open, i);
        if level[i].skipped {
          i := i + 1;
          continue;
        }
        count := count + 1;
        if level[i].sub != [] && prefix + [i] in open {
          var below := CountVisible(level[i].sub, prefix + [i]);
          count := count + below;
        }
        i := i + 1;
      }
    }

    /**
     Finds the entry a path names, opening the directories on the way when asked to.
     The index is the entry's place in the list once those directories are open.
     */
    method Find(path: string, level: seq<Node>, prefix: Pos, base: nat, expand: bool)
      returns (found: bool, pos: Pos, index: nat)
      modifies this`open
      ensures found <==> Lookup(level, prefix, path).Some?
      ensures found ==> Lookup(level, prefix, path) == Some(pos)
      ensures open == if expand then old(open) + Trail(level, prefix, path) else old(open)
      ensures found ==>
                var list := AllVisible(level, prefix, old(open) + Trail(level, prefix, path));
                base <= index < base + |list| && list[index - base] == pos
      decreases level
    {
      hide Visible, Parse, Picks;
      var name, dup, rest := ParseComponent(path);
      ghost var open0 := open;
      NothingVisible(level, prefix, open);
      var same := 0;
      pos, index := [], base;
      var i := 0;
      while i < |level|
        invariant 0 <= i <= |level| && open == open0
        invariant same == CountName(level, name, i) && index == base + |Visible(level, prefix, open0, i)|
        invariant forall j :: 0 <= j < i && Picks(level, name, dup, j) ==> rest != [] && level[j].sub == []
      {
        VisibleStep(level, prefix, open0, i);
        PicksWhen(level, name, dup, i);
        if level[i].skipped {
          i := i + 1;
          continue;
        }
        var matches := level[i].name == name;
        if matches && same == dup {
          assert Picks(level, name, dup, i);
          PicksOne(level, name, dup, i, Pick(level, name, dup));
          TrailKeepsFront(level, prefix, open0, path, i);
          if rest == [] {
            FoundHere(level, prefix, open0 + Trail(level, prefix, path), i);
            return true, prefix + [i], index;
          } else if level[i].sub != [] {
            var here := prefix + [i];
            if expand {
              open := open + {here};
            }
            ghost var open1, below := open, Trail(level[i].sub, prefix + [i], rest);
            found, pos, index := Find(rest, level[i].sub, here, index + 1, expand);
            assert open0 + Trail(level, prefix, path) == (open0 + below) + {here};
            assert expand ==> open1 + below == open0 + Trail(level, prefix, path);
            OpenBesideSub(level[i].sub, here, open0 + below);
            if found {
              FoundBelow(level, prefix, open0 + Trail(level, prefix, path), i,
                         index - (base + |Visible(level, prefix, open0, i)| + 1));
            }
            return;
          }
        }
        if matches {
          same := same + 1;
        }
        index := index + 1;
        if level[i].sub != [] && prefix + [i] in open {
          var below := CountVisible(level[i].sub, prefix + [i]);
          index := index + below;
        }
        i := i + 1;
      }
      found := false;
      assert Trail(level, prefix, path) == {} && Lookup(level, prefix, path) == None by {
        if Pickable(level, name, dup) {
          PickInRange(level, name, dup);
        }
      }
    }

    // ----- printing

    /**
     Walks the tree, printing the lines of the window and noting which entry is
     selected; returns how many entries are on show, printed or not.
     */
    method Walk(view: View, base: nat, level: seq<Node>, prefix: Pos) returns (entries: nat)
      modifies this`current, this`lines, this`height
      ensures var list := AllVisible(level, prefix, open);
              && entries == |list|
              && lines == old(lines) + Emitted(list, base, view)
              && current == Pointed(list, base, view, old(current))
              && height == old(height) + Counted(list, base, view)
      decreases level
    {
      hide Visible, Emitted, Pointed, Counted;
      entries := 0;
      NothingVisible(level, prefix, open);
      ghost var lines0, current0, height0 := lines, current, height;
      WalkNothing(base, view, current);
      var i := 0;
      while i < |level|
        invariant 0 <= i <= |level| && entries == |Visible(level, prefix, open, i)|
        invariant lines == lines0 + Emitted(Visible(level, prefix, open, i), base, view)
        invariant current == Pointed(Visible(level, prefix, open, i), base, view, current0)
        invariant height == height0 + Counted(Visible(level, prefix, open, i), base, view)
        modifies this`current, this`lines, this`height
      {
        VisibleStep(level, prefix, open, i);
        if level[i].skipped {
          assert Visible(level, prefix, open, i + 1) == Visible(level, prefix, open, i);
          i := i + 1;
          continue;
        }
        var here := prefix + [i];
        ghost var done := Visible(level, prefix, open, i);
        WalkOne(done, here, base, view, current0);
        if !view.drawn || view.offset <= base + entries < view.offset + view.window {
          if view.drawn {
            lines := lines + [here];
          }
          if base + entries == view.selected {
            current := Some(here);
          }
          height := height + 1;
        }
        if level[i].sub != [] && here in open {
          WalkMore(done + [here], AllVisible(level[i].sub, here, open), base, view, current0);
          var below := Walk(view, base + entries + 1, level[i].sub, here);
          assert done + [here] + AllVisible(level[i].sub, here, open) == Visible(level, prefix, open, i + 1);
          entries := entries + below;
        } else {
          assert done + [here] == Visible(level, prefix, open, i + 1);
        }
        entries := entries + 1;
        i := i + 1;
      }
    }
  }

  /** What a walk is asked to show: a window of lines, or nothing but the count. */
  datatype View = View(drawn: bool, offset: nat, window: nat, selected: nat)

  predicate Falls(k: int, view: View) {
    !view.drawn || view.offset <= k < view.offset + view.window
  }

  /** The lines of a list that fall in the window, the list's first line being number `base`. */
  function Emitted(list: seq<Pos>, base: nat, view: View): seq<Pos> {
    if list == [] || !view.drawn then []
    else
      Emitted(list[..|list| - 1], base, view) +
      if Falls(base + |list| - 1, view) then [list[|list| - 1]] else []
  }

  function Counted(list: seq<Pos>, base: nat, view: View): nat {
    if list == [] then 0
    else Counted(list[..|list| - 1], base, view) + if Falls(base + |list| - 1, view) then 1 else 0
  }

  /** The selected entry, if it is one of the list's and its line is looked at. */
  function Pointed(list: seq<Pos>, base: nat, view: View, was: Option<Pos>): Option<Pos> {
    if base <= view.selected < base + |list| && Falls(view.selected, view)
    then Some(list[view.selected - base]) else was
  }

  lemma WalkNothing(base: nat, view: View, was: Option<Pos>)
    ensures Emitted([], base, view) == [] && Counted([], base, view) == 0 && Pointed([], base, view, was) == was
  {
  }

  lemma WalkOne(list: seq<Pos>, here: Pos, base: nat, view: View, was: Option<Pos>)
    ensures var k := base + |list|;
            && Emitted(list + [here], base, view) ==
               Emitted(list, base, view) + (if view.drawn && Falls(k, view) then [here] else [])
            && Counted(list + [here], base, view) == Counted(list, base, view) + (if Falls(k, view) then 1 else 0)
            && Pointed(list + [here], base, view, was) ==
               if k == view.selected && Falls(k, view) then Some(here) else Pointed(list, base, view, was)
  {
    assert (list + [here])[..|list|] == list;
    if !view.drawn {
      assert Emitted(list, base, view) == [];
    }
  }

  lemma {:induction false} WalkMore(list: seq<Pos>, more: seq<Pos>, base: nat, view: View, was: Option<Pos>)
    ensures var next := base + |list|;
            && Emitted(list + more, base, view) == Emitted(list, base, view) + Emitted(more, next, view)
            && Counted(list + more, base, view) == Counted(list, base, view) + Counted(more, next, view)
            && Pointed(list + more, base, view, was) == Pointed(more, next, view, Pointed(list, base, view, was))
    decreases |more|
  {
    hide Falls, Emitted, Counted, Pointed;
    if more == [] {
      assert list + more == list;
      WalkNothing(base + |list|, view, Pointed(list, base, view, was));
    } else {
      var rest, last := more[..|more| - 1], more[|more| - 1];
      assert more == rest + [last] && list + more == list + rest + [last];
      WalkMore(list, rest, base, view, was);
      WalkOne(list + rest, last, base, view, was);
      WalkOne(rest, last, base + |list|, view, Pointed(list, base, view, was));
    }
  }

  /** One line more: printed after the others or not at all. */
  lemma EmittedLast(list: seq<Pos>, view: View)
    requires view.drawn && list != []
    ensures var rest, k := list[..|list| - 1], |list| - 1;
            && Emitted(list, 0, view) == Emitted(rest, 0, view) + (if Falls(k, view) then [list[k]] else [])
            && Counted(list, 0, view) == Counted(rest, 0, view) + (if Falls(k, view) then 1 else 0)
  {
    hide Falls;
  }

  /** The part of a list inside the window. */
  function Windowed(list: seq<Pos>, view: View): seq<Pos> {
    if |list| <= view.offset then []
    else if |list| <= view.offset + view.window then list[view.offset..]
    else list[view.offset..view.offset + view.window]
  }

  lemma WindowedLast(list: seq<Pos>, view: View)
    requires view.drawn && list != []
    ensures var rest, k := list[..|list| - 1], |list| - 1;
            Windowed(list, view) == Windowed(rest, view) + (if Falls(k, view) then [list[k]] else [])
  {
    var rest, k := list[..|list| - 1], |list| - 1;
    if k < view.offset {
      assert Windowed(list, view) == [] == Windowed(rest, view);
    } else if k < view.offset + view.window {
      assert list[view.offset..] == rest[view.offset..] + [list[k]];
    } else {
      assert list[view.offset..view.offset + view.window] == rest[view.offset..view.offset + view.window];
    }
  }

  lemma {:induction false} EmittedIsWindowed(list: seq<Pos>, view: View)
    requires view.drawn
    ensures Emitted(list, 0, view) == Windowed(list, view) && Counted(list, 0, view) == |Windowed(list, view)|
    decreases |list|
  {
    if list != [] {
      hide Emitted, Counted, Windowed, Falls;
      EmittedIsWindowed(list[..|list| - 1], view);
      EmittedLast(list, view);
      WindowedLast(list, view);
    }
  }

  /** From line 0 on, the lines printed are a slice of the list. */
  lemma EmittedIsSlice(list: seq<Pos>, view: View)
    requires view.drawn
    ensures view.offset + view.window <= |list| ==>
              Emitted(list, 0, view) == list[view.offset..view.offset + view.window]
    ensures view.offset <= |list| <= view.offset + view.window ==> Emitted(list, 0, view) == list[view.offset..]
    ensures |list| <= view.offset ==> Emitted(list, 0, view) == []
    ensures Counted(list, 0, view) == |Emitted(list, 0, view)|
  {
    hide Emitted, Counted;
    EmittedIsWindowed(list, view);
  }

  lemma PicksWhen(level: seq<Node>, name: string, dup: nat, i: nat)
    requires i < |level|
    ensures Picks(level, name, dup, i) <==>
              !level[i].skipped && level[i].name == name && CountName(level, name, i) == dup
    ensures CountName(level, name, i + 1) ==
            CountName(level, name, i) + if !level[i].skipped && level[i].name == name then 1 else 0
    ensures Picks(level, name, dup, i) ==> Pickable(level, name, dup)
  {
  }

  lemma PickInRange(level: seq<Node>, name: string, dup: nat)
    requires Pickable(level, name, dup)
    ensures Pick(level, name, dup) < |level|
  {
  }
}
