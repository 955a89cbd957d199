/** Paths that name menu entries: printing with escapes and duplicate numbers, and reading back. */
module MenuPath {
  import opened MenuTree
  import opened Wrappers

  // ----- decimal numbers

  predicate IsDigit(c: char) {
    '0' <= c <= '9'
  }

  function DigitChar(n: nat): char
    requires n < 10
  {
    '0' + n as char
  }

  function DigitValue(c: char): nat
    requires IsDigit(c)
  {
    (c - '0') as nat
  }

  predicate AllDigits(s: string) {
    forall i :: 0 <= i < |s| ==> IsDigit(s[i])
  }

  /** Decimal, most significant digit first. */
  function Digits(n: nat): (s: string)
    ensures s != [] && AllDigits(s)
  {
    if n < 10 then [DigitChar(n)] else Digits(n / 10) + [DigitChar(n % 10)]
  }

  function Decimal(s: string): nat
    requires AllDigits(s)
  {
    if s == [] then 0 else 10 * Decimal(s[..|s| - 1]) + DigitValue(s[|s| - 1])
  }

  lemma {:induction false} DecimalOfDigits(n: nat)
    ensures Decimal(Digits(n)) == n
  {
    var s := Digits(n);
    if n < 10 {
      assert s[..|s| - 1] == [];
      assert Decimal([]) == 0;
    } else {
      DecimalOfDigits(n / 10);
      assert s[..|s| - 1] == Digits(n / 10);
    }
  }

  /** How many digits `s` starts with. */
  function Span(s: string): (n: nat)
    ensures n <= |s| && (forall i :: 0 <= i < n ==> IsDigit(s[i])) && (n < |s| ==> !IsDigit(s[n]))
  {
    if s == [] || !IsDigit(s[0]) then 0 else 1 + Span(s[1..])
  }

  lemma {:induction false} SpanIs(s: string, n: nat)
    requires n <= |s| && (forall i :: 0 <= i < n ==> IsDigit(s[i])) && (n < |s| ==> !IsDigit(s[n]))
    ensures Span(s) == n
    decreases n
  {
    if n > 0 {
      SpanIs(s[1..], n - 1);
    }
  }

  // ----- one component

  predicate Special(c: char) {
    c == '\\' || c == '/' || c == '#'
  }

  function Escape(name: string): string {
    if name == [] then []
    else if Special(name[0]) then ['\\', name[0]] + Escape(name[1..])
    else [name[0]] + Escape(name[1..])
  }

  function Suffix(dup: nat): string {
    if dup == 0 then [] else ['#'] + Digits(dup)
  }

  function Component(name: string, dup: nat): string {
    Escape(name) + Suffix(dup)
  }

  /** A `#` that starts a duplicate number: digits up to the end of the component. */
  predicate Numbered(s: string) {
    && s != [] && s[0] == '#'
    && Span(s[1..]) > 0
    && (1 + Span(s[1..]) == |s| || s[1 + Span(s[1..])] == '/')
  }

  datatype Parsed = Parsed(name: string, dup: nat, rest: string)

  /** What follows the component, without the separator. */
  function AfterSeparator(s: string): string {
    if s != [] && s[0] == '/' then s[1..] else s
  }

  /** The component at the front of a path. */
  function Parse(s: string): Parsed
    decreases |s|
  {
    if s == [] || s[0] == '/' then Parsed([], 0, AfterSeparator(s))
    else if s[0] == '\\' && |s| > 1 then
      var p := Parse(s[2..]);
      p.(name := [s[1]] + p.name)
    else if Numbered(s) then
      Parsed([], Decimal(s[1..1 + Span(s[1..])]), AfterSeparator(s[1 + Span(s[1..])..]))
    else
      var p := Parse(s[1..]);
      p.(name := [s[0]] + p.name)
  }

  /** A component ends the path or is followed by a separator. */
  predicate Ends(tail: string) {
    tail == [] || tail[0] == '/'
  }

  lemma ParseSuffix(dup: nat, tail: string)
    requires Ends(tail)
    ensures Parse(Suffix(dup) + tail) == Parsed([], dup, AfterSeparator(tail))
  {
    if dup == 0 {
      assert Suffix(dup) + tail == tail;
    } else {
      DecimalOfDigits(dup);
      ParseNumber(Digits(dup), tail);
    }
  }

  lemma ParseNumber(digits: string, tail: string)
    requires digits != [] && AllDigits(digits) && Ends(tail)
    ensures Parse(['#'] + digits + tail) == Parsed([], Decimal(digits), AfterSeparator(tail))
  {
    hide Decimal, Span;
    var s := ['#'] + digits + tail;
    assert s[1..] == digits + tail;
    SpanIs(s[1..], |digits|);
    assert s[1..1 + |digits|] == digits && s[1 + |digits|..] == tail;
    assert Numbered(s);
  }

  lemma ParseEscaped(c: char, more: string)
    ensures Parse(['\\', c] + more) == Parse(more).(name := [c] + Parse(more).name)
  {
    var s := ['\\', c] + more;
    assert s[1] == c && s[2..] == more;
    hide Numbered, Decimal, Span;
  }

  lemma ParsePlain(c: char, more: string)
    requires !Special(c)
    ensures Parse([c] + more) == Parse(more).(name := [c] + Parse(more).name)
  {
    var s := [c] + more;
    assert s[1..] == more && !Numbered(s);
    hide Numbered, Decimal, Span;
  }

  /** Reading a component back undoes writing it, whatever the name and the number. */
  /** A printed component, character by character. */
  lemma ComponentStarts(name: string, dup: nat, tail: string)
    ensures Component(name, dup) + tail ==
            if name == [] then Suffix(dup) + tail
            else (if Special(name[0]) then ['\\', name[0]] else [name[0]]) + (Component(name[1..], dup) + tail)
  {
    hide Suffix, Special;
  }

  lemma {:induction false} ParseUndoesComponent(name: string, dup: nat, tail: string)
    requires Ends(tail)
    ensures Parse(Component(name, dup) + tail) == Parsed(name, dup, AfterSeparator(tail))
    decreases |name|
  {
    hide Suffix, Parse, Component;
    ComponentStarts(name, dup, tail);
    if name == [] {
      ParseSuffix(dup, tail);
    } else {
      var more := Component(name[1..], dup) + tail;
      ParseUndoesComponent(name[1..], dup, tail);
      if Special(name[0]) {
        ParseEscaped(name[0], more);
      } else {
        ParsePlain(name[0], more);
      }
      assert [name[0]] + name[1..] == name;
    }
  }

  // ----- whole paths

  /** How many of the first `i` entries of a level bear a name, skipped ones apart. */
  function CountName(level: seq<Node>, name: string, i: nat): nat
    requires i <= |level|
  {
    if i == 0 then 0
    else CountName(level, name, i - 1) + if !level[i - 1].skipped && level[i - 1].name == name then 1 else 0
  }

  function DupIndex(level: seq<Node>, i: nat): nat
    requires i < |level|
  {
    CountName(level, level[i].name, i)
  }

  function EntryComponent(level: seq<Node>, i: nat): string
    requires i < |level|
  {
    Component(level[i].name, DupIndex(level, i))
  }

  /** The path printed for an entry. */
  ghost function PathOf(level: seq<Node>, pos: Pos): string
    requires ValidPos(level, pos)
    decreases |pos|
  {
    EntryComponent(level, pos[0]) +
    if |pos| == 1 then [] else ['/'] + PathOf(level[pos[0]].sub, pos[1..])
  }

  /** The component printed for the entry itself. */
  ghost function LastComponent(level: seq<Node>, pos: Pos): string
    requires ValidPos(level, pos)
    decreases |pos|
  {
    if |pos| == 1 then EntryComponent(level, pos[0]) else LastComponent(level[pos[0]].sub, pos[1..])
  }

  /** The entry that bears the name with exactly `dup` shown namesakes before it. */
  ghost predicate Picks(level: seq<Node>, name: string, dup: nat, i: nat) {
    i < |level| && !level[i].skipped && level[i].name == name && CountName(level, name, i) == dup
  }

  lemma {:induction false} CountGrows(level: seq<Node>, name: string, i: nat, j: nat)
    requires i <= j <= |level|
    ensures CountName(level, name, i) <= CountName(level, name, j)
    decreases j
  {
    if i < j { CountGrows(level, name, i, j - 1); }
  }

  lemma PicksOne(level: seq<Node>, name: string, dup: nat, i: nat, j: nat)
    requires Picks(level, name, dup, i) && Picks(level, name, dup, j)
    ensures i == j
  {
    if i < j {
      CountGrows(level, name, i + 1, j);
    } else if j < i {
      CountGrows(level, name, j + 1, i);
    }
  }

  ghost predicate Pickable(level: seq<Node>, name: string, dup: nat) {
    exists i: nat :: Picks(level, name, dup, i)
  }

  ghost function Pick(level: seq<Node>, name: string, dup: nat): (i: nat)
    requires Pickable(level, name, dup)
    ensures Picks(level, name, dup, i)
  {
    var i: nat :| Picks(level, name, dup, i);
    i
  }

  /** The entry a path names, if any. */
  ghost function Lookup(level: seq<Node>, prefix: Pos, path: string): Option<Pos>
    decreases level
  {
    var p := Parse(path);
    if !Pickable(level, p.name, p.dup) then None
    else
      var i := Pick(level, p.name, p.dup);
      if p.rest == [] then Some(prefix + [i])
      else if level[i].sub == [] then None
      else Lookup(level[i].sub, prefix + [i], p.rest)
  }

  /** How many components a path has. */
  ghost function Depth(path: string): (n: nat)
    ensures n >= 1
    decreases |path|
  {
    RestShrinks(path);
    if Parse(path).rest == [] then 1 else 1 + Depth(Parse(path).rest)
  }

  lemma {:induction false} RestShrinks(path: string)
    ensures Parse(path).rest == [] || |Parse(path).rest| < |path|
    decreases |path|
  {
    hide Decimal;
    if path == [] || path[0] == '/' || Numbered(path) {
    } else if path[0] == '\\' && |path| > 1 {
      RestShrinks(path[2..]);
    } else {
      RestShrinks(path[1..]);
    }
  }

  /** A lookup goes as deep as the path has components, and ends on an entry that is shown. */
  lemma {:induction false} LookupIsShown(level: seq<Node>, prefix: Pos, path: string)
    requires Lookup(level, prefix, path).Some?
    ensures var q := Lookup(level, prefix, path).value;
            && |q| == |prefix| + Depth(path) && q[..|prefix|] == prefix
            && ValidPos(level, q[|prefix|..]) && Shown(level, q[|prefix|..])
    decreases level
  {
    hide Parse, Pickable;
    var p, q := Parse(path), Lookup(level, prefix, path).value;
    var i := Pick(level, p.name, p.dup);
    if p.rest == [] {
      assert q[|prefix|..] == [i];
    } else {
      LookupIsShown(level[i].sub, prefix + [i], p.rest);
      var r := q[|prefix| + 1..];
      assert q[..|prefix| + 1] == prefix + [i];
      assert q[|prefix|..] == [i] + r && ([i] + r)[1..] == r;
      assert q[..|prefix|] == q[..|prefix| + 1][..|prefix|];
    }
  }

  lemma FirstComponent(level: seq<Node>, pos: Pos)
    requires ValidPos(level, pos)
    ensures Parse(PathOf(level, pos)) ==
            Parsed(level[pos[0]].name, DupIndex(level, pos[0]),
                   if |pos| == 1 then [] else PathOf(level[pos[0]].sub, pos[1..]))
  {
    hide Parse, Component, DupIndex;
    var tail := if |pos| == 1 then [] else ['/'] + PathOf(level[pos[0]].sub, pos[1..]);
    ParseUndoesComponent(level[pos[0]].name, DupIndex(level, pos[0]), tail);
    if |pos| > 1 {
      assert tail[1..] == PathOf(level[pos[0]].sub, pos[1..]);
    }
  }

  /** The path of an entry has one component per level, unless its own component prints as nothing. */
  lemma {:induction false} DepthOfPath(level: seq<Node>, pos: Pos)
    requires ValidPos(level, pos)
    ensures Depth(PathOf(level, pos)) == if |pos| > 1 && LastComponent(level, pos) == [] then |pos| - 1 else |pos|
    ensures |pos| > 1 || LastComponent(level, pos) != [] <==> PathOf(level, pos) != []
    decreases |pos|
  {
    hide Parse, EntryComponent;
    FirstComponent(level, pos);
    if |pos| > 1 {
      DepthOfPath(level[pos[0]].sub, pos[1..]);
    }
  }

  lemma {:induction false} LookupFinds(level: seq<Node>, prefix: Pos, pos: Pos)
    requires ValidPos(level, pos) && Shown(level, pos) && (|pos| == 1 || LastComponent(level, pos) != [])
    ensures Lookup(level, prefix, PathOf(level, pos)) == Some(prefix + pos)
    decreases |pos|
  {
    hide Parse, EntryComponent, Picks, PathOf;
    FirstComponent(level, pos);
    var path := PathOf(level, pos);
    var p := Parse(path);
    assert Picks(level, p.name, p.dup, pos[0]) by { PicksItself(level, pos[0]); }
    PicksOne(level, p.name, p.dup, Pick(level, p.name, p.dup), pos[0]);
    if |pos| == 1 {
      assert pos == [pos[0]];
    } else {
      DepthOfPath(level[pos[0]].sub, pos[1..]);
      LookupFinds(level[pos[0]].sub, prefix + [pos[0]], pos[1..]);
      assert prefix + [pos[0]] + pos[1..] == prefix + pos;
    }
  }

  lemma PicksItself(level: seq<Node>, i: nat)
    requires i < |level| && !level[i].skipped
    ensures Picks(level, level[i].name, DupIndex(level, i), i)
  {
  }

  /**
   The path of an entry leads back to that entry exactly when neither it nor a
   directory on the way is skipped, and it is at the top level or prints as
   something. An empty name prints as something when it has shown namesakes before it.
   */
  lemma PathRoundTrip(level: seq<Node>, prefix: Pos, pos: Pos)
    requires ValidPos(level, pos)
    ensures Lookup(level, prefix, PathOf(level, pos)) == Some(prefix + pos) <==>
            Shown(level, pos) && (|pos| == 1 || LastComponent(level, pos) != [])
  {
    hide PathOf, LastComponent;
    var path := PathOf(level, pos);
    if Shown(level, pos) && (|pos| == 1 || LastComponent(level, pos) != []) {
      LookupFinds(level, prefix, pos);
    } else if Lookup(level, prefix, path) == Some(prefix + pos) {
      LookupIsShown(level, prefix, path);
      assert (prefix + pos)[|prefix|..] == pos;
      DepthOfPath(level, pos);
    }
  }

  /** Names with at least one character always print as something. */
  lemma NamedPrints(level: seq<Node>, pos: Pos)
    requires ValidPos(level, pos) && At(level, pos).name != []
    ensures LastComponent(level, pos) != []
    decreases |pos|
  {
    if |pos| > 1 {
      NamedPrints(level[pos[0]].sub, pos[1..]);
    }
  }

  /** An entry inside a skipped directory cannot be found by its path, although it is not skipped itself. */
  lemma SkippedDirectoryHides()
    ensures var tree := [Node("a", true, [Node("b", false, [])])];
            && ValidPos(tree, [0, 0]) && !At(tree, [0, 0]).skipped
            && Lookup(tree, [], PathOf(tree, [0, 0])) != Some([0, 0])
  {
    var tree := [Node("a", true, [Node("b", false, [])])];
    assert [0, 0][1..] == [0];
    assert ValidPos(tree, [0, 0]);
    PathRoundTrip(tree, [], [0, 0]);
    assert [] + [0, 0] == [0, 0];
    hide Lookup, PathOf;
  }

  /** The path of a nameless child is its directory's with a separator, which names the directory. */
  lemma NamelessChildIsLost()
    ensures var tree := [Node("a", false, [Node("", false, [])])];
            && ValidPos(tree, [0, 0]) && Shown(tree, [0, 0])
            && Lookup(tree, [], PathOf(tree, [0, 0])) != Some([0, 0])
  {
    var tree := [Node("a", false, [Node("", false, [])])];
    assert [0, 0][1..] == [0];
    assert ValidPos(tree, [0, 0]);
    assert LastComponent(tree, [0, 0]) == LastComponent(tree[0].sub, [0]) == [];
    PathRoundTrip(tree, [], [0, 0]);
    assert [] + [0, 0] == [0, 0];
    hide Lookup, PathOf;
  }

  // ----- paths and open directories

  /** The directories a lookup passes through. */
  ghost function Trail(level: seq<Node>, prefix: Pos, path: string): set<Pos>
    decreases level
  {
    var p := Parse(path);
    if !Pickable(level, p.name, p.dup) then {}
    else
      var i := Pick(level, p.name, p.dup);
      if p.rest == [] || level[i].sub == [] then {}
      else {prefix + [i]} + Trail(level[i].sub, prefix + [i], p.rest)
  }

  /** They all lie at or below the entry picked on the first level. */
  lemma {:induction false} TrailWithin(level: seq<Node>, prefix: Pos, path: string, q: Pos)
    requires q in Trail(level, prefix, path)
    ensures Pickable(level, Parse(path).name, Parse(path).dup)
    ensures var i := Pick(level, Parse(path).name, Parse(path).dup); Within(q, prefix, i + 1) && !Within(q, prefix, i)
    decreases level
  {
    hide Parse, Within, Pickable;
    var p := Parse(path);
    var i := Pick(level, p.name, p.dup);
    var here := prefix + [i];
    if q == here {
      WithinSelf(prefix, i);
    } else {
      TrailWithin(level[i].sub, here, p.rest, q);
      WithinChild(q, prefix, i, Pick(level[i].sub, Parse(p.rest).name, Parse(p.rest).dup) + 1);
    }
  }

  /** The index of a found entry: what is listed before its first level, then on within it. */
  lemma FoundHere(level: seq<Node>, prefix: Pos, open: set<Pos>, i: nat)
    requires i < |level| && !level[i].skipped
    ensures |Visible(level, prefix, open, i)| < |AllVisible(level, prefix, open)|
    ensures AllVisible(level, prefix, open)[|Visible(level, prefix, open, i)|] == prefix + [i]
  {
    hide Visible;
    VisibleStep(level, prefix, open, i);
    VisiblePrefix(level, prefix, open, i + 1, |level|);
  }

  lemma FoundBelow(level: seq<Node>, prefix: Pos, open: set<Pos>, i: nat, j: nat)
    requires i < |level| && !level[i].skipped && level[i].sub != [] && prefix + [i] in open
    requires j < |AllVisible(level[i].sub, prefix + [i], open)|
    ensures |Visible(level, prefix, open, i)| + 1 + j < |AllVisible(level, prefix, open)|
    ensures AllVisible(level, prefix, open)[|Visible(level, prefix, open, i)| + 1 + j] ==
            AllVisible(level[i].sub, prefix + [i], open)[j]
  {
    hide Visible;
    VisibleStep(level, prefix, open, i);
    VisiblePrefix(level, prefix, open, i + 1, |level|);
  }

  /** Opening what the lookup passes through does not move what is listed before. */
  lemma TrailKeepsFront(level: seq<Node>, prefix: Pos, open: set<Pos>, path: string, i: nat)
    requires i < |level| && Picks(level, Parse(path).name, Parse(path).dup, i)
    ensures Visible(level, prefix, open + Trail(level, prefix, path), i) == Visible(level, prefix, open, i)
  {
    hide Parse, Within, Visible, Trail;
    var p, more := Parse(path), open + Trail(level, prefix, path);
    PicksOne(level, p.name, p.dup, i, Pick(level, p.name, p.dup));
    forall q: Pos | Within(q, prefix, i)
      ensures q in open <==> q in more
    {
      if q in Trail(level, prefix, path) { TrailWithin(level, prefix, path, q); }
    }
    VisibleFrame(level, prefix, open, more, i);
  }

  /** Inside a directory it makes no difference whether the directory itself is open. */
  lemma OpenBesideSub(sub: seq<Node>, here: Pos, open: set<Pos>)
    ensures AllVisible(sub, here, open + {here}) == AllVisible(sub, here, open)
  {
    hide Visible;
    assert AgreeWithin(open + {here}, open, here, |sub|);
    VisibleFrame(sub, here, open + {here}, open, |sub|);
  }
}
