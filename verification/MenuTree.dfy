/**
 The boot menu's tree of entries and what of it is on show.

 An entry is named by its position: the indices to follow from the top level.
 Which directories are open is state, kept apart from the tree itself.
 */
module MenuTree {

  datatype Node = Node(name: string, skipped: bool, sub: seq<Node>)

  type Pos = seq<nat>

  ghost predicate ValidPos(level: seq<Node>, pos: Pos)
    decreases |pos|
  {
    && pos != [] && pos[0] < |level|
    && (|pos| == 1 || ValidPos(level[pos[0]].sub, pos[1..]))
  }

  ghost function At(level: seq<Node>, pos: Pos): Node
    requires ValidPos(level, pos)
    decreases |pos|
  {
    if |pos| == 1 then level[pos[0]] else At(level[pos[0]].sub, pos[1..])
  }

  /** Whether there is an entry there that has children. */
  predicate Directory(level: seq<Node>, pos: Pos)
    decreases |pos|
  {
    && pos != [] && pos[0] < |level|
    && if |pos| == 1 then level[pos[0]].sub != [] else Directory(level[pos[0]].sub, pos[1..])
  }

  /** There is an entry there, and it has no children. */
  ghost predicate Leaf(level: seq<Node>, pos: Pos) {
    ValidPos(level, pos) && At(level, pos).sub == []
  }

  /** Every entry is a directory or a leaf, and nothing else is either. */
  lemma {:induction false} DirectoryOrLeaf(level: seq<Node>, pos: Pos)
    ensures ValidPos(level, pos) <==> Directory(level, pos) || Leaf(level, pos)
    ensures !(Directory(level, pos) && Leaf(level, pos))
    decreases |pos|
  {
    if |pos| > 1 && pos[0] < |level| {
      DirectoryOrLeaf(level[pos[0]].sub, pos[1..]);
    }
  }

  /** Neither the entry nor a directory it lies in is skipped. */
  ghost predicate Shown(level: seq<Node>, pos: Pos)
    requires ValidPos(level, pos)
    decreases |pos|
  {
    && !level[pos[0]].skipped
    && (|pos| == 1 || Shown(level[pos[0]].sub, pos[1..]))
  }

  /** The entries on show among the first `n` of a level, in order, given the open directories. */
  function Visible(level: seq<Node>, prefix: Pos, open: set<Pos>, n: nat): seq<Pos>
    requires n <= |level|
    decreases level, n
  {
    if n == 0 then []
    else
      Visible(level, prefix, open, n - 1) +
      (if level[n - 1].skipped then []
       else [prefix + [n - 1]] +
            (if level[n - 1].sub != [] && prefix + [n - 1] in open
             then Visible(level[n - 1].sub, prefix + [n - 1], open, |level[n - 1].sub|) else []))
  }

  function AllVisible(level: seq<Node>, prefix: Pos, open: set<Pos>): seq<Pos> {
    Visible(level, prefix, open, |level|)
  }

  /** What an entry that is not skipped contributes: itself and, when open, its children. */
  function Own(node: Node, here: Pos, open: set<Pos>): (s: seq<Pos>)
    ensures |s| >= 1 && s[0] == here
  {
    [here] + (if node.sub != [] && here in open then AllVisible(node.sub, here, open) else [])
  }

  lemma VisibleStep(level: seq<Node>, prefix: Pos, open: set<Pos>, i: nat)
    requires i < |level|
    ensures Visible(level, prefix, open, i + 1) ==
            Visible(level, prefix, open, i) + if level[i].skipped then [] else Own(level[i], prefix + [i], open)
  {
  }

  lemma {:induction false} VisiblePrefix(level: seq<Node>, prefix: Pos, open: set<Pos>, n: nat, m: nat)
    requires n <= m <= |level|
    ensures Visible(level, prefix, open, n) <= Visible(level, prefix, open, m)
    decreases m - n
  {
    hide Visible, Own;
    if n < m {
      VisibleStep(level, prefix, open, n);
      VisiblePrefix(level, prefix, open, n + 1, m);
    }
  }

  /** `p` lies at or below one of the first `n` entries under `prefix`. */
  ghost predicate Within(p: Pos, prefix: Pos, n: nat) {
    |p| > |prefix| && p[..|prefix|] == prefix && p[|prefix|] < n
  }

  lemma WithinSelf(prefix: Pos, n: nat)
    ensures Within(prefix + [n], prefix, n + 1) && !Within(prefix + [n], prefix, n)
  {
  }

  lemma WithinGrows(p: Pos, prefix: Pos, n: nat)
    requires Within(p, prefix, n)
    ensures Within(p, prefix, n + 1)
  {
  }

  lemma WithinChild(p: Pos, prefix: Pos, n: nat, m: nat)
    requires Within(p, prefix + [n], m)
    ensures Within(p, prefix, n + 1) && !Within(p, prefix, n) && p != prefix + [n]
  {
    var here := prefix + [n];
    assert p[..|here|][..|prefix|] == p[..|prefix|] && p[|prefix|] == p[..|here|][|prefix|];
  }

  ghost predicate AgreeWithin(a: set<Pos>, b: set<Pos>, prefix: Pos, n: nat) {
    forall p: Pos :: Within(p, prefix, n) ==> (p in a <==> p in b)
  }

  lemma AgreeInside(a: set<Pos>, b: set<Pos>, prefix: Pos, n: nat, m: nat)
    requires AgreeWithin(a, b, prefix, n + 1)
    ensures AgreeWithin(a, b, prefix, n) && AgreeWithin(a, b, prefix + [n], m)
    ensures prefix + [n] in a <==> prefix + [n] in b
  {
    hide Within;
    forall p: Pos | Within(p, prefix, n)
      ensures p in a <==> p in b
    {
      WithinGrows(p, prefix, n);
    }
    forall p: Pos | Within(p, prefix + [n], m)
      ensures p in a <==> p in b
    {
      WithinChild(p, prefix, n, m);
    }
    WithinSelf(prefix, n);
  }

  /** Only directories within the part that is listed matter to the list. */
  lemma {:induction false} VisibleFrame(level: seq<Node>, prefix: Pos, a: set<Pos>, b: set<Pos>, n: nat)
    requires n <= |level| && AgreeWithin(a, b, prefix, n)
    ensures Visible(level, prefix, a, n) == Visible(level, prefix, b, n)
    decreases level, n
  {
    hide AgreeWithin, Visible;
    if n == 0 {
      NothingVisible(level, prefix, a);
      NothingVisible(level, prefix, b);
    } else {
      VisibleStep(level, prefix, a, n - 1);
      VisibleStep(level, prefix, b, n - 1);
      AgreeInside(a, b, prefix, n - 1, |level[n - 1].sub|);
      VisibleFrame(level, prefix, a, b, n - 1);
      VisibleFrame(level[n - 1].sub, prefix + [n - 1], a, b, |level[n - 1].sub|);
    }
  }

  /** Where the entry at index `k` of a list of `n` comes from. */
  lemma SplitAt(level: seq<Node>, prefix: Pos, open: set<Pos>, n: nat, k: nat)
    requires 0 < n <= |level| && k < |Visible(level, prefix, open, n)|
    ensures var before, here, sub := Visible(level, prefix, open, n - 1), prefix + [n - 1], level[n - 1].sub;
            && |before| <= |Visible(level, prefix, open, n)|
            && (k < |before| ==> Visible(level, prefix, open, n)[k] == before[k])
            && (k >= |before| ==> !level[n - 1].skipped)
            && (k == |before| ==> Visible(level, prefix, open, n)[k] == here)
            && (k > |before| ==>
                  && sub != [] && here in open && k - |before| - 1 < |AllVisible(sub, here, open)|
                  && Visible(level, prefix, open, n)[k] == AllVisible(sub, here, open)[k - |before| - 1])
  {
    VisibleStep(level, prefix, open, n - 1);
    hide Visible;
  }

  lemma NothingVisible(level: seq<Node>, prefix: Pos, open: set<Pos>)
    ensures Visible(level, prefix, open, 0) == []
  {
  }

  /** Every listed entry lies within the part that is listed. */
  lemma {:induction false} VisibleWithin(level: seq<Node>, prefix: Pos, open: set<Pos>, n: nat, k: nat)
    requires n <= |level| && k < |Visible(level, prefix, open, n)|
    ensures Within(Visible(level, prefix, open, n)[k], prefix, n)
    decreases level, n
  {
    hide Visible, Within;
    NothingVisible(level, prefix, open);
    SplitAt(level, prefix, open, n, k);
    var before, here, sub := Visible(level, prefix, open, n - 1), prefix + [n - 1], level[n - 1].sub;
    if k < |before| {
      VisibleWithin(level, prefix, open, n - 1, k);
      WithinGrows(before[k], prefix, n - 1);
    } else if k == |before| {
      WithinSelf(prefix, n - 1);
    } else {
      var j := k - |before| - 1;
      VisibleWithin(sub, here, open, |sub|, j);
      WithinChild(AllVisible(sub, here, open)[j], prefix, n - 1, |sub|);
    }
  }

  /** Every listed entry is one of the tree's, and neither it nor a directory it lies in is skipped. */
  lemma {:induction false} VisibleValid(level: seq<Node>, prefix: Pos, open: set<Pos>, n: nat, k: nat)
    requires n <= |level| && k < |Visible(level, prefix, open, n)|
    ensures var p := Visible(level, prefix, open, n)[k];
            |p| > |prefix| && p[..|prefix|] == prefix && ValidPos(level, p[|prefix|..]) && Shown(level, p[|prefix|..])
    decreases level, n
  {
    hide Visible;
    NothingVisible(level, prefix, open);
    SplitAt(level, prefix, open, n, k);
    var before, here, sub := Visible(level, prefix, open, n - 1), prefix + [n - 1], level[n - 1].sub;
    if k < |before| {
      VisibleValid(level, prefix, open, n - 1, k);
    } else if k == |before| {
      assert here[|prefix|..] == [n - 1];
    } else {
      var j := k - |before| - 1;
      VisibleValid(sub, here, open, |sub|, j);
      var p := AllVisible(sub, here, open)[j];
      assert p[..|prefix|] == p[..|here|][..|prefix|] == prefix;
      assert p[|prefix|] == p[..|here|][|prefix|] == n - 1;
      assert p[|prefix|..][1..] == p[|here|..];
    }
  }

  /** The two sets differ at most in `target`. */
  ghost predicate DifferAt(a: set<Pos>, b: set<Pos>, target: Pos) {
    forall p: Pos :: p != target ==> (p in a <==> p in b)
  }

  lemma DifferOutside(a: set<Pos>, b: set<Pos>, target: Pos, prefix: Pos, n: nat)
    requires DifferAt(a, b, target) && !Within(target, prefix, n)
    ensures AgreeWithin(a, b, prefix, n)
  {
    hide Within;
  }

  /** Opening or closing a listed directory leaves the list up to and including it alone. */
  lemma {:induction false} ToggleKeepsFront(level: seq<Node>, prefix: Pos, a: set<Pos>, b: set<Pos>, n: nat, k: nat)
    requires n <= |level| && k < |Visible(level, prefix, a, n)| && DifferAt(a, b, Visible(level, prefix, a, n)[k])
    ensures SameFront(Visible(level, prefix, a, n), Visible(level, prefix, b, n), k + 1)
    decreases level, n
  {
    hide Visible, Within, DifferAt, AgreeWithin, Own, SameFront;
    NothingVisible(level, prefix, a);
    SplitAt(level, prefix, a, n, k);
    VisibleStep(level, prefix, a, n - 1);
    VisibleStep(level, prefix, b, n - 1);
    var before, target := Visible(level, prefix, a, n - 1), Visible(level, prefix, a, n)[k];
    var here, sub := prefix + [n - 1], level[n - 1].sub;
    if k < |before| {
      ToggleKeepsFront(level, prefix, a, b, n - 1, k);
      FrontGrows(before, Visible(level, prefix, b, n - 1),
                 Visible(level, prefix, a, n), Visible(level, prefix, b, n), k + 1);
    } else {
      if k > |before| {
        VisibleWithin(sub, here, a, |sub|, k - |before| - 1);
        WithinChild(target, prefix, n - 1, |sub|);
        DifferElsewhere(a, b, target, here);
        ToggleKeepsFront(sub, here, a, b, |sub|, k - |before| - 1);
      } else {
        WithinSelf(prefix, n - 1);
      }
      DifferOutside(a, b, target, prefix, n - 1);
      VisibleFrame(level, prefix, a, b, n - 1);
      OwnFront(before, level[n - 1], here, a, b, k - |before|);
    }
  }

  ghost predicate SameFront(x: seq<Pos>, y: seq<Pos>, n: nat) {
    n <= |x| && n <= |y| && x[..n] == y[..n]
  }

  lemma FrontGrows(x: seq<Pos>, y: seq<Pos>, x': seq<Pos>, y': seq<Pos>, n: nat)
    requires SameFront(x, y, n) && x <= x' && y <= y'
    ensures SameFront(x', y', n)
  {
    assert x'[..n] == x[..n] && y'[..n] == y[..n];
  }

  lemma OwnFront(before: seq<Pos>, node: Node, here: Pos, a: set<Pos>, b: set<Pos>, j: nat)
    requires j > 0 ==> node.sub != [] && here in a && here in b
    requires j > 0 ==> SameFront(AllVisible(node.sub, here, a), AllVisible(node.sub, here, b), j)
    ensures SameFront(before + Own(node, here, a), before + Own(node, here, b), |before| + j + 1)
  {
    hide AllVisible;
    var x, y := Own(node, here, a), Own(node, here, b);
    if j > 0 {
      assert x[..j + 1] == [here] + AllVisible(node.sub, here, a)[..j];
      assert y[..j + 1] == [here] + AllVisible(node.sub, here, b)[..j];
    } else {
      assert x[..1] == [here] == y[..1];
    }
    assert (before + x)[..|before| + j + 1] == before + x[..j + 1];
    assert (before + y)[..|before| + j + 1] == before + y[..j + 1];
  }

  lemma DifferElsewhere(a: set<Pos>, b: set<Pos>, target: Pos, p: Pos)
    requires DifferAt(a, b, target) && p != target
    ensures p in a <==> p in b
  {
  }
}
