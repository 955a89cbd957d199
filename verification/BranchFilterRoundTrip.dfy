/** The boot decoder's pass undoes the branch filter on every byte sequence. */
module BranchFilterRoundTrip {
  import opened Bytes
  import opened BranchFilter

  // ----- storing and loading an operand

  lemma StoredReads(data: seq<Byte>, pos: nat, v: U32)
    requires pos + 5 <= |data|
    ensures Read32(Stored(data, pos, v), pos + 1) == Canonical(v)
  {
    var r := Stored(data, pos, v);
    var b0, b1, b2 := ByteAt(v, 0), ByteAt(v, 1), ByteAt(v, 2);
    assert r[pos + 1] == b0 && r[pos + 2] == b1 && r[pos + 3] == b2;
    assert r[pos + 4] == if v % LOW25 >= TWO24 then 255 else 0;
    BytesOf24(v);
  }

  lemma BytesOf24(v: U32)
    ensures ByteAt(v, 0) + TWO8 * ByteAt(v, 1) + TWO16 * ByteAt(v, 2) == v % TWO24
    ensures v % LOW25 == v % TWO24 + (if v % LOW25 >= TWO24 then TWO24 else 0)
  {
    ModOfMod(v, 0x100, 0x100);
    ModOfMod(v, 0x100, 0x1_0000);
    ModOfMod(v, 2, TWO24);
    var t := v % TWO24;
    var u := t % 0x1_0000;
    assert ByteAt(v, 2) == t / 0x1_0000 && t == TWO16 * ByteAt(v, 2) + u;
    assert ByteAt(v, 1) == u / 0x100 && ByteAt(v, 0) == u % 0x100;
  }

  lemma Read32Top(data: seq<Byte>, i: nat)
    requires i + 4 <= |data|
    ensures Read32(data, i) / TWO24 == data[i + 3]
    ensures forall j: nat :: j <= 2 ==> ByteAt(Read32(data, i), j) == data[i + j]
  {
    var a, b, c, d := data[i], data[i + 1], data[i + 2], data[i + 3];
    var v := Read32(data, i);
    DivModUnique(v, TWO24, d, a + TWO8 * b + TWO16 * c);
    DivModUnique(v, 0x1_0000, c + TWO8 * d, a + TWO8 * b);
    DivModUnique(v, 0x100, b + TWO8 * c + TWO16 * d, a);
  }

  // ----- what the history knows

  /** Bit g of the history speaks of the opcode g places before the last one seen. */
  ghost predicate Faithful(data: seq<Byte>, sc: Scan) {
    forall g: nat :: g <= 3 && sc.history.Kept(g) ==>
      && 0 <= sc.previous - g && sc.previous - g + 4 < |data|
      && sc.history.High(g) == Extreme(data[sc.previous - g + 4])
  }

  lemma FaithfulClear(data: seq<Byte>, sc: Scan)
    requires sc.history == CLEAR
    ensures Faithful(data, sc)
  {
  }

  /** The same bits, aged to the scan's own position. */
  lemma FaithfulHere(data: seq<Byte>, sc: Scan, g: nat)
    requires Standing(data, sc) && Faithful(data, sc)
    requires 1 <= g <= 3 && HistoryHere(sc).Kept(g)
    ensures 0 <= sc.pos - g && sc.pos - g + 4 < |data|
    ensures HistoryHere(sc).High(g) == Extreme(data[sc.pos - g + 4])
  {
    var gap := sc.pos - sc.previous;
    if g < gap {
      AgedByClears(sc.history, g, gap);
    } else {
      AgedByMoves(sc.history, g - gap, gap);
      assert sc.history.Kept(g - gap);
    }
  }

  lemma FaithfulAfter(data: seq<Byte>, sc: Scan)
    requires Standing(data, sc) && |data| - sc.pos >= 5 && Faithful(data, sc)
    requires !Judge(data, sc).Rewrite?
    ensures Faithful(data, After(sc, Judge(data, sc)))
  {
    var v := Judge(data, sc);
    if v.Keep? {
      var h := HistoryHere(sc);
      forall g: nat | g <= 3 && v.history.Kept(g)
        ensures 0 <= sc.pos - g && sc.pos - g + 4 < |data|
        ensures v.history.High(g) == Extreme(data[sc.pos - g + 4])
      {
        if g > 0 {
          assert h.Kept(g) && v.history.High(g) == h.High(g);
          FaithfulHere(data, sc, g);
        }
      }
    }
  }

  /** An accepted non-clear history: the shared byte of the operand was not extreme. */
  lemma SharedByteNotExtreme(data: seq<Byte>, sc: Scan)
    requires Standing(data, sc) && |data| - sc.pos >= 5 && Faithful(data, sc)
    requires Judge(data, sc).Rewrite? && HistoryHere(sc) != CLEAR
    ensures !Extreme(ByteAt(Read32(data, sc.pos + 1), Place(HistoryHere(sc))))
  {
    hide ByteAt, Read32, Extreme;
    var h := HistoryHere(sc);
    AcceptedKeepsOne(h);
    var g := TopBit(h.Number());
    AcceptedIsSingle(h, g);
    FaithfulHere(data, sc, g);
    Read32Top(data, sc.pos + 1);
  }

  // ----- what later rewrites leave alone

  lemma ForthKeepsPast(data: seq<Byte>, sc: Scan, j: nat)
    requires Standing(data, sc) && |data| - sc.pos >= 5 && j < |data| && (j <= sc.pos || j >= sc.pos + 5)
    ensures Forth(data, sc)[j] == data[j]
  {
    hide Judge, Shift, Stored;
  }

  lemma BackKeepsPast(data: seq<Byte>, sc: Scan, j: nat)
    requires Standing(data, sc) && |data| - sc.pos >= 5 && j < |data| && (j <= sc.pos || j >= sc.pos + 5)
    ensures Back(data, sc)[j] == data[j]
  {
    hide Judge, Unshift, Stored;
  }

  lemma {:induction false} FilteredKeepsPast(data: seq<Byte>, sc: Scan, j: nat)
    requires Standing(data, sc) && j < |data| && j <= sc.pos
    ensures Filtered(data, sc)[j] == data[j]
    decreases |data| - sc.pos
  {
    hide Judge, Forth;
    if |data| - sc.pos >= 5 {
      ForthKeepsPast(data, sc, j);
      FilteredKeepsPast(Forth(data, sc), After(sc, Judge(data, sc)), j);
    }
  }

  /** The history still covers the kept opcode at `q`, and says `extreme` of its top byte. */
  ghost predicate Watches(sc: Scan, q: nat, extreme: bool) {
    && 0 <= sc.previous - q <= 3
    && sc.history.Kept(sc.previous - q) && sc.history.High(sc.previous - q) == extreme
  }

  lemma WatchesHere(sc: Scan, q: nat, extreme: bool)
    requires sc.previous < sc.pos <= q + 3 && Watches(sc, q, extreme)
    ensures HistoryHere(sc).Kept(sc.pos - q) && HistoryHere(sc).High(sc.pos - q) == extreme
  {
    AgedByMoves(sc.history, sc.previous - q, sc.pos - sc.previous);
  }

  lemma WatchesAfter(data: seq<Byte>, sc: Scan, q: nat, extreme: bool)
    requires Standing(data, sc) && |data| - sc.pos >= 5 && !Judge(data, sc).Rewrite?
    requires q < sc.pos <= q + 3 && Watches(sc, q, extreme)
    ensures Watches(After(sc, Judge(data, sc)), q, extreme)
  {
    WatchesHere(sc, q, extreme);
  }

  lemma RewriteKeepsWatched(data: seq<Byte>, sc: Scan, q: nat)
    requires Standing(data, sc) && |data| - sc.pos >= 5 && Faithful(data, sc)
    requires q < sc.pos <= q + 3 && Watches(sc, q, Extreme(data[q + 4]))
    requires Judge(data, sc).Rewrite?
    ensures !Extreme(data[q + 4]) && !Extreme(Forth(data, sc)[q + 4])
  {
    var h := HistoryHere(sc);
    var g := sc.pos - q;
    WatchesHere(sc, q, Extreme(data[q + 4]));
    AcceptedIsSingle(h, g);
    assert h != CLEAR && Place(h) == 3 - g;
    var v := Read32(data, sc.pos + 1);
    hide ByteAt, Extreme, Shift, Read32, Faithful, Watches, HistoryHere;
    SharedByteNotExtreme(data, sc);
    ShiftAvoidsExtreme(v, sc.pos + 5, h);
    assert Forth(data, sc)[q + 4] == ByteAt(Shift(v, sc.pos + 5, h), 3 - g);
  }

  /** Filtering the rest never changes whether a kept opcode's top byte is extreme. */
  lemma {:induction false} FilteredKeepsWatched(data: seq<Byte>, sc: Scan, q: nat)
    requires Standing(data, sc) && Faithful(data, sc)
    requires q < sc.pos <= q + 4 < |data|
    requires Watches(sc, q, Extreme(data[q + 4]))
    ensures Extreme(Filtered(data, sc)[q + 4]) == Extreme(data[q + 4])
    decreases |data| - sc.pos
  {
    hide Extreme, Judge, Watches, Faithful;
    if sc.pos == q + 4 {
      FilteredKeepsPast(data, sc, q + 4);
    } else if |data| - sc.pos >= 5 {
      var v := Judge(data, sc);
      if v.Rewrite? {
        hide Forth;
        RewriteKeepsWatched(data, sc, q);
        FilteredKeepsPast(Forth(data, sc), After(sc, v), q + 4);
      } else {
        WatchesAfter(data, sc, q, Extreme(data[q + 4]));
        FaithfulAfter(data, sc);
        FilteredKeepsWatched(data, After(sc, v), q);
      }
    }
  }

  // ----- undoing

  lemma StoredRestores(x: seq<Byte>, data: seq<Byte>, pos: nat, u: U32)
    requires |x| == |data| && pos + 5 <= |data| && Extreme(data[pos + 4])
    requires u % LOW25 == Read32(data, pos + 1) % LOW25
    ensures forall j :: pos < j < pos + 5 ==> Stored(x, pos, u)[j] == data[j]
  {
    var v := Read32(data, pos + 1);
    Read32Top(data, pos + 1);
    CanonicalFixed(v);
    FlipAlike(u, v, 0);
    FlipAlike(u, v, 1);
    FlipAlike(u, v, 2);
    hide ByteAt, Read32;
    var r := Stored(x, pos, u);
    assert r[pos + 1] == ByteAt(u, 0) == data[pos + 1 + 0];
    assert r[pos + 2] == ByteAt(u, 1) == data[pos + 1 + 1];
    assert r[pos + 3] == ByteAt(u, 2) == data[pos + 1 + 2];
    assert r[pos + 4] == data[pos + 4];
  }

  lemma SuffixAt(x: seq<Byte>, y: seq<Byte>, pos: nat, j: nat)
    requires |x| == |y| && pos <= j < |x| && x[pos..] == y[pos..]
    ensures x[j] == y[j]
  {
    assert x[j] == x[pos..][j - pos] == y[pos..][j - pos] == y[j];
  }

  lemma SuffixFrom(x: seq<Byte>, y: seq<Byte>, pos: nat, k: nat)
    requires |x| == |y| && pos <= k <= |x| && x[pos..] == y[pos..]
    ensures x[k..] == y[k..]
  {
    assert x[k..] == x[pos..][k - pos..] == y[pos..][k - pos..] == y[k..];
  }

  /** At a rewritten operand both passes agree, and the second brings the bytes back. */
  lemma RewriteUndone(data: seq<Byte>, x: seq<Byte>, sc: Scan)
    requires Standing(data, sc) && |data| - sc.pos >= 5 && Faithful(data, sc) && |x| == |data|
    requires Judge(data, sc).Rewrite?
    requires x[sc.pos..] == Filtered(data, sc)[sc.pos..]
    ensures Judge(x, sc) == Judge(data, sc)
    ensures forall j :: sc.pos <= j < sc.pos + 5 ==> Back(x, sc)[j] == data[j]
  {
    var pos, h := sc.pos, HistoryHere(sc);
    var v := Read32(data, pos + 1);
    var moved := Shift(v, pos + 5, h);
    var stored := Forth(data, sc);
    var filtered := Filtered(data, sc);
    forall j | pos <= j < pos + 5
      ensures x[j] == stored[j]
    {
      FilteredKeepsPast(stored, After(sc, Judge(data, sc)), j);
      SuffixAt(x, filtered, pos, j);
    }
    assert stored[pos + 4] == if moved % LOW25 >= TWO24 then 255 else 0;
    StoredReads(data, pos, moved);
    assert Read32(x, pos + 1) == Canonical(moved);
    CanonicalLow(moved);
    if h != CLEAR { SharedByteNotExtreme(data, sc); }
    UnshiftUndoesShift(v, Canonical(moved), pos + 5, h);
    StoredRestores(x, data, pos, Unshift(Read32(x, pos + 1), pos + 5, h));
  }

  lemma KeepAgrees(data: seq<Byte>, x: seq<Byte>, sc: Scan)
    requires Standing(data, sc) && |data| - sc.pos >= 5 && Faithful(data, sc) && |x| == |data|
    requires !Judge(data, sc).Rewrite?
    requires x[sc.pos..] == Filtered(data, sc)[sc.pos..]
    ensures Judge(x, sc) == Judge(data, sc) && x[sc.pos] == data[sc.pos]
  {
    var pos, v := sc.pos, Judge(data, sc);
    var filtered := Filtered(data, sc);
    FilteredKeepsPast(data, sc, pos);
    SuffixAt(x, filtered, pos, pos);
    SuffixAt(x, filtered, pos, pos + 4);
    if v.Keep? {
      FaithfulAfter(data, sc);
      FilteredKeepsWatched(data, After(sc, v), pos);
    }
  }

  lemma RewriteRestores(data: seq<Byte>, x: seq<Byte>, sc: Scan)
    requires Standing(data, sc) && |data| - sc.pos >= 5 && Faithful(data, sc) && |x| == |data|
    requires Judge(data, sc).Rewrite?
    requires x[sc.pos..] == Filtered(data, sc)[sc.pos..]
    ensures var k := sc.pos + 5;
            && Back(x, sc)[k..] == x[k..] && Forth(data, sc)[k..] == data[k..]
            && Back(x, sc)[..k] == x[..sc.pos] + data[sc.pos..k]
  {
    hide Judge, Forth, Back, Filtered, Faithful;
    RewriteUndone(data, x, sc);
    var y, k := Back(x, sc), sc.pos + 5;
    forall j: nat | j < |data| && (j <= sc.pos || j >= k)
      ensures y[j] == x[j] && Forth(data, sc)[j] == data[j]
    {
      ForthKeepsPast(data, sc, j);
      BackKeepsPast(x, sc, j);
    }
    assert y[..k] == x[..sc.pos] + data[sc.pos..k];
  }

  /** Both passes decide alike at every position. */
  lemma JudgeAgrees(data: seq<Byte>, x: seq<Byte>, sc: Scan)
    requires Standing(data, sc) && |data| - sc.pos >= 5 && Faithful(data, sc) && |x| == |data|
    requires x[sc.pos..] == Filtered(data, sc)[sc.pos..]
    ensures Judge(x, sc) == Judge(data, sc)
  {
    hide *;
    if Judge(data, sc).Rewrite? {
      RewriteUndone(data, x, sc);
    } else {
      KeepAgrees(data, x, sc);
    }
  }

  lemma FaithfulForth(data: seq<Byte>, sc: Scan)
    requires Standing(data, sc) && |data| - sc.pos >= 5 && Faithful(data, sc)
    ensures Faithful(Forth(data, sc), After(sc, Judge(data, sc)))
  {
    hide Judge, Stored, Shift, Faithful;
    if Judge(data, sc).Rewrite? {
      FaithfulClear(Forth(data, sc), After(sc, Judge(data, sc)));
    } else {
      FaithfulAfter(data, sc);
    }
  }

  lemma KeepRestores(data: seq<Byte>, x: seq<Byte>, sc: Scan)
    requires Standing(data, sc) && |data| - sc.pos >= 5 && Faithful(data, sc) && |x| == |data|
    requires !Judge(data, sc).Rewrite?
    requires x[sc.pos..] == Filtered(data, sc)[sc.pos..]
    ensures var k := sc.pos + 1;
            && Back(x, sc)[k..] == x[k..] && Forth(data, sc)[k..] == data[k..]
            && Back(x, sc)[..k] == x[..sc.pos] + data[sc.pos..k]
  {
    hide Judge, Filtered, Stored, Shift, Unshift, Faithful;
    KeepAgrees(data, x, sc);
    assert x[..sc.pos + 1] == x[..sc.pos] + data[sc.pos..sc.pos + 1];
  }

  /** One turn of the second pass: its position moves on, and all behind it is restored. */
  lemma BackRestores(data: seq<Byte>, x: seq<Byte>, sc: Scan)
    requires Standing(data, sc) && |data| - sc.pos >= 5 && Faithful(data, sc) && |x| == |data|
    requires x[sc.pos..] == Filtered(data, sc)[sc.pos..]
    ensures var k := After(sc, Judge(data, sc)).pos;
            && k <= |data| && Back(x, sc)[k..] == x[k..] && Forth(data, sc)[k..] == data[k..]
            && Back(x, sc)[..k] == x[..sc.pos] + data[sc.pos..k]
  {
    hide Judge, Filtered, Faithful, Forth, Back;
    if Judge(data, sc).Rewrite? {
      RewriteRestores(data, x, sc);
    } else {
      KeepRestores(data, x, sc);
    }
  }

  /** From any point of the scan on, the second pass restores what the first one changed. */
  lemma {:induction false} UnfilterRestores(data: seq<Byte>, x: seq<Byte>, sc: Scan)
    requires Standing(data, sc) && Faithful(data, sc) && |x| == |data|
    requires x[sc.pos..] == Filtered(data, sc)[sc.pos..]
    ensures Unfiltered(x, sc) == x[..sc.pos] + data[sc.pos..]
    decreases |data| - sc.pos
  {
    hide Judge, Forth, Back, Faithful;
    if |data| - sc.pos < 5 {
      assert x == x[..sc.pos] + x[sc.pos..];
    } else {
      JudgeAgrees(data, x, sc);
      BackRestores(data, x, sc);
      FaithfulForth(data, sc);
      var sc' := After(sc, Judge(data, sc));
      var data', x', k := Forth(data, sc), Back(x, sc), sc'.pos;
      SuffixFrom(x, Filtered(data, sc), sc.pos, k);
      UnfilterRestores(data', x', sc');
      assert data[sc.pos..k] + data[k..] == data[sc.pos..];
      assert x[..sc.pos] + data[sc.pos..k] + data[k..] == x[..sc.pos] + data[sc.pos..];
    }
  }

  /** The filter is undone on every byte sequence. */
  lemma FilterRoundTrip(data: seq<Byte>)
    ensures Unfiltered(Filtered(data, Fresh()), Fresh()) == data
  {
    var x := Filtered(data, Fresh());
    hide Filtered, Unfiltered;
    assert x[0..] == x;
    FaithfulClear(data, Fresh());
    UnfilterRestores(data, x, Fresh());
    assert x[..0] + data[0..] == data;
  }
}
