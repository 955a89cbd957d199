/** The branch filter as the packer runs it: one forward scan, rewriting the buffer in place. */
module BranchFilterInPlace {
  import opened Bytes
  import opened BranchFilter
  import opened BranchFilterRoundTrip

  method FindTopBit(n: nat) returns (bit: nat)
    ensures bit == TopBit(n)
  {
    bit := 0;
    var mask: nat := n / 2;
    while mask != 0
      invariant TopBit(n) == bit + if mask == 0 then 0 else 1 + TopBit(mask)
    {
      bit := bit + 1;
      mask := mask / 2;
    }
  }

  /** The retry loop. The history's promise about the shared byte bounds it at two rounds. */
  method MoveOperand(value: U32, d: nat, history: History) returns (moved: U32)
    requires history.Accepts() && !history.kept0
    requires history != CLEAR ==> !Extreme(ByteAt(value, Place(history)))
    ensures moved == Shift(value, d, history)
  {
    var place := 0;
    if history != CLEAR {
      var bit := FindTopBit(history.Number());
      AcceptedKeepsOne(history);
      place := 3 - bit;
      ShiftAvoidsExtreme(value, d, history);
    }
    hide ByteAt, Flip, Plus, TopBit;
    moved := value;
    ghost var rounds := 0;
    while true
      invariant 0 <= rounds <= 1
      invariant history != CLEAR ==> place == Place(history)
      invariant rounds == 0 ==> moved == value
      invariant rounds == 1 ==> history != CLEAR && Extreme(ByteAt(Plus(value, d), place))
      invariant rounds == 1 ==> moved == Flip(Plus(value, d), place)
      decreases 1 - rounds
    {
      moved := Plus(moved, d);
      if history == CLEAR || !Extreme(ByteAt(moved, place)) {
        break;
      }
      moved := Flip(moved, place);
      rounds := rounds + 1;
    }
  }

  method StoreOperand(data: array<Byte>, pos: nat, v: U32)
    requires pos + 5 <= data.Length
    modifies data
    ensures data[..] == Stored(old(data[..]), pos, v)
  {
    hide ByteAt;
    data[pos + 4] := if v % LOW25 >= TWO24 then 255 else 0;
    for i := 0 to 3
      invariant data[pos + 4] == if v % LOW25 >= TWO24 then 255 else 0
      invariant forall j :: 0 <= j < i ==> data[pos + 1 + j] == ByteAt(v, j)
      invariant forall j :: 0 <= j < data.Length && !(pos < j < pos + 5) ==> data[j] == old(data[j])
    {
      data[pos + 1 + i] := ByteAt(v, i);
    }
    assert data[pos + 1 + 0] == ByteAt(v, 0) && data[pos + 1 + 1] == ByteAt(v, 1) && data[pos + 1 + 2] == ByteAt(v, 2);
  }

  method AgeHistory(history: History, gap: nat) returns (aged: History)
    ensures aged == AgedBy(history, gap)
  {
    aged := history;
    var left: nat := gap;
    while left > 0
      invariant left <= gap && aged == AgedBy(history, gap - left)
    {
      aged := aged.Aged();
      left := left - 1;
    }
  }

  method FilterInPlace(data: array<Byte>)
    modifies data
    ensures data[..] == Filtered(old(data[..]), Fresh())
  {
    var pos, previous, history := 0, -5, CLEAR;
    FaithfulClear(data[..], Fresh());
    while data.Length - pos >= 5
      invariant 0 <= pos <= data.Length && previous < pos
      invariant Faithful(data[..], Scan(pos, previous, history))
      invariant Filtered(data[..], Scan(pos, previous, history)) == Filtered(old(data[..]), Fresh())
      decreases data.Length - pos
    {
      hide Faithful, Shift, Stored;
      ghost var now, sc := data[..], Scan(pos, previous, history);
      FaithfulForth(now, sc);
      if !Opcode(data[pos]) {
        pos := pos + 1;
      } else {
        var gap := pos - previous;
        previous := pos;
        if gap >= 4 {
          history := CLEAR;
        } else {
          history := AgeHistory(history, gap);
        }
        assert history == HistoryHere(sc);
        var high := data[pos + 4];
        if Extreme(high) && history.Accepts() {
          if history != CLEAR { SharedByteNotExtreme(now, sc); }
          var moved := MoveOperand(Read32(data[..], pos + 1), pos + 5, history);
          StoreOperand(data, pos, moved);
          pos := pos + 5;
          history := CLEAR;
        } else {
          history := history.Noted(Extreme(high));
          pos := pos + 1;
        }
      }
      assert data[..] == Forth(now, sc) && Scan(pos, previous, history) == After(sc, Judge(now, sc));
    }
  }
}
