/** The packer's routines for the binary codes, each proved to emit exactly its code's steps. */
module SymbolEncoder {
  import opened Bytes
  import opened RangeCoder
  import opened RangeEncoder
  import opened Symbols

  method EncodeTree(rc: Encoder, index: nat, bits: nat, value: nat)
    requires rc.Valid() && index + 256 <= PROBS && NodeFits(1, bits)
    modifies rc, rc.probs
    ensures rc.Valid() && rc.header == old(rc.header)
    ensures rc.ops == old(rc.ops) + TreeOps(index, 1, bits, value)
  {
    hide rc.Valid, NodeFits, BitOf;
    var node: nat, left: nat := 1, bits;
    while left > 0
      invariant NodeFits(node, left)
      invariant rc.Valid() && rc.header == old(rc.header)
      invariant rc.ops + TreeOps(index, node, left, value) == old(rc.ops) + TreeOps(index, 1, bits, value)
    {
      left := left - 1;
      var bit := BitOf(value, left);
      NodeFitsBelow(node, left + 1, bit);
      ghost var before, op, rest := rc.ops, Modelled(index + node, bit), TreeOps(index, 2 * node + bit, left, value);
      rc.EncodeBit(index + node, bit);
      assert before + ([op] + rest) == before + [op] + rest;
      node := 2 * node + bit;
    }
  }

  method EncodeReverse(rc: Encoder, index: nat, bits: nat, value: nat)
    requires rc.Valid() && index + 256 <= PROBS && NodeFits(1, bits)
    modifies rc, rc.probs
    ensures rc.Valid() && rc.header == old(rc.header)
    ensures rc.ops == old(rc.ops) + ReverseOps(index, 1, 0, bits, value)
  {
    hide rc.Valid, NodeFits, BitOf;
    var node: nat := 1;
    var i: nat := 0;
    while i < bits
      invariant i <= bits && NodeFits(node, bits - i)
      invariant rc.Valid() && rc.header == old(rc.header)
      invariant rc.ops + ReverseOps(index, node, i, bits - i, value) ==
                old(rc.ops) + ReverseOps(index, 1, 0, bits, value)
    {
      var bit := BitOf(value, i);
      NodeFitsBelow(node, bits - i, bit);
      ghost var before, op := rc.ops, Modelled(index + node, bit);
      ghost var rest := ReverseOps(index, 2 * node + bit, i + 1, bits - i - 1, value);
      rc.EncodeBit(index + node, bit);
      assert before + ([op] + rest) == before + [op] + rest;
      node := 2 * node + bit;
      i := i + 1;
    }
  }

  /** The equiprobable middle bits of a distance. */
  method EncodeDirects(rc: Encoder, bits: nat, extra: nat)
    requires rc.Valid()
    modifies rc, rc.probs
    ensures rc.Valid() && rc.header == old(rc.header)
    ensures rc.ops == old(rc.ops) + DirectOps(bits, extra)
  {
    hide rc.Valid, BitOf;
    var i: nat := bits;
    while i > 4
      invariant rc.Valid() && rc.header == old(rc.header)
      invariant rc.ops + DirectOps(i, extra) == old(rc.ops) + DirectOps(bits, extra)
    {
      var bit := BitOf(extra, i - 1);
      ghost var before, op, rest := rc.ops, Direct(bit), DirectOps(i - 1, extra);
      rc.EncodeDirect(bit);
      assert before + ([op] + rest) == before + [op] + rest;
      i := i - 1;
    }
  }

  method EncodeLength(rc: Encoder, index: nat, length: nat)
    requires rc.Valid() && index + 514 <= PROBS && 2 <= length <= MAX_MATCH
    modifies rc, rc.probs
    ensures rc.Valid() && rc.header == old(rc.header)
    ensures rc.ops == old(rc.ops) + LengthOps(index, length)
  {
    hide rc.Valid, NodeFits, TreeOps;
    RootFits(3);
    RootFits(8);
    ghost var before := rc.ops;
    var long, longer := if length >= 10 then 1 else 0, if length >= 18 then 1 else 0;
    rc.EncodeBit(index, long);
    if length < 10 {
      EncodeTree(rc, index + 2, 3, length - 2);
      Regroup(before, [Modelled(index, long)], TreeOps(index + 2, 1, 3, length - 2));
    } else {
      rc.EncodeBit(index + 1, longer);
      ghost var rest;
      if length < 18 {
        EncodeTree(rc, index + 130, 3, length - 10);
        rest := TreeOps(index + 130, 1, 3, length - 10);
      } else {
        EncodeTree(rc, index + 258, 8, length - 18);
        rest := TreeOps(index + 258, 1, 8, length - 18);
      }
      Regroup(before, [Modelled(index, long)], [Modelled(index + 1, longer)] + rest);
      Regroup(before + [Modelled(index, long)], [Modelled(index + 1, longer)], rest);
    }
  }

  lemma Regroup(a: seq<Op>, b: seq<Op>, c: seq<Op>)
    ensures a + b + c == a + (b + c)
  {
  }

  /** The slot of a distance, by repeated halving. */
  method FindSlot(value: nat) returns (slot: nat, bits: nat)
    ensures slot == Slot(value) && bits == SlotBits(value)
  {
    slot, bits := value, 0;
    if value >= 4 {
      var high: nat := value;
      while high >= 4
        invariant SlotBits(value) == bits + SlotBits(high) && Top(value) == Top(high)
      {
        high := high / 2;
        bits := bits + 1;
      }
      slot := (bits + 1) * 2 + high % 2;
    }
  }

  method EncodeDistance(rc: Encoder, length: nat, distance: nat)
    requires rc.Valid() && length >= 2 && 1 <= distance <= TWO32
    modifies rc, rc.probs
    ensures rc.Valid() && rc.header == old(rc.header)
    ensures rc.ops == old(rc.ops) + DistanceOps(length, distance)
  {
    hide rc.Valid, NodeFits, TreeOps, ReverseOps, DirectOps, SlotBase, Slot, SlotBits;
    var value := distance - 1;
    var slot, bits := FindSlot(value);
    RootFits(6);
    RootFits(4);
    SlotSplits(value);
    ghost var before := rc.ops;
    EncodeTree(rc, SLOT + LenState(length) * 64, 6, slot);
    if slot < 4 {
      assert rc.ops == before + DistanceOps(length, distance);
      return;
    }
    SlotsBelowFourAreWhole(value);
    var base := SlotBase(slot);
    var extra := value - base;
    ghost var middle := rc.ops;
    if slot < 14 {
      RootFits(bits);
      EncodeReverse(rc, SpecialIndex(slot), bits, extra);
    } else {
      EncodeDirects(rc, bits, extra);
      EncodeReverse(rc, ALIGN, 4, extra % 16);
    }
    assert rc.ops == middle + OffsetOps(slot, extra);
  }

  lemma SlotsBelowFourAreWhole(value: U32)
    ensures Slot(value) >= 4 ==> value >= 4
  {
  }

  lemma LiteralOpsUnfold(index: nat, node: nat, offset: nat, match_: nat, bits: nat, value: nat)
    requires index + 768 <= PROBS && NodeFits(node, bits) && (offset == 0 || offset == 256) && bits > 0
    ensures var bit := BitOf(value, bits - 1);
            && node < 256 && NodeFits(2 * node + bit, bits - 1)
            && LiteralOps(index, node, offset, match_, bits, value)
               == [Modelled(LiteralContext(index, node, offset, 2 * match_), bit)]
                  + LiteralOps(index, 2 * node + bit, NextOffset(2 * match_, offset, bit), 2 * match_, bits - 1, value)
  {
    hide NodeFits, BitOf, LiteralContext, NextOffset;
    NodeFitsBelow(node, bits, BitOf(value, bits - 1));
  }

  method EncodeLiteral(rc: Encoder, index: nat, offset: nat, matched: nat, value: nat)
    requires rc.Valid() && index + 768 <= PROBS && (offset == 0 || offset == 256) && NodeFits(1, 8)
    modifies rc, rc.probs
    ensures rc.Valid() && rc.header == old(rc.header)
    ensures rc.ops == old(rc.ops) + LiteralOps(index, 1, offset, matched, 8, value)
  {
    hide rc.Valid, NodeFits, BitOf, LiteralContext, NextOffset, LiteralOps;
    var node: nat, offset': nat, match_: nat := 1, offset, matched;
    var i: nat := 8;
    while i > 0
      invariant NodeFits(node, i) && (offset' == 0 || offset' == 256)
      invariant rc.Valid() && rc.header == old(rc.header)
      invariant rc.ops + LiteralOps(index, node, offset', match_, i, value)
             == old(rc.ops) + LiteralOps(index, 1, offset, matched, 8, value)
    {
      LiteralOpsUnfold(index, node, offset', match_, i, value);
      var bit := BitOf(value, i - 1);
      match_ := 2 * match_;
      var context := LiteralContext(index, node, offset', match_);
      ghost var before := rc.ops;
      rc.EncodeBit(context, bit);
      node := 2 * node + bit;
      offset' := NextOffset(match_, offset', bit);
      i := i - 1;
      Regroup(before, [Modelled(context, bit)], LiteralOps(index, node, offset', match_, i, value));
    }
    LiteralOpsDone(index, node, offset', match_, value);
  }

  lemma LiteralOpsDone(index: nat, node: nat, offset: nat, match_: nat, value: nat)
    requires index + 768 <= PROBS && NodeFits(node, 0) && (offset == 0 || offset == 256)
    ensures LiteralOps(index, node, offset, match_, 0, value) == []
  {
  }
}
