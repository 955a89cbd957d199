/**
 The binary codes built from coding steps: bit trees, reversed bit trees,
 match lengths, match distances and literals.

 Each code is given as the steps the packer takes (`...Ops`) and as the boot
 decoder's reading of it (`Decode...`); the lemmas show that reading undoes coding.
 */
module Symbols {
  import opened Bytes
  import opened RangeCoder
  import opened Wrappers

  const SLOT: nat := 432
  const SPECIAL: nat := 688
  const ALIGN: nat := 802
  const LENGTH: nat := 818
  const REP_LENGTH: nat := 1332
  const LITERAL: nat := 1846
  const MAX_MATCH: nat := 273

  /** The decoder read `value` and still stands beside the coder after `ops`. */
  ghost predicate ReadBack<T(!new)>(c: Coder, ops: seq<Op>, r: Option<(T, Decoder)>, value: T, f: seq<Byte>)
  {
    r.Some? && r.value.0 == value && InStep(Run(c, ops), r.value.1, f)
  }

  /** Splits a run after its first step, and decodes that step. */
  lemma FirstOp(c: Coder, d: Decoder, op: Op, rest: seq<Op>, f: seq<Byte>)
    requires InStep(c, d, f) && InStream(Run(c, [op] + rest), f)
    ensures Run(c, [op] + rest) == Run(Step(c, op), rest)
    ensures InStream(Run(Step(c, op), rest), f)
    ensures DecodeOp(d, op, f).Some? && DecodeOp(d, op, f).value.0 == op.bit
    ensures InStep(Step(c, op), DecodeOp(d, op, f).value.1, f)
  {
    RunSnoc(c, [], op);
    assert [] + [op] == [op];
    RunConcat(c, [op], rest);
    RunInStream(Step(c, op), rest, f);
    DecodeOpInStep(c, d, op, f);
  }

  /** Splits a run between two codes. */
  lemma FirstPart(c: Coder, a: seq<Op>, b: seq<Op>, f: seq<Byte>)
    requires InStream(Run(c, a + b), f)
    ensures Run(c, a + b) == Run(Run(c, a), b)
    ensures InStream(Run(c, a), f)
    ensures InStream(Run(Run(c, a), b), f)
  {
    RunConcat(c, a, b);
    RunInStream(Run(c, a), b, f);
  }

  // ----- bit trees

  /** A tree of `bits` more levels below `node` stays among 256 contexts. */
  ghost predicate NodeFits(node: nat, bits: nat) {
    Shifted(node + 1, bits) <= 512
  }

  lemma NodeFitsBelow(node: nat, bits: nat, bit: Bit)
    requires bits >= 1 && NodeFits(node, bits)
    ensures node < 256 && NodeFits(2 * node + bit, bits - 1)
  {
    ShiftedStep(node + 1, 0, bits - 1);
    ShiftedMonotone(2 * node + bit + 1, 2 * node + 2, bits - 1);
  }

  lemma RootFits(bits: nat)
    requires bits <= 8
    ensures NodeFits(1, bits)
  {
    ShiftedStep(1, 0, bits);
    ShiftedOne(bits + 1);
    assert Pow2(9) == 512;
    Pow2Monotone(bits + 1, 9);
  }

  lemma BranchStaysBelow(node: nat, bits: nat, bit: Bit)
    requires bits >= 1
    ensures Shifted(node, bits) <= Shifted(2 * node + bit, bits - 1)
    ensures Shifted(2 * node + bit + 1, bits - 1) <= Shifted(node + 1, bits)
  {
    ShiftedStep(node, 0, bits - 1);
    ShiftedStep(node + 1, 0, bits - 1);
    ShiftedMonotone(2 * node, 2 * node + bit, bits - 1);
    ShiftedMonotone(2 * node + bit + 1, 2 * node + 2, bits - 1);
  }

  function TreeOps(index: nat, node: nat, bits: nat, value: nat): (ops: seq<Op>)
    requires index + 256 <= PROBS && NodeFits(node, bits)
    decreases bits
  {
    if bits == 0 then [] else
      var bit := BitOf(value, bits - 1);
      NodeFitsBelow(node, bits, bit);
      [Modelled(index + node, bit)] + TreeOps(index, 2 * node + bit, bits - 1, value)
  }

  /** Walks down the tree; the leaf keeps the leading one of the root. */
  function DecodeTree(d: Decoder, index: nat, node: nat, bits: nat, f: seq<Byte>): (r: Option<(nat, Decoder)>)
    requires index + 256 <= PROBS && NodeFits(node, bits)
    ensures r.Some? ==> Shifted(node, bits) <= r.value.0 < Shifted(node + 1, bits)
    decreases bits
  {
    if bits == 0 then Some((node, d)) else
      NodeFitsBelow(node, bits, 0);
      match DecodeBit(d, index + node, f)
      case None => None
      case Some((bit, e)) =>
        NodeFitsBelow(node, bits, bit);
        BranchStaysBelow(node, bits, bit);
        DecodeTree(e, index, 2 * node + bit, bits - 1, f)
  }

  lemma {:induction false} TreeReadBack(c: Coder, d: Decoder, index: nat, node: nat, bits: nat, value: nat,
                                        f: seq<Byte>)
    requires InStep(c, d, f) && index + 256 <= PROBS && NodeFits(node, bits)
    requires InStream(Run(c, TreeOps(index, node, bits, value)), f)
    ensures ReadBack(c, TreeOps(index, node, bits, value), DecodeTree(d, index, node, bits, f),
                     Shifted(node, bits) + LowBits(value, bits), f)
    decreases bits
  {
    hide Step, DecodeBit, BitOf, NodeFits, InStream, Refill, At, Weight;
    if bits > 0 {
      hide Shifted, Run;
      var bit := BitOf(value, bits - 1);
      NodeFitsBelow(node, bits, bit);
      var op, rest := Modelled(index + node, bit), TreeOps(index, 2 * node + bit, bits - 1, value);
      FirstOp(c, d, op, rest, f);
      TreeReadBack(Step(c, op), DecodeOp(d, op, f).value.1, index, 2 * node + bit, bits - 1, value, f);
      ShiftedStep(node, bit, bits - 1);
    }
  }

  // ----- reversed bit trees

  /** Bits `from`, `from + 1`, ... of `value`, least significant first. */
  function ReverseOps(index: nat, node: nat, from: nat, bits: nat, value: nat): (ops: seq<Op>)
    requires index + 256 <= PROBS && NodeFits(node, bits)
    decreases bits
  {
    if bits == 0 then [] else
      var bit := BitOf(value, from);
      NodeFitsBelow(node, bits, bit);
      [Modelled(index + node, bit)] + ReverseOps(index, 2 * node + bit, from + 1, bits - 1, value)
  }

  /** Unwinds a leaf into the bits on the way to it, last one most significant. */
  function Unwind(node: nat, acc: nat): nat {
    if node <= 1 then acc else Unwind(node / 2, 2 * acc + node % 2)
  }

  /** The decoder walks an ordinary tree and unwinds the leaf afterwards. */
  function DecodeReverse(d: Decoder, index: nat, bits: nat, f: seq<Byte>): (r: Option<(nat, Decoder)>)
    requires index + 256 <= PROBS && bits <= 8
  {
    RootFits(bits);
    match DecodeTree(d, index, 1, bits, f)
    case None => None
    case Some((leaf, e)) => Some((Unwind(leaf, 0), e))
  }

  /** `node` spells the low `from` bits of `value` behind its leading one. */
  ghost predicate Spells(node: nat, from: nat, value: nat) {
    node >= 1 && forall acc: nat :: Unwind(node, acc) == Shifted(acc, from) + LowBits(value, from)
  }

  lemma UnwindStep(node: nat, from: nat, value: nat, acc: nat)
    requires Spells(node, from, value)
    ensures Unwind(2 * node + BitOf(value, from), acc) == Shifted(acc, from + 1) + LowBits(value, from + 1)
  {
    hide BitOf;
    var bit := BitOf(value, from);
    ShiftedStep(acc, bit, from);
    assert Unwind(2 * node + bit, acc) == Unwind(node, 2 * acc + bit);
  }

  lemma SpellsMore(node: nat, from: nat, value: nat)
    requires Spells(node, from, value)
    ensures Spells(2 * node + BitOf(value, from), from + 1, value)
  {
    hide BitOf, Unwind, Shifted, Pow2;
    var next := 2 * node + BitOf(value, from);
    forall acc: nat
      ensures Unwind(next, acc) == Shifted(acc, from + 1) + LowBits(value, from + 1)
    {
      UnwindStep(node, from, value, acc);
    }
  }

  lemma {:induction false} ReverseWalk(c: Coder, d: Decoder, index: nat, node: nat, from: nat, bits: nat, value: nat,
                                       f: seq<Byte>)
    requires InStep(c, d, f) && index + 256 <= PROBS && NodeFits(node, bits)
    requires Spells(node, from, value)
    requires InStream(Run(c, ReverseOps(index, node, from, bits, value)), f)
    ensures var r := DecodeTree(d, index, node, bits, f);
            && r.Some? && Spells(r.value.0, from + bits, value)
            && InStep(Run(c, ReverseOps(index, node, from, bits, value)), r.value.1, f)
    decreases bits
  {
    hide Step, DecodeBit, BitOf, NodeFits, InStream, Refill, At, Spells;
    if bits > 0 {
      hide Run, Shifted;
      var bit := BitOf(value, from);
      NodeFitsBelow(node, bits, bit);
      var op, rest := Modelled(index + node, bit), ReverseOps(index, 2 * node + bit, from + 1, bits - 1, value);
      FirstOp(c, d, op, rest, f);
      SpellsMore(node, from, value);
      ReverseWalk(Step(c, op), DecodeOp(d, op, f).value.1, index, 2 * node + bit, from + 1, bits - 1, value, f);
    }
  }

  lemma ReverseReadBack(c: Coder, d: Decoder, index: nat, bits: nat, value: nat, f: seq<Byte>)
    requires InStep(c, d, f) && index + 256 <= PROBS && bits <= 8 && NodeFits(1, bits)
    requires InStream(Run(c, ReverseOps(index, 1, 0, bits, value)), f)
    ensures ReadBack(c, ReverseOps(index, 1, 0, bits, value), DecodeReverse(d, index, bits, f), LowBits(value, bits), f)
  {
    hide Step, DecodeTree, NodeFits, At, Refill, InStream;
    assert Spells(1, 0, value);
    ReverseWalk(c, d, index, 1, 0, bits, value, f);
    ShiftedOne(bits);
    assert Unwind(DecodeTree(d, index, 1, bits, f).value.0, 0) == LowBits(value, bits);
  }

  // ----- equiprobable bits

  /** Bits bits-1 .. 4 of `value`, most significant first. */
  function DirectOps(bits: nat, value: nat): (ops: seq<Op>)
    decreases bits
  {
    if bits <= 4 then [] else [Direct(BitOf(value, bits - 1))] + DirectOps(bits - 1, value)
  }

  /** Sets the same bits in `acc`. */
  function DecodeDirects(d: Decoder, bits: nat, acc: nat, f: seq<Byte>): (r: Option<(nat, Decoder)>)
    decreases bits
  {
    if bits <= 4 then Some((acc, d)) else
      match DecodeDirect(d, f)
      case None => None
      case Some((bit, e)) => DecodeDirects(e, bits - 1, acc + Weight(bit, bits - 1), f)
  }

  lemma {:induction false} DirectReadBack(c: Coder, d: Decoder, bits: nat, value: nat, acc: nat, f: seq<Byte>)
    requires InStep(c, d, f) && bits >= 4
    requires InStream(Run(c, DirectOps(bits, value)), f)
    ensures ReadBack(c, DirectOps(bits, value), DecodeDirects(d, bits, acc, f),
                     acc + LowBits(value, bits) - LowBits(value, 4), f)
    decreases bits
  {
    hide Step, DecodeDirect, BitOf, InStream, Refill, At;
    if bits == 4 {
      assert Pow2(4) == 16;
    } else {
      var bit := BitOf(value, bits - 1);
      var op, rest := Direct(bit), DirectOps(bits - 1, value);
      FirstOp(c, d, op, rest, f);
      DirectReadBack(Step(c, op), DecodeOp(d, op, f).value.1, bits - 1, value, acc + Weight(bit, bits - 1), f);
    }
  }

  // ----- match lengths, 2 .. 273

  function LengthOps(index: nat, length: nat): (ops: seq<Op>)
    requires index + 514 <= PROBS && 2 <= length <= MAX_MATCH
  {
    RootFits(3);
    RootFits(8);
    if length < 10 then [Modelled(index, 0)] + TreeOps(index + 2, 1, 3, length - 2)
    else if length < 18 then [Modelled(index, 1)] + ([Modelled(index + 1, 0)] + TreeOps(index + 130, 1, 3, length - 10))
    else [Modelled(index, 1)] + ([Modelled(index + 1, 1)] + TreeOps(index + 258, 1, 8, length - 18))
  }

  /** One of the three ranges; `leaf - bias` drops the leading one and adds the range's base. */
  function DecodeLengthRange(d: Decoder, index: nat, bits: nat, bias: int, f: seq<Byte>): (r: Option<(nat, Decoder)>)
    requires index + 256 <= PROBS && bits <= 8 && Shifted(1, bits) - bias >= 2
    ensures r.Some? ==> r.value.0 >= 2
  {
    RootFits(bits);
    match DecodeTree(d, index, 1, bits, f)
    case None => None
    case Some((leaf, e)) => Some((leaf - bias, e))
  }

  function DecodeLength(d: Decoder, index: nat, f: seq<Byte>): (r: Option<(nat, Decoder)>)
    requires index + 514 <= PROBS
    ensures r.Some? ==> r.value.0 >= 2
  {
    match DecodeBit(d, index, f)
    case None => None
    case Some((b0, e)) =>
      if b0 == 0 then DecodeLengthRange(e, index + 2, 3, 8 - 2, f)
      else
        match DecodeBit(e, index + 1, f)
        case None => None
        case Some((b1, e')) =>
          if b1 == 0 then DecodeLengthRange(e', index + 130, 3, 8 - 10, f)
          else DecodeLengthRange(e', index + 258, 8, 256 - 18, f)
  }

  lemma LengthRangeReadBack(c: Coder, d: Decoder, index: nat, bits: nat, bias: int, value: nat, f: seq<Byte>)
    requires InStep(c, d, f) && index + 256 <= PROBS && bits <= 8 && NodeFits(1, bits)
    requires Shifted(1, bits) - bias >= 2 && value < Pow2(bits)
    requires InStream(Run(c, TreeOps(index, 1, bits, value)), f)
    ensures ReadBack(c, TreeOps(index, 1, bits, value), DecodeLengthRange(d, index, bits, bias, f),
                     Pow2(bits) + value - bias, f)
  {
    hide Run, Step, NodeFits, InStream, Refill, At, TreeOps, DecodeTree, LowBits, Shifted, Pow2;
    TreeReadBack(c, d, index, 1, bits, value, f);
    ShiftedOne(bits);
    LowBitsWhole(value, bits);
  }

  lemma LengthReadBack(c: Coder, d: Decoder, index: nat, length: nat, f: seq<Byte>)
    requires InStep(c, d, f) && index + 514 <= PROBS && 2 <= length <= MAX_MATCH
    requires InStream(Run(c, LengthOps(index, length)), f)
    ensures ReadBack(c, LengthOps(index, length), DecodeLength(d, index, f), length, f)
  {
    hide Run, Step, DecodeBit, NodeFits, InStream, Refill, At, TreeOps, DecodeLengthRange;
    RootFits(3);
    RootFits(8);
    assert Pow2(3) == 8 == Shifted(1, 3) && Pow2(8) == 256 == Shifted(1, 8);
    if length < 10 {
      var op, rest := Modelled(index, 0), TreeOps(index + 2, 1, 3, length - 2);
      FirstOp(c, d, op, rest, f);
      LengthRangeReadBack(Step(c, op), DecodeOp(d, op, f).value.1, index + 2, 3, 8 - 2, length - 2, f);
    } else {
      var low := length < 18;
      var op, op' := Modelled(index, 1), Modelled(index + 1, if low then 0 else 1);
      var rest := if low then TreeOps(index + 130, 1, 3, length - 10) else TreeOps(index + 258, 1, 8, length - 18);
      FirstOp(c, d, op, [op'] + rest, f);
      var c', d' := Step(c, op), DecodeOp(d, op, f).value.1;
      FirstOp(c', d', op', rest, f);
      var d'' := DecodeOp(d', op', f).value.1;
      if low {
        LengthRangeReadBack(Step(c', op'), d'', index + 130, 3, 8 - 10, length - 10, f);
      } else {
        LengthRangeReadBack(Step(c', op'), d'', index + 258, 8, 256 - 18, length - 18, f);
      }
    }
  }

  // ----- match distances, all 32-bit values

  /** Bits below the top two of `value`, and those top two; smaller values are whole. */
  function SlotBits(value: nat): nat {
    if value < 4 then 0 else 1 + SlotBits(value / 2)
  }

  function Top(value: nat): (t: nat)
    ensures t < 4 && (value >= 4 ==> 2 <= t) && (value < 4 ==> t == value)
  {
    if value < 4 then value else Top(value / 2)
  }

  function Slot(value: nat): nat {
    if value < 4 then value else 2 * (SlotBits(value) + 1) + Top(value) % 2
  }

  /** The distance a slot starts at, less one. */
  function SlotBase(slot: nat): nat {
    if slot < 4 then slot else Shifted(2 + slot % 2, slot / 2 - 1)
  }

  lemma {:induction false} SlotBitsBound(value: nat, k: nat)
    requires value < Shifted(4, k)
    ensures SlotBits(value) <= k
  {
    if value >= 4 { SlotBitsBound(value / 2, k - 1); }
  }

  lemma {:induction false} TopBrackets(value: nat)
    ensures Shifted(Top(value), SlotBits(value)) <= value < Shifted(Top(value) + 1, SlotBits(value))
  {
    if value >= 4 { TopBrackets(value / 2); }
  }

  lemma SlotShape(value: nat)
    requires value >= 4
    ensures Slot(value) >= 4 && Slot(value) / 2 - 1 == SlotBits(value)
    ensures SlotBase(Slot(value)) == Shifted(Top(value), SlotBits(value))
  {
    hide Top, Shifted;
    var t, bits := Top(value), SlotBits(value);
    assert bits >= 1;
    assert t % 2 == t - 2;
    assert Slot(value) / 2 == bits + 1 && Slot(value) % 2 == t % 2;
  }

  lemma SlotBits32(value: U32)
    ensures SlotBits(value) <= 30
  {
    assert Shifted(4, 10) == 0x1000;
    assert Shifted(4, 20) == 0x40_0000;
    assert Shifted(4, 30) == TWO32;
    SlotBitsBound(value, 30);
  }

  /** A 32-bit value is its slot's base and an offset that fits the slot's bits. */
  lemma SlotSplits(value: U32)
    ensures Slot(value) < 64
    ensures value >= 4 ==> Slot(value) >= 4 && Slot(value) / 2 - 1 == SlotBits(value)
    ensures SlotBase(Slot(value)) <= value < SlotBase(Slot(value)) + Pow2(SlotBits(value))
  {
    SlotBits32(value);
    TopBrackets(value);
    ShiftedSucc(Top(value), SlotBits(value));
    if value >= 4 { SlotShape(value); }
  }

  /** Start of the contexts that model the low bits of slots 4 .. 13. */
  function SpecialIndex(slot: nat): (i: nat)
    requires 4 <= slot < 14
    ensures SPECIAL - 1 <= i <= SPECIAL + 82
  {
    SlotBaseSmall(slot);
    SPECIAL + SlotBase(slot) - slot - 1
  }

  lemma SlotBaseSmall(slot: nat)
    requires 4 <= slot < 14
    ensures slot <= SlotBase(slot) <= 96 && SlotBase(slot) - slot <= 83
  {
    assert Shifted(2, 1) == 4 && Shifted(3, 1) == 6;
    assert Shifted(2, 2) == 8 && Shifted(3, 2) == 12;
    assert Shifted(2, 3) == 16 && Shifted(3, 3) == 24;
    assert Shifted(2, 4) == 32 && Shifted(3, 4) == 48;
    assert Shifted(2, 5) == 64 && Shifted(3, 5) == 96;
  }

  function LenState(length: nat): nat
    requires length >= 2
  {
    if length < 6 then length - 2 else 3
  }

  function OffsetOps(slot: nat, extra: nat): (ops: seq<Op>)
    requires slot < 64
  {
    RootFits(4);
    if slot < 4 then []
    else
      var bits := slot / 2 - 1;
      if slot < 14 then RootFits(bits); ReverseOps(SpecialIndex(slot), 1, 0, bits, extra)
      else DirectOps(bits, extra) + ReverseOps(ALIGN, 1, 0, 4, extra % 16)
  }

  function DistanceOps(length: nat, distance: nat): (ops: seq<Op>)
    requires length >= 2 && 1 <= distance <= TWO32
  {
    var slot := Slot(distance - 1);
    RootFits(6);
    SlotSplits(distance - 1);
    TreeOps(SLOT + LenState(length) * 64, 1, 6, slot) + OffsetOps(slot, distance - 1 - SlotBase(slot))
  }

  /** The value after the slot, before the final increment. */
  function DecodeOffset(d: Decoder, slot: nat, f: seq<Byte>): (r: Option<(nat, Decoder)>)
    requires slot < 64
  {
    var base := SlotBase(slot);
    if slot < 4 then Some((base, d))
    else
      var bits := slot / 2 - 1;
      if slot < 14 then
        match DecodeReverse(d, SpecialIndex(slot), bits, f)
        case None => None
        case Some((low, e)) => Some((base + low, e))
      else
        match DecodeDirects(d, bits, base, f)
        case None => None
        case Some((high, e)) =>
          match DecodeReverse(e, ALIGN, 4, f)
          case None => None
          case Some((low, e')) => Some((high + low, e'))
  }

  /** The increment wraps: the largest code would give distance 0, which the copy refuses. */
  function DecodeDistance(d: Decoder, length: nat, f: seq<Byte>): (r: Option<(U32, Decoder)>)
    requires length >= 2
  {
    RootFits(6);
    assert Shifted(1, 6) == 64 && Shifted(2, 6) == 128;
    match DecodeTree(d, SLOT + LenState(length) * 64, 1, 6, f)
    case None => None
    case Some((leaf, e)) =>
      match DecodeOffset(e, leaf - 64, f)
      case None => None
      case Some((value, e')) => Some(((value + 1) % TWO32, e'))
  }

  lemma OffsetReadBack(c: Coder, d: Decoder, slot: nat, extra: nat, f: seq<Byte>)
    requires InStep(c, d, f) && slot < 64
    requires slot < 4 ==> extra == 0
    requires slot >= 4 ==> extra < Pow2(slot / 2 - 1)
    requires InStream(Run(c, OffsetOps(slot, extra)), f)
    ensures ReadBack(c, OffsetOps(slot, extra), DecodeOffset(d, slot, f), SlotBase(slot) + extra, f)
  {
    hide Step, NodeFits, InStream, InStep, TreeOps, DecodeTree, DecodeDirects, SlotBase,
      ReverseOps, DirectOps, DecodeReverse, LowBits, SpecialIndex;
    RootFits(4);
    if slot >= 4 {
      var bits := slot / 2 - 1;
      if slot < 14 {
        RootFits(bits);
        ReverseReadBack(c, d, SpecialIndex(slot), bits, extra, f);
        LowBitsWhole(extra, bits);
      } else {
        hide Run;
        var a, b := DirectOps(bits, extra), ReverseOps(ALIGN, 1, 0, 4, extra % 16);
        FirstPart(c, a, b, f);
        DirectReadBack(c, d, bits, extra, SlotBase(slot), f);
        LowBitsWhole(extra, bits);
        LowBits4(extra);
        LowBitsWhole(extra % 16, 4);
        var e := DecodeDirects(d, bits, SlotBase(slot), f).value.1;
        assert Pow2(4) == 16;
        ReverseReadBack(Run(c, a), e, ALIGN, 4, extra % 16, f);
      }
    }
  }

  lemma SixBits()
    ensures Shifted(1, 6) == 64 == Pow2(6)
  {
  }

  lemma SlotThenOffsetReadBack(c: Coder, d: Decoder, index: nat, slot: nat, extra: nat, f: seq<Byte>)
    requires InStep(c, d, f) && index + 256 <= PROBS && slot < 64 && NodeFits(1, 6)
    requires slot < 4 ==> extra == 0
    requires slot >= 4 ==> extra < Pow2(slot / 2 - 1)
    requires InStream(Run(c, TreeOps(index, 1, 6, slot) + OffsetOps(slot, extra)), f)
    ensures var r := DecodeTree(d, index, 1, 6, f);
            && r.Some? && r.value.0 == 64 + slot
            && ReadBack(c, TreeOps(index, 1, 6, slot) + OffsetOps(slot, extra),
                        DecodeOffset(r.value.1, slot, f), SlotBase(slot) + extra, f)
  {
    hide Run, Step, NodeFits, InStep, InStream, Refill, At, TreeOps, DecodeTree, SlotBase,
      OffsetOps, DecodeOffset, Shifted, Pow2, LowBits;
    var a, b := TreeOps(index, 1, 6, slot), OffsetOps(slot, extra);
    FirstPart(c, a, b, f);
    TreeReadBack(c, d, index, 1, 6, slot, f);
    SixBits();
    LowBitsWhole(slot, 6);
    OffsetReadBack(Run(c, a), DecodeTree(d, index, 1, 6, f).value.1, slot, extra, f);
  }

  lemma DistanceReadBack(c: Coder, d: Decoder, length: nat, distance: nat, f: seq<Byte>)
    requires InStep(c, d, f) && length >= 2 && 1 <= distance < TWO32
    requires InStream(Run(c, DistanceOps(length, distance)), f)
    ensures ReadBack(c, DistanceOps(length, distance), DecodeDistance(d, length, f), distance, f)
  {
    hide Run, Step, NodeFits, InStream, Refill, At, TreeOps, DecodeTree, SlotBase, Slot,
      OffsetOps, DecodeOffset, Shifted, Pow2, SlotBits;
    var slot := Slot(distance - 1);
    RootFits(6);
    SlotOffset(distance - 1);
    SlotThenOffsetReadBack(c, d, SLOT + LenState(length) * 64, slot, distance - 1 - SlotBase(slot), f);
  }

  lemma SlotOffset(value: U32)
    ensures Slot(value) < 64 && SlotBase(Slot(value)) <= value
    ensures Slot(value) < 4 ==> SlotBase(Slot(value)) == value
    ensures Slot(value) >= 4 ==> value - SlotBase(Slot(value)) < Pow2(Slot(value) / 2 - 1)
  {
    SlotSplits(value);
  }

  // ----- literals

  /** The context offset contributed by the byte at the last match distance. */
  function MatchBit(match_: nat, offset: nat): (r: nat)
    ensures r == 0 || r == 256
  {
    if offset == 256 && match_ / 256 % 2 == 1 then 256 else 0
  }

  /** Matched contexts stop at the first bit that differs from the matched byte. */
  function NextOffset(match_: nat, offset: nat, bit: Bit): (r: nat)
    requires offset == 0 || offset == 256
    ensures r == 0 || r == 256
  {
    if bit != match_ / 256 % 2 then 0 else offset
  }

  /** The adaptive probability that codes the next bit of a literal. */
  function LiteralContext(index: nat, node: nat, offset: nat, match_: nat): (i: Index)
    requires index + 768 <= PROBS && node < 256 && (offset == 0 || offset == 256)
  {
    index + node + offset + MatchBit(match_, offset)
  }

  function LiteralOps(index: nat, node: nat, offset: nat, match_: nat, bits: nat, value: nat): (ops: seq<Op>)
    requires index + 768 <= PROBS && NodeFits(node, bits) && (offset == 0 || offset == 256)
    decreases bits
  {
    if bits == 0 then [] else
      var bit := BitOf(value, bits - 1);
      var m := 2 * match_;
      NodeFitsBelow(node, bits, bit);
      [Modelled(LiteralContext(index, node, offset, m), bit)]
        + LiteralOps(index, 2 * node + bit, NextOffset(m, offset, bit), m, bits - 1, value)
  }

  function DecodeLiteral(d: Decoder, index: nat, node: nat, offset: nat, match_: nat, bits: nat,
                         f: seq<Byte>): (r: Option<(nat, Decoder)>)
    requires index + 768 <= PROBS && NodeFits(node, bits) && (offset == 0 || offset == 256)
    ensures r.Some? ==> Shifted(node, bits) <= r.value.0 < Shifted(node + 1, bits)
    decreases bits
  {
    hide LiteralContext, NextOffset, DecodeBit;
    if bits == 0 then Some((node, d)) else
      var m := 2 * match_;
      NodeFitsBelow(node, bits, 0);
      match DecodeBit(d, LiteralContext(index, node, offset, m), f)
      case None => None
      case Some((bit, e)) =>
        NodeFitsBelow(node, bits, bit);
        BranchStaysBelow(node, bits, bit);
        DecodeLiteral(e, index, 2 * node + bit, NextOffset(m, offset, bit), m, bits - 1, f)
  }

  lemma DecodeLiteralStep(d: Decoder, index: nat, node: nat, offset: nat, match_: nat, bits: nat, f: seq<Byte>,
                          bit: Bit, e: Decoder)
    requires bits > 0
    requires index + 768 <= PROBS && NodeFits(node, bits) && (offset == 0 || offset == 256)
    requires node < 256 && NodeFits(2 * node + bit, bits - 1)
    requires DecodeBit(d, LiteralContext(index, node, offset, 2 * match_), f) == Some((bit, e))
    ensures DecodeLiteral(d, index, node, offset, match_, bits, f)
         == DecodeLiteral(e, index, 2 * node + bit, NextOffset(2 * match_, offset, bit), 2 * match_, bits - 1, f)
  {
    hide DecodeBit, LiteralContext, NextOffset, NodeFits;
  }

  /** One bit on top of the rest read back. */
  lemma LiteralBit(c: Coder, d: Decoder, index: nat, node: nat, offset: nat, match_: nat, bits: nat, value: nat,
                   f: seq<Byte>, op: Op, rest: seq<Op>, e: Decoder)
    requires bits > 0 && index + 768 <= PROBS && NodeFits(node, bits) && (offset == 0 || offset == 256) && node < 256
    requires op == Modelled(LiteralContext(index, node, offset, 2 * match_), BitOf(value, bits - 1))
    requires NodeFits(2 * node + op.bit, bits - 1)
    requires DecodeBit(d, op.index, f) == Some((op.bit, e)) && Run(c, [op] + rest) == Run(Step(c, op), rest)
    requires ReadBack(Step(c, op), rest,
                      DecodeLiteral(e, index, 2 * node + op.bit, NextOffset(2 * match_, offset, op.bit), 2 * match_,
                                    bits - 1, f),
                      Shifted(2 * node + op.bit, bits - 1) + LowBits(value, bits - 1), f)
    ensures ReadBack(c, [op] + rest, DecodeLiteral(d, index, node, offset, match_, bits, f),
                     Shifted(node, bits) + LowBits(value, bits), f)
  {
    hide DecodeLiteral, DecodeBit, LiteralContext, NextOffset, NodeFits, Run, Step, InStep, Shifted, Weight, BitOf;
    DecodeLiteralStep(d, index, node, offset, match_, bits, f, op.bit, e);
    ShiftedStep(node, op.bit, bits - 1);
  }

  lemma {:induction false} LiteralReadBack(c: Coder, d: Decoder, index: nat, node: nat, offset: nat, match_: nat,
                                           bits: nat, value: nat, f: seq<Byte>)
    requires InStep(c, d, f) && index + 768 <= PROBS && NodeFits(node, bits) && (offset == 0 || offset == 256)
    requires InStream(Run(c, LiteralOps(index, node, offset, match_, bits, value)), f)
    ensures ReadBack(c, LiteralOps(index, node, offset, match_, bits, value),
                     DecodeLiteral(d, index, node, offset, match_, bits, f),
                     Shifted(node, bits) + LowBits(value, bits), f)
    decreases bits
  {
    hide Step, DecodeBit, BitOf, NodeFits, InStream, InStep, LiteralContext, NextOffset, Weight;
    if bits > 0 {
      hide Shifted, Run, DecodeLiteral;
      var bit := BitOf(value, bits - 1);
      var m := 2 * match_;
      NodeFitsBelow(node, bits, bit);
      var op := Modelled(LiteralContext(index, node, offset, m), bit);
      var rest := LiteralOps(index, 2 * node + bit, NextOffset(m, offset, bit), m, bits - 1, value);
      FirstOp(c, d, op, rest, f);
      var e := DecodeOp(d, op, f).value.1;
      LiteralReadBack(Step(c, op), e, index, 2 * node + bit, NextOffset(m, offset, bit), m, bits - 1, value, f);
      LiteralBit(c, d, index, node, offset, match_, bits, value, f, op, rest, e);
    }
  }
}
