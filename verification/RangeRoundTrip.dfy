/** The range coder on its own: whatever bits go in come out again, in any contexts. */
module RangeRoundTrip {
  import opened Bytes
  import opened RangeCoder
  import opened RangeEncoder

  function BitsOf(ops: seq<Op>): seq<Bit> {
    seq(|ops|, i requires 0 <= i < |ops| => ops[i].bit)
  }

  /** The decoder leaves nothing unread and no code value over. */
  lemma EndsExactly(c: Coder, d: Decoder, f: seq<Byte>)
    requires InStep(c, d, f) && |f| == c.shifts + 5 && Number(f) == c.low
    ensures Refill(d, f).Some?
    ensures Refill(d, f).value.code == 0 && Refill(d, f).value.pos == |f|
  {
  }

  lemma CodedBitsDecode(ops: seq<Op>, f: seq<Byte>)
    requires var c := Run(Start(), ops); |f| == c.shifts + 5 && Number(f) == c.low
    ensures f[0] == 0
    ensures var r := DecodeOps(Load(f), ops, f);
            && r.Some? && r.value.0 == BitsOf(ops)
            && Refill(r.value.1, f).Some? && Refill(r.value.1, f).value.code == 0
            && Refill(r.value.1, f).value.pos == |f|
  {
    hide DecodeOps, Run, Load;
    assert InStream(Run(Start(), ops), f);
    RunInStream(Start(), ops, f);
    LeadByteIsZero(f);
    LoadInStep(f);
    hide InStep, InStream;
    DecodeOpsInStep(Start(), Load(f), ops, f);
    EndsExactly(Run(Start(), ops), DecodeOps(Load(f), ops, f).value.1, f);
  }

  /** Encodes the steps and flushes; the decoder reads back exactly the bits and then is at the end. */
  method EncodeAll(ops: seq<Op>) returns (coded: seq<Byte>)
    ensures |coded| >= 5 && coded[0] == 0
    ensures var r := DecodeOps(Load(coded), ops, coded);
            && r.Some? && r.value.0 == BitsOf(ops)
            && Refill(r.value.1, coded).Some?
            && Refill(r.value.1, coded).value.code == 0 && Refill(r.value.1, coded).value.pos == |coded|
  {
    var rc := new Encoder();
    hide rc.Valid, Run, DecodeOps, Load, Refill;
    for i := 0 to |ops|
      invariant rc.Valid() && rc.ops == ops[..i] && rc.header == [] && fresh(rc) && fresh(rc.probs)
    {
      match ops[i] {
        case Modelled(index, bit) => rc.EncodeBit(index, bit);
        case Direct(bit) => rc.EncodeDirect(bit);
      }
    }
    assert ops[..|ops|] == ops;
    rc.Finish();
    coded := rc.data;
    assert coded[0..] == coded;
    CodedBitsDecode(ops, coded);
  }
}
