/**
 The adaptive binary range coder of the packed stream, as exact arithmetic.

 `Coder` is the coder without a carry: its low end is one unbounded number,
 scaled by 256 at every shift. `Decoder` is the boot-time decoder's side,
 which normalises lazily, just before it needs a bit.
 */
module RangeCoder {
  import opened Bytes
  import opened Wrappers

  const PROBS := 4918

  /** A context of the probability model. */
  type Index = i: int | 0 <= i < PROBS

  /** Probability of a zero, in 2048ths; adaptation never leaves this band. */
  type Prob = p: int | 31 <= p <= 2017 witness 1024

  type Probs = s: seq<Prob> | |s| == PROBS witness seq(PROBS, _ => 1024)

  /** Interval width between steps, and just after a split. */
  type Width = r: int | TWO24 <= r < TWO32 witness TWO24
  type Span = r: int | TWO16 <= r < TWO32 witness TWO24

  /** One coding step: a bit under an adaptive context, or an equiprobable bit. */
  datatype Op = Modelled(index: Index, bit: Bit) | Direct(bit: Bit)

  /** Moves a probability towards the bit just coded, by a 32nd of the distance. */
  function Adapt(p: Prob, bit: Bit): Prob {
    if bit == 0 then p + (2048 - p) / 32 else p - p / 32
  }

  /** Width of the half that belongs to a zero; both halves keep at least 2^16. */
  function Bound(range: Width, p: Prob): (b: Span)
    ensures b <= range - TWO16
  {
    BoundSplits(range, p);
    range / 2048 * p
  }

  lemma BoundSplits(range: Width, p: Prob)
    ensures TWO16 <= range / 2048 * p <= range - TWO16
  {
    var q := range / 2048;
    MulMonotone(8192, q, p);
    MulMonotone(p, 2017, q);
    assert q * p == p * q;
  }

  // ----- the carry-free coder

  datatype Coder = Coder(low: nat, range: Width, shifts: nat, probs: Probs)

  /** A coder that may still need a shift. */
  datatype Part = Part(low: nat, range: Span, shifts: nat, probs: Probs)

  function Start(): Coder {
    Coder(0, TWO32 - 1, 0, seq(PROBS, _ => 1024))
  }

  /** The part of the interval that one step selects. */
  function Narrow(c: Coder, op: Op): (n: Part)
    ensures n.shifts == c.shifts && c.low <= n.low && n.low + n.range <= c.low + c.range
  {
    match op
    case Modelled(i, b) =>
      var bound := Bound(c.range, c.probs[i]);
      var probs := c.probs[i := Adapt(c.probs[i], b)];
      if b == 0 then Part(c.low, bound, c.shifts, probs)
      else Part(c.low + bound, c.range - bound, c.shifts, probs)
    case Direct(b) =>
      var half := c.range / 2;
      Part(if b == 1 then c.low + half else c.low, half, c.shifts, c.probs)
  }

  /** One shift always suffices, because no split leaves less than 2^16. */
  function Normalised(n: Part): Coder {
    if n.range < TWO24 then Coder(256 * n.low, 256 * n.range, n.shifts + 1, n.probs)
    else Coder(n.low, n.range, n.shifts, n.probs)
  }

  function Step(c: Coder, op: Op): Coder {
    Normalised(Narrow(c, op))
  }

  function Run(c: Coder, ops: seq<Op>): Coder {
    if ops == [] then c else Step(Run(c, ops[..|ops| - 1]), ops[|ops| - 1])
  }

  lemma RunSnoc(c: Coder, ops: seq<Op>, op: Op)
    ensures Run(c, ops + [op]) == Step(Run(c, ops), op)
  {
    assert (ops + [op])[..|ops|] == ops;
  }

  lemma {:induction false} RunConcat(c: Coder, a: seq<Op>, b: seq<Op>)
    ensures Run(c, a + b) == Run(Run(c, a), b)
    decreases |b|
  {
    hide Step;
    if b == [] {
      assert a + b == a;
    } else {
      var b', x := b[..|b| - 1], b[|b| - 1];
      RunConcat(c, a, b');
      RunSnoc(c, a + b', x);
      assert a + b == a + b' + [x];
    }
  }

  // ----- a stream against the coder

  /** The first shifts + 5 bytes of the stream fall in the interval. */
  ghost predicate Within(low: nat, range: nat, shifts: nat, f: seq<Byte>) {
    shifts + 5 <= |f| && low <= Value(f, shifts + 5) < low + range
  }

  ghost predicate InStream(c: Coder, f: seq<Byte>) {
    Within(c.low, c.range, c.shifts, f)
  }

  ghost predicate PartInStream(n: Part, f: seq<Byte>) {
    Within(n.low, n.range, n.shifts, f)
  }

  lemma NormalisedInStream(n: Part, f: seq<Byte>)
    requires InStream(Normalised(n), f)
    ensures PartInStream(n, f)
  {
  }

  lemma StepInStream(c: Coder, op: Op, f: seq<Byte>)
    requires InStream(Step(c, op), f)
    ensures PartInStream(Narrow(c, op), f) && InStream(c, f)
  {
    hide Normalised;
    NormalisedInStream(Narrow(c, op), f);
  }

  /** Intervals nest: a stream that suits a later state suits every earlier one. */
  lemma {:induction false} RunInStream(c: Coder, ops: seq<Op>, f: seq<Byte>)
    requires InStream(Run(c, ops), f)
    ensures InStream(c, f)
    decreases |ops|
  {
    hide Step;
    if ops != [] {
      StepInStream(Run(c, ops[..|ops| - 1]), ops[|ops| - 1], f);
      RunInStream(c, ops[..|ops| - 1], f);
    }
  }

  // ----- the boot-time decoder

  /** The decoder's registers; `pos` is the next unread byte of the coded stream. */
  datatype Decoder = Decoder(code: U32, range: Span, pos: nat, probs: Probs)

  /** The state after loading the lead byte and the first four code bytes. */
  function Load(f: seq<Byte>): Decoder
    requires |f| >= 5
  {
    Decoder(TWO24 * f[1] + TWO16 * f[2] + TWO8 * f[3] + f[4], TWO32 - 1, 5, seq(PROBS, _ => 1024))
  }

  /** Lazy normalisation; None is the decoder's error exit on a truncated stream. */
  function Refill(d: Decoder, f: seq<Byte>): (r: Option<Decoder>)
    ensures r.Some? ==> r.value.range >= TWO24
  {
    if d.range >= TWO24 then Some(d)
    else if d.pos >= |f| then None
    else Some(Decoder((256 * d.code + f[d.pos]) % TWO32, 256 * d.range, d.pos + 1, d.probs))
  }

  function DecodeBit(d: Decoder, index: Index, f: seq<Byte>): Option<(Bit, Decoder)> {
    match Refill(d, f)
    case None => None
    case Some(e) =>
      var bound := Bound(e.range, e.probs[index]);
      if e.code < bound then
        Some((0, Decoder(e.code, bound, e.pos, e.probs[index := Adapt(e.probs[index], 0)])))
      else
        Some((1, Decoder(e.code - bound, e.range - bound, e.pos, e.probs[index := Adapt(e.probs[index], 1)])))
  }

  function DecodeDirect(d: Decoder, f: seq<Byte>): Option<(Bit, Decoder)> {
    match Refill(d, f)
    case None => None
    case Some(e) =>
      var half := e.range / 2;
      if e.code < half then Some((0, Decoder(e.code, half, e.pos, e.probs)))
      else Some((1, Decoder(e.code - half, half, e.pos, e.probs)))
  }

  /** One bit for whichever step the encoder took. */
  function DecodeOp(d: Decoder, op: Op, f: seq<Byte>): Option<(Bit, Decoder)> {
    if op.Modelled? then DecodeBit(d, op.index, f) else DecodeDirect(d, f)
  }

  /** The decoder registers that belong to an interval and the stream read so far. */
  ghost function At(n: Part, f: seq<Byte>): Decoder
    requires PartInStream(n, f)
  {
    Decoder(Value(f, n.shifts + 5) - n.low, n.range, n.shifts + 5, n.probs)
  }

  function AsPart(c: Coder): Part {
    Part(c.low, c.range, c.shifts, c.probs)
  }

  /** Decoder and coder describe the same place in the stream, up to a pending refill. */
  ghost predicate InStep(c: Coder, d: Decoder, f: seq<Byte>) {
    InStream(c, f) && Refill(d, f) == Some(At(AsPart(c), f))
  }

  /** The decoder's late refill meets the coder's early normalisation. */
  lemma RefillMeetsNormalised(n: Part, f: seq<Byte>)
    requires InStream(Normalised(n), f)
    ensures PartInStream(n, f)
    ensures InStep(Normalised(n), At(n, f), f)
  {
    if n.range < TWO24 {
      assert Value(f, n.shifts + 6) == 256 * Value(f, n.shifts + 5) + f[n.shifts + 5];
    }
  }

  /** Loading a stream whose lead byte is zero puts both sides at the start. */
  lemma LoadInStep(f: seq<Byte>)
    requires |f| >= 5 && f[0] == 0
    requires InStream(Start(), f)
    ensures InStep(Start(), Load(f), f)
  {
    assert Value(f, 5) == 256 * Value(f, 4) + f[4];
    assert Value(f, 4) == 256 * Value(f, 3) + f[3];
    assert Value(f, 3) == 256 * Value(f, 2) + f[2];
    assert Value(f, 2) == 256 * Value(f, 1) + f[1];
    assert Value(f, 1) == f[0];
  }

  /** The lead byte of a stream in the coder's interval is zero. */
  lemma LeadByteIsZero(f: seq<Byte>)
    requires InStream(Start(), f)
    ensures f[0] == 0
  {
    assert Value(f, 1) == f[0];
    assert Value(f, 2) >= TWO8 * f[0];
    assert Value(f, 3) >= TWO16 * f[0];
    assert Value(f, 4) >= TWO24 * f[0];
    assert Value(f, 5) >= TWO32 * f[0];
  }

  lemma DecodeBitFollows(c: Coder, d: Decoder, op: Op, f: seq<Byte>)
    requires InStep(c, d, f) && op.Modelled?
    requires PartInStream(Narrow(c, op), f)
    ensures DecodeBit(d, op.index, f) == Some((op.bit, At(Narrow(c, op), f)))
  {
    hide Refill, Value, Bound, Adapt;
  }

  lemma DecodeDirectFollows(c: Coder, d: Decoder, op: Op, f: seq<Byte>)
    requires InStep(c, d, f) && op.Direct?
    requires PartInStream(Narrow(c, op), f)
    ensures DecodeDirect(d, f) == Some((op.bit, At(Narrow(c, op), f)))
  {
    hide Refill, Value;
  }

  /** The decoder recovers the bit of each step and stays beside the coder. */
  lemma DecodeOpInStep(c: Coder, d: Decoder, op: Op, f: seq<Byte>)
    requires InStep(c, d, f)
    requires InStream(Step(c, op), f)
    ensures DecodeOp(d, op, f).Some?
    ensures DecodeOp(d, op, f).value.0 == op.bit
    ensures InStep(Step(c, op), DecodeOp(d, op, f).value.1, f)
  {
    hide Narrow, Normalised, InStep, At, DecodeBit, DecodeDirect;
    RefillMeetsNormalised(Narrow(c, op), f);
    if op.Modelled? {
      DecodeBitFollows(c, d, op, f);
    } else {
      DecodeDirectFollows(c, d, op, f);
    }
  }

  // ----- the round trip on bare steps

  /** Reads back one bit per step of `ops`, with the decoder's contexts taken from `ops`. */
  function DecodeOps(d: Decoder, ops: seq<Op>, f: seq<Byte>): (r: Option<(seq<Bit>, Decoder)>)
    ensures r.Some? ==> |r.value.0| == |ops|
    decreases |ops|
  {
    if ops == [] then Some(([], d))
    else
      match DecodeOps(d, ops[..|ops| - 1], f)
      case None => None
      case Some((bits, e)) =>
        match DecodeOp(e, ops[|ops| - 1], f)
        case None => None
        case Some((bit, e')) => Some((bits + [bit], e'))
  }

  lemma {:induction false} DecodeOpsInStep(c: Coder, d: Decoder, ops: seq<Op>, f: seq<Byte>)
    requires InStep(c, d, f)
    requires InStream(Run(c, ops), f)
    ensures DecodeOps(d, ops, f).Some?
    ensures DecodeOps(d, ops, f).value.0 == seq(|ops|, i requires 0 <= i < |ops| => ops[i].bit)
    ensures InStep(Run(c, ops), DecodeOps(d, ops, f).value.1, f)
    decreases |ops|
  {
    hide Step, DecodeOp, InStep, InStream;
    if ops != [] {
      var ops', x := ops[..|ops| - 1], ops[|ops| - 1];
      StepInStream(Run(c, ops'), x, f);
      DecodeOpsInStep(c, d, ops', f);
      DecodeOpInStep(Run(c, ops'), DecodeOps(d, ops', f).value.1, x, f);
    }
  }
}
