/** The packer from end to end, and the boot decoder's acceptance of its output. */
module Packer {
  import opened Bytes
  import opened RangeCoder
  import opened RangeEncoder
  import opened RangeRoundTrip
  import opened Symbols
  import opened SymbolEncoder
  import opened Tokens
  import opened TokenRoundTrip
  import opened ParseSpec
  import opened MatchFinder
  import opened BranchFilter
  import opened BranchFilterRoundTrip
  import opened BranchFilterInPlace
  import opened Checksum
  import opened Wrappers

  // ----- coding tokens

  /** The flag bits that announce a repeated distance. */
  function RepFlags(state: State, rep: nat, length: nat): seq<Op>
    requires rep < 4
  {
    match rep
    case 0 => [Modelled(REP_G0 + state, 0)] + [Modelled(REP_LONG + 16 * state, if length == 1 then 0 else 1)]
    case 1 => [Modelled(REP_G0 + state, 1)] + [Modelled(REP_G1 + state, 0)]
    case _ => [Modelled(REP_G0 + state, 1)] + [Modelled(REP_G1 + state, 1)]
              + [Modelled(REP_G2 + state, if rep == 3 then 1 else 0)]
  }

  lemma RepOpsAreFlagsAndLength(state: State, rep: nat, length: nat)
    requires rep < 4 && 1 <= length <= MAX_MATCH && (length == 1 ==> rep == 0)
    ensures RepOps(state, rep, length)
         == RepFlags(state, rep, length) + (if length >= 2 then LengthOps(REP_LENGTH, length) else [])
  {
    hide LengthOps;
    var tail := if length >= 2 then LengthOps(REP_LENGTH, length) else [];
    var g0 := [Modelled(REP_G0 + state, if rep != 0 then 1 else 0)];
    if rep == 0 {
      Regroup(g0, [Modelled(REP_LONG + 16 * state, if length == 1 then 0 else 1)], tail);
    } else if rep == 1 {
      Regroup(g0, [Modelled(REP_G1 + state, 0)], tail);
    } else {
      var g1, g2 := [Modelled(REP_G1 + state, 1)], [Modelled(REP_G2 + state, if rep == 3 then 1 else 0)];
      Regroup(g0, g1, g2 + tail);
      Regroup(g0 + g1, g2, tail);
    }
  }

  method EncodeRepFlags(rc: Encoder, state: State, rep: nat, length: nat)
    requires rc.Valid() && rep < 4
    modifies rc, rc.probs
    ensures rc.Valid() && rc.header == old(rc.header)
    ensures rc.ops == old(rc.ops) + RepFlags(state, rep, length)
  {
    hide rc.Valid;
    rc.EncodeBit(REP_G0 + state, if rep != 0 then 1 else 0);
    if rep == 0 {
      rc.EncodeBit(REP_LONG + 16 * state, if length == 1 then 0 else 1);
    } else {
      rc.EncodeBit(REP_G1 + state, if rep != 1 then 1 else 0);
      if rep >= 2 {
        rc.EncodeBit(REP_G2 + state, if rep == 3 then 1 else 0);
      }
    }
  }

  method EncodeRep(rc: Encoder, state: State, rep: nat, length: nat)
    requires rc.Valid() && rep < 4 && 1 <= length <= MAX_MATCH && (length == 1 ==> rep == 0)
    modifies rc, rc.probs
    ensures rc.Valid() && rc.header == old(rc.header)
    ensures rc.ops == old(rc.ops) + RepOps(state, rep, length)
  {
    hide rc.Valid, LengthOps, RepFlags, RepOps;
    ghost var before := rc.ops;
    EncodeRepFlags(rc, state, rep, length);
    RepOpsAreFlagsAndLength(state, rep, length);
    if length >= 2 {
      EncodeLength(rc, REP_LENGTH, length);
      Regroup(before, RepFlags(state, rep, length), LengthOps(REP_LENGTH, length));
    }
  }

  method EncodeMatch(rc: Encoder, state: State, rep: nat, length: nat, distance: nat)
    requires rc.Valid() && rep <= 4 && 1 <= length <= MAX_MATCH && (length == 1 ==> rep == 0)
    requires 1 <= distance <= TWO32
    modifies rc, rc.probs
    ensures rc.Valid() && rc.header == old(rc.header)
    ensures rc.ops == old(rc.ops) + ([Modelled(16 * state, 1)] + MatchOps(state, rep, length, distance))
  {
    hide rc.Valid, LengthOps, DistanceOps, RepOps;
    ghost var before := rc.ops;
    rc.EncodeBit(16 * state, 1);
    rc.EncodeBit(IS_REP + state, if rep < 4 then 1 else 0);
    ghost var rest;
    if rep < 4 {
      EncodeRep(rc, state, rep, length);
      rest := RepOps(state, rep, length);
    } else {
      EncodeLength(rc, LENGTH, length);
      EncodeDistance(rc, length, distance);
      rest := LengthOps(LENGTH, length) + DistanceOps(length, distance);
    }
    assert rc.ops ==
           before + ([Modelled(16 * state, 1)] + ([Modelled(IS_REP + state, if rep < 4 then 1 else 0)] + rest));
  }

  method EncodeToken(rc: Encoder, data: array<Byte>, pos: nat, state: State, reps: Reps, c: Choice)
    requires rc.Valid() && pos < data.Length < TWO32 && Sound(pos, state, reps) && ValidChoice(data[..], pos, c)
    requires rc.probs as object != data
    modifies rc, rc.probs
    ensures rc.Valid() && rc.header == old(rc.header)
    ensures rc.ops == old(rc.ops) + TokenOps(data[..], pos, state, reps, c)
  {
    hide rc.Valid, MatchOps, LiteralOps;
    if c.length < 2 {
      if reps[0] <= pos && data[pos] == data[pos - reps[0]] {
        EncodeMatch(rc, state, 0, 1, reps[0]);
      } else {
        ghost var before := rc.ops;
        rc.EncodeBit(16 * state, 0);
        RootFits(8);
        EncodeLiteral(rc, LiteralIndex(data[..], pos), MatchedOffset(state),
                      MatchedByte(data[..], pos, state, reps), data[pos]);
        Regroup(before, [Modelled(16 * state, 0)], LiteralTokenOps(data[..], pos, state, reps));
      }
    } else {
      EncodeMatch(rc, state, FindRep(reps, c.distance), c.length, c.distance);
    }
  }

  const FIRST_REPS: Reps := [1, 1, 1, 1]

  /** Codes the whole input along the parse. */
  method EncodeTokens(rc: Encoder, data: array<Byte>, choices: seq<Choice>)
    requires rc.Valid() && rc.ops == [] && ValidChoices(data[..], choices)
    requires rc.probs as object != data
    modifies rc, rc.probs
    ensures rc.Valid() && rc.header == old(rc.header)
    ensures rc.ops == PackOps(data[..], choices, 0, 0, FIRST_REPS)
  {
    hide rc.Valid, TokenOps, NextState, NextReps, Sound, ValidChoice;
    var pos: nat, state: State, reps: Reps := 0, 0, FIRST_REPS;
    FirstIsSound();
    ghost var bytes := data[..];
    while pos < data.Length
      invariant pos <= |bytes| && Sound(pos, state, reps)
      invariant rc.Valid() && rc.header == old(rc.header)
      invariant rc.ops + PackOps(bytes, choices, pos, state, reps) == PackOps(bytes, choices, 0, 0, FIRST_REPS)
      decreases data.Length - pos
    {
      var c := choices[pos];
      assert ValidChoice(bytes, pos, c);
      ChoiceIsInside(bytes, pos, c);
      ghost var before, token := rc.ops, TokenOps(bytes, pos, state, reps, c);
      TokenKeepsSound(bytes, pos, state, reps, c);
      EncodeToken(rc, data, pos, state, reps, c);
      assert data[..] == bytes;
      state, reps, pos := NextState(data[..], pos, state, reps, c), NextReps(reps, c), pos + c.length;
      Regroup(before, token, PackOps(bytes, choices, pos, state, reps));
    }
  }

  lemma FirstIsSound()
    ensures Sound(0, 0, FIRST_REPS)
  {
  }

  lemma ChoiceIsInside(data: seq<Byte>, pos: nat, c: Choice)
    requires ValidChoice(data, pos, c) && |data| < TWO32
    ensures pos + c.length <= |data| && c.length >= 1 && c.distance < TWO32
  {
  }

  // ----- the packed stream

  /** What `stream` must be to hold `data`: two header words, then the coder's low end. */
  ghost predicate IsPacked(data: seq<Byte>, choices: seq<Choice>, stream: seq<Byte>) {
    var filtered := Filtered(data, Fresh());
    FirstIsSound();
    && ValidChoices(filtered, choices)
    && var c := Run(Start(), PackOps(filtered, choices, 0, 0, FIRST_REPS));
       && |stream| == 8 + c.shifts + 5
       && stream[..4] == LittleEndian32(Crc32(data))
       && stream[4..8] == LittleEndian32(|data|)
       && Number(stream[8..]) == c.low
  }

  /**
   The boot decoder: header and capacity checks, token loop, end-of-stream checks,
   branch filter, checksum. None is its error exit.
   */
  function Unpack(stream: seq<Byte>, capacity: nat): Option<seq<Byte>> {
    if |stream| < 13 || stream[8] != 0 || Read32(stream, 4) > capacity then None
    else
      var size, f := Read32(stream, 4), stream[8..];
      match DecodeTokens(Session(Load(f), [], 0, FIRST_REPS), size, f)
      case None => None
      case Some(s) =>
        match Refill(s.d, f)
        case None => None
        case Some(e) =>
          if e.code != 0 || e.pos != |f| then None
          else
            var out := Unfiltered(s.out, Fresh());
            if Crc32(out) != Read32(stream, 0) then None else Some(out)
  }

  /** The coded part of a packed stream decodes to the filtered data and ends exactly. */
  lemma CodedPartDecodes(filtered: seq<Byte>, choices: seq<Choice>, f: seq<Byte>)
    requires ValidChoices(filtered, choices) && Sound(0, 0, FIRST_REPS)
    requires var c := Run(Start(), PackOps(filtered, choices, 0, 0, FIRST_REPS));
             |f| == c.shifts + 5 && Number(f) == c.low
    ensures f[0] == 0
    ensures var r := DecodeTokens(Session(Load(f), [], 0, FIRST_REPS), |filtered|, f);
            && r.Some? && r.value.out == filtered
            && Refill(r.value.d, f).Some?
            && Refill(r.value.d, f).value.code == 0 && Refill(r.value.d, f).value.pos == |f|
  {
    hide PackOps, DecodeTokens, Run, Load;
    var ops := PackOps(filtered, choices, 0, 0, FIRST_REPS);
    assert InStream(Run(Start(), ops), f);
    RunInStream(Start(), ops, f);
    LeadByteIsZero(f);
    LoadInStep(f);
    var s := Session(Load(f), [], 0, FIRST_REPS);
    assert filtered[..0] == [];
    hide InStep, InStream;
    TokensRebuild(Start(), s, filtered, choices, 0, f);
    var d := DecodeTokens(s, |filtered|, f).value.d;
    EndsExactly(Run(Start(), ops), d, f);
  }

  /**
   Packing loses nothing: the boot decoder accepts every packed stream whose data
   fits its capacity, and returns exactly that data; it refuses the others.
   */
  lemma UnpackUndoesPack(data: seq<Byte>, choices: seq<Choice>, stream: seq<Byte>, capacity: nat)
    requires IsPacked(data, choices, stream)
    ensures Unpack(stream, capacity) == if |data| <= capacity then Some(data) else None
  {
    hide Filtered, Unfiltered, PackOps, DecodeTokens, Run, Load, Crc32, LittleEndian32, Read32, Refill, Sound;
    var filtered, f := Filtered(data, Fresh()), stream[8..];
    assert stream[0..4] == stream[..4];
    Read32RoundTrip(Crc32(data), stream, 0);
    Read32RoundTrip(|data|, stream, 4);
    FirstIsSound();
    CodedPartDecodes(filtered, choices, f);
    FilterRoundTrip(data);
  }

  /** Header words, tokens, closing shifts. */
  method Code(data: array<Byte>, checksum: U32, choices: seq<Choice>, ghost original: seq<Byte>)
    returns (stream: seq<Byte>)
    requires ValidChoices(data[..], choices)
    requires data[..] == Filtered(original, Fresh()) && checksum == Crc32(original)
    ensures IsPacked(original, choices, stream)
  {
    hide Filtered, PackOps, Run, LittleEndian32, Crc32;
    var rc := new Encoder();
    rc.Put32(checksum);
    rc.Put32(data.Length);
    ghost var header := rc.header;
    FirstIsSound();
    EncodeTokens(rc, data, choices);
    rc.Finish();
    stream := rc.data;
    assert header == LittleEndian32(checksum) + LittleEndian32(|original|);
    PackedLayout(stream, header, checksum, |original|);
  }

  /** `compress`: checksum, filter in place, parse, code. */
  method Compress(data: array<Byte>) returns (stream: seq<Byte>, ghost choices: seq<Choice>, ghost costs: seq<nat>)
    requires data.Length < TWO32
    modifies data
    ensures data[..] == Filtered(old(data[..]), Fresh())
    ensures Optimal(data[..], costs, choices)
    ensures IsPacked(old(data[..]), choices, stream)
    ensures forall capacity: nat ::
              Unpack(stream, capacity) == if data.Length <= capacity then Some(old(data[..])) else None
  {
    hide Filtered, Unpack, Optimal, IsPacked, ValidChoice;
    ghost var original := data[..];
    var checksum := NibbleCrc(data[..]);
    FilterInPlace(data);
    ghost var filtered := data[..];
    var finder := new Finder(data[..]);
    var chosen := new Choice[data.Length](_ => Choice(1, 0));
    var cost := finder.Parse(chosen);
    choices, costs := chosen[..], cost[..];
    OptimalIsValid(filtered, costs, choices);
    assert data[..] == filtered;
    stream := Code(data, checksum as int, chosen[..], original);
    assert data[..] == filtered;
    forall capacity: nat
      ensures Unpack(stream, capacity) == if data.Length <= capacity then Some(original) else None
    {
      UnpackUndoesPack(original, choices, stream, capacity);
    }
  }

  lemma PackedLayout(stream: seq<Byte>, header: seq<Byte>, checksum: U32, size: U32)
    requires header == LittleEndian32(checksum) + LittleEndian32(size) && header <= stream
    ensures |header| == 8 && stream[..4] == LittleEndian32(checksum) && stream[4..8] == LittleEndian32(size)
  {
    hide LittleEndian32;
    assert stream[..8] == header;
    assert stream[..4] == stream[..8][..4] && stream[4..8] == stream[..8][4..];
  }
}
