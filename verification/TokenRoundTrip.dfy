/** Decoding the token stream rebuilds the data, token by token and in whole. */
module TokenRoundTrip {
  import opened Bytes
  import opened RangeCoder
  import opened Symbols
  import opened Tokens

  lemma OtherRepReadBack(c: Coder, d: Decoder, state: State, reps: Reps, rep: nat, length: nat, f: seq<Byte>)
    requires InStep(c, d, f) && 1 <= rep < 4 && 2 <= length <= MAX_MATCH
    requires InStream(Run(c, OtherRepOps(state, rep, length)), f)
    ensures ReadBack(c, OtherRepOps(state, rep, length), DecodeOtherRep(d, state, reps, f),
                     Copying(Promote(reps, rep, reps[rep]), length, AfterRep(state)), f)
  {
    hide Run, Step, InStep, InStream, DecodeBit, DecodeLength, LengthOps;
    var tail := LengthOps(REP_LENGTH, length);
    if rep == 1 {
      var op := Modelled(REP_G1 + state, 0);
      FirstOp(c, d, op, tail, f);
      LengthReadBack(Step(c, op), DecodeOp(d, op, f).value.1, REP_LENGTH, length, f);
    } else {
      var op, op' := Modelled(REP_G1 + state, 1), Modelled(REP_G2 + state, if rep == 3 then 1 else 0);
      FirstOp(c, d, op, [op'] + tail, f);
      var c', d' := Step(c, op), DecodeOp(d, op, f).value.1;
      FirstOp(c', d', op', tail, f);
      LengthReadBack(Step(c', op'), DecodeOp(d', op', f).value.1, REP_LENGTH, length, f);
    }
  }

  lemma FrontRepReadBack(c: Coder, d: Decoder, state: State, reps: Reps, length: nat, f: seq<Byte>)
    requires InStep(c, d, f) && 1 <= length <= MAX_MATCH
    requires InStream(Run(c, RepOps(state, 0, length)), f)
    ensures ReadBack(c, RepOps(state, 0, length), DecodeRep(d, state, reps, f),
                     Copying(reps, length, if length == 1 then AfterShortRep(state) else AfterRep(state)), f)
  {
    hide Step, InStep, InStream, DecodeBit, DecodeLength, LengthOps, OtherRepOps, DecodeOtherRep;
    var long := if length == 1 then 0 else 1;
    var tail := if length == 1 then [] else LengthOps(REP_LENGTH, length);
    var op, op' := Modelled(REP_G0 + state, 0), Modelled(REP_LONG + 16 * state, long);
    FirstOp(c, d, op, [op'] + tail, f);
    var c', d' := Step(c, op), DecodeOp(d, op, f).value.1;
    FirstOp(c', d', op', tail, f);
    var d'' := DecodeOp(d', op', f).value.1;
    if length == 1 {
      assert Run(Step(c', op'), []) == Step(c', op');
    } else {
      LengthReadBack(Step(c', op'), d'', REP_LENGTH, length, f);
    }
  }

  lemma RepReadBack(c: Coder, d: Decoder, state: State, reps: Reps, rep: nat, length: nat, f: seq<Byte>)
    requires InStep(c, d, f) && rep < 4 && 1 <= length <= MAX_MATCH && (length == 1 ==> rep == 0)
    requires InStream(Run(c, RepOps(state, rep, length)), f)
    ensures ReadBack(c, RepOps(state, rep, length), DecodeRep(d, state, reps, f),
                     Copying(Promote(reps, rep, reps[rep]), length,
                             if length == 1 then AfterShortRep(state) else AfterRep(state)), f)
  {
    hide Run, Step, InStep, InStream, DecodeBit, DecodeLength, LengthOps, OtherRepOps, DecodeOtherRep;
    if rep == 0 {
      assert Promote(reps, 0, reps[0]) == reps;
      FrontRepReadBack(c, d, state, reps, length, f);
    } else {
      var op, rest := Modelled(REP_G0 + state, 1), OtherRepOps(state, rep, length);
      FirstOp(c, d, op, rest, f);
      OtherRepReadBack(Step(c, op), DecodeOp(d, op, f).value.1, state, reps, rep, length, f);
    }
  }

  lemma NewMatchReadBack(c: Coder, d: Decoder, state: State, reps: Reps, length: nat, distance: nat, f: seq<Byte>)
    requires InStep(c, d, f) && 2 <= length <= MAX_MATCH && 1 <= distance < TWO32
    requires InStream(Run(c, LengthOps(LENGTH, length) + DistanceOps(length, distance)), f)
    ensures ReadBack(c, LengthOps(LENGTH, length) + DistanceOps(length, distance), DecodeNewMatch(d, state, reps, f),
                     Copying(Promote(reps, 4, distance), length, AfterMatch(state)), f)
  {
    hide Run, InStep, InStream, DecodeLength, LengthOps, DistanceOps, DecodeDistance;
    var a, b := LengthOps(LENGTH, length), DistanceOps(length, distance);
    FirstPart(c, a, b, f);
    LengthReadBack(c, d, LENGTH, length, f);
    DistanceReadBack(Run(c, a), DecodeLength(d, LENGTH, f).value.1, length, distance, f);
  }

  lemma MatchReadBack(c: Coder, d: Decoder, state: State, reps: Reps, rep: nat, length: nat, distance: nat,
                      f: seq<Byte>)
    requires InStep(c, d, f) && rep <= 4 && 1 <= length <= MAX_MATCH && (length == 1 ==> rep == 0)
    requires 1 <= distance < TWO32 && (rep < 4 ==> reps[rep] == distance)
    requires InStream(Run(c, MatchOps(state, rep, length, distance)), f)
    ensures ReadBack(c, MatchOps(state, rep, length, distance), DecodeMatch(d, state, reps, f),
                     Copying(Promote(reps, rep, distance), length,
                             if length == 1 then AfterShortRep(state)
                             else if rep < 4 then AfterRep(state) else AfterMatch(state)), f)
  {
    hide Run, Step, InStep, InStream, DecodeBit, RepOps, DecodeRep, DecodeNewMatch, LengthOps, DistanceOps, Promote;
    var op := Modelled(IS_REP + state, if rep < 4 then 1 else 0);
    if rep < 4 {
      FirstOp(c, d, op, RepOps(state, rep, length), f);
      RepReadBack(Step(c, op), DecodeOp(d, op, f).value.1, state, reps, rep, length, f);
    } else {
      FirstOp(c, d, op, LengthOps(LENGTH, length) + DistanceOps(length, distance), f);
      NewMatchReadBack(Step(c, op), DecodeOp(d, op, f).value.1, state, reps, length, distance, f);
    }
  }

  /** A copy from a true match extends the output by exactly the matched bytes. */
  lemma {:induction false} CopyRebuilds(data: seq<Byte>, pos: nat, distance: nat, length: nat)
    requires Matches(data, pos, distance, length)
    ensures CopyMatch(data[..pos], distance, length) == data[..pos + length]
    decreases length
  {
    if length > 0 {
      var out := data[..pos];
      assert out[|out| - distance] == data[pos - distance] == data[pos];
      assert out + [data[pos]] == data[..pos + 1];
      CopyRebuilds(data, pos + 1, distance, length - 1);
    }
  }

  lemma LiteralTokenReadBack(c: Coder, d: Decoder, s: Session, data: seq<Byte>, pos: nat, f: seq<Byte>)
    requires InStep(c, d, f) && pos < |data| && Sound(pos, s.state, s.reps) && s.out == data[..pos] && Safe(s)
    requires InStream(Run(c, LiteralTokenOps(data, pos, s.state, s.reps)), f)
    ensures ReadBack(c, LiteralTokenOps(data, pos, s.state, s.reps), DecodeLiteralToken(d, s, f), data[pos], f)
  {
    hide Run, InStep, InStream, LiteralOps, DecodeLiteral, LowBits, Shifted, Pow2, NodeFits;
    RootFits(8);
    EightBits();
    LowBitsWhole(data[pos], 8);
    LiteralReadBack(c, d, LiteralIndex(data, pos), 1, MatchedOffset(s.state), MatchedByte(data, pos, s.state, s.reps),
                    8, data[pos], f);
  }

  /** The decoder, having rebuilt `data[..pos]`, stands where the packer stood. */
  ghost predicate Rebuilt(s: Session, c: Coder, data: seq<Byte>, pos: nat, state: State, reps: Reps, f: seq<Byte>)
    requires pos <= |data|
  {
    s.out == data[..pos] && s.state == state && s.reps == reps && InStep(c, s.d, f)
  }

  lemma MatchTokenRebuilds(c: Coder, s: Session, data: seq<Byte>, pos: nat, rep: nat, length: nat, distance: nat,
                           state': State, f: seq<Byte>)
    requires pos < |data| < TWO32 && Rebuilt(s, c, data, pos, s.state, s.reps, f) && Safe(s)
    requires rep <= 4 && 1 <= length <= MAX_MATCH && (length == 1 ==> rep == 0)
    requires Matches(data, pos, distance, length) && (rep < 4 ==> s.reps[rep] == distance)
    requires state' == if length == 1 then AfterShortRep(s.state)
                       else if rep < 4 then AfterRep(s.state) else AfterMatch(s.state)
    requires InStream(Run(c, [Modelled(16 * s.state, 1)] + MatchOps(s.state, rep, length, distance)), f)
    ensures var r := DecodeToken(s, |data|, f);
            r.Some? && Rebuilt(r.value, Run(c, [Modelled(16 * s.state, 1)] + MatchOps(s.state, rep, length, distance)),
                               data, pos + length, state', Promote(s.reps, rep, distance), f)
  {
    hide Run, Step, InStep, InStream, DecodeBit, MatchOps, DecodeMatch, DecodeLiteralToken, CopyMatch;
    var op, rest := Modelled(16 * s.state, 1), MatchOps(s.state, rep, length, distance);
    FirstOp(c, s.d, op, rest, f);
    MatchReadBack(Step(c, op), DecodeOp(s.d, op, f).value.1, s.state, s.reps, rep, length, distance, f);
    CopyRebuilds(data, pos, distance, length);
  }

  lemma LiteralTokenRebuilds(c: Coder, s: Session, data: seq<Byte>, pos: nat, f: seq<Byte>)
    requires pos < |data| && Sound(pos, s.state, s.reps) && Safe(s)
    requires Rebuilt(s, c, data, pos, s.state, s.reps, f)
    requires InStream(Run(c, [Modelled(16 * s.state, 0)] + LiteralTokenOps(data, pos, s.state, s.reps)), f)
    ensures var r := DecodeToken(s, |data|, f);
            r.Some? && Rebuilt(r.value,
                               Run(c, [Modelled(16 * s.state, 0)] + LiteralTokenOps(data, pos, s.state, s.reps)),
                               data, pos + 1, AfterLiteral(s.state), s.reps, f)
  {
    hide Run, Step, InStep, InStream, DecodeBit, DecodeMatch, DecodeLiteralToken, LiteralTokenOps;
    var op, rest := Modelled(16 * s.state, 0), LiteralTokenOps(data, pos, s.state, s.reps);
    FirstOp(c, s.d, op, rest, f);
    LiteralTokenReadBack(Step(c, op), DecodeOp(s.d, op, f).value.1, s, data, pos, f);
    assert data[..pos] + [data[pos]] == data[..pos + 1];
  }

  /** One turn of the decoder undoes one token of the packer. */
  lemma TokenRebuilds(c: Coder, s: Session, data: seq<Byte>, pos: nat, choice: Choice, f: seq<Byte>)
    requires pos < |data| < TWO32 && Sound(pos, s.state, s.reps) && Safe(s) && ValidChoice(data, pos, choice)
    requires Rebuilt(s, c, data, pos, s.state, s.reps, f)
    requires InStream(Run(c, TokenOps(data, pos, s.state, s.reps, choice)), f)
    ensures var r := DecodeToken(s, |data|, f);
            r.Some? && Rebuilt(r.value, Run(c, TokenOps(data, pos, s.state, s.reps, choice)), data, pos + choice.length,
                               NextState(data, pos, s.state, s.reps, choice), NextReps(s.reps, choice), f)
  {
    hide Run, InStep, InStream, DecodeToken, MatchOps, LiteralTokenOps, Promote;
    if choice.length >= 2 {
      var rep := FindRep(s.reps, choice.distance);
      var state' := NextState(data, pos, s.state, s.reps, choice);
      MatchTokenRebuilds(c, s, data, pos, rep, choice.length, choice.distance, state', f);
    } else if IsShortRep(data, pos, s.reps) {
      MatchTokenRebuilds(c, s, data, pos, 0, 1, s.reps[0], AfterShortRep(s.state), f);
      PromoteFront(s.reps);
    } else {
      LiteralTokenRebuilds(c, s, data, pos, f);
    }
  }

  lemma PromoteFront(reps: Reps)
    ensures Promote(reps, 0, reps[0]) == reps
  {
  }

  /** The whole token stream decodes to the whole data, for every valid parse. */
  lemma {:induction false} TokensRebuild(c: Coder, s: Session, data: seq<Byte>, choices: seq<Choice>, pos: nat,
                                         f: seq<Byte>)
    requires ValidChoices(data, choices) && pos <= |data| && Sound(pos, s.state, s.reps) && Safe(s)
    requires Rebuilt(s, c, data, pos, s.state, s.reps, f)
    requires InStream(Run(c, PackOps(data, choices, pos, s.state, s.reps)), f)
    ensures var r := DecodeTokens(s, |data|, f);
            r.Some? && r.value.out == data && InStep(Run(c, PackOps(data, choices, pos, s.state, s.reps)), r.value.d, f)
    decreases |data| - pos
  {
    hide InStep, InStream, DecodeToken, TokenOps, Promote, NextState, NextReps, Sound, Step;
    if pos == |data| {
      assert data[..pos] == data;
    } else {
      hide Run;
      var choice := choices[pos];
      assert ValidChoice(data, pos, choice);
      TokenKeepsSound(data, pos, s.state, s.reps, choice);
      var pos', reps' := pos + choice.length, NextReps(s.reps, choice);
      var state' := NextState(data, pos, s.state, s.reps, choice);
      var a, b := TokenOps(data, pos, s.state, s.reps, choice), PackOps(data, choices, pos', state', reps');
      FirstPart(c, a, b, f);
      TokenRebuilds(c, s, data, pos, choice, f);
      TokensRebuild(Run(c, a), DecodeToken(s, |data|, f).value, data, choices, pos', f);
    }
  }
}
