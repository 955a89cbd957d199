/**
 The token layer: literals, short repeats, repeated distances and new matches,
 under a twelve-state context and four remembered distances.

 `PackOps` is what the packer codes for a given parse; `DecodeToken` is one turn
 of the boot decoder's main loop, with its bounds checks.
 */
module Tokens {
  import opened Bytes
  import opened RangeCoder
  import opened Symbols
  import opened Wrappers

  const IS_REP := 192
  const REP_G0 := 204
  const REP_G1 := 216
  const REP_G2 := 228
  const REP_LONG := 240

  type State = s: int | 0 <= s <= 11

  type Reps = r: seq<U32> | |r| == 4 witness [1, 1, 1, 1]

  /** One decision of the parse: a literal (length 1) or a match. */
  datatype Choice = Choice(length: nat, distance: nat)

  // ----- what a choice may be

  predicate Matches(data: seq<Byte>, pos: nat, distance: nat, length: nat) {
    && 1 <= distance <= pos && pos + length <= |data|
    && forall i :: pos <= i < pos + length ==> data[i] == data[i - distance]
  }

  predicate ValidChoice(data: seq<Byte>, pos: nat, c: Choice) {
    || (c == Choice(1, 0) && pos < |data|)
    || (2 <= c.length <= MAX_MATCH && Matches(data, pos, c.distance, c.length))
  }

  predicate ValidChoices(data: seq<Byte>, choices: seq<Choice>) {
    && |data| < TWO32
    && |choices| == |data|
    && forall pos :: 0 <= pos < |data| ==> ValidChoice(data, pos, choices[pos])
  }

  // ----- state and remembered distances

  function AfterLiteral(state: State): State {
    if state < 4 then 0 else if state < 10 then state - 3 else state - 6
  }

  function AfterShortRep(state: State): State {
    if state < 7 then 9 else 11
  }

  function AfterRep(state: State): State {
    if state < 7 then 8 else 11
  }

  function AfterMatch(state: State): State {
    if state < 7 then 7 else 10
  }

  /** Index of the first remembered distance equal to `distance`, or 4. */
  function FindRep(reps: Reps, distance: nat): (rep: nat)
    ensures rep <= 4 && (rep < 4 ==> reps[rep] == distance)
    ensures forall i :: 0 <= i < rep ==> reps[i] != distance
    ensures rep == 4 ==> distance !in reps
  {
    if reps[0] == distance then 0
    else if reps[1] == distance then 1
    else if reps[2] == distance then 2
    else if reps[3] == distance then 3
    else 4
  }

  /** Moves `distance` to the front; slot `rep`, or the oldest one, gives way. */
  function Promote(reps: Reps, rep: nat, distance: U32): Reps
    requires rep <= 4
  {
    match rep
    case 0 => [distance, reps[1], reps[2], reps[3]]
    case 1 => [distance, reps[0], reps[2], reps[3]]
    case 2 => [distance, reps[0], reps[1], reps[3]]
    case _ => [distance, reps[0], reps[1], reps[2]]
  }

  /** Every remembered distance is real, and the latest one reaches inside the output. */
  predicate Sound(pos: nat, state: State, reps: Reps) {
    && (forall i :: 0 <= i < 4 ==> reps[i] >= 1)
    && (if pos == 0 then state < 7 && reps[0] == 1 else reps[0] <= pos)
  }

  // ----- coding a token

  function LiteralIndex(data: seq<Byte>, pos: nat): (i: nat)
    requires pos <= |data|
    ensures i + 768 <= PROBS
  {
    var previous: int := if pos == 0 then 0 else data[pos - 1];
    LITERAL + previous / 64 * 768
  }

  /** The byte at the latest distance, consulted only right after a match. */
  function MatchedByte(data: seq<Byte>, pos: nat, state: State, reps: Reps): nat
    requires pos <= |data| && Sound(pos, state, reps)
  {
    if state >= 7 then data[pos - reps[0]] else 0
  }

  function MatchedOffset(state: State): (r: nat)
    ensures r == 0 || r == 256
  {
    if state >= 7 then 256 else 0
  }

  predicate IsShortRep(data: seq<Byte>, pos: nat, reps: Reps)
    requires pos < |data|
  {
    reps[0] <= pos && data[pos] == data[pos - reps[0]]
  }

  function OtherRepOps(state: State, rep: nat, length: nat): seq<Op>
    requires 1 <= rep < 4 && 2 <= length <= MAX_MATCH
  {
    if rep == 1 then [Modelled(REP_G1 + state, 0)] + LengthOps(REP_LENGTH, length)
    else
      [Modelled(REP_G1 + state, 1)]
      + ([Modelled(REP_G2 + state, if rep == 3 then 1 else 0)] + LengthOps(REP_LENGTH, length))
  }

  /** A repeated distance; length 1 is the short repeat of a single byte. */
  function RepOps(state: State, rep: nat, length: nat): seq<Op>
    requires rep < 4 && 1 <= length <= MAX_MATCH && (length == 1 ==> rep == 0)
  {
    if rep != 0 then [Modelled(REP_G0 + state, 1)] + OtherRepOps(state, rep, length)
    else if length == 1 then [Modelled(REP_G0 + state, 0)] + ([Modelled(REP_LONG + 16 * state, 0)] + [])
    else [Modelled(REP_G0 + state, 0)] + ([Modelled(REP_LONG + 16 * state, 1)] + LengthOps(REP_LENGTH, length))
  }

  function MatchOps(state: State, rep: nat, length: nat, distance: nat): seq<Op>
    requires rep <= 4 && 1 <= length <= MAX_MATCH && (length == 1 ==> rep == 0)
    requires 1 <= distance <= TWO32
  {
    if rep < 4 then [Modelled(IS_REP + state, 1)] + RepOps(state, rep, length)
    else [Modelled(IS_REP + state, 0)] + (LengthOps(LENGTH, length) + DistanceOps(length, distance))
  }

  function LiteralTokenOps(data: seq<Byte>, pos: nat, state: State, reps: Reps): seq<Op>
    requires pos < |data| && Sound(pos, state, reps)
  {
    RootFits(8);
    LiteralOps(LiteralIndex(data, pos), 1, MatchedOffset(state), MatchedByte(data, pos, state, reps), 8, data[pos])
  }

  function TokenOps(data: seq<Byte>, pos: nat, state: State, reps: Reps, c: Choice): seq<Op>
    requires pos < |data| < TWO32 && Sound(pos, state, reps) && ValidChoice(data, pos, c)
  {
    if c.length >= 2 then
      [Modelled(16 * state, 1)] + MatchOps(state, FindRep(reps, c.distance), c.length, c.distance)
    else if IsShortRep(data, pos, reps) then
      [Modelled(16 * state, 1)] + MatchOps(state, 0, 1, reps[0])
    else
      [Modelled(16 * state, 0)] + LiteralTokenOps(data, pos, state, reps)
  }

  function NextState(data: seq<Byte>, pos: nat, state: State, reps: Reps, c: Choice): State
    requires pos < |data|
  {
    if c.length >= 2 then (if FindRep(reps, c.distance) < 4 then AfterRep(state) else AfterMatch(state))
    else if IsShortRep(data, pos, reps) then AfterShortRep(state)
    else AfterLiteral(state)
  }

  function NextReps(reps: Reps, c: Choice): Reps
    requires c.distance < TWO32
  {
    if c.length >= 2 then Promote(reps, FindRep(reps, c.distance), c.distance) else reps
  }

  /** Every token keeps the remembered distances sound. */
  lemma TokenKeepsSound(data: seq<Byte>, pos: nat, state: State, reps: Reps, c: Choice)
    requires pos < |data| < TWO32 && Sound(pos, state, reps) && ValidChoice(data, pos, c)
    ensures Sound(pos + c.length, NextState(data, pos, state, reps, c), NextReps(reps, c))
  {
  }

  /** The steps for a whole input, from `pos` on. */
  function PackOps(data: seq<Byte>, choices: seq<Choice>, pos: nat, state: State, reps: Reps): seq<Op>
    requires ValidChoices(data, choices) && pos <= |data| && Sound(pos, state, reps)
    decreases |data| - pos
  {
    if pos == |data| then [] else
      var c := choices[pos];
      TokenKeepsSound(data, pos, state, reps, c);
      TokenOps(data, pos, state, reps, c)
        + PackOps(data, choices, pos + c.length, NextState(data, pos, state, reps, c), NextReps(reps, c))
  }

  // ----- the boot decoder's main loop

  /** What a decoded match asks the copy loop to do. */
  datatype Copying = Copying(reps: Reps, length: nat, state: State)

  function WithLength(r: Option<(nat, Decoder)>, reps: Reps, state: State): (c: Option<(Copying, Decoder)>)
    requires r.Some? ==> r.value.0 >= 2
    ensures c.Some? ==> c.value.0.length >= 2
  {
    match r
    case None => None
    case Some((length, e)) => Some((Copying(reps, length, state), e))
  }

  function DecodeOtherRep(d: Decoder, state: State, reps: Reps, f: seq<Byte>): (c: Option<(Copying, Decoder)>)
    ensures c.Some? ==> c.value.0.length >= 1
  {
    match DecodeBit(d, REP_G1 + state, f)
    case None => None
    case Some((b1, e)) =>
      if b1 == 0 then
        WithLength(DecodeLength(e, REP_LENGTH, f), [reps[1], reps[0], reps[2], reps[3]], AfterRep(state))
      else
        match DecodeBit(e, REP_G2 + state, f)
        case None => None
        case Some((b2, e')) =>
          var reps' := if b2 == 0 then [reps[2], reps[0], reps[1], reps[3]]
                       else [reps[3], reps[0], reps[1], reps[2]];
          WithLength(DecodeLength(e', REP_LENGTH, f), reps', AfterRep(state))
  }

  function DecodeRep(d: Decoder, state: State, reps: Reps, f: seq<Byte>): (c: Option<(Copying, Decoder)>)
    ensures c.Some? ==> c.value.0.length >= 1
  {
    match DecodeBit(d, REP_G0 + state, f)
    case None => None
    case Some((b0, e)) =>
      if b0 == 1 then DecodeOtherRep(e, state, reps, f)
      else
        match DecodeBit(e, REP_LONG + 16 * state, f)
        case None => None
        case Some((long, e')) =>
          if long == 0 then Some((Copying(reps, 1, AfterShortRep(state)), e'))
          else WithLength(DecodeLength(e', REP_LENGTH, f), reps, AfterRep(state))
  }

  function DecodeNewMatch(d: Decoder, state: State, reps: Reps, f: seq<Byte>): (c: Option<(Copying, Decoder)>)
    ensures c.Some? ==> c.value.0.length >= 1
  {
    match DecodeLength(d, LENGTH, f)
    case None => None
    case Some((length, e)) =>
      match DecodeDistance(e, length, f)
      case None => None
      case Some((distance, e')) =>
        Some((Copying([distance, reps[0], reps[1], reps[2]], length, AfterMatch(state)), e'))
  }

  function DecodeMatch(d: Decoder, state: State, reps: Reps, f: seq<Byte>): (c: Option<(Copying, Decoder)>)
    ensures c.Some? ==> c.value.0.length >= 1
  {
    match DecodeBit(d, IS_REP + state, f)
    case None => None
    case Some((isRep, e)) =>
      if isRep == 1 then DecodeRep(e, state, reps, f) else DecodeNewMatch(e, state, reps, f)
  }

  /** Byte-by-byte copy from `distance` back, so a copy may overlap itself. */
  function CopyMatch(out: seq<Byte>, distance: nat, length: nat): (r: seq<Byte>)
    requires 1 <= distance <= |out|
    ensures |r| == |out| + length && out <= r
    decreases length
  {
    if length == 0 then out else CopyMatch(out + [out[|out| - distance]], distance, length - 1)
  }

  datatype Session = Session(d: Decoder, out: seq<Byte>, state: State, reps: Reps)

  /** Right after a match the latest distance is known to lie in the output. */
  predicate Safe(s: Session) {
    s.state >= 7 ==> 1 <= s.reps[0] <= |s.out|
  }

  /** The copy refuses a distance outside the output and a length past the end. */
  function Copy(s: Session, c: Copying, d: Decoder, size: nat): (r: Option<Session>)
    requires |s.out| < size
    ensures r.Some? ==> Safe(r.value) && s.out <= r.value.out && |r.value.out| == |s.out| + c.length <= size
  {
    if 1 <= c.reps[0] <= |s.out| && c.length <= size - |s.out|
    then Some(Session(d, CopyMatch(s.out, c.reps[0], c.length), c.state, c.reps))
    else None
  }

  function DecodeLiteralToken(d: Decoder, s: Session, f: seq<Byte>): (r: Option<(Byte, Decoder)>)
    requires Safe(s)
  {
    RootFits(8);
    EightBits();
    var previous: int := if s.out == [] then 0 else s.out[|s.out| - 1];
    var index := LITERAL + previous / 64 * 768;
    var matched := if s.state >= 7 then s.out[|s.out| - s.reps[0]] else 0;
    match DecodeLiteral(d, index, 1, MatchedOffset(s.state), matched, 8, f)
    case None => None
    case Some((leaf, e)) => Some((leaf - 256, e))
  }

  lemma EightBits()
    ensures Shifted(1, 8) == 256 == Pow2(8) && Shifted(2, 8) == 512
  {
  }

  function DecodeToken(s: Session, size: nat, f: seq<Byte>): (r: Option<Session>)
    requires Safe(s) && |s.out| < size
    ensures r.Some? ==> Safe(r.value) && s.out < r.value.out && |r.value.out| <= size
  {
    match DecodeBit(s.d, 16 * s.state, f)
    case None => None
    case Some((isMatch, e)) =>
      if isMatch == 0 then
        match DecodeLiteralToken(e, s, f)
        case None => None
        case Some((b, e')) => Some(Session(e', s.out + [b], AfterLiteral(s.state), s.reps))
      else
        match DecodeMatch(e, s.state, s.reps, f)
        case None => None
        case Some((c, e')) => Copy(s, c, e', size)
  }

  /** Turns of the main loop until `size` bytes are out. */
  function DecodeTokens(s: Session, size: nat, f: seq<Byte>): (r: Option<Session>)
    requires Safe(s) && |s.out| <= size
    ensures r.Some? ==> |r.value.out| == size && s.out <= r.value.out
    decreases size - |s.out|
  {
    if |s.out| == size then Some(s) else
      match DecodeToken(s, size, f)
      case None => None
      case Some(s') => DecodeTokens(s', size, f)
  }
}
