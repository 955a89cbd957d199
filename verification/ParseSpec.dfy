/**
 What the packer's parse promises: a cheapest way to cut the data into literals
 and matches, when a match may reach back to one of the 128 nearest earlier
 positions that start with the same two bytes.
 */
module ParseSpec {
  import opened Bytes
  import opened Symbols
  import opened Tokens

  const CHAIN_LIMIT: nat := 128

  /** Positions `p` and `q` start with the same two bytes. */
  predicate SamePair(data: seq<Byte>, p: nat, q: nat) {
    p + 1 < |data| && q + 1 < |data| && data[p] == data[q] && data[p + 1] == data[q + 1]
  }

  /** How many positions in [lo, pos) start like `pos`. */
  ghost function Alike(data: seq<Byte>, pos: nat, lo: nat): nat
    requires lo <= pos
    decreases pos - lo
  {
    if lo == pos then 0 else (if SamePair(data, lo, pos) then 1 else 0) + Alike(data, pos, lo + 1)
  }

  /** `q` is one of the nearest earlier positions that start like `pos`. */
  ghost predicate InReach(data: seq<Byte>, pos: nat, q: nat) {
    q < pos && SamePair(data, q, pos) && Alike(data, pos, q + 1) < CHAIN_LIMIT
  }

  // ----- prices

  function DistancePrice(distance: nat): nat
    requires distance >= 1
  {
    6 + SlotBits(distance - 1)
  }

  function LengthPrice(length: nat): nat {
    if length < 10 then 4 else if length < 18 then 5 else 10
  }

  function MatchPrice(length: nat, distance: nat): nat
    requires distance >= 1
  {
    2 + DistancePrice(distance) + LengthPrice(length)
  }

  lemma {:induction false} SlotBitsMonotone(a: nat, b: nat)
    requires a <= b
    ensures SlotBits(a) <= SlotBits(b)
  {
    if a >= 4 { SlotBitsMonotone(a / 2, b / 2); }
  }

  /** A farther match of the same length never costs less. */
  lemma PriceMonotone(length: nat, near: nat, far: nat)
    requires 1 <= near <= far
    ensures MatchPrice(length, near) <= MatchPrice(length, far)
  {
    SlotBitsMonotone(near - 1, far - 1);
  }

  // ----- parses

  ghost predicate Allowed(data: seq<Byte>, pos: nat, c: Choice) {
    ValidChoice(data, pos, c) && (c.length >= 2 ==> InReach(data, pos, pos - c.distance))
  }

  function StepPrice(c: Choice): nat {
    if c.length < 2 || c.distance == 0 then 9 else MatchPrice(c.length, c.distance)
  }

  ghost predicate IsParse(data: seq<Byte>, pos: nat, steps: seq<Choice>)
    decreases |steps|
  {
    if steps == [] then pos == |data|
    else Allowed(data, pos, steps[0]) && IsParse(data, pos + steps[0].length, steps[1..])
  }

  function Price(steps: seq<Choice>): nat {
    if steps == [] then 0 else StepPrice(steps[0]) + Price(steps[1..])
  }

  /** `cost` is the price of some parse of the suffix, and of no dearer than any. */
  ghost predicate Least(data: seq<Byte>, pos: nat, cost: nat) {
    && (exists steps :: IsParse(data, pos, steps) && Price(steps) == cost)
    && (forall steps :: IsParse(data, pos, steps) ==> cost <= Price(steps))
  }

  // ----- from local to global

  /** No single step from `pos` undercuts `cost`, given the costs beyond. */
  ghost predicate NoCheaperStep(data: seq<Byte>, pos: nat, cost: nat, costs: seq<nat>)
    requires |costs| == |data| + 1
  {
    forall c :: Allowed(data, pos, c) ==> cost <= StepPrice(c) + costs[pos + c.length]
  }

  ghost predicate Settled(data: seq<Byte>, pos: nat, costs: seq<nat>, choices: seq<Choice>)
    requires |costs| == |data| + 1 && |choices| == |data| && pos < |data|
  {
    && Allowed(data, pos, choices[pos])
    && costs[pos] == StepPrice(choices[pos]) + costs[pos + choices[pos].length]
    && NoCheaperStep(data, pos, costs[pos], costs)
  }

  ghost predicate Optimal(data: seq<Byte>, costs: seq<nat>, choices: seq<Choice>) {
    && |costs| == |data| + 1 && |choices| == |data|
    && costs[|data|] == 0
    && forall pos :: 0 <= pos < |data| ==> Settled(data, pos, costs, choices)
  }

  lemma {:induction false} NoParseIsCheaper(data: seq<Byte>, costs: seq<nat>, choices: seq<Choice>, pos: nat,
                                            steps: seq<Choice>)
    requires Optimal(data, costs, choices) && pos <= |data| && IsParse(data, pos, steps)
    ensures costs[pos] <= Price(steps)
    decreases |steps|
  {
    if steps != [] {
      var c := steps[0];
      assert Settled(data, pos, costs, choices);
      NoParseIsCheaper(data, costs, choices, pos + c.length, steps[1..]);
    }
  }

  /** The parse that follows the stored choices. */
  ghost function Follow(data: seq<Byte>, choices: seq<Choice>, pos: nat): seq<Choice>
    requires |choices| == |data| && pos <= |data|
    requires forall p :: 0 <= p < |data| ==> ValidChoice(data, p, choices[p])
    decreases |data| - pos
  {
    if pos == |data| then [] else
      assert ValidChoice(data, pos, choices[pos]);
      [choices[pos]] + Follow(data, choices, pos + choices[pos].length)
  }

  lemma OptimalIsValid(data: seq<Byte>, costs: seq<nat>, choices: seq<Choice>)
    requires Optimal(data, costs, choices)
    ensures forall p :: 0 <= p < |data| ==> ValidChoice(data, p, choices[p])
  {
    forall p | 0 <= p < |data|
      ensures ValidChoice(data, p, choices[p])
    {
      assert Settled(data, p, costs, choices);
    }
  }

  lemma {:induction false} FollowCosts(data: seq<Byte>, costs: seq<nat>, choices: seq<Choice>, pos: nat)
    requires Optimal(data, costs, choices) && pos <= |data|
    requires forall p :: 0 <= p < |data| ==> ValidChoice(data, p, choices[p])
    ensures IsParse(data, pos, Follow(data, choices, pos))
    ensures Price(Follow(data, choices, pos)) == costs[pos]
    decreases |data| - pos
  {
    if pos < |data| {
      assert Settled(data, pos, costs, choices);
      var next := pos + choices[pos].length;
      FollowCosts(data, costs, choices, next);
      var steps := Follow(data, choices, pos);
      assert steps[1..] == Follow(data, choices, next);
    }
  }

  /** Every stored cost is the least price of any parse of that suffix. */
  lemma OptimalIsLeast(data: seq<Byte>, costs: seq<nat>, choices: seq<Choice>, pos: nat)
    requires Optimal(data, costs, choices) && pos <= |data|
    ensures Least(data, pos, costs[pos])
  {
    OptimalIsValid(data, costs, choices);
    FollowCosts(data, costs, choices, pos);
    forall steps | IsParse(data, pos, steps)
      ensures costs[pos] <= Price(steps)
    {
      NoParseIsCheaper(data, costs, choices, pos, steps);
    }
  }
}
