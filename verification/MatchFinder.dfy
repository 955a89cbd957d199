/** The packer's hash chains and its backwards pass over them. */
module MatchFinder {
  import opened Bytes
  import opened Symbols
  import opened Tokens
  import opened ParseSpec

  const HASH_SIZE: nat := 65536

  function Hash(data: seq<Byte>, pos: nat): (h: nat)
    requires pos + 1 < |data|
    ensures h < HASH_SIZE
  {
    data[pos] + TWO8 * data[pos + 1]
  }

  /** The hash is the byte pair itself, so chains never mix different pairs. */
  lemma HashIsPair(data: seq<Byte>, p: nat, q: nat)
    requires p + 1 < |data| && q + 1 < |data|
    ensures Hash(data, p) == Hash(data, q) <==> SamePair(data, p, q)
  {
  }

  /** Chain encoding: 1 + the last position below `limit` with this hash, or 0. */
  ghost function Latest(data: seq<Byte>, hash: nat, limit: nat): (r: nat)
    requires limit <= |data|
    ensures r <= limit
    ensures r > 0 ==> r < |data| && Hash(data, r - 1) == hash
    ensures forall q: nat :: r <= q < limit && q + 1 < |data| ==> Hash(data, q) != hash
  {
    if limit == 0 then 0
    else if limit < |data| && Hash(data, limit - 1) == hash then limit
    else Latest(data, hash, limit - 1)
  }

  /** The chain link of a position: 1 + the nearest earlier one that starts alike, or 0. */
  ghost function Link(data: seq<Byte>, pos: nat): (r: nat)
    requires pos + 1 < |data|
    ensures r <= pos
    ensures r > 0 ==> SamePair(data, r - 1, pos)
    ensures forall q: nat :: r <= q < pos ==> !SamePair(data, q, pos)
  {
    var r := Latest(data, Hash(data, pos), pos);
    assert r > 0 ==> SamePair(data, r - 1, pos);
    assert forall q: nat :: r <= q < pos ==> !SamePair(data, q, pos) by {
      forall q: nat | r <= q < pos
        ensures !SamePair(data, q, pos)
      {
        HashIsPair(data, q, pos);
      }
    }
    r
  }

  /** The length of the match at `distance`: as far as the bytes agree, at most 273. */
  ghost predicate IsMatchLength(data: seq<Byte>, pos: nat, distance: nat, length: nat) {
    && Matches(data, pos, distance, length) && length <= MAX_MATCH
    && (pos + length == |data| || length == MAX_MATCH || data[pos + length] != data[pos + length - distance])
  }

  lemma MatchLengthIsGreatest(data: seq<Byte>, pos: nat, distance: nat, length: nat, other: nat)
    requires IsMatchLength(data, pos, distance, length)
    requires Matches(data, pos, distance, other) && other <= MAX_MATCH
    ensures other <= length
  {
  }

  // ----- the pruned walk along a chain

  lemma {:induction false} AlikeSkips(data: seq<Byte>, pos: nat, lo: nat, hi: nat)
    requires lo <= hi <= pos
    requires forall q: nat :: lo <= q < hi ==> !SamePair(data, q, pos)
    ensures Alike(data, pos, lo) == Alike(data, pos, hi)
    decreases hi - lo
  {
    if lo < hi { AlikeSkips(data, pos, lo + 1, hi); }
  }

  lemma {:induction false} AlikeGrows(data: seq<Byte>, pos: nat, lo: nat, hi: nat)
    requires lo <= hi <= pos
    ensures Alike(data, pos, lo) >= Alike(data, pos, hi)
    decreases hi - lo
  {
    if lo < hi { AlikeGrows(data, pos, lo + 1, hi); }
  }

  /** A match of `length` bytes to position `q` would be cheaper than `best`. */
  ghost predicate Undercuts(costs: seq<nat>, pos: nat, q: nat, length: nat, best: nat)
    requires q < pos && pos + length < |costs|
  {
    MatchPrice(length, pos - q) + costs[pos + length] < best
  }

  ghost predicate MatchesAt(data: seq<Byte>, pos: nat, q: nat, length: nat) {
    q < pos && 2 <= length <= MAX_MATCH && Matches(data, pos, pos - q, length)
  }

  /** No match to a position in [limit, pos) undercuts `best`. */
  ghost predicate Visited(data: seq<Byte>, costs: seq<nat>, pos: nat, limit: nat, best: nat)
    requires |costs| == |data| + 1
  {
    forall q: nat, length: nat ::
      limit <= q && MatchesAt(data, pos, q, length) ==> !Undercuts(costs, pos, q, length, best)
  }

  /** No match of at most `longest` bytes, as far back as `limit` or farther, undercuts `best`. */
  ghost predicate Covered(costs: seq<nat>, pos: nat, limit: nat, longest: nat, best: nat)
    requires pos + longest < |costs|
  {
    && (longest >= 2 ==> limit < pos)
    && forall length: nat :: 2 <= length <= longest ==> !Undercuts(costs, pos, limit, length, best)
  }

  lemma NothingVisited(data: seq<Byte>, costs: seq<nat>, pos: nat, best: nat)
    requires |costs| == |data| + 1 && pos < |data|
    ensures Visited(data, costs, pos, pos, best) && Covered(costs, pos, pos, 1, best)
  {
  }

  /** Skipping lengths already covered is safe: an older candidate costs at least as much for them. */
  lemma CoveredFarther(costs: seq<nat>, pos: nat, limit: nat, longest: nat, best: nat, q: nat, length: nat)
    requires pos + longest < |costs| && Covered(costs, pos, limit, longest, best)
    requires q <= limit && q < pos && 2 <= length <= longest
    ensures !Undercuts(costs, pos, q, length, best)
  {
    assert !Undercuts(costs, pos, limit, length, best);
    PriceMonotone(length, pos - limit, pos - q);
  }

  /** After a candidate at `q` has been tried on every length that was not covered yet. */
  lemma VisitOne(data: seq<Byte>, costs: seq<nat>, pos: nat, limit: nat, longest: nat, q: nat, length: nat, was: nat,
                 best: nat)
    requires |costs| == |data| + 1 && q < limit <= pos && best <= was
    requires 1 <= longest <= length && pos + length <= |data|
    requires Visited(data, costs, pos, limit, was) && Covered(costs, pos, limit, longest, was)
    requires forall r: nat :: q < r < limit ==> !SamePair(data, r, pos)
    requires forall n: nat :: MatchesAt(data, pos, q, n) ==> n <= length
    requires forall n: nat :: longest < n <= length ==> !Undercuts(costs, pos, q, n, best)
    ensures Visited(data, costs, pos, q, best) && Covered(costs, pos, q, length, best)
  {
    hide MatchPrice;
    forall n: nat | 2 <= n <= length
      ensures !Undercuts(costs, pos, q, n, best)
    {
      if n <= longest { CoveredFarther(costs, pos, limit, longest, was, q, n); }
    }
    forall r: nat, n: nat | q <= r && MatchesAt(data, pos, r, n)
      ensures !Undercuts(costs, pos, r, n, best)
    {
      if r >= limit {
        assert !Undercuts(costs, pos, r, n, was);
      } else if r > q {
        MatchIsPair(data, pos, r, n);
        assert false;
      }
    }
  }

  lemma MatchIsPair(data: seq<Byte>, pos: nat, q: nat, length: nat)
    requires MatchesAt(data, pos, q, length)
    ensures SamePair(data, q, pos)
  {
    assert data[pos] == data[pos - (pos - q)] && data[pos + 1] == data[pos + 1 - (pos - q)];
  }

  /** Following a link from `q` stays on the positions that start like `pos`. */
  lemma LinkStaysOnChain(data: seq<Byte>, pos: nat, q: nat)
    requires SamePair(data, q, pos)
    ensures var next := Link(data, q);
            && (next > 0 ==> SamePair(data, next - 1, pos))
            && (forall r: nat :: next <= r < q ==> !SamePair(data, r, pos))
  {
    var next := Link(data, q);
    forall r: nat | next <= r < q
      ensures !SamePair(data, r, pos)
    {
      assert !SamePair(data, r, q);
    }
  }

  lemma MismatchStops(data: seq<Byte>, pos: nat, q: nat, longest: nat)
    requires q < pos && pos + longest < |data| && data[pos + longest] != data[q + longest]
    ensures forall n: nat :: MatchesAt(data, pos, q, n) ==> n <= longest
  {
    forall n: nat | MatchesAt(data, pos, q, n)
      ensures n <= longest
    {
      if n > longest {
        assert false;
      }
    }
  }

  lemma LengthStops(data: seq<Byte>, pos: nat, q: nat, length: nat)
    requires q < pos && IsMatchLength(data, pos, pos - q, length)
    ensures forall n: nat :: MatchesAt(data, pos, q, n) ==> n <= length
  {
    forall n: nat | MatchesAt(data, pos, q, n)
      ensures n <= length
    {
      MatchLengthIsGreatest(data, pos, pos - q, length, n);
    }
  }

  lemma PrefixMatches(data: seq<Byte>, pos: nat, q: nat, length: nat, n: nat)
    requires q < pos && Matches(data, pos, pos - q, length) && 2 <= n <= length <= MAX_MATCH
    requires InReach(data, pos, q)
    ensures Allowed(data, pos, Choice(n, pos - q))
  {
  }

  /** The walk ended because nothing was left, the limit was hit, or no longer match can exist. */
  ghost predicate WalkDone(data: seq<Byte>, pos: nat, limit: nat, longest: nat)
    requires limit <= pos
  {
    || longest == MAX_MATCH || pos + longest == |data|
    || Alike(data, pos, limit) >= CHAIN_LIMIT
    || (forall q: nat :: q < limit ==> !SamePair(data, q, pos))
  }

  lemma WalkIsEnough(data: seq<Byte>, costs: seq<nat>, pos: nat, limit: nat, longest: nat, best: nat)
    requires |costs| == |data| + 1 && pos < |data| && limit <= pos
    requires 1 <= longest <= MAX_MATCH && pos + longest <= |data|
    requires best <= 9 + costs[pos + 1]
    requires Visited(data, costs, pos, limit, best) && Covered(costs, pos, limit, longest, best)
    requires WalkDone(data, pos, limit, longest)
    ensures NoCheaperStep(data, pos, best, costs)
  {
    forall c | Allowed(data, pos, c)
      ensures best <= StepPrice(c) + costs[pos + c.length]
    {
      if c.length >= 2 {
        var q := pos - c.distance;
        assert MatchesAt(data, pos, q, c.length);
        if q >= limit {
          assert !Undercuts(costs, pos, q, c.length, best);
        } else {
          AlikeGrows(data, pos, q + 1, limit);
          assert c.length <= longest;
          CoveredFarther(costs, pos, limit, longest, best, q, c.length);
        }
      }
    }
  }

  class Finder {
    const data: seq<Byte>
    const previous: array<nat>
    const head: array<nat>

    constructor (data: seq<Byte>)
      ensures this.data == data && fresh(previous) && fresh(head) && previous != head
      ensures previous.Length == |data| && head.Length == HASH_SIZE
      ensures Linked(0)
    {
      this.data := data;
      previous := new nat[|data|];
      head := new nat[HASH_SIZE](_ => 0);
    }

    /** Positions below `limit` are chained. */
    ghost predicate Linked(limit: nat)
      reads this, previous, head
    {
      && previous != head && previous.Length == |data| && head.Length == HASH_SIZE
      && limit <= |data|
      && (forall h :: 0 <= h < HASH_SIZE ==> head[h] == Latest(data, h, limit))
      && (forall q: nat :: q < limit && q + 1 < |data| ==> previous[q] == Link(data, q))
    }

    method Insert(pos: nat)
      requires pos < |data| && Linked(pos)
      modifies previous, head
      ensures Linked(pos + 1)
    {
      if |data| - pos >= 2 {
        var hash := Hash(data, pos);
        previous[pos] := head[hash];
        head[hash] := pos + 1;
      }
    }

    /** Compares forward until the bytes differ or a limit is met. */
    method MatchLength(pos: nat, distance: nat) returns (length: nat)
      requires 1 <= distance <= pos < |data|
      ensures IsMatchLength(data, pos, distance, length)
    {
      var limit := |data| - pos;
      if limit > MAX_MATCH {
        limit := MAX_MATCH;
      }
      length := 0;
      while length < limit && data[pos + length] == data[pos - distance + length]
        invariant length <= limit && Matches(data, pos, distance, length)
      {
        length := length + 1;
      }
    }
  
    method PriceOfDistance(distance: nat) returns (price: nat)
      requires distance >= 1
      ensures price == DistancePrice(distance)
    {
      var bits := 0;
      var value := distance - 1;
      while value >= 4
        invariant value >= 0 && SlotBits(distance - 1) == bits + SlotBits(value)
      {
        value := value / 2;
        bits := bits + 1;
      }
      price := 6 + bits;
    }

    /** Tries the lengths a candidate adds; a tie goes to the later, longer match. */
    method TryLengths(pos: nat, q: nat, from: nat, upTo: nat, cost: array<nat>, was: nat, chosen: Choice)
      returns (best: nat, choice: Choice)
      requires q < pos && pos + upTo < cost.Length
      ensures best <= was
      ensures forall n: nat :: from < n <= upTo ==> !Undercuts(cost[..], pos, q, n, best)
      ensures (best, choice) == (was, chosen)
           || (from < choice.length <= upTo && choice.distance == pos - q
               && best == MatchPrice(choice.length, pos - q) + cost[pos + choice.length])
    {
      best, choice := was, chosen;
      var distance := pos - q;
      var price := PriceOfDistance(distance);
      price := 2 + price;
      var len := from + 1;
      while len <= upTo
        invariant from < len
        invariant best <= was
        invariant forall n: nat :: from < n < len && n <= upTo ==> !Undercuts(cost[..], pos, q, n, best)
        invariant (best, choice) == (was, chosen)
               || (from < choice.length < len && choice.length <= upTo && choice.distance == distance
                   && best == MatchPrice(choice.length, distance) + cost[pos + choice.length])
      {
        ghost var before := best;
        var nextCost := price + LengthPrice(len) + cost[pos + len];
        if nextCost <= best {
          best, choice := nextCost, Choice(len, distance);
        }
        forall n: nat | from < n <= len
          ensures !Undercuts(cost[..], pos, q, n, best)
        {
          if n < len { assert !Undercuts(cost[..], pos, q, n, before); }
        }
        len := len + 1;
      }
    }

    /** Tries one candidate, unless its next byte already rules out a longer match. */
    method Visit(pos: nat, q: nat, longest: nat, cost: array<nat>, was: nat, chosen: Choice)
      returns (length: nat, best: nat, choice: Choice)
      requires 1 <= longest <= MAX_MATCH && pos + longest < |data| && cost.Length == |data| + 1
      requires InReach(data, pos, q)
      requires Allowed(data, pos, chosen) && was == StepPrice(chosen) + cost[pos + chosen.length]
      ensures longest <= length <= MAX_MATCH && pos + length <= |data| && best <= was
      ensures forall n: nat :: MatchesAt(data, pos, q, n) ==> n <= length
      ensures forall n: nat :: longest < n <= length ==> !Undercuts(cost[..], pos, q, n, best)
      ensures Allowed(data, pos, choice) && best == StepPrice(choice) + cost[pos + choice.length]
    {
      length, best, choice := longest, was, chosen;
      if data[pos + longest] != data[q + longest] {
        MismatchStops(data, pos, q, longest);
      } else {
        var found := MatchLength(pos, pos - q);
        LengthStops(data, pos, q, found);
        best, choice := TryLengths(pos, q, longest, found, cost, best, choice);
        if (best, choice) != (was, chosen) {
          PrefixMatches(data, pos, q, found, choice.length);
        }
        if found > longest {
          length := found;
        }
      }
    }

    /** The cheapest step from `pos`, by walking its chain. */
    method BestAt(pos: nat, cost: array<nat>) returns (best: nat, choice: Choice)
      requires Linked(|data|) && pos < |data| && cost.Length == |data| + 1
      ensures Allowed(data, pos, choice)
      ensures best == StepPrice(choice) + cost[pos + choice.length]
      ensures NoCheaperStep(data, pos, best, cost[..])
    {
      hide Undercuts, Link, Latest, NoCheaperStep, StepPrice, Visited, Covered, MatchesAt;
      best, choice := 9 + cost[pos + 1], Choice(1, 0);
      LiteralAllowed(data, pos);
      ghost var costs := cost[..];
      var longest := 1;
      ghost var limit := pos;
      NothingVisited(data, costs, pos, best);
      if |data| - pos >= 2 {
        var candidate := previous[pos];
        var depth := 0;
        while candidate != 0 && depth < CHAIN_LIMIT
          invariant 0 <= candidate <= limit <= pos
          invariant 1 <= longest <= MAX_MATCH && pos + longest <= |data|
          invariant depth == Alike(data, pos, limit)
          invariant candidate > 0 ==> SamePair(data, candidate - 1, pos)
          invariant forall q: nat :: candidate <= q < limit ==> !SamePair(data, q, pos)
          invariant best <= 9 + costs[pos + 1]
          invariant Visited(data, costs, pos, limit, best) && Covered(costs, pos, limit, longest, best)
          invariant Allowed(data, pos, choice) && best == StepPrice(choice) + costs[pos + choice.length]
          decreases candidate
        {
          var q := candidate - 1;
          LinkStaysOnChain(data, pos, q);
          candidate := previous[q];
          if longest >= |data| - pos || longest == MAX_MATCH {
            break;
          }
          AlikeSkips(data, pos, q + 1, limit);
          ghost var was := best;
          var length;
          length, best, choice := Visit(pos, q, longest, cost, best, choice);
          assert cost[..] == costs;
          VisitOne(data, costs, pos, limit, longest, q, length, was, best);
          longest := length;
          limit := q;
          depth := depth + 1;
        }
      }
      assert WalkDone(data, pos, limit, longest);
      WalkIsEnough(data, costs, pos, limit, longest, best);
    }

    /**
     The backwards pass. Every position gets the least price of any parse of the
     rest of the data, and a first step that achieves it.
     */
    method Parse(choices: array<Choice>) returns (cost: array<nat>)
      requires Linked(0) && choices.Length == |data|
      modifies previous, head, choices
      ensures fresh(cost) && Optimal(data, cost[..], choices[..])
    {
      for pos := 0 to |data|
        invariant Linked(pos)
      {
        Insert(pos);
      }
      cost := new nat[|data| + 1];
      cost[|data|] := 0;
      var pos := |data|;
      while pos > 0
        invariant 0 <= pos <= |data| && Linked(|data|) && cost[|data|] == 0
        invariant forall p :: pos <= p < |data| ==> Settled(data, p, cost[..], choices[..])
        modifies cost, choices
      {
        pos := pos - 1;
        var best, choice := BestAt(pos, cost);
        ghost var costs, chosen := cost[..], choices[..];
        cost[pos] := best;
        choices[pos] := choice;
        SettledStep(data, pos, costs, chosen, cost[..], choices[..]);
      }
    }
  }

  lemma LiteralAllowed(data: seq<Byte>, pos: nat)
    requires pos < |data|
    ensures Allowed(data, pos, Choice(1, 0)) && StepPrice(Choice(1, 0)) == 9
  {
  }

  /** Settling one more position leaves the later ones settled. */
  lemma SettledStep(data: seq<Byte>, pos: nat, costs: seq<nat>, choices: seq<Choice>, costs': seq<nat>,
                    choices': seq<Choice>)
    requires |costs| == |data| + 1 && |choices| == |data| && pos < |data|
    requires |costs'| == |costs| && |choices'| == |choices|
    requires costs' == costs[pos := costs'[pos]] && choices' == choices[pos := choices'[pos]]
    requires Allowed(data, pos, choices'[pos])
    requires costs'[pos] == StepPrice(choices'[pos]) + costs[pos + choices'[pos].length]
    requires NoCheaperStep(data, pos, costs'[pos], costs)
    requires forall p :: pos < p < |data| ==> Settled(data, p, costs, choices)
    ensures forall p :: pos <= p < |data| ==> Settled(data, p, costs', choices')
  {
    hide InReach, StepPrice;
    forall p | pos <= p < |data|
      ensures Settled(data, p, costs', choices')
    {
      if p > pos {
        assert Settled(data, p, costs, choices);
      }
    }
  }
}
