/**
 The packer's range encoder: 33-bit low end, one cached byte, and a run of
 pending 255s that a late carry would turn into zeros.

 The object is proved to represent the carry-free `RangeCoder.Coder` at every
 step, and to leave behind exactly that coder's low end in big-endian bytes.
 */
module RangeEncoder {
  import opened Bytes
  import opened RangeCoder

  /** Settled bytes followed by the ones whose value still waits for a carry. */
  ghost function Waiting(coded: seq<Byte>, cache: Byte, pending: nat): seq<Byte>
    requires pending >= 1
  {
    coded + [cache] + Repeat(255, pending - 1)
  }

  /** Bytes that settle when the carry is known to be `carry`. */
  ghost function Settling(cache: Byte, carry: Bit, count: nat): (s: seq<Byte>)
    ensures |s| == count
  {
    if count == 0 then [] else [(cache + carry) % 256] + Repeat((255 + carry) % 256, count - 1)
  }

  lemma SettlingSnoc(cache: Byte, carry: Bit, count: nat)
    ensures Settling(cache, carry, count + 1)
         == Settling(cache, carry, count) + [((if count == 0 then cache else 255) + carry) % 256]
  {
    if count != 0 {
      var b := (255 + carry) % 256;
      assert Repeat(b, count) == Repeat(b, count - 1) + [b];
    }
  }

  /** A carry is absorbed by the cached byte, and never arrives when that byte is 255. */
  predicate RoomForCarry(low: nat, width: nat, cache: Byte) {
    low + width <= TWO33 && (cache == 255 ==> low + width <= TWO32)
  }

  /** 256^n. */
  ghost function Pow256(n: nat): nat {
    if n == 0 then 1 else 256 * Pow256(n - 1)
  }

  lemma Pow256Positive(n: nat)
    ensures Pow256(n) >= 1
  {
  }

  /**
   `RoomForCarry` is the statement about the whole pending run: the cached byte
   and its 255s, followed by any point of the interval, still fit in `pending`
   bytes and a word.
   */
  lemma RoomForCarryIsNoOverflow(low: nat, width: nat, cache: Byte, pending: nat)
    requires pending >= 1 && low + width <= TWO33
    ensures RoomForCarry(low, width, cache)
       <==> (cache * Pow256(pending - 1) + Pow256(pending - 1) - 1) * TWO32 + low + width
              <= Pow256(pending) * TWO32
  {
    var p, limit := Pow256(pending - 1), Pow256(pending);
    Pow256Positive(pending - 1);
    CacheScaled(cache, p);
    var x := cache * p + p - 1;
    assert limit == 256 * p;
    assert if cache == 255 then x + 1 == limit else x + 2 <= limit;
  }

  lemma CacheScaled(cache: Byte, p: nat)
    ensures if cache == 255 then cache * p == 255 * p else cache * p <= 254 * p
  {
  }

  lemma SnocKeepsCarry(a: seq<Byte>, b: seq<Byte>, carry: Bit)
    requires Number(a) == Number(b) + carry
    ensures Number(a + [(255 + carry) % 256]) == Number(b + [255]) + carry
  {
    NumberSnoc(a, (255 + carry) % 256);
    NumberSnoc(b, 255);
  }

  /** Settling the run adds the carry to the number it spells, whatever its length. */
  lemma {:induction false} SettlingAddsCarry(coded: seq<Byte>, cache: Byte, carry: Bit, pending: nat)
    requires pending >= 1 && cache + carry <= 255
    ensures Number(coded + Settling(cache, carry, pending)) == Number(Waiting(coded, cache, pending)) + carry
  {
    hide Number;
    if pending == 1 {
      assert coded + Settling(cache, carry, pending) == coded + [cache + carry];
      assert Waiting(coded, cache, pending) == coded + [cache];
      NumberSnoc(coded, cache + carry);
      NumberSnoc(coded, cache);
    } else {
      var done, waiting := coded + Settling(cache, carry, pending - 1), Waiting(coded, cache, pending - 1);
      SettlingAddsCarry(coded, cache, carry, pending - 1);
      SettlingSnoc(cache, carry, pending - 1);
      assert coded + Settling(cache, carry, pending) == done + [(255 + carry) % 256];
      assert Waiting(coded, cache, pending) == waiting + [255];
      SnocKeepsCarry(done, waiting, carry);
    }
  }

  /** One shift of the number scales it by 256, carry and outgoing byte included. */
  lemma ShiftScales(number: nat, low: nat, width: nat)
    requires low + width <= TWO33 && width >= 1
    ensures var low32, carry := low % TWO32, low / TWO32;
            && carry <= 1
            && low % TWO24 * 256 == low32 * 256 % TWO32
            && 256 * (number * TWO32 + low)
                 == (256 * (number + carry) + low32 / TWO24) * TWO32 + low % TWO24 * 256
  {
    var low32, carry := low % TWO32, low / TWO32;
    var top, rest := low32 / TWO24, low32 % TWO24;
    assert low == carry * TWO32 + top * TWO24 + rest;
    assert low % TWO24 == rest;
  }

  /** The room for a carry survives a shift, on both of its branches. */
  lemma ShiftKeepsRoom(low: nat, width: nat, cache: Byte)
    requires RoomForCarry(low, width, cache) && 1 <= width <= TWO24
    ensures var low32, carry := low % TWO32, low / TWO32;
            if low32 < 0xff00_0000 || carry != 0
            then cache + carry <= 255 && RoomForCarry(low % TWO24 * 256, 256 * width, low32 / TWO24)
            else low32 / TWO24 == 255 && RoomForCarry(low % TWO24 * 256, 256 * width, cache)
  {
    var low32, carry := low % TWO32, low / TWO32;
    var top, rest := low32 / TWO24, low32 % TWO24;
    assert low == carry * TWO32 + top * TWO24 + rest;
    assert low % TWO24 == rest;
  }

  /** `n` times 256^i, for the closing shifts. */
  ghost function Scaled(n: nat, i: nat): nat
    requires i <= 5
  {
    match i
    case 0 => n
    case 1 => 0x100 * n
    case 2 => 0x1_0000 * n
    case 3 => 0x100_0000 * n
    case 4 => 0x1_0000_0000 * n
    case 5 => 0x100_0000_0000 * n
  }

  /** After `i` closing shifts the low `i` bytes are zero. */
  ghost predicate Drained(low: nat, i: nat)
    requires i <= 5
  {
    match i
    case 0 => true
    case 1 => low < TWO32 && low % 0x100 == 0
    case 2 => low < TWO32 && low % 0x1_0000 == 0
    case 3 => low < TWO32 && low % 0x100_0000 == 0
    case 4 => low == 0
    case 5 => low == 0
  }

  lemma DivideTwice(n: nat, a: nat, b: nat)
    requires (a, b) == (0x100, 0x1_0000) || (a, b) == (0x1_0000, 0x100)
    requires n % a == 0
    ensures n % TWO24 == a * (n / a % b)
  {
    var k := n / a;
    var q, r := k / b, k % b;
    assert n == a * k && k == b * q + r;
    DivModUnique(n, TWO24, q, a * r);
  }

  /** A shift after `a` has divided what is left: 256 times `a` divides what comes of it. */
  lemma DrainedByte(low: nat, a: nat, b: nat)
    requires (a, b) == (1, 0x100_0000) || (a, b) == (0x100, 0x1_0000) || (a, b) == (0x1_0000, 0x100)
    requires low % a == 0
    ensures low % TWO24 * 256 < TWO32 && low % TWO24 * 256 % (256 * a) == 0
  {
    var x := if a == 1 then low % TWO24 else low / a % b;
    assert x < b;
    if a > 1 {
      DivideTwice(low, a, b);
    }
    assert low % TWO24 == a * x;
    assert low % TWO24 * 256 == x * (256 * a);
    DivModUnique(low % TWO24 * 256, 256 * a, x, 0);
  }

  lemma DrainedMore(low: nat, i: nat)
    requires i < 5 && Drained(low, i)
    ensures Drained(low % TWO24 * 256, i + 1)
  {
    if i == 0 {
      DrainedByte(low, 1, 0x100_0000);
    } else if i == 1 {
      DrainedByte(low, 0x100, 0x1_0000);
    } else if i == 2 {
      DrainedByte(low, 0x1_0000, 0x100);
    } else {
      assert low % TWO24 == 0;
    }
  }

  class Encoder {
    var data: seq<Byte>
    var low: nat
    var range: nat
    var pending: nat
    var cache: Byte
    const probs: array<Prob>

    // What the object stands for.
    ghost var header: seq<Byte>   // bytes put before coding started
    ghost var ops: seq<Op>        // steps coded so far
    ghost var lowEnd: nat         // low end of the interval, as one number
    ghost var shifts: nat         // shifts made so far

    /** The bytes, the cache and the pending run spell out `lowEnd`. */
    ghost predicate Represents()
      reads this
    {
      && pending >= 1
      && header <= data
      && var w := Waiting(data[|header|..], cache, pending);
         |w| == shifts + 1 && lowEnd == Number(w) * TWO32 + low
    }

    ghost predicate Valid()
      reads this, probs
    {
      && Represents()
      && RoomForCarry(low, range, cache)
      && probs.Length == PROBS && TWO24 <= range < TWO32
      && Now() == Run(Start(), ops)
    }

    /** The carry-free coder state this object is in. */
    ghost function Now(): Coder
      reads this, probs
      requires probs.Length == PROBS && TWO24 <= range < TWO32
    {
      Coder(lowEnd, range, shifts, probs[..])
    }

    constructor ()
      ensures Valid() && fresh(probs)
      ensures data == header == [] && ops == [] && shifts == 0
    {
      data := [];
      low, range, pending, cache := 0, TWO32 - 1, 1, 0;
      probs := new Prob[PROBS](_ => 1024);
      header, ops, lowEnd, shifts := [], [], 0, 0;
      new;
      assert Waiting([], 0, 1) == [0];
      assert Value([0], 1) == 256 * Value([0], 0) + 0;
      assert probs[..] == Start().probs;
    }

    /** Header bytes go straight to the output while nothing has been coded. */
    method Put32(value: U32)
      requires Valid() && ops == [] && data == header && shifts == 0
      modifies this`data, this`header
      ensures Valid() && data == header == old(data) + LittleEndian32(value)
    {
      ghost var before := data[|header|..];
      data := data + LittleEndian32(value);
      header := data;
      assert data[|header|..] == before == [];
    }

    /**
     Moves the top byte of `low` out. Bytes settle once no later carry can reach
     them; otherwise one more 255 joins the pending run.
     */
    method ShiftLow(ghost width: nat)
      requires Represents() && 1 <= width <= TWO24
      requires RoomForCarry(low, width, cache)
      modifies this`data, this`low, this`pending, this`cache, this`lowEnd, this`shifts
      ensures Represents() && RoomForCarry(low, 256 * width, cache)
      ensures lowEnd == 256 * old(lowEnd) && shifts == old(shifts) + 1
      ensures low == old(low) % TWO24 * 256
      ensures old(low) % TWO32 < 0xff00_0000 ==> pending == 1 && cache == old(low) % TWO32 / TWO24
      ensures old(data) <= data
    {
      assert low + width <= TWO33;
      hide RoomForCarry, Settling, Number;
      var low32: U32, carry := low % TWO32, low / TWO32;
      ghost var coded := data[|header|..];
      ghost var waiting := Waiting(coded, cache, pending);
      ShiftScales(Number(waiting), low, width);
      ShiftKeepsRoom(low, width, cache);
      if low32 < 0xff00_0000 || carry != 0 {
        SettlingAddsCarry(coded, cache, carry, pending);
        ghost var settled := coded + Settling(cache, carry, pending);
        Settle(carry);
        cache := low32 / TWO24;
        NumberSnoc(settled, cache);
        waiting := settled + [cache];
        assert data[|header|..] == settled;
      } else {
        NumberSnoc(waiting, 255);
        waiting := waiting + [255];
      }
      assert waiting == Waiting(data[|header|..], cache, pending + 1);
      pending := pending + 1;
      low := low32 * 256 % TWO32;
      lowEnd := 256 * lowEnd;
      shifts := shifts + 1;
    }

    /** Emits the cached byte and its run of 255s, all of them raised by the carry. */
    method Settle(carry: Bit)
      requires pending >= 1
      modifies this`data, this`pending
      ensures data == old(data) + Settling(cache, carry, old(pending)) && pending == 0
    {
      var value: int := cache;
      var more := true;
      ghost var run, before, done := pending, data, [];
      while more
        invariant pending + |done| == run && more == (pending != 0)
        invariant value == if done == [] then cache else 255
        invariant done == Settling(cache, carry, |done|)
        invariant data == before + done
        decreases pending
      {
        SettlingSnoc(cache, carry, |done|);
        var b: Byte := (value + carry) % 256;
        data := data + [b];
        done := done + [b];
        value := 255;
        pending := pending - 1;
        more := pending != 0;
      }
    }

    /** The same, while a shift may still be due. */
    ghost function NowPart(): Part
      reads this, probs
      requires probs.Length == PROBS && TWO16 <= range < TWO32
    {
      Part(lowEnd, range, shifts, probs[..])
    }

    method Normalise()
      requires probs.Length == PROBS && TWO16 <= range < TWO32
      requires Represents() && RoomForCarry(low, range, cache)
      modifies this`data, this`low, this`range, this`pending, this`cache, this`lowEnd, this`shifts
      ensures Represents() && RoomForCarry(low, range, cache)
      ensures TWO24 <= range < TWO32 && Now() == Normalised(old(NowPart()))
    {
      if range < TWO24 {
        ShiftLow(range);
        range := range * 256;
      }
    }

    /** The part of the interval that belongs to `bit` under context `index`. */
    method Split(index: Index, bit: Bit)
      requires probs.Length == PROBS && TWO24 <= range < TWO32
      requires Represents() && RoomForCarry(low, range, cache)
      modifies this`low, this`range, this`lowEnd, probs
      ensures Represents() && RoomForCarry(low, range, cache)
      ensures TWO16 <= range < TWO32 && NowPart() == Narrow(old(Now()), Modelled(index, bit))
    {
      var p: int := probs[index];
      var bound := range / 2048 * p;
      BoundSplits(range, p);
      if bit == 0 {
        range := bound;
        probs[index] := p + (2048 - p) / 32;
      } else {
        low := low + bound;
        lowEnd := lowEnd + bound;
        range := range - bound;
        probs[index] := p - p / 32;
      }
    }

    method EncodeBit(index: Index, bit: Bit)
      requires Valid()
      modifies this`data, this`low, this`range, this`pending, this`cache, this`lowEnd, this`shifts, this`ops, probs
      ensures Valid() && ops == old(ops) + [Modelled(index, bit)]
    {
      hide Run, Narrow, Normalised;
      Split(index, bit);
      Normalise();
      RunSnoc(Start(), ops, Modelled(index, bit));
      ops := ops + [Modelled(index, bit)];
    }

    /** One equiprobable bit, as the distance code emits its middle bits. */
    method EncodeDirect(bit: Bit)
      requires Valid()
      modifies this`data, this`low, this`range, this`pending, this`cache, this`lowEnd, this`shifts, this`ops
      ensures Valid() && ops == old(ops) + [Direct(bit)]
    {
      hide Run, Normalised;
      range := range / 2;
      if bit == 1 {
        low := low + range;
        lowEnd := lowEnd + range;
      }
      Normalise();
      RunSnoc(Start(), ops, Direct(bit));
      ops := ops + [Direct(bit)];
    }

    /** The five closing shifts push the whole low end out, and nothing is left waiting. */
    method Flush()
      requires Represents() && RoomForCarry(low, 1, cache)
      modifies this`data, this`low, this`pending, this`cache, this`lowEnd, this`shifts
      ensures Represents() && pending == 1 && cache == 0 && low == 0
      ensures lowEnd == 0x100_0000_0000 * old(lowEnd) && shifts == old(shifts) + 5
    {
      ghost var before := lowEnd;
      for i := 0 to 5
        invariant Represents() && RoomForCarry(low, 1, cache)
        invariant shifts == old(shifts) + i
        invariant lowEnd == Scaled(before, i) && Drained(low, i)
        invariant i == 5 ==> pending == 1 && cache == 0
      {
        DrainedMore(low, i);
        ShiftLow(1);
      }
    }

    /** The coded bytes are the coder's low end: shifts + 5 bytes, most significant first. */
    method Finish()
      requires Valid()
      modifies this`data, this`low, this`pending, this`cache, this`lowEnd, this`shifts
      ensures pending == 1 && cache == 0 && low == 0
      ensures var c := Run(Start(), ops);
              && header <= data
              && |data| == |header| + c.shifts + 5
              && Number(data[|header|..]) == c.low
    {
      Flush();
      ghost var coded := data[|header|..];
      assert Waiting(coded, 0, 1) == coded + [0];
      NumberSnoc(coded, 0);
    }
  }
}
