/**
 BLAKE2b as a stream: the compression function is a parameter, everything around it
 is modelled. The reference is section 3.3 of RFC 7693, without a key and with a
 64-byte digest.
 */
module Blake2b {
  import opened Bytes

  const BLOCK: nat := 128
  const TWO128: nat := TWO64 * TWO64

  type Chain = seq<bv64>

  /** F of the RFC: chain, block, 128-bit byte offset, final flag. */
  type Compress = (Chain, seq<Byte>, nat, bool) -> Chain

  const IV: Chain := [
    0x6a09e667f3bcc908, 0xbb67ae8584caa73b, 0x3c6ef372fe94f82b, 0xa54ff53a5f1d36f1,
    0x510e527fade682d1, 0x9b05688c2b3e6c1f, 0x1f83d9abfb41bd6b, 0x5be0cd19137e2179]

  // ----- the reference

  /** h[0..7] := IV[0..7], then h[0] ^ 0x01010000 ^ nn. */
  function Initial(): Chain {
    IV[0 := IV[0] ^ 0x0101_0000 ^ 64]
  }

  /** dd: how many blocks there are, at least one. */
  function BlockCount(n: nat): (dd: nat)
    ensures dd >= 1
  {
    if n == 0 then 1 else (n + BLOCK - 1) / BLOCK
  }

  function Zeros(n: nat): (s: seq<Byte>)
    ensures |s| == n && forall i :: 0 <= i < n ==> s[i] == 0
  {
    seq(n, _ => 0)
  }

  /** d[i]: block `i`, the last one padded with zeros. */
  function BlockOf(data: seq<Byte>, i: nat): (block: seq<Byte>)
    requires i < BlockCount(|data|)
    ensures |block| == BLOCK
  {
    if BLOCK * (i + 1) <= |data| then data[BLOCK * i..BLOCK * (i + 1)]
    else data[BLOCK * i..] + Zeros(BLOCK * (i + 1) - |data|)
  }

  /** The chain after the first `k` blocks, none of them the last. */
  ghost function Absorbed(f: Compress, data: seq<Byte>, k: nat): Chain
    requires k < BlockCount(|data|)
  {
    if k == 0 then Initial()
    else f(Absorbed(f, data, k - 1), BlockOf(data, k - 1), BLOCK * k % TWO128, false)
  }

  ghost function FinalChain(f: Compress, data: seq<Byte>): Chain {
    var dd := BlockCount(|data|);
    f(Absorbed(f, data, dd - 1), BlockOf(data, dd - 1), |data| % TWO128, true)
  }

  /** Little-endian words, first to last. */
  function ChainBytes(h: Chain): seq<Byte> {
    if h == [] then [] else ChainBytes(h[..|h| - 1]) + LittleEndian64(h[|h| - 1] as int)
  }

  ghost function Digest(f: Compress, data: seq<Byte>): seq<Byte> {
    ChainBytes(FinalChain(f, data))
  }

  /** More data leaves the chain over earlier blocks alone. */
  lemma {:induction false} AbsorbedGrows(f: Compress, data: seq<Byte>, more: seq<Byte>, k: nat)
    requires k < BlockCount(|data|)
    ensures k < BlockCount(|data + more|) && Absorbed(f, data + more, k) == Absorbed(f, data, k)
  {
    hide BlockOf;
    if k > 0 {
      AbsorbedGrows(f, data, more, k - 1);
      EarlierBlock(data, more, k - 1);
    }
  }

  lemma EarlierBlock(data: seq<Byte>, more: seq<Byte>, i: nat)
    requires i + 1 < BlockCount(|data|)
    ensures BLOCK * (i + 1) < |data|
    ensures BlockOf(data + more, i) == BlockOf(data, i) == data[BLOCK * i..BLOCK * (i + 1)]
  {
  }

  // ----- the state

  class Hasher {
    const compress: Compress
    var h: Chain
    var t0: U64
    var t1: U64
    const buf: array<Byte>
    var length: nat
    /** Set by the last compression, and never cleared. */
    var final: bool
    /** Everything hashed so far. */
    ghost var data: seq<Byte>

    ghost function Done(): nat
      reads this`data
    {
      BlockCount(|data|) - 1
    }

    /** What holds of the state even after the digest was taken. */
    ghost predicate Shaped()
      reads this`length
    {
      buf.Length == BLOCK && length <= BLOCK
    }

    /**
     All blocks but the last are compressed; the last one, 1 to 128 bytes of it once
     there is data, waits in the buffer; the counter holds the bytes compressed.
     */
    ghost predicate Valid()
      reads this, buf
    {
      && Shaped() && !final
      && h == Absorbed(compress, data, Done())
      && t0 + TWO64 * t1 == BLOCK * Done() % TWO128
      && BLOCK * Done() <= |data| && length == |data| - BLOCK * Done() <= BLOCK && (data != [] ==> length >= 1)
      && buf[..length] == data[BLOCK * Done()..]
    }

    constructor (compress: Compress)
      ensures Valid() && data == [] && this.compress == compress && fresh(buf)
    {
      this.compress := compress;
      buf := new Byte[BLOCK](_ => 0);
      t0, t1, length, final, data := 0, 0, 0, false, [];
      new;
      var words: Chain := [];
      var i := 0;
      while i < 8
        invariant 0 <= i <= 8 && words == IV[..i]
      {
        words := words + [IV[i]];
        i := i + 1;
      }
      i := 0;
      assert words == IV;
      while i < 8
        invariant 0 <= i <= 8 && words == if i == 0 then IV else Initial()
      {
        words := words[i := words[i] ^ Parameter(i)];
        i := i + 1;
      }
      h := words;
    }

    /** Adds to the two-word counter with carry. */
    method Increment(inc: U64)
      modifies this`t0, this`t1
      ensures t0 + TWO64 * t1 == (old(t0) + TWO64 * old(t1) + inc) % TWO128
    {
      CounterStep(t0, t1, inc);
      t0 := (t0 + inc) % TWO64;
      t1 := (t1 + if t0 < inc then 1 else 0) % TWO64;
    }

    /** Copies into the buffer from `at` on. */
    method Fill(at: nat, piece: seq<Byte>)
      requires at + |piece| <= buf.Length
      modifies buf
      ensures buf[..at] == old(buf[..at]) && buf[at..at + |piece|] == piece
    {
      for i := 0 to |piece|
        invariant forall j :: 0 <= j < at ==> buf[j] == old(buf[j])
        invariant forall j :: 0 <= j < i ==> buf[at + j] == piece[j]
      {
        buf[at + i] := piece[i];
      }
      assert buf[..at] == old(buf[..at]);
    }

    /** The chain and the counter stand after block `k` of `all`. */
    ghost predicate After(all: seq<Byte>, k: nat)
      reads this`h, this`t0, this`t1, this`final
    {
      && !final && k < BlockCount(|all|)
      && h == Absorbed(compress, all, k)
      && t0 + TWO64 * t1 == BLOCK * k % TWO128
    }

    /** Compresses one block that turned out not to be the last. `live`, here and below: no digest was taken yet. */
    method CompressBlock(block: seq<Byte>, ghost live: bool, ghost all: seq<Byte>, ghost k: nat)
      requires live ==> After(all, k) && k + 1 < BlockCount(|all|) && block == BlockOf(all, k)
      modifies this`h, this`t0, this`t1
      ensures live ==> After(all, k + 1)
    {
      hide BlockOf, BlockCount;
      NextCounter(k);
      Increment(BLOCK);
      h := compress(h, block, t0 + TWO64 * t1, final);
    }

    /** Compresses blocks straight from the input while more than one is left. */
    method CompressRun(input: seq<Byte>, ghost live: bool, ghost all: seq<Byte>, ghost from: nat)
      returns (rest: seq<Byte>, ghost k: nat)
      requires input != []
      requires live ==> After(all, from) && BLOCK * from < |all| && input == all[BLOCK * from..]
      modifies this`h, this`t0, this`t1
      ensures 0 < |rest| <= BLOCK
      ensures live ==> After(all, k) && BLOCK * k < |all| && rest == all[BLOCK * k..]
    {
      hide After, BlockOf, BlockCount;
      rest, k := input, from;
      while |rest| > BLOCK
        invariant rest != []
        invariant live ==> After(all, k) && BLOCK * k < |all| && rest == all[BLOCK * k..]
      {
        if live { InnerBlock(all, k); }
        CompressBlock(rest[..BLOCK], live, all, k);
        rest := rest[BLOCK..];
        k := k + 1;
      }
    }

    /** More than fits: completes the buffered block, compresses it and what follows it. */
    method Overflow(input: seq<Byte>, ghost live: bool, ghost all: seq<Byte>, ghost from: nat)
      returns (rest: seq<Byte>, ghost k: nat)
      requires Shaped() && |input| > BLOCK - length
      requires live ==> After(all, from) && all == data + input && from == Done()
      requires live ==>
                BLOCK * from <= |data| && length == |data| - BLOCK * from && buf[..length] == data[BLOCK * from..]
      modifies this`h, this`t0, this`t1, this`length, buf
      ensures length == 0 && 0 < |rest| <= BLOCK
      ensures live ==> After(all, k) && BLOCK * k < |all| && rest == all[BLOCK * k..]
    {
      hide BlockOf, BlockCount, After;
      var left := length;
      var fill := BLOCK - left;
      if live { FirstBlock(data, input, from, left); }
      length := 0;
      ghost var front := buf[..left];
      Fill(left, input[..fill]);
      assert buf[..] == front + input[..fill];
      CompressBlock(buf[..], live, all, from);
      rest, k := CompressRun(input[fill..], live, all, from + 1);
    }

    /** Keeps the last bytes, a block at most, in the buffer. */
    method Keep(rest: seq<Byte>, ghost live: bool, ghost all: seq<Byte>, ghost k: nat)
      requires Shaped() && 0 < length + |rest| <= BLOCK
      requires live ==> After(all, k) && BLOCK * k < |all| && buf[..length] + rest == all[BLOCK * k..]
      modifies this`length, this`data, buf
      ensures Shaped() && (live ==> Valid() && data == all)
    {
      hide BlockOf, BlockCount, Absorbed;
      ghost var front := buf[..length];
      Fill(length, rest);
      assert buf[..length + |rest|] == front + rest;
      length := length + |rest|;
      if live { LastBlock(all, k); }
      data := all;
    }

    /**
     Hashes more bytes. A full buffer is only compressed once more bytes arrive, since
     the last block is compressed differently. After the digest was taken nothing more
     is promised than that the state keeps its shape.
     */
    method Update(input: seq<Byte>)
      requires Shaped()
      modifies this, buf
      ensures Shaped() && final == old(final)
      ensures old(Valid()) ==> Valid() && data == old(data) + input
    {
      hide BlockOf, BlockCount, Absorbed;
      if input == [] {
        assert data + input == data;
        return;
      }
      ghost var live, all, k := Valid(), data + input, Done();
      AbsorbedGrows(compress, data, input, k);
      assert live ==> After(all, k);
      hide After;
      var rest := input;
      if |input| > BLOCK - length {
        rest, k := Overflow(input, live, all, k);
        assert buf[..0] + rest == rest;
      } else {
        assert live ==> buf[..length] + input == all[BLOCK * k..];
      }
      Keep(rest, live, all, k);
    }

    /** The counter for the last block: all of the data. */
    method CountLast()
      requires Valid()
      modifies this`t0, this`t1
      ensures t0 + TWO64 * t1 == |data| % TWO128
    {
      hide BlockOf, BlockCount, Absorbed;
      LastCounter(data, Done(), length);
      Increment(length);
    }

    /** The digest of everything hashed, as the RFC defines it. */
    method Final() returns (out: seq<Byte>)
      requires Valid()
      modifies this, buf
      ensures out == Digest(compress, old(data)) && Shaped() && final
    {
      hide BlockOf, BlockCount, Absorbed, ChainBytes;
      PaddedBlock(data, Done(), length);
      CountLast();
      ghost var front := buf[..length];
      Fill(length, Zeros(BLOCK - length));
      assert buf[..] == front + Zeros(BLOCK - length);
      final := true;
      h := compress(h, buf[..], t0 + TWO64 * t1, final);
      out := ChainBytes(h);
    }
  }

  lemma NextCounter(k: nat)
    ensures (BLOCK * k % TWO128 + BLOCK) % TWO128 == BLOCK * (k + 1) % TWO128
  {
    ModOfSum(BLOCK * k, BLOCK, TWO128);
  }

  lemma LastCounter(data: seq<Byte>, k: nat, length: nat)
    requires |data| == BLOCK * k + length
    ensures (BLOCK * k % TWO128 + length) % TWO128 == |data| % TWO128
  {
    ModOfSum(BLOCK * k, length, TWO128);
  }

  lemma FirstBlock(data: seq<Byte>, input: seq<Byte>, k: nat, left: nat)
    requires k == BlockCount(|data|) - 1 && BLOCK * k <= |data|
    requires left == |data| - BLOCK * k <= BLOCK && |input| > BLOCK - left
    ensures k + 1 < BlockCount(|data + input|) && BLOCK * (k + 1) < |data + input|
    ensures BlockOf(data + input, k) == data[BLOCK * k..] + input[..BLOCK - left]
    ensures (data + input)[BLOCK * (k + 1)..] == input[BLOCK - left..]
  {
  }

  lemma InnerBlock(all: seq<Byte>, k: nat)
    requires BLOCK * k < |all| && |all| - BLOCK * k > BLOCK
    ensures k + 1 < BlockCount(|all|) && BlockOf(all, k) == all[BLOCK * k..][..BLOCK]
    ensures all[BLOCK * k..][BLOCK..] == all[BLOCK * (k + 1)..]
  {
  }

  lemma LastBlock(all: seq<Byte>, k: nat)
    requires all != [] && BLOCK * k < |all| <= BLOCK * (k + 1)
    ensures k == BlockCount(|all|) - 1
  {
  }

  lemma PaddedBlock(data: seq<Byte>, k: nat, length: nat)
    requires k == BlockCount(|data|) - 1 && BLOCK * k <= |data| && length == |data| - BLOCK * k <= BLOCK
    ensures BlockOf(data, k) == data[BLOCK * k..] + Zeros(BLOCK - length)
  {
    if length == BLOCK {
      assert data[BLOCK * k..] + Zeros(0) == data[BLOCK * k..BLOCK * (k + 1)];
    }
  }

  // ----- one shot and streaming

  method Hash(compress: Compress, input: seq<Byte>) returns (out: seq<Byte>)
    ensures out == Digest(compress, input)
  {
    var state := new Hasher(compress);
    state.Update(input);
    assert [] + input == input;
    out := state.Final();
  }

  function Joined(pieces: seq<seq<Byte>>): seq<Byte> {
    if pieces == [] then [] else Joined(pieces[..|pieces| - 1]) + pieces[|pieces| - 1]
  }

  /** However the input is cut, the digest is that of the whole. */
  method HashPieces(compress: Compress, pieces: seq<seq<Byte>>) returns (out: seq<Byte>)
    ensures out == Digest(compress, Joined(pieces))
  {
    var state := new Hasher(compress);
    for i := 0 to |pieces|
      invariant state.Valid() && state.compress == compress && fresh(state) && fresh(state.buf)
      invariant state.data == Joined(pieces[..i])
    {
      assert pieces[..i + 1][..i] == pieces[..i];
      state.Update(pieces[i]);
    }
    assert pieces[..|pieces|] == pieces;
    out := state.Final();
  }

  /** The parameter block, as words. */
  function Parameter(i: nat): bv64 {
    if i == 0 then 0x0101_0040 else 0
  }

  lemma CounterStep(t0: U64, t1: U64, inc: U64)
    ensures var a := (t0 + inc) % TWO64;
            var b := (t1 + if a < inc then 1 else 0) % TWO64;
            a + TWO64 * b == (t0 + TWO64 * t1 + inc) % TWO128
  {
    var a := (t0 + inc) % TWO64;
    var carry := if a < inc then 1 else 0;
    assert t0 + inc == a + TWO64 * carry;
    var b := (t1 + carry) % TWO64;
    var c := (t1 + carry) / TWO64;
    assert t0 + TWO64 * t1 + inc == c * TWO128 + (a + TWO64 * b);
    DivModUnique(t0 + TWO64 * t1 + inc, TWO128, c, a + TWO64 * b);
  }
}
