/**
 CRC-32 as the repository computes it twice: a bit at a time in the installer,
 a nibble at a time from a sixteen-entry table in the packer and the boot decoder.
 */
module Checksum {
  import opened Bytes

  const POLYNOMIAL: bv32 := 0xedb8_8320

  function BitStep(crc: bv32): bv32 {
    if crc & 1 == 1 then (crc >> 1) ^ POLYNOMIAL else crc >> 1
  }

  function BitSteps(crc: bv32, n: nat): bv32 {
    if n == 0 then crc else BitStep(BitSteps(crc, n - 1))
  }

  function Mixed(crc: bv32, b: Byte): bv32 {
    crc ^ b as bv32
  }

  function ByteStep(crc: bv32, b: Byte): bv32 {
    BitSteps(Mixed(crc, b), 8)
  }

  /** The register after a whole byte string. */
  function Update(crc: bv32, s: seq<Byte>): bv32 {
    if s == [] then crc else ByteStep(Update(crc, s[..|s| - 1]), s[|s| - 1])
  }

  /** The checksum: register preset to ones, result complemented. */
  function Crc(s: seq<Byte>): bv32 {
    !Update(0xffff_ffff, s)
  }

  function Crc32(s: seq<Byte>): U32 {
    Crc(s) as int
  }

  /** A register carried over a cut gives the register of the whole. */
  lemma {:induction false} UpdateConcat(crc: bv32, a: seq<Byte>, b: seq<Byte>)
    ensures Update(crc, a + b) == Update(Update(crc, a), b)
    decreases |b|
  {
    hide ByteStep;
    if b == [] {
      assert a + b == a;
    } else {
      var s := a + b;
      assert s[..|s| - 1] == a + b[..|b| - 1];
      UpdateConcat(crc, a, b[..|b| - 1]);
    }
  }

  /** The packer's table. */
  function Table(n: bv32): bv32 {
    if n == 0 then 0x0000_0000 else if n == 1 then 0x1db7_1064
    else if n == 2 then 0x3b6e_20c8 else if n == 3 then 0x26d9_30ac
    else if n == 4 then 0x76dc_4190 else if n == 5 then 0x6b6b_51f4
    else if n == 6 then 0x4db2_6158 else if n == 7 then 0x5005_713c
    else if n == 8 then 0xedb8_8320 else if n == 9 then 0xf00f_9344
    else if n == 10 then 0xd6d6_a3e8 else if n == 11 then 0xcb61_b38c
    else if n == 12 then 0x9b64_c2b0 else if n == 13 then 0x86d3_d2d4
    else if n == 14 then 0xa00a_e278 else 0xbdbd_f21c
  }

  function NibbleStep(crc: bv32): bv32 {
    (crc >> 4) ^ Table(crc & 15)
  }

  /** Two bits at a time. */
  function PairStep(crc: bv32): bv32 {
    var low := crc & 3;
    if low == 0 then crc >> 2
    else if low == 1 then (crc >> 2) ^ 0x76dc_4190
    else if low == 2 then (crc >> 2) ^ 0xedb8_8320
    else (crc >> 2) ^ 0x9b64_c2b0
  }

  lemma PairIsTwoBits(crc: bv32)
    ensures BitStep(BitStep(crc)) == PairStep(crc)
  {
    if crc & 1 == 1 {
      assert BitStep(crc) == (crc >> 1) ^ POLYNOMIAL;
    } else {
      assert BitStep(crc) == crc >> 1;
    }
  }

  lemma NibbleIsTwoPairs(crc: bv32)
    ensures PairStep(PairStep(crc)) == NibbleStep(crc)
  {
    var low := crc & 3;
    if low == 0 {
      assert PairStep(crc) == crc >> 2;
    } else if low == 1 {
      assert PairStep(crc) == (crc >> 2) ^ 0x76dc_4190;
    } else if low == 2 {
      assert PairStep(crc) == (crc >> 2) ^ 0xedb8_8320;
    } else {
      assert PairStep(crc) == (crc >> 2) ^ 0x9b64_c2b0;
    }
  }

  /** One table look-up does the work of four single-bit steps. */
  lemma NibbleIsFourBits(crc: bv32)
    ensures NibbleStep(crc) == BitStep(BitStep(BitStep(BitStep(crc))))
  {
    hide BitStep, PairStep, NibbleStep;
    PairIsTwoBits(crc);
    PairIsTwoBits(BitStep(BitStep(crc)));
    NibbleIsTwoPairs(crc);
  }

  lemma TwoNibblesAreAByte(crc: bv32)
    ensures NibbleStep(NibbleStep(crc)) == BitSteps(crc, 8)
  {
    hide NibbleStep, BitStep;
    NibbleIsFourBits(crc);
    NibbleIsFourBits(NibbleStep(crc));
    assert BitSteps(crc, 0) == crc;
    assert BitSteps(crc, 2) == BitStep(BitStep(crc));
    assert BitSteps(crc, 4) == BitStep(BitStep(BitSteps(crc, 2)));
    assert BitSteps(crc, 6) == BitStep(BitStep(BitSteps(crc, 4)));
    assert BitSteps(crc, 8) == BitStep(BitStep(BitSteps(crc, 6)));
  }

  lemma UpdateSnoc(crc: bv32, s: seq<Byte>, i: nat)
    requires i < |s|
    ensures Update(crc, s[..i + 1]) == ByteStep(Update(crc, s[..i]), s[i])
  {
    hide ByteStep;
    assert s[..i + 1][..i] == s[..i];
  }

  method NibbleByte(crc: bv32, b: Byte) returns (next: bv32)
    ensures next == ByteStep(crc, b)
  {
    hide Mixed, NibbleStep, BitSteps;
    var mixed := Mixed(crc, b);
    TwoNibblesAreAByte(mixed);
    next := NibbleStep(mixed);
    next := NibbleStep(next);
  }

  /** The packer's loop. */
  method NibbleCrc(data: seq<Byte>) returns (crc: bv32)
    ensures crc == Crc(data)
  {
    hide ByteStep, Update;
    crc := 0xffff_ffff;
    assert data[..0] == [] && data[..|data|] == data;
    EmptyUpdate(crc);
    for i := 0 to |data|
      invariant crc == Update(0xffff_ffff, data[..i])
    {
      UpdateSnoc(0xffff_ffff, data, i);
      crc := NibbleByte(crc, data[i]);
    }
    crc := !crc;
  }

  lemma EmptyUpdate(crc: bv32)
    ensures Update(crc, []) == crc
  {
  }

  method BitwiseByte(crc: bv32, b: Byte) returns (next: bv32)
    ensures next == ByteStep(crc, b)
  {
    hide Mixed, BitStep;
    next := Mixed(crc, b);
    for bit := 0 to 8
      invariant next == BitSteps(Mixed(crc, b), bit)
    {
      next := BitStep(next);
    }
  }

  /** The installer's loop, over one buffer. */
  method BitwiseUpdate(start: bv32, buffer: seq<Byte>) returns (crc: bv32)
    ensures crc == Update(start, buffer)
  {
    hide ByteStep, Update;
    crc := start;
    assert buffer[..0] == [] && buffer[..|buffer|] == buffer;
    EmptyUpdate(start);
    for i := 0 to |buffer|
      invariant crc == Update(start, buffer[..i])
    {
      UpdateSnoc(start, buffer, i);
      crc := BitwiseByte(crc, buffer[i]);
    }
  }
}
