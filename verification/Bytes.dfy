/** Bytes, machine words and the two byte orders the packed stream uses. */
module Bytes {

  type Byte = b: int | 0 <= b < 256

  type Bit = b: int | 0 <= b <= 1

  const TWO8 := 0x100
  const TWO16 := 0x1_0000
  const TWO24 := 0x100_0000
  const TWO32 := 0x1_0000_0000
  const TWO33 := 0x2_0000_0000

  const TWO64 := 0x1_0000_0000_0000_0000

  type U32 = x: int | 0 <= x < TWO32

  type U64 = x: int | 0 <= x < TWO64

  /** 2^n. */
  function Pow2(n: nat): (p: nat)
    ensures p >= 1
  {
    if n == 0 then 1 else 2 * Pow2(n - 1)
  }

  /** Bit `i` of `value`, as `(value >> i) & 1`. */
  function BitOf(value: nat, i: nat): Bit {
    if i == 0 then value % 2 else BitOf(value / 2, i - 1)
  }

  /** What bit `i` contributes to `value`. */
  function Weight(bit: Bit, i: nat): nat {
    if bit == 1 then Pow2(i) else 0
  }

  /** The low `k` bits of `value`. */
  function LowBits(value: nat, k: nat): nat {
    if k == 0 then 0 else Weight(BitOf(value, k - 1), k - 1) + LowBits(value, k - 1)
  }

  lemma {:induction false} LowBitsHalve(value: nat, k: nat)
    ensures LowBits(value, k + 1) == 2 * LowBits(value / 2, k) + value % 2
  {
    if k > 0 { LowBitsHalve(value, k - 1); }
  }

  lemma {:induction false} LowBitsWhole(value: nat, k: nat)
    requires value < Pow2(k)
    ensures LowBits(value, k) == value
  {
    if k > 0 {
      LowBitsHalve(value, k - 1);
      LowBitsWhole(value / 2, k - 1);
    }
  }

  /** A remainder from that of the half. */
  lemma ModOfHalf(value: nat, m: nat)
    requires m > 0
    ensures value % (2 * m) == 2 * (value / 2 % m) + value % 2
  {
    var half, bit := value / 2, value % 2;
    var q, r := half / m, half % m;
    assert half == q * m + r && value == 2 * half + bit;
    assert q * (2 * m) == 2 * (q * m);
    DivModUnique(value, 2 * m, q, 2 * r + bit);
  }

  lemma LowBits1(value: nat)
    ensures LowBits(value, 1) == value % 2
  {
    LowBitsHalve(value, 0);
  }

  lemma LowBits2(value: nat)
    ensures LowBits(value, 2) == value % 4
  {
    hide LowBits;
    LowBitsHalve(value, 1);
    LowBits1(value / 2);
    ModOfHalf(value, 2);
  }

  lemma LowBits3(value: nat)
    ensures LowBits(value, 3) == value % 8
  {
    hide LowBits;
    LowBitsHalve(value, 2);
    LowBits2(value / 2);
    ModOfHalf(value, 4);
  }

  lemma LowBits4(value: nat)
    ensures LowBits(value, 4) == value % 16
  {
    hide LowBits;
    LowBitsHalve(value, 3);
    LowBits3(value / 2);
    ModOfHalf(value, 8);
  }

  /** The number spelled by the first `k` bytes of `s`, most significant first. */
  ghost function Value(s: seq<Byte>, k: nat): nat
    requires k <= |s|
  {
    if k == 0 then 0 else 256 * Value(s, k - 1) + s[k - 1]
  }

  /** The number spelled by all of `s`. */
  ghost function Number(s: seq<Byte>): nat {
    Value(s, |s|)
  }

  /** `k` copies of `b`. */
  ghost function Repeat(b: Byte, k: nat): (s: seq<Byte>)
    ensures |s| == k
    ensures forall i :: 0 <= i < k ==> s[i] == b
  {
    if k == 0 then [] else Repeat(b, k - 1) + [b]
  }

  /** Little-endian 32-bit field, as `put32` writes it. */
  function LittleEndian32(x: U32): (s: seq<Byte>)
    ensures |s| == 4
  {
    [x % 256, x / 256 % 256, x / 65536 % 256, x / TWO24]
  }

  /** Little-endian 32-bit load of four bytes starting at `i`. */
  function Read32(s: seq<Byte>, i: nat): U32
    requires i + 4 <= |s|
  {
    s[i] + 256 * s[i + 1] + 65536 * s[i + 2] + TWO24 * s[i + 3]
  }

  lemma BytesOf32(x: U32)
    ensures x % 256 + TWO8 * (x / 256 % 256) + TWO16 * (x / 65536 % 256) + TWO24 * (x / TWO24) == x
  {
    var y := x / 256;
    var z := y / 256;
    assert x / 65536 == z && x / TWO24 == z / 256;
  }

  /** A 32-bit field survives being written and read back anywhere in a stream. */
  lemma Read32RoundTrip(x: U32, s: seq<Byte>, i: nat)
    requires i + 4 <= |s| && s[i..i + 4] == LittleEndian32(x)
    ensures Read32(s, i) == x
  {
    var f := LittleEndian32(x);
    assert s[i..i + 4][0] == f[0] && s[i..i + 4][1] == f[1] && s[i..i + 4][2] == f[2] && s[i..i + 4][3] == f[3];
    BytesOf32(x);
  }

  function LittleEndian64(x: U64): (s: seq<Byte>)
    ensures |s| == 8
  {
    LittleEndian32(x % TWO32) + LittleEndian32(x / TWO32)
  }

  function Read64(s: seq<Byte>, i: nat): U64
    requires i + 8 <= |s|
  {
    Read32(s, i) + TWO32 * Read32(s, i + 4)
  }

  lemma Read64RoundTrip(x: U64, s: seq<Byte>, i: nat)
    requires i + 8 <= |s| && s[i..i + 8] == LittleEndian64(x)
    ensures Read64(s, i) == x
  {
    var f := LittleEndian64(x);
    assert s[i..i + 4] == s[i..i + 8][..4] == f[..4] == LittleEndian32(x % TWO32);
    assert s[i + 4..i + 8] == s[i..i + 8][4..] == f[4..] == LittleEndian32(x / TWO32);
    hide LittleEndian32, Read32;
    Read32RoundTrip(x % TWO32, s, i);
    Read32RoundTrip(x / TWO32, s, i + 4);
  }

  /** The value of a prefix does not depend on what follows it. */
  lemma {:induction false} ValueOfPrefix(s: seq<Byte>, t: seq<Byte>, k: nat)
    requires k <= |s| <= |t|
    requires forall i :: 0 <= i < k ==> s[i] == t[i]
    ensures Value(s, k) == Value(t, k)
  {
    if k != 0 {
      ValueOfPrefix(s, t, k - 1);
    }
  }

  lemma NumberSnoc(s: seq<Byte>, b: Byte)
    ensures Number(s + [b]) == 256 * Number(s) + b
  {
    ValueOfPrefix(s, s + [b], |s|);
  }

  lemma {:induction false} Pow2Monotone(m: nat, n: nat)
    requires m <= n
    ensures Pow2(m) <= Pow2(n)
    decreases n
  {
    if m < n { Pow2Monotone(m, n - 1); }
  }

  lemma MulMonotone(a: nat, b: nat, x: nat)
    requires a <= b
    ensures a * x <= b * x
  {
    assert (b - a) * x >= 0;
  }

  lemma MulAtLeast(k: int, m: nat)
    requires k >= 1
    ensures k * m >= m
  {
    assert (k - 1) * m >= 0;
  }

  /** Quotient and remainder are the only pair of their kind. */
  lemma DivModUnique(n: int, m: nat, q: int, r: nat)
    requires r < m && n == q * m + r
    ensures n / m == q && n % m == r
  {
    var d, e := n / m, n % m;
    assert (d - q) * m == d * m - q * m == r - e;
    assert (q - d) * m == q * m - d * m == e - r;
    if d != q {
      MulAtLeast(if d > q then d - q else q - d, m);
    }
  }

  /** A remainder may be taken in two stages. */
  lemma ModOfMod(n: int, k: nat, m: nat)
    requires k >= 1 && m >= 1 && k * m >= 1
    ensures n % (k * m) % m == n % m
  {
    var q, r := n / (k * m), n % (k * m);
    var a, b := r / m, r % m;
    assert n == (q * k + a) * m + b by {
      assert n == q * (k * m) + r && r == a * m + b;
      assert q * (k * m) == q * k * m;
      assert (q * k + a) * m == q * k * m + a * m;
    }
    DivModUnique(n, m, q * k + a, b);
  }

  lemma ModOfSum(n: int, d: int, m: nat)
    requires m >= 1
    ensures (n % m + d) % m == (n + d) % m
  {
    var q, r := n / m, n % m;
    var a, b := (r + d) / m, (r + d) % m;
    assert n + d == (q + a) * m + b by {
      assert (q + a) * m == q * m + a * m;
    }
    DivModUnique(n + d, m, q + a, b);
  }

  /** `n << k`. */
  function Shifted(n: nat, k: nat): (r: nat)
    ensures r >= n
  {
    if k == 0 then n else 2 * Shifted(n, k - 1)
  }

  lemma {:induction false} ShiftedOne(k: nat)
    ensures Shifted(1, k) == Pow2(k) && Shifted(0, k) == 0
  {
    if k > 0 { ShiftedOne(k - 1); }
  }

  /** Shifting in a bit below, then `k` more places. */
  lemma {:induction false} ShiftedStep(n: nat, bit: Bit, k: nat)
    ensures Shifted(2 * n + bit, k) == Shifted(n, k + 1) + Weight(bit, k)
  {
    if k > 0 { ShiftedStep(n, bit, k - 1); }
  }

  lemma {:induction false} ShiftedSucc(n: nat, k: nat)
    ensures Shifted(n + 1, k) == Shifted(n, k) + Pow2(k)
  {
    if k > 0 { ShiftedSucc(n, k - 1); }
  }

  lemma {:induction false} ShiftedMonotone(n: nat, m: nat, k: nat)
    requires n <= m
    ensures Shifted(n, k) <= Shifted(m, k)
  {
    if k > 0 { ShiftedMonotone(n, m, k - 1); }
  }
}
