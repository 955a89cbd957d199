/**
 The x86 branch filter. Relative operands of CALL and JMP become absolute, in
 place; a short history of rejected opcodes keeps operands that overlap an
 earlier candidate reversible. The boot decoder runs the same scan and subtracts.
 */
module BranchFilter {
  import opened Bytes

  predicate Opcode(b: Byte) {
    b == 0xe8 || b == 0xe9
  }

  /** Top bytes of a near branch: 0 forwards, 255 backwards. */
  predicate Extreme(b: int) {
    b == 0 || b == 255
  }

  // ----- the history byte

  /**
   The eight bits of the history, lowest first. `kept[g]` says that the opcode g
   places back was kept, `high[g]` that its top operand byte was extreme.
   */
  datatype History = History(kept0: bool, kept1: bool, kept2: bool, kept3: bool,
                             high0: bool, high1: bool, high2: bool, high3: bool)
  {
    predicate Kept(g: nat)
      requires g <= 3
    {
      match g case 0 => kept0 case 1 => kept1 case 2 => kept2 case 3 => kept3
    }

    predicate High(g: nat)
      requires g <= 3
    {
      match g case 0 => high0 case 1 => high1 case 2 => high2 case 3 => high3
    }

    /** The byte itself. */
    function Number(): nat {
      (if kept0 then 1 else 0) + (if kept1 then 2 else 0) + (if kept2 then 4 else 0) + (if kept3 then 8 else 0)
      + (if high0 then 16 else 0) + (if high1 then 32 else 0) + (if high2 then 64 else 0) + (if high3 then 128 else 0)
    }

    /** (h & 0x77) << 1: one place further, dropping what falls four places back. */
    function Aged(): History {
      History(false, kept0, kept1, kept2, false, high0, high1, high2)
    }

    /** h | 1, and | 16 when the top byte is extreme. */
    function Noted(extreme: bool): History {
      this.(kept0 := true, high0 := high0 || extreme)
    }

    predicate Accepts() {
      Number() <= 8 && Number() != 6
    }
  }

  const CLEAR := History(false, false, false, false, false, false, false, false)

  function AgedBy(h: History, gap: nat): History {
    if gap == 0 then h else AgedBy(h, gap - 1).Aged()
  }

  lemma AgedByMoves(h: History, g: nat, gap: nat)
    requires g + gap <= 3
    ensures AgedBy(h, gap).Kept(g + gap) == h.Kept(g)
    ensures AgedBy(h, gap).High(g + gap) == h.High(g)
    decreases gap
  {
    if gap > 0 { AgedByMoves(h, g, gap - 1); }
  }

  lemma AgedByClears(h: History, g: nat, gap: nat)
    requires g < gap && g <= 3
    ensures !AgedBy(h, gap).Kept(g) && !AgedBy(h, gap).High(g)
    decreases gap
  {
    if g > 0 { AgedByClears(h, g - 1, gap - 1); }
  }

  /** Index of the highest set bit, by the source's shifting loop. */
  function TopBit(n: nat): nat {
    if n / 2 == 0 then 0 else 1 + TopBit(n / 2)
  }

  /** Acceptance leaves at most one kept opcode in reach, and that one's top byte is not extreme. */
  lemma AcceptedIsSingle(h: History, g: nat)
    requires h.Accepts() && !h.kept0 && 1 <= g <= 3 && h.Kept(g)
    ensures !h.High(g) && TopBit(h.Number()) == g
    ensures forall k :: 0 <= k <= 3 && k != g ==> !h.Kept(k)
  {
    assert TopBit(2) == 1 && TopBit(4) == 2 && TopBit(8) == 3;
  }

  lemma AcceptedKeepsOne(h: History)
    requires h.Accepts() && !h.kept0 && h != CLEAR
    ensures 1 <= TopBit(h.Number()) <= 3 && h.Kept(TopBit(h.Number()))
  {
    assert TopBit(2) == 1 && TopBit(4) == 2 && TopBit(8) == 3;
  }

  // ----- one operand

  const LOW25 := 0x200_0000

  /** 2^(8 i), and 2^(8 i + 8). */
  function Unit(i: nat): nat
    requires i <= 2
  {
    match i case 0 => 1 case 1 => 0x100 case 2 => 0x1_0000
  }

  function Modulus(i: nat): (m: nat)
    requires i <= 2
    ensures m == 256 * Unit(i)
  {
    match i case 0 => 0x100 case 1 => 0x1_0000 case 2 => 0x100_0000
  }

  /** Byte `i` of an operand: the top byte of its low i + 1 bytes. */
  function ByteAt(v: U32, i: nat): (b: Byte)
    requires i <= 2
    ensures Extreme(b) <==> v % Modulus(i) < Unit(i) || v % Modulus(i) >= 255 * Unit(i)
  {
    v % Modulus(i) / Unit(i)
  }

  /** The operand with its low i + 1 bytes complemented. */
  function Flip(v: U32, i: nat): (r: U32)
    requires i <= 2
    ensures r % Modulus(i) == Modulus(i) - 1 - v % Modulus(i)
  {
    FlipLow(v, i);
    v + Modulus(i) - 1 - 2 * (v % Modulus(i))
  }

  lemma FlipLow(v: U32, i: nat)
    requires i <= 2
    ensures var m := Modulus(i);
            var r := v + m - 1 - 2 * (v % m);
            0 <= r < TWO32 && r % m == m - 1 - v % m
  {
    var m := Modulus(i);
    var q, x := v / m, v % m;
    var top := match i case 0 => 0x100_0000 case 1 => 0x1_0000 case 2 => 0x100;
    assert v == q * m + x && q < top;
    assert v + m - 1 - 2 * x == q * m + (m - 1 - x);
    DivModUnique(v + m - 1 - 2 * x, m, q, m - 1 - x);
    assert q * m + m <= top * m == TWO32 by { MulMonotone(q + 1, top, m); }
  }

  function Plus(v: U32, d: nat): U32 { (v + d) % TWO32 }

  function Minus(v: U32, d: nat): U32 { (v - d) % TWO32 }

  /** Keeps bits 0 .. 24 and repeats bit 24 above them. */
  function Canonical(v: U32): U32 {
    v % LOW25 + (if v % LOW25 >= TWO24 then TWO32 - LOW25 else 0)
  }

  lemma Alike(v: int, w: int, d: int, i: nat)
    requires i <= 2 && v % LOW25 == w % LOW25
    ensures (v + d) % TWO32 % LOW25 == (w + d) % TWO32 % LOW25 == (w % LOW25 + d) % LOW25
    ensures v % Modulus(i) == w % Modulus(i)
  {
    ModOfMod(v + d, 128, LOW25);
    ModOfMod(w + d, 128, LOW25);
    ModOfSum(v, d, LOW25);
    ModOfSum(w, d, LOW25);
    var k := match i case 0 => 0x2_0000 case 1 => 0x200 case 2 => 2;
    ModOfMod(v, k, Modulus(i));
    ModOfMod(w, k, Modulus(i));
  }

  lemma PlusThenMinus(v: U32, w: U32, d: nat)
    requires w % LOW25 == Plus(v, d) % LOW25
    ensures Minus(w, d) % LOW25 == v % LOW25
  {
    var back: int := 0 - d;
    Alike(v, v, d, 0);
    Alike(w, Plus(v, d), back, 0);
    ModOfSum(v % LOW25 + d, back, LOW25);
  }

  lemma FlipAlike(v: U32, w: U32, i: nat)
    requires i <= 2 && v % LOW25 == w % LOW25
    ensures ByteAt(v, i) == ByteAt(w, i)
    ensures Flip(v, i) % LOW25 == Flip(w, i) % LOW25
  {
    Alike(v, w, 0, i);
    var shift := Modulus(i) - 1 - 2 * (v % Modulus(i));
    ModOfSum(v, shift, LOW25);
    ModOfSum(w, shift, LOW25);
  }

  lemma FlipTwice(v: U32, i: nat)
    requires i <= 2
    ensures Flip(Flip(v, i), i) == v
    ensures Extreme(ByteAt(Flip(v, i), i)) <==> Extreme(ByteAt(v, i))
  {
    hide ByteAt;
    var u := Unit(i);
    assert Modulus(i) == 256 * u;
  }

  /** The byte an accepted operand shares with the one kept opcode before it. */
  function Place(h: History): (i: nat)
    requires h.Accepts() && !h.kept0 && h != CLEAR
    ensures i <= 2
  {
    AcceptedKeepsOne(h);
    3 - TopBit(h.Number())
  }

  /** The packer's operand: moved once, and once more if the shared byte turned extreme. */
  function Shift(v: U32, d: nat, h: History): U32
    requires h.Accepts() && !h.kept0
  {
    var once := Plus(v, d);
    if h == CLEAR || !Extreme(ByteAt(once, Place(h))) then once else Plus(Flip(once, Place(h)), d)
  }

  function Unshift(v: U32, d: nat, h: History): U32
    requires h.Accepts() && !h.kept0
  {
    var once := Minus(v, d);
    if h == CLEAR || !Extreme(ByteAt(once, Place(h))) then once else Minus(Flip(once, Place(h)), d)
  }

  /** Moving a complemented operand complements its low bytes: the second round cannot fail. */
  lemma SecondRound(v: U32, d: nat, i: nat)
    requires i <= 2
    ensures Plus(Flip(Plus(v, d), i), d) % Modulus(i) == Modulus(i) - 1 - v % Modulus(i)
  {
    var m := Modulus(i);
    var k := match i case 0 => 0x100_0000 case 1 => 0x1_0000 case 2 => 0x100;
    assert k * m == TWO32;
    var once := Plus(v, d);
    var flipped := Flip(once, i);
    ModOfMod(v + d, k, m);
    ModOfMod(flipped + d, k, m);
    ModOfSum(v, d, m);
    ModOfSum(flipped, d, m);
    hide Flip, Plus;
    var x := v % m;
    var q, y := (x + d) / m, (x + d) % m;
    assert once % m == y && flipped % m == m - 1 - y;
    assert m - 1 - y + d == q * m + (m - 1 - x);
    DivModUnique(m - 1 - y + d, m, q, m - 1 - x);
  }

  /** The shared byte is never left extreme, so the retry stops after at most two rounds. */
  lemma ShiftAvoidsExtreme(v: U32, d: nat, h: History)
    requires h.Accepts() && !h.kept0 && h != CLEAR
    requires !Extreme(ByteAt(v, Place(h)))
    ensures !Extreme(ByteAt(Shift(v, d, h), Place(h)))
    ensures Extreme(ByteAt(Plus(v, d), Place(h)))
            ==> !Extreme(ByteAt(Plus(Flip(Plus(v, d), Place(h)), d), Place(h)))
  {
    hide ByteAt, Flip, Plus;
    var i := Place(h);
    SecondRound(v, d, i);
    var u := Unit(i);
    assert Modulus(i) == 256 * u;
  }

  /** Subtracting undoes moving, as far as the low 25 bits go. */
  lemma UnshiftUndoesShift(v: U32, w: U32, d: nat, h: History)
    requires h.Accepts() && !h.kept0
    requires h != CLEAR ==> !Extreme(ByteAt(v, Place(h)))
    requires w % LOW25 == Shift(v, d, h) % LOW25
    ensures Unshift(w, d, h) % LOW25 == v % LOW25
  {
    hide ByteAt, Flip, Plus, Minus, Extreme, Place;
    var once := Plus(v, d);
    if h == CLEAR {
      PlusThenMinus(v, w, d);
    } else {
      var i := Place(h);
      if !Extreme(ByteAt(once, i)) {
        PlusThenMinus(v, w, d);
        FlipAlike(Minus(w, d), v, i);
      } else {
        PlusThenMinus(Flip(once, i), w, d);
        FlipAlike(Minus(w, d), Flip(once, i), i);
        FlipTwice(once, i);
        PlusThenMinus(v, Flip(Minus(w, d), i), d);
      }
    }
  }

  lemma CanonicalLow(v: U32)
    ensures Canonical(v) % LOW25 == v % LOW25
  {
    var r := v % LOW25;
    DivModUnique(Canonical(v), LOW25, if r >= TWO24 then 127 else 0, r);
  }

  lemma CanonicalFixed(v: U32)
    requires Extreme(v / TWO24)
    ensures Canonical(v) == v
  {
    var q, r := v / TWO24, v % TWO24;
    assert v == q * TWO24 + r;
    if q == 0 {
      DivModUnique(v, LOW25, 0, r);
    } else {
      DivModUnique(v, LOW25, 127, TWO24 + r);
    }
  }

  // ----- the scan

  /** Where the scan stands: next position, last opcode seen, history as of that opcode. */
  datatype Scan = Scan(pos: nat, previous: int, history: History)

  /** UINT32_MAX - 4 read as -5: far enough from every position. */
  function Fresh(): Scan {
    Scan(0, -5, CLEAR)
  }

  predicate Standing(data: seq<Byte>, sc: Scan) {
    sc.pos <= |data| && sc.previous < sc.pos
  }

  function HistoryHere(sc: Scan): (h: History)
    requires sc.previous < sc.pos
    ensures !h.kept0 && !h.high0
  {
    if sc.pos - sc.previous >= 4 then CLEAR
    else AgedByClears(sc.history, 0, sc.pos - sc.previous); AgedBy(sc.history, sc.pos - sc.previous)
  }

  /** What the scan does at an opcode or past it; only bytes pos and pos + 4 matter. */
  datatype Verdict = Plain | Keep(history: History) | Rewrite(history: History)

  function Judge(data: seq<Byte>, sc: Scan): (v: Verdict)
    requires Standing(data, sc) && |data| - sc.pos >= 5
    ensures v.Rewrite? ==> v.history == HistoryHere(sc) && v.history.Accepts() && !v.history.kept0
                           && Opcode(data[sc.pos]) && Extreme(data[sc.pos + 4])
    ensures v.Keep? ==> v.history == HistoryHere(sc).Noted(Extreme(data[sc.pos + 4]))
  {
    if !Opcode(data[sc.pos]) then Plain
    else
      var h, extreme := HistoryHere(sc), Extreme(data[sc.pos + 4]);
      if extreme && h.Accepts() then Rewrite(h) else Keep(h.Noted(extreme))
  }

  /** Puts an operand back with its top byte repeating bit 24. */
  function Stored(data: seq<Byte>, pos: nat, v: U32): (r: seq<Byte>)
    requires pos + 5 <= |data|
    ensures |r| == |data|
    ensures forall j :: 0 <= j < |data| && !(pos < j < pos + 5) ==> r[j] == data[j]
  {
    data[..pos + 1]
    + [ByteAt(v, 0), ByteAt(v, 1), ByteAt(v, 2), if v % LOW25 >= TWO24 then 255 else 0]
    + data[pos + 5..]
  }

  function After(sc: Scan, v: Verdict): Scan {
    match v
    case Plain => sc.(pos := sc.pos + 1)
    case Keep(h) => Scan(sc.pos + 1, sc.pos, h)
    case Rewrite(_) => Scan(sc.pos + 5, sc.pos, CLEAR)
  }

  /** The data after one turn of the packer's scan, and of the decoder's. */
  function Forth(data: seq<Byte>, sc: Scan): (r: seq<Byte>)
    requires Standing(data, sc) && |data| - sc.pos >= 5
    ensures |r| == |data|
  {
    var v := Judge(data, sc);
    if v.Rewrite? then Stored(data, sc.pos, Shift(Read32(data, sc.pos + 1), sc.pos + 5, v.history)) else data
  }

  function Back(data: seq<Byte>, sc: Scan): (r: seq<Byte>)
    requires Standing(data, sc) && |data| - sc.pos >= 5
    ensures |r| == |data|
  {
    var v := Judge(data, sc);
    if v.Rewrite? then Stored(data, sc.pos, Unshift(Read32(data, sc.pos + 1), sc.pos + 5, v.history)) else data
  }

  /** The filtered data, from the scan's position on. */
  function Filtered(data: seq<Byte>, sc: Scan): (r: seq<Byte>)
    requires Standing(data, sc)
    ensures |r| == |data|
    decreases |data| - sc.pos
  {
    if |data| - sc.pos < 5 then data else Filtered(Forth(data, sc), After(sc, Judge(data, sc)))
  }

  /** The boot decoder's pass. */
  function Unfiltered(data: seq<Byte>, sc: Scan): (r: seq<Byte>)
    requires Standing(data, sc)
    ensures |r| == |data|
    decreases |data| - sc.pos
  {
    if |data| - sc.pos < 5 then data else Unfiltered(Back(data, sc), After(sc, Judge(data, sc)))
  }
}
