/** Finding the end of the medium, checksumming in chunks, and choosing a GPT header. */
module GptSearch {
  import opened Bytes
  import opened Checksum
  import opened Blocks
  import opened DiskSpec
  import opened DeviceSteps
  import opened BlockDevice
  import opened InstallUndo
  import opened Gpt

  // ----- the end of the medium

  /** How many whole blocks a medium of that length has. */
  function BlockCount(length: nat, lb: BlockSize): nat {
    length / lb
  }

  lemma CountIsLast(length: nat, lb: BlockSize, lba: nat)
    ensures lba < BlockCount(length, lb) <==> Base(lba, lb) + lb <= length
  {
    NextBase(lba, lb);
    var count := BlockCount(length, lb);
    BlockOf(length, lb);
    hide Base;
    if lba < count { BaseIsMonotone(lba + 1, count, lb); }
    if lba >= count { BaseIsMonotone(count + 1, lba + 1, lb); NextBase(count, lb); }
  }

  /**
   The last byte of the block can be read: a partial block does not count, and a probe
   that fails looks like the end of the medium.
   */
  method BlockPresent(dev: Device, block: U64, lb: BlockSize) returns (present: bool)
    requires dev.medium.Length <= TWO64
    modifies dev`faults
    ensures present <==> Base(block, lb) + lb <= dev.medium.Length && Moved(NextFate(old(dev.faults)), 1) == 1
    ensures dev.faults == if Base(block, lb) + lb <= TWO64 then LaterFates(old(dev.faults)) else old(dev.faults)
    ensures Steady(old(dev.faults)) ==> Steady(dev.faults) && (present <==> Base(block, lb) + lb <= dev.medium.Length)
  {
    var loc := block * lb;
    if loc >= TWO64 || loc + (lb - 1) >= TWO64 {
      return false;
    }
    var t := dev.NextTransfer();
    return loc + (lb - 1) < dev.medium.Length && Moved(t, 1) == 1;
  }

  /**
   Doubling, then bisection: the last whole block. Failing probes can only make the
   medium look shorter.
   */
  method LastBlock(dev: Device, lb: BlockSize) returns (ok: bool, last: U64)
    requires dev.medium.Length <= TWO64
    modifies dev`faults
    ensures ok ==> last < BlockCount(dev.medium.Length, lb)
    ensures Steady(old(dev.faults)) ==> Steady(dev.faults)
    ensures Steady(old(dev.faults)) ==> BlockCount(dev.medium.Length, lb) == if ok then last + 1 else 0
  {
    hide Base, BlockCount;
    ghost var length := dev.medium.Length;
    var lo: U64, hi: U64 := 0, 1;
    CountIsLast(length, lb, 0);
    var present := BlockPresent(dev, 0, lb);
    if !present {
      return false, 0;
    }
    while true
      invariant 0 <= lo < hi <= TWO64 / 2 && lo < BlockCount(length, lb)
      invariant Steady(old(dev.faults)) ==> Steady(dev.faults)
      decreases TWO64 - hi
    {
      CountIsLast(length, lb, hi);
      present := BlockPresent(dev, hi, lb);
      if !present {
        break;
      }
      lo := hi;
      FarBlock(hi, lb, length);
      if hi > (TWO64 - 1) / 2 {
        // The doubling would give up here, but a block that far has no 64-bit address.
        assert false;
      }
      hi := hi * 2;
    }
    while lo + 1 < hi
      invariant 0 <= lo < hi <= TWO64 / 2 && lo < BlockCount(length, lb)
      invariant Steady(old(dev.faults)) ==> Steady(dev.faults) && BlockCount(length, lb) <= hi
    {
      var mid := lo + (hi - lo) / 2;
      CountIsLast(length, lb, mid);
      present := BlockPresent(dev, mid, lb);
      if present {
        lo := mid;
      } else {
        hi := mid;
      }
    }
    return true, lo;
  }

  lemma FarBlock(block: nat, lb: BlockSize, length: nat)
    requires length <= TWO64 && Base(block, lb) + lb <= length
    ensures block < TWO64 / 512
  {
    MulMonotone(512, lb, block);
  }

  // ----- checksums read from the device

  lemma ZeroedConcat(a: seq<Byte>, b: seq<Byte>, from: nat)
    ensures Zeroed(a, from) + Zeroed(b, from + |a|) == Zeroed(a + b, from)
  {
  }

  lemma SliceJoins(d: Disk, loc: nat, n: nat, m: nat)
    requires n + m == 0 || loc + n + m <= |d|
    ensures (n == 0 || loc + n <= |d|) && (m == 0 || loc + n + m <= |d|)
    ensures Slice(d, loc, n) + Slice(d, loc + n, m) == Slice(d, loc, n + m)
  {
  }

  const CHUNK: nat := 512

  /** In chunks, with the field at 16 zeroed on the way: the checksum of the whole header. */
  method HeaderCrc(dev: Device, loc: U64, size: U32, ghost original: Disk) returns (ok: bool, crc: bv32)
    requires Underway(dev, original) && loc + size <= TWO64
    modifies dev`cachedBlock, dev`dirty, dev`faults, dev.medium, dev.cache
    ensures Underway(dev, original) && dev.Logical() == old(dev.Logical())
    ensures ok ==> (size > 0 ==> loc + size <= dev.medium.Length)
    ensures ok ==> crc == Crc(Zeroed(Slice(dev.Logical(), loc, size), 0))
    ensures Steady(old(dev.faults)) ==> Steady(dev.faults) && (ok <==> dev.Reachable(loc, size))
  {
    hide dev.Valid, Recoverable, dev.Writable, dev.Logical, ReachableOn, Slice, Zeroed, Update;
    var register: bv32, done: nat := 0xffff_ffff, 0;
    ghost var disk := dev.Logical();
    Beginning(dev, loc, disk, register);
    crc := 0;
    while done < size
      invariant 0 <= done <= size && Underway(dev, original) && dev.Logical() == disk
      invariant dev.Reachable(loc, done) && (done > 0 ==> loc + done <= dev.medium.Length)
      invariant register == Update(0xffff_ffff, Zeroed(Slice(disk, loc, done), 0))
      invariant Steady(old(dev.faults)) ==> Steady(dev.faults)
    {
      var step := size - done;
      if step > CHUNK {
        step := CHUNK;
      }
      ReachablePart(dev.size, dev.medium.Length, loc, size, done, step);
      var got, chunk := Read(dev, loc + done, step, original);
      if !got {
        return false, crc;
      }
      dev.ReachableGrows(loc, done, step);
      SliceJoins(disk, loc, done, step);
      ZeroedConcat(Slice(disk, loc, done), chunk, 0);
      UpdateConcat(0xffff_ffff, Zeroed(Slice(disk, loc, done), 0), Zeroed(chunk, done));
      chunk := ZeroField(chunk, done);
      register := BitwiseUpdate(register, chunk);
      done := done + step;
    }
    return true, !register;
  }

  lemma Beginning(dev: Device, loc: nat, d: Disk, register: bv32)
    ensures ReachableOn(dev.size, dev.medium.Length, loc, 0) && Slice(d, loc, 0) == []
    ensures Zeroed([], 0) == [] && Update(register, []) == register
  {
  }

  method ZeroField(chunk: seq<Byte>, done: nat) returns (zeroed: seq<Byte>)
    ensures zeroed == Zeroed(chunk, done)
  {
    zeroed := chunk;
    for i := 0 to |chunk|
      invariant |zeroed| == |chunk|
      invariant zeroed[..i] == Zeroed(chunk, done)[..i] && zeroed[i..] == chunk[i..]
    {
      if GPT_HEADER_CRC_OFFSET <= done + i < GPT_HEADER_CRC_OFFSET + 4 {
        zeroed := zeroed[i := 0];
      }
    }
  }

  /** The register has taken in the `n` bytes from `loc` on. */
  ghost predicate Summed(d: Disk, loc: nat, n: nat, register: bv32) {
    && (n > 0 ==> loc + n <= |d|)
    && register == Update(0xffff_ffff, Slice(d, loc, n))
  }

  lemma SummedStep(dev: Device, d: Disk, loc: nat, n: nat, register: bv32, chunk: seq<Byte>)
    requires dev.Reachable(loc + n, |chunk|) && Summed(d, loc, n, register)
    requires |chunk| > 0 && loc + n + |chunk| <= |d| && chunk == Slice(d, loc + n, |chunk|)
    ensures Summed(d, loc, n + |chunk|, Update(register, chunk)) && dev.Reachable(loc, n + |chunk|)
  {
    hide Update, Slice, ReachableOn;
    dev.ReachableGrows(loc, n, |chunk|);
    SliceJoins(d, loc, n, |chunk|);
    UpdateConcat(0xffff_ffff, Slice(d, loc, n), chunk);
  }

  /** In chunks: the checksum of the whole array. `summed` counts the bytes that went through it. */
  method ArrayCrc(dev: Device, loc: U64, size: nat, ghost original: Disk)
    returns (ok: bool, crc: bv32, ghost summed: nat)
    requires Underway(dev, original)
    modifies dev`cachedBlock, dev`dirty, dev`faults, dev.medium, dev.cache
    ensures Underway(dev, original) && dev.Logical() == old(dev.Logical()) && summed <= size && (ok ==> summed == size)
    ensures ok && size > 0 ==> loc < dev.medium.Length
    ensures ok && loc + size <= TWO64 ==> (size > 0 ==> loc + size <= dev.medium.Length)
    ensures ok && loc + size <= TWO64 ==> crc == Crc(Slice(dev.Logical(), loc, size)) && dev.Reachable(loc, size)
    ensures Steady(old(dev.faults)) ==> Steady(dev.faults)
    ensures Steady(old(dev.faults)) && loc + size <= TWO64 ==> (ok <==> dev.Reachable(loc, size))
  {
    hide dev.Valid, Recoverable, dev.Writable, dev.Logical, ReachableOn, Slice, Update;
    var register: bv32, left: nat, at: U64 := 0xffff_ffff, size, loc;
    ghost var disk, straight := dev.Logical(), loc + size <= TWO64;
    Beginning(dev, loc, disk, register);
    crc, summed := 0, 0;
    while left > 0
      invariant left <= size && summed == size - left && Underway(dev, original) && dev.Logical() == disk
      invariant straight && left > 0 ==> at == loc + summed
      invariant if summed == 0 then at == loc else loc < |disk|
      invariant straight ==> dev.Reachable(loc, summed) && Summed(disk, loc, summed, register)
      invariant Steady(old(dev.faults)) ==> Steady(dev.faults)
    {
      hide Summed;
      var step := if left < CHUNK then left else CHUNK;
      ReachablePart(dev.size, dev.medium.Length, loc, size, summed, step);
      var got, chunk := Read(dev, at, step, original);
      if !got {
        return false, crc, summed;
      }
      if straight {
        SummedStep(dev, disk, loc, summed, register, chunk);
      }
      register := BitwiseUpdate(register, chunk);
      at := if at + step < TWO64 then at + step else at + step - TWO64;
      left := left - step;
      summed := summed + step;
    }
    return true, !register, summed;
  }

  // ----- verifying one header

  /** Both checksummed ranges can be read. */
  ghost predicate Readable(size: BlockSize, d: Disk, h: Header, lba: nat, lb: BlockSize) {
    && ReachableOn(size, |d|, Base(lba, lb), h.headerSize)
    && ReachableOn(size, |d|, Base(h.entryLba, lb), ArraySize(h))
  }

  /** The header is sound up to the array, so the array's bytes are paid for and summed. */
  ghost predicate Charged(size: BlockSize, d: Disk, h: Header, lba: nat, lb: BlockSize, blocks: nat, budget: nat) {
    && HeaderVerified(d, h, lba, lb) && WellFormed(h, lba, lb, blocks)
    && ReachableOn(size, |d|, Base(lba, lb), h.headerSize)
    && ArraySize(h) <= budget
  }

  lemma BlockEnds(lba: nat, lb: BlockSize)
    requires Base(lba, lb) < TWO64
    ensures Base(lba, lb) + lb <= TWO64
  {
  }

  /**
   Accepts only a header that passes all four checks, with an array outside the usable
   range. What the array costs is taken from the budget before it is summed.
   */
  method VerifyHeader(dev: Device, h: Header, lba: U64, lb: BlockSize, blocks: nat, budget: nat, ghost original: Disk)
    returns (ok: bool, left: nat, ghost summed: nat)
    requires Underway(dev, original)
    modifies dev`cachedBlock, dev`dirty, dev`faults, dev.medium, dev.cache
    ensures Underway(dev, original) && dev.Logical() == old(dev.Logical())
    ensures left + summed <= budget
    ensures ok ==> WellFormed(h, lba, lb, blocks) && HeaderVerified(dev.Logical(), h, lba, lb)
    ensures ok ==> ArrayVerified(dev.Logical(), h, lb) && dev.Reachable(Base(h.entryLba, lb), ArraySize(h))
    ensures Steady(old(dev.faults)) ==>
              && Steady(dev.faults)
              && left == if Charged(dev.size, dev.Logical(), h, lba, lb, blocks, budget)
                         then budget - ArraySize(h) else budget
    ensures Steady(old(dev.faults)) ==>
              (ok <==> && Charged(dev.size, dev.Logical(), h, lba, lb, blocks, budget)
                       && ArrayVerified(dev.Logical(), h, lb) && Readable(dev.size, dev.Logical(), h, lba, lb))
  {
    hide dev.Valid, Recoverable, dev.Writable, dev.Logical, ReachableOn, Slice, Zeroed, Crc, Matches, PowerOfTwo,
         Base, ArraySize;
    left, summed := budget, 0;
    if h.signature != EFI_PART || h.revision != 0x1_0000 {
      return false, left, summed;
    }
    if h.headerSize < GPT_HEADER_SIZE || h.headerSize > lb || h.myLba != lba || Base(lba, lb) >= TWO64 {
      return false, left, summed;
    }
    BlockEnds(lba, lb);
    var got, crc := HeaderCrc(dev, Base(lba, lb), h.headerSize, original);
    if !got || !Matches(crc, h.crc) {
      return false, left, summed;
    }
    if h.entrySize < ENTRY_BYTES || !PowerOfTwo(h.entrySize) {
      return false, left, summed;
    }
    var size := ArraySize(h);
    if size >= TWO64 || size == 0 || size > GPT_MAX_ARRAY_SIZE || size > budget {
      return false, left, summed;
    }
    dev.ValidBounds();
    var fits := ArrayPlaced(h, lba, lb, blocks);
    if !fits || Base(h.entryLba, lb) >= TWO64 {
      return false, left, summed;
    }
    left := budget - size;
    var arrayCrc;
    got, arrayCrc, summed := ArrayCrc(dev, Base(h.entryLba, lb), size, original);
    ok := got && Matches(arrayCrc, h.arrayCrc);
  }

  /** The block arithmetic of the array's place, in the order of the source's branches. */
  method ArrayPlaced(h: Header, lba: U64, lb: BlockSize, blocks: nat) returns (ok: bool)
    requires ArraySize(h) > 0
    ensures ok <==>
            && ArrayEnd(h, lb) < TWO64 && h.firstUsable <= h.lastUsable
            && Apart(h.entryLba, ArrayEnd(h, lb), h.firstUsable, h.lastUsable)
            && (h.entryLba > h.lastUsable ==> ArrayEnd(h, lb) <= lba)
            && (blocks != 0 ==> ArrayEnd(h, lb) <= blocks)
  {
    hide ArraySize;
    var end := h.entryLba + ArrayBlocks(h, lb);
    if end >= TWO64 || h.firstUsable > h.lastUsable {
      return false;
    }
    if h.entryLba < h.firstUsable {
      if end > h.firstUsable {
        return false;
      }
    } else if h.entryLba <= h.lastUsable || end > lba {
      return false;
    }
    return blocks == 0 || end <= blocks;
  }

  // ----- choosing a header

  /** One place a header is looked for. */
  datatype Attempt = Attempt(lb: BlockSize, lba: U64)

  datatype Located = Found(header: Header, lb: BlockSize, lba: U64) | NotFound

  /** A header can be read there. */
  ghost predicate HeaderReadable(size: BlockSize, d: Disk, a: Attempt) {
    && Base(a.lba, a.lb) + HEADER_BYTES <= |d|
    && ReachableOn(size, |d|, Base(a.lba, a.lb), HEADER_BYTES)
  }

  ghost function HeaderAt(d: Disk, a: Attempt): Header
    requires Base(a.lba, a.lb) + HEADER_BYTES <= |d|
  {
    ParseHeader(Slice(d, Base(a.lba, a.lb), HEADER_BYTES))
  }

  ghost predicate Pays(size: BlockSize, d: Disk, a: Attempt, budget: nat) {
    HeaderReadable(size, d, a) && Charged(size, d, HeaderAt(d, a), a.lba, a.lb, BlockCount(|d|, a.lb), budget)
  }

  ghost predicate Accepted(size: BlockSize, d: Disk, a: Attempt, budget: nat) {
    && Pays(size, d, a, budget)
    && ArrayVerified(d, HeaderAt(d, a), a.lb) && Readable(size, d, HeaderAt(d, a), a.lba, a.lb)
  }

  ghost function Cost(size: BlockSize, d: Disk, a: Attempt, budget: nat): (c: nat)
    ensures c <= budget
  {
    if Pays(size, d, a, budget) then ArraySize(HeaderAt(d, a)) else 0
  }

  /** A header that carries the signature but failed is still asked where its alternate is. */
  ghost predicate Claims(size: BlockSize, d: Disk, lb: BlockSize) {
    && HeaderReadable(size, d, Attempt(lb, 1))
    && var h := HeaderAt(d, Attempt(lb, 1));
       h.signature == EFI_PART && 1 < h.alternateLba < BlockCount(|d|, lb)
  }

  /** For one block size: block 1, then the last block, then the claimed alternate where that is another. */
  ghost function PlanFor(size: BlockSize, d: Disk, lb: BlockSize): seq<Attempt>
    requires |d| < TWO64
  {
    var blocks := BlockCount(|d|, lb);
    [Attempt(lb, 1)]
    + (if blocks >= 2 then [Attempt(lb, blocks - 1)] else [])
    + (if Claims(size, d, lb) && HeaderAt(d, Attempt(lb, 1)).alternateLba != blocks - 1
       then [Attempt(lb, HeaderAt(d, Attempt(lb, 1)).alternateLba)] else [])
  }

  ghost function Plan(size: BlockSize, d: Disk): seq<Attempt>
    requires |d| < TWO64
  {
    PlanFor(size, d, 512) + PlanFor(size, d, 2048) + PlanFor(size, d, 4096)
  }

  /** The first attempt of the plan that is accepted, each paying its way, and what is left. */
  ghost function Resolve(size: BlockSize, d: Disk, plan: seq<Attempt>, budget: nat): (r: (seq<Attempt>, nat))
    ensures |r.0| <= 1 && r.1 <= budget
    decreases |plan|
  {
    if plan == [] then ([], budget)
    else
      var left := budget - Cost(size, d, plan[0], budget);
      if Accepted(size, d, plan[0], budget) then ([plan[0]], left) else Resolve(size, d, plan[1..], left)
  }

  lemma {:induction false} ResolveConcat(size: BlockSize, d: Disk, a: seq<Attempt>, b: seq<Attempt>, budget: nat)
    ensures Resolve(size, d, a + b, budget) ==
            var r := Resolve(size, d, a, budget);
            if r.0 != [] then r else Resolve(size, d, b, r.1)
    decreases |a|
  {
    hide Accepted, Cost;
    if a == [] {
      assert a + b == b;
    } else {
      assert (a + b)[1..] == a[1..] + b;
      ResolveConcat(size, d, a[1..], b, budget - Cost(size, d, a[0], budget));
    }
  }

  /** What an accepted header guarantees. */
  ghost predicate Chosen(size: BlockSize, d: Disk, f: Located) {
    && f.Found? && f.lba >= 1
    && Base(f.lba, f.lb) + HEADER_BYTES <= |d| && f.header == HeaderAt(d, Attempt(f.lb, f.lba))
    && WellFormed(f.header, f.lba, f.lb, 0)
    && HeaderVerified(d, f.header, f.lba, f.lb) && ArrayVerified(d, f.header, f.lb)
    && ReachableOn(size, |d|, Base(f.header.entryLba, f.lb), ArraySize(f.header))
  }

  lemma OnMedium(size: BlockSize, length: nat, loc: nat)
    ensures ReachableOn(size, length, loc, HEADER_BYTES) ==> loc + HEADER_BYTES <= length
  {
    if ReachableOn(size, length, loc, HEADER_BYTES) { ReachableOnMedium(size, length, loc, HEADER_BYTES); }
  }

  lemma AnyBlocks(h: Header, lba: nat, lb: BlockSize, blocks: nat)
    ensures WellFormed(h, lba, lb, blocks) ==> WellFormed(h, lba, lb, 0)
  {
  }

  /** Reads and verifies the header at one place. */
  method TryAt(dev: Device, a: Attempt, blocks: nat, budget: nat, ghost original: Disk)
    returns (read: bool, header: seq<Byte>, ok: bool, left: nat, ghost summed: nat)
    requires Underway(dev, original) && a.lba >= 1 && Base(a.lba, a.lb) < TWO64
    modifies dev`cachedBlock, dev`dirty, dev`faults, dev.medium, dev.cache
    ensures Underway(dev, original) && dev.Logical() == old(dev.Logical())
    ensures left + summed <= budget
    ensures read ==>
              && HeaderReadable(dev.size, dev.Logical(), a)
              && header == Slice(dev.Logical(), Base(a.lba, a.lb), HEADER_BYTES)
    ensures ok ==> read && Chosen(dev.size, dev.Logical(), Found(ParseHeader(header), a.lb, a.lba))
    ensures Steady(old(dev.faults)) ==>
              && Steady(dev.faults)
              && (read <==> HeaderReadable(dev.size, dev.Logical(), a))
    ensures Steady(old(dev.faults)) && blocks == BlockCount(dev.medium.Length, a.lb) ==>
              && (ok <==> Accepted(dev.size, dev.Logical(), a, budget))
              && left == budget - Cost(dev.size, dev.Logical(), a, budget)
  {
    hide dev.Valid, Recoverable, dev.Writable, dev.Logical, ReachableOn, Slice, ParseHeader,
         ArrayVerified, HeaderVerified, WellFormed, Base, ArraySize, BlockCount;
    left, summed, ok := budget, 0, false;
    BlockEnds(a.lba, a.lb);
    OnMedium(dev.size, dev.medium.Length, Base(a.lba, a.lb));
    read, header := Read(dev, Base(a.lba, a.lb), HEADER_BYTES, original);
    if read {
      var h := ParseHeader(header);
      AnyBlocks(h, a.lba, a.lb, blocks);
      ok, left, summed := VerifyHeader(dev, h, a.lba, a.lb, blocks, budget, original);
    }
  }

  /** The candidates after block 1 failed: the last block first, then the claim. */
  method Candidates(ghost size: BlockSize, lb: BlockSize, haveLast: bool, last: U64, read: bool, header: seq<Byte>,
                    ghost d: Disk)
    returns (candidates: seq<Attempt>)
    requires |d| < TWO64 && (haveLast ==> last < BlockCount(|d|, lb))
    requires read ==> HeaderReadable(size, d, Attempt(lb, 1)) && header == Slice(d, Base(1, lb), HEADER_BYTES)
    ensures && (read <==> HeaderReadable(size, d, Attempt(lb, 1)))
            && BlockCount(|d|, lb) == (if haveLast then last + 1 else 0) ==>
              [Attempt(lb, 1)] + candidates == PlanFor(size, d, lb)
    ensures forall k :: 0 <= k < |candidates| ==>
                          candidates[k].lb == lb && 1 <= candidates[k].lba < BlockCount(|d|, lb)
  {
    hide Slice, ReachableOn, ParseHeader, BlockCount;
    candidates := [];
    if read {
      var h := ParseHeader(header);
      if h.signature == EFI_PART && h.alternateLba > 1 && haveLast && h.alternateLba <= last {
        candidates := [Attempt(lb, h.alternateLba)];
      }
    }
    if haveLast && last >= 1 {
      if |candidates| > 0 && candidates[0].lba == last {
        candidates := [];
      }
      candidates := candidates + [Attempt(lb, last)];
      if |candidates| == 2 {
        candidates := [candidates[1], candidates[0]];
      }
    }
  }

  // ----- the search

  /** The type of entry `k` of the table in block 0. */
  function TypeAt(d: Disk, k: nat): Byte
    requires k < 4 && |d| >= 512
  {
    d[0x1be + 16 * k + 4]
  }

  /** Some entry of the table in block 0 has the protective type. */
  predicate Protective(d: Disk)
    requires |d| >= 512
  {
    exists k :: 0 <= k < 4 && TypeAt(d, k) == 0xee
  }

  method ProtectiveMbr(dev: Device, ghost original: Disk) returns (protective: bool)
    requires Underway(dev, original) && dev.Inside(0)
    modifies dev`cachedBlock, dev`dirty, dev`faults, dev.medium, dev.cache
    ensures Underway(dev, original) && dev.Logical() == old(dev.Logical())
    ensures protective ==> Protective(dev.Logical())
    ensures Steady(old(dev.faults)) ==> Steady(dev.faults) && (protective <==> Protective(dev.Logical()))
  {
    hide dev.Valid, Recoverable, dev.Writable, dev.Logical, ReachableOn, Base;
    ghost var disk := dev.Logical();
    for i := 0 to 4
      invariant Underway(dev, original) && dev.Logical() == disk
      invariant forall k :: 0 <= k < i ==> TypeAt(disk, k) != 0xee
      invariant Steady(old(dev.faults)) ==> Steady(dev.faults)
    {
      FirstBlock(dev, 0x1be + 16 * i + 4, 1);
      var got, kind := Read(dev, 0x1be + 16 * i + 4, 1, original);
      if !got {
        return false;
      }
      assert kind[0] == TypeAt(disk, i);
      if kind[0] == 0xee {
        return true;
      }
    }
    return false;
  }

  lemma FirstBlock(dev: Device, loc: nat, count: nat)
    requires dev.Inside(0) && loc + count <= 512
    ensures ReachableOn(dev.size, dev.medium.Length, loc, count) && 512 <= dev.medium.Length
  {
  }

  /** The candidates in order; the first that is accepted. */
  method TryAll(dev: Device, candidates: seq<Attempt>, blocks: nat, budget: nat, lb: BlockSize, ghost original: Disk)
    returns (found: Located, left: nat, ghost summed: nat)
    requires Underway(dev, original)
    requires forall k :: 0 <= k < |candidates| ==>
                           candidates[k].lb == lb && 1 <= candidates[k].lba && Base(candidates[k].lba, lb) < TWO64
    modifies dev`cachedBlock, dev`dirty, dev`faults, dev.medium, dev.cache
    ensures Underway(dev, original) && dev.Logical() == old(dev.Logical()) && left + summed <= budget
    ensures found.Found? ==> Chosen(dev.size, dev.Logical(), found)
    ensures Steady(old(dev.faults)) ==> Steady(dev.faults)
    ensures Steady(old(dev.faults)) && blocks == BlockCount(dev.medium.Length, lb) ==>
              Resolve(dev.size, dev.Logical(), candidates, budget) == (Places(found), left)
  {
    hide dev.Valid, Recoverable, dev.Writable, dev.Logical, HeaderReadable, Accepted, Cost, Chosen, Base, BlockCount;
    left, summed := budget, 0;
    ghost var disk := dev.Logical();
    var j := 0;
    while j < |candidates|
      invariant 0 <= j <= |candidates|
      invariant Underway(dev, original) && dev.Logical() == disk && left + summed <= budget
      invariant Steady(old(dev.faults)) ==> Steady(dev.faults)
      invariant Steady(old(dev.faults)) && blocks == BlockCount(dev.medium.Length, lb) ==>
                  Resolve(dev.size, disk, candidates, budget) == Resolve(dev.size, disk, candidates[j..], left)
    {
      var read, header, ok; ghost var more;
      ghost var was := left;
      read, header, ok, left, more := TryAt(dev, candidates[j], blocks, left, original);
      summed := summed + more;
      if ok {
        return Found(ParseHeader(header), lb, candidates[j].lba), left, summed;
      }
      assert candidates[j..][1..] == candidates[j + 1..];
      j := j + 1;
    }
    return NotFound, left, summed;
  }

  function Places(f: Located): seq<Attempt> {
    if f.Found? then [Attempt(f.lb, f.lba)] else []
  }

  lemma CandidatesFit(length: nat, lb: BlockSize, lba: nat)
    requires length < TWO64 && 1 <= lba < BlockCount(length, lb)
    ensures Base(lba, lb) < TWO64
  {
    BaseIsMonotone(lba, BlockCount(length, lb), lb);
  }

  /** One block size: block 1, then its candidates. */
  method TrySize(dev: Device, lb: BlockSize, budget: nat, ghost original: Disk)
    returns (found: Located, left: nat, ghost summed: nat)
    requires Underway(dev, original)
    modifies dev`cachedBlock, dev`dirty, dev`faults, dev.medium, dev.cache
    ensures Underway(dev, original) && dev.Logical() == old(dev.Logical()) && left + summed <= budget
    ensures found.Found? ==> Chosen(dev.size, dev.Logical(), found)
    ensures Steady(old(dev.faults)) ==> Steady(dev.faults)
    ensures Steady(old(dev.faults)) ==>
              |dev.Logical()| < TWO64 &&
              Resolve(dev.size, dev.Logical(), PlanFor(dev.size, dev.Logical(), lb), budget) == (Places(found), left)
  {
    hide dev.Valid, Recoverable, dev.Writable, dev.Logical, HeaderReadable, Accepted, Cost, Chosen, Base,
         BlockCount, PlanFor;
    dev.ValidBounds();
    ghost var disk := dev.Logical();
    var haveLast, last := LastBlock(dev, lb);
    var blocks: nat := if haveLast then last as nat + 1 else 0;
    SmallBase(lb);
    var read, header, ok; ghost var more;
    read, header, ok, left, summed := TryAt(dev, Attempt(lb, 1), blocks, budget, original);
    ghost var here := [Attempt(lb, 1)];
    assert here[1..] == [];
    if ok {
      assert Steady(old(dev.faults)) ==> Resolve(dev.size, disk, here, budget) == (here, left);
    } else {
      assert Steady(old(dev.faults)) ==> Resolve(dev.size, disk, here, budget) == ([], left);
    }
    var candidates := Candidates(dev.size, lb, haveLast, last, read, header, disk);
    ResolveConcat(dev.size, disk, here, candidates, budget);
    if ok {
      return Found(ParseHeader(header), lb, 1), left, summed;
    }
    forall k | 0 <= k < |candidates|
      ensures Base(candidates[k].lba, lb) < TWO64
    {
      CandidatesFit(dev.medium.Length, lb, candidates[k].lba);
    }
    found, left, more := TryAll(dev, candidates, blocks, left, lb, original);
    summed := summed + more;
  }

  lemma SmallBase(lb: BlockSize)
    ensures Base(1, lb) == lb
  {
  }

  /** What the search comes to when no transfer fails. */
  ghost function Search(size: BlockSize, d: Disk): (places: seq<Attempt>)
    requires 512 <= |d| < TWO64
    ensures |places| <= 1
  {
    if Protective(d) then Resolve(size, d, Plan(size, d), 2 * GPT_MAX_ARRAY_SIZE).0 else []
  }

  /**
   The whole search. A header is returned only if it passes all the checks; no more
   than two megabytes of entry arrays are summed; and when no transfer fails the
   result is the plan's.
   */
  method Locate(dev: Device, ghost original: Disk) returns (found: Located, ghost summed: nat)
    requires Underway(dev, original) && dev.Inside(0)
    modifies dev`cachedBlock, dev`dirty, dev`faults, dev.medium, dev.cache
    ensures Underway(dev, original) && dev.Logical() == old(dev.Logical())
    ensures found.Found? ==> Protective(dev.Logical()) && Chosen(dev.size, dev.Logical(), found)
    ensures summed <= 2 * GPT_MAX_ARRAY_SIZE
    ensures Steady(old(dev.faults)) ==> Steady(dev.faults) && |dev.Logical()| < TWO64
    ensures Steady(old(dev.faults)) ==> Places(found) == Search(dev.size, dev.Logical())
  {
    hide dev.Valid, Recoverable, dev.Writable, dev.Logical, Accepted, Cost, Chosen, Base, PlanFor, Resolve, Protective;
    FirstBlock(dev, 0, 0);
    dev.ValidBounds();
    var budget: nat, disk := 2 * GPT_MAX_ARRAY_SIZE, dev.Logical();
    summed := 0;
    var protective := ProtectiveMbr(dev, original);
    if !protective {
      return NotFound, summed;
    }
    ghost var p, q, r := PlanFor(dev.size, disk, 512), PlanFor(dev.size, disk, 2048), PlanFor(dev.size, disk, 4096);
    ResolveConcat(dev.size, disk, p + q, r, budget);
    ResolveConcat(dev.size, disk, p, q, budget);
    ghost var more;
    found, budget, summed := TrySize(dev, 512, budget, original);
    if found.NotFound? {
      found, budget, more := TrySize(dev, 2048, budget, original);
      summed := summed + more;
    }
    if found.NotFound? {
      found, budget, more := TrySize(dev, 4096, budget, original);
      summed := summed + more;
    }
  }
}
