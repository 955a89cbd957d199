/** Blocks of a medium: address arithmetic, and how a transfer of one may end. */
module Blocks {
  import opened Bytes

  /** How one block transfer ends: in full, or after some bytes. */
  datatype Transfer = Completes | StopsAfter(count: nat)

  /** No transfer to come fails. */
  predicate Steady(faults: seq<Transfer>) {
    forall i :: 0 <= i < |faults| ==> faults[i].Completes?
  }

  const NO_BLOCK: nat := 0xffff_ffff_ffff_ffff

  type BlockSize = n: nat | n == 512 || n == 2048 || n == 4096 witness 512

  /** Address arithmetic: a byte is its block's base and an offset. */
  function Base(block: nat, size: BlockSize): nat {
    block * size
  }

  function BlockAt(addr: nat, size: BlockSize): nat {
    addr / size
  }

  function OffsetAt(addr: nat, size: BlockSize): (r: nat)
    ensures r < size
  {
    addr % size
  }

  lemma BlockOf(addr: nat, size: BlockSize)
    ensures Base(BlockAt(addr, size), size) + OffsetAt(addr, size) == addr
  {
  }

  lemma BaseIsMonotone(a: nat, b: nat, size: BlockSize)
    requires a <= b
    ensures Base(a, size) <= Base(b, size)
  {
    MulMonotone(a, b, size);
  }

  lemma NextBase(block: nat, size: BlockSize)
    ensures Base(block + 1, size) == Base(block, size) + size
  {
  }

  /** A chunk that stays in its block ends in that block. */
  lemma SameBlock(addr: nat, n: nat, size: BlockSize)
    requires n >= 1 && OffsetAt(addr, size) + n <= size
    ensures BlockAt(addr + n - 1, size) == BlockAt(addr, size)
  {
    DivModUnique(addr + n - 1, size, addr / size, addr % size + n - 1);
  }

  /** Every byte address that can be asked for lies in a block other than the sentinel. */
  lemma NeverTheSentinel(addr: nat, size: BlockSize)
    requires addr < TWO64
    ensures BlockAt(addr, size) != NO_BLOCK
  {
    BlockOf(addr, size);
    MulMonotone(512, size, addr / size);
  }

  /** Every block that holds one of the `count` bytes from `loc` on lies on a medium of that length in full. */
  predicate ReachableOn(size: BlockSize, length: nat, loc: nat, count: nat) {
    count > 0 ==> Base(BlockAt(loc + count - 1, size), size) + size <= length
  }

  lemma ReachableOnMedium(size: BlockSize, length: nat, loc: nat, count: nat)
    requires ReachableOn(size, length, loc, count) && count > 0
    ensures loc + count <= length
  {
    BlockOf(loc + count - 1, size);
  }

  /** How far a transfer loop gets in the block of `addr`. */
  function ChunkAt(addr: nat, want: nat, size: BlockSize): (n: nat)
    ensures n <= want && n <= size && (want > 0 ==> n > 0)
  {
    if want > size - OffsetAt(addr, size) then size - OffsetAt(addr, size) else want
  }

  lemma ChunkStays(addr: nat, want: nat, size: BlockSize, length: nat)
    requires Base(BlockAt(addr, size), size) + size <= length
    ensures addr + ChunkAt(addr, want, size) <= length
  {
    BlockOf(addr, size);
  }

  /** The bytes from `loc` on do not all lie in one block. */
  predicate Spans(size: BlockSize, loc: nat, count: nat) {
    count > 0 && BlockAt(loc, size) != BlockAt(loc + count - 1, size)
  }

  /** A first chunk that is not all there is ends its block, so the rest lies in later ones. */
  lemma ShortChunkSpans(addr: nat, want: nat, size: BlockSize)
    requires ChunkAt(addr, want, size) < want
    ensures Spans(size, addr, want)
  {
    var q, next := BlockAt(addr, size), addr + ChunkAt(addr, want, size);
    BlockOf(addr, size);
    NextBase(q, size);
    hide Base, BlockAt, OffsetAt;
    assert next == Base(q + 1, size);
    if BlockAt(addr + want - 1, size) <= q {
      BlockOf(addr + want - 1, size);
      BaseIsMonotone(BlockAt(addr + want - 1, size), q, size);
    }
  }

  lemma FinerBlockEnds(fine: BlockSize, coarse: BlockSize, addr: nat)
    requires fine <= coarse
    ensures Base(BlockAt(addr, fine), fine) + fine <= Base(BlockAt(addr, coarse), coarse) + coarse
  {
    if fine < coarse {
      var k := coarse / fine;
      var q := addr / fine;
      assert q / k == addr / coarse by { Coarser(fine, coarse, addr); }
      assert q <= q / k * k + k - 1;
      BaseIsMonotone(q, q / k * k + k - 1, fine);
    }
  }

  lemma Coarser(fine: BlockSize, coarse: BlockSize, addr: nat)
    requires fine < coarse
    ensures addr / fine / (coarse / fine) == addr / coarse
  {
    if coarse == 2048 {
      assert addr / 512 / 4 == addr / 2048;
    } else if fine == 512 {
      assert addr / 512 / 8 == addr / 4096;
    } else {
      assert addr / 2048 / 2 == addr / 4096;
    }
  }

  /** Smaller blocks reach whatever larger ones do. */
  lemma FinerReaches(fine: BlockSize, coarse: BlockSize, length: nat, loc: nat, count: nat)
    requires fine <= coarse && ReachableOn(coarse, length, loc, count)
    ensures ReachableOn(fine, length, loc, count)
  {
    hide Base, BlockAt;
    if count > 0 {
      FinerBlockEnds(fine, coarse, loc + count - 1);
    }
  }

  lemma ReachablePart(size: BlockSize, length: nat, loc: nat, count: nat, done: nat, step: nat)
    requires done + step <= count
    ensures ReachableOn(size, length, loc, count) ==> ReachableOn(size, length, loc + done, step)
  {
    hide Base;
    if step > 0 {
      var a, b := loc + done + step - 1, loc + count - 1;
      BlockIsMonotone(a, b, size);
      BaseIsMonotone(BlockAt(a, size), BlockAt(b, size), size);
    }
  }

  lemma BlockIsMonotone(a: nat, b: nat, size: BlockSize)
    requires a <= b
    ensures BlockAt(a, size) <= BlockAt(b, size)
  {
    BlockOf(a, size);
    BlockOf(b, size);
    hide Base, BlockAt, OffsetAt;
    NextBase(BlockAt(b, size), size);
    if BlockAt(a, size) > BlockAt(b, size) {
      BaseIsMonotone(BlockAt(b, size) + 1, BlockAt(a, size), size);
    }
  }

  /** The bytes lie in 512 aligned ones. */
  predicate InSector(loc: nat, count: nat) {
    loc % 512 + count <= 512
  }

  /** What stays inside 512 aligned bytes stays inside a block of any size. */
  lemma SectorDoesNotSpan(size: BlockSize, loc: nat, count: nat)
    requires InSector(loc, count)
    ensures !Spans(size, loc, count)
  {
    if count > 0 {
      var q := loc / 512;
      assert (loc + count - 1) / 512 == q by { DivModUnique(loc + count - 1, 512, q, loc % 512 + count - 1); }
      SectorsOfBlock(size, loc);
      SectorsOfBlock(size, loc + count - 1);
    }
  }

  lemma SectorsOfBlock(size: BlockSize, addr: nat)
    ensures BlockAt(addr, size) == addr / 512 / (size / 512)
  {
    if size == 2048 {
      assert addr / 2048 == addr / 512 / 4;
    } else if size == 4096 {
      assert addr / 4096 == addr / 512 / 8;
    }
  }
}
