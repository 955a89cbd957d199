/** Turning the GPT of a hybrid image into an MBR partition table. */
module GptConvert {
  import opened Bytes
  import opened Blocks
  import opened DiskSpec
  import opened BlockDevice
  import opened InstallUndo
  import opened Gpt
  import opened GptSearch
  import opened PartitionTable

  const MAX_GPT_PARTITIONS: nat := 256

  /** The bytes that stay as they are, from `lo` up to `hi`. */
  ghost predicate Kept(d: Disk, d': Disk, lo: nat, hi: nat) {
    && |d| == |d'|
    && forall i :: lo <= i < hi && i < |d| ==> d'[i] == d[i]
  }

  lemma KeptTwice(a: Disk, b: Disk, c: Disk, lo: nat, hi: nat)
    requires Kept(a, b, lo, hi) && Kept(b, c, lo, hi)
    ensures Kept(a, c, lo, hi)
  {
  }

  // ----- gathering

  datatype Gathered = Parts(parts: seq<Part>) | Refused | Unreadable

  /** The parts are the entries in use, in order, each convertible. */
  ghost predicate Represents(parts: seq<Part>, used: seq<GptEntry>, h: Header, lb: BlockSize, lastBlock: int) {
    && |parts| == |used|
    && forall k :: 0 <= k < |used| ==>
         Convertible(used[k], h, lb, lastBlock) && parts[k] == ConvertedEntry(used[k], h, lb, lastBlock)
  }

  /** Reads every entry; refuses a fifth partition and any that cannot be expressed. */
  method Gather(dev: Device, h: Header, lb: BlockSize, base: nat, lastBlock: int, ghost original: Disk)
    returns (g: Gathered)
    requires Underway(dev, original) && h.entrySize >= ENTRY_BYTES
    requires EntryLoc(base, h.entrySize, h.entryCount) <= dev.medium.Length
    modifies dev`cachedBlock, dev`dirty, dev`faults, dev.medium, dev.cache
    ensures Underway(dev, original) && dev.Logical() == old(dev.Logical())
    ensures Steady(old(dev.faults)) ==> Steady(dev.faults)
    ensures Steady(old(dev.faults)) && g.Unreadable? ==>
              !dev.Reachable(base, EntryLoc(base, h.entrySize, h.entryCount) - base)
    ensures g.Refused? ==>
              var used := UsedEntries(dev.Logical(), base, h.entrySize, h.entryCount);
              |used| > 4 || exists k :: 0 <= k < |used| && !Convertible(used[k], h, lb, lastBlock)
    ensures g.Parts? ==>
              && |g.parts| <= 4
              && Represents(g.parts, UsedEntries(dev.Logical(), base, h.entrySize, h.entryCount), h, lb, lastBlock)
  {
    hide dev.Valid, Recoverable, dev.Writable, dev.Logical, ReachableOn, Slice, ParseEntry, InUse, Convertible,
         ConvertedEntry, EntryLoc, UsedEntries;
    dev.ValidBounds();
    ghost var disk := dev.Logical();
    var parts: seq<Part> := [];
    NoEntries(disk, base, h.entrySize, h.entryCount);
    for i: nat := 0 to h.entryCount
      invariant Underway(dev, original) && dev.Logical() == disk
      invariant Steady(old(dev.faults)) ==> Steady(dev.faults)
      invariant EntryLoc(base, h.entrySize, i) <= |disk| && |parts| <= 4
      invariant Represents(parts, UsedEntries(disk, base, h.entrySize, i), h, lb, lastBlock)
    {
      NextEntry(disk, base, h.entrySize, i, h.entryCount);
      EntryReachable(dev.size, dev.medium.Length, base, h.entrySize, i, h.entryCount);
      var offset := EntryLoc(base, h.entrySize, i);
      assert offset < TWO64;
      var got, bytes := Read(dev, offset, ENTRY_BYTES, original);
      if !got {
        return Unreadable;
      }
      var e := ParseEntry(bytes);
      if InUse(e) {
        UsedGrow(disk, base, h.entrySize, i + 1, h.entryCount);
        if |parts| == 4 || !Convertible(e, h, lb, lastBlock) {
          ghost var used := UsedEntries(disk, base, h.entrySize, h.entryCount);
          ghost var seen := UsedEntries(disk, base, h.entrySize, i + 1);
          assert used[|seen| - 1] == seen[|seen| - 1] == e;
          return Refused;
        }
        parts := parts + [ConvertedEntry(e, h, lb, lastBlock)];
      }
    }
    return Parts(parts);
  }

  lemma EntryReachable(block: BlockSize, length: nat, base: nat, size: nat, i: nat, n: nat)
    requires i < n && size >= ENTRY_BYTES
    ensures EntryLoc(base, size, n) >= base
    ensures ReachableOn(block, length, base, EntryLoc(base, size, n) - base) ==>
              ReachableOn(block, length, EntryLoc(base, size, i), ENTRY_BYTES)
  {
    hide ReachableOn;
    EntryInside(base, size, i, n);
    ReachablePart(block, length, base, n * size, i * size, ENTRY_BYTES);
  }

  lemma NoEntries(d: Disk, base: nat, size: nat, n: nat)
    requires size >= ENTRY_BYTES && EntryLoc(base, size, n) <= |d|
    ensures EntryLoc(base, size, 0) <= |d| && UsedEntries(d, base, size, 0) == []
  {
  }

  lemma NextEntry(d: Disk, base: nat, size: nat, i: nat, n: nat)
    requires size >= ENTRY_BYTES && EntryLoc(base, size, n) <= |d| && i < n
    ensures EntryLoc(base, size, i) + ENTRY_BYTES <= |d|
    ensures EntryLoc(base, size, i + 1) <= |d| && EntryLoc(base, size, i) <= |d|
    ensures var e := EntryAt(d, base, size, i);
            UsedEntries(d, base, size, i + 1) ==
            if InUse(e) then UsedEntries(d, base, size, i) + [e] else UsedEntries(d, base, size, i)
  {
    hide ParseEntry, InUse;
    EntryInside(base, size, i, n);
    MulMonotone(i + 1, n, size);
  }

  lemma {:induction false} UsedGrow(d: Disk, base: nat, size: nat, i: nat, n: nat)
    requires size >= ENTRY_BYTES && EntryLoc(base, size, n) <= |d| && i <= n
    ensures EntryLoc(base, size, i) <= |d| && UsedEntries(d, base, size, i) <= UsedEntries(d, base, size, n)
    decreases n - i
  {
    hide EntryLoc, UsedEntries, InUse, ParseEntry;
    if i < n {
      NextEntry(d, base, size, i, n);
      UsedGrow(d, base, size, i + 1, n);
    }
  }

  // ----- erasing

  /** The bytes from `lo` up to `hi` are zero, the rest as before. */
  ghost predicate Erased(d: Disk, d': Disk, lo: nat, hi: nat) {
    && |d| == |d'|
    && (lo < hi ==> hi <= |d|)
    && forall i :: 0 <= i < |d| ==> d'[i] == if lo <= i < hi then 0 else d[i]
  }

  lemma ErasedGrows(d: Disk, d': Disk, lo: nat, mid: nat, zeros: seq<Byte>)
    requires Erased(d, d', lo, mid) && lo <= mid && zeros != [] && mid + |zeros| <= |d|
    requires forall i :: 0 <= i < |zeros| ==> zeros[i] == 0
    ensures Erased(d, Overlay(d', mid, zeros), lo, mid + |zeros|)
  {
  }

  lemma ErasedNothing(d: Disk, lo: nat)
    ensures Erased(d, d, lo, lo)
  {
  }

  /** Writes a zero block over each block from `first` up to `end`. */
  method EraseBlocks(dev: Device, lb: BlockSize, first: nat, end: nat, ghost original: Disk) returns (ok: bool)
    requires Underway(dev, original) && first <= end && |dev.journal| + (end - first) <= UNINSTALL_DATA_MAX
    modifies dev`cachedBlock, dev`dirty, dev`faults, dev`journal, dev`damage, dev.medium, dev.cache
    ensures Undoable(dev, original) && (ok ==> Underway(dev, original))
    ensures Grown(old(dev.journal), dev.journal, end - first)
    ensures ok ==> Erased(old(dev.Logical()), dev.Logical(), Base(first, lb), Base(end, lb))
    ensures forall i :: i in dev.damage ==> Base(first, lb) <= i < Base(end, lb)
    ensures Steady(old(dev.faults)) ==>
              && Steady(dev.faults) && Underway(dev, original)
              && (ok <==> (first < end ==> dev.Reachable(Base(end - 1, lb), lb)))
  {
    hide dev.Valid, Recoverable, dev.Writable, dev.Logical, ReachableOn, Slice, Base, Erased, Overlay, NoneBlank,
         InSector;
    ghost var disk := dev.Logical();
    ErasedNothing(disk, Base(first, lb));
    var zeros := seq(lb, _ => 0);
    var lba := first;
    while lba < end
      invariant first <= lba <= end
      invariant Underway(dev, original) && |dev.journal| == |old(dev.journal)| + (lba - first)
      invariant NoneBlank(old(dev.journal)) ==> NoneBlank(dev.journal)
      invariant Erased(disk, dev.Logical(), Base(first, lb), Base(lba, lb))
      invariant Steady(old(dev.faults)) ==> Steady(dev.faults) && (lba > first ==> dev.Reachable(Base(lba - 1, lb), lb))
    {
      BlockReachable(dev.size, dev.medium.Length, lba, end, lb);
      dev.ValidBounds();
      if Base(lba, lb) >= TWO64 {
        return false;
      }
      ghost var before := dev.Logical();
      BaseIsMonotone(first, lba, lb);
      NextBase(lba, lb);
      BaseIsMonotone(lba + 1, end, lb);
      ok := Write(dev, zeros, Base(lba, lb), original);
      if !ok {
        return false;
      }
      ErasedGrows(disk, before, Base(first, lb), Base(lba, lb), zeros);
      lba := lba + 1;
    }
    return true;
  }

  /** When the last of some blocks is on the medium, so are the ones before it. */
  lemma BlockReachable(size: BlockSize, length: nat, lba: nat, end: nat, lb: BlockSize)
    requires lba < end
    ensures ReachableOn(size, length, Base(end - 1, lb), lb) ==>
              ReachableOn(size, length, Base(lba, lb), lb) && Base(lba, lb) + lb <= length
  {
    hide Base;
    if ReachableOn(size, length, Base(end - 1, lb), lb) {
      NextBase(end - 1, lb);
      NextBase(lba, lb);
      BaseIsMonotone(lba + 1, end, lb);
      var n := Base(end, lb) - Base(lba, lb);
      assert Base(lba, lb) + n - 1 == Base(end - 1, lb) + lb - 1;
      assert ReachableOn(size, length, Base(lba, lb), n);
      hide ReachableOn;
      ReachablePart(size, length, Base(lba, lb), n, 0, lb);
      ReachableOnMedium(size, length, Base(lba, lb), lb);
    }
  }

  // ----- settling what to erase

  /** Blocks behind the usable range, up to and including an alternate header. */
  datatype Wipe = Wipe(first: nat, last: nat)

  function AltReserve(lb: BlockSize): (r: nat)
    ensures 1 <= r <= 33
  {
    1 + (16384 + lb - 1) / lb
  }

  function PrimaryReserve(firstUsable: nat, lb: BlockSize): (r: nat)
    ensures 2 <= r <= 34 && Base(r, lb) <= 63 * SECTOR
  {
    var max := 2 + (16384 + lb - 1) / lb;
    if firstUsable < 2 then 2 else if firstUsable < max then firstUsable else max
  }

  /** The headers that must not survive: the one named, and the one at the end of a medium of `blocks` blocks. */
  function Alternates(f: Located, blocks: nat): (a: seq<nat>)
    requires f.Found?
    ensures |a| <= 2
    ensures forall k :: 0 <= k < |a| ==> a[k] >= AltReserve(f.lb)
  {
    var named := if f.lba != 1 then f.lba else f.header.alternateLba;
    var head := if named >= AltReserve(f.lb) then [named] else [];
    if blocks > AltReserve(f.lb) && (head == [] || named != blocks - 1) then head + [blocks - 1] else head
  }

  /** The block can be read and starts with the signature. */
  ghost predicate Signed(size: BlockSize, d: Disk, lba: nat, lb: BlockSize) {
    && Base(lba, lb) + HEADER_BYTES <= |d| && ReachableOn(size, |d|, Base(lba, lb), HEADER_BYTES)
    && Slice(d, Base(lba, lb), 8) == EFI_PART
  }

  /** What is erased for an alternate header: it and its reserve, as far as that is behind the usable range. */
  function WipeOf(lba: nat, h: Header, lb: BlockSize): (w: Wipe)
    requires h.lastUsable < lba && lba >= AltReserve(lb)
    ensures SoundWipe(w, h, lb) && w.last == lba
  {
    var first := lba - (AltReserve(lb) - 1);
    Wipe(if first <= h.lastUsable then h.lastUsable + 1 else first, lba)
  }

  ghost predicate SoundWipe(w: Wipe, h: Header, lb: BlockSize) {
    h.lastUsable < w.first <= w.last < w.first + AltReserve(lb)
  }

  /** The table calls one of its own alternates usable. */
  ghost predicate Trapped(size: BlockSize, d: Disk, f: Located, alternates: seq<nat>)
    requires f.Found?
  {
    exists k :: 0 <= k < |alternates| && alternates[k] <= f.header.lastUsable && Signed(size, d, alternates[k], f.lb)
  }

  /** One wipe for each of the alternates that is there, in order. */
  ghost function Wipes(size: BlockSize, d: Disk, f: Located, alternates: seq<nat>): (w: seq<Wipe>)
    requires f.Found? && forall k :: 0 <= k < |alternates| ==> alternates[k] >= AltReserve(f.lb)
    requires !Trapped(size, d, f, alternates)
    decreases |alternates|
  {
    if alternates == [] then []
    else
      var init, last := alternates[..|alternates| - 1], alternates[|alternates| - 1];
      UntrappedInit(size, d, f, alternates);
      var rest := Wipes(size, d, f, init);
      if Signed(size, d, last, f.lb) then rest + [WipeOf(last, f.header, f.lb)] else rest
  }

  /** The wipes leave no alternate out. */
  lemma {:induction false} WipesCover(size: BlockSize, d: Disk, f: Located, alternates: seq<nat>, k: nat)
    requires f.Found? && forall k :: 0 <= k < |alternates| ==> alternates[k] >= AltReserve(f.lb)
    requires !Trapped(size, d, f, alternates) && k < |alternates| && Signed(size, d, alternates[k], f.lb)
    ensures Covered(Wipes(size, d, f, alternates), alternates[k])
    decreases |alternates|
  {
    hide Signed, Trapped, Covered;
    var init, last := alternates[..|alternates| - 1], alternates[|alternates| - 1];
    UntrappedInit(size, d, f, alternates);
    var rest := Wipes(size, d, f, init);
    if k < |init| {
      WipesCover(size, d, f, init, k);
    }
    if Signed(size, d, last, f.lb) {
      CoveredGrows(rest, WipeOf(last, f.header, f.lb), alternates);
    }
  }

  lemma UntrappedInit(size: BlockSize, d: Disk, f: Located, alternates: seq<nat>)
    requires f.Found? && !Trapped(size, d, f, alternates) && alternates != []
    ensures !Trapped(size, d, f, alternates[..|alternates| - 1])
    ensures Signed(size, d, alternates[|alternates| - 1], f.lb) ==> alternates[|alternates| - 1] > f.header.lastUsable
  {
    hide Signed;
    var init := alternates[..|alternates| - 1];
    assert forall k :: 0 <= k < |init| ==> init[k] == alternates[k];
  }

  /** An alternate is the last block of one of the wipes. */
  ghost predicate Covered(wipes: seq<Wipe>, lba: nat) {
    exists w :: w in wipes && w.last == lba
  }

  lemma CoveredGrows(wipes: seq<Wipe>, w: Wipe, done: seq<nat>)
    ensures Covered(wipes + [w], w.last)
    ensures forall k :: 0 <= k < |done| && Covered(wipes, done[k]) ==> Covered(wipes + [w], done[k])
  {
    assert w in wipes + [w];
    forall k | 0 <= k < |done| && Covered(wipes, done[k])
      ensures Covered(wipes + [w], done[k])
    {
      var v :| v in wipes && v.last == done[k];
      assert v in wipes + [w];
    }
  }

  lemma SignatureOf(d: Disk, loc: nat, bytes: seq<Byte>)
    requires loc + HEADER_BYTES <= |d| && bytes == Slice(d, loc, HEADER_BYTES)
    ensures bytes[..8] == Slice(d, loc, 8)
  {
  }

  method ListAlternates(dev: Device, f: Located) returns (alternates: seq<nat>, ghost blocks: nat)
    requires f.Found? && dev.medium.Length <= TWO64
    modifies dev`faults
    ensures alternates == Alternates(f, blocks) && blocks <= BlockCount(dev.medium.Length, f.lb)
    ensures Steady(old(dev.faults)) ==> Steady(dev.faults) && blocks == BlockCount(dev.medium.Length, f.lb)
  {
    hide AltReserve, BlockCount;
    alternates := [];
    if f.lba != 1 {
      if f.lba >= AltReserve(f.lb) {
        alternates := [f.lba];
      }
    } else if f.header.alternateLba >= AltReserve(f.lb) {
      alternates := [f.header.alternateLba];
    }
    var have, last := LastBlock(dev, f.lb);
    blocks := if have then last as nat + 1 else 0;
    if have && last >= AltReserve(f.lb) && (|alternates| == 0 || alternates[0] != last) {
      alternates := alternates + [last];
    }
  }

  /** Whether an alternate header is there: read, and signed. */
  method ProbeAlternate(dev: Device, lba: nat, lb: BlockSize, ghost original: Disk) returns (signed: bool)
    requires Underway(dev, original)
    modifies dev`cachedBlock, dev`dirty, dev`faults, dev.medium, dev.cache
    ensures Underway(dev, original) && dev.Logical() == old(dev.Logical())
    ensures signed ==> Signed(dev.size, dev.Logical(), lba, lb)
    ensures Steady(old(dev.faults)) ==> Steady(dev.faults) && (signed <==> Signed(dev.size, dev.Logical(), lba, lb))
  {
    hide dev.Valid, Recoverable, dev.Writable, dev.Logical, ReachableOn, Base;
    dev.ValidBounds();
    if Base(lba, lb) >= TWO64 {
      return false;
    }
    OnMedium(dev.size, dev.medium.Length, Base(lba, lb));
    var got, bytes := Read(dev, Base(lba, lb), HEADER_BYTES, original);
    if !got {
      return false;
    }
    SignatureOf(dev.Logical(), Base(lba, lb), bytes);
    return bytes[..8] == EFI_PART;
  }

  /**
   Which alternates to erase, all decided before the first write. A table that calls
   its own alternate usable stops the run.
   */
  method Settle(dev: Device, f: Located, ghost original: Disk) returns (ok: bool, wipes: seq<Wipe>, ghost blocks: nat)
    requires Underway(dev, original) && f.Found?
    modifies dev`cachedBlock, dev`dirty, dev`faults, dev.medium, dev.cache
    ensures Underway(dev, original) && dev.Logical() == old(dev.Logical())
    ensures blocks <= BlockCount(dev.medium.Length, f.lb)
    ensures |wipes| <= 2 && forall k :: 0 <= k < |wipes| ==> SoundWipe(wipes[k], f.header, f.lb)
    ensures forall k :: 0 <= k < |wipes| ==>
                          wipes[k].last in Alternates(f, blocks) && Signed(dev.size, dev.Logical(), wipes[k].last, f.lb)
    ensures !ok ==> Trapped(dev.size, dev.Logical(), f, Alternates(f, blocks))
    ensures Steady(old(dev.faults)) ==> Steady(dev.faults) && blocks == BlockCount(dev.medium.Length, f.lb)
    ensures Steady(old(dev.faults)) && ok ==>
              && !Trapped(dev.size, dev.Logical(), f, Alternates(f, blocks))
              && wipes == Wipes(dev.size, dev.Logical(), f, Alternates(f, blocks))
  {
    hide dev.Valid, Recoverable, dev.Writable, dev.Logical, Signed, AltReserve, BlockCount, Alternates;
    dev.ValidBounds();
    ghost var disk := dev.Logical();
    var alternates;
    alternates, blocks := ListAlternates(dev, f);
    wipes := [];
    for i := 0 to |alternates|
      invariant Underway(dev, original) && dev.Logical() == disk && |wipes| <= i
      invariant Steady(old(dev.faults)) ==> Steady(dev.faults)
      invariant forall k :: 0 <= k < |wipes| ==> SoundWipe(wipes[k], f.header, f.lb)
      invariant forall k :: 0 <= k < |wipes| ==>
                wipes[k].last in alternates && Signed(dev.size, disk, wipes[k].last, f.lb)
      invariant Steady(old(dev.faults)) ==>
                  && !Trapped(dev.size, disk, f, alternates[..i])
                  && wipes == Wipes(dev.size, disk, f, alternates[..i])
    {
      var alternate := alternates[i];
      assert alternates[..i + 1][..i] == alternates[..i] && alternates[..i + 1][i] == alternate;
      var signed := ProbeAlternate(dev, alternate, f.lb, original);
      if signed {
        if f.header.lastUsable >= alternate {
          assert alternates[i] <= f.header.lastUsable && Signed(dev.size, disk, alternates[i], f.lb);
          return false, wipes, blocks;
        }
        wipes := wipes + [WipeOf(alternate, f.header, f.lb)];
      }
      assert Steady(old(dev.faults)) ==> !Trapped(dev.size, disk, f, alternates[..i + 1]) by {
        if Steady(old(dev.faults)) { UntrappedSnoc(dev.size, disk, f, alternates[..i], alternate); }
        assert alternates[..i] + [alternate] == alternates[..i + 1];
      }
    }
    assert alternates[..|alternates|] == alternates;
    return true, wipes, blocks;
  }

  lemma UntrappedSnoc(size: BlockSize, d: Disk, f: Located, alternates: seq<nat>, lba: nat)
    requires f.Found? && !Trapped(size, d, f, alternates) && (Signed(size, d, lba, f.lb) ==> lba > f.header.lastUsable)
    ensures !Trapped(size, d, f, alternates + [lba])
  {
    hide Signed;
    var all := alternates + [lba];
    forall k | 0 <= k < |all| && Signed(size, d, all[k], f.lb)
      ensures all[k] > f.header.lastUsable
    {
      if k < |alternates| {
        assert all[k] == alternates[k];
      }
    }
  }

  // ----- what erasing leaves

  /** Byte `i` lies in one of the wipes. */
  ghost predicate InWipes(wipes: seq<Wipe>, lb: BlockSize, i: int) {
    exists w :: w in wipes && Base(w.first, lb) <= i < Base(w.last + 1, lb)
  }

  /** Byte `i` is erased: the primary reserve, or one of the wipes. */
  ghost predicate Swept(f: Located, wipes: seq<Wipe>, i: int)
    requires f.Found?
  {
    0 <= i < Base(PrimaryReserve(f.header.firstUsable, f.lb), f.lb) || InWipes(wipes, f.lb, i)
  }

  /** From `lo` on, exactly the erased bytes are zero and the others as before. */
  ghost predicate SweptFrom(d: Disk, d': Disk, f: Located, wipes: seq<Wipe>, lo: nat)
    requires f.Found?
  {
    && |d| == |d'|
    && forall i :: lo <= i < |d| ==> d'[i] == if Swept(f, wipes, i) then 0 else d[i]
  }

  lemma SweptFirst(d: Disk, d': Disk, f: Located)
    requires f.Found? && Erased(d, d', Base(0, f.lb), Base(PrimaryReserve(f.header.firstUsable, f.lb), f.lb))
    ensures SweptFrom(d, d', f, [], 0)
  {
    assert Base(0, f.lb) == 0;
  }

  lemma SweptNext(d: Disk, now: Disk, d': Disk, f: Located, done: seq<Wipe>, w: Wipe)
    requires f.Found? && SweptFrom(d, now, f, done, 0) && Erased(now, d', Base(w.first, f.lb), Base(w.last + 1, f.lb))
    ensures SweptFrom(d, d', f, done + [w], 0)
  {
    hide Base, PrimaryReserve;
    forall i | 0 <= i < |d|
      ensures Swept(f, done + [w], i) <==> Swept(f, done, i) || Base(w.first, f.lb) <= i < Base(w.last + 1, f.lb)
    {
      InWipesSnoc(done, w, f.lb, i);
    }
  }

  lemma InWipesSnoc(done: seq<Wipe>, w: Wipe, lb: BlockSize, i: int)
    ensures InWipes(done + [w], lb, i) <==> InWipes(done, lb, i) || Base(w.first, lb) <= i < Base(w.last + 1, lb)
  {
    hide Base;
    if InWipes(done, lb, i) {
      var v :| v in done && Base(v.first, lb) <= i < Base(v.last + 1, lb);
      assert v in done + [w];
    }
    assert w in done + [w];
  }

  /** All the blocks to erase are on the medium in full. */
  ghost predicate Erasable(size: BlockSize, length: nat, f: Located, wipes: seq<Wipe>)
    requires f.Found?
  {
    && ReachableOn(size, length, Base(PrimaryReserve(f.header.firstUsable, f.lb) - 1, f.lb), f.lb)
    && forall k :: 0 <= k < |wipes| ==> ReachableOn(size, length, Base(wipes[k].last, f.lb), f.lb)
  }

  /** Erases the primary table and every settled alternate, and nothing else. */
  method EraseTables(dev: Device, f: Located, wipes: seq<Wipe>, ghost original: Disk) returns (ok: bool)
    requires Underway(dev, original) && f.Found? && |dev.journal| + 100 <= UNINSTALL_DATA_MAX
    requires |wipes| <= 2 && forall k :: 0 <= k < |wipes| ==> SoundWipe(wipes[k], f.header, f.lb)
    modifies dev`cachedBlock, dev`dirty, dev`faults, dev`journal, dev`damage, dev.medium, dev.cache
    ensures Undoable(dev, original) && (ok ==> Underway(dev, original)) && Grown(old(dev.journal), dev.journal, 100)
    ensures ok ==> SweptFrom(old(dev.Logical()), dev.Logical(), f, wipes, 0)
    ensures forall i :: i in dev.damage ==> Swept(f, wipes, i)
    ensures ok ==> Base(PrimaryReserve(f.header.firstUsable, f.lb), f.lb) <= dev.medium.Length
    ensures Steady(old(dev.faults)) ==>
              Steady(dev.faults) && Underway(dev, original) && (ok <==> Erasable(dev.size, dev.medium.Length, f, wipes))
  {
    hide dev.Valid, Recoverable, dev.Writable, dev.Logical, ReachableOn, Base, Erased, SweptFrom, NoneBlank;
    ghost var disk := dev.Logical();
    var reserve := PrimaryReserve(f.header.firstUsable, f.lb);
    FirstBelow(reserve, f.lb);
    ok := EraseBlocks(dev, f.lb, 0, reserve, original);
    if !ok {
      return;
    }
    SweptFirst(disk, dev.Logical(), f);
    ErasedLength(disk, dev.Logical(), Base(0, f.lb), Base(reserve, f.lb));
    var k := 0;
    while k < |wipes|
      invariant 0 <= k <= |wipes|
      invariant Underway(dev, original) && Grown(old(dev.journal), dev.journal, 34 + 33 * k)
      invariant SweptFrom(disk, dev.Logical(), f, wipes[..k], 0)
      invariant Steady(old(dev.faults)) ==>
                  && Steady(dev.faults)
                  && forall j :: 0 <= j < k ==>
                       ReachableOn(dev.size, dev.medium.Length, Base(wipes[j].last, f.lb), f.lb)
    {
      var w := wipes[k];
      ghost var now := dev.Logical();
      assert w in wipes;
      ok := EraseBlocks(dev, f.lb, w.first, w.last + 1, original);
      if !ok {
        return;
      }
      SweptNext(disk, now, dev.Logical(), f, wipes[..k], w);
      assert wipes[..k + 1] == wipes[..k] + [w];
      k := k + 1;
    }
    assert wipes[..k] == wipes;
  }

  lemma FirstBelow(reserve: nat, lb: BlockSize)
    requires reserve >= 1
    ensures 0 == Base(0, lb) < Base(reserve, lb)
  {
    BaseIsMonotone(1, reserve, lb);
  }

  lemma ErasedLength(d: Disk, d': Disk, lo: nat, hi: nat)
    requires Erased(d, d', lo, hi)
    ensures |d| == |d'| && (lo < hi ==> hi <= |d|)
  {
  }

  /** The range every converted partition lies in. */
  ghost predicate PartitionsKept(d: Disk, d': Disk, h: Header, lb: BlockSize) {
    Kept(d, d', 63 * SECTOR, Base(h.lastUsable + 1, lb))
  }

  /** No byte between sector 63 and the end of the usable range is erased. */
  lemma SweptIsOutside(f: Located, wipes: seq<Wipe>, i: int)
    requires f.Found? && Swept(f, wipes, i) && forall k :: 0 <= k < |wipes| ==> SoundWipe(wipes[k], f.header, f.lb)
    ensures i < 63 * SECTOR || Base(f.header.lastUsable + 1, f.lb) <= i
  {
    assert Base(PrimaryReserve(f.header.firstUsable, f.lb), f.lb) <= 63 * SECTOR;
    hide Base, PrimaryReserve;
    if w :| w in wipes && Base(w.first, f.lb) <= i < Base(w.last + 1, f.lb) {
      BaseIsMonotone(f.header.lastUsable + 1, w.first, f.lb);
    }
  }

  lemma SweptKeepsPartitions(d: Disk, d': Disk, f: Located, wipes: seq<Wipe>, lo: nat)
    requires f.Found? && SweptFrom(d, d', f, wipes, lo) && lo <= 63 * SECTOR
    requires forall k :: 0 <= k < |wipes| ==> SoundWipe(wipes[k], f.header, f.lb)
    ensures PartitionsKept(d, d', f.header, f.lb)
  {
    hide Base, Swept, SoundWipe;
    forall i | 63 * SECTOR <= i < Base(f.header.lastUsable + 1, f.lb) && i < |d|
      ensures !Swept(f, wipes, i)
    {
      if Swept(f, wipes, i) { SweptIsOutside(f, wipes, i); }
    }
  }

  /** Bytes `at` to `at + 7` are all erased, so no signature starts there. */
  lemma SweptUnsigned(size: BlockSize, d: Disk, d': Disk, f: Located, wipes: seq<Wipe>, lba: nat)
    requires f.Found? && SweptFrom(d, d', f, wipes, 512)
    requires || lba == 1
             || (&& lba >= 1 && Covered(wipes, lba)
                 && forall k :: 0 <= k < |wipes| ==> wipes[k].first <= wipes[k].last)
    ensures !Signed(size, d', lba, f.lb)
  {
    var at, lb := Base(lba, f.lb), f.lb;
    if at + HEADER_BYTES <= |d| {
      BaseIsMonotone(1, lba, lb);
      assert Base(1, lb) >= 512;
      assert Base(2, lb) >= Base(1, lb) + 8 && Base(2, lb) <= Base(PrimaryReserve(f.header.firstUsable, lb), lb) by {
        BaseIsMonotone(2, PrimaryReserve(f.header.firstUsable, lb), lb);
      }
      NextBase(lba, lb);
      hide Base, PrimaryReserve, ReachableOn;
      if lba != 1 {
        var w :| w in wipes && w.last == lba;
        BaseIsMonotone(w.first, lba, lb);
        assert InWipes(wipes, lb, at);
      }
      assert Swept(f, wipes, at);
      assert d'[at] == 0;
      assert Slice(d', at, 8)[0] == 0 != EFI_PART[0];
    }
  }

  // ----- writing the table

  const TABLE: nat := 0x1be

  /** Entry `k` of the partition table in block 0. */
  function EntrySlice(d: Disk, k: nat): (s: seq<Byte>)
    requires |d| >= 512 && k < 4
    ensures |s| == 16
  {
    d[TABLE + 16 * k..TABLE + 16 * k + 16]
  }

  const BLANK: seq<Byte> := [0, 0, 0, 0, 0, 0, 0, 0, 0, 0, 0, 0, 0, 0, 0, 0]

  /** Five writes in the order of the source fill a blank entry. */
  function PartWritten(d: Disk, at: nat, p: Part): (d': Disk)
    requires at + 16 <= |d| && SoundPart(p)
    ensures |d'| == |d|
  {
    var a := Overlay(d, at + 4, [p.kind]);
    var b := Overlay(a, at + 8, LittleEndian32(p.first));
    var c := Overlay(b, at + 12, LittleEndian32(p.last - p.first + 1));
    var e := Overlay(c, at + 1, p.chsFirst);
    Overlay(e, at + 5, p.chsLast)
  }

  lemma PartFilled(d: Disk, at: nat, p: Part)
    requires at + 16 <= |d| && SoundPart(p) && d[at..at + 16] == BLANK
    ensures PartWritten(d, at, p)[at..at + 16] == PartBytes(p)
    ensures forall i :: 0 <= i < |d| && !(at <= i < at + 16) ==> PartWritten(d, at, p)[i] == d[i]
  {
    hide LittleEndian32;
    assert d[at] == d[at..at + 16][0];
    var d' := PartWritten(d, at, p);
    forall i | 0 <= i < 16
      ensures d'[at + i] == PartBytes(p)[i]
    {
    }
  }

  lemma FieldsReachable(dev: Device, at: nat)
    requires at + 16 <= 512
    ensures dev.Inside(0) ==>
              && dev.Reachable(at + 4, 1) && dev.Reachable(at + 8, 4) && dev.Reachable(at + 12, 4)
              && dev.Reachable(at + 1, 3) && dev.Reachable(at + 5, 3)
  {
    if dev.Inside(0) {
      FirstBlock(dev, at + 4, 1);
      FirstBlock(dev, at + 8, 4);
      FirstBlock(dev, at + 12, 4);
      FirstBlock(dev, at + 1, 3);
      FirstBlock(dev, at + 5, 3);
    }
  }

  method WritePart(dev: Device, p: Part, at: nat, ghost original: Disk) returns (ok: bool)
    requires Underway(dev, original) && SoundPart(p) && |dev.journal| + 5 <= UNINSTALL_DATA_MAX
    requires at + 16 <= 512 <= dev.medium.Length
    modifies dev`cachedBlock, dev`dirty, dev`faults, dev`journal, dev`damage, dev.medium, dev.cache
    ensures Underway(dev, original) && Grown(old(dev.journal), dev.journal, 5)
    ensures ok ==> dev.Logical() == PartWritten(old(dev.Logical()), at, p)
    ensures Steady(old(dev.faults)) ==> Steady(dev.faults) && (dev.Inside(0) ==> ok)
  {
    hide dev.Valid, Recoverable, dev.Writable, dev.Logical, ReachableOn, Slice, Overlay, LittleEndian32, dev.Inside,
         NoneBlank, InSector;
    FieldsReachable(dev, at);
    ok := Write(dev, [p.kind], at + 4, original);
    if !ok { return; }
    ok := Write(dev, LittleEndian32(p.first), at + 8, original);
    if !ok { return; }
    ok := Write(dev, LittleEndian32(p.last - p.first + 1), at + 12, original);
    if !ok { return; }
    ok := Write(dev, p.chsFirst, at + 1, original);
    if !ok { return; }
    ok := Write(dev, p.chsLast, at + 5, original);
  }

  /** The identifier derived from the disk's GUID. */
  function Fnv(guid: seq<Byte>): bv32 {
    if guid == [] then 2166136261
    else (Fnv(guid[..|guid| - 1]) ^ guid[|guid| - 1] as bv32) * 16777619
  }

  function DiskId(guid: seq<Byte>): (id: U32)
    ensures id != 0
  {
    var id := Fnv(guid) as int;
    if id == 0 then 1 else id
  }

  /** The sector holds exactly the parts, the identifier and the boot signature; the rest of it is zero. */
  ghost predicate TableIs(d: Disk, parts: seq<Part>, guid: seq<Byte>) {
    && |d| >= 512 && |parts| <= 4
    && (forall k :: 0 <= k < |parts| ==> SoundPart(parts[k]) && EntrySlice(d, k) == PartBytes(parts[k]))
    && (forall k :: |parts| <= k < 4 ==> EntrySlice(d, k) == BLANK)
    && d[0x1b8..0x1bc] == LittleEndian32(DiskId(guid))
    && d[510] == 0x55 && d[511] == 0xaa
    && forall i :: 0 <= i < 0x1b8 || 0x1bc <= i < TABLE ==> d[i] == 0
  }

  /** The first `n` entries are written, the rest blank. */
  ghost predicate TableSoFar(d: Disk, parts: seq<Part>, n: nat) {
    && |d| >= 512 && n <= |parts| <= 4
    && (forall k :: 0 <= k < n ==> SoundPart(parts[k]) && EntrySlice(d, k) == PartBytes(parts[k]))
    && (forall k :: n <= k < 4 ==> EntrySlice(d, k) == BLANK)
  }

  lemma TableGrows(d: Disk, parts: seq<Part>, n: nat)
    requires TableSoFar(d, parts, n) && n < |parts| && SoundPart(parts[n])
    ensures TableSoFar(PartWritten(d, TABLE + 16 * n, parts[n]), parts, n + 1)
    ensures Kept(d, PartWritten(d, TABLE + 16 * n, parts[n]), 0, TABLE)
    ensures Kept(d, PartWritten(d, TABLE + 16 * n, parts[n]), 510, |d|)
  {
    hide PartBytes, PartWritten;
    var at := TABLE + 16 * n;
    var d' := PartWritten(d, at, parts[n]);
    assert d[at..at + 16] == EntrySlice(d, n);
    PartFilled(d, at, parts[n]);
    forall k | 0 <= k < 4 && k != n
      ensures EntrySlice(d', k) == EntrySlice(d, k)
    {
    }
  }

  method WriteId(dev: Device, id: U32, ghost original: Disk) returns (ok: bool)
    requires Underway(dev, original) && 512 <= dev.medium.Length && |dev.journal| + 4 <= UNINSTALL_DATA_MAX
    modifies dev`cachedBlock, dev`dirty, dev`faults, dev`journal, dev`damage, dev.medium, dev.cache
    ensures Underway(dev, original) && Grown(old(dev.journal), dev.journal, 4)
    ensures ok ==> dev.Logical() == Overlay(old(dev.Logical()), 0x1b8, LittleEndian32(id))
    ensures Steady(old(dev.faults)) ==> Steady(dev.faults) && (dev.Inside(0) ==> ok)
  {
    hide dev.Valid, Recoverable, dev.Writable, dev.Logical, ReachableOn, Slice, LittleEndian32, Overlay, NoneBlank,
         InSector;
    var bytes := LittleEndian32(id);
    ghost var disk := dev.Logical();
    EmptyOverlay(disk, 0x1b8);
    for i := 0 to 4
      invariant Underway(dev, original) && |dev.journal| == |old(dev.journal)| + i
      invariant NoneBlank(old(dev.journal)) ==> NoneBlank(dev.journal)
      invariant Steady(old(dev.faults)) ==> Steady(dev.faults)
      invariant dev.Logical() == Overlay(disk, 0x1b8, bytes[..i])
    {
      assert bytes[i..i + 1] == [bytes[i]];
      OverlayGrows(disk, 0x1b8, bytes, i, 1);
      if dev.Inside(0) { FirstBlock(dev, 0x1b8 + i, 1); }
      ok := Write(dev, [bytes[i]], 0x1b8 + i, original);
      if !ok { return; }
    }
    assert bytes[..4] == bytes;
    ok := true;
  }

  /** Over a zeroed first sector: identifier, entries, boot signature. */
  method WriteTable(dev: Device, parts: seq<Part>, guid: seq<Byte>, ghost original: Disk) returns (ok: bool)
    requires Underway(dev, original) && 512 <= dev.medium.Length && |dev.journal| + 25 <= UNINSTALL_DATA_MAX
    requires |parts| <= 4 && forall k :: 0 <= k < |parts| ==> SoundPart(parts[k])
    requires forall i :: 0 <= i < 512 ==> dev.Logical()[i] == 0
    modifies dev`cachedBlock, dev`dirty, dev`faults, dev`journal, dev`damage, dev.medium, dev.cache
    ensures Underway(dev, original) && Grown(old(dev.journal), dev.journal, 25)
    ensures ok ==>
              TableIs(dev.Logical(), parts, guid) && Kept(old(dev.Logical()), dev.Logical(), 512, dev.medium.Length)
    ensures Steady(old(dev.faults)) ==> Steady(dev.faults) && (dev.Inside(0) ==> ok)
  {
    hide dev.Valid, Recoverable, dev.Writable, dev.Logical, ReachableOn, Slice, LittleEndian32, Overlay, DiskId,
         PartWritten, Kept, TableSoFar, TableIs, dev.Inside, NoneBlank, InSector;
    ghost var disk, length := dev.Logical(), dev.medium.Length;
    var id := DiskId(guid);
    ok := WriteId(dev, id, original);
    if !ok { return; }
    ghost var marked := dev.Logical();
    TableBlank(disk, LittleEndian32(id), parts);
    KeptNothing(marked, 0, TABLE);
    KeptNothing(marked, 510, length);
    for i := 0 to |parts|
      invariant Underway(dev, original) && Grown(old(dev.journal), dev.journal, 4 + 5 * i)
      invariant Steady(old(dev.faults)) ==> Steady(dev.faults)
      invariant TableSoFar(dev.Logical(), parts, i)
      invariant Kept(marked, dev.Logical(), 0, TABLE) && Kept(marked, dev.Logical(), 510, length)
    {
      ghost var now := dev.Logical();
      TableGrows(now, parts, i);
      ok := WritePart(dev, parts[i], TABLE + 16 * i, original);
      if !ok { return; }
      KeptTwice(marked, now, dev.Logical(), 0, TABLE);
      KeptTwice(marked, now, dev.Logical(), 510, length);
    }
    ghost var filled := dev.Logical();
    if dev.Inside(0) { FirstBlock(dev, 510, 2); }
    ok := Write(dev, [0x55, 0xaa], 510, original);
    if ok {
      TableDone(disk, marked, filled, parts, guid);
    }
  }

  lemma KeptNothing(d: Disk, lo: nat, hi: nat)
    ensures Kept(d, d, lo, hi)
  {
  }

  lemma TableBlank(d: Disk, id: seq<Byte>, parts: seq<Part>)
    requires |d| >= 512 && |id| == 4 && |parts| <= 4 && forall i :: 0 <= i < 512 ==> d[i] == 0
    ensures TableSoFar(Overlay(d, 0x1b8, id), parts, 0)
  {
  }

  lemma TableDone(d: Disk, marked: Disk, filled: Disk, parts: seq<Part>, guid: seq<Byte>)
    requires |d| >= 512 && (forall i :: 0 <= i < 512 ==> d[i] == 0)
    requires marked == Overlay(d, 0x1b8, LittleEndian32(DiskId(guid)))
    requires TableSoFar(filled, parts, |parts|)
    requires Kept(marked, filled, 0, TABLE) && Kept(marked, filled, 510, |d|)
    ensures TableIs(Overlay(filled, 510, [0x55, 0xaa]), parts, guid)
    ensures Kept(d, Overlay(filled, 510, [0x55, 0xaa]), 512, |d|)
  {
    hide LittleEndian32, DiskId, PartBytes;
    var end := Overlay(filled, 510, [0x55, 0xaa]);
    forall k | 0 <= k < 4
      ensures EntrySlice(end, k) == EntrySlice(filled, k)
    {
    }
    var id := LittleEndian32(DiskId(guid));
    assert end[0x1b8..0x1bc] == marked[0x1b8..0x1bc] == id;
  }

  // ----- the conversion

  datatype Conversion = Converted(parts: seq<Part>) | NotConverted | Stopped

  predicate ArrayFits(d: Disk, f: Located) {
    && f.Found? && f.header.entrySize >= ENTRY_BYTES
    && EntryLoc(Base(f.header.entryLba, f.lb), f.header.entrySize, f.header.entryCount) <= |d|
  }

  /** Every block of the entry array lies on the medium. */
  ghost predicate ArrayReachable(size: BlockSize, d: Disk, f: Located) {
    && ArrayFits(d, f)
    && var base := Base(f.header.entryLba, f.lb);
       ReachableOn(size, |d|, base, EntryLoc(base, f.header.entrySize, f.header.entryCount) - base)
  }

  /** Everything the table in use declares. */
  function DeclaredEntries(d: Disk, f: Located): seq<GptEntry>
    requires ArrayFits(d, f)
  {
    UsedEntries(d, Base(f.header.entryLba, f.lb), f.header.entrySize, f.header.entryCount)
  }

  lemma ChosenArray(size: BlockSize, d: Disk, f: Located)
    requires Chosen(size, d, f)
    ensures ArrayFits(d, f) && ArrayReachable(size, d, f)
  {
    hide HeaderVerified, PowerOfTwo, Matches, Base, HeaderAt, ReachableOn;
  }

  /**
   On `d'` the parts of the table of `d` are written in the first sector, and behind it
   exactly the old tables are erased.
   */
  ghost predicate Committed(d: Disk, d': Disk, f: Located, parts: seq<Part>, wipes: seq<Wipe>) {
    && ArrayFits(d, f)
    && Represents(parts, DeclaredEntries(d, f), f.header, f.lb, BlockCount(|d|, f.lb) - 1)
    && TableIs(d', parts, f.header.guid)
    && (forall k :: 0 <= k < |wipes| ==> SoundWipe(wipes[k], f.header, f.lb))
    && SweptFrom(d, d', f, wipes, 512)
  }

  /**
   After a commit no byte of a partition has changed, and neither the primary header nor a
   wiped alternate is left.
   */
  lemma CommittedIsClean(size: BlockSize, d: Disk, d': Disk, f: Located, parts: seq<Part>, wipes: seq<Wipe>)
    requires Committed(d, d', f, parts, wipes)
    ensures PartitionsKept(d, d', f.header, f.lb)
    ensures !Signed(size, d', 1, f.lb)
    ensures forall k :: 0 <= k < |wipes| ==> !Signed(size, d', wipes[k].last, f.lb)
  {
    hide TableIs, Represents, Signed, Swept, Base, EntryLoc, UsedEntries;
    SweptKeepsPartitions(d, d', f, wipes, 512);
    SweptUnsigned(size, d, d', f, wipes, 1);
    forall k | 0 <= k < |wipes|
      ensures !Signed(size, d', wipes[k].last, f.lb)
    {
      assert wipes[k] in wipes;
      SweptUnsigned(size, d, d', f, wipes, wipes[k].last);
    }
  }

  /** Erasing never makes a header appear. */
  lemma SweptNeverSigns(size: BlockSize, d: Disk, d': Disk, f: Located, wipes: seq<Wipe>, lba: nat)
    requires f.Found? && SweptFrom(d, d', f, wipes, 512) && lba >= 1 && Signed(size, d', lba, f.lb)
    ensures Signed(size, d, lba, f.lb)
  {
    var at := Base(lba, f.lb);
    BaseIsMonotone(1, lba, f.lb);
    assert at >= 512;
    hide Base, ReachableOn, Swept;
    forall i | 0 <= i < 8
      ensures d[at + i] == EFI_PART[i]
    {
      assert Slice(d', at, 8)[i] == d'[at + i];
    }
    assert Slice(d, at, 8) == EFI_PART;
  }

  /** None of the headers that must not survive is there. */
  ghost predicate NoAlternates(size: BlockSize, d: Disk, f: Located, alternates: seq<nat>)
    requires f.Found?
  {
    forall k :: 0 <= k < |alternates| ==> !Signed(size, d, alternates[k], f.lb)
  }

  /** With every alternate settled, none is left. */
  lemma AlternatesGone(size: BlockSize, d: Disk, d': Disk, f: Located, parts: seq<Part>, blocks: nat)
    requires f.Found? && !Trapped(size, d, f, Alternates(f, blocks))
    requires Committed(d, d', f, parts, Wipes(size, d, f, Alternates(f, blocks)))
    ensures NoAlternates(size, d', f, Alternates(f, blocks))
  {
    hide Signed, TableIs, Represents, Alternates, SoundWipe, Wipes, EntryLoc, UsedEntries, Base, Trapped;
    var alternates := Alternates(f, blocks);
    var wipes := Wipes(size, d, f, alternates);
    CommittedIsClean(size, d, d', f, parts, wipes);
    forall k | 0 <= k < |alternates|
      ensures !Signed(size, d', alternates[k], f.lb)
    {
      if Signed(size, d, alternates[k], f.lb) {
        WipesCover(size, d, f, alternates, k);
        var w :| w in wipes && w.last == alternates[k];
      } else if Signed(size, d', alternates[k], f.lb) {
        SweptNeverSigns(size, d, d', f, wipes, alternates[k]);
      }
    }
  }

  /**
   Why a conversion is declined, `last` being the last block the probes found, or -1:
   no such block, too many entries, too many partitions, or one that cannot be expressed.
   */
  ghost predicate Inconvertible(d: Disk, f: Located, last: int) {
    && ArrayFits(d, f)
    && (last < 0
        || f.header.entryCount > MAX_GPT_PARTITIONS
        || |DeclaredEntries(d, f)| > 4
        || exists k :: 0 <= k < |DeclaredEntries(d, f)| &&
                       !Convertible(DeclaredEntries(d, f)[k], f.header, f.lb, last))
  }

  /**
   Why a conversion that was begun stops: a partition starts below sector 63, an
   alternate header lies in the usable range, or a block to erase is not on the medium
   in full.
   */
  ghost predicate Stops(size: BlockSize, d: Disk, f: Located) {
    && ArrayFits(d, f)
    && var alternates := Alternates(f, BlockCount(|d|, f.lb));
       || (exists k :: 0 <= k < |DeclaredEntries(d, f)| && LowStart(DeclaredEntries(d, f)[k], f.lb))
       || Trapped(size, d, f, alternates)
       || !Erasable(size, |d|, f, Wipes(size, d, f, alternates))
  }

  predicate LowStart(e: GptEntry, lb: BlockSize) {
    Sectors(e.start, lb) < 63
  }

  lemma HasBlocks(size: BlockSize, d: Disk, f: Located)
    requires Chosen(size, d, f)
    ensures BlockCount(|d|, f.lb) > 0
  {
    hide HeaderAt, WellFormed, HeaderVerified, ArrayVerified, ReachableOn;
    MulMonotone(1, f.lba, f.lb);
  }

  /** More room never makes an entry inconvertible, nor changes what it converts to. */
  lemma RepresentsMore(parts: seq<Part>, used: seq<GptEntry>, h: Header, lb: BlockSize, last: int, more: int)
    requires Represents(parts, used, h, lb, last) && last <= more
    ensures Represents(parts, used, h, lb, more)
  {
    hide MbrType, Chs, Sectors;
  }

  lemma ConvertibleAll(parts: seq<Part>, used: seq<GptEntry>, h: Header, lb: BlockSize, last: int)
    requires Represents(parts, used, h, lb, last)
    ensures |parts| == |used| && forall k :: 0 <= k < |used| ==> Convertible(used[k], h, lb, last)
    ensures (exists k :: 0 <= k < |parts| && parts[k].first < 63) <==>
              exists k :: 0 <= k < |used| && LowStart(used[k], lb)
  {
    hide MbrType, Chs, Convertible, Sectors;
    if k :| 0 <= k < |parts| && parts[k].first < 63 {
      assert LowStart(used[k], lb);
    }
    if k :| 0 <= k < |used| && LowStart(used[k], lb) {
      assert parts[k].first < 63;
    }
  }

  lemma AllSound(parts: seq<Part>, used: seq<GptEntry>, h: Header, lb: BlockSize, lastBlock: int)
    requires Represents(parts, used, h, lb, lastBlock) && forall k :: 0 <= k < |parts| ==> parts[k].first >= 63
    ensures forall k :: 0 <= k < |parts| ==> SoundPart(parts[k])
  {
    hide Convertible, ConvertedEntry, SoundPart;
    forall k | 0 <= k < |parts|
      ensures SoundPart(parts[k])
    {
      SoundConversion(used[k], h, lb, lastBlock);
    }
  }

  /** Gathers the partitions to convert, or says why not. `last` is the last block the probes found, or -1. */
  method PlanConversion(dev: Device, f: Located, ghost original: Disk) returns (c: Conversion, ghost last: int)
    requires Underway(dev, original) && f.Found? && Chosen(dev.size, dev.Logical(), f)
    modifies dev`cachedBlock, dev`dirty, dev`faults, dev.medium, dev.cache
    ensures Underway(dev, original) && dev.Logical() == old(dev.Logical()) && ArrayFits(dev.Logical(), f)
    ensures -1 <= last < BlockCount(dev.medium.Length, f.lb)
    ensures c.NotConverted? ==> Inconvertible(dev.Logical(), f, last)
    ensures c.Converted? ==>
              && !Inconvertible(dev.Logical(), f, last) && |c.parts| <= 4
              && Represents(c.parts, DeclaredEntries(dev.Logical(), f), f.header, f.lb, last)
              && forall k :: 0 <= k < |c.parts| ==> SoundPart(c.parts[k])
    ensures Steady(old(dev.faults)) ==> Steady(dev.faults) && last == BlockCount(dev.medium.Length, f.lb) - 1
    ensures Steady(old(dev.faults)) && c.Stopped? ==>
              !Inconvertible(dev.Logical(), f, last)
    ensures Steady(old(dev.faults)) && !c.NotConverted? ==>
              var used := DeclaredEntries(dev.Logical(), f);
              c.Stopped? <==> exists k :: 0 <= k < |used| && LowStart(used[k], f.lb)
  {
    hide dev.Valid, Recoverable, dev.Writable, dev.Logical, ReachableOn, Chosen, Base, BlockCount, EntryLoc,
         UsedEntries, Represents, Convertible, LowStart, SoundPart;
    ghost var disk := dev.Logical();
    var h, lb := f.header, f.lb;
    ChosenArray(dev.size, disk, f);
    HasBlocks(dev.size, disk, f);
    last := BlockCount(dev.medium.Length, lb) - 1;
    if h.entryCount > MAX_GPT_PARTITIONS {
      return NotConverted, last;
    }
    dev.ValidBounds();
    var have, lastBlock := LastBlock(dev, lb);
    last := if have then lastBlock else -1;
    if !have {
      return NotConverted, last;
    }
    var g := Gather(dev, h, lb, Base(h.entryLba, lb), lastBlock, original);
    if g.Refused? {
      return NotConverted, last;
    }
    if g.Unreadable? {
      return Stopped, last;
    }
    var parts := g.parts;
    ConvertibleAll(parts, DeclaredEntries(disk, f), h, lb, last);
    for i := 0 to |parts|
      invariant forall k :: 0 <= k < i ==> parts[k].first >= 63
    {
      if parts[i].first < 63 {
        return Stopped, last;
      }
    }
    AllSound(parts, DeclaredEntries(disk, f), h, lb, last);
    return Converted(parts), last;
  }

  lemma CommitIs(d: Disk, erased: Disk, d': Disk, f: Located, parts: seq<Part>, wipes: seq<Wipe>, last: int)
    requires ArrayFits(d, f) && Represents(parts, DeclaredEntries(d, f), f.header, f.lb, last)
    requires last < BlockCount(|d|, f.lb)
    requires forall k :: 0 <= k < |wipes| ==> SoundWipe(wipes[k], f.header, f.lb)
    requires SweptFrom(d, erased, f, wipes, 0) && TableIs(d', parts, f.header.guid) && Kept(erased, d', 512, |erased|)
    ensures Committed(d, d', f, parts, wipes)
  {
    hide Represents, TableIs, Swept, EntryLoc, UsedEntries, Base, BlockCount;
    RepresentsMore(parts, DeclaredEntries(d, f), f.header, f.lb, last, BlockCount(|d|, f.lb) - 1);
  }

  lemma SweptZeroes(d: Disk, d': Disk, f: Located, wipes: seq<Wipe>)
    requires f.Found? && SweptFrom(d, d', f, wipes, 0) && Base(PrimaryReserve(f.header.firstUsable, f.lb), f.lb) <= |d|
    ensures 512 <= |d| && forall i :: 0 <= i < 512 ==> d'[i] == 0
  {
    BaseIsMonotone(1, PrimaryReserve(f.header.firstUsable, f.lb), f.lb);
  }

  /** All or nothing, unless the run stops and is undone. */
  method Convert(dev: Device, f: Located, ghost original: Disk)
    returns (c: Conversion, ghost last: int, ghost wipes: seq<Wipe>)
    requires Underway(dev, original) && f.Found? && Chosen(dev.size, dev.Logical(), f)
    requires dev.Inside(0) && |dev.journal| + 125 <= UNINSTALL_DATA_MAX
    modifies dev`cachedBlock, dev`dirty, dev`faults, dev`journal, dev`damage, dev.medium, dev.cache
    ensures Undoable(dev, original) && Grown(old(dev.journal), dev.journal, 125)
    ensures !c.Stopped? ==> Underway(dev, original)
    ensures forall k :: 0 <= k < |wipes| ==> SoundWipe(wipes[k], f.header, f.lb)
    ensures forall i :: i in dev.damage ==> Swept(f, wipes, i)
    ensures -1 <= last < BlockCount(dev.medium.Length, f.lb)
    ensures c.NotConverted? ==> dev.Logical() == old(dev.Logical()) && dev.journal == old(dev.journal)
    ensures c.NotConverted? ==> Inconvertible(dev.Logical(), f, last)
    ensures c.Converted? ==> Committed(old(dev.Logical()), dev.Logical(), f, c.parts, wipes)
    ensures c.Converted? ==> !Signed(dev.size, dev.Logical(), 1, f.lb)
    ensures c.Converted? && Steady(old(dev.faults)) ==>
              NoAlternates(dev.size, dev.Logical(), f, Alternates(f, last + 1))
    ensures Steady(old(dev.faults)) ==>
              && Steady(dev.faults) && Underway(dev, original) && last == BlockCount(dev.medium.Length, f.lb) - 1
              && (c.NotConverted? <==> Inconvertible(old(dev.Logical()), f, last))
              && (c.Converted? <==>
                  !Inconvertible(old(dev.Logical()), f, last) && !Stops(dev.size, old(dev.Logical()), f))
              && (c.Converted? ==> wipes == Wipes(dev.size, old(dev.Logical()), f, Alternates(f, last + 1)))
  {
    hide dev.Valid, Recoverable, dev.Writable, dev.Logical, ReachableOn, Chosen, Base, BlockCount, EntryLoc,
         UsedEntries, ArrayFits, Represents, TableIs, Alternates, Signed, SoundWipe, PrimaryReserve, SoundPart,
         LowStart, NoneBlank, Erasable, Trapped, Wipes, Inconvertible, Swept, SweptFrom, Committed, dev.Inside;
    ghost var disk := dev.Logical();
    wipes := [];
    c, last := PlanConversion(dev, f, original);
    if !c.Converted? {
      return;
    }
    var parts := c.parts;
    var ok, settled; ghost var blocks;
    ok, settled, blocks := Settle(dev, f, original);
    wipes := settled;
    if !ok {
      return Stopped, last, wipes;
    }
    ok := EraseTables(dev, f, settled, original);
    if !ok {
      return Stopped, last, wipes;
    }
    ghost var erased := dev.Logical();
    SweptZeroes(disk, erased, f, settled);
    ok := WriteTable(dev, parts, f.header.guid, original);
    if !ok {
      return Stopped, last, wipes;
    }
    CommitIs(disk, erased, dev.Logical(), f, parts, wipes, last);
    CommittedIsClean(dev.size, disk, dev.Logical(), f, parts, wipes);
    if Steady(old(dev.faults)) {
      AlternatesGone(dev.size, disk, dev.Logical(), f, parts, blocks);
    }
  }
}
