/**
 The installer's device layer: a one-block write-back cache over the medium, and
 a journal of what every write replaced.

 `Logical` is the disk the rest of the installer sees. The medium may fail any
 transfer; `faults` lists, for the transfers to come, how each one ends.
 */
module BlockDevice {
  import opened Bytes
  import opened Blocks
  import opened DiskSpec
  import opened DeviceSteps

  lemma OverlayAgain(d: Disk, loc: nat, part: seq<Byte>, whole: seq<Byte>)
    requires |part| <= |whole| && (whole == [] || loc + |whole| <= |d|)
    ensures Overlay(Overlay(d, loc, part), loc, whole) == Overlay(d, loc, whole)
  {
  }

  lemma OverlayInside(d: Disk, base: nat, block: seq<Byte>, offset: nat, piece: seq<Byte>)
    requires base + |block| <= |d| && offset + |piece| <= |block|
    ensures Overlay(d, base, Overlay(block, offset, piece)) == Overlay(Overlay(d, base, block), base + offset, piece)
  {
    var x := Overlay(d, base, Overlay(block, offset, piece));
    var y := Overlay(Overlay(d, base, block), base + offset, piece);
    forall i | 0 <= i < |d|
      ensures x[i] == y[i]
    {
    }
  }

  lemma SliceGrows(d: Disk, loc: nat, n: nat, m: nat)
    requires m > 0 && loc + n + m <= |d|
    ensures Slice(d, loc, n) + d[loc + n..loc + n + m] == Slice(d, loc, n + m)
  {
  }

  lemma OverlayGrows(d: Disk, loc: nat, s: seq<Byte>, n: nat, m: nat)
    requires m > 0 && n + m <= |s| && loc + n + m <= |d|
    ensures Overlay(Overlay(d, loc, s[..n]), loc + n, s[n..n + m]) == Overlay(d, loc, s[..n + m])
  {
  }

  class Device {
    const medium: array<Byte>
    const size: BlockSize
    const cache: array<Byte>
    var cachedBlock: nat
    var dirty: bool
    var faults: seq<Transfer>
    var journal: seq<Entry>
    var uninstalling: bool
    /** Bytes reached by a write that stopped part way, so that its entry was dropped. */
    ghost var damage: set<int>

    ghost predicate Valid()
      reads this`cachedBlock, this`dirty, medium, cache
    {
      && cache != medium && cache.Length == size && medium.Length <= TWO64 / 2
      && (dirty ==> cachedBlock != NO_BLOCK)
      && (cachedBlock != NO_BLOCK ==> Base(cachedBlock, size) + size <= medium.Length)
      && (cachedBlock != NO_BLOCK && !dirty ==>
            cache[..] == medium[Base(cachedBlock, size)..Base(cachedBlock, size) + size])
    }

    /** The medium, overlaid by the block that has not been written back yet. */
    ghost function Logical(): (d: Disk)
      reads this`cachedBlock, this`dirty, medium, cache
      requires Valid()
      ensures |d| == medium.Length
    {
      if dirty then Overlay(medium[..], Base(cachedBlock, size), cache[..]) else medium[..]
    }

    /** The same state as a value. */
    ghost function Now(): (m: Machine)
      reads this`cachedBlock, this`dirty, this`faults, medium, cache
      requires Valid()
      ensures Sane(m, size)
    {
      Machine(medium[..], cache[..], cachedBlock, dirty, faults)
    }

    /** With a block in the cache, clean or dirty, the logical disk is the medium under it. */
    lemma LogicalIsOverlay()
      requires Valid() && cachedBlock != NO_BLOCK
      ensures Logical() == Overlay(medium[..], Base(cachedBlock, size), cache[..])
    {
      hide Base;
      if !dirty {
        var base := Base(cachedBlock, size);
        assert forall i :: base <= i < base + size ==> medium[..][i] == medium[base..base + size][i - base];
      }
    }

    /** The block in the cache is the logical disk's block. */
    lemma CacheIsLogical()
      requires Valid() && cachedBlock != NO_BLOCK
      ensures Logical()[Base(cachedBlock, size)..Base(cachedBlock, size) + size] == cache[..]
    {
    }

    /** A successful read of the first block precedes everything else. */
    constructor (medium: array<Byte>, size: BlockSize, faults: seq<Transfer>)
      requires size <= medium.Length <= TWO64 / 2
      ensures Valid() && Logical() == medium[..] && this.medium == medium && this.size == size
      ensures this.faults == faults && journal == [] && !uninstalling && damage == {} && fresh(cache)
      ensures cachedBlock == 0 && !dirty && cache[..] == medium[..size]
    {
      this.medium, this.size, this.faults := medium, size, faults;
      cache := new Byte[size](i requires 0 <= i < size && size <= medium.Length reads medium => medium[i]);
      cachedBlock, dirty, journal, uninstalling, damage := 0, false, [], false, {};
      new;
      assert Base(0, size) == 0;
    }

    /** Takes the next transfer's fate. */
    method NextTransfer() returns (t: Transfer)
      modifies this`faults
      ensures t == NextFate(old(faults)) && faults == LaterFates(old(faults))
      ensures Steady(old(faults)) ==> t.Completes? && Steady(faults)
    {
      if faults == [] {
        t := Completes;
      } else {
        t, faults := faults[0], faults[1..];
      }
    }

    /** Copies the first `count` bytes of the cache over their place on the medium. */
    method WriteBack(base: nat, count: nat)
      requires cache != medium && count <= cache.Length && base + count <= medium.Length
      modifies medium
      ensures medium[..] == Overlay(old(medium[..]), base, cache[..count])
    {
      for i := 0 to count
        invariant forall j :: 0 <= j < medium.Length ==>
                    medium[j] == if base <= j < base + i then cache[j - base] else old(medium[j])
      {
        medium[base + i] := cache[i];
      }
    }

    /** The logical disk is the same whether or not the write-back completed. */
    method Flush() returns (ok: bool)
      requires Valid()
      modifies this`dirty, this`faults, medium
      ensures Valid() && Logical() == old(Logical())
      ensures Towards(old(medium[..]), medium[..], Logical())
      ensures ok ==> !dirty && medium[..] == Logical()
      ensures Steady(old(faults)) ==> ok && Steady(faults)
      ensures !ok ==> dirty && old(dirty)
      ensures Tried(ok, Now()) == Flushed(old(Now()), size)
    {
      if !dirty {
        return true;
      }
      var base := Base(cachedBlock, size);
      ghost var before := medium[..];
      var t := NextTransfer();
      var count := Moved(t, size);
      WriteBack(base, count);
      OverlayAgain(before, base, cache[..count], cache[..]);
      if t.StopsAfter? {
        return false;
      }
      assert cache[..count] == cache[..];
      assert cache[..] == medium[base..base + size];
      dirty := false;
      return true;
    }

    /** Block `block` lies on the medium in full. */
    ghost predicate Inside(block: nat) {
      Base(block, size) + size <= medium.Length
    }

    /** Loads a block into a clean cache; a failed load costs the cache its block. */
    method Fetch(block: nat) returns (ok: bool)
      requires Valid() && !dirty && block != NO_BLOCK
      modifies this`cachedBlock, this`faults, cache
      ensures Valid() && (ok ==> cachedBlock == block && Inside(block))
      ensures Steady(old(faults)) ==> Steady(faults) && (ok <==> Inside(block))
      ensures Tried(ok, Now()) == Fetched(old(Now()), block, size)
    {
      hide Base, Filled;
      ghost var m := Now();
      cachedBlock := NO_BLOCK;
      var t := NextTransfer();
      var base := Base(block, size);
      if base + size > medium.Length {
        // A short read still copies what it got.
        if base < medium.Length {
          FillCache(base, medium.Length - base);
          assert medium[..] == m.medium;
          FilledIs(m, base, medium.Length - base, cache[..]);
        }
        return false;
      }
      var count := Moved(t, size);
      FillCache(base, count);
      assert medium[..] == m.medium;
      FilledIs(m, base, count, cache[..]);
      if t.StopsAfter? {
        return false;
      }
      cachedBlock := block;
      return true;
    }

    /** Brings a block into the cache; whether it can or not, no byte of the logical disk changes. */
    method CacheBlock(block: nat) returns (ok: bool)
      requires Valid() && block != NO_BLOCK
      modifies this`cachedBlock, this`dirty, this`faults, medium, cache
      ensures Valid() && Logical() == old(Logical())
      ensures Towards(old(medium[..]), medium[..], Logical())
      ensures ok ==> cachedBlock == block && Inside(block)
      ensures Steady(old(faults)) ==> Steady(faults) && (ok <==> Inside(block))
      ensures Tried(ok, Now()) == Loaded(old(Now()), block, size)
    {
      hide Base, Fetched, Flushed, Sane;
      if cachedBlock == block {
        return true;
      }
      if dirty {
        var flushed := Flush();
        if !flushed {
          return false;
        }
      } else {
        CleanFlush(Now(), size);
      }
      ok := Fetch(block);
    }

    method FillCache(base: nat, count: nat)
      requires cache != medium && count <= cache.Length && base + count <= medium.Length
      modifies cache
      ensures cache[..] == medium[base..base + count] + old(cache[count..])
    {
      for i := 0 to count
        invariant forall j :: 0 <= j < i ==> cache[j] == medium[base + j]
        invariant forall j :: i <= j < cache.Length ==> cache[j] == old(cache[j])
      {
        cache[i] := medium[base + i];
      }
    }
  
    /** Every block that holds one of the `count` bytes from `loc` on lies on the medium. */
    ghost predicate Reachable(loc: nat, count: nat) {
      ReachableOn(size, medium.Length, loc, count)
    }

    lemma ReachableIsOnMedium(loc: nat, count: nat)
      requires Reachable(loc, count) && count > 0
      ensures loc + count <= medium.Length
    {
      ReachableOnMedium(size, medium.Length, loc, count);
    }

    lemma ReachableBlocks(loc: nat, count: nat, progress: nat)
      requires Reachable(loc, count) && progress < count
      ensures Inside(BlockAt(loc + progress, size))
    {
      var a, b := loc + progress, loc + count - 1;
      BlockIsMonotone(a, b, size);
      BaseIsMonotone(BlockAt(a, size), BlockAt(b, size), size);
    }

    /** One turn of a transfer loop: the block of `addr`, as far as wanted. */
    method ReadChunk(addr: nat, want: nat) returns (ok: bool, piece: seq<Byte>)
      requires Valid() && want > 0 && addr < TWO64
      modifies this`cachedBlock, this`dirty, this`faults, medium, cache
      ensures Valid() && Logical() == old(Logical())
      ensures Towards(old(medium[..]), medium[..], Logical())
      ensures ok ==> 1 <= |piece| <= want && Reachable(addr, |piece|) && addr + |piece| <= medium.Length
      ensures ok ==> piece == Logical()[addr..addr + |piece|]
      ensures Steady(old(faults)) ==> Steady(faults) && (ok <==> Inside(BlockAt(addr, size)))
      ensures BlockAt(addr, size) != NO_BLOCK && Tried(ok, Now()) == Loaded(old(Now()), BlockAt(addr, size), size)
      ensures ok ==> |piece| == ChunkAt(addr, want, size)
    {
      hide Base, BlockAt, OffsetAt, Logical, Now, Loaded, Towards;
      var block := BlockAt(addr, size);
      NeverTheSentinel(addr, size);
      BlockOf(addr, size);
      piece := [];
      ok := CacheBlock(block);
      if ok {
        var chunk, offset := want, OffsetAt(addr, size);
        if chunk > size - offset {
          chunk := size - offset;
        }
        SameBlock(addr, chunk, size);
        CacheIsLogical();
        piece := cache[offset..offset + chunk];
        PartOfPart(Logical(), Base(block, size), size, offset, offset + chunk);
      }
    }

    lemma ReachableGrows(loc: nat, n: nat, m: nat)
      requires m > 0 && Reachable(loc + n, m)
      ensures Reachable(loc, n + m)
    {
    }

    /** Every read returns exactly the logical bytes. */
    method ReadRaw(loc: U64, count: nat) returns (ok: bool, buffer: seq<Byte>)
      requires Valid()
      modifies this`cachedBlock, this`dirty, this`faults, medium, cache
      ensures Valid() && Logical() == old(Logical())
      ensures Towards(old(medium[..]), medium[..], Logical())
      ensures ok ==> Reachable(loc, count) && (count > 0 ==> loc + count <= medium.Length)
      ensures ok ==> buffer == Slice(Logical(), loc, count)
      ensures Steady(old(faults)) ==> Steady(faults) && (ok <==> Reachable(loc, count))
      ensures Tried(ok, Now()) == ReadSteps(old(Now()), loc, count, size)
    {
      hide Valid, Logical, Towards, Reachable, Slice, Inside, Now, Loaded, ReadSteps, Sane, ChunkAt, BlockAt, OffsetAt;
      TowardsNothing(medium[..], Logical());
      buffer := [];
      ghost var disk, limit := Logical(), medium.Length;
      EmptyTransfer(loc, disk);
      var progress := 0;
      assert limit <= TWO64 / 2 by { ValidBounds(); }
      while progress < count
        invariant 0 <= progress <= count
        invariant Valid() && Logical() == disk
        invariant Towards(old(medium[..]), medium[..], disk)
        invariant Reachable(loc, progress) && (progress > 0 ==> loc + progress <= limit)
        invariant buffer == Slice(disk, loc, progress)
        invariant Steady(old(faults)) ==> Steady(faults)
        invariant ReadSteps(Now(), loc + progress, count - progress, size) == ReadSteps(old(Now()), loc, count, size)
      {
        ghost var before := medium[..];
        if Reachable(loc, count) { ReachableBlocks(loc, count, progress); }
        NeverTheSentinel(loc + progress, size);
        ReadStepsUnfold(Now(), loc + progress, count - progress, size);
        var got, piece := ReadChunk(loc + progress, count - progress);
        TowardsTwice(old(medium[..]), before, medium[..], disk);
        if !got {
          ok := false;
          return;
        }
        SliceGrows(disk, loc, progress, |piece|);
        ReachableGrows(loc, progress, |piece|);
        buffer := buffer + piece;
        progress := progress + |piece|;
      }
      ReadStepsDone(Now(), loc + progress, size);
      ok := true;
    }

    /** Copies bytes into the cached block. */
    method Poke(offset: nat, piece: seq<Byte>)
      requires offset + |piece| <= cache.Length
      modifies cache
      ensures cache[..] == Overlay(old(cache[..]), offset, piece)
    {
      for i := 0 to |piece|
        invariant forall j :: 0 <= j < cache.Length ==>
                    cache[j] == if offset <= j < offset + i then piece[j - offset] else old(cache[j])
      {
        cache[offset + i] := piece[i];
      }
    }

    /** Changes the cached block, which changes the logical disk in exactly that place. */
    method PokeBlock(offset: nat, piece: seq<Byte>)
      requires Valid() && cachedBlock != NO_BLOCK && offset + |piece| <= size && piece != []
      modifies this`dirty, cache
      ensures Valid() && dirty
      ensures Base(cachedBlock, size) + offset + |piece| <= medium.Length
      ensures Logical() == Overlay(old(Logical()), Base(cachedBlock, size) + offset, piece)
      ensures Now() == Poked(old(Now()), offset, piece, size)
    {
      hide Base, Overlay;
      ghost var base, block, under := Base(cachedBlock, size), cache[..], medium[..];
      LogicalIsOverlay();
      Poke(offset, piece);
      dirty := true;
      assert medium[..] == under;
      OverlayInside(under, base, block, offset, piece);
      assert Logical() == Overlay(under, base, cache[..]);
    }

    /** One turn of the write loop. */
    method WriteChunk(addr: nat, rest: seq<Byte>) returns (ok: bool, n: nat)
      requires Valid() && rest != [] && addr < TWO64
      modifies this`cachedBlock, this`dirty, this`faults, medium, cache
      ensures Valid() && Towards(old(medium[..]), medium[..], old(Logical()))
      ensures ok ==> 1 <= n <= |rest| && Reachable(addr, n) && addr + n <= medium.Length
      ensures ok ==> Logical() == Overlay(old(Logical()), addr, rest[..n])
      ensures !ok ==> Logical() == old(Logical())
      ensures Steady(old(faults)) ==> Steady(faults) && (ok <==> Inside(BlockAt(addr, size)))
      ensures BlockAt(addr, size) != NO_BLOCK && ok == Loaded(old(Now()), BlockAt(addr, size), size).ok
      ensures n == if ok then ChunkAt(addr, |rest|, size) else 0
      ensures var m := Loaded(old(Now()), BlockAt(addr, size), size).machine;
              Now() == if ok then Poked(m, OffsetAt(addr, size), rest[..n], size) else m
    {
      hide Base, BlockAt, OffsetAt, Logical, Towards, Now, Loaded, Poked;
      var block := BlockAt(addr, size);
      NeverTheSentinel(addr, size);
      BlockOf(addr, size);
      n := 0;
      ok := CacheBlock(block);
      if ok {
        var offset := OffsetAt(addr, size);
        n := |rest|;
        if n > size - offset {
          n := size - offset;
        }
        SameBlock(addr, n, size);
        PokeBlock(offset, rest[..n]);
      }
    }

    /** The first `done` bytes of a write that began with medium `was` and logical disk `disk` are written. */
    ghost predicate Partway(was: Disk, disk: Disk, buffer: seq<Byte>, loc: nat, done: nat)
      reads this`cachedBlock, this`dirty, medium, cache
    {
      && Valid() && |was| == |disk| == medium.Length
      && done <= |buffer| && Reachable(loc, done) && (done > 0 ==> loc + done <= medium.Length)
      && Logical() == Overlay(disk, loc, buffer[..done])
      && Elsewhere(was, medium[..], disk, loc, done)
    }

    /** One turn of the write loop on what is written so far. */
    method WriteNext(buffer: seq<Byte>, loc: U64, done: nat, ghost was: Disk, ghost disk: Disk)
      returns (ok: bool, n: nat)
      requires Partway(was, disk, buffer, loc, done) && done < |buffer| && loc + done < TWO64
      modifies this`cachedBlock, this`dirty, this`faults, medium, cache
      ensures if ok then 1 <= n <= |buffer| - done && Partway(was, disk, buffer, loc, done + n)
              else Partway(was, disk, buffer, loc, done)
      ensures Steady(old(faults)) ==> Steady(faults) && (Reachable(loc, |buffer|) ==> ok)
      ensures BlockAt(loc + done, size) != NO_BLOCK
      ensures ok == Loaded(old(Now()), BlockAt(loc + done, size), size).ok
      ensures n == if ok then ChunkAt(loc + done, |buffer| - done, size) else 0
      ensures var m := Loaded(old(Now()), BlockAt(loc + done, size), size).machine;
              Now() == if ok then Poked(m, OffsetAt(loc + done, size), buffer[done..][..n], size) else m
    {
      hide Valid, Logical, Towards, Reachable, Inside, Elsewhere, Overlay, Now, Loaded, Poked, Sane, ChunkAt, BlockAt,
           OffsetAt, Steady;
      ghost var before, now := medium[..], Logical();
      if Reachable(loc, |buffer|) { ReachableBlocks(loc, |buffer|, done); }
      ok, n := WriteChunk(loc + done, buffer[done..]);
      ElsewhereStep(was, before, medium[..], disk, now, loc, buffer[..done], n);
      if ok {
        ReachableGrows(loc, done, n);
        assert buffer[done..][..n] == buffer[done..done + n];
        OverlayGrows(disk, loc, buffer, done, n);
      }
    }

    /** The write loop; on failure the first `done` bytes have been written. */
    method WriteBytes(buffer: seq<Byte>, loc: U64) returns (ok: bool, done: nat)
      requires Valid()
      modifies this`cachedBlock, this`dirty, this`faults, medium, cache
      ensures Valid() && done <= |buffer| && (ok <==> done == |buffer|)
      ensures Reachable(loc, done) && (done > 0 ==> loc + done <= medium.Length)
      ensures Logical() == Overlay(old(Logical()), loc, buffer[..done])
      ensures Elsewhere(old(medium[..]), medium[..], old(Logical()), loc, done)
      ensures Steady(old(faults)) ==> Steady(faults) && (ok <==> Reachable(loc, |buffer|))
      ensures Progress(done, Now()) == WriteSteps(old(Now()), loc, buffer, size)
      ensures !ok && done > 0 ==> Spans(size, loc, |buffer|)
    {
      hide Valid, Logical, Reachable, Elsewhere, Overlay, Now, Loaded, Poked, WriteSteps, Sane, ChunkAt, BlockAt,
           OffsetAt, Spans, Steady;
      ghost var disk, was := Logical(), medium[..];
      done := 0;
      ValidBounds();
      EmptyTransfer(loc, disk);
      ElsewhereNothing(was, disk, loc);
      while done < |buffer|
        invariant Partway(was, disk, buffer, loc, done)
        invariant Steady(old(faults)) ==> Steady(faults)
        invariant var r := WriteSteps(Now(), loc + done, buffer[done..], size);
                  WriteSteps(old(Now()), loc, buffer, size) == Progress(done + r.done, r.machine)
        invariant 0 < done < |buffer| ==> Spans(size, loc, |buffer|)
      {
        NeverTheSentinel(loc + done, size);
        WriteStepsUnfold(Now(), loc + done, buffer[done..], size);
        var written, n := WriteNext(buffer, loc, done, was, disk);
        if !written {
          return false, done;
        }
        assert buffer[done..][n..] == buffer[done + n..];
        if done == 0 && n < |buffer| { ShortChunkSpans(loc, |buffer|, size); }
        done := done + n;
      }
      assert buffer[..done] == buffer;
      WriteStepsDone(Now(), loc + done, size);
      return true, done;
    }

    /**
     A write. Unless an undo is under way, what it replaces is journalled first; an
     entry is only kept when the whole write went through.
     */
    method WriteRaw(buffer: seq<Byte>, loc: U64) returns (ok: bool, ghost done: nat)
      requires Valid()
      modifies this`cachedBlock, this`dirty, this`faults, this`journal, this`damage, medium, cache
      ensures Valid() && done <= |buffer| && (ok ==> done == |buffer|)
      ensures Reachable(loc, done) && (done > 0 ==> loc + done <= medium.Length)
      ensures Logical() == Overlay(old(Logical()), loc, buffer[..done])
      ensures Elsewhere(old(medium[..]), medium[..], old(Logical()), loc, done)
      ensures journal == if ok && !uninstalling
                         then old(journal) + [Entry(loc, Slice(old(Logical()), loc, |buffer|))] else old(journal)
      ensures ok && !uninstalling ==> |old(journal)| < UNINSTALL_DATA_MAX
      ensures Steady(old(faults)) ==> Steady(faults)
      ensures Steady(old(faults)) ==>
                (ok <==> Reachable(loc, |buffer|) && (uninstalling || |old(journal)| < UNINSTALL_DATA_MAX))
      ensures Steady(old(faults)) && !ok && !uninstalling ==> done == 0
      ensures damage == if ok || uninstalling then old(damage) else old(damage) + Torn(journal, loc, done)
      ensures !ok && done > 0 ==> Spans(size, loc, |buffer|)
      ensures uninstalling || |old(journal)| < UNINSTALL_DATA_MAX ==>
                && Progress(done, Now()) == RawSteps(old(Now()), loc, buffer, size, !uninstalling)
                && (ok <==> done == |buffer|)
    {
      hide Valid, Logical, Towards, Reachable, Inside, Elsewhere, Overlay, Slice, Now, ReadSteps, WriteSteps, Sane,
           Spans, Torn;
      ghost var disk, was := Logical(), medium[..];
      done := 0;
      EmptyTransfer(loc, disk);
      ElsewhereNothing(was, disk, loc);
      TornNothing(journal, loc);
      ReadStepsDone(Now(), loc, size);
      var saved := [];
      if !uninstalling {
        if |journal| >= UNINSTALL_DATA_MAX {
          return false, 0;
        }
        var got;
        got, saved := ReadRaw(loc, |buffer|);
        TowardsIsElsewhere(was, medium[..], disk, loc);
        if !got {
          return false, 0;
        }
      }
      ghost var before := medium[..];
      var n;
      ok, n := WriteBytes(buffer, loc);
      done := n;
      if !ok && !uninstalling {
        damage := damage + Torn(journal, loc, n);
      }
      ElsewhereTwice(was, before, medium[..], disk, loc, n);
      assert buffer[..|buffer|] == buffer;
      if ok && !uninstalling {
        journal := journal + [Entry(loc, saved)];
      }
    }

    // ----- undoing

    /** Entries an uninterrupted undo can write. */
    ghost predicate Writable(entries: seq<Entry>) {
      forall i :: 0 <= i < |entries| ==> entries[i].loc < TWO64 && Reachable(entries[i].loc, |entries[i].data|)
    }

    lemma WritableFits(entries: seq<Entry>)
      requires Writable(entries)
      ensures AllFit(entries, medium.Length)
    {
      forall i | 0 <= i < |entries|
        ensures Fits(entries[i], medium.Length)
      {
        if entries[i].data != [] { ReachableIsOnMedium(entries[i].loc, |entries[i].data|); }
      }
    }

    method ReverseJournal()
      modifies this`journal
      ensures journal == Reverse(old(journal))
    {
      var rev: seq<Entry> := [];
      for i := 0 to |journal|
        invariant rev == Reverse(journal[..i])
      {
        assert journal[..i + 1][..i] == journal[..i];
        rev := [journal[i]] + rev;
      }
      assert journal[..|journal|] == journal;
      journal := rev;
    }

    /** A clean cache may be thrown away. */
    lemma CleanIsMedium()
      requires Valid() && !dirty
      ensures Logical() == medium[..]
    {
    }

    /**
     Writes one entry back, with one retry on an emptied cache. Whatever failed on the
     way, an entry reported as written, with no flush lost, is on the logical disk.
     */
    method WriteEntry(e: Entry) returns (written: bool, flushFailed: bool)
      requires Valid() && uninstalling && e.loc < TWO64
      modifies this`cachedBlock, this`dirty, this`faults, this`journal, this`damage, medium, cache
      ensures Valid() && journal == old(journal)
      ensures written && !flushFailed ==>
                Fits(e, medium.Length) && Logical() == Overlay(old(Logical()), e.loc, e.data)
      ensures Steady(old(faults)) ==> Steady(faults)
      ensures Steady(old(faults)) && Reachable(e.loc, |e.data|) ==> written && !flushFailed
      ensures Rewritten(written, flushFailed, Now()) == EntrySteps(old(Now()), e, size)
    {
      hide Logical, Reachable, Elsewhere, Overlay, RawSteps, Flushed;
      flushFailed := false;
      ghost var n;
      ghost var disk := Logical();
      written, n := WriteRaw(e.data, e.loc);
      assert e.data[..|e.data|] == e.data;
      if !written {
        var flushed := Flush();
        flushFailed := !flushed;
        if flushed {
          CleanIsMedium();
        }
        dirty, cachedBlock := false, NO_BLOCK;
        CleanIsMedium();
        ghost var tried := n;
        written, n := WriteRaw(e.data, e.loc);
        if written && flushed {
          OverlayAgain(disk, e.loc, e.data[..tried], e.data);
        }
      }
    }

    /**
     Throws the cache away and writes every entry back in order. True means that every
     entry went through and was flushed, whatever failed and was retried: the medium is
     the replay of the entries on what it was. Without faults it is true.
     */
    method Uninstall() returns (ok: bool)
      requires Valid() && forall i :: 0 <= i < |journal| ==> journal[i].loc < TWO64
      modifies this, medium, cache
      ensures Valid() && uninstalling && journal == old(journal)
      ensures ok ==> !dirty && AllFit(journal, medium.Length) && medium[..] == Replay(old(medium[..]), journal)
      ensures Steady(old(faults)) && Writable(journal) ==> ok
      ensures Tried(ok, Now()) == UndoSteps(old(Now()), journal, size)
    {
      hide Overlay, Reachable, EntrySteps, Flushed;
      uninstalling := true;
      dirty, cachedBlock := false, NO_BLOCK;
      ghost var good, start, began := Steady(faults) && Writable(journal), medium[..], Now();
      var writeFailed, flushFailed := false, false;
      for i := 0 to |journal|
        invariant Valid() && uninstalling && journal == old(journal)
        invariant good ==> Steady(faults) && !writeFailed && !flushFailed
        invariant !writeFailed && !flushFailed ==>
                  AllFit(journal[..i], |start|) && Logical() == Replay(start, journal[..i])
        invariant AllEntrySteps(began, journal[..i], size) == Rewritten(!writeFailed, flushFailed, Now())
      {
        hide Logical, Replay, Now;
        assert journal[..i + 1][..i] == journal[..i];
        var written, unflushed := WriteEntry(journal[i]);
        assert journal[..i + 1] == journal[..i] + [journal[i]];
        if !written { writeFailed := true; }
        if unflushed { flushFailed := true; }
        if !writeFailed && !flushFailed { ReplaySnoc(start, journal[..i], journal[i]); }
      }
      assert journal[..|journal|] == journal;
      var flushed := Flush();
      ok := flushed && !writeFailed && !flushFailed;
    }

    lemma EmptyTransfer(loc: nat, disk: Disk)
      ensures Reachable(loc, 0) && Slice(disk, loc, 0) == []
      ensures forall s: seq<Byte> :: Overlay(disk, loc, s[..0]) == disk
    {
    }

    lemma ValidBounds()
      requires Valid()
      ensures medium.Length <= TWO64 / 2
    {
    }
  }
}
