/**
 The device layer as values: what each operation makes of medium, cache and the
 transfers still to come. Nothing here is about correctness; it says which runs there are.
 */
module DeviceSteps {
  import opened Bytes
  import opened Blocks
  import opened DiskSpec

  datatype Machine = Machine(medium: Disk, cache: seq<Byte>, block: nat, dirty: bool, faults: seq<Transfer>)

  predicate Sane(m: Machine, size: BlockSize) {
    && |m.cache| == size && |m.medium| <= TWO64 / 2
    && (m.dirty ==> m.block != NO_BLOCK)
    && (m.block != NO_BLOCK ==> Base(m.block, size) + size <= |m.medium|)
  }

  function NextFate(faults: seq<Transfer>): Transfer {
    if faults == [] then Completes else faults[0]
  }

  function LaterFates(faults: seq<Transfer>): seq<Transfer> {
    if faults == [] then [] else faults[1..]
  }

  /** How many bytes a transfer moves. */
  function Moved(t: Transfer, limit: nat): (n: nat)
    ensures n <= limit
  {
    if t.Completes? || t.count > limit then limit else t.count
  }

  /** `n` bytes from `base` on, over the start of the cache. */
  function Filled(m: Machine, base: nat, n: nat): (cache: seq<Byte>)
    requires n <= |m.cache| && base + n <= |m.medium|
    ensures |cache| == |m.cache|
  {
    m.medium[base..base + n] + m.cache[n..]
  }

  datatype Tried = Tried(ok: bool, machine: Machine)

  function Flushed(m: Machine, size: BlockSize): (r: Tried)
    requires Sane(m, size)
    ensures Sane(r.machine, size) && |r.machine.medium| == |m.medium|
  {
    if !m.dirty then Tried(true, m)
    else
      var t := NextFate(m.faults);
      var medium := Overlay(m.medium, Base(m.block, size), m.cache[..Moved(t, size)]);
      Tried(t.Completes?, m.(medium := medium, faults := LaterFates(m.faults), dirty := !t.Completes?))
  }

  /** Loading a block into a clean cache. */
  function Fetched(m: Machine, block: nat, size: BlockSize): (r: Tried)
    requires Sane(m, size) && block != NO_BLOCK && !m.dirty
    ensures Sane(r.machine, size) && |r.machine.medium| == |m.medium|
    ensures r.ok ==> r.machine.block == block
  {
    var base, t := Base(block, size), NextFate(m.faults);
    var inside := base + size <= |m.medium|;
    var n := if inside then Moved(t, size) else if base < |m.medium| then |m.medium| - base else 0;
    var ok := inside && t.Completes?;
    Tried(ok, m.(block := if ok then block else NO_BLOCK, faults := LaterFates(m.faults),
                   cache := if n == 0 then m.cache else Filled(m, base, n)))
  }

  function Loaded(m: Machine, block: nat, size: BlockSize): (r: Tried)
    requires Sane(m, size) && block != NO_BLOCK
    ensures Sane(r.machine, size) && |r.machine.medium| == |m.medium|
    ensures r.ok ==> r.machine.block == block
  {
    if m.block == block then Tried(true, m)
    else
      var flushed := Flushed(m, size);
      if !flushed.ok then flushed else Fetched(flushed.machine, block, size)
  }

  /** A transfer loop that only reads: the blocks of `want` bytes from `addr` on, one after the other. */
  function ReadSteps(m: Machine, addr: nat, want: nat, size: BlockSize): (r: Tried)
    requires Sane(m, size) && (want > 0 ==> addr < TWO64)
    ensures Sane(r.machine, size) && |r.machine.medium| == |m.medium|
    decreases want
  {
    if want == 0 then Tried(true, m)
    else
      NeverTheSentinel(addr, size);
      var loaded, n := Loaded(m, BlockAt(addr, size), size), ChunkAt(addr, want, size);
      if !loaded.ok then loaded
      else
        ChunkStays(addr, want, size, |m.medium|);
        ReadSteps(loaded.machine, addr + n, want - n, size)
  }

  /** Bytes changed in the cached block. */
  function Poked(m: Machine, offset: nat, piece: seq<Byte>, size: BlockSize): (r: Machine)
    requires Sane(m, size) && m.block != NO_BLOCK && offset + |piece| <= size
    ensures Sane(r, size)
  {
    m.(cache := Overlay(m.cache, offset, piece), dirty := true)
  }

  datatype Progress = Progress(done: nat, machine: Machine)

  /** The write loop, up to the first block that does not load. */
  function WriteSteps(m: Machine, addr: nat, bytes: seq<Byte>, size: BlockSize): (r: Progress)
    requires Sane(m, size) && (bytes != [] ==> addr < TWO64)
    ensures Sane(r.machine, size) && |r.machine.medium| == |m.medium| && r.done <= |bytes|
    decreases |bytes|
  {
    if bytes == [] then Progress(0, m)
    else
      NeverTheSentinel(addr, size);
      var loaded, n := Loaded(m, BlockAt(addr, size), size), ChunkAt(addr, |bytes|, size);
      if !loaded.ok then Progress(0, loaded.machine)
      else
        var poked := Poked(loaded.machine, OffsetAt(addr, size), bytes[..n], size);
        ChunkStays(addr, |bytes|, size, |m.medium|);
        var rest := WriteSteps(poked, addr + n, bytes[n..], size);
        Progress(n + rest.done, rest.machine)
  }

  /** A whole write: the save phase, unless an undo is under way, and the write loop. */
  function RawSteps(m: Machine, loc: U64, bytes: seq<Byte>, size: BlockSize, saving: bool): (r: Progress)
    requires Sane(m, size)
    ensures Sane(r.machine, size) && |r.machine.medium| == |m.medium| && r.done <= |bytes|
  {
    var saved := if saving then ReadSteps(m, loc, |bytes|, size) else Tried(true, m);
    if !saved.ok then Progress(0, saved.machine) else WriteSteps(saved.machine, loc, bytes, size)
  }

  /** The cache thrown away. */
  function Dropped(m: Machine, size: BlockSize): (r: Machine)
    requires Sane(m, size)
    ensures Sane(r, size)
  {
    m.(dirty := false, block := NO_BLOCK)
  }

  /** An entry written back; one that fails is tried once more with the cache flushed and thrown away. */
  datatype Rewritten = Rewritten(written: bool, flushLost: bool, machine: Machine)

  function EntrySteps(m: Machine, e: Entry, size: BlockSize): (r: Rewritten)
    requires Sane(m, size) && e.loc < TWO64
    ensures Sane(r.machine, size) && |r.machine.medium| == |m.medium|
  {
    var first := RawSteps(m, e.loc, e.data, size, false);
    if first.done == |e.data| then Rewritten(true, false, first.machine)
    else
      var flushed := Flushed(first.machine, size);
      var second := RawSteps(Dropped(flushed.machine, size), e.loc, e.data, size, false);
      Rewritten(second.done == |e.data|, !flushed.ok, second.machine)
  }

  function AllEntrySteps(m: Machine, entries: seq<Entry>, size: BlockSize): (r: Rewritten)
    requires Sane(m, size) && forall i :: 0 <= i < |entries| ==> entries[i].loc < TWO64
    ensures Sane(r.machine, size) && |r.machine.medium| == |m.medium|
  {
    if entries == [] then Rewritten(true, false, m)
    else
      var init := AllEntrySteps(m, entries[..|entries| - 1], size);
      var last := EntrySteps(init.machine, entries[|entries| - 1], size);
      Rewritten(init.written && last.written, init.flushLost || last.flushLost, last.machine)
  }

  /** The undo: the cache thrown away, every entry written back, the last block flushed. */
  function UndoSteps(m: Machine, entries: seq<Entry>, size: BlockSize): (r: Tried)
    requires Sane(m, size) && forall i :: 0 <= i < |entries| ==> entries[i].loc < TWO64
  {
    var all := AllEntrySteps(Dropped(m, size), entries, size);
    var flushed := Flushed(all.machine, size);
    Tried(flushed.ok && all.written && !all.flushLost, flushed.machine)
  }

  lemma FilledIs(m: Machine, base: nat, n: nat, cache: seq<Byte>)
    requires n <= |m.cache| && base + n <= |m.medium| && cache == m.medium[base..base + n] + m.cache[n..]
    ensures cache == Filled(m, base, n) && (n == 0 ==> cache == m.cache)
    ensures n == |m.cache| ==> cache == m.medium[base..base + n]
  {
  }

  lemma CleanFlush(m: Machine, size: BlockSize)
    requires Sane(m, size) && !m.dirty
    ensures Flushed(m, size) == Tried(true, m)
  {
  }

  lemma ReadStepsUnfold(m: Machine, addr: nat, want: nat, size: BlockSize)
    requires Sane(m, size) && want > 0 && addr < TWO64 && BlockAt(addr, size) != NO_BLOCK
    ensures var loaded, n := Loaded(m, BlockAt(addr, size), size), ChunkAt(addr, want, size);
            if loaded.ok then
              && (want > n ==> addr + n < TWO64)
              && ReadSteps(m, addr, want, size) == ReadSteps(loaded.machine, addr + n, want - n, size)
            else ReadSteps(m, addr, want, size) == loaded
  {
    hide Loaded, ChunkAt, BlockAt;
    if Loaded(m, BlockAt(addr, size), size).ok { ChunkStays(addr, want, size, |m.medium|); }
  }

  lemma ReadStepsDone(m: Machine, addr: nat, size: BlockSize)
    requires Sane(m, size)
    ensures ReadSteps(m, addr, 0, size) == Tried(true, m)
  {
  }

  lemma WriteStepsUnfold(m: Machine, addr: nat, bytes: seq<Byte>, size: BlockSize)
    requires Sane(m, size) && bytes != [] && addr < TWO64 && BlockAt(addr, size) != NO_BLOCK
    ensures var loaded, n := Loaded(m, BlockAt(addr, size), size), ChunkAt(addr, |bytes|, size);
            if loaded.ok then
              && OffsetAt(addr, size) + n <= size && (|bytes| > n ==> addr + n < TWO64)
              && var rest := WriteSteps(Poked(loaded.machine, OffsetAt(addr, size), bytes[..n], size), addr + n,
                                        bytes[n..], size);
                 WriteSteps(m, addr, bytes, size) == Progress(n + rest.done, rest.machine)
            else WriteSteps(m, addr, bytes, size) == Progress(0, loaded.machine)
  {
    hide Loaded, BlockAt, OffsetAt, Poked;
    if Loaded(m, BlockAt(addr, size), size).ok { ChunkStays(addr, |bytes|, size, |m.medium|); }
  }

  lemma WriteStepsDone(m: Machine, addr: nat, size: BlockSize)
    requires Sane(m, size)
    ensures WriteSteps(m, addr, [], size) == Progress(0, m)
  {
  }
}
