/**
 A torn write, start to end: two bytes on either side of a block boundary, on a medium
 that stops while the first block is written back.
 */
module TornWrites {
  import opened Bytes
  import opened Blocks
  import opened DiskSpec
  import opened DeviceSteps
  import opened InstallUndo

  const LENGTH: nat := 1024
  const BLOCK: BlockSize := 512

  function Zeros(n: nat): (d: seq<Byte>)
    ensures |d| == n && forall i :: 0 <= i < n ==> d[i] == 0
  {
    seq(n, _ => 0)
  }

  /** Two transfers go through, and the third stops after `k` bytes. */
  function Fates(k: nat): seq<Transfer> {
    [Completes, Completes, StopsAfter(k)]
  }

  /** The state before the write. */
  function Start(k: nat): (m: Machine)
    ensures Sane(m, BLOCK)
  {
    Machine(Zeros(LENGTH), Zeros(BLOCK), 0, false, Fates(k))
  }

  /** The save phase leaves block 1 in the cache, at the price of one transfer. */
  function Saved(k: nat): (m: Machine)
    ensures Sane(m, BLOCK)
  {
    Start(k).(block := 1, faults := [Completes, StopsAfter(k)])
  }

  /** The first byte is in the cache, in block 0. */
  function Half(k: nat): (m: Machine)
    ensures Sane(m, BLOCK)
  {
    Start(k).(cache := Overlay(Zeros(BLOCK), 511, [1]), dirty := true, faults := [StopsAfter(k)])
  }

  lemma LoadOther(m: Machine, block: nat)
    requires Sane(m, BLOCK) && !m.dirty && m.block != block <= 1 && m.medium == Zeros(LENGTH)
    requires m.faults != [] && m.faults[0].Completes?
    ensures Loaded(m, block, BLOCK) == Tried(true, m.(block := block, cache := Zeros(BLOCK), faults := m.faults[1..]))
  {
    assert Filled(m, Base(block, BLOCK), BLOCK) == Zeros(BLOCK);
  }

  lemma LoadSame(m: Machine, block: nat)
    requires Sane(m, BLOCK) && m.block == block != NO_BLOCK
    ensures Loaded(m, block, BLOCK) == Tried(true, m)
  {
  }

  lemma SavePhase(k: nat)
    ensures ReadSteps(Start(k), 511, 2, BLOCK) == Tried(true, Saved(k))
  {
    hide Loaded;
    var m := Start(k);
    assert BlockAt(511, BLOCK) == 0 && ChunkAt(511, 2, BLOCK) == 1;
    LoadSame(m, 0);
    ReadStepsUnfold(m, 511, 2, BLOCK);
    assert BlockAt(512, BLOCK) == 1 && ChunkAt(512, 1, BLOCK) == 1;
    LoadOther(m, 1);
    assert m.faults[1..] == [Completes, StopsAfter(k)];
    ReadStepsUnfold(m, 512, 1, BLOCK);
    ReadStepsDone(Saved(k), 513, BLOCK);
  }

  /** What the medium shows once the write-back has stopped: the first byte, if it got that far. */
  function Stopped(k: nat): (d: Disk)
    ensures |d| == LENGTH
  {
    if k < BLOCK then Zeros(LENGTH) else Zeros(LENGTH)[511 := 1]
  }

  lemma FlushStops(k: nat)
    ensures Flushed(Half(k), BLOCK) == Tried(false, Half(k).(medium := Stopped(k), faults := []))
  {
    var m, n := Half(k), Moved(StopsAfter(k), BLOCK);
    assert m.faults[1..] == [];
    assert Overlay(m.medium, 0, m.cache[..n]) == Stopped(k);
  }

  /** The second block never loads, so one byte of the two was written. */
  lemma WritePhase(k: nat)
    ensures WriteSteps(Saved(k), 511, [1, 1], BLOCK) == Progress(1, Half(k).(medium := Stopped(k), faults := []))
  {
    var m := Saved(k);
    assert BlockAt(511, BLOCK) == 0 && OffsetAt(511, BLOCK) == 511 && ChunkAt(511, 2, BLOCK) == 1;
    assert BlockAt(512, BLOCK) == 1;
    LoadOther(m, 0);
    assert m.faults[1..] == [StopsAfter(k)];
    FlushStops(k);
    assert Loaded(Half(k), 1, BLOCK) == Flushed(Half(k), BLOCK);
    hide Loaded, Flushed, Overlay;
    WriteStepsUnfold(m, 511, [1, 1], BLOCK);
    assert [1, 1][..1] == [1] && [1, 1][1..] == [1];
    WriteStepsUnfold(Half(k), 512, [1], BLOCK);
  }

  /** The whole write: it fails after one byte, which is on the medium or only in the cache. */
  lemma WriteStops(k: nat)
    ensures RawSteps(Start(k), 511, [1, 1], BLOCK, true) == Progress(1, Half(k).(medium := Stopped(k), faults := []))
  {
    hide ReadSteps, WriteSteps;
    SavePhase(k);
    WritePhase(k);
  }

  lemma OneByteTorn()
    ensures Torn([], 511, 1) == {511}
  {
    assert forall i :: i in Torn([], 511, 1) <==> i == 511;
  }

  /**
   The write fails and the undo, which itself meets no fault, reports success. The
   medium is restored for `k` up to 511; from 512 on the write-back had put the first
   byte on the medium although it reported failure, and no journal entry takes it back.
   */
  method TornInstall(k: nat) returns (outcome: Outcome, restored: bool)
    ensures outcome == Undone(true)
    ensures restored <==> k < BLOCK
  {
    hide Recoverable, StoreFile, RawSteps;
    var medium := new Byte[LENGTH](_ => 0);
    ghost var original := medium[..];
    assert original == Zeros(LENGTH);
    var dev := Begin(medium, BLOCK, Fates(k));
    assert original[..BLOCK] == Zeros(BLOCK);
    WriteStops(k);
    var ok := TryWrite(dev, [1, 1], 511, original);
    assert dev.medium[..] == Stopped(k) && !ok;
    OneByteTorn();
    outcome := Conclude(dev, ok, original);
    restored := AllZero(medium);
  }

  method AllZero(medium: array<Byte>) returns (zero: bool)
    ensures zero <==> medium[..] == Zeros(medium.Length)
  {
    zero := true;
    for i := 0 to medium.Length
      invariant zero <==> forall j :: 0 <= j < i ==> medium[j] == 0
    {
      if medium[i] != 0 {
        zero := false;
      }
    }
    assert !zero ==> exists j :: 0 <= j < medium.Length && medium[..][j] != 0;
  }
}
