/** One run of the BIOS installer on an opened device. */
module BiosInstall {
  import opened Bytes
  import opened Blocks
  import opened DiskSpec
  import opened BlockDevice
  import opened InstallUndo
  import opened Gpt
  import opened GptSearch
  import opened PartitionTable
  import opened GptConvert

  // ----- filesystem signatures

  const NTFS: seq<Byte> := [0x4e, 0x54, 0x46, 0x53]
  const FAT: seq<Byte> := [0x46, 0x41, 0x54]
  const FAT32: seq<Byte> := [0x46, 0x41, 0x54, 0x33, 0x32]
  const EXT: seq<Byte> := [0x53, 0xef]

  /** The bytes at `at` are those of a known filesystem. */
  ghost predicate Carries(d: Disk, at: nat, magic: seq<Byte>) {
    at + |magic| <= |d| && d[at..at + |magic|] == magic
  }

  ghost predicate Recognised(d: Disk, offset: nat) {
    || Carries(d, offset + 3, NTFS) || Carries(d, offset + 54, FAT) || Carries(d, offset + 82, FAT)
    || Carries(d, offset + 3, FAT32) || Carries(d, offset + 1080, EXT)
  }

  /** What forcing may write to: three short stretches of the first sector and two bytes of the third. */
  ghost predicate OnlySignatures(d: Disk, d': Disk, offset: nat) {
    && |d| == |d'|
    && forall i :: 0 <= i < |d| && d'[i] != d[i] ==>
         && (offset + 3 <= i < offset + 8 || offset + 54 <= i < offset + 59 || offset + 82 <= i < offset + 87
             || offset + 1080 <= i < offset + 1082)
         && d'[i] == 0
  }

  datatype Verdict = Clear | Taken | Broken

  /** One signature: absent, in the way, or zeroed by force. */
  method CheckOne(dev: Device, at: U64, magic: seq<Byte>, width: nat, force: bool, ghost original: Disk)
    returns (v: Verdict)
    requires Underway(dev, original) && |dev.journal| < UNINSTALL_DATA_MAX
    requires 0 < |magic| <= width && magic[0] != 0
    modifies dev`cachedBlock, dev`dirty, dev`faults, dev`journal, dev`damage, dev.medium, dev.cache
    ensures Undoable(dev, original) && (!v.Broken? ==> Underway(dev, original))
    ensures Grown(old(dev.journal), dev.journal, 1)
    ensures Steady(old(dev.faults)) ==> Steady(dev.faults) && Underway(dev, original)
    ensures InSector(at, width) ==> Underway(dev, original)
    ensures !v.Broken? ==> dev.Reachable(at, |magic|)
    ensures v.Taken? ==> !force && Carries(dev.Logical(), at, magic) && dev.Logical() == old(dev.Logical())
    ensures v.Clear? ==> !Carries(dev.Logical(), at, magic) && Cleared(old(dev.Logical()), dev.Logical(), at, width)
    ensures v.Clear? && !force ==> dev.Logical() == old(dev.Logical())
    ensures !force ==> dev.journal == old(dev.journal)
    ensures Steady(old(dev.faults)) && v.Broken? ==> !dev.Reachable(at, width)
  {
    hide dev.Valid, Recoverable, dev.Writable, dev.Logical, ReachableOn, NoneBlank, InSector;
    ReachablePart(dev.size, dev.medium.Length, at, width, 0, |magic|);
    var got, hint := Read(dev, at, |magic|, original);
    if !got {
      return Broken;
    }
    if hint == magic {
      if !force {
        return Taken;
      }
      ghost var before := dev.Logical();
      var zeros := seq(width, _ => 0);
      var ok := Write(dev, zeros, at, original);
      if !ok {
        return Broken;
      }
      assert dev.Logical()[at] == 0;
      assert dev.Logical()[at..at + |magic|][0] != magic[0];
    }
    return Clear;
  }

  /** Nothing changed but some of `width` bytes at `at`, to zero. */
  ghost predicate Cleared(d: Disk, d': Disk, at: nat, width: nat) {
    && |d| == |d'|
    && forall i :: 0 <= i < |d| && d'[i] != d[i] ==> at <= i < at + width && d'[i] == 0
  }

  /** Clearing never makes a signature without zero bytes appear. */
  lemma ClearedStaysClear(d: Disk, d': Disk, at: nat, width: nat, elsewhere: nat, magic: seq<Byte>)
    requires Cleared(d, d', at, width) && 0 !in magic
    ensures Carries(d', elsewhere, magic) ==> Carries(d, elsewhere, magic)
  {
    if Carries(d', elsewhere, magic) {
      forall i | 0 <= i < |magic|
        ensures d[elsewhere + i] == magic[i]
      {
        assert magic[i] == d'[elsewhere..elsewhere + |magic|][i];
      }
      assert d[elsewhere..elsewhere + |magic|] == magic;
    }
  }

  lemma ClearedKeepsOnly(d: Disk, now: Disk, d': Disk, at: nat, width: nat, offset: nat)
    requires OnlySignatures(d, now, offset) && Cleared(now, d', at, width)
    requires || (at == offset + 3 && width <= 5) || (at == offset + 54 && width <= 5)
             || (at == offset + 82 && width <= 5)
             || (at == offset + 1080 && width <= 2)
    ensures OnlySignatures(d, d', offset)
  {
  }

  /** After success no known filesystem is recognised; without force nothing was written. */
  method ValidateOrForce(dev: Device, offset: U64, force: bool, ghost original: Disk) returns (v: Verdict)
    requires Underway(dev, original) && |dev.journal| + 5 <= UNINSTALL_DATA_MAX && offset + 1082 <= TWO64
    modifies dev`cachedBlock, dev`dirty, dev`faults, dev`journal, dev`damage, dev.medium, dev.cache
    ensures Undoable(dev, original) && (!v.Broken? ==> Underway(dev, original))
    ensures Grown(old(dev.journal), dev.journal, 5)
    ensures offset % 512 == 0 ==> Underway(dev, original)
    ensures !v.Broken? ==> OnlySignatures(old(dev.Logical()), dev.Logical(), offset)
    ensures v.Clear? ==> !Recognised(dev.Logical(), offset)
    ensures v.Taken? ==> !force && Recognised(dev.Logical(), offset)
    ensures !force && !v.Broken? ==> dev.Logical() == old(dev.Logical()) && dev.journal == old(dev.journal)
    ensures Steady(old(dev.faults)) ==> Steady(dev.faults) && Underway(dev, original)
    ensures Steady(old(dev.faults)) ==>
              (v.Clear? <==> dev.Reachable(offset, 1082) && (force || !Recognised(old(dev.Logical()), offset)))
  {
    hide dev.Valid, Recoverable, dev.Writable, dev.Logical, Carries, Cleared, OnlySignatures, ReachableOn,
         NoneBlank, InSector;
    SignaturesReachable(dev.size, dev.medium.Length, offset);
    SignaturesInSectors(offset);
    ghost var d0 := dev.Logical();
    NoSignatures(d0, offset);
    v := CheckOne(dev, offset + 3, NTFS, 4, force, original);
    if !v.Clear? { return; }
    ghost var d1 := dev.Logical();
    ClearedKeepsOnly(d0, d0, d1, offset + 3, 4, offset);
    v := CheckOne(dev, offset + 54, FAT, 5, force, original);
    if !v.Clear? { return; }
    ghost var d2 := dev.Logical();
    ClearedKeepsOnly(d0, d1, d2, offset + 54, 5, offset);
    ClearedStaysClear(d1, d2, offset + 54, 5, offset + 3, NTFS);
    v := CheckOne(dev, offset + 82, FAT, 5, force, original);
    if !v.Clear? { return; }
    ghost var d3 := dev.Logical();
    ClearedKeepsOnly(d0, d2, d3, offset + 82, 5, offset);
    ClearedStaysClear(d2, d3, offset + 82, 5, offset + 3, NTFS);
    ClearedStaysClear(d2, d3, offset + 82, 5, offset + 54, FAT);
    v := CheckOne(dev, offset + 3, FAT32, 5, force, original);
    if !v.Clear? { return; }
    ghost var d4 := dev.Logical();
    ClearedKeepsOnly(d0, d3, d4, offset + 3, 5, offset);
    ClearedStaysClear(d3, d4, offset + 3, 5, offset + 3, NTFS);
    ClearedStaysClear(d3, d4, offset + 3, 5, offset + 54, FAT);
    ClearedStaysClear(d3, d4, offset + 3, 5, offset + 82, FAT);
    v := CheckOne(dev, offset + 1080, EXT, 2, force, original);
    if !v.Clear? { return; }
    ghost var d5 := dev.Logical();
    ClearedKeepsOnly(d0, d4, d5, offset + 1080, 2, offset);
    ClearedStaysClear(d4, d5, offset + 1080, 2, offset + 3, NTFS);
    ClearedStaysClear(d4, d5, offset + 1080, 2, offset + 54, FAT);
    ClearedStaysClear(d4, d5, offset + 1080, 2, offset + 82, FAT);
    ClearedStaysClear(d4, d5, offset + 1080, 2, offset + 3, FAT32);
  }

  lemma SignaturesReachable(size: BlockSize, length: nat, offset: nat)
    ensures ReachableOn(size, length, offset, 1082) <==> ReachableOn(size, length, offset + 1080, 2)
    ensures ReachableOn(size, length, offset, 1082) ==>
              && ReachableOn(size, length, offset + 3, 4) && ReachableOn(size, length, offset + 54, 5)
              && ReachableOn(size, length, offset + 82, 5) && ReachableOn(size, length, offset + 3, 5)
  {
    assert offset + 1080 + 2 - 1 == offset + 1082 - 1;
    assert ReachableOn(size, length, offset, 1082) <==> ReachableOn(size, length, offset + 1080, 2);
    hide ReachableOn;
    ReachablePart(size, length, offset, 1082, 3, 4);
    ReachablePart(size, length, offset, 1082, 54, 5);
    ReachablePart(size, length, offset, 1082, 82, 5);
    ReachablePart(size, length, offset, 1082, 3, 5);
  }

  lemma SignaturesInSectors(offset: nat)
    ensures offset % 512 == 0 ==>
              && InSector(offset + 3, 4) && InSector(offset + 54, 5) && InSector(offset + 82, 5)
              && InSector(offset + 3, 5) && InSector(offset + 1080, 2)
  {
  }

  lemma NoSignatures(d: Disk, offset: nat)
    ensures OnlySignatures(d, d, offset)
  {
  }

  // ----- the MBR

  function StartAt(d: Disk, k: nat): U32
    requires k < 4 && |d| >= 512
  {
    Read32(d, TABLE + 16 * k + 8)
  }

  function StatusAt(d: Disk, k: nat): Byte
    requires k < 4 && |d| >= 512
  {
    d[TABLE + 16 * k]
  }

  /** No entry in use starts before sector 63. */
  ghost predicate StartsHigh(d: Disk, n: nat) {
    n <= 4 && |d| >= 512 && forall k :: 0 <= k < n && TypeAt(d, k) != 0 ==> StartAt(d, k) >= 63
  }

  /** Apart from the four status bytes, the sector from the disk identifier to the boot signature. */
  ghost predicate TableSame(d: Disk, d': Disk) {
    && |d| == |d'| >= 512
    && forall i :: 440 <= i < 510 && i != 446 && i != 462 && i != 478 && i != 494 ==> d'[i] == d[i]
  }

  /** Nothing but boot code, table and signature bytes below sector 3. */
  ghost predicate BelowGap(d: Disk, d': Disk) {
    && TableSame(d, d')
    && Kept(d, d', 512, 1080) && Kept(d, d', 1082, |d|)
  }

  lemma BelowGapTwice(a: Disk, b: Disk, c: Disk)
    requires BelowGap(a, b) && BelowGap(b, c)
    ensures BelowGap(a, c)
  {
  }

  lemma BelowGapSame(d: Disk)
    requires |d| >= 512
    ensures BelowGap(d, d)
  {
  }

  lemma StartsHighKept(d: Disk, d': Disk, n: nat)
    requires TableSame(d, d') && n <= 4
    ensures StartsHigh(d, n) <==> StartsHigh(d', n)
  {
    forall k | 0 <= k < n
      ensures TypeAt(d', k) == TypeAt(d, k) && StartAt(d', k) == StartAt(d, k)
    {
    }
  }

  lemma StatusWritten(d: Disk, k: nat, b: Byte)
    requires |d| >= 512 && k < 4
    ensures BelowGap(d, Overlay(d, TABLE + 16 * k, [b]))
  {
  }

  lemma SignatureWritten(d: Disk, s: seq<Byte>)
    requires |d| >= 512 && |s| == 2
    ensures BelowGap(d, Overlay(d, 510, s))
  {
  }

  lemma ClearedBelowGap(d: Disk, d': Disk)
    requires |d| >= 512 && OnlySignatures(d, d', 0)
    ensures BelowGap(d, d')
  {
  }

  datatype Checked = Valid(active: bool) | Invalid(active: bool) | Halted

  /** One entry of the table. A status that is neither value is masked by force; a low start halts the run. */
  method CheckEntry(dev: Device, k: nat, force: bool, ghost original: Disk) returns (c: Checked)
    requires Underway(dev, original) && |dev.journal| < UNINSTALL_DATA_MAX
    requires k < 4 && dev.Inside(0) && 512 <= dev.medium.Length
    modifies dev`cachedBlock, dev`dirty, dev`faults, dev`journal, dev`damage, dev.medium, dev.cache
    ensures Underway(dev, original) && Grown(old(dev.journal), dev.journal, 1)
    ensures Steady(old(dev.faults)) ==> Steady(dev.faults) && Underway(dev, original)
    ensures !c.Halted? || Steady(old(dev.faults)) ==> BelowGap(old(dev.Logical()), dev.Logical())
    ensures !c.Halted? && TypeAt(dev.Logical(), k) != 0 ==> StartAt(dev.Logical(), k) >= 63
    ensures !c.Halted? ==>
              forall j :: 0 <= j < 4 && j != k ==> StatusAt(dev.Logical(), j) == StatusAt(old(dev.Logical()), j)
    ensures !c.Halted? ==> dev.Logical()[510..512] == old(dev.Logical()[510..512])
    ensures c.Valid? ==> StatusAt(dev.Logical(), k) == if c.active then 0x80 else 0
    ensures c.Invalid? ==> !force && StatusAt(dev.Logical(), k) != 0 && StatusAt(dev.Logical(), k) != 0x80
    ensures !force && !c.Halted? ==> dev.Logical() == old(dev.Logical())
    ensures Steady(old(dev.faults)) && c.Halted? ==> TypeAt(dev.Logical(), k) != 0 && StartAt(dev.Logical(), k) < 63
  {
    hide dev.Valid, Recoverable, dev.Writable, dev.Logical, ReachableOn, StartAt, TypeAt, BelowGap, Overlay,
         NoneBlank, InSector;
    ghost var disk := dev.Logical();
    BelowGapSame(disk);
    var at := TABLE + 16 * k;
    FirstBlock(dev, at, 1);
    var got, hint := Read(dev, at, 1, original);
    if !got { return Halted; }
    var status, valid := hint[0], true;
    assert status == StatusAt(disk, k);
    StatusOnly(disk, k, if status >= 0x80 then 0x80 else 0);
    if status != 0x00 && status != 0x80 {
      if !force {
        valid := false;
      } else {
        status := if status >= 0x80 then 0x80 else 0;
        var ok := Write(dev, [status], at, original);
        if !ok { return Halted; }
      }
    }
    got := CheckStart(dev, k, original);
    if !got { return Halted; }
    return if valid then Valid(status >= 0x80) else Invalid(status >= 0x80);
  }

  lemma StatusOnly(d: Disk, k: nat, b: Byte)
    requires |d| >= 512 && k < 4
    ensures var d' := Overlay(d, TABLE + 16 * k, [b]);
            && BelowGap(d, d') && StatusAt(d', k) == b && d'[510..512] == d[510..512]
            && forall j :: 0 <= j < 4 && j != k ==> StatusAt(d', j) == StatusAt(d, j)
  {
    StatusWritten(d, k, b);
    assert Overlay(d, TABLE + 16 * k, [b])[510..512] == d[510..512];
  }

  /** An entry in use that starts below sector 63 stops the run. */
  method CheckStart(dev: Device, k: nat, ghost original: Disk) returns (ok: bool)
    requires Underway(dev, original) && k < 4 && dev.Inside(0) && 512 <= dev.medium.Length
    modifies dev`cachedBlock, dev`dirty, dev`faults, dev.medium, dev.cache
    ensures Underway(dev, original) && dev.Logical() == old(dev.Logical())
    ensures Steady(old(dev.faults)) ==> Steady(dev.faults)
    ensures ok && TypeAt(dev.Logical(), k) != 0 ==> StartAt(dev.Logical(), k) >= 63
    ensures Steady(old(dev.faults)) && !ok ==> TypeAt(dev.Logical(), k) != 0 && StartAt(dev.Logical(), k) < 63
  {
    hide dev.Valid, Recoverable, dev.Writable, dev.Logical, ReachableOn, StartAt;
    var at := TABLE + 16 * k;
    FirstBlock(dev, at + 4, 1);
    FirstBlock(dev, at + 8, 4);
    var got, hint := Read(dev, at + 4, 1, original);
    if !got { return false; }
    assert hint[0] == TypeAt(dev.Logical(), k);
    if hint[0] != 0 {
      got, hint := Read(dev, at + 8, 4, original);
      if !got { return false; }
      SameStart(dev.Logical(), k, hint);
      if Read32(hint, 0) < 63 {
        return false;
      }
    }
    return true;
  }

  lemma SameStart(d: Disk, k: nat, s: seq<Byte>)
    requires |d| >= 512 && k < 4 && s == Slice(d, TABLE + 16 * k + 8, 4)
    ensures Read32(s, 0) == StartAt(d, k)
  {
  }

  /** The first `n` status bytes are legal; `active` says whether one of them marks its entry active. */
  ghost predicate Statuses(d: Disk, n: nat, active: bool) {
    && n <= 4 && |d| >= 512
    && (forall k :: 0 <= k < n ==> StatusAt(d, k) == 0 || StatusAt(d, k) == 0x80)
    && (active <==> exists k :: 0 <= k < n && StatusAt(d, k) == 0x80)
  }

  lemma StatusesStep(d: Disk, d': Disk, n: nat, was: bool, here: bool)
    requires Statuses(d, n, was) && n < 4 && |d'| >= 512
    requires forall j :: 0 <= j < 4 && j != n ==> StatusAt(d', j) == StatusAt(d, j)
    requires StatusAt(d', n) == if here then 0x80 else 0
    ensures Statuses(d', n + 1, was || here)
  {
    if was {
      var k :| 0 <= k < n && StatusAt(d, k) == 0x80;
      assert StatusAt(d', k) == 0x80;
    }
    if here {
      assert StatusAt(d', n) == 0x80;
    }
  }

  ghost predicate BadStatus(d: Disk, n: nat) {
    n <= 4 && |d| >= 512 && exists k :: 0 <= k < n && StatusAt(d, k) != 0 && StatusAt(d, k) != 0x80
  }

  /** What a usable MBR looks like after the checks. */
  ghost predicate GoodMbr(d: Disk) {
    && |d| >= 512 && d[510] == 0x55 && d[511] == 0xaa
    && StartsHigh(d, 4) && Statuses(d, 4, true) && !Recognised(d, 0)
  }

  /** The four entries in turn. */
  method CheckEntries(dev: Device, force: bool, ghost original: Disk) returns (c: Checked)
    requires Underway(dev, original) && |dev.journal| + 4 <= UNINSTALL_DATA_MAX
    requires dev.Inside(0) && 512 <= dev.medium.Length
    modifies dev`cachedBlock, dev`dirty, dev`faults, dev`journal, dev`damage, dev.medium, dev.cache
    ensures Underway(dev, original) && Grown(old(dev.journal), dev.journal, 4)
    ensures Steady(old(dev.faults)) ==> Steady(dev.faults) && Underway(dev, original)
    ensures !c.Halted? ==> BelowGap(old(dev.Logical()), dev.Logical())
    ensures !c.Halted? ==> StartsHigh(dev.Logical(), 4) && StartsHigh(old(dev.Logical()), 4)
    ensures !c.Halted? && !force ==> dev.Logical() == old(dev.Logical())
    ensures Steady(old(dev.faults)) && c.Halted? ==> !StartsHigh(old(dev.Logical()), 4)
    ensures c.Valid? ==> Statuses(dev.Logical(), 4, c.active)
    ensures c.Invalid? ==> !force && BadStatus(dev.Logical(), 4)
    ensures !c.Halted? ==> dev.Logical()[510..512] == old(dev.Logical()[510..512])
  {
    hide dev.Valid, Recoverable, dev.Writable, dev.Logical, StartAt, TypeAt, StatusAt, BelowGap, Statuses, NoneBlank;
    var valid, anyActive := true, false;
    ghost var disk := dev.Logical();
    BelowGapSame(disk);
    NoStatuses(disk);
    for k := 0 to 4
      invariant Underway(dev, original) && Grown(old(dev.journal), dev.journal, k)
      invariant Steady(old(dev.faults)) ==> Steady(dev.faults)
      invariant BelowGap(disk, dev.Logical()) && StartsHigh(dev.Logical(), k)
      invariant !force ==> dev.Logical() == disk
      invariant valid ==> Statuses(dev.Logical(), k, anyActive)
      invariant !valid ==> !force && BadStatus(dev.Logical(), k)
      invariant dev.Logical()[510..512] == disk[510..512]
    {
      ghost var now := dev.Logical();
      c := CheckEntry(dev, k, force, original);
      if !c.Halted? || Steady(old(dev.faults)) {
        BelowGapTwice(disk, now, dev.Logical());
        BelowGapTable(disk, dev.Logical());
        StartsHighKept(disk, dev.Logical(), 4);
      }
      if c.Halted? {
        return;
      }
      assert TableSame(now, dev.Logical()) by { BelowGapTable(now, dev.Logical()); }
      StartsHighKept(now, dev.Logical(), k);
      if valid && c.Valid? {
        StatusesStep(now, dev.Logical(), k, anyActive, c.active);
      }
      valid := valid && c.Valid?;
      anyActive := anyActive || c.active;
    }
    BelowGapTable(disk, dev.Logical());
    StartsHighKept(disk, dev.Logical(), 4);
    return if valid then Valid(anyActive) else Invalid(anyActive);
  }

  lemma NoStatuses(d: Disk)
    requires |d| >= 512
    ensures Statuses(d, 0, false)
  {
  }

  lemma BelowGapTable(d: Disk, d': Disk)
    requires BelowGap(d, d')
    ensures TableSame(d, d')
  {
  }

  /** The checks an MBR has to pass; force makes up for all but a low start and an unreadable third sector. */
  ghost predicate MbrUsable(size: BlockSize, d: Disk, force: bool) {
    && StartsHigh(d, 4) && ReachableOn(size, |d|, 0, 1082)
    && (force || (d[510..512] == [0x55, 0xaa] && !BadStatus(d, 4) && !Recognised(d, 0)))
  }

  /** All checks of the MBR; success leaves a good one, and only its own bytes changed. */
  method CheckMbr(dev: Device, force: bool, ghost original: Disk) returns (c: Checked)
    requires Underway(dev, original) && |dev.journal| + 11 <= UNINSTALL_DATA_MAX
    requires dev.Inside(0) && 512 <= dev.medium.Length
    modifies dev`cachedBlock, dev`dirty, dev`faults, dev`journal, dev`damage, dev.medium, dev.cache
    ensures Underway(dev, original) && Grown(old(dev.journal), dev.journal, 11)
    ensures c.Valid? ==> BelowGap(old(dev.Logical()), dev.Logical()) && GoodMbr(dev.Logical())
    ensures c.Invalid? ==>
              && !force && dev.Logical() == old(dev.Logical())
              && (|| dev.Logical()[510..512] != [0x55, 0xaa]
                  || BadStatus(dev.Logical(), 4) || Recognised(dev.Logical(), 0))
    ensures Steady(old(dev.faults)) ==>
              && Steady(dev.faults) && Underway(dev, original)
              && (c.Valid? <==> MbrUsable(dev.size, old(dev.Logical()), force))
  {
    hide dev.Valid, Recoverable, dev.Writable, dev.Logical, ReachableOn, Slice, Overlay, BelowGap, Statuses,
         StartsHigh, Recognised, BadStatus, NoneBlank, InSector;
    ghost var disk := dev.Logical();
    BelowGapSame(disk);
    FirstBlock(dev, 510, 2);
    FirstBlock(dev, TABLE, 1);
    var signed := true;
    var got, hint := Read(dev, 510, 2, original);
    if !got { return Halted; }
    SignatureRead(disk, hint);
    if hint != [0x55, 0xaa] {
      if !force {
        signed := false;
      } else {
        SignatureWritten(disk, [0x55, 0xaa]);
        SignatureIs(disk);
        var ok := Write(dev, [0x55, 0xaa], 510, original);
        if !ok { return Halted; }
      }
    }
    ghost var d1 := dev.Logical();
    BelowGapTable(disk, d1);
    StartsHighKept(disk, d1, 4);
    c := CheckEntries(dev, force, original);
    if c.Halted? { return; }
    ghost var d2 := dev.Logical();
    BelowGapTwice(disk, d1, d2);
    if !signed || c.Invalid? {
      return Invalid(c.active);
    }
    assert d2[510..512] == [0x55, 0xaa];
    var active := c.active;
    LegalStatuses(d2, active);
    var v := ValidateOrForce(dev, 0, force, original);
    if v.Broken? { return Halted; }
    if v.Taken? { return Invalid(active); }
    ghost var d3 := dev.Logical();
    ClearedBelowGap(d2, d3);
    BelowGapTwice(disk, d2, d3);
    ClearedKeepsMbr(d2, d3, active);
    if !active {
      ActivatedKeeps(d3);
      StatusWritten(d3, 0, 0x80);
      BelowGapTwice(disk, d3, Overlay(d3, TABLE, [0x80]));
      var ok := Write(dev, [0x80], TABLE, original);
      if !ok { return Halted; }
    }
    return Valid(true);
  }

  lemma LegalStatuses(d: Disk, active: bool)
    requires Statuses(d, 4, active)
    ensures !BadStatus(d, 4)
  {
  }

  lemma SignatureRead(d: Disk, hint: seq<Byte>)
    requires |d| >= 512 && hint == Slice(d, 510, 2)
    ensures d[510..512] == hint
  {
  }

  lemma SignatureIs(d: Disk)
    requires |d| >= 512
    ensures Overlay(d, 510, [0x55, 0xaa])[510..512] == [0x55, 0xaa]
  {
  }

  lemma ClearedKeepsMbr(d: Disk, d': Disk, active: bool)
    requires OnlySignatures(d, d', 0) && StartsHigh(d, 4) && Statuses(d, 4, active) && d[510..512] == [0x55, 0xaa]
    ensures StartsHigh(d', 4) && Statuses(d', 4, active) && d'[510] == 0x55 && d'[511] == 0xaa
  {
    hide Read32;
    assert d'[510..512] == d[510..512];
    assert TableSame(d, d');
    StartsHighKept(d, d', 4);
    assert forall k :: 0 <= k < 4 ==> StatusAt(d', k) == StatusAt(d, k);
  }

  lemma ActivatedKeeps(d: Disk)
    requires StartsHigh(d, 4) && Statuses(d, 4, false) && d[510] == 0x55 && d[511] == 0xaa && !Recognised(d, 0)
    ensures GoodMbr(Overlay(d, TABLE, [0x80]))
  {
    hide Read32;
    var d' := Overlay(d, TABLE, [0x80]);
    assert StatusAt(d', 0) == 0x80;
    assert forall k :: 1 <= k < 4 ==> StatusAt(d', k) == StatusAt(d, k);
    StartsHighKept(d, d', 4);
    SignaturesElsewhere(d, d', NTFS, 3);
    SignaturesElsewhere(d, d', FAT, 54);
    SignaturesElsewhere(d, d', FAT, 82);
    SignaturesElsewhere(d, d', FAT32, 3);
    SignaturesElsewhere(d, d', EXT, 1080);
  }

  lemma SignaturesElsewhere(d: Disk, d': Disk, magic: seq<Byte>, at: nat)
    requires |d| >= 512 && d' == Overlay(d, TABLE, [0x80]) && (at + |magic| <= TABLE || TABLE < at)
    ensures Carries(d', at, magic) == Carries(d, at, magic)
  {
    if at + |magic| <= |d| {
      assert d'[at..at + |magic|] == d[at..at + |magic|];
    }
  }

  // ----- the final writes

  const STAGE2_FIELD: nat := 0x1a4
  const TIMESTAMP: nat := 218
  const SAVED: nat := 440

  /** The five writes: boot sector, stage 2, its place, then timestamp and table put back. */
  ghost function Patched(d: Disk, image: seq<Byte>, loc: U64): (d': Disk)
    requires |image| >= 512 && |d| >= 512 && (|image| > 512 ==> loc + |image| - 512 <= |d|)
    ensures |d'| == |d|
  {
    var a := Overlay(d, 0, image[..512]);
    var b := Overlay(a, loc, image[512..]);
    var c := Overlay(b, STAGE2_FIELD, LittleEndian64(loc));
    var e := Overlay(c, TIMESTAMP, Slice(d, TIMESTAMP, 6));
    Overlay(e, SAVED, Slice(d, SAVED, 70))
  }

  /** Byte `i` of the boot sector, as the image has it or as one of the three exceptions does. */
  ghost predicate BootSector(d: Disk, d': Disk, image: seq<Byte>, loc: U64) {
    && |d| == |d'| >= 512 && |image| >= 512
    && d'[SAVED..510] == d[SAVED..510]
    && d'[TIMESTAMP..TIMESTAMP + 6] == d[TIMESTAMP..TIMESTAMP + 6]
    && d'[STAGE2_FIELD..STAGE2_FIELD + 8] == LittleEndian64(loc)
    && forall i :: 0 <= i < 512 && !Exempt(i) ==> d'[i] == image[i]
  }

  /** Boot sector bytes that do not come from the image. */
  predicate Exempt(i: int) {
    || SAVED <= i < 510 || TIMESTAMP <= i < TIMESTAMP + 6 || STAGE2_FIELD <= i < STAGE2_FIELD + 8
  }

  /** Where each byte of the patched disk comes from. */
  ghost function PatchedByte(d: Disk, image: seq<Byte>, loc: U64, i: nat): Byte
    requires |image| >= 512 && |d| >= 512 && i < |d|
  {
    if SAVED <= i < 510 || TIMESTAMP <= i < TIMESTAMP + 6 then d[i]
    else if STAGE2_FIELD <= i < STAGE2_FIELD + 8 then LittleEndian64(loc)[i - STAGE2_FIELD]
    else if loc <= i < loc + |image| - 512 then image[512 + i - loc]
    else if i < 512 then image[i] else d[i]
  }

  lemma PatchedAt(d: Disk, image: seq<Byte>, loc: U64, i: nat)
    requires |image| >= 512 && |d| >= 512 && loc >= 512 && (|image| > 512 ==> loc + |image| - 512 <= |d|) && i < |d|
    ensures Patched(d, image, loc)[i] == PatchedByte(d, image, loc, i)
  {
    hide LittleEndian64, Overlay, Slice;
    var place, stamp, saved := LittleEndian64(loc), Slice(d, TIMESTAMP, 6), Slice(d, SAVED, 70);
    var a := Overlay(d, 0, image[..512]);
    var b := Overlay(a, loc, image[512..]);
    var c := Overlay(b, STAGE2_FIELD, place);
    var e := Overlay(c, TIMESTAMP, stamp);
    SliceAt(d, TIMESTAMP, 6, i);
    SliceAt(d, SAVED, 70, i);
    assert a[i] == if i < 512 then image[i] else d[i];
    assert b[i] == if loc <= i < loc + |image| - 512 then image[512 + i - loc] else a[i];
    assert c[i] == if STAGE2_FIELD <= i < STAGE2_FIELD + 8 then place[i - STAGE2_FIELD] else b[i];
    assert e[i] == if TIMESTAMP <= i < TIMESTAMP + 6 then d[i] else c[i];
  }

  lemma SliceAt(d: Disk, loc: nat, count: nat, i: nat)
    requires count > 0 && loc + count <= |d|
    ensures loc <= i < loc + count ==> Slice(d, loc, count)[i - loc] == d[i]
  {
  }

  lemma PatchedIs(d: Disk, image: seq<Byte>, loc: U64)
    requires |image| >= 512 && |d| >= 512 && loc >= 512 && (|image| > 512 ==> loc + |image| - 512 <= |d|)
    ensures BootSector(d, Patched(d, image, loc), image, loc)
    ensures Slice(Patched(d, image, loc), loc, |image| - 512) == image[512..]
    ensures Kept(d, Patched(d, image, loc), 512, loc) && Kept(d, Patched(d, image, loc), loc + |image| - 512, |d|)
  {
    hide LittleEndian64, Patched;
    forall i | 0 <= i < |d|
      ensures Patched(d, image, loc)[i] == PatchedByte(d, image, loc, i)
    {
      PatchedAt(d, image, loc, i);
    }
    var d', place := Patched(d, image, loc), LittleEndian64(loc);
    assert d'[STAGE2_FIELD..STAGE2_FIELD + 8] == place;
    if |image| > 512 {
      assert d'[loc..loc + |image| - 512] == image[512..];
    }
  }

  lemma SectorReachable(dev: Device)
    ensures dev.Inside(0) ==>
              && dev.Reachable(TIMESTAMP, 6) && dev.Reachable(SAVED, 70) && dev.Reachable(0, 512)
              && dev.Reachable(STAGE2_FIELD, 8)
  {
    if dev.Inside(0) {
      FirstBlock(dev, TIMESTAMP, 6);
      FirstBlock(dev, SAVED, 70);
      FirstBlock(dev, 0, 512);
      FirstBlock(dev, STAGE2_FIELD, 8);
    }
  }

  /** Stage 2 fits its place, and the place is on the medium. */
  ghost predicate StageFits(size: BlockSize, length: nat, image: seq<Byte>, loc: nat, max: nat)
    requires |image| >= 512
  {
    |image| - 512 <= max && ReachableOn(size, length, loc, |image| - 512)
  }

  method FinalWrites(dev: Device, image: seq<Byte>, loc: U64, max: nat, ghost original: Disk) returns (ok: bool)
    requires Underway(dev, original) && |dev.journal| + 5 <= UNINSTALL_DATA_MAX
    requires |image| >= 512 && 512 <= dev.medium.Length
    modifies dev`cachedBlock, dev`dirty, dev`faults, dev`journal, dev`damage, dev.medium, dev.cache
    ensures Undoable(dev, original) && (ok ==> Underway(dev, original)) && |dev.journal| <= |old(dev.journal)| + 5
    ensures forall i :: i in dev.damage ==> loc <= i < loc + |image| - 512 && |image| - 512 <= max
    ensures ok ==> |image| - 512 <= max && (|image| > 512 ==> loc + |image| - 512 <= dev.medium.Length)
    ensures ok ==> dev.Logical() == Patched(old(dev.Logical()), image, loc)
    ensures ok ==> (NoneBlank(dev.journal) <==> NoneBlank(old(dev.journal)) && |image| > 512)
    ensures Steady(old(dev.faults)) ==> Steady(dev.faults) && Underway(dev, original)
    ensures Steady(old(dev.faults)) && dev.Inside(0) ==>
              (ok <==> StageFits(dev.size, dev.medium.Length, image, loc, max))
  {
    hide dev.Valid, Recoverable, dev.Writable, dev.Logical, ReachableOn, Slice, Overlay, LittleEndian64, dev.Inside,
         NoneBlank, InSector;
    SectorReachable(dev);
    var timestamp, saved;
    ok, timestamp := Read(dev, TIMESTAMP, 6, original);
    if !ok { return; }
    ok, saved := Read(dev, SAVED, 70, original);
    if !ok { return; }
    if |image| - 512 > max {
      return false;
    }
    ok := Write(dev, image[..512], 0, original);
    if !ok { return; }
    ok := Write(dev, image[512..], loc, original);
    if !ok { return; }
    ok := Write(dev, LittleEndian64(loc), STAGE2_FIELD, original);
    if !ok { return; }
    ok := Write(dev, timestamp, TIMESTAMP, original);
    if !ok { return; }
    ok := Write(dev, saved, SAVED, original);
  }

  // ----- a partition for stage 2 on a GPT disk

  datatype Request = Auto | Numbered(n: nat)

  predicate BiosBoot(e: GptEntry) {
    e.kind1 == 0x6e6f_6449_2168_6148 && e.kind2 == 0x4946_4564_6565_4e74
  }

  function ArrayBase(f: Located): nat
    requires f.Found?
  {
    Base(f.header.entryLba, f.lb)
  }

  function Declared(d: Disk, f: Located, k: nat): GptEntry
    requires ArrayFits(d, f) && k < f.header.entryCount
  {
    EntryInside(ArrayBase(f), f.header.entrySize, k, f.header.entryCount);
    EntryAt(d, ArrayBase(f), f.header.entrySize, k)
  }

  method ReadEntry(dev: Device, f: Located, k: nat, ghost original: Disk) returns (ok: bool, e: GptEntry)
    requires Underway(dev, original) && ArrayFits(dev.Logical(), f) && k < f.header.entryCount
    modifies dev`cachedBlock, dev`dirty, dev`faults, dev.medium, dev.cache
    ensures Underway(dev, original) && dev.Logical() == old(dev.Logical())
    ensures Steady(old(dev.faults)) ==> Steady(dev.faults)
    ensures ok ==> e == Declared(dev.Logical(), f, k)
    ensures Steady(old(dev.faults)) && !ok ==> !ArrayReachable(dev.size, dev.Logical(), f)
  {
    hide dev.Valid, Recoverable, dev.Writable, dev.Logical, ReachableOn, Slice, ParseEntry, EntryLoc, Base;
    dev.ValidBounds();
    EntryInside(ArrayBase(f), f.header.entrySize, k, f.header.entryCount);
    EntryReachable(dev.size, dev.medium.Length, ArrayBase(f), f.header.entrySize, k, f.header.entryCount);
    var bytes;
    e := GptEntry(0, 0, 0, 0);
    ok, bytes := Read(dev, EntryLoc(ArrayBase(f), f.header.entrySize, k), ENTRY_BYTES, original);
    if ok {
      e := ParseEntry(bytes);
    }
  }

  /** The entry asked for, or the first BIOS boot partition. */
  ghost predicate Selected(d: Disk, f: Located, request: Request, force: bool, k: nat) {
    && ArrayFits(d, f) && k < f.header.entryCount && k < MAX_GPT_PARTITIONS
    && match request
       case Numbered(n) => k + 1 == n && InUse(Declared(d, f, k)) && (force || BiosBoot(Declared(d, f, k)))
       case Auto => BiosBoot(Declared(d, f, k)) && forall j :: 0 <= j < k ==> !BiosBoot(Declared(d, f, j))
  }

  method Select(dev: Device, f: Located, request: Request, force: bool, ghost original: Disk)
    returns (ok: bool, k: nat, e: GptEntry)
    requires Underway(dev, original) && ArrayFits(dev.Logical(), f)
    modifies dev`cachedBlock, dev`dirty, dev`faults, dev.medium, dev.cache
    ensures Underway(dev, original) && dev.Logical() == old(dev.Logical())
    ensures Steady(old(dev.faults)) ==> Steady(dev.faults)
    ensures ok ==> Selected(dev.Logical(), f, request, force, k) && e == Declared(dev.Logical(), f, k)
    ensures Steady(old(dev.faults)) && ArrayReachable(dev.size, dev.Logical(), f) && !ok ==>
              forall j: nat :: !Selected(dev.Logical(), f, request, force, j)
  {
    hide dev.Valid, Recoverable, dev.Writable, dev.Logical, Declared, BiosBoot, InUse, ArrayReachable;
    ghost var disk := dev.Logical();
    var count := if f.header.entryCount > MAX_GPT_PARTITIONS then MAX_GPT_PARTITIONS else f.header.entryCount;
    k, e := 0, GptEntry(0, 0, 0, 0);
    match request {
      case Numbered(n) =>
        if n == 0 || n - 1 >= count {
          return false, k, e;
        }
        k := n - 1;
        ok, e := ReadEntry(dev, f, k, original);
        ok := ok && InUse(e) && (force || BiosBoot(e));
      case Auto =>
        while k < count
          invariant 0 <= k <= count && Underway(dev, original) && dev.Logical() == disk
          invariant Steady(old(dev.faults)) ==> Steady(dev.faults)
          invariant forall j :: 0 <= j < k ==> !BiosBoot(Declared(disk, f, j))
        {
          ok, e := ReadEntry(dev, f, k, original);
          if !ok {
            return;
          }
          if BiosBoot(e) {
            return true, k, e;
          }
          k := k + 1;
        }
        ok := false;
    }
  }

  predicate Overlapping(a: GptEntry, b: GptEntry) {
    a.start <= b.end && b.start <= a.end
  }

  function EndReserve(lb: BlockSize): nat {
    (16384 + lb - 1) / lb
  }

  /** Clear of both tables wherever the header claims they are, and of every other partition. */
  ghost predicate PlacedWell(d: Disk, f: Located, k: nat) {
    && ArrayFits(d, f) && k < f.header.entryCount
    && var e, blocks := Declared(d, f, k), BlockCount(|d|, f.lb);
    && e.start <= e.end
    && 2 + EndReserve(f.lb) <= e.start && e.end + 2 + EndReserve(f.lb) <= blocks
    && f.header.firstUsable <= e.start && e.end <= f.header.lastUsable
    && Base(e.end - e.start + 1, f.lb) >= 32768
    && forall i :: 0 <= i < f.header.entryCount && i != k && InUse(Declared(d, f, i)) ==>
         !Overlapping(e, Declared(d, f, i))
  }

  method CheckPlacement(dev: Device, f: Located, k: nat, e: GptEntry, ghost original: Disk) returns (ok: bool)
    requires Underway(dev, original) && f.Found? && ArrayFits(dev.Logical(), f)
    requires k < f.header.entryCount && e == Declared(dev.Logical(), f, k)
    modifies dev`cachedBlock, dev`dirty, dev`faults, dev.medium, dev.cache
    ensures Underway(dev, original) && dev.Logical() == old(dev.Logical())
    ensures Steady(old(dev.faults)) ==> Steady(dev.faults)
    ensures ok ==> PlacedWell(dev.Logical(), f, k)
    ensures Steady(old(dev.faults)) && ArrayReachable(dev.size, dev.Logical(), f) && !ok ==>
              !PlacedWell(dev.Logical(), f, k)
  {
    hide dev.Valid, Recoverable, dev.Writable, dev.Logical, Declared, InUse, Base, BlockCount, EndReserve,
         ArrayFits, ArrayReachable;
    dev.ValidBounds();
    ghost var disk := dev.Logical();
    var lb := f.lb;
    if || e.end < e.start || e.start < 2 + EndReserve(lb)
       || e.start < f.header.firstUsable || e.end > f.header.lastUsable {
      return false;
    }
    var have, last := LastBlock(dev, lb);
    if !have || last < 1 + EndReserve(lb) || e.end > last - 1 - EndReserve(lb) {
      return false;
    }
    for i := 0 to f.header.entryCount
      invariant Underway(dev, original) && dev.Logical() == disk
      invariant Steady(old(dev.faults)) ==> Steady(dev.faults)
      invariant forall j :: 0 <= j < i && j != k && InUse(Declared(disk, f, j)) ==>
                !Overlapping(e, Declared(disk, f, j))
    {
      if i != k {
        var got, other := ReadEntry(dev, f, i, original);
        if !got {
          return false;
        }
        if InUse(other) && Overlapping(e, other) {
          return false;
        }
      }
    }
    return Base(e.end - e.start + 1, lb) >= 32768;
  }

  // ----- a run

  /** Where stage 2 goes and how it was decided. `last` is the last block the probes of a declined conversion found. */
  datatype Route =
    | OverMbr
    | OverConverted(f: Located, parts: seq<Part>, wipes: seq<Wipe>, converted: Disk)
    | IntoPartition(f: Located, k: nat, last: int)

  datatype Options = Options(force: bool, convert: bool, iso: bool, request: Request)

  const GAP_START: nat := 4096
  const GAP_END: nat := 63 * 512

  predicate InGap(loc: nat, max: nat) {
    loc == GAP_START && loc + max == GAP_END
  }

  /** What is known of the disk when stage 2 is about to be written. */
  ghost predicate Prepared(d: Disk, d': Disk, route: Route, request: Request, force: bool, loc: nat, max: nat) {
    match route
    case OverMbr => InGap(loc, max) && BelowGap(d, d') && GoodMbr(d')
    case OverConverted(f, parts, wipes, converted) =>
      InGap(loc, max) && Committed(d, converted, f, parts, wipes) && BelowGap(converted, d') && GoodMbr(d')
    case IntoPartition(f, k, _) =>
      && Selected(d, f, request, force, k) && PlacedWell(d, f, k)
      && loc == Base(Declared(d, f, k).start, f.lb) && loc + max == Base(Declared(d, f, k).end + 1, f.lb)
      && max >= 32768 && loc >= 512 && OnlySignatures(d, d', loc)
  }

  /** Entry `k` is where stage 2 goes, and nothing there is in the way. */
  ghost predicate InPartition(size: BlockSize, d: Disk, f: Located, opts: Options, k: nat, loc: nat, max: nat) {
    && Selected(d, f, opts.request, opts.force, k) && PlacedWell(d, f, k)
    && loc == Base(Declared(d, f, k).start, f.lb) && loc + max == Base(Declared(d, f, k).end + 1, f.lb)
    && ReachableOn(size, |d|, loc, 1082) && (opts.force || !Recognised(d, loc))
  }

  /** There is at most one entry to select. */
  lemma SelectedOnce(d: Disk, f: Located, request: Request, force: bool, j: nat, k: nat)
    requires Selected(d, f, request, force, j) && Selected(d, f, request, force, k)
    ensures j == k
  {
    hide BiosBoot, Declared, InUse;
    if request.Auto? {
      assert BiosBoot(Declared(d, f, j)) && BiosBoot(Declared(d, f, k));
    }
  }

  method PreparePartition(dev: Device, f: Located, opts: Options, ghost original: Disk)
    returns (ok: bool, loc: U64, max: nat, k: nat)
    requires Underway(dev, original) && f.Found? && ArrayFits(dev.Logical(), f)
    requires |dev.journal| + 5 <= UNINSTALL_DATA_MAX
    modifies dev`cachedBlock, dev`dirty, dev`faults, dev`journal, dev`damage, dev.medium, dev.cache
    ensures Underway(dev, original) && Grown(old(dev.journal), dev.journal, 5)
    ensures forall last :: ok ==>
              Prepared(old(dev.Logical()), dev.Logical(), IntoPartition(f, k, last), opts.request, opts.force, loc, max)
    ensures Steady(old(dev.faults)) ==> Steady(dev.faults) && Underway(dev, original)
    ensures Steady(old(dev.faults)) && ok ==> InPartition(dev.size, old(dev.Logical()), f, opts, k, loc, max)
    ensures Steady(old(dev.faults)) && ArrayReachable(dev.size, old(dev.Logical()), f) && !ok ==>
              forall j: nat, l: nat, m: nat :: !InPartition(dev.size, old(dev.Logical()), f, opts, j, l, m)
  {
    hide dev.Valid, Recoverable, dev.Writable, dev.Logical, ArrayFits, ArrayReachable, Selected, Declared,
         PlacedWell, Base, OnlySignatures, Recognised, ReachableOn, NoneBlank;
    dev.ValidBounds();
    ghost var disk := dev.Logical();
    var e;
    loc, max := 0, 0;
    ok, k, e := Select(dev, f, opts.request, opts.force, original);
    if !ok { return; }
    assert k < f.header.entryCount by { SelectedIs(disk, f, opts, k); }
    OnlyChoice(dev.size, disk, f, opts, k);
    ok := CheckPlacement(dev, f, k, e, original);
    if !ok { return; }
    WellPlaced(disk, f, k, e);
    loc := Base(e.start, f.lb);
    max := Base(e.end + 1, f.lb) - loc;
    AlignedBase(e.start, f.lb);
    var v := ValidateOrForce(dev, loc, opts.force, original);
    ok := v.Clear?;
  }

  lemma SelectedIs(d: Disk, f: Located, opts: Options, k: nat)
    requires Selected(d, f, opts.request, opts.force, k)
    ensures k < f.header.entryCount
  {
  }

  lemma AlignedBase(block: nat, lb: BlockSize)
    ensures Base(block, lb) % 512 == 0
  {
    var q := if lb == 512 then block else if lb == 2048 then 4 * block else 8 * block;
    DivModUnique(Base(block, lb), 512, q, 0);
  }

  lemma OnlyChoice(size: BlockSize, d: Disk, f: Located, opts: Options, k: nat)
    requires Selected(d, f, opts.request, opts.force, k)
    ensures forall j: nat, l: nat, m: nat :: InPartition(size, d, f, opts, j, l, m) ==> j == k
  {
    hide Selected;
    forall j: nat, l: nat, m: nat | InPartition(size, d, f, opts, j, l, m)
      ensures j == k
    {
      SelectedOnce(d, f, opts.request, opts.force, j, k);
    }
  }

  lemma WellPlaced(d: Disk, f: Located, k: nat, e: GptEntry)
    requires PlacedWell(d, f, k) && e == Declared(d, f, k) && |d| <= TWO64 / 2
    ensures 512 <= Base(e.start, f.lb) && Base(e.start, f.lb) + 32768 <= Base(e.end + 1, f.lb) <= |d|
  {
    hide Declared, EntryLoc, Overlapping;
    var lb := f.lb;
    assert Base(e.end - e.start + 1, lb) == Base(e.end + 1, lb) - Base(e.start, lb);
    MulMonotone(1, e.start, lb);
    BaseIsMonotone(e.end + 1, BlockCount(|d|, lb), lb);
  }

  /**
   Why this route: a sound header decides between conversion, when it is asked for and
   possible, and its own partition.
   */
  ghost predicate Justified(size: BlockSize, d: Disk, route: Route, opts: Options) {
    match route
    case OverMbr => true
    case OverConverted(f, _, _, _) => f.Found? && Chosen(size, d, f) && opts.convert && opts.iso
    case IntoPartition(f, _, last) =>
      && f.Found? && Chosen(size, d, f)
      && (opts.convert && opts.iso ==> last < BlockCount(|d|, f.lb) && Inconvertible(d, f, last))
  }

  /** When no transfer fails, the route is the one the search, the size of the medium and the alternates give. */
  ghost predicate Routed(size: BlockSize, d: Disk, route: Route)
    requires 512 <= |d| < TWO64
  {
    if route.OverMbr? then Search(size, d) == []
    else route.f.Found? && Search(size, d) == Places(route.f) && RoutedBy(size, d, route.f, route)
  }

  ghost predicate RoutedBy(size: BlockSize, d: Disk, f: Located, route: Route)
    requires f.Found?
  {
    match route
    case OverMbr => false
    case OverConverted(g, _, wipes, _) =>
      && g == f
      && var alternates := Alternates(f, BlockCount(|d|, f.lb));
         !Trapped(size, d, f, alternates) && wipes == Wipes(size, d, f, alternates)
    case IntoPartition(g, _, last) => g == f && last == BlockCount(|d|, f.lb) - 1
  }

  /**
   Where a torn write can leave damage: in the gap or the partition stage 2 goes to,
   or in a table that was being erased.
   */
  ghost predicate MayTear(size: BlockSize, d: Disk, route: Route, i: int) {
    match route
    case OverMbr => GAP_START <= i < GAP_END
    case OverConverted(f, _, wipes, _) =>
      && f.Found? && Chosen(size, d, f) && (forall k :: 0 <= k < |wipes| ==> SoundWipe(wipes[k], f.header, f.lb))
      && (GAP_START <= i < GAP_END || Swept(f, wipes, i))
    case IntoPartition(f, k, _) =>
      && f.Found? && Chosen(size, d, f) && PlacedWell(d, f, k)
      && InEntry(Declared(d, f, k), f.lb, i)
  }

  /** Byte `i` belongs to the entry's partition. */
  predicate InEntry(e: GptEntry, lb: BlockSize, i: int) {
    Base(e.start, lb) <= i < Base(e.end + 1, lb)
  }

  lemma ApartBytes(e: GptEntry, other: GptEntry, lb: BlockSize, i: int)
    requires !Overlapping(e, other) && InEntry(e, lb, i)
    ensures !InEntry(other, lb, i)
  {
    hide Base;
    if other.end < e.start {
      BaseIsMonotone(other.end + 1, e.start, lb);
    } else {
      BaseIsMonotone(e.end + 1, other.start, lb);
    }
  }

  /** So no damage is ever in a partition that is not stage 2's own. */
  lemma DamageSparesPartitions(size: BlockSize, d: Disk, route: Route, i: int)
    requires MayTear(size, d, route, i)
    ensures route.OverMbr? ==> i < GAP_END
    ensures route.OverConverted? ==> i < GAP_END || Base(route.f.header.lastUsable + 1, route.f.lb) <= i
    ensures route.IntoPartition? ==>
              forall j :: 0 <= j < route.f.header.entryCount && j != route.k && InUse(Declared(d, route.f, j)) ==>
                !InEntry(Declared(d, route.f, j), route.f.lb, i)
  {
    hide Chosen, Declared, InUse, EntryLoc, Base, InEntry, Swept, SoundWipe, Overlapping, BlockCount, EndReserve;
    match route
    case OverMbr =>
    case OverConverted(f, _, wipes, _) =>
      if Swept(f, wipes, i) { SweptIsOutside(f, wipes, i); }
    case IntoPartition(f, k, _) =>
      forall j | 0 <= j < f.header.entryCount && j != k && InUse(Declared(d, f, j))
        ensures !InEntry(Declared(d, f, j), f.lb, i)
      {
        ApartBytes(Declared(d, f, k), Declared(d, f, j), f.lb, i);
      }
  }

  // ----- when preparation succeeds

  /** The third sector's filesystem signature is there and no erase reaches it. */
  ghost predicate ExtKept(d: Disk, f: Located, wipes: seq<Wipe>)
    requires f.Found?
  {
    Carries(d, 1080, EXT) && !Swept(f, wipes, 1080) && !Swept(f, wipes, 1081)
  }

  /** The header asks for conversion and nothing in its table is against it. */
  ghost predicate Converts(d: Disk, f: Located, opts: Options)
    requires f.Found?
  {
    opts.convert && opts.iso && !Inconvertible(d, f, BlockCount(|d|, f.lb) - 1)
  }

  ghost predicate ConversionUsable(size: BlockSize, d: Disk, f: Located, force: bool)
    requires f.Found?
  {
    && ArrayFits(d, f) && !Stops(size, d, f)
    && ReachableOn(size, |d|, 0, 1082)
    && (force || !ExtKept(d, f, Wipes(size, d, f, Alternates(f, BlockCount(|d|, f.lb)))))
  }

  /** A run without faults on disk `d` puts stage 2 at `loc`, with `max` bytes for it. */
  ghost predicate Placed(size: BlockSize, d: Disk, opts: Options, loc: nat, max: nat)
    requires 512 <= |d| < TWO64
  {
    var found := Search(size, d);
    if found == [] then InGap(loc, max) && MbrUsable(size, d, opts.force)
    else
      && Base(found[0].lba, found[0].lb) + HEADER_BYTES <= |d|
      && PlacedBy(size, d, Found(HeaderAt(d, found[0]), found[0].lb, found[0].lba), opts, loc, max)
  }

  /** The same with the header given. */
  ghost predicate PlacedBy(size: BlockSize, d: Disk, f: Located, opts: Options, loc: nat, max: nat)
    requires f.Found?
  {
    if Converts(d, f, opts) then InGap(loc, max) && ConversionUsable(size, d, f, opts.force)
    else exists k: nat :: InPartition(size, d, f, opts, k, loc, max)
  }

  /** A freshly converted table fails no check but the one for a filesystem in the third sector. */
  lemma ConvertedMbr(size: BlockSize, d: Disk, d': Disk, f: Located, parts: seq<Part>, wipes: seq<Wipe>, force: bool)
    requires Committed(d, d', f, parts, wipes)
    ensures MbrUsable(size, d', force) <==> ReachableOn(size, |d|, 0, 1082) && (force || !ExtKept(d, f, wipes))
  {
    TableStartsHigh(d', parts, f.header.guid);
    hide Represents, TableIs, Swept, ReachableOn, StartsHigh, BadStatus;
    assert Carries(d', 1080, EXT) <==> ExtKept(d, f, wipes) by { ExtAfter(d, d', f, wipes); }
  }

  lemma ExtAfter(d: Disk, d': Disk, f: Located, wipes: seq<Wipe>)
    requires f.Found? && SweptFrom(d, d', f, wipes, 512)
    ensures Carries(d', 1080, EXT) <==> ExtKept(d, f, wipes)
  {
    hide Swept;
    if 1082 <= |d| {
      assert d'[1080..1082] == [d'[1080], d'[1081]] && d[1080..1082] == [d[1080], d[1081]];
    }
  }

  lemma TableStartsHigh(d: Disk, parts: seq<Part>, guid: seq<Byte>)
    requires TableIs(d, parts, guid)
    ensures StartsHigh(d, 4) && d[510..512] == [0x55, 0xaa] && !BadStatus(d, 4)
    ensures Recognised(d, 0) <==> Carries(d, 1080, EXT)
  {
    hide LittleEndian32, DiskId, Read32;
    forall k | 0 <= k < 4
      ensures StatusAt(d, k) == 0 && (TypeAt(d, k) != 0 ==> StartAt(d, k) >= 63)
    {
      EntryStarts(d, parts, guid, k);
    }
    assert d[3..7][0] == 0 && d[54..57][0] == 0 && d[82..85][0] == 0 && d[3..8][0] == 0;
  }

  lemma EntryStarts(d: Disk, parts: seq<Part>, guid: seq<Byte>, k: nat)
    requires TableIs(d, parts, guid) && k < 4
    ensures StatusAt(d, k) == 0 && (TypeAt(d, k) != 0 ==> StartAt(d, k) >= 63)
  {
    hide LittleEndian32, DiskId, Read32;
    var b := EntrySlice(d, k);
    assert b[0] == StatusAt(d, k) && b[4] == TypeAt(d, k);
    if k < |parts| {
      PartFields(parts[k]);
      StartIs(d, k);
    }
  }

  lemma StartIs(d: Disk, k: nat)
    requires |d| >= 512 && k < 4
    ensures StartAt(d, k) == Read32(EntrySlice(d, k), 8)
  {
  }

  /**
   With a header found: conversion if it is asked for and possible, then the checks of the new
   table, else a partition.
   */
  method PrepareFound(dev: Device, f: Located, opts: Options, ghost original: Disk)
    returns (ok: bool, loc: U64, max: nat, ghost route: Route)
    requires Underway(dev, original) && dev.Inside(0) && |dev.journal| + 136 <= UNINSTALL_DATA_MAX
    requires f.Found? && Chosen(dev.size, dev.Logical(), f) && 512 <= dev.medium.Length
    modifies dev`cachedBlock, dev`dirty, dev`faults, dev`journal, dev`damage, dev.medium, dev.cache
    ensures Undoable(dev, original) && (ok ==> Underway(dev, original)) && Grown(old(dev.journal), dev.journal, 136)
    ensures ok ==> Prepared(old(dev.Logical()), dev.Logical(), route, opts.request, opts.force, loc, max)
    ensures ok ==> !route.OverMbr? && route.f == f && Justified(dev.size, old(dev.Logical()), route, opts)
    ensures forall i :: i in dev.damage ==> MayTear(dev.size, old(dev.Logical()), route, i)
    ensures Steady(old(dev.faults)) ==> Steady(dev.faults) && Underway(dev, original)
    ensures Steady(old(dev.faults)) && ok ==>
              && RoutedBy(dev.size, old(dev.Logical()), f, route)
              && PlacedBy(dev.size, old(dev.Logical()), f, opts, loc, max)
    ensures Steady(old(dev.faults)) && !ok ==>
              forall l: nat, m: nat :: !PlacedBy(dev.size, old(dev.Logical()), f, opts, l, m)
  {
    hide dev.Valid, Recoverable, dev.Writable, dev.Logical, Chosen, Committed, Inconvertible, BelowGap, GoodMbr,
         Base, Alternates, Signed, Trapped, Wipes, Stops, ExtKept, ArrayFits, ArrayReachable, InPartition,
         MbrUsable, ReachableOn, NoneBlank, NoAlternates, BlockCount, Selected, PlacedWell, Declared,
         OnlySignatures, SoundWipe, Swept;
    ghost var disk := dev.Logical();
    ChosenArray(dev.size, disk, f);
    loc, max := GAP_START, GAP_END - GAP_START;
    route := OverMbr;
    var c := NotConverted;
    ghost var last, wipes := BlockCount(|disk|, f.lb) - 1, [];
    if opts.convert && opts.iso {
      c, last, wipes := Convert(dev, f, original);
    }
    if c.Stopped? {
      route := OverConverted(f, [], wipes, disk);
      return false, loc, max, route;
    }
    if c.NotConverted? {
      var k;
      ok, loc, max, k := PreparePartition(dev, f, opts, original);
      route := IntoPartition(f, k, last);
      return;
    }
    ghost var converted := dev.Logical();
    route := OverConverted(f, c.parts, wipes, converted);
    ConvertedMbr(dev.size, disk, converted, f, c.parts, wipes, opts.force);
    Untrapped(dev.size, disk, f);
    var m := CheckMbr(dev, opts.force, original);
    ok := m.Valid?;
  }

  lemma Untrapped(size: BlockSize, d: Disk, f: Located)
    requires ArrayFits(d, f)
    ensures !Stops(size, d, f) ==> !Trapped(size, d, f, Alternates(f, BlockCount(|d|, f.lb)))
  {
    hide Trapped, Alternates, Erasable, Wipes, DeclaredEntries, EntryLoc;
  }

  /** The header found is the one the search names. */
  lemma FoundPlaces(size: BlockSize, d: Disk, f: Located, opts: Options)
    requires 512 <= |d| < TWO64 && f.Found? && Chosen(size, d, f)
    ensures Search(size, d) == Places(f) ==>
              forall l: nat, m: nat :: Placed(size, d, opts, l, m) <==> PlacedBy(size, d, f, opts, l, m)
  {
    hide Search, PlacedBy, WellFormed, HeaderVerified, ArrayVerified, ReachableOn, HeaderAt, Base;
  }

  lemma MbrPrepared(d: Disk, d': Disk, opts: Options)
    requires BelowGap(d, d') && GoodMbr(d')
    ensures Prepared(d, d', OverMbr, opts.request, opts.force, GAP_START, GAP_END - GAP_START)
  {
  }

  /** Everything up to the final writes. At most 136 writes are journalled. */
  method Prepare(dev: Device, opts: Options, ghost original: Disk)
    returns (ok: bool, loc: U64, max: nat, ghost route: Route)
    requires Underway(dev, original) && dev.Inside(0) && |dev.journal| + 136 <= UNINSTALL_DATA_MAX
    modifies dev`cachedBlock, dev`dirty, dev`faults, dev`journal, dev`damage, dev.medium, dev.cache
    ensures Undoable(dev, original) && (ok ==> Underway(dev, original)) && Grown(old(dev.journal), dev.journal, 136)
    ensures ok ==> Prepared(old(dev.Logical()), dev.Logical(), route, opts.request, opts.force, loc, max)
    ensures ok ==> Justified(dev.size, old(dev.Logical()), route, opts)
    ensures forall i :: i in dev.damage ==> MayTear(dev.size, old(dev.Logical()), route, i)
    ensures 512 <= |dev.Logical()| < TWO64
    ensures Steady(old(dev.faults)) ==> Steady(dev.faults) && Underway(dev, original)
    ensures Steady(old(dev.faults)) && ok ==>
              Routed(dev.size, old(dev.Logical()), route) && Placed(dev.size, old(dev.Logical()), opts, loc, max)
    ensures Steady(old(dev.faults)) && !ok ==>
              forall l: nat, m: nat :: !Placed(dev.size, old(dev.Logical()), opts, l, m)
  {
    hide dev.Valid, Recoverable, dev.Writable, dev.Logical, Chosen, Committed, Inconvertible, BelowGap, GoodMbr,
         Base, Search, Alternates, Signed, Trapped, Wipes, Stops, ExtKept, ArrayFits, ArrayReachable, InPartition,
         MbrUsable, ReachableOn, NoneBlank, NoAlternates, BlockCount, HeaderAt, Prepared, MayTear;
    FirstBlock(dev, 0, 0);
    dev.ValidBounds();
    ghost var disk := dev.Logical();
    route := OverMbr;
    loc, max := GAP_START, GAP_END - GAP_START;
    ghost var summed;
    var f;
    f, summed := Locate(dev, original);
    if f.Found? {
      ok, loc, max, route := PrepareFound(dev, f, opts, original);
      FoundPlaces(dev.size, disk, f, opts);
    } else {
      var c := CheckMbr(dev, opts.force, original);
      ok := c.Valid?;
      if ok { MbrPrepared(disk, dev.Logical(), opts); }
    }
  }

  // ----- what a finished install guarantees

  /** Boot sector and stage 2 are those of the image, and the sector says where stage 2 is. */
  ghost predicate Bootable(d: Disk, image: seq<Byte>, loc: U64) {
    && |d| >= 512 && |image| >= 512 && (|image| > 512 ==> loc + |image| - 512 <= |d|)
    && Slice(d, loc, |image| - 512) == image[512..]
    && d[STAGE2_FIELD..STAGE2_FIELD + 8] == LittleEndian64(loc)
    && forall i :: 0 <= i < 512 && !Exempt(i) ==> d[i] == image[i]
  }

  /** A partition of the GPT survives in place and the table in block 0 denotes it. */
  ghost predicate Carried(d: Disk, d': Disk, k: nat, e: GptEntry, lb: BlockSize) {
    && k < 4 && |d'| >= 512
    && Denotes(EntrySlice(d', k), e, lb)
    && GAP_END <= Base(e.start, lb) < Base(e.end + 1, lb) <= |d|
    && Kept(d, d', Base(e.start, lb), Base(e.end + 1, lb))
  }

  /** A header that starts there would lie in stage 2, which has taken its place. */
  predicate Shadowed(lba: nat, lb: BlockSize, length: nat) {
    Base(lba, lb) < GAP_START + length && GAP_START < Base(lba, lb) + 8
  }

  /** No GPT header is left in that block; at most, stage 2 lies there. */
  ghost predicate NoHeader(size: BlockSize, d: Disk, lba: nat, lb: BlockSize, length: nat) {
    Signed(size, d, lba, lb) ==> Shadowed(lba, lb, length)
  }

  /**
   Behind the boot sector and outside stage 2, exactly the old tables are erased; force may
   have cleared the third sector's signature.
   */
  ghost predicate Cleaned(d: Disk, d': Disk, f: Located, wipes: seq<Wipe>, length: nat)
    requires f.Found?
  {
    && |d| == |d'|
    && forall i :: 512 <= i < |d| && i != 1080 && i != 1081 && !(GAP_START <= i < GAP_START + length) ==>
                     d'[i] == if Swept(f, wipes, i) then 0 else d[i]
  }

  /**
   No partition loses a byte: neither those of the MBR, nor the converted, nor the
   others of the GPT. After a conversion the old tables are gone. `length` is that of
   stage 2.
   */
  ghost predicate Safe(size: BlockSize, d: Disk, d': Disk, route: Route, length: nat) {
    && |d| == |d'| >= 512
    && match route
       case OverMbr => TableSame(d, d') && StartsHigh(d', 4) && Kept(d, d', GAP_END, |d|)
       case OverConverted(f, _, wipes, _) =>
         && ArrayFits(d, f) && |DeclaredEntries(d, f)| <= 4
         && (forall k :: 0 <= k < |DeclaredEntries(d, f)| ==> Carried(d, d', k, DeclaredEntries(d, f)[k], f.lb))
         && (forall k :: |DeclaredEntries(d, f)| <= k < 4 ==> TypeAt(d', k) == 0)
         && Cleaned(d, d', f, wipes, length) && NoHeader(size, d', 1, f.lb, length)
         && (forall k :: 0 <= k < |wipes| ==> NoHeader(size, d', wipes[k].last, f.lb, length))
       case IntoPartition(f, k, _) =>
         && ArrayFits(d, f) && k < f.header.entryCount
         && d'[SAVED..510] == d[SAVED..510]
         && Kept(d, d', 512, Base(Declared(d, f, k).start, f.lb))
         && Kept(d, d', Base(Declared(d, f, k).end + 1, f.lb), |d|)
         && forall i :: 0 <= i < f.header.entryCount && i != k && InUse(Declared(d, f, i)) ==>
              Spared(d, d', Declared(d, f, i), f.lb)
  }

  /** Without faults, no alternate the table names or the medium's end holds is left either. */
  ghost predicate AlternatesLeft(size: BlockSize, d: Disk, d': Disk, route: Route, length: nat) {
    match route
    case OverConverted(f, _, _, _) =>
      && f.Found?
      && var alternates := Alternates(f, BlockCount(|d|, f.lb));
         forall k :: 0 <= k < |alternates| ==> NoHeader(size, d', alternates[k], f.lb, length)
    case _ => true
  }

  ghost predicate Spared(d: Disk, d': Disk, e: GptEntry, lb: BlockSize) {
    e.start >= 1 ==> Kept(d, d', Base(e.start, lb), Base(e.end + 1, lb))
  }

  lemma MbrIsSafe(size: BlockSize, d: Disk, d': Disk, d'': Disk, image: seq<Byte>)
    requires BelowGap(d, d') && GoodMbr(d') && BootSector(d', d'', image, GAP_START)
    requires Kept(d', d'', GAP_END, |d'|)
    ensures Safe(size, d, d'', OverMbr, |image| - 512)
  {
    hide Read32, Statuses, Recognised;
    TableBack(d', d'');
    StartsHighKept(d', d'', 4);
  }

  lemma TableBack(d: Disk, d': Disk)
    requires |d| == |d'| >= 512 && d'[SAVED..510] == d[SAVED..510]
    ensures TableSame(d, d')
  {
    forall i | SAVED <= i < 510
      ensures d'[i] == d[i]
    {
      assert d'[i] == d'[SAVED..510][i - SAVED] && d[i] == d[SAVED..510][i - SAVED];
    }
  }

  /** Denoting does not depend on the status byte. */
  lemma DenotesKept(b: seq<Byte>, c: seq<Byte>, e: GptEntry, lb: BlockSize)
    requires Denotes(b, e, lb) && |c| == 16 && forall i :: 1 <= i < 16 ==> c[i] == b[i]
    ensures Denotes(c, e, lb)
  {
    hide ChsSector, MbrType;
    assert c[1..4] == b[1..4] && c[5..8] == b[5..8];
  }

  lemma EntryKept(d: Disk, d': Disk, k: nat, i: nat)
    requires TableSame(d, d') && k < 4 && 1 <= i < 16
    ensures EntrySlice(d', k)[i] == EntrySlice(d, k)[i]
  {
  }

  lemma ConvertedIsSafe(size: BlockSize, d: Disk, mid: Disk, d': Disk, f: Located, parts: seq<Part>, wipes: seq<Wipe>,
                        length: nat)
    requires Committed(d, mid, f, parts, wipes) && TableSame(mid, d') && Kept(mid, d', GAP_END, |mid|)
    requires Kept(mid, d', 512, 1080) && Kept(mid, d', 1082, GAP_START) && Kept(mid, d', GAP_START + length, |mid|)
    ensures Safe(size, d, d', OverConverted(f, parts, wipes, mid), length)
  {
    hide EntryLoc, UsedEntries, Base, BlockCount, Denotes, ConvertedEntry, Convertible, PartBytes, SoundPart,
         TableSame, DiskId, SoundWipe, SweptFrom, NoHeader, Cleaned, Swept;
    var used, last := DeclaredEntries(d, f), BlockCount(|d|, f.lb) - 1;
    assert |d'| == |mid| by { TableSameLength(mid, d'); }
    CommittedIsClean(size, d, mid, f, parts, wipes);
    forall k | 0 <= k < |used|
      ensures Carried(d, d', k, used[k], f.lb)
    {
      PartIsCarried(d, mid, d', f, k, used[k], last, parts[k]);
    }
    forall k | |used| <= k < 4
      ensures TypeAt(d', k) == 0
    {
      EntryKept(mid, d', k, 4);
      assert TypeAt(d', k) == EntrySlice(d', k)[4];
    }
    assert Cleaned(d, d', f, wipes, length) by { ConvertedIsCleaned(d, mid, d', f, wipes, length); }
    HeaderStaysGone(size, mid, d', 1, f.lb, length);
    forall k | 0 <= k < |wipes|
      ensures NoHeader(size, d', wipes[k].last, f.lb, length)
    {
      assert wipes[k].last >= 1 by { BehindUsable(wipes[k], f.header, f.lb); }
      HeaderStaysGone(size, mid, d', wipes[k].last, f.lb, length);
    }
  }

  lemma BehindUsable(w: Wipe, h: Header, lb: BlockSize)
    requires SoundWipe(w, h, lb)
    ensures w.last >= 1
  {
  }

  lemma ConvertedIsCleaned(d: Disk, mid: Disk, d': Disk, f: Located, wipes: seq<Wipe>, length: nat)
    requires f.Found? && SweptFrom(d, mid, f, wipes, 512)
    requires Kept(mid, d', 512, 1080) && Kept(mid, d', 1082, GAP_START) && Kept(mid, d', GAP_START + length, |mid|)
    ensures Cleaned(d, d', f, wipes, length)
  {
    hide Swept;
  }

  /** What is written after the conversion brings no header back. */
  lemma HeaderStaysGone(size: BlockSize, mid: Disk, d': Disk, lba: nat, lb: BlockSize, length: nat)
    requires !Signed(size, mid, lba, lb) && lba >= 1
    requires Kept(mid, d', 512, 1080) && Kept(mid, d', 1082, GAP_START) && Kept(mid, d', GAP_START + length, |mid|)
    ensures NoHeader(size, d', lba, lb, length)
  {
    var at := Base(lba, lb);
    if at + HEADER_BYTES <= |mid| && !Shadowed(lba, lb, length) {
      BaseIsMonotone(1, lba, lb);
      assert at >= 512 && (at + 8 <= 1080 || at >= 1082) by { Aligned(lba, lb); }
      hide Base, ReachableOn;
      assert Slice(mid, at, 8) == Slice(d', at, 8);
    }
  }

  lemma Aligned(lba: nat, lb: BlockSize)
    ensures Base(lba, lb) <= 512 || Base(lba, lb) == 1024 || Base(lba, lb) >= 1536
  {
  }

  lemma TableSameLength(d: Disk, d': Disk)
    requires TableSame(d, d')
    ensures |d| == |d'| >= 512
  {
  }

  lemma PartIsCarried(d: Disk, mid: Disk, d': Disk, f: Located, k: nat, e: GptEntry, last: int, p: Part)
    requires f.Found? && k < 4 && TableSame(mid, d') && Kept(mid, d', GAP_END, |mid|)
    requires PartitionsKept(d, mid, f.header, f.lb) && last == BlockCount(|d|, f.lb) - 1
    requires Convertible(e, f.header, f.lb, last) && p == ConvertedEntry(e, f.header, f.lb, last)
    requires SoundPart(p) && EntrySlice(mid, k) == PartBytes(p)
    ensures Carried(d, d', k, e, f.lb)
  {
    hide ConvertedEntry, PartBytes, Denotes, EntrySlice, TableSame;
    ConversionDenotes(e, f.header, f.lb, last);
    forall i | 1 <= i < 16
      ensures EntrySlice(d', k)[i] == EntrySlice(mid, k)[i]
    {
      EntryKept(mid, d', k, i);
    }
    DenotesKept(EntrySlice(mid, k), EntrySlice(d', k), e, f.lb);
    ConvertedPlace(e, f.header, f.lb, last, |d|);
  }

  lemma ConvertedPlace(e: GptEntry, h: Header, lb: BlockSize, last: int, length: nat)
    requires last == BlockCount(length, lb) - 1
    requires Convertible(e, h, lb, last) && ConvertedEntry(e, h, lb, last).first >= 63
    ensures GAP_END <= Base(e.start, lb) < Base(e.end + 1, lb) <= length
    ensures Base(e.end + 1, lb) <= Base(h.lastUsable + 1, lb)
  {
    assert Base(e.start, lb) >= GAP_END by { StartSector(e, h, lb, last); }
    assert Base(BlockCount(length, lb), lb) <= length;
    assert e.start <= e.end <= h.lastUsable && e.end <= last;
    hide Convertible, ConvertedEntry, Base, BlockCount;
    BaseIsMonotone(e.end + 1, h.lastUsable + 1, lb);
    BaseIsMonotone(e.end + 1, BlockCount(length, lb), lb);
    BaseIsMonotone(e.start + 1, e.end + 1, lb);
    NextBase(e.start, lb);
  }

  lemma StartSector(e: GptEntry, h: Header, lb: BlockSize, last: int)
    requires Convertible(e, h, lb, last) && ConvertedEntry(e, h, lb, last).first >= 63
    ensures Base(e.start, lb) >= GAP_END
  {
    hide Chs, MbrType, Sectors, Base;
    SectorBytes(e.start, lb);
  }

  lemma PartitionIsSafe(size: BlockSize, d: Disk, d': Disk, d'': Disk, f: Located, k: nat, last: int, loc: nat,
                        max: nat, length: nat)
    requires f.Found? && PlacedWell(d, f, k) && loc == Base(Declared(d, f, k).start, f.lb) && |d| >= 512
    requires loc + max == Base(Declared(d, f, k).end + 1, f.lb)
    requires max >= 32768 && loc >= 512 && OnlySignatures(d, d', loc)
    requires |d''| == |d'| && d''[SAVED..510] == d'[SAVED..510]
    requires Kept(d', d'', 512, loc) && Kept(d', d'', loc + max, |d'|)
    ensures Safe(size, d, d'', IntoPartition(f, k, last), length)
  {
    hide Declared, Base, ArrayFits, InUse;
    assert d'[SAVED..510] == d[SAVED..510];
    forall i | 0 <= i < f.header.entryCount && i != k && InUse(Declared(d, f, i))
      ensures Spared(d, d'', Declared(d, f, i), f.lb)
    {
      OtherIsSpared(d, d'', Declared(d, f, k), Declared(d, f, i), f.lb);
    }
  }

  lemma OtherIsSpared(d: Disk, d': Disk, e: GptEntry, other: GptEntry, lb: BlockSize)
    requires Kept(d, d', 512, Base(e.start, lb)) && Kept(d, d', Base(e.end + 1, lb), |d|) && !Overlapping(e, other)
    ensures Spared(d, d', other, lb)
  {
    hide Base;
    if other.start >= 1 {
      assert Base(1, lb) >= 512 by { SmallBase(lb); }
      BaseIsMonotone(1, other.start, lb);
      if other.end < e.start {
        BaseIsMonotone(other.end + 1, e.start, lb);
      } else {
        BaseIsMonotone(e.end + 1, other.start, lb);
      }
    }
  }

  lemma FinishedIsSafe(size: BlockSize, d: Disk, d': Disk, route: Route, request: Request, force: bool, loc: U64,
                       max: nat, image: seq<Byte>)
    requires |d| == |d'| >= 512 && |image| >= 512 && |image| - 512 <= max
    requires |image| > 512 ==> loc + |image| - 512 <= |d|
    requires Prepared(d, d', route, request, force, loc, max)
    ensures Safe(size, d, Patched(d', image, loc), route, |image| - 512)
    ensures Bootable(Patched(d', image, loc), image, loc)
  {
    hide Patched, Safe, Committed, GoodMbr, Selected, OnlySignatures, LittleEndian64, Declared, Base, Slice;
    PatchedIs(d', image, loc);
    var d'', length := Patched(d', image, loc), |image| - 512;
    match route
    case OverMbr => MbrIsSafe(size, d, d', d'', image);
    case OverConverted(f, parts, wipes, mid) =>
      TableBack(d', d'');
      BelowGapChain(mid, d', d'', length);
      ConvertedIsSafe(size, d, mid, d'', f, parts, wipes, length);
    case IntoPartition(f, k, last) => PartitionIsSafe(size, d, d', d'', f, k, last, loc, max, length);
  }

  lemma BelowGapChain(a: Disk, b: Disk, c: Disk, length: nat)
    requires BelowGap(a, b) && TableSame(b, c) && Kept(b, c, 512, GAP_START) && Kept(b, c, GAP_START + length, |b|)
    requires GAP_START + length <= GAP_END
    ensures TableSame(a, c) && Kept(a, c, GAP_END, |a|)
    ensures Kept(a, c, 512, 1080) && Kept(a, c, 1082, GAP_START) && Kept(a, c, GAP_START + length, |a|)
  {
  }

  lemma NoAlternateIsLeft(size: BlockSize, d: Disk, d': Disk, d'': Disk, route: Route, opts: Options, loc: U64,
                          max: nat, image: seq<Byte>)
    requires 512 <= |d| == |d'| < TWO64 && |image| >= 512 && |image| - 512 <= max
    requires |image| > 512 ==> loc + |image| - 512 <= |d|
    requires Prepared(d, d', route, opts.request, opts.force, loc, max)
    requires Routed(size, d, route) && d'' == Patched(d', image, loc)
    ensures AlternatesLeft(size, d, d'', route, |image| - 512)
  {
    hide Patched, Committed, GoodMbr, LittleEndian64, Base, Slice, Search, Trapped, Wipes, NoHeader, BlockCount,
         Signed, Alternates;
    if route.OverConverted? {
      var f, mid, length := route.f, route.converted, |image| - 512;
      PatchedIs(d', image, loc);
      TableBack(d', d'');
      BelowGapChain(mid, d', d'', length);
      var alternates := Alternates(f, BlockCount(|d|, f.lb));
      AlternatesGone(size, d, mid, f, route.parts, BlockCount(|d|, f.lb));
      forall k | 0 <= k < |alternates|
        ensures NoHeader(size, d'', alternates[k], f.lb, length)
      {
        HeaderStaysGone(size, mid, d'', alternates[k], f.lb, length);
      }
    }
  }

  /** When a run without faults completes: it gets its place, stage 2 fits there, and there is a stage 2. */
  ghost predicate Completes(size: BlockSize, d: Disk, image: seq<Byte>, opts: Options)
    requires 512 <= |d| < TWO64 && |image| >= 512
  {
    && |image| > 512
    && exists loc: nat, max: nat :: Placed(size, d, opts, loc, max) && StageFits(size, |d|, image, loc, max)
  }

  /** The place is determined. */
  lemma PlacedOnce(size: BlockSize, d: Disk, opts: Options, loc: nat, max: nat, loc': nat, max': nat)
    requires 512 <= |d| < TWO64 && Placed(size, d, opts, loc, max) && Placed(size, d, opts, loc', max')
    ensures loc == loc' && max == max'
  {
    hide Search, HeaderAt, MbrUsable, Converts, ConversionUsable, InPartition;
    var found := Search(size, d);
    if found != [] {
      var f := Found(HeaderAt(d, found[0]), found[0].lb, found[0].lba);
      if !Converts(d, f, opts) {
        var k: nat :| InPartition(size, d, f, opts, k, loc, max);
        var k': nat :| InPartition(size, d, f, opts, k', loc', max');
        SamePlace(size, d, f, opts, k, loc, max, k', loc', max');
      }
    }
  }

  lemma SamePlace(size: BlockSize, d: Disk, f: Located, opts: Options, k: nat, loc: nat, max: nat, k': nat, loc': nat,
                  max': nat)
    requires InPartition(size, d, f, opts, k, loc, max) && InPartition(size, d, f, opts, k', loc', max')
    ensures loc == loc' && max == max'
  {
    hide Selected, PlacedWell, Recognised, Base, Declared;
    SelectedOnce(d, f, opts.request, opts.force, k, k');
  }

  lemma OnePlace(size: BlockSize, d: Disk, image: seq<Byte>, opts: Options, loc: nat, max: nat)
    requires 512 <= |d| < TWO64 && |image| >= 512 && Placed(size, d, opts, loc, max)
    ensures Completes(size, d, image, opts) <==> |image| > 512 && StageFits(size, |d|, image, loc, max)
  {
    hide Placed, StageFits;
    if Completes(size, d, image, opts) {
      var l: nat, m: nat :| Placed(size, d, opts, l, m) && StageFits(size, |d|, image, l, m);
      PlacedOnce(size, d, opts, loc, max, l, m);
    }
  }

  lemma NoPlace(size: BlockSize, d: Disk, image: seq<Byte>, opts: Options)
    requires 512 <= |d| < TWO64 && |image| >= 512 && forall l: nat, m: nat :: !Placed(size, d, opts, l, m)
    ensures !Completes(size, d, image, opts)
  {
    hide Placed, StageFits;
  }

  /** The final writes over a prepared disk, flushed. */
  method WriteStages(dev: Device, image: seq<Byte>, opts: Options, loc: U64, max: nat, ghost route: Route,
                     ghost original: Disk)
    returns (ok: bool)
    requires Underway(dev, original) && |dev.journal| + 5 <= UNINSTALL_DATA_MAX && |image| >= 512
    requires 512 <= |original| == dev.medium.Length < TWO64
    requires Prepared(original, dev.Logical(), route, opts.request, opts.force, loc, max)
    modifies dev`cachedBlock, dev`dirty, dev`faults, dev`journal, dev`damage, dev.medium, dev.cache
    ensures Undoable(dev, original) && (ok ==> Underway(dev, original)) && |dev.journal| <= |old(dev.journal)| + 5
    ensures ok ==> dev.medium[..] == dev.Logical()
    ensures forall i :: i in dev.damage ==> loc <= i < loc + max
    ensures ok ==> Bootable(dev.Logical(), image, loc) && Safe(dev.size, original, dev.Logical(), route, |image| - 512)
    ensures ok ==> (NoneBlank(dev.journal) <==> NoneBlank(old(dev.journal)) && |image| > 512)
    ensures ok && Routed(dev.size, original, route) ==>
              AlternatesLeft(dev.size, original, dev.Logical(), route, |image| - 512)
    ensures Steady(old(dev.faults)) ==> Steady(dev.faults) && Underway(dev, original)
    ensures Steady(old(dev.faults)) && dev.Inside(0) ==>
              (ok <==> StageFits(dev.size, dev.medium.Length, image, loc, max))
  {
    hide dev.Valid, dev.Logical, dev.Writable, Recoverable, Prepared, Patched, Safe, Bootable, StageFits,
         AlternatesLeft, Routed, NoneBlank, dev.Inside;
    ghost var ready := dev.Logical();
    ok := FinalWrites(dev, image, loc, max, original);
    if !ok { return; }
    FinishedIsSafe(dev.size, original, ready, route, opts.request, opts.force, loc, max, image);
    if Routed(dev.size, original, route) {
      NoAlternateIsLeft(dev.size, original, ready, dev.Logical(), route, opts, loc, max, image);
    }
    ok := FlushAll(dev, original);
  }

  /** Everything a run writes, flushed; a run that gets here has only its file to store. */
  method WriteAll(dev: Device, image: seq<Byte>, opts: Options, ghost original: Disk)
    returns (ok: bool, ghost route: Route, ghost loc: U64)
    requires Underway(dev, original) && dev.Inside(0) && dev.journal == []
    requires dev.Logical() == original && |image| >= 512
    modifies dev`cachedBlock, dev`dirty, dev`faults, dev`journal, dev`damage, dev.medium, dev.cache
    ensures Undoable(dev, original) && (ok ==> Underway(dev, original)) && |dev.journal| <= 141
    ensures ok ==> dev.medium[..] == dev.Logical() && Justified(dev.size, original, route, opts)
    ensures ok ==> Bootable(dev.Logical(), image, loc) && Safe(dev.size, original, dev.Logical(), route, |image| - 512)
    ensures 512 <= |original| < TWO64
    ensures forall i :: i in dev.damage ==> MayTear(dev.size, original, route, i)
    ensures Steady(old(dev.faults)) ==> Steady(dev.faults) && Underway(dev, original)
    ensures Steady(old(dev.faults)) && ok ==> AlternatesLeft(dev.size, original, dev.Logical(), route, |image| - 512)
    ensures Steady(old(dev.faults)) && ok ==>
              Routed(dev.size, original, route) && exists max: nat :: Placed(dev.size, original, opts, loc, max)
    ensures Steady(old(dev.faults)) ==> (ok && NoneBlank(dev.journal) <==> Completes(dev.size, original, image, opts))
  {
    assert NoneBlank([]);
    hide dev.Valid, dev.Logical, dev.Writable, Recoverable, Prepared, Justified, Safe, Bootable, Placed, StageFits,
         AlternatesLeft, Routed, NoneBlank, Completes, dev.Inside, MayTear;
    var place, max;
    ok, place, max, route := Prepare(dev, opts, original);
    loc := place;
    if !ok {
      if Steady(old(dev.faults)) { NoPlace(dev.size, original, image, opts); }
      return;
    }
    if Steady(old(dev.faults)) {
      OnePlace(dev.size, original, image, opts, loc, max);
    }
    PlaceMayTear(dev.size, original, dev.Logical(), route, opts, loc, max);
    ok := WriteStages(dev, image, opts, place, max, route, original);
  }

  lemma PlaceMayTear(size: BlockSize, d: Disk, d': Disk, route: Route, opts: Options, loc: nat, max: nat)
    requires Prepared(d, d', route, opts.request, opts.force, loc, max) && Justified(size, d, route, opts)
    ensures forall i :: loc <= i < loc + max ==> MayTear(size, d, route, i)
  {
    hide Chosen, PlacedWell, Selected, Declared, Base, Represents, TableIs, SweptFrom, BelowGap, GoodMbr,
         OnlySignatures, Inconvertible;
  }

  /**
   The installer from opening the device to its end, on a medium that may fail any
   transfer. The journal never fills up. An install that completes is bootable, spares
   every partition, has left no old table behind a conversion, and left a file that
   undoes its `writes` writes. Any other is undone and says whether that went through,
   as it does if none of the transfers `left` for it stops; every byte outside the damage
   of a torn write is then as it was found, and that damage is never in a partition other
   than stage 2's own. Without faults nothing is torn, the run completes exactly when
   `Completes` says so, and the disk determines its route and the place of stage 2.
   */
  method Run(medium: array<Byte>, size: BlockSize, image: seq<Byte>, opts: Options, faults: seq<Transfer>)
    returns (outcome: Outcome, ghost damage: set<int>, ghost left: seq<Transfer>,
             ghost route: Route, ghost loc: U64, ghost writes: nat)
    requires size <= medium.Length <= TWO64 / 2 && |image| >= 512
    modifies medium
    ensures writes <= 141 < UNINSTALL_DATA_MAX
    ensures outcome.Undone? && outcome.complete ==>
              forall i :: 0 <= i < medium.Length && i !in damage ==> medium[i] == old(medium[i])
    ensures outcome.Undone? && outcome.complete && damage == {} ==> medium[..] == old(medium[..])
    ensures outcome.Installed? ==>
              && Justified(size, old(medium[..]), route, opts)
              && Bootable(medium[..], image, loc) && Safe(size, old(medium[..]), medium[..], route, |image| - 512)
              && FileRestores(outcome.file, size, medium[..], old(medium[..]))
              && LoadFile(outcome.file).Ok? && |LoadFile(outcome.file).value| == writes
    ensures forall i :: i in damage ==> MayTear(size, old(medium[..]), route, i)
    ensures Steady(left) && outcome.Undone? ==> outcome.complete
    ensures Steady(faults) ==> damage == {} && Steady(left)
    ensures Steady(faults) && outcome.Installed? ==>
              && Routed(size, old(medium[..]), route)
              && (exists max: nat :: Placed(size, old(medium[..]), opts, loc, max))
              && AlternatesLeft(size, old(medium[..]), medium[..], route, |image| - 512)
    ensures Steady(faults) ==> (outcome.Installed? <==> Completes(size, old(medium[..]), image, opts))
  {
    hide Recoverable, FileRestores, Justified, Safe, Bootable, AlternatesLeft, Completes, Unharmed, NoneBlank,
         MayTear, LoadFile, Routed, Placed;
    ghost var original := medium[..];
    var dev := Begin(medium, size, faults);
    assert dev.Inside(0);
    var ok;
    ok, route, loc := WriteAll(dev, image, opts, original);
    writes, damage, left := |dev.journal|, dev.damage, dev.faults;
    NothingHarmed(original, medium[..]);
    outcome := Conclude(dev, ok, original);
  }
}
