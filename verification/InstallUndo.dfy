/** Whole runs: any reads and writes an install makes, then its undo, directly or from the stored file. */
module InstallUndo {
  import opened Bytes
  import opened Blocks
  import opened DiskSpec
  import opened DeviceSteps
  import opened BlockDevice
  import opened Wrappers

  datatype Action = ReadAt(loc: U64, count: nat) | WriteAt(loc: U64, bytes: seq<Byte>)

  /** The disk after an action that succeeds. */
  function Applied(action: Action, d: Disk): (r: Disk)
    ensures |r| == |d|
  {
    match action
    case ReadAt(_, _) => d
    case WriteAt(loc, bytes) => if loc + |bytes| <= |d| then Overlay(d, loc, bytes) else d
  }

  function AllApplied(actions: seq<Action>, d: Disk): (r: Disk)
    ensures |r| == |d|
  {
    if actions == [] then d
    else Applied(actions[|actions| - 1], AllApplied(actions[..|actions| - 1], d))
  }

  /** The writes among the actions, in order. */
  function Writes(actions: seq<Action>): (w: seq<Action>)
    ensures forall k :: 0 <= k < |w| ==> w[k].WriteAt?
  {
    if actions == [] then []
    else
      var rest, last := Writes(actions[..|actions| - 1]), actions[|actions| - 1];
      if last.WriteAt? then rest + [last] else rest
  }

  lemma {:induction false} WritesGrow(actions: seq<Action>, n: nat)
    requires n <= |actions|
    ensures |Writes(actions[..n])| <= |Writes(actions)|
    decreases |actions|
  {
    if n < |actions| {
      assert actions[..|actions| - 1][..n] == actions[..n];
      WritesGrow(actions[..|actions| - 1], n);
    } else {
      assert actions[..n] == actions;
    }
  }

  /** How many bytes the action is about. */
  function Count(action: Action): nat {
    match action
    case ReadAt(_, count) => count
    case WriteAt(_, bytes) => |bytes|
  }

  /** Every block the action needs lies on the medium in full. */
  predicate Possible(action: Action, size: BlockSize, length: nat) {
    ReachableOn(size, length, action.loc, Count(action))
  }

  /** The action is a write of byte `i` and of others in another block. */
  predicate Straddles(action: Action, size: BlockSize, i: int) {
    action.WriteAt? && Spans(size, action.loc, |action.bytes|) && action.loc <= i < action.loc + |action.bytes|
  }

  /** Byte `i` can be torn: it is written by an action that needs more than one block. */
  predicate Tearable(actions: seq<Action>, size: BlockSize, i: int) {
    exists k :: 0 <= k < |actions| && Straddles(actions[k], size, i)
  }

  /** Each write stays inside one block of the device. */
  predicate Confined(actions: seq<Action>, size: BlockSize) {
    forall k :: 0 <= k < |actions| && actions[k].WriteAt? ==> !Spans(size, actions[k].loc, |actions[k].bytes|)
  }

  lemma ConfinedIsNotTearable(actions: seq<Action>, size: BlockSize, damage: set<int>)
    requires Confined(actions, size) && forall i :: i in damage ==> Tearable(actions, size, i)
    ensures damage == {}
  {
    forall i
      ensures i !in damage
    {
      assert i in damage ==> Tearable(actions, size, i);
    }
  }

  /** No action leaves the medium, and the journal has room for all writes. */
  predicate Doable(actions: seq<Action>, size: BlockSize, length: nat) {
    && (forall i :: 0 <= i < |actions| ==> Possible(actions[i], size, length))
    && |Writes(actions)| <= UNINSTALL_DATA_MAX
  }

  /** The journal has one entry for each write, with its place and length. */
  ghost predicate Journals(journal: seq<Entry>, writes: seq<Action>) {
    && |journal| == |writes|
    && forall k :: 0 <= k < |writes| ==>
         writes[k].WriteAt? && journal[k].loc == writes[k].loc && |journal[k].data| == |writes[k].bytes|
  }

  /**
   What holds at every moment of an install that started on `original`: outside the damage, the
   journal leads back to it.
   */
  ghost predicate Undoable(dev: Device, original: Disk)
    reads dev, dev.medium, dev.cache
  {
    && dev.Valid() && !dev.uninstalling
    && |dev.journal| <= UNINSTALL_DATA_MAX && dev.Writable(dev.journal)
    && Recoverable(original, dev.medium[..], dev.Logical(), dev.journal, dev.damage)
  }

  /** What holds as long as no write was torn: the journal leads back all the way. */
  ghost predicate Underway(dev: Device, original: Disk)
    reads dev, dev.medium, dev.cache
  {
    Undoable(dev, original) && dev.damage == {}
  }

  /** A read during an install. */
  method Read(dev: Device, loc: U64, count: nat, ghost original: Disk) returns (ok: bool, buffer: seq<Byte>)
    requires Underway(dev, original)
    modifies dev`cachedBlock, dev`dirty, dev`faults, dev.medium, dev.cache
    ensures Underway(dev, original) && dev.Logical() == old(dev.Logical())
    ensures ok ==> dev.Reachable(loc, count) && (count > 0 ==> loc + count <= dev.medium.Length)
    ensures ok ==> buffer == Slice(dev.Logical(), loc, count)
    ensures Steady(old(dev.faults)) ==> Steady(dev.faults) && (ok <==> dev.Reachable(loc, count))
  {
    hide dev.Valid, dev.Logical, Recoverable, Towards, dev.Reachable, Slice;
    ghost var medium := dev.medium[..];
    ok, buffer := dev.ReadRaw(loc, count);
    ReadKeepsRecoverable(original, medium, dev.Logical(), dev.journal, {}, dev.medium[..]);
  }

  lemma TornWithin(journal: seq<Entry>, loc: nat, n: nat)
    ensures forall i :: i in Torn(journal, loc, n) ==> n > 0 && loc <= i < loc + n
  {
  }

  /**
   A write during an install: one more journal entry, or none. Only a write over more
   than one block can do damage, and only when it fails.
   */
  method TryWrite(dev: Device, bytes: seq<Byte>, loc: U64, ghost original: Disk) returns (ok: bool)
    requires Underway(dev, original)
    modifies dev`cachedBlock, dev`dirty, dev`faults, dev`journal, dev`damage, dev.medium, dev.cache
    ensures Undoable(dev, original)
    ensures ok ==>
              && Underway(dev, original) && dev.Reachable(loc, |bytes|)
              && (bytes == [] || loc + |bytes| <= dev.medium.Length)
    ensures ok ==> dev.Logical() == Overlay(old(dev.Logical()), loc, bytes)
    ensures ok ==> dev.journal == old(dev.journal) + [Entry(loc, Slice(old(dev.Logical()), loc, |bytes|))]
    ensures !ok ==> dev.journal == old(dev.journal)
    ensures forall i :: i in dev.damage ==> Straddles(WriteAt(loc, bytes), dev.size, i)
    ensures Steady(old(dev.faults)) ==>
              && Steady(dev.faults) && Underway(dev, original)
              && (ok <==> dev.Reachable(loc, |bytes|) && |old(dev.journal)| < UNINSTALL_DATA_MAX)
              && (!ok ==> dev.Logical() == old(dev.Logical()))
    ensures |old(dev.journal)| < UNINSTALL_DATA_MAX ==>
              && var r := RawSteps(old(dev.Now()), loc, bytes, dev.size, true);
                 && dev.Now() == r.machine && (ok <==> r.done == |bytes|)
                 && (dev.damage == if ok then {} else Torn(dev.journal, loc, r.done))
                 && (!ok ==> (Undo(dev.medium[..], dev.journal) == original <==>
                              Untorn(original, dev.medium[..], dev.journal, loc, r.done)))
  {
    hide dev.Valid, dev.Logical, Recoverable, Elsewhere, dev.Reachable, Overlay, Slice, Torn, Untorn, Spans,
         dev.Now, RawSteps;
    ghost var medium, logical, journal := dev.medium[..], dev.Logical(), dev.journal;
    ghost var done;
    ok, done := dev.WriteRaw(bytes, loc);
    if ok {
      assert bytes[..done] == bytes;
      RecoverableAfterWrite(original, medium, logical, journal, loc, bytes, dev.medium[..]);
    } else {
      assert dev.damage == Torn(journal, loc, done);
      TornWithin(journal, loc, done);
      RecoverableAfterTear(original, medium, logical, journal, loc, bytes[..done], dev.medium[..]);
      UndoAfterTornWrite(original, medium, logical, journal, loc, done, dev.medium[..]);
      if done == 0 {
        TornNothing(journal, loc);
        assert bytes[..done] == [];
        EmptyOverlay(logical, loc);
      }
    }
  }

  /** Every entry saved something; only such a journal can be stored. */
  predicate NoneBlank(journal: seq<Entry>) {
    forall k :: 0 <= k < |journal| ==> journal[k].data != []
  }

  /** At most `n` entries more, none of them blank. */
  ghost predicate Grown(before: seq<Entry>, after: seq<Entry>, n: nat) {
    |after| <= |before| + n && (NoneBlank(before) ==> NoneBlank(after))
  }

  lemma NoneBlankSnoc(journal: seq<Entry>, e: Entry)
    ensures NoneBlank(journal + [e]) <==> NoneBlank(journal) && e.data != []
  {
    var j := journal + [e];
    if NoneBlank(j) {
      assert j[|journal|] == e && forall k :: 0 <= k < |journal| ==> j[k] == journal[k];
    }
  }

  /** A write of the installer proper, which never meets a full journal. */
  method Write(dev: Device, bytes: seq<Byte>, loc: U64, ghost original: Disk) returns (ok: bool)
    requires Underway(dev, original) && |dev.journal| < UNINSTALL_DATA_MAX
    modifies dev`cachedBlock, dev`dirty, dev`faults, dev`journal, dev`damage, dev.medium, dev.cache
    ensures Undoable(dev, original)
    ensures ok ==> Underway(dev, original) && (bytes == [] || loc + |bytes| <= dev.medium.Length)
    ensures ok ==> dev.Logical() == Overlay(old(dev.Logical()), loc, bytes)
    ensures |dev.journal| == |old(dev.journal)| + if ok then 1 else 0
    ensures NoneBlank(dev.journal) <==> NoneBlank(old(dev.journal)) && (ok ==> bytes != [])
    ensures forall i :: i in dev.damage ==> loc <= i < loc + |bytes|
    ensures loc + |bytes| <= 512 || InSector(loc, |bytes|) ==> Underway(dev, original)
    ensures Steady(old(dev.faults)) ==>
              Steady(dev.faults) && Underway(dev, original) && (ok <==> dev.Reachable(loc, |bytes|))
  {
    hide dev.Valid, dev.Logical, Recoverable, dev.Writable, dev.Reachable, Overlay, Slice, Spans, NoneBlank,
         dev.Now, RawSteps, Torn;
    ghost var journal, disk := dev.journal, dev.Logical();
    if loc + |bytes| <= 512 || InSector(loc, |bytes|) {
      SectorDoesNotSpan(dev.size, loc, |bytes|);
    }
    ok := TryWrite(dev, bytes, loc, original);
    assert forall i :: i in dev.damage ==> Straddles(WriteAt(loc, bytes), dev.size, i);
    if ok {
      NoneBlankSnoc(journal, Entry(loc, Slice(disk, loc, |bytes|)));
    }
  }

  /** One action. */
  method Act(dev: Device, action: Action, ghost original: Disk) returns (ok: bool)
    requires Underway(dev, original)
    modifies dev, dev.medium, dev.cache
    ensures Undoable(dev, original)
    ensures ok ==> Underway(dev, original) && dev.Logical() == Applied(action, old(dev.Logical()))
    ensures forall i :: i in dev.damage ==> Straddles(action, dev.size, i)
    ensures Steady(old(dev.faults)) ==>
              && Steady(dev.faults) && Underway(dev, original)
              && (ok <==> Possible(action, dev.size, dev.medium.Length) &&
                          (action.WriteAt? ==> |old(dev.journal)| < UNINSTALL_DATA_MAX))
    ensures ok ==> forall w :: Journals(old(dev.journal), w) ==>
                                 Journals(dev.journal, if action.WriteAt? then w + [action] else w)
  {
    hide dev.Valid, Recoverable, dev.Writable, dev.Logical, Base, BlockAt, Overlay, Straddles;
    match action
    case ReadAt(loc, count) =>
      var bytes;
      ok, bytes := Read(dev, loc, count, original);
    case WriteAt(loc, bytes) =>
      EmptyOverlay(dev.Logical(), loc);
      ok := TryWrite(dev, bytes, loc, original);
  }

  lemma EmptyOverlay(d: Disk, loc: nat)
    ensures Overlay(d, loc, []) == d
  {
  }

  /** Actions in order, up to the first failure. */
  method Perform(dev: Device, actions: seq<Action>, ghost original: Disk) returns (ok: bool)
    requires Underway(dev, original) && dev.journal == []
    modifies dev, dev.medium, dev.cache
    ensures Undoable(dev, original)
    ensures ok ==> Underway(dev, original)
    ensures ok ==> dev.Logical() == AllApplied(actions, old(dev.Logical())) && Journals(dev.journal, Writes(actions))
    ensures forall i :: i in dev.damage ==> Tearable(actions, dev.size, i)
    ensures Steady(old(dev.faults)) ==>
              Steady(dev.faults) && Underway(dev, original) && (ok <==> Doable(actions, dev.size, dev.medium.Length))
  {
    hide dev.Valid, dev.Logical, Recoverable, Applied, Possible, Straddles;
    ok := true;
    var i := 0;
    while i < |actions| && ok
      invariant 0 <= i <= |actions| && Undoable(dev, original) && (ok ==> Underway(dev, original))
      invariant ok ==> dev.Logical() == AllApplied(actions[..i], old(dev.Logical()))
      invariant ok ==> Journals(dev.journal, Writes(actions[..i]))
      invariant forall i :: i in dev.damage ==> Tearable(actions, dev.size, i)
      invariant Steady(old(dev.faults)) ==> Steady(dev.faults) && Underway(dev, original)
      invariant Steady(old(dev.faults)) && ok ==>
                forall k :: 0 <= k < i ==> Possible(actions[k], dev.size, dev.medium.Length)
      invariant Steady(old(dev.faults)) && !ok ==> !Doable(actions, dev.size, dev.medium.Length)
    {
      assert actions[..i + 1][..i] == actions[..i];
      WritesGrow(actions, i + 1);
      ok := Act(dev, actions[i], original);
      i := i + 1;
    }
    assert ok ==> actions[..i] == actions;
  }

  /** Entries that turn `d` into `original`, but for the damage, which they leave alone. */
  ghost predicate Restores(entries: seq<Entry>, d: Disk, original: Disk, damage: set<int>) {
    && (forall i :: 0 <= i < |entries| ==> entries[i].loc < TWO64)
    && AllFit(entries, |d|) && |d| == |original|
    && forall i :: 0 <= i < |d| ==> Replay(d, entries)[i] == if i in damage then d[i] else original[i]
  }

  /** A device with that block size can write all the entries. */
  ghost predicate WritableOn(entries: seq<Entry>, size: BlockSize, length: nat) {
    forall i :: 0 <= i < |entries| ==> ReachableOn(size, length, entries[i].loc, |entries[i].data|)
  }

  /**
   What holds once the journal is reversed: replaying it on the bare medium gives the original,
   but for the damage.
   */
  ghost predicate ReadyToUndo(dev: Device, original: Disk)
    reads dev, dev.medium, dev.cache
  {
    && dev.Valid() && |dev.journal| <= UNINSTALL_DATA_MAX
    && Restores(dev.journal, dev.medium[..], original, dev.damage)
  }

  method ReverseForUndo(dev: Device, ghost original: Disk)
    requires Undoable(dev, original)
    modifies dev`journal
    ensures ReadyToUndo(dev, original) && dev.journal == Reverse(old(dev.journal))
    ensures WritableOn(dev.journal, dev.size, dev.medium.Length)
    ensures dev.Logical() == old(dev.Logical())
  {
    hide Restores, Recoverable, dev.Logical, dev.Valid, WritableOn;
    ReversedRestores(dev, original);
    dev.ReverseJournal();
  }

  lemma ReversedRestores(dev: Device, original: Disk)
    requires Undoable(dev, original)
    ensures Restores(Reverse(dev.journal), dev.medium[..], original, dev.damage)
    ensures WritableOn(Reverse(dev.journal), dev.size, dev.medium.Length)
  {
    var medium, journal, rev := dev.medium[..], dev.journal, Reverse(dev.journal);
    RecoverableOnMedium(original, medium, dev.Logical(), journal, dev.damage);
    hide Undo, Replay, Recoverable, dev.Logical, dev.Valid;
    assert dev.Writable(rev);
    dev.WritableFits(rev);
    UndoIsReplayReversed(medium, journal);
  }

  /**
   Throw the cache away and write the entries back. Whatever failed and was retried
   on the way, an undo that reports success has put every byte outside the damage back,
   and left the damage alone: the disk is the original exactly when the damaged bytes
   had not reached the medium.
   */
  method UndoAll(dev: Device, ghost original: Disk) returns (ok: bool)
    requires ReadyToUndo(dev, original)
    modifies dev, dev.medium, dev.cache
    ensures ok ==> forall i :: 0 <= i < |original| ==>
                     dev.medium[i] == if i in old(dev.damage) then old(dev.medium[i]) else original[i]
    ensures ok ==> (dev.medium[..] == original <==> Unharmed(original, old(dev.medium[..]), old(dev.damage)))
    ensures Steady(old(dev.faults)) && WritableOn(old(dev.journal), dev.size, dev.medium.Length) ==> ok
  {
    assert WritableOn(dev.journal, dev.size, dev.medium.Length) ==> dev.Writable(dev.journal);
    ghost var before, damage := dev.medium[..], dev.damage;
    hide Replay;
    ok := dev.Uninstall();
    if ok {
      RestoredIff(dev.journal, before, original, damage);
    }
  }

  lemma RestoredIff(entries: seq<Entry>, d: Disk, original: Disk, damage: set<int>)
    requires Restores(entries, d, original, damage)
    ensures Replay(d, entries) == original <==> Unharmed(original, d, damage)
  {
    hide Replay;
    if Unharmed(original, d, damage) {
      assert forall i :: 0 <= i < |d| ==> Replay(d, entries)[i] == original[i];
    }
  }

  method Begin(medium: array<Byte>, size: BlockSize, faults: seq<Transfer>) returns (dev: Device)
    requires size <= medium.Length <= TWO64 / 2
    ensures fresh(dev) && fresh(dev.cache) && dev.medium == medium && dev.size == size && dev.faults == faults
    ensures Underway(dev, medium[..]) && dev.Logical() == medium[..] && dev.journal == []
    ensures dev.Now() == Machine(medium[..], medium[..size], 0, false, faults)
  {
    dev := new Device(medium, size, faults);
    assert Undo(medium[..], []) == medium[..];
  }

  predicate NoneEmpty(writes: seq<Action>) {
    forall k :: 0 <= k < |writes| ==> writes[k].WriteAt? && writes[k].bytes != []
  }

  lemma StorableIffNoneBlank(dev: Device, original: Disk)
    requires Undoable(dev, original)
    ensures StoreFile(Reverse(dev.journal)).Ok? <==> NoneBlank(dev.journal)
  {
    var reversed := Reverse(dev.journal);
    dev.WritableFits(dev.journal);
    if NoneBlank(dev.journal) {
      assert Storable(reversed);
    }
    if Storable(reversed) {
      forall k | 0 <= k < |dev.journal|
        ensures dev.journal[k].data != []
      {
        assert reversed[|dev.journal| - 1 - k] == dev.journal[k];
      }
    }
  }

  lemma JournalsNoneBlank(journal: seq<Entry>, writes: seq<Action>)
    requires Journals(journal, writes)
    ensures NoneBlank(journal) <==> NoneEmpty(writes)
  {
    if NoneBlank(journal) {
      assert forall k :: 0 <= k < |writes| ==> |journal[k].data| == |writes[k].bytes|;
    }
  }

  /** How an install ends; an undo reports whether all of it went through. */
  datatype Outcome = Installed(file: seq<Byte>) | Undone(complete: bool)

  /** The stored file loads, on any later run, as entries that restore `original`. */
  ghost predicate FileRestores(file: seq<Byte>, size: BlockSize, d: Disk, original: Disk) {
    match LoadFile(file)
    case Failed => false
    case Ok(entries) =>
      |entries| <= UNINSTALL_DATA_MAX && WritableOn(entries, size, |d|) && Restores(entries, d, original, {})
  }

  /**
   The end of an install: on success the reversed journal is stored, otherwise, or when
   the store fails, everything is undone, and the outcome says whether that went through.
   */
  method Conclude(dev: Device, success: bool, ghost original: Disk) returns (outcome: Outcome)
    requires Undoable(dev, original) && (success ==> Underway(dev, original))
    modifies dev, dev.medium, dev.cache
    ensures outcome.Undone? && outcome.complete ==> forall i :: 0 <= i < |original| ==>
              dev.medium[i] == if i in old(dev.damage) then old(dev.medium[i]) else original[i]
    ensures outcome.Undone? && outcome.complete ==>
              (dev.medium[..] == original <==> Unharmed(original, old(dev.medium[..]), old(dev.damage)))
    ensures outcome.Undone? && Steady(old(dev.faults)) ==> outcome.complete
    ensures outcome.Installed? <==> success && NoneBlank(old(dev.journal))
    ensures outcome.Installed? ==>
              && dev.medium[..] == old(dev.medium[..])
              && FileRestores(outcome.file, dev.size, dev.medium[..], original)
              && LoadFile(outcome.file) == Ok(Reverse(old(dev.journal)))
  {
    hide LoadFile, ReadyToUndo, Recoverable, StoreFile, FileRestores, dev.Valid, dev.Logical, Unharmed, WritableOn,
         NoneBlank, Reverse;
    StorableIffNoneBlank(dev, original);
    ReverseForUndo(dev, original);
    if success {
      StoredFileRestores(dev, original);
      match StoreFile(dev.journal) {
        case Ok(file) => return Installed(file);
        case Failed =>
      }
    }
    var undone := UndoAll(dev, original);
    return Undone(undone);
  }

  method FlushAll(dev: Device, ghost original: Disk) returns (ok: bool)
    requires Underway(dev, original)
    modifies dev`dirty, dev`faults, dev.medium
    ensures Underway(dev, original) && dev.Logical() == old(dev.Logical())
    ensures ok ==> dev.medium[..] == dev.Logical()
    ensures Steady(old(dev.faults)) ==> ok && Steady(dev.faults)
  {
    hide dev.Valid, dev.Logical, Recoverable, Towards;
    ghost var before := dev.medium[..];
    ok := dev.Flush();
    ReadKeepsRecoverable(original, before, dev.Logical(), dev.journal, {}, dev.medium[..]);
  }

  lemma StoredFileRestores(dev: Device, original: Disk)
    requires ReadyToUndo(dev, original) && dev.damage == {} && WritableOn(dev.journal, dev.size, dev.medium.Length)
    ensures |dev.journal| <= UNINSTALL_DATA_MAX
    ensures StoreFile(dev.journal).Ok? ==>
              && FileRestores(StoreFile(dev.journal).value, dev.size, dev.medium[..], original)
              && LoadFile(StoreFile(dev.journal).value) == Ok(dev.journal)
  {
    hide LoadFile, StoreFile, Restores, dev.Valid, WritableOn;
    if StoreFile(dev.journal).Ok? {
      FileRoundTrip(dev.journal);
    }
  }

  /** No damage, nothing to lose. */
  lemma NothingHarmed(original: Disk, medium: Disk)
    requires |original| == |medium|
    ensures Unharmed(original, medium, {})
  {
  }

  /**
   A whole install: `actions` in order, then the flush, on a medium that may fail any
   transfer. An install that completes has made exactly the writes asked for, and its
   file undoes them. Any other is undone, and says whether that went through. If it did,
   every byte is as it was found except those that a write over more than one block
   left damaged, so an install that only writes inside single blocks always gets its
   medium back. The undo goes through if none of the transfers `left` for it stops. Without
   faults the install completes exactly when the actions stay on the medium, fit the
   journal and none of them writes nothing.
   */
  method Install(medium: array<Byte>, size: BlockSize, actions: seq<Action>, faults: seq<Transfer>)
    returns (outcome: Outcome, ghost damage: set<int>, ghost left: seq<Transfer>)
    requires size <= medium.Length <= TWO64 / 2
    modifies medium
    ensures outcome.Installed? ==>
              && medium[..] == AllApplied(actions, old(medium[..]))
              && FileRestores(outcome.file, size, medium[..], old(medium[..]))
    ensures outcome.Undone? && outcome.complete ==>
              forall i :: 0 <= i < medium.Length && i !in damage ==> medium[i] == old(medium[i])
    ensures forall i :: i in damage ==> Tearable(actions, size, i)
    ensures outcome.Undone? && outcome.complete && (damage == {} || Confined(actions, size)) ==>
              medium[..] == old(medium[..])
    ensures Steady(left) && outcome.Undone? ==> outcome.complete
    ensures Steady(faults) ==> damage == {} && Steady(left)
    ensures Steady(faults) ==>
              (outcome.Installed? <==> Doable(actions, size, medium.Length) && NoneEmpty(Writes(actions)))
  {
    hide Recoverable, AllApplied, StoreFile, FileRestores, Doable, NoneEmpty, NoneBlank, Writes, Confined, Unharmed,
         Tearable;
    ghost var original := medium[..];
    var dev := Begin(medium, size, faults);
    var ok := Perform(dev, actions, original);
    if ok {
      JournalsNoneBlank(dev.journal, Writes(actions));
      ok := FlushAll(dev, original);
    }
    damage, left := dev.damage, dev.faults;
    if Confined(actions, size) {
      ConfinedIsNotTearable(actions, size, damage);
    }
    NothingHarmed(original, medium[..]);
    outcome := Conclude(dev, ok, original);
  }

  lemma {:induction false} LoadedPlaces(file: seq<Byte>, pos: nat, count: nat)
    requires pos <= |file| && LoadEntries(file, pos, count).Ok?
    ensures |LoadEntries(file, pos, count).value| == count
    ensures forall i :: 0 <= i < count ==> LoadEntries(file, pos, count).value[i].loc < TWO64
    decreases count
  {
    hide Read64;
    if count > 0 {
      LoadedPlaces(file, pos + 16 + Read64(file, pos + 8), count - 1);
    }
  }

  /** What the file of an install comes to on the medium that install left. */
  lemma FileReplays(file: seq<Byte>, installed: BlockSize, size: BlockSize, d: Disk, original: Disk)
    requires FileRestores(file, installed, d, original)
    ensures Replay(d, LoadFile(file).value) == original
    ensures size <= installed ==> WritableOn(LoadFile(file).value, size, |d|)
  {
    hide LoadFile, Replay, ReachableOn;
    var entries := LoadFile(file).value;
    NothingHarmed(original, d);
    RestoredIff(entries, d, original, {});
    if size <= installed {
      forall i | 0 <= i < |entries|
        ensures ReachableOn(size, |d|, entries[i].loc, |entries[i].data|)
      {
        FinerReaches(size, installed, |d|, entries[i].loc, |entries[i].data|);
      }
    }
  }

  /**
   A later run loads a file and writes its entries back. A file that does not load
   changes nothing. Whatever fails on the way, a run that reports success has written
   all of them; so, with the file of an install, it has put every byte back, and
   without failures it does report success, on any device whose blocks are no larger
   than the installer's.
   */
  method UninstallFromFile(medium: array<Byte>, size: BlockSize, file: seq<Byte>, faults: seq<Transfer>,
                           ghost installed: BlockSize, ghost original: Disk) returns (ok: bool)
    requires size <= medium.Length <= TWO64 / 2
    modifies medium
    ensures LoadFile(file).Failed? ==> !ok && medium[..] == old(medium[..])
    ensures ok ==>
              AllFit(LoadFile(file).value, medium.Length) && medium[..] == Replay(old(medium[..]), LoadFile(file).value)
    ensures FileRestores(file, installed, old(medium[..]), original) ==>
              (ok ==> medium[..] == original) && (Steady(faults) && size <= installed ==> ok)
  {
    hide LoadEntries, Replay, ReachableOn;
    var dev := new Device(medium, size, faults);
    match LoadFile(file)
    case Failed => ok := false;
    case Ok(entries) =>
      LoadedPlaces(file, 8, Read64(file, 0));
      if FileRestores(file, installed, medium[..], original) {
        FileReplays(file, installed, size, medium[..], original);
      }
      hide dev.Valid, LoadFile, Restores;
      dev.journal := entries;
      assert WritableOn(entries, size, medium.Length) ==> dev.Writable(entries);
      ok := dev.Uninstall();
  }
}
