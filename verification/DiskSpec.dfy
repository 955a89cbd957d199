/**
 Flat disks, the journal of overwritten bytes, and its replay.

 The installer saves what each write replaces and undoes an install by writing
 the saved bytes back, latest first.
 */
module DiskSpec {
  import opened Bytes
  import opened Wrappers

  type Disk = seq<Byte>

  /** `d` with `s` written over the bytes from `loc` on. */
  function Overlay(d: Disk, loc: nat, s: seq<Byte>): (r: Disk)
    requires s == [] || loc + |s| <= |d|
    ensures |r| == |d|
    ensures forall i :: 0 <= i < |d| ==> r[i] == if loc <= i < loc + |s| then s[i - loc] else d[i]
  {
    if s == [] then d else d[..loc] + s + d[loc + |s|..]
  }

  /** The bytes an `Overlay` of that length would replace. */
  function Slice(d: Disk, loc: nat, count: nat): (s: seq<Byte>)
    requires count == 0 || loc + count <= |d|
    ensures |s| == count
  {
    if count == 0 then [] else d[loc..loc + count]
  }

  /** One journal entry: where, and what was there. */
  datatype Entry = Entry(loc: nat, data: seq<Byte>)

  predicate Fits(e: Entry, size: nat) {
    e.data == [] || e.loc + |e.data| <= size
  }

  predicate AllFit(journal: seq<Entry>, size: nat) {
    forall i :: 0 <= i < |journal| ==> Fits(journal[i], size)
  }

  /** Byte `i` lies in some entry's range. */
  predicate Touched(journal: seq<Entry>, i: int) {
    exists k :: 0 <= k < |journal| && journal[k].loc <= i < journal[k].loc + |journal[k].data|
  }

  lemma TouchedSplit(journal: seq<Entry>, i: int)
    requires journal != []
    ensures var last := journal[|journal| - 1];
            Touched(journal, i) <==> Touched(journal[..|journal| - 1], i) || last.loc <= i < last.loc + |last.data|
  {
    var rest := journal[..|journal| - 1];
    if Touched(rest, i) {
      var k :| 0 <= k < |rest| && rest[k].loc <= i < rest[k].loc + |rest[k].data|;
      assert journal[k] == rest[k];
    }
    if Touched(journal, i) {
      var k :| 0 <= k < |journal| && journal[k].loc <= i < journal[k].loc + |journal[k].data|;
      if k < |rest| {
        assert rest[k] == journal[k];
      }
    }
  }

  /** Writes entries in order. */
  function Replay(d: Disk, entries: seq<Entry>): (r: Disk)
    requires AllFit(entries, |d|)
    ensures |r| == |d|
    decreases |entries|
  {
    if entries == [] then d
    else Replay(Overlay(d, entries[0].loc, entries[0].data), entries[1..])
  }

  lemma {:induction false} ReplaySnoc(d: Disk, entries: seq<Entry>, e: Entry)
    requires AllFit(entries, |d|) && Fits(e, |d|)
    ensures AllFit(entries + [e], |d|)
    ensures Replay(d, entries + [e]) == Overlay(Replay(d, entries), e.loc, e.data)
    decreases |entries|
  {
    hide Overlay;
    var all := entries + [e];
    if entries == [] {
      assert all[1..] == [];
    } else {
      assert all[1..] == entries[1..] + [e];
      ReplaySnoc(Overlay(d, entries[0].loc, entries[0].data), entries[1..], e);
    }
  }

  function Reverse(journal: seq<Entry>): (r: seq<Entry>)
    ensures |r| == |journal|
    ensures forall i :: 0 <= i < |r| ==> r[i] == journal[|journal| - 1 - i]
  {
    if journal == [] then [] else [journal[|journal| - 1]] + Reverse(journal[..|journal| - 1])
  }

  /** Undoing: the journal written back, latest entry first. */
  function Undo(d: Disk, journal: seq<Entry>): (r: Disk)
    requires AllFit(journal, |d|)
    ensures |r| == |d|
    decreases |journal|
  {
    if journal == [] then d
    else
      var last := journal[|journal| - 1];
      Undo(Overlay(d, last.loc, last.data), journal[..|journal| - 1])
  }

  /** Undoing is replaying the reversed journal. */
  lemma {:induction false} UndoIsReplayReversed(d: Disk, journal: seq<Entry>)
    requires AllFit(journal, |d|) && AllFit(Reverse(journal), |d|)
    ensures Undo(d, journal) == Replay(d, Reverse(journal))
    decreases |journal|
  {
    if journal != [] {
      var last, rest := journal[|journal| - 1], journal[..|journal| - 1];
      var r := Reverse(journal);
      assert r[1..] == Reverse(rest);
      UndoIsReplayReversed(Overlay(d, last.loc, last.data), rest);
    }
  }

  /** A journalled write is undone by its own entry. */
  lemma UndoAfterWrite(d: Disk, journal: seq<Entry>, loc: nat, s: seq<Byte>)
    requires AllFit(journal, |d|) && (s == [] || loc + |s| <= |d|)
    ensures AllFit(journal + [Entry(loc, Slice(d, loc, |s|))], |d|)
    ensures Undo(Overlay(d, loc, s), journal + [Entry(loc, Slice(d, loc, |s|))]) == Undo(d, journal)
  {
    var e := Entry(loc, Slice(d, loc, |s|));
    var j := journal + [e];
    assert j[..|j| - 1] == journal;
    assert Overlay(Overlay(d, loc, s), e.loc, e.data) == d;
  }

  /** What an entry touches is the same after an undo of any disk; what none touches is left alone. */
  lemma {:induction false} UndoAt(a: Disk, b: Disk, journal: seq<Entry>, i: nat)
    requires |a| == |b| && AllFit(journal, |a|) && i < |a|
    ensures Touched(journal, i) || a[i] == b[i] ==> Undo(a, journal)[i] == Undo(b, journal)[i]
    ensures !Touched(journal, i) ==> Undo(a, journal)[i] == a[i]
    decreases |journal|
  {
    if journal != [] {
      var last, rest := journal[|journal| - 1], journal[..|journal| - 1];
      TouchedSplit(journal, i);
      UndoAt(Overlay(a, last.loc, last.data), Overlay(b, last.loc, last.data), rest, i);
    }
  }

  // ----- the medium under the logical disk

  /** What may have happened to the medium while the logical disk stayed put: write-backs. */
  ghost predicate Towards(before: Disk, now: Disk, logical: Disk) {
    && |before| == |now| == |logical|
    && forall i :: 0 <= i < |now| ==> now[i] == before[i] || now[i] == logical[i]
  }

  lemma TowardsTwice(a: Disk, b: Disk, c: Disk, logical: Disk)
    requires Towards(a, b, logical) && Towards(b, c, logical)
    ensures Towards(a, c, logical)
  {
  }

  /** What may have happened to the medium outside the `n` bytes from `loc` on: write-backs. */
  ghost predicate Elsewhere(before: Disk, now: Disk, logical: Disk, loc: nat, n: nat) {
    && |before| == |now| == |logical|
    && forall i :: 0 <= i < |now| && !(loc <= i < loc + n) ==> now[i] == before[i] || now[i] == logical[i]
  }

  lemma ElsewhereNothing(d: Disk, logical: Disk, loc: nat)
    requires |d| == |logical|
    ensures Elsewhere(d, d, logical, loc, 0)
  {
  }

  lemma TowardsIsElsewhere(before: Disk, now: Disk, logical: Disk, loc: nat)
    requires Towards(before, now, logical)
    ensures Elsewhere(before, now, logical, loc, 0)
  {
  }

  lemma ElsewhereTwice(a: Disk, b: Disk, c: Disk, logical: Disk, loc: nat, n: nat)
    requires Elsewhere(a, b, logical, loc, 0) && Elsewhere(b, c, logical, loc, n)
    ensures Elsewhere(a, c, logical, loc, n)
  {
  }

  /** One more chunk: the logical disk meanwhile is the original with `part` written at `loc`. */
  lemma ElsewhereStep(a: Disk, b: Disk, c: Disk, logical: Disk, now: Disk, loc: nat, part: seq<Byte>, n: nat)
    requires Elsewhere(a, b, logical, loc, |part|) && Towards(b, c, now)
    requires (part == [] || loc + |part| <= |logical|) && now == Overlay(logical, loc, part)
    ensures Elsewhere(a, c, logical, loc, |part| + n)
  {
  }

  lemma TowardsNothing(d: Disk, logical: Disk)
    requires |d| == |logical|
    ensures Towards(d, d, logical)
  {
  }

  // ----- what an install keeps true

  /** The bytes a torn write reached and no entry will rewrite. */
  function Torn(journal: seq<Entry>, loc: nat, n: nat): set<int> {
    set i | loc <= i < loc + n && !Touched(journal, i)
  }

  lemma TornNothing(journal: seq<Entry>, loc: nat)
    ensures Torn(journal, loc, 0) == {}
  {
  }

  /**
   Outside the damage, undoing the journal on the logical disk gives back the
   original, and the medium differs from the logical disk only in bytes the journal
   will rewrite. Without damage, that is all of the disk.
   */
  ghost predicate Recoverable(original: Disk, medium: Disk, logical: Disk, journal: seq<Entry>, damage: set<int>) {
    && |original| == |medium| == |logical|
    && AllFit(journal, |original|)
    && (forall i :: i in damage ==> !Touched(journal, i))
    && (forall i :: 0 <= i < |original| && i !in damage ==> Undo(logical, journal)[i] == original[i])
    && (forall i :: 0 <= i < |medium| && i !in damage && !Touched(journal, i) ==> medium[i] == logical[i])
  }

  /**
   Undoing on the bare medium, with the cache thrown away, restores every byte outside
   the damage; it restores the disk exactly when the damaged bytes never got to the medium.
   */
  lemma RecoverableOnMedium(original: Disk, medium: Disk, logical: Disk, journal: seq<Entry>, damage: set<int>)
    requires Recoverable(original, medium, logical, journal, damage)
    ensures forall i :: 0 <= i < |medium| ==>
                          Undo(medium, journal)[i] == if i in damage then medium[i] else original[i]
    ensures Undo(medium, journal) == original <==> Unharmed(original, medium, damage)
  {
    forall i | 0 <= i < |medium|
      ensures Undo(medium, journal)[i] == if i in damage then medium[i] else original[i]
    {
      UndoAt(medium, logical, journal, i);
    }
  }

  /** The damaged bytes still are on the medium what they were. */
  predicate Unharmed(original: Disk, medium: Disk, damage: set<int>) {
    |original| == |medium| && forall i :: i in damage && 0 <= i < |medium| ==> medium[i] == original[i]
  }

  lemma RecoverableAfterWrite(original: Disk, medium: Disk, logical: Disk, journal: seq<Entry>,
                              loc: nat, s: seq<Byte>, medium': Disk)
    requires Recoverable(original, medium, logical, journal, {}) && (s == [] || loc + |s| <= |logical|)
    requires Elsewhere(medium, medium', logical, loc, |s|)
    ensures Recoverable(original, medium', Overlay(logical, loc, s),
                        journal + [Entry(loc, Slice(logical, loc, |s|))], {})
  {
    var j := journal + [Entry(loc, Slice(logical, loc, |s|))];
    UndoAfterWrite(logical, journal, loc, s);
    forall i | 0 <= i < |medium| && !Touched(j, i)
      ensures medium'[i] == Overlay(logical, loc, s)[i]
    {
      TouchedSplit(j, i);
      assert j[..|j| - 1] == journal;
    }
  }

  /** A write that stops part way, its entry dropped, damages what it reached. */
  lemma RecoverableAfterTear(original: Disk, medium: Disk, logical: Disk, journal: seq<Entry>,
                             loc: nat, part: seq<Byte>, medium': Disk)
    requires Recoverable(original, medium, logical, journal, {}) && (part == [] || loc + |part| <= |logical|)
    requires Elsewhere(medium, medium', logical, loc, |part|)
    ensures Recoverable(original, medium', Overlay(logical, loc, part), journal, Torn(journal, loc, |part|))
  {
    var torn, damage := Overlay(logical, loc, part), Torn(journal, loc, |part|);
    forall i | 0 <= i < |original| && i !in damage
      ensures Undo(torn, journal)[i] == original[i]
    {
      UndoAt(torn, logical, journal, i);
    }
  }

  /** Of the `n` bytes from `loc` on, those that no entry covers are on the medium what they were. */
  predicate Untorn(original: Disk, medium: Disk, journal: seq<Entry>, loc: nat, n: nat)
    requires |original| == |medium|
  {
    forall i :: 0 <= i < |medium| && loc <= i < loc + n && !Touched(journal, i) ==> medium[i] == original[i]
  }

  /**
   The exact condition for a write that fails after its save phase: undoing on the
   medium it leaves gives the original back if and only if none of the bytes the write
   reached, and no other entry covers, is on the medium with a new value.
   */
  lemma UndoAfterTornWrite(original: Disk, medium: Disk, logical: Disk, journal: seq<Entry>,
                           loc: nat, n: nat, medium': Disk)
    requires Recoverable(original, medium, logical, journal, {}) && Elsewhere(medium, medium', logical, loc, n)
    ensures Undo(medium', journal) == original <==> Untorn(original, medium', journal, loc, n)
  {
    forall i | 0 <= i < |medium'|
      ensures !(loc <= i < loc + n) || Touched(journal, i) ==> Undo(medium', journal)[i] == original[i]
      ensures !Touched(journal, i) ==> Undo(medium', journal)[i] == medium'[i]
    {
      UndoAt(medium', logical, journal, i);
    }
  }

  lemma ReadKeepsRecoverable(original: Disk, medium: Disk, logical: Disk, journal: seq<Entry>, damage: set<int>,
                             medium': Disk)
    requires Recoverable(original, medium, logical, journal, damage) && Towards(medium, medium', logical)
    ensures Recoverable(original, medium', logical, journal, damage)
  {
  }

  // ----- the uninstall data file

  const UNINSTALL_DATA_MAX: nat := 256

  /** Location, length, bytes. */
  function EntryBytes(e: Entry): seq<Byte>
    requires e.loc < TWO64 && |e.data| < TWO64
  {
    LittleEndian64(e.loc) + LittleEndian64(|e.data|) + e.data
  }

  predicate Storable(entries: seq<Entry>) {
    forall i :: 0 <= i < |entries| ==> entries[i].loc < TWO64 && 0 < |entries[i].data| < TWO64
  }

  function EntriesBytes(entries: seq<Entry>): seq<Byte>
    requires Storable(entries)
  {
    if entries == [] then [] else EntryBytes(entries[0]) + EntriesBytes(entries[1..])
  }

  /** The file; an entry without bytes makes its write report failure. */
  function StoreFile(entries: seq<Entry>): Result<seq<Byte>>
    requires |entries| <= UNINSTALL_DATA_MAX
  {
    if Storable(entries) then Ok(LittleEndian64(|entries|) + EntriesBytes(entries)) else Failed
  }

  /** `count` entries read from `pos` on; short reads and empty entries fail. */
  function LoadEntries(file: seq<Byte>, pos: nat, count: nat): Result<seq<Entry>>
    requires pos <= |file|
    decreases count
  {
    if count == 0 then Ok([])
    else if pos + 16 > |file| then Failed
    else
      var loc, length := Read64(file, pos), Read64(file, pos + 8);
      if length == 0 || pos + 16 + length > |file| then Failed
      else
        match LoadEntries(file, pos + 16 + length, count - 1)
        case Failed => Failed
        case Ok(rest) => Ok([Entry(loc, file[pos + 16..pos + 16 + length])] + rest)
  }

  function LoadFile(file: seq<Byte>): Result<seq<Entry>> {
    if |file| < 8 || Read64(file, 0) > UNINSTALL_DATA_MAX then Failed
    else LoadEntries(file, 8, Read64(file, 0))
  }

  lemma EntryParts(e: Entry)
    requires e.loc < TWO64 && |e.data| < TWO64
    ensures var b := EntryBytes(e);
            && |b| == 16 + |e.data|
            && b[0..8] == LittleEndian64(e.loc) && b[8..16] == LittleEndian64(|e.data|) && b[16..] == e.data
  {
    hide LittleEndian64;
    var b, x, y := EntryBytes(e), LittleEndian64(e.loc), LittleEndian64(|e.data|);
    assert forall i :: 0 <= i < 8 ==> b[i] == x[i] && b[8 + i] == y[i];
  }

  lemma PartOfPart(s: seq<Byte>, pos: nat, n: nat, i: nat, j: nat)
    requires pos + n <= |s| && i <= j <= n
    ensures s[pos..pos + n][i..j] == s[pos + i..pos + j]
  {
    var x, y := s[pos..pos + n][i..j], s[pos + i..pos + j];
    assert forall k :: 0 <= k < j - i ==> x[k] == s[pos + i + k] == y[k];
  }

  lemma EntryReads(e: Entry, file: seq<Byte>, pos: nat)
    requires e.loc < TWO64 && 0 < |e.data| < TWO64
    requires pos + 16 + |e.data| <= |file| && file[pos..pos + 16 + |e.data|] == EntryBytes(e)
    ensures Read64(file, pos) == e.loc && Read64(file, pos + 8) == |e.data|
    ensures file[pos + 16..pos + 16 + |e.data|] == e.data
  {
    hide LittleEndian64, EntryBytes, Read64;
    var n := |e.data|;
    EntryParts(e);
    PartOfPart(file, pos, 16 + n, 0, 8);
    PartOfPart(file, pos, 16 + n, 8, 16);
    PartOfPart(file, pos, 16 + n, 16, 16 + n);
    Read64RoundTrip(e.loc, file, pos);
    Read64RoundTrip(n, file, pos + 8);
  }

  lemma {:induction false} LoadEntriesRoundTrip(entries: seq<Entry>, file: seq<Byte>, pos: nat)
    requires Storable(entries) && pos <= |file| && file[pos..] == EntriesBytes(entries)
    ensures LoadEntries(file, pos, |entries|) == Ok(entries)
    decreases |entries|
  {
    hide LittleEndian64, Read64, EntryBytes;
    if entries != [] {
      var e, rest := entries[0], entries[1..];
      var b, more := EntryBytes(e), EntriesBytes(rest);
      EntryLength(e);
      var next := pos + |b|;
      assert |file[pos..]| == |b| + |more|;
      assert file[pos..next] == file[pos..][..|b|] == b;
      assert file[next..] == file[pos..][|b|..] == more;
      EntryReads(e, file, pos);
      LoadEntriesRoundTrip(rest, file, next);
      assert [e] + rest == entries;
    }
  }

  lemma EntryLength(e: Entry)
    requires e.loc < TWO64 && |e.data| < TWO64
    ensures |EntryBytes(e)| == 16 + |e.data|
  {
  }

  /** Whatever could be stored loads back as it was. */
  lemma FileRoundTrip(entries: seq<Entry>)
    requires |entries| <= UNINSTALL_DATA_MAX && StoreFile(entries).Ok?
    ensures LoadFile(StoreFile(entries).value) == Ok(entries)
  {
    hide LittleEndian64, Read64, EntriesBytes, LoadEntries;
    var file := StoreFile(entries).value;
    assert file[0..8] == LittleEndian64(|entries|) && file[8..] == EntriesBytes(entries);
    Read64RoundTrip(|entries|, file, 0);
    LoadEntriesRoundTrip(entries, file, 8);
  }
}
