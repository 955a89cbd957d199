/** GPT entries, MBR entries, and what the first become in the second. */
module PartitionTable {
  import opened Bytes
  import opened Blocks
  import opened DiskSpec
  import opened Gpt

  const SECTOR: nat := 512

  // ----- cylinder, head and sector

  const CHS_LIMIT: nat := 1024 * 255 * 63

  /** The three bytes the installer writes for a sector number. */
  function Chs(lba: nat): (chs: seq<Byte>)
    ensures |chs| == 3
  {
    if lba > 63 * 255 * 1024 || lba / (255 * 63) >= 1024 then [0xfe, 0xff, 0xff]
    else
      var cylinder, head, sector := lba / (255 * 63), lba / 63 % 255, lba % 63 + 1;
      [head, cylinder / 4 / 64 % 4 * 64 + sector % 64, cylinder % 256]
  }

  /** The sector a reader of those bytes computes, with 255 heads and 63 sectors. */
  function ChsSector(chs: seq<Byte>): int
    requires |chs| == 3
  {
    var cylinder: int, head, sector := chs[2] + TWO8 * (chs[1] / 64), chs[0], chs[1] % 64;
    (cylinder * 255 + head) * 63 + sector - 1
  }

  /** It decodes back, or saturates exactly when the geometry cannot express it. */
  lemma ChsDecodesOrSaturates(lba: nat)
    ensures lba < CHS_LIMIT ==> ChsSector(Chs(lba)) == lba
    ensures lba >= CHS_LIMIT ==> Chs(lba) == [0xfe, 0xff, 0xff]
  {
    if lba < CHS_LIMIT {
      var cylinder, track, head, sector := lba / (255 * 63), lba / 63, lba / 63 % 255, lba % 63 + 1;
      assert track / 255 == cylinder && track == 255 * cylinder + head && lba == 63 * track + sector - 1;
      var chs := Chs(lba);
      assert cylinder / 4 / 64 == cylinder / 256 < 4;
      assert chs[1] == cylinder / 256 * 64 + sector;
      assert chs[1] / 64 == cylinder / 256 && chs[1] % 64 == sector;
    }
  }

  // ----- GPT entries

  datatype GptEntry = GptEntry(kind1: U64, kind2: U64, start: U64, end: U64)

  function ParseEntry(b: seq<Byte>): GptEntry
    requires |b| == ENTRY_BYTES
  {
    GptEntry(Read64(b, 0), Read64(b, 8), Read64(b, 32), Read64(b, 40))
  }

  predicate InUse(e: GptEntry) {
    !(e.kind1 == 0 && e.kind2 == 0)
  }

  function EntryLoc(base: nat, size: nat, k: nat): nat {
    base + k * size
  }

  /** Entry `k` of an array of `n` lies in the array. */
  lemma EntryInside(base: nat, size: nat, k: nat, n: nat)
    requires k < n && size >= ENTRY_BYTES
    ensures EntryLoc(base, size, k) + ENTRY_BYTES <= EntryLoc(base, size, n)
  {
    MulMonotone(k + 1, n, size);
  }

  function EntryAt(d: Disk, base: nat, size: nat, k: nat): GptEntry
    requires EntryLoc(base, size, k) + ENTRY_BYTES <= |d|
  {
    ParseEntry(Slice(d, EntryLoc(base, size, k), ENTRY_BYTES))
  }

  /** The entries in use among the first `n`, in order. */
  function UsedEntries(d: Disk, base: nat, size: nat, n: nat): seq<GptEntry>
    requires size >= ENTRY_BYTES && EntryLoc(base, size, n) <= |d|
  {
    if n == 0 then []
    else
      EntryInside(base, size, n - 1, n);
      var rest, e := UsedEntries(d, base, size, n - 1), EntryAt(d, base, size, n - 1);
      if InUse(e) then rest + [e] else rest
  }

  /** The MBR type for a GPT type, where there is one. */
  function MbrType(kind1: U64, kind2: U64): (t: int)
    ensures -1 <= t < 256
  {
    if kind1 == 0x11d2_f81f_c12a_7328 && kind2 == 0x3bc9_3ec9_a000_4bba then 0xef
    else if kind1 == 0x4433_b9e5_ebd0_a0a2 && kind2 == 0xc799_26b7_b668_c087 then 0x07
    else if kind1 == 0x11aa_0000_4846_5300 && kind2 == 0xacec_4365_3000_11aa then 0xaf
    else -1
  }

  // ----- MBR entries

  /** A partition to write: inclusive sector range, type, and both ends' CHS bytes. */
  datatype Part = Part(first: U32, last: U32, kind: Byte, chsFirst: seq<Byte>, chsLast: seq<Byte>)

  predicate SoundPart(p: Part) {
    63 <= p.first <= p.last && p.last - p.first + 1 < TWO32 && |p.chsFirst| == 3 && |p.chsLast| == 3
  }

  /** The sixteen bytes of an entry. */
  function PartBytes(p: Part): (b: seq<Byte>)
    requires SoundPart(p)
    ensures |b| == 16
  {
    [0] + p.chsFirst + [p.kind] + p.chsLast + LittleEndian32(p.first) + LittleEndian32(p.last - p.first + 1)
  }

  /** The byte range a reader of a sixteen-byte entry sees. */
  function RangeStart(b: seq<Byte>): nat
    requires |b| == 16
  {
    Read32(b, 8) * SECTOR
  }

  function RangeEnd(b: seq<Byte>): nat
    requires |b| == 16
  {
    (Read32(b, 8) + Read32(b, 12)) * SECTOR
  }

  /** CHS bytes that decode to the sector or saturate. */
  predicate ChsFor(chs: seq<Byte>, sector: nat) {
    && |chs| == 3
    && (sector < CHS_LIMIT ==> ChsSector(chs) == sector)
    && (sector >= CHS_LIMIT ==> chs == [0xfe, 0xff, 0xff])
  }

  /** The MBR entry denotes exactly the bytes of the GPT entry. */
  ghost predicate Denotes(b: seq<Byte>, e: GptEntry, lb: BlockSize) {
    && |b| == 16
    && RangeStart(b) == Base(e.start, lb) && RangeEnd(b) == Base(e.end + 1, lb)
    && MbrType(e.kind1, e.kind2) == b[4]
    && ChsFor(b[1..4], Read32(b, 8)) && ChsFor(b[5..8], Read32(b, 8) + Read32(b, 12) - 1)
  }

  /** Blocks counted in sectors. */
  function Sectors(blocks: nat, lb: BlockSize): nat {
    blocks * (lb / SECTOR)
  }

  lemma SectorBytes(blocks: nat, lb: BlockSize)
    ensures Sectors(blocks, lb) * SECTOR == Base(blocks, lb)
  {
  }

  /** Why an entry would be refused: outside the usable range or the medium, too far, or of unknown type. */
  predicate Convertible(e: GptEntry, h: Header, lb: BlockSize, lastBlock: int) {
    && e.start <= e.end
    && h.firstUsable <= e.start && e.end <= h.lastUsable && e.end <= lastBlock
    && Sectors(e.start, lb) < TWO32
    && Sectors(e.end - e.start + 1, lb) < TWO32
    && Sectors(e.start, lb) + Sectors(e.end - e.start + 1, lb) - 1 < TWO32
    && MbrType(e.kind1, e.kind2) != -1
  }

  function ConvertedEntry(e: GptEntry, h: Header, lb: BlockSize, lastBlock: int): (p: Part)
    requires Convertible(e, h, lb, lastBlock)
  {
    var first, count := Sectors(e.start, lb), Sectors(e.end - e.start + 1, lb);
    Part(first, first + count - 1, MbrType(e.kind1, e.kind2), Chs(first), Chs(first + count - 1))
  }

  lemma PartFields(p: Part)
    requires SoundPart(p)
    ensures Read32(PartBytes(p), 8) == p.first && Read32(PartBytes(p), 12) == p.last - p.first + 1
    ensures PartBytes(p)[4] == p.kind && PartBytes(p)[1..4] == p.chsFirst && PartBytes(p)[5..8] == p.chsLast
  {
    hide Read32, LittleEndian32;
    var b := PartBytes(p);
    assert b[8..12] == LittleEndian32(p.first) && b[12..16] == LittleEndian32(p.last - p.first + 1);
    Read32RoundTrip(p.first, b, 8);
    Read32RoundTrip(p.last - p.first + 1, b, 12);
  }

  /** What conversion writes for an entry denotes that entry's bytes, at every block size. */
  lemma ConversionDenotes(e: GptEntry, h: Header, lb: BlockSize, lastBlock: int)
    requires Convertible(e, h, lb, lastBlock) && ConvertedEntry(e, h, lb, lastBlock).first >= 63
    ensures SoundPart(ConvertedEntry(e, h, lb, lastBlock))
    ensures Denotes(PartBytes(ConvertedEntry(e, h, lb, lastBlock)), e, lb)
  {
    var p := ConvertedEntry(e, h, lb, lastBlock);
    SoundConversion(e, h, lb, lastBlock);
    PartFields(p);
    ChsDecodesOrSaturates(p.first);
    ChsDecodesOrSaturates(p.last);
    hide Read32, PartBytes, Chs, ChsSector, MbrType, Sectors;
    SectorBytes(e.start, lb);
    SectorBytes(e.end - e.start + 1, lb);
    assert Base(e.end + 1, lb) == Base(e.start, lb) + Base(e.end - e.start + 1, lb);
  }

  lemma SoundConversion(e: GptEntry, h: Header, lb: BlockSize, lastBlock: int)
    requires Convertible(e, h, lb, lastBlock) && ConvertedEntry(e, h, lb, lastBlock).first >= 63
    ensures SoundPart(ConvertedEntry(e, h, lb, lastBlock))
  {
    hide Chs, MbrType;
    MulMonotone(1, e.end - e.start + 1, lb / SECTOR);
  }
}
