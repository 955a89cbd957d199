/**
 The GUID partition table as it lies on a disk, and what section 5.3.2 of the UEFI
 Specification, version 2.11, requires of one before it may be used.
 */
module Gpt {
  import opened Bytes
  import opened Checksum
  import opened Blocks
  import opened DiskSpec

  const HEADER_BYTES: nat := 96
  const GPT_HEADER_SIZE: nat := 92
  const GPT_HEADER_CRC_OFFSET: nat := 16
  const GPT_MAX_ARRAY_SIZE: nat := 0x10_0000
  const ENTRY_BYTES: nat := 128

  const EFI_PART: seq<Byte> := [0x45, 0x46, 0x49, 0x20, 0x50, 0x41, 0x52, 0x54]

  datatype Header = Header(
    signature: seq<Byte>, revision: U32, headerSize: U32, crc: U32,
    myLba: U64, alternateLba: U64, firstUsable: U64, lastUsable: U64, guid: seq<Byte>,
    entryLba: U64, entryCount: U32, entrySize: U32, arrayCrc: U32)

  function ParseHeader(b: seq<Byte>): Header
    requires |b| == HEADER_BYTES
  {
    Header(b[..8], Read32(b, 8), Read32(b, 12), Read32(b, 16),
           Read64(b, 24), Read64(b, 32), Read64(b, 40), Read64(b, 48), b[56..72],
           Read64(b, 72), Read32(b, 80), Read32(b, 84), Read32(b, 88))
  }

  function ArraySize(h: Header): nat {
    h.entryCount * h.entrySize
  }

  /** Whole blocks the entry array occupies. */
  function ArrayBlocks(h: Header, lb: BlockSize): nat {
    (ArraySize(h) + lb - 1) / lb
  }

  function ArrayEnd(h: Header, lb: BlockSize): nat {
    h.entryLba + ArrayBlocks(h, lb)
  }

  /** The bytes from `loc` on of a header, with the checksum's own field zeroed. */
  function Zeroed(s: seq<Byte>, from: nat): (r: seq<Byte>)
    ensures |r| == |s|
    ensures forall i :: 0 <= i < |s| ==>
              r[i] == if GPT_HEADER_CRC_OFFSET <= from + i < GPT_HEADER_CRC_OFFSET + 4 then 0 else s[i]
  {
    seq(|s|, i requires 0 <= i < |s| =>
      if GPT_HEADER_CRC_OFFSET <= from + i < GPT_HEADER_CRC_OFFSET + 4 then 0 else s[i])
  }

  /** An entry's size is a power of two. */
  predicate PowerOfTwo(n: U32) {
    var b := n as bv32;
    b & (b - 1) == 0
  }

  /** A computed checksum against the field that stores it. */
  predicate Matches(crc: bv32, field: U32) {
    crc as int == field
  }

  /** The first three of the four checks: signature, header checksum, place. */
  ghost predicate HeaderVerified(d: Disk, h: Header, lba: nat, lb: BlockSize) {
    && h.signature == EFI_PART
    && Base(lba, lb) + h.headerSize <= |d|
    && Matches(Crc(Zeroed(Slice(d, Base(lba, lb), h.headerSize), 0)), h.crc)
    && h.myLba == lba
  }

  /** The fourth: the entry array lies on the disk and has the checksum the header states. */
  ghost predicate ArrayVerified(d: Disk, h: Header, lb: BlockSize) {
    && ArraySize(h) > 0
    && Base(h.entryLba, lb) + ArraySize(h) <= |d|
    && Matches(Crc(Slice(d, Base(h.entryLba, lb), ArraySize(h))), h.arrayCrc)
  }

  /** Blocks `first` up to but not including `end` avoid blocks `low` to `high`. */
  predicate Apart(first: nat, end: nat, low: nat, high: nat) {
    end <= low || high < first
  }

  /** The shape the installer insists on before it looks at the array's bytes. */
  predicate WellFormed(h: Header, lba: nat, lb: BlockSize, blocks: nat) {
    && h.revision == 0x1_0000
    && GPT_HEADER_SIZE <= h.headerSize <= lb
    && ENTRY_BYTES <= h.entrySize && PowerOfTwo(h.entrySize)
    && 0 < ArraySize(h) <= GPT_MAX_ARRAY_SIZE
    && h.firstUsable <= h.lastUsable
    // The array lies outside the usable range, and one behind it ends before the header.
    && Apart(h.entryLba, ArrayEnd(h, lb), h.firstUsable, h.lastUsable)
    && (h.entryLba > h.lastUsable ==> ArrayEnd(h, lb) <= lba)
    && (blocks != 0 ==> ArrayEnd(h, lb) <= blocks)
    && ArrayEnd(h, lb) < TWO64 && Base(h.entryLba, lb) < TWO64 && Base(lba, lb) < TWO64
  }
}
