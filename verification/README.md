# Limine, modelled in Dafny

A model of four parts of the Limine boot loader and of what they promise, for
`dafny verify dfyconfig.toml`.

* **The LIMLZ packer and its boot decoder** (`tools/limlzpack.c`,
  `stage1/decompressor.asm`). A range coder with delayed carry, an x86 branch
  filter, a token state machine with four remembered distances and a backwards
  optimal parse over hash chains. `RangeCoder`, `RangeEncoder`, `RangeRoundTrip`,
  `Symbols`, `SymbolEncoder`, `Tokens`, `TokenRoundTrip`, `BranchFilter*`,
  `ParseSpec`, `MatchFinder`, `Checksum` and `Packer` lead up to
  `Packer.Compress`: the boot decoder gives back every input, and the parse is
  the cheapest one.
* **The BIOS installer** (`host/limine.c`). `Blocks`, `DiskSpec`, `DeviceSteps` and
  `BlockDevice` model the one-block write-back cache and the undo journal over a
  medium whose transfers may fail; `InstallUndo` proves the undo over every sequence
  of writes and every list of failures, and `TornWrites` follows one torn write;
  `Gpt`, `GptSearch`, `PartitionTable`, `GptConvert` and `BiosInstall` follow one
  run of the installer from the search for a GPT to the final writes, up to
  `BiosInstall.Run`.
* **The boot menu and the entry editor** (`common/menu.c`). `MenuTree`, `MenuPath`,
  `MenuPathBuffer`, `Menu` and `MenuLoop` prove that paths and visible indices
  agree with one list of entries over every run of events; `EditorSpec` and
  `Editor` do the same for the text buffer, its layout and clicks on it.
* **Two streaming layers** (`common/crypt/blake2b.c`, `common/compress/gzip.c`):
  `Blake2b`, `HashingFile` and `GzipFile`.

How things are modelled:

* Bytes are integers 0 to 255; 32- and 64-bit fields are bounded integers, with
  wrap-around and overflow checks written out where the code has them.
* A structure that is updated in place is a class, its fixed buffers arrays. Ghost
  fields carry what it stands for: the steps coded so far, the text, the bytes
  hashed.
* A medium is an array of bytes. `faults` says of every transfer to come whether it
  completes or stops after some bytes; past its end, transfers inside
  the medium complete. "Without faults" means that no transfer listed stops
  (`Blocks.Steady`). `damage` collects the bytes reached by a write that stopped part
  way after its save. `DeviceSteps` says, as values, which state every operation leads
  to, so that the runs there are can be looked at one by one.
* The menu tree is a value; which directories are open, the cached duplicate
  numbers and the selection are state. An entry is named by the indices that lead
  to it, so two entries with the same name stay apart.
* The compression function of BLAKE2b is a parameter, and so is the gzip decoder: any
  function from the bytes fed to the bytes put out that more input only ever extends.
  How much the decoder asks for, how much the compressed file then gives and how much
  of what is ready comes out at once are parameters too. The results hold for all of
  them.

Where the code does not do what one might expect, the exact condition is proved:
`MenuPath.PathRoundTrip` (skipped directories and nameless children) and
`DiskSpec.UndoAfterTornWrite` (a write that fails after its save), with an example
of each (`MenuPath.SkippedDirectoryHides`, `TornWrites.TornInstall`). The torn write is
not undone exactly when its bytes got to the medium; `InstallUndo.UndoAll` and
`InstallUndo.Conclude` state the condition for whole undos, and `InstallUndo.Install`
that a write inside one block is never torn.

The model stores the uninstall data whenever an install succeeds, as the installer
does when it is given a file for it. A journal entry without bytes makes that store
fail, and the install is then undone, as in the code.

## Model

| member | source | states |
|---|---|---|
| RangeCoder.Bound | tools/limlzpack.c:124-136 | the bound of an adaptive bit leaves at least 2^16 of the range on both sides, because probabilities stay in 31..2017 |
| RangeCoder.Narrow | tools/limlzpack.c:124-136 | one coded bit only ever narrows the interval |
| RangeCoder.RunInStream | tools/limlzpack.c:101-136 | nesting: a byte string whose value lies in the interval after all steps lies in the interval after every earlier prefix of them |
| RangeCoder.LeadByteIsZero | tools/limlzpack.c:101-115 | every byte string inside the initial interval starts with a zero byte |
| RangeCoder.RefillMeetsNormalised | stage1/decompressor.asm:160-173 | one byte of refill mirrors one shift, and restores range >= 2^24 |
| RangeCoder.DecodeOpInStep | stage1/decompressor.asm:175-204 | a decoder in step with the coder reads the bit that was coded and stays in step: range, probabilities and code value - low agree |
| RangeCoder.DecodeOpsInStep | stage1/decompressor.asm:160-204 | the same for every sequence of modelled and direct bits |
| RangeRoundTrip.CodedBitsDecode | tools/limlzpack.c:437-439 | a byte string that spells the low end of the final interval decodes to exactly the coded bits, starts with 0, and leaves code value 0 at its very end |
| RangeRoundTrip.EncodeAll | tools/limlzpack.c:101-154 | for every sequence of (context, bit) steps and direct bits, the encoder followed by its five final shifts produces bytes from which the mirror decoder recovers that sequence and then is exactly at the end |
| RangeEncoder.RoomForCarryIsNoOverflow | tools/limlzpack.c:101-115 | the invariant kept by every step is equivalent to (cache*256^(pending-1) + 256^(pending-1) - 1)*2^32 + low + range <= 256^pending * 2^32, for every number of delayed bytes |
| RangeEncoder.ShiftKeepsRoom | tools/limlzpack.c:101-115 | under that invariant the carry is 0 or 1, never overflows the cached byte, and the invariant holds again after the shift |
| RangeEncoder.SettlingAddsCarry | tools/limlzpack.c:105-112 | writing out the cached byte and the delayed 255s with the carry added is adding the carry to the number they spell |
| RangeEncoder.ShiftScales | tools/limlzpack.c:101-115 | a shift multiplies bytes and low together by 256 |
| RangeEncoder.Encoder.constructor | tools/limlzpack.c:376-380 | a fresh encoder represents the empty sequence of steps |
| RangeEncoder.Encoder.Put32 | tools/limlzpack.c:95-99 | header fields are appended in little-endian order before any step |
| RangeEncoder.Encoder.ShiftLow | tools/limlzpack.c:101-115 | the bytes written, the delayed bytes and low together keep standing for the same number, scaled by 256, and no carry is lost |
| RangeEncoder.Encoder.Settle | tools/limlzpack.c:107-110 | writes the cached byte and every delayed byte with the carry |
| RangeEncoder.Encoder.Normalise | tools/limlzpack.c:117-122 | one shift always suffices to bring the range back to 2^24 |
| RangeEncoder.Encoder.Split | tools/limlzpack.c:124-136 | the interval and the probability become those of the specification step |
| RangeEncoder.Encoder.EncodeBit | tools/limlzpack.c:124-136 | keeps the whole invariant and appends one modelled bit to the steps represented |
| RangeEncoder.Encoder.EncodeDirect | tools/limlzpack.c:192-198 | keeps the whole invariant and appends one direct bit |
| RangeEncoder.Encoder.Flush | tools/limlzpack.c:437-439 | after five shifts no significant byte is pending: low, cache and the delayed bytes are all zero |
| RangeEncoder.Encoder.Finish | tools/limlzpack.c:437-439 | the bytes after the header spell, most significant first, exactly the low end of the interval of all steps, in shifts + 5 bytes |
| Symbols.TreeReadBack | tools/limlzpack.c:138-145 | a bit tree reads back its value, every context index staying below LIMLZ_PROBS |
| Symbols.ReverseReadBack | tools/limlzpack.c:147-154 | a reverse bit tree reads back its value |
| Symbols.DirectReadBack | tools/limlzpack.c:192-198 | direct bits read back |
| Symbols.LengthReadBack | tools/limlzpack.c:156-168 | every length from 2 to 273 reads back through its low, middle or high range |
| Symbols.SlotSplits | tools/limlzpack.c:171-188 | a distance is its slot base plus less than 2^(slot/2 - 1), and every 32-bit distance has a slot below 64 |
| Symbols.DistanceReadBack | tools/limlzpack.c:170-201 | every 32-bit distance reads back: slot, special, direct and align parts |
| Symbols.LiteralReadBack | tools/limlzpack.c:282-298 | a literal reads back in plain and in matched context, the decoder following the match byte as long as the coder did |
| SymbolEncoder.EncodeTree | tools/limlzpack.c:138-145 | emits exactly the tree steps |
| SymbolEncoder.EncodeReverse | tools/limlzpack.c:147-154 | emits exactly the reverse steps |
| SymbolEncoder.EncodeDirects | tools/limlzpack.c:192-198 | emits exactly the direct steps |
| SymbolEncoder.EncodeLength | tools/limlzpack.c:156-168 | emits exactly the length steps |
| SymbolEncoder.FindSlot | tools/limlzpack.c:171-181 | the loop that halves the distance finds its slot and its number of extra bits |
| SymbolEncoder.EncodeDistance | tools/limlzpack.c:170-201 | emits exactly the distance steps |
| SymbolEncoder.EncodeLiteral | tools/limlzpack.c:282-298 | emits exactly the literal steps |
| Tokens.FindRep | tools/limlzpack.c:388-394 | the first remembered distance equal to the one asked for, or 4 exactly when none of the four is |
| Tokens.TokenKeepsSound | tools/limlzpack.c:395-435 | over every token the state stays at most 11, and the front distance is at most the position once the position is not zero, so no copy reads before the start |
| Tokens.DecodeToken | stage1/decompressor.asm:206-402 | the decoder of one token only ever extends the output, within the declared size, and never copies from before its start |
| Tokens.DecodeTokens | stage1/decompressor.asm:206-402 | a token loop that succeeds has produced exactly the declared size |
| TokenRoundTrip.CopyRebuilds | stage1/decompressor.asm:376-397 | copying byte by byte, overlaps included, rebuilds a real match |
| TokenRoundTrip.MatchReadBack | tools/limlzpack.c:411-434 | repeat and new-match tokens read back: which distance, which length, which next state, which remembered distances |
| TokenRoundTrip.TokenRebuilds | tools/limlzpack.c:386-436 | decoding one token from a stream in step appends exactly the bytes the token stands for, with state and distances mirrored |
| TokenRoundTrip.TokensRebuild | tools/limlzpack.c:383-436 | decoding the whole token stream rebuilds the filtered data exactly, for every valid choice of matches |
| BranchFilter.SecondRound | tools/limlzpack.c:328-335 | the second round of the retry loop lands on the complement of the original shared bytes |
| BranchFilter.ShiftAvoidsExtreme | tools/limlzpack.c:320-335 | if the byte shared with an earlier opcode was neither 0 nor 255, a second round of the loop always ends it, and the byte is neither afterwards |
| BranchFilter.UnshiftUndoesShift | stage1/decompressor.asm:478-497 | subtracting the position undoes adding it, retry included, on all 25 significant bits |
| BranchFilter.CanonicalLow | tools/limlzpack.c:336-340 | sign-extending from bit 24 loses none of the 25 significant bits |
| BranchFilterInPlace.MoveOperand | tools/limlzpack.c:319-335 | the retry loop terminates within two rounds and computes the moved operand |
| BranchFilterInPlace.StoreOperand | tools/limlzpack.c:336-340 | the four operand bytes are replaced in place, the top byte canonicalised |
| BranchFilterInPlace.FilterInPlace | tools/limlzpack.c:300-351 | the in-place scan computes the filter |
| BranchFilterRoundTrip.SharedByteNotExtreme | tools/limlzpack.c:308-335 | when an operand is rewritten although an earlier opcode is remembered, the byte they share was neither 0 nor 255 |
| BranchFilterRoundTrip.FilteredKeepsWatched | tools/limlzpack.c:300-351 | rewriting never changes whether the top byte of a remembered earlier operand is extreme |
| BranchFilterRoundTrip.JudgeAgrees | stage1/decompressor.asm:447-477 | on filtered data the undoing scan makes the same decision at every position, although operands overlap |
| BranchFilterRoundTrip.FilterRoundTrip | tools/limlzpack.c:300-351 | undoing the filter gives back every byte array |
| Checksum.NibbleIsFourBits | tools/limlzpack.c:34-48 | one table step is four bit steps, for every 32-bit register |
| Checksum.NibbleCrc | tools/limlzpack.c:34-48 | the nibble-table checksum is the bitwise one on every byte string |
| Checksum.BitwiseUpdate | host/limine.c:705-716 | the bitwise loop computes the checksum register of the whole buffer |
| Checksum.UpdateConcat | host/limine.c:705-716 | a register carried over a cut is the register of the whole |
| ParseSpec.PriceMonotone | tools/limlzpack.c:227-233 | a farther match of the same length never costs less |
| ParseSpec.NoParseIsCheaper | tools/limlzpack.c:235-280 | no parse of any suffix, over the matches in reach, is cheaper than the recorded cost |
| ParseSpec.FollowCosts | tools/limlzpack.c:235-280 | following the choices from any position is a valid parse and costs exactly the recorded cost |
| ParseSpec.OptimalIsLeast | tools/limlzpack.c:235-280 | so the recorded cost is the least price of any parse of the suffix |
| MatchFinder.HashIsPair | tools/limlzpack.c:203-205 | two positions share a hash exactly when they share two bytes |
| MatchFinder.Finder.Insert | tools/limlzpack.c:207-213 | each chain links every position to the nearest earlier one with the same two bytes; no slot is read before it is written |
| MatchFinder.Finder.MatchLength | tools/limlzpack.c:215-225 | the greatest match length up to the limit |
| MatchFinder.Finder.PriceOfDistance | tools/limlzpack.c:227-233 | the price loop |
| MatchFinder.CoveredFarther | tools/limlzpack.c:264-275 | lengths already covered by a nearer match need not be tried again |
| MatchFinder.WalkIsEnough | tools/limlzpack.c:250-276 | a walk that stops at the chain limit, at the longest match or at the end of the chain has missed nothing |
| MatchFinder.Finder.BestAt | tools/limlzpack.c:245-276 | the chosen step is allowed and no allowed step at this position is cheaper |
| MatchFinder.Finder.Parse | tools/limlzpack.c:235-280 | the backwards dynamic program is optimal at every position |
| Packer.EncodeTokens | tools/limlzpack.c:383-436 | the token loop emits exactly the steps of the chosen tokens |
| Packer.CodedPartDecodes | stage1/decompressor.asm:103-145 | the coded part of a packed stream decodes to the filtered data, ending exactly |
| Packer.UnpackUndoesPack | stage1/decompressor.asm:103-541 | the boot decoder, with all its checks, accepts every packed stream whose data fits, returns exactly that data, and refuses it otherwise |
| Packer.Code | tools/limlzpack.c:376-439 | header and coded part have the packed layout |
| Packer.Compress | tools/limlzpack.c:353-444 | for every input the packed stream decodes back to that input, and the matches were chosen optimally |
| DiskSpec.UndoIsReplayReversed | host/limine.c:340-346 | undoing latest first is replaying the reversed journal |
| DiskSpec.UndoAt | host/limine.c:548-598 | byte by byte: what an entry covers is the same after an undo of any disk, and what none covers is left alone |
| DiskSpec.UndoAfterTornWrite | host/limine.c:524-529 | a write fails after its save and drops its entry: undoing on the medium it left, cache thrown away, gives the original back if and only if every byte the write reached, and no other entry covers, is on the medium what it was |
| DiskSpec.RecoverableOnMedium | host/limine.c:548-560 | undoing on the bare medium, with the dirty cache thrown away, restores every byte outside the damage of a torn write and leaves that damage as it is on the medium, so it gives the original back exactly when no damaged byte had reached the medium |
| DiskSpec.RecoverableAfterWrite | host/limine.c:489-546 | a journalled write keeps the original recoverable, whatever it overlaps and whatever was written back meanwhile |
| DiskSpec.RecoverableAfterTear | host/limine.c:524-541 | a write that stops part way damages exactly the bytes it reached that no entry covers; everything else stays recoverable |
| DiskSpec.FileRoundTrip | host/limine.c:354-465 | whatever could be stored loads back as it was |
| Blocks.NeverTheSentinel | host/limine.c:296-324 | no byte address lies in the sentinel block |
| Blocks.ShortChunkSpans | host/limine.c:518-541 | a write whose first chunk is not all of it spans two blocks of the device |
| Blocks.SectorDoesNotSpan | host/limine.c:518-541 | a write inside 512 aligned bytes never does, at any block size |
| Blocks.FinerReaches | host/limine.c:467-487 | what blocks of one size reach, smaller blocks reach too |
| BlockDevice.Device.constructor | host/limine.c:235-266 | after the first block is loaded the logical disk is the medium, with that block clean in the cache |
| BlockDevice.Device.LogicalIsOverlay | host/limine.c:226-233 | with a block cached, clean or dirty, the logical disk is the medium under that block |
| BlockDevice.Device.Flush | host/limine.c:268-294 | flushing never changes the logical disk, on success makes the medium equal to it, and for every fate of the transfer leaves exactly the bytes that transfer moved |
| BlockDevice.Device.CacheBlock | host/limine.c:296-324 | loading a block, or failing to, never changes the logical disk; the state afterwards is exactly that of a flush and a fetch with the fates they meet |
| BlockDevice.Device.ReadRaw | host/limine.c:467-487 | every read returns exactly the logical bytes; without faults it succeeds exactly when all its blocks are on the medium |
| BlockDevice.Device.WriteBytes | host/limine.c:518-541 | the write loop changes exactly the bytes it reports as written, and one that stops after some of them spans two blocks |
| BlockDevice.Device.WriteRaw | host/limine.c:489-546 | a write changes exactly its range, journals what it replaced, and keeps an entry only when it went through; the damage grows by exactly the bytes a failed write reached that no entry covers, and only a write over two blocks can do any |
| BlockDevice.Device.ReverseJournal | host/limine.c:340-346 | reverses the journal |
| BlockDevice.Device.WriteEntry | host/limine.c:559-576 | whatever fails on the way, an entry reported as written with no flush lost is on the logical disk, retry on an emptied cache included; state and both reports are exactly those of the steps taken |
| BlockDevice.Device.Uninstall | host/limine.c:548-598 | for every list of faults, true means the cache is clean and the medium is the replay of all entries on the bare medium; without faults it is true; the end state is exactly that of the steps taken |
| InstallUndo.Read | host/limine.c:467-487 | a read during an install keeps the original recoverable |
| InstallUndo.TryWrite | host/limine.c:489-546 | a write during an install keeps the original recoverable but for the bytes it damages, which it only does when it fails and spans two blocks of the device; after a failed one, undoing on the medium gives the original back exactly when no byte it reached, outside the entries, is there with a new value |
| InstallUndo.Write | host/limine.c:489-546 | a write of the installer proper: it may only be called while the journal has room, so the limit check never fires; inside one sector it never does damage |
| InstallUndo.Act | host/limine.c:600-610 | one read or write: succeeds, without faults, exactly when it stays on the medium and the journal has room; damages only bytes of a write over two blocks |
| InstallUndo.Perform | host/limine.c:600-610 | any sequence of overlapping reads and writes up to the first failure |
| InstallUndo.ReverseForUndo | host/limine.c:1802-1803 | after reversing, replaying the journal on the medium gives the original, but for the damage |
| InstallUndo.UndoAll | host/limine.c:548-598 | for every list of faults, an undo that reports success has put back every byte outside the damage and left the damage alone: the medium is the original exactly when the damaged bytes had not reached it; without faults it reports success |
| InstallUndo.FlushAll | host/limine.c:268-294 | the flush that ends an install |
| InstallUndo.Conclude | host/limine.c:1802-1820 | success stores a file that loads as the reversed journal; a failed install or a failed store is undone, and the outcome carries the undo's own result and what that result means |
| InstallUndo.StoredFileRestores | host/limine.c:354-397 | the stored file loads as entries that restore the original |
| InstallUndo.Install | host/limine.c:489-598 | for every sequence of writes and every list of faults: an install that completes wrote exactly what was asked and its file undoes it; any other whose undo reports success has every byte back except those a write over two blocks was torn in, so all of them if each write stays in one block; the undo reports success whenever no transfer left for it stops; without faults nothing is torn and the install completes exactly when the actions fit the medium and the journal and none writes nothing |
| InstallUndo.UninstallFromFile | host/limine.c:1116-1132 | a later run with any file, any block size and any faults: a file that does not load changes nothing, success means all entries are replayed, so with the file of an install the original is back byte for byte; without faults and with blocks no larger it succeeds |
| InstallUndo.FileReplays | host/limine.c:399-465 | the file of an install replays to the original on the medium it left |
| TornWrites.WriteStops | host/limine.c:489-541 | two bytes on either side of a block boundary, the write-back of the first block stopped after k bytes: one byte was written, and it is on the medium exactly when k is at least a block |
| TornWrites.TornInstall | host/limine.c:489-598 | such an install on a 1024-byte medium fails, its undo reports success, and the medium is restored exactly when k < 512 |
| GptSearch.BlockPresent | host/limine.c:870-886 | present exactly when the whole block is on the medium, address overflow included, and the probe of its last byte does not fail |
| GptSearch.LastBlock | host/limine.c:888-919 | doubling and bisection end on exactly size / block size - 1, for every size; failing probes only ever make the medium look shorter |
| GptSearch.HeaderCrc | host/limine.c:720-748 | the chunked header checksum is that of the whole header with its own field zeroed, for every size |
| GptSearch.ArrayCrc | host/limine.c:750-768 | the chunked array checksum is that of the whole array; success means every block of it could be read |
| GptSearch.ArrayPlaced | host/limine.c:821-854 | the branches on block numbers mean: outside the usable range, before its own header when behind it, and on the medium |
| GptSearch.VerifyHeader | host/limine.c:773-864 | accepts only a header that passes the four checks of section 5.3.2 of the UEFI Specification 2.11 with a well-placed array, and without faults accepts exactly those within budget; never sums more than it paid for |
| GptSearch.ProtectiveMbr | host/limine.c:922-936 | some entry of the MBR has type 0xEE |
| GptSearch.TryAt | host/limine.c:964-1008 | one place is accepted exactly when its header passes |
| GptSearch.Candidates | host/limine.c:976-996 | the last block comes before the claimed alternate, and a claim that is the last block is not tried twice |
| GptSearch.TryAll | host/limine.c:998-1009 | the first accepted candidate |
| GptSearch.TrySize | host/limine.c:955-1010 | for one block size: block 1, the last block, the claimed alternate; exact without faults |
| GptSearch.Locate | host/limine.c:943-1013 | a header is returned only if sound; at most 2 MiB of entry arrays are summed over the whole search; without faults the result is the first acceptable place of the plan |
| PartitionTable.ChsDecodesOrSaturates | host/limine.c:153-174 | CHS bytes decode back to the sector, or saturate exactly when the geometry cannot express it |
| PartitionTable.ConversionDenotes | host/limine.c:1247-1290 | the MBR entry of a converted partition denotes exactly the byte range of the GPT entry, at block sizes 512, 2048 and 4096 |
| GptConvert.Gather | host/limine.c:1215-1300 | the parts are exactly the entries in use, each expressible; a refusal means a fifth one or one that is not, and giving up that part of the array is off the medium |
| GptConvert.EraseBlocks | host/limine.c:1390-1403 | zeroes exactly the blocks given, one journal entry each, damages nothing else, and without faults succeeds exactly when the last of them is on the medium |
| GptConvert.AltReserve | host/limine.c:1325-1327 | at most 33 blocks for an alternate |
| GptConvert.PrimaryReserve | host/limine.c:1378-1388 | 2 to 34 blocks, always ending at or before sector 63 |
| GptConvert.ListAlternates | host/limine.c:1329-1340 | the alternate the header names and the one at the end of the medium as the probes find it |
| GptConvert.Settle | host/limine.c:1342-1376 | every erase is decided before the first, starts behind the usable range and covers every alternate that carries the signature; stopping means one of them lies in the usable range; without faults both are exact |
| GptConvert.WipesCover | host/limine.c:1342-1376 | every alternate that carries the signature is the last block of one of the erases |
| GptConvert.EraseTables | host/limine.c:1378-1404 | afterwards exactly the primary reserve, blocks 0 to PrimaryReserve - 1, and the settled ranges are zero and every other byte is as before; without faults this fails only if one of them is off the medium; torn writes damage only bytes being erased |
| GptConvert.SweptIsOutside | host/limine.c:1378-1404 | no byte between sector 63 and the end of the usable range is ever erased |
| GptConvert.CommittedIsClean | host/limine.c:1378-1439 | after a commit no partition byte has changed, and neither block 1 nor a wiped alternate carries the signature |
| GptConvert.AlternatesGone | host/limine.c:1329-1404 | with every alternate settled, neither the named nor the last one carries it |
| GptConvert.WriteId | host/limine.c:1409-1422 | the disk identifier is written byte by byte |
| GptConvert.WritePart | host/limine.c:1425-1434 | five writes fill one entry |
| GptConvert.WriteTable | host/limine.c:1409-1439 | the first sector holds exactly the parts, blank entries, identifier, boot signature and zeros |
| GptConvert.PlanConversion | host/limine.c:1170-1309 | the partitions to convert, or why not; without faults declining and stopping happen exactly for the reasons the code gives |
| GptConvert.Convert | host/limine.c:1158-1444 | all or nothing: a commit wrote the table of the declared partitions, erased exactly the old tables and left neither primary nor alternate header, in at most 125 journalled writes; without faults it is declined, stopped or committed exactly when the code's reasons say so |
| BiosInstall.CheckOne | host/limine.c:639-647 | one filesystem signature: absent, in the way, or zeroed by force |
| BiosInstall.ValidateOrForce | host/limine.c:635-693 | success means no known filesystem is recognised; without force nothing is written; with force only signature bytes are, at most five writes; without faults it succeeds exactly when the first 1082 bytes can be read and nothing is in the way or force is given |
| BiosInstall.CheckStart | host/limine.c:1481-1488 | an entry in use that starts below sector 63 stops the run |
| BiosInstall.CheckEntry | host/limine.c:1471-1488 | one entry: its status is legal or forced so, everything else stays |
| BiosInstall.CheckEntries | host/limine.c:1471-1542 | the four entries in turn |
| BiosInstall.CheckMbr | host/limine.c:1448-1566 | success leaves a signed table with legal statuses, an active entry, no low start and no filesystem in the way; without faults it succeeds exactly when the table it found passes or force makes up for it; never does damage |
| BiosInstall.ConvertedMbr | host/limine.c:1409-1566 | a freshly converted table passes every check but the one for a filesystem signature in the third sector that no erase reached |
| BiosInstall.Select | host/limine.c:1586-1650 | the partition asked for, or the first BIOS boot partition; without faults failing means there is none |
| BiosInstall.CheckPlacement | host/limine.c:1651-1735 | the chosen partition lies clear of both tables wherever the header claims they are, overlaps no other partition and has at least 32 KiB; without faults this is exact |
| BiosInstall.PreparePartition | host/limine.c:1586-1757 | stage 2 goes inside the chosen partition, of which only signature bytes are touched; without faults failing means no partition qualifies |
| BiosInstall.PrepareFound | host/limine.c:1158-1765 | with a header found: the conversion and the checks of its table, or a partition, and exactly when each of them succeeds |
| BiosInstall.DamageSparesPartitions | host/limine.c:1378-1795 | a torn write only ever damages the gap or partition stage 2 goes to or a table being erased, so never another partition |
| BiosInstall.Prepare | host/limine.c:1134-1765 | everything before the final writes, on each of the three routes, and why that route; without faults it succeeds exactly when the disk offers a place for stage 2, and that place is the one found |
| BiosInstall.PatchedIs | host/limine.c:1767-1795 | after the final writes the boot sector and stage 2 are the image's, table and timestamp are the disk's, the sector says where stage 2 is, and nothing else changed |
| BiosInstall.FinalWrites | host/limine.c:1767-1795 | exactly those five writes; without faults refused exactly when stage 2 does not fit its place or the medium |
| BiosInstall.ConvertedIsSafe | host/limine.c:1158-1444 | after a conversion every partition's bytes are kept and the table denotes it; behind the boot sector and outside stage 2 exactly the old tables are erased, and no header is left unless stage 2 lies over it |
| BiosInstall.PartitionIsSafe | host/limine.c:1586-1795 | on a GPT disk only the boot sector and the chosen partition change |
| BiosInstall.FinishedIsSafe | host/limine.c:1767-1795 | on each route the finished disk is bootable and no partition has lost a byte |
| BiosInstall.NoAlternateIsLeft | host/limine.c:1329-1404 | on a finished converted disk neither the named nor the last alternate header is left |
| BiosInstall.PlacedOnce | host/limine.c:1566-1765 | a disk and the options determine where stage 2 goes |
| BiosInstall.WriteAll | host/limine.c:1134-1797 | everything a run writes, flushed; without faults it gets to the end exactly when Completes says so, on the route and at the place that Routed and Placed read off the original disk |
| BiosInstall.Run | host/limine.c:1134-1820 | a whole run with any faults: at most 141 journalled writes of 256; a completed install is bootable, spares every partition, left no old table and stored a file that undoes it, with one entry per write; any other whose undo reports success has every byte back outside the damage of a torn write, which is never in another partition; the undo succeeds whenever no transfer left for it stops; without faults there is no damage, the run completes exactly when the search, the tables and the sizes on the disk allow it, and then by the route the search gives and with stage 2 at the one place the disk offers |
| MenuTree.ToggleKeepsFront | common/menu.c:2380-2383 | opening or closing a listed directory leaves the list up to and including it alone |
| MenuTree.VisibleFrame | common/menu.c:986-1000 | only directories inside a part of the tree matter to what is listed of it |
| MenuTree.VisibleValid | common/menu.c:986-1000 | every listed entry is one of the tree's, and neither it nor a directory it lies in is skipped |
| MenuPath.DecimalOfDigits | common/menu.c:1065-1078 | decimal printing and reading undo each other |
| MenuPath.ParseUndoesComponent | common/menu.c:1221-1284 | parsing a printed component gives back name and duplicate number, whatever characters the name has |
| MenuPath.PicksOne | common/menu.c:1301-1329 | at most one sibling bears a name with a given number of shown namesakes before it |
| MenuPath.LookupIsShown | common/menu.c:1289-1341 | a lookup only ever ends on an entry that is shown, as deep as the path has components |
| MenuPath.PathRoundTrip | common/menu.c:1050-1083 | the printed path of an entry finds that entry if and only if neither it nor a directory on the way is skipped, and it is at the top level or prints as something |
| MenuPath.NamedPrints | common/menu.c:1025-1048 | an entry with a non-empty name always prints as something |
| MenuPath.SkippedDirectoryHides | common/menu.c:1301-1305 | an entry inside a skipped directory is not found by its path although it is not skipped itself |
| MenuPath.NamelessChildIsLost | common/menu.c:1289-1316 | the path of a nameless child names its directory instead |
| MenuPathBuffer.EscapeName | common/menu.c:1025-1048 | always terminated and inside the buffer, and complete whenever it fits |
| MenuPathBuffer.CollectDigits | common/menu.c:1065-1074 | the digits, least significant first |
| MenuPathBuffer.WriteSuffix | common/menu.c:1065-1078 | the duplicate number, complete whenever it fits |
| MenuPathBuffer.MeasureComponent | common/menu.c:1225-1247 | the first pass measures exactly the name the second pass writes |
| MenuPathBuffer.ParseComponent | common/menu.c:1221-1284 | the two-pass parser, within the buffer it measured, computes the parse |
| Menu.Menu.SiblingDupIndex | common/menu.c:1004-1021 | the cached duplicate number is the number of shown namesakes before the entry |
| Menu.Menu.EntryPath | common/menu.c:1050-1083 | the path printer: always terminated, and the whole path whenever it fits |
| Menu.Menu.CountVisible | common/menu.c:986-1000 | counts exactly the entries on show |
| Menu.Menu.Find | common/menu.c:1289-1341 | finds what the path names, opens exactly the directories on the way when asked to, and returns the entry's index in the list with those open |
| Menu.Menu.Walk | common/menu.c:1363-1462 | counts the entries on show, prints exactly those of the window in order, and selects the entry whose index is asked for |
| Menu.EmittedIsSlice | common/menu.c:1394-1399 | the lines printed are the slice of the list inside the window |
| MenuLoop.SelectByPath | common/menu.c:1346-1361 | print, look up and walk: the walk selects the very entry, and found index, walk count and plain count agree |
| MenuLoop.RowToEntry | common/menu.c:1645-1656 | maps a row to an index exactly when a line of the window is there |
| MenuLoop.Screen.RowsMatch | common/menu.c:1645-1656 | row to index inverts the placement of printed entries |
| MenuLoop.Screen.Scroll | common/menu.c:2119-2124 | the new offset exactly: the least scrolling that brings the selection into the window |
| MenuLoop.NoScrollIsLess | common/menu.c:2119-2124 | no offset that shows the selection is nearer to the old one |
| MenuLoop.Screen.Draw | common/menu.c:2148-2172 | after drawing, selection, window, selected entry and lines agree with the list |
| MenuLoop.Screen.Refresh | common/menu.c:2116-2172 | every redraw shows the selection inside the window |
| MenuLoop.Screen.Open | common/menu.c:2036-2041 | a default past the end falls back to the first entry |
| MenuLoop.Screen.Toggle | common/menu.c:2380-2383 | the selected directory is opened if it was closed and closed if it was open, and stays selected |
| MenuLoop.Screen.ActivateSelected | common/menu.c:2373-2385 | a directory is toggled and stays selected; anything else is a leaf of the list on show and boots |
| MenuLoop.Screen.HandleWheel | common/menu.c:2338-2349 | the wheel clamps at both ends |
| MenuLoop.Screen.HandleMove | common/menu.c:2362-2369 | hovering a line selects its entry |
| MenuLoop.Screen.HandleMouse | common/menu.c:2332-2373 | clicking a line activates the entry drawn there, opening or closing it if it is a directory; nothing else changes which directories are open |
| MenuLoop.Screen.HandleClick | common/menu.c:2351-2361 | a click on a drawn line activates its entry, and one elsewhere changes nothing |
| MenuLoop.Screen.HandleArrow | common/menu.c:2316-2331 | arrows wrap around, home and end jump |
| MenuLoop.Screen.HandleDigit | common/menu.c:2305-2315 | a digit activates the entry it counts to, or changes nothing |
| MenuLoop.Screen.Handle | common/menu.c:2304-2383 | what each event makes of selection, scroll position and open directories; an activated directory is toggled, and only a leaf on show boots |
| MenuLoop.Screen.Run | common/menu.c:2277-2383 | over every run of events selection, scroll position, open directories and what boots are what the events make of them one after the other; the invariant of the screen holds, and only a leaf on show boots |
| EditorSpec.BelowIsNextLine | common/menu.c:350-365 | moving down lands on the next line in the same column or at its end |
| EditorSpec.AboveUndoesBelow | common/menu.c:350-378 | moving up again comes back whenever the line below is long enough |
| EditorSpec.PlaceIsReference | common/menu.c:597-727 | walking cell by cell puts every offset on the row counted line by line: wraps, tabs and newlines, no window involved |
| EditorSpec.SpotsIncrease | common/menu.c:597-727 | the text is laid out in reading order |
| EditorSpec.LastStartIs | common/menu.c:472-487 | the last offset that starts at or before a cell is the one whose successor starts after it |
| EditorSpec.ClickOnOffset | common/menu.c:472-487 | a click on an offset's own cell finds it |
| EditorSpec.ClickInsideTab | common/menu.c:472-487 | a click anywhere in the cells of a tab finds the tab |
| EditorSpec.ClickPastLineEnd | common/menu.c:472-487 | a click past the last cell of a line finds the end of the line |
| Editor.Editor.constructor | common/menu.c:500-533 | leading newlines are dropped and the text is terminated |
| Editor.Editor.LineOffset | common/menu.c:330-342 | the start of the line |
| Editor.Editor.LineLength | common/menu.c:344-348 | up to the end of the line |
| Editor.Editor.NextLine | common/menu.c:350-365 | one line down |
| Editor.Editor.PrevLine | common/menu.c:367-378 | one line up |
| Editor.Editor.Insert | common/menu.c:885-898 | shifting in place is inserting into the text; refused when full or not acceptable |
| Editor.Editor.DeleteAtCursor | common/menu.c:853-860 | shifting in place is removing from the text |
| Editor.Editor.Press | common/menu.c:822-899 | what every key makes of text and cursor, the buffer staying terminated |
| Editor.Editor.TurnWheel | common/menu.c:799-806 | so many lines up or down |
| Editor.TypingIsUndone | common/menu.c:850-898 | backspace takes back what was typed, and so does left and delete |
| Editor.Editor.DrawCharacter | common/menu.c:648-726 | the cells of one character or tab, in the window or not |
| Editor.Editor.Draw | common/menu.c:597-727 | rows do not depend on the window; the cursor counts as shown exactly when its row is inside; every offset on show is in its cell, the first cell of every row is drawn, and each drawn cell holds the offset it belongs to |
| Editor.Editor.Refresh | common/menu.c:729-740 | a redraw repeats at most once and then shows the cursor; the window moves exactly as little as that takes |
| Editor.Editor.CellToOffset | common/menu.c:473-487 | the nearest drawn cell at or left of the click |
| Editor.NearestLands | common/menu.c:473-487 | the nearest drawn cell at or left of a click holds the last offset that starts at or before the click in reading order |
| Editor.Editor.Click | common/menu.c:808-814 | the cursor goes to the last offset that starts at or before the clicked cell in reading order, and stays for a click left of the text, below it or outside the window |
| Editor.Editor.Handle | common/menu.c:794-901 | what one event, key, wheel or click, makes of text, cursor and window |
| Editor.Editor.Run | common/menu.c:538-901 | over every run of keys, wheel turns and clicks: cursor <= length <= 4095, terminated, cursor on screen, and text, cursor and window are what the events make of them one after the other |
| Blake2b.Hasher.constructor | common/crypt/blake2b.c:150-166 | the initial chain is that of section 3.3 of RFC 7693 |
| Blake2b.CounterStep | common/crypt/blake2b.c:77-80 | the two-word addition with carry is addition modulo 2^128 |
| Blake2b.Hasher.Increment | common/crypt/blake2b.c:77-80 | the same, on the state |
| Blake2b.Hasher.CompressBlock | common/crypt/blake2b.c:180-181 | a block that is not the last is compressed with the bytes so far |
| Blake2b.Hasher.CompressRun | common/crypt/blake2b.c:186-192 | compresses straight from the input while more than one block is left |
| Blake2b.Hasher.Overflow | common/crypt/blake2b.c:176-193 | completes the buffered block first |
| Blake2b.Hasher.Update | common/crypt/blake2b.c:168-197 | keeps: all blocks but the last compressed, 1 to 128 bytes buffered, counter equal to the bytes compressed; after the digest was taken it keeps the buffer in bounds |
| Blake2b.Hasher.Final | common/crypt/blake2b.c:199-213 | the digest of section 3.3 of RFC 7693 over everything hashed |
| Blake2b.Hash | common/crypt/blake2b.c:215-221 | one shot |
| Blake2b.HashPieces | common/crypt/blake2b.c:168-213 | for every way of splitting an input, the digest is that of the whole |
| HashingFile.Handle.Read | common/crypt/blake2b.c:235-245 | returns the bytes in order and hashes exactly those; anything but a sequential read is refused; a read after the digest was taken leaves it alone |
| HashingFile.Handle.CheckHash | common/crypt/blake2b.c:280-290 | compares the digest of what was read, and again the same when asked twice |
| HashingFile.CheckFile | common/crypt/blake2b.c:223-290 | a file read to its end in any portions is accepted exactly when its digest is the reference |
| GzipFile.Handle.SourceRead | common/compress/gzip.c:31-39 | hands the compressed bytes out in order, never past the end, and none only at the end |
| GzipFile.Handle.Inflated | common/compress/gzip.c:28-39 | the decoder, fed exactly the file up to the recorded position, gives the next bytes of what the whole file decodes to, however small the pieces in which it asks for input and puts out bytes, and none only at its end |
| GzipFile.Handle.Reset | common/compress/gzip.c:44-49 | starts over with the decoder and both positions at 0 |
| GzipFile.Handle.Seek | common/compress/gzip.c:53-65 | reaches exactly the locations inside the stream |
| GzipFile.Handle.Read | common/compress/gzip.c:51-79 | a read anywhere returns that slice of what the whole file decodes to, cut off at its end; source position and decoder stay in step |
| GzipFile.ReadAll | common/compress/gzip.c:51-79 | the same for every sequence of reads in any order |

## Left out

- The BLAKE2b round function and the gzip decoder itself: parameters, since their values are not the point.
- Allocation failures of the packer, its file handling and its refusal of sizes that overflow size_t.
- `device_init`'s choice of a block size, `fseek` stepping, messages and argument parsing of the installer; the requested partition number arrives as a number.
- Whether the image is an ISO 9660 file system (`iso9660_has_pvd`) is an input of `BiosInstall.Run`.
- An install without a file for uninstall data, which ends without storing the journal.
- `enroll_config`'s signature search, `version` and the other host commands: short scans without state.
- Media of more than 2^63 bytes.
- The menu tree as linked nodes: the model has it as a value, so aliasing of nodes is not captured; cached skip flags are given per entry.
- Menu.Menu.EntryPath: the sixteen-byte digit scratch buffer is not modelled, so duplicate numbers of seventeen digits are treated like any other.
- `strtoui` is decimal parsing without overflow.
- Boot loader interface identifiers, timeouts, colours, branding, help text and the width-dependent truncation of printed names.
- The menu on a terminal with fewer than nine rows more than its header, where the window arithmetic of the source wraps around.
- Syntax highlighting and validation of editor lines; frames and arrows around the text.
- Leaving the editor (F10, ESC) and the menu keys that open it, a blank entry, the firmware setup or a shell.
- The editor panics on an entry that does not fit its buffer; the model constructs an editor only for one that does.
- GzipFile.Handle.Read: a decoder that reports an error makes the source panic, so decoders that fail are not modelled; the compressed file gives at least one byte of what is asked for while it has any.
- UEFI variables, BIOS interrupts, TPM measurements, drivers and the loaders for each boot protocol.
