# libudfread: a verified model

libudfread reads UDF (ECMA-167) volumes. This project models its four intricate parts in Dafny
and proves what its headers and documentation promise of them.

* **Byte streams over files** (`FileMap`, `Stream`, `FileBytes`). A file handle keeps a position and a one-block
  buffer. `Stream.UdfFile` has the same fields and loops as `UDFFILE`; the block device is
  `Stream.BlockInput`, which may fail or deliver fewer blocks than asked at every call. Every run of
  seeks and reads is shown to be a run of the abstract stream (contents, position), although the flag
  that says the buffer is valid stays set over a buffer that is out of date.
* **The lock-free directory cache** (`PathLookup`, `DirCache`, `DirCacheSteps`, `DirCacheRuns`,
  `DirCacheTheorems`, `CleanTree`). `_find_file` and `_cache_subdir` are a step system: any number of
  threads, any interleaving, one access to shared memory per step, compare-and-swap as one step, memory
  and read errors at any point. One invariant is kept by every step. From it follow immutability of
  what is published, one result per slot, transparency of the cache, one owner per allocation and the
  absence of waiting. `CleanTree` closes the volume after such a run and accounts for every allocation.
* **On-disc parsers** (`Bytes`, `Records`, `Ecma167`, `FileEntries`, `AdChain`, `OpenedFiles`, `Cs0`,
  `Directories`, `RecordedFiles`, `DiscLookup`): little-endian fields, descriptor tags, the three forms of allocation descriptors, file
  entries and the chains of extents they continue in, OSTA compressed unicode, directory files. Layout
  predicates say how ECMA-167 records a structure; decoding is shown to invert them.
* **Volume descriptors, partition maps, mirrored metadata** (`VolumeDescriptors`, `RecordedVolume`,
  `PartitionMaps`, `RecordedMaps`, `Metadata`): the search that follows pointers and stops early is a pass over a flat list of
  descriptors; the metadata reader falls back to a mirror block by block.

`FileBytes`, `RecordedFiles`, `RecordedVolume`, `RecordedMaps` and `DiscLookup` say the same things from the
outside: from bytes laid out as the standards say, at absolute addresses of the disc, to what the readers
deliver, without naming a decoder. They do not depend on how the readers are written.

C code that works in place is imperative here too: methods on classes or arrays, with the loops of the
source, each proved equal to a function whose properties the lemmas state.

Where the code and its documentation disagree, the code is followed:

* src/udf_fs.c:351-352 says that a pointer which cannot be followed stays in the list of allocation
  descriptors; line 328 has dropped it before any failure can occur (`AdChain.FollowExtents`), and reading the file
  past that point gives zeros instead of an error (`OpenedFiles.ReadPastLostExtent`).
* src/udf_volume.c:269 says that the primary volume descriptor may be missing when reading succeeds; by
  line 169 it is required, and it is the logical volume descriptor that may be missing
  (`VolumeDescriptors.SucceedsIffListed`).
* src/udfread.c:799-801 gives 2^32 blocks as the largest file; the 32-bit block count of line 769 is
  already zero for the last 2047 lengths below that (`Stream.FileBlocksExact`), and a file of such a
  length with a hole cannot be read there (`Stream.WholeIff`, `Stream.SparseFileFails`).
* src/udf_fs.c:73 gives U+07FF three bytes where standard UTF-8 has two (`Cs0.ShortestIff`).

## Model

| member | source | states |
|---|---|---|
| `FileMap.FileLba` | src/udfread.c:685-725 | the address is the one the laid-out block map gives (0 for a hole or past the last descriptor), and the run reaches exactly to the end of that extent |
| `FileMap.ExtentIsConsecutive` | src/udfread.c:685-725 | from a mapped block to the end of its extent, the blocks are at consecutive addresses that stay below 2^32, unless the address sum of a block inside the extent wraps to 0 |
| `FileMap.RunsAgreeIff` | src/udfread.c:685-725 | every run that can be reported agrees with its blocks taken one by one if and only if no block after the first of a recorded extent has an address sum that wraps to 0 |
| `FileMap.ZeroInsideDisagrees` | src/udfread.c:704-718 | each such block makes the run from the block before it disagree |
| `FileMap.WrappedBlockLooksLikeAHole` | src/udfread.c:718 | a concrete extent for which they disagree: its second block wraps to address 0 and is a hole when mapped singly, but lies inside the run from the first |
| `Stream.FileBlocksExact` | src/udfread.c:769 | for lengths below 2^43, the 32-bit block count equals the true one if and only if the length is at most 2^43 - 2048, and is 0 above |
| `Stream.WholeIff` | src/udfread.c:766-776 | for every length below 2^43, all blocks of the file can be read if and only if the length is at most 2^43 - 2048 or the file has no hole |
| `Stream.SparseFileFails` | src/udfread.c:766-776 | a concrete sparse file of the greatest documented length: a read of its first byte returns -1 although the input is not even called |
| `Stream.ChunkBytesExact` | src/udfread.c:828-829 | the 32-bit byte count of a chunk is right if and only if the chunk has fewer than 2^21 blocks; at 2^21 it is 0 |
| `Stream.BlockInput.Read` | src/blockinput.h:59-73 | the contract of a block input: any call may fail or come up short; what it delivers are the first blocks asked for, and nothing outside the target is touched |
| `Stream.BlockInput.ReadBlocks` | src/udfread.c:73-86 | negative results become 0, and so does a count that is negative as an int; what is delivered is a run of the disc |
| `Stream.UdfFile.constructor` | src/udfread.c:603-630 | a new handle is at position 0 with no buffer; it satisfies the invariant if runs agree with single blocks and the length is below the documented limit |
| `Stream.UdfFile.ReadBlocks` | src/udfread.c:744-791 | the i blocks delivered are exactly the i blocks that the file map gives one at a time, holes as zeros, as long as offsets into the buffer and block numbers have not wrapped; for any count it stops early only at a block that is unmapped and past the counted length, or on a failed read |
| `Stream.UdfFile.ReadExtent` | src/udfread.c:759-789 | one turn of the loop: a zero block for a hole, part of one extent otherwise; 0 only for one of those two reasons |
| `Stream.UdfFile.FillBuffer` | src/udfread.c:808-810 | on success the buffer holds the block at the position; it fails only if a read has failed, and the buffer may then hold anything, or if the block is refused, and the input is then not called |
| `Stream.UdfFile.CopyAndAdvance` | src/udfread.c:813-818 | copying out of a buffer that holds the block at the position delivers file bytes, and leaves the buffer usable or the position at a block start |
| `Stream.UdfFile.ReadRestOfBlock` | src/udfread.c:803-819 | inside a block: the next bytes of the file; if the flag is set they come without a call to the input and without failing, whatever happened to the buffer before |
| `Stream.UdfFile.ReadWholeBlocks` | src/udfread.c:821-830 | whole blocks go straight to the caller, the buffer and its flag stay as they were, and the invariant still holds; the position moves by the 32-bit byte count |
| `Stream.UdfFile.ReadStartOfBlock` | src/udfread.c:832-839 | at a block start: a failed refill leaves a stale buffer with the flag set, and the invariant still holds |
| `Stream.UdfFile.ReadChunk` | src/udfread.c:797-840 | -1, nothing moved and a block that cannot be read; or, where the byte count cannot wrap, 1 to `bytes` bytes of the file from the position on; an aligned chunk is counted as the 32-bit product of its blocks unless one of them cannot be read |
| `Stream.UdfFile.CountableIff` | src/udfread.c:821-829 | the guard on the request, 2^32 bytes after the first block boundary, is exact: the chunk that starts there is counted rightly if and only if the guard holds |
| `Stream.TurnsWithoutProgress` | src/udfread.c:904-917 | with 2^32 bytes left from a block start, any number of turns of the loop leave position and remaining count as they were, although the input never fails and all the bytes are delivered |
| `Stream.UdfFile.ReadChunks` | src/udfread.c:904-919 | the pieces join up to one stretch of the file; -1 only if nothing was read; fewer bytes than wanted only if the block it stopped at cannot be read |
| `Stream.UdfFile.ReadInline` | src/udfread.c:842-864 | embedded data, cut or padded with zeros to the file's length, for any relation of recorded length, file length and position |
| `Stream.UdfFile.FileRead` | src/udfread.c:869-920 | a read is a step of the abstract stream, for every length below 2^43: -1 moves nothing; n > 0 delivers contents[pos..pos+n]; 0 on a non-empty request only at or past the end; unless the block it stops at is refused or a read failed, n = min(bytes, length - pos); a refused block at the position gives -1 without a call to the input |
| `FileBytes.AddressIs` | src/udfread.c:685-725 | block j of a descriptor is at (partition start + lba + j) modulo 2^32 if the descriptor has type 0 and an lba other than 0, and nowhere otherwise |
| `FileBytes.ContentsAre` | src/udfread.c:685-791 | every byte of a file, from the descriptors and the disc: that byte of the block at that address, zero for other types, for address 0 and past the last descriptor; embedded data padded with zeros |
| `FileBytes.ReadBytes` | src/udfread.c:869-920 | a read delivers those bytes from the position on; without failures as many as were asked for and exist, in plain numbers |
| `Stream.UdfFile.FileSeek` | src/udfread.c:930-956 | a seek is a step of the abstract stream: to the offset, to position or length plus offset; negative targets and unknown origins change nothing |
| `Stream.Run` | src/udfread.c:869-956 | any run of seeks and reads on any handle is a run of the abstract stream, whatever the input answers; it has no short or failed read if no input call failed and all blocks of the file can be read |
| `Stream.ReadsAreContiguous` | src/udfread.c:869-920 | however reading is cut into calls that fail or come up short, the pieces are one stretch of the file without gap or repetition; without failures it ends where one big read would |
| `PathLookup.Scan` | src/udfread.c:275-287 | the first entry of that name, or none has it |
| `PathLookup.ScanDir` | src/udfread.c:275-287 | the loop finds what `Scan` defines |
| `PathLookup.TokensOfSpelling` | src/udfread.c:308-321 | splitting recovers the path components from any spelling, whichever and however many separators stand before, between and after them |
| `DirCacheSteps.NewArrayKeeps` | src/udfread.c:245 | allocating a slot array keeps the tree's shape, the allocation count, everything published and what other threads hold |
| `DirCacheSteps.PublishArrayKeeps` | src/udfread.c:250 | so does the first compare-and-swap when it succeeds, and the directory now has that array |
| `DirCacheSteps.FreeArrayKeeps` | src/udfread.c:251 | so does freeing the array of a thread that lost |
| `DirCacheSteps.NewNodeKeeps` | src/udfread.c:256 | so does allocating a node |
| `DirCacheSteps.FillNodeKeeps` | src/udfread.c:261 | so does reading a directory into a private node |
| `DirCacheSteps.PublishNodeKeeps` | src/udfread.c:266 | so does the second compare-and-swap when it succeeds, given a node faithful to the entry, and the slot now has that node |
| `DirCacheSteps.FreeNodeKeeps` | src/udfread.c:262-268 | so does freeing a private node with its entries |
| `DirCacheRuns.WaitingThreadStaysOk` | src/udfread.c:238-273 | a step of one thread leaves true what every other thread relies on |
| `DirCacheRuns.ReturnIsTrue` | src/udfread.c:272 | what a call tells its caller is true of the shared tree, and holds on to nothing |
| `DirCacheRuns.TurnIsTrue` | src/udfread.c:313-336 | a turn of the token loop stays on the course of the walk that reads every directory again |
| `DirCacheRuns.StepKeepsInv` | src/udfread.c:238-354 | every step of every thread keeps the invariant, and what is published only grows; compare-and-swap as in src/udf_atomic.h is one step |
| `DirCacheTheorems.PublishedNeverChanges` | src/udfread.c:238-273 | in every run, a published slot array, an occupied slot and the entries of a published directory never change again |
| `DirCacheTheorems.SameSubdirectoryForAll` | src/udfread.c:238-273 | all non-NULL returns for the same directory and index, in any threads, are the same node |
| `DirCacheTheorems.WhenSubdirectoryFails` | src/udfread.c:238-273 | past the second compare-and-swap a call never returns NULL; it does so only for a non-directory, an unreadable directory, or lack of memory or a read error in that very call |
| `DirCacheTheorems.HitIsReused` | src/udfread.c:244-272 | a directory found in its slot is neither allocated nor read again: the call changes nothing in memory and returns it |
| `DirCacheTheorems.CacheIsTransparent` | src/udfread.c:292-354 | a path without components gives the root directory, and fails for a caller that wants a file identifier; any other path gives the success, identifier and entries of a walk over its components that re-reads every directory, in every run, unless it fails and that call met trouble; what is found has an identifier |
| `DirCacheTheorems.CalmLookupsWalk` | src/udfread.c:292-354 | in every run in which no allocation and no read fails, every lookup gives what the walk gives, whatever the interleaving |
| `DirCacheTheorems.CachedIsFaithful` | src/udfread.c:255-272 | every cached directory holds what its icb reads as |
| `DirCacheTheorems.CallsAreWaitFree` | src/udfread.h:54-58 | each own step brings a call closer to its end whatever the others do: at most 13 inside one `_cache_subdir` |
| `DirCacheTheorems.EveryCallEnds` | src/udfread.h:54-58 | in every schedule that gives a thread the steps its call has left, the call ends, whatever the other threads do in between |
| `DirCacheTheorems.OneOwner` | src/udfread.c:245-269 | whatever is in memory is owned by exactly one of the volume, a directory, a slot or a thread; what is not is owned by none |
| `DirCacheTheorems.FreedAtMostOnce` | src/udfread.c:245-269 | every allocation is in memory or freed, never both, never twice |
| `CleanTree.UnderChild` | src/udfread.c:102-107 | what hangs below the child in slot j is exactly what hangs below the parent through slot j: the recursion of `_clean_tree` is a partition |
| `CleanTree.Volume.CleanEntries` | src/udf_fs.c:129-141 | the entry array and every name in it is freed once, the pointer is NULL afterwards |
| `CleanTree.Volume.FreeSlot` | src/udfread.c:103-107 | the child in a slot is freed with everything below it and with nothing else, and the slot is NULL |
| `CleanTree.Volume.FreeSlots` | src/udfread.c:102-110 | all slots, then the slot array: everything below the node is gone, everything else is as it was |
| `CleanTree.Volume.CleanTree` | src/udfread.c:97-114 | exactly what hangs below the node is freed, every block once, and the node is bare |
| `CleanTree.Volume.Close` | src/udfread.c:445-459 | from any tree at rest: nothing is left in memory and what was freed is what was allocated |
| `CleanTree.CloseAfterRun` | src/udfread.c:445-459 | at any point of any run at which all calls have returned, closing frees every allocation ever made exactly once |
| `CleanTree.IdleIsQuiet` | src/udfread.h:54-58 | once all calls have returned, no thread holds memory: what `udfread_close` demands of its caller is enough |
| `Bytes.ReadBack32` | src/ecma167.h:63-66 | a 32-bit value recorded least significant byte first reads back, wherever it stands |
| `Bytes.ReadBack64` | src/ecma167.h:68-71 | likewise for 64 bits |
| `Bytes.LittleEndian` | src/ecma167.h:53-71 | 16, 32 and 64 bit fields as sums of their bytes, the least significant first |
| `Ecma167.DecodeDescriptorTag` | src/ecma167.c:76-99 | the 8-bit running checksum agrees with the plain sum modulo 256 over all tag bytes but the fifth |
| `Ecma167.TaggedIff` | src/ecma167.c:76-99 | a tag is accepted and has a given identifier if and only if byte 4 is the sum of the fifteen other bytes and the identifier stands in bytes 0 and 1 |
| `Ecma167.SealedTagIsValid` | src/ecma167.c:76-99 | a tag whose checksum is filled in last is accepted and gives its identifier |
| `Ecma167.OneByteErrorIsDetected` | src/ecma167.c:86-96 | no change of a single byte of a valid tag goes unnoticed |
| `Ecma167.DecodeFileAds` | src/ecma167.c:256-277 | the loop fills its part of the array with the consecutive descriptors and leaves what is in front alone |
| `Ecma167.AdRoundTrip` | src/ecma167.c:225-252 | short, long and extended descriptors decode to what was recorded; a short one lies in the caller's partition |
| `Ecma167.AdsRoundTrip` | src/ecma167.c:256-277 | so does a list of them in any of the three forms |
| `FileEntries.DecodeFileEntry` | src/ecma167.c:279-340 | decodes what a block of either kind means, and reads only inside the block |
| `FileEntries.RefusedIff` | src/ecma167.c:279-312 | with the 64-bit guard in front the 32-bit sums are exact: a block is refused if and only if its descriptors or data reach past its end, or its strategy or descriptor form is unsupported |
| `FileEntries.FileEntryRoundTrip` | src/ecma167.c:380-411 | a file entry or extended file entry with attributes of any length and descriptors of any form, or embedded data, decodes to what was recorded |
| `FileEntries.AdList.AppendExtent` | src/ecma167.c:342-377 | a recorded allocation extent, with any number of descriptors in any form, is appended as recorded behind what was there; a malformed one changes nothing |
| `FileEntries.ExtentRoundTrip` | src/ecma167.c:342-377 | an allocation extent decodes to all the descriptors recorded in it |
| `AdChain.StepLowersWeight` | src/udf_fs.c:324-355 | replacing a pointer by what it leads to lowers the total weight by exactly 1: the termination measure |
| `AdChain.AcyclicEnds` | src/udf_fs.c:322-356 | on every image whose pointers form no cycle the loop ends, in as many turns as the list weighs |
| `AdChain.AppendLevel` | src/udf_fs.c:333-349 | fails for exactly the three reasons, and then leaves the list alone |
| `AdChain.FollowExtents` | src/udf_fs.c:322-356 | on every image on which it ends, the loop ends with the list that pure unfolding gives; a pointer that cannot be followed is gone; pointers that never stand last may lead anywhere |
| `AdChain.FollowedIsUnique` | src/udf_fs.c:322-356 | the result does not depend on how many turns are allowed for |
| `AdChain.ChainIsFlattened` | src/udf_fs.c:322-356 | a chain of levels with one pointer each, at the end, reads as all levels one after another without their pointers, also if the last pointer cannot be followed |
| `AdChain.ChainEndsIff` | src/udf_fs.c:324-355 | where every level has its only pointer at its end, the loop ends if and only if no pointer repeats along the chain |
| `AdChain.SelfPointerNeverEnds` | src/udf_fs.c:324-355 | a concrete disc, down to the bytes of its block, with a pointer to itself: the loop ends in no number of turns once that pointer stands last, and at once if a plain descriptor stands behind it |
| `AdChain.ReadFileEntry` | src/udf_fs.c:294-359 | the entry in its block with the followed descriptors in place of its own; absent if and only if the block does not read or decode; on every image on which the loop ends |
| `RecordedFiles.NoDescriptorsNoLevel` | src/udf_fs.c:333-349 | an extent that is empty, cannot be used, has another tag than 258 or a length that passes its end gives no descriptors |
| `RecordedFiles.StandingEntryIsRead` | src/udf_fs.c:294-359 | an entry tagged 261 or 266 and its extents tagged 258, laid out as ECMA-167 says at partition start + lba, read as the recorded entry with all descriptors in order and without those that only continue |
| `RecordedFiles.ReadStandingEntry` | src/udf_fs.c:294-359 | the same of the imperative reader, from bytes at absolute addresses to the entry |
| `RecordedFiles.OtherTagIsRefused` | src/udf_fs.c:302-318 | a block with any other tag, or of which no copy can be used, is no file entry |
| `OpenedFiles.BrokenEntryOpens` | src/udf_fs.c:327-348 | an entry whose chain of extents breaks off is read all the same, with the descriptors before the break and without the pointer |
| `OpenedFiles.ContentsPastTheMap` | src/udfread.c:766-776 | all bytes of a file past its last descriptor are zero |
| `OpenedFiles.ReadPastLostExtent` | src/udf_fs.c:327-352 | what lay in an extent of descriptors that cannot be read is delivered as zeros, with no error and no short read unless the input itself fails |
| `Cs0.PutUnit` | src/udf_fs.c:57-85 | a unit is appended within the buffer after it has grown, which keeps one free byte per unit still to come |
| `Cs0.Convert8` | src/udf_fs.c:105-109 | every write fits; the output encodes the 8-bit units in order, with room for the NUL |
| `Cs0.Convert16` | src/udf_fs.c:110-115 | likewise for 16-bit units, an odd last byte dropped |
| `Cs0.UnitsAre` | src/udf_fs.c:104-119 | unit k is byte k + 1 for identifier 8 and the big-endian pair k for identifier 16; other identifiers have none |
| `Cs0.Cs0ToMutf8` | src/udf_fs.c:87-123 | NULL if and only if the compression id is neither 8 nor 16; otherwise a strict decoder of modified UTF-8 reads back the recorded units, every unit but NUL and U+07FF is in standard UTF-8, and no NUL stands inside, one at the end, all within the buffer |
| `Cs0.DecodeEncode` | src/udfread.h:49-52 | a decoder that wants proper lead and continuation bytes recovers every sequence of code units |
| `Cs0.UnitIsWritten` | src/udf_fs.c:57-85 | a unit is written in standard UTF-8, but NUL as C0 80 and U+07FF as E0 9F BF |
| `Cs0.SameNameIffSameUnits` | src/udfread.c:275-287 | two names compare equal if and only if their code units are equal, whichever compression each was recorded in |
| `Cs0.ShortestIff` | src/udf_fs.c:57-85 | the output is shortest form for every unit but NUL (on purpose) and U+07FF |
| `Directories.FidAt` | src/ecma167.c:172-202 | an identifier takes at least 40 bytes, a multiple of 4, and at most 3 more than there are |
| `Directories.Convert` | src/udf_fs.c:403-427 | an entry for everything but the parent, an empty name and a name that cannot be converted |
| `Directories.DirEntries.ParseDirFile` | src/udf_fs.c:365-433 | for arbitrary bytes the parser ends, reads inside the data, appends exactly the entries of the recursive definition, and allocates the array when and only when a first tag is right |
| `Directories.LimitNeverMet` | src/udf_fs.c:380-382 | from an empty list, for data below 2^32 bytes, the guard on the number of entries is never reached |
| `Directories.EntriesAreSparse` | src/udf_fs.c:377-430 | 40 * entries <= length + 3, for arbitrary bytes |
| `Directories.RecordReadsBack` | src/ecma167.c:172-202 | one recorded identifier, with any implementation-use bytes and padding, reads back with whatever follows it |
| `Directories.DirectoryRoundTrip` | src/udf_fs.c:365-433 | parsing recorded identifiers yields, in order, exactly the non-parent entries whose name converts to a non-empty string |
| `Directories.DirectoryThenTail` | src/udf_fs.c:373-401 | what follows the identifiers: up to 16 bytes are ignored, so is an identifier that is not all there, anything else fails and leaves the entries before it |
| `Directories.CutIsPrefix` | src/udf_fs.c:396-400 | cutting arbitrary directory data anywhere loses entries only from the end and never turns success into failure |
| `Directories.TruncatedDirectory` | src/udf_fs.c:396-400 | a recorded directory cut at any byte parses, to a prefix of its entries |
| `Directories.ParseFresh` | src/udf_fs.c:435-457 | parsing into the empty list of a new node |
| `Directories.ReadDir` | src/udf_fs.c:459-496 | what a directory icb reads as, from the bytes of the disc up, with the entries left behind on failure |
| `RecordedFiles.StandingDirectoryIsRead` | src/udf_fs.c:435-496 | a directory on the disc, of file type 4, embedded or in the extent of its first descriptor, reads as its recorded identifiers |
| `RecordedFiles.ReadStandingDirectory` | src/udf_fs.c:435-496 | the same of the imperative reader, from bytes at absolute addresses to entries |
| `RecordedFiles.OtherFileIsRefused` | src/udf_fs.c:471-475 | a file of any other type is refused |
| `DiscLookup.FoundIffRecorded` | src/udfread.c:275-287 | scanning a parsed directory finds a name if and only if an identifier other than the parent was recorded with its code units, and then the icb and flags of the first such one |
| `DiscLookup.LookupsReadTheDisc` | src/udfread.c:292-354 | the cache over the disc itself: in every run, a lookup of a path gives what parsing every directory on it from the disc gives, and the root for a path without components; reads that never return may be anywhere else |
| `DiscLookup.WalkResolves` | src/udfread.c:292-354 | walking a path through directories that read as recorded finds what its components resolve to among the recorded identifiers, by code units |
| `DiscLookup.PathFindsWhatIsRecorded` | src/udfread.c:292-354 | from a path string, however spelled, and directories laid out at absolute addresses on the disc to the entry found: in every run of any number of threads, a lookup that succeeds, or fails without trouble of its own, gives what the components resolve to by code units |
| `Metadata.ReadDescriptorBlock` | src/udf_fs.c:147-154 | the tag of a block, -1 if it cannot be read |
| `Metadata.ReadFirstBlock` | src/udf_fs.c:183-201 | block 0 comes from the first of primary and mirror that reads with a valid tag |
| `Metadata.ReadFollowingBlock` | src/udf_fs.c:205-222 | a later block comes from the first of primary and mirror that reads, appended to those before it, which stay |
| `Metadata.ReadMetadataBlocks` | src/udf_fs.c:168-225 | success if and only if all blocks can be had, and then they fill the buffer exactly |
| `Metadata.ReadMetadata` | src/udf_fs.c:227-250 | the whole extent, ceil(length/2048) blocks, with the tag of the first; an empty extent fails |
| `Metadata.WhichCopy` | src/udf_fs.c:156-225 | success if and only if every block i can be used at partition start + lba + i or else at mirror start + lba + i, and then each block is the first of these that can |
| `Metadata.UnknownPartition` | src/udf_fs.c:156-181 | in a partition that is neither of the known ones nothing is read |
| `Metadata.StandingIsRead` | src/udf_fs.c:168-250 | tagged data that stand at partition start + lba are read as they are, whatever the mirror holds |
| `Metadata.SucceedsIff` | src/udf_fs.c:168-225 | success if and only if the partition is known, the length positive and every block usable in one of its two places |
| `Metadata.ExtentIff` | src/udf_fs.c:205-222 | block i of the result is block i of one of the copies, for every i |
| `Metadata.MirrorHidesFailures` | src/udf_fs.c:168-225 | with equal copies, any pattern of read failures that spares one copy of each block gives the data of the intact disc |
| `VolumeDescriptors.SearchVds` | src/udf_volume.c:172-238 | the search with its jumps and early exits visits the flattened list of descriptors, cut at the terminator or when all is found; pointers behind an early exit may lead anywhere |
| `VolumeDescriptors.SearchIsUnique` | src/udf_volume.c:172-238 | the result does not depend on how many hops are allowed for |
| `VolumeDescriptors.ReadVds` | src/udf_volume.c:240-275 | main area, then the backup area with what is still missing, and only if something is |
| `VolumeDescriptors.FoundBits` | src/udf_volume.c:172-238 | found bits are never lost and never set for nothing; unless the search stopped early they are set if and only if such a descriptor is listed |
| `VolumeDescriptors.SucceedsIffListed` | src/udf_volume.c:254-274 | success if and only if a primary volume descriptor and a wanted partition descriptor are listed in the main or backup area |
| `VolumeDescriptors.WhichPartition` | src/udf_volume.c:212-223 | the partition descriptor returned is the first one, the first with the number asked for, or the last one, of both lists |
| `VolumeDescriptors.BothAreasAreOneList` | src/udf_volume.c:254-270 | both areas act as one list, cut at its shortest complete prefix; the primary and logical volume descriptors returned are the last ones in that prefix |
| `RecordedVolume.PrimaryReads` | src/ecma167.c:102-107 | a recorded primary volume descriptor (section 10.1 of part 3) decodes to its identifiers |
| `RecordedVolume.PartitionReads` | src/ecma167.c:126-131 | a recorded partition descriptor (section 10.5) decodes to its number, start and size |
| `RecordedVolume.LogicalReads` | src/ecma167.c:134-159 | a recorded logical volume descriptor (section 10.6) decodes to its fields and partition maps, cut at the end of the block |
| `RecordedVolume.PointerReads` | src/ecma167.c:120-123 | a recorded volume descriptor pointer (section 10.3) decodes to the extent it names |
| `RecordedVolume.SequenceReads` | src/udf_volume.c:183-237 | stretches of descriptors at absolute addresses, joined by pointers and ended by a terminator or the end of the area, are the list of what is recorded |
| `RecordedVolume.VdsAnswers` | src/udf_volume.c:240-275 | success, and the three descriptors returned, by their places in what is recorded: for -1 the first partition, for -2 the last, otherwise the first with that number |
| `RecordedVolume.ReadStandingVds` | src/udf_volume.c:172-275 | the same of the imperative search, from bytes at absolute addresses to the answer |
| `PartitionMaps.PartitionTable.MapMetadataPartition` | src/udf_volume.c:311-368 | the partition as the two metadata file entries describe it |
| `PartitionMaps.EitherEntryWillDo` | src/udf_volume.c:337-367 | usable if and only if either entry gives a location; without a main copy the mirror takes its place and nothing backs it up; the order of the entries does not matter unless both claim one role |
| `PartitionMaps.PartitionTable.ParsePartitionMaps` | src/udf_volume.c:370-476 | the cursor stays in the table, the loop ends, and the effect is that of the well-formed maps in order |
| `PartitionMaps.PartitionTable.ApplyMap` | src/udf_volume.c:409-467 | only the first type 1 map for the chosen partition has an effect, and metadata maps |
| `PartitionMaps.DataPartitionFound` | src/udf_volume.c:409-431 | later maps never undo the first type 1 map |
| `PartitionMaps.ParsedPartitions` | src/udf_volume.c:370-475 | success if and only if a type 1 map for the chosen partition stands before anything malformed and within the count; p[0] is the first such map, numbered by its index |
| `PartitionMaps.BothPartitions` | src/udf_volume.c:424-456 | with one type 1 map and one metadata map both partitions come out, and the metadata partition can be found by its number if and only if its map stands second |
| `RecordedMaps.MapIs` | src/udf_volume.c:409-447 | type 1 maps, metadata maps (by their identifier) and all others are told apart, and give their reference or locations |
| `RecordedMaps.MapsAre` | src/udf_volume.c:389-407 | exactly the recorded maps within the count are looked at; a map of a size that cannot be ends the table |
| `RecordedMaps.FileIsPlaced` | src/udf_volume.c:327-358 | an extended file entry of type 250 or 251 places the metadata, or its mirror, at partition start + lba of its first descriptor |
| `RecordedMaps.OneOfEachGives` | src/udf_volume.c:361-456 | with one map of each kind and the metadata files on the disc, both partitions in absolute addresses; a missing main file is replaced by the mirror |
| `RecordedMaps.ParseRecorded` | src/udf_volume.c:370-476 | the same of the imperative parser, and success if and only if a map to the partition is among those counted |

## Left out

- Stream.UdfFile.FileRead: on block-mapped files a call delivers fewer than 2^32 bytes after the first block boundary (exact: `Stream.UdfFile.CountableIff`), no extent has a block inside whose address wraps to 0 (exact: `FileMap.RunsAgreeIff`), and the file is below 2^43 bytes, the limit given at src/udfread.c:799-801; embedded files are shorter than 2^63 bytes.
- Stream.UdfFile.ReadBlocks: says what the buffer holds only until more than 2^21 blocks have been delivered, since offsets into the buffer are computed in 32 bits and the next block overwrites the first; and only up to block number 2^32.
- Stream.Run: a read of a run asks for fewer than 2^32 bytes, or the file is shorter than that, whatever the position; `Stream.UdfFile.FileRead` has the bound for a known position.
- Stream.UdfFile.FileSeek: signed overflow of the target, undefined in C, is taken as two's complement.
- AdChain.FollowExtents: only images on which the loop of the source ends; `AdChain.AcyclicEnds` and `AdChain.ChainEndsIff` say which those are, the latter for levels with their only pointer at the end.
- AdChain.ReadFileEntry: the same, for the entry it reads.
- Directories.ReadDir: the same; of a fragmented directory only the first extent is read, as in the source (src/udf_fs.c:487-491).
- DiscLookup.PathFindsWhatIsRecorded: the directories on the path can be read to their end, and the image is stable.
- VolumeDescriptors.SearchVds: the volume descriptor pointers met before everything is found come to an end.
- VolumeDescriptors.ReadVds: the same, for the backup area only if it is read.
- PartitionMaps.BothPartitions: says nothing of tables with several metadata maps; there a later map starts from what an earlier one left in p[1], as `PartitionMaps.PartitionTable.ParsePartitionMaps` states.
- RecordedVolume.SequenceReads: areas that end below block 2^32; the end of an area above that wraps and nothing of it is read.
- RecordedMaps.OneOfEachGives: the main and mirror files have the types 250 and 251 in that order; `PartitionMaps.EitherEntryWillDo` covers the other cases.
- OpenedFiles.ReadPastLostExtent: files of at most 2^43 - 2048 bytes; above that such a read is refused (`Stream.WholeIff`).
- DirCacheTheorems.CallsAreWaitFree: counts steps of the model; allocation and `udf_read_dir` are one step each.
- The cache is modelled on values (maps from addresses to nodes and arrays in a step system) and not as a class, because its steps interleave; in-place update of its memory is modelled in `CleanTree.Volume`.
- In the step system a scan of a directory's entries and the cleaning of a private node are one step: they touch only memory that is immutable or not shared.
- Memory is sequentially consistent and compare-and-swap atomic: weak-memory effects, and the lazy initialisation of the lock in the Windows fallback of src/udf_atomic.h, are not modelled.
- Running out of memory is modelled in the cache protocol only; elsewhere allocation succeeds.
- A file handle is used by one thread at a time, as its documentation asks (src/udfread.h:281-282).
- The alignment of the one-block buffer and other pointer-level layout; buffers are arrays, decoded data are sequences.
- `LogicalVolume.table`: bytes that an earlier logical volume descriptor left behind a shorter table are not visible; they read as zeros.
- `decode_entity_id` and `_decode_dstring` beyond the fields that are used.
- The search for an anchor (`_read_avdp`), `udf_probe_volume`, `udf_validate_logical_volume`, `udf_find_root_dir` and the retry after a failed open: short scans and field copies. The model starts from an anchor or an open volume.
- `udfread_readdir`, directory handles, getters, logging, environment variables, version query.
- The default block input (files and devices of the operating system); `BlockInput` states the contract of src/blockinput.h instead.
