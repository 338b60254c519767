/** The record types of src/ecma167.h that the readers hand to one another. */
module Records {
  import opened Bytes

  type u2 = x: int | 0 <= x < 4
  type u16 = x: int | 0 <= x < 0x1_0000
  type u30 = x: int | 0 <= x < 0x4000_0000
  type u32 = x: int | 0 <= x < 0x1_0000_0000
  type u64 = x: int | 0 <= x < 0x1_0000_0000_0000_0000

  // Extent types (ECMA-167, section 14.14.1.1 of part 4)
  const EXTENT_NORMAL: u2 := 0
  const EXTENT_NOT_RECORDED: u2 := 1
  const EXTENT_NOT_ALLOCATED: u2 := 2
  const EXTENT_AD: u2 := 3  // pointer to the next extent of allocation descriptors

  // Descriptor tags (ECMA-167, section 7.2.1 of parts 3 and 4)
  const TAG_INVALID: int := -1
  const TAG_PRIMARY_VOLUME: int := 1
  const TAG_VOLUME_POINTER: int := 3
  const TAG_PARTITION: int := 5
  const TAG_LOGICAL_VOLUME: int := 6
  const TAG_TERMINATING: int := 8
  const TAG_FILE_IDENTIFIER: int := 257
  const TAG_ALLOCATION_EXTENT: int := 258
  const TAG_FILE_ENTRY: int := 261
  const TAG_EXT_FILE_ENTRY: int := 266

  /** struct long_ad; `length` is in bytes and has been masked to 30 bits. */
  datatype LongAd = LongAd(lba: u32, length: u30, partition: u16, extentType: u2)

  /** The union in struct file_entry: allocation descriptors, or the data itself. */
  datatype Body = Ads(ads: seq<LongAd>) | Inline(content: seq<u8>)

  datatype FileEntry = FileEntry(length: u64, fileType: u8, adType: int, body: Body)

  /** struct udf_file_identifier; the name is MUTF-8 without its final NUL. */
  datatype FileId = FileId(name: seq<u8>, icb: LongAd, characteristic: u8)

  predicate HasFlag(flags: int, flag: int)
    requires 0 <= flags && flag > 0
  {
    flags / flag % 2 == 1
  }

  const FLAG_DIR: int := 2
  const FLAG_PARENT: int := 8

  predicate IsDirectory(f: FileId) { HasFlag(f.characteristic as int, FLAG_DIR) }

  // ecma167.h allocates whole blocks: `(length + UDF_BLOCK_SIZE - 1) / UDF_BLOCK_SIZE`
  function BlocksFor(length: nat): (n: nat)
    ensures n * 2048 >= length && (n > 0 ==> (n - 1) * 2048 < length)
  {
    (length + 2047) / 2048
  }
}
