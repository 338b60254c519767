/** Seekable byte streams over a file: `udfread_read_blocks`, `_read`,
    `_read_inline`, `udfread_file_read` and `udfread_file_seek` of src/udfread.c.

    A handle refines the pair (contents, position): `FileContents` is fixed by the
    file entry and the disc, and `StreamRun` says what a client may observe. */
module Stream {
  import opened Bytes
  import opened Records
  import opened FileMap

  // ---------------------------------------------------------------- contents

  /** What the disc holds: a block for every address. */
  type Media = int -> Block

  function BlockAt(ads: seq<LongAd>, base: u32, media: Media, b: nat): Block {
    var lba := LbaOf(ads, base, b);
    if lba == 0 then Zeros(2048) else media(lba)
  }

  /** File blocks b, b + 1, ..., b + n - 1 laid end to end. */
  function BlockRun(ads: seq<LongAd>, base: u32, media: Media, b: nat, n: nat): (s: seq<u8>)
    ensures |s| == n * 2048
    decreases n, b
  {
    if n == 0 then [] else BlockAt(ads, base, media, b) + BlockRun(ads, base, media, b + 1, n - 1)
  }

  lemma {:induction false} BlockRunSplit(ads: seq<LongAd>, base: u32, media: Media, b: nat, m: nat, n: nat)
    ensures BlockRun(ads, base, media, b, m + n) ==
      BlockRun(ads, base, media, b, m) + BlockRun(ads, base, media, b + m, n)
    decreases m
  {
    hide BlockAt;
    if m > 0 {
      BlockRunSplit(ads, base, media, b + 1, m - 1, n);
      Assoc(BlockAt(ads, base, media, b), BlockRun(ads, base, media, b + 1, m - 1),
            BlockRun(ads, base, media, b + m, n));
    } else {
      assert BlockRun(ads, base, media, b, m) == [];
    }
  }

  /** The bytes of a file: exactly `length` of them, zeros where nothing is recorded. */
  function FileContents(fe: FileEntry, base: u32, media: Media): (c: seq<u8>)
    ensures |c| == fe.length
  {
    match fe.body
    case Ads(ads) => BlockRun(ads, base, media, 0, BlocksFor(fe.length))[..fe.length]
    case Inline(data) => if |data| >= fe.length then data[..fe.length] else data + Zeros(fe.length - |data|)
  }

  /** `file_blocks` of udfread_read_blocks, a 32-bit variable. */
  function FileBlocks(length: u64): u32 { Wrap32((ToInt64(length) + 2047) / 2048) }

  /** Neither on the disc nor a hole inside the file. */
  predicate Outside(fe: FileEntry, base: u32, b: nat)
    requires fe.body.Ads?
  {
    LbaOf(fe.body.ads, base, b) == 0 && b >= FileBlocks(fe.length)
  }

  /** The documented limit: 2^32 blocks (src/udfread.c:799-801). */
  const FILE_LIMIT: int := 0x800_0000_0000

  const MAX_LENGTH: int := FILE_LIMIT - 2048

  /** The 32-bit block count is exact for files of up to 2^43 - 2048 bytes. Above
      that it wraps: the last 2047 lengths below 2^43 give a count of zero. */
  lemma FileBlocksExact(length: u64)
    requires length < FILE_LIMIT
    ensures FileBlocks(length) == BlocksFor(length) <==> length <= MAX_LENGTH
    ensures length > MAX_LENGTH ==> FileBlocks(length) == 0
  {}

  /** Every block of the file can be read. */
  ghost predicate Whole(fe: FileEntry, base: u32)
    requires fe.body.Ads?
  {
    forall b :: 0 <= b < BlocksFor(fe.length) ==> !Outside(fe, base, b)
  }

  ghost predicate NoHole(fe: FileEntry, base: u32)
    requires fe.body.Ads?
  {
    forall b :: 0 <= b < BlocksFor(fe.length) ==> LbaOf(fe.body.ads, base, b) != 0
  }

  /** Up to the documented limit, the blocks of a file can all be read exactly if its
      block count does not wrap or it has no hole. */
  lemma {:induction false} WholeIff(fe: FileEntry, base: u32)
    requires fe.body.Ads? && fe.length < FILE_LIMIT
    ensures Whole(fe, base) <==> fe.length <= MAX_LENGTH || NoHole(fe, base)
  {
    FileBlocksExact(fe.length);
    forall b: nat | b < BlocksFor(fe.length)
      ensures Outside(fe, base, b) <==> fe.length > MAX_LENGTH && LbaOf(fe.body.ads, base, b) == 0
    {}
  }

  /** Byte count of a chunk, computed in 32 bits as `num_blocks * UDF_BLOCK_SIZE`. */
  function ChunkBytes(numBlocks: u32): u32 { Wrap32(numBlocks * 2048) }

  /** It is right for chunks of less than 2^32 bytes; at 2^32 a chunk counts as 0. */
  lemma ChunkBytesExact(numBlocks: u32)
    ensures ChunkBytes(numBlocks) == numBlocks * 2048 <==> numBlocks < 0x20_0000
    ensures numBlocks == 0x20_0000 ==> ChunkBytes(numBlocks) == 0
  {}

  /** Bytes from a position inside a block to the end of the block. */
  function ToBoundary(pos: nat): nat { if pos % 2048 == 0 then 0 else 2048 - pos % 2048 }

  // ------------------------------------------------------------- block input

  function DiscRun(media: Media, lba: int, n: nat): (s: seq<u8>)
    ensures |s| == n * 2048
    decreases n, lba
  {
    if n == 0 then [] else media(lba) + DiscRun(media, lba + 1, n - 1)
  }

  /** `udfread_block_input`: the `calls`-th read answers with `answer(calls)`: a
      negative number or zero on failure, otherwise how many blocks it delivers,
      never more than asked. What it leaves in the rest of the buffer is `noise`. */
  class BlockInput {
    const media: Media
    const answer: nat -> int
    const noise: (nat, nat) -> u8
    var calls: nat

    constructor (media: Media, answer: nat -> int, noise: (nat, nat) -> u8)
      ensures this.media == media && this.answer == answer && calls == 0
    {
      this.media, this.answer, this.noise, calls := media, answer, noise, 0;
    }

    ghost predicate Failed(call: nat) { answer(call) < 1 }

    method Read(lba: nat, buf: array<u8>, at: nat, n: nat) returns (got: int)
      requires at + n * 2048 <= buf.Length
      modifies this`calls, buf
      ensures calls == old(calls) + 1
      ensures got <= n && (got < 1 <==> Failed(old(calls)) || n == 0)
      ensures got >= 1 ==> buf[..at + got * 2048] == old(buf[..at]) + DiscRun(media, lba, got)
      ensures buf[..at] == old(buf[..at]) && buf[at + n * 2048..] == old(buf[at + n * 2048..])
    {
      var call := calls;
      calls := calls + 1;
      got := if answer(call) > n then n else answer(call);
      var data := if got < 1 then [] else DiscRun(media, lba, got);
      forall x | at <= x < at + n * 2048 {
        buf[x] := if x - at < |data| then data[x - at] else noise(call, x);
      }
    }

    /** `_read_blocks` */
    method ReadBlocks(lba: nat, buf: array<u8>, at: nat, n: u32) returns (got: nat)
      requires at + n * 2048 <= buf.Length
      modifies this`calls, buf
      ensures old(calls) <= calls && got <= n
      ensures got < 1 && 0 < n < 0x8000_0000 ==> calls > old(calls) && Failed(calls - 1)
      ensures n >= 0x8000_0000 ==> got == 0 && calls == old(calls)
      ensures buf[..at + got * 2048] == old(buf[..at]) + DiscRun(media, lba, got)
    {
      if n < 1 || n >= 0x8000_0000 { return 0; }  // (int)nblocks < 1
      var result := Read(lba, buf, at, n);
      got := if result < 0 then 0 else result;
    }
  }

  // ------------------------------------------------------- what a client sees

  datatype Whence = Set | Cur | End | Unknown

  datatype Op = Seek(offset: int, whence: Whence) | Read(bytes: nat)

  datatype Out = SeekOut(result: int) | ReadOut(count: int, data: seq<u8>)

  /** New position of a seek, before the test for a negative one. */
  function SeekTarget(length: int, pos: nat, offset: int, whence: Whence): int {
    match whence
    case Set => ToInt64(offset)
    case Cur => ToInt64(pos + offset)
    case End => ToInt64(ToInt64(length) + offset)
    case Unknown => -1
  }

  /** Largest number of bytes a read may deliver. */
  function Wanted(length: nat, pos: nat, bytes: nat): nat {
    if pos >= length then 0 else if pos + bytes > length then length - pos else bytes
  }

  ghost predicate SeekStep(length: nat, pos: nat, offset: int, whence: Whence, result: int, pos': nat) {
    var target := SeekTarget(length, pos, offset, whence);
    if target >= 0 then pos' == target == result else pos' == pos && result == -1
  }

  /** A read either fails and moves nothing, or delivers the next `count` bytes; it
      may fail or come up short only if `trouble`, and then not with 0. A size that does
      not fit a signed 64-bit integer is refused. */
  ghost predicate ReadStep(contents: seq<u8>, pos: nat, bytes: nat, count: int, data: seq<u8>, pos': nat,
                           trouble: bool)
  {
    if bytes >= 0x8000_0000_0000_0000 then count == -1 && pos' == pos && data == []
    else if count == -1 then pos' == pos && data == [] && trouble
    else
      && 0 <= count <= Wanted(|contents|, pos, bytes) && pos' == pos + count
      && (count > 0 ==> data == contents[pos..pos'])
      && (count == 0 ==> Wanted(|contents|, pos, bytes) == 0 && data == [])
      && (count < Wanted(|contents|, pos, bytes) ==> trouble)
  }

  /** One call on the abstract stream (contents, pos). */
  ghost predicate StreamStep(contents: seq<u8>, pos: nat, op: Op, out: Out, pos': nat, trouble: bool) {
    match op
    case Seek(offset, whence) => out.SeekOut? && SeekStep(|contents|, pos, offset, whence, out.result, pos')
    case Read(bytes) => out.ReadOut? && ReadStep(contents, pos, bytes, out.count, out.data, pos', trouble)
  }

  ghost predicate StreamRun(contents: seq<u8>, pos: nat, ops: seq<Op>, outs: seq<Out>, pos': nat, trouble: bool)
    decreases ops
  {
    if ops == [] then outs == [] && pos' == pos
    else outs != [] && exists mid: nat ::
      && StreamStep(contents, pos, ops[0], outs[0], mid, trouble)
      && StreamRun(contents, mid, ops[1..], outs[1..], pos', trouble)
  }

  // -------------------------------------------------------------- file handle

  class UdfFile {
    const input: BlockInput
    const base: u32      // start of the data partition, part.p[0].lba
    const fe: FileEntry
    var pos: nat
    var block: array?<u8>
    var blockValid: bool
    ghost const file: seq<u8>  // every block that can be read, laid end to end

    constructor (input: BlockInput, base: u32, fe: FileEntry)
      ensures Supported(fe, base) ==> Valid()
      ensures this.input == input && this.base == base && this.fe == fe && pos == 0 && block == null
    {
      this.input, this.base, this.fe := input, base, fe;
      pos, block, blockValid := 0, null, false;
      file := if fe.body.Ads? then BlockRun(fe.body.ads, base, input.media, 0, Span(fe, base)) else [];
    }

    /** Reading in runs is safe, and the file is not above the documented limit. */
    static ghost predicate Supported(fe: FileEntry, base: u32) {
      match fe.body
      case Ads(ads) => NoZeroInside(ads, base) && fe.length < FILE_LIMIT
      case Inline(_) => fe.length < 0x8000_0000_0000_0000
    }

    /** Number of blocks up to the end of the file or of its descriptors. */
    static ghost function Span(fe: FileEntry, base: u32): nat
      requires fe.body.Ads?
    {
      var mapped := |BlockMap(fe.body.ads, base)|;
      if mapped > BlocksFor(fe.length) then mapped else BlocksFor(fe.length)
    }

    /** The buffer holds file block `b`. */
    ghost predicate BufferIs(b: nat)
      reads this, block
    {
      block != null && (b + 1) * 2048 <= |file| && block[..] == file[b * 2048..(b + 1) * 2048]
    }

    ghost predicate BufferOk()
      reads this, block
    {
      && pos < 0x8000_0000_0000_0000
      && (block != null ==> block.Length == 2048)
      && (blockValid ==> block != null && fe.body.Ads?)
      && (blockValid && pos % 2048 != 0 ==> BufferIs(pos / 2048) && !Outside(fe, base, pos / 2048))
    }

    /** The one-block buffer may be out of date, but never where it would be used. */
    ghost predicate Valid()
      reads this, block
    {
      && Supported(fe, base)
      && (fe.body.Ads? ==> file == BlockRun(fe.body.ads, base, input.media, 0, Span(fe, base)))
      && BufferOk()
    }

    /** Blocks b .. b + n - 1 are a slice of `file`. */
    lemma FileSlice(b: nat, n: nat)
      requires Valid() && fe.body.Ads? && b + n <= Span(fe, base)
      ensures (b + n) * 2048 <= |file|
      ensures file[b * 2048..(b + n) * 2048] == BlockRun(fe.body.ads, base, input.media, b, n)
    {
      hide FileBlocks; hide BlockRun; hide BlockMap; hide NoZeroInside; hide BufferOk;
      var ads, media, rest := fe.body.ads, input.media, Span(fe, base) - b - n;
      BlockRunSplit(ads, base, media, 0, b + n, rest);
      BlockRunSplit(ads, base, media, 0, b, n);
      MiddlePart(BlockRun(ads, base, media, 0, b), BlockRun(ads, base, media, b, n),
                 BlockRun(ads, base, media, b + n, rest));
    }

    lemma FileIsContents(from: nat, to: nat)
      requires Valid() && fe.body.Ads? && from <= to <= fe.length
      ensures to <= |file| && file[from..to] == FileContents(fe, base, input.media)[from..to]
    {
      var n := BlocksFor(fe.length);
      FileSlice(0, n);
      hide BlockRun; hide BlockAt; hide Supported;
      SliceOfPrefix(file, n * 2048, from, to);
      SliceOfPrefix(BlockRun(fe.body.ads, base, input.media, 0, n), fe.length, from, to);
    }

    lemma InsideFile()
      requires Supported(fe, base) && fe.body.Ads? && pos < fe.length
      ensures pos / 2048 < TWO_32 && pos / 2048 < BlocksFor(fe.length) <= Span(fe, base)
    {}

    /** A stretch of bytes from a block start lies in blocks of the file. */
    lemma BlocksFit(bytes: nat)
      requires Supported(fe, base) && fe.body.Ads? && pos % 2048 == 0 && pos + bytes <= fe.length
      ensures pos == pos / 2048 * 2048 && bytes / 2048 < TWO_32
      ensures pos / 2048 + bytes / 2048 <= BlocksFor(fe.length) <= Span(fe, base)
      ensures pos / 2048 + bytes / 2048 <= TWO_32 && (bytes > 0 ==> pos / 2048 < TWO_32)
      ensures NoZeroInside(fe.body.ads, base)
    {}

    /** Did the read stop at block `b` for one of the two reasons it may? */
    ghost predicate Stopped(b: nat, oldCalls: nat)
      requires fe.body.Ads?
      reads input
    {
      Outside(fe, base, b) || (input.calls > oldCalls && input.Failed(input.calls - 1))
    }

    lemma JoinRuns(s: seq<u8>, before: seq<u8>, first: seq<u8>, b: nat, m: nat, n: nat)
      requires fe.body.Ads?
      requires before == first + BlockRun(fe.body.ads, base, input.media, b, m)
      requires s == before + BlockRun(fe.body.ads, base, input.media, b + m, n)
      ensures s == first + BlockRun(fe.body.ads, base, input.media, b, m + n)
    {
      BlockRunSplit(fe.body.ads, base, input.media, b, m, n);
    }

    lemma {:induction false} MappedRun(b: nat, lba: nat, n: nat)
      requires fe.body.Ads? && forall k :: b <= k < b + n ==> LbaOf(fe.body.ads, base, k) == lba + (k - b) != 0
      ensures DiscRun(input.media, lba, n) == BlockRun(fe.body.ads, base, input.media, b, n)
      decreases n
    {
      if n > 0 { MappedRun(b + 1, lba + 1, n - 1); }
    }

    /** Is the offset of the block after `done` delivered ones, or the end, where it should
        be? At 2^21 blocks the 32-bit offset is back at the start of the buffer. */
    static predicate InPlace(done: nat, asked: u32) { done < 0x20_0000 || done == asked == 0x20_0000 }

    /** One turn of the loop of `udfread_read_blocks`: a single block of zeros for a hole, as many blocks of
        one extent as the input delivers otherwise, 0 to stop. */
    method ReadExtent(buf: array<u8>, at: nat, fileBlock: u32, numBlocks: u32) returns (got: nat)
      requires fe.body.Ads? && NoZeroInside(fe.body.ads, base)
      requires numBlocks > 0 && at + numBlocks * 2048 <= buf.Length
      modifies input`calls, buf
      ensures got <= numBlocks && old(input.calls) <= input.calls
      ensures buf[..at + got * 2048] == old(buf[..at]) + BlockRun(fe.body.ads, base, input.media, fileBlock, got)
      ensures forall b :: fileBlock <= b < fileBlock + got ==> !Outside(fe, base, b)
      ensures got < 1 ==> Stopped(fileBlock, old(input.calls))
      ensures Outside(fe, base, fileBlock) ==> input.calls == old(input.calls)
    {
      var lba, run := FileLba(fe.body.ads, base, fileBlock);
      if lba == 0 {
        if fileBlock < FileBlocks(fe.length) {
          forall x | at <= x < at + 2048 { buf[x] := 0; }
          got := 1;
          assert BlockRun(fe.body.ads, base, input.media, fileBlock, got) == Zeros(2048) + [];
          return;
        }
        return 0;
      }
      ExtentIsConsecutive(fe.body.ads, base, fileBlock, run);
      if run > numBlocks { run := numBlocks; }
      got := input.ReadBlocks(lba, buf, at, run);
      MappedRun(fileBlock, lba, got);
    }

    /** `udfread_read_blocks`: a block-mapped file is read extent by extent. Offsets into
        the caller's buffer and block numbers are 32-bit sums. */
    method ReadBlocks(buf: array<u8>, at: nat, fileBlock: u32, numBlocks: u32) returns (i: nat)
      requires fe.body.Ads? ==> NoZeroInside(fe.body.ads, base)
      requires at + numBlocks * 2048 <= buf.Length
      modifies input`calls, buf
      ensures i <= numBlocks && old(input.calls) <= input.calls
      ensures fe.body.Inline? ==> i == 0 && buf[..] == old(buf[..]) && input.calls == old(input.calls)
      ensures fe.body.Ads? && InPlace(i, numBlocks) && fileBlock + i <= TWO_32 ==>
        buf[..at + i * 2048] == old(buf[..at]) + BlockRun(fe.body.ads, base, input.media, fileBlock, i)
      ensures fe.body.Ads? ==> forall b :: fileBlock <= b < fileBlock + i && b < TWO_32 ==> !Outside(fe, base, b)
      ensures fe.body.Ads? && i < numBlocks ==> Stopped(Wrap32(fileBlock + i), old(input.calls))
      ensures fe.body.Ads? && Outside(fe, base, fileBlock) ==> i == 0 && input.calls == old(input.calls)
    {
      hide FileBlocks; hide BlockRun; hide LbaOf; hide NoZeroInside; hide Outside;
      i := 0;
      if fe.body.Inline? { return; }
      while i < numBlocks
        invariant 0 <= i <= numBlocks && old(input.calls) <= input.calls
        invariant i == 0 ==> input.calls == old(input.calls)
        invariant InPlace(i, numBlocks) && fileBlock + i <= TWO_32 ==>
          buf[..at + i * 2048] == old(buf[..at]) + BlockRun(fe.body.ads, base, input.media, fileBlock, i)
        invariant forall b :: fileBlock <= b < fileBlock + i && b < TWO_32 ==> !Outside(fe, base, b)
      {
        var start := at + Wrap32(i * 2048);
        assert i < 0x20_0000 ==> start == at + i * 2048;
        ghost var before := buf[..start];
        var got := ReadExtent(buf, start, Wrap32(fileBlock + i), numBlocks - i);
        if got < 1 {
          assert i > 0 ==> !Outside(fe, base, fileBlock);
          break;
        }
        if InPlace(i + got, numBlocks) && fileBlock + i + got <= TWO_32 {
          JoinRuns(buf[..start + got * 2048], before, old(buf[..at]), fileBlock, i, got);
          assert start + got * 2048 == at + (i + got) * 2048;
        }
        i := i + got;
      }
    }

    /** `udfread_read_blocks(p, p->block, file_block, 1, 0) != 1`; a failed read may
        leave anything in the buffer and does not touch `blockValid`. */
    method FillBuffer() returns (ok: bool)
      requires Valid() && fe.body.Ads? && block != null && pos < fe.length
      modifies input`calls, block
      ensures old(input.calls) <= input.calls
      ensures ok ==> BufferIs(pos / 2048) && !Outside(fe, base, pos / 2048)
      ensures !ok ==> Stopped(pos / 2048, old(input.calls))
      ensures Outside(fe, base, pos / 2048) ==> !ok && input.calls == old(input.calls)
    {
      hide Outside; hide BlockRun; hide LbaOf; hide NoZeroInside;
      InsideFile();
      var fileBlock := Wrap32(pos / 2048);
      FileSlice(fileBlock, 1);
      var got := ReadBlocks(block, 0, fileBlock, 1);
      ok := got == 1;
      assert ok ==> block[..] == block[..0 + got * 2048];
    }

    /** Copying up to the end of a block either stays in it or stops at the next one. */
    static lemma NextPosition(k: nat, n: nat)
      requires k % 2048 + n <= 2048
      ensures (k + n) / 2048 == k / 2048 || (k + n) % 2048 == 0
    {}

    /** `memcpy(buf, p->block + pos_off, chunk_size); p->pos += chunk_size`, the only
        use of the one-block buffer. */
    method CopyAndAdvance(buf: array<u8>, at: nat, off: nat, count: nat)
      requires Supported(fe, base) && fe.body.Ads?
      requires file == BlockRun(fe.body.ads, base, input.media, 0, Span(fe, base))
      requires BufferOk() && BufferIs(pos / 2048) && !Outside(fe, base, pos / 2048) && blockValid && block != buf
      requires off == pos % 2048 && off + count <= 2048 && at + count <= buf.Length
      requires pos + count <= fe.length && pos + count <= |file|
      modifies this`pos, buf
      ensures Valid() && pos == old(pos) + count
      ensures buf[..at + count] == old(buf[..at]) + file[old(pos)..old(pos) + count]
    {
      hide FileBlocks; hide BlockRun; hide LbaOf; hide NoZeroInside; hide Outside;
      var b := pos / 2048;
      assert pos == b * 2048 + off;
      SliceOfSlice(file, b * 2048, (b + 1) * 2048, off, off + count);
      forall x | at <= x < at + count { buf[x] := block[off + (x - at)]; }
      assert buf[at..at + count] == block[off..off + count] == block[..][off..off + count];
      NextPosition(pos, count);
      pos := pos + count;
    }

    method ReadRestOfBlock(buf: array<u8>, at: nat, bytes: nat) returns (r: int)
      requires Valid() && fe.body.Ads? && block != null && block != buf
      requires 0 < bytes && pos + bytes <= fe.length <= |file| && at + bytes <= buf.Length
      requires pos % 2048 != 0
      modifies this`pos, this`blockValid, input`calls, buf, block
      ensures Valid() && block == old(block) && old(input.calls) <= input.calls
      ensures r == -1 || (1 <= r <= bytes && r <= ToBoundary(old(pos)))
      ensures pos == old(pos) + (if r == -1 then 0 else r)
      ensures r == -1 ==> Stopped(old(pos) / 2048, old(input.calls)) && buf[..at] == old(buf[..at])
      ensures old(blockValid) ==> r > 0 && input.calls == old(input.calls)
      ensures Outside(fe, base, old(pos) / 2048) ==> r == -1 && input.calls == old(input.calls)
      ensures r > 0 ==> buf[..at + r] == old(buf[..at]) + file[old(pos)..old(pos) + r]
    {
      hide FileBlocks; hide BlockRun; hide LbaOf; hide NoZeroInside; hide Outside;
      var posOff := pos % 2048;
      var chunkSize := 2048 - posOff;
      if !blockValid {
        var ok := FillBuffer();
        if !ok { return -1; }
        blockValid := true;
      }
      if chunkSize > bytes { chunkSize := bytes; }
      CopyAndAdvance(buf, at, posOff, chunkSize);
      return chunkSize;
    }

    static lemma NothingIsInPlace(asked: u32) ensures InPlace(0, asked) {}

    static lemma WrappedChunk(n: u32)
      ensures ChunkBytes(n) % 2048 == 0 && 0 <= ChunkBytes(n) <= n * 2048
    {}

    /** `got` blocks are delivered; their byte count is a 32-bit product. */
    method ReadWholeBlocks(buf: array<u8>, at: nat, bytes: nat) returns (r: int, ghost got: nat)
      requires Valid() && fe.body.Ads? && block != null && block != buf
      requires 2048 <= bytes && pos + bytes <= fe.length <= |file| && at + bytes <= buf.Length
      requires pos % 2048 == 0
      modifies this`pos, input`calls, buf
      ensures Valid() && old(input.calls) <= input.calls
      ensures got <= bytes / 2048 < TWO_32 && r == (if got == 0 then -1 else ChunkBytes(got))
      ensures pos == old(pos) + (if r == -1 then 0 else r) <= fe.length
      ensures got < bytes / 2048 ==> Stopped(old(pos) / 2048 + got, old(input.calls))
      ensures Outside(fe, base, old(pos) / 2048) ==> got == 0 && input.calls == old(input.calls)
      ensures got == 0 ==> buf[..at] == old(buf[..at])
      ensures InPlace(got, bytes / 2048) ==>
        buf[..at + got * 2048] == old(buf[..at]) + file[old(pos)..old(pos) + got * 2048]
    {
      hide FileBlocks; hide LbaOf; hide NoZeroInside; hide Outside; hide BlockRun; hide Supported; hide Span;
      hide InPlace; hide ChunkBytes;
      BlocksFit(bytes);
      var fileBlock := Wrap32(pos / 2048);
      var n := ReadBlocks(buf, at, fileBlock, Wrap32(bytes / 2048));
      got := n;
      FileSlice(fileBlock, n);
      assert pos + n * 2048 == (fileBlock + n) * 2048;
      if n < 1 {
        NothingIsInPlace(bytes / 2048);
        return -1, 0;
      }
      r := ChunkBytes(n);
      WrappedChunk(n);
      pos := pos + r;
    }

    method ReadStartOfBlock(buf: array<u8>, at: nat, bytes: nat) returns (r: int)
      requires Valid() && fe.body.Ads? && block != null && block != buf
      requires 0 < bytes < 2048 && pos + bytes <= fe.length <= |file| && at + bytes <= buf.Length
      requires pos % 2048 == 0
      modifies this`pos, this`blockValid, input`calls, buf, block
      ensures Valid() && block == old(block) && old(input.calls) <= input.calls
      ensures r == -1 || 1 <= r <= bytes
      ensures pos == old(pos) + (if r == -1 then 0 else r)
      ensures r == -1 ==> Stopped(old(pos) / 2048, old(input.calls)) && buf[..at] == old(buf[..at])
      ensures Outside(fe, base, old(pos) / 2048) ==> r == -1 && input.calls == old(input.calls)
      ensures r > 0 ==> buf[..at + r] == old(buf[..at]) + file[old(pos)..old(pos) + r]
    {
      hide FileBlocks; hide BlockRun; hide LbaOf; hide NoZeroInside; hide Outside;
      var ok := FillBuffer();
      if !ok { return -1; }
      blockValid := true;
      CopyAndAdvance(buf, at, 0, bytes);
      return bytes;
    }

    /** No chunk read from here has a byte count that wraps. */
    static predicate Countable(pos: nat, bytes: nat) { bytes < TWO_32 + ToBoundary(pos) }

    /** The guard is exact: without it the chunk after the first block boundary is miscounted. */
    static lemma CountableIff(pos: nat, bytes: nat)
      requires bytes < FILE_LIMIT
      ensures Countable(pos, bytes) <==>
        (bytes <= ToBoundary(pos)
         || var blocks := (bytes - ToBoundary(pos)) / 2048; ChunkBytes(blocks) == blocks * 2048)
    {
      if bytes > ToBoundary(pos) { ChunkBytesExact((bytes - ToBoundary(pos)) / 2048); }
    }

    /** One of n blocks from b on cannot be read. */
    ghost predicate StoppedWithin(b: nat, n: nat, oldCalls: nat)
      requires fe.body.Ads?
      reads input
    {
      exists k :: b <= k < b + n && Stopped(k, oldCalls)
    }

    lemma StopIsWithin(b: nat, k: nat, n: nat, oldCalls: nat)
      requires fe.body.Ads? && k < n && Stopped(b + k, oldCalls)
      ensures StoppedWithin(b, n, oldCalls)
    {}

    static lemma StaysCountable(pos: nat, bytes: nat, r: nat)
      requires Countable(pos, bytes) && r <= bytes && (pos % 2048 == 0 || r <= ToBoundary(pos))
      ensures Countable(pos + r, bytes - r)
    {}

    /** The byte count of `got` whole blocks, when it is right and when it is 0. */
    static lemma WholeChunk(pos: nat, bytes: nat, got: nat)
      requires pos % 2048 == 0 && 0 < got <= bytes / 2048 < TWO_32
      ensures Countable(pos, bytes) ==> ChunkBytes(got) == got * 2048 <= bytes && InPlace(got, bytes / 2048)
      ensures bytes / 2048 == 0x20_0000 && ChunkBytes(got) == 0 ==> got == 0x20_0000 && InPlace(got, bytes / 2048)
    {}

    /** `_read`: one chunk; the rest of a block, some whole blocks, or the start of one. */
    method ReadChunk(buf: array<u8>, at: nat, bytes: nat) returns (r: int)
      requires Valid() && fe.body.Ads? && block != null && block != buf
      requires 0 < bytes && pos + bytes <= fe.length <= |file| && at + bytes <= buf.Length
      modifies this`pos, this`blockValid, input`calls, buf, block
      ensures Valid() && block == old(block) && old(input.calls) <= input.calls
      ensures -1 <= r && pos == old(pos) + (if r == -1 then 0 else r)
      ensures r == -1 ==> Stopped(old(pos) / 2048, old(input.calls)) && buf[..at] == old(buf[..at])
      ensures Outside(fe, base, old(pos) / 2048) ==> r == -1 && input.calls == old(input.calls)
      ensures Countable(old(pos), bytes) ==> r != 0 && r <= bytes && (r > 0 ==> Countable(pos, bytes - r))
      ensures Countable(old(pos), bytes) && r > 0 ==>
        buf[..at + r] == old(buf[..at]) + file[old(pos)..old(pos) + r]
      ensures old(pos) % 2048 == 0 && bytes >= 2048 ==>
        r == ChunkBytes(bytes / 2048) || StoppedWithin(old(pos) / 2048, bytes / 2048, old(input.calls))
      ensures old(pos) % 2048 == 0 && bytes / 2048 == 0x20_0000 && r == 0 ==>
        buf[..at + TWO_32] == old(buf[..at]) + file[old(pos)..old(pos) + TWO_32]
    {
      hide FileBlocks; hide BlockRun; hide LbaOf; hide NoZeroInside; hide Outside; hide Supported;
      hide Countable; hide ToBoundary; hide ChunkBytes; hide InPlace; hide StoppedWithin; hide Stopped; hide Valid;
      ghost var start, calls := pos, input.calls;
      if pos % 2048 != 0 {
        r := ReadRestOfBlock(buf, at, bytes);
      } else if bytes >= 2048 {
        ghost var got;
        r, got := ReadWholeBlocks(buf, at, bytes);
        if got > 0 { WholeChunk(start, bytes, got); }
        if got < bytes / 2048 { StopIsWithin(start / 2048, got, bytes / 2048, calls); }
      } else {
        r := ReadStartOfBlock(buf, at, bytes);
      }
      if Countable(start, bytes) && r > 0 { StaysCountable(start, bytes, r); }
    }

    /** The loop of `udfread_file_read`: chunks until everything is read or one fails. */
    method ReadChunks(buf: array<u8>, want: nat) returns (r: int)
      requires Valid() && fe.body.Ads? && block != null && block != buf
      requires Countable(pos, want) && want <= buf.Length && pos + want <= fe.length <= |file|
      modifies this`pos, this`blockValid, input`calls, buf, block
      ensures Valid() && block == old(block) && old(input.calls) <= input.calls
      ensures -1 <= r <= want && (r == 0 <==> want == 0)
      ensures pos == old(pos) + (if r == -1 then 0 else r)
      ensures r < want ==> Stopped(pos / 2048, old(input.calls))
      ensures want > 0 && Outside(fe, base, old(pos) / 2048) ==> r == -1 && input.calls == old(input.calls)
      ensures r > 0 ==> buf[..r] == file[old(pos)..old(pos) + r]
    {
      hide FileBlocks; hide BlockRun; hide LbaOf; hide NoZeroInside; hide Outside; hide Supported; hide StoppedWithin;
      var rest: nat, at: nat := want, 0;
      while rest > 0
        invariant Valid() && block == old(block) && old(input.calls) <= input.calls
        invariant at + rest == want && pos == old(pos) + at && Countable(pos, rest)
        invariant at == 0 ==> input.calls == old(input.calls)
        invariant at > 0 ==> !Outside(fe, base, old(pos) / 2048)
        invariant buf[..at] == file[old(pos)..old(pos) + at]
      {
        var chunk := ReadChunk(buf, at, rest);
        if chunk < 0 {
          if at != 0 { break; }
          return -1;
        }
        SliceAppend(file, old(pos), old(pos) + at, old(pos) + at + chunk);
        at := at + chunk;
        rest := rest - chunk;
      }
      return at;
    }

    /** `_read_inline`: the embedded bytes, then zeros up to the file's length. */
    method ReadInline(buf: array<u8>, bytes: nat) returns (r: nat)
      requires Valid() && fe.body.Inline?
      requires pos + bytes <= fe.length && bytes <= buf.Length
      modifies this`pos, buf
      ensures old(pos) == pos - bytes && r == bytes && (pos < 0x8000_0000_0000_0000)
      ensures buf[..r] == FileContents(fe, base, input.media)[old(pos)..pos]
    {
      var informationLength := |fe.body.content|;
      var padSize := 0;
      if pos + bytes > informationLength {
        padSize := if pos > informationLength then bytes else pos + bytes - informationLength;
        forall x | bytes - padSize <= x < bytes { buf[x] := 0; }
      }
      if padSize < bytes {
        forall x | 0 <= x < bytes - padSize { buf[x] := fe.body.content[pos + x]; }
      }
      ghost var contents := FileContents(fe, base, input.media);
      forall k | 0 <= k < bytes ensures buf[k] == contents[pos + k] {}
      assert buf[..bytes] == contents[pos..pos + bytes];
      pos := pos + bytes;
      return bytes;
    }

    /** `udfread_file_read` */
    method FileRead(buf: array<u8>, bytes: nat) returns (r: int)
      requires Valid() && block != buf
      requires buf.Length >= bytes
      requires fe.body.Ads? ==> Countable(pos, Wanted(fe.length, pos, bytes)) || bytes >= 0x8000_0000_0000_0000
      modifies this`pos, this`block, this`blockValid, input`calls, buf, block
      ensures Valid() && (block == old(block) || fresh(block)) && old(input.calls) <= input.calls
      ensures -1 <= r <= bytes
      ensures ReadStep(FileContents(fe, base, input.media), old(pos), bytes, r, if r > 0 then buf[..r] else [], pos,
                       fe.body.Ads? && pos < fe.length && Stopped(pos / 2048, old(input.calls)))
      ensures fe.body.Ads? && old(pos) < fe.length && bytes > 0 && Outside(fe, base, old(pos) / 2048) ==>
                r == -1 && input.calls == old(input.calls)
    {
      hide FileBlocks; hide BlockRun; hide LbaOf; hide NoZeroInside; hide FileContents; hide BlockAt; hide Supported;
      hide Outside;
      if bytes >= 0x8000_0000_0000_0000 { return -1; }
      if pos >= fe.length { return 0; }
      var rest := bytes;
      if pos + rest > fe.length { rest := fe.length - pos; }
      if fe.body.Inline? {
        r := ReadInline(buf, rest);
        return;
      }
      if block == null { block := new u8[2048]; }
      FileIsContents(0, fe.length);
      r := ReadChunks(buf, rest);
      if r > 0 { FileIsContents(old(pos), old(pos) + r); }
    }

    /** A seek to `target`, unless that does not fit 64 bits. */
    static predicate Moved(pos: nat, target: int, r: int, pos': nat) {
      && (0 <= target < 0x8000_0000_0000_0000 ==> r == target && pos' == target)
      && (-0x8000_0000_0000_0000 <= target < 0 ==> r == -1 && pos' == pos)
    }

    /** `udfread_file_seek` */
    method FileSeek(offset: int, whence: Whence) returns (r: int)
      requires Valid()
      modifies this`pos, this`blockValid
      ensures Valid()
      ensures SeekStep(fe.length, old(pos), offset, whence, r, pos)
      ensures whence.Set? ==> Moved(old(pos), offset, r, pos)
      ensures whence.Cur? ==> Moved(old(pos), old(pos) + offset, r, pos)
      ensures whence.End? && fe.length < 0x8000_0000_0000_0000 ==> Moved(old(pos), fe.length + offset, r, pos)
      ensures whence.Unknown? ==> r == -1 && pos == old(pos)
    {
      var target := offset;
      match whence {
        case Cur => target := ToInt64(pos + offset);
        case End => target := ToInt64(ToInt64(fe.length) + offset);
        case Set => target := ToInt64(offset);
        case Unknown => return -1;
      }
      if target >= 0 {
        pos := target;
        blockValid := false;
        return pos;
      }
      return -1;
    }
  }

  // --------------------------------------------------------------- every run

  ghost predicate Troubled(input: BlockInput, from: nat, to: nat) {
    exists c :: from <= c < to && input.Failed(c)
  }

  lemma StepAllowsMore(contents: seq<u8>, pos: nat, op: Op, out: Out, pos': nat, less: bool, more: bool)
    requires StreamStep(contents, pos, op, out, pos', less) && (less ==> more)
    ensures StreamStep(contents, pos, op, out, pos', more)
  {}

  lemma {:induction false} TroubleOnlyAllowsMore(contents: seq<u8>, pos: nat, ops: seq<Op>, outs: seq<Out>, pos': nat,
                                                 less: bool, more: bool)
    requires StreamRun(contents, pos, ops, outs, pos', less) && (less ==> more)
    ensures StreamRun(contents, pos, ops, outs, pos', more)
    decreases ops
  {
    if ops != [] {
      var mid: nat :| StreamStep(contents, pos, ops[0], outs[0], mid, less)
                   && StreamRun(contents, mid, ops[1..], outs[1..], pos', less);
      TroubleOnlyAllowsMore(contents, mid, ops[1..], outs[1..], pos', less, more);
      assert StreamStep(contents, pos, ops[0], outs[0], mid, more);
    }
  }

  /** Whatever the position, a read of this size has no chunk whose byte count wraps. */
  predicate Serves(fe: FileEntry, bytes: nat) {
    fe.body.Inline? || bytes < TWO_32 || fe.length < TWO_32 || bytes >= 0x8000_0000_0000_0000
  }

  ghost predicate Readable(fe: FileEntry, base: u32) { fe.body.Ads? ==> Whole(fe, base) }

  /** One call, and what the abstract stream makes of it. */
  method RunOne(f: UdfFile, op: Op) returns (out: Out)
    requires f.Valid() && (op.Read? ==> Serves(f.fe, op.bytes))
    modifies f, f.input, f.block
    ensures f.Valid() && (f.block == old(f.block) || fresh(f.block)) && old(f.input.calls) <= f.input.calls
    ensures StreamStep(FileContents(f.fe, f.base, f.input.media), old(f.pos), op, out, f.pos,
                       Troubled(f.input, old(f.input.calls), f.input.calls) || !Readable(f.fe, f.base))
  {
    hide FileContents; hide Outside; hide FileBlocks; hide NoZeroInside; hide LbaOf; hide BlockRun;
    match op {
      case Seek(offset, whence) =>
        var r := f.FileSeek(offset, whence);
        out := SeekOut(r);
      case Read(bytes) =>
        var buf := new u8[bytes];
        var r := f.FileRead(buf, bytes);
        out := ReadOut(r, if r > 0 then buf[..r] else []);
    }
  }

  /** Any run of seeks and reads on a handle, whatever the input answers, is a run
      of the abstract stream over the handle's contents. */
  method Run(f: UdfFile, ops: seq<Op>) returns (outs: seq<Out>)
    requires f.Valid()
    requires forall op :: op in ops && op.Read? ==> Serves(f.fe, op.bytes)
    modifies f, f.input, f.block
    ensures f.Valid() && (f.block == old(f.block) || fresh(f.block)) && old(f.input.calls) <= f.input.calls
    ensures StreamRun(FileContents(f.fe, f.base, f.input.media), old(f.pos), ops, outs, f.pos,
                      Troubled(f.input, old(f.input.calls), f.input.calls) || !Readable(f.fe, f.base))
    decreases ops
  {
    hide FileContents; hide StreamStep; hide Readable; hide Serves;
    if ops == [] { return []; }
    ghost var contents, before := FileContents(f.fe, f.base, f.input.media), f.input.calls;
    var out := RunOne(f, ops[0]);
    ghost var mid, midCalls := f.pos, f.input.calls;
    var rest := Run(f, ops[1..]);
    outs := [out] + rest;
    ghost var unreadable := !Readable(f.fe, f.base);
    ghost var all := Troubled(f.input, before, f.input.calls) || unreadable;
    StepAllowsMore(contents, old(f.pos), ops[0], out, mid, Troubled(f.input, before, midCalls) || unreadable, all);
    TroubleOnlyAllowsMore(contents, mid, ops[1..], rest, f.pos,
                          Troubled(f.input, midCalls, f.input.calls) || unreadable, all);
    assert outs[1..] == rest;
  }

  lemma SparseContents(fe: FileEntry, media: Media)
    requires fe.body == Ads([]) && fe.length > 0
    ensures FileContents(fe, 0, media)[..1] == [0]
  {
    var n := BlocksFor(fe.length);
    BlockRunSplit([], 0, media, 0, 1, n - 1);
    assert BlockRun([], 0, media, 0, 1) == Zeros(2048) + BlockRun([], 0, media, 1, 0);
    assert BlockRun([], 0, media, 0, n)[0] == 0;
  }

  /** A sparse file of the greatest documented length cannot be read at all: its first
      block, a hole, is refused without asking the input, though no read has failed. */
  method SparseFileFails(input: BlockInput) returns (r: int)
    modifies input
    ensures r == -1 && input.calls == old(input.calls)
    ensures var fe := FileEntry(FILE_LIMIT - 1, 5, 1, Ads([]));
            !Readable(fe, 0) && FileContents(fe, 0, input.media)[..1] == [0]
  {
    var fe := FileEntry(FILE_LIMIT - 1, 5, 1, Ads([]));
    var f := new UdfFile(input, 0, fe);
    var buf := new u8[1];
    assert Outside(fe, 0, 0);
    SparseContents(fe, input.media);
    r := f.FileRead(buf, 1);
  }

  /** With 2^32 bytes left from a block start, the loop of udfread_file_read makes no
      progress in any number of turns, although the input never fails and all the bytes
      are delivered every time: the chunk counts as 0 bytes. */
  method TurnsWithoutProgress(f: UdfFile, buf: array<u8>, turns: nat) returns (at: nat, rest: nat)
    requires f.Valid() && f.fe.body.Ads? && f.block != null && f.block != buf && Whole(f.fe, f.base)
    requires forall call: nat :: !f.input.Failed(call)
    requires f.pos % 2048 == 0 && f.pos + TWO_32 <= f.fe.length && TWO_32 <= buf.Length
    modifies f`pos, f`blockValid, f.input`calls, buf, f.block
    ensures at == 0 && rest == TWO_32 && f.pos == old(f.pos)
    ensures turns > 0 ==> buf[..TWO_32] == FileContents(f.fe, f.base, f.input.media)[f.pos..f.pos + TWO_32]
  {
    hide FileContents; hide Outside; hide FileBlocks; hide NoZeroInside; hide LbaOf; hide BlockRun;
    at, rest := 0, TWO_32;
    f.FileIsContents(0, f.fe.length);
    f.FileIsContents(f.pos, f.pos + TWO_32);
    for turn := 0 to turns
      invariant f.Valid() && f.block == old(f.block) && at == 0 && rest == TWO_32 && f.pos == old(f.pos)
      invariant turn > 0 ==> buf[..TWO_32] == f.file[f.pos..f.pos + TWO_32]
    {
      ghost var calls := f.input.calls;
      var chunk := f.ReadChunk(buf, at, rest);
      ChunkBytesExact(0x20_0000);
      assert !f.StoppedWithin(old(f.pos) / 2048, 0x20_0000, calls);
      at := at + chunk;
      rest := rest - chunk;
    }
  }

  function TotalBytes(ops: seq<Op>): nat {
    if ops == [] then 0 else (if ops[0].Read? then ops[0].bytes else 0) + TotalBytes(ops[1..])
  }

  function Data(outs: seq<Out>): seq<u8> {
    if outs == [] then [] else (if outs[0].ReadOut? then outs[0].data else []) + Data(outs[1..])
  }

  /** However a client cuts its reading into calls, and however often they fail or
      come up short, the pieces make up one stretch of the file without gap or
      repetition; without failures it ends where a single read would end. */
  lemma {:induction false} ReadsAreContiguous(contents: seq<u8>, pos: nat, ops: seq<Op>, outs: seq<Out>, pos': nat,
                                              trouble: bool)
    requires pos <= |contents| && StreamRun(contents, pos, ops, outs, pos', trouble)
    requires forall op :: op in ops ==> op.Read? && op.bytes < 0x8000_0000_0000_0000
    ensures pos <= pos' <= |contents| && Data(outs) == contents[pos..pos']
    ensures !trouble ==> pos' == pos + Wanted(|contents|, pos, TotalBytes(ops))
    decreases ops
  {
    if ops != [] {
      var mid: nat :| StreamStep(contents, pos, ops[0], outs[0], mid, trouble)
                   && StreamRun(contents, mid, ops[1..], outs[1..], pos', trouble);
      assert ops[0] in ops && forall op :: op in ops[1..] ==> op in ops;
      assert pos <= mid <= |contents| && outs[0].data == contents[pos..mid];
      ReadsAreContiguous(contents, mid, ops[1..], outs[1..], pos', trouble);
      SliceAppend(contents, pos, mid, pos');
    }
  }
}
