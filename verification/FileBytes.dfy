/** What a read delivers, byte by byte, in terms of the file entry and the disc alone. */
module FileBytes {
  import opened Bytes
  import opened Records
  import opened FileMap
  import opened Stream

  /** Number of blocks that the first i descriptors cover. */
  ghost function BlocksBefore(ads: seq<LongAd>, i: nat): nat
    requires i <= |ads|
  {
    if i == 0 then 0 else BlocksBefore(ads, i - 1) + (ads[i - 1].length + 2047) / 2048
  }

  /** Byte `off` of block j of an extent: from the disc if it is allocated and recorded (type
      0), and neither starts nor comes to stand at address 0; else zero. */
  ghost function ExtentByte(ad: LongAd, base: u32, media: Media, j: nat, off: nat): u8
    requires off < 2048
  {
    var at := (base + ad.lba + j) % 0x1_0000_0000;
    if ad.extentType == 0 && ad.lba != 0 && at != 0 then media(at)[off] else 0
  }

  /** v is byte k of the file. */
  ghost predicate FileByte(fe: FileEntry, base: u32, media: Media, k: nat, v: u8) {
    match fe.body
    case Inline(data) => v == if k < |data| then data[k] else 0
    case Ads(ads) =>
      && (k / 2048 >= BlocksBefore(ads, |ads|) ==> v == 0)
      && forall i :: 0 <= i < |ads| && BlocksBefore(ads, i) <= k / 2048 < BlocksBefore(ads, i + 1) ==>
           v == ExtentByte(ads[i], base, media, k / 2048 - BlocksBefore(ads, i), k % 2048)
  }

  lemma {:induction false} MapLength(ads: seq<LongAd>, base: u32, i: nat)
    requires i <= |ads|
    ensures |BlockMap(ads[..i], base)| == BlocksBefore(ads, i)
  {
    if i > 0 {
      MapLength(ads, base, i - 1);
      BlockMapSplit(ads, base, i - 1);
    }
  }

  lemma {:induction false} BlockRunByte(ads: seq<LongAd>, base: u32, media: Media, b: nat, n: nat, k: nat)
    requires k < n * 2048
    ensures BlockRun(ads, base, media, b, n)[k] == BlockAt(ads, base, media, b + k / 2048)[k % 2048]
    decreases n
  {
    hide BlockAt;
    if k >= 2048 {
      BlockRunByte(ads, base, media, b + 1, n - 1, k - 2048);
    }
  }

  /** The address that `udfread_file_lba` gives for block j of an extent. */
  lemma AddressIs(ads: seq<LongAd>, base: u32, i: nat, b: nat)
    requires i < |ads| && BlocksBefore(ads, i) <= b < BlocksBefore(ads, i + 1)
    ensures LbaOf(ads, base, b) ==
      if ads[i].extentType == 0 && ads[i].lba != 0 then (base + ads[i].lba + (b - BlocksBefore(ads, i))) % 0x1_0000_0000
      else 0
  {
    hide BlockMap; hide LbaOf;
    MapLength(ads, base, i);
    MapLength(ads, base, i + 1);
    LbaInside(ads, base, i, b);
  }

  lemma BlockByte(ads: seq<LongAd>, base: u32, media: Media, i: nat, b: nat, off: nat)
    requires i < |ads| && BlocksBefore(ads, i) <= b < BlocksBefore(ads, i + 1) && off < 2048
    ensures BlockAt(ads, base, media, b)[off] == ExtentByte(ads[i], base, media, b - BlocksBefore(ads, i), off)
  {
    hide LbaOf;
    AddressIs(ads, base, i, b);
  }

  lemma NoBlock(ads: seq<LongAd>, base: u32, media: Media, b: nat, off: nat)
    requires b >= BlocksBefore(ads, |ads|) && off < 2048
    ensures BlockAt(ads, base, media, b)[off] == 0
  {
    MapLength(ads, base, |ads|);
    assert ads[..|ads|] == ads;
  }

  /** The contents are what the descriptors say, byte by byte. */
  lemma ContentsAre(fe: FileEntry, base: u32, media: Media, k: nat)
    requires k < fe.length
    ensures FileByte(fe, base, media, k, FileContents(fe, base, media)[k])
  {
    hide BlockRun; hide BlockAt; hide ExtentByte; hide BlocksBefore;
    match fe.body
    case Inline(_) =>
    case Ads(ads) =>
      var n, b, off := BlocksFor(fe.length), k / 2048, k % 2048;
      BlockRunByte(ads, base, media, 0, n, k);
      if b >= BlocksBefore(ads, |ads|) { NoBlock(ads, base, media, b, off); }
      forall i | 0 <= i < |ads| && BlocksBefore(ads, i) <= b < BlocksBefore(ads, i + 1)
        ensures BlockAt(ads, base, media, b)[off] == ExtentByte(ads[i], base, media, b - BlocksBefore(ads, i), off)
      {
        BlockByte(ads, base, media, i, b, off);
      }
  }

  ghost predicate AllFileBytes(fe: FileEntry, base: u32, media: Media, from: nat, data: seq<u8>) {
    forall k :: 0 <= k < |data| ==> FileByte(fe, base, media, from + k, data[k])
  }

  lemma SliceIsFileBytes(fe: FileEntry, base: u32, media: Media, from: nat, to: nat)
    requires from <= to <= fe.length
    ensures AllFileBytes(fe, base, media, from, FileContents(fe, base, media)[from..to])
  {
    hide FileContents; hide FileByte;
    forall k | 0 <= k < to - from
      ensures FileByte(fe, base, media, from + k, FileContents(fe, base, media)[from..to][k])
    {
      ContentsAre(fe, base, media, from + k);
    }
  }

  /** The input failed in one of the calls. */
  ghost predicate SomeFailed(input: BlockInput, from: nat, to: nat) {
    exists call :: from <= call < to && input.answer(call) < 1
  }

  /** `udfread_file_read` on any handle: every byte delivered is that byte of the file, and
      without failures all that were asked for and exist are delivered. */
  method ReadBytes(f: UdfFile, buf: array<u8>, bytes: nat) returns (r: int)
    requires f.Valid() && f.block != buf && buf.Length >= bytes && Serves(f.fe, bytes)
    modifies f, f.input, buf, f.block
    ensures f.Valid() && old(f.input.calls) <= f.input.calls
    ensures r == -1 || 0 <= r <= bytes
    ensures f.pos == old(f.pos) + (if r == -1 then 0 else r)
    ensures r > 0 ==> AllFileBytes(f.fe, f.base, f.input.media, old(f.pos), buf[..r])
    ensures bytes >= 0x8000_0000_0000_0000 ==> r == -1
    ensures bytes < 0x8000_0000_0000_0000 && !SomeFailed(f.input, old(f.input.calls), f.input.calls)
            && (f.fe.body.Ads? ==> f.fe.length <= 0x7FF_FFFF_F800) ==>
      r == if old(f.pos) >= f.fe.length then 0
           else if old(f.pos) + bytes >= f.fe.length then f.fe.length - old(f.pos)
           else bytes
  {
    hide FileContents; hide Outside; hide FileBlocks; hide NoZeroInside; hide LbaOf; hide BlockRun; hide AllFileBytes;
    ghost var calls := f.input.calls;
    r := f.FileRead(buf, bytes);
    if f.fe.body.Ads? && f.fe.length <= MAX_LENGTH { WholeIff(f.fe, f.base); }
    if r > 0 { SliceIsFileBytes(f.fe, f.base, f.input.media, old(f.pos), f.pos); }
  }
}
