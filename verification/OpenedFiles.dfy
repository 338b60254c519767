/** From a file entry on the disc to the bytes that a handle delivers: `_file_open` of
    src/udfread.c joins `udf_read_file_entry` to the byte stream. */
module OpenedFiles {
  import opened Bytes
  import opened Records
  import opened FileMap
  import opened Metadata
  import opened AdChain
  import Stream

  /** The last level of the chain has a pointer. */
  ghost predicate EndsInPointer(c: Context, ads: seq<LongAd>, levels: seq<seq<LongAd>>)
    requires 0 <= c.adType <= 2 && ChainOf(c, ads, levels)
    decreases |levels|
  {
    if |levels| == 1 then |ads| == |levels[0]| + 1
    else EndsInPointer(c, Level(c, ads[|levels[0]|]).value, levels[1..])
  }

  /** The entry at icb continues in a chain of levels, the last of which ends in a pointer
      that cannot be followed. */
  ghost predicate BreaksOff(img: Image, parts: Partitions, icb: LongAd, levels: seq<seq<LongAd>>) {
    var fe := BaseEntry(img, parts, icb);
    fe.Some? && fe.value.body.Ads? &&
    (BaseEntryType(img, parts, icb);
     var c := Context(img, parts, fe.value.adType);
     ChainOf(c, fe.value.body.ads, levels) && EndsInPointer(c, fe.value.body.ads, levels))
  }

  /** Reading such an entry succeeds, with the descriptors that could be read. */
  lemma BrokenEntryOpens(img: Image, parts: Partitions, icb: LongAd, levels: seq<seq<LongAd>>)
    requires BreaksOff(img, parts, icb, levels)
    ensures ExtentsEnd(img, parts, icb, |levels|)
    ensures var fe := FileEntryAt(img, parts, icb, |levels|);
            fe == Some(BaseEntry(img, parts, icb).value.(body := Ads(Flatten(levels))))
  {
    hide ChainOf; hide EndsInPointer;
    var fe := BaseEntry(img, parts, icb).value;
    BaseEntryType(img, parts, icb);
    ChainIsFlattened(Context(img, parts, fe.adType), fe.body.ads, levels);
  }

  lemma {:induction false} ZerosPastTheMap(ads: seq<LongAd>, base: u32, media: Stream.Media, b: nat, n: nat)
    requires b >= |BlockMap(ads, base)|
    ensures Stream.BlockRun(ads, base, media, b, n) == Zeros(n * 2048)
    decreases n
  {
    if n > 0 {
      ZerosPastTheMap(ads, base, media, b + 1, n - 1);
      assert Zeros(2048) + Zeros((n - 1) * 2048) == Zeros(n * 2048);
    }
  }

  /** Every byte of a file past its last descriptor is zero. */
  lemma ContentsPastTheMap(fe: FileEntry, base: u32, media: Stream.Media)
    requires fe.body.Ads? && |BlockMap(fe.body.ads, base)| * 2048 <= fe.length
    ensures var from := |BlockMap(fe.body.ads, base)| * 2048;
            Stream.FileContents(fe, base, media)[from..] == Zeros(fe.length - from)
  {
    hide BlockMap; hide Stream.BlockRun;
    var m, n := |BlockMap(fe.body.ads, base)|, BlocksFor(fe.length);
    Stream.BlockRunSplit(fe.body.ads, base, media, 0, m, n - m);
    ZerosPastTheMap(fe.body.ads, base, media, m, n - m);
  }

  lemma PartIsZeros(s: seq<u8>, from: nat, lo: nat, hi: nat)
    requires from <= lo <= hi <= |s| && s[from..] == Zeros(|s| - from)
    ensures s[lo..hi] == Zeros(hi - lo)
  {
    forall k | lo <= k < hi ensures s[k] == 0 { assert s[k] == s[from..][k - from]; }
  }

  /** Reading past the last descriptor of an open file. */
  method ReadPastTheMap(f: Stream.UdfFile, at: nat, bytes: nat) returns (r: int, data: seq<u8>)
    requires f.Valid() && f.block == null && f.fe.body.Ads? && f.fe.length <= Stream.MAX_LENGTH
    requires |BlockMap(f.fe.body.ads, f.base)| * 2048 <= at && at + bytes <= f.fe.length && bytes < TWO_32
    modifies f, f.input
    ensures old(f.input.calls) <= f.input.calls
    ensures (r == |data| || (r == -1 && data == [])) && data == Zeros(|data|)
    ensures r < bytes ==> Stream.Troubled(f.input, old(f.input.calls), f.input.calls)
  {
    hide BlockMap; hide NoZeroInside; hide Stream.FileContents; hide Stream.Outside; hide Stream.FileBlocks; hide LbaOf;
    Stream.WholeIff(f.fe, f.base);
    ContentsPastTheMap(f.fe, f.base, f.input.media);
    var moved := f.FileSeek(at, Stream.Set);
    assert moved == at == f.pos;
    var buf := new u8[bytes];
    r := f.FileRead(buf, bytes);
    data := if r > 0 then buf[..r] else [];
    PartIsZeros(Stream.FileContents(f.fe, f.base, f.input.media), |BlockMap(f.fe.body.ads, f.base)| * 2048, at, f.pos);
  }

  /** If an allocation extent cannot be read, a handle on the file opens all the same. What
      lies past the descriptors read before it is delivered as zeros: no read fails, or comes
      up short, unless the input does. */
  method ReadPastLostExtent(img: Image, parts: Partitions, icb: LongAd, ghost levels: seq<seq<LongAd>>,
                            input: Stream.BlockInput, at: nat, bytes: nat)
      returns (r: int, data: seq<u8>)
    requires BreaksOff(img, parts, icb, levels)
    requires var fe := BaseEntry(img, parts, icb).value;
             && fe.length <= Stream.MAX_LENGTH && NoZeroInside(Flatten(levels), parts.p0.lba)
             && |BlockMap(Flatten(levels), parts.p0.lba)| * 2048 <= at && at + bytes <= fe.length && bytes < TWO_32
    modifies input
    ensures r == |data| || (r == -1 && data == [])
    ensures data == Zeros(|data|)
    ensures r < bytes ==> Stream.Troubled(input, old(input.calls), input.calls)
  {
    hide BaseEntry; hide FileEntryAt; hide BlockMap; hide NoZeroInside; hide BreaksOff; hide ExtentsEnd;
    BrokenEntryOpens(img, parts, icb, levels);
    var fe := ReadFileEntry(img, parts, icb, |levels|);
    var f := new Stream.UdfFile(input, parts.p0.lba, fe.value);
    r, data := ReadPastTheMap(f, at, bytes);
  }
}
