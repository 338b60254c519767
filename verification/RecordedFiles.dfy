/** File entries and directories as they stand on a disc, and what reading them gives.
    Everything here is said of bytes at absolute block addresses. */
module RecordedFiles {
  import opened Bytes
  import opened Records
  import opened Ecma167
  import opened FileEntries
  import opened Metadata
  import opened AdChain
  import opened PathLookup
  import opened Directories

  /** d is the extent that a descriptor in a partition points to, tagged `id`. */
  ghost predicate ExtentStands(img: Metadata.Image, parts: Partitions, ad: LongAd, d: seq<u8>, id: u16) {
    && ad.length > 0 && |d| == (ad.length + 2047) / 2048 * 2048 && Tagged(d, id)
    && exists start: u32, mirror: u32 :: Located(parts, ad.partition, start, mirror) && StandsAt(img, start + ad.lba, d)
  }

  lemma StandingExtentIsRead(img: Metadata.Image, parts: Partitions, ad: LongAd, d: seq<u8>, id: u16)
    requires ExtentStands(img, parts, ad, d, id)
    ensures MetadataAt(img, parts, ad) == Some(d) && |d| >= 2048 && Tag(d[..2048]) == id
  {
    hide Tag; hide Tagged; hide MetadataAt; hide StandsAt;
    var start: u32, mirror: u32 :| Located(parts, ad.partition, start, mirror) && StandsAt(img, start + ad.lba, d);
    StandingIsRead(img, parts, ad, start, mirror, d, id);
  }

  /** Neither copy of the first block of an extent can be used. */
  ghost predicate IsLost(img: Metadata.Image, parts: Partitions, ad: LongAd) {
    exists start: u32, mirror: u32 ::
      Located(parts, ad.partition, start, mirror) && !Obtainable(img, start, mirror, ad.lba, 0)
  }

  lemma LostExtentIsNotRead(img: Metadata.Image, parts: Partitions, ad: LongAd)
    requires IsLost(img, parts, ad)
    ensures MetadataAt(img, parts, ad) == None
  {
    hide Obtainable; hide MetadataAt;
    var start: u32, mirror: u32 :|
      Located(parts, ad.partition, start, mirror) && !Obtainable(img, start, mirror, ad.lba, 0);
    WhichCopy(img, parts, ad, start, mirror);
  }

  // ----------------------------------------------------------- allocation extents

  /** An allocation extent (section 14.5 of part 4): its blocks, and the descriptors in it. */
  datatype Extent = Extent(data: seq<u8>, lAd: nat, ads: seq<LongAd>)

  ghost predicate NoneContinues(ads: seq<LongAd>) { forall i :: 0 <= i < |ads| ==> ads[i].extentType != 3 }

  ghost predicate Overflows(d: seq<u8>, size: nat) {
    |d| >= 24 && exists lAd: u32 :: d[20..24] == Put32(lAd) && 24 + lAd > size
  }

  /** No descriptors can be had from the extent at ptr: it is empty, its first block cannot be
      used or has another tag, or its descriptors would reach past its end. */
  ghost predicate NoDescriptors(img: Metadata.Image, parts: Partitions, ptr: LongAd) {
    || ptr.length == 0 || IsLost(img, parts, ptr)
    || (exists d, id :: ExtentStands(img, parts, ptr, d, id) && id != 258)
    || (exists d :: ExtentStands(img, parts, ptr, d, 258) && Overflows(d, ptr.length))
  }

  /** The descriptors without one that continues them. */
  function Kept(ads: seq<LongAd>): seq<LongAd> {
    if ads != [] && ads[|ads| - 1].extentType == 3 then ads[..|ads| - 1] else ads
  }

  /** Descriptors recorded in `partition`, continued in extents one after another, each by a
      descriptor of type 3 at the end of the one before; the last one may be to no avail. */
  ghost predicate ChainStands(img: Metadata.Image, parts: Partitions, form: int, partition: u16, ads: seq<LongAd>,
                              extents: seq<Extent>)
    requires 0 <= form <= 2
    decreases |extents|
  {
    if extents == [] then
      NoneContinues(Kept(ads))
      && (Kept(ads) != ads ==> NoDescriptors(img, parts, Resolved(ads[|ads| - 1], form, partition)))
    else
      var x, ptr := extents[0], if ads == [] then LongAd(0, 0, 0, 0) else Resolved(ads[|ads| - 1], form, partition);
      && ads != [] && NoneContinues(ads[..|ads| - 1]) && ptr.extentType == 3
      && ExtentStands(img, parts, ptr, x.data, 258) && ExtentLayout(x.data, ptr.length, form, x.lAd, x.ads)
      && ChainStands(img, parts, form, ptr.partition, x.ads, extents[1..])
  }

  /** The descriptors of an entry and of its extents, without those that only continue. */
  function Joined(form: int, partition: u16, ads: seq<LongAd>, extents: seq<Extent>): seq<LongAd>
    decreases |extents|
  {
    if extents == [] || ads == [] then ResolvedAll(Kept(ads), form, partition)
    else
      ResolvedAll(ads[..|ads| - 1], form, partition)
      + Joined(form, Resolved(ads[|ads| - 1], form, partition).partition, extents[0].ads, extents[1..])
  }

  /** The same, level by level. */
  function Levels(form: int, partition: u16, ads: seq<LongAd>, extents: seq<Extent>): (levels: seq<seq<LongAd>>)
    ensures |levels| >= 1
    decreases |extents|
  {
    if extents == [] || ads == [] then [ResolvedAll(Kept(ads), form, partition)]
    else
      [ResolvedAll(ads[..|ads| - 1], form, partition)]
      + Levels(form, Resolved(ads[|ads| - 1], form, partition).partition, extents[0].ads, extents[1..])
  }

  lemma {:induction false} LevelsJoin(form: int, partition: u16, ads: seq<LongAd>, extents: seq<Extent>)
    ensures Flatten(Levels(form, partition, ads, extents)) == Joined(form, partition, ads, extents)
    decreases |extents|
  {
    hide ResolvedAll; hide Resolved; hide Kept;
    var levels := Levels(form, partition, ads, extents);
    if extents == [] || ads == [] {
      assert levels[1..] == [];
      assert levels[0] + [] == levels[0];
    } else {
      var p := Resolved(ads[|ads| - 1], form, partition).partition;
      LevelsJoin(form, p, extents[0].ads, extents[1..]);
      assert levels[1..] == Levels(form, p, extents[0].ads, extents[1..]);
    }
  }

  lemma ResolvedKeepsType(ads: seq<LongAd>, form: int, partition: u16)
    requires NoneContinues(ads)
    ensures AllPlain(ResolvedAll(ads, form, partition))
  {}

  lemma ExtentIsLong(p: seq<u8>, size: nat, form: int, lAd: nat, ads: seq<LongAd>)
    requires ExtentLayout(p, size, form, lAd, ads)
    ensures 24 <= size <= |p|
  {}

  lemma ExtentIsLevel(c: Context, ptr: LongAd, x: Extent)
    requires 0 <= c.adType <= 2 && ExtentStands(c.img, c.parts, ptr, x.data, 258)
    requires ExtentLayout(x.data, ptr.length, c.adType, x.lAd, x.ads)
    ensures Level(c, ptr) == Some(ResolvedAll(x.ads, c.adType, ptr.partition))
  {
    hide MetadataAt; hide ExtentAds; hide ExtentLayout; hide ExtentStands; hide ResolvedAll; hide Tag;
    StandingExtentIsRead(c.img, c.parts, ptr, x.data, 258);
    ExtentIsLong(x.data, ptr.length, c.adType, x.lAd, x.ads);
    ExtentRoundTrip(x.data, ptr.length, c.adType, ptr.partition, x.lAd, x.ads);
  }

  lemma NoDescriptorsNoLevel(c: Context, ptr: LongAd)
    requires 0 <= c.adType <= 2 && NoDescriptors(c.img, c.parts, ptr)
    ensures Level(c, ptr).None?
  {
    hide ExtentStands; hide IsLost; hide Tag; hide U32; hide AdsAt;
    if ptr.length > 0 {
      if IsLost(c.img, c.parts, ptr) {
        LostExtentIsNotRead(c.img, c.parts, ptr);
      } else if d, id :| ExtentStands(c.img, c.parts, ptr, d, id) && id != 258 {
        StandingExtentIsRead(c.img, c.parts, ptr, d, id);
      } else {
        var d :| ExtentStands(c.img, c.parts, ptr, d, 258) && Overflows(d, ptr.length);
        StandingExtentIsRead(c.img, c.parts, ptr, d, 258);
        var lAd: u32 :| d[20..24] == Put32(lAd) && 24 + lAd > ptr.length;
        Field32(d, 20, lAd);
      }
    }
  }

  lemma {:induction false} StandingChain(c: Context, partition: u16, ads: seq<LongAd>, extents: seq<Extent>)
    requires 0 <= c.adType <= 2 && ChainStands(c.img, c.parts, c.adType, partition, ads, extents)
    ensures ChainOf(c, ResolvedAll(ads, c.adType, partition), Levels(c.adType, partition, ads, extents))
    decreases |extents|
  {
    hide Level; hide ExtentStands; hide ExtentLayout; hide NoneContinues; hide AllPlain; hide NoDescriptors;
    var all, levels := ResolvedAll(ads, c.adType, partition), Levels(c.adType, partition, ads, extents);
    if extents == [] {
      ResolvedKeepsType(Kept(ads), c.adType, partition);
      if Kept(ads) != ads {
        var ptr := Resolved(ads[|ads| - 1], c.adType, partition);
        NoDescriptorsNoLevel(c, ptr);
        assert all == levels[0] + [ptr];
      }
    } else {
      var x, ptr := extents[0], Resolved(ads[|ads| - 1], c.adType, partition);
      ResolvedKeepsType(ads[..|ads| - 1], c.adType, partition);
      ExtentIsLevel(c, ptr, x);
      StandingChain(c, ptr.partition, x.ads, extents[1..]);
      assert levels[1..] == Levels(c.adType, ptr.partition, x.ads, extents[1..]);
      assert all[..|ads| - 1] == levels[0] && all[|ads| - 1] == ptr;
    }
  }

  // ------------------------------------------------------------------ file entries

  /** A file entry, its extent on the disc, and the extents it continues in. */
  datatype Recording = Recording(data: seq<u8>, ext: bool, fe: FileEntry, flags: u16, lEa: nat, lAd: nat,
                                 extents: seq<Extent>)

  /** A file entry (tag 261) or extended file entry (tag 266) stands at icb. */
  ghost predicate EntryStands(img: Metadata.Image, parts: Partitions, icb: LongAd, r: Recording) {
    && ExtentStands(img, parts, icb, r.data, if r.ext then 266 else 261)
    && FileEntryLayout(r.data[..2048], r.ext, r.fe, r.flags, r.lEa, r.lAd)
    && (r.fe.body.Ads? ==>
          0 <= r.fe.adType <= 2 && ChainStands(img, parts, r.fe.adType, icb.partition, r.fe.body.ads, r.extents))
  }

  /** The entry with all its descriptors. */
  function Complete(r: Recording, partition: u16): FileEntry {
    match r.fe.body
    case Inline(_) => r.fe
    case Ads(ads) => r.fe.(body := Ads(Joined(r.fe.adType, partition, ads, r.extents)))
  }

  lemma StandingBaseEntry(img: Metadata.Image, parts: Partitions, icb: LongAd, r: Recording)
    requires EntryStands(img, parts, icb, r)
    ensures BaseEntry(img, parts, icb) ==
      Some(match r.fe.body
           case Inline(_) => r.fe
           case Ads(ads) => r.fe.(body := Ads(ResolvedAll(ads, r.fe.adType, icb.partition))))
  {
    hide MetadataAt; hide FileEntryOf; hide FileEntryLayout; hide ExtentStands; hide ChainStands; hide Tag;
    hide ResolvedAll;
    StandingExtentIsRead(img, parts, icb, r.data, if r.ext then 266 else 261);
    FileEntryRoundTrip(r.data[..2048], r.ext, icb.partition, r.fe, r.flags, r.lEa, r.lAd);
  }

  lemma {:induction false} FollowedAgrees(c: Context, ads: seq<LongAd>, m: nat, n: nat)
    requires 0 <= c.adType <= 2 && Ends(c, ads, m) && Ends(c, ads, n)
    ensures Followed(c, ads, m) == Followed(c, ads, n)
    decreases m
  {
    hide Level; hide Turned;
    if Goes(c, ads) { FollowedAgrees(c, Turned(c, ads), m - 1, n - 1); }
  }

  lemma {:induction false} LevelCount(img: Metadata.Image, parts: Partitions, form: int, partition: u16,
                                      ads: seq<LongAd>, extents: seq<Extent>)
    requires 0 <= form <= 2 && ChainStands(img, parts, form, partition, ads, extents)
    ensures |Levels(form, partition, ads, extents)| == |extents| + 1
    decreases |extents|
  {
    hide ExtentStands; hide ExtentLayout; hide ResolvedAll; hide NoneContinues; hide NoDescriptors; hide Kept;
    if extents != [] {
      LevelCount(img, parts, form, Resolved(ads[|ads| - 1], form, partition).partition, extents[0].ads, extents[1..]);
    }
  }

  /** What stands on the disc as a file entry, continued in any number of extents, reads as
      recorded, with all descriptors in order. */
  lemma StandingEntryIsRead(img: Metadata.Image, parts: Partitions, icb: LongAd, r: Recording)
    requires EntryStands(img, parts, icb, r)
    ensures ExtentsEnd(img, parts, icb, |r.extents| + 1)
    ensures forall n: nat :: ExtentsEnd(img, parts, icb, n) ==>
      FileEntryAt(img, parts, icb, n) == Some(Complete(r, icb.partition))
  {
    hide BaseEntry; hide ChainStands; hide Ends; hide Followed; hide ResolvedAll; hide ChainOf; hide Joined;
    StandingBaseEntry(img, parts, icb, r);
    match r.fe.body
    case Inline(_) =>
    case Ads(ads) =>
      var c := Context(img, parts, r.fe.adType);
      var levels := Levels(r.fe.adType, icb.partition, ads, r.extents);
      var all := ResolvedAll(ads, r.fe.adType, icb.partition);
      StandingChain(c, icb.partition, ads, r.extents);
      ChainIsFlattened(c, all, levels);
      LevelsJoin(r.fe.adType, icb.partition, ads, r.extents);
      LevelCount(img, parts, r.fe.adType, icb.partition, ads, r.extents);
      forall n: nat | Ends(c, all, n)
        ensures Followed(c, all, n) == Joined(r.fe.adType, icb.partition, ads, r.extents)
      {
        FollowedAgrees(c, all, n, |levels|);
      }
  }

  /** What is lost, or has another tag, is no file entry. */
  lemma OtherTagIsRefused(img: Metadata.Image, parts: Partitions, icb: LongAd, d: seq<u8>, id: u16, n: nat)
    requires IsLost(img, parts, icb) || (ExtentStands(img, parts, icb, d, id) && id != 261 && id != 266)
    ensures ExtentsEnd(img, parts, icb, n) && FileEntryAt(img, parts, icb, n) == None
  {
    hide MetadataAt; hide IsLost; hide ExtentStands; hide Tag;
    if IsLost(img, parts, icb) {
      LostExtentIsNotRead(img, parts, icb);
    } else {
      StandingExtentIsRead(img, parts, icb, d, id);
    }
  }

  /** `udf_read_file_entry` on such a disc. */
  method ReadStandingEntry(img: Metadata.Image, parts: Partitions, icb: LongAd, ghost r: Recording)
      returns (fe: Option<FileEntry>)
    requires EntryStands(img, parts, icb, r)
    ensures fe == Some(Complete(r, icb.partition))
  {
    hide EntryStands; hide ExtentsEnd; hide FileEntryAt; hide Complete;
    StandingEntryIsRead(img, parts, icb, r);
    fe := ReadFileEntry(img, parts, icb, |r.extents| + 1);
  }

  // ------------------------------------------------------------------- directories

  /** A directory (file type 4) with identifiers rs stands at icb: embedded in its entry, or in
      the extent `data` that its first descriptor points to. */
  ghost predicate DirectoryStands(img: Metadata.Image, parts: Partitions, icb: LongAd, r: Recording, data: seq<u8>,
                                  rs: seq<Record>)
  {
    && EntryStands(img, parts, icb, r) && r.fe.fileType == 4
    && (forall i :: 0 <= i < |rs| ==> ValidRecord(rs[i]))
    && match r.fe.body
       case Inline(content) => content == Recorded(rs)
       case Ads(ads) =>
         var all := Joined(r.fe.adType, icb.partition, ads, r.extents);
         && all != [] && all[0].length == |Recorded(rs)|
         && ExtentStands(img, parts, all[0], data, 257) && data[..|Recorded(rs)|] == Recorded(rs)
  }

  lemma RecordedDirectoryReads(rs: seq<Record>)
    requires forall i :: 0 <= i < |rs| ==> ValidRecord(rs[i])
    ensures ParsedDirectory(Recorded(rs)).ok && EntriesOf(ParsedDirectory(Recorded(rs)).files) == Expected(rs)
  {
    hide Tag; hide Parse;
    DirectoryRoundTrip(rs);
    NothingWithoutATag(Recorded(rs));
  }

  /** It reads as its identifiers. */
  lemma StandingDirectoryIsRead(img: Metadata.Image, parts: Partitions, icb: LongAd, r: Recording, data: seq<u8>,
                                rs: seq<Record>)
    requires DirectoryStands(img, parts, icb, r, data, rs)
    ensures ExtentsEnd(img, parts, icb, |r.extents| + 1)
    ensures forall n: nat :: ExtentsEnd(img, parts, icb, n) ==>
      ReadDirAt(img, parts, icb, n).ok && EntriesOf(ReadDirAt(img, parts, icb, n).files) == Expected(rs)
  {
    hide EntryStands; hide ExtentsEnd; hide FileEntryAt; hide MetadataAt; hide ParsedDirectory;
    hide Recorded; hide Expected;
    hide Joined; hide ExtentStands;
    StandingEntryIsRead(img, parts, icb, r);
    RecordedDirectoryReads(rs);
    match r.fe.body
    case Inline(_) =>
    case Ads(ads) =>
      var first := Joined(r.fe.adType, icb.partition, ads, r.extents)[0];
      StandingExtentIsRead(img, parts, first, data, 257);
  }

  /** Any other file is refused. */
  lemma OtherFileIsRefused(img: Metadata.Image, parts: Partitions, icb: LongAd, r: Recording, n: nat)
    requires EntryStands(img, parts, icb, r) && r.fe.fileType != 4 && ExtentsEnd(img, parts, icb, n)
    ensures !ReadDirAt(img, parts, icb, n).ok
  {
    hide EntryStands; hide ExtentsEnd; hide FileEntryAt; hide MetadataAt; hide ParsedDirectory;
    StandingEntryIsRead(img, parts, icb, r);
  }

  lemma LostEntryIsRefused(img: Metadata.Image, parts: Partitions, icb: LongAd, n: nat)
    requires IsLost(img, parts, icb)
    ensures ExtentsEnd(img, parts, icb, n) && !ReadDirAt(img, parts, icb, n).ok
  {
    hide MetadataAt; hide IsLost;
    LostExtentIsNotRead(img, parts, icb);
  }

  /** `udf_read_dir` on such a disc. */
  method ReadStandingDirectory(img: Metadata.Image, parts: Partitions, icb: LongAd, dir: DirEntries,
                               ghost r: Recording, ghost data: seq<u8>, ghost rs: seq<Record>)
      returns (ok: bool)
    requires DirectoryStands(img, parts, icb, r, data, rs) && dir.files == None
    modifies dir
    ensures ok && dir.Entries() == Expected(rs)
  {
    hide DirectoryStands; hide ExtentsEnd; hide ReadDirAt; hide Expected;
    StandingDirectoryIsRead(img, parts, icb, r, data, rs);
    ok := ReadDir(img, parts, icb, dir, |r.extents| + 1);
  }
}
