/** File entries and allocation extents: `_decode_file_entry`, `decode_file_entry`,
    `decode_ext_file_entry` and `decode_allocation_extent` of src/ecma167.c
    (ECMA-167, sections 14.9, 14.17 and 14.5 of part 4). */
module FileEntries {
  import opened Bytes
  import opened Records
  import opened Ecma167

  /** Bytes before the extended attributes: file entry or extended file entry. */
  function HeaderSize(ext: bool): nat { if ext then 216 else 176 }

  function AdCount(lAd: nat, adType: int): (n: nat)
    ensures n * AdSize(adType) <= lAd < (n + 1) * AdSize(adType)
  {
    match adType
    case 0 => lAd / 8
    case 1 => lAd / 16
    case _ => lAd / 20
  }

  /** What a file entry block means; the sums are those of 32-bit arithmetic. */
  function FileEntryOf(s: seq<u8>, ext: bool, partition: u16): Option<FileEntry>
    requires |s| == 2048
  {
    var h := HeaderSize(ext);
    var lEa, lAd := U32(s, h - 8), U32(s, h - 4);
    if lEa + lAd + h >= TWO_32 then None
    else
      var pAd := Wrap32(h + lEa);
      if Wrap32(pAd + lAd) > 2048 then None
      else if U16(s, 20) != 4 then None  // ICB strategy type
      else
        var adType := U16(s, 34) % 8;
        if adType > 3 then None
        else Some(FileEntry(U64(s, 56), s[27], adType,
                            if adType == 3 then Inline(s[pAd..pAd + lAd])
                            else Ads(AdsAt(s, pAd, adType, partition, AdCount(lAd, adType)))))
  }

  /** `decode_file_entry` and `decode_ext_file_entry`. */
  method DecodeFileEntry(p: seq<u8>, ext: bool, partition: u16) returns (fe: Option<FileEntry>)
    requires |p| == 2048
    ensures fe == FileEntryOf(p, ext, partition)
  {
    var h := HeaderSize(ext);
    var lEa, lAd := U32(p, h - 8), U32(p, h - 4);
    if lEa + lAd + h >= TWO_32 { return None; }
    var pAd := Wrap32(h + lEa);
    if Wrap32(pAd + lAd) > 2048 { return None; }
    if U16(p, 20) != 4 { return None; }
    var adType := U16(p, 34) % 8;
    if adType > 3 { return None; }
    if adType == 3 { return Some(FileEntry(U64(p, 56), p[27], adType, Inline(p[pAd..pAd + lAd]))); }
    var numAd := AdCount(lAd, adType);
    var ad := new LongAd[numAd](_ => LongAd(0, 0, 0, 0));
    DecodeFileAds(p, pAd, adType, partition, ad, 0, numAd);
    assert ad[..] == ad[0..0 + numAd];
    return Some(FileEntry(U64(p, 56), p[27], adType, Ads(ad[..])));
  }

  /** With the 64-bit guard in front, the 32-bit bounds check is exact: a block is
      refused iff its descriptors or data would reach past its end, or its strategy
      or descriptor type is not one of those supported. */
  lemma RefusedIff(s: seq<u8>, ext: bool, partition: u16)
    requires |s| == 2048
    ensures var h := HeaderSize(ext);
            FileEntryOf(s, ext, partition).None? <==>
              h + U32(s, h - 8) + U32(s, h - 4) > 2048 || U16(s, 20) != 4 || U16(s, 34) % 8 > 3
  {}

  /** A file entry as recorded, with extended attributes of any length and unused
      bytes of any value. */
  ghost predicate FileEntryLayout(s: seq<u8>, ext: bool, fe: FileEntry, flags: u16, lEa: nat, lAd: nat) {
    var h := if ext then 216 else 176;
    && |s| == 2048 && h + lEa + lAd <= 2048
    && s[20..22] == Put16(4) && s[27] == fe.fileType && s[34..36] == Put16(flags) && s[56..64] == Put64(fe.length)
    && s[h - 8..h - 4] == Put32(lEa) && s[h - 4..h] == Put32(lAd)
    && fe.adType == flags % 8
    && match fe.body
       case Inline(data) => fe.adType == 3 && lAd == |data| && s[h + lEa..h + lEa + lAd] == data
       case Ads(ads) =>
         fe.adType <= 2 && |ads| == lAd / FormSize(fe.adType) && AdsLayout(s, h + lEa, fe.adType, ads)
  }

  /** Either kind of file entry, with descriptors of any form or embedded data, decodes
      to what was recorded; short descriptors get the caller's partition. */
  lemma FileEntryRoundTrip(s: seq<u8>, ext: bool, partition: u16, fe: FileEntry, flags: u16, lEa: nat, lAd: nat)
    requires FileEntryLayout(s, ext, fe, flags, lEa, lAd)
    ensures FileEntryOf(s, ext, partition) ==
      Some(match fe.body
           case Inline(_) => fe
           case Ads(ads) => fe.(body := Ads(ResolvedAll(ads, fe.adType, partition))))
  {
    hide AdsAt; hide Put16; hide Put32; hide Put64; hide U16; hide U32; hide U64; hide AdsLayout; hide ResolvedAll;
    var h := HeaderSize(ext);
    Field16(s, 20, 4);
    Field16(s, 34, flags);
    Field64(s, 56, fe.length);
    Field32(s, h - 8, lEa);
    Field32(s, h - 4, lAd);
    if fe.body.Ads? { AdsRoundTrip(s, h + lEa, fe.adType, partition, fe.body.ads); }
  }

  // --------------------------------------------------------- allocation extents

  /** The descriptors in an allocation extent of `size` bytes; absent if malformed. */
  function ExtentAds(p: seq<u8>, size: nat, adType: int, partition: u16): Option<seq<LongAd>>
    requires |p| >= 24 && |p| >= size && 0 <= adType <= 2
  {
    var lAd := U32(p, 20);
    if size < 24 || size - 24 < lAd then None
    else Some(AdsAt(p, 24, adType, partition, AdCount(lAd, adType)))
  }

  /** An allocation extent of `size` bytes as recorded: lAd bytes of descriptors from byte 24. */
  ghost predicate ExtentLayout(p: seq<u8>, size: nat, adType: int, lAd: nat, ads: seq<LongAd>) {
    && 24 + lAd <= size <= |p| && lAd < 0x1_0000_0000 && p[20..24] == Put32(lAd)
    && |ads| == lAd / FormSize(adType) && AdsLayout(p, 24, adType, ads)
  }

  /** An extent with any number of descriptors of any form decodes to what was recorded. */
  lemma ExtentRoundTrip(p: seq<u8>, size: nat, adType: int, partition: u16, lAd: nat, ads: seq<LongAd>)
    requires 0 <= adType <= 2 && ExtentLayout(p, size, adType, lAd, ads)
    ensures ExtentAds(p, size, adType, partition) == Some(ResolvedAll(ads, adType, partition))
  {
    hide AdsAt; hide AdsLayout; hide Put32; hide U32; hide ResolvedAll;
    Field32(p, 20, lAd);
    AdsRoundTrip(p, 24, adType, partition, ads);
  }

  /** The descriptor array of a struct file_entry while it is being put together. */
  class AdList {
    var ad: array<LongAd>
    var numAd: nat

    constructor (ads: seq<LongAd>)
      ensures Valid() && Contents() == ads && fresh(ad)
    {
      ad := new LongAd[|ads|](i requires 0 <= i < |ads| => ads[i]);
      numAd := |ads|;
    }

    ghost predicate Valid() reads this { numAd <= ad.Length }

    ghost function Contents(): (s: seq<LongAd>)
      requires Valid()
      reads this, ad
    {
      ad[..numAd]
    }

    /** `decode_allocation_extent` */
    method AppendExtent(p: seq<u8>, size: nat, adType: int, partition: u16) returns (ok: bool)
      requires Valid() && |p| >= 24 && |p| >= size && 0 <= adType <= 2
      modifies this, ad
      ensures Valid() && (ad == old(ad) || fresh(ad))
      ensures ok == ExtentAds(p, size, adType, partition).Some?
      ensures Contents() == old(Contents()) + if ok then ExtentAds(p, size, adType, partition).value else []
      ensures forall n, ads :: ExtentLayout(p, size, adType, n, ads) ==>
        ok && Contents() == old(Contents()) + ResolvedAll(ads, adType, partition)
    {
      forall n, ads | ExtentLayout(p, size, adType, n, ads)
        ensures ExtentAds(p, size, adType, partition) == Some(ResolvedAll(ads, adType, partition))
      {
        ExtentRoundTrip(p, size, adType, partition, n, ads);
      }
      hide ExtentLayout; hide ResolvedAll;
      var lAd := U32(p, 20);
      if size < 24 || size - 24 < lAd { return false; }
      var more := AdCount(lAd, adType);
      if more < 1 {
        assert Contents() == old(Contents()) + [];
        return true;
      }
      var grown := new LongAd[1 + numAd + more](i requires 0 <= i < 1 + numAd + more reads this, ad =>
        if i < numAd && i < ad.Length then ad[i] else LongAd(0, 0, 0, 0));
      assert grown[..numAd] == Contents();
      ad := grown;
      DecodeFileAds(p, 24, adType, partition, ad, numAd, more);
      assert ad[..numAd + more] == ad[..numAd] + ad[numAd..numAd + more];
      numAd := numAd + more;
      return true;
    }
  }
}
