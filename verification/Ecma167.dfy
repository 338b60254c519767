/** Decoders of src/ecma167.c for the records of ECMA-167 (part 3, section 7.2 and
    part 4, section 14), with the recorded layouts they must read back. */
module Ecma167 {
  import opened Bytes
  import opened Records

  // ------------------------------------------------------------ descriptor tag

  /** Sum of the first k tag bytes, leaving out byte 4, the checksum itself. */
  function TagSum(s: seq<u8>, k: nat): nat
    requires k <= |s|
  {
    if k == 0 then 0 else TagSum(s, k - 1) + if k - 1 == 4 then 0 else s[k - 1] as int
  }

  function Tag(s: seq<u8>): (id: int)
    requires |s| >= 16
    ensures -1 <= id < 0x1_0000
  {
    if TagSum(s, 16) % 0x100 == s[4] as int then U16(s, 0) else TAG_INVALID
  }

  lemma TagSumStep(s: seq<u8>, k: nat)
    requires k < |s|
    ensures TagSum(s, 0) == 0 && TagSum(s, k + 1) == TagSum(s, k) + if k == 4 then 0 else s[k] as int
  {}

  /** `decode_descriptor_tag`; the checksum variable is 8 bits wide. */
  method DecodeDescriptorTag(buf: seq<u8>) returns (id: int)
    requires |buf| >= 16
    ensures id == Tag(buf)
  {
    hide TagSum;
    TagSumStep(buf, 4);
    var checksum := 0;
    for i := 0 to 4
      invariant checksum == TagSum(buf, i) % 0x100
    {
      TagSumStep(buf, i);
      checksum := (checksum + buf[i] as int) % 0x100;
    }
    for i := 5 to 16
      invariant checksum == TagSum(buf, i) % 0x100
    {
      TagSumStep(buf, i);
      checksum := (checksum + buf[i] as int) % 0x100;
    }
    if checksum != buf[4] as int { return TAG_INVALID; }
    return U16(buf, 0);
  }

  /** A descriptor tag as recorded (section 7.2 of part 3): identifier in bytes 0 and 1, in
      byte 4 the sum of the other fifteen. */
  predicate Tagged(s: seq<u8>, id: u16) {
    && |s| >= 16 && s[0] as int + 0x100 * s[1] as int == id
    && s[4] as int == (s[0] as int + s[1] as int + s[2] as int + s[3] as int + s[5] as int
                       + s[6] as int + s[7] as int + s[8] as int + s[9] as int + s[10] as int
                       + s[11] as int + s[12] as int + s[13] as int + s[14] as int + s[15] as int) % 0x100
  }

  lemma FourBytes(s: seq<u8>, k: nat)
    requires k + 4 <= |s| && (k == 0 || k > 4)
    ensures TagSum(s, k + 4) == TagSum(s, k) + s[k] as int + s[k + 1] as int + s[k + 2] as int + s[k + 3] as int
  {
    hide TagSum;
    TagSumStep(s, k);
    TagSumStep(s, k + 1);
    TagSumStep(s, k + 2);
    TagSumStep(s, k + 3);
  }

  lemma TagSumIs(s: seq<u8>)
    requires |s| >= 16
    ensures TagSum(s, 16) == s[0] as int + s[1] as int + s[2] as int + s[3] as int + s[5] as int
                             + s[6] as int + s[7] as int + s[8] as int + s[9] as int + s[10] as int
                             + s[11] as int + s[12] as int + s[13] as int + s[14] as int + s[15] as int
  {
    hide TagSum;
    FourBytes(s, 0);
    TagSumStep(s, 4);
    TagSumStep(s, 5);
    TagSumStep(s, 6);
    TagSumStep(s, 7);
    FourBytes(s, 8);
    FourBytes(s, 12);
  }

  /** A tag is accepted, and taken for a given one, if and only if it is so recorded. */
  lemma TaggedIff(s: seq<u8>, id: u16)
    requires |s| >= 16
    ensures Tag(s) == id <==> Tagged(s, id)
  {
    hide TagSum;
    TagSumIs(s);
  }

  /** A writer fills in byte 4 last. */
  function Sealed(s: seq<u8>): (t: seq<u8>)
    requires |s| >= 16
    ensures |t| == |s|
  {
    s[4 := (TagSum(s, 16) % 0x100) as u8]
  }

  lemma {:induction false} TagSumAgrees(s: seq<u8>, t: seq<u8>, k: nat)
    requires k <= |s| && k <= |t| && forall i :: 0 <= i < k && i != 4 ==> s[i] == t[i]
    ensures TagSum(s, k) == TagSum(t, k)
  {
    if k > 0 { TagSumAgrees(s, t, k - 1); }
  }

  lemma SealedTagIsValid(s: seq<u8>)
    requires |s| >= 16
    ensures Tag(Sealed(s)) == U16(s, 0)
  {
    TagSumAgrees(s, Sealed(s), 16);
  }

  lemma {:induction false} TagSumDiffers(s: seq<u8>, t: seq<u8>, k: nat, j: nat)
    requires j < k <= |s| == |t| && j != 4 && t == s[j := t[j]]
    ensures TagSum(t, k) == TagSum(s, k) + t[j] as int - s[j] as int
  {
    if k - 1 == j { TagSumAgrees(s, t, j); } else { TagSumDiffers(s, t, k - 1, j); }
  }

  /** No change of a single tag byte goes unnoticed. */
  lemma OneByteErrorIsDetected(s: seq<u8>, j: nat, v: u8)
    requires |s| >= 16 && j < 16 && s[j] != v && Tag(s) != TAG_INVALID
    ensures Tag(s[j := v]) == TAG_INVALID
  {
    var t := s[j := v];
    if j == 4 { TagSumAgrees(s, t, 16); } else { TagSumDiffers(s, t, 16, j); }
  }

  // ------------------------------------------------------ allocation descriptors

  /** The top two bits of the length field are the extent type. */
  function MakeAd(lengthField: u32, lba: u32, partition: u16): LongAd {
    LongAd(lba, lengthField % 0x4000_0000, partition, lengthField / 0x4000_0000)
  }

  function AdSize(adType: int): nat { if adType == 0 then 8 else if adType == 1 then 16 else 20 }

  /** `_decode_short_ad`, `decode_long_ad` and `_decode_extended_ad`. */
  function AdAt(s: seq<u8>, at: nat, adType: int, partition: u16): LongAd
    requires at + AdSize(adType) <= |s|
  {
    match adType
    case 0 => MakeAd(U32(s, at), U32(s, at + 4), partition)
    case 1 => MakeAd(U32(s, at), U32(s, at + 4), U16(s, at + 8))
    case _ => MakeAd(U32(s, at), U32(s, at + 12), U16(s, at + 16))
  }

  /** n consecutive descriptors. */
  function AdsAt(s: seq<u8>, at: nat, adType: int, partition: u16, n: nat): (ads: seq<LongAd>)
    requires at + n * AdSize(adType) <= |s|
    ensures |ads| == n
    decreases n, at
  {
    if n == 0 then [] else [AdAt(s, at, adType, partition)] + AdsAt(s, at + AdSize(adType), adType, partition, n - 1)
  }

  lemma {:induction false} AdsAtIndex(s: seq<u8>, at: nat, adType: int, partition: u16, n: nat, i: nat)
    requires at + n * AdSize(adType) <= |s| && i < n
    ensures at + i * AdSize(adType) + AdSize(adType) <= |s|
    ensures AdsAt(s, at, adType, partition, n)[i] == AdAt(s, at + i * AdSize(adType), adType, partition)
    decreases n
  {
    if i > 0 { AdsAtIndex(s, at + AdSize(adType), adType, partition, n - 1, i - 1); }
  }

  /** `_decode_file_ads`: fills ad[start..start + numAd]. */
  method DecodeFileAds(s: seq<u8>, at: nat, adType: int, partition: u16, ad: array<LongAd>, start: nat, numAd: nat)
    requires 0 <= adType <= 2 && at + numAd * AdSize(adType) <= |s| && start + numAd <= ad.Length
    modifies ad
    ensures ad[..start] == old(ad[..start])
    ensures ad[start..start + numAd] == AdsAt(s, at, adType, partition, numAd)
  {
    var p := at;
    for i := 0 to numAd
      invariant p == at + i * AdSize(adType)
      invariant ad[..start] == old(ad[..start])
      invariant forall k :: 0 <= k < i ==> ad[start + k] == AdsAt(s, at, adType, partition, numAd)[k]
    {
      AdsAtIndex(s, at, adType, partition, numAd, i);
      match adType {
        case 0 => ad[start + i] := MakeAd(U32(s, p), U32(s, p + 4), partition); p := p + 8;
        case 1 => ad[start + i] := MakeAd(U32(s, p), U32(s, p + 4), U16(s, p + 8)); p := p + 16;
        case _ => ad[start + i] := MakeAd(U32(s, p), U32(s, p + 12), U16(s, p + 16)); p := p + 20;
      }
    }
  }

  /** A field that was written somewhere reads back from there. */
  lemma Field16(s: seq<u8>, at: nat, v: u16)
    requires at + 2 <= |s| && s[at..at + 2] == Put16(v)
    ensures U16(s, at) == v
  {
    assert s == s[..at] + Put16(v) + s[at + 2..];
    ReadBack16(s[..at], v, s[at + 2..]);
  }

  lemma Field32(s: seq<u8>, at: nat, v: u32)
    requires at + 4 <= |s| && s[at..at + 4] == Put32(v)
    ensures U32(s, at) == v
  {
    assert s == s[..at] + Put32(v) + s[at + 4..];
    ReadBack32(s[..at], v, s[at + 4..]);
  }

  lemma Field64(s: seq<u8>, at: nat, v: u64)
    requires at + 8 <= |s| && s[at..at + 8] == Put64(v)
    ensures U64(s, at) == v
  {
    assert s == s[..at] + Put64(v) + s[at + 8..];
    ReadBack64(s[..at], v, s[at + 8..]);
  }

  /** Sizes of the recorded forms. */
  function FormSize(adType: int): nat { match adType case 0 => 8 case 1 => 16 case _ => 20 }

  function LengthField(ad: LongAd): u32 { ad.extentType * 0x4000_0000 + ad.length }

  /** The recorded forms: section 14.14.1 (short), 14.14.2 (long) and 14.14.3
      (extended) of part 4; bytes not mentioned may hold anything. */
  predicate AdLayout(s: seq<u8>, at: nat, adType: int, ad: LongAd) {
    && at + FormSize(adType) <= |s| && s[at..at + 4] == Put32(LengthField(ad))
    && match adType
       case 0 => s[at + 4..at + 8] == Put32(ad.lba)
       case 1 => s[at + 4..at + 8] == Put32(ad.lba) && s[at + 8..at + 10] == Put16(ad.partition)
       case _ => s[at + 12..at + 16] == Put32(ad.lba) && s[at + 16..at + 18] == Put16(ad.partition)
  }

  /** A short descriptor lies in the partition of the entry that holds it. */
  function Resolved(ad: LongAd, adType: int, partition: u16): LongAd {
    if adType == 0 then ad.(partition := partition) else ad
  }

  lemma AdRoundTrip(s: seq<u8>, at: nat, adType: int, partition: u16, ad: LongAd)
    requires 0 <= adType <= 2 && AdLayout(s, at, adType, ad)
    ensures AdAt(s, at, adType, partition) == Resolved(ad, adType, partition)
  {
    Field32(s, at, LengthField(ad));
    if adType == 2 {
      Field32(s, at + 12, ad.lba);
      Field16(s, at + 16, ad.partition);
    } else {
      Field32(s, at + 4, ad.lba);
      if adType == 1 { Field16(s, at + 8, ad.partition); }
    }
  }

  ghost predicate AdsLayout(s: seq<u8>, at: nat, adType: int, ads: seq<LongAd>) {
    at + |ads| * FormSize(adType) <= |s|
    && forall i :: 0 <= i < |ads| ==> AdLayout(s, at + i * FormSize(adType), adType, ads[i])
  }

  function ResolvedAll(ads: seq<LongAd>, adType: int, partition: u16): (r: seq<LongAd>)
    ensures |r| == |ads| && forall i :: 0 <= i < |ads| ==> r[i] == Resolved(ads[i], adType, partition)
  {
    seq(|ads|, i requires 0 <= i < |ads| => Resolved(ads[i], adType, partition))
  }

  lemma SameSize(adType: int)
    requires 0 <= adType <= 2
    ensures FormSize(adType) == AdSize(adType)
  {}

  lemma AdsRoundTrip(s: seq<u8>, at: nat, adType: int, partition: u16, ads: seq<LongAd>)
    requires 0 <= adType <= 2 && AdsLayout(s, at, adType, ads)
    ensures AdsAt(s, at, adType, partition, |ads|) == ResolvedAll(ads, adType, partition)
  {
    hide AdAt; hide AdLayout; hide AdsAt; hide AdSize; hide FormSize; hide Resolved;
    SameSize(adType);
    forall i | 0 <= i < |ads|
      ensures AdsAt(s, at, adType, partition, |ads|)[i] == Resolved(ads[i], adType, partition)
    {
      AdsAtIndex(s, at, adType, partition, |ads|, i);
      AdRoundTrip(s, at + i * AdSize(adType), adType, partition, ads[i]);
    }
  }
}
