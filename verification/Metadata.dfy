/** Metadata reads with a mirror: `_partition_index`, `_read_descriptor_block`,
    `_read_metadata_blocks` and `_read_metadata` of src/udf_fs.c. */
module Metadata {
  import opened Bytes
  import opened Records
  import opened Ecma167

  /** A stable image: what reading one block gives, absent if the read fails. */
  type Image = u32 -> Option<Block>

  /** One logical partition; `mirror` 0 means there is none. */
  datatype Partition = Partition(number: u16, lba: u32, mirror: u32)

  /** struct udf_partitions */
  datatype Partitions = Partitions(count: nat, p0: Partition, p1: Partition)

  /** `_partition_index` */
  function FindPartition(parts: Partitions, number: u16): Option<Partition> {
    if number == parts.p0.number then Some(parts.p0)
    else if parts.count > 1 && number == parts.p1.number then Some(parts.p1)
    else None
  }

  /** Usable as block i of a metadata extent: block 0 must carry a valid tag. */
  predicate Good(b: Option<Block>, i: nat) { b.Some? && (i == 0 ==> Tag(b.value) != TAG_INVALID) }

  function Primary(img: Image, part: Partition, lba: u32, i: nat): Option<Block> { img(Wrap32(part.lba + lba + i)) }

  function Mirror(img: Image, part: Partition, lba: u32, i: nat): Option<Block> {
    if part.mirror == 0 then None else img(Wrap32(part.mirror + lba + i))
  }

  /** Block i of the extent: from the primary location, else from the mirror. */
  function BlockOf(img: Image, part: Partition, lba: u32, i: nat): Option<Block> {
    if Good(Primary(img, part, lba, i), i) then Primary(img, part, lba, i)
    else if Good(Mirror(img, part, lba, i), i) then Mirror(img, part, lba, i)
    else None
  }

  /** The first n blocks laid end to end; absent if any is not to be had. */
  function Extent(img: Image, part: Partition, lba: u32, n: nat): (d: Option<seq<u8>>)
    ensures d.Some? ==> |d.value| == n * 2048
  {
    if n == 0 then Some([])
    else match (Extent(img, part, lba, n - 1), BlockOf(img, part, lba, n - 1))
         case (Some(s), Some(b)) => Some(s + b)
         case _ => None
  }

  lemma {:induction false} FirstBlockTagged(img: Image, part: Partition, lba: u32, n: nat)
    requires n > 0
    ensures var d := Extent(img, part, lba, n);
            d.Some? ==> |d.value| >= 2048 && Tag(d.value[..2048]) != TAG_INVALID
                        && BlockOf(img, part, lba, 0) == Some(d.value[..2048])
  {
    if n > 1 {
      FirstBlockTagged(img, part, lba, n - 1);
      if Extent(img, part, lba, n).Some? {
        var s := Extent(img, part, lba, n - 1).value;
        assert Extent(img, part, lba, n).value[..2048] == s[..2048];
      }
    } else {
      assert Extent(img, part, lba, 0) == Some([]);
      if BlockOf(img, part, lba, 0).Some? {
        var b := BlockOf(img, part, lba, 0).value;
        assert [] + b == b == b[..2048];
      }
    }
  }

  /** Everything `_read_metadata` returns; absent on failure. */
  function MetadataAt(img: Image, parts: Partitions, loc: LongAd): (d: Option<seq<u8>>)
    ensures d.Some? ==> |d.value| == BlocksFor(loc.length) * 2048 >= 2048 && Tag(d.value[..2048]) != TAG_INVALID
  {
    match FindPartition(parts, loc.partition)
    case None => None
    case Some(part) =>
      if loc.length == 0 then None
      else
        FirstBlockTagged(img, part, loc.lba, BlocksFor(loc.length));
        Extent(img, part, loc.lba, BlocksFor(loc.length))
  }

  // -------------------------------------------------------------------- methods

  /** `input->read(input, lba, buf, 1, 0) == 1`; a failed read may leave anything in
      the block it was given, and touches no other. */
  method ReadBlock(img: Image, lba: u32, buf: array<u8>, at: nat) returns (ok: bool)
    requires at + 2048 <= buf.Length
    modifies buf
    ensures ok == img(lba).Some?
    ensures ok ==> buf[..at + 2048] == old(buf[..at]) + img(lba).value
    ensures buf[..at] == old(buf[..at]) && buf[at + 2048..] == old(buf[at + 2048..])
  {
    match img(lba) {
      case Some(b) =>
        forall k | 0 <= k < 2048 { buf[at + k] := b[k]; }
        ok := true;
      case None =>
        var junk: nat -> u8 := *;
        forall k | 0 <= k < 2048 { buf[at + k] := junk(k); }
        ok := false;
    }
  }

  /** `_read_descriptor_block` into the first block of buf. */
  method ReadDescriptorBlock(img: Image, lba: u32, buf: array<u8>) returns (tagId: int)
    requires buf.Length >= 2048
    modifies buf
    ensures tagId == if img(lba).Some? then Tag(img(lba).value) else -1
    ensures img(lba).Some? ==> buf[..2048] == img(lba).value
  {
    var ok := ReadBlock(img, lba, buf, 0);
    if !ok { return -1; }
    assert buf[..2048] == img(lba).value by {
      assert buf[..2048] == buf[..0 + 2048];
      assert old(buf[..0]) + img(lba).value == img(lba).value;
    }
    tagId := DecodeDescriptorTag(buf[..2048]);
  }

  /** The first block must have a valid tag. */
  method ReadFirstBlock(img: Image, part: Partition, lba: u32, buf: array<u8>) returns (tagId: int)
    requires buf.Length >= 2048
    modifies buf
    ensures tagId >= 0 <==> BlockOf(img, part, lba, 0).Some?
    ensures tagId >= 0 ==> BlockOf(img, part, lba, 0) == Some(buf[..2048]) && tagId == Tag(buf[..2048])
  {
    tagId := ReadDescriptorBlock(img, Wrap32(part.lba + lba), buf);
    if tagId < 0 && part.mirror != 0 {
      tagId := ReadDescriptorBlock(img, Wrap32(part.mirror + lba), buf);
    }
  }

  lemma SamePrefix(s: seq<u8>, buf: array<u8>, n: nat)
    requires 2048 <= n <= buf.Length && buf[..n] == s
    ensures buf[..2048] == s[..2048]
  {}

  /** Blocks after the first: no tag is checked. */
  method ReadFollowingBlock(img: Image, part: Partition, lba: u32, i: nat, buf: array<u8>) returns (ok: bool)
    requires i > 0 && (i + 1) * 2048 <= buf.Length
    modifies buf
    ensures ok == BlockOf(img, part, lba, i).Some?
    ensures ok ==> buf[..(i + 1) * 2048] == old(buf[..i * 2048]) + BlockOf(img, part, lba, i).value
    ensures buf[..2048] == old(buf[..2048])
  {
    ok := ReadBlock(img, Wrap32(part.lba + lba + i), buf, i * 2048);
    SamePrefix(old(buf[..i * 2048]), buf, i * 2048);
    if !ok && part.mirror != 0 {
      ok := ReadBlock(img, Wrap32(part.mirror + lba + i), buf, i * 2048);
      SamePrefix(old(buf[..i * 2048]), buf, i * 2048);
    }
    assert old(buf[..i * 2048])[..2048] == old(buf[..2048]);
  }

  lemma FirstBlockRead(img: Image, part: Partition, lba: u32, b: seq<u8>)
    requires BlockOf(img, part, lba, 0) == Some(b)
    ensures Extent(img, part, lba, 1) == Some(b)
  {
    assert Extent(img, part, lba, 0) == Some([]);
    assert [] + b == b;
  }

  lemma {:induction false} MissingBlock(img: Image, part: Partition, lba: u32, i: nat, n: nat)
    requires i < n && BlockOf(img, part, lba, i).None?
    ensures Extent(img, part, lba, n).None?
    decreases n
  {
    if n > i + 1 { MissingBlock(img, part, lba, i, n - 1); }
  }

  /** `_read_metadata_blocks` */
  method ReadMetadataBlocks(img: Image, parts: Partitions, buf: array<u8>, loc: LongAd) returns (tagId: int)
    requires loc.length > 0 && buf.Length == BlocksFor(loc.length) * 2048
    modifies buf
    ensures tagId >= 0 <==> MetadataAt(img, parts, loc).Some?
    ensures tagId >= 0 ==> MetadataAt(img, parts, loc) == Some(buf[..]) && tagId == Tag(buf[..2048])
  {
    hide BlockOf; hide Tag;
    var part: Partition;
    if loc.partition == parts.p0.number {
      part := parts.p0;
    } else if parts.count > 1 && loc.partition == parts.p1.number {
      part := parts.p1;
    } else {
      return -1;
    }
    var n := BlocksFor(loc.length);
    tagId := ReadFirstBlock(img, part, loc.lba, buf);
    if tagId < 0 {
      MissingBlock(img, part, loc.lba, 0, n);
      return;
    }
    FirstBlockRead(img, part, loc.lba, buf[..2048]);
    ghost var first := buf[..2048];
    var i := 1;
    while i <= (loc.length - 1) / 2048
      invariant 1 <= i <= n
      invariant Extent(img, part, loc.lba, i) == Some(buf[..i * 2048])
      invariant buf[..2048] == first
    {
      var ok := ReadFollowingBlock(img, part, loc.lba, i, buf);
      if !ok {
        MissingBlock(img, part, loc.lba, i, n);
        return -1;
      }
      i := i + 1;
    }
    assert buf[..i * 2048] == buf[..];
  }

  // ----------------------------------------------------------------- properties

  /** One of the two copies of block i is usable. */
  predicate Available(img: Image, part: Partition, lba: u32, i: nat) {
    Good(Primary(img, part, lba, i), i) || Good(Mirror(img, part, lba, i), i)
  }

  lemma {:induction false} ExtentIff(img: Image, part: Partition, lba: u32, n: nat)
    ensures Extent(img, part, lba, n).Some? <==> forall i :: 0 <= i < n ==> BlockOf(img, part, lba, i).Some?
    ensures Extent(img, part, lba, n).Some? ==> forall i :: 0 <= i < n ==>
      Extent(img, part, lba, n).value[i * 2048..(i + 1) * 2048] == BlockOf(img, part, lba, i).value
  {
    if n > 0 {
      ExtentIff(img, part, lba, n - 1);
      if Extent(img, part, lba, n).Some? {
        var s, d := Extent(img, part, lba, n - 1).value, Extent(img, part, lba, n).value;
        forall i | 0 <= i < n ensures d[i * 2048..(i + 1) * 2048] == BlockOf(img, part, lba, i).value {
          if i < n - 1 { assert d[i * 2048..(i + 1) * 2048] == s[i * 2048..(i + 1) * 2048]; }
        }
      }
    }
  }

  /** A metadata read succeeds iff its partition is known, it asks for something, and
      every block can be had from one of its places, the first with a valid tag. */
  lemma {:induction false} SucceedsIff(img: Image, parts: Partitions, loc: LongAd)
    ensures MetadataAt(img, parts, loc).Some? <==>
      && FindPartition(parts, loc.partition).Some? && loc.length > 0
      && forall i :: 0 <= i < BlocksFor(loc.length) ==>
           Available(img, FindPartition(parts, loc.partition).value, loc.lba, i)
  {
    if FindPartition(parts, loc.partition).Some? && loc.length > 0 {
      var part := FindPartition(parts, loc.partition).value;
      ExtentIff(img, part, loc.lba, BlocksFor(loc.length));
      assert forall i :: BlockOf(img, part, loc.lba, i).Some? == Available(img, part, loc.lba, i);
    }
  }

  /** Some reads of a disc fail: `img` gives what `disc` holds or nothing. */
  ghost predicate PartOf(img: Image, disc: Image) { forall lba :: img(lba).Some? ==> img(lba) == disc(lba) }

  /** The mirror of an extent repeats the primary. */
  ghost predicate Mirrored(disc: Image, part: Partition, lba: u32, n: nat) {
    part.mirror != 0 && forall i :: 0 <= i < n ==> Primary(disc, part, lba, i) == Mirror(disc, part, lba, i)
  }

  /** No block has lost both copies. */
  ghost predicate Spared(img: Image, part: Partition, lba: u32, n: nat) {
    forall i :: 0 <= i < n ==> Primary(img, part, lba, i).Some? || Mirror(img, part, lba, i).Some?
  }

  lemma {:induction false} SameExtent(img: Image, disc: Image, part: Partition, lba: u32, n: nat)
    requires PartOf(img, disc) && Mirrored(disc, part, lba, n) && Spared(img, part, lba, n)
    ensures Extent(img, part, lba, n) == Extent(disc, part, lba, n)
  {
    if n > 0 {
      SameExtent(img, disc, part, lba, n - 1);
      assert Primary(disc, part, lba, n - 1) == Mirror(disc, part, lba, n - 1);
    }
  }

  /** With a true mirror, whichever reads fail, the data are those of the intact disc
      as long as one copy of every block can be read. */
  lemma {:induction false} MirrorHidesFailures(img: Image, disc: Image, parts: Partitions, loc: LongAd)
    requires PartOf(img, disc) && FindPartition(parts, loc.partition).Some?
    requires var part := FindPartition(parts, loc.partition).value;
             Mirrored(disc, part, loc.lba, BlocksFor(loc.length)) && Spared(img, part, loc.lba, BlocksFor(loc.length))
    ensures MetadataAt(img, parts, loc) == MetadataAt(disc, parts, loc)
  {
    var part := FindPartition(parts, loc.partition).value;
    SameExtent(img, disc, part, loc.lba, BlocksFor(loc.length));
  }

  // -------------------------------------------------- where the blocks are, in numbers

  /** Partition `number` starts at `start`, its mirror at `mirror` (0 if there is none). */
  ghost predicate Located(parts: Partitions, number: u16, start: u32, mirror: u32) {
    || (number == parts.p0.number && start == parts.p0.lba && mirror == parts.p0.mirror)
    || (number != parts.p0.number && parts.count >= 2 && number == parts.p1.number
        && start == parts.p1.lba && mirror == parts.p1.mirror)
  }

  /** Block i from address `from` on; addresses are sums of 32 bits. */
  ghost function Stored(img: Image, from: nat, i: nat): Option<Block> { img((from + i) % 0x1_0000_0000) }

  /** It can be used as block i of an extent. */
  ghost predicate Usable(img: Image, from: nat, i: nat) {
    var b := Stored(img, from, i);
    b.Some? && (i == 0 ==> Tagged(b.value, b.value[0] as int + 0x100 * b.value[1] as int))
  }

  lemma TagIsIdentifier(s: seq<u8>)
    requires |s| >= 16
    ensures Tag(s) != TAG_INVALID ==> Tag(s) == U16(s, 0)
  {}

  lemma UsableIsGood(img: Image, from: nat, i: nat)
    ensures Usable(img, from, i) <==> Good(img(Wrap32(from + i)), i)
  {
    hide Tag; hide Tagged;
    var b := Stored(img, from, i);
    if b.Some? {
      TaggedIff(b.value, b.value[0] as int + 0x100 * b.value[1] as int);
      LittleEndian(b.value, 0);
      TagIsIdentifier(b.value);
    }
  }

  lemma NothingIsNotGood(i: nat)
    ensures !Good(None, i)
  {}

  /** Block i of an extent at `lba` can be used from a partition, or else from its mirror. */
  ghost predicate Obtainable(img: Image, start: u32, mirror: u32, lba: u32, i: nat) {
    Usable(img, start + lba, i) || (mirror != 0 && Usable(img, mirror + lba, i))
  }

  /** The one that is used. */
  ghost function Obtained(img: Image, start: u32, mirror: u32, lba: u32, i: nat): Option<Block> {
    Stored(img, if Usable(img, start + lba, i) then start + lba else mirror + lba, i)
  }

  lemma CopiesAreGood(img: Image, part: Partition, lba: u32, i: nat)
    ensures BlockOf(img, part, lba, i).Some? <==> Obtainable(img, part.lba, part.mirror, lba, i)
    ensures BlockOf(img, part, lba, i).Some? ==>
      BlockOf(img, part, lba, i) == Obtained(img, part.lba, part.mirror, lba, i)
  {
    hide Good; hide Usable;
    NothingIsNotGood(i);
    UsableIsGood(img, part.lba + lba, i);
    UsableIsGood(img, part.mirror + lba, i);
  }

  /** A read of metadata in a partition that is known succeeds if and only if every block can
      be used from its place in the partition or in the mirror, the partition preferred. */
  lemma {:induction false} WhichCopy(img: Image, parts: Partitions, loc: LongAd, start: u32, mirror: u32)
    requires Located(parts, loc.partition, start, mirror)
    ensures MetadataAt(img, parts, loc).Some? <==>
      loc.length > 0 && forall i :: 0 <= i < (loc.length + 2047) / 2048 ==> Obtainable(img, start, mirror, loc.lba, i)
    ensures MetadataAt(img, parts, loc).Some? ==>
      var d, n := MetadataAt(img, parts, loc).value, (loc.length + 2047) / 2048;
      |d| == n * 2048
      && forall i :: 0 <= i < n ==> Obtained(img, start, mirror, loc.lba, i) == Some(d[i * 2048..(i + 1) * 2048])
  {
    hide Tag; hide Extent; hide BlockOf; hide Obtainable; hide Obtained;
    var part, n, lba := FindPartition(parts, loc.partition).value, (loc.length + 2047) / 2048, loc.lba;
    ExtentIff(img, part, lba, n);
    forall i: nat | i < n
      ensures BlockOf(img, part, lba, i).Some? <==> Obtainable(img, start, mirror, lba, i)
      ensures BlockOf(img, part, lba, i).Some? ==>
        BlockOf(img, part, lba, i) == Obtained(img, start, mirror, lba, i)
    {
      CopiesAreGood(img, part, lba, i);
    }
    if Extent(img, part, lba, n).Some? {
      var d := Extent(img, part, lba, n).value;
      forall i | 0 <= i < n ensures Obtained(img, start, mirror, lba, i) == Some(d[i * 2048..(i + 1) * 2048]) {
        assert d[i * 2048..(i + 1) * 2048] == BlockOf(img, part, lba, i).value;
      }
    }
  }

  /** In a partition that is not known nothing can be read. */
  lemma UnknownPartition(img: Image, parts: Partitions, loc: LongAd)
    requires loc.partition != parts.p0.number && (parts.count < 2 || loc.partition != parts.p1.number)
    ensures MetadataAt(img, parts, loc).None?
  {}

  /** d stands in consecutive blocks from address `from` on. */
  ghost predicate StandsAt(img: Image, from: nat, d: seq<u8>) {
    && |d| % 2048 == 0
    && forall i :: 0 <= i < |d| / 2048 ==> Stored(img, from, i) == Some(d[i * 2048..(i + 1) * 2048])
  }

  lemma FirstBlockIsTagged(d: seq<u8>, id: u16)
    requires |d| >= 2048 && Tagged(d, id)
    ensures Tagged(d[..2048], id) && Tag(d[..2048]) == id && id == d[0] as int + 0x100 * d[1] as int
  {
    TaggedIff(d[..2048], id);
  }

  lemma SameBlocks(a: seq<u8>, b: seq<u8>, n: nat)
    requires |a| == n * 2048 && |b| == n * 2048
    requires forall i :: 0 <= i < n ==> a[i * 2048..(i + 1) * 2048] == b[i * 2048..(i + 1) * 2048]
    ensures a == b
  {
    forall k | 0 <= k < |a| ensures a[k] == b[k] {
      var i := k / 2048;
      assert a[k] == a[i * 2048..(i + 1) * 2048][k - i * 2048];
      assert b[k] == b[i * 2048..(i + 1) * 2048][k - i * 2048];
    }
  }

  /** Data whose first block is tagged, and that stand where their descriptor says, are read. */
  lemma StandingIsRead(img: Image, parts: Partitions, loc: LongAd, start: u32, mirror: u32, d: seq<u8>, id: u16)
    requires Located(parts, loc.partition, start, mirror) && loc.length > 0
    requires |d| == (loc.length + 2047) / 2048 * 2048 && StandsAt(img, start + loc.lba, d) && Tagged(d, id)
    ensures MetadataAt(img, parts, loc) == Some(d) && Tag(d[..2048]) == id
  {
    hide Tag; hide Tagged; hide MetadataAt; hide Stored;
    var n, from := (loc.length + 2047) / 2048, start + loc.lba;
    FirstBlockIsTagged(d, id);
    forall i | 0 <= i < n
      ensures Obtainable(img, start, mirror, loc.lba, i)
      ensures Obtained(img, start, mirror, loc.lba, i) == Some(d[i * 2048..(i + 1) * 2048])
    {
      assert Stored(img, from, i) == Some(d[i * 2048..(i + 1) * 2048]);
      if i == 0 { assert d[0..2048] == d[..2048]; }
      assert Usable(img, from, i);
    }
    WhichCopy(img, parts, loc, start, mirror);
    var got := MetadataAt(img, parts, loc).value;
    forall i | 0 <= i < n ensures got[i * 2048..(i + 1) * 2048] == d[i * 2048..(i + 1) * 2048] {
      assert Obtained(img, start, mirror, loc.lba, i) == Some(got[i * 2048..(i + 1) * 2048]);
    }
    SameBlocks(got, d, n);
  }

  // ------------------------------------------------------------------- the whole read

  /** `_read_metadata` */
  method ReadMetadata(img: Image, parts: Partitions, icb: LongAd) returns (buf: Option<seq<u8>>, tagId: int)
    ensures buf == MetadataAt(img, parts, icb)
    ensures buf.Some? ==> |buf.value| >= 2048 && tagId == Tag(buf.value[..2048])
  {
    tagId := -1;
    var numBlocks := (icb.length + 2047) / 2048;
    if numBlocks < 1 { return None, -1; }
    var a := new u8[numBlocks * 2048];
    tagId := ReadMetadataBlocks(img, parts, a, icb);
    if tagId < 0 { return None, tagId; }
    assert a[..2048] == a[..][..2048];
    return Some(a[..]), tagId;
  }
}
