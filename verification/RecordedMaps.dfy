/** Partition maps and metadata files as they are recorded (ECMA-167, section 10.7 of part 3;
    UDF 2.2.10 and 2.2.13), and the partitions that parsing them gives. */
module RecordedMaps {
  import opened Bytes
  import opened Records
  import opened Ecma167
  import opened FileEntries
  import opened Metadata
  import opened VolumeDescriptors
  import opened PartitionMaps

  datatype MapRecord = ToPartition(ref: u16) | ToMetadata(lba: u32, mirror: u32) | OtherMap

  datatype RecordedMap = RecordedMap(bytes: seq<u8>, kind: MapRecord)

  /** "*UDF Metadata Partition" */
  const IDENTIFIER: seq<u8> :=
    [0x2a, 0x55, 0x44, 0x46, 0x20, 0x4d, 0x65, 0x74, 0x61, 0x64, 0x61, 0x74, 0x61, 0x20,
     0x50, 0x61, 0x72, 0x74, 0x69, 0x74, 0x69, 0x6f, 0x6e]

  /** A type 1 map, a type 2 map with the identifier of a metadata partition, or any other map. */
  ghost predicate MapLayout(r: RecordedMap) {
    var b := r.bytes;
    match r.kind
    case ToPartition(ref) => |b| == 6 && b[0] == 1 && b[1] == 6 && b[4..6] == Put16(ref)
    case ToMetadata(lba, mirror) =>
      && |b| == 64 && b[0] == 2 && b[1] == 64 && b[5..28] == IDENTIFIER
      && b[40..44] == Put32(lba) && b[44..48] == Put32(mirror)
    case OtherMap =>
      && 2 <= |b| == b[1] as int && b[0] != 1 && (b[0] == 2 ==> |b| == 64 && b[5..28] != IDENTIFIER)
  }

  ghost predicate AllLaidOut(recs: seq<RecordedMap>) { forall i :: 0 <= i < |recs| ==> MapLayout(recs[i]) }

  function Table(recs: seq<RecordedMap>): seq<u8> {
    if recs == [] then [] else recs[0].bytes + Table(recs[1..])
  }

  /** No map of an admissible size begins here. */
  ghost predicate NoMapAt(rest: seq<u8>) {
    |rest| <= 2 || rest[1] < 2 || rest[1] as int > |rest|
    || (rest[0] == 1 && rest[1] != 6) || (rest[0] == 2 && rest[1] != 64)
  }

  /** A map of two bytes, which has no contents, is not looked at where the table ends. */
  ghost predicate Reaches(recs: seq<RecordedMap>, rest: seq<u8>) {
    recs != [] && rest == [] ==> |recs[|recs| - 1].bytes| > 2
  }

  function Least(a: nat, b: nat): nat { if a < b then a else b }

  lemma NextMap(r: RecordedMap, more: seq<u8>, count: nat, index: nat)
    requires MapLayout(r) && count > 0 && |r.bytes + more| > 2
    ensures Maps(r.bytes + more, count, index) == [Map(index, r.bytes)] + Maps(more, count - 1, index + 1)
  {
    var t, n := r.bytes + more, |r.bytes|;
    assert t[..n] == r.bytes && t[n..] == more;
    assert t[0] == r.bytes[0] && t[1] == r.bytes[1];
  }

  lemma NoNextMap(rest: seq<u8>, count: nat, index: nat)
    requires count == 0 || NoMapAt(rest)
    ensures Maps(rest, count, index) == []
  {}

  lemma NotLast(recs: seq<RecordedMap>, rest: seq<u8>)
    requires recs != [] && AllLaidOut(recs) && Reaches(recs, rest)
    ensures |recs[0].bytes + (Table(recs[1..]) + rest)| > 2
  {
    assert MapLayout(recs[0]);
    if |recs| > 1 {
      assert MapLayout(recs[1]);
      assert Table(recs[1..]) == recs[1].bytes + Table(recs[1..][1..]);
    }
  }

  /** The maps that are looked at. */
  lemma {:induction false} MapsAre(recs: seq<RecordedMap>, rest: seq<u8>, count: nat, index: nat)
    requires AllLaidOut(recs) && Reaches(recs, rest) && (count > |recs| ==> NoMapAt(rest))
    ensures var ms := Maps(Table(recs) + rest, count, index);
            |ms| == Least(count, |recs|) && forall i :: 0 <= i < |ms| ==> ms[i] == Map(index + i, recs[i].bytes)
    decreases |recs|
  {
    hide Maps; hide MapLayout; hide NoMapAt;
    if count == 0 || recs == [] {
      assert recs == [] ==> Table(recs) + rest == rest;
      NoNextMap(Table(recs) + rest, count, index);
    } else {
      var more := Table(recs[1..]) + rest;
      Assoc(recs[0].bytes, Table(recs[1..]), rest);
      assert MapLayout(recs[0]);
      NotLast(recs, rest);
      NextMap(recs[0], more, count, index);
      MapsAre(recs[1..], rest, count - 1, index + 1);
    }
  }

  lemma IdentifierIs()
    ensures |METADATA_ID| == 23 && forall k :: 0 <= k < 23 ==> METADATA_ID[k] as int == IDENTIFIER[k] as int
  {
    assert METADATA_ID == "*UDF Metadata Partition";
    assert METADATA_ID[0..8] == "*UDF Met" && METADATA_ID[8..16] == "adata Pa" && METADATA_ID[16..23] == "rtition";
  }

  /** Recorded maps are told apart. */
  lemma MapIs(r: RecordedMap, index: nat, pd: PartitionDescriptor)
    requires MapLayout(r)
    ensures RefersTo(Map(index, r.bytes), pd) <==> r.kind == ToPartition(pd.number)
    ensures IsMetadataMap(r.bytes) <==> r.kind.ToMetadata?
    ensures r.kind.ToMetadata? ==> U32(r.bytes, 40) == r.kind.lba && U32(r.bytes, 44) == r.kind.mirror
  {
    hide U16; hide U32;
    IdentifierIs();
    match r.kind
    case ToPartition(ref) => Field16(r.bytes, 4, ref);
    case ToMetadata(lba, mirror) =>
      Field32(r.bytes, 40, lba);
      Field32(r.bytes, 44, mirror);
      assert forall k :: 0 <= k < 23 ==> r.bytes[5..28][k] == r.bytes[5 + k];
    case OtherMap =>
  }

  // ---------------------------------------------------------------- metadata files

  ghost predicate EntryStartsAs(b: Block, kind: u8, lba: u32, fe: FileEntry, flags: u16, lEa: nat, lAd: nat) {
    && FileEntryLayout(b, true, fe, flags, lEa, lAd)
    && fe.fileType == kind && fe.body.Ads? && fe.body.ads != [] && fe.body.ads[0].lba == lba
  }

  ghost predicate EntryStarts(b: Block, kind: u8, lba: u32) {
    exists fe, flags, lEa, lAd :: EntryStartsAs(b, kind, lba, fe, flags, lEa, lAd)
  }

  /** At a block address, an extended file entry of that type whose first extent is at `first`
      in the partition, or none at all. */
  ghost predicate FileStands(img: Image, at: nat, kind: u8, first: Option<u32>) {
    var b := img(at % 0x1_0000_0000);
    match first
    case None => b.None? || !Tagged(b.value, 266)
    case Some(lba) => b.Some? && Tagged(b.value, 266) && EntryStarts(b.value, kind, lba)
  }

  /** Its address on the disc; 0 if there is none. */
  function Address(pd: PartitionDescriptor, first: Option<u32>): u32 {
    if first.None? then 0 else (pd.start + first.value) % 0x1_0000_0000
  }

  lemma FirstResolved(ads: seq<LongAd>, form: int, partition: u16)
    requires ads != []
    ensures ResolvedAll(ads, form, partition) != [] && ResolvedAll(ads, form, partition)[0].lba == ads[0].lba
  {}

  lemma FileIsPlaced(img: Image, at: nat, kind: u8, first: Option<u32>, pd: PartitionDescriptor)
    requires FileStands(img, at, kind, first) && (kind == 250 || kind == 251)
    ensures PlaceIn(img(Wrap32(at)), pd) ==
      if first.None? then Nowhere else if kind == 250 then MainAt(Address(pd, first)) else MirrorAt(Address(pd, first))
  {
    hide Tag; hide Tagged; hide FileEntryOf; hide FileEntryLayout; hide ResolvedAll;
    var b := img(at % 0x1_0000_0000);
    if b.Some? { TaggedIff(b.value, 266); }
    if first.Some? {
      var fe, flags, lEa, lAd :| EntryStartsAs(b.value, kind, first.value, fe, flags, lEa, lAd);
      FileEntryRoundTrip(b.value, true, pd.number, fe, flags, lEa, lAd);
      FirstResolved(fe.body.ads, fe.adType, pd.number);
    }
  }

  // --------------------------------------------------------------------- partitions

  /** Map k is the first that refers to the partition. */
  ghost predicate FirstTo(recs: seq<RecordedMap>, n: nat, number: u16, k: nat) {
    && k < n <= |recs| && recs[k].kind == ToPartition(number)
    && forall i :: 0 <= i < k ==> recs[i].kind != ToPartition(number)
  }

  /** The only map to the partition is k, the only map to metadata j. */
  ghost predicate OneOfEach(recs: seq<RecordedMap>, n: nat, number: u16, k: nat, j: nat) {
    && k < n <= |recs| && j < n && recs[k].kind == ToPartition(number) && recs[j].kind.ToMetadata?
    && forall i :: 0 <= i < n ==>
         (i != k ==> recs[i].kind != ToPartition(number)) && (i != j ==> !recs[i].kind.ToMetadata?)
  }

  lemma ReferencesAre(recs: seq<RecordedMap>, ms: seq<Map>, pd: PartitionDescriptor)
    requires |ms| <= |recs| && forall i :: 0 <= i < |ms| ==> ms[i] == Map(i, recs[i].bytes)
    requires AllLaidOut(recs)
    ensures forall i :: 0 <= i < |ms| ==>
      (RefersTo(ms[i], pd) <==> recs[i].kind == ToPartition(pd.number))
      && (IsMetadataMap(ms[i].bytes) <==> recs[i].kind.ToMetadata?)
  {
    hide RefersTo; hide IsMetadataMap; hide MapLayout;
    forall i | 0 <= i < |ms|
      ensures RefersTo(ms[i], pd) <==> recs[i].kind == ToPartition(pd.number)
      ensures IsMetadataMap(ms[i].bytes) <==> recs[i].kind.ToMetadata?
    {
      assert MapLayout(recs[i]);
      MapIs(recs[i], i, pd);
    }
  }

  lemma NoAddress(pd: PartitionDescriptor, first: Option<u32>)
    ensures first.None? ==> Address(pd, first) == 0
  {}

  /** The partitions that a table with one map of each kind gives. */
  lemma OneOfEachGives(img: Image, pd: PartitionDescriptor, recs: seq<RecordedMap>, ms: seq<Map>, k: nat, j: nat,
                       main: Option<u32>, mirror: Option<u32>)
    requires |ms| <= 0x1_0000 && |ms| <= |recs| && forall i :: 0 <= i < |ms| ==> ms[i] == Map(i, recs[i].bytes)
    requires AllLaidOut(recs) && OneOfEach(recs, |ms|, pd.number, k, j)
    requires FileStands(img, pd.start + recs[j].kind.lba, 250, main)
    requires FileStands(img, pd.start + recs[j].kind.mirror, 251, mirror)
    ensures var r, a, b := AllApplied(img, pd, ms, FRESH), Address(pd, main), Address(pd, mirror);
            && r.found && r.parts.p0 == Partition(k, pd.start, 0)
            && (a != 0 ==> r.parts.p1 == Partition(j, a, b))
            && (a == 0 && b != 0 ==> r.parts.p1 == Partition(j, b, 0))
            && r.parts.count == if (a != 0 || b != 0) && k < j then 2 else 1
  {
    hide FileStands; hide AllApplied; hide RefersTo; hide IsMetadataMap; hide PlaceIn; hide MapLayout; hide Address;
    ReferencesAre(recs, ms, pd);
    BothPartitions(img, pd, ms, k, j);
    assert MapLayout(recs[j]);
    MapIs(recs[j], j, pd);
    FileIsPlaced(img, pd.start + recs[j].kind.lba, 250, main, pd);
    FileIsPlaced(img, pd.start + recs[j].kind.mirror, 251, mirror, pd);
    NoAddress(pd, main);
    NoAddress(pd, mirror);
  }

  lemma DataPartition(img: Image, pd: PartitionDescriptor, recs: seq<RecordedMap>, ms: seq<Map>)
    requires |ms| <= 0x1_0000 && |ms| <= |recs| && forall i :: 0 <= i < |ms| ==> ms[i] == Map(i, recs[i].bytes)
    requires AllLaidOut(recs)
    ensures var r := AllApplied(img, pd, ms, FRESH);
            && (r.found <==> exists k: nat :: FirstTo(recs, |ms|, pd.number, k))
            && forall k: nat :: FirstTo(recs, |ms|, pd.number, k) ==> r.parts.p0 == Partition(k, pd.start, 0)
  {
    hide AllApplied; hide RefersTo; hide MapLayout; hide IsMetadataMap;
    ReferencesAre(recs, ms, pd);
    DataPartitionFound(img, pd, ms, FRESH);
    var first := FirstReference(ms, pd);
    if first.Some? {
      forall i | 0 <= i < first.value ensures recs[i].kind != ToPartition(pd.number) { assert !RefersTo(ms[i], pd); }
      assert FirstTo(recs, |ms|, pd.number, first.value);
    }
    forall k: nat | FirstTo(recs, |ms|, pd.number, k) ensures first == Some(k) {
      assert RefersTo(ms[k], pd);
    }
  }

  predicate IsPartition(p: Partition, number: nat, lba: nat, mirror: nat) {
    p.number == number && p.lba == lba && p.mirror == mirror
  }

  /** With one map of each kind, and metadata files that stand where it says. */
  ghost predicate Gives(img: Image, pd: PartitionDescriptor, recs: seq<RecordedMap>, k: nat, j: nat,
                        main: Option<u32>, mirror: Option<u32>, parts: Partitions)
  {
    j < |recs| && recs[j].kind.ToMetadata? &&
    (FileStands(img, pd.start + recs[j].kind.lba, 250, main)
     && FileStands(img, pd.start + recs[j].kind.mirror, 251, mirror) ==>
       var a, b := Address(pd, main), Address(pd, mirror);
       && (a != 0 ==> IsPartition(parts.p1, j, a, b)) && (a == 0 && b != 0 ==> IsPartition(parts.p1, j, b, 0))
       && parts.count == if (a != 0 || b != 0) && k < j then 2 else 1)
  }

  /** `udf_parse_partition_maps` on a recorded table: it succeeds if and only if a map to the
      partition is among those counted, and the first of them is the data partition; the
      metadata partition begins where the first extent of its file does. */
  method ParseRecorded(img: Image, count: u32, pd: PartitionDescriptor, table: seq<u8>,
                       ghost recs: seq<RecordedMap>, ghost rest: seq<u8>)
      returns (ok: bool, parts: Partitions)
    requires table == Table(recs) + rest && |table| <= 2048
    requires AllLaidOut(recs) && Reaches(recs, rest) && (count > |recs| ==> NoMapAt(rest))
    ensures ok <==> exists k: nat :: FirstTo(recs, Least(count, |recs|), pd.number, k)
    ensures forall k: nat :: FirstTo(recs, Least(count, |recs|), pd.number, k) ==>
      IsPartition(parts.p0, k, pd.start, 0)
    ensures forall k: nat, j: nat, main, mirror :: OneOfEach(recs, Least(count, |recs|), pd.number, k, j) ==>
      Gives(img, pd, recs, k, j, main, mirror, parts)
  {
    hide AllApplied; hide RefersTo; hide FileStands; hide MapLayout; hide Address; hide IsMetadataMap;
    hide Maps; hide Table;
    hide FirstTo;
    MapsAre(recs, rest, count, 0);
    ghost var ms := Maps(table, count, 0);
    var t := new PartitionTable();
    ok := t.ParsePartitionMaps(img, table, count, pd);
    parts := t.parts;
    DataPartition(img, pd, recs, ms);
    forall k: nat, j: nat, main, mirror | OneOfEach(recs, |ms|, pd.number, k, j)
      ensures Gives(img, pd, recs, k, j, main, mirror, parts)
    {
      if FileStands(img, pd.start + recs[j].kind.lba, 250, main)
         && FileStands(img, pd.start + recs[j].kind.mirror, 251, mirror)
      {
        OneOfEachGives(img, pd, recs, ms, k, j, main, mirror);
      }
    }
  }
}
