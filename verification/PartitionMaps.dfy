/** Partition maps: `udf_parse_partition_maps` and `_map_metadata_partition` of
    src/udf_volume.c (ECMA-167, section 10.7 of part 3; UDF 2.2.10 and 2.2.18). */
module PartitionMaps {
  import opened Bytes
  import opened Records
  import opened Ecma167
  import opened FileEntries
  import opened Metadata
  import opened VolumeDescriptors

  const FILE_TYPE_METADATA: u8 := 250
  const FILE_TYPE_METADATA_MIRROR: u8 := 251

  // ---------------------------------------------------------- metadata partition

  /** What a metadata file entry says: where the metadata or its mirror starts. */
  datatype Place = Nowhere | MainAt(lba: u32) | MirrorAt(lba: u32)

  function PlaceIn(b: Option<Block>, pd: PartitionDescriptor): Place {
    if TagOf(b) != TAG_EXT_FILE_ENTRY then Nowhere
    else match FileEntryOf(b.value, true, pd.number)
      case None => Nowhere
      case Some(fe) =>
        if fe.body.Inline? || fe.body.ads == [] then Nowhere
        else if fe.fileType == FILE_TYPE_METADATA then MainAt(Wrap32(pd.start + fe.body.ads[0].lba))
        else if fe.fileType == FILE_TYPE_METADATA_MIRROR then MirrorAt(Wrap32(pd.start + fe.body.ads[0].lba))
        else Nowhere
  }

  function Note(p: Partition, place: Place): Partition {
    match place
    case Nowhere => p
    case MainAt(lba) => p.(lba := lba)
    case MirrorAt(lba) => p.(mirror := lba)
  }

  /** A mirror without a main copy takes its place. */
  function Settled(p: Partition): Partition {
    if p.lba == 0 && p.mirror != 0 then p.(lba := p.mirror, mirror := 0) else p
  }

  /** The metadata partition as the two file entries describe it. */
  function MetadataPartition(img: Image, p: Partition, lba: u32, mirror: u32, pd: PartitionDescriptor): Partition {
    Settled(Note(Note(p, PlaceIn(img(Wrap32(pd.start + lba)), pd)), PlaceIn(img(Wrap32(pd.start + mirror)), pd)))
  }

  /** The location of the metadata according to two entries, the later one deciding; 0
      if neither gives one. */
  function MainOf(a: Place, b: Place): u32 { if b.MainAt? then b.lba else if a.MainAt? then a.lba else 0 }

  function MirrorOf(a: Place, b: Place): u32 { if b.MirrorAt? then b.lba else if a.MirrorAt? then a.lba else 0 }

  /** The partition is usable iff some entry gives a location. Without a main copy the
      mirror is read instead, and then nothing backs it up. It makes no difference in
      which order the entries stand, unless both claim the same role. */
  lemma EitherEntryWillDo(number: u16, a: Place, b: Place)
    ensures var p := Settled(Note(Note(Partition(number, 0, 0), a), b));
            && (p.lba != 0 <==> (MainOf(a, b) != 0 || MirrorOf(a, b) != 0))
            && p.lba == (if MainOf(a, b) != 0 then MainOf(a, b) else MirrorOf(a, b))
            && p.mirror == (if MainOf(a, b) != 0 then MirrorOf(a, b) else 0)
            && (!(a.MainAt? && b.MainAt?) && !(a.MirrorAt? && b.MirrorAt?)
                ==> p == Settled(Note(Note(Partition(number, 0, 0), b), a)))
  {}

  // ---------------------------------------------------------------- the map table

  /** A well-formed map and its position in the table. */
  datatype Map = Map(index: nat, bytes: seq<u8>)

  predicate Malformed(t: seq<u8>)
    requires |t| > 2
  {
    t[1] < 2 || t[1] as int > |t| || (t[0] == 1 && t[1] != 6) || (t[0] == 2 && t[1] != 64)
  }

  /** The maps from `index` on: as many as counted, up to the first malformed one. */
  function Maps(t: seq<u8>, count: nat, index: nat): (ms: seq<Map>)
    ensures |ms| * 2 <= |t|
    ensures forall k :: 0 <= k < |ms| ==> ms[k].index == index + k && |ms[k].bytes| >= 2
                                          && (ms[k].bytes[0] == 1 ==> |ms[k].bytes| == 6)
                                          && (ms[k].bytes[0] == 2 ==> |ms[k].bytes| == 64)
    decreases |t|
  {
    if count == 0 || |t| <= 2 || Malformed(t) then []
    else [Map(index, t[..t[1]])] + Maps(t[t[1]..], count - 1, index + 1)
  }

  /** A type 1 map that refers to the chosen physical partition. */
  predicate RefersTo(m: Map, pd: PartitionDescriptor) {
    |m.bytes| == 6 && m.bytes[0] == 1 && U16(m.bytes, 4) == pd.number
  }

  const METADATA_ID: string := "*UDF Metadata Partition"

  predicate IsMetadataMap(b: seq<u8>) {
    |b| == 64 && b[0] == 2 && forall k :: 0 <= k < 23 ==> b[5 + k] as int == METADATA_ID[k] as int
  }

  datatype Outcome = Outcome(parts: Partitions, found: bool)

  /** The effect of one map. */
  function Applied(img: Image, pd: PartitionDescriptor, m: Map, st: Outcome): Outcome
    requires m.index < 0x1_0000
  {
    if RefersTo(m, pd) && !st.found then
      Outcome(Partitions(1, Partition(m.index, pd.start, 0), st.parts.p1), true)
    else if IsMetadataMap(m.bytes) then
      var p := MetadataPartition(img, st.parts.p1, U32(m.bytes, 40), U32(m.bytes, 44), pd);
      if p.lba != 0 then st.(parts := Partitions(2, st.parts.p0, p.(number := m.index)))
      else st.(parts := st.parts.(p1 := p))
    else st
  }

  function AllApplied(img: Image, pd: PartitionDescriptor, ms: seq<Map>, st: Outcome): Outcome
    requires forall k :: 0 <= k < |ms| ==> ms[k].index < 0x1_0000
  {
    if ms == [] then st else AllApplied(img, pd, ms[1..], Applied(img, pd, ms[0], st))
  }

  lemma MapsEnd(img: Image, pd: PartitionDescriptor, t: seq<u8>, count: nat, index: nat, st: Outcome)
    requires |t| <= 2048 && index <= 1024
    requires count == 0 || |t| <= 2 || Malformed(t)
    ensures AllApplied(img, pd, Maps(t, count, index), st) == st
  {}

  lemma MapsStep(img: Image, pd: PartitionDescriptor, t: seq<u8>, count: nat, index: nat, st: Outcome)
    requires |t| <= 2048 && index <= 1024 && count > 0 && |t| > 2 && !Malformed(t)
    ensures AllApplied(img, pd, Maps(t, count, index), st)
         == AllApplied(img, pd, Maps(t[t[1]..], count - 1, index + 1), Applied(img, pd, Map(index, t[..t[1]]), st))
  {}

  /** struct udf_partitions inside the volume handle. */
  class PartitionTable {
    var parts: Partitions

    constructor ()
      ensures parts == Partitions(0, Partition(0, 0, 0), Partition(0, 0, 0))
    {
      parts := Partitions(0, Partition(0, 0, 0), Partition(0, 0, 0));
    }

    /** `_map_metadata_partition` */
    method MapMetadataPartition(img: Image, lba: u32, mirrorLba: u32, pd: PartitionDescriptor) returns (ok: bool)
      modifies this
      ensures var p := MetadataPartition(img, old(parts).p1, lba, mirrorLba, pd);
              parts == old(parts).(p1 := p) && ok == (p.lba != 0)
    {
      hide FileEntryOf; hide Tag;
      ghost var first := PlaceIn(img(Wrap32(pd.start + lba)), pd);
      ghost var second := PlaceIn(img(Wrap32(pd.start + mirrorLba)), pd);
      for i := 0 to 2
        invariant i == 0 ==> parts == old(parts)
        invariant i == 1 ==> parts == old(parts).(p1 := Note(old(parts).p1, first))
        invariant i == 2 ==> parts == old(parts).(p1 := Note(Note(old(parts).p1, first), second))
      {
        var b := img(Wrap32(pd.start + if i == 0 then lba else mirrorLba));
        var tagId := TAG_INVALID;
        if b.Some? { tagId := DecodeDescriptorTag(b.value); }
        if tagId != TAG_EXT_FILE_ENTRY { continue; }
        var fe := DecodeFileEntry(b.value, true, pd.number);
        if fe.None? { continue; }
        match fe.value.body {
          case Inline(_) =>
          case Ads(ads) =>
            if |ads| != 0 {
              var at := Wrap32(pd.start + ads[0].lba);
              if fe.value.fileType == FILE_TYPE_METADATA {
                parts := parts.(p1 := parts.p1.(lba := at));
              } else if fe.value.fileType == FILE_TYPE_METADATA_MIRROR {
                parts := parts.(p1 := parts.p1.(mirror := at));
              }
            }
        }
      }
      if parts.p1.lba == 0 && parts.p1.mirror != 0 {
        parts := parts.(p1 := parts.p1.(lba := parts.p1.mirror, mirror := 0));
      }
      ok := parts.p1.lba != 0;
    }

    /** The branches for the two types of map; `found` counts usable type 1 maps. */
    method ApplyMap(img: Image, m: seq<u8>, i: nat, pd: PartitionDescriptor, numType1: int) returns (found: int)
      requires |m| >= 2 && i < 0x1_0000 && 0 <= numType1 <= 1
      requires (m[0] == 1 ==> |m| == 6) && (m[0] == 2 ==> |m| == 64)
      modifies this
      ensures 0 <= found <= 1
      ensures Outcome(parts, found > 0) == Applied(img, pd, Map(i, m), Outcome(old(parts), numType1 > 0))
    {
      found := numType1;
      if m[0] == 1 {
        var ref := U16(m, 4);
        if numType1 > 0 {
        } else if ref != pd.number {
        } else {
          parts := Partitions(1, Partition(i, pd.start, 0), parts.p1);
          found := numType1 + 1;
        }
      } else if m[0] == 2 {
        if IsMetadataMap(m) {
          var lba, mirrorLba := U32(m, 40), U32(m, 44);
          var ok := MapMetadataPartition(img, lba, mirrorLba, pd);
          if ok { parts := Partitions(2, parts.p0, parts.p1.(number := i)); }
        }
      }
    }

    /** `udf_parse_partition_maps`; `table` ends where the map length or the buffer does. */
    method ParsePartitionMaps(img: Image, table: seq<u8>, count: u32, pd: PartitionDescriptor) returns (ok: bool)
      requires |table| <= 2048
      modifies this
      ensures Outcome(parts, ok) == AllApplied(img, pd, Maps(table, count, 0), Outcome(old(parts), false))
    {
      hide MetadataPartition; hide IsMetadataMap; hide RefersTo; hide Maps; hide AllApplied; hide Applied;
      var map_: nat, i: nat, numType1 := 0, 0, 0;
      assert table[0..] == table;
      while i < count && map_ + 2 < |table|
        invariant map_ <= |table| && i <= count && i * 2 <= map_ && 0 <= numType1 <= 1
        invariant AllApplied(img, pd, Maps(table, count, 0), Outcome(old(parts), false))
               == AllApplied(img, pd, Maps(table[map_..], count - i, i), Outcome(parts, numType1 > 0))
      {
        var kind, len := table[map_], table[map_ + 1] as int;
        if Malformed(table[map_..]) {
          MapsEnd(img, pd, table[map_..], count - i, i, Outcome(parts, numType1 > 0));
        }
        if len < 2 { break; }
        if map_ + len > |table| { break; }
        if kind == 1 && len != 6 { break; }
        if kind == 2 && len != 64 { break; }
        MapsStep(img, pd, table[map_..], count - i, i, Outcome(parts, numType1 > 0));
        assert table[map_..][len..] == table[map_ + len..];
        assert table[map_..map_ + len] == table[map_..][..len];
        numType1 := ApplyMap(img, table[map_..map_ + len], i, pd, numType1);
        map_ := map_ + len;
        i := i + 1;
      }
      MapsEnd(img, pd, table[map_..], count - i, i, Outcome(parts, numType1 > 0));
      ok := numType1 > 0;
    }
  }

  // ----------------------------------------------------------------- what is found

  /** Position of the first type 1 map for the chosen partition. */
  function FirstReference(ms: seq<Map>, pd: PartitionDescriptor): (r: Option<nat>)
    ensures r.Some? ==> r.value < |ms| && RefersTo(ms[r.value], pd)
                        && forall k :: 0 <= k < r.value ==> !RefersTo(ms[k], pd)
    ensures r.None? ==> forall k :: 0 <= k < |ms| ==> !RefersTo(ms[k], pd)
  {
    if ms == [] then None
    else if RefersTo(ms[0], pd) then Some(0)
    else match FirstReference(ms[1..], pd)
         case None => assert forall k :: 1 <= k < |ms| ==> ms[k] == ms[1..][k - 1]; None
         case Some(k) => assert forall j :: 1 <= j < k + 1 ==> ms[j] == ms[1..][j - 1]; Some(k + 1)
  }

  lemma {:induction false} DataPartitionFound(img: Image, pd: PartitionDescriptor, ms: seq<Map>, st: Outcome)
    requires forall k :: 0 <= k < |ms| ==> ms[k].index < 0x1_0000
    ensures var r := AllApplied(img, pd, ms, st);
            && (st.found ==> r.found && r.parts.p0 == st.parts.p0)
            && (!st.found ==> (r.found <==> FirstReference(ms, pd).Some?)
                              && r.parts.p0 == match FirstReference(ms, pd)
                                               case None => st.parts.p0
                                               case Some(k) => Partition(ms[k].index, pd.start, 0))
    decreases |ms|
  {
    hide MetadataPartition; hide IsMetadataMap; hide RefersTo;
    if ms != [] { DataPartitionFound(img, pd, ms[1..], Applied(img, pd, ms[0], st)); }
  }

  /** Parsing succeeds iff a type 1 map for the chosen partition stands before anything
      malformed and within the count; the data partition is then numbered by the first
      such map, starts where the partition does, and has no mirror. */
  lemma ParsedPartitions(img: Image, pd: PartitionDescriptor, table: seq<u8>, count: u32, parts: Partitions)
    requires |table| <= 2048
    ensures var ms := Maps(table, count, 0);
            var r := AllApplied(img, pd, ms, Outcome(parts, false));
            && (r.found <==> exists k :: 0 <= k < |ms| && RefersTo(ms[k], pd))
            && (r.found ==> exists k :: 0 <= k < |ms| && RefersTo(ms[k], pd) && r.parts.p0 == Partition(k, pd.start, 0)
                                        && forall j :: 0 <= j < k ==> !RefersTo(ms[j], pd))
  {
    var ms := Maps(table, count, 0);
    DataPartitionFound(img, pd, ms, Outcome(parts, false));
    if FirstReference(ms, pd).Some? {
      var k := FirstReference(ms, pd).value;
      assert RefersTo(ms[k], pd) && ms[k].index == k;
    }
  }

  // ----------------------------------------------------- data and metadata partition

  const FRESH: Outcome := Outcome(Partitions(0, Partition(0, 0, 0), Partition(0, 0, 0)), false)

  /** The table has one type 1 map for the chosen partition, k, and one metadata map, j. */
  ghost predicate Pair(ms: seq<Map>, pd: PartitionDescriptor, k: nat, j: nat) {
    && k < |ms| && j < |ms| && RefersTo(ms[k], pd) && IsMetadataMap(ms[j].bytes)
    && (forall i :: 0 <= i < |ms| && i != k ==> !RefersTo(ms[i], pd))
    && (forall i :: 0 <= i < |ms| && i != j ==> !IsMetadataMap(ms[i].bytes))
  }

  /** The metadata partition that map m gives a fresh table. */
  function MetadataOf(img: Image, pd: PartitionDescriptor, m: Map): Partition
    requires IsMetadataMap(m.bytes)
  {
    MetadataPartition(img, Partition(0, 0, 0), U32(m.bytes, 40), U32(m.bytes, 44), pd)
  }

  lemma {:induction false} NoEffect(img: Image, pd: PartitionDescriptor, ms: seq<Map>, st: Outcome)
    requires forall i :: 0 <= i < |ms| ==> ms[i].index < 0x1_0000 && !RefersTo(ms[i], pd) && !IsMetadataMap(ms[i].bytes)
    ensures AllApplied(img, pd, ms, st) == st
  {
    if ms != [] { NoEffect(img, pd, ms[1..], st); }
  }

  lemma {:induction false} AppliedInTurn(img: Image, pd: PartitionDescriptor, a: seq<Map>, b: seq<Map>, st: Outcome)
    requires forall i :: 0 <= i < |a| ==> a[i].index < 0x1_0000
    requires forall i :: 0 <= i < |b| ==> b[i].index < 0x1_0000
    ensures AllApplied(img, pd, a + b, st) == AllApplied(img, pd, b, AllApplied(img, pd, a, st))
  {
    if a == [] {
      assert a + b == b;
    } else {
      assert (a + b)[1..] == a[1..] + b;
      AppliedInTurn(img, pd, a[1..], b, Applied(img, pd, a[0], st));
    }
  }

  /** One map between maps without effect. */
  lemma OneMap(img: Image, pd: PartitionDescriptor, ms: seq<Map>, k: nat, st: Outcome)
    requires k < |ms| && forall i :: 0 <= i < |ms| ==> ms[i].index < 0x1_0000
    requires forall i :: 0 <= i < |ms| && i != k ==> !RefersTo(ms[i], pd) && !IsMetadataMap(ms[i].bytes)
    ensures AllApplied(img, pd, ms, st) == Applied(img, pd, ms[k], st)
  {
    hide RefersTo; hide IsMetadataMap; hide Applied;
    assert ms == ms[..k] + ms[k..] && ms[k..][0] == ms[k] && ms[k..][1..] == ms[k + 1..];
    AppliedInTurn(img, pd, ms[..k], ms[k..], st);
    NoEffect(img, pd, ms[..k], st);
    NoEffect(img, pd, ms[k + 1..], Applied(img, pd, ms[k], st));
  }

  lemma TwoMaps(img: Image, pd: PartitionDescriptor, ms: seq<Map>, first: nat, second: nat, st: Outcome)
    requires first < second < |ms| && forall i :: 0 <= i < |ms| ==> ms[i].index < 0x1_0000
    requires forall i :: 0 <= i < |ms| && i != first && i != second ==>
      !RefersTo(ms[i], pd) && !IsMetadataMap(ms[i].bytes)
    ensures AllApplied(img, pd, ms, st) == Applied(img, pd, ms[second], Applied(img, pd, ms[first], st))
  {
    hide RefersTo; hide IsMetadataMap; hide Applied; hide AllApplied;
    var a, b := ms[..first + 1], ms[first + 1..];
    assert ms == a + b;
    AppliedInTurn(img, pd, a, b, st);
    OneMap(img, pd, a, first, st);
    OneMap(img, pd, b, second - first - 1, Applied(img, pd, ms[first], st));
  }

  lemma TypesDiffer(m: Map, pd: PartitionDescriptor)
    requires RefersTo(m, pd)
    ensures !IsMetadataMap(m.bytes)
  {}

  /** A fresh table that lists both, as UDF 2.2.10 wants, gives both partitions in the
      order type 1 map, metadata map. In the other order the metadata partition is set up
      too, but the count ends at 1, so that no lookup by number finds it. */
  lemma BothPartitions(img: Image, pd: PartitionDescriptor, ms: seq<Map>, k: nat, j: nat)
    requires (forall i :: 0 <= i < |ms| ==> ms[i].index == i) && |ms| <= 0x1_0000 && Pair(ms, pd, k, j)
    ensures var p, r := MetadataOf(img, pd, ms[j]), AllApplied(img, pd, ms, FRESH);
            && r.found && r.parts.p0 == Partition(k, pd.start, 0)
            && r.parts.p1 == (if p.lba != 0 then p.(number := j) else p)
            && r.parts.count == (if p.lba != 0 && k < j then 2 else 1)
            && (k != j && p.lba != 0 ==> (FindPartition(r.parts, j) == Some(r.parts.p1) <==> k < j))
  {
    hide RefersTo; hide IsMetadataMap; hide MetadataPartition; hide AllApplied;
    TypesDiffer(ms[k], pd);
    TwoMaps(img, pd, ms, if k < j then k else j, if k < j then j else k, FRESH);
  }
}
