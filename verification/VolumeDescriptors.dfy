/** Finding the volume descriptors: `_search_vds` and `udf_read_vds` of
    src/udf_volume.c, with the decoders they use. */
module VolumeDescriptors {
  import opened Bytes
  import opened Records
  import opened Ecma167
  import opened Metadata

  /** struct extent_ad */
  datatype Area = Area(lba: u32, length: u32)

  datatype PartitionDescriptor = PartitionDescriptor(number: u16, start: u32, blocks: u32)

  datatype PrimaryVolume = PrimaryVolume(identifier: seq<u8>, setIdentifier: seq<u8>)

  /** `table` is what a reader of the partition map table can see of it. */
  datatype LogicalVolume =
    LogicalVolume(blockSize: u32, domain: seq<u8>, contentsUse: seq<u8>, maps: u32, table: seq<u8>)

  datatype Descriptor =
    | Primary(pvd: PrimaryVolume)
    | Logical(lvd: LogicalVolume)
    | Physical(pd: PartitionDescriptor)
    | Unused  // unreadable, unknown, or not of interest

  // ------------------------------------------------------------------- decoders

  function DecodePrimary(b: Block): PrimaryVolume {
    var length := if b[55] > 31 then 31 else b[55] as int;
    PrimaryVolume(b[24..24 + length], b[72..200])
  }

  /** The table is cut to the end of the block; what is missing reads as zeros. */
  function DecodeLogical(b: Block): LogicalVolume {
    var mapLength := U32(b, 264);
    var shown := if mapLength > 2048 then 2048 else mapLength;
    var copied := if shown > 1608 then 1608 else shown;
    LogicalVolume(U32(b, 212), b[217..248], b[248..264], U32(b, 268), b[440..440 + copied] + Zeros(shown - copied))
  }

  function DecodePhysical(b: Block): PartitionDescriptor {
    PartitionDescriptor(U16(b, 22), U32(b, 188), U32(b, 192))
  }

  function DecodePointer(b: Block): Area { Area(U32(b, 24), U32(b, 20)) }

  function TagOf(b: Option<Block>): int { if b.Some? then Tag(b.value) else TAG_INVALID }

  function DescriptorOf(b: Option<Block>): Descriptor {
    if TagOf(b) == TAG_PRIMARY_VOLUME then Primary(DecodePrimary(b.value))
    else if TagOf(b) == TAG_LOGICAL_VOLUME then Logical(DecodeLogical(b.value))
    else if TagOf(b) == TAG_PARTITION then Physical(DecodePhysical(b.value))
    else Unused
  }

  // -------------------------------------------------- the sequence as a flat list

  /** Descriptors from lba up to the end of an area, a terminator or a pointer, and
      where the pointer leads. */
  datatype Stretch = Stretch(found: seq<Descriptor>, next: Option<Area>)

  function StretchFrom(img: Image, lba: u32, end: u32): Stretch
    decreases end - lba
  {
    if lba >= end then Stretch([], None)
    else if TagOf(img(lba)) == TAG_VOLUME_POINTER then Stretch([], Some(DecodePointer(img(lba).value)))
    else if TagOf(img(lba)) == TAG_TERMINATING then Stretch([], None)
    else
      var rest := StretchFrom(img, lba + 1, end);
      rest.(found := [DescriptorOf(img(lba))] + rest.found)
  }

  /** `end_lba` */
  function EndOf(loc: Area): u32 { Wrap32(loc.lba + loc.length / 2048) }

  /** The pointers met from lba on come to an end within n hops. */
  ghost predicate Ends(img: Image, lba: u32, end: u32, n: nat)
    decreases n
  {
    match StretchFrom(img, lba, end).next
    case None => true
    case Some(a) => n > 0 && Ends(img, a.lba, EndOf(a), n - 1)
  }

  /** The descriptors on the way, in order, pointers left out, as far as n hops lead. */
  function Flat(img: Image, lba: u32, end: u32, n: nat): seq<Descriptor>
    decreases n
  {
    var s := StretchFrom(img, lba, end);
    s.found + match s.next
              case None => []
              case Some(a) => if n == 0 then [] else Flat(img, a.lba, EndOf(a), n - 1)
  }

  // ------------------------------------------------------------------ the search

  const PARTITION_FIRST: int := -1
  const PARTITION_LAST: int := -2

  /** found_mask and struct volume_descriptor_set. */
  datatype Search = Search(havePart: bool, havePvd: bool, haveLvd: bool,
                           pd: PartitionDescriptor, pvd: PrimaryVolume, lvd: LogicalVolume)

  predicate HaveAll(st: Search) { st.havePart && st.havePvd && st.haveLvd }

  predicate Wanted(pd: PartitionDescriptor, partNumber: int) { partNumber < 0 || partNumber == pd.number }

  function Visit(st: Search, d: Descriptor, partNumber: int): Search {
    match d
    case Primary(pvd) => st.(pvd := pvd, havePvd := true)
    case Logical(lvd) => st.(lvd := lvd, haveLvd := true)
    case Physical(pd) =>
      if !st.havePart || partNumber == PARTITION_LAST then
        st.(pd := pd, havePart := st.havePart || Wanted(pd, partNumber))
      else st
    case Unused => st
  }

  /** Visits descriptors until everything is found, if that may stop the search. */
  function Visited(st: Search, ds: seq<Descriptor>, partNumber: int): Search
    decreases |ds|
  {
    if ds == [] then st
    else
      var st' := Visit(st, ds[0], partNumber);
      if HaveAll(st') && partNumber != PARTITION_LAST then st' else Visited(st', ds[1..], partNumber)
  }

  /** Within n hops the pointers come to an end, or everything has been found. */
  ghost predicate Enough(img: Image, st: Search, partNumber: int, lba: u32, end: u32, n: nat) {
    Ends(img, lba, end, n)
    || (!HaveAll(st) && partNumber != PARTITION_LAST && HaveAll(Visited(st, Flat(img, lba, end, n), partNumber)))
  }

  lemma FlatStops(img: Image, lba: u32, end: u32, n: nat)
    requires lba >= end || TagOf(img(lba)) == TAG_TERMINATING
    ensures Flat(img, lba, end, n) == []
  {}

  lemma PointerIsFollowed(img: Image, st: Search, partNumber: int, lba: u32, end: u32, n: nat)
    requires lba < end && TagOf(img(lba)) == TAG_VOLUME_POINTER && Enough(img, st, partNumber, lba, end, n)
    ensures var a := DecodePointer(img(lba).value);
            && n > 0 && Enough(img, st, partNumber, a.lba, EndOf(a), n - 1)
            && Flat(img, lba, end, n) == Flat(img, a.lba, EndOf(a), n - 1)
  {
    hide DecodePointer; hide EndOf; hide Visit;
    assert StretchFrom(img, lba, end) == Stretch([], Some(DecodePointer(img(lba).value)));
    if n > 0 {
      var a := DecodePointer(img(lba).value);
      assert [] + Flat(img, a.lba, EndOf(a), n - 1) == Flat(img, a.lba, EndOf(a), n - 1);
    }
  }

  lemma FlatTail(img: Image, lba: u32, end: u32, n: nat)
    requires lba < end
    requires TagOf(img(lba)) != TAG_VOLUME_POINTER && TagOf(img(lba)) != TAG_TERMINATING
    ensures Ends(img, lba, end, n) ==> Ends(img, lba + 1, end, n)
    ensures Flat(img, lba, end, n) == [DescriptorOf(img(lba))] + Flat(img, lba + 1, end, n)
  {
    var s, rest := StretchFrom(img, lba, end), StretchFrom(img, lba + 1, end);
    assert s.next == rest.next;
    Assoc([DescriptorOf(img(lba))], rest.found,
          match rest.next
          case None => []
          case Some(a) => if n == 0 then [] else Flat(img, a.lba, EndOf(a), n - 1));
  }

  /** `_search_vds`; a jump to `next_extent` starts over on the area pointed to. */
  method SearchVds(img: Image, partNumber: int, loc: Area, found: Search, ghost n: nat) returns (st: Search)
    requires Enough(img, found, partNumber, loc.lba, EndOf(loc), n)
    ensures st == Visited(found, Flat(img, loc.lba, EndOf(loc), n), partNumber)
  {
    hide StretchFrom; hide Tag; hide Flat; hide Ends; hide EndOf;
    hide DecodePrimary; hide DecodeLogical; hide DecodePhysical;
    st := found;
    var lba: u32, end: u32 := loc.lba, EndOf(loc);
    ghost var left := n;
    while lba < end
      invariant Enough(img, st, partNumber, lba, end, left)
      invariant Visited(found, Flat(img, loc.lba, EndOf(loc), n), partNumber)
             == Visited(st, Flat(img, lba, end, left), partNumber)
      decreases left, end - lba
    {
      var b := img(lba);
      var tagId := TAG_INVALID;
      if b.Some? { tagId := DecodeDescriptorTag(b.value); }
      match tagId {
        case 3 =>
          var next := DecodePointer(b.value);
          PointerIsFollowed(img, st, partNumber, lba, end, left);
          lba, end, left := next.lba, EndOf(next), left - 1;
          continue;
        case 1 => st := st.(pvd := DecodePrimary(b.value), havePvd := true);
        case 6 => st := st.(lvd := DecodeLogical(b.value), haveLvd := true);
        case 5 =>
          if !st.havePart || partNumber == PARTITION_LAST {
            var pd := DecodePhysical(b.value);
            st := st.(pd := pd, havePart := st.havePart || Wanted(pd, partNumber));
          }
        case 8 => FlatStops(img, lba, end, left); return;
        case _ =>
      }
      FlatTail(img, lba, end, left);
      if HaveAll(st) && partNumber != PARTITION_LAST { return; }
      lba := lba + 1;
    }
    FlatStops(img, lba, end, left);
  }

  const NOTHING: Search :=
    Search(false, false, false, PartitionDescriptor(0, 0, 0), PrimaryVolume([], Zeros(128)),
           LogicalVolume(0, Zeros(31), Zeros(16), 0, []))

  /** The result of `udf_read_vds` once an anchor has been found. */
  function VdsOf(main: seq<Descriptor>, backup: seq<Descriptor>, partNumber: int): (bool, Search) {
    var st := Visited(NOTHING, main, partNumber);
    if HaveAll(st) then (true, st)
    else
      var st' := Visited(st, backup, partNumber);
      (st'.havePart && st'.havePvd, st')
  }

  /** `udf_read_vds` after the anchor; each area may need its own number of hops, and the
      backup area is read only if something is missing. */
  method ReadVds(img: Image, partNumber: int, mvds: Area, rvds: Area, ghost n: nat) returns (ok: bool, st: Search)
    requires Enough(img, NOTHING, partNumber, mvds.lba, EndOf(mvds), n)
    requires var st := Visited(NOTHING, Flat(img, mvds.lba, EndOf(mvds), n), partNumber);
             HaveAll(st) || Enough(img, st, partNumber, rvds.lba, EndOf(rvds), n)
    ensures (ok, st) == VdsOf(Flat(img, mvds.lba, EndOf(mvds), n), Flat(img, rvds.lba, EndOf(rvds), n), partNumber)
  {
    st := SearchVds(img, partNumber, mvds, NOTHING, n);
    if HaveAll(st) { return true, st; }
    st := SearchVds(img, partNumber, rvds, st, n);
    ok := st.havePart && st.havePvd;
  }

  // ------------------------------------------------------------- what is returned

  predicate HasPrimary(ds: seq<Descriptor>) { exists i :: 0 <= i < |ds| && ds[i].Primary? }

  predicate HasLogical(ds: seq<Descriptor>) { exists i :: 0 <= i < |ds| && ds[i].Logical? }

  predicate HasWanted(ds: seq<Descriptor>, partNumber: int) {
    exists i :: 0 <= i < |ds| && ds[i].Physical? && (partNumber < 0 || ds[i].pd.number == partNumber)
  }

  /** What has been found stays found, and nothing is found that was not there; a search
      that was not cut short has seen everything. */
  lemma {:induction false} FoundBits(st: Search, ds: seq<Descriptor>, partNumber: int)
    ensures var r := Visited(st, ds, partNumber);
            && (st.havePart ==> r.havePart) && (st.havePvd ==> r.havePvd) && (st.haveLvd ==> r.haveLvd)
            && (r.havePvd ==> st.havePvd || HasPrimary(ds))
            && (r.havePart ==> st.havePart || HasWanted(ds, partNumber))
            && (r.haveLvd ==> st.haveLvd || HasLogical(ds))
            && (!HaveAll(r) || partNumber == PARTITION_LAST ==>
                (r.havePvd <==> st.havePvd || HasPrimary(ds)) && (r.haveLvd <==> st.haveLvd || HasLogical(ds))
                && (r.havePart <==> st.havePart || HasWanted(ds, partNumber)))
    decreases |ds|
  {
    if ds != [] {
      var st' := Visit(st, ds[0], partNumber);
      FoundBits(st', ds[1..], partNumber);
      assert forall i :: 1 <= i < |ds| ==> ds[i] == ds[1..][i - 1];
      assert forall i :: 0 <= i < |ds[1..]| ==> ds[1..][i] == ds[i + 1];
    }
  }

  /** All three kinds of descriptor are listed. */
  predicate Complete(ds: seq<Descriptor>, partNumber: int) {
    HasPrimary(ds) && HasLogical(ds) && HasWanted(ds, partNumber)
  }

  /** Reading succeeds iff the main or the backup sequence lists a primary volume
      descriptor and a partition descriptor that is wanted. */
  lemma SucceedsIffListed(main: seq<Descriptor>, backup: seq<Descriptor>, partNumber: int)
    ensures VdsOf(main, backup, partNumber).0 <==>
      (HasPrimary(main) || HasPrimary(backup)) && (HasWanted(main, partNumber) || HasWanted(backup, partNumber))
  {
    FoundBits(NOTHING, main, partNumber);
    FoundBits(Visited(NOTHING, main, partNumber), backup, partNumber);
  }

  /** The first wanted partition descriptor of a list. */
  function FirstWanted(ds: seq<Descriptor>, partNumber: int): Option<PartitionDescriptor> {
    if ds == [] then None
    else if ds[0].Physical? && (partNumber < 0 || ds[0].pd.number == partNumber) then Some(ds[0].pd)
    else FirstWanted(ds[1..], partNumber)
  }

  /** The last of those descriptors that f picks. */
  function LastOf<T>(ds: seq<Descriptor>, f: Descriptor -> Option<T>): Option<T>
    decreases |ds|
  {
    if ds == [] then None
    else if f(ds[|ds| - 1]).Some? then f(ds[|ds| - 1])
    else LastOf(ds[..|ds| - 1], f)
  }

  const AS_PRIMARY := (d: Descriptor) => if d.Primary? then Some(d.pvd) else None
  const AS_LOGICAL := (d: Descriptor) => if d.Logical? then Some(d.lvd) else None
  const AS_PHYSICAL := (d: Descriptor) => if d.Physical? then Some(d.pd) else None

  function LastPhysical(ds: seq<Descriptor>): Option<PartitionDescriptor> { LastOf(ds, AS_PHYSICAL) }

  function Or<T>(o: Option<T>, otherwise: T): T { if o.Some? then o.value else otherwise }

  lemma {:induction false} FirstStays(st: Search, ds: seq<Descriptor>, partNumber: int)
    requires partNumber != PARTITION_LAST
    ensures var r := Visited(st, ds, partNumber);
            && (st.havePart ==> r.havePart && r.pd == st.pd)
            && (!st.havePart && r.havePart ==> FirstWanted(ds, partNumber) == Some(r.pd))
            && (!r.havePart ==> FirstWanted(ds, partNumber) == None)
    decreases |ds|
  {
    if ds != [] { FirstStays(Visit(st, ds[0], partNumber), ds[1..], partNumber); }
  }

  lemma {:induction false} LastOfTail<T>(ds: seq<Descriptor>, f: Descriptor -> Option<T>)
    requires ds != []
    ensures LastOf(ds, f) == if LastOf(ds[1..], f).Some? then LastOf(ds[1..], f) else f(ds[0])
    decreases |ds|
  {
    if |ds| > 1 && f(ds[|ds| - 1]).None? {
      LastOfTail(ds[..|ds| - 1], f);
      assert ds[..|ds| - 1][1..] == ds[1..][..|ds| - 2];
    }
  }

  lemma {:induction false} LastWins(st: Search, ds: seq<Descriptor>)
    ensures Visited(st, ds, PARTITION_LAST).pd == Or(LastPhysical(ds), st.pd)
    decreases |ds|
  {
    if ds != [] {
      LastWins(Visit(st, ds[0], PARTITION_LAST), ds[1..]);
      LastOfTail(ds, AS_PHYSICAL);
    }
  }

  lemma {:induction false} LastIsListed(ds: seq<Descriptor>)
    ensures LastPhysical(ds).Some? <==> HasWanted(ds, -2)
    decreases |ds|
  {
    if ds != [] {
      LastIsListed(ds[..|ds| - 1]);
      assert forall i :: 0 <= i < |ds| - 1 ==> ds[i] == ds[..|ds| - 1][i];
      if ds[|ds| - 1].Physical? { assert HasWanted(ds, -2); }
    }
  }

  /** Which partition descriptor a successful read returns: the first one, the first
      with the number asked for, or the last one. */
  lemma WhichPartition(main: seq<Descriptor>, backup: seq<Descriptor>, partNumber: int)
    requires VdsOf(main, backup, partNumber).0
    ensures var pd := Some(VdsOf(main, backup, partNumber).1.pd);
            if partNumber != -2 then
              pd == if FirstWanted(main, partNumber).Some? then FirstWanted(main, partNumber)
                    else FirstWanted(backup, partNumber)
            else if Complete(main, partNumber) || LastPhysical(backup).None? then pd == LastPhysical(main)
            else pd == LastPhysical(backup)
  {
    var st := Visited(NOTHING, main, partNumber);
    FoundBits(NOTHING, main, partNumber);
    FoundBits(st, backup, partNumber);
    if partNumber != PARTITION_LAST {
      FirstStays(NOTHING, main, partNumber);
      FirstStays(st, backup, partNumber);
    } else {
      LastWins(NOTHING, main);
      LastWins(st, backup);
      LastIsListed(main);
      LastIsListed(backup);
    }
  }

  // -------------------------------------------------------- both areas in one pass

  /** Visiting without ever stopping early. */
  function Fold(st: Search, ds: seq<Descriptor>, partNumber: int): Search
    decreases |ds|
  {
    if ds == [] then st else Fold(Visit(st, ds[0], partNumber), ds[1..], partNumber)
  }

  lemma {:induction false} FoldKeeps(st: Search, ds: seq<Descriptor>, partNumber: int)
    ensures var r := Fold(st, ds, partNumber);
            && (r.havePvd <==> st.havePvd || HasPrimary(ds)) && (r.haveLvd <==> st.haveLvd || HasLogical(ds))
            && (r.havePart <==> st.havePart || HasWanted(ds, partNumber))
            && r.pvd == Or(LastOf(ds, AS_PRIMARY), st.pvd) && r.lvd == Or(LastOf(ds, AS_LOGICAL), st.lvd)
    decreases |ds|
  {
    if ds != [] {
      FoldKeeps(Visit(st, ds[0], partNumber), ds[1..], partNumber);
      LastOfTail(ds, AS_PRIMARY);
      LastOfTail(ds, AS_LOGICAL);
      assert forall i :: 1 <= i < |ds| ==> ds[i] == ds[1..][i - 1];
      assert forall i :: 0 <= i < |ds[1..]| ==> ds[1..][i] == ds[i + 1];
    }
  }

  lemma {:induction false} VisitedConcat(st: Search, a: seq<Descriptor>, b: seq<Descriptor>, partNumber: int)
    requires !HaveAll(st) || partNumber == PARTITION_LAST
    ensures var r := Visited(st, a, partNumber);
            Visited(st, a + b, partNumber) ==
              if HaveAll(r) && partNumber != PARTITION_LAST then r else Visited(r, b, partNumber)
    decreases |a|
  {
    if a == [] {
      assert a + b == b;
    } else {
      var st' := Visit(st, a[0], partNumber);
      assert (a + b)[1..] == a[1..] + b;
      if !HaveAll(st') || partNumber == PARTITION_LAST { VisitedConcat(st', a[1..], b, partNumber); }
    }
  }

  lemma {:induction false} FlatGrows(img: Image, lba: u32, end: u32, n: nat)
    ensures Flat(img, lba, end, n) <= Flat(img, lba, end, n + 1)
    ensures Ends(img, lba, end, n) ==>
      Ends(img, lba, end, n + 1) && Flat(img, lba, end, n) == Flat(img, lba, end, n + 1)
    decreases n
  {
    hide StretchFrom; hide EndOf;
    match StretchFrom(img, lba, end).next
    case None =>
    case Some(a) => if n > 0 { FlatGrows(img, a.lba, EndOf(a), n - 1); }
  }

  /** How many hops are allowed for makes no difference. */
  lemma SearchIsUnique(img: Image, st: Search, partNumber: int, lba: u32, end: u32, n: nat)
    requires Enough(img, st, partNumber, lba, end, n)
    ensures Enough(img, st, partNumber, lba, end, n + 1)
    ensures Visited(st, Flat(img, lba, end, n + 1), partNumber) == Visited(st, Flat(img, lba, end, n), partNumber)
  {
    hide Flat; hide Ends; hide Visited;
    FlatGrows(img, lba, end, n);
    if !Ends(img, lba, end, n) {
      var a, b := Flat(img, lba, end, n), Flat(img, lba, end, n + 1);
      assert b == a + b[|a|..];
      VisitedConcat(st, a, b[|a|..], partNumber);
    }
  }

  /** How many descriptors are visited. */
  function VisitCount(st: Search, ds: seq<Descriptor>, partNumber: int): (k: nat)
    ensures k <= |ds|
    decreases |ds|
  {
    if ds == [] then 0
    else
      var st' := Visit(st, ds[0], partNumber);
      if HaveAll(st') && partNumber != PARTITION_LAST then 1 else 1 + VisitCount(st', ds[1..], partNumber)
  }

  lemma {:induction false} VisitedIsCut(st: Search, ds: seq<Descriptor>, partNumber: int)
    requires !HaveAll(st) || partNumber == PARTITION_LAST
    ensures var k := VisitCount(st, ds, partNumber);
            && Visited(st, ds, partNumber) == Fold(st, ds[..k], partNumber)
            && (k < |ds| ==> partNumber != PARTITION_LAST && HaveAll(Fold(st, ds[..k], partNumber)))
            && forall j :: 0 <= j < k && partNumber != PARTITION_LAST ==> !HaveAll(Fold(st, ds[..j], partNumber))
    decreases |ds|
  {
    var k := VisitCount(st, ds, partNumber);
    if ds != [] {
      var st' := Visit(st, ds[0], partNumber);
      assert forall j :: 1 <= j <= k ==> ds[..j][1..] == ds[1..][..j - 1] && ds[..j][0] == ds[0];
      if HaveAll(st') && partNumber != PARTITION_LAST {
        assert ds[..1][1..] == [];
      } else {
        VisitedIsCut(st', ds[1..], partNumber);
        forall j | 0 <= j < k && partNumber != PARTITION_LAST ensures !HaveAll(Fold(st, ds[..j], partNumber)) {
          if j > 0 { assert Fold(st, ds[..j], partNumber) == Fold(st', ds[1..][..j - 1], partNumber); }
        }
      }
    }
  }

  /** The first k descriptors are just enough, or they are all there are. */
  ghost predicate JustEnough(ds: seq<Descriptor>, partNumber: int, k: nat) {
    && k <= |ds|
    && (k < |ds| ==> partNumber != -2 && Complete(ds[..k], partNumber))
    && forall j :: 0 <= j < k && partNumber != -2 ==> !Complete(ds[..j], partNumber)
  }

  /** st reports on the descriptors seen, the later ones of a kind replacing the earlier. */
  ghost predicate Reports(st: Search, seen: seq<Descriptor>, partNumber: int) {
    && (st.havePvd <==> HasPrimary(seen)) && (st.havePvd ==> LastOf(seen, AS_PRIMARY) == Some(st.pvd))
    && (st.haveLvd <==> HasLogical(seen)) && (st.haveLvd ==> LastOf(seen, AS_LOGICAL) == Some(st.lvd))
    && (st.havePart <==> HasWanted(seen, partNumber))
  }

  lemma {:induction false} LastIsThere<T>(ds: seq<Descriptor>, f: Descriptor -> Option<T>, i: nat)
    requires i < |ds| && f(ds[i]).Some?
    ensures LastOf(ds, f).Some?
    decreases |ds|
  {
    if i < |ds| - 1 { LastIsThere(ds[..|ds| - 1], f, i); }
  }

  lemma FoldReports(ds: seq<Descriptor>, partNumber: int)
    ensures Reports(Fold(NOTHING, ds, partNumber), ds, partNumber)
    ensures HaveAll(Fold(NOTHING, ds, partNumber)) <==> Complete(ds, partNumber)
  {
    FoldKeeps(NOTHING, ds, partNumber);
    if i :| 0 <= i < |ds| && ds[i].Primary? { LastIsThere(ds, AS_PRIMARY, i); }
    if i :| 0 <= i < |ds| && ds[i].Logical? { LastIsThere(ds, AS_LOGICAL, i); }
  }

  /** Main and backup area are searched as one list (the main area alone if it is complete
      and the last partition is wanted), up to where everything has been found. */
  lemma BothAreasAreOneList(main: seq<Descriptor>, backup: seq<Descriptor>, partNumber: int)
    ensures var ds := if partNumber == -2 && Complete(main, partNumber) then main else main + backup;
            exists k :: 0 <= k <= |ds| && JustEnough(ds, partNumber, k)
                        && Reports(VdsOf(main, backup, partNumber).1, ds[..k], partNumber)
  {
    var ds := if partNumber == -2 && Complete(main, partNumber) then main else main + backup;
    FoundBits(NOTHING, main, partNumber);
    VisitedConcat(NOTHING, main, backup, partNumber);
    assert VdsOf(main, backup, partNumber).1 == Visited(NOTHING, ds, partNumber);
    var k := VisitCount(NOTHING, ds, partNumber);
    VisitedIsCut(NOTHING, ds, partNumber);
    FoldReports(ds[..k], partNumber);
    forall j | 0 <= j < k && partNumber != PARTITION_LAST ensures !Complete(ds[..j], partNumber) {
      FoldReports(ds[..j], partNumber);
    }
    assert JustEnough(ds, partNumber, k);
  }
}
