/** Volume descriptor sequences and partition maps as they are recorded on a disc
    (ECMA-167, part 3, section 10), and what reading them gives. */
module RecordedVolume {
  import opened Bytes
  import opened Records
  import opened Ecma167
  import opened Metadata
  import opened VolumeDescriptors

  // ------------------------------------------------------------------- descriptors

  /** Section 10.1: identifiers of volume (a string with its length in the last byte of 32)
      and volume set. */
  ghost predicate PrimaryLayout(b: Block, pvd: PrimaryVolume) {
    && Tagged(b, 1) && |pvd.identifier| == (if b[55] > 31 then 31 else b[55] as int)
    && b[24..24 + |pvd.identifier|] == pvd.identifier && b[72..200] == pvd.setIdentifier
  }

  /** Section 10.5: partition number, first block and number of blocks. */
  ghost predicate PartitionLayout(b: Block, pd: PartitionDescriptor) {
    && Tagged(b, 5) && b[22..24] == Put16(pd.number)
    && b[188..192] == Put32(pd.start) && b[192..196] == Put32(pd.blocks)
  }

  /** Section 10.6: block size, domain identifier without its flags, contents use, and the
      partition maps, which begin at byte 440. A table longer than the block is cut, and what
      is cut reads as zeros up to byte 2048 of it. */
  ghost predicate LogicalLayout(b: Block, lvd: LogicalVolume) {
    && Tagged(b, 6) && b[212..216] == Put32(lvd.blockSize)
    && b[217..248] == lvd.domain && b[248..264] == lvd.contentsUse
    && b[268..272] == Put32(lvd.maps) && |lvd.table| <= 2048
    && (if |lvd.table| < 2048 then b[264..268] == Put32(|lvd.table|)
        else exists length: u32 :: length >= 2048 && b[264..268] == Put32(length))
    && (|lvd.table| <= 1608 ==> b[440..440 + |lvd.table|] == lvd.table)
    && (|lvd.table| > 1608 ==> lvd.table == b[440..2048] + Zeros(|lvd.table| - 1608))
  }

  /** Section 10.3: the extent where the sequence goes on. */
  ghost predicate PointerLayout(b: Block, next: Area) {
    Tagged(b, 3) && b[20..24] == Put32(next.length) && b[24..28] == Put32(next.lba)
  }

  /** A block of a sequence that neither continues nor ends it. */
  ghost predicate DescriptorStands(b: Option<Block>, d: Descriptor) {
    match d
    case Primary(pvd) => b.Some? && PrimaryLayout(b.value, pvd)
    case Logical(lvd) => b.Some? && LogicalLayout(b.value, lvd)
    case Physical(pd) => b.Some? && PartitionLayout(b.value, pd)
    case Unused => b.None? || (!Tagged(b.value, 1) && !Tagged(b.value, 3) && !Tagged(b.value, 5)
                               && !Tagged(b.value, 6) && !Tagged(b.value, 8))
  }

  lemma PrimaryReads(b: Block, pvd: PrimaryVolume)
    requires PrimaryLayout(b, pvd)
    ensures DecodePrimary(b) == pvd
  {}

  lemma PartitionReads(b: Block, pd: PartitionDescriptor)
    requires PartitionLayout(b, pd)
    ensures DecodePhysical(b) == pd
  {
    hide U16; hide U32; hide Tagged;
    Field16(b, 22, pd.number);
    Field32(b, 188, pd.start);
    Field32(b, 192, pd.blocks);
  }

  lemma LogicalReads(b: Block, lvd: LogicalVolume)
    requires LogicalLayout(b, lvd)
    ensures DecodeLogical(b) == lvd
  {
    hide U32; hide Tagged; hide Put32;
    Field32(b, 212, lvd.blockSize);
    Field32(b, 268, lvd.maps);
    if |lvd.table| < 2048 {
      Field32(b, 264, |lvd.table|);
    } else {
      var length: u32 :| length >= 2048 && b[264..268] == Put32(length);
      Field32(b, 264, length);
    }
    if |lvd.table| <= 1608 { assert lvd.table + [] == lvd.table; }
  }

  lemma PointerReads(b: Block, next: Area)
    requires PointerLayout(b, next)
    ensures DecodePointer(b) == next
  {
    hide U32; hide Tagged;
    Field32(b, 20, next.length);
    Field32(b, 24, next.lba);
  }

  lemma TagIsOneOf(b: Block)
    ensures forall id: u16 :: Tag(b) == id <==> Tagged(b, id)
  {
    hide Tag; hide Tagged;
    forall id: u16 ensures Tag(b) == id <==> Tagged(b, id) { TaggedIff(b, id); }
  }

  lemma DescriptorReads(b: Option<Block>, d: Descriptor)
    requires DescriptorStands(b, d)
    ensures DescriptorOf(b) == d && TagOf(b) != TAG_VOLUME_POINTER && TagOf(b) != TAG_TERMINATING
  {
    hide Tag; hide Tagged; hide DecodePrimary; hide DecodeLogical; hide DecodePhysical;
    if b.Some? { TagIsOneOf(b.value); }
    match d
    case Primary(pvd) => PrimaryReads(b.value, pvd);
    case Logical(lvd) => LogicalReads(b.value, lvd);
    case Physical(pd) => PartitionReads(b.value, pd);
    case Unused =>
  }

  // -------------------------------------------------------------------- sequences

  ghost predicate Terminates(b: Option<Block>) { b.Some? && Tagged(b.value, 8) }

  ghost predicate Continues(b: Option<Block>, next: Area) { b.Some? && PointerLayout(b.value, next) }

  /** Blocks loc.lba, loc.lba + 1, ... hold the descriptors of one stretch after another: each
      stretch but the last ends in a pointer to the next, the last in a terminator or at the
      end of its area. */
  ghost predicate SequenceStands(img: Image, loc: Area, stretches: seq<seq<Descriptor>>)
    decreases |stretches|
  {
    stretches != [] &&
    var ds, n := stretches[0], loc.length / 2048;
    && loc.lba + n < 0x1_0000_0000 && |ds| <= n
    && (forall i :: 0 <= i < |ds| ==> DescriptorStands(img(loc.lba + i), ds[i]))
    && if |stretches| == 1 then |ds| == n || Terminates(img(loc.lba + |ds|))
       else |ds| < n && exists next :: Continues(img(loc.lba + |ds|), next) && SequenceStands(img, next, stretches[1..])
  }

  function Joined(stretches: seq<seq<Descriptor>>): seq<Descriptor> {
    if stretches == [] then [] else stretches[0] + Joined(stretches[1..])
  }

  lemma TerminatorReads(b: Option<Block>)
    requires Terminates(b)
    ensures TagOf(b) == TAG_TERMINATING
  {
    TaggedIff(b.value, 8);
  }

  lemma ContinuationReads(b: Option<Block>, next: Area)
    requires Continues(b, next)
    ensures b.Some? && TagOf(b) == TAG_VOLUME_POINTER && DecodePointer(b.value) == next
  {
    PointerReads(b.value, next);
    TaggedIff(b.value, 3);
  }

  /** The stretch that starts with the i-th descriptor of ds. */
  lemma {:induction false} StretchReads(img: Image, lba: u32, end: u32, ds: seq<Descriptor>, next: Option<Area>)
    requires lba + |ds| <= end
    requires forall i :: 0 <= i < |ds| ==> DescriptorStands(img(lba + i), ds[i])
    requires match next
             case None => lba + |ds| == end || Terminates(img(lba + |ds|))
             case Some(a) => lba + |ds| < end && Continues(img(lba + |ds|), a)
    ensures StretchFrom(img, lba, end) == Stretch(ds, next)
    decreases |ds|
  {
    hide TagOf; hide DescriptorOf; hide DescriptorStands; hide Continues; hide Terminates; hide DecodePointer;
    if ds == [] {
      match next
      case None => if lba < end { TerminatorReads(img(lba)); }
      case Some(a) => ContinuationReads(img(lba), a);
    } else {
      assert DescriptorStands(img(lba + 0), ds[0]);
      DescriptorReads(img(lba), ds[0]);
      forall i | 0 <= i < |ds| - 1 ensures DescriptorStands(img(lba + 1 + i), ds[1..][i]) {
        assert DescriptorStands(img(lba + (i + 1)), ds[i + 1]);
      }
      StretchReads(img, lba + 1, end, ds[1..], next);
      assert [ds[0]] + ds[1..] == ds;
    }
  }

  /** A sequence that stands on the disc is a flat list of what is recorded. */
  lemma {:induction false} SequenceReads(img: Image, loc: Area, stretches: seq<seq<Descriptor>>, n: nat)
    requires SequenceStands(img, loc, stretches) && n >= |stretches|
    ensures Ends(img, loc.lba, EndOf(loc), n) && Flat(img, loc.lba, EndOf(loc), n) == Joined(stretches)
    decreases |stretches|
  {
    hide StretchFrom; hide DescriptorStands; hide Continues; hide Terminates;
    var ds, end := stretches[0], EndOf(loc);
    if |stretches| == 1 {
      StretchReads(img, loc.lba, end, ds, None);
      assert stretches[1..] == [];
    } else {
      var next :| Continues(img(loc.lba + |ds|), next) && SequenceStands(img, next, stretches[1..]);
      StretchReads(img, loc.lba, end, ds, Some(next));
      SequenceReads(img, next, stretches[1..], n - 1);
    }
  }

  /** The first partition descriptor of a list with a suitable number. */
  ghost predicate IsFirst(ds: seq<Descriptor>, partNumber: int, pd: PartitionDescriptor) {
    exists i :: 0 <= i < |ds| && ds[i] == Physical(pd) && (partNumber < 0 || pd.number == partNumber)
                && forall j :: 0 <= j < i && ds[j].Physical? ==> partNumber >= 0 && ds[j].pd.number != partNumber
  }

  /** The last partition descriptor of a list. */
  ghost predicate IsLast(ds: seq<Descriptor>, pd: PartitionDescriptor) {
    exists i :: 0 <= i < |ds| && ds[i] == Physical(pd) && forall j :: i < j < |ds| ==> !ds[j].Physical?
  }

  lemma {:induction false} FirstIsFirst(ds: seq<Descriptor>, partNumber: int)
    requires FirstWanted(ds, partNumber).Some?
    ensures IsFirst(ds, partNumber, FirstWanted(ds, partNumber).value)
  {
    if !(ds[0].Physical? && (partNumber < 0 || ds[0].pd.number == partNumber)) {
      FirstIsFirst(ds[1..], partNumber);
      var pd := FirstWanted(ds, partNumber).value;
      var i :| 0 <= i < |ds[1..]| && ds[1..][i] == Physical(pd) && (partNumber < 0 || pd.number == partNumber)
               && forall j :: 0 <= j < i && ds[1..][j].Physical? ==>
                    partNumber >= 0 && ds[1..][j].pd.number != partNumber;
      assert forall j :: 1 <= j < |ds| ==> ds[j] == ds[1..][j - 1];
      assert ds[i + 1] == Physical(pd);
    } else {
      assert ds[0] == Physical(ds[0].pd);
    }
  }

  lemma {:induction false} NoFirst(ds: seq<Descriptor>, partNumber: int)
    requires FirstWanted(ds, partNumber).None?
    ensures forall i :: 0 <= i < |ds| && ds[i].Physical? ==> partNumber >= 0 && ds[i].pd.number != partNumber
  {
    if ds != [] {
      NoFirst(ds[1..], partNumber);
      assert forall i :: 1 <= i < |ds| ==> ds[i] == ds[1..][i - 1];
    }
  }

  lemma {:induction false} LastIsLast(ds: seq<Descriptor>)
    ensures LastPhysical(ds).Some? ==> IsLast(ds, LastPhysical(ds).value)
    ensures LastPhysical(ds).None? ==> forall i :: 0 <= i < |ds| ==> !ds[i].Physical?
    decreases |ds|
  {
    if ds != [] {
      var rest := ds[..|ds| - 1];
      LastIsLast(rest);
      if ds[|ds| - 1].Physical? {
        assert ds[|ds| - 1] == Physical(LastPhysical(ds).value);
      } else if LastPhysical(rest).Some? {
        var pd := LastPhysical(rest).value;
        var i :| 0 <= i < |rest| && rest[i] == Physical(pd) && forall j :: i < j < |rest| ==> !rest[j].Physical?;
        assert ds[i] == Physical(pd);
      }
    }
  }

  /** Among the first k descriptors, `d` is the last of its kind. */
  ghost predicate LastPrimary(ds: seq<Descriptor>, pvd: PrimaryVolume) {
    exists i :: 0 <= i < |ds| && ds[i] == Primary(pvd) && forall j :: i < j < |ds| ==> !ds[j].Primary?
  }

  ghost predicate LastLogical(ds: seq<Descriptor>, lvd: LogicalVolume) {
    exists i :: 0 <= i < |ds| && ds[i] == Logical(lvd) && forall j :: i < j < |ds| ==> !ds[j].Logical?
  }

  /** The last descriptor that f picks stands at some place behind which it picks none. */
  lemma {:induction false} LastPlace<T>(ds: seq<Descriptor>, f: Descriptor -> Option<T>) returns (i: nat)
    requires LastOf(ds, f).Some?
    ensures i < |ds| && f(ds[i]) == LastOf(ds, f) && forall j :: i < j < |ds| ==> f(ds[j]).None?
    decreases |ds|
  {
    if f(ds[|ds| - 1]).Some? {
      i := |ds| - 1;
    } else {
      i := LastPlace(ds[..|ds| - 1], f);
    }
  }

  lemma LastPrimaryIs(ds: seq<Descriptor>, pvd: PrimaryVolume)
    requires LastOf(ds, AS_PRIMARY) == Some(pvd)
    ensures LastPrimary(ds, pvd)
  {
    hide LastOf;
    var i := LastPlace(ds, AS_PRIMARY);
    assert ds[i] == Primary(pvd);
    forall j | i < j < |ds| ensures !ds[j].Primary? { assert AS_PRIMARY(ds[j]).None?; }
  }

  lemma LastLogicalIs(ds: seq<Descriptor>, lvd: LogicalVolume)
    requires LastOf(ds, AS_LOGICAL) == Some(lvd)
    ensures LastLogical(ds, lvd)
  {
    hide LastOf;
    var i := LastPlace(ds, AS_LOGICAL);
    assert ds[i] == Logical(lvd);
    forall j | i < j < |ds| ensures !ds[j].Logical? { assert AS_LOGICAL(ds[j]).None?; }
  }

  /** The search looks at the first k descriptors: until all kinds are found, but at whole
      areas if the last partition is wanted. */
  ghost predicate Seen(all: seq<Descriptor>, main: seq<Descriptor>, partNumber: int, k: nat) {
    && |main| <= |all|
    && if partNumber == -2 then k == if Complete(main, -2) then |main| else |all|
       else JustEnough(all, partNumber, k)
  }

  /** What `udf_read_vds` owes its caller, given what is recorded in the two areas. */
  ghost predicate Answers(ok: bool, st: Search, main: seq<Descriptor>, backup: seq<Descriptor>, partNumber: int) {
    var all := main + backup;
    && (ok <==> HasPrimary(all) && HasWanted(all, partNumber))
    && (ok && partNumber != -2 ==> IsFirst(all, partNumber, st.pd))
    && (ok && partNumber == -2 ==>
          if Complete(main, -2) || forall i :: 0 <= i < |backup| ==> !backup[i].Physical?
          then IsLast(main, st.pd) else IsLast(backup, st.pd))
    && exists k :: 0 <= k <= |all| && Seen(all, main, partNumber, k)
         && (st.havePvd <==> HasPrimary(all[..k])) && (st.havePvd ==> LastPrimary(all[..k], st.pvd))
         && (st.haveLvd <==> HasLogical(all[..k])) && (st.haveLvd ==> LastLogical(all[..k], st.lvd))
  }

  lemma HasInEither(main: seq<Descriptor>, backup: seq<Descriptor>, partNumber: int)
    ensures HasPrimary(main + backup) <==> HasPrimary(main) || HasPrimary(backup)
    ensures HasWanted(main + backup, partNumber) <==> HasWanted(main, partNumber) || HasWanted(backup, partNumber)
  {
    var all := main + backup;
    assert forall i :: 0 <= i < |main| ==> all[i] == main[i];
    assert forall i :: 0 <= i < |backup| ==> all[|main| + i] == backup[i];
  }

  lemma FirstInEither(main: seq<Descriptor>, backup: seq<Descriptor>, partNumber: int, pd: PartitionDescriptor)
    requires Some(pd) == if FirstWanted(main, partNumber).Some? then FirstWanted(main, partNumber)
                         else FirstWanted(backup, partNumber)
    ensures IsFirst(main + backup, partNumber, pd)
  {
    var all := main + backup;
    if FirstWanted(main, partNumber).Some? {
      FirstIsFirst(main, partNumber);
      var i :| 0 <= i < |main| && main[i] == Physical(pd) && (partNumber < 0 || pd.number == partNumber)
               && forall j :: 0 <= j < i && main[j].Physical? ==> partNumber >= 0 && main[j].pd.number != partNumber;
      assert all[i] == Physical(pd);
    } else {
      NoFirst(main, partNumber);
      FirstIsFirst(backup, partNumber);
      var i :| 0 <= i < |backup| && backup[i] == Physical(pd) && (partNumber < 0 || pd.number == partNumber)
               && forall j :: 0 <= j < i && backup[j].Physical? ==>
                    partNumber >= 0 && backup[j].pd.number != partNumber;
      assert all[|main| + i] == Physical(pd);
      assert forall j :: |main| <= j < |main| + i ==> all[j] == backup[j - |main|];
    }
  }

  lemma SeenIs(main: seq<Descriptor>, backup: seq<Descriptor>, partNumber: int, k: nat)
    requires JustEnough(if partNumber == -2 && Complete(main, partNumber) then main else main + backup, partNumber, k)
    ensures Seen(main + backup, main, partNumber, k)
  {}

  lemma SomePhysical(ds: seq<Descriptor>)
    ensures (forall i :: 0 <= i < |ds| ==> !ds[i].Physical?) ==> LastPhysical(ds).None?
  {
    LastIsListed(ds);
  }

  lemma PartitionIsRight(main: seq<Descriptor>, backup: seq<Descriptor>, partNumber: int)
    requires VdsOf(main, backup, partNumber).0
    ensures var pd := VdsOf(main, backup, partNumber).1.pd;
            && (partNumber != -2 ==> IsFirst(main + backup, partNumber, pd))
            && (partNumber == -2 ==>
                  if Complete(main, -2) || forall i :: 0 <= i < |backup| ==> !backup[i].Physical?
                  then IsLast(main, pd) else IsLast(backup, pd))
  {
    hide Visited; hide Complete; hide IsFirst; hide HasWanted; hide HasPrimary; hide LastOf;
    hide FirstWanted; hide VdsOf;
    var pd := VdsOf(main, backup, partNumber).1.pd;
    WhichPartition(main, backup, partNumber);
    if partNumber != -2 {
      FirstInEither(main, backup, partNumber, pd);
    } else {
      LastIsLast(main);
      LastIsLast(backup);
      SomePhysical(backup);
    }
  }

  lemma VdsAnswers(main: seq<Descriptor>, backup: seq<Descriptor>, partNumber: int)
    ensures var r := VdsOf(main, backup, partNumber); Answers(r.0, r.1, main, backup, partNumber)
  {
    hide Visited; hide Complete; hide IsFirst; hide IsLast; hide LastPrimary; hide LastLogical; hide HasWanted;
    hide HasPrimary; hide HasLogical; hide LastOf; hide FirstWanted; hide VdsOf;
    var all, r := main + backup, VdsOf(main, backup, partNumber);
    HasInEither(main, backup, partNumber);
    SucceedsIffListed(main, backup, partNumber);
    if r.0 { PartitionIsRight(main, backup, partNumber); }
    var ds := if partNumber == -2 && Complete(main, partNumber) then main else all;
    BothAreasAreOneList(main, backup, partNumber);
    var k: nat :| 0 <= k <= |ds| && JustEnough(ds, partNumber, k) && Reports(r.1, ds[..k], partNumber);
    assert all[..k] == ds[..k];
    SeenIs(main, backup, partNumber, k);
    if r.1.havePvd { LastPrimaryIs(ds[..k], r.1.pvd); }
    if r.1.haveLvd { LastLogicalIs(ds[..k], r.1.lvd); }
  }

  /** `udf_read_vds` on areas that stand on the disc: success, and the partition, primary and
      logical volume descriptors returned, are as recorded. */
  method ReadStandingVds(img: Image, partNumber: int, mvds: Area, rvds: Area,
                         ghost main: seq<seq<Descriptor>>, ghost backup: seq<seq<Descriptor>>)
      returns (ok: bool, st: Search)
    requires SequenceStands(img, mvds, main) && SequenceStands(img, rvds, backup)
    ensures Answers(ok, st, Joined(main), Joined(backup), partNumber)
  {
    hide SequenceStands; hide Flat; hide Ends; hide EndOf; hide Answers; hide Visited; hide VdsOf; hide Joined;
    ghost var n := if |main| > |backup| then |main| else |backup|;
    SequenceReads(img, mvds, main, n);
    SequenceReads(img, rvds, backup, n);
    ok, st := ReadVds(img, partNumber, mvds, rvds, n);
    VdsAnswers(Joined(main), Joined(backup), partNumber);
  }
}
