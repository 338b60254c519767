/** Names and directory lookups from the bytes of a disc up. */
module DiscLookup {
  import opened Bytes
  import opened Records
  import opened Metadata
  import opened AdChain
  import opened Cs0
  import opened PathLookup
  import opened Directories
  import opened DirCache
  import opened DirCacheTheorems
  import opened RecordedFiles

  // ------------------------------------------------------------------- one name

  /** What a lookup of `wanted` should find: an identifier with its code units, other than
      the parent. */
  predicate Sought(r: Record, wanted: seq<u8>) {
    !ParentBit(r.characteristic) && HasUnits(r.name) && CodeUnits(r.name) == CodeUnits(wanted)
  }

  /** The first of them. */
  function FirstSought(rs: seq<Record>, wanted: seq<u8>): (r: Option<nat>)
    ensures r.Some? ==> r.value < |rs| && Sought(rs[r.value], wanted)
    ensures r.Some? ==> forall i :: 0 <= i < r.value ==> !Sought(rs[i], wanted)
    ensures r.None? ==> forall i :: 0 <= i < |rs| ==> !Sought(rs[i], wanted)
  {
    if rs == [] then None
    else if Sought(rs[0], wanted) then Some(0)
    else
      assert forall i :: 1 <= i < |rs| ==> rs[i] == rs[1..][i - 1];
      match FirstSought(rs[1..], wanted)
      case None => None
      case Some(i) => Some(i + 1)
  }

  /** A name as callers write it. */
  function Written(cs0: seq<u8>): Name { WrittenAll(CodeUnits(cs0)) }

  /** The entry at the index a scan gives. */
  function Hit(entries: seq<FileId>, name: Name): Option<FileId> {
    if Scan(entries, name).Some? then Some(entries[Scan(entries, name).value]) else None
  }

  lemma NothingFound(name: Name) ensures Hit(Expected([]), name) == None {}

  lemma HitTail(entries: seq<FileId>, name: Name)
    requires entries != []
    ensures Hit(entries, name) == if entries[0].name == name then Some(entries[0]) else Hit(entries[1..], name)
  {}

  lemma HeadHit(rs: seq<Record>, wanted: seq<u8>)
    requires rs != []
    ensures Hit(Expected(rs), Written(wanted)) ==
              if Sought(rs[0], wanted) then Some(FileId(Written(wanted), rs[0].icb, rs[0].characteristic))
              else Hit(Expected(rs[1..]), Written(wanted))
  {
    hide Hit; hide Scan; hide CodeUnits; hide WrittenAll; hide HasUnits; hide ParentBit;
    var e, rest := Expected(rs), Expected(rs[1..]);
    WrittenIsUnique(CodeUnits(rs[0].name), CodeUnits(wanted));
    if |e| > |rest| {
      HitTail(e, Written(wanted));
      assert e[1..] == rest;
    } else {
      assert e == rest;
    }
  }

  lemma {:induction false} ScanExpected(rs: seq<Record>, wanted: seq<u8>)
    ensures Hit(Expected(rs), Written(wanted)) ==
      match FirstSought(rs, wanted)
      case None => None
      case Some(i) => Some(FileId(Written(wanted), rs[i].icb, rs[i].characteristic))
  {
    hide Written; hide Sought; hide Expected; hide Scan; hide Hit;
    if rs == [] {
      NothingFound(Written(wanted));
    } else {
      ScanExpected(rs[1..], wanted);
      HeadHit(rs, wanted);
    }
  }

  /** `_scan_dir` on a parsed directory finds a name iff an identifier other than the
      parent was recorded with the same code units, in either compression, and then it
      finds the first of them. */
  lemma FoundIffRecorded(rs: seq<Record>, wanted: seq<u8>)
    requires forall i :: 0 <= i < |rs| ==> ValidRecord(rs[i])
    ensures Hit(Parse(Recorded(rs)).files, Written(wanted)) ==
      match FirstSought(rs, wanted)
      case None => None
      case Some(i) => Some(FileId(Written(wanted), rs[i].icb, rs[i].characteristic))
  {
    DirectoryRoundTrip(rs);
    ScanExpected(rs, wanted);
  }

  // ------------------------------------------------------------- a whole path

  /** What is recorded in the directory at an icb; absent if it cannot be read. */
  type Recordings = LongAd -> Option<seq<Record>>

  /** Components as callers write them. */
  function Names(wanted: seq<seq<u8>>): seq<Name> {
    if wanted == [] then [] else [Written(wanted[0])] + Names(wanted[1..])
  }

  lemma {:induction false} NameCount(wanted: seq<seq<u8>>)
    ensures |Names(wanted)| == |wanted|
  {
    hide Written;
    if wanted != [] { NameCount(wanted[1..]); }
  }

  /** A path resolved in what is recorded, by code units. */
  function Resolve(dirs: Recordings, rs: seq<Record>, wanted: seq<seq<u8>>, fid: Option<FileId>): Lookup<seq<Record>>
    decreases |wanted|
  {
    if wanted == [] then Found(Some(rs), fid)
    else match FirstSought(rs, wanted[0])
      case None => Failed
      case Some(i) =>
        var f := FileId(Written(wanted[0]), rs[i].icb, rs[i].characteristic);
        if !DirBit(rs[i].characteristic) then (if |wanted| > 1 then Failed else Found(None, Some(f)))
        else match dirs(f.icb)
          case None => Failed
          case Some(sub) => Resolve(dirs, sub, wanted[1..], Some(f))
  }

  /** The entries that a recorded directory reads as. */
  function Listed(r: Lookup<seq<Record>>): Lookup<seq<FileId>> {
    match r
    case Failed => Failed
    case Found(dir, fid) => Found(if dir.Some? then Some(Expected(dir.value)) else None, fid)
  }

  ghost predicate AllValid(rs: seq<Record>) { forall i :: 0 <= i < |rs| ==> ValidRecord(rs[i]) }

  /** The directories on the way read as recorded. */
  ghost predicate ReadsAs(image: PathLookup.Image, dirs: Recordings, rs: seq<Record>, wanted: seq<seq<u8>>)
    decreases |wanted|
  {
    && AllValid(rs)
    && (wanted != [] && FirstSought(rs, wanted[0]).Some? ==>
          var r := rs[FirstSought(rs, wanted[0]).value];
          DirBit(r.characteristic) ==>
            match dirs(r.icb)
            case None => !image(r.icb).ok
            case Some(sub) =>
              image(r.icb).ok && EntriesOf(image(r.icb).files) == Expected(sub)
              && ReadsAs(image, dirs, sub, wanted[1..]))
  }

  /** Walking a path through directories that read as recorded finds what is recorded. */
  lemma {:induction false} WalkResolves(image: PathLookup.Image, dirs: Recordings, rs: seq<Record>,
                                        wanted: seq<seq<u8>>, fid: Option<FileId>)
    requires ReadsAs(image, dirs, rs, wanted)
    ensures Walk(image, Expected(rs), Names(wanted), fid) == Listed(Resolve(dirs, rs, wanted, fid))
    decreases |wanted|
  {
    hide Expected; hide Written; hide Scan; hide FirstSought; hide DirBit; hide AllValid; hide HasFlag;
    if wanted != [] {
      ScanExpected(rs, wanted[0]);
      assert Names(wanted)[1..] == Names(wanted[1..]);
      match FirstSought(rs, wanted[0])
      case None =>
      case Some(i) =>
        var f := FileId(Written(wanted[0]), rs[i].icb, rs[i].characteristic);
        BitsAreFlags(rs[i].characteristic);
        if DirBit(rs[i].characteristic) && dirs(f.icb).Some? {
          WalkResolves(image, dirs, dirs(f.icb).value, wanted[1..], Some(f));
        }
    }
  }

  // ------------------------------------------------------- through the cache, from the disc

  /** What is read is the disc wherever reading comes to an end; elsewhere no read returns,
      so it does not matter what the image says there. */
  ghost predicate Agrees(image: PathLookup.Image, img: Metadata.Image, parts: Partitions, depth: nat) {
    forall icb :: ExtentsEnd(img, parts, icb, depth) ==> image(icb) == ReadDirAt(img, parts, icb, depth)
  }

  /** With the disc itself as the image: a lookup gives what a walk that parses every
      directory on its path from the disc gives, in every run. */
  lemma LookupsReadTheDisc(image: PathLookup.Image, img: Metadata.Image, parts: Partitions, depth: nat, rootIcb: LongAd,
                           s: State, e: Event)
    requires Agrees(image, img, parts, depth) && ExtentsEnd(img, parts, rootIcb, depth)
    requires Reachable(image, ReadDirAt(img, parts, rootIcb, depth).files, s)
    requires e in s.events && e.LookedUp? && (e.result.Found? || !e.troubled)
    ensures e.result.Found? && e.result.dir.Some? ==> e.result.dir.value in s.heap.nodes
    ensures Tokens(e.path) == [] ==> e.result == if e.needFid then Failed else Found(Some(ROOT), None)
    ensures Tokens(e.path) != [] ==>
      View(s.heap, e.result) ==
        Walk(image, EntriesOf(ReadDirAt(img, parts, rootIcb, depth).files), Tokens(e.path), None)
  {
    hide Walk; hide View; hide Reachable; hide ReadDirAt; hide ExtentsEnd; hide Tokens;
    CacheIsTransparent(image, ReadDirAt(img, parts, rootIcb, depth).files, s, e);
  }

  /** The directory at an icb stands on the disc with these identifiers, or its entry cannot
      be read; `depth` is not less than the number of extents of its entry. */
  ghost predicate Stands(img: Metadata.Image, parts: Partitions, icb: LongAd, depth: nat, rs: Option<seq<Record>>) {
    match rs
    case None => IsLost(img, parts, icb)
    case Some(sub) =>
      ExtentsEnd(img, parts, icb, depth) && exists r, data :: DirectoryStands(img, parts, icb, r, data, sub)
  }

  /** So do all directories on the way. Nothing is asked of any other part of the disc. */
  ghost predicate OnDisc(img: Metadata.Image, parts: Partitions, depth: nat, dirs: Recordings,
                         rs: seq<Record>, wanted: seq<seq<u8>>)
    decreases |wanted|
  {
    wanted != [] && FirstSought(rs, wanted[0]).Some? ==>
      var r := rs[FirstSought(rs, wanted[0]).value];
      DirBit(r.characteristic) ==>
        && Stands(img, parts, r.icb, depth, dirs(r.icb))
        && (dirs(r.icb).Some? ==> OnDisc(img, parts, depth, dirs, dirs(r.icb).value, wanted[1..]))
  }

  /** A directory that stands on the disc is read as its identifiers. */
  lemma StandingIsReadAs(image: PathLookup.Image, img: Metadata.Image, parts: Partitions, depth: nat, icb: LongAd,
                         rs: Option<seq<Record>>)
    requires Agrees(image, img, parts, depth) && Stands(img, parts, icb, depth, rs)
    ensures ExtentsEnd(img, parts, icb, depth) && image(icb) == ReadDirAt(img, parts, icb, depth)
    ensures image(icb).ok == rs.Some?
    ensures rs.Some? ==> AllValid(rs.value) && EntriesOf(image(icb).files) == Expected(rs.value)
  {
    hide ReadDirAt; hide ExtentsEnd; hide EntryStands; hide ExtentStands; hide Recorded; hide Expected;
    hide ValidRecord;
    match rs
    case None => LostEntryIsRefused(img, parts, icb, depth);
    case Some(sub) =>
      var r, data :| DirectoryStands(img, parts, icb, r, data, sub);
      StandingDirectoryIsRead(img, parts, icb, r, data, sub);
  }

  lemma {:induction false} DiscReadsAs(image: PathLookup.Image, img: Metadata.Image, parts: Partitions, depth: nat,
                                       dirs: Recordings, rs: seq<Record>, wanted: seq<seq<u8>>)
    requires Agrees(image, img, parts, depth) && OnDisc(img, parts, depth, dirs, rs, wanted) && AllValid(rs)
    ensures ReadsAs(image, dirs, rs, wanted)
    decreases |wanted|
  {
    hide Agrees; hide Stands; hide FirstSought; hide Expected; hide DirBit; hide AllValid;
    if wanted != [] && FirstSought(rs, wanted[0]).Some? {
      var r := rs[FirstSought(rs, wanted[0]).value];
      if DirBit(r.characteristic) {
        StandingIsReadAs(image, img, parts, depth, r.icb, dirs(r.icb));
        if dirs(r.icb).Some? { DiscReadsAs(image, img, parts, depth, dirs, dirs(r.icb).value, wanted[1..]); }
      }
    }
  }

  /** From a path string, however it is spelled, to the entry that is recorded on the disc:
      in every run of any number of threads, a lookup that succeeds, or that fails without
      trouble of its own, gives what its components resolve to by code units. */
  lemma PathFindsWhatIsRecorded(image: PathLookup.Image, img: Metadata.Image, parts: Partitions, depth: nat,
                                rootIcb: LongAd, dirs: Recordings, rs: seq<Record>, wanted: seq<seq<u8>>,
                                pieces: seq<Part>, trail: Name, s: State, e: Event)
    requires Agrees(image, img, parts, depth) && Stands(img, parts, rootIcb, depth, Some(rs))
    requires OnDisc(img, parts, depth, dirs, rs, wanted)
    requires Reachable(image, ReadDirAt(img, parts, rootIcb, depth).files, s)
    requires e in s.events && e.LookedUp? && (e.result.Found? || !e.troubled)
    requires e.path == Spell(pieces, trail) && PartTokens(pieces) == Names(wanted)
    requires forall i :: 0 <= i < |pieces| ==> ValidPart(pieces[i])
    requires forall i :: 1 <= i < |pieces| ==> pieces[i].gap != []
    requires forall i :: 0 <= i < |trail| ==> Separates(trail[i])
    ensures e.result.Found? && e.result.dir.Some? ==> e.result.dir.value in s.heap.nodes
    ensures wanted == [] ==> e.result == if e.needFid then Failed else Found(Some(ROOT), None)
    ensures wanted != [] ==> View(s.heap, e.result) == Listed(Resolve(dirs, rs, wanted, None))
  {
    hide ReadDirAt; hide ExtentsEnd; hide FirstSought; hide Expected; hide Tokens; hide Walk; hide Agrees; hide Stands;
    hide Resolve; hide ReadsAs; hide View; hide Spell; hide Listed; hide ValidRecord; hide Reachable; hide OnDisc;
    hide Names; hide PartTokens; hide EntriesOf; hide Separates; hide ValidPart; hide Node.Entries;
    NameCount(wanted);
    TokensOfSpelling(pieces, trail);
    StandingIsReadAs(image, img, parts, depth, rootIcb, Some(rs));
    LookupsReadTheDisc(image, img, parts, depth, rootIcb, s, e);
    if wanted != [] {
      DiscReadsAs(image, img, parts, depth, dirs, rs, wanted);
      WalkResolves(image, dirs, rs, wanted, None);
    }
  }
}
