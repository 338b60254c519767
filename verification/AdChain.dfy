/** Reading a file entry and the allocation extents it continues in:
    `udf_read_file_entry` of src/udf_fs.c. */
module AdChain {
  import opened Bytes
  import opened Records
  import opened Ecma167
  import opened FileEntries
  import opened Metadata

  /** The disc, its partitions and the form of descriptors of the entry being read. */
  datatype Context = Context(img: Image, parts: Partitions, adType: int)

  predicate IsPointer(ad: LongAd) { ad.extentType == EXTENT_AD }

  /** The descriptors a pointer leads to; absent if any step of getting them fails. */
  function Level(c: Context, ptr: LongAd): Option<seq<LongAd>>
    requires 0 <= c.adType <= 2
  {
    match MetadataAt(c.img, c.parts, ptr)
    case None => None
    case Some(buf) =>
      if Tag(buf[..2048]) != TAG_ALLOCATION_EXTENT then None
      else ExtentAds(buf, ptr.length, c.adType, ptr.partition)
  }

  // ---------------------------------------------------------- acyclic pointers

  /** Following pointers from `ad` ends within n levels. */
  ghost predicate Grounded(c: Context, ad: LongAd, n: nat)
    requires 0 <= c.adType <= 2
    decreases n
  {
    IsPointer(ad) && Level(c, ad).Some? ==>
      n > 0 && forall i :: 0 <= i < |Level(c, ad).value| ==> Grounded(c, Level(c, ad).value[i], n - 1)
  }

  ghost predicate AllGrounded(c: Context, ads: seq<LongAd>, n: nat)
    requires 0 <= c.adType <= 2
  {
    forall i :: 0 <= i < |ads| ==> Grounded(c, ads[i], n)
  }

  /** A plain descriptor weighs 1; a pointer 1 and what its extent weighs. */
  ghost function Weight(c: Context, ad: LongAd, n: nat): nat
    requires 0 <= c.adType <= 2 && Grounded(c, ad, n)
    decreases n, 0
  {
    if IsPointer(ad) && Level(c, ad).Some? then 1 + TotalWeight(c, Level(c, ad).value, n - 1) else 1
  }

  ghost function TotalWeight(c: Context, ads: seq<LongAd>, n: nat): nat
    requires 0 <= c.adType <= 2 && AllGrounded(c, ads, n)
    decreases n, 1, |ads|
  {
    if ads == [] then 0 else Weight(c, ads[0], n) + TotalWeight(c, ads[1..], n)
  }

  lemma {:induction false} DeeperIsSame(c: Context, ad: LongAd, n: nat)
    requires 0 <= c.adType <= 2 && Grounded(c, ad, n)
    ensures Grounded(c, ad, n + 1) && Weight(c, ad, n + 1) == Weight(c, ad, n)
    decreases n, 0
  {
    if IsPointer(ad) && Level(c, ad).Some? { AllDeeperIsSame(c, Level(c, ad).value, n - 1); }
  }

  lemma {:induction false} AllDeeperIsSame(c: Context, ads: seq<LongAd>, n: nat)
    requires 0 <= c.adType <= 2 && AllGrounded(c, ads, n)
    ensures AllGrounded(c, ads, n + 1) && TotalWeight(c, ads, n + 1) == TotalWeight(c, ads, n)
    decreases n, 1, |ads|
  {
    if ads != [] {
      DeeperIsSame(c, ads[0], n);
      AllDeeperIsSame(c, ads[1..], n);
      assert forall i :: 0 < i < |ads| ==> ads[i] == ads[1..][i - 1];
    }
  }

  lemma {:induction false} WeightOfConcat(c: Context, a: seq<LongAd>, b: seq<LongAd>, n: nat)
    requires 0 <= c.adType <= 2 && AllGrounded(c, a, n) && AllGrounded(c, b, n)
    ensures AllGrounded(c, a + b, n) && TotalWeight(c, a + b, n) == TotalWeight(c, a, n) + TotalWeight(c, b, n)
    decreases |a|
  {
    if a == [] {
      assert a + b == b;
    } else {
      WeightOfConcat(c, a[1..], b, n);
      assert (a + b)[1..] == a[1..] + b;
    }
  }

  /** One successful step, which replaces the pointer at the end of the list by what it
      leads to, makes the list lighter by exactly 1. */
  lemma StepLowersWeight(c: Context, ads: seq<LongAd>, n: nat)
    requires 0 <= c.adType <= 2 && AllGrounded(c, ads, n)
    requires ads != [] && IsPointer(ads[|ads| - 1]) && Level(c, ads[|ads| - 1]).Some?
    ensures var next := ads[..|ads| - 1] + Level(c, ads[|ads| - 1]).value;
            AllGrounded(c, next, n) && TotalWeight(c, next, n) == TotalWeight(c, ads, n) - 1
  {
    hide Level; hide IsPointer;
    var kept, ptr := ads[..|ads| - 1], ads[|ads| - 1];
    var level := Level(c, ptr).value;
    assert Grounded(c, ptr, n);
    AllDeeperIsSame(c, level, n - 1);
    assert ads == kept + [ptr];
    WeightOfConcat(c, kept, [ptr], n);
    assert [ptr][1..] == [];
    assert TotalWeight(c, [ptr], n) == Weight(c, ptr, n);
    WeightOfConcat(c, kept, level, n);
  }

  // --------------------------------------------------------------- the final list

  /** One turn of the loop can be made: the list ends in a pointer that can be followed. */
  predicate Goes(c: Context, ads: seq<LongAd>)
    requires 0 <= c.adType <= 2
  {
    ads != [] && IsPointer(ads[|ads| - 1]) && Level(c, ads[|ads| - 1]).Some?
  }

  function Turned(c: Context, ads: seq<LongAd>): seq<LongAd>
    requires 0 <= c.adType <= 2 && Goes(c, ads)
  {
    ads[..|ads| - 1] + Level(c, ads[|ads| - 1]).value
  }

  /** The pointers that come to stand last run out within n turns. Pointers elsewhere in
      the list are never followed, and may lead anywhere. */
  ghost predicate Ends(c: Context, ads: seq<LongAd>, n: nat)
    requires 0 <= c.adType <= 2
    decreases n
  {
    Goes(c, ads) ==> n > 0 && Ends(c, Turned(c, ads), n - 1)
  }

  /** The list the loop ends with. A pointer that cannot be followed has already been
      dropped when the loop gives up. */
  ghost function Followed(c: Context, ads: seq<LongAd>, n: nat): seq<LongAd>
    requires 0 <= c.adType <= 2 && Ends(c, ads, n)
    decreases n
  {
    if Goes(c, ads) then Followed(c, Turned(c, ads), n - 1)
    else if ads != [] && IsPointer(ads[|ads| - 1]) then ads[..|ads| - 1]
    else ads
  }

  /** On an image without pointer cycles the loop ends in as many turns as the list weighs. */
  lemma {:induction false} AcyclicEnds(c: Context, ads: seq<LongAd>, n: nat)
    requires 0 <= c.adType <= 2 && AllGrounded(c, ads, n)
    ensures Ends(c, ads, TotalWeight(c, ads, n))
    decreases TotalWeight(c, ads, n)
  {
    hide Level; hide IsPointer;
    if Goes(c, ads) {
      StepLowersWeight(c, ads, n);
      AcyclicEnds(c, Turned(c, ads), n);
    }
  }

  /** The three ways to fail, and the one to go on, in the body of the loop. */
  method AppendLevel(c: Context, list: AdList, icb: LongAd) returns (ok: bool)
    requires 0 <= c.adType <= 2 && list.Valid()
    modifies list, list.ad
    ensures list.Valid() && (list.ad == old(list.ad) || fresh(list.ad))
    ensures ok == Level(c, icb).Some?
    ensures list.Contents() == old(list.Contents()) + if ok then Level(c, icb).value else []
  {
    assert list.Contents() == list.Contents() + [];
    var buf, tagId := ReadMetadata(c.img, c.parts, icb);
    if buf.None? { return false; }
    if tagId != TAG_ALLOCATION_EXTENT { return false; }
    ok := list.AppendExtent(buf.value, icb.length, c.adType, icb.partition);
  }

  /** The loop at the end of `udf_read_file_entry`, on every image on which it ends. */
  method FollowExtents(c: Context, list: AdList, ghost n: nat)
    requires 0 <= c.adType <= 2 && list.Valid() && Ends(c, list.Contents(), n)
    modifies list, list.ad
    ensures list.Valid() && (list.ad == old(list.ad) || fresh(list.ad))
    ensures list.Contents() == Followed(c, old(list.Contents()), n)
  {
    hide Level;
    ghost var left := n;
    while list.numAd > 0 && list.ad[list.numAd - 1].extentType == EXTENT_AD
      invariant list.Valid() && (list.ad == old(list.ad) || fresh(list.ad))
      invariant Ends(c, list.Contents(), left)
      invariant Followed(c, list.Contents(), left) == Followed(c, old(list.Contents()), n)
      decreases left
    {
      ghost var ads := list.Contents();
      list.numAd := list.numAd - 1;
      var icb := list.ad[list.numAd];
      assert list.Contents() == ads[..|ads| - 1] && icb == ads[|ads| - 1];
      var ok := AppendLevel(c, list, icb);
      if !ok { return; }
      left := left - 1;
    }
  }

  // ------------------------------------------------------------ what it amounts to

  /** How many turns are allowed for makes no difference. */
  lemma {:induction false} FollowedIsUnique(c: Context, ads: seq<LongAd>, n: nat)
    requires 0 <= c.adType <= 2 && Ends(c, ads, n)
    ensures Ends(c, ads, n + 1) && Followed(c, ads, n + 1) == Followed(c, ads, n)
    decreases n
  {
    hide Level;
    if Goes(c, ads) { FollowedIsUnique(c, Turned(c, ads), n - 1); }
  }

  predicate AllPlain(ads: seq<LongAd>) { forall i :: 0 <= i < |ads| ==> !IsPointer(ads[i]) }

  /** ads is the first of a chain of levels: each holds plain descriptors and, unless it is
      the last, one pointer at its end that leads to the next. The last may end in a
      pointer that cannot be followed. */
  ghost predicate ChainOf(c: Context, ads: seq<LongAd>, levels: seq<seq<LongAd>>)
    requires 0 <= c.adType <= 2
    decreases |levels|
  {
    levels != [] && AllPlain(levels[0]) &&
    if |levels| == 1 then
      ads == levels[0] || exists ptr :: ads == levels[0] + [ptr] && IsPointer(ptr) && Level(c, ptr).None?
    else
      |ads| == |levels[0]| + 1 && ads[..|levels[0]|] == levels[0] &&
      var ptr := ads[|levels[0]|];
      IsPointer(ptr) && Level(c, ptr).Some? && ChainOf(c, Level(c, ptr).value, levels[1..])
  }

  function Flatten(levels: seq<seq<LongAd>>): seq<LongAd> {
    if levels == [] then [] else levels[0] + Flatten(levels[1..])
  }

  lemma {:induction false} ChainIsGrounded(c: Context, ads: seq<LongAd>, levels: seq<seq<LongAd>>)
    requires 0 <= c.adType <= 2 && ChainOf(c, ads, levels)
    ensures AllGrounded(c, ads, |levels|)
    decreases |levels|
  {
    hide Level;
    if |levels| > 1 { ChainIsGrounded(c, Level(c, ads[|levels[0]|]).value, levels[1..]); }
    forall i | 0 <= i < |ads| ensures Grounded(c, ads[i], |levels|) {
      if i < |levels[0]| { assert ads[i] == levels[0][i]; }
    }
  }

  lemma FollowLast(c: Context, front: seq<LongAd>, ads: seq<LongAd>, level: seq<LongAd>)
    requires 0 <= c.adType <= 2 && ChainOf(c, ads, [level]) && AllPlain(front)
    ensures Ends(c, front + ads, 1) && Followed(c, front + ads, 1) == front + level
  {
    hide Level;
    var all := front + ads;
    if ads == level {
      assert all != [] ==> all[|all| - 1] == (if level != [] then level[|level| - 1] else front[|front| - 1]);
    } else {
      assert all[..|all| - 1] == front + level;
    }
  }

  lemma {:induction false} FollowBehind(c: Context, front: seq<LongAd>, ads: seq<LongAd>, levels: seq<seq<LongAd>>)
    requires 0 <= c.adType <= 2 && ChainOf(c, ads, levels) && AllPlain(front)
    ensures Ends(c, front + ads, |levels|) && Followed(c, front + ads, |levels|) == front + Flatten(levels)
    decreases |levels|
  {
    hide Level;
    var all := front + ads;
    if |levels| == 1 {
      assert levels == [levels[0]] && Flatten(levels[1..]) == [];
      assert levels[0] + [] == levels[0];
      FollowLast(c, front, ads, levels[0]);
    } else {
      var ptr := ads[|levels[0]|];
      var next := Level(c, ptr).value;
      assert all[|all| - 1] == ptr;
      assert all[..|all| - 1] == front + levels[0];
      FollowBehind(c, front + levels[0], next, levels[1..]);
      Assoc(front, levels[0], Flatten(levels[1..]));
    }
  }

  /** Such a chain is acyclic, and reading it gives all levels one after another, without
      their pointers, whether it comes to its end or breaks off. */
  lemma ChainIsFlattened(c: Context, ads: seq<LongAd>, levels: seq<seq<LongAd>>)
    requires 0 <= c.adType <= 2 && ChainOf(c, ads, levels)
    ensures AllGrounded(c, ads, |levels|)
    ensures Ends(c, ads, |levels|) && Followed(c, ads, |levels|) == Flatten(levels)
  {
    ChainIsGrounded(c, ads, levels);
    assert [] + ads == ads && [] + Flatten(levels) == Flatten(levels);
    FollowBehind(c, [], ads, levels);
  }

  // ------------------------------------------------- when the loop comes to an end

  /** Plain descriptors, and possibly a pointer at the end. */
  predicate PointerOnlyLast(ads: seq<LongAd>) { ads != [] ==> AllPlain(ads[..|ads| - 1]) }

  /** The pointer at the end of what p leads to. */
  function NextPointer(c: Context, p: LongAd): Option<LongAd>
    requires 0 <= c.adType <= 2
  {
    match Level(c, p)
    case None => None
    case Some(level) => if level != [] && IsPointer(level[|level| - 1]) then Some(level[|level| - 1]) else None
  }

  /** The k-th pointer of the chain that starts with p. */
  function Link(c: Context, p: LongAd, k: nat): Option<LongAd>
    requires 0 <= c.adType <= 2
  {
    if k == 0 then Some(p)
    else match Link(c, p, k - 1)
      case None => None
      case Some(q) => NextPointer(c, q)
  }

  /** The levels along the chain have no pointer but their last. */
  ghost predicate SinglePointers(c: Context, p: LongAd)
    requires 0 <= c.adType <= 2
  {
    forall k: nat :: Link(c, p, k).Some? && Level(c, Link(c, p, k).value).Some? ==>
      PointerOnlyLast(Level(c, Link(c, p, k).value).value)
  }

  ghost predicate Repeats(c: Context, p: LongAd)
    requires 0 <= c.adType <= 2
  {
    exists i: nat, j: nat :: i < j && Link(c, p, i).Some? && Link(c, p, i) == Link(c, p, j)
  }

  lemma {:induction false} LinkFromNext(c: Context, p: LongAd, k: nat)
    requires 0 <= c.adType <= 2
    ensures Link(c, p, k + 1) == match NextPointer(c, p) case None => None case Some(q) => Link(c, q, k)
  {
    hide NextPointer;
    if k > 0 {
      LinkFromNext(c, p, k - 1);
    } else {
      assert Link(c, p, 0) == Some(p);
    }
  }

  lemma SinglePointersFromNext(c: Context, p: LongAd, q: LongAd)
    requires 0 <= c.adType <= 2 && SinglePointers(c, p) && NextPointer(c, p) == Some(q)
    ensures SinglePointers(c, q)
  {
    hide Level; hide NextPointer; hide PointerOnlyLast;
    forall k: nat | Link(c, q, k).Some? && Level(c, Link(c, q, k).value).Some?
      ensures PointerOnlyLast(Level(c, Link(c, q, k).value).value)
    {
      LinkFromNext(c, p, k);
      assert Link(c, p, k + 1).Some?;
    }
  }

  /** One turn of the loop is one link of the chain. */
  lemma TurnIsLink(c: Context, front: seq<LongAd>, p: LongAd) returns (rest: seq<LongAd>)
    requires 0 <= c.adType <= 2 && AllPlain(front) && IsPointer(p) && SinglePointers(c, p)
    ensures Goes(c, front + [p]) <==> Level(c, p).Some?
    ensures NextPointer(c, p).None? && Goes(c, front + [p]) ==> !Goes(c, Turned(c, front + [p]))
    ensures NextPointer(c, p).Some? ==> IsPointer(NextPointer(c, p).value) && AllPlain(rest) && Goes(c, front + [p])
    ensures NextPointer(c, p).Some? ==> Turned(c, front + [p]) == rest + [NextPointer(c, p).value]
  {
    hide Level;
    var ads := front + [p];
    assert ads[..|ads| - 1] == front;
    rest := front;
    if Level(c, p).Some? {
      var level := Level(c, p).value;
      assert Link(c, p, 0) == Some(p) && PointerOnlyLast(level);
      if level != [] {
        rest := front + level[..|level| - 1];
        assert front + level == rest + [level[|level| - 1]];
      } else {
        assert front + level == front;
      }
    }
  }

  lemma {:induction false} StopsThenEnds(c: Context, front: seq<LongAd>, p: LongAd, k: nat)
    requires 0 <= c.adType <= 2 && AllPlain(front) && IsPointer(p) && SinglePointers(c, p) && Link(c, p, k).None?
    ensures Ends(c, front + [p], k)
    decreases k
  {
    hide Level; hide NextPointer; hide Goes; hide Turned; hide AllPlain; hide IsPointer;
    LinkFromNext(c, p, k - 1);
    var rest := TurnIsLink(c, front, p);
    if NextPointer(c, p).Some? {
      SinglePointersFromNext(c, p, NextPointer(c, p).value);
      StopsThenEnds(c, rest, NextPointer(c, p).value, k - 1);
    }
  }

  lemma {:induction false} EndsThenStops(c: Context, front: seq<LongAd>, p: LongAd, n: nat)
    requires 0 <= c.adType <= 2 && AllPlain(front) && IsPointer(p) && SinglePointers(c, p) && Ends(c, front + [p], n)
    ensures Link(c, p, n + 1).None?
    decreases n
  {
    hide Level; hide NextPointer; hide Goes; hide Turned; hide AllPlain; hide IsPointer;
    LinkFromNext(c, p, n);
    var rest := TurnIsLink(c, front, p);
    if NextPointer(c, p).Some? {
      SinglePointersFromNext(c, p, NextPointer(c, p).value);
      EndsThenStops(c, rest, NextPointer(c, p).value, n - 1);
    }
  }

  // A chain that goes on for ever repeats, for there are only so many descriptors.

  ghost function AllAds(): set<LongAd> {
    set lba: int, length: int, partition: int, extentType: int
      | 0 <= lba < 0x1_0000_0000 && 0 <= length < 0x4000_0000 && 0 <= partition < 0x1_0000 && 0 <= extentType < 4
      :: LongAd(lba, length, partition, extentType)
  }

  lemma EveryAdIsThere(ad: LongAd)
    ensures ad in AllAds()
  {
    assert ad == LongAd(ad.lba, ad.length, ad.partition, ad.extentType);
  }

  lemma {:induction false} EarlierLinks(c: Context, p: LongAd, k: nat, j: nat)
    requires 0 <= c.adType <= 2 && k <= j && Link(c, p, j).Some?
    ensures Link(c, p, k).Some?
    decreases j
  {
    hide NextPointer;
    if k < j { EarlierLinks(c, p, k, j - 1); }
  }

  ghost function Links(c: Context, p: LongAd, n: nat): set<LongAd>
    requires 0 <= c.adType <= 2
  {
    set k | 0 <= k < n && Link(c, p, k).Some? :: Link(c, p, k).value
  }

  lemma {:induction false} LinksAreMany(c: Context, p: LongAd, n: nat)
    requires 0 <= c.adType <= 2 && !Repeats(c, p) && (n > 0 ==> Link(c, p, n - 1).Some?)
    ensures |Links(c, p, n)| == n
  {
    hide Link;
    if n > 1 { EarlierLinks(c, p, n - 2, n - 1); }
    if n > 0 {
      LinksAreMany(c, p, n - 1);
      assert Link(c, p, n - 1).value !in Links(c, p, n - 1);
      assert Links(c, p, n) == Links(c, p, n - 1) + {Link(c, p, n - 1).value};
    }
  }

  lemma Subset<T>(a: set<T>, b: set<T>)
    requires a <= b
    ensures |a| <= |b|
    decreases |a|
  {
    if x :| x in a { Subset(a - {x}, b - {x}); }
  }

  lemma NoRepeatThenStops(c: Context, p: LongAd) returns (k: nat)
    requires 0 <= c.adType <= 2 && !Repeats(c, p)
    ensures Link(c, p, k).None?
  {
    k := |AllAds()|;
    if Link(c, p, k).Some? {
      LinksAreMany(c, p, k + 1);
      forall q | q in Links(c, p, k + 1) ensures q in AllAds() { EveryAdIsThere(q); }
      Subset(Links(c, p, k + 1), AllAds());
      assert false;
    }
  }

  lemma {:induction false} RepeatGoesOn(c: Context, p: LongAd, i: nat, j: nat, k: nat)
    requires 0 <= c.adType <= 2 && i < j && Link(c, p, i).Some? && Link(c, p, i) == Link(c, p, j)
    ensures Link(c, p, k).Some?
    ensures k >= j ==> Link(c, p, k) == Link(c, p, k - (j - i))
    decreases k
  {
    hide NextPointer;
    if k > j {
      RepeatGoesOn(c, p, i, j, k - 1);
      RepeatGoesOn(c, p, i, j, k - (j - i));
    } else {
      EarlierLinks(c, p, k, j);
    }
  }

  /** If every level has its only pointer at its end, the loop comes to an end if and only
      if no pointer of the chain repeats. */
  lemma ChainEndsIff(c: Context, front: seq<LongAd>, p: LongAd)
    requires 0 <= c.adType <= 2 && AllPlain(front) && IsPointer(p) && SinglePointers(c, p)
    ensures (exists n: nat :: Ends(c, front + [p], n)) <==> !Repeats(c, p)
  {
    hide Link; hide Level; hide Ends; hide AllPlain; hide IsPointer; hide SinglePointers;
    if !Repeats(c, p) {
      var k := NoRepeatThenStops(c, p);
      StopsThenEnds(c, front, p, k);
    } else if n: nat :| Ends(c, front + [p], n) {
      EndsThenStops(c, front, p, n);
      var i: nat, j: nat :| i < j && Link(c, p, i).Some? && Link(c, p, i) == Link(c, p, j);
      RepeatGoesOn(c, p, i, j, n + 1);
      assert false;
    }
  }

  // ------------------------------------------------- a disc on which it does not end

  const SELF: LongAd := LongAd(1, 2048, 0, EXTENT_AD)

  /** An allocation extent (section 14.5 of part 4) at address 1 that holds one long
      descriptor: a pointer to itself. */
  function SelfBlock(): (b: Block)
  {
    [2, 1, 0, 0, 3] + Zeros(15)
    + (Put32(16) + (Put32(LengthField(SELF)) + (Put32(1) + (Put16(0) + Zeros(2014)))))
  }

  function SelfDisc(): Context {
    Context((lba: u32) => if lba == 1 then Some(SelfBlock()) else None,
            Partitions(1, Partition(0, 0, 0), Partition(0, 0, 0)), 1)
  }

  lemma Middle(pre: seq<u8>, mid: seq<u8>, post: seq<u8>)
    ensures (pre + (mid + post))[|pre|..|pre| + |mid|] == mid
    ensures pre + (mid + post) == (pre + mid) + post
  {}

  lemma {:induction false} SelfTagSum(t: seq<u8>, k: nat)
    requires 2 <= k <= 16 && t == [2, 1, 0, 0, 3] + Zeros(15)
    ensures TagSum(t, k) == 3
    decreases k, t
  {
    if k > 2 {
      SelfTagSum(t, k - 1);
    } else {
      assert TagSum(t, 0) == 0 && TagSum(t, 1) == 2;
    }
  }

  lemma SelfBlockTag(b: seq<u8>, tag: seq<u8>, rest: seq<u8>)
    requires tag == [2, 1, 0, 0, 3] + Zeros(15) && b == tag + rest
    ensures Tag(b) == TAG_ALLOCATION_EXTENT
  {
    TagSumAgrees(b, tag, 16);
    SelfTagSum(tag, 16);
  }

  lemma SelfBlockReads()
    ensures Tag(SelfBlock()) == TAG_ALLOCATION_EXTENT && U32(SelfBlock(), 20) == 16
    ensures AdAt(SelfBlock(), 24, 1, 0) == SELF
  {
    hide Put32; hide Put16; hide AdAt; hide TagSum; hide U32; hide U16;
    var b := SelfBlock();
    var tag := [2, 1, 0, 0, 3] + Zeros(15);
    var rest4 := Put16(0) + Zeros(2014);
    var rest3 := Put32(1) + rest4;
    var rest2 := Put32(LengthField(SELF)) + rest3;
    Middle(tag, Put32(16), rest2);
    Middle(tag + Put32(16), Put32(LengthField(SELF)), rest3);
    Middle(tag + Put32(16) + Put32(LengthField(SELF)), Put32(1), rest4);
    Middle(tag + Put32(16) + Put32(LengthField(SELF)) + Put32(1), Put16(0), Zeros(2014));
    Field32(b, 20, 16);
    AdRoundTrip(b, 24, 1, 0, SELF);
    SelfBlockTag(b, tag, Put32(16) + rest2);
  }

  lemma SelfLeadsToItself()
    ensures Level(SelfDisc(), SELF) == Some([SELF])
  {
    hide Tag; hide SelfBlock; hide AdAt;
    SelfBlockReads();
    var c := SelfDisc();
    assert Extent(c.img, c.parts.p0, 1, 0) == Some([]);
    assert BlockOf(c.img, c.parts.p0, 1, 0) == Some(SelfBlock());
    assert [] + SelfBlock() == SelfBlock() == SelfBlock()[..2048];
    assert Extent(c.img, c.parts.p0, 1, 1) == Some(SelfBlock());
    assert AdsAt(SelfBlock(), 40, 1, 0, 0) == [];
    assert AdsAt(SelfBlock(), 24, 1, 0, 1) == [SELF];
  }

  lemma SelfContext() ensures SelfDisc().adType == 1 {}

  /** On this disc the loop never ends once the pointer stands last, whatever is in front of
      it. In front of a plain descriptor the same pointer is never followed, although it
      is not grounded. */
  lemma {:induction false} SelfPointerNeverEnds(front: seq<LongAd>, n: nat)
    ensures !Ends(SelfDisc(), front + [SELF], n)
    ensures !Grounded(SelfDisc(), SELF, n)
    ensures Ends(SelfDisc(), front + [SELF, LongAd(0, 0, 0, EXTENT_NORMAL)], 0)
  {
    hide Level; hide SelfDisc;
    SelfContext();
    SelfLeadsToItself();
    var ads := front + [SELF];
    assert Turned(SelfDisc(), ads) == ads;
    if n > 0 {
      SelfPointerNeverEnds(front, n - 1);
      assert Level(SelfDisc(), SELF).value[0] == SELF;
    }
  }

  // -------------------------------------------------------------- the whole entry

  /** The entry in its own block, before its extents are read. */
  function BaseEntry(img: Image, parts: Partitions, icb: LongAd): Option<FileEntry> {
    match MetadataAt(img, parts, icb)
    case None => None
    case Some(buf) =>
      if Tag(buf[..2048]) == TAG_FILE_ENTRY then FileEntryOf(buf[..2048], false, icb.partition)
      else if Tag(buf[..2048]) == TAG_EXT_FILE_ENTRY then FileEntryOf(buf[..2048], true, icb.partition)
      else None
  }

  lemma BaseEntryType(img: Image, parts: Partitions, icb: LongAd)
    requires BaseEntry(img, parts, icb).Some? && BaseEntry(img, parts, icb).value.body.Ads?
    ensures 0 <= BaseEntry(img, parts, icb).value.adType <= 2
  {}

  /** The pointers met while reading the entry at icb run out. */
  ghost predicate ExtentsEnd(img: Image, parts: Partitions, icb: LongAd, n: nat) {
    match BaseEntry(img, parts, icb)
    case None => true
    case Some(fe) =>
      fe.body.Ads? ==>
        (BaseEntryType(img, parts, icb); Ends(Context(img, parts, fe.adType), fe.body.ads, n))
  }

  /** What `udf_read_file_entry` returns. */
  ghost function FileEntryAt(img: Image, parts: Partitions, icb: LongAd, n: nat): Option<FileEntry>
    requires ExtentsEnd(img, parts, icb, n)
  {
    match BaseEntry(img, parts, icb)
    case None => None
    case Some(fe) =>
      if fe.body.Inline? then Some(fe)
      else
        BaseEntryType(img, parts, icb);
        Some(fe.(body := Ads(Followed(Context(img, parts, fe.adType), fe.body.ads, n))))
  }

  /** `udf_read_file_entry` */
  method ReadFileEntry(img: Image, parts: Partitions, icb: LongAd, ghost n: nat) returns (fe: Option<FileEntry>)
    requires ExtentsEnd(img, parts, icb, n)
    ensures fe == FileEntryAt(img, parts, icb, n)
  {
    hide FileEntryOf; hide MetadataAt; hide Followed; hide Ends; hide Tag;
    var buf, tagId := ReadMetadata(img, parts, icb);
    if buf.None? { return None; }
    match tagId {
      case 261 => fe := DecodeFileEntry(buf.value[..2048], false, icb.partition);
      case 266 => fe := DecodeFileEntry(buf.value[..2048], true, icb.partition);
      case _ => return None;
    }
    if fe.Some? && fe.value.body.Ads? {
      BaseEntryType(img, parts, icb);
      var list := new AdList(fe.value.body.ads);
      FollowExtents(Context(img, parts, fe.value.adType), list, n);
      fe := Some(fe.value.(body := Ads(list.ad[..list.numAd])));
    }
  }
}
