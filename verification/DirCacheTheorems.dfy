/** What the directory cache promises its callers, for every run: any number of
    threads, any interleaving, memory and read failures at any point. */
module DirCacheTheorems {
  import opened Bytes
  import opened Records
  import opened PathLookup
  import opened DirCache
  import opened DirCacheSteps
  import opened DirCacheRuns

  /** A schedule says which thread moves next and what the environment does. */
  type Schedule = seq<(nat, Choice)>

  ghost predicate Schedules(s: State, sched: Schedule) { forall k :: 0 <= k < |sched| ==> sched[k].0 < |s.threads| }

  ghost function Run(image: Image, s: State, sched: Schedule): State
    requires Inv(image, s) && Schedules(s, sched)
    decreases |sched|
  {
    if sched == [] then s
    else
      StepKeepsInv(image, s, sched[0].0, sched[0].1);
      Run(image, Step(image, s, sched[0].0, sched[0].1), sched[1..])
  }

  lemma GrowsReflexive(h: Heap) ensures Grows(h, h) {}

  lemma GrowsTransitive(h0: Heap, h1: Heap, h2: Heap)
    requires Grows(h0, h1) && Grows(h1, h2)
    ensures Grows(h0, h2)
  {}

  lemma {:induction false} RunIsGood(image: Image, s: State, sched: Schedule)
    requires Inv(image, s) && Schedules(s, sched)
    ensures Good(image, s, Run(image, s, sched))
    decreases |sched|
  {
    hide Inv; hide Step; hide Grows;
    if sched == [] {
      GrowsReflexive(s.heap);
    } else {
      StepKeepsInv(image, s, sched[0].0, sched[0].1);
      var mid := Step(image, s, sched[0].0, sched[0].1);
      RunIsGood(image, mid, sched[1..]);
      GrowsTransitive(s.heap, mid.heap, Run(image, mid, sched[1..]).heap);
    }
  }

  lemma InitIsGood(image: Image, s: State, root: Option<seq<FileId>>)
    requires Init(s, root)
    ensures Inv(image, s)
  {
    assert ObjectOk(image, s.heap, ROOT);
    assert Conserved(s.heap);
    forall t | 0 <= t < |s.threads|
      ensures HandsOk(s.heap, t, s.threads[t].pc) && ThreadOk(image, s.heap, s.threads[t])
    {}
  }

  ghost predicate Starts(image: Image, root: Option<seq<FileId>>, s0: State, sched: Schedule)
    ensures Starts(image, root, s0, sched) ==> Inv(image, s0) && Schedules(s0, sched)
  {
    if Init(s0, root) then InitIsGood(image, s0, root); Schedules(s0, sched) else false
  }

  /** s can be reached from a freshly opened volume whose root directory reads as `root`. */
  ghost predicate Reachable(image: Image, root: Option<seq<FileId>>, s: State) {
    exists s0, sched :: Starts(image, root, s0, sched) && s == Run(image, s0, sched)
  }

  lemma ReachableIsGood(image: Image, root: Option<seq<FileId>>, s: State)
    requires Reachable(image, root, s)
    ensures Inv(image, s) && EntriesOf(root) == s.heap.nodes[ROOT].Entries()
  {
    var s0, sched :| Starts(image, root, s0, sched) && s == Run(image, s0, sched);
    RunIsGood(image, s0, sched);
    assert Published(s0.heap, ROOT);
  }

  // ------------------------------------------------------------------ theorems

  /** Once a directory's slot array or a slot is published it never changes, nor do
      the entries of a published directory, however the run continues. */
  lemma PublishedNeverChanges(image: Image, root: Option<seq<FileId>>, s: State, sched: Schedule, d: Ptr)
    requires Reachable(image, root, s) && Schedules(s, sched) && Published(s.heap, d)
    ensures Inv(image, s)
    ensures var h, h' := s.heap, Run(image, s, sched).heap;
            && d in h'.nodes && h'.nodes[d].files == h.nodes[d].files
            && (h.nodes[d].subdirs.Some? ==> h'.nodes[d].subdirs == h.nodes[d].subdirs)
            && forall i, n :: SlotIs(h, d, i, n) ==> SlotIs(h', d, i, n)
  {
    hide Inv; hide Run; hide Reachable; hide SlotIs;
    ReachableIsGood(image, root, s);
    RunIsGood(image, s, sched);
    var h, h' := s.heap, Run(image, s, sched).heap;
    assert h.nodes[d].subdirs.Some? ==> HasArray(h, d, h.nodes[d].subdirs.value);
  }

  /** All callers that ask for the same subdirectory and get one get the same one. */
  lemma SameSubdirectoryForAll(image: Image, root: Option<seq<FileId>>, s: State, e1: Event, e2: Event)
    requires Reachable(image, root, s) && e1 in s.events && e2 in s.events && e1.Returned? && e2.Returned?
    requires e1.dir == e2.dir && e1.index == e2.index && e1.node.Some? && e2.node.Some?
    ensures e1.node == e2.node
  {
    ReachableIsGood(image, root, s);
    assert EventOk(image, s.heap, e1) && EventOk(image, s.heap, e2);
  }

  /** Past the second compare-and-swap a call succeeds; it fails only on something
      that is not a directory, a directory that does not read, or lack of memory
      or a read error in that very call. */
  lemma WhenSubdirectoryFails(image: Image, root: Option<seq<FileId>>, s: State, e: Event)
    requires Reachable(image, root, s) && e in s.events && e.Returned? && e.node.None?
    ensures !e.passed && e.dir in s.heap.nodes && e.index < |s.heap.nodes[e.dir].Entries()|
    ensures var f := s.heap.nodes[e.dir].Entries()[e.index];
            f.characteristic / 2 % 2 == 1 && image(f.icb).ok ==> e.troubled
  {
    ReachableIsGood(image, root, s);
    assert EventOk(image, s.heap, e);
  }

  /** A walk along at least one component ends, if it does, at an entry. */
  lemma {:induction false} WalkHasEntry(image: Image, entries: seq<FileId>, rest: seq<Name>, fid: Option<FileId>)
    requires rest != [] || fid.Some?
    ensures Walk(image, entries, rest, fid).Found? ==> Walk(image, entries, rest, fid).fid.Some?
    decreases |rest|
  {
    hide Scan;
    if rest != [] {
      match Scan(entries, rest[0])
      case None =>
      case Some(i) =>
        if IsDirectory(entries[i]) {
          WalkHasEntry(image, EntriesOf(image(entries[i].icb).files), rest[1..], Some(entries[i]));
        }
    }
  }

  /** Lookups through the cache give what lookups that re-read every directory give:
      always if they succeed, and if they fail unless that call ran out of memory or met a
      read error. A path without components is the root, which has no file identifier: it
      can be opened as a directory, and not as a file. */
  lemma CacheIsTransparent(image: Image, root: Option<seq<FileId>>, s: State, e: Event)
    requires Reachable(image, root, s) && e in s.events && e.LookedUp?
    ensures e.result.Found? && e.result.dir.Some? ==> e.result.dir.value in s.heap.nodes
    ensures Tokens(e.path) == [] ==> e.result == if e.needFid then Failed else Found(Some(ROOT), None)
    ensures Tokens(e.path) != [] && (e.result.Found? || !e.troubled) ==>
      View(s.heap, e.result) == Walk(image, EntriesOf(root), Tokens(e.path), None)
    ensures Tokens(e.path) != [] && e.result.Found? ==> e.result.fid.Some?
    ensures ROOT in s.heap.nodes && s.heap.nodes[ROOT].Entries() == EntriesOf(root)
  {
    ReachableIsGood(image, root, s);
    assert EventOk(image, s.heap, e);
    if Tokens(e.path) != [] { WalkHasEntry(image, EntriesOf(root), Tokens(e.path), None); }
  }

  /** Every cached directory holds what its icb reads as. */
  lemma CachedIsFaithful(image: Image, root: Option<seq<FileId>>, s: State, d: Ptr, i: nat, n: Ptr)
    requires Reachable(image, root, s) && SlotIs(s.heap, d, i, n)
    ensures n in s.heap.nodes && i < |s.heap.nodes[d].Entries()|
    ensures image(s.heap.nodes[d].Entries()[i].icb) == DirRead(true, s.heap.nodes[n].files)
    ensures s.heap.nodes[d].Entries()[i].characteristic / 2 % 2 == 1
  {
    ReachableIsGood(image, root, s);
    SlotFaithful(image, s.heap, d, i, n);
  }

  function StepsInCall(pc: Pc): nat {
    match pc
    case Idle => 0
    case Loop => 0
    case TestSubdirs => 13
    case AllocArr => 12
    case CasArr(_) => 11
    case FreeArr(_) => 10
    case LoadSubdirs => 9
    case TestSlot(_) => 8
    case AllocNode => 7
    case ReadNode(_) => 6
    case LoadSubdirs2(_) => 5
    case CasSlot(_, _) => 4
    case DropLoser(_) => 3
    case LoadSubdirs3 => 2
    case LoadSlot(_) => 1
    case DropFailed(_) => 1
  }

  /** Own steps a thread needs at most to finish the call it is in. */
  function StepsLeft(th: Thread): nat {
    match th.pc
    case Idle => 0
    case Loop => 14 * |th.rest| + 1
    case _ => 14 * |th.rest| + 1 + StepsInCall(th.pc)
  }

  /** The step took thread t closer to the end of its call and left the others alone. */
  ghost predicate Advances(s: State, s': State, t: nat) {
    t < |s.threads| == |s'.threads| && StepsLeft(s'.threads[t]) < StepsLeft(s.threads[t])
    && forall u :: 0 <= u < |s.threads| && u != t ==> s'.threads[u] == s.threads[u]
  }

  lemma ReturnAdvances(s: State, s1: State, t: nat, node: Option<Ptr>)
    requires t < |s.threads| == |s1.threads| && InCall(s.threads[t])
    requires forall u :: 0 <= u < |s.threads| && u != t ==> s1.threads[u] == s.threads[u]
    requires s1.threads[t].rest == s.threads[t].rest
    ensures Advances(s, Return(s1, t, node), t)
  {}

  lemma TurnAdvances(s: State, t: nat)
    requires t < |s.threads| && s.threads[t].pc.Loop? && s.threads[t].job.Path? && s.threads[t].dir in s.heap.nodes
    ensures Advances(s, Turn(s, t), t)
  {
    hide Scan;
  }

  lemma ArrayStepAdvances(image: Image, s: State, t: nat, c: Choice)
    requires Inv(image, s) && t < |s.threads| && OnArrays(s.threads[t].pc)
    ensures Advances(s, Step(image, s, t, c), t)
  {
    hide Inv; hide Return; hide ThreadOk; hide HandsOk; hide ObjectOk; hide HeapOk; hide Conserved;
    hide EventOk; hide Published;
    ReturnAdvances(s, At(s, t, s.threads[t].(troubled := true)), t, None);
  }

  /** The steps that stay inside the call. */
  lemma NodeStepAdvances(image: Image, s: State, t: nat, c: Choice)
    requires Inv(image, s) && t < |s.threads| && InCall(s.threads[t]) && !OnArrays(s.threads[t].pc)
    requires !s.threads[t].pc.DropFailed? && !s.threads[t].pc.LoadSlot?
    ensures Advances(s, Step(image, s, t, c), t)
  {
    hide Inv; hide Return; hide ThreadOk; hide HandsOk; hide ObjectOk; hide HeapOk; hide Conserved;
    hide EventOk; hide Published;
    hide NewNode; hide FillNode; hide PublishNode; hide FreeNode; hide IsDirectory; hide Walk; hide Enter;
    hide NewArray; hide PublishArray; hide FreeArray; hide Start; hide Turn;
    var th := s.threads[t];
    if th.pc.AllocNode? {
      ReturnAdvances(s, At(s, t, th.(troubled := true)), t, None);
    }
  }

  /** The two steps that always return. */
  lemma LastStepAdvances(image: Image, s: State, t: nat, c: Choice)
    requires Inv(image, s) && t < |s.threads| && (s.threads[t].pc.DropFailed? || s.threads[t].pc.LoadSlot?)
    ensures Advances(s, Step(image, s, t, c), t)
  {
    hide Inv; hide Return; hide HandsOk; hide ObjectOk; hide HeapOk; hide Conserved; hide EventOk; hide Published;
    hide FreeNode; hide Advances;
    var th, h := s.threads[t], s.heap;
    ThreadIsOk(image, s, t);
    if th.pc.LoadSlot? {
      ArrayKnown(image, h, th, th.pc.at);
      ReturnAdvances(s, s, t, h.arrays[th.pc.at][th.index]);
    } else {
      ReturnAdvances(s, s.(heap := FreeNode(h, th.pc.node)), t, None);
    }
  }

  /** No thread ever waits for another: whatever the others do, each own step brings a
      call closer to its end, at most 13 of them inside one `_cache_subdir`. */
  lemma CallsAreWaitFree(image: Image, s: State, t: nat, c: Choice)
    requires Inv(image, s) && t < |s.threads| && !s.threads[t].pc.Idle?
    ensures Advances(s, Step(image, s, t, c), t)
  {
    hide Inv; hide Return; hide Turn; hide ThreadOk; hide HandsOk; hide ObjectOk; hide HeapOk;
    hide Conserved; hide EventOk;
    var th := s.threads[t];
    ThreadIsOk(image, s, t);
    if th.pc.Loop? {
      LoopIsPath(image, s.heap, th);
      TurnAdvances(s, t);
    } else if OnArrays(th.pc) {
      ReturnAdvances(s, At(s, t, th.(troubled := true)), t, None);
      ArrayStepAdvances(image, s, t, c);
    } else if th.pc.DropFailed? || th.pc.LoadSlot? {
      LastStepAdvances(image, s, t, c);
    } else {
      NodeStepAdvances(image, s, t, c);
    }
  }

  /** How many of the scheduled steps are thread t's. */
  function Moves(sched: Schedule, t: nat): nat {
    if sched == [] then 0 else (if sched[0].0 == t then 1 else 0) + Moves(sched[1..], t)
  }

  lemma OthersStand(image: Image, s: State, t: nat, c: Choice)
    requires Inv(image, s) && t < |s.threads|
    ensures forall u :: 0 <= u < |s.threads| && u != t ==>
      u < |Step(image, s, t, c).threads| && Step(image, s, t, c).threads[u] == s.threads[u]
  {
    hide Inv; hide ThreadOk; hide HandsOk; hide ObjectOk; hide Return; hide Turn; hide Published;
    if s.threads[t].pc.Idle? {
      assert Step(image, s, t, c) == Start(s, t, c);
    } else {
      CallsAreWaitFree(image, s, t, c);
    }
  }

  ghost predicate IdleAfter(image: Image, s: State, sched: Schedule, k: nat, t: nat)
    requires Inv(image, s) && Schedules(s, sched) && k <= |sched|
  {
    t < |Run(image, s, sched[..k]).threads| && Run(image, s, sched[..k]).threads[t].pc.Idle?
  }

  /** A call that is given its steps ends, whatever the other threads do meanwhile. */
  lemma {:induction false} EveryCallEnds(image: Image, s: State, sched: Schedule, t: nat)
    requires Inv(image, s) && Schedules(s, sched) && t < |s.threads| && StepsLeft(s.threads[t]) <= Moves(sched, t)
    ensures exists k :: 0 <= k <= |sched| && IdleAfter(image, s, sched, k, t)
    decreases |sched|
  {
    hide Inv; hide Step; hide Grows;
    if s.threads[t].pc.Idle? {
      assert IdleAfter(image, s, sched, 0, t);
    } else {
      var u, c := sched[0].0, sched[0].1;
      var mid := Step(image, s, u, c);
      StepKeepsInv(image, s, u, c);
      if u == t { CallsAreWaitFree(image, s, t, c); } else { OthersStand(image, s, u, c); }
      EveryCallEnds(image, mid, sched[1..], t);
      var k :| 0 <= k <= |sched| - 1 && IdleAfter(image, mid, sched[1..], k, t);
      assert sched[..k + 1][1..] == sched[1..][..k];
      assert IdleAfter(image, s, sched, k + 1, t);
    }
  }

  // ------------------------------------------------------------ hits and calm runs

  /** On the way through `_cache_subdir` that allocates nothing. */
  predicate OnHit(pc: Pc) {
    pc.TestSubdirs? || pc.LoadSubdirs? || pc.TestSlot? || pc.LoadSubdirs3? || pc.LoadSlot?
  }

  /** A directory that is cached is neither read nor allocated again: a call that finds it in
      its slot changes nothing in memory and returns it. */
  lemma HitIsReused(image: Image, s: State, t: nat, c: Choice, n: Ptr)
    requires Inv(image, s) && t < |s.threads| && OnHit(s.threads[t].pc)
    requires SlotIs(s.heap, s.threads[t].dir, s.threads[t].index, n)
    ensures var th, s' := s.threads[t], Step(image, s, t, c);
            && s'.heap == s.heap && |s'.threads| == |s.threads|
            && if th.pc.LoadSlot? then Returned(th.dir, th.index, Some(n), th.passed, th.troubled) in s'.events
               else OnHit(s'.threads[t].pc) && s'.threads[t] == th.(pc := s'.threads[t].pc)
  {
    hide Inv; hide HandsOk; hide HeapOk; hide Conserved; hide EventOk; hide OnCourse; hide Faithful;
    hide Finish; hide JobOk;
    ThreadIsOk(image, s, t);
    var th := s.threads[t];
    if th.pc.TestSlot? || th.pc.LoadSlot? { ArrayKnown(image, s.heap, th, th.pc.at); }
  }

  /** The environment lets no allocation and no read fail. */
  ghost predicate Calm(sched: Schedule) {
    forall k :: 0 <= k < |sched| ==> !sched[k].1.NoMemory? && !sched[k].1.ReadError?
  }

  ghost predicate Untroubled(s: State) {
    && (forall t :: 0 <= t < |s.threads| && !s.threads[t].pc.Idle? ==> !s.threads[t].troubled)
    && forall e :: e in s.events ==> !e.troubled
  }

  lemma ReturnIsUntroubled(s: State, t: nat, node: Option<Ptr>)
    requires t < |s.threads| && Untroubled(s) && !s.threads[t].troubled
    ensures Untroubled(Return(s, t, node))
  {}

  lemma TurnIsUntroubled(s: State, t: nat)
    requires t < |s.threads| && s.threads[t].job.Path? && s.threads[t].dir in s.heap.nodes
    requires Untroubled(s) && !s.threads[t].troubled
    ensures Untroubled(Turn(s, t))
  {
    hide Scan;
  }

  lemma StartIsUntroubled(s: State, t: nat, c: Choice)
    requires t < |s.threads| && Untroubled(s)
    ensures Untroubled(Start(s, t, c))
  {}

  lemma StepIsUntroubled(image: Image, s: State, t: nat, c: Choice)
    requires Inv(image, s) && t < |s.threads| && Untroubled(s) && !c.NoMemory? && !c.ReadError?
    ensures Untroubled(Step(image, s, t, c))
  {
    hide Inv; hide Return; hide Turn; hide Start; hide ThreadOk; hide HandsOk; hide ObjectOk; hide HeapOk;
    hide Conserved; hide EventOk; hide NewNode; hide FillNode; hide PublishNode; hide FreeNode; hide NewArray;
    hide PublishArray; hide FreeArray;
    var th := s.threads[t];
    ThreadIsOk(image, s, t);
    if th.pc.Idle? {
      StartIsUntroubled(s, t, c);
    } else if th.pc.Loop? {
      LoopIsPath(image, s.heap, th);
      TurnIsUntroubled(s, t);
    } else if th.pc.DropFailed? {
      IsCalling(image, s, t);
      ReturnIsUntroubled(s.(heap := FreeNode(s.heap, th.pc.node)), t, None);
    } else if th.pc.LoadSlot? {
      IsCalling(image, s, t);
      LoadSlotStep(image, s, t, th, th.pc.at);
      ReturnIsUntroubled(s, t, s.heap.arrays[th.pc.at][th.index]);
    }
  }

  /** In a calm run no call is troubled, so that no lookup fails that a walk would not. */
  lemma {:induction false} CalmRunIsUntroubled(image: Image, s: State, sched: Schedule)
    requires Inv(image, s) && Schedules(s, sched) && Calm(sched) && Untroubled(s)
    ensures Untroubled(Run(image, s, sched))
    decreases |sched|
  {
    hide Inv; hide Step; hide Grows; hide Untroubled;
    if sched != [] {
      StepKeepsInv(image, s, sched[0].0, sched[0].1);
      StepIsUntroubled(image, s, sched[0].0, sched[0].1);
      CalmRunIsUntroubled(image, Step(image, s, sched[0].0, sched[0].1), sched[1..]);
    }
  }

  lemma NothingIsTroubled(s: State, root: Option<seq<FileId>>)
    requires Init(s, root)
    ensures Untroubled(s)
  {}

  lemma UntroubledEvent(s: State, e: Event)
    requires Untroubled(s) && e in s.events
    ensures !e.troubled
  {}

  lemma CalmLookupsWalk(image: Image, root: Option<seq<FileId>>, s0: State, sched: Schedule, e: Event)
    requires Starts(image, root, s0, sched) && Calm(sched)
    requires e in Run(image, s0, sched).events && e.LookedUp? && Tokens(e.path) != []
    ensures e.result.Found? && e.result.dir.Some? ==> e.result.dir.value in Run(image, s0, sched).heap.nodes
    ensures View(Run(image, s0, sched).heap, e.result) == Walk(image, EntriesOf(root), Tokens(e.path), None)
  {
    hide Inv; hide Run; hide Walk; hide View; hide Tokens; hide Untroubled;
    NothingIsTroubled(s0, root);
    CalmRunIsUntroubled(image, s0, sched);
    CacheIsTransparent(image, root, Run(image, s0, sched), e);
    UntroubledEvent(Run(image, s0, sched), e);
  }

  // ----------------------------------------------------------------- ownership

  /** The places that can own a block of memory. */
  datatype Place = InVolume | InNode(dir: Ptr) | InArray(arr: Ptr, index: nat) | InHands(thread: nat)

  ghost predicate Owns(s: State, p: Place, x: Ptr) {
    match p
    case InVolume => x == ROOT
    case InNode(d) => d in s.heap.nodes && s.heap.nodes[d].subdirs == Some(x)
    case InArray(a, i) => a in s.heap.arrays && i < |s.heap.arrays[a]| && s.heap.arrays[a][i] == Some(x)
    case InHands(t) => t < |s.threads| && Holding(s.threads[t].pc) == Some(x)
  }

  ghost predicate InMemory(s: State, x: Ptr) { x in s.heap.nodes || x in s.heap.arrays }

  function PlaceOf(h: Home): Option<Place> {
    match h
    case Embedded => Some(InVolume)
    case Held(t) => Some(InHands(t))
    case OfDir(d) => Some(InNode(d))
    case InSlot(a, i) => Some(InArray(a, i))
    case Released => None
  }

  lemma OwnerIsRecorded(image: Image, s: State, x: Ptr, o: Place)
    requires Inv(image, s) && Owns(s, o, x)
    ensures InMemory(s, x) && x in s.heap.home && PlaceOf(s.heap.home[x]) == Some(o)
  {
    match o
    case InVolume =>
    case InNode(d) => assert ObjectOk(image, s.heap, d);
    case InArray(a, i) => assert ObjectOk(image, s.heap, a); assert InItsSlot(s.heap, x, a, i);
    case InHands(t) =>
      assert HandsOk(s.heap, t, s.threads[t].pc) && ThreadOk(image, s.heap, s.threads[t]);
  }

  /** An array or node in memory is owned by exactly one place: the volume handle,
      one directory, one slot or one thread; one that was freed by none. */
  lemma OneOwner(image: Image, root: Option<seq<FileId>>, s: State, x: Ptr, p: Place, q: Place)
    requires Reachable(image, root, s)
    ensures InMemory(s, x) <==> exists o :: Owns(s, o, x)
    ensures Owns(s, p, x) && Owns(s, q, x) ==> p == q
  {
    ReachableIsGood(image, root, s);
    forall o | Owns(s, o, x) ensures InMemory(s, x) && x in s.heap.home && PlaceOf(s.heap.home[x]) == Some(o) {
      OwnerIsRecorded(image, s, x, o);
    }
    if InMemory(s, x) {
      assert ObjectOk(image, s.heap, x);
      if s.heap.home[x].Held? { assert HandsOk(s.heap, s.heap.home[x].thread, s.threads[s.heap.home[x].thread].pc); }
      assert Owns(s, PlaceOf(s.heap.home[x]).value, x);
    }
  }

  /** Every allocation is in memory or has been freed once, never both, never twice. */
  lemma FreedAtMostOnce(image: Image, root: Option<seq<FileId>>, s: State, r: Res)
    requires Reachable(image, root, s)
    ensures s.heap.frees[r] <= s.heap.allocs[r] <= 1
    ensures r in s.heap.allocs ==> (Live(s.heap, r) <==> r !in s.heap.frees)
  {
    ReachableIsGood(image, root, s);
    assert s.heap.allocs[r] <= 1;
  }
}
