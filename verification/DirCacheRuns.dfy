/** Every interleaving of any number of threads keeps the cache's invariant. */
module DirCacheRuns {
  import opened Bytes
  import opened PathLookup
  import opened DirCache
  import opened DirCacheSteps

  // ------------------------------------------------ what others' steps leave true

  lemma SlotFaithful(image: Image, h: Heap, d: Ptr, i: nat, n: Ptr)
    requires HeapOk(image, h) && SlotIs(h, d, i, n)
    ensures Published(h, n) && d < n && Faithful(image, h, d, i, h.nodes[n].files)
  {
    var a := h.nodes[d].subdirs.value;
    assert ObjectOk(image, h, d) && ObjectOk(image, h, a);
    assert InItsSlot(h, n, a, i);
    assert ObjectOk(image, h, n);
  }

  /** Another thread's step leaves a thread's hands as they are. */
  lemma HandsStayOk(h: Heap, h': Heap, t: nat, u: nat, pc: Pc)
    requires LeavesOthers(h, h', t) && u != t && HandsOk(h, u, pc)
    ensures HandsOk(h', u, pc)
  {
    forall x ensures (x in h'.home && h'.home[x] == Held(u)) <==> Holding(pc) == Some(x) {
      assert HeldBy(h', x, u) <==> HeldBy(h, x, u);
    }
  }

  lemma WaitingThreadStaysOk(image: Image, h: Heap, h': Heap, t: nat, u: nat, th: Thread)
    requires HeapOk(image, h) && HeapOk(image, h') && Grows(h, h') && LeavesOthers(h, h', t) && u != t
    requires ThreadOk(image, h, th) && HandsOk(h, u, th.pc)
    ensures ThreadOk(image, h', th) && HandsOk(h', u, th.pc)
  {
    hide ObjectOk; hide Walk; hide Enter; hide Tokens;
    assert Published(h, ROOT);
    if Holding(th.pc).Some? { assert HeldBy(h, Holding(th.pc).value, u); }
    if SlotFull(h, th) {
      var n :| SlotIs(h, th.dir, th.index, n);
      assert SlotIs(h', th.dir, th.index, n);
    }
    if HasSubdirs(h, th) {
      var a :| HasArray(h, th.dir, a);
      assert HasArray(h', th.dir, a);
    }
    HandsStayOk(h, h', t, u, th.pc);
  }

  lemma EventStaysOk(image: Image, h: Heap, h': Heap, e: Event)
    requires Grows(h, h') && EventOk(image, h, e) && HeapOk(image, h)
    ensures EventOk(image, h', e)
  {
    assert Published(h, ROOT);
  }

  /** A step or run from s to s': published memory only grows, so does the record. */
  ghost predicate Good(image: Image, s: State, s': State) {
    Inv(image, s') && Grows(s.heap, s'.heap) && |s'.threads| == |s.threads| && s.events <= s'.events
  }

  /** Whatever step thread t took from s, s' is good again if t itself is. */
  lemma Settle(image: Image, s: State, s': State, t: nat)
    requires Inv(image, s) && t < |s.threads| == |s'.threads|
    requires forall u :: 0 <= u < |s.threads| && u != t ==> s'.threads[u] == s.threads[u]
    requires Keeps(image, s.heap, s'.heap, t)
    requires ThreadOk(image, s'.heap, s'.threads[t]) && HandsOk(s'.heap, t, s'.threads[t].pc)
    requires s.events <= s'.events
    requires forall e :: e in s'.events ==> e in s.events || EventOk(image, s'.heap, e)
    ensures Good(image, s, s')
  {
    hide Conserved; hide ThreadOk; hide EventOk; hide HeapOk; hide Grows;
    forall u | 0 <= u < |s'.threads|
      ensures ThreadOk(image, s'.heap, s'.threads[u]) && HandsOk(s'.heap, u, s'.threads[u].pc)
    {
      if u != t { WaitingThreadStaysOk(image, s.heap, s'.heap, t, u, s.threads[u]); }
    }
    forall e | e in s'.events ensures EventOk(image, s'.heap, e) {
      if e in s.events { EventStaysOk(image, s.heap, s'.heap, e); }
    }
    forall x | x in s'.heap.home && s'.heap.home[x].Held? ensures s'.heap.home[x].thread < |s'.threads| {
      var u := s'.heap.home[x].thread;
      assert HeldBy(s'.heap, x, u);
      if u != t { assert HeldBy(s.heap, x, u); }
    }
  }

  // ------------------------------------------------------------------ each step

  lemma StandStill(image: Image, h: Heap, t: nat)
    requires HeapOk(image, h) && Conserved(h)
    ensures Keeps(image, h, h, t)
  {}

  predicate InCall(th: Thread) { !th.pc.Idle? && !th.pc.Loop? }

  /** Thread t, with state th, is inside `_cache_subdir`. */
  ghost predicate Calling(image: Image, s: State, t: nat, th: Thread) {
    && Inv(image, s) && t < |s.threads| && th == s.threads[t] && InCall(th)
    && InSubdir(s.heap, th) && CallOk(image, s.heap, th) && HandsOk(s.heap, t, th.pc)
  }

  lemma CallHeap(image: Image, s: State, t: nat, th: Thread)
    requires Calling(image, s, t, th)
    ensures HeapOk(image, s.heap) && Conserved(s.heap) && ThreadOk(image, s.heap, th) && Published(s.heap, ROOT)
    ensures forall x: Ptr :: HeldBy(s.heap, x, t) ==> Holding(th.pc) == Some(x)
  {}

  predicate SameCall(th: Thread, th': Thread) {
    InCall(th') && th.(pc := th'.pc, troubled := th'.troubled, passed := th'.passed) == th'
  }

  lemma StillOk(image: Image, h: Heap, t: nat, th: Thread, h': Heap, th': Thread)
    requires HeapOk(image, h) && Keeps(image, h, h', t) && InCall(th) && ThreadOk(image, h, th)
    requires SameCall(th, th') && InSubdir(h', th') && CallOk(image, h', th')
    requires th'.passed ==> th.passed || SlotFull(h', th')
    ensures ThreadOk(image, h', th')
  {
    hide CallOk; hide ObjectOk; hide Walk; hide Enter;
    assert Published(h, ROOT);
    if th.passed {
      var n :| SlotIs(h, th.dir, th.index, n);
      assert SlotIs(h', th.dir, th.index, n);
    }
  }

  /** A step inside `_cache_subdir` that does not return. */
  lemma StayInCall(image: Image, s: State, t: nat, th: Thread, h': Heap, th': Thread)
    requires Calling(image, s, t, th) && Keeps(image, s.heap, h', t)
    requires SameCall(th, th') && InSubdir(h', th') && CallOk(image, h', th') && HandsOk(h', t, th'.pc)
    requires th'.passed ==> th.passed || SlotFull(h', th')
    ensures Good(image, s, At(s.(heap := h'), t, th'))
  {
    hide Keeps; hide ThreadOk; hide HandsOk; hide EventOk; hide HeapOk; hide Conserved; hide CallOk; hide InSubdir;
    CallHeap(image, s, t, th);
    StillOk(image, s.heap, t, th, h', th');
    Settle(image, s, At(s.(heap := h'), t, th'), t);
  }

  /** Steps that only load from shared memory. */
  lemma LoadStep(image: Image, s: State, t: nat, th: Thread, pc: Pc)
    requires Calling(image, s, t, th) && Holding(th.pc) == Holding(pc)
    requires CallOk(image, s.heap, th.(pc := pc)) && InCall(th.(pc := pc))
    ensures Good(image, s, At(s, t, th.(pc := pc)))
  {
    hide CallOk; hide ThreadOk; hide EventOk;
    StandStill(image, s.heap, t);
    StayInCall(image, s, t, th, s.heap, th.(pc := pc));
  }

  lemma TestSubdirsStep(image: Image, s: State, t: nat, th: Thread)
    requires Calling(image, s, t, th) && th.pc.TestSubdirs?
    ensures Good(image, s, At(s, t, th.(pc := if s.heap.nodes[th.dir].subdirs.None? then AllocArr else LoadSubdirs)))
  {
    hide Good; hide Inv;
    var arr := s.heap.nodes[th.dir].subdirs;
    if arr.Some? { assert HasArray(s.heap, th.dir, arr.value); }
    LoadStep(image, s, t, th, if arr.None? then AllocArr else LoadSubdirs);
  }

  lemma SubdirsKnown(image: Image, h: Heap, th: Thread)
    requires HasSubdirs(h, th) || SlotFull(h, th)
    ensures Published(h, th.dir) && h.nodes[th.dir].subdirs.Some? && HasArray(h, th.dir, h.nodes[th.dir].subdirs.value)
  {
    if SlotFull(h, th) { var n :| SlotIs(h, th.dir, th.index, n); }
  }

  lemma ArrayKnown(image: Image, h: Heap, th: Thread, a: Ptr)
    requires HeapOk(image, h) && HasArray(h, th.dir, a) && InSubdir(h, th)
    ensures a in h.arrays && th.index < |h.arrays[a]| && a in h.home && h.home[a] == OfDir(th.dir)
    ensures h.arrays[a][th.index].Some? ==> SlotIs(h, th.dir, th.index, h.arrays[a][th.index].value)
  {
    assert ObjectOk(image, h, th.dir);
    assert ObjectOk(image, h, a);
  }

  lemma LoadSubdirsStep(image: Image, s: State, t: nat, th: Thread)
    requires Calling(image, s, t, th) && th.pc.LoadSubdirs?
    ensures s.heap.nodes[th.dir].subdirs.Some?
    ensures Good(image, s, At(s, t, th.(pc := TestSlot(s.heap.nodes[th.dir].subdirs.value))))
  {
    hide Good; hide Inv;
    SubdirsKnown(image, s.heap, th);
    LoadStep(image, s, t, th, TestSlot(s.heap.nodes[th.dir].subdirs.value));
  }

  lemma LoadSubdirs2Step(image: Image, s: State, t: nat, th: Thread, n: Ptr)
    requires Calling(image, s, t, th) && th.pc == LoadSubdirs2(n)
    ensures s.heap.nodes[th.dir].subdirs.Some?
    ensures Good(image, s, At(s, t, th.(pc := CasSlot(s.heap.nodes[th.dir].subdirs.value, n))))
  {
    hide Good; hide Inv;
    SubdirsKnown(image, s.heap, th);
    LoadStep(image, s, t, th, CasSlot(s.heap.nodes[th.dir].subdirs.value, n));
  }

  lemma LoadSubdirs3Step(image: Image, s: State, t: nat, th: Thread)
    requires Calling(image, s, t, th) && th.pc.LoadSubdirs3?
    ensures s.heap.nodes[th.dir].subdirs.Some?
    ensures Good(image, s, At(s, t, th.(pc := LoadSlot(s.heap.nodes[th.dir].subdirs.value))))
  {
    hide Good; hide Inv;
    SubdirsKnown(image, s.heap, th);
    LoadStep(image, s, t, th, LoadSlot(s.heap.nodes[th.dir].subdirs.value));
  }

  lemma TestSlotStep(image: Image, s: State, t: nat, th: Thread, a: Ptr)
    requires Calling(image, s, t, th) && th.pc == TestSlot(a)
    ensures a in s.heap.arrays && th.index < |s.heap.arrays[a]|
    ensures Good(image, s, At(s, t, th.(pc := if s.heap.arrays[a][th.index].None? then AllocNode else LoadSubdirs3)))
  {
    hide Good; hide Inv; hide HeapOk; hide Conserved;
    CallHeap(image, s, t, th);
    ArrayKnown(image, s.heap, th, a);
    LoadStep(image, s, t, th, if s.heap.arrays[a][th.index].None? then AllocNode else LoadSubdirs3);
  }

  /** A fresh block is newer than everything in memory. */
  lemma FreshIsNew(image: Image, h: Heap)
    requires HeapOk(image, h)
    ensures h.next !in h.home && forall x :: x in h.home ==> x < h.next
  {
    forall x | x in h.home ensures x < h.next { assert ObjectOk(image, h, x); }
  }

  lemma AllocArrStep(image: Image, s: State, t: nat, th: Thread)
    requires Calling(image, s, t, th) && th.pc.AllocArr?
    ensures var h := s.heap;
            Good(image, s, At(s.(heap := NewArray(h, t, |h.nodes[th.dir].Entries()|)), t, th.(pc := CasArr(h.next))))
  {
    hide Good; hide Inv; hide HeapOk; hide Conserved; hide Grows; hide LeavesOthers;
    var h := s.heap;
    CallHeap(image, s, t, th);
    NewArrayKeeps(image, h, t, |h.nodes[th.dir].Entries()|);
    FreshIsNew(image, h);
    StayInCall(image, s, t, th, NewArray(h, t, |h.nodes[th.dir].Entries()|), th.(pc := CasArr(h.next)));
  }

  lemma AllocNodeStep(image: Image, s: State, t: nat, th: Thread)
    requires Calling(image, s, t, th) && th.pc.AllocNode?
    ensures Good(image, s, At(s.(heap := NewNode(s.heap, t)), t, th.(pc := ReadNode(s.heap.next))))
  {
    hide Good; hide Inv; hide HeapOk; hide Conserved; hide Grows; hide LeavesOthers;
    var h := s.heap;
    CallHeap(image, s, t, th);
    NewNodeKeeps(image, h, t);
    FreshIsNew(image, h);
    var a :| HasArray(h, th.dir, a);
    assert HasArray(NewNode(h, t), th.dir, a);
    StayInCall(image, s, t, th, NewNode(h, t), th.(pc := ReadNode(h.next)));
  }

  lemma CasArrStep(image: Image, s: State, t: nat, th: Thread, a: Ptr)
    requires Calling(image, s, t, th) && th.pc == CasArr(a)
    ensures Good(image, s, if s.heap.nodes[th.dir].subdirs.None?
                       then At(s.(heap := PublishArray(s.heap, th.dir, a)), t, th.(pc := LoadSubdirs))
                       else At(s, t, th.(pc := FreeArr(a))))
  {
    hide Good; hide Inv; hide HeapOk; hide Conserved; hide Grows; hide LeavesOthers;
    var h := s.heap;
    CallHeap(image, s, t, th);
    if h.nodes[th.dir].subdirs.None? {
      assert HeldBy(h, a, t);
      PublishArrayKeeps(image, h, t, th.dir, a);
      StayInCall(image, s, t, th, PublishArray(h, th.dir, a), th.(pc := LoadSubdirs));
    } else {
      assert HasArray(h, th.dir, h.nodes[th.dir].subdirs.value);
      LoadStep(image, s, t, th, FreeArr(a));
    }
  }

  lemma FreeArrStep(image: Image, s: State, t: nat, th: Thread, a: Ptr)
    requires Calling(image, s, t, th) && th.pc == FreeArr(a)
    ensures Good(image, s, At(s.(heap := FreeArray(s.heap, a)), t, th.(pc := LoadSubdirs)))
  {
    hide Good; hide Inv; hide HeapOk; hide Conserved; hide LeavesOthers;
    var h := s.heap;
    CallHeap(image, s, t, th);
    assert HeldBy(h, a, t);
    FreeArrayKeeps(image, h, t, a);
    var b :| HasArray(h, th.dir, b);
    assert HasArray(FreeArray(h, a), th.dir, b);
    StayInCall(image, s, t, th, FreeArray(h, a), th.(pc := LoadSubdirs));
  }

  lemma ReadNodeStep(image: Image, s: State, t: nat, th: Thread, n: Ptr, got: DirRead, trouble: bool)
    requires Calling(image, s, t, th) && th.pc == ReadNode(n) && n in s.heap.nodes
    requires if trouble then !got.ok else got == image(TheEntry(s.heap, th).icb)
    ensures Good(image, s, At(s.(heap := FillNode(s.heap, n, got.files)), t,
                          th.(pc := if got.ok then LoadSubdirs2(n) else DropFailed(n),
                              troubled := th.troubled || trouble)))
  {
    hide Good; hide Inv; hide HeapOk; hide Conserved; hide LeavesOthers;
    var h, h' := s.heap, FillNode(s.heap, n, got.files);
    CallHeap(image, s, t, th);
    assert HeldBy(h, n, t);
    FillNodeKeeps(image, h, t, n, got.files);
    var a :| HasArray(h, th.dir, a);
    assert HasArray(h', th.dir, a);
    StayInCall(image, s, t, th, h',
               th.(pc := if got.ok then LoadSubdirs2(n) else DropFailed(n), troubled := th.troubled || trouble));
  }

  lemma CasSlotStep(image: Image, s: State, t: nat, th: Thread, a: Ptr, n: Ptr)
    requires Calling(image, s, t, th) && th.pc == CasSlot(a, n)
    ensures a in s.heap.arrays && th.index < |s.heap.arrays[a]|
    ensures Good(image, s, if s.heap.arrays[a][th.index].None?
                       then At(s.(heap := PublishNode(s.heap, a, th.index, n)), t,
                               th.(pc := LoadSubdirs3, passed := true))
                       else At(s, t, th.(pc := DropLoser(n), passed := true)))
  {
    hide Good; hide Inv; hide HeapOk; hide Conserved; hide LeavesOthers; hide Grows;
    var h := s.heap;
    CallHeap(image, s, t, th);
    ArrayKnown(image, h, th, a);
    if h.arrays[a][th.index].None? {
      assert HeldBy(h, n, t);
      PublishNodeKeeps(image, h, t, th.dir, a, th.index, n);
      StayInCall(image, s, t, th, PublishNode(h, a, th.index, n), th.(pc := LoadSubdirs3, passed := true));
    } else {
      StandStill(image, h, t);
      StayInCall(image, s, t, th, h, th.(pc := DropLoser(n), passed := true));
    }
  }

  lemma DropLoserStep(image: Image, s: State, t: nat, th: Thread, n: Ptr)
    requires Calling(image, s, t, th) && th.pc == DropLoser(n) && n in s.heap.nodes
    ensures Good(image, s, At(s.(heap := FreeNode(s.heap, n)), t, th.(pc := LoadSubdirs3)))
  {
    hide Good; hide Inv; hide HeapOk; hide Conserved; hide LeavesOthers;
    var h := s.heap;
    CallHeap(image, s, t, th);
    assert HeldBy(h, n, t);
    FreeNodeKeeps(image, h, t, n);
    var m :| SlotIs(h, th.dir, th.index, m);
    assert SlotIs(FreeNode(h, n), th.dir, th.index, m);
    StayInCall(image, s, t, th, FreeNode(h, n), th.(pc := LoadSubdirs3));
  }

  // ------------------------------------------------------------ calls and returns

  /** Thread t, with state th and nothing in its hands, is about to leave `_cache_subdir`. */
  ghost predicate Leaving(image: Image, h: Heap, t: nat, th: Thread, node: Option<Ptr>) {
    && InSubdir(h, th) && ROOT in h.nodes && InCall(th) && JobOk(th) && OnCourse(image, h, th)
    && (th.job.Path? ==> th.fid == Some(TheEntry(h, th)))
    && (forall x :: !HeldBy(h, x, t))
    && match node
       case Some(n) => SlotIs(h, th.dir, th.index, n)
       case None => !th.passed && (th.troubled || !image(TheEntry(h, th).icb).ok)
  }

  /** What a returning thread reports is true, and its walk goes on as it should. */
  lemma ReturnIsTrue(image: Image, s: State, t: nat, node: Option<Ptr>)
    requires t < |s.threads| && HeapOk(image, s.heap) && Leaving(image, s.heap, t, s.threads[t], node)
    ensures var s' := Return(s, t, node);
            && ThreadOk(image, s.heap, s'.threads[t]) && HandsOk(s.heap, t, s'.threads[t].pc)
            && s'.heap == s.heap && |s'.threads| == |s.threads|
            && (forall u :: 0 <= u < |s.threads| && u != t ==> s'.threads[u] == s.threads[u])
            && s.events <= s'.events
            && forall e :: e in s'.events ==> e in s.events || EventOk(image, s.heap, e)
  {
    hide ObjectOk; hide Faithful; hide Scan;
    var h, th := s.heap, s.threads[t];
    forall x ensures !(x in h.home && h.home[x] == Held(t)) { assert !HeldBy(h, x, t); }
    if node.Some? { SlotFaithful(image, h, th.dir, th.index, node.value); }
    assert Published(h, ROOT);
    assert EventOk(image, h, Returned(th.dir, th.index, node, th.passed, th.troubled));
    if th.job.Path? && node.None? {
      assert EventOk(image, h, LookedUp(th.job.path, th.job.needFid, Failed, th.troubled));
    }
  }

  lemma ReturnStep(image: Image, s: State, s1: State, t: nat, node: Option<Ptr>)
    requires Inv(image, s) && t < |s.threads| == |s1.threads| && s1.events == s.events
    requires forall u :: 0 <= u < |s.threads| && u != t ==> s1.threads[u] == s.threads[u]
    requires Keeps(image, s.heap, s1.heap, t) && Leaving(image, s1.heap, t, s1.threads[t], node)
    ensures Good(image, s, Return(s1, t, node))
  {
    hide Good; hide Inv; hide HeapOk; hide Conserved; hide Grows; hide LeavesOthers; hide Return;
    hide ThreadOk; hide EventOk; hide HandsOk; hide Leaving;
    ReturnIsTrue(image, s1, t, node);
    Settle(image, s, Return(s1, t, node), t);
  }

  lemma OutOfMemoryStep(image: Image, s: State, t: nat, th: Thread)
    requires Calling(image, s, t, th) && (th.pc.AllocArr? || th.pc.AllocNode?)
    ensures Good(image, s, Return(At(s, t, th.(troubled := true)), t, None))
  {
    hide Good; hide Inv; hide HeapOk; hide Conserved; hide Grows; hide LeavesOthers; hide Return;
    CallHeap(image, s, t, th);
    StandStill(image, s.heap, t);
    ReturnStep(image, s, At(s, t, th.(troubled := true)), t, None);
  }

  lemma DropFailedStep(image: Image, s: State, t: nat, th: Thread, n: Ptr)
    requires Calling(image, s, t, th) && th.pc == DropFailed(n) && n in s.heap.nodes
    ensures Good(image, s, Return(s.(heap := FreeNode(s.heap, n)), t, None))
  {
    hide Good; hide Inv; hide HeapOk; hide Conserved; hide LeavesOthers; hide Return; hide Walk; hide Enter;
    var h, h' := s.heap, FreeNode(s.heap, n);
    CallHeap(image, s, t, th);
    assert HeldBy(h, n, t);
    FreeNodeKeeps(image, h, t, n);
    assert Published(h, th.dir);
    assert forall x :: HeldBy(h', x, t) ==> HeldBy(h, x, t) && x != n;
    ReturnStep(image, s, s.(heap := h'), t, None);
  }

  lemma LoadSlotStep(image: Image, s: State, t: nat, th: Thread, a: Ptr)
    requires Calling(image, s, t, th) && th.pc == LoadSlot(a)
    ensures a in s.heap.arrays && th.index < |s.heap.arrays[a]| && s.heap.arrays[a][th.index].Some?
    ensures Good(image, s, Return(s, t, s.heap.arrays[a][th.index]))
  {
    hide Good; hide Inv; hide HeapOk; hide Conserved; hide LeavesOthers; hide Return; hide Walk; hide Enter;
    var h := s.heap;
    CallHeap(image, s, t, th);
    StandStill(image, h, t);
    ArrayKnown(image, h, th, a);
    ReturnStep(image, s, s, t, h.arrays[a][th.index]);
  }

  lemma ThreadIsOk(image: Image, s: State, t: nat)
    requires Inv(image, s) && t < |s.threads|
    ensures ThreadOk(image, s.heap, s.threads[t]) && HandsOk(s.heap, t, s.threads[t].pc)
    ensures HeapOk(image, s.heap) && Conserved(s.heap) && Published(s.heap, ROOT) && Keeps(image, s.heap, s.heap, t)
  {
    StandStill(image, s.heap, t);
  }

  lemma LoopIsPath(image: Image, h: Heap, th: Thread)
    requires ThreadOk(image, h, th) && th.pc.Loop?
    ensures th.job.Path? && th.dir in h.nodes
  {}

  lemma TurnIsTrue(image: Image, s: State, t: nat)
    requires t < |s.threads| && s.threads[t].pc.Loop? && HeapOk(image, s.heap)
    requires ThreadOk(image, s.heap, s.threads[t]) && HandsOk(s.heap, t, s.threads[t].pc)
    ensures var s' := Turn(s, t);
            && ThreadOk(image, s.heap, s'.threads[t]) && HandsOk(s.heap, t, s'.threads[t].pc)
            && s'.heap == s.heap && |s'.threads| == |s.threads|
            && (forall u :: 0 <= u < |s.threads| && u != t ==> s'.threads[u] == s.threads[u])
            && s.events <= s'.events
            && forall e :: e in s'.events ==> e in s.events || EventOk(image, s.heap, e)
  {
    hide ObjectOk; hide Scan;
    var h, th := s.heap, s.threads[t];
    assert Published(h, ROOT);
  }

  lemma TurnStep(image: Image, s: State, t: nat)
    requires Inv(image, s) && t < |s.threads| && s.threads[t].pc.Loop?
    ensures s.threads[t].job.Path? && s.threads[t].dir in s.heap.nodes && Good(image, s, Turn(s, t))
  {
    hide Turn; hide HeapOk; hide Conserved; hide Keeps; hide ThreadOk; hide EventOk; hide HandsOk; hide Good; hide Inv;
    ThreadIsOk(image, s, t);
    LoopIsPath(image, s.heap, s.threads[t]);
    TurnIsTrue(image, s, t);
    Settle(image, s, Turn(s, t), t);
  }

  lemma StartStep(image: Image, s: State, t: nat, c: Choice)
    requires Inv(image, s) && t < |s.threads| && s.threads[t].pc.Idle?
    ensures Good(image, s, Start(s, t, c))
  {
    hide HeapOk; hide Conserved; hide Keeps; hide Good; hide Inv;
    ThreadIsOk(image, s, t);
    Settle(image, s, Start(s, t, c), t);
  }

  lemma IsCalling(image: Image, s: State, t: nat)
    requires Inv(image, s) && t < |s.threads| && InCall(s.threads[t])
    ensures Calling(image, s, t, s.threads[t])
    ensures var pc := s.threads[t].pc;
            pc.ReadNode? || pc.DropFailed? || pc.DropLoser? ==> pc.node in s.heap.nodes
  {
    assert ThreadOk(image, s.heap, s.threads[t]) && HandsOk(s.heap, t, s.threads[t].pc);
  }

  predicate OnArrays(pc: Pc) {
    pc.TestSubdirs? || pc.AllocArr? || pc.CasArr? || pc.FreeArr? || pc.LoadSubdirs? || pc.TestSlot?
  }

  predicate OnNewNode(pc: Pc) { pc.AllocNode? || pc.DropFailed? || pc.LoadSubdirs2? }

  /** Lines 244-255: the slot array. */
  lemma ArrayStep(image: Image, s: State, t: nat, c: Choice)
    requires Inv(image, s) && t < |s.threads| && OnArrays(s.threads[t].pc)
    ensures Good(image, s, Step(image, s, t, c))
  {
    hide Good; hide Inv; hide HeapOk; hide Conserved; hide Return; hide ThreadOk; hide HandsOk; hide Calling;
    hide EventOk;
    hide FreeNode; hide NewNode; hide FillNode; hide CallOk; hide Published;
    var th := s.threads[t];
    IsCalling(image, s, t);
    match th.pc
    case TestSubdirs => TestSubdirsStep(image, s, t, th);
    case AllocArr => if c.NoMemory? { OutOfMemoryStep(image, s, t, th); } else { AllocArrStep(image, s, t, th); }
    case CasArr(a) => CasArrStep(image, s, t, th, a);
    case FreeArr(a) => FreeArrStep(image, s, t, th, a);
    case LoadSubdirs => LoadSubdirsStep(image, s, t, th);
    case TestSlot(a) => TestSlotStep(image, s, t, th, a);
  }

  /** Line 261: `udf_read_dir`. */
  lemma ReadStep(image: Image, s: State, t: nat, c: Choice)
    requires Inv(image, s) && t < |s.threads| && s.threads[t].pc.ReadNode?
    ensures Good(image, s, Step(image, s, t, c))
  {
    hide Good; hide Inv; hide HeapOk; hide Conserved; hide ThreadOk; hide HandsOk; hide Calling; hide EventOk;
    hide FreeNode; hide NewNode; hide FillNode; hide CallOk; hide Published;
    var th, h := s.threads[t], s.heap;
    IsCalling(image, s, t);
    var got := if c.ReadError? then DirRead(false, c.left) else image(TheEntry(h, th).icb);
    assert th.pc.node in h.nodes;
    ReadNodeStep(image, s, t, th, th.pc.node, got, c.ReadError?);
  }

  /** Lines 256-266: a new node, up to the second compare-and-swap. */
  lemma NewNodeStep(image: Image, s: State, t: nat, c: Choice)
    requires Inv(image, s) && t < |s.threads| && OnNewNode(s.threads[t].pc)
    ensures Good(image, s, Step(image, s, t, c))
  {
    hide Good; hide Inv; hide HeapOk; hide Conserved; hide Return; hide ThreadOk; hide HandsOk; hide Calling;
    hide EventOk;
    hide FreeNode; hide NewNode; hide FillNode; hide CallOk; hide Published;
    var th := s.threads[t];
    IsCalling(image, s, t);
    match th.pc
    case AllocNode => if c.NoMemory? { OutOfMemoryStep(image, s, t, th); } else { AllocNodeStep(image, s, t, th); }
    case DropFailed(n) => DropFailedStep(image, s, t, th, n);
    case LoadSubdirs2(n) => LoadSubdirs2Step(image, s, t, th, n);
  }

  /** Lines 266-272: the second compare-and-swap and the return. */
  lemma SlotStep(image: Image, s: State, t: nat, c: Choice)
    requires Inv(image, s) && t < |s.threads| && InCall(s.threads[t])
    requires !OnArrays(s.threads[t].pc) && !OnNewNode(s.threads[t].pc) && !s.threads[t].pc.ReadNode?
    ensures Good(image, s, Step(image, s, t, c))
  {
    hide Good; hide Inv; hide HeapOk; hide Conserved; hide Return; hide ThreadOk; hide HandsOk; hide Calling;
    hide EventOk;
    hide FreeNode; hide NewNode; hide FillNode; hide CallOk; hide Published;
    var th := s.threads[t];
    IsCalling(image, s, t);
    match th.pc
    case CasSlot(a, n) => CasSlotStep(image, s, t, th, a, n);
    case DropLoser(n) => DropLoserStep(image, s, t, th, n);
    case LoadSubdirs3 => LoadSubdirs3Step(image, s, t, th);
    case LoadSlot(a) => LoadSlotStep(image, s, t, th, a);
  }

  /** The invariant holds after every step of every thread. */
  lemma StepKeepsInv(image: Image, s: State, t: nat, c: Choice)
    requires Inv(image, s) && t < |s.threads|
    ensures Good(image, s, Step(image, s, t, c))
  {
    hide Good; hide Inv; hide Return; hide Turn; hide Start;
    var th := s.threads[t];
    if th.pc.Idle? { StartStep(image, s, t, c); }
    else if th.pc.Loop? { TurnStep(image, s, t); }
    else if OnArrays(th.pc) { ArrayStep(image, s, t, c); }
    else if th.pc.ReadNode? { ReadStep(image, s, t, c); }
    else if OnNewNode(th.pc) { NewNodeStep(image, s, t, c); }
    else { SlotStep(image, s, t, c); }
  }
}
