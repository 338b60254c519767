/** What the updates of the shared heap keep: the shape of the tree, what others
    see and hold, and the count of allocations against frees. */
module DirCacheSteps {
  import opened Bytes
  import opened Records
  import opened PathLookup
  import opened DirCache

  /** Nothing published is ever changed, only added to. */
  ghost predicate Grows(h: Heap, h': Heap) {
    && (forall d :: Published(h, d) ==> Published(h', d) && h'.nodes[d].files == h.nodes[d].files)
    && (forall d, a :: HasArray(h, d, a) ==> HasArray(h', d, a))
    && (forall d, i, n :: SlotIs(h, d, i, n) ==> SlotIs(h', d, i, n))
  }

  ghost predicate HeldBy(h: Heap, x: Ptr, u: nat) { x in h.home && h.home[x] == Held(u) }

  /** Threads other than t keep what they hold, unchanged. */
  ghost predicate LeavesOthers(h: Heap, h': Heap, t: nat) {
    && (forall x, u :: u != t ==> (HeldBy(h', x, u) <==> HeldBy(h, x, u)))
    && (forall x, u :: u != t && HeldBy(h, x, u) ==>
          (x in h.nodes ==> x in h'.nodes && h'.nodes[x] == h.nodes[x]) &&
          (x in h.arrays ==> x in h'.arrays && h'.arrays[x] == h.arrays[x]))
  }

  ghost predicate Keeps(image: Image, h: Heap, h': Heap, t: nat) {
    HeapOk(image, h') && Conserved(h') && Grows(h, h') && LeavesOthers(h, h', t)
  }

  /** r is the entry array or a file name of node n. */
  predicate EntryOf(r: Res, n: Ptr, files: Option<seq<FileId>>) {
    match r
    case FilesRes(m) => m == n && files.Some?
    case NameRes(m, k) => m == n && k < |EntriesOf(files)|
    case _ => false
  }

  lemma EntryCount(n: Ptr, files: Option<seq<FileId>>)
    ensures forall r :: EntryResources(n, files)[r] == if EntryOf(r, n, files) then 1 else 0
  {}

  lemma NewArrayShape(image: Image, h: Heap, t: nat, len: nat)
    requires HeapOk(image, h)
    ensures HeapOk(image, NewArray(h, t, len))
  {
    var h' := NewArray(h, t, len);
    assert h.next !in h.home;
    forall x | x in h'.home ensures ObjectOk(image, h', x) {
      if x != h.next { assert ObjectOk(image, h, x); }
    }
  }

  lemma NewArraySeen(image: Image, h: Heap, t: nat, len: nat)
    requires HeapOk(image, h)
    ensures Grows(h, NewArray(h, t, len)) && LeavesOthers(h, NewArray(h, t, len), t)
  {
    hide NodeOk; hide ArrayOk;
    assert h.next !in h.home;
  }

  lemma NewArrayCount(image: Image, h: Heap, t: nat, len: nat)
    requires HeapOk(image, h) && Conserved(h)
    ensures Conserved(NewArray(h, t, len))
  {
    var h' := NewArray(h, t, len);
    assert h.next !in h.home;
    assert forall r :: Live(h', r) == (Live(h, r) || r == ArrRes(h.next));
  }

  lemma NewArrayKeeps(image: Image, h: Heap, t: nat, len: nat)
    requires HeapOk(image, h) && Conserved(h)
    ensures Keeps(image, h, NewArray(h, t, len), t)
  {
    NewArrayShape(image, h, t, len);
    NewArraySeen(image, h, t, len);
    NewArrayCount(image, h, t, len);
    hide HeapOk; hide Conserved; hide Grows; hide LeavesOthers;
  }

  lemma NewNodeShape(image: Image, h: Heap, t: nat)
    requires HeapOk(image, h)
    ensures HeapOk(image, NewNode(h, t))
  {
    var h' := NewNode(h, t);
    assert h.next !in h.home;
    forall x | x in h'.home ensures ObjectOk(image, h', x) {
      if x != h.next { assert ObjectOk(image, h, x); }
    }
  }

  lemma NextIsFree(image: Image, h: Heap)
    requires HeapOk(image, h)
    ensures h.next !in h.home && h.next !in h.nodes && h.next !in h.arrays
  {
    assert h.next !in h.home;
  }

  lemma NewNodeIsApart(h: Heap, t: nat)
    requires h.next !in h.home && h.next !in h.nodes && h.next !in h.arrays
    ensures Grows(h, NewNode(h, t)) && LeavesOthers(h, NewNode(h, t), t)
  {}

  lemma NewNodeSeen(image: Image, h: Heap, t: nat)
    requires HeapOk(image, h)
    ensures Grows(h, NewNode(h, t)) && LeavesOthers(h, NewNode(h, t), t)
  {
    hide NodeOk; hide ArrayOk;
    NextIsFree(image, h);
    NewNodeIsApart(h, t);
  }

  lemma NewNodeCount(image: Image, h: Heap, t: nat)
    requires HeapOk(image, h) && Conserved(h)
    ensures Conserved(NewNode(h, t))
  {
    var h' := NewNode(h, t);
    assert h.next !in h.home;
    assert forall r :: Live(h', r) == (Live(h, r) || r == NodeRes(h.next));
  }

  lemma NewNodeKeeps(image: Image, h: Heap, t: nat)
    requires HeapOk(image, h) && Conserved(h)
    ensures Keeps(image, h, NewNode(h, t), t)
  {
    NewNodeShape(image, h, t);
    NewNodeSeen(image, h, t);
    NewNodeCount(image, h, t);
    hide HeapOk; hide Conserved; hide Grows; hide LeavesOthers;
  }

  lemma FillNodeShape(image: Image, h: Heap, t: nat, n: Ptr, files: Option<seq<FileId>>)
    requires HeapOk(image, h)
    requires HeldBy(h, n, t) && n in h.nodes && h.nodes[n].files == None
    ensures HeapOk(image, FillNode(h, n, files))
  {
    var h' := FillNode(h, n, files);
    forall x | x in h'.home ensures ObjectOk(image, h', x) {
      assert ObjectOk(image, h, x) && ObjectOk(image, h, n);
    }
  }

  lemma FillNodeSeen(image: Image, h: Heap, t: nat, n: Ptr, files: Option<seq<FileId>>)
    requires HeapOk(image, h)
    requires HeldBy(h, n, t) && n in h.nodes && h.nodes[n].files == None
    ensures Grows(h, FillNode(h, n, files)) && LeavesOthers(h, FillNode(h, n, files), t)
  {
    assert ObjectOk(image, h, n);
  }

  lemma FillNodeCount(image: Image, h: Heap, t: nat, n: Ptr, files: Option<seq<FileId>>)
    requires HeapOk(image, h) && Conserved(h)
    requires HeldBy(h, n, t) && n in h.nodes && h.nodes[n].files == None
    ensures Conserved(FillNode(h, n, files))
  {
    hide EntryResources; hide NodeOk; hide ArrayOk;
    var h' := FillNode(h, n, files);
    assert ObjectOk(image, h, n);
    EntryCount(n, files);
    assert forall r :: Live(h', r) == (Live(h, r) || EntryOf(r, n, files));
  }

  lemma FillNodeKeeps(image: Image, h: Heap, t: nat, n: Ptr, files: Option<seq<FileId>>)
    requires HeapOk(image, h) && Conserved(h)
    requires HeldBy(h, n, t) && n in h.nodes && h.nodes[n].files == None
    ensures Keeps(image, h, FillNode(h, n, files), t)
  {
    FillNodeShape(image, h, t, n, files);
    FillNodeSeen(image, h, t, n, files);
    FillNodeCount(image, h, t, n, files);
    hide HeapOk; hide Conserved; hide Grows; hide LeavesOthers;
  }

  lemma PublishArrayHere(image: Image, h: Heap, t: nat, d: Ptr, a: Ptr)
    requires HeapOk(image, h)
    requires HeldBy(h, a, t) && a in h.arrays
    requires Published(h, d) && h.nodes[d].subdirs == None && |h.arrays[a]| == |h.nodes[d].Entries()|
    ensures ObjectOk(image, PublishArray(h, d, a), a) && ObjectOk(image, PublishArray(h, d, a), d)
  {
    assert ObjectOk(image, h, a) && ObjectOk(image, h, d) && ObjectOk(image, h, d);
  }

  lemma PublishArrayOtherNode(image: Image, h: Heap, t: nat, d: Ptr, a: Ptr, x: Ptr)
    requires HeapOk(image, h)
    requires HeldBy(h, a, t) && a in h.arrays
    requires Published(h, d) && h.nodes[d].subdirs == None && |h.arrays[a]| == |h.nodes[d].Entries()|
    requires x in h.home && x != a && x != d
    requires x in h.nodes
    ensures NodeOk(image, PublishArray(h, d, a), x)
  {
    hide ArrayOk;
    assert ObjectOk(image, h, x) && ObjectOk(image, h, a);
  }

  lemma PublishArrayOtherArray(h: Heap, t: nat, d: Ptr, a: Ptr, x: Ptr)
    requires HeldBy(h, a, t) && Published(h, d) && h.nodes[d].subdirs == None
    requires x in h.arrays && x in h.home && x != a && ArrayOk(h, x)
    ensures ArrayOk(PublishArray(h, d, a), x)
  {}

  lemma PublishArrayElsewhere(image: Image, h: Heap, t: nat, d: Ptr, a: Ptr, x: Ptr)
    requires HeapOk(image, h)
    requires HeldBy(h, a, t) && a in h.arrays
    requires Published(h, d) && h.nodes[d].subdirs == None && |h.arrays[a]| == |h.nodes[d].Entries()|
    requires x in h.home && x != a && x != d
    ensures ObjectOk(image, PublishArray(h, d, a), x)
  {
    assert ObjectOk(image, h, x);
    if x in h.nodes { PublishArrayOtherNode(image, h, t, d, a, x); }
    if x in h.arrays { PublishArrayOtherArray(h, t, d, a, x); }
    hide NodeOk; hide ArrayOk;
  }

  lemma PublishArrayShape(image: Image, h: Heap, t: nat, d: Ptr, a: Ptr)
    requires HeapOk(image, h)
    requires HeldBy(h, a, t) && a in h.arrays
    requires Published(h, d) && h.nodes[d].subdirs == None && |h.arrays[a]| == |h.nodes[d].Entries()|
    ensures HeapOk(image, PublishArray(h, d, a))
  {
    hide ObjectOk;
    forall x | x in PublishArray(h, d, a).home ensures ObjectOk(image, PublishArray(h, d, a), x) {
      if x == a || x == d { PublishArrayHere(image, h, t, d, a); } else { PublishArrayElsewhere(image, h, t, d, a, x); }
    }
  }

  lemma PublishArrayGrows(image: Image, h: Heap, t: nat, d: Ptr, a: Ptr)
    requires HeapOk(image, h)
    requires HeldBy(h, a, t) && a in h.arrays
    requires Published(h, d) && h.nodes[d].subdirs == None && |h.arrays[a]| == |h.nodes[d].Entries()|
    ensures Grows(h, PublishArray(h, d, a))
    ensures HasArray(PublishArray(h, d, a), d, a)
  {
    hide HeapOk; hide ObjectOk; hide Faithful;
  }

  lemma PublishArrayLeaves(image: Image, h: Heap, t: nat, d: Ptr, a: Ptr)
    requires HeapOk(image, h)
    requires HeldBy(h, a, t) && a in h.arrays
    requires Published(h, d) && h.nodes[d].subdirs == None && |h.arrays[a]| == |h.nodes[d].Entries()|
    ensures LeavesOthers(h, PublishArray(h, d, a), t)
  {
    assert ObjectOk(image, h, a) && ObjectOk(image, h, d);
  }

  lemma PublishArrayCount(image: Image, h: Heap, t: nat, d: Ptr, a: Ptr)
    requires HeapOk(image, h) && Conserved(h)
    requires HeldBy(h, a, t) && a in h.arrays
    requires Published(h, d) && h.nodes[d].subdirs == None && |h.arrays[a]| == |h.nodes[d].Entries()|
    ensures Conserved(PublishArray(h, d, a))
  {
    var h' := PublishArray(h, d, a);
    assert ObjectOk(image, h, a) && ObjectOk(image, h, d);
    assert forall r :: Live(h', r) == Live(h, r);
  }

  lemma PublishArrayKeeps(image: Image, h: Heap, t: nat, d: Ptr, a: Ptr)
    requires HeapOk(image, h) && Conserved(h)
    requires HeldBy(h, a, t) && a in h.arrays
    requires Published(h, d) && h.nodes[d].subdirs == None && |h.arrays[a]| == |h.nodes[d].Entries()|
    ensures Keeps(image, h, PublishArray(h, d, a), t)
    ensures HasArray(PublishArray(h, d, a), d, a)
  {
    PublishArrayShape(image, h, t, d, a);
    PublishArrayGrows(image, h, t, d, a);
    PublishArrayLeaves(image, h, t, d, a);
    PublishArrayCount(image, h, t, d, a);
    hide HeapOk; hide Conserved; hide Grows; hide LeavesOthers;
  }

  lemma PublishNodeHere(image: Image, h: Heap, t: nat, d: Ptr, a: Ptr, i: nat, n: Ptr)
    requires HeapOk(image, h)
    requires HeldBy(h, n, t) && n in h.nodes
    requires HasArray(h, d, a) && a in h.arrays && i < |h.arrays[a]| && h.arrays[a][i] == None
    requires d < n && Faithful(image, h, d, i, h.nodes[n].files)
    ensures ObjectOk(image, PublishNode(h, a, i, n), a) && ObjectOk(image, PublishNode(h, a, i, n), n)
  {
    assert ObjectOk(image, h, a) && ObjectOk(image, h, n) && ObjectOk(image, h, d);
  }

  lemma PublishNodeOtherNode(image: Image, h: Heap, t: nat, d: Ptr, a: Ptr, i: nat, n: Ptr, x: Ptr)
    requires HeapOk(image, h)
    requires HeldBy(h, n, t) && n in h.nodes
    requires HasArray(h, d, a) && a in h.arrays && i < |h.arrays[a]| && h.arrays[a][i] == None
    requires d < n && Faithful(image, h, d, i, h.nodes[n].files)
    requires x in h.home && x != a && x != n
    requires x in h.nodes
    ensures NodeOk(image, PublishNode(h, a, i, n), x)
  {
    hide ArrayOk;
    assert ObjectOk(image, h, x) && ObjectOk(image, h, a);
  }

  lemma PublishNodeOtherArray(image: Image, h: Heap, t: nat, d: Ptr, a: Ptr, i: nat, n: Ptr, x: Ptr)
    requires HeapOk(image, h)
    requires HeldBy(h, n, t) && n in h.nodes
    requires HasArray(h, d, a) && a in h.arrays && i < |h.arrays[a]| && h.arrays[a][i] == None
    requires d < n && Faithful(image, h, d, i, h.nodes[n].files)
    requires x in h.home && x != a && x != n
    requires x in h.arrays
    ensures ArrayOk(PublishNode(h, a, i, n), x)
  {
    hide Faithful;
    assert ObjectOk(image, h, x) && ObjectOk(image, h, a) && ObjectOk(image, h, n);
  }

  lemma PublishNodeElsewhere(image: Image, h: Heap, t: nat, d: Ptr, a: Ptr, i: nat, n: Ptr, x: Ptr)
    requires HeapOk(image, h)
    requires HeldBy(h, n, t) && n in h.nodes
    requires HasArray(h, d, a) && a in h.arrays && i < |h.arrays[a]| && h.arrays[a][i] == None
    requires d < n && Faithful(image, h, d, i, h.nodes[n].files)
    requires x in h.home && x != a && x != n
    ensures ObjectOk(image, PublishNode(h, a, i, n), x)
  {
    assert ObjectOk(image, h, x);
    if x in h.nodes { PublishNodeOtherNode(image, h, t, d, a, i, n, x); }
    if x in h.arrays { PublishNodeOtherArray(image, h, t, d, a, i, n, x); }
    hide NodeOk; hide ArrayOk;
  }

  lemma PublishNodeShape(image: Image, h: Heap, t: nat, d: Ptr, a: Ptr, i: nat, n: Ptr)
    requires HeapOk(image, h)
    requires HeldBy(h, n, t) && n in h.nodes
    requires HasArray(h, d, a) && a in h.arrays && i < |h.arrays[a]| && h.arrays[a][i] == None
    requires d < n && Faithful(image, h, d, i, h.nodes[n].files)
    ensures HeapOk(image, PublishNode(h, a, i, n))
  {
    hide ObjectOk;
    forall x | x in PublishNode(h, a, i, n).home ensures ObjectOk(image, PublishNode(h, a, i, n), x) {
      if x == a || x == n {
        PublishNodeHere(image, h, t, d, a, i, n);
      } else {
        PublishNodeElsewhere(image, h, t, d, a, i, n, x);
      }
    }
  }

  lemma PublishNodeGrows(image: Image, h: Heap, t: nat, d: Ptr, a: Ptr, i: nat, n: Ptr)
    requires HeapOk(image, h)
    requires HeldBy(h, n, t) && n in h.nodes
    requires HasArray(h, d, a) && a in h.arrays && i < |h.arrays[a]| && h.arrays[a][i] == None
    requires d < n && Faithful(image, h, d, i, h.nodes[n].files)
    ensures Grows(h, PublishNode(h, a, i, n))
    ensures SlotIs(PublishNode(h, a, i, n), d, i, n)
  {
    hide HeapOk; hide ObjectOk; hide Faithful;
  }

  lemma PublishNodeLeaves(image: Image, h: Heap, t: nat, d: Ptr, a: Ptr, i: nat, n: Ptr)
    requires HeapOk(image, h)
    requires HeldBy(h, n, t) && n in h.nodes
    requires HasArray(h, d, a) && a in h.arrays && i < |h.arrays[a]| && h.arrays[a][i] == None
    requires d < n && Faithful(image, h, d, i, h.nodes[n].files)
    ensures LeavesOthers(h, PublishNode(h, a, i, n), t)
  {
    assert ObjectOk(image, h, a) && ObjectOk(image, h, d) && ObjectOk(image, h, n);
  }

  lemma PublishNodeCount(image: Image, h: Heap, t: nat, d: Ptr, a: Ptr, i: nat, n: Ptr)
    requires HeapOk(image, h) && Conserved(h)
    requires HeldBy(h, n, t) && n in h.nodes
    requires HasArray(h, d, a) && a in h.arrays && i < |h.arrays[a]| && h.arrays[a][i] == None
    requires d < n && Faithful(image, h, d, i, h.nodes[n].files)
    ensures Conserved(PublishNode(h, a, i, n))
  {
    var h' := PublishNode(h, a, i, n);
    assert ObjectOk(image, h, a) && ObjectOk(image, h, d) && ObjectOk(image, h, n);
    assert forall r :: Live(h', r) == Live(h, r);
  }

  lemma PublishNodeKeeps(image: Image, h: Heap, t: nat, d: Ptr, a: Ptr, i: nat, n: Ptr)
    requires HeapOk(image, h) && Conserved(h)
    requires HeldBy(h, n, t) && n in h.nodes
    requires HasArray(h, d, a) && a in h.arrays && i < |h.arrays[a]| && h.arrays[a][i] == None
    requires d < n && Faithful(image, h, d, i, h.nodes[n].files)
    ensures Keeps(image, h, PublishNode(h, a, i, n), t)
    ensures SlotIs(PublishNode(h, a, i, n), d, i, n)
  {
    PublishNodeShape(image, h, t, d, a, i, n);
    PublishNodeGrows(image, h, t, d, a, i, n);
    PublishNodeLeaves(image, h, t, d, a, i, n);
    PublishNodeCount(image, h, t, d, a, i, n);
    hide HeapOk; hide Conserved; hide Grows; hide LeavesOthers;
  }

  lemma FreeArrayShape(image: Image, h: Heap, t: nat, a: Ptr)
    requires HeapOk(image, h)
    requires HeldBy(h, a, t) && a in h.arrays
    ensures HeapOk(image, FreeArray(h, a))
  {
    var h' := FreeArray(h, a);
    forall x | x in h'.home ensures ObjectOk(image, h', x) {
      assert ObjectOk(image, h, x) && ObjectOk(image, h, a);
    }
  }

  lemma FreeArraySeen(image: Image, h: Heap, t: nat, a: Ptr)
    requires HeapOk(image, h)
    requires HeldBy(h, a, t) && a in h.arrays
    ensures Grows(h, FreeArray(h, a)) && LeavesOthers(h, FreeArray(h, a), t)
  {
    hide NodeOk;
    assert ObjectOk(image, h, a);
  }

  lemma FreeArrayCount(image: Image, h: Heap, t: nat, a: Ptr)
    requires HeapOk(image, h) && Conserved(h)
    requires HeldBy(h, a, t) && a in h.arrays
    ensures Conserved(FreeArray(h, a))
  {
    hide NodeOk; hide ArrayOk;
    var h' := FreeArray(h, a);
    assert ObjectOk(image, h, a);
    assert forall r :: Live(h', r) == (Live(h, r) && r != ArrRes(a));
  }

  lemma FreeArrayKeeps(image: Image, h: Heap, t: nat, a: Ptr)
    requires HeapOk(image, h) && Conserved(h)
    requires HeldBy(h, a, t) && a in h.arrays
    ensures Keeps(image, h, FreeArray(h, a), t)
  {
    FreeArrayShape(image, h, t, a);
    FreeArraySeen(image, h, t, a);
    FreeArrayCount(image, h, t, a);
    hide HeapOk; hide Conserved; hide Grows; hide LeavesOthers;
  }

  lemma SlotArrayOk(image: Image, h: Heap, x: Ptr)
    requires HeapOk(image, h) && x in h.nodes
    ensures x in h.home && NodeOk(image, h, x)
    ensures h.home[x].InSlot? ==> h.home[x].arr in h.arrays && h.home[x].arr in h.home && ArrayOk(h, h.home[x].arr)
  {
    assert ObjectOk(image, h, x);
    if h.home[x].InSlot? { assert ObjectOk(image, h, h.home[x].arr); }
  }

  lemma FreeNodeOtherNode(image: Image, h: Heap, t: nat, n: Ptr, x: Ptr)
    requires HeldBy(h, n, t) && n in h.nodes && x in h.nodes && x in h.home && x != n && NodeOk(image, h, x)
    requires h.home[x].InSlot? ==> h.home[x].arr in h.arrays && h.home[x].arr in h.home && ArrayOk(h, h.home[x].arr)
    ensures NodeOk(image, FreeNode(h, n), x)
  {
    hide EntryResources;
  }

  lemma FreeNodeOtherArray(image: Image, h: Heap, t: nat, n: Ptr, x: Ptr)
    requires HeapOk(image, h)
    requires HeldBy(h, n, t) && n in h.nodes && x in h.arrays && x != n
    ensures x in h.home && ArrayOk(FreeNode(h, n), x)
  {
    hide EntryResources; hide NodeOk;
    assert ObjectOk(image, h, x);
  }

  lemma FreeNodeShape(image: Image, h: Heap, t: nat, n: Ptr)
    requires HeapOk(image, h)
    requires HeldBy(h, n, t) && n in h.nodes
    ensures HeapOk(image, FreeNode(h, n))
  {
    hide EntryResources; hide NodeOk; hide ArrayOk;
    var h' := FreeNode(h, n);
    forall x | x in h'.home ensures ObjectOk(image, h', x) {
      assert ObjectOk(image, h, x);
      assert ObjectOk(image, h, n);
      if x != n && x in h.nodes {
        SlotArrayOk(image, h, x);
        FreeNodeOtherNode(image, h, t, n, x);
      }
      if x != n && x in h.arrays { FreeNodeOtherArray(image, h, t, n, x); }
    }
  }

  lemma FreeNodeSeen(image: Image, h: Heap, t: nat, n: Ptr)
    requires HeapOk(image, h)
    requires HeldBy(h, n, t) && n in h.nodes
    ensures Grows(h, FreeNode(h, n)) && LeavesOthers(h, FreeNode(h, n), t)
  {
    hide HeapOk; hide EntryResources;
    var h' := FreeNode(h, n);
    assert forall d :: Published(h, d) ==> d != n && Published(h', d);
  }

  lemma FreeNodeCount(image: Image, h: Heap, t: nat, n: Ptr)
    requires HeapOk(image, h) && Conserved(h)
    requires HeldBy(h, n, t) && n in h.nodes
    ensures Conserved(FreeNode(h, n))
  {
    hide EntryResources; hide NodeOk; hide ArrayOk;
    var h' := FreeNode(h, n);
    assert ObjectOk(image, h, n);
    EntryCount(n, h.nodes[n].files);
    assert forall r :: Live(h', r) == (Live(h, r) && r != NodeRes(n) && !EntryOf(r, n, h.nodes[n].files));
  }

  lemma FreeNodeKeeps(image: Image, h: Heap, t: nat, n: Ptr)
    requires HeapOk(image, h) && Conserved(h)
    requires HeldBy(h, n, t) && n in h.nodes
    ensures Keeps(image, h, FreeNode(h, n), t)
  {
    FreeNodeShape(image, h, t, n);
    FreeNodeSeen(image, h, t, n);
    FreeNodeCount(image, h, t, n);
    hide HeapOk; hide Conserved; hide Grows; hide LeavesOthers;
  }
}
