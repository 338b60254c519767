/** Closing a volume: `_clean_tree`, `udf_clean_dir_entries` and `udfread_close`
    free everything the cache protocol left in memory, each block once. */
module CleanTree {
  import opened Bytes
  import opened Records
  import opened DirCache
  import opened DirCacheSteps
  import opened DirCacheRuns
  import opened DirCacheTheorems
  import opened PathLookup

  /** A tree that no thread is working on. */
  ghost predicate Quiet(image: Image, h: Heap) {
    HeapOk(image, h) && forall x :: x in h.home ==> !h.home[x].Held?
  }

  ghost predicate InUse(nodes: map<Ptr, Node>, arrays: map<Ptr, Slots>, r: Res) {
    match r
    case ArrRes(a) => a in arrays
    case NodeRes(n) => n in nodes
    case FilesRes(n) => n in nodes && nodes[n].files.Some?
    case NameRes(n, k) => n in nodes && k < |nodes[n].Entries()|
  }

  ghost predicate Balanced(allocs: multiset<Res>, frees: multiset<Res>, nodes: map<Ptr, Node>,
                           arrays: map<Ptr, Slots>)
  {
    forall r :: allocs[r] <= 1 && allocs[r] == frees[r] + (if InUse(nodes, arrays, r) then 1 else 0)
  }

  // ------------------------------------------------------- the shape of the tree

  /** The directory whose slot a node is in. */
  ghost function Parent(h: Heap, n: Ptr): Ptr
    requires n in h.home && h.home[n].InSlot? && h.home[n].arr in h.home && h.home[h.home[n].arr].OfDir?
  {
    h.home[h.home[n].arr].dir
  }

  lemma ParentIsOlder(image: Image, h: Heap, n: Ptr)
    requires Quiet(image, h) && n in h.nodes && n != ROOT
    ensures n in h.home && h.home[n].InSlot? && h.home[n].arr in h.arrays && h.home[n].arr in h.home
    ensures h.home[h.home[n].arr].OfDir? && Parent(h, n) < n && Parent(h, n) in h.nodes
    ensures var a, d := h.home[n].arr, Parent(h, n);
            h.nodes[d].subdirs == Some(a) && h.home[n].index < |h.arrays[a]| && h.arrays[a][h.home[n].index] == Some(n)
  {
    assert ObjectOk(image, h, n);
    assert ObjectOk(image, h, h.home[n].arr);
  }

  /** n is p or below it. */
  ghost predicate Under(image: Image, h: Heap, n: Ptr, p: Ptr)
    requires Quiet(image, h) && n in h.nodes
    decreases n
  {
    n == p || (n != ROOT && (ParentIsOlder(image, h, n); Under(image, h, Parent(h, n), p)))
  }

  /** The slot of p through which n hangs below it. */
  ghost function Branch(image: Image, h: Heap, n: Ptr, p: Ptr): nat
    requires Quiet(image, h) && n in h.nodes && Under(image, h, n, p) && n != p
    decreases n
  {
    ParentIsOlder(image, h, n);
    if Parent(h, n) == p then h.home[n].index else Branch(image, h, Parent(h, n), p)
  }

  lemma {:induction false} AllUnderRoot(image: Image, h: Heap, n: Ptr)
    requires Quiet(image, h) && n in h.nodes
    ensures Under(image, h, n, ROOT)
    decreases n
  {
    if n != ROOT {
      ParentIsOlder(image, h, n);
      AllUnderRoot(image, h, Parent(h, n));
    }
  }

  lemma {:induction false} UnderIsNewer(image: Image, h: Heap, n: Ptr, p: Ptr)
    requires Quiet(image, h) && n in h.nodes && Under(image, h, n, p)
    ensures p <= n && p in h.nodes
    decreases n
  {
    if n != p {
      ParentIsOlder(image, h, n);
      UnderIsNewer(image, h, Parent(h, n), p);
    }
  }

  /** What hangs below the child in slot j of p is what hangs below p through slot j. */
  lemma {:induction false} UnderChild(image: Image, h: Heap, n: Ptr, p: Ptr, j: nat, c: Ptr)
    requires Quiet(image, h) && n in h.nodes && SlotIs(h, p, j, c)
    ensures Under(image, h, n, c) <==> (n != p && Under(image, h, n, p) && Branch(image, h, n, p) == j)
    decreases n
  {
    SlotFaithful(image, h, p, j, c);
    var a := h.nodes[p].subdirs.value;
    assert ObjectOk(image, h, p) && ObjectOk(image, h, a);
    assert InItsSlot(h, c, a, j);
    if n == p {
      if Under(image, h, n, c) { UnderIsNewer(image, h, n, c); }
    } else if n != ROOT {
      ParentIsOlder(image, h, n);
      UnderChild(image, h, Parent(h, n), p, j, c);
    }
  }

  lemma {:induction false} BranchIsChild(image: Image, h: Heap, n: Ptr, p: Ptr)
    requires Quiet(image, h) && n in h.nodes && Under(image, h, n, p) && n != p
    ensures p in h.nodes && h.nodes[p].subdirs.Some? && h.nodes[p].subdirs.value in h.arrays
    ensures var a, j := h.nodes[p].subdirs.value, Branch(image, h, n, p);
            j < |h.arrays[a]| && h.arrays[a][j].Some?
    decreases n
  {
    ParentIsOlder(image, h, n);
    if Parent(h, n) != p { BranchIsChild(image, h, Parent(h, n), p); }
  }

  lemma DirectoryArray(image: Image, h: Heap, p: Ptr)
    requires Quiet(image, h) && p in h.nodes
    ensures Published(h, p)
    ensures h.nodes[p].subdirs.Some? ==>
      var a := h.nodes[p].subdirs.value;
      a in h.arrays && a in h.home && h.home[a] == OfDir(p) && |h.arrays[a]| == |h.nodes[p].Entries()|
  {
    assert ObjectOk(image, h, p);
    if h.nodes[p].subdirs.Some? { assert ObjectOk(image, h, h.nodes[p].subdirs.value); }
  }

  // Every free releases something in use.

  lemma EntriesFreed(allocs: multiset<Res>, frees: multiset<Res>, nodes: map<Ptr, Node>, arrays: map<Ptr, Slots>,
                     p: Ptr)
    requires Balanced(allocs, frees, nodes, arrays) && p in nodes
    ensures Balanced(allocs, frees + EntryResources(p, nodes[p].files), nodes[p := nodes[p].(files := None)], arrays)
  {
    var nodes' := nodes[p := nodes[p].(files := None)];
    EntryCount(p, nodes[p].files);
    forall r ensures InUse(nodes', arrays, r) == (InUse(nodes, arrays, r) && !EntryOf(r, p, nodes[p].files)) {}
  }

  lemma NodeFreed(allocs: multiset<Res>, frees: multiset<Res>, nodes: map<Ptr, Node>, arrays: map<Ptr, Slots>, p: Ptr)
    requires Balanced(allocs, frees, nodes, arrays) && p in nodes && nodes[p].files == None
    ensures Balanced(allocs, frees + multiset{NodeRes(p)}, nodes - {p}, arrays)
  {
    forall r ensures InUse(nodes - {p}, arrays, r) == (InUse(nodes, arrays, r) && r != NodeRes(p)) {}
  }

  lemma ArrayFreed(allocs: multiset<Res>, frees: multiset<Res>, nodes: map<Ptr, Node>, arrays: map<Ptr, Slots>,
                   p: Ptr, a: Ptr)
    requires Balanced(allocs, frees, nodes, arrays) && a in arrays && p in nodes
    ensures Balanced(allocs, frees + multiset{ArrRes(a)}, nodes[p := nodes[p].(subdirs := None)], arrays - {a})
  {
    var nodes' := nodes[p := nodes[p].(subdirs := None)];
    forall r ensures InUse(nodes', arrays - {a}, r) == (InUse(nodes, arrays, r) && r != ArrRes(a)) {}
  }

  lemma SlotCleared(allocs: multiset<Res>, frees: multiset<Res>, nodes: map<Ptr, Node>, arrays: map<Ptr, Slots>,
                    a: Ptr, slots: Slots)
    requires Balanced(allocs, frees, nodes, arrays) && a in arrays
    ensures Balanced(allocs, frees, nodes, arrays[a := slots])
  {
    forall r ensures InUse(nodes, arrays[a := slots], r) == InUse(nodes, arrays, r) {}
  }

  // ------------------------------------------------------------------ the volume

  /** The memory behind an open volume. `tree` is what the last call left there. */
  class Volume {
    var nodes: map<Ptr, Node>
    var arrays: map<Ptr, Slots>
    var frees: multiset<Res>
    ghost const image: Image
    ghost const tree: Heap

    constructor (ghost image: Image, h: Heap)
      requires Quiet(image, h) && Conserved(h)
      ensures Valid() && this.image == image && tree == h && Intact(ROOT)
      ensures nodes == h.nodes && arrays == h.arrays && frees == h.frees
    {
      this.image, tree := image, h;
      nodes, arrays, frees := h.nodes, h.arrays, h.frees;
      new;
      forall r ensures InUse(nodes, arrays, r) == Live(h, r) {}
      forall n | n in tree.nodes ensures Untouched(n) { DirectoryArray(image, tree, n); }
    }

    ghost predicate Valid()
      reads this
    {
      && Quiet(image, tree) && Balanced(tree.allocs, frees, nodes, arrays)
      && nodes.Keys <= tree.nodes.Keys && arrays.Keys <= tree.arrays.Keys
    }

    /** Node n and its slot array are as the tree was. */
    ghost predicate Untouched(n: Ptr)
      requires n in tree.nodes
      reads this
    {
      && n in nodes && nodes[n] == tree.nodes[n]
      && match tree.nodes[n].subdirs
         case None => true
         case Some(a) => a in arrays && a in tree.arrays && arrays[a] == tree.arrays[a]
    }

    ghost predicate Intact(p: Ptr)
      requires Valid()
      reads this
    {
      p in tree.nodes && forall n :: n in tree.nodes && Under(image, tree, n, p) ==> Untouched(n)
    }

    /** Node n hangs below p through one of its first i slots. */
    ghost predicate Past(n: Ptr, p: Ptr, i: nat)
      requires Quiet(image, tree)
    {
      n in tree.nodes && n != p && Under(image, tree, n, p) && Branch(image, tree, n, p) < i
    }

    ghost predicate Below(n: Ptr, p: Ptr)
      requires Quiet(image, tree)
    {
      n in tree.nodes && n != p && Under(image, tree, n, p)
    }

    ghost function Owner(a: Ptr): Ptr {
      if a in tree.home && tree.home[a].OfDir? then tree.home[a].dir else ROOT
    }

    static lemma NamesGrow(p: Ptr, i: nat)
      ensures multiset(Names(p, i + 1)) == multiset(Names(p, i)) + multiset{NameRes(p, i)}
      ensures multiset(Names(p, 0)) == multiset{}
    {
      assert Names(p, 0) == {};
      assert Names(p, i + 1) == Names(p, i) + {NameRes(p, i)} && NameRes(p, i) !in Names(p, i);
    }

    /** `udf_clean_dir_entries` */
    method CleanEntries(p: Ptr)
      requires Valid() && p in nodes
      modifies this`nodes, this`frees
      ensures Valid() && nodes == old(nodes)[p := old(nodes)[p].(files := None)]
    {
      hide Quiet; hide Balanced; hide InUse; hide Names;
      EntriesFreed(tree.allocs, frees, nodes, arrays, p);
      if nodes[p].files.Some? {
        var files := nodes[p].files.value;
        NamesGrow(p, 0);
        for i := 0 to |files|
          invariant nodes == old(nodes)
          invariant frees == old(frees) + multiset(Names(p, i))
        {
          frees := frees + multiset{NameRes(p, i)};
          NamesGrow(p, i);
        }
        frees := frees + multiset{FilesRes(p)};
        nodes := nodes[p := nodes[p].(files := None)];
        assert frees == old(frees) + EntryResources(p, Some(files));
      }
    }

    ghost predicate NodesCleaned(nodes0: map<Ptr, Node>, p: Ptr, i: nat)
      requires Quiet(image, tree)
      reads this
    {
      && (forall n :: n in nodes <==> n in nodes0 && !Past(n, p, i))
      && (forall n :: n in nodes ==> nodes[n] == nodes0[n])
    }

    ghost predicate ArraysCleaned(arrays0: map<Ptr, Slots>, p: Ptr, a: Ptr, i: nat)
      requires Quiet(image, tree)
      reads this
    {
      && (forall b :: b in arrays <==> b in arrays0 && !Past(Owner(b), p, i))
      && (forall b :: b in arrays && b != a ==> arrays[b] == arrays0[b])
    }

    /** The first i slots of p have been dealt with: exactly what hung below p
        through them is gone since nodes0 and arrays0, and they are NULL. */
    ghost predicate Cleaned(nodes0: map<Ptr, Node>, arrays0: map<Ptr, Slots>, p: Ptr, a: Ptr, i: nat)
      requires Quiet(image, tree)
      reads this
    {
      && NodesCleaned(nodes0, p, i) && ArraysCleaned(arrays0, p, a, i)
      && p in nodes && p in tree.nodes && nodes[p] == tree.nodes[p] && nodes[p].subdirs == Some(a)
      && a in arrays && a in tree.arrays && i <= |arrays[a]| == |tree.arrays[a]| == |nodes[p].Entries()|
      && forall k :: i <= k < |arrays[a]| ==> arrays[a][k] == tree.arrays[a][k]
    }

    ghost predicate WasIntact(nodes0: map<Ptr, Node>, arrays0: map<Ptr, Slots>, p: Ptr)
      requires Quiet(image, tree)
    {
      p in tree.nodes && forall n :: n in tree.nodes && Under(image, tree, n, p) ==>
        && n in nodes0 && nodes0[n] == tree.nodes[n]
        && match tree.nodes[n].subdirs
           case None => true
           case Some(b) => b in arrays0 && b in tree.arrays && arrays0[b] == tree.arrays[b]
    }

    lemma UnderSelf(c: Ptr)
      requires Quiet(image, tree) && c in tree.nodes
      ensures Under(image, tree, c, c)
    {}

    /** The child in the next slot has not been touched yet. */
    lemma ChildIntact(nodes0: map<Ptr, Node>, arrays0: map<Ptr, Slots>, p: Ptr, a: Ptr, i: nat, c: Ptr)
      requires Valid() && WasIntact(nodes0, arrays0, p) && Cleaned(nodes0, arrays0, p, a, i)
      requires SlotIs(tree, p, i, c) && c in tree.nodes && Owner(a) == p
      ensures Intact(c) && c in nodes
    {
      hide Quiet; hide Balanced; hide Under; hide Branch; hide SlotIs;
      UnderSelf(c);
      forall n | n in tree.nodes && Under(image, tree, n, c) ensures Untouched(n) {
        UnderChild(image, tree, n, p, i, c);
        DirectoryArray(image, tree, n);
      }
      assert Untouched(c);
    }

    lemma ChildPlace(p: Ptr, a: Ptr, i: nat, c: Ptr)
      requires Quiet(image, tree) && p in tree.nodes && tree.nodes[p].subdirs == Some(a) && a in tree.arrays
      requires i < |tree.arrays[a]| && tree.arrays[a][i] == Some(c)
      ensures SlotIs(tree, p, i, c) && c in tree.nodes && p < c < tree.next && !Below(p, c) && Owner(a) == p
    {
      DirectoryArray(image, tree, p);
      SlotFaithful(image, tree, p, i, c);
      assert ObjectOk(image, tree, c);
      if Below(p, c) { UnderIsNewer(image, tree, p, c); }
    }

    /** n is in memory unless it hung below p; p itself is bare. */
    ghost predicate NodesAfter(nodes0: map<Ptr, Node>, p: Ptr)
      requires Quiet(image, tree)
      reads this
    {
      && (forall n :: n in nodes <==> n in nodes0 && !Below(n, p))
      && (forall n :: n in nodes && n != p ==> nodes[n] == nodes0[n])
      && p in nodes && nodes[p] == Node(None, None)
    }

    ghost predicate ArraysAfter(arrays0: map<Ptr, Slots>, p: Ptr)
      requires Quiet(image, tree)
      reads this
    {
      && (forall b :: b in arrays <==> b in arrays0 && Owner(b) != p && !Below(Owner(b), p))
      && (forall b :: b in arrays ==> arrays[b] == arrays0[b])
    }

    /** From one slot to the next. */
    lemma SlotDone(nodes0: map<Ptr, Node>, arrays0: map<Ptr, Slots>, p: Ptr, a: Ptr, i: nat, c: Ptr, n: Ptr)
      requires Quiet(image, tree) && SlotIs(tree, p, i, c)
      ensures Past(n, p, i + 1) <==> Past(n, p, i) || n == c || Below(n, c)
      ensures c in tree.nodes && p < c
    {
      SlotFaithful(image, tree, p, i, c);
      if n in tree.nodes { UnderChild(image, tree, n, p, i, c); }
    }

    lemma EmptySlotDone(p: Ptr, a: Ptr, i: nat, n: Ptr)
      requires Quiet(image, tree) && p in tree.nodes && tree.nodes[p].subdirs == Some(a) && a in tree.arrays
      requires i < |tree.arrays[a]| && tree.arrays[a][i] == None
      ensures Past(n, p, i + 1) <==> Past(n, p, i)
    {
      if n in tree.nodes && n != p && Under(image, tree, n, p) { BranchIsChild(image, tree, n, p); }
    }

    lemma AllSlotsDone(p: Ptr, a: Ptr, n: Ptr)
      requires Quiet(image, tree) && p in tree.nodes && tree.nodes[p].subdirs == Some(a) && a in tree.arrays
      ensures Past(n, p, |tree.arrays[a]|) <==> Below(n, p)
    {
      if n in tree.nodes && n != p && Under(image, tree, n, p) { BranchIsChild(image, tree, n, p); }
    }

    /** How `_clean_tree` finds its node, and what is left if it has no slots. */
    lemma TreeBelow(p: Ptr, nodes0: map<Ptr, Node>, arrays0: map<Ptr, Slots>)
      requires Valid() && Intact(p) && nodes == nodes0 && arrays == arrays0
      ensures WasIntact(nodes0, arrays0, p) && p in nodes && nodes[p] == tree.nodes[p]
      ensures nodes[p].subdirs.Some? ==> Cleaned(nodes0, arrays0, p, nodes[p].subdirs.value, 0)
      ensures nodes[p].subdirs.None? ==> forall n :: !Below(n, p)
      ensures forall b :: b in arrays ==> (Owner(b) == p <==> nodes[p].subdirs == Some(b))
    {
      assert Untouched(p);
      DirectoryArray(image, tree, p);
      forall b | b in arrays ensures Owner(b) == p <==> nodes[p].subdirs == Some(b) { assert ObjectOk(image, tree, b); }
      if nodes[p].subdirs.None? {
        forall n ensures !Below(n, p) { if Below(n, p) { BranchIsChild(image, tree, n, p); } }
      }
    }

    /** Nothing that hung below p is left. */
    lemma SlotsCleaned(nodes0: map<Ptr, Node>, arrays0: map<Ptr, Slots>, p: Ptr, a: Ptr)
      requires Quiet(image, tree) && a in arrays && Cleaned(nodes0, arrays0, p, a, |arrays[a]|)
      ensures forall n :: n in nodes <==> n in nodes0 && !Below(n, p)
      ensures forall n :: n in nodes ==> nodes[n] == nodes0[n]
      ensures (forall b :: b in arrays <==> b in arrays0 && !Below(Owner(b), p))
      ensures forall b :: b in arrays && b != a ==> arrays[b] == arrays0[b]
    {
      hide Quiet; hide Past; hide Below; hide Owner;
      forall n ensures Past(n, p, |arrays[a]|) <==> Below(n, p) { AllSlotsDone(p, a, n); }
    }

    /** `_clean_tree` */
    method CleanTree(p: Ptr)
      requires Valid() && Intact(p)
      modifies this
      ensures Valid() && NodesAfter(old(nodes), p) && ArraysAfter(old(arrays), p)
      decreases tree.next - p, 2
    {
      hide Quiet; hide Balanced; hide InUse; hide Past; hide Below; hide Intact; hide WasIntact; hide Owner;
      hide Untouched;
      TreeBelow(p, old(nodes), old(arrays));
      if nodes[p].subdirs.Some? { FreeSlots(p); }
      CleanEntries(p);
    }

    /** `_clean_tree(p->subdirs[i]); free(p->subdirs[i]); p->subdirs[i] = NULL` */
    method FreeSlot(p: Ptr, a: Ptr, i: nat, ghost nodes0: map<Ptr, Node>, ghost arrays0: map<Ptr, Slots>)
      requires Valid() && WasIntact(nodes0, arrays0, p) && Cleaned(nodes0, arrays0, p, a, i) && i < |arrays[a]|
      modifies this
      ensures Valid() && Cleaned(nodes0, arrays0, p, a, i + 1)
      decreases tree.next - p, 0
    {
      hide Quiet; hide Balanced; hide InUse; hide Past; hide Below; hide Intact; hide WasIntact; hide Owner;
      hide SlotIs;
      var child := arrays[a][i];
      match child {
        case None =>
          forall n ensures Past(n, p, i + 1) <==> Past(n, p, i) { EmptySlotDone(p, a, i, n); }
        case Some(c) =>
          ChildPlace(p, a, i, c);
          ChildIntact(nodes0, arrays0, p, a, i, c);
          forall n ensures Past(n, p, i + 1) <==> Past(n, p, i) || n == c || Below(n, c) {
            SlotDone(nodes0, arrays0, p, a, i, c, n);
          }
          CleanTree(c);
          NodeFreed(tree.allocs, frees, nodes, arrays, c);
          nodes := nodes - {c};
          frees := frees + multiset{NodeRes(c)};
      }
      SlotCleared(tree.allocs, frees, nodes, arrays, a, arrays[a][i := None]);
      arrays := arrays[a := arrays[a][i := None]];
    }

    /** The block `if (p->subdirs)` of `_clean_tree`. */
    method FreeSlots(p: Ptr)
      requires Valid() && Intact(p) && p in nodes && nodes[p].subdirs.Some?
      modifies this
      ensures Valid() && ArraysAfter(old(arrays), p)
      ensures forall n :: n in nodes <==> n in old(nodes) && !Below(n, p)
      ensures forall n :: n in nodes && n != p ==> nodes[n] == old(nodes)[n]
      ensures p in nodes && nodes[p] == old(nodes)[p].(subdirs := None)
      decreases tree.next - p, 1
    {
      hide Quiet; hide Balanced; hide InUse; hide Past; hide Below; hide Intact; hide WasIntact; hide Owner;
      hide Untouched;
      hide NodesCleaned; hide ArraysCleaned;
      TreeBelow(p, old(nodes), old(arrays));
      var a := nodes[p].subdirs.value;
      var i := 0;
      while i < |nodes[p].Entries()|
        invariant Valid() && Cleaned(old(nodes), old(arrays), p, a, i)
      {
        FreeSlot(p, a, i, old(nodes), old(arrays));
        i := i + 1;
      }
      SlotsCleaned(old(nodes), old(arrays), p, a);
      ArrayFreed(tree.allocs, frees, nodes, arrays, p, a);
      arrays := arrays - {a};
      frees := frees + multiset{ArrRes(a)};
      nodes := nodes[p := nodes[p].(subdirs := None)];
    }

    lemma EverythingHangsFromTheRoot(x: Ptr)
      requires Valid()
      ensures ROOT in tree.nodes && (x in tree.nodes ==> x == ROOT || Below(x, ROOT))
      ensures x in tree.arrays ==> Owner(x) == ROOT || Below(Owner(x), ROOT)
    {
      if x in tree.nodes { AllUnderRoot(image, tree, x); }
      if x in tree.arrays {
        assert ObjectOk(image, tree, x);
        AllUnderRoot(image, tree, Owner(x));
      }
    }

    lemma NothingLeft()
      requires Balanced(tree.allocs, frees, map[], map[])
      ensures frees == tree.allocs
    {
      forall r ensures frees[r] == tree.allocs[r] {
        assert !InUse(map[], map[], r);
        assert tree.allocs[r] == frees[r] + 0;
      }
    }

    /** `udfread_close`: the root node is part of the handle and goes with it. */
    method Close()
      requires Valid() && Intact(ROOT)
      modifies this
      ensures nodes == map[] && arrays == map[] && frees == tree.allocs
    {
      hide Quiet; hide Balanced; hide InUse; hide Past; hide Below; hide Intact; hide Owner;
      forall x ensures (x in tree.nodes ==> x == ROOT || Below(x, ROOT))
                    && (x in tree.arrays ==> Owner(x) == ROOT || Below(Owner(x), ROOT)) {
        EverythingHangsFromTheRoot(x);
      }
      CleanTree(ROOT);
      NodeFreed(tree.allocs, frees, nodes, arrays, ROOT);
      nodes := nodes - {ROOT};
      frees := frees + multiset{NodeRes(ROOT)};
      assert nodes == map[] && arrays == map[];
      NothingLeft();
    }
  }

  lemma HolderIsBusy(image: Image, s: State, x: Ptr)
    requires Inv(image, s) && x in s.heap.home && s.heap.home[x].Held?
    ensures exists t :: 0 <= t < |s.threads| && !s.threads[t].pc.Idle?
  {
    var t := s.heap.home[x].thread;
    assert HandsOk(s.heap, t, s.threads[t].pc);
  }

  lemma IdleIsQuiet(image: Image, root: Option<seq<FileId>>, s: State)
    requires Reachable(image, root, s) && forall t :: 0 <= t < |s.threads| ==> s.threads[t].pc.Idle?
    ensures Quiet(image, s.heap) && Conserved(s.heap)
  {
    ReachableIsGood(image, root, s);
    forall x | x in s.heap.home ensures !s.heap.home[x].Held? {
      if s.heap.home[x].Held? { HolderIsBusy(image, s, x); }
    }
  }

  /** From any point of any run at which all calls have returned, closing the volume
      frees every array, node, entry array and file name ever allocated, once each. */
  method CloseAfterRun(ghost image: Image, ghost root: Option<seq<FileId>>, s: State) returns (frees: multiset<Res>)
    requires Reachable(image, root, s) && forall t :: 0 <= t < |s.threads| ==> s.threads[t].pc.Idle?
    ensures frees == s.heap.allocs && forall r :: frees[r] <= 1
  {
    IdleIsQuiet(image, root, s);
    var v := new Volume(image, s.heap);
    v.Close();
    frees := v.frees;
  }
}
