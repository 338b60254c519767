/** The lock-free directory cache of src/udfread.c as a step system.

    Any number of threads run `_find_file` (or the `_cache_subdir` call of
    `udfread_opendir_at`) against one shared tree. Each step makes at most one
    access to memory that other threads can reach, and compare-and-swap
    (src/udf_atomic.h) is one step. Freed memory leaves the maps, so a step that
    touched it would not be well-formed; `log` fields record what was allocated
    and freed and what callers were given. */
module DirCache {
  import opened Bytes
  import opened Records
  import opened PathLookup

  type Ptr = nat

  /** struct udf_dir */
  datatype Node = Node(files: Option<seq<FileId>>, subdirs: Option<Ptr>) {
    function Entries(): seq<FileId> { EntriesOf(files) }
  }

  type Slots = seq<Option<Ptr>>

  /** Who owns a block of memory. */
  datatype Home = Embedded | Held(thread: nat) | OfDir(dir: Ptr) | InSlot(arr: Ptr, index: nat) | Released

  /** What malloc handed out: a slot array, a node, a node's entry array, a file name. */
  datatype Res = ArrRes(p: Ptr) | NodeRes(p: Ptr) | FilesRes(p: Ptr) | NameRes(p: Ptr, k: nat)

  // Numbers are lines of src/udfread.c.
  datatype Pc =
    | Idle
    | Loop                            // 313: head of the token loop
    | TestSubdirs                     // 244: load dir->subdirs
    | AllocArr                        // 245
    | CasArr(arr: Ptr)                // 250
    | FreeArr(arr: Ptr)               // 251
    | LoadSubdirs                     // 255: load dir->subdirs
    | TestSlot(at: Ptr)               // 255: load subdirs[index]
    | AllocNode                       // 256
    | ReadNode(node: Ptr)             // 261
    | DropFailed(node: Ptr)           // 262-264
    | LoadSubdirs2(node: Ptr)         // 266: load dir->subdirs
    | CasSlot(at: Ptr, node: Ptr)     // 266
    | DropLoser(node: Ptr)            // 267-268
    | LoadSubdirs3                    // 272: load dir->subdirs
    | LoadSlot(at: Ptr)               // 272: load subdirs[index], return it

  datatype Job = Path(path: Name, needFid: bool) | Child

  /** `troubled`: out of memory or a read error in this call; `passed`: the thread
      is past the second compare-and-swap. */
  datatype Thread = Thread(pc: Pc, job: Job, dir: Ptr, index: nat, rest: seq<Name>, fid: Option<FileId>,
                           troubled: bool, passed: bool)

  datatype Event =
    | Returned(dir: Ptr, index: nat, node: Option<Ptr>, passed: bool, troubled: bool)
    | LookedUp(path: Name, needFid: bool, result: Lookup<Ptr>, troubled: bool)

  /** Shared memory, and the record of who owns what. */
  datatype Heap = Heap(nodes: map<Ptr, Node>, arrays: map<Ptr, Slots>, home: map<Ptr, Home>, next: Ptr,
                       allocs: multiset<Res>, frees: multiset<Res>)

  datatype State = State(heap: Heap, threads: seq<Thread>, events: seq<Event>)

  const ROOT: Ptr := 0

  /** How the environment resolves a step: an idle thread is given a call, an
      allocation or a directory read may fail. */
  datatype Choice = Go | NoMemory | ReadError(left: Option<seq<FileId>>)
                  | StartPath(path: Name, needFid: bool) | StartChild(dir: Ptr, index: nat)

  // ---------------------------------------------------------------- resources

  function Names(n: Ptr, count: nat): (s: set<Res>) { set k | 0 <= k < count :: NameRes(n, k) }

  function EntryResources(n: Ptr, files: Option<seq<FileId>>): multiset<Res> {
    if files.None? then multiset{}
    else multiset{FilesRes(n)} + multiset(Names(n, |files.value|))
  }

  /** Allocated and not yet freed. */
  ghost predicate Live(h: Heap, r: Res) {
    match r
    case ArrRes(a) => a in h.arrays
    case NodeRes(n) => n in h.nodes
    case FilesRes(n) => n in h.nodes && h.nodes[n].files.Some?
    case NameRes(n, k) => n in h.nodes && k < |h.nodes[n].Entries()|
  }

  /** Every allocation is either live or has been freed exactly once; what has been
      freed is no longer in memory. */
  ghost predicate Conserved(h: Heap) {
    forall r :: h.allocs[r] <= 1 && h.allocs[r] == h.frees[r] + (if Live(h, r) then 1 else 0)
                && (r in h.frees ==> r.p < h.next && r.p !in h.nodes && r.p !in h.arrays)
  }

  // ------------------------------------------------------------ the shared tree

  /** Reachable by other threads: the root, or in a slot. */
  ghost predicate Published(h: Heap, d: Ptr) {
    d in h.nodes && d in h.home && (h.home[d].Embedded? || h.home[d].InSlot?)
  }

  ghost predicate HasArray(h: Heap, d: Ptr, a: Ptr) {
    Published(h, d) && h.nodes[d].subdirs == Some(a)
  }

  ghost predicate SlotIs(h: Heap, d: Ptr, i: nat, n: Ptr) {
    Published(h, d) && match h.nodes[d].subdirs
                       case None => false
                       case Some(a) => a in h.arrays && i < |h.arrays[a]| && h.arrays[a][i] == Some(n)
  }

  /** A node in slot i of directory d is what a read of entry i's icb gives. */
  ghost predicate Faithful(image: Image, h: Heap, d: Ptr, i: nat, files: Option<seq<FileId>>)
    requires d in h.nodes
  {
    i < |h.nodes[d].Entries()| && IsDirectory(h.nodes[d].Entries()[i]) &&
    image(h.nodes[d].Entries()[i].icb) == DirRead(true, files)
  }

  ghost predicate InItsSlot(h: Heap, n: Ptr, a: Ptr, i: nat) {
    n in h.nodes && n in h.home && h.home[n] == InSlot(a, i)
  }

  /** A slot array is all NULL in its thread's hands, or belongs to one directory;
      what its slots point to points back. */
  ghost predicate ArrayOk(h: Heap, a: Ptr)
    requires a in h.arrays && a in h.home
  {
    && (match h.home[a]
        case Held(_) => forall i :: 0 <= i < |h.arrays[a]| ==> h.arrays[a][i] == None
        case OfDir(d) => HasArray(h, d, a) && |h.arrays[a]| == |h.nodes[d].Entries()|
        case _ => false)
    && forall i :: 0 <= i < |h.arrays[a]| && h.arrays[a][i].Some? ==> InItsSlot(h, h.arrays[a][i].value, a, i)
  }

  /** A node is the root, in its thread's hands, or in one slot of an older
      directory and faithful to that directory's entry. */
  ghost predicate NodeOk(image: Image, h: Heap, n: Ptr)
    requires n in h.nodes && n in h.home
  {
    && (match h.home[n]
        case Embedded => n == ROOT
        case Held(_) => h.nodes[n].subdirs == None
        case InSlot(a, i) => a in h.arrays && i < |h.arrays[a]| && h.arrays[a][i] == Some(n)
                             && a in h.home && h.home[a].OfDir? && var d := h.home[a].dir;
                             d < n && d in h.nodes && Faithful(image, h, d, i, h.nodes[n].files)
        case _ => false)
    && match h.nodes[n].subdirs
       case None => true
       case Some(a) => a in h.arrays && a in h.home && h.home[a] == OfDir(n)
  }

  ghost predicate ObjectOk(image: Image, h: Heap, x: Ptr)
    requires x in h.home
  {
    && x < h.next
    && (x in h.nodes ==> x !in h.arrays && NodeOk(image, h, x))
    && (x in h.arrays ==> ArrayOk(h, x))
    && (x !in h.nodes && x !in h.arrays ==> h.home[x] == Released)
  }

  ghost predicate HeapOk(image: Image, h: Heap) {
    && ROOT in h.nodes && ROOT in h.home && h.home[ROOT] == Embedded
    && h.nodes.Keys + h.arrays.Keys <= h.home.Keys
    && forall x :: x in h.home ==> ObjectOk(image, h, x)
  }

  // ------------------------------------------------------------ a thread's view

  /** The block a thread has allocated and not yet published or freed. */
  function Holding(pc: Pc): Option<Ptr> {
    match pc
    case CasArr(a) => Some(a)
    case FreeArr(a) => Some(a)
    case ReadNode(n) => Some(n)
    case DropFailed(n) => Some(n)
    case LoadSubdirs2(n) => Some(n)
    case CasSlot(_, n) => Some(n)
    case DropLoser(n) => Some(n)
    case _ => None
  }

  /** Thread t holds exactly the blocks recorded as held by it. */
  ghost predicate HandsOk(h: Heap, t: nat, pc: Pc) {
    forall x :: (x in h.home && h.home[x] == Held(t)) <==> Holding(pc) == Some(x)
  }

  ghost predicate InSubdir(h: Heap, th: Thread) {
    Published(h, th.dir) && th.index < |h.nodes[th.dir].Entries()| && IsDirectory(h.nodes[th.dir].Entries()[th.index])
  }

  function TheEntry(h: Heap, th: Thread): FileId
    requires InSubdir(h, th)
  {
    h.nodes[th.dir].Entries()[th.index]
  }

  ghost predicate SlotFull(h: Heap, th: Thread) { exists n :: SlotIs(h, th.dir, th.index, n) }

  ghost predicate HasSubdirs(h: Heap, th: Thread) { exists a :: HasArray(h, th.dir, a) }

  /** The walk so far agrees with the walk that reads every directory again. */
  ghost predicate OnCourse(image: Image, h: Heap, th: Thread)
    requires ROOT in h.nodes && (th.pc.Loop? ==> th.dir in h.nodes) && (!th.pc.Loop? ==> InSubdir(h, th))
  {
    th.job.Path? ==>
      Walk(image, h.nodes[ROOT].Entries(), Tokens(th.job.path), None) ==
        if th.pc.Loop? then Walk(image, h.nodes[th.dir].Entries(), th.rest, th.fid)
        else Enter(image, TheEntry(h, th), th.rest)
  }

  /** A private node ready to be published in its slot. */
  ghost predicate Prepared(image: Image, h: Heap, th: Thread, n: Ptr)
    requires InSubdir(h, th)
  {
    n in h.nodes && th.dir < n && Faithful(image, h, th.dir, th.index, h.nodes[n].files)
  }

  /** Inside `_cache_subdir`, past its first line. */
  ghost predicate CallOk(image: Image, h: Heap, th: Thread)
    requires InSubdir(h, th)
  {
    && (th.passed ==> th.pc.DropLoser? || th.pc.LoadSubdirs3? || th.pc.LoadSlot?)
    && match th.pc
    case TestSubdirs => true
    case AllocArr => true
    case CasArr(a) => a in h.arrays && |h.arrays[a]| == |h.nodes[th.dir].Entries()|
    case FreeArr(a) => a in h.arrays && HasSubdirs(h, th)
    case TestSlot(a) => HasArray(h, th.dir, a)
    case ReadNode(n) => HasSubdirs(h, th) && th.dir < n && n in h.nodes && h.nodes[n].files == None
    case DropFailed(n) => n in h.nodes && (th.troubled || !image(TheEntry(h, th).icb).ok)
    case LoadSubdirs2(n) => HasSubdirs(h, th) && Prepared(image, h, th, n)
    case CasSlot(a, n) => HasArray(h, th.dir, a) && Prepared(image, h, th, n)
    case DropLoser(n) => n in h.nodes && SlotFull(h, th)
    case LoadSubdirs3 => SlotFull(h, th)
    case LoadSlot(a) => HasArray(h, th.dir, a) && SlotFull(h, th)
    case _ => HasSubdirs(h, th)
  }

  /** Before its first component a lookup stands at the root, after it it has an identifier. */
  predicate JobOk(th: Thread) {
    th.job.Path? && !th.pc.Idle? ==>
      if th.fid.None? then th.pc.Loop? && th.dir == ROOT && th.rest == Tokens(th.job.path)
      else Tokens(th.job.path) != []
  }

  ghost predicate ThreadOk(image: Image, h: Heap, th: Thread) {
    && ROOT in h.nodes && JobOk(th)
    && (th.passed ==> SlotFull(h, th))
    && match th.pc
       case Idle => !th.passed
       case Loop => Published(h, th.dir) && th.job.Path? && !th.passed && OnCourse(image, h, th)
       case _ => InSubdir(h, th) && OnCourse(image, h, th) && CallOk(image, h, th)
                 && (th.job.Path? ==> th.fid == Some(TheEntry(h, th)))
  }

  // ------------------------------------------------------ what callers were told

  /** The directory entries a result stands for. */
  ghost function View(h: Heap, r: Lookup<Ptr>): Lookup<seq<FileId>>
    requires r.Found? && r.dir.Some? ==> r.dir.value in h.nodes
  {
    match r
    case Failed => Failed
    case Found(dir, fid) => Found(if dir.Some? then Some(h.nodes[dir.value].Entries()) else None, fid)
  }

  ghost predicate EventOk(image: Image, h: Heap, e: Event) {
    match e
    case Returned(d, i, node, passed, troubled) =>
      (match node
       case Some(n) => SlotIs(h, d, i, n)
       case None => !passed && Published(h, d) && i < |h.nodes[d].Entries()| &&
                    var f := h.nodes[d].Entries()[i]; !IsDirectory(f) || !image(f.icb).ok || troubled)
    case LookedUp(path, needFid, r, troubled) =>
      && Published(h, ROOT) && (r.Found? && r.dir.Some? ==> Published(h, r.dir.value))
      && (Tokens(path) == [] ==> r == if needFid then Failed else Found(Some(ROOT), None))
      && (View(h, r) == Deliver(needFid, Walk(image, h.nodes[ROOT].Entries(), Tokens(path), None))
          || (r.Failed? && troubled))
  }

  ghost predicate Inv(image: Image, s: State) {
    && HeapOk(image, s.heap) && Conserved(s.heap)
    && (forall t :: 0 <= t < |s.threads| ==> HandsOk(s.heap, t, s.threads[t].pc))
    && (forall x :: x in s.heap.home && s.heap.home[x].Held? ==> s.heap.home[x].thread < |s.threads|)
    && (forall t :: 0 <= t < |s.threads| ==> ThreadOk(image, s.heap, s.threads[t]))
    && (forall e :: e in s.events ==> EventOk(image, s.heap, e))
  }

  /** After `udfread_open`: the root directory has been read, nothing is cached. */
  ghost predicate Init(s: State, root: Option<seq<FileId>>) {
    && s.heap == Heap(map[ROOT := Node(root, None)], map[], map[ROOT := Embedded], 1,
                      multiset{NodeRes(ROOT)} + EntryResources(ROOT, root), multiset{})
    && s.events == []
    && forall t :: 0 <= t < |s.threads| ==> s.threads[t].pc.Idle? && !s.threads[t].passed
  }

  // -------------------------------------------------------------- heap updates

  /** calloc of a slot array by thread t. */
  function NewArray(h: Heap, t: nat, len: nat): Heap {
    h.(arrays := h.arrays[h.next := seq(len, _ => None)], home := h.home[h.next := Held(t)], next := h.next + 1,
       allocs := h.allocs + multiset{ArrRes(h.next)})
  }

  /** calloc of a node. */
  function NewNode(h: Heap, t: nat): Heap {
    h.(nodes := h.nodes[h.next := Node(None, None)], home := h.home[h.next := Held(t)], next := h.next + 1,
       allocs := h.allocs + multiset{NodeRes(h.next)})
  }

  /** udf_read_dir into a private node. */
  function FillNode(h: Heap, n: Ptr, files: Option<seq<FileId>>): Heap
    requires n in h.nodes
  {
    h.(nodes := h.nodes[n := h.nodes[n].(files := files)], allocs := h.allocs + EntryResources(n, files))
  }

  /** First compare-and-swap, when it succeeds. */
  function PublishArray(h: Heap, d: Ptr, a: Ptr): Heap
    requires d in h.nodes
  {
    h.(nodes := h.nodes[d := h.nodes[d].(subdirs := Some(a))], home := h.home[a := OfDir(d)])
  }

  /** Second compare-and-swap, when it succeeds. */
  function PublishNode(h: Heap, a: Ptr, i: nat, n: Ptr): Heap
    requires a in h.arrays && i < |h.arrays[a]|
  {
    h.(arrays := h.arrays[a := h.arrays[a][i := Some(n)]], home := h.home[n := InSlot(a, i)])
  }

  function FreeArray(h: Heap, a: Ptr): Heap {
    h.(arrays := h.arrays - {a}, home := h.home[a := Released], frees := h.frees + multiset{ArrRes(a)})
  }

  /** `udf_clean_dir_entries(&subdir->entries); free(subdir)` on an unpublished node. */
  function FreeNode(h: Heap, n: Ptr): Heap
    requires n in h.nodes
  {
    h.(nodes := h.nodes - {n}, home := h.home[n := Released],
       frees := h.frees + multiset{NodeRes(n)} + EntryResources(n, h.nodes[n].files))
  }

  // --------------------------------------------------------------------- steps

  function At(s: State, t: nat, th: Thread): State
    requires t < |s.threads|
  {
    s.(threads := s.threads[t := th])
  }

  function Log(s: State, e: Event): State { s.(events := s.events + [e]) }

  /** The end of `_find_file`. */
  function Finish(s: State, t: nat, r: Lookup<Ptr>): State
    requires t < |s.threads| && s.threads[t].job.Path?
  {
    var th := s.threads[t];
    Log(At(s, t, th.(pc := Idle, passed := false)),
        LookedUp(th.job.path, th.job.needFid, Deliver(th.job.needFid, r), th.troubled))
  }

  /** The return of `_cache_subdir` to its caller. */
  function Return(s: State, t: nat, node: Option<Ptr>): State
    requires t < |s.threads|
  {
    var th := s.threads[t];
    var told := Log(s, Returned(th.dir, th.index, node, th.passed, th.troubled));
    if th.job.Child? then At(told, t, th.(pc := Idle, passed := false))
    else if node.None? then Finish(told, t, Failed)
    else At(told, t, th.(pc := Loop, dir := node.value, passed := false))
  }

  /** One turn of the token loop; `_scan_dir` reads only published entries. */
  function Turn(s: State, t: nat): State
    requires t < |s.threads| && s.threads[t].job.Path? && s.threads[t].dir in s.heap.nodes
  {
    var th := s.threads[t];
    var entries := s.heap.nodes[th.dir].Entries();
    if th.rest == [] then Finish(s, t, Found(Some(th.dir), th.fid))
    else match Scan(entries, th.rest[0])
      case None => Finish(s, t, Failed)
      case Some(i) =>
        if IsDirectory(entries[i]) then
          At(s, t, th.(pc := TestSubdirs, index := i, rest := th.rest[1..], fid := Some(entries[i])))
        else Finish(s, t, if th.rest[1..] != [] then Failed else Found(None, Some(entries[i])))
  }

  /** A call of udfread_file_open or udfread_opendir, or of udfread_opendir_at. */
  ghost function Start(s: State, t: nat, c: Choice): State
    requires t < |s.threads|
  {
    match c
    case StartPath(path, needFid) =>
      At(s, t, Thread(Loop, Path(path, needFid), ROOT, 0, Tokens(path), None, false, false))
    case StartChild(d, i) =>
      if !Published(s.heap, d) || i >= |s.heap.nodes[d].Entries()| then s
      else if !IsDirectory(s.heap.nodes[d].Entries()[i]) then Log(s, Returned(d, i, None, false, false))
      else At(s, t, Thread(TestSubdirs, Child, d, i, [], None, false, false))
    case _ => s
  }

  /** One step of thread t. */
  ghost function Step(image: Image, s: State, t: nat, c: Choice): State
    requires Inv(image, s) && t < |s.threads|
  {
    var th, h := s.threads[t], s.heap;
    assert ThreadOk(image, h, th) && HandsOk(h, t, th.pc);
    assert th.dir in h.home ==> ObjectOk(image, h, th.dir);
    match th.pc
    case Idle => Start(s, t, c)
    case Loop => Turn(s, t)
    case TestSubdirs => At(s, t, th.(pc := if h.nodes[th.dir].subdirs.None? then AllocArr else LoadSubdirs))
    case AllocArr =>
      if c.NoMemory? then Return(At(s, t, th.(troubled := true)), t, None)
      else At(s.(heap := NewArray(h, t, |h.nodes[th.dir].Entries()|)), t, th.(pc := CasArr(h.next)))
    case CasArr(a) =>
      if h.nodes[th.dir].subdirs.None? then At(s.(heap := PublishArray(h, th.dir, a)), t, th.(pc := LoadSubdirs))
      else At(s, t, th.(pc := FreeArr(a)))
    case FreeArr(a) => At(s.(heap := FreeArray(h, a)), t, th.(pc := LoadSubdirs))
    case LoadSubdirs => At(s, t, th.(pc := TestSlot(h.nodes[th.dir].subdirs.value)))
    case TestSlot(a) => At(s, t, th.(pc := if h.arrays[a][th.index].None? then AllocNode else LoadSubdirs3))
    case AllocNode =>
      if c.NoMemory? then Return(At(s, t, th.(troubled := true)), t, None)
      else At(s.(heap := NewNode(h, t)), t, th.(pc := ReadNode(h.next)))
    case ReadNode(n) =>
      var got := if c.ReadError? then DirRead(false, c.left) else image(TheEntry(h, th).icb);
      At(s.(heap := FillNode(h, n, got.files)), t,
         th.(pc := if got.ok then LoadSubdirs2(n) else DropFailed(n), troubled := th.troubled || c.ReadError?))
    case DropFailed(n) => Return(s.(heap := FreeNode(h, n)), t, None)
    case LoadSubdirs2(n) => At(s, t, th.(pc := CasSlot(h.nodes[th.dir].subdirs.value, n)))
    case CasSlot(a, n) =>
      if h.arrays[a][th.index].None?
      then At(s.(heap := PublishNode(h, a, th.index, n)), t, th.(pc := LoadSubdirs3, passed := true))
      else At(s, t, th.(pc := DropLoser(n), passed := true))
    case DropLoser(n) => At(s.(heap := FreeNode(h, n)), t, th.(pc := LoadSubdirs3))
    case LoadSubdirs3 => At(s, t, th.(pc := LoadSlot(h.nodes[th.dir].subdirs.value)))
    case LoadSlot(a) => Return(s, t, h.arrays[a][th.index])
  }
}
