/**
 A run in which a stale prev link closes a live page: a process is terminated after its predecessor
 in the task list was, and the store through its prev link lands in a page table of a third process.
 */
module StaleLinks {
  import opened Words
  import opened Memory
  import opened HeapTable
  import opened Paging
  import opened Windows
  import opened AddressSpace
  import opened ElfFormat
  import opened Steps
  import opened TaskLinks
  import opened Isolation
  import opened ClosedPages
  import opened LoadSteps
  import opened LinkedLoads
  import opened Lifecycle
  import opened Runs
  import M = Machine

  // -- A link stored over the entry of a data page ------------------------------------------------

  /** Who owns the page a writable entry leads to; a data page is mapped to itself. */
  lemma WritableEntryOwner(s: System, i: int, v: nat) returns (r: Role)
    requires Inv(s) && Alive(s, i) && v < PAGES && SpaceOK(s.words, s.processes[i].value)
    requires PageWritable(s.words, Directory(s.words, s.processes[i].value.root), v)
    ensures var f := View(s.words, Directory(s.words, s.processes[i].value.root))[v] / 4096;
            PageOf(s, i, r, f) && (r.Data? ==> f == v)
  {
    var p := s.processes[i].value;
    var view, ws := View(s.words, Directory(s.words, p.root)), ProcessWindows(p);
    IdentityNotWritable(v);
    var x :| 0 <= x < |ws| && Inside(ws[x], v);
    assert Sound(ws[x]);
    WritableInWindow(ws[x], v, view[v]);
    r := BackingRole(s, i, x, view[v] / 4096);
    if r.Data? {
      DataFrame(p, x, v);
    }
  }

  /** The role behind window x. */
  lemma BackingRole(s: System, i: int, x: int, f: int) returns (r: Role)
    requires Inv(s) && Alive(s, i) && 0 <= x < |ProcessWindows(s.processes[i].value)|
    requires Backs(ProcessWindows(s.processes[i].value)[x], f)
    ensures PageOf(s, i, r, f)
    ensures r.Data? ==> x > |ImageWindows(s.processes[i].value.image)|
  {
    var p := s.processes[i].value;
    var n := |ImageWindows(p.image)|;
    WindowAt(p, x);
    SlotCount(s, i);
    if x < n {
      ImageWindowBacks(p.image, f);
      WritableImageIsOwned(s, i, f);
      r := ImageMemory;
    } else if x == n {
      StackWindowBacks(s, i, f);
      r := Stack;
    } else {
      DataWindowBacks(s, i, x - n - 1, f);
      r := Data(x - n - 1);
    }
  }

  /** What window x of a process is: of its image, its stack, or an allocation. */
  lemma WindowAt(p: Process, x: int)
    requires 0 <= x < |ProcessWindows(p)|
    ensures var n, w := |ImageWindows(p.image)|, ProcessWindows(p)[x];
            if x < n then w == ImageWindows(p.image)[x]
            else if x == n then w == StackWindow(p.stack)
            else x - n - 1 < |p.allocations| && w == AllocationWindow(p.allocations[x - n - 1])
  {
  }

  lemma SlotCount(s: System, i: int)
    requires Inv(s) && Alive(s, i)
    ensures |s.processes[i].value.allocations| == MAX_ALLOCATIONS
  {
    assert ProcessOK(s.table, s.words, s.processes[i].value);
  }

  /** Data windows are identity windows. */
  lemma DataFrame(p: Process, x: int, v: nat)
    requires |ImageWindows(p.image)| < x < |ProcessWindows(p)| && Inside(ProcessWindows(p)[x], v)
    requires Sound(ProcessWindows(p)[x])
    ensures var w := ProcessWindows(p)[x];
            w.p + (v - w.v) < PAGES && w.flags < 4096 && Entry(w.p + (v - w.v), w.flags) / 4096 == v
  {
    assert ProcessWindows(p)[x] == AllocationWindow(p.allocations[x - |ImageWindows(p.image)| - 1]);
    EntryFrame(v, ProcessWindows(p)[x].flags);
  }

  /** A link in the entry of a live data page closes the page: no other entry leads to it writably. */
  lemma StoreClosesDataPage(s: System, j: int, k: nat, d: nat, b: nat, val: u32)
    requires Inv(s) && Alive(s, j) && k < ENTRIES && Holds(s, j, Tables(k + 1), b) && val % 4096 == 0
    requires PageOf(s, j, Data(d), k * 1024 + NEXT)
    ensures b < HEAP_BLOCKS && CanWrite(s, j, k * 1024 + NEXT)
    ensures var s' := s.(words := WithNext(s.words, b, val));
            !CanWrite(s', j, k * 1024 + NEXT) && PageOf(s', j, Data(d), k * 1024 + NEXT) && !Inv(s')
  {
    var p, f := s.processes[j].value, k * 1024 + NEXT;
    assert ProcessOK(s.table, s.words, p);
    HeldExtent(s, j, Tables(k + 1), b);
    StoredInTable(s.words, p.root, k, b, val);
    SameDirectorySameSpace(s.words, WithNext(s.words, b, val), p.root);
    DataPageIsWritable(s, j, d, f);
    DataPageCloses(s, j, k, d, b, val);
    DataPageTouched(s, j, d, f);
    StoreKeepsProcessIff(s.table, s.words, p, b, val);
    assert M.SpaceBlocks(s.words, p.root)[k + 1] == b;
  }

  /** No entry but that of page f itself leads writably to data page f. */
  lemma OnlyItsOwnEntry(s: System, j: int, d: nat, f: nat)
    requires Inv(s) && Alive(s, j) && PageOf(s, j, Data(d), f) && SpaceOK(s.words, s.processes[j].value)
    ensures var dir := Directory(s.words, s.processes[j].value.root);
            forall v: nat :: v < PAGES && PageWritable(s.words, dir, v) && View(s.words, dir)[v] / 4096 == f ==> v == f
  {
    var dir := Directory(s.words, s.processes[j].value.root);
    forall v: nat | v < PAGES && PageWritable(s.words, dir, v) && View(s.words, dir)[v] / 4096 == f
      ensures v == f
    {
      var r := WritableEntryOwner(s, j, v);
      DifferentClaimsDifferentPages(s, j, r, j, Data(d), f);
    }
  }

  lemma DataPageCloses(s: System, j: int, k: nat, d: nat, b: nat, val: u32)
    requires Inv(s) && Alive(s, j) && k < ENTRIES && b < HEAP_BLOCKS && Holds(s, j, Tables(k + 1), b) && val % 4096 == 0
    requires PageOf(s, j, Data(d), k * 1024 + NEXT) && SpaceOK(s.words, s.processes[j].value)
    ensures !CanWrite(s.(words := WithNext(s.words, b, val)), j, k * 1024 + NEXT)
  {
    var f := k * 1024 + NEXT;
    WritesAfterStore(s, b, val, j, f);
    OnlyItsOwnEntry(s, j, d, f);
    assert f / 1024 == k && f % 1024 == NEXT;
  }

  lemma DataPageTouched(s: System, j: int, d: nat, f: nat)
    requires Inv(s) && Alive(s, j) && PageOf(s, j, Data(d), f)
    ensures !Untouched(ProcessWindows(s.processes[j].value), f)
  {
    var p := s.processes[j].value;
    assert ProcessOK(s.table, s.words, p);
    var b: nat :| Holds(s, j, Data(d), b) && InExtent(b, BlocksFor(Size(p, Data(d))), f);
    DataWindowBacks(s, j, d, f);
    assert ProcessWindows(p)[|ImageWindows(p.image)| + 1 + d] == AllocationWindow(p.allocations[d]);
    assert Inside(ProcessWindows(p)[|ImageWindows(p.image)| + 1 + d], f);
  }

  // -- What the steps of one process leave of another --------------------------------------------

  /** Process j stands as it did: its record, its claims, and its prev link. */
  ghost predicate Stands(s: System, s': System, j: int) {
    && Alive(s, j) && Alive(s', j) && s'.processes[j] == s.processes[j]
    && (forall r, b :: Holds(s', j, r, b) <==> Holds(s, j, r, b))
    && var task := s.processes[j].value.task;
    && TaskLinked(s.words, task) && TaskLinked(s'.words, task) && PrevOf(s'.words, task) == PrevOf(s.words, task)
  }

  ghost predicate SameNext(s: System, s': System, j: int)
    requires Stands(s, s', j)
  {
    NextOf(s'.words, s.processes[j].value.task) == NextOf(s.words, s.processes[j].value.task)
  }

  /** Blocks written off the task of j leave its links. */
  lemma LinksStay(s: System, w: seq<u32>, j: int, blocks: set<int>)
    requires Inv(s) && Linked(s) && Alive(s, j) && M.OnlyBlocksChanged(s.words, w, blocks)
    requires AddressToBlock(s.processes[j].value.task) !in blocks
    ensures var task := s.processes[j].value.task;
            TaskLinked(w, task) && PrevOf(w, task) == PrevOf(s.words, task) && NextOf(w, task) == NextOf(s.words, task)
  {
    TaskPlace(s, j);
    LinksInBlock(s.words, w, s.processes[j].value.task, blocks);
  }

  /** A store through a link that keeps a process in order keeps its tables where they are. */
  lemma StoreKeepsClaims(s: System, b: nat, val: u32, j: int)
    requires Inv(s) && b < HEAP_BLOCKS && val % 4096 == 0 && Alive(s, j)
    requires Inv(s.(words := WithNext(s.words, b, val)))
    ensures forall r, c :: Holds(s.(words := WithNext(s.words, b, val)), j, r, c) <==> Holds(s, j, r, c)
  {
    var s' := s.(words := WithNext(s.words, b, val));
    InvAt(s, j);
    InvAt(s', j);
    StoreKeepsStarts(s.table, s.words, s.processes[j].value, b, val);
    SameClaims(s, s', j);
  }

  /** A store through a link that is not null goes to the block it leads to. */
  lemma LinkIsBlock(w: seq<u32>, a: u32, val: u32)
    requires IsMemory(w) && IsLink(a) && a != 0
    ensures InMemory(a) && AddressToBlock(a) < HEAP_BLOCKS
    ensures StoreNext(w, a, val) == WithNext(w, AddressToBlock(a), val)
  {
    LinkPlace(a);
  }

  lemma SameClaims(s: System, s': System, j: int)
    requires Alive(s, j) && Alive(s', j) && s'.processes[j] == s.processes[j]
    requires var p := s.processes[j].value;
             && M.InHeap(s.words, p.root) && M.InHeap(s'.words, p.root)
             && forall r :: Live(p, r) ==> Start(s'.words, p, r) == Start(s.words, p, r)
    ensures forall r, b :: Holds(s', j, r, b) <==> Holds(s, j, r, b)
  {
  }

  lemma InvAt(s: System, j: int)
    requires Inv(s) && Alive(s, j)
    ensures ProcessOK(s.table, s.words, s.processes[j].value) && M.InHeap(s.words, s.processes[j].value.root)
  {
  }

  lemma StoreKeepsStarts(t: seq<bv8>, w: seq<u32>, p: Process, b: nat, val: u32)
    requires b < HEAP_BLOCKS && val % 4096 == 0 && ProcessOK(t, w, p) && ProcessOK(t, WithNext(w, b, val), p)
    ensures forall r :: Live(p, r) ==> Start(WithNext(w, b, val), p, r) == Start(w, p, r)
  {
    StoreKeepsProcessIff(t, w, p, b, val);
  }

  /** Only the record the store goes to gets another next link. */
  lemma StoreSetsNext(w: seq<u32>, task: u32, a: u32, val: u32)
    requires IsMemory(w) && InMemory(task) && InMemory(a) && task % 4096 == 0 && a % 4096 == 0
    ensures var w' := StoreNext(w, a, val);
            && PrevOf(w', task) == PrevOf(w, task)
            && NextOf(w', task) == if task == a then val else NextOf(w, task)
  {
    PageWords(task);
    PageWords(a);
  }

  lemma PageWords(a: u32)
    requires a % 4096 == 0
    ensures a / 4 == a / 4096 * 1024 && a == a / 4096 * 4096
  {
  }

  lemma PlaceStands(s: System, i: int, program: Program, file: seq<byte>, leaked: set<nat>, p: Process, s': System,
                    j: int)
    requires Consistent(s) && ProgramFits(program, |file|) && PlaceStep(s, i, program, file, leaked, p, s')
    requires Alive(s, j)
    ensures Stands(s, s', j) && SameNext(s, s', j)
  {
    PlaceKeepsInv(s, i, program, file, leaked, p, s');
    TaskPlace(s, j);
    LiveBlockNotFree(s.table, AddressToBlock(s.processes[j].value.task));
    LinksStay(s, s'.words, j, FreeBlocks(s.table));
  }

  /** The tail leads to a block in use, or nowhere. */
  ghost predicate LoadsBeside(s: System, program: Program, file: seq<byte>) {
    && Consistent(s) && ProgramFits(program, |file|)
    && s.list.head != 0 && TailStands(s.table, s.list.tail)
  }

  /** A load behind such a tail is a load without the link, and the link. */
  lemma LoadBeside(s: System, i: int, program: Program, file: seq<byte>, leaked: set<nat>, p: Process, s': System)
      returns (s1: System)
    requires LoadsBeside(s, program, file) && LoadStep(s, i, program, file, leaked, p, s')
    ensures PlaceStep(s, i, program, file, leaked, p, s1) && IsLink(p.task)
    ensures InMemory(s.list.tail) && IsMemory(s1.words) && IsMemory(s'.words)
    ensures s' == s1.(words := StoreNext(s1.words, s.list.tail, p.task))
    ensures InMemory(p.task) && PrevOf(s'.words, p.task) == s.list.tail
    ensures NextOf(s'.words, p.task) == if s.list.tail == p.task then p.task else 0
    ensures SparesNew(s.table, p, s.list.tail)
  {
    FittingProgramMaps(program, |file|);
    StandingTailSparesNew(s.table, p, s.list.tail);
    s1 := LoadIsPlaced(s, i, program, file, leaked, p, s');
  }

  lemma LiveTailStands(s: System, j: int)
    requires Inv(s) && Alive(s, j) && s.list.tail == s.processes[j].value.task
    ensures TailStands(s.table, s.list.tail)
  {
    NullOrLiveStands(s, s.list.tail);
  }

  /** A load behind a live tail. */
  lemma LoadStands(s: System, i: int, program: Program, file: seq<byte>, leaked: set<nat>, p: Process, s': System,
                   j: int)
    requires Consistent(s) && ProgramFits(program, |file|) && LoadStep(s, i, program, file, leaked, p, s')
    requires Alive(s, j) && s.list.head != 0 && s.list.tail == s.processes[j].value.task
    ensures Consistent(s') && Stands(s, s', j) && NextOf(s'.words, s.processes[j].value.task) == p.task
    ensures PrevOf(s'.words, p.task) == s.list.tail && (s.list.tail != p.task ==> NextOf(s'.words, p.task) == 0)
    ensures SparesNew(s.table, p, s.list.tail)
  {
    LiveTailStands(s, j);
    var s1 := LoadBeside(s, i, program, file, leaked, p, s');
    LoadStaysConsistent(s, i, program, file, leaked, p, s', j);
    PlaceKeepsInv(s, i, program, file, leaked, p, s1);
    PlaceStands(s, i, program, file, leaked, p, s1, j);
    TailStored(s1, j, s.list.tail, p.task);
  }

  lemma LoadStaysConsistent(s: System, i: int, program: Program, file: seq<byte>, leaked: set<nat>, p: Process,
                            s': System, j: int)
    requires LoadsBeside(s, program, file) && LoadStep(s, i, program, file, leaked, p, s')
    requires Alive(s, j) && s.list.tail == s.processes[j].value.task && SparesNew(s.table, p, s.list.tail)
    ensures Consistent(s')
  {
    FittingProgramMaps(program, |file|);
    LiveTaskSpares(s, i, j, p.task);
    LoadKeepsInvIff(s, i, program, file, leaked, p, s');
    LoadKeepsLinks(s, i, program, file, leaked, p, s');
  }

  /** The store through the link to j's own task. */
  lemma TailStored(s: System, j: int, tail: u32, val: u32)
    requires Inv(s) && Alive(s, j) && tail == s.processes[j].value.task && IsLink(val)
    requires TaskLinked(s.words, tail) && Inv(s.(words := StoreNext(s.words, tail, val)))
    ensures var s' := s.(words := StoreNext(s.words, tail, val));
            Stands(s, s', j) && NextOf(s'.words, tail) == val
  {
    TaskPlace(s, j);
    LinkIsBlock(s.words, tail, val);
    StoreKeepsClaims(s, AddressToBlock(tail), val, j);
    StoreSetsNext(s.words, tail, tail, val);
  }

  /** The claims and the links of another process through a release. */
  lemma ReleaseStands(s: System, i: int, s': System, j: int)
    requires Consistent(s) && ReleaseStep(s, i, s') && Alive(s, j) && j != i
    ensures Stands(s, s', j) && SameNext(s, s', j)
  {
    ReleaseKeepsInv(s, i, s');
    TasksOffSpace(s, i, {});
    LinksStay(s, s'.words, j, SpaceSet(s.words, s.processes[i].value.root));
  }

  // -- Terminating a process whose predecessor is gone -------------------------------------------

  /** The prev link of process i leads to the page table of process j that maps the data page over its word. */
  ghost predicate PrevIsTable(s: System, i: int, j: int, k: nat, d: nat) {
    && Alive(s, i) && Alive(s, j) && i != j && k < ENTRIES && TaskLinked(s.words, s.processes[i].value.task)
    && var prev := PrevOf(s.words, s.processes[i].value.task);
    && prev != 0 && Holds(s, j, Tables(k + 1), AddressToBlock(prev))
    && PageOf(s, j, Data(d), k * 1024 + NEXT)
  }

  /** Such a termination takes a live data page from a process that has nothing to do with it. */
  lemma TerminateClosesDataPage(s: System, i: int, j: int, k: nat, d: nat, s': System)
    requires Consistent(s) && TerminateStep(s, i, s') && PrevIsTable(s, i, j, k, d)
    ensures CanWrite(s, j, k * 1024 + NEXT) && !CanWrite(s', j, k * 1024 + NEXT)
    ensures PageOf(s', j, Data(d), k * 1024 + NEXT) && !Inv(s') && !PrevSpares(s, i)
  {
    TerminateStoresInTable(s, i, j, k, d, s');
    TerminateKeepsInvIff(s, i, s');
    DataPageIsWritable(s, j, d, k * 1024 + NEXT);
  }

  lemma TerminateStoresInTable(s: System, i: int, j: int, k: nat, d: nat, s': System)
    requires Consistent(s) && TerminateStep(s, i, s') && PrevIsTable(s, i, j, k, d)
    ensures !CanWrite(s', j, k * 1024 + NEXT) && PageOf(s', j, Data(d), k * 1024 + NEXT) && !Inv(s')
  {
    var task := s.processes[i].value.task;
    var prev := PrevOf(s.words, task);
    var s1 := TerminateParts(s, i, s');
    ReleaseKeepsTable(s, i, j, k, d, s1);
    StoreThroughLink(s1, j, k, d, prev, NextOf(s.words, task));
  }

  /** A termination is a release and a store through prev. */
  lemma TerminateParts(s: System, i: int, s': System) returns (s1: System)
    requires TerminateStep(s, i, s') && PrevOf(s.words, s.processes[i].value.task) != 0
    ensures var task := s.processes[i].value.task;
            var prev := PrevOf(s.words, task);
            ReleaseStep(s, i, s1) && InMemory(prev) && IsMemory(s1.words)
            && s' == s1.(words := StoreNext(s1.words, prev, NextOf(s.words, task)))
  {
    var prev := PrevOf(s.words, s.processes[i].value.task);
    s1 := Unstored(s, prev, s');
    UnstoredBack(s, prev, s');
  }

  /** So does a load whose tail has been freed and become such a table. */
  lemma LoadClosesDataPage(s: System, i: int, program: Program, file: seq<byte>, leaked: set<nat>, p: Process,
                           s': System, j: int, k: nat, d: nat)
    requires Consistent(s) && ProgramFits(program, |file|) && LoadStep(s, i, program, file, leaked, p, s')
    requires s.list.head != 0 && s.list.tail != 0 && k < ENTRIES
    requires Holds(s, j, Tables(k + 1), AddressToBlock(s.list.tail)) && PageOf(s, j, Data(d), k * 1024 + NEXT)
    ensures CanWrite(s, j, k * 1024 + NEXT) && !CanWrite(s', j, k * 1024 + NEXT)
    ensures PageOf(s', j, Data(d), k * 1024 + NEXT) && !Inv(s')
  {
    HeldTailStands(s, j, Tables(k + 1));
    var s1 := LoadBeside(s, i, program, file, leaked, p, s');
    PlaceKeepsInv(s, i, program, file, leaked, p, s1);
    PageStays(s, s1, j, Data(d), k * 1024 + NEXT);
    StoreThroughLink(s1, j, k, d, s.list.tail, p.task);
    DataPageIsWritable(s, j, d, k * 1024 + NEXT);
  }

  lemma HeldTailStands(s: System, j: int, r: Role)
    requires Inv(s) && IsLink(s.list.tail) && Holds(s, j, r, AddressToBlock(s.list.tail))
    ensures TailStands(s.table, s.list.tail)
  {
    HeldExtent(s, j, r, AddressToBlock(s.list.tail));
    LiveBlockNotFree(s.table, AddressToBlock(s.list.tail));
  }

  lemma DataPageIsWritable(s: System, j: int, d: nat, f: nat)
    requires Inv(s) && Alive(s, j) && PageOf(s, j, Data(d), f)
    ensures CanWrite(s, j, f)
  {
    WritableIsExactlyOwned(s, j, f);
  }

  lemma ReleaseKeepsTable(s: System, i: int, j: int, k: nat, d: nat, s1: System)
    requires Consistent(s) && ReleaseStep(s, i, s1) && PrevIsTable(s, i, j, k, d)
    ensures Inv(s1) && Holds(s1, j, Tables(k + 1), AddressToBlock(PrevOf(s.words, s.processes[i].value.task)))
    ensures PageOf(s1, j, Data(d), k * 1024 + NEXT)
  {
    ReleaseKeepsInv(s, i, s1);
    PageStays(s, s1, j, Data(d), k * 1024 + NEXT);
  }

  lemma StoreThroughLink(s: System, j: int, k: nat, d: nat, a: u32, val: u32)
    requires Inv(s) && IsLink(a) && a != 0 && k < ENTRIES && IsLink(val)
    requires Holds(s, j, Tables(k + 1), AddressToBlock(a)) && PageOf(s, j, Data(d), k * 1024 + NEXT)
    ensures InMemory(a)
    ensures var s' := s.(words := StoreNext(s.words, a, val));
            !CanWrite(s', j, k * 1024 + NEXT) && PageOf(s', j, Data(d), k * 1024 + NEXT) && !Inv(s')
  {
    LinkIsBlock(s.words, a, val);
    StoreClosesDataPage(s, j, k, d, AddressToBlock(a), val);
  }

  lemma PageStays(s: System, s': System, j: int, r: Role, f: int)
    requires PageOf(s, j, r, f) && Alive(s', j) && s'.processes[j] == s.processes[j]
    requires forall b :: Holds(s', j, r, b) <==> Holds(s, j, r, b)
    ensures PageOf(s', j, r, f)
  {
  }

  // -- A run that gets there ---------------------------------------------------------------------

  /** The fixed extents of process i are consecutive blocks from g on, its file's blocks n of them. */
  ghost predicate Sits(s: System, i: int, g: nat, n: nat) {
    && Alive(s, i) && s.processes[i].value.image.Elf? && BlocksFor(s.processes[i].value.image.size) == n
    && forall r :: Live(s.processes[i].value, r) && !r.Data? ==>
         Holds(s, i, r, g + Offset(s.processes[i].value.image, r))
  }

  /** Process i is the whole list. */
  ghost predicate OnlyTask(s: System, i: int) {
    && Alive(s, i) && TaskLinked(s.words, s.processes[i].value.task)
    && var task := s.processes[i].value.task;
    && s.list == TaskList(task, task, task) && NextOf(s.words, task) == 0
  }

  /** A is loaded, on the first blocks of the heap. */
  ghost predicate FirstLoaded(s: System) {
    && Consistent(s) && Sits(s, 0, 0, 11) && OnlyTask(s, 0) && PrevOf(s.words, s.processes[0].value.task) == 0
  }

  /** B is loaded behind A. */
  ghost predicate SecondLoaded(s: System) {
    && Consistent(s) && Sits(s, 0, 0, 11) && Alive(s, 1)
    && var a, b := s.processes[0].value.task, s.processes[1].value.task;
    && TaskLinked(s.words, a) && TaskLinked(s.words, b) && a != b
    && s.list == TaskList(a, b, a)
    && PrevOf(s.words, a) == 0 && NextOf(s.words, a) == b
    && PrevOf(s.words, b) == BlockToAddress(19) && NextOf(s.words, b) == 0
  }

  /** A is gone, and with it all of its blocks but those of its record; B still leads back to it. */
  ghost predicate FirstGone(s: System) {
    && Consistent(s) && OnlyTask(s, 1) && PrevOf(s.words, s.processes[1].value.task) == BlockToAddress(19)
    && Gap(s.table, 3, 1046)
  }

  /** D is loaded where A was. Its page table 5 is on the block that was A's task. */
  ghost predicate ThirdLoaded(s: System) {
    && Consistent(s) && Alive(s, 1) && Sits(s, 2, 3, 1) && NoAllocations(s.processes[2].value)
    && TaskLinked(s.words, s.processes[1].value.task)
    && PrevOf(s.words, s.processes[1].value.task) == BlockToAddress(19)
    && Gap(s.table, 1039, 1046)
  }

  /** Any ELF program that fits and whose file takes n blocks. */
  ghost predicate LoadsElf(e: Event, i: int, n: nat) {
    && e.Load? && e.slot == i && e.program.ElfProgram? && ProgramFits(e.program, |e.file|)
    && BlocksFor(|e.file|) == n
  }

  ghost predicate MallocsPage(e: Event, i: int) {
    e.Malloc? && e.slot == i && e.size == 0x1000
  }

  lemma FirstLoads(s: System, e: Event, s': System)
    requires Initial(s) && LoadsElf(e, 0, 11) && Does(s, e, s')
    ensures FirstLoaded(s') && Gap(s'.table, 1046, HEAP_BLOCKS)
  {
    InitialInv(s);
    FittingProgramMaps(e.program, |e.file|);
    var s1 := LoadIsPlaced(s, 0, e.program, e.file, e.leaked, e.p, s');
    LoadKeepsInvIff(s, 0, e.program, e.file, e.leaked, e.p, s');
    LoadKeepsLinks(s, 0, e.program, e.file, e.leaked, e.p, s');
    LoadSits(s, 0, e.program, e.file, e.leaked, e.p, s', 0, HEAP_BLOCKS);
  }

  /** A load into a first gap with room for it. */
  lemma LoadSits(s: System, i: int, program: Program, file: seq<byte>, leaked: set<nat>, p: Process, s': System,
                 g: nat, top: nat)
    requires Consistent(s) && program.ElfProgram? && ProgramMaps(program, |file|)
    requires LoadStep(s, i, program, file, leaked, p, s')
    requires s.list.head == 0 || SparesNew(s.table, p, s.list.tail)
    requires Gap(s.table, g, top) && g + BlocksFor(|file|) + 1035 <= top
    ensures Sits(s', i, g, BlocksFor(|file|)) && Gap(s'.table, g + BlocksFor(|file|) + 1035, top)
    ensures s'.processes[i].value == p && NoAllocations(p)
  {
    LoadEnds(s, i, program, file, leaked, p, s');
    LoadsItsFile(s, i, program, file, leaked, p, s');
    NewSits(s.table, s', i, p, g, top);
  }

  lemma LoadsItsFile(s: System, i: int, program: Program, file: seq<byte>, leaked: set<nat>, p: Process, s': System)
    requires program.ElfProgram? && LoadStep(s, i, program, file, leaked, p, s') && |file| <= 0xFFFF_F000
    ensures Alive(s', i) && s'.processes[i].value == p && p.image.Elf? && p.image.size == |file| && NoAllocations(p)
    ensures LoadBlocks(p.image) == BlocksFor(|file|) + 1035
  {
    LoadedImage(s.table, s.words, s.list, program, file, leaked, p, s'.table, s'.words);
    ElfBlocks(p.image);
  }

  lemma ElfBlocks(image: Image)
    requires image.Elf?
    ensures LoadBlocks(image) == BlocksFor(image.size) + 1035
  {
  }

  lemma NewSits(t0: seq<bv8>, s: System, i: int, p: Process, g: nat, top: nat)
    requires Alive(s, i) && s.processes[i].value == p && p.image.Elf? && M.InHeap(s.words, p.root)
    requires PlacedInGap(t0, s.table, s.words, p)
    requires Gap(t0, g, top) && g + LoadBlocks(p.image) <= top
    ensures Sits(s, i, g, BlocksFor(p.image.size)) && Gap(s.table, g + LoadBlocks(p.image), top)
  {
    forall r | Live(p, r) && !r.Data?
      ensures Holds(s, i, r, g + Offset(p.image, r))
    {
    }
  }

  lemma SecondLoads(s: System, e: Event, s': System)
    requires FirstLoaded(s) && e.Load? && e.slot == 1 && ProgramFits(e.program, |e.file|) && Does(s, e, s')
    ensures SecondLoaded(s')
  {
    TaskPlace(s, 0);
    LoadStands(s, 1, e.program, e.file, e.leaked, e.p, s', 0);
    TaskPlace(s', 0);
    TaskPlace(s', 1);
    TasksDiffer(s', 0, 1);
    assert Holds(s', 0, Task, 19);
    HeldExtent(s', 0, Task, 19);
  }

  lemma TasksDiffer(s: System, i: int, j: int)
    requires Inv(s) && Alive(s, i) && Alive(s, j) && i != j
    ensures s.processes[i].value.task != s.processes[j].value.task
  {
    TaskPlace(s, i);
    TaskPlace(s, j);
  }

  lemma FirstGoes(s: System, s': System)
    requires SecondLoaded(s) && TerminateStep(s, 0, s')
    ensures FirstGone(s')
  {
    TerminateKeepsInvIff(s, 0, s');
    TerminateKeepsLinks(s, 0, s');
    ReleaseStands(s, 0, s', 1);
    ReleasedGap(s, s');
  }

  /** The blocks of A from its ELF record on are free; its process record stays. */
  lemma ReleasedGap(s: System, s': System)
    requires Inv(s) && Sits(s, 0, 0, 11) && ReleaseStep(s, 0, s')
    ensures Gap(s'.table, 3, 1046)
  {
    forall x: nat | 3 <= x < 1046
      ensures IsFree(s'.table[x])
    {
      BlockReleased(s, s', x);
    }
    forall x: nat | x < 3
      ensures !IsFree(s'.table[x])
    {
      RecordStays(s, s', x);
    }
  }

  /** The role whose extent covers block x. */
  function RoleAt(x: nat): Role
    requires 3 <= x < 1046
  {
    if x == 3 then ElfRecord
    else if x < 15 then ImageMemory
    else if x < 19 then Stack
    else if x == 19 then Task
    else Tables(x - 20)
  }

  lemma RoleCovers(s: System, x: nat)
    requires Inv(s) && Sits(s, 0, 0, 11) && 3 <= x < 1046
    ensures var r := RoleAt(x);
            var b := Offset(s.processes[0].value.image, r);
            && r != Self && Holds(s, 0, r, b)
            && b in Decode(s.table) && b <= x < b + Decode(s.table)[b]
  {
    var r := RoleAt(x);
    var p := s.processes[0].value;
    assert Live(p, r) && Holds(s, 0, r, Offset(p.image, r));
    HeldExtent(s, 0, r, Offset(p.image, r));
    assert BlocksFor(STACK_SIZE) == 4;
  }

  lemma BlockReleased(s: System, s': System, x: nat)
    requires Inv(s) && Sits(s, 0, 0, 11) && ReleaseStep(s, 0, s') && 3 <= x < 1046
    ensures IsFree(s'.table[x])
  {
    RoleCovers(s, x);
    var b := Offset(s.processes[0].value.image, RoleAt(x));
    assert GivenBack(s, 0, b);
    WellFormedRepresents(s'.table);
    FreeMeansUncovered(s'.table, Decode(s'.table), x);
    if Covered(Decode(s'.table), x) {
      var c: nat :| Covers(Decode(s'.table), c, x);
      ExtentsShareBlock(s.table, b, c, x);
    }
  }

  lemma RecordStays(s: System, s': System, x: nat)
    requires Inv(s) && Sits(s, 0, 0, 11) && ReleaseStep(s, 0, s') && x < 3
    ensures !IsFree(s'.table[x])
  {
    RecordNotGiven(s);
    WellFormedRepresents(s'.table);
    assert Covers(Decode(s'.table), 0, x);
    FreeMeansUncovered(s'.table, Decode(s'.table), x);
  }

  lemma RecordNotGiven(s: System)
    requires Inv(s) && Sits(s, 0, 0, 11)
    ensures 0 in Decode(s.table) && Decode(s.table)[0] == 3 && !GivenBack(s, 0, 0)
  {
    assert Live(s.processes[0].value, Self) && Holds(s, 0, Self, 0);
    HeldExtent(s, 0, Self, 0);
    assert BlocksFor(PROCESS_BYTES) == 3;
  }

  lemma ThirdLoads(s: System, e: Event, s': System)
    requires FirstGone(s) && LoadsElf(e, 2, 1) && Does(s, e, s')
    ensures ThirdLoaded(s')
  {
    TaskPlace(s, 1);
    FittingProgramMaps(e.program, |e.file|);
    LoadStands(s, 2, e.program, e.file, e.leaked, e.p, s', 1);
    LoadSits(s, 2, e.program, e.file, e.leaked, e.p, s', 3, 1046);
  }

  lemma ThirdMallocs(s: System, e: Event, s': System)
    requires ThirdLoaded(s) && MallocsPage(e, 2) && Does(s, e, s')
    ensures Consistent(s') && PrevIsTable(s', 1, 2, 5, 0)
  {
    PageMalloced(s, e.result, s');
  }

  lemma PageMalloced(s: System, ptr: u32, s': System)
    requires ThirdLoaded(s) && CanMalloc(s, 2, 0x1000) && MallocStep(s, 2, 0x1000, ptr, s')
    ensures Consistent(s') && PrevIsTable(s', 1, 2, 5, 0)
  {
    MallocKeepsInv(s, 2, 0x1000, ptr, s');
    MallocKeepsLinks(s, 2, 0x1000, ptr, s');
    FirstFitInGap(s.table, 1039, 1046, 1);
    assert BlocksFor(0x1000) == 1;
    var d, b := s.processes[2].value, s.processes[1].value.task;
    assert d.allocations[0] == Allocation(0, 0);
    AddressOfBlock(1039);
    AddressOfBlock(19);
    MallocLeavesLinks(s, 2, 0x1000, ptr, s', 1);
    assert Live(d, Tables(6)) && Holds(s, 2, Tables(6), 19);
    TablesStay(s, 2, 0x1000, ptr, s', 6, 19);
    assert Live(s'.processes[2].value, Data(0)) && Holds(s', 2, Data(0), 1039);
  }

  lemma MallocLeavesLinks(s: System, i: int, size: u32, ptr: u32, s': System, j: int)
    requires Consistent(s) && CanMalloc(s, i, size) && MallocStep(s, i, size, ptr, s') && Alive(s, j)
    ensures var task := s.processes[j].value.task;
            TaskLinked(s'.words, task) && PrevOf(s'.words, task) == PrevOf(s.words, task)
  {
    if s' != s {
      var n := BlocksFor(size);
      var b := FirstFit(s.table, n);
      assert ProcessOK(s.table, s.words, s.processes[i].value);
      TakeAddsExtent(s.table, b, n);
      TasksOffSpace(s, i, BlockRange(b, n));
      LinksStay(s, s'.words, j, BlockRange(b, n) + SpaceSet(s.words, s.processes[i].value.root));
    }
  }

  lemma TablesStay(s: System, i: int, size: u32, ptr: u32, s': System, k: nat, b: nat)
    requires Inv(s) && Inv(s') && CanMalloc(s, i, size) && MallocStep(s, i, size, ptr, s') && Holds(s, i, Tables(k), b)
    ensures Holds(s', i, Tables(k), b)
  {
    if s' != s {
      var root := s.processes[i].value.root;
      assert ProcessOK(s.table, s.words, s.processes[i].value);
      SameDirectorySameSpace(s.words, s'.words, root);
    }
  }

  /** Load A, load B, terminate A, load D, give D a page, terminate B. */
  ghost predicate StaleRun(events: seq<Event>) {
    && |events| == 6
    && LoadsElf(events[0], 0, 11)
    && events[1].Load? && events[1].slot == 1 && ProgramFits(events[1].program, |events[1].file|)
    && events[2] == Terminate(0)
    && LoadsElf(events[3], 2, 1)
    && MallocsPage(events[4], 2)
    && events[5] == Terminate(1)
  }

  /**
   From an empty heap, six calls suffice: five of them keep everything in order, and the last one
   takes from D the page it has just been given.
   */
  lemma StaleRunClosesPage(states: seq<System>, events: seq<Event>)
    requires IsTrace(states, events) && Initial(states[0]) && StaleRun(events)
    ensures forall k :: 0 <= k < 6 ==> Consistent(states[k])
    ensures CanWrite(states[5], 2, 5135) && !CanWrite(states[6], 2, 5135) && PageOf(states[6], 2, Data(0), 5135)
    ensures !Inv(states[6]) && !IsRun(states, events)
  {
    InitialInv(states[0]);
    StaleRunStarts(states, events);
    StaleRunEnds(states, events);
    BrokenIsNoRun(states, events, 6);
  }

  lemma BrokenIsNoRun(states: seq<System>, events: seq<Event>, k: nat)
    requires k < |states| == |events| + 1 && Consistent(states[0]) && !Inv(states[k])
    ensures !IsRun(states, events)
  {
    if IsRun(states, events) {
      RunKeepsInv(states, events, k);
    }
  }

  /** Step k of a trace, its ends named. */
  lemma StepIs(states: seq<System>, events: seq<Event>, k: nat, s: System, e: Event, s': System)
    requires IsTrace(states, events) && k < |events| && s == states[k] && e == events[k] && s' == states[k + 1]
    ensures Does(s, e, s')
  {
    TraceStep(states, events, k + 1);
  }

  lemma StaleRunStarts(states: seq<System>, events: seq<Event>)
    requires IsTrace(states, events) && Initial(states[0]) && StaleRun(events)
    ensures Consistent(states[1]) && Consistent(states[2]) && FirstGone(states[3])
  {
    FirstCall(states, events);
    SecondCall(states, events);
    ThirdCall(states, events);
  }

  lemma StaleRunEnds(states: seq<System>, events: seq<Event>)
    requires IsTrace(states, events) && StaleRun(events) && FirstGone(states[3])
    ensures Consistent(states[4]) && Consistent(states[5]) && !Inv(states[6])
    ensures CanWrite(states[5], 2, 5135) && !CanWrite(states[6], 2, 5135) && PageOf(states[6], 2, Data(0), 5135)
  {
    FourthCall(states, events);
    FifthCall(states, events);
    SixthCall(states, events);
  }

  lemma FirstCall(states: seq<System>, events: seq<Event>)
    requires IsTrace(states, events) && Initial(states[0]) && StaleRun(events)
    ensures FirstLoaded(states[1])
  {
    StepIs(states, events, 0, states[0], events[0], states[1]);
    FirstLoads(states[0], events[0], states[1]);
  }

  lemma SecondCall(states: seq<System>, events: seq<Event>)
    requires IsTrace(states, events) && StaleRun(events) && FirstLoaded(states[1])
    ensures SecondLoaded(states[2])
  {
    StepIs(states, events, 1, states[1], events[1], states[2]);
    SecondLoads(states[1], events[1], states[2]);
  }

  lemma ThirdCall(states: seq<System>, events: seq<Event>)
    requires IsTrace(states, events) && StaleRun(events) && SecondLoaded(states[2])
    ensures FirstGone(states[3])
  {
    StepIs(states, events, 2, states[2], events[2], states[3]);
    FirstGoes(states[2], states[3]);
  }

  lemma FourthCall(states: seq<System>, events: seq<Event>)
    requires IsTrace(states, events) && StaleRun(events) && FirstGone(states[3])
    ensures ThirdLoaded(states[4])
  {
    StepIs(states, events, 3, states[3], events[3], states[4]);
    ThirdLoads(states[3], events[3], states[4]);
  }

  lemma FifthCall(states: seq<System>, events: seq<Event>)
    requires IsTrace(states, events) && StaleRun(events) && ThirdLoaded(states[4])
    ensures Consistent(states[5]) && PrevIsTable(states[5], 1, 2, 5, 0)
  {
    StepIs(states, events, 4, states[4], events[4], states[5]);
    ThirdMallocs(states[4], events[4], states[5]);
  }

  lemma SixthCall(states: seq<System>, events: seq<Event>)
    requires IsTrace(states, events) && StaleRun(events)
    requires Consistent(states[5]) && PrevIsTable(states[5], 1, 2, 5, 0)
    ensures CanWrite(states[5], 2, 5135) && !CanWrite(states[6], 2, 5135) && PageOf(states[6], 2, Data(0), 5135)
    ensures !Inv(states[6])
  {
    StepIs(states, events, 5, states[5], events[5], states[6]);
    TerminateClosesDataPage(states[5], 1, 2, 5, 0, states[6]);
  }
}
