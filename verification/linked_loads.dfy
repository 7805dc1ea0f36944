/**
 What is left of the task list's store after a load: the load without it, and the link in place, or,
 where a window of the new process has overwritten the link, the load alone.
 */
module LinkedLoads {
  import opened Words
  import opened Memory
  import opened HeapTable
  import opened Paging
  import opened Windows
  import opened AddressSpace
  import opened ElfFormat
  import opened Steps
  import opened TaskLinks
  import opened ImageLayout
  import opened StoredLinks
  import opened LoadSteps
  import M = Machine

  // -- The mapping alone -------------------------------------------------------------------------

  /** The blocks of a new process's space, and its task's, were free and are off its file. */
  lemma NewBlocks(t0: seq<bv8>, w0: seq<u32>, program: Program, file: seq<byte>, leaked: set<nat>, p: Process,
                  t: seq<bv8>, w: seq<u32>, r: Role)
    requires |t0| == HEAP_BLOCKS && WellFormed(t0) && 0 < |file| <= 0xFFFF_F000
    requires Placed(t0, w0, program, file, leaked, p, t, w) && Live(p, r) && r != ImageMemory
    ensures Start(w, p, r) in FreeBlocks(t0)
    ensures var b := Start(w, p, ImageMemory); !(b <= Start(w, p, r) < b + BlocksFor(|file|))
  {
    assert Owns(t, w, p, r) && Owns(t, w, p, ImageMemory);
    NewStartWasFree(t0, t, Start(w, p, r));
    RecordOffFile(t, w, p, r);
  }

  lemma SpaceIsNew(t0: seq<bv8>, w0: seq<u32>, program: Program, file: seq<byte>, leaked: set<nat>, p: Process,
                   t: seq<bv8>, w: seq<u32>)
    requires |t0| == HEAP_BLOCKS && WellFormed(t0) && 0 < |file| <= 0xFFFF_F000
    requires Placed(t0, w0, program, file, leaked, p, t, w)
    ensures SpaceSet(w, p.root) <= FreeBlocks(t0)
    ensures var b := Start(w, p, ImageMemory);
            forall x :: x in SpaceSet(w, p.root) ==> !(b <= x < b + BlocksFor(|file|))
  {
    forall x | x in SpaceSet(w, p.root)
      ensures x in FreeBlocks(t0)
      ensures var b := Start(w, p, ImageMemory); !(b <= x < b + BlocksFor(|file|))
    {
      var k: nat :| k < 1026 && M.SpaceBlocks(w, p.root)[k] == x;
      NewBlocks(t0, w0, program, file, leaked, p, t, w, Tables(k));
    }
  }

  /** Mapping a process placed in a fresh space loads it. */
  lemma MappedIsLoaded(t0: seq<bv8>, w0: seq<u32>, program: Program, file: seq<byte>, leaked: set<nat>, p: Process,
                       t: seq<bv8>, w: seq<u32>, z: seq<u32>)
    requires |t0| == HEAP_BLOCKS && WellFormed(t0) && ProgramMaps(program, |file|)
    requires Placed(t0, w0, program, file, leaked, p, t, w) && FreshSpace(w, p)
    requires MappedWindows(w, z, p.root, LoadWindows(p))
    ensures Loaded(t0, w0, program, file, leaked, p, t, z)
  {
    PlacedMappable(t0, w0, program, file, leaked, p, t, w);
    TablesInSpace(w, z, p.root);
    SameDirectorySameSpace(w, z, p.root);
    SpaceIsNew(t0, w0, program, file, leaked, p, t, w);
    PlacedKept(t0, w0, program, file, leaked, p, t, w, z, SpaceSet(w, p.root));
    MappedShows(w, z, p);
  }

  lemma MappedShows(w: seq<u32>, z: seq<u32>, p: Process)
    requires Mappable(p) && FreshSpace(w, p) && MappedWindows(w, z, p.root, LoadWindows(p))
    ensures SpaceOK(z, p) && OnlyThesePages(z, p)
  {
    SameDirectorySameSpace(w, z, p.root);
    LoadedView(View(w, Directory(w, p.root)), p);
  }

  // -- The stores of the task list ---------------------------------------------------------------

  /** Memory with the new task's prev stored, but not the tail's next. */
  function WithPrev(w: seq<u32>, task: u32, prev: u32): (r: seq<u32>)
    requires IsMemory(w) && InMemory(task)
    ensures IsMemory(r)
  {
    w[task / 4 + PREV := prev]
  }

  lemma TaskIsLink(t0: seq<bv8>, t: seq<bv8>, w: seq<u32>, p: Process)
    requires M.InHeap(w, p.root) && NewClaims(t0, t, w, p)
    ensures IsLink(p.task) && p.task != 0 && InMemory(p.task) && AddressToBlock(p.task) == Start(w, p, Task)
    ensures p.task / 4 == (M.FIRST_FRAME + Start(w, p, Task)) * 1024
  {
    assert Owns(t, w, p, Task);
    ClaimIsLink(t, w, p, Task);
    LinkPlace(p.task);
  }

  lemma TaskOffSpace(t0: seq<bv8>, t: seq<bv8>, w: seq<u32>, p: Process)
    requires M.InHeap(w, p.root) && NewClaims(t0, t, w, p)
    ensures SpaceAvoids(w, p.root, {Start(w, p, Task) as int})
  {
    forall k: nat | k < 1026
      ensures M.SpaceBlocks(w, p.root)[k] != Start(w, p, Task)
    {
      assert Live(p, Tables(k)) && Live(p, Task);
    }
  }

  /** The new task's own link disturbs nothing. */
  lemma PrevStored(t0: seq<bv8>, w0: seq<u32>, program: Program, file: seq<byte>, leaked: set<nat>, p: Process,
                   t: seq<bv8>, w: seq<u32>, prev: u32)
    requires |t0| == HEAP_BLOCKS && WellFormed(t0) && 0 < |file| <= 0xFFFF_F000
    requires Unmapped(t0, w0, program, file, leaked, p, t, w)
    ensures InMemory(p.task)
    ensures var wp := WithPrev(w, p.task, prev);
            Placed(t0, w0, program, file, leaked, p, t, wp) && FreshSpace(wp, p)
  {
    PrevOffSpace(t0, t, w, p, prev);
    NewBlocks(t0, w0, program, file, leaked, p, t, w, Task);
    PlacedKept(t0, w0, program, file, leaked, p, t, w, WithPrev(w, p.task, prev), {Start(w, p, Task) as int});
  }

  lemma PrevOffSpace(t0: seq<bv8>, t: seq<bv8>, w: seq<u32>, p: Process, prev: u32)
    requires FreshSpace(w, p) && NewClaims(t0, t, w, p)
    ensures InMemory(p.task)
    ensures var wp := WithPrev(w, p.task, prev);
            && M.OnlyBlocksChanged(w, wp, {Start(w, p, Task) as int})
            && FreshSpace(wp, p) && M.SpaceBlocks(wp, p.root) == M.SpaceBlocks(w, p.root)
  {
    TaskIsLink(t0, t, w, p);
    TaskOffSpace(t0, t, w, p);
    SpaceKept(w, WithPrev(w, p.task, prev), p.root, {Start(w, p, Task) as int});
  }

  /** The two stores, the new task's first: they go to different words. */
  lemma StoresInTurn(w: seq<u32>, list: TaskList, task: u32)
    requires IsMemory(w) && InMemory(list.tail) && InMemory(task) && IsLink(list.tail) && IsLink(task) && list.head != 0
    ensures AppendedWords(w, list, task) == WithPrev(w, task, list.tail)[list.tail / 4 + NEXT := task]
    ensures NextOf(WithPrev(w, task, list.tail), list.tail) == NextOf(w, list.tail)
  {
    LinkPlace(list.tail);
    LinkPlace(task);
  }

  /** Word NEXT of a block of the space, when the block is page table k. */
  lemma LinkInTable(w: seq<u32>, root: u32, a: u32, k: nat)
    requires SpaceWired(w, root) && M.InHeap(w, root) && IsLink(a) && k < ENTRIES
    requires M.SpaceBlocks(w, root)[k + 1] == AddressToBlock(a)
    ensures a / 4 + NEXT == EntryIndex(w, Directory(w, root), k * 1024 + NEXT)
  {
    LinkPlace(a);
    assert SpaceFrames(w, root)[k + 1] == TableFrame(w, Directory(w, root), k);
    assert (k * 1024 + NEXT) / 1024 == k && (k * 1024 + NEXT) % 1024 == NEXT;
  }

  /** And when it is neither the directory nor a table. */
  lemma LinkOffEntries(w: seq<u32>, root: u32, a: u32)
    requires SpaceWired(w, root) && M.InHeap(w, root) && IsLink(a)
    requires forall k: nat :: k < 1025 ==> M.SpaceBlocks(w, root)[k] != AddressToBlock(a)
    ensures OffEntries(w, root, a / 4 + NEXT)
  {
    LinkPlace(a);
    var x, frames := a / 4 + NEXT, SpaceFrames(w, root);
    assert x / 1024 == a / 4096;
    assert M.SpaceBlocks(w, root)[0] == frames[0] - M.FIRST_FRAME && frames[0] == Directory(w, root) / 4096;
    forall k: nat | k < ENTRIES
      ensures TableFrame(w, Directory(w, root), k) != x / 1024
    {
      assert M.SpaceBlocks(w, root)[k + 1] == frames[k + 1] - M.FIRST_FRAME;
      assert frames[k + 1] == TableFrame(w, Directory(w, root), k);
    }
    assert root % 4096 == 0;
  }

  /** What memory would be had the tail's link not been stored. */
  ghost function Unlinking(t0: seq<bv8>, w: seq<u32>, p: Process, a: u32, w2: seq<u32>): (z: seq<u32>)
    requires IsMemory(w) && IsMemory(w2) && InMemory(a)
    ensures IsMemory(z)
  {
    if Overwritten(t0, p, a) then w2 else StoreNext(w2, a, NextOf(w, a))
  }

  /** The mapping that has a link stored before it. */
  ghost predicate MappedOverLink(t0: seq<bv8>, w: seq<u32>, p: Process, a: u32, w2: seq<u32>) {
    && FreshSpace(w, p) && SpacePlaced(t0, w, p) && Mappable(p)
    && IsLink(a) && InMemory(a) && MappedWindows(w[a / 4 + NEXT := p.task], w2, p.root, LoadWindows(p))
  }

  lemma LinkCovered(t0: seq<bv8>, w: seq<u32>, p: Process, a: u32, k: nat, w2: seq<u32>)
    requires MappedOverLink(t0, w, p, a, w2) && OverTable(t0, p, a, k) && CoversLink(p, k)
    ensures MappedWindows(w, w2, p.root, LoadWindows(p))
  {
    LinkInTable(w, p.root, a, k);
    WindowsOf(p);
    StoreCovered(w, w2, p.root, LoadWindows(p), k * 1024 + NEXT, p.task);
  }

  lemma LinkUncovered(t0: seq<bv8>, w: seq<u32>, p: Process, a: u32, k: nat, w2: seq<u32>)
    requires MappedOverLink(t0, w, p, a, w2) && OverTable(t0, p, a, k) && !CoversLink(p, k)
    ensures IsMemory(w2) && NextOf(w2, a) == p.task
    ensures MappedWindows(w, StoreNext(w2, a, NextOf(w, a)), p.root, LoadWindows(p))
  {
    LinkInTable(w, p.root, a, k);
    WindowsOf(p);
    StoreUncovered(w, w2, p.root, LoadWindows(p), k * 1024 + NEXT, p.task);
  }

  lemma LinkBeside(t0: seq<bv8>, w: seq<u32>, p: Process, a: u32, w2: seq<u32>)
    requires MappedOverLink(t0, w, p, a, w2)
    requires !OverDirectory(t0, p, a) && forall k: nat :: !OverTable(t0, p, a, k)
    ensures IsMemory(w2) && NextOf(w2, a) == p.task
    ensures MappedWindows(w, StoreNext(w2, a, NextOf(w, a)), p.root, LoadWindows(p))
  {
    OtherLinkOffEntries(t0, w, p, a);
    StoreBeside(w, w2, p.root, LoadWindows(p), a / 4 + NEXT, p.task);
  }

  lemma LinkOffSpace(t0: seq<bv8>, w: seq<u32>, p: Process, a: u32)
    requires SpacePlaced(t0, w, p)
    requires !OverDirectory(t0, p, a) && forall k: nat :: !OverTable(t0, p, a, k)
    ensures forall k: nat :: k < 1025 ==> M.SpaceBlocks(w, p.root)[k] != AddressToBlock(a)
  {
    forall k: nat | k < 1025
      ensures M.SpaceBlocks(w, p.root)[k] != AddressToBlock(a)
    {
      assert k > 0 ==> !OverTable(t0, p, a, k - 1);
    }
  }

  /** The mapping of the load without the tail's link, and where that link is. */
  lemma MappedWithoutLink(t0: seq<bv8>, w: seq<u32>, p: Process, a: u32, w2: seq<u32>)
    requires MappedOverLink(t0, w, p, a, w2) && !OverDirectory(t0, p, a)
    ensures IsMemory(w2) && MappedWindows(w, Unlinking(t0, w, p, a, w2), p.root, LoadWindows(p))
    ensures !Overwritten(t0, p, a) ==> NextOf(w2, a) == p.task
  {
    if k: nat :| OverTable(t0, p, a, k) {
      OneTable(t0, w, p, a, k);
      if CoversLink(p, k) {
        LinkCovered(t0, w, p, a, k, w2);
      } else {
        LinkUncovered(t0, w, p, a, k, w2);
      }
    } else {
      LinkBeside(t0, w, p, a, w2);
    }
  }

  /** A block is at most one of the tables. */
  lemma OneTable(t0: seq<bv8>, w: seq<u32>, p: Process, a: u32, k: nat)
    requires SpaceWired(w, p.root) && SpacePlaced(t0, w, p) && OverTable(t0, p, a, k)
    ensures forall j: nat :: OverTable(t0, p, a, j) ==> j == k
  {
    M.SpaceBlocksDistinct(w, p.root);
  }

  // -- The whole load ----------------------------------------------------------------------------

  /** What a load comes to when the tail does not lead into its page directory. */
  ghost predicate LinkedLoad(t0: seq<bv8>, w0: seq<u32>, list: TaskList, program: Program, file: seq<byte>,
                             leaked: set<nat>, p: Process, t: seq<bv8>, w2: seq<u32>, z: seq<u32>) {
    && Loaded(t0, w0, program, file, leaked, p, t, z)
    && IsMemory(w2) && InMemory(list.tail) && InMemory(p.task)
    && (if list.head == 0 || Overwritten(t0, p, list.tail) then z == w2
        else w2 == StoreNext(z, list.tail, p.task))
    && PrevOf(w2, p.task) == (if list.head == 0 then 0 else list.tail)
    && NextOf(w2, p.task) == if list.head != 0 && list.tail == p.task then p.task else 0
  }

  lemma LoadIsLinked(t0: seq<bv8>, w0: seq<u32>, list: TaskList, program: Program, file: seq<byte>,
                     leaked: set<nat>, p: Process, t: seq<bv8>, w2: seq<u32>) returns (z: seq<u32>)
    requires |t0| == HEAP_BLOCKS && WellFormed(t0) && ProgramMaps(program, |file|) && IsLink(list.tail)
    requires LoadsTo(t0, w0, list, program, file, leaked, p, t, w2)
    requires list.head == 0 || !OverDirectory(t0, p, list.tail)
    ensures LinkedLoad(t0, w0, list, program, file, leaked, p, t, w2, z)
  {
    var w :| Unmapped(t0, w0, program, file, leaked, p, t, w) && LinkedAndMapped(w, list, p, w2);
    TaskIsLink(t0, t, w, p);
    if list.head == 0 {
      z := w2;
      MappedIsLoaded(t0, w0, program, file, leaked, p, t, w, z);
      TaskWordsKept(t0, t, w, z, p);
    } else {
      z := LoadPastLink(t0, w0, list, program, file, leaked, p, t, w, w2);
    }
  }

  lemma LoadPastLink(t0: seq<bv8>, w0: seq<u32>, list: TaskList, program: Program, file: seq<byte>,
                     leaked: set<nat>, p: Process, t: seq<bv8>, w: seq<u32>, w2: seq<u32>) returns (z: seq<u32>)
    requires |t0| == HEAP_BLOCKS && WellFormed(t0) && ProgramMaps(program, |file|) && IsLink(list.tail)
    requires InMemory(p.task) && InMemory(list.tail) && list.head != 0 && !OverDirectory(t0, p, list.tail)
    requires Unmapped(t0, w0, program, file, leaked, p, t, w) && LinkedAndMapped(w, list, p, w2)
    ensures LinkedLoad(t0, w0, list, program, file, leaked, p, t, w2, z)
  {
    var wp := TailStored(t0, w0, list, program, file, leaked, p, t, w, w2);
    z := LoadedPastLink(t0, w0, program, file, leaked, p, t, wp, list.tail, w2);
  }

  /** The mapping starts with the new task's prev stored, and then the tail's next. */
  lemma TailStored(t0: seq<bv8>, w0: seq<u32>, list: TaskList, program: Program, file: seq<byte>, leaked: set<nat>,
                   p: Process, t: seq<bv8>, w: seq<u32>, w2: seq<u32>) returns (wp: seq<u32>)
    requires |t0| == HEAP_BLOCKS && WellFormed(t0) && ProgramMaps(program, |file|) && IsLink(list.tail)
    requires InMemory(p.task) && InMemory(list.tail) && list.head != 0
    requires Unmapped(t0, w0, program, file, leaked, p, t, w) && LinkedAndMapped(w, list, p, w2)
    ensures Placed(t0, w0, program, file, leaked, p, t, wp) && MappedOverLink(t0, wp, p, list.tail, w2)
    ensures PrevOf(wp, p.task) == list.tail && NextOf(wp, p.task) == 0
  {
    wp := WithPrev(w, p.task, list.tail);
    PrevStored(t0, w0, program, file, leaked, p, t, w, list.tail);
    PlacedMappable(t0, w0, program, file, leaked, p, t, w);
    LinkStoredLast(t0, t, w, p, list, w2);
    SpaceStarts(t0, t, wp, p);
  }

  lemma LoadedPastLink(t0: seq<bv8>, w0: seq<u32>, program: Program, file: seq<byte>, leaked: set<nat>, p: Process,
                       t: seq<bv8>, w: seq<u32>, a: u32, w2: seq<u32>) returns (z: seq<u32>)
    requires |t0| == HEAP_BLOCKS && WellFormed(t0) && ProgramMaps(program, |file|)
    requires Placed(t0, w0, program, file, leaked, p, t, w) && !OverDirectory(t0, p, a)
    requires MappedOverLink(t0, w, p, a, w2)
    requires InMemory(p.task) && PrevOf(w, p.task) == a && NextOf(w, p.task) == 0
    ensures IsMemory(w2) && IsMemory(z) && Loaded(t0, w0, program, file, leaked, p, t, z)
    ensures if Overwritten(t0, p, a) then z == w2 else w2 == StoreNext(z, a, p.task)
    ensures PrevOf(w2, p.task) == a && NextOf(w2, p.task) == if a == p.task then p.task else 0
  {
    z := PastLink(t0, w, p, a, w2);
    MappedIsLoaded(t0, w0, program, file, leaked, p, t, w, z);
    TaskWordsKept(t0, t, w, z, p);
    OwnLinks(t0, t, w, p, a, z, w2);
  }

  lemma PastLink(t0: seq<bv8>, w: seq<u32>, p: Process, a: u32, w2: seq<u32>) returns (z: seq<u32>)
    requires MappedOverLink(t0, w, p, a, w2) && !OverDirectory(t0, p, a)
    ensures IsMemory(w2) && IsMemory(z) && MappedWindows(w, z, p.root, LoadWindows(p))
    ensures if Overwritten(t0, p, a) then z == w2 else w2 == StoreNext(z, a, p.task)
  {
    MappedWithoutLink(t0, w, p, a, w2);
    z := Unlinking(t0, w, p, a, w2);
  }

  lemma LinkStoredLast(t0: seq<bv8>, t: seq<bv8>, w: seq<u32>, p: Process, list: TaskList, w2: seq<u32>)
    requires M.InHeap(w, p.root) && NewClaims(t0, t, w, p) && InMemory(p.task) && InMemory(list.tail)
    requires IsLink(list.tail) && list.head != 0 && LinkedAndMapped(w, list, p, w2)
    requires NextOf(w, p.task) == 0
    ensures var wp := WithPrev(w, p.task, list.tail);
            && MappedWindows(wp[list.tail / 4 + NEXT := p.task], w2, p.root, LoadWindows(p))
            && PrevOf(wp, p.task) == list.tail && NextOf(wp, p.task) == 0
  {
    TaskIsLink(t0, t, w, p);
    StoresInTurn(w, list, p.task);
  }

  /** The mapping does not touch the new task's links. */
  lemma TaskWordsKept(t0: seq<bv8>, t: seq<bv8>, w: seq<u32>, z: seq<u32>, p: Process)
    requires M.InHeap(w, p.root) && NewClaims(t0, t, w, p) && MappedWindows(w, z, p.root, LoadWindows(p))
    ensures InMemory(p.task) && PrevOf(z, p.task) == PrevOf(w, p.task) && NextOf(z, p.task) == NextOf(w, p.task)
  {
    TaskIsLink(t0, t, w, p);
    TaskOffSpace(t0, t, w, p);
    TablesInSpace(w, z, p.root);
    LinksInBlock(w, z, p.task, SpaceSet(w, p.root));
  }

  /** The tail's next is the new task's own next only when the tail leads to its block. */
  lemma OwnLinks(t0: seq<bv8>, t: seq<bv8>, w: seq<u32>, p: Process, a: u32, z: seq<u32>, w2: seq<u32>)
    requires FreshSpace(w, p) && NewClaims(t0, t, w, p) && SpacePlaced(t0, w, p) && IsLink(a) && InMemory(a)
    requires IsMemory(z) && IsMemory(w2) && InMemory(p.task) && PrevOf(z, p.task) == a && NextOf(z, p.task) == 0
    requires if Overwritten(t0, p, a) then z == w2 else w2 == StoreNext(z, a, p.task)
    ensures PrevOf(w2, p.task) == a && NextOf(w2, p.task) == if a == p.task then p.task else 0
  {
    TaskIsLink(t0, t, w, p);
    if Overwritten(t0, p, a) {
      TaskIsNoTable(t0, t, w, p);
      assert a != p.task;
    } else {
      LinksAfterStore(z, a, p.task);
    }
  }

  lemma LinksAfterStore(z: seq<u32>, a: u32, task: u32)
    requires IsMemory(z) && IsLink(a) && InMemory(a) && IsLink(task) && task != 0 && InMemory(task)
    ensures PrevOf(StoreNext(z, a, task), task) == PrevOf(z, task)
    ensures NextOf(StoreNext(z, a, task), task) == if a == task then task else NextOf(z, task)
  {
    DifferentRecords(a, task);
  }

  /** Links are to different pages, or the same. */
  lemma DifferentRecords(a: u32, task: u32)
    requires IsLink(a) && IsLink(task)
    ensures a / 4 + NEXT != task / 4 + PREV
    ensures a != task ==> a / 4 + NEXT != task / 4 + NEXT
  {
    RecordPlace(a);
    RecordPlace(task);
  }

  lemma RecordPlace(a: u32)
    requires IsLink(a)
    ensures a == 4096 * (a / 4096) && a / 4 == 1024 * (a / 4096)
  {
  }

  lemma TaskIsNoTable(t0: seq<bv8>, t: seq<bv8>, w: seq<u32>, p: Process)
    requires SpacePlaced(t0, w, p) && NewClaims(t0, t, w, p)
    ensures forall k: nat :: !OverTable(t0, p, p.task, k)
  {
    TaskIsLink(t0, t, w, p);
    TaskOffSpace(t0, t, w, p);
  }

  // -- A link in the new page directory ----------------------------------------------------------

  /** The directory of the new process has a closed entry, whatever has been mapped. */
  lemma OverDirectoryCloses(t0: seq<bv8>, w0: seq<u32>, list: TaskList, program: Program, file: seq<byte>,
                            leaked: set<nat>, p: Process, t: seq<bv8>, w2: seq<u32>)
    requires |t0| == HEAP_BLOCKS && WellFormed(t0) && ProgramMaps(program, |file|) && IsLink(list.tail)
    requires LoadsTo(t0, w0, list, program, file, leaked, p, t, w2)
    requires list.head != 0 && OverDirectory(t0, p, list.tail)
    ensures IsMemory(w2) && Directory(w2, p.root) % 4096 == 0 && !AllOpen(w2, Directory(w2, p.root))
  {
    var w :| Unmapped(t0, w0, program, file, leaked, p, t, w) && LinkedAndMapped(w, list, p, w2);
    var wp := TailStored(t0, w0, list, program, file, leaked, p, t, w, w2);
    TaskIsLink(t0, t, wp, p);
    LinkCloses(t0, wp, p, list.tail, w2);
  }

  lemma LinkCloses(t0: seq<bv8>, w: seq<u32>, p: Process, a: u32, w2: seq<u32>)
    requires MappedOverLink(t0, w, p, a, w2) && OverDirectory(t0, p, a) && IsLink(p.task)
    ensures IsMemory(w2) && Directory(w2, p.root) % 4096 == 0 && !AllOpen(w2, Directory(w2, p.root))
  {
    LinkInDirectory(w, p.root, a, p.task);
    var wl := w[a / 4 + NEXT := p.task];
    assert DirectoryEntry(w2, Directory(wl, p.root), NEXT) == DirectoryEntry(wl, Directory(wl, p.root), NEXT);
  }

  lemma LinkInDirectory(w: seq<u32>, root: u32, a: u32, val: u32)
    requires SpaceWired(w, root) && M.InHeap(w, root) && IsLink(a) && IsLink(val)
    requires M.SpaceBlocks(w, root)[0] == AddressToBlock(a)
    ensures a / 4 + NEXT < MEMORY_WORDS
    ensures var wl := w[a / 4 + NEXT := val];
            && Directory(wl, root) == Directory(w, root)
            && DirectoryEntry(wl, Directory(w, root), NEXT) == val && val % 8 == 0
  {
    LinkedEntryPlace(w, root, a);
    LinkHasNoFlags(val);
  }

  lemma LinkedEntryPlace(w: seq<u32>, root: u32, a: u32)
    requires SpaceWired(w, root) && M.InHeap(w, root) && IsLink(a) && M.SpaceBlocks(w, root)[0] == AddressToBlock(a)
    ensures a / 4 + NEXT < MEMORY_WORDS && a / 4 + NEXT == Directory(w, root) / 4 + NEXT && a / 4 + NEXT != root / 4
  {
    LinkPlace(a);
    assert SpaceFrames(w, root)[0] == Directory(w, root) / 4096 == a / 4096;
    assert root / 4 / 1024 == root / 4096;
  }

  /** A link is no entry that is open to user code. */
  lemma LinkHasNoFlags(val: u32)
    requires IsLink(val)
    ensures val % 8 == 0
  {
    LinkPlace(val);
    assert val == 8 * (val / 4096 * 512);
  }

  // -- What a load ends in -----------------------------------------------------------------------

  /**
   A load whose tail spares the new process ends with the process's windows shown and its claims where
   first fit puts them. No page but those of the windows differs from the fresh map unless the link is
   in a table, and the file is in memory but for a link that went into it.
   */
  lemma LoadEnds(s: System, i: int, program: Program, file: seq<byte>, leaked: set<nat>, p: Process, s': System)
    requires |s.table| == HEAP_BLOCKS && WellFormed(s.table) && ProgramMaps(program, |file|) && IsLink(s.list.tail)
    requires LoadStep(s, i, program, file, leaked, p, s')
    requires s.list.head == 0 || SparesNew(s.table, p, s.list.tail)
    ensures SpaceOK(s'.words, p) && NewClaims(s.table, s'.table, s'.words, p)
    ensures PlacedByFirstFit(s.table, s'.table, s'.words, p) && PlacedInGap(s.table, s'.table, s'.words, p)
    ensures s.list.head == 0 || (forall k: nat :: OverTable(s.table, p, s.list.tail, k) ==> CoversLink(p, k)) ==>
              OnlyThesePages(s'.words, p)
    ensures FileAt(s'.words, p.image.memory, LinkedFile(s.table, s.list, p.image, file))
  {
    var z := LoadIsLinked(s.table, s.words, s.list, program, file, leaked, p, s'.table, s'.words);
    LoadedEnds(s.table, s.words, program, file, leaked, p, s'.table, z);
    if s.list.head != 0 {
      LinkEnds(s.table, s.words, program, file, leaked, p, s'.table, z, s.list.tail, s'.words);
    }
  }

  /** With the link in place, or overwritten. */
  lemma LinkEnds(t0: seq<bv8>, w0: seq<u32>, program: Program, file: seq<byte>, leaked: set<nat>, p: Process,
                 t: seq<bv8>, z: seq<u32>, a: u32, w2: seq<u32>)
    requires |t0| == HEAP_BLOCKS && WellFormed(t0) && 0 < |file| <= 0xFFFF_F000
    requires Loaded(t0, w0, program, file, leaked, p, t, z) && PlacedInGap(t0, t, z, p)
    requires IsLink(a) && InMemory(a) && IsLink(p.task) && SparesNew(t0, p, a)
    requires w2 == if Overwritten(t0, p, a) then z else StoreNext(z, a, p.task)
    ensures NewEnds(t0, t, w2, p, file, a)
  {
    if Overwritten(t0, p, a) {
      TableOffImage(t0, w0, program, file, leaked, p, t, z, a);
    } else {
      StoredEnds(t0, t, z, p, file, a);
    }
  }

  ghost predicate NewEnds(t0: seq<bv8>, t: seq<bv8>, w: seq<u32>, p: Process, file: seq<byte>, a: u32) {
    && SpaceOK(w, p) && NewClaims(t0, t, w, p) && PlacedByFirstFit(t0, t, w, p) && PlacedInGap(t0, t, w, p)
    && ((forall k: nat :: OverTable(t0, p, a, k) ==> CoversLink(p, k)) ==> OnlyThesePages(w, p))
    && FileAt(w, p.image.memory, FileUnder(t0, p.image, a, file))
  }

  lemma StoredEnds(t0: seq<bv8>, t: seq<bv8>, z: seq<u32>, p: Process, file: seq<byte>, a: u32)
    requires |t| == HEAP_BLOCKS && WellFormed(t) && 0 < |file| == p.image.size <= 0xFFFF_F000
    requires SpaceOK(z, p) && NewClaims(t0, t, z, p) && PlacedByFirstFit(t0, t, z, p)
    requires OnlyThesePages(z, p) && FileAt(z, p.image.memory, file)
    requires IsLink(a) && InMemory(a) && IsLink(p.task) && SparesNew(t0, p, a) && !Overwritten(t0, p, a)
    ensures NewEnds(t0, t, StoreNext(z, a, p.task), p, file, a)
  {
    LinkKeepsNew(t0, t, z, p, a);
    LinkNearFile(t0, t, z, p, file, a);
    NoTableCovered(t0, p, a);
  }

  lemma NoTableCovered(t0: seq<bv8>, p: Process, a: u32)
    requires !Overwritten(t0, p, a)
    ensures (forall k: nat :: OverTable(t0, p, a, k) ==> CoversLink(p, k)) ==> forall k: nat :: !OverTable(t0, p, a, k)
  {
  }

  lemma LoadedEnds(t0: seq<bv8>, w0: seq<u32>, program: Program, file: seq<byte>, leaked: set<nat>, p: Process,
                   t: seq<bv8>, z: seq<u32>)
    requires 0 < |file| <= 0xFFFF_F000 && Loaded(t0, w0, program, file, leaked, p, t, z)
    ensures PlacedInGap(t0, t, z, p)
    ensures IsLink(p.task) && p.task != 0
  {
    FirstFitsInGap(t0, t, z, p);
    TaskIsLink(t0, t, z, p);
  }

  /** The link and the file: next to each other, or four bytes of the file changed. */
  lemma LinkNearFile(t0: seq<bv8>, t: seq<bv8>, z: seq<u32>, p: Process, file: seq<byte>, a: u32)
    requires |t| == HEAP_BLOCKS && WellFormed(t) && 0 < |file| <= 0xFFFF_F000 && IsLink(a) && InMemory(a)
    requires M.InHeap(z, p.root) && NewClaims(t0, t, z, p) && PlacedByFirstFit(t0, t, z, p) && p.image.size == |file|
    requires FileAt(z, p.image.memory, file)
    ensures FileAt(StoreNext(z, a, p.task), p.image.memory, FileUnder(t0, p.image, a, file))
  {
    ImagePlace(t0, t, z, p, file);
    TaskAt(t0, t, z, p);
    LinkNearExtent(t0, t, z, p.image, Start(z, p, ImageMemory), file, a);
  }

  lemma LinkNearExtent(t0: seq<bv8>, t: seq<bv8>, z: seq<u32>, image: Image, b: nat, file: seq<byte>, a: u32)
    requires |t| == HEAP_BLOCKS && WellFormed(t) && b < HEAP_BLOCKS && 0 < |file| == image.size <= 0xFFFF_F000
    requires b in Decode(t) && Decode(t)[b] == BlocksFor(|file|) && FileAt(z, BlockToAddress(b), file)
    requires b == Place(t0, image, ImageMemory) && IsLink(a) && InMemory(a)
    ensures FileAt(StoreNext(z, a, TaskAddress(t0, image)), BlockToAddress(b), FileUnder(t0, image, a, file))
  {
    if OverImage(t0, image, a) {
      LiveExtentFits(t, b);
      LinkInFile(z, b, file, a, TaskAddress(t0, image));
    } else {
      FileBesideLink(t, z, b, file, a, TaskAddress(t0, image));
    }
  }

  lemma TaskAt(t0: seq<bv8>, t: seq<bv8>, z: seq<u32>, p: Process)
    requires M.InHeap(z, p.root) && NewClaims(t0, t, z, p) && PlacedByFirstFit(t0, t, z, p)
    ensures p.task == TaskAddress(t0, p.image)
  {
    assert Owns(t, z, p, Task) && Start(z, p, Task) == Place(t0, p.image, Task);
    AddressOfBlock(Start(z, p, Task));
  }

  lemma ImagePlace(t0: seq<bv8>, t: seq<bv8>, z: seq<u32>, p: Process, file: seq<byte>)
    requires M.InHeap(z, p.root) && NewClaims(t0, t, z, p) && PlacedByFirstFit(t0, t, z, p) && p.image.size == |file|
    ensures var b := Start(z, p, ImageMemory);
            && b == Place(t0, p.image, ImageMemory) && b < HEAP_BLOCKS && p.image.memory == BlockToAddress(b)
            && b in Decode(t) && Decode(t)[b] == BlocksFor(|file|)
  {
    assert Owns(t, z, p, ImageMemory);
  }

  /** The link in place, and the new process as it was. */
  lemma LinkKeepsNew(t0: seq<bv8>, t: seq<bv8>, z: seq<u32>, p: Process, a: u32)
    requires SpaceOK(z, p) && NewClaims(t0, t, z, p) && PlacedByFirstFit(t0, t, z, p) && 0 < p.image.size <= 0xFFFF_F000
    requires IsLink(a) && InMemory(a) && IsLink(p.task) && SparesNew(t0, p, a) && !Overwritten(t0, p, a)
    ensures var w := StoreNext(z, a, p.task);
            && SpaceOK(w, p) && NewClaims(t0, t, w, p) && PlacedByFirstFit(t0, t, w, p) && PlacedInGap(t0, t, w, p)
            && (OnlyThesePages(z, p) && (forall k: nat :: !OverTable(t0, p, a, k)) ==> OnlyThesePages(w, p))
  {
    var w := StoreNext(z, a, p.task);
    SpaceStarts(t0, t, z, p);
    LinkKeepsSpace(t0, z, p, a);
    SameStarts(z, w, p);
    ClaimsKeptBy(t0, t, z, w, p);
    FirstFitsInGap(t0, t, w, p);
  }

  lemma LinkKeepsSpace(t0: seq<bv8>, z: seq<u32>, p: Process, a: u32)
    requires SpaceOK(z, p) && SpacePlaced(t0, z, p)
    requires IsLink(a) && InMemory(a) && IsLink(p.task) && SparesNew(t0, p, a) && !Overwritten(t0, p, a)
    ensures var w := StoreNext(z, a, p.task);
            && SpaceOK(w, p) && M.SpaceBlocks(w, p.root) == M.SpaceBlocks(z, p.root)
            && ((forall k: nat :: !OverTable(t0, p, a, k)) ==>
                  View(w, Directory(w, p.root)) == View(z, Directory(z, p.root)))
  {
    if k: nat :| OverTable(t0, p, a, k) {
      assert !CoversLink(p, k);
      TableLinkKeepsSpace(t0, z, p, a, k);
    } else {
      OtherLinkOffEntries(t0, z, p, a);
      OffEntriesKeepsSpace(z, p, a, p.task);
    }
  }

  lemma TableLinkKeepsSpace(t0: seq<bv8>, z: seq<u32>, p: Process, a: u32, k: nat)
    requires SpaceOK(z, p) && SpacePlaced(t0, z, p) && IsLink(a) && InMemory(a) && IsLink(p.task)
    requires OverTable(t0, p, a, k) && !CoversLink(p, k) && p.task == PageAddress(k * 1024 + NEXT)
    ensures var w := StoreNext(z, a, p.task); SpaceOK(w, p) && M.SpaceBlocks(w, p.root) == M.SpaceBlocks(z, p.root)
  {
    LinkInTable(z, p.root, a, k);
    ClosedEntryKeepsSpace(z, p, k * 1024 + NEXT, a, p.task);
  }

  lemma OtherLinkOffEntries(t0: seq<bv8>, z: seq<u32>, p: Process, a: u32)
    requires SpaceWired(z, p.root) && SpacePlaced(t0, z, p) && IsLink(a)
    requires !OverDirectory(t0, p, a) && forall k: nat :: !OverTable(t0, p, a, k)
    ensures OffEntries(z, p.root, a / 4 + NEXT)
  {
    LinkOffSpace(t0, z, p, a);
    LinkOffEntries(z, p.root, a);
  }

  lemma ClosedEntryKeepsSpace(z: seq<u32>, p: Process, v: nat, a: u32, val: u32)
    requires SpaceOK(z, p) && v < PAGES && IsLink(val) && val == PageAddress(v) && Untouched(ProcessWindows(p), v)
    requires InMemory(a) && a / 4 + NEXT == EntryIndex(z, Directory(z, p.root), v)
    ensures var w := StoreNext(z, a, val); SpaceOK(w, p) && M.SpaceBlocks(w, p.root) == M.SpaceBlocks(z, p.root)
  {
    SetInSpace(z, p.root, v, val);
    LinkShows(View(z, Directory(z, p.root)), p, v, val);
    SameDirectorySameSpace(z, StoreNext(z, a, val), p.root);
  }

  lemma OffEntriesKeepsSpace(z: seq<u32>, p: Process, a: u32, val: u32)
    requires SpaceOK(z, p) && InMemory(a) && OffEntries(z, p.root, a / 4 + NEXT)
    ensures var w := StoreNext(z, a, val);
            && SpaceOK(w, p) && M.SpaceBlocks(w, p.root) == M.SpaceBlocks(z, p.root)
            && View(w, Directory(w, p.root)) == View(z, Directory(z, p.root))
  {
    WordOffEntries(z, p.root, a / 4 + NEXT, val);
    SameDirectorySameSpace(z, StoreNext(z, a, val), p.root);
  }

  lemma LinkShows(view: seq<u32>, p: Process, v: nat, val: u32)
    requires Layout(ProcessWindows(p)) && Shows(view, ProcessWindows(p)) && v < PAGES
    requires IsLink(val) && val == PageAddress(v) && Untouched(ProcessWindows(p), v)
    ensures Shows(view[v := val], ProcessWindows(p))
  {
    LinkPlace(val);
    ShowsStored(view, ProcessWindows(p), v, val);
  }

  /** A link off the file leaves the file. */
  lemma FileBesideLink(t: seq<bv8>, z: seq<u32>, b: nat, file: seq<byte>, a: u32, val: u32)
    requires |t| == HEAP_BLOCKS && WellFormed(t) && b < HEAP_BLOCKS && 0 < |file| <= 0xFFFF_F000
    requires b in Decode(t) && Decode(t)[b] == BlocksFor(|file|) && FileAt(z, BlockToAddress(b), file)
    requires IsLink(a) && InMemory(a) && !(b <= AddressToBlock(a) < b + BlocksFor(|file|))
    ensures FileAt(StoreNext(z, a, val), BlockToAddress(b), file)
  {
    LinkPlace(a);
    assert (a / 4 + NEXT) / 1024 == a / 4096;
    FileOffBlocks(t, z, StoreNext(z, a, val), b, {a / 4096 - M.FIRST_FRAME}, file);
  }

  lemma TableOffImage(t0: seq<bv8>, w0: seq<u32>, program: Program, file: seq<byte>, leaked: set<nat>, p: Process,
                      t: seq<bv8>, z: seq<u32>, a: u32)
    requires |t0| == HEAP_BLOCKS && WellFormed(t0) && 0 < |file| <= 0xFFFF_F000
    requires Placed(t0, w0, program, file, leaked, p, t, z) && Overwritten(t0, p, a)
    ensures !OverImage(t0, p.image, a)
  {
    var k: nat :| OverTable(t0, p, a, k) && CoversLink(p, k);
    NewBlocks(t0, w0, program, file, leaked, p, t, z, Tables(k + 1));
  }
}
