/**
 What one kernel operation may do to the whole state, and that every operation keeps the invariant.
 Each step is a relation between the states before and after it.
 */
module Steps {
  import opened Words
  import opened Memory
  import opened HeapTable
  import opened Paging
  import opened Windows
  import opened AddressSpace
  import M = Machine

  ghost function BlockRange(b: nat, n: nat): (r: set<int>)
    ensures forall x :: x in r <==> b <= x < b + n
  {
    if n == 0 then {} else BlockRange(b, n - 1) + {b + n - 1}
  }

  ghost function SpaceSet(words: seq<u32>, root: u32): set<int>
    requires M.InHeap(words, root)
  {
    M.BlockSet(M.SpaceBlocks(words, root))
  }

  // -- Frames ----------------------------------------------------------------------------------

  /** None of the changed blocks is part of the space. */
  ghost predicate SpaceAvoids(words: seq<u32>, root: u32, blocks: set<int>)
    requires M.InHeap(words, root)
  {
    forall k: nat :: k < 1026 ==> M.SpaceBlocks(words, root)[k] !in blocks
  }

  lemma DirectoryKept(w0: seq<u32>, w1: seq<u32>, root: u32, blocks: set<int>)
    requires SpaceWired(w0, root) && M.InHeap(w0, root) && SpaceAvoids(w0, root, blocks)
    requires M.OnlyBlocksChanged(w0, w1, blocks)
    ensures Directory(w1, root) == Directory(w0, root)
    ensures SameDirectory(w0, w1, Directory(w0, root))
  {
    var dir := Directory(w0, root);
    M.RootBlocks(w0, root);
    assert SpaceFrames(w0, root)[1025] == root / 4096 && SpaceFrames(w0, root)[0] == dir / 4096;
    assert M.SpaceBlocks(w0, root)[1025] !in blocks && M.SpaceBlocks(w0, root)[0] !in blocks;
    assert root / 4 / 1024 == root / 4096;
    forall i: nat | i < ENTRIES
      ensures DirectoryEntry(w1, dir, i) == DirectoryEntry(w0, dir, i)
    {
      assert (dir / 4 + i) / 1024 == dir / 4096;
    }
  }

  lemma SameDirectorySameSpace(w0: seq<u32>, w1: seq<u32>, root: u32)
    requires SpaceWired(w0, root) && IsMemory(w1) && Directory(w1, root) == Directory(w0, root)
    requires SameDirectory(w0, w1, Directory(w0, root))
    ensures SameSpace(w0, w1, root)
    ensures SpaceFrames(w1, root) == SpaceFrames(w0, root)
    ensures M.InHeap(w0, root) ==> M.InHeap(w1, root) && M.SpaceBlocks(w1, root) == M.SpaceBlocks(w0, root)
    ensures AllPresent(w0, Directory(w0, root)) ==> AllPresent(w1, Directory(w1, root))
    ensures AllOpen(w0, Directory(w0, root)) ==> AllOpen(w1, Directory(w1, root))
  {
    SameDirectoryFacts(w0, w1, Directory(w0, root));
    assert SpaceFrames(w1, root) == SpaceFrames(w0, root);
  }

  /** Changes to the tables alone stay among the blocks of the space. */
  lemma TablesInSpace(w0: seq<u32>, w1: seq<u32>, root: u32)
    requires SpaceWired(w0, root) && M.InHeap(w0, root) && OnlyTablesChanged(w0, w1, Directory(w0, root))
    ensures M.OnlyBlocksChanged(w0, w1, SpaceSet(w0, root))
  {
    var dir := Directory(w0, root);
    forall w: nat | w < MEMORY_WORDS && w1[w] != w0[w]
      ensures w / 1024 - M.FIRST_FRAME in SpaceSet(w0, root)
    {
      var k: nat :| k < ENTRIES && TableFrame(w0, dir, k) == w / 1024;
      assert SpaceFrames(w0, root)[k + 1] == TableFrame(w0, dir, k);
      assert M.SpaceBlocks(w0, root)[k + 1] == w / 1024 - M.FIRST_FRAME;
    }
  }

  /** Changes outside a space leave its tables and its view as they were. */
  lemma SpaceKept(w0: seq<u32>, w1: seq<u32>, root: u32, blocks: set<int>)
    requires SpaceWired(w0, root) && M.InHeap(w0, root) && SpaceAvoids(w0, root, blocks)
    requires M.OnlyBlocksChanged(w0, w1, blocks)
    ensures SameSpace(w0, w1, root)
    ensures M.InHeap(w1, root) && M.SpaceBlocks(w1, root) == M.SpaceBlocks(w0, root)
    ensures View(w1, Directory(w1, root)) == View(w0, Directory(w0, root))
    ensures AllPresent(w0, Directory(w0, root)) ==> AllPresent(w1, Directory(w1, root))
    ensures AllOpen(w0, Directory(w0, root)) ==> AllOpen(w1, Directory(w1, root))
  {
    DirectoryKept(w0, w1, root, blocks);
    SameDirectorySameSpace(w0, w1, root);
    var dir := Directory(w0, root);
    SameDirectoryFacts(w0, w1, dir);
    forall v: nat | v < PAGES
      ensures View(w1, dir)[v] == View(w0, dir)[v]
    {
      assert SpaceFrames(w0, root)[v / 1024 + 1] == TableFrame(w0, dir, v / 1024);
      assert M.SpaceBlocks(w0, root)[v / 1024 + 1] !in blocks;
      assert EntryIndex(w0, dir, v) / 1024 == TableFrame(w0, dir, v / 1024);
    }
  }

  /** A process whose space is untouched and whose extents are still there is still in order. */
  lemma ProcessKept(t0: seq<bv8>, w0: seq<u32>, t1: seq<bv8>, w1: seq<u32>, p: Process, blocks: set<int>)
    requires ProcessOK(t0, w0, p) && SpaceAvoids(w0, p.root, blocks) && M.OnlyBlocksChanged(w0, w1, blocks)
    requires forall r :: Live(p, r) ==>
               Start(w0, p, r) in Decode(t1) && Decode(t1)[Start(w0, p, r)] == Decode(t0)[Start(w0, p, r)]
    ensures ProcessOK(t1, w1, p)
    ensures M.SpaceBlocks(w1, p.root) == M.SpaceBlocks(w0, p.root)
    ensures forall r :: Live(p, r) ==> Start(w1, p, r) == Start(w0, p, r)
  {
    SpaceKept(w0, w1, p.root, blocks);
    forall r | Live(p, r)
      ensures Owns(t1, w1, p, r) && Start(w1, p, r) == Start(w0, p, r)
    {
      assert Owns(t0, w0, p, r);
    }
  }

  lemma ChangesCompose(w0: seq<u32>, w1: seq<u32>, w2: seq<u32>, a: set<int>, b: set<int>)
    requires M.OnlyBlocksChanged(w0, w1, a) && M.OnlyBlocksChanged(w1, w2, b)
    ensures M.OnlyBlocksChanged(w0, w2, a + b)
  {
  }

  /** Claims carried over, plus new claims of process i on extents that were not live before. */
  ghost predicate ClaimsGrow(s: System, s': System, i: int) {
    && (forall j, r, b :: Holds(s', j, r, b) ==> Holds(s, j, r, b) || (j == i && b !in Decode(s.table)))
    && (forall r, q, b :: Holds(s', i, r, b) && Holds(s', i, q, b) && b !in Decode(s.table) ==> r == q)
  }

  /** Process j claims nothing it did not claim before. */
  ghost predicate ClaimsKept(s: System, s': System, j: int) {
    forall r, b :: Holds(s', j, r, b) ==> Holds(s, j, r, b)
  }

  /** The processes other than i are as they should be, with no new claims. */
  ghost predicate OthersKept(s: System, s': System, i: int) {
    forall j :: Alive(s', j) && j != i ==> ProcessOK(s'.table, s'.words, s'.processes[j].value) && ClaimsKept(s, s', j)
  }

  lemma NoSharingKept(s: System, s': System, i: int)
    requires Inv(s) && ClaimsGrow(s, s', i)
    ensures NoSharing(s')
  {
    forall j, k, r, q, b | Holds(s', j, r, b) && Holds(s', k, q, b)
      ensures j == k && r == q
    {
      if Holds(s, j, r, b) {
        HeldExtent(s, j, r, b);
      }
      if Holds(s, k, q, b) {
        HeldExtent(s, k, q, b);
      }
    }
  }

  // -- Windows against the heap ----------------------------------------------------------------

  /** The window holds no page of the heap. */
  ghost predicate ClearOfHeap(w: Window) {
    w.v + w.count <= M.FIRST_FRAME || M.FIRST_FRAME + HEAP_BLOCKS <= w.v
  }

  lemma ImageWindowsClear(p: Process, w: nat)
    requires ImageFits(p.image) && w < |ImageWindows(p.image)| && p.image.memory % 4096 == 0
    ensures ClearOfHeap(ImageWindows(p.image)[w])
  {
    match p.image
    case Elf(_, memory, size, segments) =>
      assert SegmentFits(segments[w], size);
      SegmentCount(memory, segments[w]);
    case Flat(memory, size) =>
      assert memory == 4096 * (memory / 4096);
  }

  lemma SegmentCount(memory: u32, segment: Segment)
    requires memory % 4096 == 0 && segment.vAddr % 4096 == segment.offset % 4096
    ensures SegmentWindow(memory, segment).count == SegmentPages(segment) >= 0
  {
    var d := memory + segment.offset - segment.vAddr;
    assert d % 4096 == 0;
    var m := d / 4096;
    assert memory + segment.offset == segment.vAddr + 4096 * m;
    assert PagesUpTo(memory + segment.offset + segment.memSize) == PagesUpTo(segment.vAddr + segment.memSize) + m;
  }

  // -- process_malloc --------------------------------------------------------------------------

  /** The first allocation slot holding ptr; |allocations| when there is none. */
  function SlotOf(allocations: seq<Allocation>, ptr: u32): (k: nat)
    ensures k <= |allocations|
    ensures k < |allocations| ==> allocations[k].ptr == ptr
    ensures forall i :: 0 <= i < k ==> allocations[i].ptr != ptr
  {
    SlotFrom(allocations, ptr, 0)
  }

  function SlotFrom(allocations: seq<Allocation>, ptr: u32, from: nat): (k: nat)
    requires from <= |allocations|
    ensures from <= k <= |allocations|
    ensures k < |allocations| ==> allocations[k].ptr == ptr
    ensures forall i :: from <= i < k ==> allocations[i].ptr != ptr
    decreases |allocations| - from
  {
    if from == |allocations| || allocations[from].ptr == ptr then from
    else SlotFrom(allocations, ptr, from + 1)
  }

  function WithSlot(p: Process, k: nat, a: Allocation): Process
    requires k < |p.allocations|
  {
    p.(allocations := p.allocations[k := a])
  }

  /** Pages of the space rooted at root remapped; besides its tables only the given blocks written. */
  ghost predicate Remapped(w0: seq<u32>, w1: seq<u32>, root: u32, blocks: set<int>,
                           v: nat, p: nat, count: nat, flags: u32)
    requires v < PAGES && p < PAGES && flags < 4096
  {
    && SameSpace(w0, w1, root) && M.InHeap(w0, root)
    && M.OnlyBlocksChanged(w0, w1, blocks + SpaceSet(w0, root))
    && View(w1, Directory(w1, root)) == MapView(View(w0, Directory(w0, root)), v, p, count, flags)
  }

  ghost predicate CanMalloc(s: System, i: int, size: u32) {
    && Alive(s, i) && 0 < size <= 0xFFFF_F000
    && (SlotOf(s.processes[i].value.allocations, 0) < |s.processes[i].value.allocations| ==>
          HasRun(s.table, BlocksFor(size)))
  }

  ghost predicate MallocStep(s: System, i: int, size: u32, ptr: u32, s': System)
    requires CanMalloc(s, i, size)
  {
    var p := s.processes[i].value;
    var k := SlotOf(p.allocations, 0);
    if k == |p.allocations| then ptr == 0 && s' == s
    else
      var n := BlocksFor(size);
      var b := FirstFit(s.table, n);
      && n >= 1
      && ptr == BlockToAddress(b)
      && s'.table == Take(s.table, b, n)
      && s'.processes == s.processes[i := Some(WithSlot(p, k, Allocation(ptr, size)))] && s'.list == s.list
      && Remapped(s.words, s'.words, p.root, BlockRange(b, n), ptr / 4096, ptr / 4096, n, READ_WRITE)
      && (forall a: u32 :: ptr <= a < ptr + size ==> ByteAt(s'.words, a) == 0)
  }

  /** process_malloc(0): a slot is filled, but nothing is reserved or mapped behind its pointer. */
  ghost predicate EmptyMallocStep(s: System, i: int, ptr: u32, s': System)
    requires Alive(s, i)
  {
    var p := s.processes[i].value;
    var k := SlotOf(p.allocations, 0);
    if k == |p.allocations| then ptr == 0 && s' == s
    else
      && ptr != 0 && EmptyAddress(s.table, ptr)
      && s'.table == s.table && s'.words == s.words
      && s'.processes == s.processes[i := Some(WithSlot(p, k, Allocation(ptr, 0)))] && s'.list == s.list
  }

  /** A zero-size allocation breaks the invariant exactly when it gets a slot. */
  lemma EmptyMallocKeepsInvIff(s: System, i: int, ptr: u32, s': System)
    requires Inv(s) && Alive(s, i) && EmptyMallocStep(s, i, ptr, s')
    ensures Inv(s') <==> SlotOf(s.processes[i].value.allocations, 0) == |s.processes[i].value.allocations|
  {
    var p := s.processes[i].value;
    var k := SlotOf(p.allocations, 0);
    if k < |p.allocations| {
      EmptySlotBreaksInv(s', i, k);
    }
  }

  lemma EmptySlotBreaksInv(s: System, i: int, k: nat)
    requires Alive(s, i) && k < |s.processes[i].value.allocations|
    requires s.processes[i].value.allocations[k].ptr != 0 && s.processes[i].value.allocations[k].size == 0
    ensures !Inv(s)
  {
    if ProcessOK(s.table, s.words, s.processes[i].value) {
      SlotHoldsSomething(s.table, s.words, s.processes[i].value, k);
    }
  }

  lemma SlotHoldsSomething(t: seq<bv8>, w: seq<u32>, p: Process, k: nat)
    requires ProcessOK(t, w, p) && k < |p.allocations| && p.allocations[k].ptr != 0
    ensures p.allocations[k].size > 0
  {
    assert Owns(t, w, p, Data(k));
  }

  lemma SlotWindow(p: Process, k: nat, a: Allocation)
    requires k < |p.allocations|
    ensures |ProcessWindows(p)| == |ImageWindows(p.image)| + 1 + |p.allocations|
    ensures ProcessWindows(WithSlot(p, k, a))
         == ProcessWindows(p)[|ImageWindows(p.image)| + 1 + k := AllocationWindow(a)]
    ensures ProcessWindows(p)[|ImageWindows(p.image)| + 1 + k] == AllocationWindow(p.allocations[k])
  {
    assert AllocationWindows(p.allocations[k := a]) == AllocationWindows(p.allocations)[k := AllocationWindow(a)];
    UpdateTail(ImageWindows(p.image) + [StackWindow(p.stack)], AllocationWindows(p.allocations), k,
               AllocationWindow(a));
  }

  lemma UpdateTail<T>(a: seq<T>, b: seq<T>, k: nat, x: T)
    requires k < |b|
    ensures (a + b)[|a| + k := x] == a + b[k := x]
    ensures (a + b)[|a| + k] == b[k]
  {
  }

  lemma FreshWindow(t: seq<bv8>, b: nat, size: u32)
    requires |t| == HEAP_BLOCKS && 0 < size <= 0xFFFF_F000 && RunAt(t, b, BlocksFor(size))
    ensures Sound(AllocationWindow(Allocation(BlockToAddress(b), size)))
    ensures AllocationWindow(Allocation(BlockToAddress(b), size))
         == Window(b + M.FIRST_FRAME, b + M.FIRST_FRAME, BlocksFor(size), READ_WRITE)
  {
    RequestReservesBlocksIff(size);
    RangePages(b, size);
  }

  /** The windows of a loaded program and its stack lie outside the heap. */
  lemma FixedWindowsClear(t: seq<bv8>, w: seq<u32>, p: Process, j: nat)
    requires ProcessOK(t, w, p) && j <= |ImageWindows(p.image)|
    ensures ClearOfHeap(ProcessWindows(p)[j])
  {
    if j < |ImageWindows(p.image)| {
      assert Owns(t, w, p, ImageMemory);
      AddressOfBlock(Start(w, p, ImageMemory));
      ImageWindowsClear(p, j);
    } else {
      assert Owns(t, w, p, Stack);
      AddressOfBlock(Start(w, p, Stack));
      assert ProcessWindows(p)[j] == StackWindow(p.stack);
    }
  }

  /** The window of a fresh block range keeps clear of every other window of the process. */
  lemma FreshWindowSeparate(t: seq<bv8>, w: seq<u32>, p: Process, b: nat, size: u32, j: nat)
    requires |t| == HEAP_BLOCKS && WellFormed(t) && ProcessOK(t, w, p)
    requires 0 < size <= 0xFFFF_F000 && RunAt(t, b, BlocksFor(size))
    requires j < |ProcessWindows(p)|
    ensures Separate(ProcessWindows(p)[j], AllocationWindow(Allocation(BlockToAddress(b), size)))
  {
    var n := |ImageWindows(p.image)|;
    if j <= n {
      FixedWindowsClear(t, w, p, j);
      ClearMeansSeparate(t, b, size, ProcessWindows(p)[j]);
    } else {
      SlotWindow(p, j - n - 1, p.allocations[j - n - 1]);
      SlotWindowSeparate(t, w, p, b, size, j - n - 1);
    }
  }

  lemma ClearMeansSeparate(t: seq<bv8>, b: nat, size: u32, w: Window)
    requires |t| == HEAP_BLOCKS && 0 < size <= 0xFFFF_F000 && RunAt(t, b, BlocksFor(size)) && ClearOfHeap(w)
    ensures Separate(w, AllocationWindow(Allocation(BlockToAddress(b), size)))
  {
    FreshWindow(t, b, size);
  }

  lemma SlotWindowSeparate(t: seq<bv8>, w: seq<u32>, p: Process, b: nat, size: u32, k: nat)
    requires |t| == HEAP_BLOCKS && WellFormed(t) && ProcessOK(t, w, p)
    requires 0 < size <= 0xFFFF_F000 && RunAt(t, b, BlocksFor(size)) && k < |p.allocations|
    ensures Separate(AllocationWindow(p.allocations[k]), AllocationWindow(Allocation(BlockToAddress(b), size)))
  {
    var a := p.allocations[k];
    if a.ptr != 0 {
      assert Owns(t, w, p, Data(k));
      LiveWindowSeparate(t, b, Start(w, p, Data(k)), a.size, size);
    } else {
      EmptySlotWindow(a);
    }
  }

  lemma EmptySlotWindow(a: Allocation)
    requires a == Allocation(0, 0)
    ensures AllocationWindow(a).count == 0
  {
  }

  lemma LiveWindowSeparate(t: seq<bv8>, b: nat, c: nat, oldSize: u32, size: u32)
    requires |t| == HEAP_BLOCKS && WellFormed(t)
    requires 0 < size <= 0xFFFF_F000 && RunAt(t, b, BlocksFor(size))
    requires 0 < oldSize <= 0xFFFF_F000 && c in Decode(t) && Decode(t)[c] == BlocksFor(oldSize)
    ensures Separate(AllocationWindow(Allocation(BlockToAddress(c), oldSize)),
                     AllocationWindow(Allocation(BlockToAddress(b), size)))
  {
    RequestReservesBlocksIff(size);
    RequestReservesBlocksIff(oldSize);
    TakeAddsExtent(t, b, BlocksFor(size));
    RangePages(b, size);
    RangePages(c, oldSize);
  }

  /** A space blocks set and a claim of another process, or of another kind, do not meet. */
  lemma SpaceAvoidsOthers(s: System, i: int, j: int, newBlocks: set<int>)
    requires Inv(s) && Alive(s, i) && Alive(s, j) && i != j
    requires forall b :: b in Decode(s.table) ==> b !in newBlocks
    ensures ProcessOK(s.table, s.words, s.processes[i].value) && ProcessOK(s.table, s.words, s.processes[j].value)
    ensures SpaceAvoids(s.words, s.processes[j].value.root, newBlocks + SpaceSet(s.words, s.processes[i].value.root))
  {
    var p, q := s.processes[i].value, s.processes[j].value;
    assert ProcessOK(s.table, s.words, p) && ProcessOK(s.table, s.words, q);
    forall k: nat | k < 1026
      ensures M.SpaceBlocks(s.words, q.root)[k] !in newBlocks + SpaceSet(s.words, p.root)
    {
      var b := M.SpaceBlocks(s.words, q.root)[k];
      assert Live(q, Tables(k)) && Holds(s, j, Tables(k), b);
      HeldExtent(s, j, Tables(k), b);
      if b in SpaceSet(s.words, p.root) {
        var l :| 0 <= l < 1026 && M.SpaceBlocks(s.words, p.root)[l] == b;
        assert Live(p, Tables(l)) && Holds(s, i, Tables(l), b);
      }
    }
  }

  /** Opening an identity window in an empty slot, away from all other windows. */
  lemma OpenSlot(w0: seq<u32>, w1: seq<u32>, p: Process, k: nat, a: Allocation, f: nat, n: nat, blocks: set<int>)
    requires SpaceOK(w0, p) && k < |p.allocations| && p.allocations[k].ptr == p.allocations[k].size == 0
    requires f < PAGES && AllocationWindow(a) == Window(f, f, n, READ_WRITE) && Sound(AllocationWindow(a))
    requires forall j :: 0 <= j < |ProcessWindows(p)| ==> Separate(ProcessWindows(p)[j], AllocationWindow(a))
    requires Remapped(w0, w1, p.root, blocks, f, f, n, READ_WRITE)
    ensures SpaceOK(w1, WithSlot(p, k, a))
    ensures M.InHeap(w1, p.root) && M.SpaceBlocks(w1, p.root) == M.SpaceBlocks(w0, p.root)
  {
    SameDirectorySameSpace(w0, w1, p.root);
    var ws, x := ProcessWindows(p), |ImageWindows(p.image)| + 1 + k;
    SlotWindow(p, k, a);
    var view := View(w0, Directory(w0, p.root));
    var ws' := ws[x := AllocationWindow(a)];
    assert ProcessWindows(WithSlot(p, k, a)) == ws';
    assert ws[x].count == 0;
    OpenWindow(view, ws, x, AllocationWindow(a));
    assert Layout(ws');
    assert View(w1, Directory(w1, p.root)) == MapView(view, f, f, n, READ_WRITE);
    assert Shows(View(w1, Directory(w1, p.root)), ws');
  }

  /** Opening the window of a fresh run of blocks in an empty slot. */
  lemma OpenAllocation(t: seq<bv8>, w0: seq<u32>, w1: seq<u32>, p: Process, k: nat, b: nat, size: u32, blocks: set<int>)
    requires |t| == HEAP_BLOCKS && WellFormed(t) && ProcessOK(t, w0, p)
    requires k < MAX_ALLOCATIONS && p.allocations[k].ptr == 0
    requires 0 < size <= 0xFFFF_F000 && RunAt(t, b, BlocksFor(size))
    requires b + M.FIRST_FRAME < PAGES
    requires Remapped(w0, w1, p.root, blocks, b + M.FIRST_FRAME, b + M.FIRST_FRAME, BlocksFor(size), READ_WRITE)
    ensures SpaceOK(w1, WithSlot(p, k, Allocation(BlockToAddress(b), size)))
    ensures M.InHeap(w1, p.root) && M.SpaceBlocks(w1, p.root) == M.SpaceBlocks(w0, p.root)
  {
    var a := Allocation(BlockToAddress(b), size);
    forall j | 0 <= j < |ProcessWindows(p)|
      ensures Separate(ProcessWindows(p)[j], AllocationWindow(a))
    {
      FreshWindowSeparate(t, w0, p, b, size, j);
    }
    FreshWindow(t, b, size);
    OpenSlot(w0, w1, p, k, a, b + M.FIRST_FRAME, BlocksFor(size), blocks);
  }

  lemma OwnAllocation(t: seq<bv8>, w0: seq<u32>, w1: seq<u32>, p: Process, k: nat, b: nat, size: u32)
    requires |t| == HEAP_BLOCKS && WellFormed(t) && ProcessOK(t, w0, p)
    requires k < MAX_ALLOCATIONS && p.allocations[k].ptr == 0
    requires 0 < size <= 0xFFFF_F000 && RunAt(t, b, BlocksFor(size))
    requires M.InHeap(w1, p.root) && M.SpaceBlocks(w1, p.root) == M.SpaceBlocks(w0, p.root)
    ensures var p' := WithSlot(p, k, Allocation(BlockToAddress(b), size));
            forall r :: Live(p', r) ==>
              && Owns(Take(t, b, BlocksFor(size)), w1, p', r)
              && if r == Data(k) then Start(w1, p', r) == b else Live(p, r) && Start(w1, p', r) == Start(w0, p, r)
  {
    RequestReservesBlocksIff(size);
    TakeAddsExtent(t, b, BlocksFor(size));
    AddressOfBlock(b);
    var p' := WithSlot(p, k, Allocation(BlockToAddress(b), size));
    forall r | Live(p', r)
      ensures Owns(Take(t, b, BlocksFor(size)), w1, p', r)
      ensures if r == Data(k) then Start(w1, p', r) == b else Live(p, r) && Start(w1, p', r) == Start(w0, p, r)
    {
      if r != Data(k) {
        assert Live(p, r);
        assert Owns(t, w0, p, r);
      }
    }
  }

  lemma MallocOwnProcess(s: System, i: int, size: u32, ptr: u32, s': System)
    requires Inv(s) && CanMalloc(s, i, size) && MallocStep(s, i, size, ptr, s') && s' != s
    ensures ProcessOK(s'.table, s'.words, s'.processes[i].value)
    ensures var p, p', k := s.processes[i].value, s'.processes[i].value, SlotOf(s.processes[i].value.allocations, 0);
            forall r :: Live(p', r) ==>
              if r == Data(k) then Start(s'.words, p', r) == FirstFit(s.table, BlocksFor(size))
              else Live(p, r) && Start(s'.words, p', r) == Start(s.words, p, r)
  {
    var p := s.processes[i].value;
    assert ProcessOK(s.table, s.words, p);
    var k, n := SlotOf(p.allocations, 0), BlocksFor(size);
    var b := FirstFit(s.table, n);
    RangePages(b, size);
    OpenAllocation(s.table, s.words, s'.words, p, k, b, size, BlockRange(b, n));
    OwnAllocation(s.table, s.words, s'.words, p, k, b, size);
  }

  lemma MallocOthersKept(s: System, i: int, size: u32, ptr: u32, s': System)
    requires Inv(s) && CanMalloc(s, i, size) && MallocStep(s, i, size, ptr, s') && s' != s
    ensures OthersKept(s, s', i)
  {
    var b, n := FirstFit(s.table, BlocksFor(size)), BlocksFor(size);
    RequestReservesBlocksIff(size);
    TakeAddsExtent(s.table, b, n);
    forall j | Alive(s', j) && j != i
      ensures ProcessOK(s'.table, s'.words, s'.processes[j].value) && ClaimsKept(s, s', j)
    {
      OtherProcessKept(s, i, j, s', BlockRange(b, n), {});
    }
  }

  /** The one claim a malloc adds rests on an extent that was not live. */
  lemma MallocAddsClaim(s: System, i: int, size: u32, ptr: u32, s': System)
    requires Inv(s) && CanMalloc(s, i, size) && MallocStep(s, i, size, ptr, s') && s' != s
    ensures ClaimsGrow(s, s', i)
  {
    var added := Data(SlotOf(s.processes[i].value.allocations, 0));
    RequestReservesBlocksIff(size);
    TakeAddsExtent(s.table, FirstFit(s.table, BlocksFor(size)), BlocksFor(size));
    MallocOwnProcess(s, i, size, ptr, s');
    MallocOthersKept(s, i, size, ptr, s');
    forall r, c | Holds(s', i, r, c)
      ensures if r == added then c !in Decode(s.table) else Holds(s, i, r, c) && c in Decode(s.table)
    {
      if r != added {
        assert Holds(s, i, r, c);
        HeldExtent(s, i, r, c);
      }
    }
  }

  lemma MallocKeepsInv(s: System, i: int, size: u32, ptr: u32, s': System)
    requires Inv(s) && CanMalloc(s, i, size) && MallocStep(s, i, size, ptr, s')
    ensures Inv(s')
  {
    if s' != s {
      RequestReservesBlocksIff(size);
      TakeAddsExtent(s.table, FirstFit(s.table, BlocksFor(size)), BlocksFor(size));
      MallocOwnProcess(s, i, size, ptr, s');
      MallocOthersKept(s, i, size, ptr, s');
      MallocAddsClaim(s, i, size, ptr, s');
      NoSharingKept(s, s', i);
    }
  }

  // -- process_free ----------------------------------------------------------------------------

  /** A pointer the process does not hold, and the null pointer, are ignored. */
  ghost predicate FreeStep(s: System, i: int, ptr: u32, s': System)
    requires Alive(s, i)
  {
    var p := s.processes[i].value;
    var k := SlotOf(p.allocations, ptr);
    if k == |p.allocations| || ptr == 0 then s' == s
    else
      && s'.table == Release(s.table, AddressToBlock(ptr))
      && s'.processes == s.processes[i := Some(WithSlot(p, k, Allocation(0, 0)))] && s'.list == s.list
      && Remapped(s.words, s'.words, p.root, {}, ptr / 4096, ptr / 4096, BlocksFor(p.allocations[k].size), 0)
  }

  lemma LiveExtentInTable(t: seq<bv8>, b: nat)
    requires |t| == HEAP_BLOCKS && WellFormed(t) && b in Decode(t)
    ensures 1 <= Decode(t)[b] && b + Decode(t)[b] <= HEAP_BLOCKS
  {
  }

  lemma ExtentAddresses(b: nat, size: u32)
    requires b < HEAP_BLOCKS && 0 < size <= 0xFFFF_F000 && b + BlocksFor(size) <= HEAP_BLOCKS
    ensures BlockToAddress(b) % 4096 == 0 && BlockToAddress(b) + size <= HEAP_END
  {
    AddressOfBlock(b);
    RequestReservesBlocksIff(size);
  }

  /** The block of address a. */
  lemma ByteInExtent(b: nat, size: u32, a: u32) returns (x: nat)
    requires b < HEAP_BLOCKS && 0 < size <= 0xFFFF_F000 && b + BlocksFor(size) <= HEAP_BLOCKS
    requires BlockToAddress(b) <= a < BlockToAddress(b) + size
    ensures x == a / 4096 - M.FIRST_FRAME && b <= x < b + BlocksFor(size)
  {
    AddressOfBlock(b);
    RequestReservesBlocksIff(size);
    x := b + (a - BlockToAddress(b)) / 4096;
  }

  lemma ByteKept(w: seq<u32>, w': seq<u32>, blocks: set<int>, a: u32)
    requires M.OnlyBlocksChanged(w, w', blocks) && a / 4096 - M.FIRST_FRAME !in blocks
    ensures ByteAt(w', a) == ByteAt(w, a)
  {
    assert a / 4 / 1024 == a / 4096;
  }

  lemma AllocationIsRange(b: nat, a: Allocation)
    requires 0 < a.size <= 0xFFFF_F000 && b < HEAP_BLOCKS && b + BlocksFor(a.size) <= HEAP_BLOCKS
    requires a.ptr == BlockToAddress(b)
    ensures AllocationWindow(a) == Window(a.ptr / 4096, a.ptr / 4096, BlocksFor(a.size), READ_WRITE)
    ensures a.ptr / 4096 == b + M.FIRST_FRAME
  {
    RangePages(b, a.size);
  }

  /** Closing the window of an identity-mapped slot. */
  lemma CloseSlot(w0: seq<u32>, w1: seq<u32>, p: Process, k: nat, none: Allocation, f: nat, n: nat)
    requires SpaceOK(w0, p) && k < |p.allocations| && none.ptr == none.size == 0
    requires f < PAGES && AllocationWindow(p.allocations[k]) == Window(f, f, n, READ_WRITE)
    requires Remapped(w0, w1, p.root, {}, f, f, n, 0)
    ensures SpaceOK(w1, WithSlot(p, k, none))
    ensures M.InHeap(w1, p.root) && M.SpaceBlocks(w1, p.root) == M.SpaceBlocks(w0, p.root)
  {
    SameDirectorySameSpace(w0, w1, p.root);
    var ws, x := ProcessWindows(p), |ImageWindows(p.image)| + 1 + k;
    SlotWindow(p, k, none);
    var view := View(w0, Directory(w0, p.root));
    var ws' := ws[x := AllocationWindow(none)];
    assert ProcessWindows(WithSlot(p, k, none)) == ws';
    assert ws[x] == Window(f, f, n, READ_WRITE);
    assert AllocationWindow(none).count == 0;
    CloseWindow(view, ws, x, AllocationWindow(none));
    assert Layout(ws');
    assert View(w1, Directory(w1, p.root)) == MapView(view, f, f, n, 0);
    assert Shows(View(w1, Directory(w1, p.root)), ws');
  }

  /** Closing the window of a live allocation. */
  lemma CloseAllocation(t: seq<bv8>, w0: seq<u32>, w1: seq<u32>, p: Process, k: nat, none: Allocation)
    requires |t| == HEAP_BLOCKS && WellFormed(t) && ProcessOK(t, w0, p)
    requires k < MAX_ALLOCATIONS && p.allocations[k].ptr != 0 && none.ptr == none.size == 0
    requires var a := p.allocations[k];
             Remapped(w0, w1, p.root, {}, a.ptr / 4096, a.ptr / 4096, BlocksFor(a.size), 0)
    ensures SpaceOK(w1, WithSlot(p, k, none))
    ensures M.InHeap(w1, p.root) && M.SpaceBlocks(w1, p.root) == M.SpaceBlocks(w0, p.root)
  {
    var a := p.allocations[k];
    assert Owns(t, w0, p, Data(k));
    var b := Start(w0, p, Data(k));
    LiveExtentInTable(t, b);
    AllocationIsRange(b, a);
    CloseSlot(w0, w1, p, k, none, a.ptr / 4096, BlocksFor(a.size));
  }

  /** With one allocation released, all other claims of the process stand. */
  lemma DisownAllocation(t: seq<bv8>, w0: seq<u32>, w1: seq<u32>, p: Process, k: nat)
    requires |t| == HEAP_BLOCKS && WellFormed(t) && ProcessOK(t, w0, p)
    requires k < MAX_ALLOCATIONS && p.allocations[k].ptr != 0
    requires forall r :: Live(p, r) && r != Data(k) ==> Start(w0, p, r) != AddressToBlock(p.allocations[k].ptr)
    requires M.InHeap(w1, p.root) && M.SpaceBlocks(w1, p.root) == M.SpaceBlocks(w0, p.root)
    ensures var p' := WithSlot(p, k, Allocation(0, 0));
            forall r :: Live(p', r) ==>
              && Owns(Release(t, AddressToBlock(p.allocations[k].ptr)), w1, p', r)
              && Live(p, r) && Start(w1, p', r) == Start(w0, p, r)
  {
    var b := AddressToBlock(p.allocations[k].ptr);
    assert Owns(t, w0, p, Data(k));
    ReleaseRemovesExtent(t, b);
    var p' := WithSlot(p, k, Allocation(0, 0));
    forall r | Live(p', r)
      ensures Live(p, r) && Start(w1, p', r) == Start(w0, p, r)
      ensures Owns(Release(t, b), w1, p', r)
    {
      assert r != Data(k);
      assert Live(p, r);
      assert Owns(t, w0, p, r);
    }
  }

  lemma FreeOwnProcess(s: System, i: int, ptr: u32, s': System)
    requires Inv(s) && Alive(s, i) && FreeStep(s, i, ptr, s')
    requires SlotOf(s.processes[i].value.allocations, ptr) < |s.processes[i].value.allocations| && ptr != 0
    ensures ProcessOK(s'.table, s'.words, s'.processes[i].value)
    ensures WellFormed(s'.table) && Decode(s'.table) == Decode(s.table) - {AddressToBlock(ptr)}
    ensures Holds(s, i, Data(SlotOf(s.processes[i].value.allocations, ptr)), AddressToBlock(ptr))
    ensures var p, p' := s.processes[i].value, s'.processes[i].value;
            forall r :: Live(p', r) ==> Live(p, r) && Start(s'.words, p', r) == Start(s.words, p, r)
  {
    var p := s.processes[i].value;
    assert ProcessOK(s.table, s.words, p);
    var k := SlotOf(p.allocations, ptr);
    var b := AddressToBlock(ptr);
    assert Owns(s.table, s.words, p, Data(k));
    assert Holds(s, i, Data(k), b);
    ReleaseRemovesExtent(s.table, b);
    forall r | Live(p, r) && r != Data(k)
      ensures Start(s.words, p, r) != b
    {
      assert Holds(s, i, r, Start(s.words, p, r));
    }
    CloseAllocation(s.table, s.words, s'.words, p, k, Allocation(0, 0));
    DisownAllocation(s.table, s.words, s'.words, p, k);
  }

  lemma FreeOthersKept(s: System, i: int, ptr: u32, s': System)
    requires Inv(s) && Alive(s, i) && FreeStep(s, i, ptr, s')
    requires SlotOf(s.processes[i].value.allocations, ptr) < |s.processes[i].value.allocations| && ptr != 0
    ensures OthersKept(s, s', i)
  {
    FreeOwnProcess(s, i, ptr, s');
    forall j | Alive(s', j) && j != i
      ensures ProcessOK(s'.table, s'.words, s'.processes[j].value) && ClaimsKept(s, s', j)
    {
      OtherProcessKept(s, i, j, s', {}, {AddressToBlock(ptr)});
    }
  }

  lemma FreeKeepsInv(s: System, i: int, ptr: u32, s': System)
    requires Inv(s) && Alive(s, i) && FreeStep(s, i, ptr, s')
    ensures Inv(s')
  {
    var p := s.processes[i].value;
    if SlotOf(p.allocations, ptr) == |p.allocations| || ptr == 0 {
      return;
    }
    FreeOwnProcess(s, i, ptr, s');
    FreeOthersKept(s, i, ptr, s');
    forall j, r, c | Holds(s', j, r, c)
      ensures Holds(s, j, r, c) && c in Decode(s.table)
    {
      assert j != i ==> ClaimsKept(s, s', j);
      HeldExtent(s, j, r, c);
    }
    NoSharingKept(s, s', i);
  }

  /**
   A step of process i that writes its own tables and some blocks that were not live, and gives up
   some of its own extents, does not disturb process j.
   */
  lemma OtherProcessKept(s: System, i: int, j: int, s': System, newBlocks: set<int>, gone: set<nat>)
    requires Inv(s) && Alive(s, i) && Alive(s, j) && i != j && Alive(s', j) && s'.processes[j] == s.processes[j]
    requires M.InHeap(s.words, s.processes[i].value.root)
    requires M.OnlyBlocksChanged(s.words, s'.words, newBlocks + SpaceSet(s.words, s.processes[i].value.root))
    requires forall b :: b in Decode(s.table) ==> b !in newBlocks
    requires forall b :: b in Decode(s.table) && b !in gone ==>
               b in Decode(s'.table) && Decode(s'.table)[b] == Decode(s.table)[b]
    requires forall b :: b in gone ==> exists r :: Holds(s, i, r, b)
    ensures ProcessOK(s'.table, s'.words, s'.processes[j].value)
    ensures forall r, c :: Holds(s', j, r, c) <==> Holds(s, j, r, c)
  {
    var q := s.processes[j].value;
    SpaceAvoidsOthers(s, i, j, newBlocks);
    forall r | Live(q, r)
      ensures Start(s.words, q, r) in Decode(s.table) && Start(s.words, q, r) !in gone
    {
      var c := Start(s.words, q, r);
      assert Holds(s, j, r, c);
      HeldExtent(s, j, r, c);
      assert forall q' :: !Holds(s, i, q', c);
    }
    ProcessKept(s.table, s.words, s'.table, s'.words, q, newBlocks + SpaceSet(s.words, s.processes[i].value.root));
  }

  lemma ZeroedBlocks(w0: seq<u32>, wm: seq<u32>, b: nat, size: u32)
    requires b < HEAP_BLOCKS && 0 < size <= 0xFFFF_F000 && b + BlocksFor(size) <= HEAP_BLOCKS
    requires SameBytesOutside(w0, wm, BlockToAddress(b), BlockToAddress(b) + size)
    ensures M.OnlyBlocksChanged(w0, wm, BlockRange(b, BlocksFor(size)))
  {
    AddressOfBlock(b);
    RequestReservesBlocksIff(size);
    forall w: nat | w < MEMORY_WORDS && w / 1024 - M.FIRST_FRAME !in BlockRange(b, BlocksFor(size))
      ensures wm[w] == w0[w]
    {
      SameWordsOutside(w0, wm, BlockToAddress(b), BlockToAddress(b) + size, w);
    }
  }
}
