/** The memory side of process_load_for_slot: what is allocated, linked into the task list, and mapped. */
module LoadInMemory {
  import opened Words
  import opened Memory
  import opened HeapTable
  import opened Paging
  import opened AddressSpace
  import opened ElfFormat
  import opened Steps
  import opened TaskLinks
  import opened StoredLinks
  import opened LoadSteps
  import opened LinkedLoads
  import opened Lifecycle
  import opened Loader
  import opened LoadProcess
  import M = Machine

  // -- The load ----------------------------------------------------------------------------------

  /** The memory side of process_load_for_slot: the allocations, the task list, then process_map_memory. */
  method LoadMemory(machine: M.Machine, list: TaskList, ghost program: Program, file: seq<byte>)
    returns (res: int, p: Process, list': TaskList, ghost leaked: set<nat>)
    requires machine.Valid() && IsProgram(file, program) && 0 < |file| <= 0xFFFF_F000
    requires ProgramMaps(FoundProgram(machine.entries[..], list, program, file), |file|)
    requires LoadRoom(machine.entries[..], program, |file|)
    requires InMemory(list.tail) && (list.head != 0 ==> IsLink(list.tail))
    modifies machine.entries, machine.words
    ensures machine.Valid() && res == if program.RefusedElf? then -1 else 0
    ensures res < 0 ==>
              && list' == list
              && Refused(old(machine.entries[..]), old(machine.words[..]), leaked,
                         machine.entries[..], machine.words[..])
    ensures res == 0 ==>
              && list' == Appended(list, p.task) && NoAllocations(p)
              && LoadsTo(old(machine.entries[..]), old(machine.words[..]), list,
                         FoundProgram(old(machine.entries[..]), list, program, file), file, leaked, p,
                         machine.entries[..], machine.words[..])
  {
    ghost var t0, w0 := machine.entries[..], machine.words[..];
    var self, image;
    ghost var data;
    res, self, image, data := AllocateRecordAndData(machine, program, file, t0, w0);
    if res < 0 {
      leaked := {data[1].block, data[2].block};
      p, list' := Process(self, image, 0, 0, 0, UnusedSlots()), list;
      GiveUp(machine, self, t0, w0, data);
    } else {
      res, p, list', leaked := FinishLoad(machine, list, self, image, program, file, t0, w0, data);
    }
  }

  /** From the stack on. */
  method FinishLoad(machine: M.Machine, list: TaskList, self: u32, image: Image, ghost program: Program,
                    file: seq<byte>,
                    ghost t0: seq<bv8>, ghost w0: seq<u32>, ghost data: seq<Held>)
    returns (res: int, p: Process, list': TaskList, ghost leaked: set<nat>)
    requires machine.Valid() && IsProgram(file, program) && 0 < |file| <= 0xFFFF_F000
    requires ProgramMaps(FoundProgram(t0, list, program, file), |file|)
    requires Loading(t0, w0, machine.entries[..], machine.words[..], data, LastSizes(), 1026)
    requires DataHeld(data, self, image) && ImageIs(image, program, |file|)
    requires FileAt(machine.words[..], image.memory, file)
    requires InMemory(list.tail) && (list.head != 0 ==> IsLink(list.tail))
    modifies machine.entries, machine.words
    ensures machine.Valid() && res == 0 && list' == Appended(list, p.task) && NoAllocations(p)
    ensures LoadsTo(t0, w0, list, FoundProgram(t0, list, program, file), file, leaked, p,
                    machine.entries[..], machine.words[..])
  {
    ghost var held, tm, wm;
    p, held, tm, wm := AllocateProcess(machine, self, image, program, file, t0, w0, data);
    leaked := Leaks(held, p);
    PreparedIsUnmapped(t0, w0, program, file, tm, wm, machine.entries[..], machine.words[..], held, p);
    res, p, list' := LinkAndMap(machine, list, p, program, file, t0, w0, leaked);
  }

  /** The end of task_new and process_map_memory, for a process just allocated. */
  method LinkAndMap(machine: M.Machine, list: TaskList, p0: Process, ghost program: Program, ghost file: seq<byte>,
                    ghost t0: seq<bv8>, ghost w0: seq<u32>, ghost leaked: set<nat>)
    returns (res: int, p: Process, list': TaskList)
    requires machine.Valid() && |t0| == HEAP_BLOCKS && WellFormed(t0) && IsProgram(file, program)
    requires 0 < |file| <= 0xFFFF_F000 && ProgramMaps(FoundProgram(t0, list, program, file), |file|)
    requires Unmapped(t0, w0, program, file, leaked, p0, machine.entries[..], machine.words[..])
    requires InMemory(list.tail) && (list.head != 0 ==> IsLink(list.tail))
    modifies machine.words
    ensures res == 0 && list' == Appended(list, p.task) && NoAllocations(p)
    ensures LoadsTo(t0, w0, list, FoundProgram(t0, list, program, file), file, leaked, p,
                    machine.entries[..], machine.words[..])
  {
    ghost var t, w, found := machine.entries[..], machine.words[..], FoundProgram(t0, list, program, file);
    ghost var pf := p0.(image := WithSegments(p0.image, found));
    SegmentsReplaced(t0, w0, program, found, file, leaked, p0, t, w);
    list' := AppendTask(machine, list, p0.task);
    ProgramIsFound(t0, w0, program, file, leaked, pf, t, w, list);
    var image;
    res, image := MapMemory(machine, p0.image, p0.stack, p0.root, pf, LinkedFile(t0, list, pf.image, file));
    p := p0.(image := image);
    assert IsFound(t0, list, file, found);
    assert LinkedAndMapped(w, list, p, machine.words[..]);
  }

  /** The image with the segments its headers spell by now. */
  function WithSegments(image: Image, program: Program): Image {
    if image.Elf? && program.ElfProgram? then image.(segments := program.segments) else image
  }

  /** Nothing placed depends on the segments. */
  lemma SegmentsReplaced(t0: seq<bv8>, w0: seq<u32>, program: Program, found: Program, file: seq<byte>,
                         leaked: set<nat>, p: Process, t: seq<bv8>, w: seq<u32>)
    requires Unmapped(t0, w0, program, file, leaked, p, t, w)
    requires program.ElfProgram? == found.ElfProgram? && (!program.ElfProgram? ==> program == found)
    ensures Unmapped(t0, w0, found, file, leaked, p.(image := WithSegments(p.image, found)), t, w)
  {
    var q := p.(image := WithSegments(p.image, found));
    SameShape(t0, p.image, q.image);
    forall r
      ensures Live(q, r) <==> Live(p, r)
      ensures Live(p, r) ==> Start(w, q, r) == Start(w, p, r) && (Owns(t, w, q, r) <==> Owns(t, w, p, r))
    {
    }
    ClaimsSame(t0, t, w, p, q);
    LossesSame(t0, t, w, p, q, leaked);
  }

  /** Two processes that rest on the same extents in the same roles. */
  ghost predicate SameClaims(t: seq<bv8>, w: seq<u32>, p: Process, q: Process)
    requires M.InHeap(w, p.root) && M.InHeap(w, q.root)
  {
    forall r ::
      && (Live(q, r) <==> Live(p, r))
      && (Live(p, r) ==> Start(w, q, r) == Start(w, p, r) && (Owns(t, w, q, r) <==> Owns(t, w, p, r)))
  }

  lemma ClaimsSame(t0: seq<bv8>, t: seq<bv8>, w: seq<u32>, p: Process, q: Process)
    requires M.InHeap(w, p.root) && M.InHeap(w, q.root) && SameClaims(t, w, p, q)
    requires NewClaims(t0, t, w, p) && PlacedByFirstFit(t0, t, w, p)
    requires q.image.Elf? == p.image.Elf? && q.image.size == p.image.size
    ensures NewClaims(t0, t, w, q) && PlacedByFirstFit(t0, t, w, q)
  {
    SameShape(t0, p.image, q.image);
  }

  lemma LossesSame(t0: seq<bv8>, t: seq<bv8>, w: seq<u32>, p: Process, q: Process, leaked: set<nat>)
    requires M.InHeap(w, p.root) && M.InHeap(w, q.root) && SameClaims(t, w, p, q)
    requires forall b :: b in leaked ==> IsLost(t0, t, w, p, b)
    requires forall b :: b in Decode(t) && b !in Decode(t0) && b !in leaked ==>
               exists r :: Live(p, r) && Start(w, p, r) == b
    ensures forall b :: b in leaked ==> IsLost(t0, t, w, q, b)
    ensures forall b :: b in Decode(t) && b !in Decode(t0) && b !in leaked ==>
              exists r :: Live(q, r) && Start(w, q, r) == b
  {
    forall b | b in leaked
      ensures IsLost(t0, t, w, q, b)
    {
      assert IsLost(t0, t, w, p, b);
    }
    forall b | b in Decode(t) && b !in Decode(t0) && b !in leaked
      ensures exists r :: Live(q, r) && Start(w, q, r) == b
    {
      var r :| Live(p, r) && Start(w, p, r) == b;
      assert Live(q, r) && Start(w, q, r) == b;
    }
  }

  // -- What process_map_memory finds -------------------------------------------------------------

  /** Linked into the list, the program is what FoundProgram says. */
  lemma ProgramIsFound(t0: seq<bv8>, w0: seq<u32>, program: Program, file: seq<byte>, leaked: set<nat>, p: Process,
                       t: seq<bv8>, w: seq<u32>, list: TaskList)
    requires |t0| == HEAP_BLOCKS && WellFormed(t0) && 0 < |file| <= 0xFFFF_F000 && IsProgram(file, program)
    requires ProgramMaps(FoundProgram(t0, list, program, file), |file|)
    requires Unmapped(t0, w0, FoundProgram(t0, list, program, file), file, leaked, p, t, w)
    requires InMemory(list.tail) && (list.head != 0 ==> IsLink(list.tail))
    ensures InMemory(p.task)
    ensures FindsProgram(AppendedWords(w, list, p.task), p.root, p, LinkedFile(t0, list, p.image, file))
  {
    var found := FoundProgram(t0, list, program, file);
    PlacedMappable(t0, w0, found, file, leaked, p, t, w);
    AppendedStaysWired(t0, t, w, p, list);
    TablesStayOffFile(t0, w0, found, file, leaked, p, t, w, AppendedWords(w, list, p.task));
    LinkedFileAt(t0, w0, found, file, leaked, p, t, w, list);
    FoundHeaders(t0, list, program, file, p.image);
  }

  lemma FoundHeaders(t0: seq<bv8>, list: TaskList, program: Program, file: seq<byte>, image: Image)
    requires |file| < TWO_32 && IsProgram(file, program)
    requires ImageIs(image, FoundProgram(t0, list, program, file), |file|)
    ensures var linked := LinkedFile(t0, list, image, file);
            image.Elf? ==> HeadersInFile(linked) && image.segments == Segments(Headers(linked))
  {
    SameLinkedFile(t0, list, Shape(program, |file|), image, file);
    if image.Elf? {
      LinkedHeaders(t0, list, image, file);
    }
  }

  /** The copy of the file once the task is in the list. */
  lemma LinkedFileAt(t0: seq<bv8>, w0: seq<u32>, program: Program, file: seq<byte>, leaked: set<nat>, p: Process,
                     t: seq<bv8>, w: seq<u32>, list: TaskList)
    requires |t0| == HEAP_BLOCKS && WellFormed(t0) && 0 < |file| <= 0xFFFF_F000
    requires Unmapped(t0, w0, program, file, leaked, p, t, w)
    requires InMemory(list.tail) && (list.head != 0 ==> IsLink(list.tail))
    ensures InMemory(p.task)
    ensures FileAt(AppendedWords(w, list, p.task), p.image.memory, LinkedFile(t0, list, p.image, file))
  {
    TaskIsLink(t0, t, w, p);
    if list.head != 0 {
      PrevStored(t0, w0, program, file, leaked, p, t, w, list.tail);
      LinkNearFile(t0, t, WithPrev(w, p.task, list.tail), p, file, list.tail);
      StoresInTurn(w, list, p.task);
    }
  }

  /** Tables are those of w, or the block of the task itself. */
  ghost predicate TablesOrTask(w: seq<u32>, wl: seq<u32>, root: u32, task: u32)
    requires SpaceWired(w, root) && SpaceWired(wl, root)
  {
    && Directory(wl, root) == Directory(w, root)
    && forall k: nat :: k < ENTRIES ==>
         || TableFrame(wl, Directory(w, root), k) == TableFrame(w, Directory(w, root), k)
         || TableFrame(wl, Directory(w, root), k) == M.FIRST_FRAME + AddressToBlock(task)
  }

  /** Neither is in the file's copy. */
  lemma TablesStayOffFile(t0: seq<bv8>, w0: seq<u32>, program: Program, file: seq<byte>, leaked: set<nat>, p: Process,
                          t: seq<bv8>, w: seq<u32>, wl: seq<u32>)
    requires |t0| == HEAP_BLOCKS && WellFormed(t0) && 0 < |file| <= 0xFFFF_F000
    requires Unmapped(t0, w0, program, file, leaked, p, t, w)
    requires SpaceWired(wl, p.root) && TablesOrTask(w, wl, p.root, p.task)
    ensures TablesOffFile(wl, p.root, p.image.memory, |file|)
  {
    TaskIsLink(t0, t, w, p);
    ImagePlace(t0, t, w, p, file);
    FilePages(t, Start(w, p, ImageMemory), |file|);
    NewBlocks(t0, w0, program, file, leaked, p, t, w, Task);
    forall k: nat | k < ENTRIES
      ensures var b := Start(w, p, ImageMemory);
              !(b <= TableFrame(w, Directory(w, p.root), k) - M.FIRST_FRAME < b + BlocksFor(|file|))
    {
      NewBlocks(t0, w0, program, file, leaked, p, t, w, Tables(k + 1));
      TableStart(w, p, k);
    }
  }

  lemma TableStart(w: seq<u32>, p: Process, k: nat)
    requires SpaceWired(w, p.root) && M.InHeap(w, p.root) && k < ENTRIES
    ensures Live(p, Tables(k + 1))
    ensures Start(w, p, Tables(k + 1)) == TableFrame(w, Directory(w, p.root), k) - M.FIRST_FRAME
  {
    assert SpaceFrames(w, p.root)[k + 1] == TableFrame(w, Directory(w, p.root), k);
  }

  lemma FilePages(t: seq<bv8>, b: nat, size: u32)
    requires |t| == HEAP_BLOCKS && WellFormed(t) && b in Decode(t) && Decode(t)[b] == BlocksFor(size)
    requires b < HEAP_BLOCKS && 0 < size <= 0xFFFF_F000
    ensures BlockToAddress(b) / 4096 == M.FIRST_FRAME + b
    ensures PagesUpTo(BlockToAddress(b) + size) == M.FIRST_FRAME + b + BlocksFor(size)
  {
    LiveExtentFits(t, b);
    AddressOfBlock(b);
    RequestReservesBlocksIff(size);
  }

  /** Wherever the tail leads, the space can still be mapped into. */
  lemma AppendedStaysWired(t0: seq<bv8>, t: seq<bv8>, w: seq<u32>, p: Process, list: TaskList)
    requires FreshSpace(w, p) && NewClaims(t0, t, w, p) && PlacedByFirstFit(t0, t, w, p)
    requires InMemory(list.tail) && (list.head != 0 ==> IsLink(list.tail))
    ensures InMemory(p.task)
    ensures var wl := AppendedWords(w, list, p.task); SpaceWired(wl, p.root) && TablesOrTask(w, wl, p.root, p.task)
  {
    TaskIsLink(t0, t, w, p);
    if list.head != 0 {
      StoresInTurn(w, list, p.task);
      PrevStaysPlaced(t0, t, w, p, list.tail);
      LinkStaysWired(t0, t, WithPrev(w, p.task, list.tail), p, list.tail);
    }
  }

  lemma PrevStaysPlaced(t0: seq<bv8>, t: seq<bv8>, w: seq<u32>, p: Process, prev: u32)
    requires FreshSpace(w, p) && NewClaims(t0, t, w, p) && PlacedByFirstFit(t0, t, w, p)
    ensures InMemory(p.task)
    ensures var wp := WithPrev(w, p.task, prev);
            && FreshSpace(wp, p) && NewClaims(t0, t, wp, p) && SpacePlaced(t0, wp, p)
            && Directory(wp, p.root) == Directory(w, p.root)
            && forall k: nat :: k < ENTRIES ==>
                 TableFrame(wp, Directory(w, p.root), k) == TableFrame(w, Directory(w, p.root), k)
  {
    PrevOffSpace(t0, t, w, p, prev);
    var wp := WithPrev(w, p.task, prev);
    SameStarts(w, wp, p);
    ClaimsKeptBy(t0, t, w, wp, p);
    SpaceStarts(t0, t, wp, p);
    SameTables(w, wp, p.root);
  }

  lemma SameTables(w: seq<u32>, w': seq<u32>, root: u32)
    requires SpaceWired(w, root) && M.InHeap(w, root) && SpaceWired(w', root) && M.InHeap(w', root)
    requires M.SpaceBlocks(w', root) == M.SpaceBlocks(w, root)
    ensures Directory(w', root) == Directory(w, root)
    ensures forall k: nat :: k < ENTRIES ==>
              TableFrame(w', Directory(w, root), k) == TableFrame(w, Directory(w, root), k)
  {
    assert M.SpaceBlocks(w', root)[0] == Directory(w', root) / 4096 - M.FIRST_FRAME;
    assert M.SpaceBlocks(w, root)[0] == Directory(w, root) / 4096 - M.FIRST_FRAME;
    forall k: nat | k < ENTRIES
      ensures TableFrame(w', Directory(w, root), k) == TableFrame(w, Directory(w, root), k)
    {
      assert M.SpaceBlocks(w', root)[k + 1] == SpaceFrames(w', root)[k + 1] - M.FIRST_FRAME;
      assert M.SpaceBlocks(w, root)[k + 1] == SpaceFrames(w, root)[k + 1] - M.FIRST_FRAME;
    }
  }

  /** Storing val at word x leaves the space wired, its tables where they are or on val's own block. */
  ghost predicate LinkedTables(w: seq<u32>, root: u32, x: nat, val: u32)
    requires SpaceWired(w, root)
  {
    x < MEMORY_WORDS && SpaceWired(w[x := val], root) && TablesOrTask(w, w[x := val], root, val)
  }

  lemma LinkStaysWired(t0: seq<bv8>, t: seq<bv8>, w: seq<u32>, p: Process, a: u32)
    requires FreshSpace(w, p) && NewClaims(t0, t, w, p) && SpacePlaced(t0, w, p) && IsLink(a) && InMemory(a)
    ensures LinkedTables(w, p.root, a / 4 + NEXT, p.task)
  {
    if OverDirectory(t0, p, a) {
      TaskIsLink(t0, t, w, p);
      TaskOffSpace(t0, t, w, p);
      DirectoryStaysWired(w, p.root, a, p.task);
    } else if k: nat :| OverTable(t0, p, a, k) {
      TableStaysWired(t0, w, p, a, k);
    } else {
      OtherStaysWired(t0, w, p, a);
    }
  }

  lemma TableStaysWired(t0: seq<bv8>, w: seq<u32>, p: Process, a: u32, k: nat)
    requires SpaceWired(w, p.root) && SpacePlaced(t0, w, p) && IsLink(a) && InMemory(a) && OverTable(t0, p, a, k)
    ensures LinkedTables(w, p.root, a / 4 + NEXT, p.task)
  {
    LinkInTable(w, p.root, a, k);
    EntryStaysWired(w, p.root, k * 1024 + NEXT, p.task);
  }

  lemma OtherStaysWired(t0: seq<bv8>, w: seq<u32>, p: Process, a: u32)
    requires SpaceWired(w, p.root) && SpacePlaced(t0, w, p) && IsLink(a) && InMemory(a)
    requires !OverDirectory(t0, p, a) && forall k: nat :: !OverTable(t0, p, a, k)
    ensures LinkedTables(w, p.root, a / 4 + NEXT, p.task)
  {
    OtherLinkOffEntries(t0, w, p, a);
    WordStaysWired(w, p.root, a / 4 + NEXT, p.task);
  }

  lemma EntryStaysWired(w: seq<u32>, root: u32, v: nat, val: u32)
    requires SpaceWired(w, root) && v < PAGES
    ensures LinkedTables(w, root, EntryIndex(w, Directory(w, root), v), val)
  {
    SetInSpace(w, root, v, val);
    SameDirectoryFacts(w, w[EntryIndex(w, Directory(w, root), v) := val], Directory(w, root));
  }

  lemma WordStaysWired(w: seq<u32>, root: u32, x: nat, val: u32)
    requires SpaceWired(w, root) && OffEntries(w, root, x)
    ensures LinkedTables(w, root, x, val)
  {
    WordOffEntries(w, root, x, val);
    SameDirectoryFacts(w, w[x := val], Directory(w, root));
  }

  /** A link in the directory makes the block it leads to a table, which is no other page of the space. */
  lemma DirectoryStaysWired(w: seq<u32>, root: u32, a: u32, val: u32)
    requires SpaceWired(w, root) && M.InHeap(w, root) && IsLink(a) && InMemory(a) && IsLink(val) && val != 0
    requires M.SpaceBlocks(w, root)[0] == AddressToBlock(a) && SpaceAvoids(w, root, {AddressToBlock(val) as int})
    ensures LinkedTables(w, root, a / 4 + NEXT, val)
  {
    var wl, dir := w[a / 4 + NEXT := val], Directory(w, root);
    LinkInDirectory(w, root, a, val);
    LinkPlace(val);
    LinkPlace(a);
    forall i: nat | i < ENTRIES
      ensures TableFrame(wl, dir, i) == if i == NEXT then M.FIRST_FRAME + AddressToBlock(val) else TableFrame(w, dir, i)
      ensures TableFrame(w, dir, i) != M.FIRST_FRAME + AddressToBlock(val)
    {
      assert M.SpaceBlocks(w, root)[i + 1] == SpaceFrames(w, root)[i + 1] - M.FIRST_FRAME;
      assert i != NEXT ==> DirectoryEntry(wl, dir, i) == DirectoryEntry(w, dir, i);
    }
    assert M.SpaceBlocks(w, root)[0] == dir / 4096 - M.FIRST_FRAME;
    assert M.SpaceBlocks(w, root)[1025] == root / 4096 - M.FIRST_FRAME;
  }
}
