/**
 Which pages a process can write right after any load of a program that maps, fitting or not, and
 exactly when they are its own: a segment user code may write can run past the file's blocks.
 */
module LoadedWrites {
  import opened Words
  import opened HeapTable
  import opened Paging
  import opened Windows
  import opened AddressSpace
  import opened ElfFormat
  import opened TaskLinks
  import opened Isolation
  import opened ImageLayout
  import opened LoadSteps
  import opened LinkedLoads
  import M = Machine

  /** A load of a program that maps, into a well-formed table, with a tail that spares the new process. */
  ghost predicate LoadsProgram(s: System, i: int, program: Program, file: seq<byte>, leaked: set<nat>, p: Process,
                               s': System) {
    && |s.table| == HEAP_BLOCKS && WellFormed(s.table) && IsLink(s.list.tail)
    && ProgramMaps(program, |file|) && LoadStep(s, i, program, file, leaked, p, s')
    && (s.list.head == 0 || SparesNew(s.table, p, s.list.tail))
  }

  ghost predicate StackPage(stack: u32, f: int) {
    stack / 4096 <= f < stack / 4096 + 4
  }

  lemma StackBacks(stack: u32, f: int)
    requires stack % 4096 == 0
    ensures Backs(StackWindow(stack), f) <==> StackPage(stack, f)
  {
    StackWindowIs(stack);
  }

  lemma NoDataBacks(p: Process, f: int)
    requires NoAllocations(p)
    ensures forall k: nat :: k < |p.allocations| ==> !Backs(AllocationWindow(p.allocations[k]), f)
  {
  }

  /** What the new process can write: its writable segments or its flat image, and its stack. */
  lemma NewProcessWrites(s: System, i: int, program: Program, file: seq<byte>, leaked: set<nat>, p: Process, s': System,
                         f: int)
    requires LoadsProgram(s, i, program, file, leaked, p, s')
    ensures CanWrite(s', i, f) <==> WritableImagePage(p.image, f) || StackPage(p.stack, f)
  {
    LoadEnds(s, i, program, file, leaked, p, s');
    StackAligned(s.table, s'.table, s'.words, p);
    NewSpaceWrites(s'.words, p, f);
  }

  lemma StackAligned(t0: seq<bv8>, t: seq<bv8>, w: seq<u32>, p: Process)
    requires M.InHeap(w, p.root) && NewClaims(t0, t, w, p)
    ensures p.stack % 4096 == 0
  {
    assert Owns(t, w, p, Stack);
    AddressOfBlock(Start(w, p, Stack));
  }

  lemma NewSpaceWrites(w: seq<u32>, p: Process, f: int)
    requires SpaceOK(w, p) && NoAllocations(p) && p.stack % 4096 == 0
    ensures WritablePage(w, Directory(w, p.root), f) <==> WritableImagePage(p.image, f) || StackPage(p.stack, f)
  {
    WritableExactly(w, Directory(w, p.root), ProcessWindows(p), f);
    SomeWindowBacks(p, f);
    ImageWindowBacks(p.image, f);
    StackBacks(p.stack, f);
    NoDataBacks(p, f);
  }

  /** Page f belongs to the image or the stack of process i. */
  ghost predicate OwnPage(s: System, i: int, f: int) {
    PageOf(s, i, ImageMemory, f) || PageOf(s, i, Stack, f)
  }

  /** The pages of image and stack, counted from their first blocks. */
  lemma OwnPages(s: System, i: int, program: Program, file: seq<byte>, leaked: set<nat>, p: Process, s': System, f: int)
    requires LoadsProgram(s, i, program, file, leaked, p, s')
    ensures p.image.memory % 4096 == 0 && p.image.size == |file|
    ensures OwnPage(s', i, f) <==>
            || p.image.memory / 4096 <= f < p.image.memory / 4096 + BlocksFor(|file|)
            || StackPage(p.stack, f)
  {
    LoadEnds(s, i, program, file, leaked, p, s');
    ClaimPage(s', i, p, ImageMemory, f);
    ClaimPage(s', i, p, Stack, f);
    RecordBlocks();
  }

  lemma ClaimPage(s: System, i: int, p: Process, r: Role, f: int)
    requires Alive(s, i) && s.processes[i].value == p && M.InHeap(s.words, p.root)
    requires Live(p, r) && !r.Tables? && Owns(s.table, s.words, p, r)
    ensures Address(p, r) % 4096 == 0
    ensures PageOf(s, i, r, f) <==> Address(p, r) / 4096 <= f < Address(p, r) / 4096 + BlocksFor(Size(p, r))
  {
    var b := Start(s.words, p, r);
    AddressOfBlock(b);
    assert Holds(s, i, r, b);
  }

  /** Segment g of the image reaches no page but the process's own. */
  ghost predicate StaysInside(s: System, i: int, memory: u32, g: Segment) {
    forall f :: SegmentPage(memory, g, f) ==> OwnPage(s, i, f)
  }

  /** All writable segments stay inside. */
  ghost predicate SegmentsStayInside(s: System, i: int, p: Process) {
    p.image.Elf? ==>
      forall k :: 0 <= k < |p.image.segments| && IsWritable(p.image.segments[k]) ==>
        StaysInside(s, i, p.image.memory, p.image.segments[k])
  }

  /**
   After any load, user code can write its own image and stack only exactly when every writable
   segment stays there.
   */
  lemma WritesStayInsideIff(s: System, i: int, program: Program, file: seq<byte>, leaked: set<nat>, p: Process,
                            s': System)
    requires LoadsProgram(s, i, program, file, leaked, p, s')
    ensures (forall f :: CanWrite(s', i, f) ==> OwnPage(s', i, f)) <==> SegmentsStayInside(s', i, p)
  {
    forall f
      ensures CanWrite(s', i, f) <==> WritableImagePage(p.image, f) || StackPage(p.stack, f)
      ensures StackPage(p.stack, f) ==> OwnPage(s', i, f)
      ensures p.image.Flat? && WritableImagePage(p.image, f) ==> OwnPage(s', i, f)
    {
      NewProcessWrites(s, i, program, file, leaked, p, s', f);
      OwnPages(s, i, program, file, leaked, p, s', f);
      if p.image.Flat? {
        FlatPages(p.image.memory, |file|, f);
      }
    }
    if (forall f :: CanWrite(s', i, f) ==> OwnPage(s', i, f)) && p.image.Elf? {
      forall k | 0 <= k < |p.image.segments| && IsWritable(p.image.segments[k])
        ensures StaysInside(s', i, p.image.memory, p.image.segments[k])
      {
        assert forall f :: SegmentPage(p.image.memory, p.image.segments[k], f) ==> WritableImagePage(p.image, f);
      }
    }
  }

  lemma FlatPages(memory: u32, size: u32, f: int)
    requires memory % 4096 == 0 && 0 < size <= 0xFFFF_F000
    ensures memory / 4096 <= f < PagesUpTo(memory + size) ==> memory / 4096 <= f < memory / 4096 + BlocksFor(size)
  {
    RequestReservesBlocksIff(size);
    assert memory == 4096 * (memory / 4096);
  }

  // -- In numbers --------------------------------------------------------------------------------

  /** Every writable segment ends within the first n pages from the start of the file. */
  ghost predicate WritableWithin(program: Program, n: nat) {
    program.ElfProgram? ==>
      forall k :: 0 <= k < |program.segments| && IsWritable(program.segments[k]) ==> PagesWithin(program.segments[k], n)
  }

  /** Segments that end in the file's own blocks are always safe. */
  lemma WithinFileStaysInside(s: System, i: int, program: Program, file: seq<byte>, leaked: set<nat>, p: Process,
                              s': System)
    requires LoadsProgram(s, i, program, file, leaked, p, s') && WritableWithin(program, BlocksFor(|file|))
    ensures forall f :: CanWrite(s', i, f) ==> OwnPage(s', i, f)
  {
    if p.image.Elf? {
      forall k | 0 <= k < |p.image.segments| && IsWritable(p.image.segments[k])
        ensures StaysInside(s', i, p.image.memory, p.image.segments[k])
      {
        var g := p.image.segments[k];
        OwnPages(s, i, program, file, leaked, p, s', 0);
        assert SegmentMaps(HEAP_END, g);
        SegmentWithinIff(p.image.memory, g, BlocksFor(|file|));
        forall f | SegmentPage(p.image.memory, g, f)
          ensures OwnPage(s', i, f)
        {
          OwnPages(s, i, program, file, leaked, p, s', f);
        }
      }
    }
    WritesStayInsideIff(s, i, program, file, leaked, p, s');
  }

  // -- In numbers, before the load ----------------------------------------------------------------

  /** How far behind the file's first block the stack's will be, told from the table and the file's size. */
  ghost function StackGap(t0: seq<bv8>, size: u32): int {
    Place(t0, Elf(0, 0, size, []), Stack) - Place(t0, Elf(0, 0, size, []), ImageMemory)
  }

  /** Counted from the file's first block, the segment's pages are among the file's n and the stack's four. */
  predicate PagesOwned(g: Segment, n: nat, gap: int) {
    var a, c := g.offset / 4096, PagesUpTo(g.offset + g.memSize);
    || SegmentPages(g) == 0
    || c <= n
    || (gap == n && c <= n + 4)
    || (gap <= a && c <= gap + 4)
  }

  /** What a caller can check: every writable segment's pages are among those. */
  ghost predicate WritesOwned(t0: seq<bv8>, program: Program, size: u32) {
    program.ElfProgram? ==>
      forall k :: 0 <= k < |program.segments| && IsWritable(program.segments[k]) ==>
        PagesOwned(program.segments[k], BlocksFor(size), StackGap(t0, size))
  }

  /** The exact condition, on the heap table before the load and the program: whatever the heap looks like. */
  lemma WritesStayInsideBeforeIff(s: System, i: int, program: Program, file: seq<byte>, leaked: set<nat>, p: Process,
                                  s': System)
    requires LoadsProgram(s, i, program, file, leaked, p, s')
    ensures (forall f :: CanWrite(s', i, f) ==> OwnPage(s', i, f)) <==> WritesOwned(s.table, program, |file|)
  {
    WritesStayInsideIff(s, i, program, file, leaked, p, s');
    if p.image.Elf? {
      SegmentsOwnedIff(s, i, program, file, leaked, p, s');
    }
  }

  lemma SegmentsOwnedIff(s: System, i: int, program: Program, file: seq<byte>, leaked: set<nat>, p: Process, s': System)
    requires LoadsProgram(s, i, program, file, leaked, p, s') && p.image.Elf?
    ensures p.image.segments == program.segments
    ensures forall k :: 0 <= k < |program.segments| ==>
              (StaysInside(s', i, p.image.memory, program.segments[k])
               <==> PagesOwned(program.segments[k], BlocksFor(|file|), StackGap(s.table, |file|)))
  {
    StackBehindFile(s, i, program, file, leaked, p, s');
    OwnPages(s, i, program, file, leaked, p, s', 0);
    forall f
      ensures OwnPage(s', i, f)
              <==> OwnOffset(BlocksFor(|file|), StackGap(s.table, |file|), f - p.image.memory / 4096)
    {
      OwnPages(s, i, program, file, leaked, p, s', f);
    }
    StayInsideIsOwned(s', i, p.image, BlocksFor(|file|), StackGap(s.table, |file|));
  }

  /** Page d from the file's first on is the file's or the stack's. */
  predicate OwnOffset(n: nat, gap: int, d: int) {
    0 <= d < n || gap <= d < gap + 4
  }

  lemma StayInsideIsOwned(s: System, i: int, image: Image, n: nat, gap: int)
    requires image.Elf? && image.memory % 4096 == 0 && (gap >= n || gap + 4 <= 0)
    requires forall f :: OwnPage(s, i, f) <==> OwnOffset(n, gap, f - image.memory / 4096)
    requires forall k :: 0 <= k < |image.segments| ==> SegmentMaps(HEAP_END, image.segments[k])
    ensures forall k :: 0 <= k < |image.segments| ==>
              (StaysInside(s, i, image.memory, image.segments[k]) <==> PagesOwned(image.segments[k], n, gap))
  {
    forall k | 0 <= k < |image.segments|
      ensures StaysInside(s, i, image.memory, image.segments[k]) <==> PagesOwned(image.segments[k], n, gap)
    {
      StaysInsideIff(s, i, image.memory, image.segments[k], n, gap);
    }
  }

  lemma StaysInsideIff(s: System, i: int, memory: u32, g: Segment, n: nat, gap: int)
    requires memory % 4096 == 0 && g.vAddr % 4096 == g.offset % 4096 && (gap >= n || gap + 4 <= 0)
    requires forall f :: OwnPage(s, i, f) <==> OwnOffset(n, gap, f - memory / 4096)
    ensures StaysInside(s, i, memory, g) <==> PagesOwned(g, n, gap)
  {
    var m, a, c := memory / 4096, g.offset / 4096, PagesUpTo(g.offset + g.memSize);
    SegmentEnds(memory, g);
    assert forall f :: SegmentPage(memory, g, f) <==> m + a <= f < m + c;
    if StaysInside(s, i, memory, g) && a < c {
      assert SegmentPage(memory, g, m + c - 1);
      assert SegmentPage(memory, g, m + a);
      assert a <= gap - 1 < c ==> SegmentPage(memory, g, m + gap - 1);
      assert a <= n < c ==> SegmentPage(memory, g, m + n);
    }
  }

  lemma StackBehindFile(s: System, i: int, program: Program, file: seq<byte>, leaked: set<nat>, p: Process, s': System)
    requires LoadsProgram(s, i, program, file, leaked, p, s') && p.image.Elf?
    ensures p.stack / 4096 - p.image.memory / 4096 == StackGap(s.table, |file|)
    ensures StackGap(s.table, |file|) >= BlocksFor(|file|) || StackGap(s.table, |file|) + 4 <= 0
  {
    LoadEnds(s, i, program, file, leaked, p, s');
    PlacesBySize(s.table, p.image, Elf(0, 0, |file|, []));
    StackApart(s.table, s'.table, s'.words, p);
  }

  /** Where the image and the stack go is a matter of the table and the file's size. */
  lemma PlacesBySize(t0: seq<bv8>, image: Image, image': Image)
    requires image.Elf? && image'.Elf? && image.size == image'.size
    ensures Place(t0, image, ImageMemory) == Place(t0, image', ImageMemory)
    ensures Place(t0, image, Stack) == Place(t0, image', Stack)
  {
    assert LoadRequests(image) == LoadRequests(image');
  }

  lemma StackApart(t0: seq<bv8>, t: seq<bv8>, w: seq<u32>, p: Process)
    requires |t| == HEAP_BLOCKS && WellFormed(t) && M.InHeap(w, p.root)
    requires NewClaims(t0, t, w, p) && PlacedByFirstFit(t0, t, w, p)
    ensures var gap := Place(t0, p.image, Stack) - Place(t0, p.image, ImageMemory);
            && p.stack / 4096 - p.image.memory / 4096 == gap
            && (gap >= BlocksFor(p.image.size) || gap + 4 <= 0)
  {
    assert Owns(t, w, p, ImageMemory) && Owns(t, w, p, Stack);
    var b, c := Start(w, p, ImageMemory), Start(w, p, Stack);
    AddressOfBlock(b);
    AddressOfBlock(c);
    RecordBlocks();
    ExtentsApart(t, b, c);
  }

  lemma ExtentsApart(t: seq<bv8>, b: nat, c: nat)
    requires WellFormed(t) && b in Decode(t) && c in Decode(t) && b != c
    ensures b + Decode(t)[b] <= c || c + Decode(t)[c] <= b
  {
    WellFormedRepresents(t);
    var x := if b <= c then c else b;
    if b + Decode(t)[b] > c && c + Decode(t)[c] > b {
      ExtentsShareBlock(t, b, c, x);
    }
  }

  /** In a first gap the stack lies right behind the file, so the bound is four pages more. */
  lemma WritesStayInsideInGapIff(s: System, i: int, program: Program, file: seq<byte>, leaked: set<nat>, p: Process,
                                 s': System, g: nat, e: nat)
    requires LoadsProgram(s, i, program, file, leaked, p, s')
    requires Gap(s.table, g, e) && g + LoadBlocks(p.image) <= e
    ensures (forall f :: CanWrite(s', i, f) ==> OwnPage(s', i, f)) <==> WritableWithin(program, BlocksFor(|file|) + 4)
  {
    WritesStayInsideBeforeIff(s, i, program, file, leaked, p, s');
    if p.image.Elf? {
      StackBehindFile(s, i, program, file, leaked, p, s');
      StackFollowsFile(s, i, program, file, leaked, p, s', g, e);
    }
  }

  lemma StackFollowsFile(s: System, i: int, program: Program, file: seq<byte>, leaked: set<nat>, p: Process, s': System,
                         g: nat, e: nat)
    requires LoadsProgram(s, i, program, file, leaked, p, s')
    requires Gap(s.table, g, e) && g + LoadBlocks(p.image) <= e
    ensures p.stack / 4096 == p.image.memory / 4096 + BlocksFor(|file|)
  {
    LoadEnds(s, i, program, file, leaked, p, s');
    ClaimFrame(s.table, s'.table, s'.words, p, ImageMemory, g, e);
    ClaimFrame(s.table, s'.table, s'.words, p, Stack, g, e);
  }

  lemma ClaimFrame(t0: seq<bv8>, t: seq<bv8>, w: seq<u32>, p: Process, r: Role, g: nat, e: nat)
    requires M.InHeap(w, p.root) && NewClaims(t0, t, w, p) && PlacedInGap(t0, t, w, p)
    requires Gap(t0, g, e) && g + LoadBlocks(p.image) <= e && Live(p, r) && !r.Data? && !r.Tables?
    ensures Address(p, r) / 4096 == M.FIRST_FRAME + g + Offset(p.image, r)
  {
    assert Owns(t, w, p, r);
    AddressOfBlock(Start(w, p, r));
  }

  // -- A program with a large .bss ---------------------------------------------------------------

  /**
   Behind the stack come the task record, the page directory and the page tables: user code writes
   them if one of its segments reaches that far.
   */
  lemma BssReachesKernelRecords(s: System, i: int, program: Program, file: seq<byte>, leaked: set<nat>, p: Process,
                                s': System, g: nat, e: nat, k: nat, r: Role)
    requires LoadsProgram(s, i, program, file, leaked, p, s') && program.ElfProgram? && k < |program.segments|
    requires Gap(s.table, g, e) && g + LoadBlocks(p.image) <= e
    requires r == Task || (r.Tables? && r.k < 1026)
    requires var c := program.segments[k];
             && IsWritable(c)
             && c.offset / 4096 <= Offset(p.image, r) - Offset(p.image, ImageMemory) < PagesUpTo(c.offset + c.memSize)
    ensures exists f :: CanWrite(s', i, f) && PageOf(s', i, r, f)
  {
    LoadEnds(s, i, program, file, leaked, p, s');
    var f := M.FIRST_FRAME + g + Offset(p.image, r);
    ClaimFrame(s.table, s'.table, s'.words, p, ImageMemory, g, e);
    RolePage(s.table, s', i, p, r, g, e);
    OwnPages(s, i, program, file, leaked, p, s', f);
    assert SegmentMaps(HEAP_END, program.segments[k]);
    PageOfSegment(p.image, k, f);
    NewProcessWrites(s, i, program, file, leaked, p, s', f);
  }

  /** The page of a one-block role in a gap. */
  lemma RolePage(t0: seq<bv8>, s: System, i: int, p: Process, r: Role, g: nat, e: nat)
    requires Alive(s, i) && s.processes[i].value == p && M.InHeap(s.words, p.root)
    requires NewClaims(t0, s.table, s.words, p) && PlacedInGap(t0, s.table, s.words, p)
    requires Gap(t0, g, e) && g + LoadBlocks(p.image) <= e && (r == Task || (r.Tables? && r.k < 1026))
    ensures PageOf(s, i, r, M.FIRST_FRAME + g + Offset(p.image, r))
  {
    assert Live(p, r) && Owns(s.table, s.words, p, r);
    assert Holds(s, i, r, g + Offset(p.image, r));
    RequestReservesBlocksIff(Size(p, r));
  }

  /** A page of a writable segment, counted from the file's first. */
  lemma PageOfSegment(image: Image, k: nat, f: int)
    requires image.Elf? && k < |image.segments| && image.memory % 4096 == 0 && IsWritable(image.segments[k])
    requires image.segments[k].vAddr % 4096 == image.segments[k].offset % 4096
    requires image.segments[k].offset / 4096 <= f - image.memory / 4096
             < PagesUpTo(image.segments[k].offset + image.segments[k].memSize)
    ensures WritableImagePage(image, f)
  {
    SegmentEnds(image.memory, image.segments[k]);
    assert SegmentPage(image.memory, image.segments[k], f);
  }

  /** One page of file and a segment of 28 KB. */
  function BssProgram(): Program {
    ElfProgram([Segment(0, PROGRAM_BASE, 0x1000, 0x7000, PF_W)])
  }

  /**
   The program maps but does not fit. Loaded into an empty heap it can write its own task record and
   its own page directory.
   */
  lemma BssProgramEscapes(s: System, i: int, file: seq<byte>, leaked: set<nat>, p: Process, s': System)
    requires |file| == 0x1000 && Gap(s.table, 0, HEAP_BLOCKS)
    requires LoadsProgram(s, i, BssProgram(), file, leaked, p, s')
    ensures !ProgramFits(BssProgram(), |file|)
    ensures exists f :: CanWrite(s', i, f) && PageOf(s', i, Task, f)
    ensures exists f :: CanWrite(s', i, f) && PageOf(s', i, Tables(0), f)
  {
    BssIsWritable();
    BssOffsets(p.image);
    BssReachesKernelRecords(s, i, BssProgram(), file, leaked, p, s', 0, HEAP_BLOCKS, 0, Task);
    BssReachesKernelRecords(s, i, BssProgram(), file, leaked, p, s', 0, HEAP_BLOCKS, 0, Tables(0));
  }

  lemma BssOffsets(image: Image)
    requires image.Elf? && image.size == 0x1000
    ensures Offset(image, ImageMemory) == 4 && Offset(image, Task) == 9 && Offset(image, Tables(0)) == 10
    ensures LoadBlocks(image) == 1036
  {
  }

  lemma BssIsWritable()
    ensures IsWritable(BssProgram().segments[0]) && PagesUpTo(BssProgram().segments[0].memSize) == 7
    ensures ProgramMaps(BssProgram(), 0x1000) && !ProgramFits(BssProgram(), 0x1000)
  {
    var c := BssProgram().segments[0];
    assert BlocksFor(0x1000) == 1;
    assert !PagesWithin(c, 1);
    assert !SegmentFits(c, 0x1000);
  }
}
