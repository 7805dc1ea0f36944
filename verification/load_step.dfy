/**
 What loading a program is: its allocations, each where first fit puts it, then the two stores that
 append its task to the list, then the windows of its image and its stack.
 */
module LoadSteps {
  import opened Words
  import opened Memory
  import opened HeapTable
  import opened Placement
  import opened Paging
  import opened Windows
  import opened AddressSpace
  import opened ElfFormat
  import opened Steps
  import opened TaskLinks
  import opened ImageLayout
  import M = Machine

  ghost predicate ProgramFits(program: Program, size: nat) {
    && 0 < size <= 0xFFFF_F000
    && match program
       case ElfProgram(segments) => SegmentsFit(segments, size)
       case FlatProgram => PROGRAM_BASE + size <= HEAP_BASE
       case RefusedElf => true
  }

  /** What loading and mapping alone need of a program, wherever in the heap its file is put. */
  ghost predicate ProgramMaps(program: Program, size: nat) {
    && 0 < size <= 0xFFFF_F000
    && match program
       case ElfProgram(segments) =>
         PagesDisjoint(segments) && forall i :: 0 <= i < |segments| ==> SegmentMaps(HEAP_END, segments[i])
       case FlatProgram => PROGRAM_BASE + size <= TWO_32
       case RefusedElf => true
  }

  lemma FittingProgramMaps(program: Program, size: nat)
    requires ProgramFits(program, size)
    ensures ProgramMaps(program, size)
  {
  }

  ghost predicate ImageIs(image: Image, program: Program, size: nat) {
    && image.size == size
    && match program
       case ElfProgram(segments) => image.Elf? && image.segments == segments
       case FlatProgram => image.Flat?
       case RefusedElf => false
  }

  /** Extents a load leaves behind: the record and the copy made while trying the file as ELF. */
  function LeakedExtents(program: Program): nat {
    if program.ElfProgram? then 0 else 2
  }

  /** Every claim of p rests on an extent of its own that was not live in t0. */
  ghost predicate NewClaims(t0: seq<bv8>, t: seq<bv8>, w: seq<u32>, p: Process)
    requires M.InHeap(w, p.root)
  {
    && (forall r :: Live(p, r) ==> Start(w, p, r) !in Decode(t0) && Owns(t, w, p, r))
    && (forall r, q :: Live(p, r) && Live(p, q) && Start(w, p, r) == Start(w, p, q) ==> r == q)
  }

  ghost predicate OnlyThesePages(words: seq<u32>, p: Process) {
    && IsMemory(words) && Directory(words, p.root) % 4096 == 0
    && forall v :: 0 <= v < PAGES && Untouched(ProcessWindows(p), v) ==>
         View(words, Directory(words, p.root))[v] == Entry(v, READ_ONLY)
  }

  // -- Where the extents go ----------------------------------------------------------------------

  /** How far into a first gap a load puts each of its extents, the roles in the order of the requests. */
  function Offset(image: Image, r: Role): nat {
    var n := BlocksFor(image.size);
    var m := if image.Elf? then 4 else 4 + n;
    match r
    case Self => 0
    case ElfRecord => 3
    case ImageMemory => m
    case Stack => m + n
    case Task => m + n + 4
    case Tables(k) => m + n + 5 + k
    case Data(_) => 0
  }

  function LoadBlocks(image: Image): nat {
    Offset(image, Tables(1026))
  }

  /** The blocks a load asks for, in order; a flat binary is read twice. */
  function LoadRequests(image: Image): (counts: seq<nat>)
    ensures |counts| == RequestOf(image, Tables(1026))
  {
    RecordRequests(image) + Ones(1026)
  }

  function RecordRequests(image: Image): seq<nat> {
    var n := BlocksFor(image.size);
    [BlocksFor(PROCESS_BYTES), BlocksFor(ELF_FILE_BYTES)] + (if image.Elf? then [n] else [n, n])
    + [BlocksFor(STACK_SIZE), BlocksFor(TASK_BYTES)]
  }

  /** Which of these requests is for a role. */
  function RequestOf(image: Image, r: Role): nat {
    var m := if image.Elf? then 2 else 3;
    match r
    case Self => 0
    case ElfRecord => 1
    case ImageMemory => m
    case Stack => m + 1
    case Task => m + 2
    case Tables(k) => m + 3 + k
    case Data(_) => 0
  }

  /** The block a load gets for a role, told from the table before. */
  ghost function Place(t0: seq<bv8>, image: Image, r: Role): int
    requires r.Tables? ==> r.k < 1026
  {
    PlaceOf(t0, LoadRequests(image), RequestOf(image, r))
  }

  /** Every extent of the load is where first fit puts it, and the table holds all that was asked for. */
  ghost predicate PlacedByFirstFit(t0: seq<bv8>, t: seq<bv8>, w: seq<u32>, p: Process)
    requires M.InHeap(w, p.root)
  {
    && t == Served(t0, LoadRequests(p.image))
    && forall r :: Live(p, r) && !r.Data? ==> Start(w, p, r) == Place(t0, p.image, r)
  }

  lemma RecordBlocks()
    ensures BlocksFor(PROCESS_BYTES) == 3 && BlocksFor(ELF_FILE_BYTES) == 1
    ensures BlocksFor(STACK_SIZE) == 4 && BlocksFor(TASK_BYTES) == 1
  {
  }

  lemma {:induction false} SumOnes(counts: seq<nat>, n: nat)
    ensures Sum(counts + Ones(n)) == Sum(counts) + n
  {
    if n == 0 {
      assert counts + Ones(0) == counts;
    } else {
      SumOnes(counts, n - 1);
      assert (counts + Ones(n))[..|counts| + n - 1] == counts + Ones(n - 1);
    }
  }

  lemma PrefixSum(counts: seq<nat>, i: nat)
    requires i < |counts|
    ensures Sum(counts[..0]) == 0 && Sum(counts[..i + 1]) == Sum(counts[..i]) + counts[i]
  {
    assert counts[..i + 1][..i] == counts[..i];
  }

  /** The blocks asked for before the stack, before the task, and before the paging structures. */
  lemma RecordSums(image: Image)
    ensures var records, n := RecordRequests(image), BlocksFor(image.size);
            var m := if image.Elf? then 2 else 3;
            var before := if image.Elf? then 4 else 4 + n;
            && |records| == m + 3
            && Sum(records[..0]) == 0 && Sum(records[..1]) == 3 && Sum(records[..m]) == before
            && Sum(records[..m + 1]) == before + n && Sum(records[..m + 2]) == before + n + 4
            && Sum(records) == before + n + 5
  {
    var records := RecordRequests(image);
    RecordBlocks();
    PrefixSum(records, 0);
    PrefixSum(records, 1);
    PrefixSum(records, 2);
    PrefixSum(records, 3);
    PrefixSum(records, 4);
    if image.Flat? {
      PrefixSum(records, 5);
    }
    assert records[..|records|] == records;
  }

  /** The blocks asked for before each role's request. */
  lemma OffsetIs(image: Image, r: Role)
    requires !r.Data? && (r.ElfRecord? ==> image.Elf?) && (r.Tables? ==> r.k <= 1026)
    ensures Sum(LoadRequests(image)[..RequestOf(image, r)]) == Offset(image, r)
  {
    var records := RecordRequests(image);
    RecordSums(image);
    Prefixes(records, Ones(1026));
    if r.Tables? {
      SumOnes(records, r.k);
      assert Ones(1026)[..r.k] == Ones(r.k);
    }
  }

  lemma Prefixes(a: seq<nat>, b: seq<nat>)
    ensures forall k :: 0 <= k <= |a| ==> (a + b)[..k] == a[..k]
    ensures forall k :: 0 <= k <= |b| ==> (a + b)[..|a| + k] == a + b[..k]
  {
  }

  /** In a first gap that has room for all of it, a load takes consecutive blocks. */
  ghost predicate PlacedInGap(t0: seq<bv8>, t: seq<bv8>, w: seq<u32>, p: Process)
    requires M.InHeap(w, p.root)
  {
    forall g: nat, e: nat :: Gap(t0, g, e) && g + LoadBlocks(p.image) <= e ==>
      && Gap(t, g + LoadBlocks(p.image), e)
      && forall r :: Live(p, r) && !r.Data? ==> Start(w, p, r) == g + Offset(p.image, r)
  }

  lemma FirstFitsInGap(t0: seq<bv8>, t: seq<bv8>, w: seq<u32>, p: Process)
    requires M.InHeap(w, p.root) && PlacedByFirstFit(t0, t, w, p) && 0 < p.image.size <= 0xFFFF_F000
    ensures PlacedInGap(t0, t, w, p)
  {
    RequestReservesBlocksIff(p.image.size);
    var counts := LoadRequests(p.image);
    OffsetIs(p.image, Tables(1026));
    assert counts[..|counts|] == counts;
    forall g: nat, e: nat | Gap(t0, g, e) && g + LoadBlocks(p.image) <= e
      ensures Gap(t, g + LoadBlocks(p.image), e)
      ensures forall r :: Live(p, r) && !r.Data? ==> Start(w, p, r) == g + Offset(p.image, r)
    {
      RecordBlocks();
      ServedInGap(t0, counts, g, e);
      forall r | Live(p, r) && !r.Data?
        ensures Start(w, p, r) == g + Offset(p.image, r)
      {
        OffsetIs(p.image, r);
      }
    }
  }

  // -- What is mapped ----------------------------------------------------------------------------

  /** The tail's link goes into the memory the file is read to. */
  ghost predicate OverImage(t0: seq<bv8>, image: Image, a: u32) {
    var b := Place(t0, image, ImageMemory);
    0 <= b <= AddressToBlock(a) < b + BlocksFor(image.size)
  }

  /** Where in the file, then. */
  ghost function LinkOffset(t0: seq<bv8>, image: Image, a: u32): nat
    requires OverImage(t0, image, a)
  {
    (AddressToBlock(a) - Place(t0, image, ImageMemory)) * 4096 + 4 * NEXT
  }

  /** The address the new task will have. */
  ghost function TaskAddress(t0: seq<bv8>, image: Image): u32 {
    var b := Place(t0, image, Task);
    if b < 0 then 0 else BlockToAddress(b)
  }

  /** The file as it is in memory once the link has been stored. */
  ghost function FileUnder(t0: seq<bv8>, image: Image, a: u32, file: seq<byte>): (linked: seq<byte>)
    ensures |linked| == |file|
  {
    if OverImage(t0, image, a) then Patched(file, LinkOffset(t0, image, a), TaskAddress(t0, image)) else file
  }

  ghost function LinkedFile(t0: seq<bv8>, list: TaskList, image: Image, file: seq<byte>): (linked: seq<byte>)
    ensures |linked| == |file|
  {
    if list.head == 0 then file else FileUnder(t0, image, list.tail, file)
  }

  /** An image of the file's kind and size: the requests of a load, and with them all places, depend on no more. */
  ghost function Shape(program: Program, size: u32): Image {
    if program.ElfProgram? then Elf(0, 0, size, []) else Flat(0, size)
  }

  lemma SameShape(t0: seq<bv8>, image: Image, image': Image)
    requires image.Elf? == image'.Elf? && image.size == image'.size
    ensures LoadRequests(image) == LoadRequests(image')
    ensures forall r: Role :: (r.Tables? ==> r.k < 1026) ==> Place(t0, image, r) == Place(t0, image', r)
    ensures forall a :: OverImage(t0, image, a) <==> OverImage(t0, image', a)
    ensures TaskAddress(t0, image) == TaskAddress(t0, image')
  {
    assert LoadRequests(image) == LoadRequests(image');
  }

  lemma SameLinkedFile(t0: seq<bv8>, list: TaskList, image: Image, image': Image, file: seq<byte>)
    requires image.Elf? == image'.Elf? && image.size == image'.size
    ensures LinkedFile(t0, list, image, file) == LinkedFile(t0, list, image', file)
  {
    SameShape(t0, image, image');
  }

  /**
   The program that is mapped: process_map_elf reads the program headers again, from the copy in
   memory, after the task has been linked. It does not look at their types.
   */
  ghost function FoundProgram(t0: seq<bv8>, list: TaskList, program: Program, file: seq<byte>): Program
    requires |file| < TWO_32 && IsProgram(file, program)
  {
    match program
    case ElfProgram(_) =>
      var linked := LinkedFile(t0, list, Shape(program, |file|), file);
      LinkedHeaders(t0, list, Shape(program, |file|), file);
      ElfProgram(Segments(Headers(linked)))
    case _ => program
  }

  lemma LinkedHeaders(t0: seq<bv8>, list: TaskList, image: Image, file: seq<byte>)
    requires HeadersInFile(file)
    ensures HeadersInFile(LinkedFile(t0, list, image, file))
  {
    if list.head != 0 && OverImage(t0, image, list.tail) {
      PatchedBehindHeader(file, LinkOffset(t0, image, list.tail), TaskAddress(t0, image));
    }
  }

  /** Off the file's copy the link changes nothing: what is mapped is what the file says. */
  lemma FoundIsProgram(t0: seq<bv8>, list: TaskList, program: Program, file: seq<byte>)
    requires |file| < TWO_32 && IsProgram(file, program)
    requires list.head == 0 || !OverImage(t0, Shape(program, |file|), list.tail)
    ensures FoundProgram(t0, list, program, file) == program
  {
  }

  /** What the file is when its headers are read first, and what is mapped. */
  ghost predicate IsFound(t0: seq<bv8>, list: TaskList, file: seq<byte>, found: Program) {
    |file| < TWO_32 && exists program ::
      IsProgram(file, program) && !program.RefusedElf? && found == FoundProgram(t0, list, program, file)
  }

  // -- The load ----------------------------------------------------------------------------------

  ghost predicate KeepsExtents(t0: seq<bv8>, t: seq<bv8>) {
    forall b :: b in Decode(t0) ==> b in Decode(t) && Decode(t)[b] == Decode(t0)[b]
  }

  /** The extent at b is new, and no claim of p rests on it. */
  ghost predicate IsLost(t0: seq<bv8>, t: seq<bv8>, w: seq<u32>, p: Process, b: nat)
    requires M.InHeap(w, p.root)
  {
    b in Decode(t) && b !in Decode(t0) && forall r :: Live(p, r) ==> Start(w, p, r) != b
  }

  /** What the allocations of a load come to, with the file read; the program is what will be mapped. */
  ghost predicate Placed(t0: seq<bv8>, w0: seq<u32>, program: Program, file: seq<byte>, leaked: set<nat>, p: Process,
                         t: seq<bv8>, w: seq<u32>) {
    && ImageIs(p.image, program, |file|) && NoAllocations(p)
    && |t| == |t0| && WellFormed(t) && KeepsExtents(t0, t)
    && M.InHeap(w, p.root) && NewClaims(t0, t, w, p) && PlacedByFirstFit(t0, t, w, p)
    && |leaked| == LeakedExtents(program)
    && (forall b :: b in leaked ==> IsLost(t0, t, w, p, b))
    && (forall b :: b in Decode(t) && b !in Decode(t0) && b !in leaked ==>
          exists r :: Live(p, r) && Start(w, p, r) == b)
    && M.OnlyBlocksChanged(w0, w, FreeBlocks(t0))
    && FileAt(w, p.image.memory, file)
  }

  /** A space in which nothing has been mapped. */
  ghost predicate FreshSpace(w: seq<u32>, p: Process) {
    && SpaceWired(w, p.root) && M.InHeap(w, p.root) && AllOpen(w, Directory(w, p.root))
    && IsIdentity(View(w, Directory(w, p.root)), READ_ONLY)
  }

  /** A new task's links are null. */
  ghost predicate Unlinked(w: seq<u32>, task: u32) {
    IsMemory(w) && InMemory(task) && PrevOf(w, task) == 0 && NextOf(w, task) == 0
  }

  /** Memory after the allocations of a load. */
  ghost predicate Unmapped(t0: seq<bv8>, w0: seq<u32>, program: Program, file: seq<byte>, leaked: set<nat>, p: Process,
                           t: seq<bv8>, w: seq<u32>) {
    Placed(t0, w0, program, file, leaked, p, t, w) && FreshSpace(w, p) && Unlinked(w, p.task)
  }

  /** Memory after loading p with no task list to append to: its file and its pages are in place. */
  ghost predicate Loaded(t0: seq<bv8>, w0: seq<u32>, program: Program, file: seq<byte>, leaked: set<nat>, p: Process,
                         t: seq<bv8>, w: seq<u32>) {
    Placed(t0, w0, program, file, leaked, p, t, w) && SpaceOK(w, p) && OnlyThesePages(w, p)
  }

  /** A load but for the task list's stores. */
  ghost predicate PlaceStep(s: System, i: int, program: Program, file: seq<byte>, leaked: set<nat>, p: Process,
                            s': System) {
    && 0 <= i < |s.processes| && !Alive(s, i)
    && s'.processes == s.processes[i := Some(p)]
    && Loaded(s.table, s.words, program, file, leaked, p, s'.table, s'.words)
  }

  /** task_new's stores (the tail's next, wherever the tail leads, and the new task's prev), then the mapping. */
  ghost predicate LinkedAndMapped(w: seq<u32>, list: TaskList, p: Process, w2: seq<u32>)
    requires IsMemory(w) && InMemory(p.task) && InMemory(list.tail)
  {
    MappedWindows(AppendedWords(w, list, p.task), w2, p.root, LoadWindows(p))
  }

  /** The allocations, the stores of the task list, the mapping. */
  ghost predicate LoadsTo(t0: seq<bv8>, w0: seq<u32>, list: TaskList, program: Program, file: seq<byte>,
                          leaked: set<nat>, p: Process, t: seq<bv8>, w2: seq<u32>) {
    && InMemory(p.task) && InMemory(list.tail) && IsFound(t0, list, file, program)
    && exists w :: Unmapped(t0, w0, program, file, leaked, p, t, w) && LinkedAndMapped(w, list, p, w2)
  }

  /** process_load_for_slot, for a file that is loaded. */
  ghost predicate LoadStep(s: System, i: int, program: Program, file: seq<byte>, leaked: set<nat>, p: Process,
                           s': System) {
    && 0 <= i < |s.processes| && !Alive(s, i)
    && s'.processes == s.processes[i := Some(p)]
    && s'.list == Appended(s.list, p.task)
    && LoadsTo(s.table, s.words, s.list, program, file, leaked, p, s'.table, s'.words)
  }

  // -- Where the tail leads --------------------------------------------------------------------

  /** The link goes into the page directory of the process being loaded. */
  ghost predicate OverDirectory(t0: seq<bv8>, p: Process, a: u32) {
    Place(t0, p.image, Tables(0)) == AddressToBlock(a)
  }

  /** The link goes into its page table k. */
  ghost predicate OverTable(t0: seq<bv8>, p: Process, a: u32, k: nat) {
    k < ENTRIES && Place(t0, p.image, Tables(k + 1)) == AddressToBlock(a)
  }

  /** A window of the process covers the page whose entry the link is in table k. */
  ghost predicate CoversLink(p: Process, k: nat) {
    !Untouched(ProcessWindows(p), k * 1024 + NEXT)
  }

  /** The link goes into a table, where the mapping of the process's own windows overwrites it. */
  ghost predicate Overwritten(t0: seq<bv8>, p: Process, a: u32) {
    exists k: nat :: OverTable(t0, p, a, k) && CoversLink(p, k)
  }

  /**
   What the new process itself asks of the tail: it leads to no block that becomes its page directory,
   and if it leads to one that becomes its page table k, a window covers the page whose entry the
   link is, or the link maps that page to itself.
   */
  ghost predicate SparesNew(t0: seq<bv8>, p: Process, a: u32) {
    && !OverDirectory(t0, p, a)
    && forall k: nat :: OverTable(t0, p, a, k) ==> CoversLink(p, k) || p.task == PageAddress(k * 1024 + NEXT)
  }

  /** The tail is null, or leads to a block in use. */
  ghost predicate TailStands(t: seq<bv8>, a: u32) {
    IsLink(a) && (AddressToBlock(a) < |t| ==> !IsFree(t[AddressToBlock(a)]))
  }

  /** Then nothing of the new process is where it leads. */
  lemma StandingTailSparesNew(t0: seq<bv8>, p: Process, a: u32)
    requires TailStands(t0, a)
    ensures SparesNew(t0, p, a) && forall k: nat :: !OverTable(t0, p, a, k)
  {
    forall k: nat | k < 1026
      ensures Place(t0, p.image, Tables(k)) != AddressToBlock(a)
    {
      assert LoadRequests(p.image)[RequestOf(p.image, Tables(k))] == 1;
      if Place(t0, p.image, Tables(k)) == AddressToBlock(a) {
        PlaceWasFree(t0, LoadRequests(p.image), RequestOf(p.image, Tables(k)), AddressToBlock(a));
      }
    }
  }

  /** Nor the file's copy: what is mapped is what the file says. */
  lemma StandingTailFindsProgram(t0: seq<bv8>, list: TaskList, program: Program, file: seq<byte>)
    requires TailStands(t0, list.tail) && |file| < TWO_32 && IsProgram(file, program)
    ensures FoundProgram(t0, list, program, file) == program
  {
    var image, a := Shape(program, |file|), list.tail;
    if OverImage(t0, image, a) {
      assert LoadRequests(image)[RequestOf(image, ImageMemory)] == BlocksFor(image.size);
      PlaceWasFree(t0, LoadRequests(image), RequestOf(image, ImageMemory), AddressToBlock(a));
    }
    FoundIsProgram(t0, list, program, file);
  }

  // -- Extents, bytes and blocks -----------------------------------------------------------------

  /** A start that is new was free before. */
  lemma NewStartWasFree(t0: seq<bv8>, t: seq<bv8>, b: nat)
    requires WellFormed(t0) && WellFormed(t) && |t| == |t0| && b in Decode(t) && b !in Decode(t0)
    requires forall c :: c in Decode(t0) ==> c in Decode(t) && Decode(t)[c] == Decode(t0)[c]
    ensures b < |t0| && IsFree(t0[b]) && !IsFree(t[b])
  {
    WellFormedRepresents(t0);
    WellFormedRepresents(t);
    assert Covers(Decode(t), b, b);
    FreeMeansUncovered(t0, Decode(t0), b);
    FreeMeansUncovered(t, Decode(t), b);
    if !IsFree(t0[b]) {
      var c: nat :| Covers(Decode(t0), c, b);
      assert Covers(Decode(t), c, b);
    }
  }

  lemma LiveExtentFits(t: seq<bv8>, b: nat)
    requires WellFormed(t) && b in Decode(t)
    ensures b + Decode(t)[b] <= |t|
  {
    WellFormedRepresents(t);
  }

  /** A link stored in an extent that holds a file changes four bytes of it. */
  lemma LinkInFile(w: seq<u32>, b: nat, file: seq<byte>, a: u32, val: u32)
    requires b < HEAP_BLOCKS && 0 < |file| <= 0xFFFF_F000 && b + BlocksFor(|file|) <= HEAP_BLOCKS
    requires FileAt(w, BlockToAddress(b), file) && IsLink(a) && InMemory(a)
    requires b <= AddressToBlock(a) < b + BlocksFor(|file|)
    ensures var o := (AddressToBlock(a) - b) * 4096 + 4 * NEXT;
            FileAt(StoreNext(w, a, val), BlockToAddress(b), Patched(file, o, val))
  {
    var o, ptr := (AddressToBlock(a) - b) * 4096 + 4 * NEXT, BlockToAddress(b);
    LinkPlace(a);
    ExtentAddresses(b, |file|);
    AddressOfBlock(b);
    forall x: u32 | ptr <= x < ptr + |file|
      ensures ByteAt(StoreNext(w, a, val), x) == PatchedByte(file, o, val, x - ptr)
    {
      LinkByte(w, a, val, ptr, o, x);
    }
  }

  lemma LinkByte(w: seq<u32>, a: u32, val: u32, ptr: u32, o: nat, x: u32)
    requires IsMemory(w) && InMemory(a) && a % 4 == 0 && ptr <= x && ptr + o == a + 4 * NEXT
    ensures ByteAt(StoreNext(w, a, val), x) == if o <= x - ptr < o + 4 then ByteOf(val, x - ptr - o) else ByteAt(w, x)
  {
    if o <= x - ptr < o + 4 {
      assert x / 4 == a / 4 + NEXT && x % 4 == x - ptr - o;
    } else {
      assert x / 4 != a / 4 + NEXT;
    }
  }

  /** A program that maps wherever the heap ends maps where in the heap it was read to. */
  lemma InHeapMaps(image: Image, program: Program)
    requires ProgramMaps(program, image.size) && ImageIs(image, program, image.size)
    requires image.memory % 4096 == 0 && image.memory + image.size <= HEAP_END
    ensures ImageMaps(image)
  {
    if program.ElfProgram? {
      forall i | 0 <= i < |program.segments|
        ensures SegmentMaps(image.memory, program.segments[i])
      {
        assert SegmentMaps(HEAP_END, program.segments[i]);
      }
    }
  }

  /** What is loaded can be mapped, wherever it was put. */
  lemma PlacedMappable(t0: seq<bv8>, w0: seq<u32>, program: Program, file: seq<byte>, leaked: set<nat>, p: Process,
                       t: seq<bv8>, w: seq<u32>)
    requires |t0| == HEAP_BLOCKS && ProgramMaps(program, |file|)
    requires Placed(t0, w0, program, file, leaked, p, t, w)
    ensures Mappable(p)
  {
    assert Owns(t, w, p, ImageMemory) && Owns(t, w, p, Stack);
    ClaimFits(t, w, p, ImageMemory);
    ClaimFits(t, w, p, Stack);
    InHeapMaps(p.image, program);
  }

  lemma ClaimFits(t: seq<bv8>, w: seq<u32>, p: Process, r: Role)
    requires |t| == HEAP_BLOCKS && WellFormed(t) && M.InHeap(w, p.root) && Live(p, r) && !r.Tables? && Owns(t, w, p, r)
    ensures Address(p, r) % 4096 == 0 && Address(p, r) + Size(p, r) <= HEAP_END
  {
    LiveExtentFits(t, Start(w, p, r));
    ExtentAddresses(Start(w, p, r), Size(p, r));
  }

  /** The blocks of a new space are where first fit puts them. */
  ghost predicate SpacePlaced(t0: seq<bv8>, w: seq<u32>, p: Process) {
    && M.InHeap(w, p.root)
    && forall k: nat :: k < 1026 ==> M.SpaceBlocks(w, p.root)[k] == Place(t0, p.image, Tables(k))
  }

  lemma SpaceStarts(t0: seq<bv8>, t: seq<bv8>, w: seq<u32>, p: Process)
    requires M.InHeap(w, p.root) && PlacedByFirstFit(t0, t, w, p)
    ensures SpacePlaced(t0, w, p)
  {
    forall k: nat | k < 1026
      ensures M.SpaceBlocks(w, p.root)[k] == Place(t0, p.image, Tables(k))
    {
      assert Live(p, Tables(k)) && Start(w, p, Tables(k)) == M.SpaceBlocks(w, p.root)[k];
    }
  }

  /** Writes off the extent of a file leave the file. */
  lemma FileOffBlocks(t: seq<bv8>, w: seq<u32>, w': seq<u32>, b: nat, blocks: set<int>, file: seq<byte>)
    requires |t| == HEAP_BLOCKS && WellFormed(t) && b < HEAP_BLOCKS && 0 < |file| <= 0xFFFF_F000
    requires b in Decode(t) && Decode(t)[b] == BlocksFor(|file|)
    requires forall x :: x in blocks ==> !(b <= x < b + BlocksFor(|file|))
    requires FileAt(w, BlockToAddress(b), file) && M.OnlyBlocksChanged(w, w', blocks)
    ensures FileAt(w', BlockToAddress(b), file)
  {
    LiveExtentFits(t, b);
    forall a: u32 | BlockToAddress(b) <= a < BlockToAddress(b) + |file|
      ensures ByteAt(w', a) == ByteAt(w, a)
    {
      var x := ByteInExtent(b, |file|, a);
      ByteKept(w, w', blocks, a);
    }
  }

  /** The task record and the paging structures of a new process are off its file. */
  lemma RecordOffFile(t: seq<bv8>, w: seq<u32>, p: Process, r: Role)
    requires WellFormed(t) && M.InHeap(w, p.root) && Live(p, r) && r != ImageMemory
    requires Owns(t, w, p, ImageMemory) && Owns(t, w, p, r) && Start(w, p, r) != Start(w, p, ImageMemory)
    ensures var b := Start(w, p, ImageMemory); !(b <= Start(w, p, r) < b + BlocksFor(p.image.size))
  {
    var b, c := Start(w, p, ImageMemory), Start(w, p, r);
    RequestReservesBlocksIff(Size(p, r));
    if b <= c < b + BlocksFor(p.image.size) {
      ExtentsShareBlock(t, b, c, c);
    }
  }

  /** Writes to new blocks off the file, with the space where it was, leave everything placed. */
  lemma PlacedKept(t0: seq<bv8>, w0: seq<u32>, program: Program, file: seq<byte>, leaked: set<nat>, p: Process,
                   t: seq<bv8>, w: seq<u32>, w': seq<u32>, blocks: set<int>)
    requires |t0| == HEAP_BLOCKS && 0 < |file| <= 0xFFFF_F000 && Placed(t0, w0, program, file, leaked, p, t, w)
    requires M.OnlyBlocksChanged(w, w', blocks) && blocks <= FreeBlocks(t0)
    requires M.InHeap(w', p.root) && M.SpaceBlocks(w', p.root) == M.SpaceBlocks(w, p.root)
    requires var b := Start(w, p, ImageMemory); forall x :: x in blocks ==> !(b <= x < b + BlocksFor(|file|))
    ensures Placed(t0, w0, program, file, leaked, p, t, w')
  {
    SameStarts(w, w', p);
    ClaimsKeptBy(t0, t, w, w', p);
    assert Owns(t, w, p, ImageMemory);
    FileOffBlocks(t, w, w', Start(w, p, ImageMemory), blocks, file);
    assert M.OnlyBlocksChanged(w0, w', FreeBlocks(t0));
    LossesKept(t0, t, w, w', p, leaked);
  }

  lemma SameStarts(w: seq<u32>, w': seq<u32>, p: Process)
    requires M.InHeap(w, p.root) && M.InHeap(w', p.root) && M.SpaceBlocks(w', p.root) == M.SpaceBlocks(w, p.root)
    ensures forall r :: Live(p, r) ==> Start(w', p, r) == Start(w, p, r)
  {
  }

  lemma ClaimsKeptBy(t0: seq<bv8>, t: seq<bv8>, w: seq<u32>, w': seq<u32>, p: Process)
    requires M.InHeap(w, p.root) && M.InHeap(w', p.root) && NewClaims(t0, t, w, p) && PlacedByFirstFit(t0, t, w, p)
    requires forall r :: Live(p, r) ==> Start(w', p, r) == Start(w, p, r)
    ensures NewClaims(t0, t, w', p) && PlacedByFirstFit(t0, t, w', p)
  {
    forall r | Live(p, r)
      ensures Start(w', p, r) !in Decode(t0) && Owns(t, w', p, r)
    {
      assert Owns(t, w, p, r);
    }
  }

  lemma LossesKept(t0: seq<bv8>, t: seq<bv8>, w: seq<u32>, w': seq<u32>, p: Process, leaked: set<nat>)
    requires M.InHeap(w, p.root) && M.InHeap(w', p.root)
    requires forall r :: Live(p, r) ==> Start(w', p, r) == Start(w, p, r)
    requires forall b :: b in leaked ==> IsLost(t0, t, w, p, b)
    requires forall b :: b in Decode(t) && b !in Decode(t0) && b !in leaked ==>
               exists r :: Live(p, r) && Start(w, p, r) == b
    ensures forall b :: b in leaked ==> IsLost(t0, t, w', p, b)
    ensures forall b :: b in Decode(t) && b !in Decode(t0) && b !in leaked ==>
              exists r :: Live(p, r) && Start(w', p, r) == b
  {
    forall b | b in leaked
      ensures IsLost(t0, t, w', p, b)
    {
      assert IsLost(t0, t, w, p, b);
    }
    forall b | b in Decode(t) && b !in Decode(t0) && b !in leaked
      ensures exists r :: Live(p, r) && Start(w', p, r) == b
    {
      var r :| Live(p, r) && Start(w, p, r) == b;
      assert Start(w', p, r) == b;
    }
  }
}
