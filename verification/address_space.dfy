/**
 The whole kernel memory state with its processes, as a value, and the invariant that ties heap
 ownership to what each process's page tables let it write.
 */
module AddressSpace {
  import opened Words
  import opened Memory
  import opened HeapTable
  import opened Paging
  import opened Windows
  import M = Machine

  const MAX_PROCESSES: int := 12
  const MAX_ALLOCATIONS: int := 0x400
  const PROGRAM_BASE: u32 := 0x40_0000
  const STACK_BASE: u32 := 0x3F_B000
  const STACK_SIZE: u32 := 0x4000
  const HEAP_END: u32 := 0x0740_0000

  // Sizes of the kernel's own records, from their declarations.
  const PROCESS_BYTES: u32 := 9364
  const ELF_FILE_BYTES: u32 := 132
  const TASK_BYTES: u32 := 64

  const PF_W: u32 := 2

  datatype Option<+T> = None | Some(value: T)

  datatype Allocation = Allocation(ptr: u32, size: u32)

  /** A PT_LOAD program header. */
  datatype Segment = Segment(offset: u32, vAddr: u32, fileSize: u32, memSize: u32, flags: u32)

  datatype Image =
    | Elf(file: u32, memory: u32, size: u32, segments: seq<Segment>)
    | Flat(memory: u32, size: u32)

  datatype Process = Process(
    self: u32,
    image: Image,
    stack: u32,
    task: u32,
    root: u32,
    allocations: seq<Allocation>)

  /** task_head, task_tail and current_task. */
  datatype TaskList = TaskList(head: u32, tail: u32, current: u32)

  datatype System = System(table: seq<bv8>, words: seq<u32>, processes: seq<Option<Process>>, list: TaskList)

  // -- Windows of a process --------------------------------------------------------------------

  function RangeWindow(vAddr: nat, start: nat, size: nat, flags: u32): Window {
    Window(vAddr / 4096, start / 4096, PagesUpTo(start + size) - start / 4096, flags)
  }

  function SegmentFlags(segment: Segment): u32 {
    if IsWritable(segment) then READ_WRITE else READ_ONLY
  }

  function SegmentWindow(memory: u32, segment: Segment): Window {
    RangeWindow(segment.vAddr, memory + segment.offset, segment.memSize, SegmentFlags(segment))
  }

  function ImageWindows(image: Image): seq<Window> {
    match image
    case Elf(_, memory, _, segments) =>
      seq(|segments|, i requires 0 <= i < |segments| => SegmentWindow(memory, segments[i]))
    case Flat(memory, size) => [RangeWindow(PROGRAM_BASE, memory, size, READ_WRITE)]
  }

  function AllocationWindow(a: Allocation): Window {
    RangeWindow(a.ptr, a.ptr, a.size, READ_WRITE)
  }

  function StackWindow(stack: u32): Window {
    RangeWindow(STACK_BASE, stack, STACK_SIZE, READ_WRITE)
  }

  function AllocationWindows(allocations: seq<Allocation>): (ws: seq<Window>)
    ensures |ws| == |allocations|
  {
    seq(|allocations|, i requires 0 <= i < |allocations| => AllocationWindow(allocations[i]))
  }

  function ProcessWindows(p: Process): seq<Window> {
    ImageWindows(p.image) + [StackWindow(p.stack)] + AllocationWindows(p.allocations)
  }

  // -- What a loadable program looks like ------------------------------------------------------

  /** Virtual pages a segment occupies. */
  function SegmentPages(segment: Segment): int {
    PagesUpTo(segment.vAddr + segment.memSize) - segment.vAddr / 4096
  }

  ghost predicate PageDisjoint(a: Segment, b: Segment) {
    || SegmentPages(a) == 0 || SegmentPages(b) == 0
    || a.vAddr / 4096 + SegmentPages(a) <= b.vAddr / 4096
    || b.vAddr / 4096 + SegmentPages(b) <= a.vAddr / 4096
  }

  ghost predicate PagesDisjoint(segments: seq<Segment>) {
    forall i, j :: 0 <= i < j < |segments| ==> PageDisjoint(segments[i], segments[j])
  }

  /** What mapping a segment needs: congruent offset and address, neither range overflowing 32 bits. */
  ghost predicate SegmentMaps(memory: u32, segment: Segment) {
    && segment.vAddr % 4096 == segment.offset % 4096
    && PROGRAM_BASE <= segment.vAddr && segment.vAddr + segment.memSize <= TWO_32
    && memory + segment.offset + segment.memSize <= 0xFFFF_F000
  }

  ghost predicate ImageMaps(image: Image) {
    && image.memory % 4096 == 0
    && match image
       case Elf(_, memory, _, segments) =>
         PagesDisjoint(segments) && forall i :: 0 <= i < |segments| ==> SegmentMaps(memory, segments[i])
       case Flat(memory, size) => PROGRAM_BASE + size <= TWO_32 && memory + size <= 0xFFFF_F000
  }

  /** User code may write the segment. */
  predicate IsWritable(segment: Segment) {
    And(segment.flags, PF_W) != 0
  }

  /** Bit 1 of p_flags decides: pages of a segment are present, open to user code and, with that bit, writable. */
  lemma SegmentFlagsAre(g: Segment)
    ensures IsWritable(g) <==> g.flags / 2 % 2 == 1
    ensures SegmentFlags(g) == if g.flags / 2 % 2 == 1 then 7 else 5
  {
    LowBits(g.flags);
  }

  /** The segment's pages are among the first n from the start of the file. */
  predicate PagesWithin(segment: Segment, n: nat) {
    SegmentPages(segment) == 0 || PagesUpTo(segment.offset + segment.memSize) <= n
  }

  /**
   What the invariant needs besides: a segment user code may write lies in the loaded file's blocks,
   and no segment at addresses where allocations are mapped.
   */
  ghost predicate SegmentFits(segment: Segment, size: u32) {
    && SegmentMaps(HEAP_END, segment)
    && (IsWritable(segment) ==> PagesWithin(segment, BlocksFor(size)))
    && (segment.vAddr + segment.memSize <= HEAP_BASE || HEAP_END <= segment.vAddr)
  }

  ghost predicate SegmentsFit(segments: seq<Segment>, size: u32) {
    PagesDisjoint(segments) && forall i :: 0 <= i < |segments| ==> SegmentFits(segments[i], size)
  }

  ghost predicate ImageFits(image: Image) {
    && 0 < image.size <= 0xFFFF_F000
    && match image
       case Elf(_, _, size, segments) => SegmentsFit(segments, size)
       case Flat(_, size) => PROGRAM_BASE + size <= HEAP_BASE
  }

  /** No allocation yet. */
  ghost predicate NoAllocations(p: Process) {
    |p.allocations| == MAX_ALLOCATIONS && forall k :: 0 <= k < MAX_ALLOCATIONS ==> p.allocations[k] == Allocation(0, 0)
  }

  // -- Who owns which heap extent --------------------------------------------------------------

  /** The reasons a process holds a heap extent. */
  datatype Role = Self | ImageMemory | ElfRecord | Stack | Task | Tables(k: nat) | Data(i: nat)

  ghost predicate Live(p: Process, r: Role) {
    match r
    case ElfRecord => p.image.Elf?
    case Tables(k) => k < 1026
    case Data(i) => i < |p.allocations| && p.allocations[i].ptr != 0
    case _ => true
  }

  /** The address behind a role, and the size asked for it; paging blocks are listed by the tables. */
  ghost function Address(p: Process, r: Role): u32
    requires Live(p, r) && !r.Tables?
  {
    match r
    case Self => p.self
    case ImageMemory => p.image.memory
    case ElfRecord => p.image.file
    case Stack => p.stack
    case Task => p.task
    case Data(i) => p.allocations[i].ptr
  }

  ghost function Size(p: Process, r: Role): u32
    requires Live(p, r)
  {
    match r
    case Self => 9364
    case ImageMemory => p.image.size
    case ElfRecord => 132
    case Stack => 0x4000
    case Task => 64
    case Tables(_) => 0x1000
    case Data(i) => p.allocations[i].size
  }

  /** Start block of the extent held for a role. */
  ghost function Start(words: seq<u32>, p: Process, r: Role): nat
    requires Live(p, r) && M.InHeap(words, p.root)
  {
    match r
    case Tables(k) => M.SpaceBlocks(words, p.root)[k]
    case _ => AddressToBlock(Address(p, r))
  }

  ghost predicate Owns(table: seq<bv8>, words: seq<u32>, p: Process, r: Role)
    requires Live(p, r) && M.InHeap(words, p.root)
  {
    var b := Start(words, p, r);
    && 0 < Size(p, r) <= 0xFFFF_F000
    && b < HEAP_BLOCKS
    && b in Decode(table) && Decode(table)[b] == BlocksFor(Size(p, r))
    && (!r.Tables? ==> Address(p, r) == BlockToAddress(b))
  }

  ghost predicate SpaceOK(words: seq<u32>, p: Process) {
    && SpaceWired(words, p.root) && M.InHeap(words, p.root)
    && AllOpen(words, Directory(words, p.root))
    && Layout(ProcessWindows(p))
    && Shows(View(words, Directory(words, p.root)), ProcessWindows(p))
  }

  ghost predicate ProcessOK(table: seq<bv8>, words: seq<u32>, p: Process) {
    && |p.allocations| == MAX_ALLOCATIONS
    && (forall i :: 0 <= i < MAX_ALLOCATIONS && p.allocations[i].ptr == 0 ==> p.allocations[i].size == 0)
    && ImageFits(p.image)
    && SpaceOK(words, p)
    && forall r :: Live(p, r) ==> Owns(table, words, p, r)
  }

  ghost predicate Alive(s: System, i: int) {
    0 <= i < |s.processes| && s.processes[i].Some?
  }

  ghost predicate Holds(s: System, i: int, r: Role, b: nat) {
    && Alive(s, i) && Live(s.processes[i].value, r)
    && M.InHeap(s.words, s.processes[i].value.root)
    && Start(s.words, s.processes[i].value, r) == b
  }

  /** No two claims, of one process or of two, rest on the same extent. */
  ghost predicate NoSharing(s: System) {
    forall i, j, r, q, b :: Holds(s, i, r, b) && Holds(s, j, q, b) ==> i == j && r == q
  }

  ghost predicate Inv(s: System) {
    && |s.table| == HEAP_BLOCKS && WellFormed(s.table)
    && IsMemory(s.words)
    && |s.processes| == 12
    && (forall i {:trigger ProcessOK(s.table, s.words, s.processes[i].value)} ::
          Alive(s, i) ==> ProcessOK(s.table, s.words, s.processes[i].value))
    && NoSharing(s)
  }

  // -- Consequences ----------------------------------------------------------------------------

  /** Physical pages user code of process i can write. */
  ghost predicate CanWrite(s: System, i: int, f: int) {
    && IsMemory(s.words) && Alive(s, i)
    && Directory(s.words, s.processes[i].value.root) % 4096 == 0
    && WritablePage(s.words, Directory(s.words, s.processes[i].value.root), f)
  }

  /** Physical page f lies in the extent of n blocks that starts at block b. */
  ghost predicate InExtent(b: nat, n: nat, f: int) {
    b + M.FIRST_FRAME <= f < b + M.FIRST_FRAME + n
  }

  /** Physical page f belongs to the extent process i holds for r. */
  ghost predicate PageOf(s: System, i: int, r: Role, f: int) {
    exists b: nat :: Holds(s, i, r, b) && InExtent(b, BlocksFor(Size(s.processes[i].value, r)), f)
  }

  /** Page f is one of the pages that hold the segment's bytes. */
  ghost predicate SegmentPage(memory: u32, segment: Segment, f: int) {
    (memory + segment.offset) / 4096 <= f < PagesUpTo(memory + segment.offset + segment.memSize)
  }

  /** Page f lies behind a segment marked PF_W, or behind any page of a flat binary. */
  ghost predicate WritableImagePage(image: Image, f: int) {
    match image
    case Elf(_, memory, _, segments) =>
      exists k :: 0 <= k < |segments| && IsWritable(segments[k]) && SegmentPage(memory, segments[k], f)
    case Flat(memory, size) => memory / 4096 <= f < PagesUpTo(memory + size)
  }

  ghost predicate LiveDataPage(s: System, i: int, f: int) {
    exists k: nat :: PageOf(s, i, Data(k), f)
  }

  lemma HeldExtent(s: System, i: int, r: Role, b: nat)
    requires Inv(s) && Holds(s, i, r, b)
    ensures b in Decode(s.table) && Decode(s.table)[b] == BlocksFor(Size(s.processes[i].value, r)) >= 1
    ensures b + BlocksFor(Size(s.processes[i].value, r)) <= HEAP_BLOCKS
    ensures Owns(s.table, s.words, s.processes[i].value, r)
  {
    assert ProcessOK(s.table, s.words, s.processes[i].value);
    assert Owns(s.table, s.words, s.processes[i].value, r);
  }

  lemma ExtentsShareBlock(t: seq<bv8>, b: nat, c: nat, x: int)
    requires WellFormed(t) && b in Decode(t) && c in Decode(t)
    requires b <= x < b + Decode(t)[b] && c <= x < c + Decode(t)[c]
    ensures b == c
  {
    WellFormedRepresents(t);
  }

  /** Claims that differ hold pages that differ. */
  lemma DifferentClaimsDifferentPages(s: System, i: int, r: Role, j: int, q: Role, f: int)
    requires Inv(s) && PageOf(s, i, r, f) && PageOf(s, j, q, f)
    ensures i == j && r == q
  {
    var b: nat :| Holds(s, i, r, b) && InExtent(b, BlocksFor(Size(s.processes[i].value, r)), f);
    var c: nat :| Holds(s, j, q, c) && InExtent(c, BlocksFor(Size(s.processes[j].value, q)), f);
    HeldExtent(s, i, r, b);
    HeldExtent(s, j, q, c);
    ExtentsShareBlock(s.table, b, c, f - M.FIRST_FRAME);
    OneClaimPerExtent(s, i, r, j, q, b);
  }

  lemma OneClaimPerExtent(s: System, i: int, r: Role, j: int, q: Role, b: nat)
    requires NoSharing(s) && Holds(s, i, r, b) && Holds(s, j, q, b)
    ensures i == j && r == q
  {
  }

  /** Rounding up to pages and rounding up to blocks agree on block addresses. */
  lemma RangePages(b: nat, size: u32)
    requires b < HEAP_BLOCKS && 0 < size <= 0xFFFF_F000 && b + BlocksFor(size) <= HEAP_BLOCKS
    ensures BlockToAddress(b) / 4096 == b + M.FIRST_FRAME
    ensures PagesUpTo(BlockToAddress(b) + size) == b + M.FIRST_FRAME + BlocksFor(size)
    ensures BlockToAddress(b) != 0
  {
    AddressOfBlock(b);
    RequestReservesBlocksIff(size);
  }

  /** The page range of a non-paging claim is the page range of its address and size. */
  lemma ClaimPages(s: System, i: int, r: Role, f: int)
    requires Inv(s) && Alive(s, i) && Live(s.processes[i].value, r) && !r.Tables?
    ensures PageOf(s, i, r, f) <==>
            Address(s.processes[i].value, r) / 4096 <= f
              < PagesUpTo(Address(s.processes[i].value, r) + Size(s.processes[i].value, r))
  {
    var p := s.processes[i].value;
    assert ProcessOK(s.table, s.words, p);
    var b := Start(s.words, p, r);
    assert Holds(s, i, r, b);
    HeldExtent(s, i, r, b);
    RangePages(b, Size(p, r));
  }
}
