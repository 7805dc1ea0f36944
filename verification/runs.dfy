/**
 Whole runs: any interleaving of loads, user allocations and frees, terminations, user stores and
 the kernel's own use of memory keeps the invariant, so isolation holds in every reachable state.
 */
module Runs {
  import opened Words
  import opened Memory
  import opened HeapTable
  import opened Paging
  import opened Windows
  import opened AddressSpace
  import opened ElfFormat
  import opened Isolation
  import opened Steps
  import opened TaskLinks
  import opened LoadSteps
  import opened Lifecycle
  import opened UserCopy
  import M = Machine

  // -- User code at work -----------------------------------------------------------------------

  /** A byte stored by user code of process i through its page tables; a fault changes nothing. */
  ghost predicate UserStoreStep(s: System, i: int, vAddr: u32, val: byte, s': System) {
    && Alive(s, i) && IsMemory(s.words)
    && var dir := Directory(s.words, s.processes[i].value.root);
    && dir % 4096 == 0
    && if PageWritable(s.words, dir, vAddr / 4096)
       then s' == s.(words := SetByte(s.words, Physical(s.words, dir, vAddr), val))
       else s' == s
  }

  lemma UserStorePlace(s: System, i: int, vAddr: u32) returns (f: int, r: Role)
    requires Inv(s) && Alive(s, i)
    requires Directory(s.words, s.processes[i].value.root) % 4096 == 0
    requires PageWritable(s.words, Directory(s.words, s.processes[i].value.root), vAddr / 4096)
    ensures f == Physical(s.words, Directory(s.words, s.processes[i].value.root), vAddr) / 4096
    ensures CanWrite(s, i, f) && PageOf(s, i, r, f) && (r.Data? || r == Stack || r == ImageMemory)
  {
    var p := s.processes[i].value;
    assert ProcessOK(s.table, s.words, p);
    var dir := Directory(s.words, p.root);
    OpenIsPresent(s.words, dir);
    PhysicalIsView(s.words, dir, vAddr);
    f := View(s.words, dir)[vAddr / 4096] / 4096;
    assert WritablePage(s.words, dir, f);
    r := WritableHasClaim(s, i, f);
  }

  lemma OneWordChanged(words: seq<u32>, a: u32, val: byte)
    requires IsMemory(words)
    ensures M.OnlyBlocksChanged(words, SetByte(words, a, val), {a / 4096 - M.FIRST_FRAME})
  {
    assert a / 4 / 1024 == a / 4096;
  }

  /** Page f is no page table of any process. */
  ghost predicate HoldsNoTables(s: System, f: int) {
    forall j, k :: !PageOf(s, j, Tables(k), f)
  }

  /** None of these blocks is a page table. */
  ghost predicate NoTablesIn(s: System, blocks: set<int>) {
    forall x :: x in blocks ==> HoldsNoTables(s, x + M.FIRST_FRAME)
  }

  /** Writing blocks that hold no claim of kind Tables disturbs no process. */
  lemma BlockWritesKeepInv(s: System, blocks: set<int>, words: seq<u32>)
    requires Inv(s) && M.OnlyBlocksChanged(s.words, words, blocks) && NoTablesIn(s, blocks)
    ensures Inv(s.(words := words))
  {
    var s' := s.(words := words);
    forall j | Alive(s', j)
      ensures ProcessOK(s'.table, s'.words, s'.processes[j].value)
      ensures forall r, c :: Holds(s', j, r, c) ==> Holds(s, j, r, c)
    {
      assert ProcessOK(s.table, s.words, s.processes[j].value);
      BlockWritesKeepProcess(s, j, blocks, words);
    }
    forall j, r, c | Holds(s', j, r, c)
      ensures Holds(s, j, r, c) && c in Decode(s.table)
    {
      HeldExtent(s, j, r, c);
    }
    NoSharingKept(s, s', 0);
  }

  lemma BlockWritesKeepProcess(s: System, j: int, blocks: set<int>, words: seq<u32>)
    requires Inv(s) && Alive(s, j) && ProcessOK(s.table, s.words, s.processes[j].value)
    requires M.OnlyBlocksChanged(s.words, words, blocks) && NoTablesIn(s, blocks)
    ensures ProcessOK(s.table, words, s.processes[j].value)
    ensures forall r :: Live(s.processes[j].value, r) ==>
              Start(words, s.processes[j].value, r) == Start(s.words, s.processes[j].value, r)
  {
    var q := s.processes[j].value;
    forall k: nat | k < 1026
      ensures M.SpaceBlocks(s.words, q.root)[k] !in blocks
    {
      TableNotIn(s, j, k, blocks);
    }
    forall r | Live(q, r)
      ensures Start(s.words, q, r) in Decode(s.table)
    {
      assert Owns(s.table, s.words, q, r);
    }
    ProcessKept(s.table, s.words, s.table, words, q, blocks);
  }

  lemma TableNotIn(s: System, j: int, k: nat, blocks: set<int>)
    requires Inv(s) && Alive(s, j) && k < 1026 && NoTablesIn(s, blocks) && M.InHeap(s.words, s.processes[j].value.root)
    ensures M.SpaceBlocks(s.words, s.processes[j].value.root)[k] !in blocks
  {
    var b := M.SpaceBlocks(s.words, s.processes[j].value.root)[k];
    assert Live(s.processes[j].value, Tables(k)) && Holds(s, j, Tables(k), b);
    HeldExtent(s, j, Tables(k), b);
    assert PageOf(s, j, Tables(k), b + M.FIRST_FRAME);
  }

  lemma WritableHoldsNoTables(s: System, i: int, f: int)
    requires Inv(s) && CanWrite(s, i, f)
    ensures HoldsNoTables(s, f)
  {
    forall j, k
      ensures !PageOf(s, j, Tables(k), f)
    {
      KernelRecordsNotWritable(s, i, j, Tables(k), f);
    }
  }

  lemma WritableByteKeepsInv(s: System, i: int, a: u32, val: byte)
    requires Inv(s) && CanWrite(s, i, a / 4096)
    ensures Inv(s.(words := SetByte(s.words, a, val)))
  {
    OneWordChanged(s.words, a, val);
    WritableHoldsNoTables(s, i, a / 4096);
    BlockWritesKeepInv(s, {a / 4096 - M.FIRST_FRAME}, SetByte(s.words, a, val));
  }

  lemma UserStoreKeepsInv(s: System, i: int, vAddr: u32, val: byte, s': System)
    requires Inv(s) && UserStoreStep(s, i, vAddr, val, s')
    ensures Inv(s')
  {
    if s' != s {
      var f, r := UserStorePlace(s, i, vAddr);
      var a := Physical(s.words, Directory(s.words, s.processes[i].value.root), vAddr);
      WritableByteKeepsInv(s, i, a, val);
    }
  }

  /** No store by process i changes a byte of any extent held by another process, or of its own tables. */
  lemma UserStoreIsPrivate(s: System, i: int, vAddr: u32, val: byte, s': System, j: int, q: Role, a: u32)
    requires Inv(s) && UserStoreStep(s, i, vAddr, val, s')
    requires PageOf(s, j, q, a / 4096) && (j != i || q.Tables?)
    ensures ByteAt(s'.words, a) == ByteAt(s.words, a)
  {
    if s' != s {
      assert ProcessOK(s.table, s.words, s.processes[i].value);
      var f, r := UserStorePlace(s, i, vAddr);
      var x := Physical(s.words, Directory(s.words, s.processes[i].value.root), vAddr);
      if f == a / 4096 {
        DifferentClaimsDifferentPages(s, i, r, j, q, f);
      }
      SetByteSetsOne(s.words, x, val);
    }
  }

  // -- The kernel's own use of memory ----------------------------------------------------------

  /** kzalloc by another part of the kernel. */
  ghost predicate KernelAllocStep(s: System, size: u32, s': System) {
    && 0 < size <= 0xFFFF_F000 && HasRun(s.table, BlocksFor(size)) && BlocksFor(size) >= 1
    && var b := FirstFit(s.table, BlocksFor(size));
    && s'.table == Take(s.table, b, BlocksFor(size))
    && s'.processes == s.processes && s'.list == s.list
    && M.OnlyBlocksChanged(s.words, s'.words, BlockRange(b, BlocksFor(size)))
  }

  ghost predicate Unclaimed(s: System, b: nat) {
    forall j, r :: !Holds(s, j, r, b)
  }

  /** kfree by another part of the kernel of an extent no process holds. */
  ghost predicate KernelFreeStep(s: System, ptr: u32, s': System) {
    && AddressToBlock(ptr) in Decode(s.table) && Unclaimed(s, AddressToBlock(ptr))
    && s' == s.(table := Release(s.table, AddressToBlock(ptr)))
  }

  /** a is no byte of the prev or next field of a live task, which only the list's own code writes. */
  ghost predicate HoldsNoLink(s: System, a: u32) {
    forall j :: Alive(s, j) ==>
      a / 4 != s.processes[j].value.task / 4 + PREV && a / 4 != s.processes[j].value.task / 4 + NEXT
  }

  /** A kernel store outside every process's page tables and task links. */
  ghost predicate KernelStoreStep(s: System, a: u32, val: byte, s': System) {
    && IsMemory(s.words)
    && HoldsNoTables(s, a / 4096) && HoldsNoLink(s, a)
    && s' == s.(words := SetByte(s.words, a, val))
  }

  lemma KernelAllocKeepsInv(s: System, size: u32, s': System)
    requires Inv(s) && KernelAllocStep(s, size, s')
    ensures Inv(s')
  {
    var n := BlocksFor(size);
    var b := FirstFit(s.table, n);
    TakeAddsExtent(s.table, b, n);
    forall x | x in BlockRange(b, n)
      ensures x in FreeBlocks(s.table)
    {
    }
    assert M.OnlyBlocksChanged(s.words, s'.words, FreeBlocks(s.table));
    forall j | Alive(s', j)
      ensures ProcessOK(s'.table, s'.words, s'.processes[j].value)
      ensures forall r, c :: Holds(s', j, r, c) ==> Holds(s, j, r, c)
    {
      assert Alive(s, j);
      LoadLeavesOthers(s, j, s');
    }
    forall j, r, c | Holds(s', j, r, c)
      ensures Holds(s, j, r, c) && c in Decode(s.table)
    {
      HeldExtent(s, j, r, c);
    }
    NoSharingKept(s, s', 0);
  }

  lemma KernelFreeKeepsInv(s: System, ptr: u32, s': System)
    requires Inv(s) && KernelFreeStep(s, ptr, s')
    ensures Inv(s')
  {
    var b := AddressToBlock(ptr);
    ReleaseRemovesExtent(s.table, b);
    forall j | Alive(s', j)
      ensures ProcessOK(s'.table, s'.words, s'.processes[j].value)
    {
      var q := s.processes[j].value;
      assert Alive(s, j) && ProcessOK(s.table, s.words, q);
      forall r | Live(q, r)
        ensures Start(s.words, q, r) in Decode(s.table) && Start(s.words, q, r) != b
      {
        assert Holds(s, j, r, Start(s.words, q, r));
        HeldExtent(s, j, r, Start(s.words, q, r));
      }
      ProcessKept(s.table, s.words, s'.table, s'.words, q, {});
    }
    forall j, r, c | Holds(s', j, r, c)
      ensures Holds(s, j, r, c) && c in Decode(s.table)
    {
      assert Holds(s, j, r, c);
      HeldExtent(s, j, r, c);
    }
    NoSharingKept(s, s', 0);
  }

  lemma KernelStoreKeepsInv(s: System, a: u32, val: byte, s': System)
    requires Inv(s) && KernelStoreStep(s, a, val, s')
    ensures Inv(s')
  {
    OneWordChanged(s.words, a, val);
    BlockWritesKeepInv(s, {a / 4096 - M.FIRST_FRAME}, s'.words);
  }

  // -- Strings from user memory ------------------------------------------------------------------

  /** The blocks of the pages a string of n characters at dst lies on. */
  ghost predicate DestinationIsOwn(s: System, dst: u32, n: nat) {
    NoTablesIn(s, PagesFrom(dst / 4096, (dst + n) / 4096)) && NoTasksIn(s, PagesFrom(dst / 4096, (dst + n) / 4096))
  }

  /**
   copy_string_from_task for process i, to a place that is no page table and no task record: the
   buffer's block is taken, mapped in the task, unmapped and given back, all within the call.
   */
  ghost predicate CopyStep(s: System, i: int, vAddr: u32, dst: u32, max: nat, s': System) {
    && Alive(s, i) && max >= 1
    && s'.table == s.table && s'.processes == s.processes && s'.list == s.list
    && if max >= 4096 then s'.words == s.words
       else
         && IsMemory(s.words) && Directory(s.words, s.processes[i].value.root) % 4096 == 0 && HasRun(s.table, 1)
         && var text := UserString(s.words, Directory(s.words, s.processes[i].value.root), vAddr, max - 1);
         && CopyDone(s.words, s'.words, dst, text, FirstFit(s.table, 1) + M.FIRST_FRAME)
         && DestinationIsOwn(s, dst, |text|)
  }

  /** A free block belongs to no process. */
  lemma FreeBlockIsOwn(s: System, b: nat)
    requires Inv(s) && b < HEAP_BLOCKS && IsFree(s.table[b])
    ensures NoTablesIn(s, {b as int}) && NoTasksIn(s, {b as int})
  {
    var f := b + M.FIRST_FRAME;
    forall j, r
      ensures !PageOf(s, j, r, f)
    {
      if PageOf(s, j, r, f) {
        var c: nat :| Holds(s, j, r, c) && InExtent(c, BlocksFor(Size(s.processes[j].value, r)), f);
        HeldExtent(s, j, r, c);
        WellFormedRepresents(s.table);
        assert Covers(Decode(s.table), c, b);
        FreeMeansUncovered(s.table, Decode(s.table), b);
      }
    }
  }

  lemma BothOwn(s: System, a: set<int>, b: set<int>)
    requires NoTablesIn(s, a) && NoTasksIn(s, a) && NoTablesIn(s, b) && NoTasksIn(s, b)
    ensures NoTablesIn(s, a + b) && NoTasksIn(s, a + b)
  {
  }

  /** What a copy writes is in no process's tables and tasks. */
  lemma CopyWritesOwn(s: System, i: int, vAddr: u32, dst: u32, max: nat, s': System) returns (blocks: set<int>)
    requires Inv(s) && CopyStep(s, i, vAddr, dst, max, s')
    ensures M.OnlyBlocksChanged(s.words, s'.words, blocks) && NoTablesIn(s, blocks) && NoTasksIn(s, blocks)
  {
    blocks := {};
    if max < 4096 {
      var b := FirstFit(s.table, 1);
      var text := UserString(s.words, Directory(s.words, s.processes[i].value.root), vAddr, max - 1);
      FreeBlockIsOwn(s, b);
      CopyWrites(s.words, s'.words, dst, text, b);
      BothOwn(s, {b as int}, PagesFrom(dst / 4096, (dst + |text|) / 4096));
      blocks := {b as int} + PagesFrom(dst / 4096, (dst + |text|) / 4096);
    }
  }

  lemma CopyKeepsInv(s: System, i: int, vAddr: u32, dst: u32, max: nat, s': System)
    requires Inv(s) && CopyStep(s, i, vAddr, dst, max, s')
    ensures Inv(s')
  {
    var blocks := CopyWritesOwn(s, i, vAddr, dst, max, s');
    BlockWritesKeepInv(s, blocks, s'.words);
  }

  // -- The links under these steps -------------------------------------------------------------

  /** Page f is no task record of any process. */
  ghost predicate HoldsNoTask(s: System, f: int) {
    forall j :: !PageOf(s, j, Task, f)
  }

  ghost predicate NoTasksIn(s: System, blocks: set<int>) {
    forall x :: x in blocks ==> HoldsNoTask(s, x + M.FIRST_FRAME)
  }

  /** Blocks without a task record hold no links. */
  lemma BlockWritesKeepLinks(s: System, blocks: set<int>, words: seq<u32>)
    requires Inv(s) && Linked(s) && M.OnlyBlocksChanged(s.words, words, blocks) && NoTasksIn(s, blocks)
    ensures Linked(s.(words := words))
  {
    forall j | Alive(s, j)
      ensures AddressToBlock(s.processes[j].value.task) !in blocks
    {
      var b := AddressToBlock(s.processes[j].value.task);
      TaskPlace(s, j);
      HeldExtent(s, j, Task, b);
      assert PageOf(s, j, Task, b + M.FIRST_FRAME);
    }
    LinkedKept(s, s.(words := words), blocks);
  }

  lemma WritableHoldsNoTask(s: System, i: int, f: int)
    requires Inv(s) && CanWrite(s, i, f)
    ensures HoldsNoTask(s, f)
  {
    forall j
      ensures !PageOf(s, j, Task, f)
    {
      KernelRecordsNotWritable(s, i, j, Task, f);
    }
  }

  lemma UserStoreKeepsLinks(s: System, i: int, vAddr: u32, val: byte, s': System)
    requires Inv(s) && Linked(s) && UserStoreStep(s, i, vAddr, val, s')
    ensures Linked(s')
  {
    if s' != s {
      var f, r := UserStorePlace(s, i, vAddr);
      WritableByteKeepsLinks(s, i, Physical(s.words, Directory(s.words, s.processes[i].value.root), vAddr), val);
    }
  }

  lemma WritableByteKeepsLinks(s: System, i: int, a: u32, val: byte)
    requires Inv(s) && Linked(s) && CanWrite(s, i, a / 4096)
    ensures Linked(s.(words := SetByte(s.words, a, val)))
  {
    OneWordChanged(s.words, a, val);
    WritableHoldsNoTask(s, i, a / 4096);
    BlockWritesKeepLinks(s, {a / 4096 - M.FIRST_FRAME}, SetByte(s.words, a, val));
  }

  lemma CopyKeepsLinks(s: System, i: int, vAddr: u32, dst: u32, max: nat, s': System)
    requires Inv(s) && Linked(s) && CopyStep(s, i, vAddr, dst, max, s')
    ensures Linked(s')
  {
    var blocks := CopyWritesOwn(s, i, vAddr, dst, max, s');
    BlockWritesKeepLinks(s, blocks, s'.words);
  }

  lemma KernelAllocKeepsLinks(s: System, size: u32, s': System)
    requires Inv(s) && Linked(s) && KernelAllocStep(s, size, s')
    ensures Linked(s')
  {
    var n := BlocksFor(size);
    var b := FirstFit(s.table, n);
    TakeAddsExtent(s.table, b, n);
    forall j | Alive(s, j)
      ensures AddressToBlock(s.processes[j].value.task) !in BlockRange(b, n)
    {
      TaskPlace(s, j);
    }
    LinkedKept(s, s', BlockRange(b, n));
  }

  lemma EmptyMallocKeepsLinks(s: System, i: int, result: u32, s': System)
    requires Linked(s) && Alive(s, i) && EmptyMallocStep(s, i, result, s')
    ensures Linked(s')
  {
    forall j | Alive(s', j)
      ensures TaskLinked(s'.words, s'.processes[j].value.task)
    {
      assert Alive(s, j) && TaskLinked(s.words, s.processes[j].value.task);
    }
  }

  lemma KernelStoreKeepsLinks(s: System, a: u32, val: byte, s': System)
    requires Linked(s) && KernelStoreStep(s, a, val, s')
    ensures Linked(s')
  {
    forall j | Alive(s', j)
      ensures TaskLinked(s'.words, s'.processes[j].value.task)
    {
      assert TaskLinked(s.words, s.processes[j].value.task);
    }
  }

  // -- Runs ------------------------------------------------------------------------------------

  datatype Event =
    | Load(slot: int, program: Program, file: seq<byte>, leaked: set<nat>, p: Process)
    | Refuse(file: seq<byte>, leaked: set<nat>)
    | Malloc(slot: int, size: u32, result: u32)
    | EmptyMalloc(slot: int, result: u32)
    | Free(slot: int, ptr: u32)
    | Terminate(slot: int)
    | UserStore(slot: int, vAddr: u32, val: byte)
    | CopyString(slot: int, vAddr: u32, dst: u32, max: nat)
    | KernelAlloc(size: u32)
    | KernelFree(ptr: u32)
    | KernelStore(a: u32, val: byte)

  /** What the events do. */
  ghost predicate Does(s: System, e: Event, s': System) {
    match e
    case Load(i, program, file, leaked, p) =>
      ProgramMaps(program, |file|) && LoadStep(s, i, program, file, leaked, p, s')
    case Refuse(file, leaked) => RefuseStep(s, file, leaked, s')
    case Malloc(i, size, result) => CanMalloc(s, i, size) && MallocStep(s, i, size, result, s')
    case EmptyMalloc(i, result) => Alive(s, i) && EmptyMallocStep(s, i, result, s')
    case Free(i, ptr) => Alive(s, i) && FreeStep(s, i, ptr, s')
    case Terminate(i) => TerminateStep(s, i, s')
    case UserStore(i, vAddr, val) => UserStoreStep(s, i, vAddr, val, s')
    case CopyString(i, vAddr, dst, max) => CopyStep(s, i, vAddr, dst, max, s')
    case KernelAlloc(size) => KernelAllocStep(s, size, s')
    case KernelFree(ptr) => KernelFreeStep(s, ptr, s')
    case KernelStore(a, val) => KernelStoreStep(s, a, val, s')
  }

  /** Process i has no slot left for another allocation. */
  ghost predicate NoSlotLeft(s: System, i: int) {
    Alive(s, i) ==> SlotOf(s.processes[i].value.allocations, 0) == |s.processes[i].value.allocations|
  }

  /**
   The store an event makes through a link of the task list leaves the other processes alone: the
   link is null, or leads to no page directory of theirs and to no page table of theirs it would
   change. For a load that includes the process being loaded, and the program fits. And a zero-size
   malloc finds no slot.
   */
  ghost predicate Spared(s: System, e: Event) {
    match e
    case Load(i, program, file, _, p) => ProgramFits(program, |file|) && LoadSpares(s, i, p)
    case Terminate(i) => Alive(s, i) && TaskLinked(s.words, s.processes[i].value.task) ==> PrevSpares(s, i)
    case EmptyMalloc(i, _) => NoSlotLeft(s, i)
    case _ => true
  }

  ghost predicate NullOrLiveTask(s: System, a: u32) {
    a == 0 || exists j :: Alive(s, j) && s.processes[j].value.task == a
  }

  /**
   The link an event stores through is null or leads to a live task, a program that is loaded fits, and
   a zero-size malloc finds no slot.
   */
  ghost predicate LinkIsLive(s: System, e: Event) {
    && (e.Load? ==> NullOrLiveTask(s, s.list.tail) && ProgramFits(e.program, |e.file|))
    && (e.Terminate? && Alive(s, e.slot) && TaskLinked(s.words, s.processes[e.slot].value.task) ==>
          NullOrLiveTask(s, PrevOf(s.words, s.processes[e.slot].value.task)))
    && (e.EmptyMalloc? ==> NoSlotLeft(s, e.slot))
  }

  /** A caller can see to it: links that are null or lead to live tasks are always safe. */
  lemma LiveLinksAreSpared(s: System, e: Event)
    requires Inv(s) && LinkIsLive(s, e)
    ensures Spared(s, e)
  {
    if e.Load? {
      NullOrLiveStands(s, s.list.tail);
      StandingTailSparesNew(s.table, e.p, s.list.tail);
    }
    if e.Load? && s.list.tail != 0 {
      var j :| Alive(s, j) && s.processes[j].value.task == s.list.tail;
      LiveTaskSpares(s, e.slot, j, e.p.task);
    }
    if e.Terminate? && Alive(s, e.slot) && TaskLinked(s.words, s.processes[e.slot].value.task) {
      var task := s.processes[e.slot].value.task;
      if PrevOf(s.words, task) != 0 {
        var j :| Alive(s, j) && s.processes[j].value.task == PrevOf(s.words, task);
        LiveTaskSpares(s, e.slot, j, NextOf(s.words, task));
      }
    }
  }

  lemma NullOrLiveStands(s: System, a: u32)
    requires Inv(s) && NullOrLiveTask(s, a)
    ensures TailStands(s.table, a)
  {
    if a != 0 {
      var j :| Alive(s, j) && s.processes[j].value.task == a;
      TaskPlace(s, j);
      LiveBlockNotFree(s.table, AddressToBlock(a));
    }
  }

  /**
   Any event keeps the invariant exactly when its store through the list spares the others, a load
   when besides its program fits, and a zero-size malloc when it finds no slot.
   */
  lemma EventKeepsInvIff(s: System, e: Event, s': System)
    requires Consistent(s) && Does(s, e, s')
    ensures Inv(s') <==> Spared(s, e)
  {
    match e
    case Load(i, program, file, leaked, p) => LoadKeepsInvIff(s, i, program, file, leaked, p, s');
    case Refuse(file, leaked) => RefuseKeepsInv(s, file, leaked, s');
    case Malloc(i, size, result) => MallocKeepsInv(s, i, size, result, s');
    case EmptyMalloc(i, result) => EmptyMallocKeepsInvIff(s, i, result, s');
    case Free(i, ptr) => FreeKeepsInv(s, i, ptr, s');
    case Terminate(i) => TerminateKeepsInvIff(s, i, s');
    case UserStore(i, vAddr, val) => UserStoreKeepsInv(s, i, vAddr, val, s');
    case CopyString(i, vAddr, dst, max) => CopyKeepsInv(s, i, vAddr, dst, max, s');
    case KernelAlloc(size) => KernelAllocKeepsInv(s, size, s');
    case KernelFree(ptr) => KernelFreeKeepsInv(s, ptr, s');
    case KernelStore(a, val) => KernelStoreKeepsInv(s, a, val, s');
  }

  lemma EventKeepsLinks(s: System, e: Event, s': System)
    requires Consistent(s) && Does(s, e, s') && Spared(s, e)
    ensures Linked(s')
  {
    match e
    case Load(i, program, file, leaked, p) =>
      LoadKeepsLinks(s, i, program, file, leaked, p, s');
    case Refuse(file, leaked) => RefuseKeepsLinks(s, file, leaked, s');
    case Malloc(i, size, result) => MallocKeepsLinks(s, i, size, result, s');
    case EmptyMalloc(i, result) => EmptyMallocKeepsLinks(s, i, result, s');
    case Free(i, ptr) => FreeKeepsLinks(s, i, ptr, s');
    case Terminate(i) => TerminateKeepsLinks(s, i, s');
    case UserStore(i, vAddr, val) => UserStoreKeepsLinks(s, i, vAddr, val, s');
    case CopyString(i, vAddr, dst, max) => CopyKeepsLinks(s, i, vAddr, dst, max, s');
    case KernelAlloc(size) => KernelAllocKeepsLinks(s, size, s');
    case KernelFree(ptr) =>
    case KernelStore(a, val) => KernelStoreKeepsLinks(s, a, val, s');
  }

  /** Event k leads from state k to the next. */
  ghost predicate Happens(states: seq<System>, events: seq<Event>, k: int) {
    0 <= k < |events| && k + 1 < |states| && Does(states[k], events[k], states[k + 1])
  }

  /** States joined by events. */
  ghost predicate IsTrace(states: seq<System>, events: seq<Event>) {
    && |states| == |events| + 1
    && forall k :: 0 <= k < |events| ==> Happens(states, events, k)
  }

  lemma TraceStep(states: seq<System>, events: seq<Event>, k: nat)
    requires IsTrace(states, events) && 0 < k < |states|
    ensures Does(states[k - 1], events[k - 1], states[k])
  {
    assert Happens(states, events, k - 1);
  }

  lemma SparedKeepsAll(s: System, e: Event, s': System)
    requires Consistent(s) && Does(s, e, s') && Spared(s, e)
    ensures Consistent(s')
  {
    EventKeepsInvIff(s, e, s');
    EventKeepsLinks(s, e, s');
  }

  /** A run: a trace whose stores through the task list spare all other processes, with no empty allocation. */
  ghost predicate IsRun(states: seq<System>, events: seq<Event>) {
    && IsTrace(states, events)
    && forall k :: 0 <= k < |events| ==> Spared(states[k], events[k])
  }

  /** After kheap_init: an empty, well-formed table and no process. */
  ghost predicate Initial(s: System) {
    && |s.table| == HEAP_BLOCKS && (forall b :: 0 <= b < HEAP_BLOCKS ==> s.table[b] == FREE)
    && IsMemory(s.words)
    && |s.processes| == 12 && (forall i :: 0 <= i < 12 ==> s.processes[i] == None)
    && s.list == TaskList(0, 0, 0)
  }

  lemma InitialInv(s: System)
    requires Initial(s)
    ensures Consistent(s)
  {
    EmptyTableIsWellFormed(s.table);
  }

  lemma {:induction false} RunKeepsInv(states: seq<System>, events: seq<Event>, k: nat)
    requires IsRun(states, events) && Consistent(states[0]) && k < |states|
    ensures Consistent(states[k])
  {
    if k > 0 {
      RunKeepsInv(states, events, k - 1);
      TraceStep(states, events, k);
      SparedKeepsAll(states[k - 1], events[k - 1], states[k]);
    }
  }

  /** A trace whose links are all null or live, and without empty allocations, is a run. */
  lemma LiveLinksMakeRuns(states: seq<System>, events: seq<Event>)
    requires IsTrace(states, events) && Consistent(states[0])
    requires forall k :: 0 <= k < |events| ==> LinkIsLive(states[k], events[k])
    ensures IsRun(states, events)
  {
    forall k | 0 <= k < |events|
      ensures Spared(states[k], events[k])
    {
      LiveLinksKeepInv(states, events, k);
      LiveLinksAreSpared(states[k], events[k]);
    }
  }

  lemma {:induction false} LiveLinksKeepInv(states: seq<System>, events: seq<Event>, k: nat)
    requires IsTrace(states, events) && Consistent(states[0]) && k < |states|
    requires forall j :: 0 <= j < |events| ==> LinkIsLive(states[j], events[j])
    ensures Consistent(states[k])
  {
    if k > 0 {
      LiveLinksKeepInv(states, events, k - 1);
      TraceStep(states, events, k);
      LiveLinksAreSpared(states[k - 1], events[k - 1]);
      SparedKeepsAll(states[k - 1], events[k - 1], states[k]);
    }
  }

  /** The states of a trace all satisfy the invariant exactly when it is a run. */
  lemma TraceKeepsInvIff(states: seq<System>, events: seq<Event>)
    requires IsTrace(states, events) && Consistent(states[0])
    ensures (forall k :: 0 <= k < |states| ==> Inv(states[k])) <==> IsRun(states, events)
  {
    if forall k :: 0 <= k < |states| ==> Inv(states[k]) {
      forall k | 0 <= k < |events|
        ensures Spared(states[k], events[k])
      {
        TraceKeepsLinks(states, events, k);
        TraceStep(states, events, k + 1);
        EventKeepsInvIff(states[k], events[k], states[k + 1]);
      }
    }
    if IsRun(states, events) {
      forall k | 0 <= k < |states|
        ensures Inv(states[k])
      {
        RunKeepsInv(states, events, k);
      }
    }
  }

  lemma {:induction false} TraceKeepsLinks(states: seq<System>, events: seq<Event>, k: nat)
    requires IsTrace(states, events) && Consistent(states[0]) && k < |states|
    requires forall j :: 0 <= j < |states| ==> Inv(states[j])
    ensures Linked(states[k])
  {
    if k > 0 {
      TraceKeepsLinks(states, events, k - 1);
      TraceStep(states, events, k);
      EventKeepsInvIff(states[k - 1], events[k - 1], states[k]);
      EventKeepsLinks(states[k - 1], events[k - 1], states[k]);
    }
  }

  /**
   Isolation over whole runs: in every state of every run from an empty heap, a process can write
   exactly its own data, stack and writable image pages, no page is writable in two processes, and
   no writable page holds page tables or kernel records of any process.
   */
  lemma IsolationOverRuns(states: seq<System>, events: seq<Event>, k: nat, i: int, f: int)
    requires IsRun(states, events) && Initial(states[0]) && k < |states| && Alive(states[k], i)
    ensures CanWrite(states[k], i, f) <==> OwnsPage(states[k], i, f)
    ensures forall j :: CanWrite(states[k], i, f) && CanWrite(states[k], j, f) ==> i == j
    ensures forall j, q: Role ::
              CanWrite(states[k], i, f) && (q.Tables? || q == Self || q == Task || q == ElfRecord) ==>
              !PageOf(states[k], j, q, f)
  {
    InitialInv(states[0]);
    RunKeepsInv(states, events, k);
    var s := states[k];
    WritableIsExactlyOwned(s, i, f);
    forall j | CanWrite(s, i, f) && CanWrite(s, j, f)
      ensures i == j
    {
      NoPageWritableTwice(s, i, j, f);
    }
    forall j, q: Role | CanWrite(s, i, f) && (q.Tables? || q == Self || q == Task || q == ElfRecord)
      ensures !PageOf(s, j, q, f)
    {
      KernelRecordsNotWritable(s, i, j, q, f);
    }
  }
}
