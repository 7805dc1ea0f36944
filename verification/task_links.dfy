/**
 The task list in memory: the prev and next fields of the task records, the stores the list makes
 through them, and exactly when such a store leaves every process in order. A prev field is written
 once, when its task is appended, so it may lead to a record that has been freed since.
 */
module TaskLinks {
  import opened Words
  import opened Memory
  import opened HeapTable
  import opened Paging
  import opened Windows
  import opened AddressSpace
  import opened Steps
  import M = Machine

  // Words of struct task that hold prev and next.
  const PREV: int := 14
  const NEXT: int := 15

  /** Null, or the address of a heap block. */
  predicate IsLink(a: u32) {
    a == 0 || (HEAP_BASE <= a < HEAP_END && a % 4096 == 0)
  }

  /** The record at task lies in memory. */
  predicate InMemory(task: u32) {
    task / 4 + NEXT < MEMORY_WORDS
  }

  function PrevOf(words: seq<u32>, task: u32): u32
    requires IsMemory(words) && InMemory(task)
  {
    words[task / 4 + PREV]
  }

  function NextOf(words: seq<u32>, task: u32): u32
    requires IsMemory(words) && InMemory(task)
  {
    words[task / 4 + NEXT]
  }

  /** a->next = val. */
  function StoreNext(words: seq<u32>, a: u32, val: u32): (r: seq<u32>)
    requires IsMemory(words) && InMemory(a)
    ensures IsMemory(r)
  {
    words[a / 4 + NEXT := val]
  }

  ghost predicate TaskLinked(words: seq<u32>, task: u32) {
    && IsMemory(words) && InMemory(task)
    && IsLink(PrevOf(words, task)) && IsLink(NextOf(words, task))
  }

  /** The list's variables and the links of all live tasks are links. */
  ghost predicate Linked(s: System) {
    && IsLink(s.list.head) && IsLink(s.list.tail) && IsLink(s.list.current)
    && forall i :: Alive(s, i) ==> TaskLinked(s.words, s.processes[i].value.task)
  }

  /** Every process is in order, and so are the links of the task list. */
  ghost predicate Consistent(s: System) {
    Inv(s) && Linked(s)
  }

  lemma LinkPlace(a: u32)
    requires IsLink(a)
    ensures InMemory(a) && a % 4096 == 0
    ensures a != 0 ==> AddressToBlock(a) < HEAP_BLOCKS && a / 4 == (M.FIRST_FRAME + AddressToBlock(a)) * 1024
    ensures a == 0 ==> AddressToBlock(a) >= HEAP_BLOCKS
  {
  }

  /** Claims are at link addresses. */
  lemma ClaimIsLink(t: seq<bv8>, w: seq<u32>, p: Process, r: Role)
    requires M.InHeap(w, p.root) && Live(p, r) && !r.Tables? && Owns(t, w, p, r)
    ensures IsLink(Address(p, r)) && Address(p, r) != 0 && AddressToBlock(Address(p, r)) == Start(w, p, r)
    ensures Address(p, r) / 4 == (M.FIRST_FRAME + Start(w, p, r)) * 1024
  {
    AddressOfBlock(Start(w, p, r));
  }

  // -- A store to the next field of a record that may be gone ------------------------------------

  /** Entry NEXT of table k of p may become val: the page is in no window, and val maps it to itself, closed. */
  ghost predicate SparesTable(p: Process, k: nat, val: u32)
    requires k < ENTRIES
  {
    val == PageAddress(k * 1024 + NEXT) && Untouched(ProcessWindows(p), k * 1024 + NEXT)
  }

  /**
   Block b is not the page directory of process j, and if it is a page table of it, val is what its
   entry may become. The paging map, the last block of a space, uses its first word only.
   */
  ghost predicate SparesOne(s: System, j: int, b: nat, val: u32) {
    forall k: nat :: k < 1025 && Holds(s, j, Tables(k), b) ==> k > 0 && SparesTable(s.processes[j].value, k - 1, val)
  }

  /** The same of every process but i. */
  ghost predicate SparesBlock(s: System, i: int, b: nat, val: u32) {
    forall j :: Alive(s, j) && j != i ==> SparesOne(s, j, b, val)
  }

  /** The condition on a link: storing val through it leaves every process but i in order. */
  ghost predicate Spares(s: System, i: int, a: u32, val: u32) {
    a == 0 || SparesBlock(s, i, AddressToBlock(a), val)
  }

  /** The condition looks at the other processes only. */
  lemma SparesSame(s: System, s': System, i: int, a: u32, val: u32)
    requires |s'.processes| == |s.processes|
    requires forall j :: 0 <= j < |s.processes| && j != i ==> s'.processes[j] == s.processes[j]
    requires forall j, r, b :: j != i ==> (Holds(s', j, r, b) <==> Holds(s, j, r, b))
    ensures Spares(s', i, a, val) <==> Spares(s, i, a, val)
  {
  }

  /** A link to a live task is always safe. */
  lemma LiveTaskSpares(s: System, i: int, j: int, val: u32)
    requires Inv(s) && Alive(s, j)
    ensures Spares(s, i, s.processes[j].value.task, val)
  {
    var p := s.processes[j].value;
    assert ProcessOK(s.table, s.words, p);
    assert Holds(s, j, Task, AddressToBlock(p.task));
  }

  ghost function WithNext(words: seq<u32>, b: nat, val: u32): (r: seq<u32>)
    requires IsMemory(words) && b < HEAP_BLOCKS
    ensures IsMemory(r)
  {
    words[(M.FIRST_FRAME + b) * 1024 + NEXT := val]
  }

  lemma StoredBlock(words: seq<u32>, b: nat, val: u32)
    requires IsMemory(words) && b < HEAP_BLOCKS
    ensures M.OnlyBlocksChanged(words, WithNext(words, b, val), {b as int})
  {
  }

  /** A block of the paging map's page is written past its one word. */
  lemma StoredInMap(w: seq<u32>, root: u32, b: nat, val: u32)
    requires SpaceWired(w, root) && M.InHeap(w, root) && b < HEAP_BLOCKS && b == M.SpaceBlocks(w, root)[1025]
    ensures var w' := WithNext(w, b, val);
            && SameSpace(w, w', root) && View(w', Directory(w', root)) == View(w, Directory(w, root))
  {
    var w', dir := WithNext(w, b, val), Directory(w, root);
    assert SpaceFrames(w, root)[1025] == root / 4096 == M.FIRST_FRAME + b;
    forall i: nat | i < ENTRIES
      ensures DirectoryEntry(w', dir, i) == DirectoryEntry(w, dir, i)
    {
      assert (dir / 4 + i) / 1024 == dir / 4096;
    }
    SameDirectorySameSpace(w, w', root);
    SameDirectoryFacts(w, w', dir);
    forall v: nat | v < PAGES
      ensures View(w', dir)[v] == View(w, dir)[v]
    {
      assert EntryIndex(w, dir, v) / 1024 == TableFrame(w, dir, v / 1024) != root / 4096;
    }
  }

  /** A block that is table k: one entry of the page map changes. */
  lemma StoredInTable(w: seq<u32>, root: u32, k: nat, b: nat, val: u32)
    requires SpaceWired(w, root) && M.InHeap(w, root) && k < ENTRIES && b < HEAP_BLOCKS
    requires b == M.SpaceBlocks(w, root)[k + 1]
    ensures var w' := WithNext(w, b, val);
            && SameSpace(w, w', root)
            && View(w', Directory(w', root)) == View(w, Directory(w, root))[k * 1024 + NEXT := val]
  {
    var dir, v := Directory(w, root), k * 1024 + NEXT;
    assert SpaceFrames(w, root)[k + 1] == TableFrame(w, dir, k) == M.FIRST_FRAME + b;
    assert v / 1024 == k && v % 1024 == NEXT;
    SetInSpace(w, root, v, val);
  }

  /** A block that is the page directory: entry NEXT is not open any more. */
  lemma StoredInDirectory(w: seq<u32>, root: u32, b: nat, val: u32)
    requires SpaceWired(w, root) && M.InHeap(w, root) && b < HEAP_BLOCKS && b == M.SpaceBlocks(w, root)[0]
    requires val % 4096 == 0
    ensures var w' := WithNext(w, b, val);
            Directory(w', root) == Directory(w, root) && !AllOpen(w', Directory(w', root))
  {
    var w', dir := WithNext(w, b, val), Directory(w, root);
    assert SpaceFrames(w, root)[0] == dir / 4096 == M.FIRST_FRAME + b;
    assert root / 4 / 1024 == root / 4096;
    assert dir / 4 + NEXT == (M.FIRST_FRAME + b) * 1024 + NEXT;
    assert DirectoryEntry(w', dir, NEXT) == val;
  }

  lemma OpenEntryIsNoLink(page: nat, flags: u32, val: u32)
    requires page < PAGES && (flags == READ_ONLY || flags == READ_WRITE) && val % 4096 == 0
    ensures Entry(page, flags) != val
  {
    EntryFlags(page, flags);
  }

  /** A link at page v keeps what is shown exactly when it maps v to itself and v is in no window. */
  lemma ShowsStored(view: seq<u32>, ws: seq<Window>, v: nat, val: u32)
    requires Layout(ws) && Shows(view, ws) && v < PAGES && val % 4096 == 0
    ensures Shows(view[v := val], ws) <==> val == PageAddress(v) && Untouched(ws, v)
  {
    OpenEntryIsNoLink(v, READ_ONLY, val);
    if Untouched(ws, v) {
      ShowsClosed(view, ws, v, val);
    } else {
      var i :| 0 <= i < |ws| && Inside(ws[i], v);
      assert Sound(ws[i]);
      OpenEntryIsNoLink(ws[i].p + (v - ws[i].v), ws[i].flags, val);
      assert view[v := val][v] == val;
    }
  }

  lemma ShowsClosed(view: seq<u32>, ws: seq<Window>, v: nat, val: u32)
    requires Layout(ws) && Shows(view, ws) && v < PAGES && Untouched(ws, v) && val != Entry(v, READ_ONLY)
    ensures Shows(view[v := val], ws) <==> val == PageAddress(v)
  {
    assert view[v := val][v] == val;
  }

  /** SparesBlock for one process. */
  ghost predicate SparesProcess(w: seq<u32>, p: Process, b: nat, val: u32)
    requires M.InHeap(w, p.root)
  {
    forall k: nat :: k < 1025 && M.SpaceBlocks(w, p.root)[k] == b ==> k > 0 && SparesTable(p, k - 1, val)
  }

  /** The store keeps a process in order exactly when it spares it. */
  lemma StoreKeepsProcessIff(t: seq<bv8>, w: seq<u32>, p: Process, b: nat, val: u32)
    requires ProcessOK(t, w, p) && b < HEAP_BLOCKS && val % 4096 == 0
    ensures var w' := WithNext(w, b, val);
            && (ProcessOK(t, w', p) <==> SparesProcess(w, p, b, val))
            && (ProcessOK(t, w', p) ==> M.SpaceBlocks(w', p.root) == M.SpaceBlocks(w, p.root))
  {
    if b !in M.SpaceBlocks(w, p.root) {
      StoreOutside(t, w, p, b, val);
    } else {
      var k: nat :| k < 1026 && M.SpaceBlocks(w, p.root)[k] == b;
      StoreInSpace(t, w, p, k, b, val);
    }
  }

  lemma StoreInSpace(t: seq<bv8>, w: seq<u32>, p: Process, k: nat, b: nat, val: u32)
    requires ProcessOK(t, w, p) && b < HEAP_BLOCKS && val % 4096 == 0 && k < 1026 && M.SpaceBlocks(w, p.root)[k] == b
    ensures var w' := WithNext(w, b, val);
            && (ProcessOK(t, w', p) <==> SparesProcess(w, p, b, val))
            && (ProcessOK(t, w', p) ==> M.SpaceBlocks(w', p.root) == M.SpaceBlocks(w, p.root))
  {
    SparesAt(w, p, k, b, val);
    if k == 0 {
      StoredInDirectory(w, p.root, b, val);
    } else if k == 1025 {
      StoredInMap(w, p.root, b, val);
      SpaceStored(t, w, p, b, val);
    } else {
      StoreInTable(t, w, p, k - 1, b, val);
    }
  }

  lemma StoreInTable(t: seq<bv8>, w: seq<u32>, p: Process, k: nat, b: nat, val: u32)
    requires ProcessOK(t, w, p) && b < HEAP_BLOCKS && val % 4096 == 0
    requires k < ENTRIES && M.SpaceBlocks(w, p.root)[k + 1] == b
    ensures var w' := WithNext(w, b, val);
            && (ProcessOK(t, w', p) <==> SparesTable(p, k, val))
            && (ProcessOK(t, w', p) ==> M.SpaceBlocks(w', p.root) == M.SpaceBlocks(w, p.root))
  {
    StoredInTable(w, p.root, k, b, val);
    ShowsStored(View(w, Directory(w, p.root)), ProcessWindows(p), k * 1024 + NEXT, val);
    SpaceStored(t, w, p, b, val);
  }

  lemma SparesAt(w: seq<u32>, p: Process, k: nat, b: nat, val: u32)
    requires SpaceWired(w, p.root) && M.InHeap(w, p.root) && k < 1026 && M.SpaceBlocks(w, p.root)[k] == b
    ensures SparesProcess(w, p, b, val) <==> k == 1025 || (k > 0 && SparesTable(p, k - 1, val))
  {
    M.SpaceBlocksDistinct(w, p.root);
  }

  lemma StoreOutside(t: seq<bv8>, w: seq<u32>, p: Process, b: nat, val: u32)
    requires ProcessOK(t, w, p) && b < HEAP_BLOCKS && b !in M.SpaceBlocks(w, p.root)
    ensures ProcessOK(t, WithNext(w, b, val), p)
    ensures M.SpaceBlocks(WithNext(w, b, val), p.root) == M.SpaceBlocks(w, p.root)
  {
    StoredBlock(w, b, val);
    forall r | Live(p, r)
      ensures Start(w, p, r) in Decode(t)
    {
      assert Owns(t, w, p, r);
    }
    ProcessKept(t, w, t, WithNext(w, b, val), p, {b as int});
  }

  /** With the directory in place, the process is in order exactly when the page map still shows its windows. */
  lemma SpaceStored(t: seq<bv8>, w: seq<u32>, p: Process, b: nat, val: u32)
    requires ProcessOK(t, w, p) && b < HEAP_BLOCKS && SameSpace(w, WithNext(w, b, val), p.root)
    ensures var w' := WithNext(w, b, val);
            && M.InHeap(w', p.root) && M.SpaceBlocks(w', p.root) == M.SpaceBlocks(w, p.root)
            && (ProcessOK(t, w', p) <==> Shows(View(w', Directory(w', p.root)), ProcessWindows(p)))
  {
    var w' := WithNext(w, b, val);
    SameDirectorySameSpace(w, w', p.root);
    forall r | Live(p, r)
      ensures Owns(t, w', p, r)
    {
      assert Owns(t, w, p, r);
    }
  }

  /** The store keeps the invariant exactly when it spares every process. */
  lemma StoreKeepsInvIff(s: System, i: int, b: nat, val: u32)
    requires Inv(s) && b < HEAP_BLOCKS && val % 4096 == 0
    requires forall k :: !Holds(s, i, Tables(k), b)
    ensures Inv(s.(words := WithNext(s.words, b, val))) <==> SparesBlock(s, i, b, val)
  {
    var s' := s.(words := WithNext(s.words, b, val));
    forall j | Alive(s, j)
      ensures M.InHeap(s.words, s.processes[j].value.root)
      ensures ProcessOK(s.table, s'.words, s.processes[j].value)
              <==> SparesProcess(s.words, s.processes[j].value, b, val)
      ensures ProcessOK(s.table, s'.words, s.processes[j].value) ==> ClaimsKept(s, s', j)
    {
      assert ProcessOK(s.table, s.words, s.processes[j].value);
      StoreKeepsProcessIff(s.table, s.words, s.processes[j].value, b, val);
    }
    SparesEveryProcess(s, i, b, val);
    if SparesBlock(s, i, b, val) {
      StoredNoSharing(s, s');
    } else {
      var j :| Alive(s, j) && !SparesProcess(s.words, s.processes[j].value, b, val);
      assert Alive(s', j) && !ProcessOK(s'.table, s'.words, s'.processes[j].value);
    }
  }

  lemma SparesEveryProcess(s: System, i: int, b: nat, val: u32)
    requires Inv(s) && forall k :: !Holds(s, i, Tables(k), b)
    ensures forall j :: Alive(s, j) ==> M.InHeap(s.words, s.processes[j].value.root)
    ensures SparesBlock(s, i, b, val) <==>
            forall j :: Alive(s, j) ==> SparesProcess(s.words, s.processes[j].value, b, val)
  {
    forall j | Alive(s, j)
      ensures M.InHeap(s.words, s.processes[j].value.root)
      ensures forall k: nat :: k < 1026 ==>
                (Holds(s, j, Tables(k), b) <==> M.SpaceBlocks(s.words, s.processes[j].value.root)[k] == b)
    {
      assert ProcessOK(s.table, s.words, s.processes[j].value);
    }
  }

  lemma StoredNoSharing(s: System, s': System)
    requires Inv(s) && s'.processes == s.processes && s'.table == s.table
    requires forall j :: Alive(s, j) ==> ClaimsKept(s, s', j)
    ensures NoSharing(s')
  {
    forall j, r, c | Holds(s', j, r, c)
      ensures Holds(s, j, r, c) && c in Decode(s.table)
    {
      assert ClaimsKept(s, s', j);
      HeldExtent(s, j, r, c);
    }
    NoSharingKept(s, s', 0);
  }

  // -- Steps that do not touch the list ----------------------------------------------------------

  /** The tasks of s' are tasks of s, none of them on a changed block. */
  ghost predicate TasksAvoid(s: System, s': System, changed: set<int>) {
    forall j :: Alive(s', j) ==>
      && Alive(s, j) && s'.processes[j].value.task == s.processes[j].value.task
      && AddressToBlock(s.processes[j].value.task) !in changed
  }

  /** Where the links of a live task are: on its own block. */
  lemma TaskPlace(s: System, j: int)
    requires Inv(s) && Alive(s, j)
    ensures var task := s.processes[j].value.task;
            && IsLink(task) && task != 0 && InMemory(task)
            && task / 4 == (M.FIRST_FRAME + AddressToBlock(task)) * 1024
            && Holds(s, j, Task, AddressToBlock(task))
            && AddressToBlock(task) in Decode(s.table)
  {
    var p := s.processes[j].value;
    assert ProcessOK(s.table, s.words, p);
    assert Owns(s.table, s.words, p, Task);
    ClaimIsLink(s.table, s.words, p, Task);
  }

  lemma LinksInBlock(w: seq<u32>, w': seq<u32>, task: u32, changed: set<int>)
    requires M.OnlyBlocksChanged(w, w', changed) && AddressToBlock(task) !in changed
    requires InMemory(task) && task / 4 == (M.FIRST_FRAME + AddressToBlock(task)) * 1024
    ensures PrevOf(w', task) == PrevOf(w, task) && NextOf(w', task) == NextOf(w, task)
  {
  }

  lemma LinkedKept(s: System, s': System, changed: set<int>)
    requires Inv(s) && Linked(s) && s'.list == s.list && TasksAvoid(s, s', changed)
    requires M.OnlyBlocksChanged(s.words, s'.words, changed)
    ensures Linked(s')
  {
    forall j | Alive(s', j)
      ensures TaskLinked(s'.words, s'.processes[j].value.task)
    {
      TaskPlace(s, j);
      LinksInBlock(s.words, s'.words, s.processes[j].value.task, changed);
    }
  }

  /** No task lies among the blocks of an address space, or among blocks that are not live. */
  lemma TasksOffSpace(s: System, i: int, blocks: set<int>)
    requires Inv(s) && Alive(s, i) && M.InHeap(s.words, s.processes[i].value.root)
    requires forall b :: b in Decode(s.table) ==> b !in blocks
    ensures forall j :: Alive(s, j) ==>
              AddressToBlock(s.processes[j].value.task) !in blocks + SpaceSet(s.words, s.processes[i].value.root)
  {
    forall j | Alive(s, j)
      ensures AddressToBlock(s.processes[j].value.task) !in blocks + SpaceSet(s.words, s.processes[i].value.root)
    {
      TaskPlace(s, j);
      TaskIsNoTable(s, i, j);
    }
  }

  lemma TaskIsNoTable(s: System, i: int, j: int)
    requires Inv(s) && Alive(s, i) && Alive(s, j) && M.InHeap(s.words, s.processes[i].value.root)
    ensures AddressToBlock(s.processes[j].value.task) !in M.SpaceBlocks(s.words, s.processes[i].value.root)
  {
    TaskPlace(s, j);
    var blocks := M.SpaceBlocks(s.words, s.processes[i].value.root);
    forall k: nat | k < 1026
      ensures blocks[k] != AddressToBlock(s.processes[j].value.task)
    {
      assert Holds(s, i, Tables(k), blocks[k]);
    }
  }

  lemma MallocKeepsLinks(s: System, i: int, size: u32, ptr: u32, s': System)
    requires Inv(s) && Linked(s) && CanMalloc(s, i, size) && MallocStep(s, i, size, ptr, s')
    ensures Linked(s')
  {
    if s' != s {
      var p := s.processes[i].value;
      var n := BlocksFor(size);
      var b := FirstFit(s.table, n);
      assert ProcessOK(s.table, s.words, p);
      TakeAddsExtent(s.table, b, n);
      TasksOffSpace(s, i, BlockRange(b, n));
      LinkedKept(s, s', BlockRange(b, n) + SpaceSet(s.words, p.root));
    }
  }

  lemma FreeKeepsLinks(s: System, i: int, ptr: u32, s': System)
    requires Inv(s) && Linked(s) && Alive(s, i) && FreeStep(s, i, ptr, s')
    ensures Linked(s')
  {
    if s' != s {
      var p := s.processes[i].value;
      assert ProcessOK(s.table, s.words, p);
      TasksOffSpace(s, i, {});
      LinkedKept(s, s', {} + SpaceSet(s.words, p.root));
    }
  }

  /** A store through a link to a task, live or not: the invariant stays exactly when the link spares the others. */
  lemma StoreNextKeepsInvIff(s: System, i: int, a: u32, val: u32)
    requires Inv(s) && IsLink(a) && val % 4096 == 0
    requires forall k :: !Holds(s, i, Tables(k), AddressToBlock(a))
    ensures InMemory(a) && (Inv(s.(words := StoreNext(s.words, a, val))) <==> Spares(s, i, a, val))
  {
    LinkPlace(a);
    if a == 0 {
      StoreLowKeepsInv(s, val);
    } else {
      StoreKeepsInvIff(s, i, AddressToBlock(a), val);
    }
  }

  /** A store through the null link goes to low memory, where no page table is. */
  lemma StoreLowKeepsInv(s: System, val: u32)
    requires Inv(s)
    ensures Inv(s.(words := StoreNext(s.words, 0, val)))
  {
    var s' := s.(words := StoreNext(s.words, 0, val));
    forall j | Alive(s, j)
      ensures ProcessOK(s.table, s'.words, s.processes[j].value) && ClaimsKept(s, s', j)
    {
      assert ProcessOK(s.table, s.words, s.processes[j].value);
      StoreLowKeepsProcess(s.table, s.words, s.processes[j].value, val);
    }
    StoredNoSharing(s, s');
  }

  lemma StoreLowKeepsProcess(t: seq<bv8>, w: seq<u32>, p: Process, val: u32)
    requires ProcessOK(t, w, p)
    ensures ProcessOK(t, StoreNext(w, 0, val), p)
    ensures M.SpaceBlocks(StoreNext(w, 0, val), p.root) == M.SpaceBlocks(w, p.root)
  {
    forall r | Live(p, r)
      ensures Start(w, p, r) in Decode(t)
    {
      assert Owns(t, w, p, r);
    }
    ProcessKept(t, w, t, StoreNext(w, 0, val), p, {0 - M.FIRST_FRAME});
  }

  // -- The list itself ---------------------------------------------------------------------------

  /** The variables after task_new has appended task. */
  function Appended(list: TaskList, task: u32): TaskList {
    if list.head == 0 then TaskList(task, task, task) else list.(tail := task)
  }

  /** The variables after task_list_remove of a task with these links. */
  function Removed(list: TaskList, task: u32, prev: u32, next: u32): TaskList {
    var head := if task == list.head then next else list.head;
    TaskList(
      head,
      if task == list.tail then prev else list.tail,
      if task != list.current then list.current else if next != 0 then next else head)
  }

  function AppendedWords(words: seq<u32>, list: TaskList, task: u32): (r: seq<u32>)
    requires IsMemory(words) && InMemory(list.tail) && InMemory(task)
    ensures IsMemory(r)
  {
    if list.head == 0 then words else StoreNext(words, list.tail, task)[task / 4 + PREV := list.tail]
  }

  function RemovedWords(words: seq<u32>, task: u32): (r: seq<u32>)
    requires TaskLinked(words, task)
    ensures IsMemory(r)
  {
    var prev := PrevOf(words, task);
    LinkPlace(prev);
    if prev == 0 then words else StoreNext(words, prev, NextOf(words, task))
  }

  /**
   The list once a task has left it. Words 14 and 15 of its record are prev and next. Head and tail
   move only if they were the task; if it was current, its next becomes current, and the new head only
   when there is no next.
   */
  ghost predicate LeavesList(words: seq<u32>, list: TaskList, task: u32, list': TaskList)
    requires IsMemory(words) && InMemory(task)
  {
    var prev, next := words[task / 4 + 14], words[task / 4 + 15];
    && (list.head != task ==> list'.head == list.head) && (list.head == task ==> list'.head == next)
    && (list.tail != task ==> list'.tail == list.tail) && (list.tail == task ==> list'.tail == prev)
    && (list.current != task ==> list'.current == list.current)
    && (list.current == task && next != 0 ==> list'.current == next)
    && (list.current == task && next == 0 ==> list'.current == list'.head)
  }

  lemma RemovedLeavesList(words: seq<u32>, list: TaskList, task: u32)
    requires IsMemory(words) && InMemory(task)
    ensures LeavesList(words, list, task, Removed(list, task, PrevOf(words, task), NextOf(words, task)))
  {
  }

  /** The end of task_new. */
  method AppendTask(machine: M.Machine, list: TaskList, task: u32) returns (list': TaskList)
    requires machine.words.Length == MEMORY_WORDS && InMemory(list.tail) && InMemory(task)
    modifies machine.words
    ensures list' == Appended(list, task)
    ensures machine.words[..] == AppendedWords(old(machine.words[..]), list, task)
    ensures list.head == 0 ==> list' == TaskList(task, task, task) && machine.words[..] == old(machine.words[..])
    ensures list.head != 0 ==>
              && list' == TaskList(list.head, task, list.current)
              && machine.words[..] == old(machine.words[..])[list.tail / 4 + 15 := task][task / 4 + 14 := list.tail]
  {
    if list.head == 0 {
      return TaskList(task, task, task);
    }
    machine.words[list.tail / 4 + NEXT] := task;
    machine.words[task / 4 + PREV] := list.tail;
    list' := TaskList(list.head, task, list.current);
  }

  /** task_list_remove. */
  method RemoveFromList(machine: M.Machine, list: TaskList, task: u32) returns (list': TaskList)
    requires machine.words.Length == MEMORY_WORDS && IsLink(task) && TaskLinked(machine.words[..], task)
    modifies machine.words
    ensures machine.words[..] == RemovedWords(old(machine.words[..]), task)
    ensures list' == Removed(list, task, PrevOf(old(machine.words[..]), task), NextOf(old(machine.words[..]), task))
    ensures LeavesList(old(machine.words[..]), list, task, list')
    ensures var prev, next := old(machine.words[task / 4 + 14]), old(machine.words[task / 4 + 15]);
            if prev == 0 then machine.words[..] == old(machine.words[..])
            else prev / 4 + 15 < MEMORY_WORDS && machine.words[..] == old(machine.words[..])[prev / 4 + 15 := next]
  {
    ghost var w := machine.words[..];
    var prev := machine.words[task / 4 + PREV];
    LinkPlace(prev);
    if prev != 0 {
      machine.words[prev / 4 + NEXT] := machine.words[task / 4 + NEXT];
    }
    assert machine.words[task / 4 + NEXT] == NextOf(w, task) && machine.words[task / 4 + PREV] == prev;
    var head, tail, current := list.head, list.tail, list.current;
    if task == head {
      head := machine.words[task / 4 + NEXT];
    }
    if task == tail {
      tail := machine.words[task / 4 + PREV];
    }
    if task == current {
      current := if machine.words[current / 4 + NEXT] != 0 then machine.words[current / 4 + NEXT] else head;
    }
    list' := TaskList(head, tail, current);
  }

  /** s' with the next field at a as it is in s. */
  function Unstored(s: System, a: u32, s': System): System
    requires IsMemory(s.words) && IsMemory(s'.words) && InMemory(a)
  {
    s'.(words := StoreNext(s'.words, a, NextOf(s.words, a)))
  }

  lemma UnstoredBack(s: System, a: u32, s': System)
    requires IsMemory(s.words) && IsMemory(s'.words) && InMemory(a)
    ensures s' == Unstored(s, a, s').(words := StoreNext(Unstored(s, a, s').words, a, NextOf(s'.words, a)))
  {
  }
}
