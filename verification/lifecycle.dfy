/** Loading a program into a free slot, and terminating a process. */
module Lifecycle {
  import opened Words
  import opened Memory
  import opened HeapTable
  import opened Paging
  import opened AddressSpace
  import opened ElfFormat
  import opened Steps
  import opened TaskLinks
  import opened LoadSteps
  import opened LinkedLoads
  import M = Machine

  /** Memory after a refused load: nothing but the leaks is new, and nothing live was touched. */
  ghost predicate Refused(t0: seq<bv8>, w0: seq<u32>, leaked: set<nat>, t: seq<bv8>, w: seq<u32>) {
    && |t| == |t0| && WellFormed(t)
    && |leaked| == LeakedExtents(RefusedElf) && (forall b :: b in leaked ==> b !in Decode(t0))
    && (forall b :: b in Decode(t) <==> b in Decode(t0) || b in leaked)
    && (forall b :: b in Decode(t0) ==> Decode(t)[b] == Decode(t0)[b])
    && M.OnlyBlocksChanged(w0, w, FreeBlocks(t0))
  }

  ghost predicate RefuseStep(s: System, file: seq<byte>, leaked: set<nat>, s': System) {
    && IsProgram(file, RefusedElf) && s'.processes == s.processes && s'.list == s.list
    && Refused(s.table, s.words, leaked, s'.table, s'.words)
  }

  lemma RefuseKeepsInv(s: System, file: seq<byte>, leaked: set<nat>, s': System)
    requires Inv(s) && RefuseStep(s, file, leaked, s')
    ensures Inv(s')
  {
    forall j | Alive(s', j)
      ensures ProcessOK(s'.table, s'.words, s'.processes[j].value)
      ensures forall r, c :: Holds(s', j, r, c) ==> Holds(s, j, r, c)
    {
      assert Alive(s, j);
      LoadLeavesOthers(s, j, s');
    }
    forall j, r, c | Holds(s', j, r, c)
      ensures Holds(s, j, r, c) && c in Decode(s.table)
    {
      HeldExtent(s, j, r, c);
    }
    NoSharingKept(s, s', 0);
  }

  lemma PlaceKeepsInv(s: System, i: int, program: Program, file: seq<byte>, leaked: set<nat>, p: Process, s': System)
    requires Inv(s) && ProgramFits(program, |file|) && PlaceStep(s, i, program, file, leaked, p, s')
    ensures Inv(s')
    ensures forall j, r, c :: j != i ==> (Holds(s', j, r, c) <==> Holds(s, j, r, c))
  {
    assert ProcessOK(s'.table, s'.words, p);
    forall j | Alive(s', j) && j != i
      ensures ProcessOK(s'.table, s'.words, s'.processes[j].value)
      ensures forall r, c :: Holds(s', j, r, c) <==> Holds(s, j, r, c)
    {
      assert Alive(s, j);
      LoadLeavesOthers(s, j, s');
    }
    forall r, c | Holds(s', i, r, c)
      ensures c !in Decode(s.table)
    {
      assert Live(p, r);
    }
    assert ClaimsGrow(s, s', i);
    NoSharingKept(s, s', i);
  }

  /** A load but for the link stored through the tail, and then the link: s1 and s'. */
  ghost predicate LinkedPlace(s: System, i: int, program: Program, file: seq<byte>, leaked: set<nat>, p: Process,
                              s1: System, s': System) {
    && PlaceStep(s, i, program, file, leaked, p, s1)
    && IsLink(p.task) && IsLink(s.list.tail) && InMemory(s.list.tail) && IsMemory(s1.words)
    && s' == s1.(words := if s.list.head == 0 || Overwritten(s.table, p, s.list.tail) then s1.words
                          else StoreNext(s1.words, s.list.tail, p.task))
    && InMemory(p.task) && IsMemory(s'.words)
    && PrevOf(s'.words, p.task) == (if s.list.head == 0 then 0 else s.list.tail)
    && NextOf(s'.words, p.task) == if s.list.head != 0 && s.list.tail == p.task then p.task else 0
  }

  /**
   A load of a program that maps keeps the invariant exactly when the program fits and the store through
   the tail spares the other processes and the new process itself.
   */
  lemma LoadKeepsInvIff(s: System, i: int, program: Program, file: seq<byte>, leaked: set<nat>, p: Process, s': System)
    requires Inv(s) && Linked(s) && ProgramMaps(program, |file|) && LoadStep(s, i, program, file, leaked, p, s')
    ensures Inv(s') <==> ProgramFits(program, |file|) && LoadSpares(s, i, p)
  {
    if !ProgramFits(program, |file|) {
      MisfitBreaksInv(s, i, program, file, leaked, p, s');
    } else if s.list.head != 0 && OverDirectory(s.table, p, s.list.tail) {
      OverDirectoryCloses(s.table, s.words, s.list, program, file, leaked, p, s'.table, s'.words);
      assert Alive(s', i) && !ProcessOK(s'.table, s'.words, s'.processes[i].value);
    } else {
      var s1 := LoadIsPlaced(s, i, program, file, leaked, p, s');
      PlaceKeepsInv(s, i, program, file, leaked, p, s1);
      if s.list.head != 0 {
        LinkKeepsInvIff(s, i, program, file, leaked, p, s1, s');
      }
    }
  }

  /** The store through the tail leaves the other processes, and the one being loaded, in order. */
  ghost predicate LoadSpares(s: System, i: int, p: Process) {
    s.list.head == 0 || (Spares(s, i, s.list.tail, p.task) && SparesNew(s.table, p, s.list.tail))
  }

  lemma MisfitBreaksInv(s: System, i: int, program: Program, file: seq<byte>, leaked: set<nat>, p: Process, s': System)
    requires LoadStep(s, i, program, file, leaked, p, s') && !ProgramFits(program, |file|)
    ensures !Inv(s')
  {
    LoadedImage(s.table, s.words, s.list, program, file, leaked, p, s'.table, s'.words);
    assert Alive(s', i) && !ProcessOK(s'.table, s'.words, s'.processes[i].value);
  }

  lemma LoadedImage(t0: seq<bv8>, w0: seq<u32>, list: TaskList, program: Program, file: seq<byte>, leaked: set<nat>,
                    p: Process, t: seq<bv8>, w2: seq<u32>)
    requires LoadsTo(t0, w0, list, program, file, leaked, p, t, w2)
    ensures ImageIs(p.image, program, |file|) && NoAllocations(p)
    ensures ImageFits(p.image) <==> ProgramFits(program, |file|)
  {
  }

  lemma LoadIsPlaced(s: System, i: int, program: Program, file: seq<byte>, leaked: set<nat>, p: Process, s': System)
      returns (s1: System)
    requires Inv(s) && Linked(s) && ProgramMaps(program, |file|) && LoadStep(s, i, program, file, leaked, p, s')
    requires s.list.head == 0 || !OverDirectory(s.table, p, s.list.tail)
    ensures LinkedPlace(s, i, program, file, leaked, p, s1, s')
  {
    var z := LoadIsLinked(s.table, s.words, s.list, program, file, leaked, p, s'.table, s'.words);
    s1 := s'.(words := z);
    TaskIsLink(s.table, s'.table, z, p);
  }

  lemma LinkKeepsInvIff(s: System, i: int, program: Program, file: seq<byte>, leaked: set<nat>, p: Process,
                        s1: System, s': System)
    requires Inv(s) && Inv(s1) && LinkedPlace(s, i, program, file, leaked, p, s1, s')
    requires s.list.head != 0 && !OverDirectory(s.table, p, s.list.tail)
    requires forall j, r, c :: j != i ==> (Holds(s1, j, r, c) <==> Holds(s, j, r, c))
    ensures Inv(s') <==> Spares(s, i, s.list.tail, p.task) && SparesNew(s.table, p, s.list.tail)
  {
    if Overwritten(s.table, p, s.list.tail) {
      OverwrittenSpares(s, i, program, file, leaked, p, s1);
    } else {
      SparesAlso(s, i, program, file, leaked, p, s1);
      AnyStoreKeepsInvIff(s1, s.list.tail, p.task);
    }
  }

  lemma AnyStoreKeepsInvIff(s: System, a: u32, val: u32)
    requires Inv(s) && IsLink(a) && IsLink(val)
    ensures InMemory(a) && (Inv(s.(words := StoreNext(s.words, a, val))) <==> Spares(s, -1, a, val))
  {
    LinkPlace(val);
    StoreNextKeepsInvIff(s, -1, a, val);
  }

  lemma OverwrittenSpares(s: System, i: int, program: Program, file: seq<byte>, leaked: set<nat>, p: Process,
                          s1: System)
    requires Inv(s) && PlaceStep(s, i, program, file, leaked, p, s1)
    requires !OverDirectory(s.table, p, s.list.tail) && Overwritten(s.table, p, s.list.tail)
    ensures Spares(s, i, s.list.tail, p.task) && SparesNew(s.table, p, s.list.tail)
  {
    var k: nat :| OverTable(s.table, p, s.list.tail, k) && CoversLink(p, k);
    SpaceStarts(s.table, s1.table, s1.words, p);
    OneTable(s.table, s1.words, p, s.list.tail, k);
    NewTableSpares(s, i, program, file, leaked, p, s1, k);
  }

  /** No process there was before holds a block that becomes a table. */
  lemma NewTableSpares(s: System, i: int, program: Program, file: seq<byte>, leaked: set<nat>, p: Process, s1: System,
                       k: nat)
    requires Inv(s) && PlaceStep(s, i, program, file, leaked, p, s1) && OverTable(s.table, p, s.list.tail, k)
    ensures Spares(s, i, s.list.tail, p.task)
  {
    var b := AddressToBlock(s.list.tail);
    assert Live(p, Tables(k + 1)) && Start(s1.words, p, Tables(k + 1)) == b;
    forall j, q: nat | Holds(s, j, Tables(q), b)
      ensures false
    {
      HeldExtent(s, j, Tables(q), b);
    }
  }

  /** SparesBlock for every process, with process i apart. */
  lemma SparesAll(s: System, i: int, b: nat, val: u32)
    requires 0 <= i
    ensures SparesBlock(s, -1, b, val) <==> SparesBlock(s, i, b, val) && SparesOne(s, i, b, val)
  {
  }

  /** To spare every process is to spare those there were before, and the new one. */
  lemma SparesAlso(s: System, i: int, program: Program, file: seq<byte>, leaked: set<nat>, p: Process, s1: System)
    requires Inv(s) && PlaceStep(s, i, program, file, leaked, p, s1) && IsLink(s.list.tail)
    requires forall j, r, c :: j != i ==> (Holds(s1, j, r, c) <==> Holds(s, j, r, c))
    requires !Overwritten(s.table, p, s.list.tail)
    ensures Spares(s1, -1, s.list.tail, p.task) <==>
            Spares(s, i, s.list.tail, p.task) && SparesNew(s.table, p, s.list.tail)
  {
    SparesSame(s, s1, i, s.list.tail, p.task);
    SparesAll(s1, i, AddressToBlock(s.list.tail), p.task);
    LinkPlace(s.list.tail);
    SparesOwnIff(s, i, program, file, leaked, p, s1);
  }

  lemma SparesOwnIff(s: System, i: int, program: Program, file: seq<byte>, leaked: set<nat>, p: Process, s1: System)
    requires PlaceStep(s, i, program, file, leaked, p, s1) && !Overwritten(s.table, p, s.list.tail)
    ensures var b := AddressToBlock(s.list.tail);
            && (b >= HEAP_BLOCKS ==> SparesNew(s.table, p, s.list.tail))
            && (SparesOne(s1, i, b, p.task) <==> SparesNew(s.table, p, s.list.tail))
  {
    HoldsPlaced(s, i, program, file, leaked, p, s1, AddressToBlock(s.list.tail));
    SparesNewIff(s.table, p, s.list.tail);
  }

  lemma HoldsPlaced(s: System, i: int, program: Program, file: seq<byte>, leaked: set<nat>, p: Process, s1: System,
                    b: int)
    requires PlaceStep(s, i, program, file, leaked, p, s1)
    ensures forall k: nat :: k < 1026 ==> Place(s.table, p.image, Tables(k)) < HEAP_BLOCKS
    ensures b >= 0 ==>
              forall k: nat :: k < 1026 ==> (Holds(s1, i, Tables(k), b) <==> Place(s.table, p.image, Tables(k)) == b)
  {
    SpaceStarts(s.table, s1.table, s1.words, p);
  }

  lemma SparesNewIff(t0: seq<bv8>, p: Process, a: u32)
    requires !Overwritten(t0, p, a)
    ensures SparesNew(t0, p, a) <==>
            forall k: nat :: k < 1025 && Place(t0, p.image, Tables(k)) == AddressToBlock(a) ==>
              k > 0 && p.task == PageAddress((k - 1) * 1024 + NEXT) && !CoversLink(p, k - 1)
  {
    if SparesNew(t0, p, a) {
      forall k: nat | k < 1025 && Place(t0, p.image, Tables(k)) == AddressToBlock(a)
        ensures k > 0 && p.task == PageAddress((k - 1) * 1024 + NEXT) && !CoversLink(p, k - 1)
      {
        assert k > 0 ==> OverTable(t0, p, a, k - 1);
      }
    }
  }

  /** Writes confined to blocks that were free do not reach any live claim. */
  lemma LoadLeavesOthers(s: System, j: int, s': System)
    requires Inv(s) && Alive(s, j) && Alive(s', j) && s'.processes[j] == s.processes[j]
    requires M.OnlyBlocksChanged(s.words, s'.words, FreeBlocks(s.table))
    requires forall b :: b in Decode(s.table) ==> b in Decode(s'.table) && Decode(s'.table)[b] == Decode(s.table)[b]
    ensures ProcessOK(s'.table, s'.words, s'.processes[j].value)
    ensures forall r, c :: Holds(s', j, r, c) <==> Holds(s, j, r, c)
  {
    var q := s.processes[j].value;
    assert ProcessOK(s.table, s.words, q);
    forall k: nat | k < 1026
      ensures M.SpaceBlocks(s.words, q.root)[k] !in FreeBlocks(s.table)
    {
      var b := M.SpaceBlocks(s.words, q.root)[k];
      assert Live(q, Tables(k)) && Owns(s.table, s.words, q, Tables(k));
      LiveBlockNotFree(s.table, b);
    }
    forall r | Live(q, r)
      ensures Start(s.words, q, r) in Decode(s.table)
    {
      assert Owns(s.table, s.words, q, r);
    }
    ProcessKept(s.table, s.words, s'.table, s'.words, q, FreeBlocks(s.table));
  }

  // -- process_terminate -----------------------------------------------------------------------

  /** Everything but `struct process` itself is given back. */
  ghost predicate GivenBack(s: System, i: int, b: nat) {
    exists r :: r != Self && Holds(s, i, r, b)
  }

  /** A termination but for the task list's store. */
  ghost predicate ReleaseStep(s: System, i: int, s': System) {
    && Alive(s, i) && M.InHeap(s.words, s.processes[i].value.root)
    && s'.processes == s.processes[i := None]
    && |s'.table| == |s.table| && WellFormed(s'.table)
    && (forall b :: b in Decode(s'.table) <==> b in Decode(s.table) && !GivenBack(s, i, b))
    && (forall b :: b in Decode(s'.table) ==> Decode(s'.table)[b] == Decode(s.table)[b])
    && M.OnlyBlocksChanged(s.words, s'.words, SpaceSet(s.words, s.processes[i].value.root))
  }

  /**
   A termination. task_list_remove stores the task's next in the next field of its prev, wherever
   that leads, unless it is null.
   */
  ghost predicate TerminateStep(s: System, i: int, s': System) {
    && IsMemory(s.words) && IsMemory(s'.words) && Alive(s, i) && InMemory(s.processes[i].value.task)
    && var task := s.processes[i].value.task;
    && var prev, next := PrevOf(s.words, task), NextOf(s.words, task);
    && s'.list == Removed(s.list, task, prev, next)
    && if prev == 0 then ReleaseStep(s, i, s')
       else InMemory(prev) && NextOf(s'.words, prev) == next && ReleaseStep(s, i, Unstored(s, prev, s'))
  }

  /** The condition on a termination: null, or no word of another process's tables that would change it. */
  ghost predicate PrevSpares(s: System, i: int)
    requires Alive(s, i) && TaskLinked(s.words, s.processes[i].value.task)
  {
    var task := s.processes[i].value.task;
    Spares(s, i, PrevOf(s.words, task), NextOf(s.words, task))
  }

  /** A termination keeps the invariant exactly when the store through prev spares the others. */
  lemma TerminateKeepsInvIff(s: System, i: int, s': System)
    requires Inv(s) && Linked(s) && TerminateStep(s, i, s')
    ensures Inv(s') <==> PrevSpares(s, i)
  {
    var task := s.processes[i].value.task;
    var prev := PrevOf(s.words, task);
    if prev == 0 {
      ReleaseKeepsInv(s, i, s');
    } else {
      var s1 := Unstored(s, prev, s');
      ReleaseKeepsInv(s, i, s1);
      StoreAfterwards(s, s1, i, prev, NextOf(s.words, task));
      UnstoredBack(s, prev, s');
    }
  }

  /** A store once process i is gone. */
  lemma StoreAfterwards(s: System, s1: System, i: int, a: u32, val: u32)
    requires 0 <= i < |s.processes| && s1.processes == s.processes[i := None]
    requires Inv(s1) && IsLink(a) && IsLink(val)
    requires forall j, r, c :: j != i ==> (Holds(s1, j, r, c) <==> Holds(s, j, r, c))
    ensures InMemory(a) && (Inv(s1.(words := StoreNext(s1.words, a, val))) <==> Spares(s, i, a, val))
  {
    SparesSame(s, s1, i, a, val);
    LinkPlace(val);
    StoreNextKeepsInvIff(s1, i, a, val);
  }

  lemma ReleaseKeepsInv(s: System, i: int, s': System)
    requires Inv(s) && ReleaseStep(s, i, s')
    ensures Inv(s') && !Alive(s', i)
    ensures forall j, r, c :: j != i ==> (Holds(s', j, r, c) <==> Holds(s, j, r, c))
  {
    var gone := set b | b in Decode(s.table) && GivenBack(s, i, b);
    forall j | Alive(s', j)
      ensures ProcessOK(s'.table, s'.words, s'.processes[j].value)
      ensures forall r, c :: Holds(s', j, r, c) <==> Holds(s, j, r, c)
    {
      assert Alive(s, j) && j != i;
      assert {} + SpaceSet(s.words, s.processes[i].value.root) == SpaceSet(s.words, s.processes[i].value.root);
      OtherProcessKept(s, i, j, s', {}, gone);
    }
    forall r, c | Holds(s', i, r, c)
      ensures false
    {
    }
    forall j, r, c | Holds(s', j, r, c)
      ensures Holds(s, j, r, c) && c in Decode(s.table)
    {
      HeldExtent(s, j, r, c);
    }
    NoSharingKept(s, s', i);
  }

  // -- The links of the live tasks ---------------------------------------------------------------

  lemma RefuseKeepsLinks(s: System, file: seq<byte>, leaked: set<nat>, s': System)
    requires Inv(s) && Linked(s) && RefuseStep(s, file, leaked, s')
    ensures Linked(s')
  {
    forall j | Alive(s', j)
      ensures AddressToBlock(s.processes[j].value.task) !in FreeBlocks(s.table)
    {
      TaskPlace(s, j);
      LiveBlockNotFree(s.table, AddressToBlock(s.processes[j].value.task));
    }
    LinkedKept(s, s', FreeBlocks(s.table));
  }

  /** A task other than i's keeps its links through the changes in between, and a store of a link leaves links. */
  lemma StoreKeepsTaskLinked(w: seq<u32>, w': seq<u32>, task: u32, a: u32)
    requires TaskLinked(w, task) && IsMemory(w') && InMemory(a) && task % 4096 == 0 && a % 4096 == 0
    requires w' == StoreNext(w, a, NextOf(w', a)) && IsLink(NextOf(w', a))
    ensures TaskLinked(w', task)
  {
  }

  lemma LoadKeepsLinks(s: System, i: int, program: Program, file: seq<byte>, leaked: set<nat>, p: Process, s': System)
    requires Inv(s) && Linked(s) && ProgramMaps(program, |file|) && LoadStep(s, i, program, file, leaked, p, s')
    requires s.list.head == 0 || !OverDirectory(s.table, p, s.list.tail)
    ensures Linked(s')
  {
    var s1 := LoadIsPlaced(s, i, program, file, leaked, p, s');
    forall j | Alive(s', j) && j != i
      ensures TaskLinked(s'.words, s'.processes[j].value.task)
    {
      OthersStayLinked(s, j, s1.words, p.task, s'.words);
    }
  }

  lemma OthersStayLinked(s: System, j: int, z: seq<u32>, task: u32, words: seq<u32>)
    requires Inv(s) && Linked(s) && Alive(s, j) && M.OnlyBlocksChanged(s.words, z, FreeBlocks(s.table)) && IsLink(task)
    requires InMemory(s.list.tail) && (words == z || words == StoreNext(z, s.list.tail, task))
    ensures TaskLinked(words, s.processes[j].value.task)
  {
    TaskPlace(s, j);
    LinkPlace(s.list.tail);
    WritesKeepTaskLinked(s, z, j);
    if words != z {
      StoreKeepsTaskLinked(z, words, s.processes[j].value.task, s.list.tail);
    }
  }

  /** Writes to free blocks leave the links of a live task. */
  lemma WritesKeepTaskLinked(s: System, words: seq<u32>, j: int)
    requires Inv(s) && Linked(s) && Alive(s, j) && M.OnlyBlocksChanged(s.words, words, FreeBlocks(s.table))
    ensures TaskLinked(words, s.processes[j].value.task)
  {
    var task := s.processes[j].value.task;
    TaskPlace(s, j);
    LiveBlockNotFree(s.table, AddressToBlock(task));
    LinksInBlock(s.words, words, task, FreeBlocks(s.table));
  }

  lemma TerminateKeepsLinks(s: System, i: int, s': System)
    requires Inv(s) && Linked(s) && TerminateStep(s, i, s')
    ensures Linked(s')
  {
    var prev := PrevOf(s.words, s.processes[i].value.task);
    var s1 := if prev == 0 then s' else Unstored(s, prev, s');
    LinkPlace(prev);
    TasksOffSpace(s, i, {});
    forall j | Alive(s', j)
      ensures TaskLinked(s'.words, s'.processes[j].value.task)
    {
      var task := s.processes[j].value.task;
      TaskPlace(s, j);
      LinksInBlock(s.words, s1.words, task, SpaceSet(s.words, s.processes[i].value.root));
      if prev != 0 {
        UnstoredBack(s, prev, s');
        StoreKeepsTaskLinked(s1.words, s'.words, task, prev);
      }
    }
  }
}
