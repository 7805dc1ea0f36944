/** What process_terminate gives back, step by step. */
module Termination {
  import opened Words
  import opened Memory
  import opened HeapTable
  import opened Paging
  import opened AddressSpace
  import opened Steps
  import opened TaskLinks
  import opened Lifecycle
  import M = Machine

  // -- process_terminal_allocations ------------------------------------------------------------

  /** The first n slots emptied. */
  function Emptied(allocations: seq<Allocation>, n: nat): (r: seq<Allocation>)
    requires n <= |allocations|
    ensures |r| == |allocations|
    ensures forall k :: 0 <= k < |r| ==> r[k] == if k < n then Allocation(0, 0) else allocations[k]
  {
    seq(|allocations|, k requires 0 <= k < |allocations| => if k < n then Allocation(0, 0) else allocations[k])
  }

  ghost predicate DataFreed(s: System, i: int, n: nat, b: nat) {
    exists k: nat :: k < n && Holds(s, i, Data(k), b)
  }

  lemma DataFreedNext(s: System, i: int, n: nat, b: nat)
    ensures DataFreed(s, i, n + 1, b) <==> DataFreed(s, i, n, b) || Holds(s, i, Data(n), b)
  {
    if DataFreed(s, i, n + 1, b) {
      var k: nat :| k < n + 1 && Holds(s, i, Data(k), b);
    }
  }

  /** t is s after the first n allocation slots of process i were freed. */
  ghost predicate Draining(s: System, t: System, i: int, n: nat) {
    && Alive(s, i) && n <= MAX_ALLOCATIONS
    && |s.processes[i].value.allocations| == MAX_ALLOCATIONS
    && M.InHeap(s.words, s.processes[i].value.root)
    && var p := s.processes[i].value;
    && t.processes == s.processes[i := Some(p.(allocations := Emptied(p.allocations, n)))]
    && (forall b :: b in Decode(t.table) <==> b in Decode(s.table) && !DataFreed(s, i, n, b))
    && (forall b :: b in Decode(t.table) ==> Decode(t.table)[b] == Decode(s.table)[b])
    && M.OnlyBlocksChanged(s.words, t.words, SpaceSet(s.words, p.root))
    && SameSpace(s.words, t.words, p.root)
    && t.list == s.list
  }

  lemma DrainStart(s: System, i: int)
    requires Inv(s) && Alive(s, i)
    ensures Draining(s, s, i, 0)
  {
    var p := s.processes[i].value;
    assert ProcessOK(s.table, s.words, p);
    assert Emptied(p.allocations, 0) == p.allocations;
    assert p.(allocations := Emptied(p.allocations, 0)) == p;
  }

  /** Claims of the drained state are claims of the original one. */
  lemma DrainedClaims(s: System, t: System, i: int, n: nat, r: Role)
    requires Inv(s) && Inv(t) && Draining(s, t, i, n) && Live(t.processes[i].value, r)
    ensures Live(s.processes[i].value, r) && M.InHeap(t.words, t.processes[i].value.root)
    ensures Start(t.words, t.processes[i].value, r) == Start(s.words, s.processes[i].value, r)
    ensures r.Data? ==> r.i >= n
  {
    var p := s.processes[i].value;
    assert ProcessOK(s.table, s.words, p);
    SameDirectorySameSpace(s.words, t.words, p.root);
  }

  lemma DrainSkip(s: System, t: System, i: int, n: nat)
    requires Inv(s) && Inv(t) && Draining(s, t, i, n) && n < MAX_ALLOCATIONS
    requires s.processes[i].value.allocations[n].ptr == 0
    ensures Draining(s, t, i, n + 1)
  {
    var p := s.processes[i].value;
    assert ProcessOK(s.table, s.words, p);
    assert p.allocations[n].size == 0;
    assert Emptied(p.allocations, n + 1) == Emptied(p.allocations, n);
    forall b
      ensures DataFreed(s, i, n + 1, b) <==> DataFreed(s, i, n, b)
    {
      DataFreedNext(s, i, n, b);
      assert !Holds(s, i, Data(n), b);
    }
  }

  /** Live pointers are distinct, so the free finds the slot it is meant for. */
  lemma LivePointerSlot(s: System, i: int, n: nat)
    requires Inv(s) && Alive(s, i) && n < |s.processes[i].value.allocations|
    requires s.processes[i].value.allocations[n].ptr != 0
    ensures SlotOf(s.processes[i].value.allocations, s.processes[i].value.allocations[n].ptr) == n
  {
    var p := s.processes[i].value;
    assert ProcessOK(s.table, s.words, p);
    var k := SlotOf(p.allocations, p.allocations[n].ptr);
    var b := AddressToBlock(p.allocations[n].ptr);
    assert Holds(s, i, Data(n), b) && Holds(s, i, Data(k), b);
  }

  lemma DrainFree(s: System, t: System, i: int, n: nat, t': System)
    requires Inv(s) && Inv(t) && Draining(s, t, i, n) && n < MAX_ALLOCATIONS
    requires s.processes[i].value.allocations[n].ptr != 0
    requires FreeStep(t, i, s.processes[i].value.allocations[n].ptr, t')
    ensures Draining(s, t', i, n + 1)
  {
    var p := s.processes[i].value;
    var ptr := p.allocations[n].ptr;
    assert SlotOf(t.processes[i].value.allocations, ptr) == n by {
      LivePointerSlot(t, i, n);
    }
    assert Decode(t'.table) == Decode(t.table) - {AddressToBlock(ptr)} by {
      FreeOwnProcess(t, i, ptr, t');
    }
    assert t'.processes == s.processes[i := Some(p.(allocations := Emptied(p.allocations, n + 1)))] by {
      DrainProcesses(s, t, i, n, t');
    }
    DrainTable(s, t, i, n, t');
    DrainSpace(s, t, i, n, t');
    DrainAssembled(s, t', i, n + 1);
  }

  lemma DrainAssembled(s: System, t: System, i: int, n: nat)
    requires Alive(s, i) && n <= MAX_ALLOCATIONS && |s.processes[i].value.allocations| == MAX_ALLOCATIONS
    requires M.InHeap(s.words, s.processes[i].value.root)
    requires var p := s.processes[i].value;
             t.processes == s.processes[i := Some(p.(allocations := Emptied(p.allocations, n)))]
    requires forall b :: b in Decode(t.table) <==> b in Decode(s.table) && !DataFreed(s, i, n, b)
    requires forall b :: b in Decode(t.table) ==> Decode(t.table)[b] == Decode(s.table)[b]
    requires M.OnlyBlocksChanged(s.words, t.words, SpaceSet(s.words, s.processes[i].value.root))
    requires SameSpace(s.words, t.words, s.processes[i].value.root) && t.list == s.list
    ensures Draining(s, t, i, n)
  {
  }

  lemma DrainProcesses(s: System, t: System, i: int, n: nat, t': System)
    requires Draining(s, t, i, n) && n < MAX_ALLOCATIONS
    requires t'.processes == t.processes[i := Some(WithSlot(t.processes[i].value, n, Allocation(0, 0)))]
    ensures var p := s.processes[i].value;
            t'.processes == s.processes[i := Some(p.(allocations := Emptied(p.allocations, n + 1)))]
  {
    EmptiedNext(s.processes[i].value.allocations, n);
  }

  lemma EmptiedNext(allocations: seq<Allocation>, n: nat)
    requires n < |allocations|
    ensures Emptied(allocations, n + 1) == Emptied(allocations, n)[n := Allocation(0, 0)]
  {
  }

  lemma DrainTable(s: System, t: System, i: int, n: nat, t': System)
    requires Draining(s, t, i, n) && n < MAX_ALLOCATIONS && s.processes[i].value.allocations[n].ptr != 0
    requires Decode(t'.table) == Decode(t.table) - {AddressToBlock(s.processes[i].value.allocations[n].ptr)}
    ensures forall b :: b in Decode(t'.table) <==> b in Decode(s.table) && !DataFreed(s, i, n + 1, b)
    ensures forall b :: b in Decode(t'.table) ==> Decode(t'.table)[b] == Decode(s.table)[b]
  {
    var c := AddressToBlock(s.processes[i].value.allocations[n].ptr);
    assert Live(s.processes[i].value, Data(n)) && Start(s.words, s.processes[i].value, Data(n)) == c;
    forall b: nat
      ensures DataFreed(s, i, n + 1, b) <==> DataFreed(s, i, n, b) || b == c
    {
      DataFreedNext(s, i, n, b);
      assert Holds(s, i, Data(n), b) <==> b == c;
    }
  }

  lemma DrainSpace(s: System, t: System, i: int, n: nat, t': System)
    requires Draining(s, t, i, n) && n < MAX_ALLOCATIONS && s.processes[i].value.allocations[n].ptr != 0
    requires FreeStep(t, i, s.processes[i].value.allocations[n].ptr, t')
    requires SlotOf(t.processes[i].value.allocations, s.processes[i].value.allocations[n].ptr) == n
    ensures M.OnlyBlocksChanged(s.words, t'.words, SpaceSet(s.words, s.processes[i].value.root))
    ensures SameSpace(s.words, t'.words, s.processes[i].value.root)
  {
    DrainWords(s.words, t.words, t'.words, s.processes[i].value.root);
  }

  lemma DrainWords(w0: seq<u32>, w1: seq<u32>, w2: seq<u32>, root: u32)
    requires M.InHeap(w0, root) && SameSpace(w0, w1, root) && SameSpace(w1, w2, root) && M.InHeap(w1, root)
    requires M.OnlyBlocksChanged(w0, w1, SpaceSet(w0, root)) && M.OnlyBlocksChanged(w1, w2, {} + SpaceSet(w1, root))
    ensures M.OnlyBlocksChanged(w0, w2, SpaceSet(w0, root)) && SameSpace(w0, w2, root)
  {
    SameDirectorySameSpace(w0, w1, root);
    ChangesCompose(w0, w1, w2, SpaceSet(w0, root), {} + SpaceSet(w1, root));
    assert SpaceSet(w0, root) + ({} + SpaceSet(w1, root)) == SpaceSet(w0, root);
    var dir := Directory(w0, root);
    forall k: nat | k < ENTRIES
      ensures DirectoryEntry(w2, dir, k) == DirectoryEntry(w0, dir, k)
    {
      assert DirectoryEntry(w1, dir, k) == DirectoryEntry(w0, dir, k);
    }
  }

  // -- The rest of process_terminate -----------------------------------------------------------

  /** Claims that are neither data nor the process record. */
  ghost predicate Fixed(p: Process, r: Role) {
    Live(p, r) && r != Self && !r.Data?
  }

  ghost predicate FixedStart(w: seq<u32>, p: Process, b: nat)
    requires M.InHeap(w, p.root)
  {
    exists r :: Fixed(p, r) && Start(w, p, r) == b
  }

  /** The fixed claims are live extents, all different. */
  ghost predicate FixedLive(t: seq<bv8>, w: seq<u32>, p: Process)
    requires M.InHeap(w, p.root)
  {
    && (forall r :: Fixed(p, r) ==> Start(w, p, r) in Decode(t))
    && (forall r, q :: Fixed(p, r) && Fixed(p, q) && Start(w, p, r) == Start(w, p, q) ==> r == q)
  }

  lemma FixedClaimsLive(s: System, i: int)
    requires Inv(s) && Alive(s, i)
    ensures SpaceWired(s.words, s.processes[i].value.root) && M.InHeap(s.words, s.processes[i].value.root)
    ensures FixedLive(s.table, s.words, s.processes[i].value)
  {
    var p := s.processes[i].value;
    assert ProcessOK(s.table, s.words, p);
    forall r | Fixed(p, r)
      ensures Start(s.words, p, r) in Decode(s.table)
    {
      assert Owns(s.table, s.words, p, r);
    }
    forall r, q | Fixed(p, r) && Fixed(p, q) && Start(s.words, p, r) == Start(s.words, p, q)
      ensures r == q
    {
      assert Holds(s, i, r, Start(s.words, p, r)) && Holds(s, i, q, Start(s.words, p, q));
    }
  }

  /** table' is table without the fixed claims. */
  ghost predicate Stripped(t: seq<bv8>, t': seq<bv8>, w: seq<u32>, p: Process)
    requires M.InHeap(w, p.root)
  {
    && |t'| == |t| && WellFormed(t')
    && (forall b :: b in Decode(t') <==> b in Decode(t) && !FixedStart(w, p, b))
    && (forall b :: b in Decode(t') ==> Decode(t')[b] == Decode(t)[b])
  }

  lemma InWithout(ext: map<nat, nat>, blocks: seq<nat>, b: nat)
    requires b in ext && b !in blocks
    ensures b in M.Without(ext, blocks)
  {
  }

  /** The extents unload and kfree(stack) give back, in order. */
  ghost function FirstFreed(image: Image, stack: u32): seq<nat> {
    (if image.Elf? then [AddressToBlock(image.memory), AddressToBlock(image.file)] else [AddressToBlock(image.memory)])
    + [AddressToBlock(stack)]
  }

  /** Image and stack, paging blocks and task rest on live extents that do not meet. */
  ghost predicate InOrder(ext: map<nat, nat>, first: seq<nat>, blocks: seq<nat>, last: nat) {
    && M.NoDuplicates(first) && (forall b :: b in first ==> b in ext)
    && (forall b :: b in blocks ==> b in ext && b !in first)
    && last in ext && last !in first && last !in blocks
  }

  lemma NothingGone(ext: map<nat, nat>, first: seq<nat>)
    ensures M.Without(ext, first[..0]) == ext
  {
  }

  /** process_unload_process, then kfree(stack). */
  method FreeImageAndStack(machine: M.Machine, image: Image, stack: u32, ghost ext: map<nat, nat>,
                           ghost first: seq<nat>)
    requires machine.Valid() && Decode(machine.entries[..]) == ext && first == FirstFreed(image, stack)
    requires M.NoDuplicates(first) && forall b :: b in first ==> b in ext
    modifies machine.entries
    ensures machine.Valid() && Decode(machine.entries[..]) == M.Without(ext, first)
  {
    NothingGone(ext, first);
    machine.FreeNext(image.memory, ext, first, 0);
    if image.Elf? {
      machine.FreeNext(image.file, ext, first, 1);
    }
    machine.FreeNext(stack, ext, first, |first| - 1);
    assert first[..|first|] == first;
  }

  /** process_unload_process, kfree(stack), task_free. */
  method FreeInOrder(machine: M.Machine, image: Image, stack: u32, root: u32, task: u32, list: TaskList,
                     ghost ext: map<nat, nat>, ghost first: seq<nat>, ghost blocks: seq<nat>, ghost last: nat)
    returns (list': TaskList)
    requires machine.Valid() && SpaceWired(machine.words[..], root) && M.InHeap(machine.words[..], root)
    requires Decode(machine.entries[..]) == ext && first == FirstFreed(image, stack)
    requires last == AddressToBlock(task) && blocks == M.SpaceBlocks(machine.words[..], root)
    requires InOrder(ext, first, blocks, last) && IsLink(task) && TaskLinked(machine.words[..], task)
    modifies machine.entries, machine.words
    ensures machine.Valid()
    ensures Decode(machine.entries[..]) == M.Without(M.Without(ext, first), blocks) - {last}
    ensures machine.words[..] == RemovedWords(old(machine.words[..]), task)
    ensures list' == Removed(list, task, PrevOf(old(machine.words[..]), task), NextOf(old(machine.words[..]), task))
  {
    FreeImageAndStack(machine, image, stack, ext, first);
    list' := FreeSpaceAndTask(machine, root, task, list, blocks, last);
  }

  /** task_free. */
  method FreeSpaceAndTask(machine: M.Machine, root: u32, task: u32, list: TaskList, ghost blocks: seq<nat>,
                          ghost last: nat)
    returns (list': TaskList)
    requires machine.Valid() && SpaceWired(machine.words[..], root) && M.InHeap(machine.words[..], root)
    requires last == AddressToBlock(task) && blocks == M.SpaceBlocks(machine.words[..], root)
    requires last !in blocks && last in Decode(machine.entries[..])
    requires forall b :: b in blocks ==> b in Decode(machine.entries[..])
    requires IsLink(task) && TaskLinked(machine.words[..], task)
    modifies machine.entries, machine.words
    ensures machine.Valid()
    ensures Decode(machine.entries[..]) == M.Without(Decode(old(machine.entries[..])), blocks) - {last}
    ensures machine.words[..] == RemovedWords(old(machine.words[..]), task)
    ensures list' == Removed(list, task, PrevOf(old(machine.words[..]), task), NextOf(old(machine.words[..]), task))
  {
    InWithout(Decode(machine.entries[..]), blocks, last);
    machine.PagingFree4gb(root);
    list' := RemoveFromList(machine, list, task);
    machine.KFree(task);
  }

  /** unload, kfree(stack), task_free: everything fixed goes, and nothing else. */
  method FreeFixed(machine: M.Machine, ghost p: Process, image: Image, stack: u32, root: u32, task: u32, list: TaskList)
    returns (list': TaskList)
    requires machine.Valid() && p.image == image && p.stack == stack && p.root == root && p.task == task
    requires SpaceWired(machine.words[..], root) && M.InHeap(machine.words[..], root)
    requires FixedLive(machine.entries[..], machine.words[..], p)
    requires IsLink(task) && TaskLinked(machine.words[..], task)
    modifies machine.entries, machine.words
    ensures machine.Valid()
    ensures Stripped(old(machine.entries[..]), machine.entries[..], old(machine.words[..]), p)
    ensures machine.words[..] == RemovedWords(old(machine.words[..]), task)
    ensures list' == Removed(list, task, PrevOf(old(machine.words[..]), task), NextOf(old(machine.words[..]), task))
  {
    ghost var w, ext := machine.words[..], Decode(machine.entries[..]);
    FixedApart(ext, w, p);
    list' := FreeInOrder(machine, image, stack, root, task, list, ext, FirstFreed(image, stack),
                         M.SpaceBlocks(w, root), AddressToBlock(task));
    FixedGone(ext, w, p, Decode(machine.entries[..]));
  }

  /** The extents of the fixed claims, one by one. */
  ghost function FixedExtents(ext: map<nat, nat>, w: seq<u32>, p: Process): map<nat, nat>
    requires M.InHeap(w, p.root)
  {
    M.Without(M.Without(ext, FirstFreed(p.image, p.stack)), M.SpaceBlocks(w, p.root)) - {AddressToBlock(p.task)}
  }

  lemma FixedApart(ext: map<nat, nat>, w: seq<u32>, p: Process)
    requires M.InHeap(w, p.root)
    requires forall r :: Fixed(p, r) ==> Start(w, p, r) in ext
    requires forall r, q :: Fixed(p, r) && Fixed(p, q) && Start(w, p, r) == Start(w, p, q) ==> r == q
    ensures InOrder(ext, FirstFreed(p.image, p.stack), M.SpaceBlocks(w, p.root), AddressToBlock(p.task))
  {
    assert Fixed(p, ImageMemory) && Fixed(p, Stack) && Fixed(p, Task);
    assert Start(w, p, ImageMemory) == AddressToBlock(p.image.memory);
    assert Start(w, p, Stack) == AddressToBlock(p.stack);
    assert Start(w, p, Task) == AddressToBlock(p.task);
    if p.image.Elf? {
      assert Fixed(p, ElfRecord) && Start(w, p, ElfRecord) == AddressToBlock(p.image.file);
    }
    forall b | b in M.SpaceBlocks(w, p.root)
      ensures b in ext && b !in FirstFreed(p.image, p.stack) && b != AddressToBlock(p.task)
    {
      var k :| 0 <= k < 1026 && M.SpaceBlocks(w, p.root)[k] == b;
      assert Fixed(p, Tables(k)) && Start(w, p, Tables(k)) == b;
    }
  }

  lemma FixedGone(ext: map<nat, nat>, w: seq<u32>, p: Process, ext': map<nat, nat>)
    requires M.InHeap(w, p.root) && ext' == FixedExtents(ext, w, p)
    ensures forall b :: b in ext' <==> b in ext && !FixedStart(w, p, b)
    ensures forall b :: b in ext' ==> ext'[b] == ext[b]
  {
    forall b | b in ext
      ensures b in ext' <==> !FixedStart(w, p, b)
    {
      if FixedStart(w, p, b) {
        var r :| Fixed(p, r) && Start(w, p, r) == b;
        if r.Tables? {
          assert M.SpaceBlocks(w, p.root)[r.k] == b;
        }
      }
      if b !in ext' {
        FixedGoneWitness(ext, w, p, b);
      }
    }
  }

  lemma FixedGoneWitness(ext: map<nat, nat>, w: seq<u32>, p: Process, b: nat)
    requires M.InHeap(w, p.root) && b in ext && b !in FixedExtents(ext, w, p)
    ensures FixedStart(w, p, b)
  {
    var r: Role;
    if b == AddressToBlock(p.image.memory) {
      r := ImageMemory;
    } else if p.image.Elf? && b == AddressToBlock(p.image.file) {
      r := ElfRecord;
    } else if b == AddressToBlock(p.stack) {
      r := Stack;
    } else if b == AddressToBlock(p.task) {
      r := Task;
    } else {
      assert b in M.SpaceBlocks(w, p.root);
      var k :| 0 <= k < 1026 && M.SpaceBlocks(w, p.root)[k] == b;
      r := Tables(k);
    }
    assert Fixed(p, r) && Start(w, p, r) == b;
  }

  /** Draining the slots, stripping the rest and unlinking the task is exactly termination. */
  lemma TerminateStepHolds(s: System, t: System, i: int, s': System)
    requires Inv(s) && Linked(s) && Inv(t) && Draining(s, t, i, MAX_ALLOCATIONS)
    requires M.InHeap(t.words, t.processes[i].value.root)
    requires Stripped(t.table, s'.table, t.words, t.processes[i].value) && s'.processes == t.processes[i := None]
    requires var task := t.processes[i].value.task;
             && TaskLinked(t.words, task) && s'.words == RemovedWords(t.words, task)
             && s'.list == Removed(t.list, task, PrevOf(t.words, task), NextOf(t.words, task))
    ensures TerminateStep(s, i, s')
  {
    var task := s.processes[i].value.task;
    var prev := PrevOf(t.words, task);
    TasksOffSpace(s, i, {});
    TaskPlace(s, i);
    LinksInBlock(s.words, t.words, task, SpaceSet(s.words, s.processes[i].value.root));
    LinkPlace(prev);
    ReleaseStepHolds(s, t, i, s'.(words := t.words));
    if prev != 0 {
      UnlinkedElsewhere(s, i, prev, t.words, s');
    }
  }

  /** With the stored word put back as it was in s, only the process's own tables differ. */
  lemma UnlinkedElsewhere(s: System, i: int, prev: u32, w: seq<u32>, s': System)
    requires IsMemory(s.words) && IsMemory(s'.words) && IsMemory(w) && InMemory(prev)
    requires ReleaseStep(s, i, s'.(words := w))
    requires s'.words == StoreNext(w, prev, NextOf(s'.words, prev))
    ensures ReleaseStep(s, i, Unstored(s, prev, s'))
  {
  }

  lemma ReleaseStepHolds(s: System, t: System, i: int, s': System)
    requires Inv(s) && Inv(t) && Draining(s, t, i, MAX_ALLOCATIONS) && M.InHeap(t.words, t.processes[i].value.root)
    requires Stripped(t.table, s'.table, t.words, t.processes[i].value)
    requires s'.words == t.words && s'.processes == t.processes[i := None]
    ensures ReleaseStep(s, i, s')
  {
    var p, q := s.processes[i].value, t.processes[i].value;
    assert s'.processes == s.processes[i := None];
    forall b | b in Decode(s.table)
      ensures GivenBack(s, i, b) <==> DataFreed(s, i, MAX_ALLOCATIONS, b) || FixedStart(t.words, q, b)
    {
      GivenBackSplit(s, t, i, b);
    }
  }

  lemma GivenBackSplit(s: System, t: System, i: int, b: nat)
    requires Inv(s) && Inv(t) && Draining(s, t, i, MAX_ALLOCATIONS) && M.InHeap(t.words, t.processes[i].value.root)
    ensures GivenBack(s, i, b) <==> DataFreed(s, i, MAX_ALLOCATIONS, b) || FixedStart(t.words, t.processes[i].value, b)
  {
    var p, q := s.processes[i].value, t.processes[i].value;
    if GivenBack(s, i, b) {
      var r :| r != Self && Holds(s, i, r, b);
      if !r.Data? {
        assert Live(q, r);
        DrainedClaims(s, t, i, MAX_ALLOCATIONS, r);
        assert Fixed(q, r);
      }
    }
    if FixedStart(t.words, q, b) {
      var r :| Fixed(q, r) && Start(t.words, q, r) == b;
      DrainedClaims(s, t, i, MAX_ALLOCATIONS, r);
      assert Holds(s, i, r, b);
    }
  }
}
