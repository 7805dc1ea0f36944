/**
 process.c in place: the process table, each process's allocation slots, and the memory they share.
 Every operation is proved to be the step of the abstract system that its name says.
 */
module Kernel {
  import opened Status
  import opened Words
  import opened Memory
  import opened HeapTable
  import opened Paging
  import opened Windows
  import opened AddressSpace
  import opened ElfFormat
  import opened Steps
  import opened TaskLinks
  import opened LoadSteps
  import opened Lifecycle
  import opened Termination
  import opened LoadProcess
  import opened LoadInMemory
  import M = Machine

  /** struct process; `root` is task->page_directory. */
  class ProcessRecord {
    const self: u32
    var image: Image
    var stack: u32
    var task: u32
    var root: u32
    const allocations: array<Allocation>

    ghost function Value(): Process
      reads this, allocations
    {
      Process(self, image, stack, task, root, allocations[..])
    }

    constructor (self: u32)
      ensures this.self == self && fresh(allocations) && allocations.Length == MAX_ALLOCATIONS
      ensures forall k :: 0 <= k < MAX_ALLOCATIONS ==> allocations[k] == Allocation(0, 0)
    {
      this.self := self;
      image := Flat(0, 0);
      stack, task, root := 0, 0, 0;
      allocations := new Allocation[MAX_ALLOCATIONS](_ => Allocation(0, 0));
    }

    /** The loop over the slots: the first one holding ptr. */
    method FindSlot(ptr: u32) returns (k: nat)
      ensures k == SlotOf(allocations[..], ptr)
    {
      k := 0;
      while k < allocations.Length
        invariant k <= allocations.Length
        invariant SlotFrom(allocations[..], ptr, k) == SlotOf(allocations[..], ptr)
      {
        if allocations[k].ptr == ptr {
          break;
        }
        k := k + 1;
      }
    }
  }

  /** Mapping pages of a space without touching anything else first. */
  lemma MapOnly(w0: seq<u32>, w1: seq<u32>, root: u32, v: nat, p: nat, count: nat, flags: u32)
    requires SpaceWired(w0, root) && M.InHeap(w0, root) && v < PAGES && p < PAGES && flags < 4096
    requires Mapped(w0, w1, root, v, p, count, flags)
    ensures Remapped(w0, w1, root, {}, v, p, count, flags)
  {
    TablesInSpace(w0, w1, root);
    assert {} + SpaceSet(w0, root) == SpaceSet(w0, root);
  }

  /** Zeroing new blocks (w0 to wm), then mapping pages (wm to w1). */
  lemma ZeroThenMap(w0: seq<u32>, wm: seq<u32>, w1: seq<u32>, root: u32, blocks: set<int>,
                    v: nat, p: nat, count: nat, flags: u32)
    requires SpaceWired(w0, root) && M.InHeap(w0, root) && v < PAGES && p < PAGES && flags < 4096
    requires M.OnlyBlocksChanged(w0, wm, blocks) && SpaceAvoids(w0, root, blocks)
    requires Mapped(wm, w1, root, v, p, count, flags)
    ensures Remapped(w0, w1, root, blocks, v, p, count, flags)
  {
    SpaceKept(w0, wm, root, blocks);
    TablesInSpace(wm, w1, root);
    ChangesCompose(w0, wm, w1, blocks, SpaceSet(w0, root));
    var dir := Directory(w0, root);
    forall i: nat | i < ENTRIES
      ensures DirectoryEntry(w1, dir, i) == DirectoryEntry(w0, dir, i)
    {
      assert DirectoryEntry(wm, dir, i) == DirectoryEntry(w0, dir, i);
    }
  }

  /** s with new memory, p in slot i, and its task appended. */
  ghost function WithProcess(s: System, i: int, t: seq<bv8>, w: seq<u32>, p: Process): System
    requires 0 <= i < |s.processes|
  {
    System(t, w, s.processes[i := Some(p)], Appended(s.list, p.task))
  }

  lemma LoadDone(s: System, i: int, program: Program, file: seq<byte>, leaked: set<nat>, p: Process, s': System)
    requires Consistent(s) && 0 <= i < |s.processes| && !Alive(s, i)
    requires s' == WithProcess(s, i, s'.table, s'.words, p) && ProgramMaps(program, |file|)
    requires LoadsTo(s.table, s.words, s.list, program, file, leaked, p, s'.table, s'.words)
    ensures LoadStep(s, i, program, file, leaked, p, s')
    ensures Consistent(s') <==> ProgramFits(program, |file|) && LoadSpares(s, i, p)
  {
    LoadKeepsInvIff(s, i, program, file, leaked, p, s');
    if LoadSpares(s, i, p) {
      LoadKeepsLinks(s, i, program, file, leaked, p, s');
    }
  }

  /** What a malloc that found a slot amounts to. */
  lemma MallocDone(s: System, i: int, size: u32, ptr: u32, s': System)
    requires Consistent(s) && Alive(s, i) && (size > 0 ==> CanMalloc(s, i, size)) && s'.list == s.list
    requires SlotOf(s.processes[i].value.allocations, 0) < |s.processes[i].value.allocations|
    requires var p := s.processes[i].value;
             s'.processes == s.processes[i := Some(WithSlot(p, SlotOf(p.allocations, 0), Allocation(ptr, size)))]
    requires size == 0 ==> ptr != 0 && EmptyAddress(s.table, ptr) && s'.table == s.table && s'.words == s.words
    requires size > 0 ==> AllocatedAndMapped(s.table, s.words, s'.table, s'.words, s.processes[i].value.root, size, ptr)
    ensures size > 0 ==> MallocStep(s, i, size, ptr, s') && Consistent(s')
    ensures size == 0 ==> EmptyMallocStep(s, i, ptr, s') && !Inv(s')
  {
    if size > 0 {
      MallocKeepsInv(s, i, size, ptr, s');
      MallocKeepsLinks(s, i, size, ptr, s');
    } else {
      EmptyMallocKeepsInvIff(s, i, ptr, s');
    }
  }

  class Kernel {
    const machine: M.Machine
    const processes: array<ProcessRecord?>
    var list: TaskList

    constructor ()
      ensures list == TaskList(0, 0, 0) && Shape() && fresh(machine.entries) && fresh(machine.words) && fresh(processes)
      ensures forall i :: 0 <= i < processes.Length ==> processes[i] == null
      ensures forall b :: 0 <= b < HEAP_BLOCKS ==> machine.entries[b] == FREE
    {
      machine := new M.Machine();
      processes := new ProcessRecord?[MAX_PROCESSES](_ => null);
      list := TaskList(0, 0, 0);
    }

    ghost function Records(): set<object>
      reads processes
    {
      set i | 0 <= i < processes.Length && processes[i] != null :: processes[i] as object
    }

    ghost function Slots(): set<object>
      reads processes
    {
      set i | 0 <= i < processes.Length && processes[i] != null :: processes[i].allocations as object
    }

    /** Distinct processes are distinct records with distinct slot arrays. */
    ghost predicate Shape()
      reads processes
    {
      && processes.Length == MAX_PROCESSES
      && machine.entries.Length == HEAP_BLOCKS && machine.words.Length == MEMORY_WORDS
      && (forall i :: 0 <= i < processes.Length && processes[i] != null ==>
            processes[i].allocations.Length == MAX_ALLOCATIONS)
      && (forall i, j :: 0 <= i < j < processes.Length && processes[i] != null && processes[j] != null ==>
            processes[i] != processes[j] && processes[i].allocations != processes[j].allocations)
    }

    ghost function Processes(): (ps: seq<Option<Process>>)
      reads processes, Records(), Slots()
      ensures |ps| == processes.Length
      ensures forall i :: 0 <= i < processes.Length ==>
                ps[i] == if processes[i] == null then None else Some(processes[i].Value())
    {
      seq(processes.Length, i requires 0 <= i < processes.Length
                              reads processes, Records(), Slots() =>
        if processes[i] == null then None else Some(processes[i].Value()))
    }

    ghost function State(): System
      reads this, machine.entries, machine.words, processes, Records(), Slots()
    {
      System(machine.entries[..], machine.words[..], Processes(), list)
    }

    ghost predicate Valid()
      reads this, machine.entries, machine.words, processes, Records(), Slots()
    {
      Shape() && Consistent(State())
    }

    ghost predicate At(i: int, p: ProcessRecord)
      reads processes
    {
      0 <= i < processes.Length && processes[i] == p
    }

    /** The slots but slot i hold the records they held. */
    ghost predicate OthersSame(i: int, before: seq<ProcessRecord?>)
      reads processes
    {
      |before| == processes.Length && forall j :: 0 <= j < processes.Length && j != i ==> processes[j] == before[j]
    }

    /** As long as no record is written, the process values stay. */
    twostate lemma RecordsKept()
      requires old(Shape()) && unchanged(processes)
      requires forall j :: 0 <= j < processes.Length && processes[j] != null ==>
                 unchanged(processes[j]) && unchanged(processes[j].allocations)
      ensures Shape() && Processes() == old(Processes())
    {
      assert forall j :: 0 <= j < processes.Length ==> Processes()[j] == old(Processes())[j];
    }

    /** process->allocations[k] = a. */
    method SetSlot(p: ProcessRecord, k: nat, a: Allocation, ghost i: int)
      requires Shape() && At(i, p) && k < MAX_ALLOCATIONS
      modifies p.allocations
      ensures Shape() && At(i, p)
      ensures Processes() == old(Processes())[i := Some(WithSlot(old(p.Value()), k, a))]
    {
      p.allocations[k] := a;
      ghost var before := old(Processes());
      forall j | 0 <= j < processes.Length
        ensures Processes()[j] == before[i := Some(WithSlot(old(p.Value()), k, a))][j]
      {
        if j != i && processes[j] != null {
          assert processes[j].allocations != p.allocations;
        }
      }
    }

    /** AllocateMapped for process i leaves the process records alone. */
    method AllocateIn(root: u32, size: u32, ghost i: int) returns (ptr: u32)
      requires Valid() && Alive(State(), i) && State().processes[i].value.root == root
      requires size <= 0xFFFF_F000 && (size > 0 ==> HasRun(machine.entries[..], BlocksFor(size)))
      modifies machine.entries, machine.words
      ensures Shape() && Processes() == old(Processes())
      ensures size == 0 ==>
                && ptr != 0 && EmptyAddress(old(machine.entries[..]), ptr)
                && machine.entries[..] == old(machine.entries[..]) && machine.words[..] == old(machine.words[..])
      ensures size > 0 ==>
                AllocatedAndMapped(old(machine.entries[..]), old(machine.words[..]),
                                   machine.entries[..], machine.words[..], root, size, ptr)
    {
      SpaceFacts(State(), i);
      ptr := AllocateMapped(machine, root, size);
      RecordsKept();
    }

    method ProcessMalloc(p: ProcessRecord, size: u32, ghost i: int) returns (ptr: u32)
      requires Valid() && At(i, p) && (size > 0 ==> CanMalloc(State(), i, size))
      modifies machine.entries, machine.words, p.allocations
      ensures Shape() && At(i, p)
      ensures size > 0 ==> Valid() && MallocStep(old(State()), i, size, ptr, State())
      ensures size == 0 ==> EmptyMallocStep(old(State()), i, ptr, State()) && (Valid() <==> ptr == 0)
    {
      ghost var s := State();
      var k := p.FindSlot(0);
      assert State() == s;
      if k == p.allocations.Length {
        return 0;
      }
      ptr := AllocateIn(p.root, size, i);
      SetSlot(p, k, Allocation(ptr, size), i);
      MallocDone(s, i, size, ptr, State());
    }

    method UnmapIn(root: u32, a: Allocation, ghost i: int, ghost k: nat)
      requires Valid() && Alive(State(), i) && State().processes[i].value.root == root
      requires k < |State().processes[i].value.allocations| && a == State().processes[i].value.allocations[k]
      modifies machine.words
      ensures Shape() && Processes() == old(Processes())
      ensures SlotLive(machine.entries[..], a)
      ensures if a.ptr == 0 then machine.words[..] == old(machine.words[..])
              else Remapped(old(machine.words[..]), machine.words[..], root, {}, a.ptr / 4096, a.ptr / 4096,
                            BlocksFor(a.size), 0)
    {
      SpaceFacts(State(), i);
      assert ProcessOK(State().table, State().words, State().processes[i].value);
      SlotsLive(State(), i, k);
      UnmapSlot(machine, root, a);
      RecordsKept();
    }

    method FreeIn(a: Allocation)
      requires Shape() && machine.Valid() && SlotLive(machine.entries[..], a)
      modifies machine.entries
      ensures Shape() && Processes() == old(Processes())
      ensures machine.entries[..] == if a.ptr == 0 then old(machine.entries[..])
                                     else Release(old(machine.entries[..]), AddressToBlock(a.ptr))
    {
      FreeSlotPointer(machine, a);
      RecordsKept();
    }

    method ProcessFree(p: ProcessRecord, ptr: u32, ghost i: int)
      requires Valid() && At(i, p)
      modifies machine.entries, machine.words, p.allocations
      ensures Valid() && At(i, p)
      ensures FreeStep(old(State()), i, ptr, State())
    {
      ghost var s := State();
      var k := p.FindSlot(ptr);
      assert State() == s;
      if k < p.allocations.Length {
        var a := p.allocations[k];
        UnmapIn(p.root, a, i, k);
        SetSlot(p, k, Allocation(0, 0), i);
        FreeIn(a);
        FreeStepHolds(s, i, ptr, State());
      }
      FreeKeepsInv(s, i, ptr, State());
      FreeKeepsLinks(s, i, ptr, State());
    }

    /**
     process_load_for_slot; program is what the file's bytes make of it. Any program that can be
     mapped is; one that fits keeps the invariant exactly when the store through the list's tail
     spares the other processes; a refused file leaves no process.
     */
    method ProcessLoadForSlot(i: nat, ghost program: Program, file: seq<byte>)
      returns (res: int, p: ProcessRecord?, ghost leaked: set<nat>)
      requires Valid() && i < MAX_PROCESSES
      requires processes[i] == null ==> Loadable(program, file)
      modifies machine.entries, machine.words, processes, this`list
      ensures Shape()
      ensures old(processes[i]) != null ==> res == -8 && p == null && State() == old(State()) && Valid()
      ensures old(processes[i]) == null ==> LoadResult(old(State()), i, program, file, leaked, res, p)
      ensures OthersSame(i, old(processes[..])) && (p != null ==> fresh(p) && fresh(p.allocations))
    {
      leaked := {};
      if processes[i] != null {
        return -EPID_ISTKN, null, leaked;
      }
      res, p, leaked := LoadIntoSlot(i, program, file);
    }

    /** The file can be loaded: the heap has the room, and the program process_map_memory will find maps. */
    ghost predicate Loadable(program: Program, file: seq<byte>)
      reads this, machine.entries
    {
      && IsProgram(file, program) && 0 < |file| <= 0xFFFF_F000
      && machine.entries.Length == HEAP_BLOCKS && LoadRoom(machine.entries[..], program, |file|)
      && ProgramMaps(FoundProgram(machine.entries[..], list, program, file), |file|)
    }

    /** What a load into the free slot i ends in. */
    ghost predicate LoadResult(s: System, i: nat, program: Program, file: seq<byte>, leaked: set<nat>,
                               res: int, p: ProcessRecord?)
      reads this, machine.entries, machine.words, processes, Records(), Slots()
      reads p, if p != null then {p.allocations} else {}
    {
      if program.RefusedElf? then res == -1 && p == null && RefuseStep(s, file, leaked, State()) && Valid()
      else
        && |file| < TWO_32 && IsProgram(file, program)
        && var found := FoundProgram(s.table, s.list, program, file);
        && res == 0 && p != null && At(i, p) && LoadStep(s, i, found, file, leaked, p.Value(), State())
        && (Valid() <==> ProgramFits(found, |file|) && LoadSpares(s, i, p.Value()))
    }

    /** The rest of process_load_for_slot, for a slot that is free. */
    method LoadIntoSlot(i: nat, ghost program: Program, file: seq<byte>)
      returns (res: int, p: ProcessRecord?, ghost leaked: set<nat>)
      requires Valid() && i < MAX_PROCESSES && processes[i] == null && Loadable(program, file)
      modifies machine.entries, machine.words, processes, this`list
      ensures Shape() && LoadResult(old(State()), i, program, file, leaked, res, p)
      ensures OthersSame(i, old(processes[..])) && (p != null ==> fresh(p) && fresh(p.allocations))
    {
      ghost var s := State();
      LinkPlace(list.tail);
      res, p, leaked := LoadAndLink(i, program, file);
      if p == null {
        RefuseKeepsInv(s, file, leaked, State());
        RefuseKeepsLinks(s, file, leaked, State());
      } else {
        LoadDone(s, i, FoundProgram(s.table, s.list, program, file), file, leaked, p.Value(), State());
      }
    }

    /** The load itself, which needs nothing of the other processes. */
    method LoadAndLink(i: nat, ghost program: Program, file: seq<byte>)
      returns (res: int, p: ProcessRecord?, ghost leaked: set<nat>)
      requires Shape() && machine.Valid() && Loadable(program, file) && IsLink(list.tail) && InMemory(list.tail)
      requires i < MAX_PROCESSES && processes[i] == null
      modifies machine.entries, machine.words, processes, this`list
      ensures Shape() && res == (if program.RefusedElf? then -1 else 0) && (p == null <==> res < 0)
      ensures OthersSame(i, old(processes[..]))
      ensures p == null ==>
                && Processes() == old(Processes()) && list == old(list)
                && Refused(old(machine.entries[..]), old(machine.words[..]), leaked,
                           machine.entries[..], machine.words[..])
      ensures p != null ==>
                && fresh(p) && fresh(p.allocations)
                && At(i, p) && Processes() == old(Processes())[i := Some(p.Value())]
                && list == Appended(old(list), p.task)
                && LoadsTo(old(machine.entries[..]), old(machine.words[..]), old(list),
                           FoundProgram(old(machine.entries[..]), old(list), program, file), file, leaked,
                           p.Value(), machine.entries[..], machine.words[..])
    {
      var v;
      p := null;
      res, v, leaked := LoadBeside(program, file);
      if res == 0 {
        p := Enter(i, v);
      }
    }

    /** The record of a new process in its slot. */
    method Enter(i: nat, v: Process) returns (p: ProcessRecord)
      requires Shape() && i < processes.Length && processes[i] == null && NoAllocations(v)
      modifies processes
      ensures fresh(p) && fresh(p.allocations) && OthersSame(i, old(processes[..]))
      ensures Shape() && At(i, p) && p.Value() == v && Processes() == old(Processes())[i := Some(v)]
    {
      p := NewRecord(v);
      Link(i, p);
    }

    /** The memory side of a load leaves the process records alone. */
    method LoadBeside(ghost program: Program, file: seq<byte>)
      returns (res: int, p: Process, ghost leaked: set<nat>)
      requires Shape() && machine.Valid() && Loadable(program, file) && IsLink(list.tail) && InMemory(list.tail)
      modifies machine.entries, machine.words, this`list
      ensures Shape() && Processes() == old(Processes()) && res == if program.RefusedElf? then -1 else 0
      ensures res < 0 ==>
                && list == old(list)
                && Refused(old(machine.entries[..]), old(machine.words[..]), leaked,
                           machine.entries[..], machine.words[..])
      ensures res == 0 ==>
                && list == Appended(old(list), p.task) && NoAllocations(p)
                && LoadsTo(old(machine.entries[..]), old(machine.words[..]), old(list),
                           FoundProgram(old(machine.entries[..]), old(list), program, file), file, leaked,
                           p, machine.entries[..], machine.words[..])
    {
      res, p, list, leaked := LoadMemory(machine, list, program, file);
      RecordsKept();
    }

    /** The record of a new process. */
    method NewRecord(v: Process) returns (p: ProcessRecord)
      requires Shape() && NoAllocations(v)
      ensures fresh(p) && fresh(p.allocations) && p.allocations.Length == MAX_ALLOCATIONS
      ensures p.Value() == v
      ensures Shape() && Processes() == old(Processes())
    {
      p := new ProcessRecord(v.self);
      p.image, p.stack, p.task, p.root := v.image, v.stack, v.task, v.root;
      assert p.allocations[..] == v.allocations;
      RecordsKept();
    }

    /** processes[slot] = process. */
    method Link(i: nat, p: ProcessRecord)
      requires Shape() && i < processes.Length && processes[i] == null && p.allocations.Length == MAX_ALLOCATIONS
      requires forall j :: 0 <= j < processes.Length && processes[j] != null ==>
                 processes[j] != p && processes[j].allocations != p.allocations
      modifies processes
      ensures Shape() && At(i, p) && OthersSame(i, old(processes[..]))
      ensures Processes() == old(Processes())[i := Some(p.Value())]
    {
      ghost var before := Processes();
      processes[i] := p;
      assert forall j :: 0 <= j < processes.Length ==> Processes()[j] == before[i := Some(p.Value())][j];
    }

    /** The loop of process_load. */
    method FirstFreeSlot() returns (slot: nat)
      requires Shape()
      ensures Shape() && State() == old(State())
      ensures slot <= 12 && forall j :: 0 <= j < slot ==> processes[j] != null
      ensures slot < 12 ==> processes[slot] == null
    {
      slot := 0;
      while slot < MAX_PROCESSES && processes[slot] != null
        invariant 0 <= slot <= MAX_PROCESSES
        invariant forall j :: 0 <= j < slot ==> processes[j] != null
      {
        slot := slot + 1;
      }
    }

    /** process_load: the first free slot. */
    method ProcessLoad(ghost program: Program, file: seq<byte>)
      returns (res: int, p: ProcessRecord?, slot: nat, ghost leaked: set<nat>)
      requires Valid()
      requires (exists j :: 0 <= j < processes.Length && processes[j] == null) ==> Loadable(program, file)
      modifies machine.entries, machine.words, processes, this`list
      ensures Shape()
      ensures slot <= 12 && forall j :: 0 <= j < slot ==> old(processes[j]) != null
      ensures slot == 12 ==> res == -9 && p == null && State() == old(State()) && Valid()
      ensures slot < 12 ==>
                old(processes[slot]) == null && LoadResult(old(State()), slot, program, file, leaked, res, p)
    {
      slot := FirstFreeSlot();
      if slot == MAX_PROCESSES {
        leaked := {};
        return -EPROC_NOMEM, null, slot, leaked;
      }
      res, p, leaked := ProcessLoadForSlot(slot, program, file);
    }

    /** process_terminal_allocations. */
    method FreeAllocations(p: ProcessRecord, ghost i: int)
      requires Valid() && At(i, p)
      modifies machine.entries, machine.words, p.allocations
      ensures Valid() && At(i, p)
      ensures Draining(old(State()), State(), i, MAX_ALLOCATIONS)
    {
      ghost var s := State();
      DrainStart(s, i);
      var k := 0;
      while k < MAX_ALLOCATIONS
        invariant 0 <= k <= MAX_ALLOCATIONS && Valid() && At(i, p)
        invariant Draining(s, State(), i, k)
      {
        DrainSlot(p, k, i, s);
        k := k + 1;
      }
    }

    /** One turn of the loop of process_terminal_allocations. */
    method DrainSlot(p: ProcessRecord, k: nat, ghost i: int, ghost s: System)
      requires Valid() && At(i, p) && k < MAX_ALLOCATIONS && Inv(s) && Draining(s, State(), i, k)
      modifies machine.entries, machine.words, p.allocations
      ensures Valid() && At(i, p) && Draining(s, State(), i, k + 1)
    {
      ghost var t := State();
      assert t.processes[i].value.allocations[k] == s.processes[i].value.allocations[k];
      if p.allocations[k].ptr != 0 {
        ProcessFree(p, p.allocations[k].ptr, i);
        DrainFree(s, t, i, k, State());
      } else {
        DrainSkip(s, t, i, k);
      }
    }

    /** unload, kfree(stack), task_free. */
    method FreeRest(p: ProcessRecord, ghost i: int)
      requires Valid() && At(i, p)
      modifies machine.entries, machine.words, this`list
      ensures Shape() && Processes() == old(Processes()) && At(i, p)
      ensures M.InHeap(old(machine.words[..]), p.root) && TaskLinked(old(machine.words[..]), p.task)
      ensures Stripped(old(machine.entries[..]), machine.entries[..], old(machine.words[..]), p.Value())
      ensures machine.words[..] == RemovedWords(old(machine.words[..]), p.task)
      ensures list == Removed(old(list), p.task, PrevOf(old(machine.words[..]), p.task),
                              NextOf(old(machine.words[..]), p.task))
    {
      FixedClaimsLive(State(), i);
      TaskPlace(State(), i);
      list := FreeFixed(machine, p.Value(), p.image, p.stack, p.root, p.task, list);
      RecordsKept();
    }

    /**
     i is process->id. The invariant stays exactly when the store through the task's prev link spares
     the other processes.
     */
    method ProcessTerminate(p: ProcessRecord, i: nat)
      requires Valid() && At(i, p)
      modifies machine.entries, machine.words, p.allocations, processes, this`list
      ensures Shape() && processes[i] == null && OthersSame(i, old(processes[..])) && Linked(State())
      ensures TerminateStep(old(State()), i, State())
      ensures old(TaskLinked(machine.words[..], p.task)) && (Valid() <==> PrevSpares(old(State()), i))
      ensures LeavesList(old(machine.words[..]), old(list), old(p.task), list)
    {
      ghost var s := State();
      FreeAllocations(p, i);
      ghost var t := State();
      FreeRest(p, i);
      Unlink(i);
      TerminateStepHolds(s, t, i, State());
      TerminateKeepsInvIff(s, i, State());
      TerminateKeepsLinks(s, i, State());
      RemovedLeavesList(s.words, s.list, s.processes[i].value.task);
    }

    /** process_unlink: the slot is cleared. */
    method Unlink(i: nat)
      requires Shape() && i < processes.Length
      modifies processes
      ensures Shape() && processes[i] == null && OthersSame(i, old(processes[..]))
      ensures Processes() == old(Processes())[i := None]
    {
      ghost var before := Processes();
      processes[i] := null;
      assert forall j :: 0 <= j < processes.Length ==> Processes()[j] == before[i := None][j];
    }
  }

  /** The memory side of process_free: the null slot maps and frees nothing. */
  ghost predicate UnmappedAndFreed(t0: seq<bv8>, w0: seq<u32>, t1: seq<bv8>, w1: seq<u32>, root: u32, a: Allocation) {
    if a.ptr == 0 then t1 == t0 && w1 == w0
    else
      && t1 == Release(t0, AddressToBlock(a.ptr))
      && Remapped(w0, w1, root, {}, a.ptr / 4096, a.ptr / 4096, BlocksFor(a.size), 0)
  }

  /** A slot is empty or holds the start of a live extent of its size. */
  ghost predicate SlotLive(t: seq<bv8>, a: Allocation) {
    if a.ptr == 0 then a.size == 0
    else
      var b := AddressToBlock(a.ptr);
      && 0 < a.size <= 0xFFFF_F000 && b < HEAP_BLOCKS && a.ptr == BlockToAddress(b)
      && b in Decode(t) && Decode(t)[b] == BlocksFor(a.size)
  }

  /** paging_map_to(ptr, ptr, align(ptr + size), 0). */
  method UnmapSlot(machine: M.Machine, root: u32, a: Allocation)
    requires machine.Valid() && SpaceLive(machine.entries[..], machine.words[..], root)
    requires SlotLive(machine.entries[..], a)
    modifies machine.words
    ensures a.ptr == 0 ==> machine.words[..] == old(machine.words[..])
    ensures a.ptr != 0 ==>
              Remapped(old(machine.words[..]), machine.words[..], root, {}, a.ptr / 4096, a.ptr / 4096,
                       BlocksFor(a.size), 0)
  {
    ghost var w0 := machine.words[..];
    if a.ptr == 0 {
      var res := machine.PagingMapTo(root, a.ptr, a.ptr, AlignAddress(Add32(a.ptr, a.size)), 0);
    } else {
      LiveExtentInTable(machine.entries[..], AddressToBlock(a.ptr));
      MapBlocks(machine, root, a.ptr, a.size, 0, AddressToBlock(a.ptr));
      MapOnly(w0, machine.words[..], root, a.ptr / 4096, a.ptr / 4096, BlocksFor(a.size), 0);
    }
  }

  /** kfree of a slot's pointer; the null pointer lies beyond the table. */
  method FreeSlotPointer(machine: M.Machine, a: Allocation)
    requires machine.Valid() && SlotLive(machine.entries[..], a)
    modifies machine.entries
    ensures machine.Valid()
    ensures machine.entries[..] == if a.ptr == 0 then old(machine.entries[..])
                                   else Release(old(machine.entries[..]), AddressToBlock(a.ptr))
  {
    machine.HeapFree(a.ptr);
  }

  lemma FreeStepHolds(s: System, i: int, ptr: u32, s': System)
    requires Inv(s) && Alive(s, i)
    requires var p := s.processes[i].value;
             var k := SlotOf(p.allocations, ptr);
             && k < |p.allocations|
             && UnmappedAndFreed(s.table, s.words, s'.table, s'.words, p.root, p.allocations[k])
             && s'.processes == s.processes[i := Some(WithSlot(p, k, Allocation(0, 0)))] && s'.list == s.list
    ensures FreeStep(s, i, ptr, s')
  {
    var p := s.processes[i].value;
    assert ProcessOK(s.table, s.words, p);
    var k := SlotOf(p.allocations, ptr);
    if ptr == 0 {
      assert p.allocations[k] == Allocation(0, 0);
      assert p.allocations[k := Allocation(0, 0)] == p.allocations;
      assert WithSlot(p, k, Allocation(0, 0)) == p;
      assert s'.processes == s.processes;
    }
  }

  lemma SlotsLive(s: System, i: int, k: nat)
    requires Inv(s) && Alive(s, i) && k < MAX_ALLOCATIONS
    ensures |s.processes[i].value.allocations| == MAX_ALLOCATIONS
    ensures SlotLive(s.table, s.processes[i].value.allocations[k])
  {
    var p := s.processes[i].value;
    assert ProcessOK(s.table, s.words, p);
    if p.allocations[k].ptr != 0 {
      assert Owns(s.table, s.words, p, Data(k));
    }
  }

  /** Everything malloc needs to know about the process's space. */
  lemma SpaceFacts(s: System, i: int)
    requires Inv(s) && Alive(s, i)
    ensures SpaceLive(s.table, s.words, s.processes[i].value.root)
  {
    var p := s.processes[i].value;
    assert ProcessOK(s.table, s.words, p);
    forall k: nat | k < 1026
      ensures M.SpaceBlocks(s.words, p.root)[k] in Decode(s.table)
    {
      assert Live(p, Tables(k)) && Owns(s.table, s.words, p, Tables(k));
    }
  }

  /** The space's pages are live heap blocks. */
  ghost predicate SpaceLive(t: seq<bv8>, w: seq<u32>, root: u32) {
    && |t| == HEAP_BLOCKS && WellFormed(t)
    && SpaceWired(w, root) && M.InHeap(w, root)
    && forall k: nat :: k < 1026 ==> M.SpaceBlocks(w, root)[k] in Decode(t)
  }

  /** A zeroed allocation of the first fit, identity-mapped read-write in the space rooted at root. */
  ghost predicate AllocatedAndMapped(t0: seq<bv8>, w0: seq<u32>, t1: seq<bv8>, w1: seq<u32>,
                                     root: u32, size: u32, ptr: u32)
    requires HasRun(t0, BlocksFor(size))
  {
    var n := BlocksFor(size);
    var b := FirstFit(t0, n);
    && n >= 1
    && ptr == BlockToAddress(b)
    && t1 == Take(t0, b, n)
    && Remapped(w0, w1, root, BlockRange(b, n), ptr / 4096, ptr / 4096, n, READ_WRITE)
    && (forall a: u32 :: ptr <= a < ptr + size ==> ByteAt(w1, a) == 0)
  }

  /** The memory side of process_malloc. */
  method AllocateMapped(machine: M.Machine, root: u32, size: u32) returns (ptr: u32)
    requires machine.Valid() && SpaceLive(machine.entries[..], machine.words[..], root)
    requires size <= 0xFFFF_F000 && (size > 0 ==> HasRun(machine.entries[..], BlocksFor(size)))
    modifies machine.entries, machine.words
    ensures machine.Valid()
    ensures size == 0 ==>
              && ptr != 0 && EmptyAddress(old(machine.entries[..]), ptr)
              && machine.entries[..] == old(machine.entries[..]) && machine.words[..] == old(machine.words[..])
    ensures size > 0 ==>
              AllocatedAndMapped(old(machine.entries[..]), old(machine.words[..]),
                                 machine.entries[..], machine.words[..], root, size, ptr)
  {
    if size == 0 {
      ptr := AllocateNothing(machine, root);
    } else {
      ptr := AllocateBlocks(machine, root, size);
    }
  }

  /** The same calls for a size that reserves no block. */
  method AllocateNothing(machine: M.Machine, root: u32) returns (ptr: u32)
    requires machine.Valid() && SpaceWired(machine.words[..], root)
    modifies machine.entries, machine.words
    ensures machine.Valid() && ptr != 0 && EmptyAddress(old(machine.entries[..]), ptr)
    ensures machine.entries[..] == old(machine.entries[..]) && machine.words[..] == old(machine.words[..])
  {
    ghost var t0 := machine.entries[..];
    ptr := machine.KZalloc(0);
    EmptyAddressIs(t0, ptr);
    MapNothing(machine, root, ptr);
  }

  method AllocateBlocks(machine: M.Machine, root: u32, size: u32) returns (ptr: u32)
    requires machine.Valid() && SpaceLive(machine.entries[..], machine.words[..], root)
    requires 0 < size <= 0xFFFF_F000 && HasRun(machine.entries[..], BlocksFor(size))
    modifies machine.entries, machine.words
    ensures machine.Valid()
    ensures AllocatedAndMapped(old(machine.entries[..]), old(machine.words[..]),
                               machine.entries[..], machine.words[..], root, size, ptr)
  {
    ghost var t0, w0 := machine.entries[..], machine.words[..];
    ptr := machine.KZalloc(size);
    ghost var wm := machine.words[..];
    NewBlocksPlace(t0, w0, wm, root, size);
    MapBlocks(machine, root, ptr, size, READ_WRITE, FirstFit(t0, BlocksFor(size)));
    NewBlocksMapped(t0, w0, wm, machine.words[..], root, size);
  }

  /** paging_map_to over no pages. */
  method MapNothing(machine: M.Machine, root: u32, ptr: u32)
    requires machine.words.Length == MEMORY_WORDS && SpaceWired(machine.words[..], root) && ptr % 4096 == 0
    modifies machine.words
    ensures machine.words[..] == old(machine.words[..])
  {
    assert AlignAddress(Add32(ptr, 0)) == ptr;
    var res := machine.PagingMapTo(root, ptr, ptr, AlignAddress(Add32(ptr, 0)), READ_WRITE);
  }

  /** paging_map_to over the pages of an allocation: (ptr, ptr, align(ptr + size), flags). */
  method MapBlocks(machine: M.Machine, root: u32, ptr: u32, size: u32, flags: u32, ghost b: nat)
    requires machine.words.Length == MEMORY_WORDS && SpaceWired(machine.words[..], root) && flags < 4096
    requires b < HEAP_BLOCKS && 0 < size <= 0xFFFF_F000 && b + BlocksFor(size) <= HEAP_BLOCKS
    requires ptr == BlockToAddress(b)
    modifies machine.words
    ensures Mapped(old(machine.words[..]), machine.words[..], root, ptr / 4096, ptr / 4096, BlocksFor(size), flags)
  {
    EndAddress(b, size);
    var end := AlignAddress(Add32(ptr, size));
    var res := machine.PagingMapTo(root, ptr, ptr, end, flags);
  }

  /** Where kzalloc puts the blocks, and that it leaves the space in place. */
  lemma NewBlocksPlace(t0: seq<bv8>, w0: seq<u32>, wm: seq<u32>, root: u32, size: u32)
    requires SpaceLive(t0, w0, root) && 0 < size <= 0xFFFF_F000 && HasRun(t0, BlocksFor(size))
    requires var a := BlockToAddress(FirstFit(t0, BlocksFor(size))); SameBytesOutside(w0, wm, a, a + size)
    ensures var n := BlocksFor(size);
            var b := FirstFit(t0, n);
            && n >= 1 && b + n <= HEAP_BLOCKS && BlockToAddress(b) % 4096 == 0
            && BlockToAddress(b) / 4096 == b + M.FIRST_FRAME
            && AlignAddress(Add32(BlockToAddress(b), size)) == BlockToAddress(b) + n * 4096
            && M.OnlyBlocksChanged(w0, wm, BlockRange(b, n))
            && SpaceAvoids(w0, root, BlockRange(b, n))
    ensures SpaceWired(wm, root)
  {
    M.FirstFitPlace(t0, size);
    var n := BlocksFor(size);
    var b := FirstFit(t0, n);
    EndAddress(b, size);
    ZeroedBlocks(w0, wm, b, size);
    TakeAddsExtent(t0, b, n);
    assert SpaceAvoids(w0, root, BlockRange(b, n));
    SpaceKept(w0, wm, root, BlockRange(b, n));
  }

  lemma SmallSum(a: int, b: int)
    requires 0 <= a + b < TWO_32
    ensures Add32(a, b) == a + b
  {
  }

  lemma EndAddress(b: nat, size: u32)
    requires b < HEAP_BLOCKS && 0 < size <= 0xFFFF_F000 && b + BlocksFor(size) <= HEAP_BLOCKS
    ensures BlockToAddress(b) % 4096 == 0 && BlockToAddress(b) / 4096 == b + M.FIRST_FRAME
    ensures AlignAddress(Add32(BlockToAddress(b), size)) == BlockToAddress(b) + BlocksFor(size) * 4096 < TWO_32
    ensures (AlignAddress(Add32(BlockToAddress(b), size)) - BlockToAddress(b)) / 4096 == BlocksFor(size)
    ensures AlignAddress(Add32(BlockToAddress(b), size)) % 4096 == 0
  {
    RangePages(b, size);
    AddressOfBlock(b);
    RequestReservesBlocksIff(size);
    var x := BlockToAddress(b) + size;
    assert x <= (b + M.FIRST_FRAME + BlocksFor(size)) * 4096 <= 0x740_0000;
    SmallSum(BlockToAddress(b), size);
    AlignAddressIs(x);
  }

  lemma NewBlocksMapped(t0: seq<bv8>, w0: seq<u32>, wm: seq<u32>, w1: seq<u32>, root: u32, size: u32)
    requires SpaceLive(t0, w0, root) && 0 < size <= 0xFFFF_F000 && HasRun(t0, BlocksFor(size))
    requires var a := BlockToAddress(FirstFit(t0, BlocksFor(size)));
             && SameBytesOutside(w0, wm, a, a + size)
             && (forall x: u32 :: a <= x < a + size ==> ByteAt(wm, x) == 0)
             && Mapped(wm, w1, root, a / 4096, a / 4096, BlocksFor(size), READ_WRITE)
    ensures var n := BlocksFor(size);
            n >= 1 && AllocatedAndMapped(t0, w0, Take(t0, FirstFit(t0, n), n), w1, root, size,
                                         BlockToAddress(FirstFit(t0, n)))
  {
    NewBlocksPlace(t0, w0, wm, root, size);
    var n := BlocksFor(size);
    var b := FirstFit(t0, n);
    SpaceKept(w0, wm, root, BlockRange(b, n));
    ZeroThenMap(w0, wm, w1, root, BlockRange(b, n), b + M.FIRST_FRAME, b + M.FIRST_FRAME, n, READ_WRITE);
    TablesInSpace(wm, w1, root);
    ZerosSurvive(w0, wm, w1, root, b, size);
  }

  lemma ZerosSurvive(w0: seq<u32>, wm: seq<u32>, w1: seq<u32>, root: u32, b: nat, size: u32)
    requires b < HEAP_BLOCKS && 0 < size <= 0xFFFF_F000 && b + BlocksFor(size) <= HEAP_BLOCKS
    requires M.InHeap(w0, root) && SpaceAvoids(w0, root, BlockRange(b, BlocksFor(size)))
    requires M.OnlyBlocksChanged(wm, w1, SpaceSet(w0, root))
    requires forall a: u32 :: BlockToAddress(b) <= a < BlockToAddress(b) + size ==> ByteAt(wm, a) == 0
    ensures forall a: u32 :: BlockToAddress(b) <= a < BlockToAddress(b) + size ==> ByteAt(w1, a) == 0
  {
    RequestReservesBlocksIff(size);
    AddressOfBlock(b);
    forall a: u32 | BlockToAddress(b) <= a < BlockToAddress(b) + size
      ensures ByteAt(w1, a) == 0
    {
      var x := a / 4096 - M.FIRST_FRAME;
      assert x in BlockRange(b, BlocksFor(size));
      assert x !in SpaceSet(w0, root);
      ByteKept(wm, w1, SpaceSet(w0, root), a);
    }
  }
}
