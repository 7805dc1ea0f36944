/**
 The kernel itself, taken from its start to two states in which a process is out of order: user code
 with a large .bss that can write its own page directory, and a stale prev link that closes a live page.
 */
module FailingRuns {
  import opened Words
  import opened HeapTable
  import opened AddressSpace
  import opened ElfFormat
  import opened TaskLinks
  import opened LoadSteps
  import opened Lifecycle
  import opened LoadProcess
  import opened Runs
  import opened StaleLinks
  import opened LoadedWrites
  import K = Kernel

  // -- The smallest ELF files --------------------------------------------------------------------

  /** An ELF header with an empty program header table behind it, then zeros. */
  function EmptyElf(n: nat): (file: seq<byte>)
    ensures |file| == n
  {
    seq(n, i requires 0 <= i < n => ElfByte(i))
  }

  function ElfByte(i: nat): byte {
    if i < |SIGNATURE| then SIGNATURE[i] else if i == E_PHOFF then HEADER_BYTES else 0
  }

  lemma EmptyElfIsProgram(n: nat)
    requires n >= HEADER_BYTES
    ensures IsProgram(EmptyElf(n), ElfProgram([]))
  {
    var file := EmptyElf(n);
    assert file[..|SIGNATURE|] == SIGNATURE;
    assert WordAt(file, E_PHOFF) == HEADER_BYTES;
    assert HeaderCount(file) == 0;
    assert Segments(Headers(file)) == [];
  }

  /** An ELF header, one program header behind it, and zeros: the file of BssProgram. */
  function BssElf(): (file: seq<byte>)
    ensures |file| == 0x1000
  {
    seq(0x1000, i requires 0 <= i < 0x1000 => BssByte(i))
  }

  function BssByte(i: nat): byte {
    if i == E_PHNUM then 1
    else if i == HEADER_BYTES then PT_LOAD
    else if i == HEADER_BYTES + 10 then 0x40
    else if i == HEADER_BYTES + 17 then 0x10
    else if i == HEADER_BYTES + 21 then 0x70
    else if i == HEADER_BYTES + 24 then PF_W
    else ElfByte(i)
  }

  lemma BssElfIsProgram(file: seq<byte>)
    requires file == BssElf()
    ensures IsProgram(file, BssProgram())
  {
    BssBytes(file);
    BssStart(file);
    BssHeader(file);
    OneHeader(file);
  }

  /** An ELF file with one loadable header right behind its ELF header. */
  lemma OneHeader(file: seq<byte>)
    requires HEADER_BYTES + PROGRAM_HEADER_BYTES <= |file| && ValidHeader(file)
    requires WordAt(file, E_PHOFF) == HEADER_BYTES && HeaderCount(file) == 1
    requires HeaderAt(file, HEADER_BYTES).kind == PT_LOAD
    ensures IsProgram(file, ElfProgram([HeaderAt(file, HEADER_BYTES).segment]))
  {
    assert HeaderPlace(file, 0) == HEADER_BYTES;
    assert Segments(Headers(file)) == [HeaderAt(file, HEADER_BYTES).segment];
  }

  lemma BssStart(file: seq<byte>)
    requires |file| == 0x1000 && (forall i :: 0 <= i < E_PHOFF ==> file[i] == BssByte(i))
    requires BytesAt(file, E_PHOFF, HEADER_BYTES, 0, 0) && BytesAt(file, E_PHNUM, 1, 0, 0)
    ensures ValidHeader(file) && WordAt(file, E_PHOFF) == HEADER_BYTES && HeaderCount(file) == 1
  {
    assert file[..|SIGNATURE|] == SIGNATURE;
  }

  ghost predicate BytesAt(file: seq<byte>, i: nat, b0: byte, b1: byte, b2: byte) {
    i + 4 <= |file| && file[i] == b0 && file[i + 1] == b1 && file[i + 2] == b2 && file[i + 3] == 0
  }

  /** What the words of the program header that count are spelt with. */
  ghost predicate SpellsBss(file: seq<byte>) {
    && |file| == 0x1000
    && BytesAt(file, HEADER_BYTES, PT_LOAD, 0, 0) && BytesAt(file, HEADER_BYTES + 4, 0, 0, 0)
    && BytesAt(file, HEADER_BYTES + 8, 0, 0, 0x40) && BytesAt(file, HEADER_BYTES + 16, 0, 0x10, 0)
    && BytesAt(file, HEADER_BYTES + 20, 0, 0x70, 0) && BytesAt(file, HEADER_BYTES + 24, PF_W, 0, 0)
  }

  lemma BssBytes(file: seq<byte>)
    requires |file| == 0x1000 && forall i :: 0 <= i < |file| ==> file[i] == BssByte(i)
    ensures SpellsBss(file) && BytesAt(file, E_PHOFF, HEADER_BYTES, 0, 0) && BytesAt(file, E_PHNUM, 1, 0, 0)
  {
  }

  lemma BssHeader(file: seq<byte>)
    requires SpellsBss(file)
    ensures HeaderAt(file, HEADER_BYTES) == ProgramHeader(PT_LOAD, BssProgram().segments[0])
  {
  }

  // -- Room for it -------------------------------------------------------------------------------

  /** All blocks from n on are free. */
  ghost predicate FreeFrom(t: seq<bv8>, n: nat) {
    forall i :: n <= i < |t| ==> IsFree(t[i])
  }

  lemma ElfRoom(t: seq<bv8>, n: nat, program: Program, size: u32)
    requires program.ElfProgram? && FreeFrom(t, n) && 0 < size <= 0xB000 && n + 1046 <= |t|
    ensures LoadRoom(t, program, size)
  {
    var sizes := LoadSizes(program, size);
    ElfBlocks(program, size);
    TrailingRunIsRoom(t, sizes, 1026);
  }

  lemma ElfBlocks(program: Program, size: u32)
    requires program.ElfProgram? && 0 < size <= 0xB000
    ensures TotalBlocks(LoadSizes(program, size)) <= 20
    ensures forall k :: 0 <= k < |LoadSizes(program, size)| ==> 0 < LoadSizes(program, size)[k] <= 0xFFFF_F000
  {
    var last := LastSizes();
    LastBlocks();
    SmallFile(size);
    RecordBlocks();
    assert Again(program, size) + AfterData(program) == last;
    OneMore(size, last);
    OneMore(ELF_FILE_BYTES, [size] + last);
    OneMore(PROCESS_BYTES, [ELF_FILE_BYTES] + ([size] + last));
  }

  lemma LastBlocks()
    ensures TotalBlocks(LastSizes()) == 5 && LastSizes() == [STACK_SIZE, TASK_BYTES]
  {
    OneMore(STACK_SIZE, [TASK_BYTES] + []);
    OneMore(TASK_BYTES, []);
  }

  lemma SmallFile(size: u32)
    requires 0 < size <= 0xB000
    ensures 1 <= BlocksFor(size) <= 11
  {
  }

  lemma OneMore(x: u32, rest: seq<u32>)
    ensures TotalBlocks([x] + rest) == BlocksFor(x) + TotalBlocks(rest)
  {
    assert ([x] + rest)[1..] == rest;
  }

  lemma GapFreesRest(t: seq<bv8>, g: nat)
    requires Gap(t, g, |t|)
    ensures FreeFrom(t, g)
  {
  }

  /** A release frees blocks and takes none. */
  lemma ReleaseFrees(s: System, i: int, s': System, n: nat)
    requires Inv(s) && ReleaseStep(s, i, s') && FreeFrom(s.table, n)
    ensures FreeFrom(s'.table, n)
  {
    forall x | n <= x < |s'.table|
      ensures IsFree(s'.table[x])
    {
      WellFormedRepresents(s.table);
      WellFormedRepresents(s'.table);
      FreeMeansUncovered(s.table, Decode(s.table), x);
      FreeMeansUncovered(s'.table, Decode(s'.table), x);
      if Covered(Decode(s'.table), x) {
        var c: nat :| Covers(Decode(s'.table), c, x);
        assert Covers(Decode(s.table), c, x);
      }
    }
  }

  // -- A .bss past the file ----------------------------------------------------------------------

  /** One load into an empty kernel, and user code can write its own page directory. */
  method RunBss() returns (k: K.Kernel)
    ensures k.Shape() && exists f :: CanWrite(k.State(), 0, f) && PageOf(k.State(), 0, Tables(0), f)
  {
    k := new K.Kernel();
    InitialInv(k.State());
    var file := BssElf();
    BssElfIsProgram(file);
    LoadBss(k, BssProgram(), file);
  }

  method LoadBss(k: K.Kernel, ghost program: Program, file: seq<byte>)
    requires k.Valid() && Initial(k.State()) && program == BssProgram() && |file| == 0x1000 && IsProgram(file, program)
    modifies k.machine.entries, k.machine.words, k.processes, k`list
    ensures k.Shape() && exists f :: CanWrite(k.State(), 0, f) && PageOf(k.State(), 0, Tables(0), f)
  {
    ghost var s := k.State();
    NoneAlive(k);
    BssIsWritable();
    ElfRoom(s.table, 0, program, 0x1000);
    var res, p, leaked := k.ProcessLoadForSlot(0, program, file);
    BssEscapes(s, program, file, leaked, p.Value(), k.State());
  }

  lemma BssLoads(s: System, program: Program, file: seq<byte>, leaked: set<nat>, p: Process, s': System)
    requires Initial(s) && Consistent(s) && program == BssProgram() && |file| == 0x1000
    requires LoadStep(s, 0, program, file, leaked, p, s')
    ensures LoadsProgram(s, 0, program, file, leaked, p, s') && Gap(s.table, 0, HEAP_BLOCKS)
  {
    BssIsWritable();
  }

  lemma BssEscapes(s: System, program: Program, file: seq<byte>, leaked: set<nat>, p: Process, s': System)
    requires Initial(s) && Consistent(s) && program == BssProgram() && |file| == 0x1000
    requires LoadStep(s, 0, program, file, leaked, p, s')
    ensures exists f :: CanWrite(s', 0, f) && PageOf(s', 0, Tables(0), f)
  {
    BssLoads(s, program, file, leaked, p, s');
    BssProgramEscapes(s, 0, file, leaked, p, s');
  }

  // -- The run -----------------------------------------------------------------------------------

  /** What a load of an empty program asks of the kernel. */
  lemma MayLoad(s: System, program: Program, file: seq<byte>, g: nat)
    requires Consistent(s) && program == ElfProgram([]) && HEADER_BYTES <= |file| <= 0xB000
    requires FreeFrom(s.table, g) && g + 1046 <= HEAP_BLOCKS
    requires IsProgram(file, program) && (s.list.head != 0 ==> NullOrLiveTask(s, s.list.tail))
    ensures ProgramFits(program, |file|) && ProgramMaps(program, |file|) && LoadRoom(s.table, program, |file|)
    ensures FoundProgram(s.table, s.list, program, file) == program
  {
    ElfRoom(s.table, g, program, |file|);
    if s.list.head != 0 {
      NullOrLiveStands(s, s.list.tail);
      StandingTailFindsProgram(s.table, s.list, program, file);
    }
  }

  /** States up to s joined by events as step allows. */
  ghost predicate Chained(states: seq<System>, events: seq<Event>, s: System, step: (System, Event, System) -> bool) {
    && |states| == |events| + 1 && states[|events|] == s
    && forall k :: 0 <= k < |events| ==> step(states[k], events[k], states[k + 1])
  }

  lemma ChainGrows(states: seq<System>, events: seq<Event>, s: System, e: Event, s': System,
                   step: (System, Event, System) -> bool)
    requires Chained(states, events, s, step) && step(s, e, s')
    ensures Chained(states + [s'], events + [e], s', step)
  {
    var states', events' := states + [s'], events + [e];
    forall k | 0 <= k < |events'|
      ensures step(states'[k], events'[k], states'[k + 1])
    {
      assert k < |events| ==> step(states[k], events[k], states[k + 1]);
    }
  }

  ghost function Calls(): (System, Event, System) -> bool {
    (s, e, s') => Does(s, e, s')
  }

  /** The calls made so far, up to the state s. */
  ghost predicate TraceTo(states: seq<System>, events: seq<Event>, s: System) {
    Chained(states, events, s, Calls())
  }

  lemma OneCallMore(states: seq<System>, events: seq<Event>, s: System, e: Event, s': System)
    requires TraceTo(states, events, s) && Does(s, e, s')
    ensures TraceTo(states + [s'], events + [e], s')
  {
    ChainGrows(states, events, s, e, s', Calls());
  }

  lemma CallsMakeTrace(states: seq<System>, events: seq<Event>, s: System)
    requires TraceTo(states, events, s)
    ensures IsTrace(states, events)
  {
    forall k | 0 <= k < |events|
      ensures Happens(states, events, k)
    {
      assert Calls()(states[k], events[k], states[k + 1]);
    }
  }

  /** Load of an empty program, in a kernel whose list is empty or ends in a live task. */
  method LoadEmpty(k: K.Kernel, i: nat, size: u32, ghost g: nat, ghost states: seq<System>, ghost events: seq<Event>)
    returns (p: K.ProcessRecord, ghost e: Event)
    requires k.Valid() && i < MAX_PROCESSES && k.processes[i] == null && HEADER_BYTES <= size <= 0xB000
    requires FreeFrom(k.machine.entries[..], g) && g + 1046 <= HEAP_BLOCKS
    requires k.list.head != 0 ==> NullOrLiveTask(k.State(), k.list.tail)
    requires TraceTo(states, events, k.State())
    modifies k.machine.entries, k.machine.words, k.processes, k`list
    ensures k.Valid() && k.At(i, p) && fresh(p) && fresh(p.allocations) && k.OthersSame(i, old(k.processes[..]))
    ensures LoadsEmpty(e, i, size) && Does(old(k.State()), e, k.State())
    ensures TraceTo(states + [k.State()], events + [e], k.State())
  {
    ghost var s, program := k.State(), ElfProgram([]);
    var file := EmptyElf(size);
    EmptyElfIsProgram(size);
    MayLoad(s, program, file, g);
    var res, r, leaked := k.ProcessLoadForSlot(i, program, file);
    p := r;
    e := Load(i, program, file, leaked, p.Value());
    if s.list.head != 0 {
      LiveLinksAreSpared(s, e);
    }
    OneCallMore(states, events, s, e, k.State());
  }

  /** A load of a program without segments, from a file of that size. */
  ghost predicate LoadsEmpty(e: Event, i: int, size: u32) {
    e.Load? && e.slot == i && e.program == ElfProgram([]) && |e.file| == size
  }

  /** Load A into an empty kernel. */
  method LoadA(k: K.Kernel, ghost states: seq<System>, ghost events: seq<Event>)
    returns (a: K.ProcessRecord, ghost e: Event)
    requires k.Valid() && Initial(k.State()) && TraceTo(states, events, k.State())
    modifies k.machine.entries, k.machine.words, k.processes, k`list
    ensures k.Valid() && k.At(0, a) && k.processes[1] == null && k.processes[2] == null
    ensures fresh(a) && fresh(a.allocations)
    ensures LoadsEmpty(e, 0, 0xB000) && TraceTo(states + [k.State()], events + [e], k.State())
    ensures FirstLoaded(k.State()) && Gap(k.machine.entries[..], 1046, HEAP_BLOCKS)
  {
    ghost var s := k.State();
    NoneAlive(k);
    a, e := LoadEmpty(k, 0, 0xB000, 0, states, events);
    FirstLoads(s, e, k.State());
  }

  /** Load B behind it. */
  method LoadB(k: K.Kernel, a: K.ProcessRecord, ghost states: seq<System>, ghost events: seq<Event>)
    returns (b: K.ProcessRecord, ghost e: Event)
    requires k.Valid() && k.At(0, a) && k.processes[1] == null && k.processes[2] == null
    requires FirstLoaded(k.State()) && Gap(k.machine.entries[..], 1046, HEAP_BLOCKS)
    requires TraceTo(states, events, k.State())
    modifies k.machine.entries, k.machine.words, k.processes, k`list
    ensures k.Valid() && k.At(0, a) && k.At(1, b) && k.processes[2] == null && fresh(b) && fresh(b.allocations)
    ensures LoadsEmpty(e, 1, 0x1000) && TraceTo(states + [k.State()], events + [e], k.State())
    ensures SecondLoaded(k.State()) && FreeFrom(k.machine.entries[..], 2082)
  {
    ghost var s := k.State();
    GapFreesRest(s.table, 1046);
    b, e := LoadEmpty(k, 1, 0x1000, 1046, states, events);
    SecondLoads(s, e, k.State());
    SecondLeavesRest(s, e, k.State());
  }

  /** Load A and B. */
  method LoadTwo(k: K.Kernel, ghost states0: seq<System>, ghost events0: seq<Event>)
    returns (a: K.ProcessRecord, b: K.ProcessRecord, ghost states: seq<System>, ghost events: seq<Event>,
             ghost e0: Event, ghost e1: Event)
    requires k.Valid() && Initial(k.State()) && TraceTo(states0, events0, k.State())
    modifies k.machine.entries, k.machine.words, k.processes, k`list
    ensures k.Valid() && k.At(0, a) && k.At(1, b) && k.processes[2] == null
    ensures fresh(a) && fresh(b) && fresh(a.allocations) && fresh(b.allocations)
    ensures TraceTo(states, events, k.State()) && states[0] == states0[0]
    ensures events == events0 + [e0] + [e1] && LoadsEmpty(e0, 0, 0xB000) && LoadsEmpty(e1, 1, 0x1000)
    ensures SecondLoaded(k.State()) && FreeFrom(k.machine.entries[..], 2082)
  {
    a, e0 := LoadA(k, states0, events0);
    states, events := states0 + [k.State()], events0 + [e0];
    b, e1 := LoadB(k, a, states, events);
    states, events := states + [k.State()], events + [e1];
  }

  lemma SecondLeavesRest(s: System, e: Event, s': System)
    requires FirstLoaded(s) && Gap(s.table, 1046, HEAP_BLOCKS) && LoadsEmpty(e, 1, 0x1000) && Does(s, e, s')
    ensures FreeFrom(s'.table, 2082)
  {
    FittingProgramMaps(e.program, |e.file|);
    LiveTailStands(s, 0);
    StandingTailSparesNew(s.table, e.p, s.list.tail);
    LoadSits(s, 1, e.program, e.file, e.leaked, e.p, s', 1046, HEAP_BLOCKS);
  }

  lemma NoneAlive(k: K.Kernel)
    requires k.Shape() && Initial(k.State())
    ensures forall i :: 0 <= i < k.processes.Length ==> k.processes[i] == null
  {
    forall i | 0 <= i < k.processes.Length
      ensures k.processes[i] == null
    {
      assert k.State().processes[i] == None;
    }
  }

  /** Terminate A, load D, and give D a page. */
  method ReplaceFirst(k: K.Kernel, a: K.ProcessRecord, ghost b: K.ProcessRecord, ghost states0: seq<System>,
                      ghost events0: seq<Event>)
    returns (ghost states: seq<System>, ghost events: seq<Event>)
    requires k.Valid() && SecondLoaded(k.State()) && k.At(0, a) && k.At(1, b) && k.processes[2] == null
    requires FreeFrom(k.machine.entries[..], 2082) && TraceTo(states0, events0, k.State())
    modifies k.machine.entries, k.machine.words, k.processes, k`list, a.allocations
    ensures k.Valid() && k.At(1, b)
    ensures TraceTo(states, events, k.State()) && states[0] == states0[0]
    ensures exists e3, e4 :: events == events0 + [Terminate(0)] + [e3] + [e4]
                             && LoadsEmpty(e3, 2, 0x1000) && MallocsPage(e4, 2)
  {
    ghost var s := k.State();
    k.ProcessTerminate(a, 0);
    ghost var s3 := k.State();
    FirstGoes(s, s3);
    FirstFreesRest(s, s3);
    OneCallMore(states0, events0, s, Terminate(0), s3);
    ghost var e3, e4;
    states, events, e3, e4 := LoadThird(k, states0 + [s3], events0 + [Terminate(0)]);
  }

  /** Load D and give it a page. */
  method LoadThird(k: K.Kernel, ghost states0: seq<System>, ghost events0: seq<Event>)
    returns (ghost states: seq<System>, ghost events: seq<Event>, ghost e3: Event, ghost e4: Event)
    requires k.Valid() && FirstGone(k.State()) && k.processes[2] == null
    requires FreeFrom(k.machine.entries[..], 2082) && NullOrLiveTask(k.State(), k.list.tail)
    requires TraceTo(states0, events0, k.State())
    modifies k.machine.entries, k.machine.words, k.processes, k`list
    ensures k.Valid() && k.processes[1] == old(k.processes[1])
    ensures TraceTo(states, events, k.State()) && states[0] == states0[0]
    ensures events == events0 + [e3] + [e4] && LoadsEmpty(e3, 2, 0x1000) && MallocsPage(e4, 2)
  {
    var d;
    d, e3 := LoadD(k, states0, events0);
    ghost var states4, events4 := states0 + [k.State()], events0 + [e3];
    e4 := GivePage(k, d, states4, events4);
    states, events := states4 + [k.State()], events4 + [e4];
  }

  method LoadD(k: K.Kernel, ghost states: seq<System>, ghost events: seq<Event>)
    returns (d: K.ProcessRecord, ghost e: Event)
    requires k.Valid() && FirstGone(k.State()) && k.processes[2] == null
    requires FreeFrom(k.machine.entries[..], 2082) && NullOrLiveTask(k.State(), k.list.tail)
    requires TraceTo(states, events, k.State())
    modifies k.machine.entries, k.machine.words, k.processes, k`list
    ensures k.Valid() && k.processes[1] == old(k.processes[1]) && k.At(2, d) && fresh(d) && fresh(d.allocations)
    ensures LoadsEmpty(e, 2, 0x1000) && ThirdLoaded(k.State())
    ensures TraceTo(states + [k.State()], events + [e], k.State())
  {
    ghost var s := k.State();
    d, e := LoadEmpty(k, 2, 0x1000, 2082, states, events);
    ThirdLoads(s, e, k.State());
  }

  /** D's request for a page. */
  method GivePage(k: K.Kernel, d: K.ProcessRecord, ghost states: seq<System>, ghost events: seq<Event>)
    returns (ghost e: Event)
    requires k.Valid() && k.At(2, d) && ThirdLoaded(k.State()) && TraceTo(states, events, k.State())
    modifies k.machine.entries, k.machine.words, d.allocations
    ensures k.Valid() && k.processes[1] == old(k.processes[1])
    ensures MallocsPage(e, 2) && TraceTo(states + [k.State()], events + [e], k.State())
  {
    ghost var s := k.State();
    FirstFitInGap(s.table, 1039, 1046, 1);
    var ptr := k.ProcessMalloc(d, 0x1000, 2);
    e := Malloc(2, 0x1000, ptr);
    ThirdMallocs(s, e, k.State());
    OneCallMore(states, events, s, e, k.State());
  }

  lemma FirstFreesRest(s: System, s': System)
    requires SecondLoaded(s) && FirstGone(s') && TerminateStep(s, 0, s') && FreeFrom(s.table, 2082)
    ensures FreeFrom(s'.table, 2082) && NullOrLiveTask(s', s'.list.tail)
  {
    ReleaseFrees(s, 0, s', 2082);
  }

  /** The six calls, from the kernel's start on: the last one leaves it with a process out of order. */
  method RunStaleLink() returns (k: K.Kernel, ghost states: seq<System>, ghost events: seq<Event>)
    ensures IsTrace(states, events) && Initial(states[0]) && StaleRun(events)
    ensures k.Shape() && k.State() == states[6] && !k.Valid()
    ensures CanWrite(states[5], 2, 5135) && !CanWrite(states[6], 2, 5135) && PageOf(states[6], 2, Data(0), 5135)
  {
    k := new K.Kernel();
    ghost var s0 := k.State();
    InitialInv(s0);
    states, events := RunInKernel(k);
    StaleRunClosesPage(states, events);
  }

  method RunInKernel(k: K.Kernel) returns (ghost states: seq<System>, ghost events: seq<Event>)
    requires k.Valid() && Initial(k.State())
    modifies k.machine.entries, k.machine.words, k.processes, k`list
    ensures IsTrace(states, events) && states[0] == old(k.State()) && StaleRun(events)
    ensures k.Shape() && k.State() == states[6]
  {
    ghost var s0 := k.State();
    var a, b;
    ghost var e0, e1;
    a, b, states, events, e0, e1 := LoadTwo(k, [s0], []);
    ghost var loads := events;
    states, events := ReplaceFirst(k, a, b, states, events);
    ghost var s5 := k.State();
    k.ProcessTerminate(b, 1);
    OneCallMore(states, events, s5, Terminate(1), k.State());
    IsStaleRun(e0, e1, loads, events);
    states, events := states + [k.State()], events + [Terminate(1)];
    CallsMakeTrace(states, events, k.State());
  }

  lemma IsStaleRun(e0: Event, e1: Event, loads: seq<Event>, events: seq<Event>)
    requires loads == [] + [e0] + [e1] && LoadsEmpty(e0, 0, 0xB000) && LoadsEmpty(e1, 1, 0x1000)
    requires exists e3, e4 :: events == loads + [Terminate(0)] + [e3] + [e4]
                              && LoadsEmpty(e3, 2, 0x1000) && MallocsPage(e4, 2)
    ensures StaleRun(events + [Terminate(1)])
  {
  }
}
