/** process_inject_arguments: a linked argument list copied into a process as its argv. */
module ArgumentInjection {
  import opened Status
  import opened Words
  import opened CStrings
  import opened Memory
  import opened HeapTable
  import opened AddressSpace
  import opened Steps
  import opened TaskLinks
  import opened Runs
  import opened UserCopy
  import S = Shell
  import M = Machine
  import K = Kernel

  const WORD_BYTES: int := 4

  // -- Data of a process, and what leaves it alone -----------------------------------------------

  ghost predicate HasData(s: System, i: int, k: nat, a: Allocation) {
    && Alive(s, i) && k < |s.processes[i].value.allocations|
    && s.processes[i].value.allocations[k] == a && a.ptr != 0
  }

  ghost predicate Has(s: System, i: int, a: Allocation) {
    exists k: nat :: HasData(s, i, k, a)
  }

  ghost predicate SamePage(before: seq<u32>, after: seq<u32>, f: int) {
    && IsMemory(before) && IsMemory(after)
    && forall w: nat :: w < MEMORY_WORDS && w / 1024 == f ==> after[w] == before[w]
  }

  lemma DataPage(s: System, i: int, k: nat, a: Allocation, x: int)
    requires Inv(s) && HasData(s, i, k, a) && a.ptr <= x < a.ptr + a.size
    ensures PageOf(s, i, Data(k), x / 4096)
    ensures a.ptr % 4096 == 0 && a.ptr + a.size <= 0x740_0000
    ensures AddressToBlock(a.ptr) in Decode(s.table)
  {
    var p := s.processes[i].value;
    assert ProcessOK(s.table, s.words, p);
    assert Live(p, Data(k));
    ClaimPages(s, i, Data(k), x / 4096);
    var b := Start(s.words, p, Data(k));
    assert Holds(s, i, Data(k), b);
    HeldExtent(s, i, Data(k), b);
    AddressOfBlock(b);
    RequestReservesBlocksIff(a.size);
  }

  /** Two allocations of a process never share a page. */
  lemma OtherPage(s: System, i: int, a: Allocation, c: Allocation, x: int, y: int)
    requires Inv(s) && Has(s, i, a) && Has(s, i, c) && a.ptr != c.ptr
    requires a.ptr <= x < a.ptr + a.size && c.ptr <= y < c.ptr + c.size
    ensures x / 4096 != y / 4096
  {
    var k: nat :| HasData(s, i, k, a);
    var l: nat :| HasData(s, i, l, c);
    DataPage(s, i, k, a, x);
    DataPage(s, i, l, c, y);
    if x / 4096 == y / 4096 {
      DifferentClaimsDifferentPages(s, i, Data(k), i, Data(l), x / 4096);
    }
  }

  /** A page of a live extent is not among n blocks that are free. */
  lemma LiveIsNotFree(t: seq<bv8>, c: nat, f: int, b: nat, n: nat)
    requires WellFormed(t) && n >= 1 && RunAt(t, b, n)
    requires c in Decode(t) && InExtent(c, Decode(t)[c], f)
    ensures f - M.FIRST_FRAME !in BlockRange(b, n) && c != b
  {
    TakeAddsExtent(t, b, n);
  }

  lemma LivePage(s: System, i: int, r: Role, f: int) returns (c: nat)
    requires Inv(s) && PageOf(s, i, r, f)
    ensures c in Decode(s.table) && InExtent(c, Decode(s.table)[c], f)
  {
    c :| Holds(s, i, r, c) && InExtent(c, BlocksFor(Size(s.processes[i].value, r)), f);
    HeldExtent(s, i, r, c);
  }

  /** No process_malloc touches the bytes of an allocation the process already has. */
  lemma MallocKeepsData(s: System, i: int, size: u32, ptr: u32, s': System, a: Allocation, x: int)
    requires Inv(s) && CanMalloc(s, i, size) && MallocStep(s, i, size, ptr, s')
    requires Has(s, i, a) && a.ptr <= x < a.ptr + a.size
    ensures SamePage(s.words, s'.words, x / 4096) && Has(s', i, a)
  {
    var k: nat :| HasData(s, i, k, a);
    if s' == s {
      return;
    }
    assert HasData(s', i, k, a);
    DataPage(s, i, k, a, x);
    MallocKeepsPage(s, i, size, ptr, s', k, x / 4096);
  }

  lemma MallocKeepsPage(s: System, i: int, size: u32, ptr: u32, s': System, k: nat, f: int)
    requires Inv(s) && CanMalloc(s, i, size) && MallocStep(s, i, size, ptr, s') && s' != s
    requires PageOf(s, i, Data(k), f)
    ensures SamePage(s.words, s'.words, f)
  {
    var n := BlocksFor(size);
    var c := LivePage(s, i, Data(k), f);
    LiveIsNotFree(s.table, c, f, FirstFit(s.table, n), n);
    assert ProcessOK(s.table, s.words, s.processes[i].value);
    DataOffSpace(s, i, k, f);
    UnchangedPage(s.words, s'.words,
                  BlockRange(FirstFit(s.table, n), n) + SpaceSet(s.words, s.processes[i].value.root), f);
  }

  lemma UnchangedPage(before: seq<u32>, after: seq<u32>, blocks: set<int>, f: int)
    requires M.OnlyBlocksChanged(before, after, blocks) && f - M.FIRST_FRAME !in blocks
    ensures SamePage(before, after, f)
  {
  }

  /** And what it returns is none of them. */
  lemma MallocIsNew(s: System, i: int, size: u32, ptr: u32, s': System, a: Allocation)
    requires Inv(s) && CanMalloc(s, i, size) && MallocStep(s, i, size, ptr, s') && Has(s, i, a) && a.size > 0
    ensures a.ptr != ptr
  {
    var k: nat :| HasData(s, i, k, a);
    DataPage(s, i, k, a, a.ptr);
    if s' != s {
      var n := BlocksFor(size);
      TakeAddsExtent(s.table, FirstFit(s.table, n), n);
      AddressOfBlock(FirstFit(s.table, n));
    }
  }

  lemma DataIsNoTable(s: System, i: int, k: nat, f: int)
    requires Inv(s) && PageOf(s, i, Data(k), f)
    ensures HoldsNoTables(s, f)
  {
    forall j, l
      ensures !PageOf(s, j, Tables(l), f)
    {
      if PageOf(s, j, Tables(l), f) {
        DifferentClaimsDifferentPages(s, i, Data(k), j, Tables(l), f);
      }
    }
  }

  lemma DataOffSpace(s: System, i: int, k: nat, f: int)
    requires Inv(s) && PageOf(s, i, Data(k), f) && M.InHeap(s.words, s.processes[i].value.root)
    ensures f - M.FIRST_FRAME !in SpaceSet(s.words, s.processes[i].value.root)
  {
    var blocks := M.SpaceBlocks(s.words, s.processes[i].value.root);
    DataIsNoTable(s, i, k, f);
    forall l: nat | l < 1026
      ensures blocks[l] != f - M.FIRST_FRAME
    {
      assert Holds(s, i, Tables(l), blocks[l]);
      HeldExtent(s, i, Tables(l), blocks[l]);
      assert !PageOf(s, i, Tables(l), f);
    }
  }

  lemma NewData(s: System, i: int, size: u32, ptr: u32, s': System)
    requires Inv(s) && CanMalloc(s, i, size) && MallocStep(s, i, size, ptr, s') && ptr != 0
    ensures Has(s', i, Allocation(ptr, size))
  {
    var k := SlotOf(s.processes[i].value.allocations, 0);
    assert ProcessOK(s.table, s.words, s.processes[i].value);
    assert HasData(s', i, k, Allocation(ptr, size));
  }

  /** A store confined to one page of an allocation keeps the invariant. */
  lemma DataWriteKeepsInv(s: System, i: int, a: Allocation, x: int, words: seq<u32>)
    requires Consistent(s) && Has(s, i, a) && a.ptr <= x < a.ptr + a.size
    requires M.OnlyBlocksChanged(s.words, words, {x / 4096 - M.FIRST_FRAME})
    ensures Consistent(s.(words := words))
  {
    DataIsOwn(s, i, a, x);
    BlockWritesKeepInv(s, {x / 4096 - M.FIRST_FRAME}, words);
    BlockWritesKeepLinks(s, {x / 4096 - M.FIRST_FRAME}, words);
  }

  /** The block of a byte of an allocation is no page table and no task record. */
  lemma DataIsOwn(s: System, i: int, a: Allocation, x: int)
    requires Inv(s) && Has(s, i, a) && a.ptr <= x < a.ptr + a.size
    ensures NoTablesIn(s, {x / 4096 - M.FIRST_FRAME}) && NoTasksIn(s, {x / 4096 - M.FIRST_FRAME})
  {
    var k: nat :| HasData(s, i, k, a);
    DataPage(s, i, k, a, x);
    DataIsNoTable(s, i, k, x / 4096);
    DataIsNoTask(s, i, k, x / 4096);
  }

  lemma DataIsNoTask(s: System, i: int, k: nat, f: int)
    requires Inv(s) && PageOf(s, i, Data(k), f)
    ensures HoldsNoTask(s, f)
  {
    forall j
      ensures !PageOf(s, j, Task, f)
    {
      if PageOf(s, j, Task, f) {
        DifferentClaimsDifferentPages(s, i, Data(k), j, Task, f);
      }
    }
  }

  // -- argv --------------------------------------------------------------------------------------

  /** text lies NUL-terminated at ptr. */
  ghost predicate StringIn(words: seq<u32>, ptr: u32, text: seq<byte>) {
    && IsMemory(words) && ptr + |text| < TWO_32
    && (forall x :: 0 <= x < |text| ==> KernelByte(words, ptr, x) == text[x])
    && KernelByte(words, ptr, |text|) == NUL
  }

  /** argv[j] points at an allocation of its own that holds text. */
  ghost predicate ArgumentAt(s: System, i: int, argv: Allocation, j: nat, ptr: u32, text: seq<byte>) {
    && Has(s, i, argv) && Has(s, i, Allocation(ptr, S.ARGUMENT_BYTES)) && ptr != argv.ptr
    && IsMemory(s.words) && 4 * j + 4 <= argv.size && argv.ptr / 4 + j < MEMORY_WORDS
    && s.words[argv.ptr / 4 + j] == ptr
    && |text| < S.ARGUMENT_BYTES && StringIn(s.words, ptr, text)
  }

  ghost predicate Argv(s: System, i: int, argv: Allocation, ptrs: seq<u32>, texts: seq<seq<byte>>) {
    && |ptrs| <= |texts|
    && forall j :: 0 <= j < |ptrs| ==> ArgumentAt(s, i, argv, j, ptrs[j], texts[j])
  }

  lemma StringKept(w0: seq<u32>, w1: seq<u32>, ptr: u32, text: seq<byte>)
    requires StringIn(w0, ptr, text) && ptr % 4096 == 0 && |text| < 4096 && SamePage(w0, w1, ptr / 4096)
    ensures StringIn(w1, ptr, text)
  {
    forall x: nat | x <= |text|
      ensures KernelByte(w1, ptr, x) == KernelByte(w0, ptr, x)
    {
      assert (ptr + x) / 4 / 1024 == ptr / 4096;
    }
  }

  /** An argument survives a change that keeps its page, its word in argv, and both allocations. */
  lemma ArgumentKept(s: System, s': System, i: int, argv: Allocation, j: nat, ptr: u32, text: seq<byte>)
    requires Inv(s) && ArgumentAt(s, i, argv, j, ptr, text)
    requires Has(s', i, argv) && Has(s', i, Allocation(ptr, S.ARGUMENT_BYTES))
    requires SamePage(s.words, s'.words, ptr / 4096)
    requires s'.words[argv.ptr / 4 + j] == s.words[argv.ptr / 4 + j]
    ensures ArgumentAt(s', i, argv, j, ptr, text)
  {
    var k: nat :| HasData(s, i, k, Allocation(ptr, S.ARGUMENT_BYTES));
    DataPage(s, i, k, Allocation(ptr, S.ARGUMENT_BYTES), ptr);
    StringKept(s.words, s'.words, ptr, text);
  }

  lemma ArgvWord(s: System, i: int, argv: Allocation, j: nat)
    requires Inv(s) && Has(s, i, argv) && 4 * j + 4 <= argv.size
    ensures argv.ptr % 4 == 0 && argv.ptr / 4 + j < MEMORY_WORDS
    ensures (argv.ptr / 4 + j) / 1024 == (argv.ptr + 4 * j) / 4096
  {
    var k: nat :| HasData(s, i, k, argv);
    DataPage(s, i, k, argv, argv.ptr);
    WordPage(argv.ptr, j);
  }

  lemma WordPage(ptr: u32, j: nat)
    requires ptr % 4096 == 0 && ptr + 4 * j + 4 <= TWO_32
    ensures ptr % 4 == 0 && ptr / 4 + j < MEMORY_WORDS
    ensures (ptr / 4 + j) / 1024 == (ptr + 4 * j) / 4096
  {
    var m := ptr / 4096;
    assert ptr == 4096 * m;
    assert ptr / 4 == 1024 * m;
  }

  lemma MallocKeepsArgv(s: System, i: int, size: u32, ptr: u32, s': System, argv: Allocation,
                        ptrs: seq<u32>, texts: seq<seq<byte>>)
    requires Inv(s) && CanMalloc(s, i, size) && MallocStep(s, i, size, ptr, s')
    requires Argv(s, i, argv, ptrs, texts) && Has(s, i, argv) && argv.size > 0
    ensures Argv(s', i, argv, ptrs, texts) && Has(s', i, argv)
    ensures ptr != argv.ptr && ptr !in ptrs
  {
    MallocKeepsData(s, i, size, ptr, s', argv, argv.ptr);
    MallocIsNew(s, i, size, ptr, s', argv);
    forall j | 0 <= j < |ptrs|
      ensures ArgumentAt(s', i, argv, j, ptrs[j], texts[j]) && ptrs[j] != ptr
    {
      assert ArgumentAt(s, i, argv, j, ptrs[j], texts[j]);
      ArgvWord(s, i, argv, j);
      MallocKeepsData(s, i, size, ptr, s', argv, argv.ptr + 4 * j);
      MallocKeepsData(s, i, size, ptr, s', Allocation(ptrs[j], S.ARGUMENT_BYTES), ptrs[j]);
      MallocIsNew(s, i, size, ptr, s', Allocation(ptrs[j], S.ARGUMENT_BYTES));
      ArgumentKept(s, s', i, argv, j, ptrs[j], texts[j]);
    }
  }

  /** Filling a new allocation leaves the arguments already there. */
  lemma FillKeepsArgv(s: System, i: int, ptr: u32, words: seq<u32>, argv: Allocation, ptrs: seq<u32>,
                      texts: seq<seq<byte>>)
    requires Inv(s) && Has(s, i, Allocation(ptr, S.ARGUMENT_BYTES)) && Has(s, i, argv)
    requires Argv(s, i, argv, ptrs, texts) && ptr != argv.ptr && ptr !in ptrs
    requires M.OnlyBlocksChanged(s.words, words, {ptr / 4096 - M.FIRST_FRAME})
    ensures Argv(s.(words := words), i, argv, ptrs, texts)
  {
    var s', mine := s.(words := words), Allocation(ptr, S.ARGUMENT_BYTES);
    SameData(s, i, words);
    forall j | 0 <= j < |ptrs|
      ensures ArgumentAt(s', i, argv, j, ptrs[j], texts[j])
    {
      assert ArgumentAt(s, i, argv, j, ptrs[j], texts[j]);
      ArgvWord(s, i, argv, j);
      OtherPage(s, i, mine, argv, ptr, argv.ptr + 4 * j);
      OtherPage(s, i, mine, Allocation(ptrs[j], S.ARGUMENT_BYTES), ptr, ptrs[j]);
      ArgumentKept(s, s', i, argv, j, ptrs[j], texts[j]);
    }
  }

  lemma SameData(s: System, i: int, words: seq<u32>)
    ensures forall a :: Has(s, i, a) ==> Has(s.(words := words), i, a)
  {
    forall a | Has(s, i, a)
      ensures Has(s.(words := words), i, a)
    {
      var k: nat :| HasData(s, i, k, a);
      assert HasData(s.(words := words), i, k, a);
    }
  }

  /** What the allocation at ptr holds is not touched by a store to a word of argv. */
  lemma StoreKeepsText(s: System, i: int, argv: Allocation, n: nat, ptr: u32, text: seq<byte>, val: u32)
    requires Inv(s) && Has(s, i, argv) && Has(s, i, Allocation(ptr, S.ARGUMENT_BYTES)) && ptr != argv.ptr
    requires 4 * n + 4 <= argv.size && |text| < S.ARGUMENT_BYTES && StringIn(s.words, ptr, text)
    requires argv.ptr / 4 + n < MEMORY_WORDS
    ensures SamePage(s.words, s.words[argv.ptr / 4 + n := val], ptr / 4096)
    ensures StringIn(s.words[argv.ptr / 4 + n := val], ptr, text)
  {
    ArgvWord(s, i, argv, n);
    OtherPage(s, i, argv, Allocation(ptr, S.ARGUMENT_BYTES), argv.ptr + 4 * n, ptr);
    var k: nat :| HasData(s, i, k, Allocation(ptr, S.ARGUMENT_BYTES));
    DataPage(s, i, k, Allocation(ptr, S.ARGUMENT_BYTES), ptr);
    StringKept(s.words, s.words[argv.ptr / 4 + n := val], ptr, text);
  }

  /** The words after argv[n] = ptr. */
  ghost predicate StoredPointer(s: System, argv: Allocation, n: nat, ptr: u32, words: seq<u32>) {
    && IsMemory(s.words) && argv.ptr / 4 + n < MEMORY_WORDS && 4 * n + 4 <= argv.size
    && words == s.words[argv.ptr / 4 + n := ptr]
  }

  lemma StoreKeepsArgument(s: System, i: int, argv: Allocation, n: nat, ptr: u32, words: seq<u32>,
                           j: nat, other: u32, text: seq<byte>)
    requires Inv(s) && StoredPointer(s, argv, n, ptr, words) && ArgumentAt(s, i, argv, j, other, text) && j != n
    ensures ArgumentAt(s.(words := words), i, argv, j, other, text)
  {
    SameData(s, i, words);
    StoreKeepsText(s, i, argv, n, other, text, ptr);
    ArgumentKept(s, s.(words := words), i, argv, j, other, text);
  }

  lemma StoreCompletesArgument(s: System, i: int, argv: Allocation, n: nat, ptr: u32, words: seq<u32>, text: seq<byte>)
    requires Inv(s) && Has(s, i, argv) && Has(s, i, Allocation(ptr, S.ARGUMENT_BYTES)) && ptr != argv.ptr
    requires StoredPointer(s, argv, n, ptr, words) && |text| < S.ARGUMENT_BYTES && StringIn(s.words, ptr, text)
    ensures ArgumentAt(s.(words := words), i, argv, n, ptr, text)
  {
    SameData(s, i, words);
    StoreKeepsText(s, i, argv, n, ptr, text, ptr);
  }

  /** Storing the next pointer in argv completes one more argument. */
  lemma StoreExtendsArgv(s: System, i: int, argv: Allocation, ptrs: seq<u32>, texts: seq<seq<byte>>, ptr: u32,
                         words: seq<u32>)
    requires Inv(s) && Has(s, i, argv) && Has(s, i, Allocation(ptr, S.ARGUMENT_BYTES)) && ptr != argv.ptr
    requires Argv(s, i, argv, ptrs, texts) && |ptrs| < |texts| && StoredPointer(s, argv, |ptrs|, ptr, words)
    requires |texts[|ptrs|]| < S.ARGUMENT_BYTES && StringIn(s.words, ptr, texts[|ptrs|])
    ensures Argv(s.(words := words), i, argv, ptrs + [ptr], texts)
    ensures M.OnlyBlocksChanged(s.words, words, {(argv.ptr + 4 * |ptrs|) / 4096 - M.FIRST_FRAME})
  {
    var s', n, more := s.(words := words), |ptrs|, ptrs + [ptr];
    StoreCompletesArgument(s, i, argv, n, ptr, words, texts[n]);
    forall j | 0 <= j <= n
      ensures ArgumentAt(s', i, argv, j, more[j], texts[j])
    {
      if j < n {
        assert more[j] == ptrs[j];
        StoreKeepsArgument(s, i, argv, n, ptr, words, j, ptrs[j], texts[j]);
      }
    }
    ArgvWord(s, i, argv, n);
  }

  // -- process_inject_arguments ------------------------------------------------------------------

  /** What strncpy with the size of the field copies of an argument. */
  function ArgumentText(argument: seq<byte>): (text: seq<byte>)
    requires |argument| == S.ARGUMENT_BYTES
    ensures |text| < S.ARGUMENT_BYTES
  {
    Cut(argument[..S.ARGUMENT_BYTES - 1])
  }

  /** Free allocation slots among the first k. */
  function FreeSlots(allocations: seq<Allocation>, k: nat): (n: nat)
    requires k <= |allocations|
    ensures n <= k
  {
    if k == 0 then 0 else FreeSlots(allocations, k - 1) + if allocations[k - 1].ptr == 0 then 1 else 0
  }

  lemma {:induction false} FreeSlotExists(allocations: seq<Allocation>, k: nat)
    requires k <= |allocations|
    ensures FreeSlots(allocations, k) > 0 <==> exists j :: 0 <= j < k && allocations[j].ptr == 0
  {
    if k > 0 {
      FreeSlotExists(allocations, k - 1);
    }
  }

  lemma {:induction false} SlotTaken(allocations: seq<Allocation>, j: nat, a: Allocation, k: nat)
    requires j < |allocations| && k <= |allocations| && allocations[j].ptr == 0 && a.ptr != 0
    ensures FreeSlots(allocations[j := a], k) == FreeSlots(allocations, k) - if j < k then 1 else 0
  {
    if k > 0 {
      SlotTaken(allocations, j, a, k - 1);
    }
  }

  ghost function SlotsLeft(s: System, i: int): nat
    requires Alive(s, i)
  {
    FreeSlots(s.processes[i].value.allocations, |s.processes[i].value.allocations|)
  }

  /** process_malloc succeeds exactly when a slot is left, and takes one slot and its blocks. */
  lemma MallocTakesSlot(s: System, i: int, size: u32, ptr: u32, s': System)
    requires Inv(s) && CanMalloc(s, i, size) && MallocStep(s, i, size, ptr, s')
    ensures Alive(s', i) && (ptr == 0 <==> SlotsLeft(s, i) == 0)
    ensures ptr == 0 ==> s' == s
    ensures ptr != 0 ==> SlotsLeft(s', i) == SlotsLeft(s, i) - 1
    ensures ptr != 0 ==> FreeCount(s'.table) == FreeCount(s.table) - BlocksFor(size)
  {
    var allocations := s.processes[i].value.allocations;
    FreeSlotExists(allocations, |allocations|);
    var k := SlotOf(allocations, 0);
    if k < |allocations| {
      var b := FirstFit(s.table, BlocksFor(size));
      RequestReservesBlocksIff(size);
      RangePages(b, size);
      SlotTaken(allocations, k, Allocation(ptr, size), |allocations|);
      FreeCountAfterTake(s.table, b, BlocksFor(size));
    }
  }

  /** process_count_command_arguments. */
  method CountArguments(root: S.CommandArgument?, ghost nodes: seq<S.CommandArgument>) returns (n: nat)
    requires S.Chain(root, nodes)
    ensures n == |nodes|
  {
    var current := root;
    n := 0;
    while current != null
      invariant n <= |nodes| && current == S.Follower(nodes, n)
      decreases |nodes| - n
    {
      assert S.Linked(nodes, n);
      n := n + 1;
      current := current.next;
    }
  }

  /** strncpy(dst, argument, sizeof(argument)). */
  method WriteArgument(machine: M.Machine, dst: u32, argument: seq<byte>)
    requires machine.words.Length == MEMORY_WORDS && |argument| == S.ARGUMENT_BYTES && dst + S.ARGUMENT_BYTES <= TWO_32
    modifies machine.words
    ensures Stored(old(machine.words[..]), machine.words[..], dst, ArgumentText(argument))
  {
    ghost var w := machine.words[..];
    ghost var text := argument[..S.ARGUMENT_BYTES - 1];
    var i := 0;
    while i < S.ARGUMENT_BYTES - 1 && argument[i] != NUL
      invariant 0 <= i <= S.ARGUMENT_BYTES - 1 && NUL !in text[..i]
      invariant Copied(w, machine.words[..], dst, text, i)
    {
      OneMoreCharacter(text, i);
      ghost var now := machine.words[..];
      machine.StoreByte(dst + i, argument[i]);
      CopyOne(w, now, machine.words[..], dst, text, i);
      i := i + 1;
    }
    ghost var now := machine.words[..];
    machine.StoreByte(dst + i, NUL);
    CopyEnds(w, now, machine.words[..], dst, text, i);
  }

  lemma StoredIsString(before: seq<u32>, after: seq<u32>, ptr: u32, text: seq<byte>)
    requires Stored(before, after, ptr, text) && ptr % 4096 == 0 && |text| < 4096 && ptr + 4096 <= TWO_32
    ensures StringIn(after, ptr, text)
    ensures M.OnlyBlocksChanged(before, after, {ptr / 4096 - M.FIRST_FRAME})
  {
    forall w: nat | w < MEMORY_WORDS && w / 1024 != ptr / 4096
      ensures after[w] == before[w]
    {
      SameWordsOutside(before, after, ptr, ptr + 4096, w);
    }
  }

  /** strncpy into the allocation at ptr of process i. */
  method FillArgument(kernel: K.Kernel, p: K.ProcessRecord, ptr: u32, argument: seq<byte>, ghost i: int)
    requires kernel.Valid() && kernel.At(i, p) && Has(kernel.State(), i, Allocation(ptr, S.ARGUMENT_BYTES))
    requires |argument| == S.ARGUMENT_BYTES
    modifies kernel.machine.words
    ensures kernel.Valid() && kernel.At(i, p)
    ensures kernel.State() == old(kernel.State()).(words := kernel.machine.words[..])
    ensures StringIn(kernel.machine.words[..], ptr, ArgumentText(argument))
    ensures M.OnlyBlocksChanged(old(kernel.machine.words[..]), kernel.machine.words[..], {ptr / 4096 - M.FIRST_FRAME})
  {
    ghost var s := kernel.State();
    ghost var k: nat :| HasData(s, i, k, Allocation(ptr, S.ARGUMENT_BYTES));
    DataPage(s, i, k, Allocation(ptr, S.ARGUMENT_BYTES), ptr);
    WriteArgument(kernel.machine, ptr, argument);
    kernel.RecordsKept();
    StoredIsString(s.words, kernel.machine.words[..], ptr, ArgumentText(argument));
    DataWriteKeepsInv(s, i, Allocation(ptr, S.ARGUMENT_BYTES), ptr, kernel.machine.words[..]);
  }

  /** argv[n] = ptr. */
  method StorePointer(kernel: K.Kernel, p: K.ProcessRecord, argv: u32, n: nat, ptr: u32,
                      ghost size: u32, ghost ptrs: seq<u32>, ghost texts: seq<seq<byte>>, ghost i: int)
    requires kernel.Valid() && kernel.At(i, p) && n == |ptrs| < |texts| && 4 * n + 4 <= size
    requires Has(kernel.State(), i, Allocation(argv, size)) && Has(kernel.State(), i, Allocation(ptr, S.ARGUMENT_BYTES))
    requires Argv(kernel.State(), i, Allocation(argv, size), ptrs, texts) && ptr != argv
    requires |texts[n]| < S.ARGUMENT_BYTES && StringIn(kernel.machine.words[..], ptr, texts[n])
    modifies kernel.machine.words
    ensures kernel.Valid() && kernel.At(i, p)
    ensures kernel.State() == old(kernel.State()).(words := kernel.machine.words[..])
    ensures Argv(kernel.State(), i, Allocation(argv, size), ptrs + [ptr], texts)
  {
    ghost var s, a := kernel.State(), Allocation(argv, size);
    ArgvWord(s, i, a, n);
    kernel.machine.words[argv / 4 + n] := ptr;
    kernel.RecordsKept();
    StoreExtendsArgv(s, i, a, ptrs, texts, ptr, kernel.machine.words[..]);
    DataWriteKeepsInv(s, i, a, argv + 4 * n, kernel.machine.words[..]);
  }

  ghost function Texts(nodes: seq<S.CommandArgument>): (texts: seq<seq<byte>>)
    requires Wide(nodes)
    ensures |texts| == |nodes| && forall k :: 0 <= k < |texts| ==> texts[k] == ArgumentText(nodes[k].argument)
  {
    seq(|nodes|, k requires 0 <= k < |nodes| => ArgumentText(nodes[k].argument))
  }

  ghost predicate Wide(nodes: seq<S.CommandArgument>) {
    forall k :: 0 <= k < |nodes| ==> |nodes[k].argument| == S.ARGUMENT_BYTES
  }

  /** Midway: so many pointers in argv, so many slots and blocks still to be had. */
  ghost predicate Injecting(s0: System, s: System, i: int, argv: u32, ptrs: seq<u32>, texts: seq<seq<byte>>) {
    && argv != 0 && 4 * |texts| < TWO_32
    && Has(s, i, Allocation(argv, 4 * |texts|)) && Argv(s, i, Allocation(argv, 4 * |texts|), ptrs, texts)
    && Spent(s0, s, i, 1 + |ptrs|, |texts| - |ptrs|)
  }

  /** Process i has used so many slots since s0, so many blocks are still to be had, and no other process changed. */
  ghost predicate Spent(s0: System, s: System, i: int, slots: nat, blocks: int) {
    && Alive(s0, i) && Alive(s, i)
    && SlotsLeft(s, i) + slots == SlotsLeft(s0, i)
    && FreeCount(s.table) >= blocks
    && |s.processes| == |s0.processes|
    && forall j :: 0 <= j < |s.processes| && j != i ==> s.processes[j] == s0.processes[j]
  }

  lemma SpendOne(s0: System, s: System, i: int, slots: nat, blocks: int, ptr: u32, s': System)
    requires Inv(s) && Spent(s0, s, i, slots, blocks)
    requires CanMalloc(s, i, S.ARGUMENT_BYTES) && MallocStep(s, i, S.ARGUMENT_BYTES, ptr, s') && ptr != 0
    ensures Spent(s0, s', i, slots + 1, blocks - 1)
  {
    MallocTakesSlot(s, i, S.ARGUMENT_BYTES, ptr, s');
    assert BlocksFor(S.ARGUMENT_BYTES) == 1;
  }

  /** Room for argv and for one block an argument. */
  ghost predicate RoomFor(s: System, n: nat) {
    && 4 * n <= 0xFFFF_F000 && HasRun(s.table, BlocksFor(4 * n))
    && FreeCount(s.table) >= BlocksFor(4 * n) + n
  }

  /** After the first process_malloc. */
  lemma InjectingStart(s: System, i: int, argv: u32, s': System, texts: seq<seq<byte>>)
    requires Inv(s) && texts != [] && RoomFor(s, |texts|) && Alive(s, i)
    requires MallocStep(s, i, 4 * |texts|, argv, s') && Inv(s') && argv != 0
    ensures Injecting(s, s', i, argv, [], texts)
  {
    MallocTakesSlot(s, i, 4 * |texts|, argv, s');
    NewData(s, i, 4 * |texts|, argv, s');
  }

  /** After one more process_malloc. */
  lemma InjectingMalloc(s0: System, s: System, i: int, argv: u32, ptrs: seq<u32>, texts: seq<seq<byte>>, ptr: u32,
                        s': System)
    requires Inv(s) && Injecting(s0, s, i, argv, ptrs, texts) && |ptrs| < |texts|
    requires CanMalloc(s, i, S.ARGUMENT_BYTES) && MallocStep(s, i, S.ARGUMENT_BYTES, ptr, s') && Inv(s') && ptr != 0
    ensures var a := Allocation(argv, 4 * |texts|);
            && Has(s', i, Allocation(ptr, S.ARGUMENT_BYTES)) && Has(s', i, a) && Argv(s', i, a, ptrs, texts)
            && ptr != argv && ptr !in ptrs
    ensures Spent(s0, s', i, 2 + |ptrs|, |texts| - |ptrs| - 1)
  {
    var a := Allocation(argv, 4 * |texts|);
    SpendOne(s0, s, i, 1 + |ptrs|, |texts| - |ptrs|, ptr, s');
    NewData(s, i, S.ARGUMENT_BYTES, ptr, s');
    MallocKeepsArgv(s, i, S.ARGUMENT_BYTES, ptr, s', a, ptrs, texts);
  }

  /** One turn of the loop over the list. */
  method InjectOne(kernel: K.Kernel, p: K.ProcessRecord, argv: u32, n: nat, argument: seq<byte>,
                   ghost s0: System, ghost ptrs: seq<u32>, ghost texts: seq<seq<byte>>, ghost i: int)
    returns (ptr: u32)
    requires kernel.Valid() && kernel.At(i, p) && Injecting(s0, kernel.State(), i, argv, ptrs, texts)
    requires n == |ptrs| < |texts| && |argument| == S.ARGUMENT_BYTES && texts[n] == ArgumentText(argument)
    modifies kernel.machine.entries, kernel.machine.words, p.allocations
    ensures kernel.Valid() && kernel.At(i, p)
    ensures ptr == 0 <==> old(SlotsLeft(kernel.State(), i)) == 0
    ensures ptr == 0 ==> kernel.State() == old(kernel.State())
    ensures ptr != 0 ==> Injecting(s0, kernel.State(), i, argv, ptrs + [ptr], texts)
  {
    ghost var s, a := kernel.State(), Allocation(argv, 4 * |texts|);
    OneBlockFits(s.table);
    assert BlocksFor(S.ARGUMENT_BYTES) == 1;
    ptr := kernel.ProcessMalloc(p, S.ARGUMENT_BYTES, i);
    ghost var s1 := kernel.State();
    MallocTakesSlot(s, i, S.ARGUMENT_BYTES, ptr, s1);
    if ptr == 0 {
      return;
    }
    InjectingMalloc(s0, s, i, argv, ptrs, texts, ptr, s1);
    FillArgument(kernel, p, ptr, argument, i);
    ghost var s2 := kernel.State();
    SameData(s1, i, s2.words);
    FillKeepsArgv(s1, i, ptr, s2.words, a, ptrs, texts);
    StorePointer(kernel, p, argv, n, ptr, 4 * |texts|, ptrs, texts, i);
    SameData(s2, i, kernel.State().words);
  }

  /**
   argc pointers in argv, each to an allocation of the process that holds its argument. It succeeds
   exactly when the list is not empty and the process has a slot for every argument and for argv.
   */
  method ProcessInjectArguments(kernel: K.Kernel, p: K.ProcessRecord, root: S.CommandArgument?,
                                ghost nodes: seq<S.CommandArgument>, ghost i: int)
    returns (res: int, argc: nat, argv: u32, ghost ptrs: seq<u32>)
    requires kernel.Valid() && kernel.At(i, p) && S.Chain(root, nodes) && Wide(nodes)
    requires nodes != [] ==> RoomFor(kernel.State(), |nodes|)
    modifies kernel.machine.entries, kernel.machine.words, p.allocations
    ensures kernel.Valid() && kernel.At(i, p)
    ensures nodes == [] ==> res == -1 && kernel.State() == old(kernel.State())
    ensures nodes != [] ==> res == if old(SlotsLeft(kernel.State(), i)) >= |nodes| + 1 then 0 else -3
    ensures res == 0 ==>
              && argc == |nodes| == |ptrs|
              && Injecting(old(kernel.State()), kernel.State(), i, argv, ptrs, Texts(nodes))
  {
    ghost var s0 := kernel.State();
    ptrs := [];
    argv := 0;
    argc := CountArguments(root, nodes);
    assert kernel.State() == s0;
    if argc == 0 {
      return -EIO, argc, argv, ptrs;
    }
    res, argv, ptrs := InjectSome(kernel, p, root, argc, nodes, i);
  }

  /** process_malloc of argv. */
  method AllocateArgv(kernel: K.Kernel, p: K.ProcessRecord, argc: nat, ghost texts: seq<seq<byte>>, ghost i: int)
    returns (argv: u32)
    requires kernel.Valid() && kernel.At(i, p) && 0 < argc == |texts| && RoomFor(kernel.State(), argc)
    modifies kernel.machine.entries, kernel.machine.words, p.allocations
    ensures kernel.Valid() && kernel.At(i, p)
    ensures argv == 0 <==> old(SlotsLeft(kernel.State(), i)) == 0
    ensures argv != 0 ==> Injecting(old(kernel.State()), kernel.State(), i, argv, [], texts)
  {
    ghost var s0 := kernel.State();
    argv := kernel.ProcessMalloc(p, WORD_BYTES * argc, i);
    MallocTakesSlot(s0, i, 4 * argc, argv, kernel.State());
    if argv != 0 {
      InjectingStart(s0, i, argv, kernel.State(), texts);
    }
  }

  /** process_inject_arguments once the list is known to hold argc arguments, at least one. */
  method InjectSome(kernel: K.Kernel, p: K.ProcessRecord, root: S.CommandArgument?, argc: nat,
                    ghost nodes: seq<S.CommandArgument>, ghost i: int)
    returns (res: int, argv: u32, ghost ptrs: seq<u32>)
    requires kernel.Valid() && kernel.At(i, p) && S.Chain(root, nodes) && Wide(nodes)
    requires 0 < argc == |nodes| && RoomFor(kernel.State(), argc)
    modifies kernel.machine.entries, kernel.machine.words, p.allocations
    ensures kernel.Valid() && kernel.At(i, p)
    ensures res == if old(SlotsLeft(kernel.State(), i)) >= argc + 1 then 0 else -3
    ensures res == 0 ==> |ptrs| == argc && Injecting(old(kernel.State()), kernel.State(), i, argv, ptrs, Texts(nodes))
  {
    ghost var s0 := kernel.State();
    ptrs := [];
    argv := AllocateArgv(kernel, p, argc, Texts(nodes), i);
    if argv == 0 {
      return -ENOMEM, argv, ptrs;
    }
    res, ptrs := InjectAll(kernel, p, root, argv, s0, nodes, i);
  }

  /** One turn for the node the loop has come to. */
  method InjectNode(kernel: K.Kernel, p: K.ProcessRecord, argv: u32, n: nat, node: S.CommandArgument, ghost s0: System,
                    ghost ptrs: seq<u32>, ghost root: S.CommandArgument?, ghost nodes: seq<S.CommandArgument>,
                    ghost i: int)
    returns (ptr: u32)
    requires kernel.Valid() && kernel.At(i, p) && S.Chain(root, nodes) && n == |ptrs|
    requires InjectedTo(s0, kernel.State(), i, argv, ptrs, nodes, node)
    modifies kernel.machine.entries, kernel.machine.words, p.allocations
    ensures kernel.Valid() && kernel.At(i, p) && S.Chain(root, nodes)
    ensures n < |nodes| && node.next == S.Follower(nodes, n + 1)
    ensures ptr == 0 ==> SlotsLeft(s0, i) < |nodes| + 1
    ensures ptr != 0 ==> Injecting(s0, kernel.State(), i, argv, ptrs + [ptr], Texts(nodes))
  {
    assert S.Linked(nodes, n) && Texts(nodes)[n] == ArgumentText(node.argument);
    ptr := InjectOne(kernel, p, argv, n, node.argument, s0, ptrs, Texts(nodes), i);
  }

  /** The loop over the list, with n of its nodes done. */
  ghost predicate InjectedTo(s0: System, s: System, i: int, argv: u32, ptrs: seq<u32>, nodes: seq<S.CommandArgument>,
                             current: S.CommandArgument?)
  {
    && Wide(nodes) && |ptrs| <= |nodes| && current == S.Follower(nodes, |ptrs|)
    && Injecting(s0, s, i, argv, ptrs, Texts(nodes))
  }

  method InjectAll(kernel: K.Kernel, p: K.ProcessRecord, root: S.CommandArgument?, argv: u32,
                   ghost s0: System, ghost nodes: seq<S.CommandArgument>, ghost i: int)
    returns (res: int, ghost ptrs: seq<u32>)
    requires kernel.Valid() && kernel.At(i, p) && S.Chain(root, nodes) && Wide(nodes)
    requires Injecting(s0, kernel.State(), i, argv, [], Texts(nodes))
    modifies kernel.machine.entries, kernel.machine.words, p.allocations
    ensures kernel.Valid() && kernel.At(i, p)
    ensures res == if SlotsLeft(s0, i) >= |nodes| + 1 then 0 else -3
    ensures res == 0 ==> |ptrs| == |nodes| && Injecting(s0, kernel.State(), i, argv, ptrs, Texts(nodes))
  {
    var current, n := root, 0;
    ptrs := [];
    while current != null
      invariant kernel.Valid() && kernel.At(i, p) && n == |ptrs| && S.Chain(root, nodes)
      invariant InjectedTo(s0, kernel.State(), i, argv, ptrs, nodes, current)
      decreases |nodes| - n
    {
      var ptr := InjectNode(kernel, p, argv, n, current, s0, ptrs, root, nodes, i);
      if ptr == 0 {
        return -ENOMEM, ptrs;
      }
      ptrs := ptrs + [ptr];
      n := n + 1;
      current := current.next;
    }
    res := 0;
  }

  // -- From the shell's line to argv -------------------------------------------------------------

  lemma {:induction false} AllSlotsFree(allocations: seq<Allocation>, k: nat)
    requires k <= |allocations| && forall j :: 0 <= j < |allocations| ==> allocations[j].ptr == 0
    ensures FreeSlots(allocations, k) == k
  {
    if k > 0 {
      AllSlotsFree(allocations, k - 1);
    }
  }

  lemma CutWithin(s: seq<byte>, n: nat)
    requires n < |s| && |Cut(s)| <= n
    ensures Cut(s[..n]) == Cut(s)
  {
    CutIs(s);
    assert s[..n][..|Cut(s)|] == Cut(s);
    CutUnique(s[..n], |Cut(s)|);
  }

  /**
   The list made from a shell line injects as one argument a word, each cut to 511 characters, and
   a freshly loaded process always has the slots for it.
   */
  lemma ShellLineInjects(command: seq<byte>, nodes: seq<S.CommandArgument>, s: System, i: int)
    requires S.Spell(nodes, S.CommandWords(command))
    requires Inv(s) && Alive(s, i) && NoAllocations(s.processes[i].value)
    ensures Wide(nodes) && |nodes| <= 512
    ensures forall k :: 0 <= k < |nodes| ==>
              Texts(nodes)[k] == S.Limited(S.CommandWords(command)[k], 511)
    ensures SlotsLeft(s, i) == 1024 >= |nodes| + 1
  {
    S.AtMost512Arguments(command);
    assert ProcessOK(s.table, s.words, s.processes[i].value);
    AllSlotsFree(s.processes[i].value.allocations, MAX_ALLOCATIONS);
    forall k | 0 <= k < |nodes|
      ensures |nodes[k].argument| == S.ARGUMENT_BYTES
      ensures ArgumentText(nodes[k].argument) == S.Limited(S.CommandWords(command)[k], S.ARGUMENT_BYTES - 1)
    {
      assert S.Holds(nodes[k], S.CommandWords(command)[k]);
      CutWithin(nodes[k].argument, S.ARGUMENT_BYTES - 1);
    }
  }
}
