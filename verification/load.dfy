/** process_load_for_slot: the allocations it makes, in order, and the process they add up to. */
module LoadProcess {
  import opened Status
  import opened Words
  import opened Memory
  import opened HeapTable
  import opened Placement
  import opened Paging
  import opened Windows
  import opened AddressSpace
  import opened ElfFormat
  import opened ElfHeaders
  import opened Steps
  import opened TaskLinks
  import opened LoadSteps
  import opened Lifecycle
  import M = Machine

  // -- Enough room -----------------------------------------------------------------------------

  /** Every request of the list finds a run in turn, and `ones` single blocks are left after them. */
  ghost predicate Room(t: seq<bv8>, sizes: seq<u32>, ones: nat)
    decreases |sizes|
  {
    if sizes == [] then FreeCount(t) >= ones
    else
      && 0 < sizes[0] <= 0xFFFF_F000
      && HasRun(t, BlocksFor(sizes[0]))
      && Room(Take(t, FirstFit(t, BlocksFor(sizes[0])), BlocksFor(sizes[0])), sizes[1..], ones)
  }

  /** Total blocks of a list of requests. */
  function TotalBlocks(sizes: seq<u32>): nat {
    if sizes == [] then 0 else BlocksFor(sizes[0]) + TotalBlocks(sizes[1..])
  }

  /** Room enough at the end of the table is room enough, wherever the first fits fall. */
  lemma {:induction false} TrailingRunIsRoom(t: seq<bv8>, sizes: seq<u32>, ones: nat)
    requires forall k :: 0 <= k < |sizes| ==> 0 < sizes[k] <= 0xFFFF_F000
    requires TrailingStart(t) + TotalBlocks(sizes) + ones <= |t|
    ensures Room(t, sizes, ones)
    decreases |sizes|
  {
    var e := TrailingStart(t);
    if sizes == [] {
      TrailingBlocksFree(t, |t|);
    } else {
      var n := BlocksFor(sizes[0]);
      assert RunAt(t, e, n);
      var s := FirstFit(t, n);
      var u := Take(t, s, n);
      assert forall i :: e + n <= i < |u| ==> IsFree(u[i]);
      TrailingRunIsRoom(u, sizes[1..], ones);
    }
  }

  lemma {:induction false} TrailingBlocksFree(t: seq<bv8>, k: nat)
    requires TrailingStart(t) <= k <= |t|
    ensures FreeUpTo(t, k) >= k - TrailingStart(t)
    decreases k
  {
    if k > TrailingStart(t) {
      TrailingBlocksFree(t, k - 1);
    }
  }

  /** A flat binary is read a second time, into a buffer of its own. */
  function Again(program: Program, size: u32): seq<u32> {
    if program.FlatProgram? then [size] else []
  }

  lemma SecondCopy(program: Program, size: u32, rest: seq<u32>)
    ensures Again(program, size) + rest == if program.FlatProgram? then [size] + rest else rest
  {
  }

  lemma Tail(x: u32, s: seq<u32>)
    ensures ([x] + s)[0] == x && ([x] + s)[1..] == s
  {
  }

  /** The requests of a load before its paging structures; a flat binary is first tried as ELF. */
  function LoadSizes(program: Program, size: u32): seq<u32> {
    [PROCESS_BYTES] + ([ELF_FILE_BYTES] + ([size] + (Again(program, size) + AfterData(program))))
  }

  /** What is asked for once the file is read: the stack and the task, unless the file is refused. */
  function AfterData(program: Program): seq<u32> {
    if program.RefusedElf? then [] else LastSizes()
  }

  function LastSizes(): seq<u32> {
    [STACK_SIZE] + ([TASK_BYTES] + [])
  }

  /** The single blocks of the paging structures come last. */
  function LoadOnes(program: Program): nat {
    if program.RefusedElf? then 0 else 1026
  }

  /** Room for all that loading this file asks for. */
  ghost predicate LoadRoom(t: seq<bv8>, program: Program, size: u32) {
    Room(t, LoadSizes(program, size), LoadOnes(program))
  }

  // -- What has been reserved so far -----------------------------------------------------------

  datatype Held = Held(block: nat, size: u32)

  ghost predicate IsHeld(t0: seq<bv8>, t: seq<bv8>, h: Held) {
    && 0 < h.size <= 0xFFFF_F000 && h.block < HEAP_BLOCKS
    && h.block !in Decode(t0)
    && h.block in Decode(t) && Decode(t)[h.block] == BlocksFor(h.size)
  }

  ghost predicate SomeHeld(held: seq<Held>, b: nat) {
    exists i :: 0 <= i < |held| && held[i].block == b
  }

  /** t is t0 with exactly the held extents added, each on blocks that were free. */
  ghost predicate Reserved(t0: seq<bv8>, t: seq<bv8>, held: seq<Held>) {
    && |t0| == |t| == HEAP_BLOCKS && WellFormed(t0) && WellFormed(t)
    && (forall i, j :: 0 <= i < j < |held| ==> held[i].block != held[j].block)
    && (forall i :: 0 <= i < |held| ==> IsHeld(t0, t, held[i]))
    && KeepsExtents(t0, t)
    && (forall b :: b in Decode(t) && b !in Decode(t0) ==> SomeHeld(held, b))
    && FreeBlocks(t) <= FreeBlocks(t0)
  }

  lemma ReserveOne(t0: seq<bv8>, t: seq<bv8>, held: seq<Held>, size: u32)
    requires Reserved(t0, t, held) && HeldByFirstFit(t0, t, held)
    requires 0 < size <= 0xFFFF_F000 && HasRun(t, BlocksFor(size))
    ensures BlocksFor(size) >= 1
    ensures var b := FirstFit(t, BlocksFor(size));
            && Reserved(t0, Take(t, b, BlocksFor(size)), held + [Held(b, size)])
            && HeldByFirstFit(t0, Take(t, b, BlocksFor(size)), held + [Held(b, size)])
  {
    RequestReservesBlocksIff(size);
    var n := BlocksFor(size);
    var b := FirstFit(t, n);
    TakeAddsExtent(t, b, n);
    TakenNotFree(t, b, n);
    HoldOneMore(t0, t, Take(t, b, n), held, Held(b, size));
    HoldByFirstFit(t0, t, held, size);
  }

  lemma HoldOneMore(t0: seq<bv8>, t: seq<bv8>, u: seq<bv8>, held: seq<Held>, h: Held)
    requires Reserved(t0, t, held) && |u| == HEAP_BLOCKS && WellFormed(u)
    requires 0 < h.size <= 0xFFFF_F000 && h.block < HEAP_BLOCKS && h.block !in Decode(t)
    requires Decode(u) == Decode(t)[h.block := BlocksFor(h.size)] && FreeBlocks(u) <= FreeBlocks(t)
    ensures Reserved(t0, u, held + [h])
  {
    forall c | c in Decode(u) && c !in Decode(t0)
      ensures SomeHeld(held + [h], c)
    {
      HeldGrows(held, h, c);
    }
    AllHeld(t0, t, u, held, h);
  }

  lemma AllHeld(t0: seq<bv8>, t: seq<bv8>, u: seq<bv8>, held: seq<Held>, h: Held)
    requires Reserved(t0, t, held)
    requires 0 < h.size <= 0xFFFF_F000 && h.block < HEAP_BLOCKS && h.block !in Decode(t)
    requires Decode(u) == Decode(t)[h.block := BlocksFor(h.size)]
    ensures var held' := held + [h];
            && (forall i :: 0 <= i < |held'| ==> IsHeld(t0, u, held'[i]))
            && (forall i, j :: 0 <= i < j < |held'| ==> held'[i].block != held'[j].block)
  {
    var held' := held + [h];
    forall i | 0 <= i < |held'|
      ensures IsHeld(t0, u, held'[i])
      ensures forall j :: i < j < |held'| ==> held'[i].block != held'[j].block
    {
      if i < |held| {
        assert held'[i] == held[i] && IsHeld(t0, t, held[i]);
      }
    }
  }

  lemma HeldGrows(held: seq<Held>, h: Held, c: nat)
    requires SomeHeld(held, c) || c == h.block
    ensures SomeHeld(held + [h], c)
  {
    if c == h.block {
      assert (held + [h])[|held|].block == c;
    } else {
      var i :| 0 <= i < |held| && held[i].block == c;
      assert (held + [h])[i].block == c;
    }
  }

  lemma TakenNotFree(t: seq<bv8>, b: nat, n: nat)
    requires b + n <= |t|
    ensures FreeBlocks(Take(t, b, n)) <= FreeBlocks(t)
  {
    forall i | i in FreeBlocks(Take(t, b, n))
      ensures i in FreeBlocks(t)
    {
      if b <= i < b + n {
        FlagFacts(i - b, n);
      }
    }
  }

  /** Writes confined to free blocks leave a live extent's bytes alone. */
  lemma FileKept(t: seq<bv8>, w: seq<u32>, w': seq<u32>, b: nat, file: seq<byte>)
    requires |t| == HEAP_BLOCKS && WellFormed(t) && b < HEAP_BLOCKS && 0 < |file| <= 0xFFFF_F000
    requires b in Decode(t) && Decode(t)[b] == BlocksFor(|file|)
    requires FileAt(w, BlockToAddress(b), file) && M.OnlyBlocksChanged(w, w', FreeBlocks(t))
    ensures FileAt(w', BlockToAddress(b), file)
  {
    forall x | b <= x < b + BlocksFor(|file|)
      ensures x !in FreeBlocks(t)
    {
      ExtentNotFree(t, b, x);
    }
    FileOffBlocks(t, w, w', b, FreeBlocks(t), file);
  }

  lemma ExtentNotFree(t: seq<bv8>, b: nat, x: nat)
    requires WellFormed(t) && b in Decode(t) && b <= x < b + Decode(t)[b]
    ensures x !in FreeBlocks(t)
  {
    WellFormedRepresents(t);
    assert Covers(Decode(t), b, x);
    FlagFacts(x - b, Decode(t)[b]);
  }

  /** A held extent lies on blocks that were free to begin with. */
  lemma HeldWasFree(t0: seq<bv8>, t: seq<bv8>, h: Held, x: nat)
    requires |t0| == |t| && WellFormed(t0) && WellFormed(t) && KeepsExtents(t0, t) && IsHeld(t0, t, h)
    requires h.block <= x < h.block + BlocksFor(h.size)
    ensures x in FreeBlocks(t0)
  {
    LiveExtentFits(t, h.block);
    WellFormedRepresents(t0);
    FreeMeansUncovered(t0, Decode(t0), x);
    if !IsFree(t0[x]) {
      var a: nat :| Covers(Decode(t0), a, x);
      ExtentsShareBlock(t, a, h.block, x);
    }
  }

  /** How many blocks each held extent was asked for with, and where it is. */
  function Counts(held: seq<Held>): (counts: seq<nat>)
    ensures |counts| == |held| && forall i :: 0 <= i < |held| ==> counts[i] == BlocksFor(held[i].size)
  {
    seq(|held|, i requires 0 <= i < |held| => BlocksFor(held[i].size))
  }

  function Blocks(held: seq<Held>): (blocks: seq<nat>)
    ensures |blocks| == |held| && forall i :: 0 <= i < |held| ==> blocks[i] == held[i].block
  {
    seq(|held|, i requires 0 <= i < |held| => held[i].block)
  }

  ghost predicate HeldByFirstFit(t0: seq<bv8>, t: seq<bv8>, held: seq<Held>) {
    FirstFits(t0, t, Counts(held), Blocks(held))
  }

  lemma HoldByFirstFit(t0: seq<bv8>, t: seq<bv8>, held: seq<Held>, size: u32)
    requires HeldByFirstFit(t0, t, held) && HasRun(t, BlocksFor(size))
    ensures var b := FirstFit(t, BlocksFor(size));
            HeldByFirstFit(t0, Take(t, b, BlocksFor(size)), held + [Held(b, size)])
  {
    var n := BlocksFor(size);
    var more := held + [Held(FirstFit(t, n), size)];
    FitNext(t0, t, Counts(held), Blocks(held), n);
    assert Counts(more) == Counts(held) + [n];
    assert Blocks(more) == Blocks(held) + [FirstFit(t, n)];
  }

  /** How far a load has come. */
  ghost predicate Loading(t0: seq<bv8>, w0: seq<u32>, t: seq<bv8>, w: seq<u32>, held: seq<Held>, rest: seq<u32>,
                          ones: nat) {
    && Reserved(t0, t, held) && M.OnlyBlocksChanged(w0, w, FreeBlocks(t0)) && Room(t, rest, ones)
    && HeldByFirstFit(t0, t, held)
  }

  ghost predicate IsZero(w: seq<u32>, ptr: u32, size: u32) {
    IsMemory(w) && forall a: u32 :: ptr <= a < ptr + size ==> ByteAt(w, a) == 0
  }

  method Reserve(machine: M.Machine, size: u32, ghost t0: seq<bv8>, ghost w0: seq<u32>, ghost held: seq<Held>,
                 ghost rest: seq<u32>, ghost ones: nat)
    returns (ptr: u32, ghost b: nat)
    requires machine.Valid() && rest != [] && rest[0] == size
    requires Loading(t0, w0, machine.entries[..], machine.words[..], held, rest, ones)
    modifies machine.entries, machine.words
    ensures machine.Valid() && ptr == BlockToAddress(b) && b < HEAP_BLOCKS
    ensures Loading(t0, w0, machine.entries[..], machine.words[..], held + [Held(b, size)], rest[1..], ones)
    ensures M.OnlyBlocksChanged(old(machine.words[..]), machine.words[..], FreeBlocks(old(machine.entries[..])))
    ensures KeepsExtents(old(machine.entries[..]), machine.entries[..])
    ensures IsZero(machine.words[..], ptr, size)
  {
    ghost var t, w, n := machine.entries[..], machine.words[..], BlocksFor(size);
    b := FirstFit(t, n);
    ReserveOne(t0, t, held, size);
    M.FirstFitPlace(t, size);
    ptr := machine.KZalloc(size);
    ReservedWords(t0, w0, t, w, machine.words[..], held, b, size);
    TakeAddsExtent(t, b, n);
  }

  lemma ReservedWords(t0: seq<bv8>, w0: seq<u32>, t: seq<bv8>, w: seq<u32>, w': seq<u32>, held: seq<Held>, b: nat,
                      size: u32)
    requires Reserved(t0, t, held) && M.OnlyBlocksChanged(w0, w, FreeBlocks(t0))
    requires 0 < size <= 0xFFFF_F000 && RunAt(t, b, BlocksFor(size)) && b < HEAP_BLOCKS
    requires SameBytesOutside(w, w', BlockToAddress(b), BlockToAddress(b) + size)
    ensures M.OnlyBlocksChanged(w, w', FreeBlocks(t)) && M.OnlyBlocksChanged(w0, w', FreeBlocks(t0))
  {
    ZeroedBlocks(w, w', b, size);
    assert forall x :: x in BlockRange(b, BlocksFor(size)) ==> x in FreeBlocks(t);
  }

  /** fread of the whole file into a buffer of its size. */
  method CopyFile(machine: M.Machine, ptr: u32, file: seq<byte>, ghost t0: seq<bv8>, ghost w0: seq<u32>,
                  ghost held: seq<Held>, ghost k: nat, ghost rest: seq<u32>, ghost ones: nat)
    requires machine.Valid() && Loading(t0, w0, machine.entries[..], machine.words[..], held, rest, ones)
    requires k < |held| && held[k].size == |file| && ptr == BlockToAddress(held[k].block)
    modifies machine.words
    ensures Loading(t0, w0, machine.entries[..], machine.words[..], held, rest, ones)
    ensures FileAt(machine.words[..], ptr, file)
  {
    ghost var t, w, b := machine.entries[..], machine.words[..], held[k].block;
    assert IsHeld(t0, t, held[k]);
    HeldPlace(t0, t, held[k]);
    var i := 0;
    while i < |file|
      invariant 0 <= i <= |file|
      invariant ReadTo(w, machine.words[..], ptr, file, i)
    {
      ghost var now := machine.words[..];
      machine.StoreByte(ptr + i, file[i]);
      ReadOneMore(w, now, machine.words[..], ptr, file, i);
      i := i + 1;
    }
    ReadWhole(w, machine.words[..], ptr, file);
    FileWords(t0, t, w0, w, machine.words[..], held[k]);
  }

  /** i bytes of the file have been read to ptr, and nothing else was written. */
  ghost predicate ReadTo(w: seq<u32>, now: seq<u32>, ptr: u32, file: seq<byte>, i: nat)
    requires i <= |file|
  {
    && IsMemory(w) && IsMemory(now)
    && forall a: u32 :: ByteAt(now, a) == if ptr <= a < ptr + i then file[a - ptr] else ByteAt(w, a)
  }

  lemma ReadOneMore(w: seq<u32>, now: seq<u32>, next: seq<u32>, ptr: u32, file: seq<byte>, i: nat)
    requires i < |file| && ptr + i < TWO_32 && ReadTo(w, now, ptr, file, i) && IsMemory(next)
    requires forall x: u32 :: ByteAt(next, x) == if x == ptr + i then file[i] else ByteAt(now, x)
    ensures ReadTo(w, next, ptr, file, i + 1)
  {
  }

  lemma ReadWhole(w: seq<u32>, now: seq<u32>, ptr: u32, file: seq<byte>)
    requires ptr + |file| <= TWO_32 && ReadTo(w, now, ptr, file, |file|)
    ensures FileAt(now, ptr, file) && SameBytesOutside(w, now, ptr, ptr + |file|)
  {
  }

  lemma HeldPlace(t0: seq<bv8>, t: seq<bv8>, h: Held)
    requires |t| == HEAP_BLOCKS && WellFormed(t) && IsHeld(t0, t, h)
    ensures h.block + BlocksFor(h.size) <= HEAP_BLOCKS
    ensures BlockToAddress(h.block) + h.size <= TWO_32
  {
    LiveExtentInTable(t, h.block);
    ExtentAddresses(h.block, h.size);
  }

  lemma FileWords(t0: seq<bv8>, t: seq<bv8>, w0: seq<u32>, w: seq<u32>, w': seq<u32>, h: Held)
    requires |t0| == |t| == HEAP_BLOCKS && WellFormed(t0) && WellFormed(t) && KeepsExtents(t0, t) && IsHeld(t0, t, h)
    requires h.block + BlocksFor(h.size) <= HEAP_BLOCKS
    requires M.OnlyBlocksChanged(w0, w, FreeBlocks(t0))
    requires SameBytesOutside(w, w', BlockToAddress(h.block), BlockToAddress(h.block) + h.size)
    ensures M.OnlyBlocksChanged(w0, w', FreeBlocks(t0))
  {
    ZeroedBlocks(w, w', h.block, h.size);
    forall x | x in BlockRange(h.block, BlocksFor(h.size))
      ensures x in FreeBlocks(t0)
    {
      HeldWasFree(t0, t, h, x);
    }
  }

  // -- process_load_data -----------------------------------------------------------------------

  /** kzalloc(file_size) followed by fread. */
  method ReserveAndRead(machine: M.Machine, file: seq<byte>, ghost t0: seq<bv8>, ghost w0: seq<u32>,
                        ghost held: seq<Held>, ghost rest: seq<u32>, ghost ones: nat)
    returns (ptr: u32, ghost b: nat)
    requires machine.Valid() && |file| < TWO_32 && rest != [] && rest[0] == |file|
    requires Loading(t0, w0, machine.entries[..], machine.words[..], held, rest, ones)
    modifies machine.entries, machine.words
    ensures machine.Valid() && ptr == BlockToAddress(b) && b < HEAP_BLOCKS
    ensures Loading(t0, w0, machine.entries[..], machine.words[..], held + [Held(b, |file|)], rest[1..], ones)
    ensures FileAt(machine.words[..], ptr, file)
  {
    ptr, b := Reserve(machine, |file|, t0, w0, held, rest, ones);
    ghost var held' := held + [Held(b, |file|)];
    assert held'[|held|] == Held(b, |file|);
    CopyFile(machine, ptr, file, t0, w0, held', |held|, rest[1..], ones);
  }

  /** elf_load; when the file is not an ELF file its record and copy stay behind and it is read again. */
  method LoadData(machine: M.Machine, ghost program: Program, file: seq<byte>, ghost t0: seq<bv8>, ghost w0: seq<u32>,
                  ghost held: seq<Held>, ghost self: u32, ghost rest: seq<u32>, ghost ones: nat)
    returns (res: int, image: Image, ghost held': seq<Held>)
    requires machine.Valid() && 0 < |file| <= 0xFFFF_F000 && IsProgram(file, program)
    requires |held| == 1 && HeldAt(held, 0, self, PROCESS_BYTES)
    requires Loading(t0, w0, machine.entries[..], machine.words[..], held,
                     [ELF_FILE_BYTES] + ([|file| as u32] + (Again(program, |file|) + rest)), ones)
    modifies machine.entries, machine.words
    ensures machine.Valid() && Loading(t0, w0, machine.entries[..], machine.words[..], held', rest, ones)
    ensures res == if program.RefusedElf? then -1 else 0
    ensures res < 0 ==> |held'| == 3 && HeldAt(held', 0, self, PROCESS_BYTES)
    ensures res == 0 ==> ImageIs(image, program, |file|) && FileAt(machine.words[..], image.memory, file)
    ensures res == 0 ==> DataHeld(held', self, image)
  {
    ghost var last := Again(program, |file|) + rest;
    SecondCopy(program, |file|, rest);
    var record, memory;
    ghost var held2;
    record, memory, held2 := LoadElf(machine, file, t0, w0, held, self, last, ones);
    var segments;
    res, segments := ReadHeaders(machine, memory, file, program);
    if res == -EINVFORMAT {
      image, held' := LoadFlat(machine, file, t0, w0, held2, self, record, memory, rest, ones);
      res := 0;
    } else {
      image, held' := Elf(record, memory, |file|, segments), held2;
      HoldElf(held2, self, record, memory, |file|, segments);
    }
  }

  /** elf_process_loaded on the copy of the file: no ELF file, or the program's segments. */
  method ReadHeaders(machine: M.Machine, memory: u32, ghost file: seq<byte>, ghost program: Program)
    returns (res: int, segments: seq<Segment>)
    requires machine.words.Length == MEMORY_WORDS && FileAt(machine.words[..], memory, file) && IsProgram(file, program)
    ensures program.FlatProgram? ==> res == -10
    ensures program.RefusedElf? ==> res == -1
    ensures program.ElfProgram? ==> res == 0 && segments == program.segments
  {
    var elf := new ElfFile(memory);
    ProgramDecides(file, program);
    res, segments := elf.ProcessLoaded(machine, file);
    if program.ElfProgram? {
      ProgramIsUnique(file, program, ElfProgram(segments));
    }
  }

  /** process_load_binary, with what elf_load reserved still in place. */
  method LoadFlat(machine: M.Machine, file: seq<byte>, ghost t0: seq<bv8>, ghost w0: seq<u32>, ghost held: seq<Held>,
                  ghost self: u32, ghost record: u32, ghost memory: u32, ghost rest: seq<u32>, ghost ones: nat)
    returns (image: Image, ghost held': seq<Held>)
    requires machine.Valid() && 0 < |file| <= 0xFFFF_F000
    requires Loading(t0, w0, machine.entries[..], machine.words[..], held, [|file| as u32] + rest, ones)
    requires ElfHeld(held, self, record, memory, |file|)
    modifies machine.entries, machine.words
    ensures machine.Valid() && Loading(t0, w0, machine.entries[..], machine.words[..], held', rest, ones)
    ensures image == Flat(image.memory, |file|) && FileAt(machine.words[..], image.memory, file)
    ensures DataHeld(held', self, image)
  {
    Tail(|file|, rest);
    ghost var q;
    var ptr;
    ptr, q := ReserveAndRead(machine, file, t0, w0, held, [|file| as u32] + rest, ones);
    image, held' := Flat(ptr, |file|), held + [Held(q, |file|)];
    HoldFlat(held, self, record, memory, |file|, q);
  }

  /** elf_load up to the point where the header is looked at. */
  method LoadElf(machine: M.Machine, file: seq<byte>, ghost t0: seq<bv8>, ghost w0: seq<u32>,
                 ghost held: seq<Held>, ghost self: u32, ghost last: seq<u32>, ghost ones: nat)
    returns (record: u32, memory: u32, ghost held': seq<Held>)
    requires machine.Valid() && 0 < |file| <= 0xFFFF_F000
    requires |held| == 1 && HeldAt(held, 0, self, PROCESS_BYTES)
    requires Loading(t0, w0, machine.entries[..], machine.words[..], held,
                     [ELF_FILE_BYTES] + ([|file| as u32] + last), ones)
    modifies machine.entries, machine.words
    ensures machine.Valid() && Loading(t0, w0, machine.entries[..], machine.words[..], held', last, ones)
    ensures FileAt(machine.words[..], memory, file) && ElfHeld(held', self, record, memory, |file|)
  {
    ghost var next := [|file| as u32] + last;
    Tail(ELF_FILE_BYTES, next);
    Tail(|file|, last);
    ghost var r, m;
    record, r := Reserve(machine, ELF_FILE_BYTES, t0, w0, held, [ELF_FILE_BYTES] + next, ones);
    ghost var held1 := held + [Held(r, ELF_FILE_BYTES)];
    memory, m := ReserveAndRead(machine, file, t0, w0, held1, next, ones);
    held' := held1 + [Held(m, |file|)];
    HoldRecordAndFile(held, self, r, m, |file|);
  }

  // -- The process the allocations add up to ---------------------------------------------------

  /** held[k] is the extent at addr. */
  ghost predicate HeldAt(held: seq<Held>, k: nat, addr: u32, size: u32) {
    k < |held| && held[k].size == size && addr == BlockToAddress(held[k].block)
  }

  /** The process built from the reserved extents. */
  ghost predicate Built(held: seq<Held>, p: Process) {
    NoAllocations(p) && RecordsHeld(held, p.self, p.image, p.stack, p.task)
  }

  /** The record and the loaded file, once they are reserved. */
  ghost predicate DataHeld(held: seq<Held>, self: u32, image: Image) {
    && |held| == (if image.Elf? then 3 else 4)
    && held[1].size == ELF_FILE_BYTES && held[2].size == image.size
    && HeldAt(held, 0, self, PROCESS_BYTES)
    && (image.Elf? ==> HeldAt(held, 1, image.file, ELF_FILE_BYTES))
    && HeldAt(held, |held| - 1, image.memory, image.size)
  }

  /** Everything but the paging structures. */
  ghost predicate RecordsHeld(held: seq<Held>, self: u32, image: Image, stack: u32, task: u32) {
    && |held| == (if image.Elf? then 5 else 6)
    && held[1].size == ELF_FILE_BYTES && held[2].size == image.size
    && HeldAt(held, 0, self, PROCESS_BYTES)
    && (image.Elf? ==> HeldAt(held, 1, image.file, ELF_FILE_BYTES))
    && HeldAt(held, |held| - 3, image.memory, image.size)
    && HeldAt(held, |held| - 2, stack, STACK_SIZE)
    && HeldAt(held, |held| - 1, task, TASK_BYTES)
  }

  /** The record, the ELF record and the file, as elf_load leaves them. */
  ghost predicate ElfHeld(held: seq<Held>, self: u32, record: u32, memory: u32, size: u32) {
    && |held| == 3 && HeldAt(held, 0, self, PROCESS_BYTES) && HeldAt(held, 1, record, ELF_FILE_BYTES)
    && HeldAt(held, 2, memory, size)
  }

  lemma HoldRecordAndFile(held: seq<Held>, self: u32, r: nat, m: nat, size: u32)
    requires |held| == 1 && HeldAt(held, 0, self, PROCESS_BYTES)
    ensures ElfHeld(held + [Held(r, ELF_FILE_BYTES)] + [Held(m, size)], self,
                    BlockToAddress(r), BlockToAddress(m), size)
  {
  }

  lemma HoldElf(held: seq<Held>, self: u32, record: u32, memory: u32, size: u32, segments: seq<Segment>)
    requires ElfHeld(held, self, record, memory, size)
    ensures DataHeld(held, self, Elf(record, memory, size, segments))
  {
  }

  lemma HoldFlat(held: seq<Held>, self: u32, record: u32, memory: u32, size: u32, q: nat)
    requires ElfHeld(held, self, record, memory, size)
    ensures DataHeld(held + [Held(q, size)], self, Flat(BlockToAddress(q), size))
  {
  }

  /** The record, the file and the stack. */
  ghost predicate StackHeld(held: seq<Held>, self: u32, image: Image, stack: u32) {
    && |held| > 0 && DataHeld(held[..|held| - 1], self, image)
    && HeldAt(held, |held| - 1, stack, STACK_SIZE)
  }

  lemma HoldTask(held: seq<Held>, held': seq<Held>, self: u32, image: Image, stack: u32, task: u32)
    requires StackHeld(held, self, image, stack) && OneMoreHeld(held, held', task, TASK_BYTES)
    ensures RecordsHeld(held', self, image, stack, task)
  {
    var data := held[..|held| - 1];
    assert held' == data + held'[|data|..];
  }

  /** held' is held with the extent at addr behind it. */
  ghost predicate OneMoreHeld(held: seq<Held>, held': seq<Held>, addr: u32, size: u32) {
    |held'| == |held| + 1 && held'[..|held|] == held && HeldAt(held', |held|, addr, size)
  }

  lemma BuiltRole(held: seq<Held>, p: Process, r: Role)
    requires Built(held, p) && Live(p, r) && !r.Tables?
    ensures var k := RequestOf(p.image, r);
            && 0 <= k < |held| && Size(p, r) == held[k].size && Address(p, r) == BlockToAddress(held[k].block)
    ensures r != Self ==> RequestOf(p.image, r) > 0
  {
  }

  lemma BuiltStart(t0: seq<bv8>, t: seq<bv8>, w: seq<u32>, held: seq<Held>, p: Process, r: Role)
    requires Reserved(t0, t, held) && Built(held, p) && Live(p, r) && !r.Tables? && M.InHeap(w, p.root)
    ensures var k := RequestOf(p.image, r);
            && 0 <= k < |held| && Start(w, p, r) == held[k].block && IsHeld(t0, t, held[k])
            && Address(p, r) == BlockToAddress(held[k].block) && Size(p, r) == held[k].size
  {
    BuiltRole(held, p, r);
    AddressOfBlock(held[RequestOf(p.image, r)].block);
  }

  /** The space was made of one-block extents that were not live. */
  lemma SpaceExtents(tm: seq<bv8>, t: seq<bv8>, w: seq<u32>, root: u32)
    requires M.InHeap(w, root) && M.Grown(tm, t, M.SpaceBlocks(w, root))
    ensures forall k :: 0 <= k < 1026 ==> IsHeld(tm, t, Held(M.SpaceBlocks(w, root)[k], 0x1000))
    ensures KeepsExtents(tm, t)
    ensures forall x :: x in SpaceSet(w, root) ==> x in FreeBlocks(tm)
  {
    var blocks := M.SpaceBlocks(w, root);
    forall k | 0 <= k < 1026
      ensures IsHeld(tm, t, Held(blocks[k], 0x1000)) && blocks[k] in FreeBlocks(tm)
    {
      assert blocks[k] in blocks;
      HeldWasFree(tm, t, Held(blocks[k], 0x1000), blocks[k]);
    }
  }

  // -- Putting it together ---------------------------------------------------------------------

  /** Blocks left behind by the attempt to load a flat binary as ELF. */
  ghost function Leaks(held: seq<Held>, p: Process): set<nat> {
    if p.image.Elf? || |held| != 6 then {} else {held[1].block, held[2].block}
  }

  /** Everything a successful load reserves, before any page is mapped. */
  ghost predicate Allocated(t0: seq<bv8>, w0: seq<u32>, tm: seq<bv8>, wm: seq<u32>, t: seq<bv8>, w: seq<u32>,
                            held: seq<Held>, p: Process) {
    && Reserved(t0, tm, held) && M.OnlyBlocksChanged(w0, wm, FreeBlocks(t0)) && HeldByFirstFit(t0, tm, held)
    && Built(held, p)
    && |t| == HEAP_BLOCKS && WellFormed(t)
    && M.NewSpace(tm, wm, t, w, p.root, READ_ONLY)
  }

  lemma FixedClaim(t0: seq<bv8>, w0: seq<u32>, tm: seq<bv8>, wm: seq<u32>, t: seq<bv8>, w: seq<u32>,
                   held: seq<Held>, p: Process, r: Role)
    requires Allocated(t0, w0, tm, wm, t, w, held, p) && Live(p, r)
    ensures Start(w, p, r) !in Decode(t0) && Owns(t, w, p, r)
    ensures !r.Tables? ==> Start(w, p, r) in Decode(tm) && SomeHeld(held, Start(w, p, r))
    ensures r.Tables? ==> Start(w, p, r) !in Decode(tm)
  {
    SpaceExtents(tm, t, w, p.root);
    if r.Tables? {
      assert IsHeld(tm, t, Held(M.SpaceBlocks(w, p.root)[r.k], 0x1000));
    } else {
      BuiltStart(t0, tm, w, held, p, r);
    }
  }

  lemma ClaimsDistinct(t0: seq<bv8>, w0: seq<u32>, tm: seq<bv8>, wm: seq<u32>, t: seq<bv8>, w: seq<u32>,
                       held: seq<Held>, p: Process, r: Role, q: Role)
    requires Allocated(t0, w0, tm, wm, t, w, held, p) && Live(p, r) && Live(p, q) && Start(w, p, r) == Start(w, p, q)
    ensures r == q
  {
    FixedClaim(t0, w0, tm, wm, t, w, held, p, r);
    FixedClaim(t0, w0, tm, wm, t, w, held, p, q);
    if r.Tables? {
      DifferentTables(w, p, r, q);
    } else {
      DifferentRecords(t0, tm, w, held, p, r, q);
    }
  }

  lemma DifferentTables(w: seq<u32>, p: Process, r: Role, q: Role)
    requires M.InHeap(w, p.root) && M.NoDuplicates(M.SpaceBlocks(w, p.root))
    requires r.Tables? && q.Tables? && Live(p, r) && Live(p, q) && Start(w, p, r) == Start(w, p, q)
    ensures r == q
  {
  }

  lemma DifferentRecords(t0: seq<bv8>, tm: seq<bv8>, w: seq<u32>, held: seq<Held>, p: Process, r: Role, q: Role)
    requires Reserved(t0, tm, held) && Built(held, p) && M.InHeap(w, p.root)
    requires !r.Tables? && !q.Tables? && Live(p, r) && Live(p, q) && Start(w, p, r) == Start(w, p, q)
    ensures r == q
  {
    BuiltStart(t0, tm, w, held, p, r);
    BuiltStart(t0, tm, w, held, p, q);
    assert RequestOf(p.image, r) == RequestOf(p.image, q);
  }

  lemma ClaimsAreNew(t0: seq<bv8>, w0: seq<u32>, tm: seq<bv8>, wm: seq<u32>, t: seq<bv8>, w: seq<u32>,
                     held: seq<Held>, p: Process)
    requires Allocated(t0, w0, tm, wm, t, w, held, p)
    ensures NewClaims(t0, t, w, p)
  {
    forall r | Live(p, r)
      ensures Start(w, p, r) !in Decode(t0) && Owns(t, w, p, r)
    {
      FixedClaim(t0, w0, tm, wm, t, w, held, p, r);
    }
    forall r, q | Live(p, r) && Live(p, q) && Start(w, p, r) == Start(w, p, q)
      ensures r == q
    {
      ClaimsDistinct(t0, w0, tm, wm, t, w, held, p, r, q);
    }
  }

  /** Every extent the load adds is a claim of the process or one of the leaks. */
  lemma NothingElseReserved(t0: seq<bv8>, tm: seq<bv8>, t: seq<bv8>, w: seq<u32>, held: seq<Held>, p: Process, b: nat)
      returns (r: Role)
    requires Reserved(t0, tm, held) && Built(held, p)
    requires M.InHeap(w, p.root) && M.Grown(tm, t, M.SpaceBlocks(w, p.root))
    requires b in Decode(t) && b !in Decode(t0) && b !in Leaks(held, p)
    ensures Live(p, r) && Start(w, p, r) == b
  {
    if b in Decode(tm) {
      NewIsHeld(t0, tm, held, b);
      r := RoleOfHeld(t0, tm, w, held, p, b);
    } else {
      var k := TableOfBlock(tm, t, w, p.root, b);
      r := Tables(k);
    }
  }

  lemma NewIsHeld(t0: seq<bv8>, t: seq<bv8>, held: seq<Held>, b: nat)
    requires Reserved(t0, t, held) && b in Decode(t) && b !in Decode(t0)
    ensures SomeHeld(held, b)
  {
  }

  lemma RoleOfHeld(t0: seq<bv8>, tm: seq<bv8>, w: seq<u32>, held: seq<Held>, p: Process, b: nat) returns (r: Role)
    requires Reserved(t0, tm, held) && Built(held, p) && M.InHeap(w, p.root)
    requires SomeHeld(held, b) && b !in Leaks(held, p)
    ensures Live(p, r) && Start(w, p, r) == b
  {
    var i: nat :| i < |held| && held[i].block == b;
    r := BuiltIndex(held, p, i);
    BuiltStart(t0, tm, w, held, p, r);
  }

  /** RequestOf reaches every extent but the leaks. */
  lemma BuiltIndex(held: seq<Held>, p: Process, i: nat) returns (r: Role)
    requires RecordsHeld(held, p.self, p.image, p.stack, p.task) && i < |held| && held[i].block !in Leaks(held, p)
    ensures Live(p, r) && !r.Tables? && RequestOf(p.image, r) == i
  {
    r := if i == 0 then Self
         else if i == |held| - 1 then Task
         else if i == |held| - 2 then Stack
         else if i == |held| - 3 then ImageMemory
         else ElfRecord;
  }

  lemma TableOfBlock(tm: seq<bv8>, t: seq<bv8>, w: seq<u32>, root: u32, b: nat) returns (k: nat)
    requires M.InHeap(w, root) && M.Grown(tm, t, M.SpaceBlocks(w, root)) && b in Decode(t) && b !in Decode(tm)
    ensures k < 1026 && M.SpaceBlocks(w, root)[k] == b
  {
    assert b in M.SpaceBlocks(w, root);
    k :| 0 <= k < 1026 && M.SpaceBlocks(w, root)[k] == b;
  }

  /** A new space made read-only has an open directory all the same. */
  lemma NewSpaceOpen(tm: seq<bv8>, wm: seq<u32>, t: seq<bv8>, w: seq<u32>, root: u32)
    requires M.NewSpace(tm, wm, t, w, root, READ_ONLY)
    ensures M.InHeap(w, root) && AllOpen(w, Directory(w, root))
  {
    ReadOnlyIsAccessible();
  }

  lemma ReadOnlyIsAccessible()
    ensures M.Accessible(READ_ONLY)
  {
  }

  /** What all the allocations wrote lies on blocks that were free, and the file is where it was read to. */
  lemma AllocatedWords(t0: seq<bv8>, w0: seq<u32>, tm: seq<bv8>, wm: seq<u32>, t: seq<bv8>, w: seq<u32>,
                       held: seq<Held>, p: Process, file: seq<byte>)
    requires Allocated(t0, w0, tm, wm, t, w, held, p)
    requires 0 < |file| == p.image.size <= 0xFFFF_F000 && FileAt(wm, p.image.memory, file)
    ensures M.OnlyBlocksChanged(w0, w, FreeBlocks(t0)) && FileAt(w, p.image.memory, file)
  {
    SpaceWrites(tm, wm, t, w, p.root);
    BuiltStart(t0, tm, w, held, p, ImageMemory);
    FileKept(tm, wm, w, held[|held| - 3].block, file);
  }

  /** The paging structures made after the task was zeroed are on other blocks. */
  lemma StillUnlinked(tm: seq<bv8>, wm: seq<u32>, w: seq<u32>, task: u32)
    requires M.OnlyBlocksChanged(wm, w, FreeBlocks(tm)) && AddressToBlock(task) !in FreeBlocks(tm)
    requires Unlinked(wm, task) && task / 4 == (M.FIRST_FRAME + AddressToBlock(task)) * 1024
    ensures Unlinked(w, task)
  {
    LinksInBlock(wm, w, task, FreeBlocks(tm));
  }

  lemma TaskHeld(t0: seq<bv8>, tm: seq<bv8>, w: seq<u32>, held: seq<Held>, p: Process)
    requires Reserved(t0, tm, held) && Built(held, p) && M.InHeap(w, p.root)
    ensures AddressToBlock(p.task) !in FreeBlocks(tm)
    ensures p.task / 4 == (M.FIRST_FRAME + AddressToBlock(p.task)) * 1024
  {
    BuiltStart(t0, tm, w, held, p, Task);
    LiveBlockNotFree(tm, Start(w, p, Task));
    AddressOfBlock(Start(w, p, Task));
  }

  /** Making the space writes to blocks that were free. */
  lemma SpaceWrites(tm: seq<bv8>, wm: seq<u32>, t: seq<bv8>, w: seq<u32>, root: u32)
    requires M.NewSpace(tm, wm, t, w, root, READ_ONLY)
    ensures M.OnlyBlocksChanged(wm, w, FreeBlocks(tm))
  {
    SpaceExtents(tm, t, w, root);
  }

  /** A process with everything allocated and nothing mapped yet. */
  ghost predicate Prepared(t0: seq<bv8>, w0: seq<u32>, program: Program, file: seq<byte>,
                           tm: seq<bv8>, wm: seq<u32>, t: seq<bv8>, w: seq<u32>, held: seq<Held>, p: Process) {
    && 0 < |file| <= 0xFFFF_F000 && IsProgram(file, program)
    && ImageIs(p.image, program, |file|) && FileAt(wm, p.image.memory, file)
    && Allocated(t0, w0, tm, wm, t, w, held, p) && Unlinked(wm, p.task)
  }

  /** That is the memory a load links and maps. */
  lemma PreparedIsUnmapped(t0: seq<bv8>, w0: seq<u32>, program: Program, file: seq<byte>, tm: seq<bv8>, wm: seq<u32>,
                           t: seq<bv8>, w: seq<u32>, held: seq<Held>, p: Process)
    requires Prepared(t0, w0, program, file, tm, wm, t, w, held, p)
    ensures Unmapped(t0, w0, program, file, Leaks(held, p), p, t, w)
  {
    PreparedIsPlaced(t0, w0, program, file, tm, wm, t, w, held, p);
    NewSpaceOpen(tm, wm, t, w, p.root);
    TaskStillUnlinked(t0, tm, wm, t, w, held, p);
  }

  lemma TaskStillUnlinked(t0: seq<bv8>, tm: seq<bv8>, wm: seq<u32>, t: seq<bv8>, w: seq<u32>, held: seq<Held>,
                          p: Process)
    requires Reserved(t0, tm, held) && Built(held, p) && M.NewSpace(tm, wm, t, w, p.root, READ_ONLY)
    requires Unlinked(wm, p.task)
    ensures Unlinked(w, p.task)
  {
    TaskHeld(t0, tm, w, held, p);
    SpaceWrites(tm, wm, t, w, p.root);
    StillUnlinked(tm, wm, w, p.task);
  }

  lemma PreparedIsPlaced(t0: seq<bv8>, w0: seq<u32>, program: Program, file: seq<byte>, tm: seq<bv8>, wm: seq<u32>,
                         t: seq<bv8>, w: seq<u32>, held: seq<Held>, p: Process)
    requires Prepared(t0, w0, program, file, tm, wm, t, w, held, p)
    ensures Placed(t0, w0, program, file, Leaks(held, p), p, t, w)
  {
    ClaimsAreNew(t0, w0, tm, wm, t, w, held, p);
    AllocatedWords(t0, w0, tm, wm, t, w, held, p, file);
    SpaceExtents(tm, t, w, p.root);
    LeakCount(t0, tm, held, p, program);
    LeaksAreLost(t0, w0, tm, wm, t, w, held, p);
    PlacedInOrder(t0, tm, t, w, held, p);
    AllAccounted(t0, w0, tm, wm, t, w, held, p);
  }

  /** The blocks asked for are those of the load's list of requests. */
  lemma HeldRequests(held: seq<Held>, p: Process)
    requires Built(held, p)
    ensures Counts(held) == RecordRequests(p.image)
    ensures forall r :: Live(p, r) && !r.Data? && !r.Tables? ==> RequestOf(p.image, r) < |held|
  {
  }

  /** The extents of a load are where first fit puts them. */
  lemma PlacedInOrder(t0: seq<bv8>, tm: seq<bv8>, t: seq<bv8>, w: seq<u32>, held: seq<Held>, p: Process)
    requires Reserved(t0, tm, held) && HeldByFirstFit(t0, tm, held) && Built(held, p)
    requires M.InHeap(w, p.root) && M.Grown(tm, t, M.SpaceBlocks(w, p.root))
    ensures PlacedByFirstFit(t0, t, w, p)
  {
    AllByFirstFit(t0, tm, t, w, held, p);
    RolesPlaced(t0, tm, t, w, held, p);
  }

  lemma RolesPlaced(t0: seq<bv8>, tm: seq<bv8>, t: seq<bv8>, w: seq<u32>, held: seq<Held>, p: Process)
    requires Reserved(t0, tm, held) && Built(held, p) && M.InHeap(w, p.root)
    requires FirstFits(t0, t, LoadRequests(p.image), Blocks(held) + M.SpaceBlocks(w, p.root))
    ensures forall r :: Live(p, r) && !r.Data? ==> Start(w, p, r) == Place(t0, p.image, r)
  {
    forall r | Live(p, r) && !r.Data?
      ensures Start(w, p, r) == Place(t0, p.image, r)
    {
      RolePlace(t0, tm, t, w, held, p, r);
    }
  }

  lemma AllByFirstFit(t0: seq<bv8>, tm: seq<bv8>, t: seq<bv8>, w: seq<u32>, held: seq<Held>, p: Process)
    requires HeldByFirstFit(t0, tm, held) && Built(held, p)
    requires M.InHeap(w, p.root) && M.Grown(tm, t, M.SpaceBlocks(w, p.root))
    ensures FirstFits(t0, t, LoadRequests(p.image), Blocks(held) + M.SpaceBlocks(w, p.root))
  {
    HeldRequests(held, p);
    FitsJoin(t0, tm, t, Counts(held), Blocks(held), Ones(1026), M.SpaceBlocks(w, p.root));
  }

  lemma RolePlace(t0: seq<bv8>, tm: seq<bv8>, t: seq<bv8>, w: seq<u32>, held: seq<Held>, p: Process, r: Role)
    requires Reserved(t0, tm, held) && Built(held, p) && M.InHeap(w, p.root) && Live(p, r) && !r.Data?
    requires FirstFits(t0, t, LoadRequests(p.image), Blocks(held) + M.SpaceBlocks(w, p.root))
    ensures Start(w, p, r) == Place(t0, p.image, r)
  {
    if r.Tables? {
      TablePlace(t0, t, w, held, p, r.k);
    } else {
      BuiltStart(t0, tm, w, held, p, r);
      RecordPlace(t0, t, w, held, p, r);
    }
  }

  lemma TablePlace(t0: seq<bv8>, t: seq<bv8>, w: seq<u32>, held: seq<Held>, p: Process, k: nat)
    requires Built(held, p) && M.InHeap(w, p.root) && k < 1026
    requires FirstFits(t0, t, LoadRequests(p.image), Blocks(held) + M.SpaceBlocks(w, p.root))
    ensures M.SpaceBlocks(w, p.root)[k] == Place(t0, p.image, Tables(k))
  {
    HeldRequests(held, p);
    var got := Blocks(held) + M.SpaceBlocks(w, p.root);
    assert got[|held| + k] == M.SpaceBlocks(w, p.root)[k];
  }

  lemma RecordPlace(t0: seq<bv8>, t: seq<bv8>, w: seq<u32>, held: seq<Held>, p: Process, r: Role)
    requires Built(held, p) && M.InHeap(w, p.root) && Live(p, r) && !r.Data? && !r.Tables?
    requires FirstFits(t0, t, LoadRequests(p.image), Blocks(held) + M.SpaceBlocks(w, p.root))
    ensures RequestOf(p.image, r) < |held| && held[RequestOf(p.image, r)].block == Place(t0, p.image, r)
  {
    HeldRequests(held, p);
    var got := Blocks(held) + M.SpaceBlocks(w, p.root);
    assert got[RequestOf(p.image, r)] == Blocks(held)[RequestOf(p.image, r)];
  }

  lemma LeaksAreLost(t0: seq<bv8>, w0: seq<u32>, tm: seq<bv8>, wm: seq<u32>, t: seq<bv8>, w: seq<u32>,
                     held: seq<Held>, p: Process)
    requires Allocated(t0, w0, tm, wm, t, w, held, p)
    ensures forall b :: b in Leaks(held, p) ==> IsLost(t0, t, w, p, b)
  {
    if p.image.Flat? {
      LeakIsLost(t0, w0, tm, wm, t, w, held, p, 1);
      LeakIsLost(t0, w0, tm, wm, t, w, held, p, 2);
    }
    BothLost(t0, t, w, held, p);
  }

  lemma BothLost(t0: seq<bv8>, t: seq<bv8>, w: seq<u32>, held: seq<Held>, p: Process)
    requires M.InHeap(w, p.root)
    requires p.image.Flat? && |held| == 6 ==> IsLost(t0, t, w, p, held[1].block) && IsLost(t0, t, w, p, held[2].block)
    ensures forall b :: b in Leaks(held, p) ==> IsLost(t0, t, w, p, b)
  {
  }

  lemma LeakIsLost(t0: seq<bv8>, w0: seq<u32>, tm: seq<bv8>, wm: seq<u32>, t: seq<bv8>, w: seq<u32>,
                   held: seq<Held>, p: Process, i: int)
    requires Allocated(t0, w0, tm, wm, t, w, held, p) && p.image.Flat? && 1 <= i <= 2
    ensures IsLost(t0, t, w, p, held[i].block)
  {
    LeakExtent(t0, w0, tm, wm, t, w, held, p, i);
    forall r | Live(p, r)
      ensures Start(w, p, r) != held[i].block
    {
      NoRoleLeaks(t0, w0, tm, wm, t, w, held, p, r, i);
    }
  }

  lemma LeakExtent(t0: seq<bv8>, w0: seq<u32>, tm: seq<bv8>, wm: seq<u32>, t: seq<bv8>, w: seq<u32>,
                   held: seq<Held>, p: Process, i: nat)
    requires Allocated(t0, w0, tm, wm, t, w, held, p) && i < |held|
    ensures held[i].block in Decode(t) && held[i].block !in Decode(t0)
  {
    SpaceExtents(tm, t, w, p.root);
    assert IsHeld(t0, tm, held[i]);
  }

  lemma NoRoleLeaks(t0: seq<bv8>, w0: seq<u32>, tm: seq<bv8>, wm: seq<u32>, t: seq<bv8>, w: seq<u32>,
                    held: seq<Held>, p: Process, r: Role, i: int)
    requires Allocated(t0, w0, tm, wm, t, w, held, p) && Live(p, r) && p.image.Flat? && 1 <= i <= 2
    ensures Start(w, p, r) != held[i].block
  {
    FixedClaim(t0, w0, tm, wm, t, w, held, p, r);
    assert IsHeld(t0, tm, held[i]);
    if !r.Tables? {
      BuiltStart(t0, tm, w, held, p, r);
    }
  }

  lemma LeakCount(t0: seq<bv8>, tm: seq<bv8>, held: seq<Held>, p: Process, program: Program)
    requires Reserved(t0, tm, held) && Built(held, p) && ImageIs(p.image, program, p.image.size)
    ensures |Leaks(held, p)| == LeakedExtents(program)
  {
    if p.image.Flat? {
      assert held[1].block != held[2].block;
    }
  }

  lemma AllAccounted(t0: seq<bv8>, w0: seq<u32>, tm: seq<bv8>, wm: seq<u32>, t: seq<bv8>, w: seq<u32>,
                     held: seq<Held>, p: Process)
    requires Allocated(t0, w0, tm, wm, t, w, held, p)
    ensures forall b :: b in Decode(t) && b !in Decode(t0) && b !in Leaks(held, p) ==>
              exists r :: Live(p, r) && Start(w, p, r) == b
  {
    forall b | b in Decode(t) && b !in Decode(t0) && b !in Leaks(held, p)
      ensures exists r :: Live(p, r) && Start(w, p, r) == b
    {
      var r := NothingElseReserved(t0, tm, t, w, held, p, b);
    }
  }

  /** Slots of a new process. */
  function UnusedSlots(): (slots: seq<Allocation>)
    ensures |slots| == MAX_ALLOCATIONS && forall k :: 0 <= k < MAX_ALLOCATIONS ==> slots[k] == Allocation(0, 0)
  {
    seq(MAX_ALLOCATIONS, _ => Allocation(0, 0))
  }

  /** The failure path: only the process record was remembered, and it alone is freed. */
  method GiveUp(machine: M.Machine, self: u32, ghost t0: seq<bv8>, ghost w0: seq<u32>, ghost data: seq<Held>)
    requires machine.Valid() && Loading(t0, w0, machine.entries[..], machine.words[..], data, [], 0)
    requires |data| == 3 && HeldAt(data, 0, self, PROCESS_BYTES)
    modifies machine.entries
    ensures machine.Valid()
    ensures Refused(t0, w0, {data[1].block, data[2].block}, machine.entries[..], machine.words[..])
  {
    ghost var t := machine.entries[..];
    assert IsHeld(t0, t, data[0]);
    AddressOfBlock(data[0].block);
    machine.KFree(self);
    OnlyRecordFreed(t0, w0, t, machine.words[..], data, machine.entries[..]);
  }

  lemma OnlyRecordFreed(t0: seq<bv8>, w0: seq<u32>, t: seq<bv8>, w: seq<u32>, data: seq<Held>, t': seq<bv8>)
    requires Reserved(t0, t, data) && M.OnlyBlocksChanged(w0, w, FreeBlocks(t0)) && |data| == 3
    requires |t'| == |t| && WellFormed(t') && Decode(t') == Decode(t) - {data[0].block}
    ensures Refused(t0, w0, {data[1].block, data[2].block}, t', w)
  {
    ThreeHeld(t0, t, data);
    TwoDiffer(data[1].block, data[2].block);
    LeaksLeft(Decode(t0), Decode(t), Decode(t'), data[0].block, data[1].block, data[2].block,
              {data[1].block, data[2].block});
  }

  /** What is left of two maps when all that was added but a is still there. */
  lemma LeaksLeft(ext0: map<nat, nat>, ext: map<nat, nat>, ext': map<nat, nat>,
                  a: nat, c: nat, d: nat, leaked: set<nat>)
    requires ThreeNew(ext0, ext, a, c, d) && ext' == ext - {a} && leaked == {c, d}
    ensures forall b :: b in leaked ==> b !in ext0
    ensures forall b :: b in ext' <==> b in ext0 || b in leaked
    ensures forall b :: b in ext0 ==> ext'[b] == ext0[b]
  {
  }

  ghost predicate ThreeNew(ext0: map<nat, nat>, ext: map<nat, nat>, a: nat, c: nat, d: nat) {
    && a != c && a != d && c != d && a !in ext0 && c !in ext0 && d !in ext0
    && c in ext && d in ext
    && (forall b :: b in ext0 ==> b in ext && ext[b] == ext0[b])
    && (forall b :: b in ext && b !in ext0 ==> b == a || b == c || b == d)
  }

  lemma TwoDiffer(c: nat, d: nat)
    requires c != d
    ensures |{c, d}| == 2
  {
  }

  lemma ThreeHeld(t0: seq<bv8>, t: seq<bv8>, data: seq<Held>)
    requires Reserved(t0, t, data) && |data| == 3
    ensures ThreeNew(Decode(t0), Decode(t), data[0].block, data[1].block, data[2].block)
  {
    assert IsHeld(t0, t, data[0]) && IsHeld(t0, t, data[1]) && IsHeld(t0, t, data[2]);
    OneOfThree(data);
  }

  lemma OneOfThree(data: seq<Held>)
    requires |data| == 3
    ensures forall b :: SomeHeld(data, b) ==> b == data[0].block || b == data[1].block || b == data[2].block
  {
  }

  /** kzalloc of the stack and task_new, for a process whose file is read. */
  method AllocateProcess(machine: M.Machine, self: u32, image: Image, ghost program: Program, file: seq<byte>,
                         ghost t0: seq<bv8>, ghost w0: seq<u32>, ghost data: seq<Held>)
    returns (p: Process, ghost held: seq<Held>, ghost tm: seq<bv8>, ghost wm: seq<u32>)
    requires machine.Valid() && 0 < |file| <= 0xFFFF_F000 && IsProgram(file, program)
    requires Loading(t0, w0, machine.entries[..], machine.words[..], data, LastSizes(), 1026)
    requires DataHeld(data, self, image) && ImageIs(image, program, |file|)
    requires FileAt(machine.words[..], image.memory, file)
    modifies machine.entries, machine.words
    ensures machine.Valid()
    ensures Prepared(t0, w0, program, file, tm, wm, machine.entries[..], machine.words[..], held, p)
  {
    var stack, task;
    ghost var held1;
    stack, held1 := AllocateStack(machine, t0, w0, data, self, image, file);
    task, held := AllocateTask(machine, t0, w0, held1, LastSizes()[1..], self, image, stack, file);
    tm, wm := machine.entries[..], machine.words[..];
    var root := machine.GenPaging4gb(READ_ONLY);
    p := Process(self, image, stack, task, root, UnusedSlots());
  }

  /** kzalloc of the process, then process_load_data. */
  method AllocateRecordAndData(machine: M.Machine, ghost program: Program, file: seq<byte>, ghost t0: seq<bv8>,
                               ghost w0: seq<u32>)
    returns (res: int, self: u32, image: Image, ghost held: seq<Held>)
    requires machine.Valid() && 0 < |file| <= 0xFFFF_F000 && IsProgram(file, program)
    requires machine.entries[..] == t0 && machine.words[..] == w0
    requires LoadRoom(machine.entries[..], program, |file|)
    modifies machine.entries, machine.words
    ensures machine.Valid() && res == if program.RefusedElf? then -1 else 0
    ensures Loading(t0, w0, machine.entries[..], machine.words[..], held, AfterData(program), LoadOnes(program))
    ensures res < 0 ==> |held| == 3 && HeldAt(held, 0, self, PROCESS_BYTES)
    ensures res == 0 ==>
              && ImageIs(image, program, |file|) && FileAt(machine.words[..], image.memory, file)
              && DataHeld(held, self, image)
  {
    ghost var last, ones := AfterData(program), LoadOnes(program);
    ghost var afterSelf := [ELF_FILE_BYTES] + ([|file| as u32] + (Again(program, |file|) + last));
    Tail(PROCESS_BYTES, afterSelf);
    NothingReserved(t0);
    ghost var s;
    self, s := Reserve(machine, PROCESS_BYTES, t0, w0, [], [PROCESS_BYTES] + afterSelf, ones);
    ghost var held1 := [] + [Held(s, PROCESS_BYTES)];
    assert held1[0] == Held(s, PROCESS_BYTES);
    res, image, held := LoadData(machine, program, file, t0, w0, held1, self, last, ones);
  }

  lemma NothingReserved(t0: seq<bv8>)
    requires |t0| == HEAP_BLOCKS && WellFormed(t0)
    ensures Reserved(t0, t0, []) && HeldByFirstFit(t0, t0, [])
  {
  }

  /** kzalloc of the stack. */
  method AllocateStack(machine: M.Machine, ghost t0: seq<bv8>, ghost w0: seq<u32>, ghost held: seq<Held>,
                       ghost self: u32, ghost image: Image, ghost file: seq<byte>)
    returns (stack: u32, ghost held': seq<Held>)
    requires machine.Valid() && Loading(t0, w0, machine.entries[..], machine.words[..], held, LastSizes(), 1026)
    requires DataHeld(held, self, image) && ReadInto(held, |held| - 1, machine.words[..], image.memory, file)
    modifies machine.entries, machine.words
    ensures machine.Valid() && Loading(t0, w0, machine.entries[..], machine.words[..], held', LastSizes()[1..], 1026)
    ensures StackHeld(held', self, image, stack)
    ensures ReadInto(held', |held'| - 2, machine.words[..], image.memory, file)
  {
    assert LastSizes()[0] == STACK_SIZE;
    stack, held' := ReserveBeside(machine, STACK_SIZE, t0, w0, held, |held| - 1, image.memory, file, LastSizes());
  }

  /** kzalloc of the task. */
  method AllocateTask(machine: M.Machine, ghost t0: seq<bv8>, ghost w0: seq<u32>, ghost held: seq<Held>,
                      ghost rest: seq<u32>, ghost self: u32, ghost image: Image, ghost stack: u32,
                      ghost file: seq<byte>)
    returns (task: u32, ghost held': seq<Held>)
    requires machine.Valid() && rest == [TASK_BYTES]
    requires Loading(t0, w0, machine.entries[..], machine.words[..], held, rest, 1026)
    requires StackHeld(held, self, image, stack)
    requires ReadInto(held, |held| - 2, machine.words[..], image.memory, file)
    modifies machine.entries, machine.words
    ensures machine.Valid() && Loading(t0, w0, machine.entries[..], machine.words[..], held', [], 1026)
    ensures RecordsHeld(held', self, image, stack, task) && FileAt(machine.words[..], image.memory, file)
    ensures Unlinked(machine.words[..], task)
  {
    assert rest[1..] == [];
    task, held' := ReserveBeside(machine, TASK_BYTES, t0, w0, held, |held| - 2, image.memory, file, rest);
    HoldTask(held, held', self, image, stack, task);
    ZeroedTask(machine.words[..], held'[|held|].block);
  }

  lemma ZeroedTask(w: seq<u32>, b: nat)
    requires IsMemory(w) && b < HEAP_BLOCKS
    requires IsZero(w, BlockToAddress(b), TASK_BYTES)
    ensures Unlinked(w, BlockToAddress(b))
  {
    AddressOfBlock(b);
    ZeroWord(w, BlockToAddress(b) / 4 + PREV);
    ZeroWord(w, BlockToAddress(b) / 4 + NEXT);
  }

  lemma ZeroWord(w: seq<u32>, x: nat)
    requires IsMemory(w) && x < MEMORY_WORDS && forall a: u32 :: 4 * x <= a < 4 * x + 4 ==> ByteAt(w, a) == 0
    ensures w[x] == 0
  {
    forall k: nat | k < 4
      ensures ByteOf(w[x], k) == ByteOf(0, k)
    {
      assert (4 * x + k) / 4 == x && (4 * x + k) % 4 == k;
      assert ByteAt(w, 4 * x + k) == 0;
    }
    WordFromBytes(w[x], 0);
  }

  /** The file was read into held extent m and is still there. */
  ghost predicate ReadInto(held: seq<Held>, m: nat, w: seq<u32>, memory: u32, file: seq<byte>) {
    0 < |file| <= 0xFFFF_F000 && HeldAt(held, m, memory, |file|) && FileAt(w, memory, file)
  }

  /** kzalloc that leaves a file read earlier where it is. */
  method ReserveBeside(machine: M.Machine, size: u32, ghost t0: seq<bv8>, ghost w0: seq<u32>, ghost held: seq<Held>,
                       ghost m: nat, ghost memory: u32, ghost file: seq<byte>, ghost rest: seq<u32>)
    returns (ptr: u32, ghost held': seq<Held>)
    requires machine.Valid() && rest != [] && rest[0] == size
    requires Loading(t0, w0, machine.entries[..], machine.words[..], held, rest, 1026)
    requires ReadInto(held, m, machine.words[..], memory, file)
    modifies machine.entries, machine.words
    ensures machine.Valid() && OneMoreHeld(held, held', ptr, size) && held'[|held|].block < HEAP_BLOCKS
    ensures Loading(t0, w0, machine.entries[..], machine.words[..], held', rest[1..], 1026)
    ensures ReadInto(held', m, machine.words[..], memory, file)
    ensures IsZero(machine.words[..], ptr, size)
  {
    ghost var t1, w1 := machine.entries[..], machine.words[..];
    assert IsHeld(t0, t1, held[m]);
    ghost var b;
    ptr, b := Reserve(machine, size, t0, w0, held, rest, 1026);
    held' := held + [Held(b, size)];
    FileKept(t1, w1, machine.words[..], held[m].block, file);
  }
}
