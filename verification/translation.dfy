/** Where a process's virtual addresses go, after process_map_memory and ever after. */
module Translation {
  import opened Words
  import opened Memory
  import opened HeapTable
  import opened Paging
  import opened Windows
  import opened AddressSpace
  import opened ElfFormat
  import opened Steps
  import opened TaskLinks
  import opened ImageLayout
  import opened LoadSteps
  import opened LinkedLoads

  /** The process's own translation of a virtual address. */
  ghost function Translate(words: seq<u32>, p: Process, vAddr: u32): u32
    requires IsMemory(words) && Directory(words, p.root) % 4096 == 0
  {
    Physical(words, Directory(words, p.root), vAddr)
  }

  /** Inside a window, translation is the window's displacement. */
  lemma WindowTranslates(words: seq<u32>, p: Process, j: nat, vAddr: u32)
    requires SpaceOK(words, p) && j < |ProcessWindows(p)| && Inside(ProcessWindows(p)[j], vAddr / 4096)
    ensures var w := ProcessWindows(p)[j];
            Translate(words, p, vAddr) == (w.p + (vAddr / 4096 - w.v)) * 4096 + vAddr % 4096
  {
    var w := ProcessWindows(p)[j];
    assert Sound(w);
    assert View(words, Directory(words, p.root))[vAddr / 4096] == Entry(w.p + (vAddr / 4096 - w.v), w.flags);
    EntryTranslates(words, p.root, vAddr, w.p + (vAddr / 4096 - w.v), w.flags);
  }

  lemma EntryTranslates(words: seq<u32>, root: u32, vAddr: u32, page: nat, flags: u32)
    requires SpaceWired(words, root) && AllOpen(words, Directory(words, root)) && page < PAGES && flags < 4096
    requires View(words, Directory(words, root))[vAddr / 4096] == Entry(page, flags)
    ensures Physical(words, Directory(words, root), vAddr) == page * 4096 + vAddr % 4096
  {
    OpenIsPresent(words, Directory(words, root));
    PhysicalIsView(words, Directory(words, root), vAddr);
    EntryFrame(page, flags);
  }

  /** Every byte of a segment is found at the same displacement from elf_memory + p_offset. */
  lemma SegmentTranslates(words: seq<u32>, p: Process, k: nat, vAddr: u32)
    requires SpaceOK(words, p) && ImageMaps(p.image) && p.image.Elf? && k < |p.image.segments|
    requires var g := p.image.segments[k]; g.vAddr <= vAddr < g.vAddr + g.memSize
    ensures var g := p.image.segments[k];
            Translate(words, p, vAddr) == p.image.memory + g.offset + (vAddr - g.vAddr)
  {
    var g := p.image.segments[k];
    assert SegmentMaps(p.image.memory, g);
    assert ProcessWindows(p)[k] == SegmentWindow(p.image.memory, g);
    SegmentCount(p.image.memory, g);
    InsideSegment(p.image.memory, g, vAddr);
    WindowTranslates(words, p, k, vAddr);
  }

  lemma InsideSegment(memory: u32, g: Segment, vAddr: u32)
    requires memory % 4096 == 0 && g.vAddr % 4096 == g.offset % 4096
    requires g.vAddr <= vAddr < g.vAddr + g.memSize
    requires SegmentWindow(memory, g).count == SegmentPages(g)
    ensures Inside(SegmentWindow(memory, g), vAddr / 4096)
    ensures var w := SegmentWindow(memory, g);
            (w.p + (vAddr / 4096 - w.v)) * 4096 + vAddr % 4096 == memory + g.offset + (vAddr - g.vAddr)
  {
    var m := memory / 4096;
    assert memory == 4096 * m;
    assert (memory + g.offset) / 4096 == m + g.offset / 4096;
  }

  /** Every byte of a flat binary is found at its offset in the file. */
  lemma BinaryTranslates(words: seq<u32>, p: Process, vAddr: u32)
    requires SpaceOK(words, p) && ImageMaps(p.image) && p.image.Flat?
    requires PROGRAM_BASE <= vAddr < PROGRAM_BASE + p.image.size
    ensures Translate(words, p, vAddr) == p.image.memory + (vAddr - PROGRAM_BASE)
  {
    var m := p.image.memory / 4096;
    assert p.image.memory == 4096 * m;
    assert ProcessWindows(p)[0] == RangeWindow(PROGRAM_BASE, p.image.memory, p.image.size, READ_WRITE);
    assert Inside(ProcessWindows(p)[0], vAddr / 4096);
    WindowTranslates(words, p, 0, vAddr);
  }

  /** Every stack byte is found at its offset in the stack allocation. */
  lemma StackTranslates(words: seq<u32>, p: Process, vAddr: u32)
    requires SpaceOK(words, p) && p.stack % 4096 == 0 && p.stack + STACK_SIZE <= 0xFFFF_F000
    requires STACK_BASE <= vAddr < STACK_BASE + STACK_SIZE
    ensures Translate(words, p, vAddr) == p.stack + (vAddr - STACK_BASE)
  {
    var j := |ImageWindows(p.image)|;
    assert ProcessWindows(p)[j] == StackWindow(p.stack);
    StackWindowIs(p.stack);
    WindowTranslates(words, p, j, vAddr);
  }

  /** All other addresses are identity-mapped. */
  lemma UntouchedTranslates(words: seq<u32>, p: Process, vAddr: u32)
    requires SpaceOK(words, p) && Untouched(ProcessWindows(p), vAddr / 4096)
    ensures Translate(words, p, vAddr) == vAddr
  {
    OpenIsPresent(words, Directory(words, p.root));
    PhysicalIsView(words, Directory(words, p.root), vAddr);
    EntryFrame(vAddr / 4096, READ_ONLY);
    EntryFrame(vAddr / 4096, 0);
  }

  // -- After process_map_memory ------------------------------------------------------------------

  /** Where every address goes: segments and stack displaced, a flat binary likewise, the rest nowhere. */
  ghost predicate TranslatesAsLinked(words: seq<u32>, p: Process) {
    && IsMemory(words) && Directory(words, p.root) % 4096 == 0
    && (p.image.Elf? ==>
          forall k, vAddr: u32 :: 0 <= k < |p.image.segments| && InSegment(p.image.segments[k], vAddr) ==>
            Translate(words, p, vAddr)
            == p.image.memory + p.image.segments[k].offset + (vAddr - p.image.segments[k].vAddr))
    && (p.image.Flat? ==>
          forall vAddr: u32 :: 0x40_0000 <= vAddr < 0x40_0000 + p.image.size ==>
            Translate(words, p, vAddr) == p.image.memory + (vAddr - 0x40_0000))
    && (forall vAddr: u32 :: 0x3F_B000 <= vAddr < 0x3F_F000 ==>
          Translate(words, p, vAddr) == p.stack + (vAddr - 0x3F_B000))
    && (forall vAddr: u32 :: Untouched(ProcessWindows(p), vAddr / 4096) ==> Translate(words, p, vAddr) == vAddr)
  }

  ghost predicate InSegment(g: Segment, vAddr: u32) {
    g.vAddr <= vAddr < g.vAddr + g.memSize
  }

  lemma MappedTranslates(words: seq<u32>, p: Process)
    requires SpaceOK(words, p) && ImageMaps(p.image) && p.stack % 4096 == 0 && p.stack + STACK_SIZE <= 0xFFFF_F000
    ensures TranslatesAsLinked(words, p)
  {
    if p.image.Elf? {
      forall k, vAddr: u32 | 0 <= k < |p.image.segments| && InSegment(p.image.segments[k], vAddr)
        ensures Translate(words, p, vAddr)
             == p.image.memory + p.image.segments[k].offset + (vAddr - p.image.segments[k].vAddr)
      {
        SegmentTranslates(words, p, k, vAddr);
      }
    } else {
      forall vAddr: u32 | PROGRAM_BASE <= vAddr < PROGRAM_BASE + p.image.size
        ensures Translate(words, p, vAddr) == p.image.memory + (vAddr - PROGRAM_BASE)
      {
        BinaryTranslates(words, p, vAddr);
      }
    }
    forall vAddr: u32 | STACK_BASE <= vAddr < STACK_BASE + STACK_SIZE
      ensures Translate(words, p, vAddr) == p.stack + (vAddr - STACK_BASE)
    {
      StackTranslates(words, p, vAddr);
    }
    forall vAddr: u32 | Untouched(ProcessWindows(p), vAddr / 4096)
      ensures Translate(words, p, vAddr) == vAddr
    {
      UntouchedTranslates(words, p, vAddr);
    }
  }

  /**
   process_map_memory, for every image with congruent, page-disjoint segments at or above the program
   base whose ranges do not overflow: all addresses go where the program was linked to find them.
   */
  lemma MapMemoryTranslates(w0: seq<u32>, w: seq<u32>, p: Process)
    requires Mappable(p) && FreshSpace(w0, p) && MappedWindows(w0, w, p.root, LoadWindows(p))
    ensures TranslatesAsLinked(w, p)
  {
    MappedShows(w0, w, p);
    MappedTranslates(w, p);
  }

  // -- In every state of every run ---------------------------------------------------------------

  /** Live allocations are identity-mapped. */
  lemma DataTranslates(s: System, i: int, k: nat, vAddr: u32)
    requires Inv(s) && Alive(s, i) && Live(s.processes[i].value, Data(k))
    requires var a := s.processes[i].value.allocations[k]; a.ptr <= vAddr < a.ptr + a.size
    ensures Directory(s.words, s.processes[i].value.root) % 4096 == 0
    ensures Translate(s.words, s.processes[i].value, vAddr) == vAddr
  {
    var p := s.processes[i].value;
    assert ProcessOK(s.table, s.words, p);
    var a := p.allocations[k];
    assert Owns(s.table, s.words, p, Data(k));
    var j := |ImageWindows(p.image)| + 1 + k;
    SlotWindow(p, k, a);
    AddressOfBlock(Start(s.words, p, Data(k)));
    assert Inside(AllocationWindow(a), vAddr / 4096);
    WindowTranslates(s.words, p, j, vAddr);
  }

  lemma FittingImageMaps(image: Image)
    requires ImageFits(image) && image.memory % 4096 == 0 && image.memory + image.size <= HEAP_END
    ensures ImageMaps(image)
  {
    if image.Elf? {
      forall i | 0 <= i < |image.segments|
        ensures SegmentMaps(image.memory, image.segments[i])
      {
        assert SegmentFits(image.segments[i], image.size);
      }
    }
  }

  /** Every process of a reachable state translates as linked. */
  lemma ProcessesTranslate(s: System, i: int)
    requires Inv(s) && Alive(s, i)
    ensures TranslatesAsLinked(s.words, s.processes[i].value)
  {
    var p := s.processes[i].value;
    assert ProcessOK(s.table, s.words, p);
    assert Owns(s.table, s.words, p, ImageMemory) && Owns(s.table, s.words, p, Stack);
    ClaimFits(s.table, s.words, p, ImageMemory);
    ClaimFits(s.table, s.words, p, Stack);
    FittingImageMaps(p.image);
    MappedTranslates(s.words, p);
  }

  // -- After a load ------------------------------------------------------------------------------

  /** A freshly loaded process translates as linked, fitting for isolation or not. */
  lemma LoadedTranslates(s: System, i: int, program: Program, file: seq<byte>, leaked: set<nat>, p: Process, s': System)
    requires |s.table| == HEAP_BLOCKS && WellFormed(s.table) && IsLink(s.list.tail)
    requires ProgramMaps(program, |file|) && LoadStep(s, i, program, file, leaked, p, s')
    requires s.list.head == 0 || SparesNew(s.table, p, s.list.tail)
    ensures ImageMaps(p.image) && TranslatesAsLinked(s'.words, p)
  {
    LoadEnds(s, i, program, file, leaked, p, s');
    assert Owns(s'.table, s'.words, p, ImageMemory) && Owns(s'.table, s'.words, p, Stack);
    ClaimFits(s'.table, s'.words, p, ImageMemory);
    ClaimFits(s'.table, s'.words, p, Stack);
    InHeapMaps(p.image, program);
    MappedTranslates(s'.words, p);
  }

  /**
   Right after a load, user code reading a segment's bytes reads the file's bytes from the segment's
   offset on, as far as the file goes; a link that went into the copy of the file is read with it.
   */
  lemma LoadedSegmentReadsFile(s: System, i: int, program: Program, file: seq<byte>, leaked: set<nat>, p: Process,
                               s': System, k: nat, vAddr: u32)
    requires |s.table| == HEAP_BLOCKS && WellFormed(s.table) && IsLink(s.list.tail)
    requires ProgramMaps(program, |file|) && LoadStep(s, i, program, file, leaked, p, s')
    requires s.list.head == 0 || SparesNew(s.table, p, s.list.tail)
    requires program.ElfProgram? && k < |program.segments|
    requires var g := program.segments[k]; InSegment(g, vAddr) && g.offset + (vAddr - g.vAddr) < |file|
    ensures IsMemory(s'.words) && Directory(s'.words, p.root) % 4096 == 0
    ensures var g, linked := program.segments[k], LinkedFile(s.table, s.list, p.image, file);
            ByteAt(s'.words, Translate(s'.words, p, vAddr)) == linked[g.offset + (vAddr - g.vAddr)]
  {
    var linked := LinkedFile(s.table, s.list, p.image, file);
    LoadedReads(s, i, program, file, leaked, p, s');
    ProgramReadsFile(s'.words, p, program, linked, k, vAddr);
  }

  /** What reading a loaded program rests on. */
  lemma LoadedReads(s: System, i: int, program: Program, file: seq<byte>, leaked: set<nat>, p: Process, s': System)
    requires |s.table| == HEAP_BLOCKS && WellFormed(s.table) && IsLink(s.list.tail)
    requires ProgramMaps(program, |file|) && LoadStep(s, i, program, file, leaked, p, s')
    requires s.list.head == 0 || SparesNew(s.table, p, s.list.tail)
    ensures ImageIs(p.image, program, |file|) && ImageMaps(p.image)
    ensures SpaceOK(s'.words, p) && FileAt(s'.words, p.image.memory, LinkedFile(s.table, s.list, p.image, file))
  {
    LoadEnds(s, i, program, file, leaked, p, s');
    assert Owns(s'.table, s'.words, p, ImageMemory);
    ClaimFits(s'.table, s'.words, p, ImageMemory);
    InHeapMaps(p.image, program);
  }

  lemma ProgramReadsFile(words: seq<u32>, p: Process, program: Program, file: seq<byte>, k: nat, vAddr: u32)
    requires |file| < TWO_32 && ImageIs(p.image, program, |file|) && ImageMaps(p.image)
    requires SpaceOK(words, p) && FileAt(words, p.image.memory, file)
    requires program.ElfProgram? && k < |program.segments|
    requires var g := program.segments[k]; InSegment(g, vAddr) && g.offset + (vAddr - g.vAddr) < |file|
    ensures var g := program.segments[k];
            ByteAt(words, Translate(words, p, vAddr)) == file[g.offset + (vAddr - g.vAddr)]
  {
    SegmentReadsFile(words, p, file, k, vAddr);
  }

  lemma SegmentReadsFile(words: seq<u32>, p: Process, file: seq<byte>, k: nat, vAddr: u32)
    requires SpaceOK(words, p) && ImageMaps(p.image) && FileAt(words, p.image.memory, file)
    requires p.image.Elf? && k < |p.image.segments|
    requires var g := p.image.segments[k]; InSegment(g, vAddr) && g.offset + (vAddr - g.vAddr) < |file|
    ensures var g := p.image.segments[k];
            ByteAt(words, Translate(words, p, vAddr)) == file[g.offset + (vAddr - g.vAddr)]
  {
    SegmentTranslates(words, p, k, vAddr);
    FileByte(words, p, p.image.segments[k], file, vAddr);
  }

  lemma FileByte(words: seq<u32>, p: Process, g: Segment, file: seq<byte>, vAddr: u32)
    requires IsMemory(words) && Directory(words, p.root) % 4096 == 0 && FileAt(words, p.image.memory, file)
    requires Translate(words, p, vAddr) == p.image.memory + g.offset + (vAddr - g.vAddr)
    requires 0 <= g.offset + (vAddr - g.vAddr) < |file|
    ensures ByteAt(words, Translate(words, p, vAddr)) == file[g.offset + (vAddr - g.vAddr)]
  {
    var k := g.offset + (vAddr - g.vAddr);
    assert Translate(words, p, vAddr) == p.image.memory + k;
  }
}
