/** Mapping a loaded program and its stack into its address space: process_map_memory. */
module Loader {
  import opened Words
  import opened Memory
  import opened Paging
  import opened Windows
  import opened AddressSpace
  import opened ElfFormat
  import opened ElfHeaders
  import opened ImageLayout
  import M = Machine

  /** paging_map_to(lower(vAddr), lower(start), align(start + size), flags) maps exactly one window more. */
  method MapRange(machine: M.Machine, root: u32, vAddr: u32, start: u32, size: u32, flags: u32,
                  ghost w0: seq<u32>, ghost ws: seq<Window>)
    returns (res: int)
    requires machine.words.Length == MEMORY_WORDS && flags < 4096 && start + size <= 0xFFFF_F000
    requires MappedWindows(w0, machine.words[..], root, ws) && CanMap(RangeWindow(vAddr, start, size, flags))
    modifies machine.words
    ensures res == 0
    ensures MappedWindows(w0, machine.words[..], root, ws + [RangeWindow(vAddr, start, size, flags)])
  {
    ghost var w := machine.words[..];
    RangeArguments(vAddr, start, size);
    var v := AlignToLower(vAddr);
    var lower := AlignToLower(start);
    var end := AlignAddress(Add32(start, size));
    res := machine.PagingMapTo(root, v, lower, end, flags);
    MappedNext(w0, w, machine.words[..], root, ws, RangeWindow(vAddr, start, size, flags));
  }

  lemma RangeArguments(vAddr: u32, start: u32, size: u32)
    requires start + size <= 0xFFFF_F000
    ensures AlignToLower(vAddr) % 4096 == 0 && AlignToLower(vAddr) / 4096 == vAddr / 4096
    ensures AlignToLower(start) % 4096 == 0 && AlignToLower(start) / 4096 == start / 4096
    ensures AlignAddress(Add32(start, size)) % 4096 == 0 && AlignToLower(start) <= AlignAddress(Add32(start, size))
    ensures (AlignAddress(Add32(start, size)) - AlignToLower(start)) / 4096 == PagesUpTo(start + size) - start / 4096
  {
    AlignToLowerIs(vAddr);
    AlignToLowerIs(start);
    assert Add32(start, size) == start + size;
    AlignAddressIs(start + size);
    PagesBetween(start / 4096, PagesUpTo(start + size));
  }

  lemma PagesBetween(a: nat, b: nat)
    requires a <= b
    ensures b * 4096 - a * 4096 >= 0 && (b * 4096 - a * 4096) / 4096 == b - a
  {
  }

  /** present | accessible, plus writable for PF_W. */
  method PageFlags(segmentFlags: u32) returns (flags: u32)
    ensures flags == if And(segmentFlags, PF_W) != 0 then READ_WRITE else READ_ONLY
    ensures flags == if segmentFlags / 2 % 2 == 1 then 7 else 5
  {
    PresentAndAccessible();
    LowBits(segmentFlags);
    flags := Or(PRESENT, ACCESS_ALL);
    if And(segmentFlags, PF_W) != 0 {
      flags := Or(flags, WRITABLE);
    }
  }

  lemma PresentAndAccessible()
    ensures Or(PRESENT, ACCESS_ALL) == READ_ONLY
    ensures Or(READ_ONLY, WRITABLE) == READ_WRITE
  {
  }

  /** The window of a segment can be mapped, and its end does not overflow. */
  ghost predicate CanMapSegment(memory: u32, g: Segment) {
    memory + g.offset + g.memSize <= 0xFFFF_F000 && CanMap(SegmentWindow(memory, g))
  }

  lemma SegmentsCanMap(image: Image)
    requires ImageMaps(image) && image.Elf?
    ensures forall i :: 0 <= i < |image.segments| ==> CanMapSegment(image.memory, image.segments[i])
  {
    ImageShape(image);
    forall i | 0 <= i < |image.segments|
      ensures CanMapSegment(image.memory, image.segments[i])
    {
      assert SegmentMaps(image.memory, image.segments[i]);
      assert ImageWindows(image)[i] == SegmentWindow(image.memory, image.segments[i]);
    }
  }

  /** The windows of the segments read so far. */
  function SegmentWindows(memory: u32, segments: seq<Segment>): (ws: seq<Window>)
    ensures |ws| == |segments|
    ensures forall i :: 0 <= i < |ws| ==> ws[i] == SegmentWindow(memory, segments[i])
  {
    seq(|segments|, i requires 0 <= i < |segments| => SegmentWindow(memory, segments[i]))
  }

  /** The file's copy lies on no page table of the space. */
  ghost predicate TablesOffFile(w: seq<u32>, root: u32, memory: u32, size: nat)
    requires SpaceWired(w, root)
  {
    forall k: nat :: k < ENTRIES ==>
      !(memory / 4096 <= TableFrame(w, Directory(w, root), k) < PagesUpTo(memory + size))
  }

  /** Then mapping leaves it as it is. */
  lemma MappingKeepsFile(w0: seq<u32>, w: seq<u32>, root: u32, memory: u32, file: seq<byte>)
    requires SpaceWired(w0, root) && OnlyTablesChanged(w0, w, Directory(w0, root))
    requires FileAt(w0, memory, file) && TablesOffFile(w0, root, memory, |file|)
    ensures FileAt(w, memory, file)
  {
    forall a: u32 | memory <= a < memory + |file|
      ensures ByteAt(w, a) == file[a - memory]
    {
      assert a / 4 / 1024 == a / 4096 && memory / 4096 <= a / 4096 < PagesUpTo(memory + |file|);
      assert ByteAt(w0, a) == file[a - memory];
    }
  }

  /** One turn of the loop of process_map_elf, for a program header just read. */
  method MapSegment(machine: M.Machine, memory: u32, g: Segment, root: u32, ghost w0: seq<u32>, ghost ws: seq<Window>)
    returns (res: int)
    requires machine.words.Length == MEMORY_WORDS && CanMapSegment(memory, g)
    requires MappedWindows(w0, machine.words[..], root, ws)
    modifies machine.words
    ensures res == 0
    ensures MappedWindows(w0, machine.words[..], root, ws + [SegmentWindow(memory, g)])
  {
    var physical := memory + g.offset;
    var flags := PageFlags(g.flags);
    SegmentRange(memory, g, physical, flags);
    res := MapRange(machine, root, g.vAddr, physical, g.memSize, flags, w0, ws);
  }

  lemma SegmentRange(memory: u32, g: Segment, physical: u32, flags: u32)
    requires CanMapSegment(memory, g) && physical == memory + g.offset
    requires flags == if And(g.flags, PF_W) != 0 then READ_WRITE else READ_ONLY
    ensures RangeWindow(g.vAddr, physical, g.memSize, flags) == SegmentWindow(memory, g)
    ensures CanMap(RangeWindow(g.vAddr, physical, g.memSize, flags)) && physical + g.memSize <= 0xFFFF_F000
    ensures flags < 4096
  {
  }

  /**
   process_map_elf: the program headers are read from the file's copy in memory, whatever it holds by
   now, and each is mapped, whatever its type.
   */
  method MapElf(machine: M.Machine, memory: u32, root: u32, ghost file: seq<byte>)
    returns (res: int, segments: seq<Segment>)
    requires machine.words.Length == MEMORY_WORDS && SpaceWired(machine.words[..], root)
    requires FileAt(machine.words[..], memory, file) && HeadersInFile(file)
    requires TablesOffFile(machine.words[..], root, memory, |file|)
    requires forall k :: 0 <= k < |Headers(file)| ==> CanMapSegment(memory, Headers(file)[k].segment)
    modifies machine.words
    ensures res == 0 && segments == Segments(Headers(file))
    ensures MappedWindows(old(machine.words[..]), machine.words[..], root, SegmentWindows(memory, segments))
  {
    ghost var w0 := machine.words[..];
    MappedNone(w0, root);
    res, segments := 0, [];
    var count := ReadHalf(machine, memory, file, E_PHNUM);
    while |segments| < count
      invariant |segments| <= count == |Headers(file)| && res == 0
      invariant segments == Segments(Headers(file))[..|segments|]
      invariant MappedWindows(w0, machine.words[..], root, SegmentWindows(memory, segments))
      decreases count - |segments|
    {
      var g := FoundSegment(machine, memory, root, w0, file, segments);
      ghost var ws := SegmentWindows(memory, segments);
      res := MapSegment(machine, memory, g, root, w0, ws);
      OneWindowMore(memory, segments, g);
      segments := segments + [g];
    }
  }

  /** The segment of the next program header. */
  method FoundSegment(machine: M.Machine, memory: u32, root: u32, ghost w0: seq<u32>, ghost file: seq<byte>,
                      segments: seq<Segment>)
    returns (g: Segment)
    requires machine.words.Length == MEMORY_WORDS && HeadersInFile(file) && |segments| < |Headers(file)|
    requires SpaceWired(w0, root) && FileAt(w0, memory, file) && TablesOffFile(w0, root, memory, |file|)
    requires OnlyTablesChanged(w0, machine.words[..], Directory(w0, root))
    ensures g == Headers(file)[|segments|].segment
  {
    MappingKeepsFile(w0, machine.words[..], root, memory, file);
    var header := ReadProgramHeader(machine, memory, file, |segments|);
    g := header.segment;
  }

  lemma OneWindowMore(memory: u32, segments: seq<Segment>, g: Segment)
    ensures SegmentWindows(memory, segments + [g]) == SegmentWindows(memory, segments) + [SegmentWindow(memory, g)]
  {
  }

  method MapBinary(machine: M.Machine, memory: u32, size: u32, root: u32)
    returns (res: int)
    requires machine.words.Length == MEMORY_WORDS && SpaceWired(machine.words[..], root)
    requires memory + size <= 0xFFFF_F000 && CanMap(RangeWindow(PROGRAM_BASE, memory, size, READ_WRITE))
    modifies machine.words
    ensures res == 0
    ensures MappedWindows(old(machine.words[..]), machine.words[..], root,
                          [RangeWindow(PROGRAM_BASE, memory, size, READ_WRITE)])
  {
    ghost var w0 := machine.words[..];
    MappedNone(w0, root);
    res := MapRange(machine, root, PROGRAM_BASE, memory, size, READ_WRITE, w0, []);
    assert [] + [RangeWindow(PROGRAM_BASE, memory, size, READ_WRITE)]
        == [RangeWindow(PROGRAM_BASE, memory, size, READ_WRITE)];
  }

  /** The same but for the segments. */
  predicate SameCopy(image: Image, image': Image) {
    && image.Elf? == image'.Elf? && image.memory == image'.memory && image.size == image'.size
    && (image.Elf? ==> image.file == image'.file)
  }

  /** What process_map_memory finds: a file in memory, off the page tables, whose image and stack map. */
  ghost predicate FindsProgram(w: seq<u32>, root: u32, p: Process, file: seq<byte>) {
    && Mappable(p) && p.root == root && SpaceWired(w, root) && p.image.size == |file|
    && (p.image.Elf? ==>
          && FileAt(w, p.image.memory, file) && TablesOffFile(w, root, p.image.memory, |file|)
          && HeadersInFile(file) && p.image.segments == Segments(Headers(file)))
  }

  /**
   process_map_memory maps the windows of the image, as its headers spell them now, and then that of
   the stack, whatever is mapped already.
   */
  method MapMemory(machine: M.Machine, image: Image, stack: u32, root: u32, ghost p: Process, ghost file: seq<byte>)
    returns (res: int, found: Image)
    requires machine.words.Length == MEMORY_WORDS && FindsProgram(machine.words[..], root, p, file)
    requires p.stack == stack && SameCopy(image, p.image)
    modifies machine.words
    ensures res == 0 && found == p.image
    ensures MappedWindows(old(machine.words[..]), machine.words[..], root, LoadWindows(p))
  {
    ghost var w0 := machine.words[..];
    ImageShape(p.image);
    StackWindowIs(stack);
    if image.Elf? {
      SegmentsCanMap(p.image);
      var segments;
      res, segments := MapElf(machine, image.memory, root, file);
      found := image.(segments := segments);
    } else {
      res := MapBinary(machine, image.memory, image.size, root);
      found := image;
    }
    assert MappedWindows(w0, machine.words[..], root, ImageWindows(p.image));
    var ignored := MapRange(machine, root, STACK_BASE, stack, STACK_SIZE, READ_WRITE, w0, ImageWindows(p.image));
  }
}
