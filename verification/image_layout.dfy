/** The layout of a program: the windows of its image and its stack lie apart, over an identity map. */
module ImageLayout {
  import opened Words
  import opened Paging
  import opened Windows
  import opened AddressSpace
  import opened Steps

  /** What process_map_memory is given: page-aligned memory, no overflow, no overlap. */
  ghost predicate Mappable(p: Process) {
    && ImageMaps(p.image) && NoAllocations(p)
    && p.stack % 4096 == 0 && p.stack + STACK_SIZE <= 0xFFFF_F000
  }

  /** The windows process_map_memory opens, in order. */
  function LoadWindows(p: Process): seq<Window> {
    ImageWindows(p.image) + [StackWindow(p.stack)]
  }

  /** Windows from 0x400 on, and one window below. */
  ghost predicate ProgramShape(img: seq<Window>, stack: Window) {
    && (forall j :: 0 <= j < |img| ==> CanMap(img[j]) && 0x400 <= img[j].v)
    && (forall j, k :: 0 <= j < k < |img| ==> Separate(img[j], img[k]))
    && CanMap(stack) && stack.v + stack.count <= 0x400
  }

  lemma ShapeLaysOut(img: seq<Window>, stack: Window)
    requires ProgramShape(img, stack)
    ensures Layout(img + [stack]) && forall j :: 0 <= j <= |img| ==> CanMap((img + [stack])[j])
  {
    var ws := img + [stack];
    forall j | 0 <= j < |ws|
      ensures ws[j] == if j < |img| then img[j] else stack
    {
    }
  }

  /** The windows of an image that maps and of its stack can be mapped one after the other. */
  lemma ProgramLayout(p: Process)
    requires Mappable(p)
    ensures Layout(LoadWindows(p)) && forall j :: 0 <= j < |LoadWindows(p)| ==> CanMap(LoadWindows(p)[j])
  {
    ImageShape(p.image);
    StackWindowIs(p.stack);
    ShapeLaysOut(ImageWindows(p.image), StackWindow(p.stack));
  }

  /** Empty windows behind the others change nothing. */
  lemma EmptyBehind(ws: seq<Window>, rest: seq<Window>)
    requires Layout(ws) && forall j :: 0 <= j < |rest| ==> Sound(rest[j]) && rest[j].count == 0
    ensures Layout(ws + rest)
    ensures forall v :: Untouched(ws + rest, v) <==> Untouched(ws, v)
  {
    var all := ws + rest;
    forall j | 0 <= j < |all|
      ensures all[j] == if j < |ws| then ws[j] else rest[j - |ws|]
    {
    }
    forall v
      ensures Untouched(all, v) <==> Untouched(ws, v)
    {
      if Untouched(all, v) {
        forall j | 0 <= j < |ws|
          ensures !Inside(ws[j], v)
        {
          assert all[j] == ws[j];
        }
      }
    }
  }

  lemma WindowsOf(p: Process)
    requires Mappable(p)
    ensures ProcessWindows(p) == LoadWindows(p) + AllocationWindows(p.allocations)
    ensures Layout(ProcessWindows(p)) && forall v :: Untouched(ProcessWindows(p), v) <==> Untouched(LoadWindows(p), v)
  {
    ProgramLayout(p);
    EmptyWindows(p.allocations);
    EmptyBehind(LoadWindows(p), AllocationWindows(p.allocations));
  }

  /** Mapped over a fresh identity map, the program and the stack are shown, and nothing else. */
  lemma LoadedView(view: seq<u32>, p: Process)
    requires Mappable(p) && IsIdentity(view, READ_ONLY)
    ensures Layout(ProcessWindows(p)) && forall j :: 0 <= j < |LoadWindows(p)| ==> CanMap(LoadWindows(p)[j])
    ensures Shows(ViewThrough(view, LoadWindows(p)), ProcessWindows(p))
    ensures forall v :: 0 <= v < PAGES && Untouched(ProcessWindows(p), v) ==>
              ViewThrough(view, LoadWindows(p))[v] == Entry(v, READ_ONLY)
  {
    var all := ProcessWindows(p);
    ProgramLayout(p);
    WindowsOf(p);
    forall v: nat | v < PAGES && Untouched(all, v)
      ensures ViewThrough(view, LoadWindows(p))[v] == Entry(v, READ_ONLY)
    {
      ThroughShows(view, LoadWindows(p), v);
    }
    forall i, v | 0 <= i < |all| && Inside(all[i], v)
      ensures 0 <= v < PAGES
      ensures ViewThrough(view, LoadWindows(p))[v] == Entry(all[i].p + (v - all[i].v), all[i].flags)
    {
      WindowShown(view, p, i, v);
    }
  }

  lemma WindowShown(view: seq<u32>, p: Process, i: nat, v: int)
    requires Mappable(p) && |view| == PAGES && Layout(ProcessWindows(p)) && Layout(LoadWindows(p))
    requires forall j :: 0 <= j < |LoadWindows(p)| ==> CanMap(LoadWindows(p)[j])
    requires i < |ProcessWindows(p)| && Inside(ProcessWindows(p)[i], v)
    ensures var w := ProcessWindows(p)[i];
            && 0 <= v < PAGES && 0 <= w.p + (v - w.v) < PAGES && w.flags < 4096
            && ViewThrough(view, LoadWindows(p))[v] == Entry(w.p + (v - w.v), w.flags)
  {
    assert Sound(ProcessWindows(p)[i]);
    LoadWindowAt(p, i, v);
    ThroughShows(view, LoadWindows(p), v);
  }

  /** A window that is not empty is one of those mapped. */
  lemma LoadWindowAt(p: Process, i: nat, v: nat)
    requires Mappable(p) && i < |ProcessWindows(p)| && Inside(ProcessWindows(p)[i], v)
    ensures i < |LoadWindows(p)| && LoadWindows(p)[i] == ProcessWindows(p)[i]
  {
    WindowsOf(p);
    if i >= |LoadWindows(p)| {
      SlotIsEmpty(p, i - |LoadWindows(p)|);
    }
  }

  lemma SlotIsEmpty(p: Process, k: nat)
    requires Mappable(p) && |LoadWindows(p)| + k < |ProcessWindows(p)|
    ensures ProcessWindows(p)[|LoadWindows(p)| + k].count == 0
  {
    WindowsOf(p);
    EmptyWindows(p.allocations);
    assert ProcessWindows(p)[|LoadWindows(p)| + k] == AllocationWindows(p.allocations)[k];
  }

  lemma ImageShape(image: Image)
    requires ImageMaps(image)
    ensures var img := ImageWindows(image);
            && (forall j :: 0 <= j < |img| ==> CanMap(img[j]) && 0x400 <= img[j].v)
            && (forall j, k :: 0 <= j < k < |img| ==> Separate(img[j], img[k]))
  {
    var img := ImageWindows(image);
    forall j | 0 <= j < |img|
      ensures CanMap(img[j]) && 0x400 <= img[j].v
    {
      ImageWindowSound(image, j);
    }
    forall j, k | 0 <= j < k < |img|
      ensures Separate(img[j], img[k])
    {
      ImageWindowsSeparate(image, j, k);
    }
  }

  lemma EmptyWindows(allocations: seq<Allocation>)
    requires forall k :: 0 <= k < |allocations| ==> allocations[k] == Allocation(0, 0)
    ensures forall j :: 0 <= j < |allocations| ==>
              Sound(AllocationWindows(allocations)[j]) && AllocationWindows(allocations)[j].count == 0
  {
    forall j | 0 <= j < |allocations|
      ensures Sound(AllocationWindows(allocations)[j]) && AllocationWindows(allocations)[j].count == 0
    {
      EmptyWindow(allocations[j]);
    }
  }

  lemma StackWindowIs(stack: u32)
    requires stack % 4096 == 0
    ensures StackWindow(stack) == Window(0x3FB, stack / 4096, 4, READ_WRITE)
  {
    var m := stack / 4096;
    assert stack == 4096 * m;
  }

  lemma EmptyWindow(a: Allocation)
    requires a.ptr == 0 && a.size == 0
    ensures AllocationWindow(a) == Window(0, 0, 0, READ_WRITE)
  {
  }

  lemma ImageWindowSound(image: Image, j: nat)
    requires ImageMaps(image) && j < |ImageWindows(image)|
    ensures CanMap(ImageWindows(image)[j]) && 0x400 <= ImageWindows(image)[j].v
  {
    match image
    case Elf(_, memory, _, segments) =>
      assert SegmentMaps(memory, segments[j]);
      SegmentWindowSound(memory, segments[j]);
    case Flat(memory, size) =>
      var m := memory / 4096;
      assert memory == 4096 * m;
      assert PagesUpTo(memory + size) == m + PagesUpTo(size);
  }

  lemma SegmentWindowSound(memory: u32, g: Segment)
    requires memory % 4096 == 0 && SegmentMaps(memory, g)
    ensures var w := SegmentWindow(memory, g); CanMap(w) && 0x400 <= w.v
  {
    SegmentCount(memory, g);
    assert PagesUpTo(g.vAddr + g.memSize) <= PAGES;
    assert PagesUpTo(memory + g.offset + g.memSize) <= PAGES;
  }

  lemma ImageWindowsSeparate(image: Image, j: nat, k: nat)
    requires ImageMaps(image) && j < k < |ImageWindows(image)|
    ensures Separate(ImageWindows(image)[j], ImageWindows(image)[k])
  {
    match image
    case Elf(_, memory, size, segments) =>
      assert SegmentMaps(memory, segments[j]) && SegmentMaps(memory, segments[k]);
      SegmentCount(memory, segments[j]);
      SegmentCount(memory, segments[k]);
      assert PageDisjoint(segments[j], segments[k]);
  }
}
