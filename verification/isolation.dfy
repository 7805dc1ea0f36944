/**
 What the system invariant gives: the pages a process can write are exactly the ones it owns for
 that purpose, so no page is writable in two processes and none holds page tables.
 */
module Isolation {
  import opened Words
  import opened HeapTable
  import opened Paging
  import opened Windows
  import opened AddressSpace
  import opened Steps

  lemma ImageWindowBacks(image: Image, f: int)
    ensures WritableImagePage(image, f) <==>
            exists i :: 0 <= i < |ImageWindows(image)| && Backs(ImageWindows(image)[i], f)
  {
    var ws := ImageWindows(image);
    match image
    case Elf(_, memory, _, segments) =>
      forall k | 0 <= k < |segments|
        ensures Backs(ws[k], f) <==>
                IsWritable(segments[k]) && SegmentPage(memory, segments[k], f)
      {
        assert ws[k] == SegmentWindow(memory, segments[k]);
      }
    case Flat(memory, size) =>
      assert Backs(ws[0], f) <==> memory / 4096 <= f < PagesUpTo(memory + size);
  }

  lemma StackWindowBacks(s: System, i: int, f: int)
    requires Inv(s) && Alive(s, i)
    ensures Backs(StackWindow(s.processes[i].value.stack), f) <==> PageOf(s, i, Stack, f)
  {
    ClaimPages(s, i, Stack, f);
  }

  lemma DataWindowBacks(s: System, i: int, k: nat, f: int)
    requires Inv(s) && Alive(s, i) && k < MAX_ALLOCATIONS
    ensures |s.processes[i].value.allocations| == MAX_ALLOCATIONS
    ensures Backs(AllocationWindow(s.processes[i].value.allocations[k]), f) <==> PageOf(s, i, Data(k), f)
  {
    var p := s.processes[i].value;
    assert ProcessOK(s.table, s.words, p);
    SlotPages(s.table, s.words, p, k);
    RangeBacks(p.allocations[k], f);
    if p.allocations[k].ptr != 0 {
      ClaimPages(s, i, Data(k), f);
    }
  }

  lemma SlotPages(t: seq<bv8>, w: seq<u32>, p: Process, k: nat)
    requires ProcessOK(t, w, p) && k < MAX_ALLOCATIONS
    ensures |p.allocations| == MAX_ALLOCATIONS && (p.allocations[k].ptr == 0 ==> p.allocations[k].size == 0)
    ensures Live(p, Data(k)) <==> p.allocations[k].ptr != 0
  {
  }

  lemma RangeBacks(a: Allocation, f: int)
    ensures Backs(AllocationWindow(a), f) <==> a.ptr / 4096 <= f < PagesUpTo(a.ptr + a.size)
  {
  }

  lemma SomeDataWindowBacks(s: System, i: int, f: int)
    requires Inv(s) && Alive(s, i)
    ensures |s.processes[i].value.allocations| == MAX_ALLOCATIONS
    ensures LiveDataPage(s, i, f) <==>
            exists k: nat :: k < MAX_ALLOCATIONS && Backs(AllocationWindow(s.processes[i].value.allocations[k]), f)
  {
    var p := s.processes[i].value;
    assert ProcessOK(s.table, s.words, p);
    forall k: nat | k < MAX_ALLOCATIONS
      ensures Backs(AllocationWindow(p.allocations[k]), f) <==> PageOf(s, i, Data(k), f)
    {
      DataWindowBacks(s, i, k, f);
    }
  }

  /** Some window of the process backs f: split by kind. */
  lemma SomeWindowBacks(p: Process, f: int)
    ensures (exists w :: 0 <= w < |ProcessWindows(p)| && Backs(ProcessWindows(p)[w], f)) <==>
            || (exists k :: 0 <= k < |ImageWindows(p.image)| && Backs(ImageWindows(p.image)[k], f))
            || Backs(StackWindow(p.stack), f)
            || exists k: nat :: k < |p.allocations| && Backs(AllocationWindow(p.allocations[k]), f)
  {
    var ws, img := ProcessWindows(p), ImageWindows(p.image);
    forall k | 0 <= k < |img|
      ensures ws[k] == img[k]
    {
    }
    assert ws[|img|] == StackWindow(p.stack);
    forall k: nat | k < |p.allocations|
      ensures ws[|img| + 1 + k] == AllocationWindow(p.allocations[k])
    {
    }
    if w :| 0 <= w < |ws| && Backs(ws[w], f) {
      if w < |img| {
        assert Backs(img[w], f);
      } else if w > |img| {
        assert Backs(AllocationWindow(p.allocations[w - |img| - 1]), f);
      }
    }
  }

  /** Page f is process i's to write: its data, its stack, or a writable page of its image. */
  ghost predicate OwnsPage(s: System, i: int, f: int) {
    && Alive(s, i)
    && (LiveDataPage(s, i, f) || PageOf(s, i, Stack, f) || WritableImagePage(s.processes[i].value.image, f))
  }

  /**
   The physical pages user code of a process can write are exactly the blocks of its live
   allocations, its stack, and the pages of its writable segments or of its flat binary.
   */
  lemma WritableIsExactlyOwned(s: System, i: int, f: int)
    requires Inv(s) && Alive(s, i)
    ensures CanWrite(s, i, f) <==> OwnsPage(s, i, f)
  {
    var p := s.processes[i].value;
    assert ProcessOK(s.table, s.words, p);
    WritableExactly(s.words, Directory(s.words, p.root), ProcessWindows(p), f);
    SomeWindowBacks(p, f);
    ImageWindowBacks(p.image, f);
    StackWindowBacks(s, i, f);
    SomeDataWindowBacks(s, i, f);
  }

  /** A segment's physical pages lie among the first n of the file exactly when the segment ends there. */
  lemma SegmentWithinIff(memory: u32, segment: Segment, n: nat)
    requires memory % 4096 == 0 && segment.vAddr % 4096 == segment.offset % 4096
    ensures (forall f :: SegmentPage(memory, segment, f) ==> memory / 4096 <= f < memory / 4096 + n)
            <==> PagesWithin(segment, n)
  {
    SegmentEnds(memory, segment);
    var m, o := memory / 4096, segment.offset + segment.memSize;
    if SegmentPages(segment) > 0 {
      assert SegmentPage(memory, segment, m + PagesUpTo(o) - 1);
    }
  }

  /** Its first and last page, counted from the start of the file. */
  lemma SegmentEnds(memory: u32, segment: Segment)
    requires memory % 4096 == 0 && segment.vAddr % 4096 == segment.offset % 4096
    ensures (memory + segment.offset) / 4096 == memory / 4096 + segment.offset / 4096
    ensures PagesUpTo(memory + segment.offset + segment.memSize)
         == memory / 4096 + PagesUpTo(segment.offset + segment.memSize)
    ensures SegmentPages(segment) == PagesUpTo(segment.offset + segment.memSize) - segment.offset / 4096 >= 0
  {
    var m := memory / 4096;
    assert memory == 4096 * m;
    SegmentCount(0, segment);
  }

  lemma WritableImageIsOwned(s: System, i: int, f: int)
    requires Inv(s) && Alive(s, i) && WritableImagePage(s.processes[i].value.image, f)
    ensures PageOf(s, i, ImageMemory, f)
  {
    var p := s.processes[i].value;
    assert ProcessOK(s.table, s.words, p);
    assert Owns(s.table, s.words, p, ImageMemory);
    ClaimPages(s, i, ImageMemory, f);
    var b := Start(s.words, p, ImageMemory);
    assert Holds(s, i, ImageMemory, b);
    HeldExtent(s, i, ImageMemory, b);
    RangePages(b, p.image.size);
    if p.image.Elf? {
      WritableSegmentInside(p.image, b, f);
    }
  }

  lemma WritableSegmentInside(image: Image, b: nat, f: int)
    requires image.Elf? && ImageFits(image) && WritableImagePage(image, f)
    requires b < HEAP_BLOCKS && image.memory == BlockToAddress(b)
    ensures image.memory / 4096 <= f < image.memory / 4096 + BlocksFor(image.size)
  {
    AddressOfBlock(b);
    var segments := image.segments;
    var k :| 0 <= k < |segments| && IsWritable(segments[k]) && SegmentPage(image.memory, segments[k], f);
    assert SegmentFits(segments[k], image.size);
    SegmentWithinIff(image.memory, segments[k], BlocksFor(image.size));
  }

  /** Every writable page is a page of a claim for data, stack or image. */
  lemma WritableHasClaim(s: System, i: int, f: int) returns (r: Role)
    requires Inv(s) && CanWrite(s, i, f)
    ensures PageOf(s, i, r, f) && (r.Data? || r == Stack || r == ImageMemory)
  {
    WritableIsExactlyOwned(s, i, f);
    if LiveDataPage(s, i, f) {
      var k: nat :| PageOf(s, i, Data(k), f);
      r := Data(k);
    } else if PageOf(s, i, Stack, f) {
      r := Stack;
    } else {
      WritableImageIsOwned(s, i, f);
      r := ImageMemory;
    }
  }

  /** No physical page is user-writable in two processes. */
  lemma NoPageWritableTwice(s: System, i: int, j: int, f: int)
    requires Inv(s) && CanWrite(s, i, f) && CanWrite(s, j, f)
    ensures i == j
  {
    var r := WritableHasClaim(s, i, f);
    var q := WritableHasClaim(s, j, f);
    DifferentClaimsDifferentPages(s, i, r, j, q, f);
  }

  /** No user-writable page holds page tables, a process, task or ELF record of any process. */
  lemma KernelRecordsNotWritable(s: System, i: int, j: int, q: Role, f: int)
    requires Inv(s) && CanWrite(s, i, f)
    requires q.Tables? || q == Self || q == Task || q == ElfRecord
    ensures !PageOf(s, j, q, f)
  {
    var r := WritableHasClaim(s, i, f);
    if PageOf(s, j, q, f) {
      DifferentClaimsDifferentPages(s, i, r, j, q, f);
    }
  }
}
