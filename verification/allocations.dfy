/** process_malloc and process_free in numbers: which slot, which blocks, which addresses and page entries. */
module Allocations {
  import opened Words
  import opened Memory
  import opened HeapTable
  import opened Paging
  import opened AddressSpace
  import opened Steps

  /** Slot k is the first that holds ptr. */
  ghost predicate FirstSlot(p: Process, ptr: u32, k: nat) {
    k < |p.allocations| && p.allocations[k].ptr == ptr && forall j :: 0 <= j < k ==> p.allocations[j].ptr != ptr
  }

  /** The n pages from the given one on go to themselves with the given flags, the others where they went. */
  ghost predicate PagesShow(view: seq<u32>, view': seq<u32>, first: nat, n: nat, flags: u32) {
    && |view| == |view'| == 0x10_0000
    && forall v :: 0 <= v < 0x10_0000 ==> view'[v] == if first <= v < first + n then 4096 * v + flags else view[v]
  }

  ghost predicate HasPages(words: seq<u32>, p: Process) {
    IsMemory(words) && Directory(words, p.root) % 4096 == 0
  }

  ghost function Pages(words: seq<u32>, p: Process): seq<u32>
    requires HasPages(words, p)
  {
    View(words, Directory(words, p.root))
  }

  ghost predicate OnlySlotChanged(s: System, s': System, i: int, k: nat, a: Allocation)
    requires Alive(s, i)
  {
    var p := s.processes[i].value;
    && k < |p.allocations| && s'.list == s.list
    && s'.processes == s.processes[i := Some(p.(allocations := p.allocations[k := a]))]
  }

  /** The first empty slot holds the n pages that hold size bytes, the first n free ones, zeroed and opened. */
  ghost predicate Granted(s: System, i: int, size: u32, ptr: u32, s': System, k: nat, b: nat, n: nat)
    requires Alive(s, i) && HasPages(s.words, s.processes[i].value) && HasPages(s'.words, s.processes[i].value)
  {
    var p := s.processes[i].value;
    && FirstSlot(p, 0, k) && OnlySlotChanged(s, s', i, k, Allocation(ptr, size))
    && 4096 * (n - 1) < size <= 4096 * n
    && RunAt(s.table, b, n) && (forall c: nat :: c < b ==> !RunAt(s.table, c, n))
    && ptr == 0x0100_0000 + 4096 * b && Decode(s'.table) == Decode(s.table)[b := n]
    && PagesShow(Pages(s.words, p), Pages(s'.words, p), 0x1000 + b, n, 7)
    && (forall a: u32 :: ptr <= a < ptr + size ==> ByteAt(s'.words, a) == 0)
  }

  /** A process with an empty slot is granted its pages; one without gets the null pointer, and nothing happens. */
  lemma MallocIs(s: System, i: int, size: u32, ptr: u32, s': System)
    requires Inv(s) && CanMalloc(s, i, size) && MallocStep(s, i, size, ptr, s')
    ensures HasPages(s.words, s.processes[i].value) && HasPages(s'.words, s.processes[i].value)
    ensures if (exists k :: FirstSlot(s.processes[i].value, 0, k))
            then exists k, b, n :: Granted(s, i, size, ptr, s', k, b, n)
            else ptr == 0 && s' == s
  {
    var p := s.processes[i].value;
    var k := SlotOf(p.allocations, 0);
    assert ProcessOK(s.table, s.words, p);
    if k < |p.allocations| {
      assert FirstSlot(p, 0, k);
      var n := BlocksFor(size);
      MallocGrants(s, i, size, ptr, s', k, FirstFit(s.table, n), n);
    }
  }

  lemma MallocGrants(s: System, i: int, size: u32, ptr: u32, s': System, k: nat, b: nat, n: nat)
    requires |s.table| == HEAP_BLOCKS && WellFormed(s.table) && CanMalloc(s, i, size)
    requires MallocStep(s, i, size, ptr, s') && FirstSlot(s.processes[i].value, 0, k)
    requires n == BlocksFor(size) && HasRun(s.table, n) && b == FirstFit(s.table, n)
    ensures HasPages(s.words, s.processes[i].value) && HasPages(s'.words, s.processes[i].value)
    ensures Granted(s, i, size, ptr, s', k, b, n)
  {
    var p := s.processes[i].value;
    assert k == SlotOf(p.allocations, 0);
    RequestReservesBlocksIff(size);
    AddressOfBlock(b);
    TakeAddsExtent(s.table, b, n);
    assert ptr / 4096 == 0x1000 + b;
    RemappedShows(s.words, s'.words, p, BlockRange(b, n), 0x1000 + b, n, 7);
  }

  lemma RemappedShows(w: seq<u32>, w': seq<u32>, p: Process, blocks: set<int>, first: nat, n: nat, flags: u32)
    requires first < PAGES && first + n <= 0x10_0000 && flags < 4096
    requires Remapped(w, w', p.root, blocks, first, first, n, flags)
    ensures HasPages(w, p) && HasPages(w', p) && PagesShow(Pages(w, p), Pages(w', p), first, n, flags)
  {
    MapsToItself(Pages(w, p), first, n, flags);
  }

  lemma MapsToItself(view: seq<u32>, first: nat, n: nat, flags: u32)
    requires |view| == PAGES && first + n <= 0x10_0000 && first < PAGES && flags < 4096
    ensures PagesShow(view, MapView(view, first, first, n, flags), first, n, flags)
  {
    forall v: nat | v < 0x10_0000
      ensures MapView(view, first, first, n, flags)[v]
           == if first <= v < first + n then 4096 * v + flags else view[v]
    {
      assert Distance(first, v) == if first <= v then v - first else v - first + PAGES;
    }
  }

  /** Slot k is emptied, its extent given back, and the pages behind it closed. */
  ghost predicate GivenBack(s: System, i: int, ptr: u32, s': System, k: nat, b: nat, n: nat)
    requires Alive(s, i) && HasPages(s.words, s.processes[i].value) && HasPages(s'.words, s.processes[i].value)
  {
    var p := s.processes[i].value;
    && FirstSlot(p, ptr, k) && OnlySlotChanged(s, s', i, k, Allocation(0, 0))
    && 4096 * (n - 1) < p.allocations[k].size <= 4096 * n
    && ptr == 0x0100_0000 + 4096 * b && Decode(s'.table) == Decode(s.table) - {b}
    && PagesShow(Pages(s.words, p), Pages(s'.words, p), 0x1000 + b, n, 0)
  }

  /** A pointer some slot holds is given back; any other, and the null pointer, changes nothing. */
  lemma FreeIs(s: System, i: int, ptr: u32, s': System)
    requires Inv(s) && Alive(s, i) && FreeStep(s, i, ptr, s')
    ensures HasPages(s.words, s.processes[i].value) && HasPages(s'.words, s.processes[i].value)
    ensures if ptr != 0 && exists k :: FirstSlot(s.processes[i].value, ptr, k)
            then exists k, b, n :: GivenBack(s, i, ptr, s', k, b, n)
            else s' == s
  {
    var p := s.processes[i].value;
    var k := SlotOf(p.allocations, ptr);
    assert ProcessOK(s.table, s.words, p);
    if k < |p.allocations| && ptr != 0 {
      assert FirstSlot(p, ptr, k);
      var b, n := HeldBlocks(s.table, s.words, p, k);
      FreeGivesBack(s, i, ptr, s', k, b, n);
    }
  }

  lemma FreeGivesBack(s: System, i: int, ptr: u32, s': System, k: nat, b: nat, n: nat)
    requires Alive(s, i) && FreeStep(s, i, ptr, s') && ptr != 0 && FirstSlot(s.processes[i].value, ptr, k)
    requires Held(s.table, s.processes[i].value.allocations[k], b, n)
    ensures HasPages(s.words, s.processes[i].value) && HasPages(s'.words, s.processes[i].value)
    ensures GivenBack(s, i, ptr, s', k, b, n)
  {
    var p := s.processes[i].value;
    assert k == SlotOf(p.allocations, ptr);
    RemappedShows(s.words, s'.words, p, {}, 0x1000 + b, n, 0);
  }

  ghost predicate Held(t: seq<bv8>, a: Allocation, b: nat, n: nat) {
    && a.ptr == 0x0100_0000 + 4096 * b && a.ptr / 4096 == 0x1000 + b && b == AddressToBlock(a.ptr)
    && n == BlocksFor(a.size) && 4096 * (n - 1) < a.size <= 4096 * n && 0x1000 + b + n <= 0x7400
    && Decode(Release(t, b)) == Decode(t) - {b}
  }

  /** The blocks behind a slot in use. */
  lemma HeldBlocks(t: seq<bv8>, w: seq<u32>, p: Process, k: nat) returns (b: nat, n: nat)
    requires |t| == HEAP_BLOCKS && WellFormed(t) && ProcessOK(t, w, p)
    requires k < |p.allocations| && p.allocations[k].ptr != 0
    ensures Held(t, p.allocations[k], b, n)
  {
    var a := p.allocations[k];
    assert Live(p, Data(k)) && Owns(t, w, p, Data(k));
    b, n := AddressToBlock(a.ptr), BlocksFor(a.size);
    RequestReservesBlocksIff(a.size);
    AddressOfBlock(b);
    LiveExtentInTable(t, b);
    ReleaseRemovesExtent(t, b);
  }
}
