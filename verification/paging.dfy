/**
 Two-level page tables as they lie in physical memory, and the flat map from 2^20 pages to entries
 that they stand for.
 */
module Paging {
  import opened Words
  import opened Memory

  const ENTRIES: int := 0x400
  const PAGES: int := 0x10_0000
  const TABLE_SPAN: int := 0x40_0000

  const PRESENT: u32 := 1
  const WRITABLE: u32 := 2
  const ACCESS_ALL: u32 := 4

  function DirectoryIndex(vAddr: u32): nat {
    vAddr / TABLE_SPAN
  }

  function TableIndex(vAddr: u32): nat {
    vAddr % TABLE_SPAN / PAGE_SIZE
  }

  /** Entry i of the directory. */
  function DirectoryEntry(words: seq<u32>, dir: u32, i: nat): u32
    requires IsMemory(words) && dir % 4096 == 0 && i < ENTRIES
  {
    words[dir / 4 + i]
  }

  /** Address of table i of the directory: the stored entry with its flags masked off. */
  function TableAddress(words: seq<u32>, dir: u32, i: nat): nat
    requires IsMemory(words) && dir % 4096 == 0 && i < ENTRIES
  {
    And(DirectoryEntry(words, dir, i), FRAME_MASK)
  }

  /** Page number of table i of the directory. */
  ghost function TableFrame(words: seq<u32>, dir: u32, i: nat): nat
    requires IsMemory(words) && dir % 4096 == 0 && i < ENTRIES
  {
    DirectoryEntry(words, dir, i) / 4096
  }

  /** Where in memory the entry of virtual page v lies. */
  ghost function EntryIndex(words: seq<u32>, dir: u32, v: nat): (i: nat)
    requires IsMemory(words) && dir % 4096 == 0 && v < PAGES
    ensures i < |words|
  {
    TableFrame(words, dir, v / 1024) * 1024 + v % 1024
  }

  /** The flat map: entry of every virtual page. */
  ghost function View(words: seq<u32>, dir: u32): (view: seq<u32>)
    requires IsMemory(words) && dir % 4096 == 0
    ensures |view| == PAGES
    ensures forall v :: 0 <= v < PAGES ==> view[v] == words[EntryIndex(words, dir, v)]
  {
    seq(PAGES, v requires 0 <= v < PAGES => words[EntryIndex(words, dir, v)])
  }

  /** The directory and its 1024 tables lie on 1025 different pages. */
  ghost predicate Wired(words: seq<u32>, dir: u32) {
    && IsMemory(words) && dir % 4096 == 0
    && (forall i: nat :: i < ENTRIES ==> TableFrame(words, dir, i) != dir / 4096)
    && (forall i: nat, j: nat :: i < j < ENTRIES ==> TableFrame(words, dir, i) != TableFrame(words, dir, j))
  }

  ghost predicate AllPresent(words: seq<u32>, dir: u32)
    requires IsMemory(words) && dir % 4096 == 0
  {
    forall i: nat :: i < ENTRIES ==> DirectoryEntry(words, dir, i) % 2 == 1
  }

  /** Every table is present, and the directory lets user code write through it. */
  ghost predicate AllOpen(words: seq<u32>, dir: u32)
    requires IsMemory(words) && dir % 4096 == 0
  {
    forall i: nat :: i < ENTRIES ==> DirectoryEntry(words, dir, i) % 8 == 7
  }

  lemma OpenIsPresent(words: seq<u32>, dir: u32)
    requires IsMemory(words) && dir % 4096 == 0 && AllOpen(words, dir)
    ensures AllPresent(words, dir)
  {
    forall i: nat | i < ENTRIES
      ensures DirectoryEntry(words, dir, i) % 2 == 1
    {
      assert DirectoryEntry(words, dir, i) % 8 == 7;
    }
  }

  lemma SplitAddress(vAddr: u32)
    requires vAddr % 4096 == 0
    ensures DirectoryIndex(vAddr) == vAddr / 4096 / 1024 < ENTRIES
    ensures TableIndex(vAddr) == vAddr / 4096 % 1024
  {
  }

  /** The masked pointer plus the table index is the entry's place. */
  lemma EntryPlace(words: seq<u32>, dir: u32, vAddr: u32)
    requires IsMemory(words) && dir % 4096 == 0 && vAddr % 4096 == 0
    ensures DirectoryIndex(vAddr) < ENTRIES
    ensures TableAddress(words, dir, DirectoryIndex(vAddr)) / 4 + TableIndex(vAddr)
         == EntryIndex(words, dir, vAddr / 4096)
  {
    SplitAddress(vAddr);
    MaskKeepsFrame(DirectoryEntry(words, dir, DirectoryIndex(vAddr)));
  }

  /** The same place, from the page's directory and table indexes. */
  lemma PlaceOfIndexes(words: seq<u32>, dir: u32, v: nat, dIndex: nat, tIndex: nat)
    requires IsMemory(words) && dir % 4096 == 0 && v < PAGES
    requires dIndex < ENTRIES && tIndex < ENTRIES && dIndex * 1024 + tIndex == v
    ensures dir / 4 + dIndex < |words|
    ensures (words[dir / 4 + dIndex] - words[dir / 4 + dIndex] % 4096) / 4 + tIndex == EntryIndex(words, dir, v)
  {
    assert v / 1024 == dIndex && v % 1024 == tIndex;
    assert DirectoryEntry(words, dir, dIndex) == words[dir / 4 + dIndex];
  }

  lemma EntryIndexInjective(words: seq<u32>, dir: u32, v: nat, w: nat)
    requires Wired(words, dir) && v < PAGES && w < PAGES && v != w
    ensures EntryIndex(words, dir, v) != EntryIndex(words, dir, w)
  {
    if v / 1024 != w / 1024 {
      assert TableFrame(words, dir, v / 1024) != TableFrame(words, dir, w / 1024);
    }
  }

  lemma EntryNotInDirectory(words: seq<u32>, dir: u32, v: nat, i: nat)
    requires Wired(words, dir) && v < PAGES && i < ENTRIES
    ensures EntryIndex(words, dir, v) != dir / 4 + i
  {
    assert TableFrame(words, dir, v / 1024) != dir / 4096;
  }

  /** Overwriting one entry is one map update; the directory is untouched. */
  lemma SetIsUpdate(words: seq<u32>, dir: u32, v: nat, val: u32)
    requires Wired(words, dir) && v < PAGES
    ensures Wired(words[EntryIndex(words, dir, v) := val], dir)
    ensures View(words[EntryIndex(words, dir, v) := val], dir) == View(words, dir)[v := val]
    ensures SameDirectory(words, words[EntryIndex(words, dir, v) := val], dir)
  {
    var after := words[EntryIndex(words, dir, v) := val];
    forall i: nat | i < ENTRIES
      ensures DirectoryEntry(after, dir, i) == DirectoryEntry(words, dir, i)
    {
      EntryNotInDirectory(words, dir, v, i);
    }
    SameDirectoryFacts(words, after, dir);
    forall w: nat | w < PAGES && w != v
      ensures after[EntryIndex(after, dir, w)] == View(words, dir)[w]
    {
      EntryIndexInjective(words, dir, v, w);
    }
  }

  ghost predicate SameDirectory(before: seq<u32>, after: seq<u32>, dir: u32)
    requires dir % 4096 == 0
  {
    && IsMemory(before) && IsMemory(after)
    && forall i: nat :: i < ENTRIES ==> DirectoryEntry(after, dir, i) == DirectoryEntry(before, dir, i)
  }

  lemma SameDirectoryFacts(before: seq<u32>, after: seq<u32>, dir: u32)
    requires dir % 4096 == 0 && SameDirectory(before, after, dir)
    ensures forall i: nat :: i < ENTRIES ==> TableFrame(after, dir, i) == TableFrame(before, dir, i)
    ensures forall v: nat :: v < PAGES ==> EntryIndex(after, dir, v) == EntryIndex(before, dir, v)
    ensures Wired(before, dir) ==> Wired(after, dir)
    ensures AllPresent(before, dir) ==> AllPresent(after, dir)
    ensures AllOpen(before, dir) ==> AllOpen(after, dir)
  {
    forall i: nat | i < ENTRIES
      ensures TableFrame(after, dir, i) == TableFrame(before, dir, i)
    {
      assert DirectoryEntry(after, dir, i) == DirectoryEntry(before, dir, i);
    }
  }

  // -- Page alignment --------------------------------------------------------------------------

  /** Pages needed to hold the first a bytes. */
  function PagesUpTo(a: nat): nat {
    (a + 4095) / 4096
  }

  /** paging_align_address. */
  function AlignAddress(a: u32): u32 {
    if a % PAGE_SIZE != 0 then Add32(a, PAGE_SIZE - a % PAGE_SIZE) else a
  }

  /** Rounding up is exact as long as it does not wrap, and comes to 0 above the last page. */
  lemma AlignAddressIs(a: u32)
    ensures a <= 0xFFFF_F000 ==> a <= AlignAddress(a) < a + 4096 && AlignAddress(a) % 4096 == 0
    ensures a <= 0xFFFF_F000 ==> AlignAddress(a) == PagesUpTo(a) * 4096
    ensures a > 0xFFFF_F000 ==> AlignAddress(a) == 0
  {
  }

  /** paging_align_to_lower_page_addr. */
  function AlignToLower(a: u32): u32 {
    a - a % PAGE_SIZE
  }

  lemma AlignToLowerIs(a: u32)
    ensures AlignToLower(a) % 4096 == 0 && AlignToLower(a) / 4096 == a / 4096
    ensures AlignToLower(a) == a / 4096 * 4096
  {
  }

  // -- Mapping a range -------------------------------------------------------------------------

  /** The k-th page after page p, around the 4 GB wrap. */
  function PageAfter(p: nat, k: nat): (q: nat)
    ensures q < PAGES
  {
    (p + k) % PAGES
  }

  function PageAddress(page: nat): u32
    requires page < PAGES
  {
    page * 4096
  }

  /** The running address after i pages from start; an unaligned start never gets past the first. */
  ghost predicate RangeAt(start: u32, a: u32, i: nat) {
    if i == 0 then a == start else start % 4096 == 0 && a == PageAddress(PageAfter(start / 4096, i))
  }

  lemma NextPage(start: u32, a: u32, i: nat)
    requires start % 4096 == 0 && RangeAt(start, a, i)
    ensures a / 4096 == PageAfter(start / 4096, i)
    ensures RangeAt(start, Add32(a, PAGE_SIZE), i + 1)
  {
  }

  function Entry(page: nat, flags: u32): u32
    requires page < PAGES && flags < 4096
  {
    page * 4096 + flags
  }

  lemma EntryFrame(page: nat, flags: u32)
    requires page < PAGES && flags < 4096
    ensures Entry(page, flags) / 4096 == page
  {
  }

  lemma EntryFlags(page: nat, flags: u32)
    requires page < PAGES && flags < 8
    ensures Entry(page, flags) % 8 == flags
  {
    var q := 512 * page;
    assert Entry(page, flags) == 8 * q + flags;
  }

  /** How far page x lies after page v, around the wrap. */
  function Distance(v: nat, x: nat): (d: nat)
    requires v < PAGES && x < PAGES
    ensures d < PAGES
    ensures PageAfter(v, d) == x
  {
    (x - v) % PAGES
  }

  lemma DistanceUnique(v: nat, x: nat, k: nat)
    requires v < PAGES && x < PAGES && k < PAGES && PageAfter(v, k) == x
    ensures k == Distance(v, x)
  {
  }

  /** The flat map with `count` pages from v on sent to the pages from p on. */
  ghost function MapView(view: seq<u32>, v: nat, p: nat, count: nat, flags: u32): (r: seq<u32>)
    requires |view| == PAGES && v < PAGES && p < PAGES && flags < 4096
    ensures |r| == PAGES
    ensures forall x :: 0 <= x < PAGES ==>
              r[x] == if Distance(v, x) < count then Entry(PageAfter(p, Distance(v, x)), flags) else view[x]
  {
    seq(PAGES, x requires 0 <= x < PAGES =>
      if Distance(v, x) < count then Entry(PageAfter(p, Distance(v, x)), flags) else view[x])
  }

  lemma MapViewStart(view: seq<u32>, v: nat, p: nat, flags: u32)
    requires |view| == PAGES && v < PAGES && p < PAGES && flags < 4096
    ensures MapView(view, v, p, 0, flags) == view
  {
  }

  lemma MapViewStep(view: seq<u32>, v: nat, p: nat, count: nat, flags: u32)
    requires |view| == PAGES && v < PAGES && p < PAGES && flags < 4096 && count < PAGES
    ensures MapView(view, v, p, count + 1, flags)
         == MapView(view, v, p, count, flags)[PageAfter(v, count) := Entry(PageAfter(p, count), flags)]
  {
    var x0 := PageAfter(v, count);
    DistanceUnique(v, x0, count);
    forall x: nat | x < PAGES && x != x0
      ensures Distance(v, x) != count
    {
    }
  }

  /** Words that are not an entry of one of the directory's tables keep their value. */
  ghost predicate OnlyTablesChanged(before: seq<u32>, after: seq<u32>, dir: u32)
    requires dir % 4096 == 0
  {
    && SameDirectory(before, after, dir)
    && forall w: nat :: w < MEMORY_WORDS && after[w] != before[w] ==>
        exists i: nat :: i < ENTRIES && TableFrame(before, dir, i) == w / 1024
  }

  // -- Lookup ----------------------------------------------------------------------------------

  /** paging_get: an unaligned address is looked up as page 0, because the index error is ignored. */
  function Lookup(words: seq<u32>, dir: u32, vAddr: u32): u32
    requires IsMemory(words) && dir % 4096 == 0
  {
    var d := if vAddr % 4096 == 0 then DirectoryIndex(vAddr) else 0;
    var t := if vAddr % 4096 == 0 then TableIndex(vAddr) else 0;
    if And(DirectoryEntry(words, dir, d), PRESENT) == 0 then 0
    else
      MaskKeepsFrame(DirectoryEntry(words, dir, d));
      words[TableAddress(words, dir, d) / 4 + t]
  }

  /** For aligned addresses under a present directory entry, lookup is map lookup. */
  lemma LookupIsView(words: seq<u32>, dir: u32, vAddr: u32)
    requires IsMemory(words) && dir % 4096 == 0
    requires vAddr % 4096 == 0 && DirectoryEntry(words, dir, DirectoryIndex(vAddr)) % 2 == 1
    ensures Lookup(words, dir, vAddr) == View(words, dir)[vAddr / 4096]
  {
    LowBits(DirectoryEntry(words, dir, DirectoryIndex(vAddr)));
    EntryPlace(words, dir, vAddr);
  }

  /**
   Two reads, of the word for the address's 4 MB in the directory and of the word for its page in the table it
   names; 0 when the first says the table is not present.
   */
  lemma LookupIs(words: seq<u32>, dir: u32, vAddr: u32)
    requires IsMemory(words) && dir % 4096 == 0
    ensures var page := if vAddr % 4096 == 0 then vAddr / 4096 else 0;
            var table := words[dir / 4 + page / 1024];
            Lookup(words, dir, vAddr) == if table % 2 == 0 then 0 else words[table / 4096 * 1024 + page % 1024]
  {
    var page := if vAddr % 4096 == 0 then vAddr / 4096 else 0;
    var table := DirectoryEntry(words, dir, page / 1024);
    SplitAddress(page * 4096);
    LowBits(table);
    MaskKeepsFrame(table);
  }

  /** paging_get_physical_address. */
  function Physical(words: seq<u32>, dir: u32, vAddr: u32): u32
    requires IsMemory(words) && dir % 4096 == 0
  {
    var entry := Lookup(words, dir, vAddr - vAddr % 4096);
    FrameAndOffset(entry, vAddr % 4096);
    And(entry, FRAME_MASK) + vAddr % 4096
  }

  lemma FrameAndOffset(entry: u32, offset: nat)
    requires offset < 4096
    ensures And(entry, FRAME_MASK) + offset < TWO_32
  {
    MaskKeepsFrame(entry);
  }

  lemma PhysicalIsView(words: seq<u32>, dir: u32, vAddr: u32)
    requires IsMemory(words) && dir % 4096 == 0 && AllPresent(words, dir)
    ensures Physical(words, dir, vAddr)
         == View(words, dir)[vAddr / 4096] / 4096 * 4096 + vAddr % 4096
  {
    var lower := vAddr - vAddr % 4096;
    LookupIsView(words, dir, lower);
    MaskKeepsFrame(Lookup(words, dir, lower));
  }

  /** The frame the two reads come to, and the offset in the page; an address no table covers goes to page 0. */
  lemma PhysicalIs(words: seq<u32>, dir: u32, vAddr: u32)
    requires IsMemory(words) && dir % 4096 == 0
    ensures var table := words[dir / 4 + vAddr / 0x40_0000];
            var entry := if table % 2 == 0 then 0 else words[table / 4096 * 1024 + vAddr / 4096 % 1024];
            Physical(words, dir, vAddr) == entry / 4096 * 4096 + vAddr % 4096
  {
    var lower := vAddr - vAddr % 4096;
    LowerIndexes(vAddr);
    LookupIs(words, dir, lower);
    MaskKeepsFrame(Lookup(words, dir, lower));
  }

  lemma LowerIndexes(vAddr: u32)
    ensures var lower := vAddr - vAddr % 4096;
            lower % 4096 == 0 && lower / 4096 == vAddr / 4096 && vAddr / 4096 / 1024 == vAddr / 0x40_0000
  {
  }

  // -- A whole address space -------------------------------------------------------------------

  /** The directory address stored in the `d_entry` field of a paging map. */
  function Directory(words: seq<u32>, root: u32): u32
    requires IsMemory(words)
  {
    words[root / 4]
  }

  /** The paging map, its directory and its 1024 tables lie on 1026 different pages. */
  ghost predicate SpaceWired(words: seq<u32>, root: u32) {
    && IsMemory(words) && root % 4096 == 0
    && Wired(words, Directory(words, root))
    && root / 4096 != Directory(words, root) / 4096
    && forall i: nat :: i < ENTRIES ==> TableFrame(words, Directory(words, root), i) != root / 4096
  }

  /** The pages an address space is made of, in the order they are allocated. */
  ghost function SpaceFrames(words: seq<u32>, root: u32): (frames: seq<nat>)
    requires IsMemory(words) && Directory(words, root) % 4096 == 0
    ensures |frames| == 1026
  {
    var dir := Directory(words, root);
    [dir / 4096] + seq(1024, i requires 0 <= i < 1024 => TableFrame(words, dir, i)) + [root / 4096]
  }

  /** Page v goes to page v, with the given flags. */
  ghost predicate IsIdentity(view: seq<u32>, flags: u32) {
    |view| == PAGES && flags < 4096 && forall v :: 0 <= v < PAGES ==> view[v] == Entry(v, flags)
  }

  /** The entry place of page v in the address space rooted at root. */
  ghost predicate SameSpace(before: seq<u32>, after: seq<u32>, root: u32) {
    && SpaceWired(before, root) && SpaceWired(after, root)
    && Directory(after, root) == Directory(before, root)
    && SameDirectory(before, after, Directory(before, root))
  }

  /** `after` is `before` with exactly the given pages remapped in the space rooted at root. */
  ghost predicate Mapped(before: seq<u32>, after: seq<u32>, root: u32, v: nat, p: nat, count: nat, flags: u32)
    requires v < PAGES && p < PAGES && flags < 4096
  {
    && SameSpace(before, after, root)
    && OnlyTablesChanged(before, after, Directory(before, root))
    && View(after, Directory(after, root)) == MapView(View(before, Directory(before, root)), v, p, count, flags)
  }

  /** One paging_set inside a space: a map update, confined to one table. */
  lemma SetInSpace(before: seq<u32>, root: u32, v: nat, val: u32)
    requires SpaceWired(before, root) && v < PAGES
    ensures var dir := Directory(before, root);
            var after := before[EntryIndex(before, dir, v) := val];
            && SameSpace(before, after, root)
            && OnlyTablesChanged(before, after, dir)
            && View(after, dir) == View(before, dir)[v := val]
  {
    var dir := Directory(before, root);
    var after := before[EntryIndex(before, dir, v) := val];
    SetIsUpdate(before, dir, v, val);
    SameDirectoryFacts(before, after, dir);
    assert TableFrame(before, dir, v / 1024) != root / 4096;
    assert EntryIndex(before, dir, v) / 1024 == TableFrame(before, dir, v / 1024);
  }

  lemma OnlyTablesChangedTrans(w0: seq<u32>, w1: seq<u32>, w2: seq<u32>, dir: u32)
    requires dir % 4096 == 0 && OnlyTablesChanged(w0, w1, dir) && OnlyTablesChanged(w1, w2, dir)
    ensures OnlyTablesChanged(w0, w2, dir)
  {
    SameDirectoryFacts(w0, w1, dir);
    forall w: nat | w < MEMORY_WORDS && w2[w] != w0[w]
      ensures exists i: nat :: i < ENTRIES && TableFrame(w0, dir, i) == w / 1024
    {
      if w1[w] == w0[w] {
        var i: nat :| i < ENTRIES && TableFrame(w1, dir, i) == w / 1024;
        assert TableFrame(w0, dir, i) == w / 1024;
      }
    }
  }

  lemma MappedStep(before: seq<u32>, now: seq<u32>, root: u32, v: nat, p: nat, i: nat, flags: u32)
    requires v < PAGES && p < PAGES && flags < 4096 && i < PAGES
    requires Mapped(before, now, root, v, p, i, flags)
    ensures Mapped(before,
                   now[EntryIndex(now, Directory(now, root), PageAfter(v, i)) := Entry(PageAfter(p, i), flags)],
                   root, v, p, i + 1, flags)
  {
    var dir := Directory(before, root);
    SetInSpace(now, root, PageAfter(v, i), Entry(PageAfter(p, i), flags));
    var after := now[EntryIndex(now, dir, PageAfter(v, i)) := Entry(PageAfter(p, i), flags)];
    OnlyTablesChangedTrans(before, now, after, dir);
    MapViewStep(View(before, dir), v, p, i, flags);
  }
}
