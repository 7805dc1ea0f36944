/**
 The kernel's memory stack, in place: the heap over its table of flag bytes, and paging over the
 words of physical memory.
 */
module Machine {
  import opened Status
  import opened Words
  import opened Memory
  import opened HeapTable
  import opened Placement
  import opened Paging

  const FIRST_FRAME: int := 0x1000

  // Size of struct paging_4gb_memory_map, one pointer.
  const MAP_BYTES: u32 := 4

  /** Words outside the listed heap blocks keep their value. */
  ghost predicate OnlyBlocksChanged(before: seq<u32>, after: seq<u32>, blocks: set<int>) {
    && IsMemory(before) && IsMemory(after)
    && forall w: nat :: w < MEMORY_WORDS && w / 1024 - FIRST_FRAME !in blocks ==> after[w] == before[w]
  }

  ghost predicate NoDuplicates(s: seq<nat>) {
    forall i, j :: 0 <= i < j < |s| ==> s[i] != s[j]
  }

  /** ext with a one-block extent at each of the listed blocks. */
  ghost function WithOnes(ext: map<nat, nat>, blocks: seq<nat>): map<nat, nat> {
    ext + (map b | b in blocks :: 1)
  }

  /** t is t0 with one-block allocations at the listed blocks, each a first fit and free before. */
  ghost predicate Grown(t0: seq<bv8>, t: seq<bv8>, got: seq<nat>) {
    && |t0| == |t| == HEAP_BLOCKS && WellFormed(t0) && WellFormed(t)
    && NoDuplicates(got)
    && (forall b :: b in got ==> b < HEAP_BLOCKS && b !in Decode(t0))
    && Decode(t) == WithOnes(Decode(t0), got)
    && FreeCount(t) == FreeCount(t0) - |got|
    && FirstFits(t0, t, Ones(|got|), got)
  }

  lemma OneMore(ext: map<nat, nat>, got: seq<nat>, s: nat)
    ensures WithOnes(ext, got + [s]) == WithOnes(ext, got)[s := 1]
    ensures forall b :: b in got + [s] <==> b in got || b == s
  {
    assert forall b :: b in got + [s] <==> b in got || b == s;
  }

  lemma GrowByOne(t0: seq<bv8>, t: seq<bv8>, got: seq<nat>)
    requires Grown(t0, t, got) && FreeCount(t) >= 1
    ensures HasRun(t, 1)
    ensures Grown(t0, Take(t, FirstFit(t, 1), 1), got + [FirstFit(t, 1)])
    ensures FirstFit(t, 1) !in got && FirstFit(t, 1) < HEAP_BLOCKS
  {
    OneBlockFits(t);
    var s := FirstFit(t, 1);
    TakeAddsExtent(t, s, 1);
    FreeCountAfterTake(t, s, 1);
    OneMore(Decode(t0), got, s);
    FitNext(t0, t, Ones(|got|), got, 1);
    assert Ones(|got|) + [1] == Ones(|got| + 1);
    assert s !in got;
  }

  /** Word j of heap block b. */
  ghost function WordOf(words: seq<u32>, b: nat, j: nat): u32
    requires IsMemory(words) && b < HEAP_BLOCKS && j < 1024
  {
    words[(FIRST_FRAME + b) * 1024 + j]
  }

  /** Block b holds table k of the directory in block d: linked from it, and filled with the identity. */
  ghost predicate TableBuilt(words: seq<u32>, d: nat, b: nat, k: nat, flags: u32)
    requires IsMemory(words) && flags < 4096
  {
    && d < HEAP_BLOCKS && b < HEAP_BLOCKS && k < ENTRIES
    && WordOf(words, d, k) == BlockToAddress(b) + Or(flags, WRITABLE)
    && forall j: nat :: j < ENTRIES ==> WordOf(words, b, j) == Entry(k * 1024 + j, flags)
  }

  ghost predicate TablesBuilt(words: seq<u32>, d: nat, tables: seq<nat>, flags: u32)
    requires IsMemory(words) && flags < 4096
  {
    && |tables| <= ENTRIES
    && forall k :: 0 <= k < |tables| ==> TableBuilt(words, d, tables[k], k, flags)
  }

  /** Writing one more block b, and its link in the directory, keeps the earlier tables. */
  lemma TablesKept(before: seq<u32>, after: seq<u32>, d: nat, tables: seq<nat>, b: nat, flags: u32)
    requires IsMemory(before) && flags < 4096 && TablesBuilt(before, d, tables, flags) && |tables| < ENTRIES
    requires IsMemory(after) && b !in tables && d !in tables && b != d && d < HEAP_BLOCKS && b < HEAP_BLOCKS
    requires forall w: nat ::
               w < MEMORY_WORDS && w / 1024 != FIRST_FRAME + b && w != (FIRST_FRAME + d) * 1024 + |tables|
               ==> after[w] == before[w]
    requires TableBuilt(after, d, b, |tables|, flags)
    ensures TablesBuilt(after, d, tables + [b], flags)
  {
    forall k | 0 <= k < |tables|
      ensures TableBuilt(after, d, tables[k], k, flags)
    {
      var c := tables[k];
      assert TableBuilt(before, d, c, k, flags);
      forall j: nat | j < ENTRIES
        ensures WordOf(after, c, j) == WordOf(before, c, j)
      {
        var w := (FIRST_FRAME + c) * 1024 + j;
        assert w / 1024 == FIRST_FRAME + c;
        assert after[w] == before[w];
      }
      var w := (FIRST_FRAME + d) * 1024 + k;
      assert w / 1024 == FIRST_FRAME + d;
      assert after[w] == before[w];
    }
  }

  /** Block b filled as table k, and entry k of the directory in block d linked to it. */
  ghost predicate FilledAndLinked(before: seq<u32>, after: seq<u32>, d: nat, b: nat, k: nat, flags: u32) {
    && IsMemory(before) && IsMemory(after) && k < ENTRIES && flags < 4096 && b < HEAP_BLOCKS
    && forall w: nat :: w < MEMORY_WORDS ==>
        after[w] == if w / 1024 == FIRST_FRAME + b then Entry(k * 1024 + w % 1024, flags)
                    else if w == (FIRST_FRAME + d) * 1024 + k then BlockToAddress(b) + Or(flags, WRITABLE)
                    else before[w]
  }

  ghost predicate Filled(before: seq<u32>, after: seq<u32>, frame: nat, k: nat, flags: u32) {
    && IsMemory(before) && IsMemory(after) && k < ENTRIES && flags < 4096
    && forall w: nat :: w < MEMORY_WORDS ==>
        after[w] == if w / 1024 == frame then Entry(k * 1024 + w % 1024, flags) else before[w]
  }

  lemma EntryWord(d: nat, i: nat)
    requires d < HEAP_BLOCKS && i < ENTRIES
    ensures BlockToAddress(d) / 4 + i == (FIRST_FRAME + d) * 1024 + i < MEMORY_WORDS
  {
    AddressOfBlock(d);
  }

  lemma LinkAfterFill(w2: seq<u32>, filled: seq<u32>, d: nat, b: nat, k: nat, flags: u32)
    requires b < HEAP_BLOCKS && d < HEAP_BLOCKS && b != d && Filled(w2, filled, FIRST_FRAME + b, k, flags)
    requires Or(flags, WRITABLE) < 4096
    ensures FilledAndLinked(w2, filled[(FIRST_FRAME + d) * 1024 + k := BlockToAddress(b) + Or(flags, WRITABLE)],
                            d, b, k, flags)
  {
    AddressOfBlock(b);
  }

  /** The words after zeroing block b (w1 to w2), filling it and linking it (w2 to w3). */
  lemma TableAdded(w0: seq<u32>, w1: seq<u32>, w2: seq<u32>, w3: seq<u32>,
                   d: nat, tables: seq<nat>, b: nat, flags: u32)
    requires flags < 4096 && |tables| < ENTRIES && d < HEAP_BLOCKS && b < HEAP_BLOCKS
    requires NoDuplicates([d] + tables) && b !in [d] + tables
    requires OnlyBlocksChanged(w1, w2, {b as int}) && OnlyBlocksChanged(w0, w2, BlockSet([d] + tables + [b]))
    requires IsMemory(w3) && TablesBuilt(w1, d, tables, flags) && Or(flags, WRITABLE) < 4096
    requires FilledAndLinked(w2, w3, d, b, |tables|, flags)
    ensures OnlyBlocksChanged(w0, w3, BlockSet([d] + tables + [b]))
    ensures TablesBuilt(w3, d, tables + [b], flags)
  {
    DistinctHead(d, tables, b);
    LinkedChanges(w0, w2, w3, BlockSet([d] + tables + [b]), d, b, |tables|, flags);
    LinkedTable(w2, w3, d, b, |tables|, flags);
    TablesKept(w1, w3, d, tables, b, flags);
  }

  lemma DistinctHead(d: nat, tables: seq<nat>, b: nat)
    requires NoDuplicates([d] + tables) && b !in [d] + tables
    ensures d !in tables && b !in tables && b != d
    ensures d in BlockSet([d] + tables + [b]) && b in BlockSet([d] + tables + [b])
  {
    var got := [d] + tables;
    assert got[0] == d && (got + [b])[0] == d && (got + [b])[|got|] == b;
    assert forall k :: 0 <= k < |tables| ==> tables[k] == got[k + 1];
  }

  lemma LinkedChanges(w0: seq<u32>, w2: seq<u32>, w3: seq<u32>, blocks: set<int>, d: nat, b: nat, k: nat, flags: u32)
    requires OnlyBlocksChanged(w0, w2, blocks) && d in blocks && b in blocks
    requires FilledAndLinked(w2, w3, d, b, k, flags)
    ensures OnlyBlocksChanged(w0, w3, blocks)
  {
    forall w: nat | w < MEMORY_WORDS && w / 1024 - FIRST_FRAME !in blocks
      ensures w3[w] == w0[w]
    {
      assert w2[w] == w0[w];
      assert w / 1024 != FIRST_FRAME + b && w / 1024 != FIRST_FRAME + d;
    }
  }

  lemma LinkedTable(w2: seq<u32>, w3: seq<u32>, d: nat, b: nat, k: nat, flags: u32)
    requires FilledAndLinked(w2, w3, d, b, k, flags) && d < HEAP_BLOCKS && b != d
    ensures TableBuilt(w3, d, b, k, flags)
  {
    forall j: nat | j < ENTRIES
      ensures WordOf(w3, b, j) == Entry(k * 1024 + j, flags)
    {
      var w := (FIRST_FRAME + b) * 1024 + j;
      assert w / 1024 == FIRST_FRAME + b && w % 1024 == j;
    }
    var w := (FIRST_FRAME + d) * 1024 + k;
    assert w / 1024 == FIRST_FRAME + d;
  }

  lemma OneBlockRequest(size: u32)
    requires 0 < size <= 0x1000
    ensures BlocksFor(size) == 1
  {
    RequestReservesBlocksIff(size);
  }

  /** Writes to the first size bytes of block b. */
  lemma OneBlockWritten(w: seq<u32>, w': seq<u32>, b: nat, ptr: u32, size: u32)
    requires b < HEAP_BLOCKS && ptr == BlockToAddress(b) && size <= 0x1000
    requires SameBytesOutside(w, w', ptr, ptr + size)
    ensures OnlyBlocksChanged(w, w', {b as int})
  {
    AddressOfBlock(b);
    forall i: nat | i < MEMORY_WORDS && i / 1024 - FIRST_FRAME != b
      ensures w'[i] == w[i]
    {
      SameWordsOutside(w, w', ptr, ptr + size, i);
    }
  }

  lemma OneBlockMore(w0: seq<u32>, w: seq<u32>, w': seq<u32>, got: seq<nat>, b: nat)
    requires OnlyBlocksChanged(w0, w, BlockSet(got)) && OnlyBlocksChanged(w, w', {b as int})
    ensures OnlyBlocksChanged(w0, w', BlockSet(got + [b]))
  {
    assert forall c :: c in got + [b] <==> c in got || c == b;
  }

  /** Part way through _gen_paging_4gb: directory in block d, first tables built, nothing else changed. */
  ghost predicate Building(t0: seq<bv8>, t: seq<bv8>, w0: seq<u32>, w: seq<u32>, d: nat, tables: seq<nat>, flags: u32) {
    && flags < 0x100 && d < HEAP_BLOCKS
    && Grown(t0, t, [d] + tables)
    && OnlyBlocksChanged(w0, w, BlockSet([d] + tables))
    && TablesBuilt(w, d, tables, flags)
  }

  lemma BuildingStep(t0: seq<bv8>, t1: seq<bv8>, t: seq<bv8>, w0: seq<u32>, w1: seq<u32>, w2: seq<u32>, w3: seq<u32>,
                     d: nat, tables: seq<nat>, b: nat, flags: u32)
    requires Building(t0, t1, w0, w1, d, tables, flags) && |tables| < ENTRIES
    requires b < HEAP_BLOCKS && b !in [d] + tables && Grown(t0, t, [d] + tables + [b])
    requires OnlyBlocksChanged(w1, w2, {b as int}) && OnlyBlocksChanged(w0, w2, BlockSet([d] + tables + [b]))
    requires FilledAndLinked(w2, w3, d, b, |tables|, flags)
    ensures Building(t0, t, w0, w3, d, tables + [b], flags)
  {
    LinkFrame(b, flags);
    TableAdded(w0, w1, w2, w3, d, tables, b, flags);
    assert [d] + tables + [b] == [d] + (tables + [b]);
  }

  lemma TablesSurvive(w1: seq<u32>, w3: seq<u32>, d: nat, tables: seq<nat>, m: nat, flags: u32)
    requires flags < 4096 && d < HEAP_BLOCKS && m < HEAP_BLOCKS && d != m && m !in tables
    requires OnlyBlocksChanged(w1, w3, {m as int}) && TablesBuilt(w1, d, tables, flags)
    ensures TablesBuilt(w3, d, tables, flags)
  {
    SameBlock(w1, w3, m, d);
    forall k | 0 <= k < |tables|
      ensures TableBuilt(w3, d, tables[k], k, flags)
    {
      assert TableBuilt(w1, d, tables[k], k, flags);
      SameBlock(w1, w3, m, tables[k]);
    }
  }

  /** Zeroing block m and storing the directory's address in it completes the space. */
  lemma MapAdded(t0: seq<bv8>, t: seq<bv8>, w0: seq<u32>, w1: seq<u32>, w2: seq<u32>, w3: seq<u32>,
                 d: nat, tables: seq<nat>, m: nat, root: u32, flags: u32)
    requires flags < 4096 && |tables| == ENTRIES && d < HEAP_BLOCKS && m < HEAP_BLOCKS
    requires Grown(t0, t, [d] + tables + [m]) && root == BlockToAddress(m)
    requires OnlyBlocksChanged(w1, w2, {m as int}) && OnlyBlocksChanged(w0, w2, BlockSet([d] + tables + [m]))
    requires TablesBuilt(w1, d, tables, flags)
    requires w3 == w2[root / 4 := BlockToAddress(d)]
    ensures NewSpace(t0, w0, t, w3, root, flags)
  {
    DistinctPieces(d, tables, m);
    StoreInBlock(w0, w1, w2, BlockSet([d] + tables + [m]), m, BlockToAddress(d));
    TablesSurvive(w1, w3, d, tables, m, flags);
    BuiltSpace(w3, root, d, tables, m, flags);
  }

  lemma DistinctPieces(d: nat, tables: seq<nat>, m: nat)
    requires NoDuplicates([d] + tables + [m])
    ensures d != m && d !in tables && m !in tables && m in [d] + tables + [m]
  {
    var got := [d] + tables + [m];
    assert got[0] == d && got[|tables| + 1] == m;
    assert forall k :: 0 <= k < |tables| ==> got[k + 1] == tables[k];
  }

  lemma StoreInBlock(w0: seq<u32>, w1: seq<u32>, w2: seq<u32>, blocks: set<int>, m: nat, val: u32)
    requires m < HEAP_BLOCKS && m in blocks
    requires OnlyBlocksChanged(w1, w2, {m as int}) && OnlyBlocksChanged(w0, w2, blocks)
    ensures BlockToAddress(m) / 4 == (FIRST_FRAME + m) * 1024 < MEMORY_WORDS
    ensures OnlyBlocksChanged(w1, w2[BlockToAddress(m) / 4 := val], {m as int})
    ensures OnlyBlocksChanged(w0, w2[BlockToAddress(m) / 4 := val], blocks)
    ensures WordOf(w2[BlockToAddress(m) / 4 := val], m, 0) == val
  {
    AddressOfBlock(m);
  }

  lemma SameBlock(before: seq<u32>, after: seq<u32>, m: nat, b: nat)
    requires OnlyBlocksChanged(before, after, {m as int}) && b != m && b < HEAP_BLOCKS
    ensures forall j: nat :: j < 1024 ==> WordOf(after, b, j) == WordOf(before, b, j)
  {
    forall j: nat | j < 1024
      ensures WordOf(after, b, j) == WordOf(before, b, j)
    {
      var w := (FIRST_FRAME + b) * 1024 + j;
      assert w / 1024 - FIRST_FRAME == b;
    }
  }

  /** The space rooted at root lies in heap blocks. */
  ghost predicate InHeap(words: seq<u32>, root: u32) {
    && IsMemory(words) && Directory(words, root) % 4096 == 0
    && forall i :: 0 <= i < 1026 ==> FIRST_FRAME <= SpaceFrames(words, root)[i] < FIRST_FRAME + HEAP_BLOCKS
  }

  /** The heap blocks the space rooted at root is made of: directory, tables, paging map. */
  ghost function SpaceBlocks(words: seq<u32>, root: u32): (blocks: seq<nat>)
    requires InHeap(words, root)
    ensures |blocks| == 1026
  {
    var frames := SpaceFrames(words, root);
    seq(1026, i requires 0 <= i < 1026 => frames[i] - FIRST_FRAME)
  }

  lemma SpaceBlocksDistinct(words: seq<u32>, root: u32)
    requires SpaceWired(words, root) && InHeap(words, root)
    ensures NoDuplicates(SpaceBlocks(words, root))
  {
    var dir := Directory(words, root);
    var frames := SpaceFrames(words, root);
    forall i, j | 0 <= i < j < 1026
      ensures frames[i] != frames[j]
    {
      if 1 <= i < 1025 {
        assert frames[i] == TableFrame(words, dir, i - 1);
      }
      if 1 <= j < 1025 {
        assert frames[j] == TableFrame(words, dir, j - 1);
      }
    }
  }

  /** The masked directory entry is the address of the table's block. */
  lemma TableBlock(words: seq<u32>, root: u32, i: nat)
    requires SpaceWired(words, root) && InHeap(words, root) && i < ENTRIES
    ensures TableAddress(words, Directory(words, root), i) < TWO_32
    ensures AddressToBlock(TableAddress(words, Directory(words, root), i)) == SpaceBlocks(words, root)[i + 1]
  {
    var dir := Directory(words, root);
    MaskKeepsFrame(DirectoryEntry(words, dir, i));
    assert SpaceFrames(words, root)[i + 1] == TableFrame(words, dir, i);
  }

  lemma RootBlocks(words: seq<u32>, root: u32)
    requires SpaceWired(words, root) && InHeap(words, root)
    ensures AddressToBlock(Directory(words, root)) == SpaceBlocks(words, root)[0]
    ensures AddressToBlock(root) == SpaceBlocks(words, root)[1025]
  {
    assert SpaceFrames(words, root)[0] == Directory(words, root) / 4096;
    assert SpaceFrames(words, root)[1025] == root / 4096;
  }

  /** ext without the extents starting at the listed blocks. */
  ghost function Without(ext: map<nat, nat>, blocks: seq<nat>): map<nat, nat> {
    ext - (set b | b in blocks)
  }

  lemma OneLess(ext: map<nat, nat>, blocks: seq<nat>, i: nat)
    requires NoDuplicates(blocks) && i < |blocks|
    ensures Without(ext, blocks[..i + 1]) == Without(ext, blocks[..i]) - {blocks[i]}
    ensures blocks[i] in ext ==> blocks[i] in Without(ext, blocks[..i])
  {
    assert blocks[..i + 1] == blocks[..i] + [blocks[i]];
    assert forall b :: b in blocks[..i + 1] <==> b in blocks[..i] || b == blocks[i];
    assert forall j :: 0 <= j < i ==> blocks[..i][j] == blocks[j];
  }

  /** The order in which paging_free_4gb gives the blocks back: tables, directory, paging map. */
  ghost function FreeOrder(blocks: seq<nat>): (freed: seq<nat>)
    requires |blocks| == 1026
    ensures |freed| == 1026
    ensures forall i :: 0 <= i < 1024 ==> freed[i] == blocks[i + 1]
    ensures freed[1024] == blocks[0] && freed[1025] == blocks[1025]
  {
    blocks[1..1025] + [blocks[0], blocks[1025]]
  }

  lemma FreeOrderCovers(blocks: seq<nat>, ext: map<nat, nat>)
    requires |blocks| == 1026 && NoDuplicates(blocks)
    ensures Without(ext, FreeOrder(blocks)) == Without(ext, blocks)
    ensures NoDuplicates(FreeOrder(blocks))
    ensures forall b :: b in FreeOrder(blocks) <==> b in blocks
  {
    var freed := FreeOrder(blocks);
    forall b | b in blocks
      ensures b in freed
    {
      var k :| 0 <= k < 1026 && blocks[k] == b;
      assert freed[if k == 1025 then 1025 else if k == 0 then 1024 else k - 1] == b;
    }
  }

  ghost function BlockSet(blocks: seq<nat>): set<int> {
    set b: int | b in blocks
  }

  /** The flags say present and open to user code. */
  predicate Accessible(flags: nat) {
    flags % 2 == 1 && flags / 4 % 2 == 1
  }

  lemma WithWritable(flags: nat)
    requires Accessible(flags)
    ensures Or(flags, WRITABLE) % 8 == 7
  {
    assert Or(flags, WRITABLE) == 1 + 2 * Or(flags / 2, 1);
    assert Or(flags / 2, 1) == 1 + 2 * Or(flags / 4, 0);
  }

  /** What _gen_paging_4gb leaves behind. */
  ghost predicate NewSpace(t0: seq<bv8>, w0: seq<u32>, t: seq<bv8>, w: seq<u32>, root: u32, flags: u32)
    requires flags < 4096
  {
    && SpaceWired(w, root) && InHeap(w, root)
    && IsIdentity(View(w, Directory(w, root)), flags)
    && (Accessible(flags) ==> AllOpen(w, Directory(w, root)))
    && Grown(t0, t, SpaceBlocks(w, root))
    && OnlyBlocksChanged(w0, w, BlockSet(SpaceBlocks(w, root)))
  }

  lemma LinkFrame(b: nat, flags: u32)
    requires b < HEAP_BLOCKS && flags < 4096
    ensures BlockToAddress(b) == (FIRST_FRAME + b) * 4096
    ensures Or(Or(BlockToAddress(b), flags), WRITABLE) == BlockToAddress(b) + Or(flags, WRITABLE)
    ensures Or(flags, WRITABLE) < 4096
    ensures (BlockToAddress(b) + Or(flags, WRITABLE)) / 4096 == FIRST_FRAME + b
    ensures Accessible(flags) ==> (BlockToAddress(b) + Or(flags, WRITABLE)) % 8 == 7
  {
    AddressOfBlock(b);
    if Accessible(flags) {
      WithWritable(flags);
    }
    OrFlagsTwice(BlockToAddress(b), flags, WRITABLE);
    LowThreeBits(FIRST_FRAME + b, Or(flags, WRITABLE));
  }

  lemma LowThreeBits(frame: nat, flags: nat)
    ensures (frame * 4096 + flags) % 8 == flags % 8
  {
    assert frame * 4096 + flags == 8 * (frame * 512) + flags;
  }

  /** A filled directory with its paging map is an identity address space on distinct pages. */
  lemma BuiltSpace(w: seq<u32>, root: u32, d: nat, tables: seq<nat>, m: nat, flags: u32)
    requires IsMemory(w) && flags < 4096 && |tables| == ENTRIES && m < HEAP_BLOCKS && d < HEAP_BLOCKS
    requires NoDuplicates([d] + tables + [m])
    requires TablesBuilt(w, d, tables, flags)
    requires root == BlockToAddress(m) && WordOf(w, m, 0) == BlockToAddress(d)
    ensures SpaceWired(w, root) && InHeap(w, root)
    ensures SpaceBlocks(w, root) == [d] + tables + [m]
    ensures IsIdentity(View(w, Directory(w, root)), flags)
    ensures Accessible(flags) ==> AllOpen(w, Directory(w, root))
  {
    LinkFrame(m, flags);
    LinkFrame(d, flags);
    var dir := Directory(w, root);
    assert dir == BlockToAddress(d);
    forall k: nat | k < ENTRIES
      ensures TableFrame(w, dir, k) == FIRST_FRAME + tables[k] && tables[k] < HEAP_BLOCKS
      ensures Accessible(flags) ==> DirectoryEntry(w, dir, k) % 8 == 7
    {
      BuiltLink(w, dir, d, tables, k, flags);
    }
    BuiltDistinct(w, dir, root, d, tables, m);
    BuiltIdentity(w, dir, d, tables, flags);
    BuiltBlocks(w, dir, root, d, tables, m);
  }

  lemma BuiltLink(w: seq<u32>, dir: u32, d: nat, tables: seq<nat>, k: nat, flags: u32)
    requires IsMemory(w) && flags < 4096 && |tables| == ENTRIES && d < HEAP_BLOCKS && k < ENTRIES
    requires dir == (FIRST_FRAME + d) * 4096 && TablesBuilt(w, d, tables, flags)
    ensures TableFrame(w, dir, k) == FIRST_FRAME + tables[k] && tables[k] < HEAP_BLOCKS
    ensures Accessible(flags) ==> DirectoryEntry(w, dir, k) % 8 == 7
  {
    assert TableBuilt(w, d, tables[k], k, flags);
    LinkFrame(tables[k], flags);
    assert DirectoryEntry(w, dir, k) == WordOf(w, d, k);
  }

  lemma BuiltIdentity(w: seq<u32>, dir: u32, d: nat, tables: seq<nat>, flags: u32)
    requires IsMemory(w) && flags < 4096 && |tables| == ENTRIES && d < HEAP_BLOCKS
    requires dir == (FIRST_FRAME + d) * 4096 && TablesBuilt(w, d, tables, flags)
    ensures IsIdentity(View(w, dir), flags)
  {
    forall v: nat | v < PAGES
      ensures View(w, dir)[v] == Entry(v, flags)
    {
      var k, j := v / 1024, v % 1024;
      BuiltLink(w, dir, d, tables, k, flags);
      assert TableBuilt(w, d, tables[k], k, flags);
      assert EntryIndex(w, dir, v) == (FIRST_FRAME + tables[k]) * 1024 + j;
      assert w[EntryIndex(w, dir, v)] == WordOf(w, tables[k], j);
      assert k * 1024 + j == v;
    }
  }

  lemma BuiltBlocks(w: seq<u32>, dir: u32, root: u32, d: nat, tables: seq<nat>, m: nat)
    requires IsMemory(w) && |tables| == ENTRIES && dir == Directory(w, root) && d < HEAP_BLOCKS && m < HEAP_BLOCKS
    requires dir == (FIRST_FRAME + d) * 4096 && root == (FIRST_FRAME + m) * 4096
    requires forall k: nat :: k < ENTRIES ==>
               TableFrame(w, dir, k) == FIRST_FRAME + tables[k] && tables[k] < HEAP_BLOCKS
    ensures InHeap(w, root) && SpaceBlocks(w, root) == [d] + tables + [m]
  {
    var frames := SpaceFrames(w, root);
    var got := [d] + tables + [m];
    assert frames[0] == FIRST_FRAME + got[0] && frames[1025] == FIRST_FRAME + got[1025];
    forall i: nat | 1 <= i < 1025
      ensures frames[i] == FIRST_FRAME + got[i] < FIRST_FRAME + HEAP_BLOCKS
    {
      assert frames[i] == TableFrame(w, dir, i - 1);
    }
    assert SpaceBlocks(w, root) == got;
  }

  lemma BuiltDistinct(w: seq<u32>, dir: u32, root: u32, d: nat, tables: seq<nat>, m: nat)
    requires IsMemory(w) && |tables| == ENTRIES && dir == Directory(w, root)
    requires NoDuplicates([d] + tables + [m])
    requires dir == (FIRST_FRAME + d) * 4096 && root == (FIRST_FRAME + m) * 4096
    requires forall k: nat :: k < ENTRIES ==> TableFrame(w, dir, k) == FIRST_FRAME + tables[k]
    ensures SpaceWired(w, root)
  {
    var got := [d] + tables + [m];
    forall k: nat | k < ENTRIES
      ensures TableFrame(w, dir, k) != dir / 4096 && TableFrame(w, dir, k) != root / 4096
    {
      assert got[k + 1] == tables[k] && got[0] == d && got[1025] == m;
    }
    forall i: nat, j: nat | i < j < ENTRIES
      ensures TableFrame(w, dir, i) != TableFrame(w, dir, j)
    {
      assert got[i + 1] == tables[i] && got[j + 1] == tables[j];
    }
    assert got[0] != got[1025];
  }

  /** A request that fits is served from inside the heap. */
  lemma FirstFitPlace(t: seq<bv8>, size: u32)
    requires |t| == HEAP_BLOCKS && 0 < size <= 0xFFFF_F000 && HasRun(t, BlocksFor(size))
    ensures BlocksFor(size) >= 1
    ensures ScanResult(t, BlocksFor(size)) == FirstFit(t, BlocksFor(size))
    ensures var s := FirstFit(t, BlocksFor(size));
            && s + BlocksFor(size) <= HEAP_BLOCKS
            && AddressToBlock(BlockToAddress(s)) == s
            && BlockToAddress(s) == HEAP_BASE + s * BLOCK_SIZE
            && BlockToAddress(s) + size <= HEAP_BASE + (s + BlocksFor(size)) * BLOCK_SIZE < TWO_32
  {
    RequestReservesBlocksIff(size);
    AddressOfBlock(FirstFit(t, BlocksFor(size)));
  }

  /** The first i pages of a range are mapped, and v and p are at the next ones. */
  ghost predicate RangeMapped(before: seq<u32>, now: seq<u32>, root: u32, vAddr: u32, pAddr: u32, v: u32, p: u32,
                              i: nat, flags: u32)
    requires flags < 4096
  {
    && RangeAt(vAddr, v, i) && RangeAt(pAddr, p, i)
    && (i == 0 ==> now == before)
    && Mapped(before, now, root, vAddr / 4096, pAddr / 4096, i, flags)
  }

  lemma RangeAligned(start: u32, a: u32, i: nat)
    requires RangeAt(start, a, i)
    ensures start % 4096 == 0 <==> a % 4096 == 0
    ensures start % 4096 != 0 ==> i == 0
  {
  }

  /** One more page of a range is mapped. */
  lemma PageMapped(before: seq<u32>, now: seq<u32>, next: seq<u32>, root: u32, vAddr: u32, pAddr: u32, v: u32, p: u32,
                   i: nat, flags: u32)
    requires flags < 4096 && i < PAGES && SpaceWired(now, root) && vAddr % 4096 == 0 && pAddr % 4096 == 0
    requires RangeMapped(before, now, root, vAddr, pAddr, v, p, i, flags)
    requires next == now[EntryIndex(now, Directory(now, root), v / 4096) := Entry(p / 4096, flags)]
    ensures RangeMapped(before, next, root, vAddr, pAddr, Add32(v, PAGE_SIZE), Add32(p, PAGE_SIZE), i + 1, flags)
  {
    NextPage(vAddr, v, i);
    NextPage(pAddr, p, i);
    MappedStep(before, now, root, vAddr / 4096, pAddr / 4096, i, flags);
  }

  class Machine {
    const entries: array<bv8>
    const words: array<u32>

    ghost predicate Valid()
      reads entries, words
    {
      && entries.Length == HEAP_BLOCKS
      && words.Length == MEMORY_WORDS
      && WellFormed(entries[..])
    }

    /** kheap_init: every entry of the table is free. */
    constructor ()
      ensures Valid() && fresh(entries) && fresh(words)
      ensures Decode(entries[..]) == map[] && forall b :: 0 <= b < HEAP_BLOCKS ==> entries[b] == FREE
    {
      entries := new bv8[HEAP_BLOCKS](_ => FREE);
      words := new u32[MEMORY_WORDS](_ => 0);
      new;
      EmptyTableIsWellFormed(entries[..]);
    }

    // -- heap.c --------------------------------------------------------------------------------

    method GetStartBlock(totalBlocks: nat) returns (r: int)
      ensures Scanned(entries[..], totalBlocks, r) && r == ScanResult(entries[..], totalBlocks)
    {
      var bc, bs := 0, -1;
      var i := 0;
      ghost var t := entries[..];
      while i < entries.Length
        invariant 0 <= i <= entries.Length && t == entries[..]
        invariant bs == -1 ==> bc == 0
        invariant bs == -1 && i > 0 ==> !IsFree(t[i - 1])
        invariant bs != -1 ==> 0 <= bs < i && bc == i - bs && RunAt(t, bs, bc)
        invariant bs > 0 ==> !IsFree(t[bs - 1])
        invariant totalBlocks >= 1 ==> bc < totalBlocks
        invariant forall s :: totalBlocks >= 1 && RunAt(t, s, totalBlocks) ==> i < s + totalBlocks
      {
        assert entries[i] == t[i];
        if !IsFree(entries[i]) {
          bc := 0;
          bs := -1;
          i := i + 1;
          continue;
        }
        if bs == -1 {
          bs := i;
        }
        bc := bc + 1;
        assert bs > 0 ==> !IsFree(t[bs - 1]);
        if bc == totalBlocks {
          assert RunAt(t, bs, totalBlocks);
          ScannedOnce(t, totalBlocks, bs, ScanResult(t, totalBlocks));
          return bs;
        }
        i := i + 1;
      }
      assert !(totalBlocks >= 1 && HasRun(t, totalBlocks));
      r := if bs == -1 then -ENOMEM else bs;
      ScannedOnce(t, totalBlocks, r, ScanResult(t, totalBlocks));
    }

    method MarkBlocksAsTaken(startBlock: nat, totalBlocks: nat)
      requires startBlock + totalBlocks <= entries.Length
      modifies entries
      ensures entries[..] == Take(old(entries[..]), startBlock, totalBlocks)
    {
      var endBlock := startBlock + totalBlocks - 1;
      var entry := TAKEN | FIRST;
      if totalBlocks > 1 {
        entry := entry | EXTENDS;
      }
      var i := startBlock;
      while i <= endBlock
        invariant startBlock <= i <= endBlock + 1
        invariant i <= endBlock ==> entry == Flag(i - startBlock, totalBlocks)
        invariant forall k :: 0 <= k < entries.Length ==>
                    entries[k] == if startBlock <= k < i then Flag(k - startBlock, totalBlocks)
                                  else old(entries[k])
      {
        entries[i] := entry;
        entry := TAKEN;
        if i != endBlock - 1 {
          entry := entry | EXTENDS;
        }
        i := i + 1;
      }
    }

    method MarkBlocksAsFree(startingBlock: nat)
      modifies entries
      ensures entries[..] == Release(old(entries[..]), startingBlock)
      ensures startingBlock < entries.Length ==>
                exists e ::
                  && WalkEnds(old(entries[..]), startingBlock, e)
                  && forall j :: 0 <= j < entries.Length ==>
                       entries[j] == if startingBlock <= j <= e then 0 else old(entries[j])
    {
      ghost var t, e := entries[..], 0;
      if startingBlock < entries.Length {
        e := ReleaseZeroes(t, startingBlock);
      }
      var i := startingBlock;
      while i < entries.Length
        invariant startingBlock <= i
        invariant Release(entries[..], i) == Release(old(entries[..]), startingBlock)
      {
        var entry := entries[i];
        entries[i] := FREE;
        if !Extends(entry) {
          break;
        }
        i := i + 1;
      }
    }

    method HeapAlloc(size: u32) returns (addr: u32)
      requires Valid()
      requires BlocksFor(size) >= 1 ==> HasRun(entries[..], BlocksFor(size))
      modifies entries
      ensures Valid()
      ensures exists r :: Scanned(old(entries[..]), BlocksFor(size), r) && addr == 0x0100_0000 + 4096 * r
      ensures BlocksFor(size) == 0 ==> entries[..] == old(entries[..])
      ensures BlocksFor(size) >= 1 ==>
                entries[..] == Take(old(entries[..]), FirstFit(old(entries[..]), BlocksFor(size)), BlocksFor(size))
    {
      var totalBlocks := AlignSize(size) / BLOCK_SIZE;
      var start := GetStartBlock(totalBlocks);
      addr := BlockToAddress(start % TWO_32);
      ScanAddress(start);
      if totalBlocks > 0 {
        TakeAddsExtent(entries[..], start, totalBlocks);
        MarkBlocksAsTaken(start, totalBlocks);
      }
    }

    method HeapFree(ptr: u32)
      requires Valid()
      modifies entries
      ensures entries[..] == Release(old(entries[..]), AddressToBlock(ptr))
      ensures Valid() <==> old(CanFree(entries[..], AddressToBlock(ptr)))
      ensures old(AddressToBlock(ptr) in Decode(entries[..])) ==>
                Decode(entries[..]) == old(Decode(entries[..])) - {AddressToBlock(ptr)}
    {
      ghost var t := entries[..];
      MarkBlocksAsFree(AddressToBlock(ptr));
      ReleaseKeepsWellFormedIff(t, AddressToBlock(ptr));
      if AddressToBlock(ptr) in Decode(t) {
        ReleaseRemovesExtent(t, AddressToBlock(ptr));
      }
    }

    // -- kheap.c and memory.c ------------------------------------------------------------------

    method Memset(ptr: u32, c: byte, size: nat)
      requires words.Length == MEMORY_WORDS && ptr + size <= TWO_32
      modifies words
      ensures forall a: u32 :: ByteAt(words[..], a) == if ptr <= a < ptr + size then c else old(ByteAt(words[..], a))
      ensures size == 0 ==> words[..] == old(words[..])
    {
      var i := 0;
      while i < size
        invariant 0 <= i <= size
        invariant i == 0 ==> words[..] == old(words[..])
        invariant forall a: u32 :: ByteAt(words[..], a) == if ptr <= a < ptr + i then c else old(ByteAt(words[..], a))
      {
        StoreByte(ptr + i, c);
        i := i + 1;
      }
    }

    /** `*(char*) a`. */
    function LoadByte(a: u32): byte
      requires words.Length == MEMORY_WORDS
      reads words
    {
      ByteOf(words[a / 4], a % 4)
    }

    /** `*(char*) a = b`. */
    method StoreByte(a: u32, b: byte)
      requires words.Length == MEMORY_WORDS
      modifies words
      ensures words[..] == SetByte(old(words[..]), a, b)
      ensures forall x: u32 :: ByteAt(words[..], x) == if x == a then b else old(ByteAt(words[..], x))
    {
      SetByteSetsOne(words[..], a, b);
      words[a / 4] := WithByte(words[a / 4], a % 4, b);
    }

    /**
     A block of zeroed memory. Zeroing stops at the requested size, inside the last block of the
     allocation, so memory outside the new extent is untouched.
     */
    method KZalloc(size: u32) returns (ptr: u32)
      requires Valid() && size <= 0xFFFF_F000 && (size > 0 ==> HasRun(entries[..], BlocksFor(size)))
      modifies entries, words
      ensures Valid()
      ensures size == 0 ==>
                && EmptyAddress(old(entries[..]), ptr)
                && entries[..] == old(entries[..]) && words[..] == old(words[..])
      ensures size > 0 ==>
                && ptr == BlockToAddress(FirstFit(old(entries[..]), BlocksFor(size)))
                && entries[..] == Take(old(entries[..]), FirstFit(old(entries[..]), BlocksFor(size)), BlocksFor(size))
                && SameBytesOutside(old(words[..]), words[..], ptr, ptr + size)
                && (forall a: u32 :: ptr <= a < ptr + size ==> ByteAt(words[..], a) == 0)
    {
      if size > 0 {
        FirstFitPlace(entries[..], size);
      }
      ptr := HeapAlloc(size);
      Memset(ptr, 0, size);
    }

    method KFree(ptr: u32)
      requires Valid()
      modifies entries
      ensures entries[..] == Release(old(entries[..]), AddressToBlock(ptr))
      ensures Valid() <==> old(CanFree(entries[..], AddressToBlock(ptr)))
      ensures old(AddressToBlock(ptr) in Decode(entries[..])) ==>
                Decode(entries[..]) == old(Decode(entries[..])) - {AddressToBlock(ptr)}
    {
      HeapFree(ptr);
    }

    // -- paging.c ------------------------------------------------------------------------------

    method PagingGetIndexes(vAddr: u32) returns (res: int, dIndex: nat, tIndex: nat)
      ensures vAddr % PAGE_SIZE != 0 ==> res == -2 && dIndex == 0 && tIndex == 0
      ensures vAddr % PAGE_SIZE == 0 ==>
                res == 0 && dIndex < ENTRIES && tIndex < ENTRIES && dIndex * 1024 + tIndex == vAddr / 4096
      ensures vAddr % PAGE_SIZE == 0 ==> dIndex == DirectoryIndex(vAddr) && tIndex == TableIndex(vAddr)
    {
      if vAddr % PAGE_SIZE != 0 {
        return -EINVARG, 0, 0;
      }
      SplitAddress(vAddr);
      res := 0;
      dIndex := vAddr / (0x400 * PAGE_SIZE);
      tIndex := vAddr % (0x400 * PAGE_SIZE) / PAGE_SIZE;
    }

    method PagingSet(dir: u32, vAddr: u32, val: u32) returns (res: int)
      requires words.Length == MEMORY_WORDS && dir % 4096 == 0
      modifies words
      ensures vAddr % 4096 != 0 ==> res == -2 && words[..] == old(words[..])
      ensures vAddr % 4096 == 0 ==>
                && res == 0
                && words[..] == old(words[..])[EntryIndex(old(words[..]), dir, vAddr / 4096) := val]
    {
      var dIndex, tIndex;
      res, dIndex, tIndex := PagingGetIndexes(vAddr);
      if res < 0 {
        return;
      }
      PlaceOfIndexes(words[..], dir, vAddr / 4096, dIndex, tIndex);
      var entry := words[dir / 4 + dIndex];
      MaskKeepsFrame(entry);
      var table := And(entry, FRAME_MASK);
      words[table / 4 + tIndex] := val;
    }

    method PagingMap(root: u32, vAddr: u32, pAddr: u32, flags: u32) returns (res: int)
      requires words.Length == MEMORY_WORDS && SpaceWired(words[..], root) && flags < 4096
      modifies words
      ensures vAddr % 4096 != 0 || pAddr % 4096 != 0 ==> res == -2 && words[..] == old(words[..])
      ensures vAddr % 4096 == 0 && pAddr % 4096 == 0 ==>
                && res == 0
                && words[..] == old(words[..])[
                     EntryIndex(old(words[..]), Directory(old(words[..]), root), vAddr / 4096) :=
                       Entry(pAddr / 4096, flags)]
    {
      if vAddr % 4096 != 0 || pAddr % 4096 != 0 {
        return -EINVARG;
      }
      OrFlags(pAddr, flags);
      res := PagingSet(words[root / 4], vAddr, Or(pAddr, flags));
    }

    method PagingMapRange(root: u32, vAddr: u32, pAddr: u32, count: nat, flags: u32) returns (res: int)
      requires words.Length == MEMORY_WORDS && SpaceWired(words[..], root) && flags < 4096 && count <= PAGES
      modifies words
      ensures count > 0 && (vAddr % 4096 != 0 || pAddr % 4096 != 0) ==>
                res == -2 && words[..] == old(words[..])
      ensures count == 0 || (vAddr % 4096 == 0 && pAddr % 4096 == 0) ==> res == 0
      ensures count == 0 ==> words[..] == old(words[..])
      ensures res == 0 ==> Mapped(old(words[..]), words[..], root, vAddr / 4096, pAddr / 4096, count, flags)
    {
      res := 0;
      var v, p := vAddr, pAddr;
      var i := 0;
      ghost var dir := Directory(words[..], root);
      ghost var before := words[..];
      MapViewStart(View(before, dir), vAddr / 4096, pAddr / 4096, flags);
      while i < count
        invariant 0 <= i <= count && res == 0
        invariant RangeMapped(before, words[..], root, vAddr, pAddr, v, p, i, flags)
      {
        res := MapPage(root, v, p, flags, before, vAddr, pAddr, i);
        if res < 0 {
          break;
        }
        v := Add32(v, PAGE_SIZE);
        p := Add32(p, PAGE_SIZE);
        i := i + 1;
      }
    }

    /** paging_map of page i of a range. */
    method MapPage(root: u32, v: u32, p: u32, flags: u32, ghost before: seq<u32>, ghost vAddr: u32, ghost pAddr: u32,
                   ghost i: nat)
      returns (res: int)
      requires words.Length == MEMORY_WORDS && SpaceWired(words[..], root) && flags < 4096 && i < PAGES
      requires RangeMapped(before, words[..], root, vAddr, pAddr, v, p, i, flags)
      modifies words
      ensures vAddr % 4096 != 0 || pAddr % 4096 != 0 ==> res == -2 && words[..] == before && i == 0
      ensures vAddr % 4096 == 0 && pAddr % 4096 == 0 ==>
                && res == 0
                && RangeMapped(before, words[..], root, vAddr, pAddr,
                               Add32(v, PAGE_SIZE), Add32(p, PAGE_SIZE), i + 1, flags)
    {
      ghost var now := words[..];
      RangeAligned(vAddr, v, i);
      RangeAligned(pAddr, p, i);
      res := PagingMap(root, v, p, flags);
      if res == 0 {
        PageMapped(before, now, words[..], root, vAddr, pAddr, v, p, i, flags);
      }
    }

    method PagingMapTo(root: u32, vAddr: u32, pAddr: u32, pAddrEnd: u32, flags: u32) returns (res: int)
      requires words.Length == MEMORY_WORDS && SpaceWired(words[..], root) && flags < 4096
      modifies words
      ensures vAddr % 4096 != 0 || pAddr % 4096 != 0 || pAddrEnd % 4096 != 0 || pAddrEnd < pAddr ==>
                res == -2 && words[..] == old(words[..])
      ensures vAddr % 4096 == 0 && pAddr % 4096 == 0 && pAddrEnd % 4096 == 0 && pAddr <= pAddrEnd ==>
                && res == 0
                && Mapped(old(words[..]), words[..], root, vAddr / 4096, pAddr / 4096, (pAddrEnd - pAddr) / 4096, flags)
      ensures pAddr == pAddrEnd ==> words[..] == old(words[..])
    {
      if vAddr % 4096 != 0 || pAddr % 4096 != 0 || pAddrEnd % 4096 != 0 || pAddrEnd < pAddr {
        return -EINVARG;
      }
      var totalBytes := pAddrEnd - pAddr;
      var totalPages := totalBytes / PAGE_SIZE;
      res := PagingMapRange(root, vAddr, pAddr, totalPages, flags);
    }

    method PagingGet(dir: u32, vAddr: u32) returns (entry: u32)
      requires words.Length == MEMORY_WORDS && dir % 4096 == 0
      ensures entry == Lookup(words[..], dir, vAddr)
    {
      var res, dIndex, tIndex := PagingGetIndexes(vAddr);
      var e := words[dir / 4 + dIndex];
      if And(e, PRESENT) == 0 {
        return 0;
      }
      MaskKeepsFrame(e);
      var table := And(e, FRAME_MASK);
      entry := words[table / 4 + tIndex];
    }

    method PagingGetPhysicalAddress(dir: u32, vAddr: u32) returns (pAddr: u32)
      requires words.Length == MEMORY_WORDS && dir % 4096 == 0
      ensures pAddr == Physical(words[..], dir, vAddr)
    {
      var aligned := vAddr - vAddr % PAGE_SIZE;
      var difference := vAddr - aligned;
      var entry := PagingGet(dir, aligned);
      MaskKeepsFrame(entry);
      pAddr := And(entry, FRAME_MASK) + difference;
    }

    /** The inner loop of _gen_paging_4gb. */
    method FillTable(table: u32, k: nat, flags: u32)
      requires words.Length == MEMORY_WORDS && 0 <= k < ENTRIES && flags < 4096
      requires table % 4096 == 0 && table / 4 + 1024 <= MEMORY_WORDS
      modifies words
      ensures Filled(old(words[..]), words[..], table / 4096, k, flags)
    {
      var offset := k * (0x400 * PAGE_SIZE);
      var j := 0;
      while j < 0x400
        invariant 0 <= j <= 1024
        invariant forall w: nat :: w < MEMORY_WORDS ==>
                    words[w] == if table / 4 <= w < table / 4 + j
                                then Entry(k * 1024 + (w - table / 4), flags) else old(words[w])
      {
        OrFlags(offset + j * PAGE_SIZE, flags);
        words[table / 4 + j] := Or(offset + j * PAGE_SIZE, flags);
        j := j + 1;
      }
    }

    method GenPaging4gb(flags: u32) returns (root: u32)
      requires Valid() && flags < 0x100 && FreeCount(entries[..]) >= 1026
      modifies entries, words
      ensures Valid()
      ensures NewSpace(old(entries[..]), old(words[..]), entries[..], words[..], root, flags)
    {
      ghost var t0, w0 := entries[..], words[..];
      var directory, d := KZallocBlock(0x1000, t0, w0, []);
      ghost var tables: seq<nat> := [];
      assert [] + [d] == [d] + tables;
      var i := 0;
      while i < 0x400
        invariant Valid() && i == |tables| <= ENTRIES
        invariant Building(t0, entries[..], w0, words[..], d, tables, flags)
      {
        ghost var b := AddTable(t0, w0, directory, d, tables, i, flags);
        tables := tables + [b];
        i := i + 1;
      }
      root := AddMap(t0, w0, directory, d, tables, flags);
    }

    /** The paging map is allocated last and points at the directory. */
    method AddMap(ghost t0: seq<bv8>, ghost w0: seq<u32>, directory: u32, ghost d: nat, ghost tables: seq<nat>,
                  flags: u32)
      returns (root: u32)
      requires Valid() && Building(t0, entries[..], w0, words[..], d, tables, flags)
      requires FreeCount(t0) >= 1026 && |tables| == ENTRIES && directory == BlockToAddress(d)
      modifies entries, words
      ensures Valid()
      ensures NewSpace(t0, w0, entries[..], words[..], root, flags)
    {
      ghost var w1 := words[..];
      ghost var m;
      root, m := KZallocBlock(MAP_BYTES, t0, w0, [d] + tables);
      ghost var w2 := words[..];
      AddressOfBlock(m);
      words[root / 4] := directory;
      MapAdded(t0, entries[..], w0, w1, w2, words[..], d, tables, m, root, flags);
    }

    /** One turn of the outer loop of _gen_paging_4gb. */
    method AddTable(ghost t0: seq<bv8>, ghost w0: seq<u32>, directory: u32, ghost d: nat, ghost tables: seq<nat>,
                    i: nat, flags: u32)
      returns (ghost b: nat)
      requires Valid() && Building(t0, entries[..], w0, words[..], d, tables, flags)
      requires FreeCount(t0) >= 1026 && i == |tables| < ENTRIES && directory == BlockToAddress(d)
      modifies entries, words
      ensures Valid() && Building(t0, entries[..], w0, words[..], d, tables + [b], flags)
    {
      ghost var t1, w1 := entries[..], words[..];
      var table;
      table, b := KZallocBlock(0x1000, t0, w0, [d] + tables);
      ghost var w2 := words[..];
      assert ([d] + tables)[0] == d;
      FillAndLink(table, directory, i, flags, b, d);
      BuildingStep(t0, t1, entries[..], w0, w1, w2, words[..], d, tables, b, flags);
    }

    method FillAndLink(table: u32, directory: u32, i: nat, flags: u32, ghost b: nat, ghost d: nat)
      requires words.Length == MEMORY_WORDS && i < ENTRIES && flags < 0x100 && b < HEAP_BLOCKS && d < HEAP_BLOCKS
      requires table == BlockToAddress(b) && directory == BlockToAddress(d) && b != d
      modifies words
      ensures FilledAndLinked(old(words[..]), words[..], d, b, i, flags)
    {
      LinkFrame(b, flags);
      EntryWord(d, i);
      ghost var before := words[..];
      FillTable(table, i, flags);
      LinkAfterFill(before, words[..], d, b, i, flags);
      words[directory / 4 + i] := Or(Or(table, flags), WRITABLE);
    }

    /** kzalloc of a page at most, as seen by a caller that has collected the blocks in got since t0. */
    method KZallocBlock(size: u32, ghost t0: seq<bv8>, ghost w0: seq<u32>, ghost got: seq<nat>)
      returns (ptr: u32, ghost b: nat)
      requires Valid() && Grown(t0, entries[..], got) && FreeCount(entries[..]) >= 1 && 0 < size <= 0x1000
      requires OnlyBlocksChanged(w0, words[..], BlockSet(got))
      modifies entries, words
      ensures Valid() && Grown(t0, entries[..], got + [b])
      ensures b < HEAP_BLOCKS && b !in got && ptr == BlockToAddress(b)
      ensures OnlyBlocksChanged(old(words[..]), words[..], {b as int})
      ensures OnlyBlocksChanged(w0, words[..], BlockSet(got + [b]))
    {
      ghost var t, w := entries[..], words[..];
      OneBlockRequest(size);
      GrowByOne(t0, t, got);
      b := FirstFit(t, 1);
      ptr := KZalloc(size);
      OneBlockWritten(w, words[..], b, ptr, size);
      OneBlockMore(w0, w, words[..], got, b);
    }

    method PagingFree4gb(root: u32)
      requires Valid() && SpaceWired(words[..], root) && InHeap(words[..], root)
      requires forall b :: b in SpaceBlocks(words[..], root) ==> b in Decode(entries[..])
      modifies entries
      ensures Valid()
      ensures Decode(entries[..]) == Without(old(Decode(entries[..])), SpaceBlocks(words[..], root))
    {
      ghost var ext, w := Decode(entries[..]), words[..];
      ghost var freed := FreeOrder(SpaceBlocks(w, root));
      SpaceBlocksDistinct(w, root);
      FreeOrderCovers(SpaceBlocks(w, root), ext);
      FreeTables(root, ext, freed);
      RootBlocks(w, root);
      FreeNext(words[root / 4], ext, freed, |freed| - 2);
      FreeNext(root, ext, freed, |freed| - 1);
      assert freed[..|freed| - 1 + 1] == freed;
    }

    /** The loop of paging_free_4gb. */
    method FreeTables(root: u32, ghost ext: map<nat, nat>, ghost freed: seq<nat>)
      requires Valid() && SpaceWired(words[..], root) && InHeap(words[..], root)
      requires freed == FreeOrder(SpaceBlocks(words[..], root))
      requires NoDuplicates(freed) && (forall b :: b in freed ==> b in ext) && Decode(entries[..]) == ext
      modifies entries
      ensures Valid() && Decode(entries[..]) == Without(ext, freed[..|freed| - 2])
    {
      var i := 0;
      ghost var n := |freed| - 2;
      while i < 0x400
        invariant 0 <= i <= 0x400 == n && Valid()
        invariant Decode(entries[..]) == Without(ext, freed[..i])
      {
        var entry := words[words[root / 4] / 4 + i];
        TableBlock(words[..], root, i);
        FreeNext(And(entry, FRAME_MASK), ext, freed, i);
        i := i + 1;
      }
    }

    /** kfree of the next block of a list that is being given back in order. */
    method FreeNext(ptr: u32, ghost ext: map<nat, nat>, ghost freed: seq<nat>, ghost i: nat)
      requires Valid() && i < |freed| && Decode(entries[..]) == Without(ext, freed[..i])
      requires NoDuplicates(freed) && AddressToBlock(ptr) == freed[i] && freed[i] in ext
      modifies entries
      ensures Valid() && Decode(entries[..]) == Without(ext, freed[..i + 1])
    {
      OneLess(ext, freed, i);
      KFree(ptr);
    }
  }
}
