/**
 What a store through a link of the task list does to the pages user code can write: it never opens
 one, it closes exactly those whose entries it overwrites, and isolation outlives it exactly when
 every page a process owns can still be reached some other way.
 */
module ClosedPages {
  import opened Words
  import opened Memory
  import opened HeapTable
  import opened Paging
  import opened Windows
  import opened AddressSpace
  import opened Steps
  import opened TaskLinks
  import opened Isolation
  import M = Machine

  /** Through virtual page v, user code of process j writes physical page f. */
  ghost predicate WritesThrough(s: System, j: int, v: nat, f: int) {
    && IsMemory(s.words) && Alive(s, j) && v < PAGES
    && Directory(s.words, s.processes[j].value.root) % 4096 == 0
    && ThroughEntry(s.words, Directory(s.words, s.processes[j].value.root), v, f)
  }

  ghost predicate ThroughEntry(words: seq<u32>, dir: u32, v: nat, f: int)
    requires IsMemory(words) && dir % 4096 == 0 && v < PAGES
  {
    PageWritable(words, dir, v) && View(words, dir)[v] / 4096 == f
  }

  /** Word NEXT of block b is page v's entry in its table, or its table's entry in the directory. */
  ghost predicate Closes(s: System, b: nat, j: int, v: nat) {
    || (Holds(s, j, Tables(0), b) && v / 1024 == NEXT)
    || (Holds(s, j, Tables(v / 1024 + 1), b) && v % 1024 == NEXT)
  }

  /** Closes, for the blocks of one space. */
  ghost predicate ClosesIn(w: seq<u32>, root: u32, b: nat, v: nat)
    requires M.InHeap(w, root) && v < PAGES
  {
    || (M.SpaceBlocks(w, root)[0] == b && v / 1024 == NEXT)
    || (M.SpaceBlocks(w, root)[v / 1024 + 1] == b && v % 1024 == NEXT)
  }

  // -- One space ---------------------------------------------------------------------------------

  /** Where the space keeps its directory and its page map, nothing changes. */
  lemma SameEntries(w: seq<u32>, w': seq<u32>, root: u32, v: nat, f: int)
    requires SameSpace(w, w', root) && v < PAGES
    requires View(w', Directory(w', root))[v] == View(w, Directory(w, root))[v]
    ensures ThroughEntry(w', Directory(w', root), v, f) <==> ThroughEntry(w, Directory(w, root), v, f)
  {
    var dir := Directory(w, root);
    assert DirectoryEntry(w', dir, v / 1024) == DirectoryEntry(w, dir, v / 1024);
  }

  lemma LinkIsClosed(val: u32)
    requires val % 4096 == 0
    ensures !UserWritable(val)
  {
    UserWritableIff(val);
    assert val == 8 * (val / 4096 * 512);
  }

  /** A link in table k closes page k * 1024 + NEXT and no other. */
  lemma StoredEntry(w: seq<u32>, root: u32, k: nat, b: nat, val: u32, v: nat, f: int)
    requires SpaceWired(w, root) && M.InHeap(w, root) && k < ENTRIES && b < HEAP_BLOCKS && v < PAGES
    requires M.SpaceBlocks(w, root)[k + 1] == b && val % 4096 == 0
    ensures var w' := WithNext(w, b, val);
            && Directory(w', root) == Directory(w, root)
            && (ThroughEntry(w', Directory(w, root), v, f) <==>
                  ThroughEntry(w, Directory(w, root), v, f) && v != k * 1024 + NEXT)
  {
    var w' := WithNext(w, b, val);
    StoredInTable(w, root, k, b, val);
    LinkIsClosed(val);
    if v != k * 1024 + NEXT {
      SameEntries(w, w', root, v, f);
    }
  }

  /** A link in the directory closes the pages of table NEXT and no others. */
  lemma StoredTable(w: seq<u32>, root: u32, b: nat, val: u32, v: nat, f: int)
    requires SpaceWired(w, root) && M.InHeap(w, root) && b < HEAP_BLOCKS && v < PAGES
    requires M.SpaceBlocks(w, root)[0] == b && val % 4096 == 0
    ensures var w' := WithNext(w, b, val);
            && Directory(w', root) == Directory(w, root)
            && (ThroughEntry(w', Directory(w, root), v, f) <==>
                  ThroughEntry(w, Directory(w, root), v, f) && v / 1024 != NEXT)
  {
    StoredInDirectory(w, root, b, val);
    DirectoryWords(w, root, b, val, v);
    LinkIsClosed(val);
  }

  lemma DirectoryWords(w: seq<u32>, root: u32, b: nat, val: u32, v: nat)
    requires SpaceWired(w, root) && M.InHeap(w, root) && b < HEAP_BLOCKS && v < PAGES
    requires M.SpaceBlocks(w, root)[0] == b
    ensures var w', dir := WithNext(w, b, val), Directory(w, root);
            && DirectoryEntry(w', dir, NEXT) == val
            && (v / 1024 != NEXT ==>
                  && DirectoryEntry(w', dir, v / 1024) == DirectoryEntry(w, dir, v / 1024)
                  && View(w', dir)[v] == View(w, dir)[v])
  {
    var w', dir := WithNext(w, b, val), Directory(w, root);
    assert SpaceFrames(w, root)[0] == dir / 4096 == M.FIRST_FRAME + b;
    assert dir / 4 + NEXT == (M.FIRST_FRAME + b) * 1024 + NEXT;
    if v / 1024 != NEXT {
      assert TableFrame(w', dir, v / 1024) == TableFrame(w, dir, v / 1024) != dir / 4096;
      assert EntryIndex(w, dir, v) / 1024 == TableFrame(w, dir, v / 1024);
    }
  }

  /** A store to any heap block closes exactly the pages whose entries it overwrites. */
  lemma StoredInSpace(w: seq<u32>, root: u32, b: nat, val: u32, v: nat, f: int)
    requires SpaceWired(w, root) && M.InHeap(w, root) && b < HEAP_BLOCKS && v < PAGES && val % 4096 == 0
    ensures var w' := WithNext(w, b, val);
            && Directory(w', root) == Directory(w, root)
            && (ThroughEntry(w', Directory(w, root), v, f) <==>
                  ThroughEntry(w, Directory(w, root), v, f) && !ClosesIn(w, root, b, v))
  {
    var w', blocks := WithNext(w, b, val), M.SpaceBlocks(w, root);
    M.SpaceBlocksDistinct(w, root);
    if b !in blocks {
      StoredBlock(w, b, val);
      SpaceKept(w, w', root, {b as int});
      SameEntries(w, w', root, v, f);
    } else {
      var k: nat :| k < 1026 && blocks[k] == b;
      if k == 0 {
        StoredTable(w, root, b, val, v, f);
      } else if k == 1025 {
        StoredInMap(w, root, b, val);
        SameEntries(w, w', root, v, f);
      } else {
        StoredEntry(w, root, k - 1, b, val, v, f);
      }
    }
  }

  // -- The whole system --------------------------------------------------------------------------

  ghost function WithLink(s: System, b: nat, val: u32): System
    requires IsMemory(s.words) && b < HEAP_BLOCKS
  {
    s.(words := WithNext(s.words, b, val))
  }

  /** After the store, user code writes through exactly the pages it wrote through that are not closed by it. */
  lemma StoreClosesExactly(s: System, b: nat, val: u32, j: int, v: nat, f: int)
    requires Inv(s) && b < HEAP_BLOCKS && val % 4096 == 0
    ensures WritesThrough(WithLink(s, b, val), j, v, f) <==> WritesThrough(s, j, v, f) && !Closes(s, b, j, v)
  {
    if Alive(s, j) && v < PAGES {
      var p := s.processes[j].value;
      assert ProcessOK(s.table, s.words, p);
      StoredInSpace(s.words, p.root, b, val, v, f);
      assert Holds(s, j, Tables(0), b) <==> M.SpaceBlocks(s.words, p.root)[0] == b;
      assert Holds(s, j, Tables(v / 1024 + 1), b) <==> M.SpaceBlocks(s.words, p.root)[v / 1024 + 1] == b;
    }
  }

  lemma WriteIsThroughPage(s: System, j: int, f: int)
    ensures CanWrite(s, j, f) <==> exists v: nat :: WritesThrough(s, j, v, f)
  {
    if CanWrite(s, j, f) {
      var dir := Directory(s.words, s.processes[j].value.root);
      var v: nat :| v < PAGES && PageWritable(s.words, dir, v) && View(s.words, dir)[v] / 4096 == f;
      assert WritesThrough(s, j, v, f);
    }
  }

  /** Process j still writes f through some page after a store to block b. */
  ghost predicate StaysOpen(s: System, b: nat, j: int, f: int) {
    exists v: nat :: WritesThrough(s, j, v, f) && !Closes(s, b, j, v)
  }

  lemma WritesAfterStore(s: System, b: nat, val: u32, j: int, f: int)
    requires Inv(s) && b < HEAP_BLOCKS && val % 4096 == 0
    ensures CanWrite(WithLink(s, b, val), j, f) <==> StaysOpen(s, b, j, f)
    ensures StaysOpen(s, b, j, f) ==> CanWrite(s, j, f)
  {
    var s' := WithLink(s, b, val);
    WriteIsThroughPage(s', j, f);
    WriteIsThroughPage(s, j, f);
    forall v: nat
      ensures WritesThrough(s', j, v, f) <==> WritesThrough(s, j, v, f) && !Closes(s, b, j, v)
    {
      StoreClosesExactly(s, b, val, j, v, f);
    }
  }

  /** Wherever the store lands, no page becomes writable in two processes. */
  lemma StoreKeepsOneWriter(s: System, b: nat, val: u32, i: int, j: int, f: int)
    requires Inv(s) && b < HEAP_BLOCKS && val % 4096 == 0
    requires CanWrite(WithLink(s, b, val), i, f) && CanWrite(WithLink(s, b, val), j, f)
    ensures i == j
  {
    WritesAfterStore(s, b, val, i, f);
    WritesAfterStore(s, b, val, j, f);
    NoPageWritableTwice(s, i, j, f);
  }

  /** The pages user code can write stay exactly the owned ones if and only if none of them loses its last way in. */
  lemma StoreKeepsIsolationIff(s: System, b: nat, val: u32)
    requires Inv(s) && b < HEAP_BLOCKS && val % 4096 == 0
    ensures (forall j, f :: CanWrite(WithLink(s, b, val), j, f) <==> OwnsPage(s, j, f))
            <==> (forall j, f :: OwnsPage(s, j, f) ==> StaysOpen(s, b, j, f))
  {
    forall j, f
      ensures CanWrite(WithLink(s, b, val), j, f) <==> StaysOpen(s, b, j, f)
      ensures StaysOpen(s, b, j, f) ==> OwnsPage(s, j, f)
    {
      WritesAfterStore(s, b, val, j, f);
      if Alive(s, j) {
        WritableIsExactlyOwned(s, j, f);
      }
    }
  }

  /**
   Isolation asks for less than the invariant: a link over the entry of a page in no window breaks
   the invariant unless it is the page's own address, but closes nothing a process owns.
   */
  lemma UntouchedEntryIsolates(s: System, b: nat, val: u32, j: int, k: nat)
    requires Inv(s) && b < HEAP_BLOCKS && val % 4096 == 0 && Alive(s, j) && k < ENTRIES
    requires Holds(s, j, Tables(k + 1), b) && Untouched(ProcessWindows(s.processes[j].value), k * 1024 + NEXT)
    requires val != PageAddress(k * 1024 + NEXT)
    ensures !Inv(WithLink(s, b, val))
    ensures forall i, f :: CanWrite(WithLink(s, b, val), i, f) <==> OwnsPage(s, i, f)
  {
    TableBreaksInv(s, b, val, j, k);
    forall i, f | OwnsPage(s, i, f)
      ensures StaysOpen(s, b, i, f)
    {
      WritableIsExactlyOwned(s, i, f);
      WriteIsThroughPage(s, i, f);
      var v: nat :| WritesThrough(s, i, v, f);
      if Closes(s, b, i, v) {
        ClosedIsThatEntry(s, b, j, k, i, v);
        UntouchedNotWritable(s, j, v, f);
      }
    }
    StoreKeepsIsolationIff(s, b, val);
  }

  lemma TableBreaksInv(s: System, b: nat, val: u32, j: int, k: nat)
    requires Inv(s) && b < HEAP_BLOCKS && val % 4096 == 0 && Alive(s, j) && k < ENTRIES
    requires Holds(s, j, Tables(k + 1), b) && val != PageAddress(k * 1024 + NEXT)
    ensures !Inv(WithLink(s, b, val))
  {
    assert ProcessOK(s.table, s.words, s.processes[j].value);
    StoreKeepsProcessIff(s.table, s.words, s.processes[j].value, b, val);
    assert M.SpaceBlocks(s.words, s.processes[j].value.root)[k + 1] == b;
    var s' := WithLink(s, b, val);
    assert Alive(s', j) && !ProcessOK(s'.table, s'.words, s'.processes[j].value);
  }

  /** One block is one table of one process. */
  lemma ClosedIsThatEntry(s: System, b: nat, j: int, k: nat, i: int, v: nat)
    requires Inv(s) && Holds(s, j, Tables(k + 1), b) && Closes(s, b, i, v)
    ensures i == j && v == k * 1024 + NEXT
  {
    if Holds(s, i, Tables(0), b) {
      OneClaimPerExtent(s, i, Tables(0), j, Tables(k + 1), b);
    } else {
      OneClaimPerExtent(s, i, Tables(v / 1024 + 1), j, Tables(k + 1), b);
    }
  }

  lemma UntouchedNotWritable(s: System, j: int, v: nat, f: int)
    requires Inv(s) && Alive(s, j) && v < PAGES && Untouched(ProcessWindows(s.processes[j].value), v)
    ensures !WritesThrough(s, j, v, f)
  {
    assert ProcessOK(s.table, s.words, s.processes[j].value);
    IdentityNotWritable(v);
  }
}
