/**
 A link stored just before windows are mapped: it is still there afterwards, unless it went into the
 entry of a page that one of the windows covers.
 */
module StoredLinks {
  import opened Words
  import opened Memory
  import opened Paging
  import opened Windows
  import opened Steps

  // -- Stores off the tables -----------------------------------------------------------------------

  /** Word x is no entry of the directory or of a table, and does not hold the directory's address. */
  ghost predicate OffEntries(w: seq<u32>, root: u32, x: nat)
    requires SpaceWired(w, root)
  {
    && x < MEMORY_WORDS && x != root / 4 && x / 1024 != Directory(w, root) / 4096
    && forall k: nat :: k < ENTRIES ==> TableFrame(w, Directory(w, root), k) != x / 1024
  }

  lemma WordOffEntries(w: seq<u32>, root: u32, x: nat, val: u32)
    requires SpaceWired(w, root) && OffEntries(w, root, x)
    ensures SameSpace(w, w[x := val], root) && OffEntries(w[x := val], root, x)
    ensures View(w[x := val], Directory(w, root)) == View(w, Directory(w, root))
  {
    var w', dir := w[x := val], Directory(w, root);
    forall i: nat | i < ENTRIES
      ensures DirectoryEntry(w', dir, i) == DirectoryEntry(w, dir, i)
    {
      assert (dir / 4 + i) / 1024 == dir / 4096;
    }
    SameDirectorySameSpace(w, w', root);
    SameDirectoryFacts(w, w', dir);
    forall v: nat | v < PAGES
      ensures View(w', dir)[v] == View(w, dir)[v]
    {
      assert EntryIndex(w, dir, v) / 1024 == TableFrame(w, dir, v / 1024);
    }
  }

  lemma SameSpaceJoin(w0: seq<u32>, w1: seq<u32>, w2: seq<u32>, root: u32)
    requires SameSpace(w0, w1, root) && SameSpace(w1, w2, root)
    ensures SameSpace(w0, w2, root)
  {
    SameDirectoryTrans(w0, w1, w2, Directory(w0, root));
  }

  /** Off the tables the store and the mapping do not meet. */
  lemma StoreBeside(w: seq<u32>, w2: seq<u32>, root: u32, ws: seq<Window>, x: nat, val: u32)
    requires SpaceWired(w, root) && OffEntries(w, root, x) && MappedWindows(w[x := val], w2, root, ws)
    ensures w2[x] == val && MappedWindows(w, w2[x := w[x]], root, ws)
  {
    var wl, dir := w[x := val], Directory(w, root);
    WordOffEntries(w, root, x, val);
    SameSpaceJoin(w, wl, w2, root);
    SameDirectoryFacts(w, w2, dir);
    NotWritten(wl, w2, root, x);
    WordOffEntries(w2, root, x, w[x]);
    SameSpaceJoin(w, w2, w2[x := w[x]], root);
    TablesOnly(w, wl, w2, dir, x);
  }

  lemma NotWritten(wl: seq<u32>, w2: seq<u32>, root: u32, x: nat)
    requires SpaceWired(wl, root) && OffEntries(wl, root, x) && OnlyTablesChanged(wl, w2, Directory(wl, root))
    ensures w2[x] == wl[x]
  {
  }

  lemma TablesOnly(w: seq<u32>, wl: seq<u32>, w2: seq<u32>, dir: u32, x: nat)
    requires IsMemory(w) && IsMemory(wl) && IsMemory(w2) && dir % 4096 == 0
    requires x < MEMORY_WORDS && wl == w[x := wl[x]]
    requires SameDirectory(w, wl, dir) && OnlyTablesChanged(wl, w2, dir) && SameDirectory(w, w2[x := w[x]], dir)
    ensures OnlyTablesChanged(w, w2[x := w[x]], dir)
  {
    SameDirectoryFacts(w, wl, dir);
    forall i: nat | i < MEMORY_WORDS && w2[x := w[x]][i] != w[i]
      ensures exists k: nat :: k < ENTRIES && TableFrame(w, dir, k) == i / 1024
    {
      assert w2[i] != wl[i];
      var k: nat :| k < ENTRIES && TableFrame(wl, dir, k) == i / 1024;
      assert TableFrame(w, dir, k) == i / 1024;
    }
  }

  // -- Stores into a table -------------------------------------------------------------------------

  /** A window covers the page: the link is overwritten, and nothing of it is left. */
  lemma StoreCovered(w: seq<u32>, w2: seq<u32>, root: u32, ws: seq<Window>, v: nat, val: u32)
    requires SpaceWired(w, root) && v < PAGES && !Untouched(ws, v)
    requires MappedWindows(w[EntryIndex(w, Directory(w, root), v) := val], w2, root, ws)
    ensures MappedWindows(w, w2, root, ws)
  {
    var dir := Directory(w, root);
    SetInSpace(w, root, v, val);
    EntryThrough(View(w, dir), ws, v, val);
    SameSpaceJoin(w, w[EntryIndex(w, dir, v) := val], w2, root);
    OnlyTablesChangedTrans(w, w[EntryIndex(w, dir, v) := val], w2, dir);
  }

  /** No window covers the page: the link stays the page's entry. */
  lemma StoreUncovered(w: seq<u32>, w2: seq<u32>, root: u32, ws: seq<Window>, v: nat, val: u32)
    requires SpaceWired(w, root) && v < PAGES && Untouched(ws, v)
    requires MappedWindows(w[EntryIndex(w, Directory(w, root), v) := val], w2, root, ws)
    ensures var x := EntryIndex(w, Directory(w, root), v); w2[x] == val && MappedWindows(w, w2[x := w[x]], root, ws)
  {
    var dir := Directory(w, root);
    var x := EntryIndex(w, dir, v);
    var wl, view := w[x := val], View(w, dir);
    SetInSpace(w, root, v, val);
    EntryThrough(view, ws, v, val);
    EntryThrough(view, ws, v, view[v]);
    assert view[v := view[v]] == view;
    SameSpaceJoin(w, wl, w2, root);
    SameDirectoryFacts(w, w2, dir);
    assert EntryIndex(w2, dir, v) == x;
    SetInSpace(w2, root, v, w[x]);
    SameSpaceJoin(w, w2, w2[x := w[x]], root);
    TablesOnly(w, wl, w2, dir, x);
  }
}
