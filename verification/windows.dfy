/**
 What a process's flat page map is meant to be: a list of windows, each sending a range of virtual
 pages to a range of physical pages with given flags, over an identity map that nobody can write.
 */
module Windows {
  import opened Words
  import opened Memory
  import opened Paging

  const READ_ONLY: u32 := 5
  const READ_WRITE: u32 := 7

  datatype Window = Window(v: nat, p: nat, count: nat, flags: u32)

  ghost predicate Inside(w: Window, v: int) {
    w.v <= v < w.v + w.count
  }

  ghost predicate Sound(w: Window) {
    w.v + w.count <= PAGES && w.p + w.count <= PAGES && (w.flags == READ_ONLY || w.flags == READ_WRITE)
  }

  ghost predicate Separate(a: Window, b: Window) {
    a.count == 0 || b.count == 0 || a.v + a.count <= b.v || b.v + b.count <= a.v
  }

  ghost predicate Layout(ws: seq<Window>) {
    && (forall i :: 0 <= i < |ws| ==> Sound(ws[i]))
    && (forall i, j :: 0 <= i < j < |ws| ==> Separate(ws[i], ws[j]))
  }

  ghost predicate Untouched(ws: seq<Window>, v: int) {
    forall i :: 0 <= i < |ws| ==> !Inside(ws[i], v)
  }

  /** The view sends every window where it should go and leaves all other pages identity-mapped. */
  ghost predicate Shows(view: seq<u32>, ws: seq<Window>)
    requires Layout(ws)
  {
    && |view| == PAGES
    && (forall i, v :: 0 <= i < |ws| && Inside(ws[i], v) ==> view[v] == Entry(ws[i].p + (v - ws[i].v), ws[i].flags))
    && (forall v :: 0 <= v < PAGES && Untouched(ws, v) ==> view[v] == Entry(v, READ_ONLY) || view[v] == Entry(v, 0))
  }

  // -- User-writable pages ---------------------------------------------------------------------

  /** The processor lets user code write through an entry with all three bits set. */
  predicate UserWritable(entry: u32) {
    And(entry, PRESENT) != 0 && And(entry, WRITABLE) != 0 && And(entry, ACCESS_ALL) != 0
  }

  lemma UserWritableIff(entry: u32)
    ensures UserWritable(entry) <==> entry % 8 == 7
  {
    LowBits(entry);
    assert entry % 8 == entry % 2 + 2 * (entry / 2 % 2) + 4 * (entry / 4 % 2);
  }

  lemma UserWritableFlags(page: nat, flags: u32)
    requires page < PAGES && flags < 8
    ensures UserWritable(Entry(page, flags)) <==> flags == 7
    ensures Entry(page, flags) / 4096 == page
  {
    EntryFrame(page, flags);
    EntryFlags(page, flags);
    UserWritableIff(Entry(page, flags));
  }

  /** User code can write virtual page v: the directory entry and the table entry both let it. */
  ghost predicate PageWritable(words: seq<u32>, dir: u32, v: nat)
    requires IsMemory(words) && dir % 4096 == 0 && v < PAGES
  {
    UserWritable(DirectoryEntry(words, dir, v / 1024)) && UserWritable(View(words, dir)[v])
  }

  /** Physical page f can be written by user code under these tables. */
  ghost predicate WritablePage(words: seq<u32>, dir: u32, f: int)
    requires IsMemory(words) && dir % 4096 == 0
  {
    exists v: nat :: v < PAGES && PageWritable(words, dir, v) && View(words, dir)[v] / 4096 == f
  }

  ghost predicate Backs(w: Window, f: int) {
    w.flags == READ_WRITE && w.p <= f < w.p + w.count
  }

  /** With an open directory, exactly the physical pages behind writable windows are user-writable. */
  lemma WritableExactly(words: seq<u32>, dir: u32, ws: seq<Window>, f: int)
    requires IsMemory(words) && dir % 4096 == 0 && AllOpen(words, dir)
    requires Layout(ws) && Shows(View(words, dir), ws)
    ensures WritablePage(words, dir, f) <==> exists i :: 0 <= i < |ws| && Backs(ws[i], f)
  {
    if i :| 0 <= i < |ws| && Backs(ws[i], f) {
      BackedIsWritable(words, dir, ws, i, f);
    }
    if WritablePage(words, dir, f) {
      var v: nat :| v < PAGES && PageWritable(words, dir, v) && View(words, dir)[v] / 4096 == f;
      WritableEntryBacked(View(words, dir), ws, v);
    }
  }

  lemma BackedIsWritable(words: seq<u32>, dir: u32, ws: seq<Window>, i: nat, f: int)
    requires IsMemory(words) && dir % 4096 == 0 && AllOpen(words, dir)
    requires Layout(ws) && Shows(View(words, dir), ws) && i < |ws| && Backs(ws[i], f)
    ensures WritablePage(words, dir, f)
  {
    var v := ws[i].v + (f - ws[i].p);
    BackedEntry(View(words, dir), ws, i, f);
    UserWritableIff(DirectoryEntry(words, dir, v / 1024));
    assert PageWritable(words, dir, v);
  }

  /** The entry of the page through which a writable window reaches f. */
  lemma BackedEntry(view: seq<u32>, ws: seq<Window>, i: nat, f: int)
    requires Layout(ws) && Shows(view, ws) && i < |ws| && Backs(ws[i], f)
    ensures var v := ws[i].v + (f - ws[i].p);
            0 <= v < PAGES && UserWritable(view[v]) && view[v] / 4096 == f
  {
    assert Sound(ws[i]);
    assert Inside(ws[i], ws[i].v + (f - ws[i].p));
    UserWritableFlags(f, READ_WRITE);
  }

  lemma WritableEntryBacked(view: seq<u32>, ws: seq<Window>, v: nat)
    requires Layout(ws) && Shows(view, ws) && v < PAGES && UserWritable(view[v])
    ensures exists i :: 0 <= i < |ws| && Backs(ws[i], view[v] / 4096)
  {
    IdentityNotWritable(v);
    assert !Untouched(ws, v);
    var i :| 0 <= i < |ws| && Inside(ws[i], v);
    assert Sound(ws[i]);
    WritableInWindow(ws[i], v, view[v]);
  }

  lemma IdentityNotWritable(v: nat)
    requires v < PAGES
    ensures !UserWritable(Entry(v, READ_ONLY)) && !UserWritable(Entry(v, 0))
  {
    UserWritableFlags(v, READ_ONLY);
    UserWritableFlags(v, 0);
  }

  lemma WritableInWindow(w: Window, v: nat, entry: u32)
    requires Sound(w) && Inside(w, v) && entry == Entry(w.p + (v - w.v), w.flags) && UserWritable(entry)
    ensures Backs(w, entry / 4096)
  {
    UserWritableFlags(w.p + (v - w.v), w.flags);
  }

  // -- Opening and closing windows -------------------------------------------------------------

  lemma DistanceAhead(v: nat, x: nat)
    requires v < PAGES && x < PAGES
    ensures Distance(v, x) == if v <= x then x - v else x - v + PAGES
  {
  }

  /** Mapping a range that does not wrap changes the pages of the range and no other. */
  lemma MapViewRange(view: seq<u32>, v: nat, p: nat, count: nat, flags: u32)
    requires |view| == PAGES && v < PAGES && p < PAGES && flags < 4096
    requires v + count <= PAGES && p + count <= PAGES
    ensures forall x :: 0 <= x < PAGES ==>
              MapView(view, v, p, count, flags)[x]
              == if v <= x < v + count then Entry(p + (x - v), flags) else view[x]
  {
    forall x | 0 <= x < PAGES
      ensures MapView(view, v, p, count, flags)[x]
           == if v <= x < v + count then Entry(p + (x - v), flags) else view[x]
    {
      DistanceAhead(v, x);
    }
  }

  /** A window that paging_map_to can be asked for. */
  ghost predicate CanMap(w: Window) {
    Sound(w) && w.v < PAGES && w.p < PAGES
  }

  /** The view after windows have been mapped one after the other. */
  ghost function ViewThrough(view: seq<u32>, ws: seq<Window>): (r: seq<u32>)
    requires |view| == PAGES && forall i :: 0 <= i < |ws| ==> CanMap(ws[i])
    ensures |r| == PAGES
  {
    if ws == [] then view
    else
      var w := ws[|ws| - 1];
      assert CanMap(w);
      MapView(ViewThrough(view, ws[..|ws| - 1]), w.v, w.p, w.count, w.flags)
  }

  lemma MapViewUpdated(view: seq<u32>, w: Window, v: nat, y: u32)
    requires |view| == PAGES && CanMap(w) && v < PAGES
    ensures MapView(view[v := y], w.v, w.p, w.count, w.flags)
         == if Inside(w, v) then MapView(view, w.v, w.p, w.count, w.flags)
            else MapView(view, w.v, w.p, w.count, w.flags)[v := y]
  {
    MapViewRange(view, w.v, w.p, w.count, w.flags);
    MapViewRange(view[v := y], w.v, w.p, w.count, w.flags);
  }

  lemma UntouchedByAll(ws: seq<Window>, v: int)
    requires ws != []
    ensures Untouched(ws, v) <==> Untouched(ws[..|ws| - 1], v) && !Inside(ws[|ws| - 1], v)
  {
    forall i | 0 <= i < |ws| - 1
      ensures Inside(ws[i], v) <==> Inside(ws[..|ws| - 1][i], v)
    {
    }
    if Untouched(ws[..|ws| - 1], v) && !Inside(ws[|ws| - 1], v) {
      forall i | 0 <= i < |ws|
        ensures !Inside(ws[i], v)
      {
        assert i < |ws| - 1 ==> !Inside(ws[..|ws| - 1][i], v);
      }
    }
  }

  /** A page's entry from before is still there after the mapping exactly when no window covers the page. */
  lemma {:induction false} EntryThrough(view: seq<u32>, ws: seq<Window>, v: nat, y: u32)
    requires |view| == PAGES && v < PAGES && forall i :: 0 <= i < |ws| ==> CanMap(ws[i])
    ensures ViewThrough(view[v := y], ws)
         == if Untouched(ws, v) then ViewThrough(view, ws)[v := y] else ViewThrough(view, ws)
  {
    if ws != [] {
      var rest, w := ws[..|ws| - 1], ws[|ws| - 1];
      EntryThrough(view, rest, v, y);
      MapViewUpdated(ViewThrough(view, rest), w, v, y);
      UntouchedByAll(ws, v);
    }
  }

  /** Windows that lie apart come out as they are meant, and all other pages stay as they were. */
  lemma {:induction false} ThroughShows(view: seq<u32>, ws: seq<Window>, v: nat)
    requires |view| == PAGES && Layout(ws) && v < PAGES && forall i :: 0 <= i < |ws| ==> CanMap(ws[i])
    ensures forall i :: 0 <= i < |ws| && Inside(ws[i], v) ==>
              ws[i].p + (v - ws[i].v) < PAGES && ws[i].flags < 4096
              && ViewThrough(view, ws)[v] == Entry(ws[i].p + (v - ws[i].v), ws[i].flags)
    ensures Untouched(ws, v) ==> ViewThrough(view, ws)[v] == view[v]
  {
    if ws != [] {
      var rest, w := ws[..|ws| - 1], ws[|ws| - 1];
      ThroughShows(view, rest, v);
      UntouchedByAll(ws, v);
      assert CanMap(w);
      MapViewRange(ViewThrough(view, rest), w.v, w.p, w.count, w.flags);
      forall i | 0 <= i < |ws| && Inside(ws[i], v)
        ensures ws[i].p + (v - ws[i].v) < PAGES && ws[i].flags < 4096
        ensures ViewThrough(view, ws)[v] == Entry(ws[i].p + (v - ws[i].v), ws[i].flags)
      {
        assert Sound(ws[i]);
        if i < |rest| {
          assert rest[i] == ws[i] && Separate(ws[i], w);
        }
      }
    }
  }

  /** w is w0 after these windows have been mapped, in order, in the space rooted at root. */
  ghost predicate MappedWindows(w0: seq<u32>, w: seq<u32>, root: u32, ws: seq<Window>) {
    && SameSpace(w0, w, root) && OnlyTablesChanged(w0, w, Directory(w0, root))
    && (forall i :: 0 <= i < |ws| ==> CanMap(ws[i]))
    && View(w, Directory(w, root)) == ViewThrough(View(w0, Directory(w0, root)), ws)
  }

  lemma MappedNone(w: seq<u32>, root: u32)
    requires SpaceWired(w, root)
    ensures MappedWindows(w, w, root, [])
  {
  }

  /** One window more. */
  lemma MappedNext(w0: seq<u32>, w: seq<u32>, w': seq<u32>, root: u32, ws: seq<Window>, x: Window)
    requires MappedWindows(w0, w, root, ws) && CanMap(x)
    requires Mapped(w, w', root, x.v, x.p, x.count, x.flags)
    ensures MappedWindows(w0, w', root, ws + [x])
  {
    assert (ws + [x])[..|ws|] == ws;
    SameDirectoryTrans(w0, w, w', Directory(w0, root));
    OnlyTablesChangedTrans(w0, w, w', Directory(w0, root));
  }

  lemma SameDirectoryTrans(w0: seq<u32>, w: seq<u32>, w': seq<u32>, dir: u32)
    requires dir % 4096 == 0 && SameDirectory(w0, w, dir) && SameDirectory(w, w', dir)
    ensures SameDirectory(w0, w', dir)
  {
    forall i: nat | i < ENTRIES
      ensures DirectoryEntry(w', dir, i) == DirectoryEntry(w0, dir, i)
    {
      assert DirectoryEntry(w, dir, i) == DirectoryEntry(w0, dir, i);
    }
  }

  /** Mapping a new window in an unused slot, away from the others. */
  lemma OpenWindow(view: seq<u32>, ws: seq<Window>, i: nat, w: Window)
    requires Layout(ws) && Shows(view, ws) && i < |ws| && ws[i].count == 0
    requires Sound(w) && w.v < PAGES && w.p < PAGES
    requires forall j :: 0 <= j < |ws| && j != i ==> Separate(ws[j], w)
    ensures Layout(ws[i := w])
    ensures Shows(MapView(view, w.v, w.p, w.count, w.flags), ws[i := w])
    ensures forall v :: 0 <= v < PAGES && Untouched(ws[i := w], v) ==>
              Untouched(ws, v) && MapView(view, w.v, w.p, w.count, w.flags)[v] == view[v]
  {
    var ws' := ws[i := w];
    var view' := MapView(view, w.v, w.p, w.count, w.flags);
    MapViewRange(view, w.v, w.p, w.count, w.flags);
    forall j, v | 0 <= j < |ws'| && Inside(ws'[j], v)
      ensures 0 <= v < PAGES && view'[v] == Entry(ws'[j].p + (v - ws'[j].v), ws'[j].flags)
    {
      assert Sound(ws'[j]);
      if j != i {
        assert Inside(ws[j], v) && Separate(ws[j], w);
      }
    }
    forall v | 0 <= v < PAGES && Untouched(ws', v)
      ensures view'[v] == Entry(v, READ_ONLY) || view'[v] == Entry(v, 0)
      ensures Untouched(ws, v) && view'[v] == view[v]
    {
      assert !Inside(ws'[i], v);
      forall j | 0 <= j < |ws|
        ensures !Inside(ws[j], v)
      {
        assert j != i ==> ws'[j] == ws[j];
      }
      assert Untouched(ws, v);
    }
  }

  /** Unmapping an identity window. */
  lemma CloseWindow(view: seq<u32>, ws: seq<Window>, i: nat, empty: Window)
    requires Layout(ws) && Shows(view, ws) && i < |ws| && ws[i].v == ws[i].p < PAGES
    requires empty.count == 0 && Sound(empty)
    ensures Layout(ws[i := empty])
    ensures Shows(MapView(view, ws[i].v, ws[i].v, ws[i].count, 0), ws[i := empty])
  {
    var w := ws[i];
    var ws' := ws[i := empty];
    var view' := MapView(view, w.v, w.v, w.count, 0);
    assert Sound(w);
    MapViewRange(view, w.v, w.v, w.count, 0);
    forall j, v | 0 <= j < |ws'| && Inside(ws'[j], v)
      ensures 0 <= v < PAGES && view'[v] == Entry(ws'[j].p + (v - ws'[j].v), ws'[j].flags)
    {
      assert Sound(ws'[j]);
      assert j != i && Inside(ws[j], v);
      assert Separate(ws[if i < j then i else j], ws[if i < j then j else i]);
    }
    forall v | 0 <= v < PAGES && Untouched(ws', v)
      ensures view'[v] == Entry(v, READ_ONLY) || view'[v] == Entry(v, 0)
    {
      if !Inside(w, v) {
        forall j | 0 <= j < |ws|
          ensures !Inside(ws[j], v)
        {
          assert j != i ==> ws'[j] == ws[j];
        }
        assert Untouched(ws, v);
      }
    }
  }
}
