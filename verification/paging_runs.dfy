/** A paging structure's whole life: built, changed any number of times, and freed. */
module PagingRuns {
  import opened Words
  import opened Memory
  import opened HeapTable
  import opened Paging
  import opened Steps
  import opened LoadProcess
  import M = Machine

  datatype Update = Update(v: nat, val: u32)

  ghost predicate InPages(updates: seq<Update>) {
    forall k :: 0 <= k < |updates| ==> updates[k].v < PAGES
  }

  /** Successive calls of paging_set on one directory. */
  ghost function RunSets(words: seq<u32>, dir: u32, updates: seq<Update>): (after: seq<u32>)
    requires IsMemory(words) && dir % 4096 == 0 && InPages(updates)
    ensures IsMemory(after)
    decreases |updates|
  {
    if updates == [] then words
    else
      var u := updates[|updates| - 1];
      var before := RunSets(words, dir, updates[..|updates| - 1]);
      before[EntryIndex(before, dir, u.v) := u.val]
  }

  /** The same updates on the flat map. */
  function RunUpdates(view: seq<u32>, updates: seq<Update>): (after: seq<u32>)
    requires |view| == PAGES && forall k :: 0 <= k < |updates| ==> updates[k].v < PAGES
    ensures |after| == PAGES
    decreases |updates|
  {
    if updates == [] then view
    else
      var u := updates[|updates| - 1];
      RunUpdates(view, updates[..|updates| - 1])[u.v := u.val]
  }

  /** Any run of paging_set is the run of map updates, and never touches the directory. */
  lemma {:induction false} SetsAreUpdates(words: seq<u32>, root: u32, updates: seq<Update>)
    requires SpaceWired(words, root) && InPages(updates)
    ensures var dir := Directory(words, root);
            var after := RunSets(words, dir, updates);
            && SameSpace(words, after, root)
            && OnlyTablesChanged(words, after, dir)
            && View(after, dir) == RunUpdates(View(words, dir), updates)
    decreases |updates|
  {
    var dir := Directory(words, root);
    if updates == [] {
    } else {
      var first := updates[..|updates| - 1];
      var u := updates[|updates| - 1];
      SetsAreUpdates(words, root, first);
      var before := RunSets(words, dir, first);
      SetInSpace(before, root, u.v, u.val);
      OnlyTablesChangedTrans(words, before, RunSets(words, dir, updates), dir);
    }
  }

  lemma OnesUndone(ext: map<nat, nat>, blocks: seq<nat>)
    requires forall b :: b in blocks ==> b !in ext
    ensures M.Without(M.WithOnes(ext, blocks), blocks) == ext
  {
  }

  /** Updates leave the space on the blocks it was built on. */
  lemma UpdatesKeepBlocks(w1: seq<u32>, root: u32, updates: seq<Update>)
    requires SpaceWired(w1, root) && M.InHeap(w1, root) && InPages(updates)
    ensures var w2 := RunSets(w1, Directory(w1, root), updates);
            && SpaceWired(w2, root) && M.InHeap(w2, root)
            && M.SpaceBlocks(w2, root) == M.SpaceBlocks(w1, root)
            && M.OnlyBlocksChanged(w1, w2, SpaceSet(w1, root))
  {
    var w2 := RunSets(w1, Directory(w1, root), updates);
    SetsAreUpdates(w1, root, updates);
    SameDirectorySameSpace(w1, w2, root);
    TablesInSpace(w1, w2, root);
  }

  /**
   Freeing a space after any updates gives back exactly the 1026 blocks its creation took, so the
   heap table is byte for byte what it was, and all that was written lies on blocks that are free.
   */
  lemma CreateUpdateFreeRestores(t0: seq<bv8>, w0: seq<u32>, t1: seq<bv8>, w1: seq<u32>, root: u32, flags: u32,
                                 updates: seq<Update>, t2: seq<bv8>)
    requires flags < 4096 && M.NewSpace(t0, w0, t1, w1, root, flags) && InPages(updates)
    requires |t2| == |t1| && WellFormed(t2) && Decode(t2) == M.Without(Decode(t1), M.SpaceBlocks(w1, root))
    ensures t2 == t0
    ensures M.OnlyBlocksChanged(w0, RunSets(w1, Directory(w1, root), updates), FreeBlocks(t0))
  {
    var blocks := M.SpaceBlocks(w1, root);
    OnesUndone(Decode(t0), blocks);
    SameExtentsSameTable(t2, t0);
    UpdatesKeepBlocks(w1, root, updates);
    SpaceExtents(t0, t1, w1, root);
    assert forall x :: x in M.BlockSet(blocks) ==> x in SpaceSet(w1, root);
  }

  lemma SpaceIsLive(t0: seq<bv8>, w0: seq<u32>, t1: seq<bv8>, w1: seq<u32>, root: u32, flags: u32)
    requires flags < 4096 && M.NewSpace(t0, w0, t1, w1, root, flags)
    ensures forall b :: b in M.SpaceBlocks(w1, root) ==> b in Decode(t1)
  {
  }

  lemma RunsOneMore(words: seq<u32>, dir: u32, updates: seq<Update>, k: nat)
    requires IsMemory(words) && dir % 4096 == 0 && InPages(updates) && k < |updates|
    ensures InPages(updates[..k]) && InPages(updates[..k + 1])
    ensures var now := RunSets(words, dir, updates[..k]);
            RunSets(words, dir, updates[..k + 1]) == now[EntryIndex(now, dir, updates[k].v) := updates[k].val]
  {
    assert updates[..k + 1][..k] == updates[..k];
  }

  method SetPage(machine: M.Machine, dir: u32, u: Update)
    requires machine.words.Length == MEMORY_WORDS && dir % 4096 == 0 && u.v < PAGES
    modifies machine.words
    ensures machine.words[..] == old(machine.words[..])[EntryIndex(old(machine.words[..]), dir, u.v) := u.val]
  {
    PageAddressIs(u.v);
    var res := machine.PagingSet(dir, PageAddress(u.v), u.val);
  }

  lemma PageAddressIs(v: nat)
    requires v < PAGES
    ensures PageAddress(v) % 4096 == 0 && PageAddress(v) / 4096 == v
  {
  }

  /** The calls of paging_set. */
  method SetPages(machine: M.Machine, dir: u32, updates: seq<Update>)
    requires machine.words.Length == MEMORY_WORDS && dir % 4096 == 0 && InPages(updates)
    modifies machine.words
    ensures machine.words[..] == RunSets(old(machine.words[..]), dir, updates)
  {
    ghost var w := machine.words[..];
    var k := 0;
    while k < |updates|
      invariant 0 <= k <= |updates| && machine.words[..] == RunSets(w, dir, updates[..k])
    {
      RunsOneMore(w, dir, updates, k);
      SetPage(machine, dir, updates[k]);
      k := k + 1;
    }
    assert updates[..k] == updates;
  }

  /** _gen_paging_4gb, any number of calls of paging_set, and paging_free_4gb. */
  method UseSpace(machine: M.Machine, flags: u32, updates: seq<Update>)
    requires machine.Valid() && flags < 0x100 && FreeCount(machine.entries[..]) >= 1026 && InPages(updates)
    modifies machine.entries, machine.words
    ensures machine.Valid() && machine.entries[..] == old(machine.entries[..])
    ensures M.OnlyBlocksChanged(old(machine.words[..]), machine.words[..], FreeBlocks(old(machine.entries[..])))
  {
    ghost var t0, w0 := machine.entries[..], machine.words[..];
    var root := machine.GenPaging4gb(flags);
    ghost var t1, w1 := machine.entries[..], machine.words[..];
    SpaceIsLive(t0, w0, t1, w1, root, flags);
    UpdatesKeepBlocks(w1, root, updates);
    SetPages(machine, machine.words[root / 4], updates);
    machine.PagingFree4gb(root);
    CreateUpdateFreeRestores(t0, w0, t1, w1, root, flags, updates, machine.entries[..]);
  }
}
