/** pparser.c: a path turned into a linked list in heap blocks, and the destructor that undoes it. */
module PathParser {
  import opened Words
  import opened CStrings
  import opened Memory
  import opened HeapTable
  import opened Paths
  import opened Steps
  import M = Machine

  const RECORD_BYTES: u32 := 8

  // -- The list as it lies in memory -------------------------------------------------------------

  /** A struct path_part: the block of the record, the block of its text, and the text. */
  datatype Part = Part(text: nat, self: nat, name: seq<byte>)

  ghost predicate Placed(p: Part) {
    p.text < HEAP_BLOCKS && p.self < HEAP_BLOCKS && |p.name| < MAX_PATH
  }

  /** Byte j of heap block b. */
  ghost function BlockByte(words: seq<u32>, b: nat, j: nat): byte
    requires IsMemory(words) && b < HEAP_BLOCKS && j < 4096
  {
    ByteAt(words, (M.FIRST_FRAME + b) * 4096 + j)
  }

  /** The text lies NUL-terminated at the start of block b. */
  ghost predicate TextAt(words: seq<u32>, b: nat, name: seq<byte>) {
    && IsMemory(words) && b < HEAP_BLOCKS && |name| < MAX_PATH
    && (forall j: nat :: j < |name| ==> BlockByte(words, b, j) == name[j])
    && BlockByte(words, b, |name|) == NUL
  }

  /** Address of node k of the list, NULL past its end. */
  ghost function NodeAddress(parts: seq<Part>, k: nat): u32 {
    if k < |parts| then BlockToAddress(parts[k].self) else 0
  }

  ghost predicate NodeAt(words: seq<u32>, p: Part, next: u32) {
    && Placed(p) && TextAt(words, p.text, p.name)
    && M.WordOf(words, p.self, 0) == BlockToAddress(p.text)
    && M.WordOf(words, p.self, 1) == next
  }

  ghost predicate Node(words: seq<u32>, parts: seq<Part>, k: nat)
    requires k < |parts|
  {
    NodeAt(words, parts[k], NodeAddress(parts, k + 1))
  }

  ghost predicate ListAt(words: seq<u32>, parts: seq<Part>) {
    forall k :: 0 <= k < |parts| ==> Node(words, parts, k)
  }

  /** struct path_root in block r, and the list it starts. */
  ghost predicate RootAt(words: seq<u32>, r: nat, drive: nat, parts: seq<Part>) {
    && IsMemory(words) && r < HEAP_BLOCKS
    && M.WordOf(words, r, 0) == drive
    && M.WordOf(words, r, 1) == NodeAddress(parts, 0)
    && ListAt(words, parts)
  }

  /** The blocks of a list in the order the parser takes them and the destructor gives them back. */
  ghost function PartBlocks(parts: seq<Part>): (blocks: seq<nat>)
    ensures |blocks| == 2 * |parts|
  {
    seq(2 * |parts|, i requires 0 <= i < 2 * |parts| => if i % 2 == 0 then parts[i / 2].text else parts[i / 2].self)
  }

  ghost function Names(parts: seq<Part>): (names: seq<seq<byte>>)
    ensures |names| == |parts|
  {
    seq(|parts|, k requires 0 <= k < |parts| => parts[k].name)
  }

  lemma OneMorePart(parts: seq<Part>, p: Part)
    ensures PartBlocks(parts + [p]) == PartBlocks(parts) + [p.text, p.self]
    ensures Names(parts + [p]) == Names(parts) + [p.name]
  {
  }

  // -- Allocation --------------------------------------------------------------------------------

  /** kzalloc of a record or buffer that fits one block, by a caller that has collected got since t0. */
  method Allocate(machine: M.Machine, size: u32, ghost t0: seq<bv8>, ghost got: seq<nat>)
    returns (ptr: u32, ghost b: nat)
    requires machine.Valid() && 0 < size <= 4096
    requires M.Grown(t0, machine.entries[..], got) && FreeCount(machine.entries[..]) >= 1
    modifies machine.entries, machine.words
    ensures machine.Valid() && M.Grown(t0, machine.entries[..], got + [b])
    ensures b < HEAP_BLOCKS && b !in got && ptr == BlockToAddress(b)
    ensures RunAt(old(machine.entries[..]), b, 1) && machine.entries[..] == Take(old(machine.entries[..]), b, 1)
    ensures M.OnlyBlocksChanged(old(machine.words[..]), machine.words[..], {b as int})
    ensures forall j: nat :: j < size ==> BlockByte(machine.words[..], b, j) == 0
  {
    ghost var t, w := machine.entries[..], machine.words[..];
    M.GrowByOne(t0, t, got);
    OneBlock(size);
    b := FirstFit(t, 1);
    AddressOfBlock(b);
    ptr := machine.KZalloc(size);
    ZeroedBlocks(w, machine.words[..], b, size);
    assert BlockRange(b, 1) == {b as int};
  }

  lemma OneBlock(size: u32)
    requires 0 < size <= 4096
    ensures BlocksFor(size) == 1
  {
  }

  /** Changes to one block leave every other block's words and bytes. */
  lemma OtherBlock(before: seq<u32>, after: seq<u32>, b: nat, c: nat)
    requires M.OnlyBlocksChanged(before, after, {b as int}) && c != b && c < HEAP_BLOCKS
    ensures forall j: nat :: j < 1024 ==> M.WordOf(after, c, j) == M.WordOf(before, c, j)
    ensures forall j: nat :: j < 4096 ==> BlockByte(after, c, j) == BlockByte(before, c, j)
  {
    M.SameBlock(before, after, b, c);
    forall j: nat | j < 4096
      ensures BlockByte(after, c, j) == BlockByte(before, c, j)
    {
      var a := (M.FIRST_FRAME + c) * 4096 + j;
      assert a / 4 == (M.FIRST_FRAME + c) * 1024 + j / 4;
      assert M.WordOf(after, c, j / 4) == M.WordOf(before, c, j / 4);
    }
  }

  lemma NodeKept(before: seq<u32>, after: seq<u32>, b: nat, p: Part, next: u32)
    requires M.OnlyBlocksChanged(before, after, {b as int}) && NodeAt(before, p, next) && b != p.text && b != p.self
    ensures NodeAt(after, p, next)
  {
    OtherBlock(before, after, b, p.text);
    OtherBlock(before, after, b, p.self);
  }

  lemma ListKept(before: seq<u32>, after: seq<u32>, b: nat, parts: seq<Part>)
    requires M.OnlyBlocksChanged(before, after, {b as int}) && ListAt(before, parts) && b !in PartBlocks(parts)
    ensures ListAt(after, parts)
  {
    forall k | 0 <= k < |parts|
      ensures Node(after, parts, k)
    {
      assert Node(before, parts, k);
      assert PartBlocks(parts)[2 * k] == parts[k].text && PartBlocks(parts)[2 * k + 1] == parts[k].self;
      NodeKept(before, after, b, parts[k], NodeAddress(parts, k + 1));
    }
  }

  // -- pparser_get_path_part ---------------------------------------------------------------------

  /** The character at i, NUL at the end of the string. */
  function Char(path: seq<byte>, i: nat): byte
    requires i <= |path|
  {
    if i < |path| then path[i] else NUL
  }

  /** The first i characters of text written to the zeroed buffer in block b. */
  ghost predicate Filling(before: seq<u32>, now: seq<u32>, b: nat, text: seq<byte>, i: nat) {
    && M.OnlyBlocksChanged(before, now, {b as int}) && b < HEAP_BLOCKS && i <= |text| && i < MAX_PATH
    && (forall j: nat :: j < i ==> BlockByte(now, b, j) == text[j])
    && (forall j: nat :: i <= j < MAX_PATH ==> BlockByte(now, b, j) == NUL)
  }

  lemma FillOne(before: seq<u32>, now: seq<u32>, next: seq<u32>, b: nat, text: seq<byte>, i: nat)
    requires Filling(before, now, b, text, i) && i < |text| && i + 1 < MAX_PATH && IsMemory(next)
    requires forall x: u32 :: ByteAt(next, x) == if x == (M.FIRST_FRAME + b) * 4096 + i then text[i] else ByteAt(now, x)
    ensures Filling(before, next, b, text, i + 1)
  {
    ByteInBlock(now, next, b, i);
    forall j: nat | j < MAX_PATH
      ensures BlockByte(next, b, j) == if j == i then text[i] else BlockByte(now, b, j)
    {
    }
  }

  lemma ByteInBlock(now: seq<u32>, next: seq<u32>, b: nat, i: nat)
    requires IsMemory(now) && IsMemory(next) && b < HEAP_BLOCKS && i < 4096
    requires forall x: u32 :: x != (M.FIRST_FRAME + b) * 4096 + i ==> ByteAt(next, x) == ByteAt(now, x)
    ensures M.OnlyBlocksChanged(now, next, {b as int})
  {
    var a := (M.FIRST_FRAME + b) * 4096;
    forall w: nat | w < MEMORY_WORDS && w / 1024 - M.FIRST_FRAME != b
      ensures next[w] == now[w]
    {
      SameWordsOutside(now, next, a, a + 4096, w);
    }
  }

  /** What the call left: a new text block, or nothing when the part is empty. */
  ghost predicate PartTaken(t: seq<bv8>, t': seq<bv8>, w: seq<u32>, w': seq<u32>, ptr: u32, b: nat, name: seq<byte>) {
    && b < HEAP_BLOCKS && RunAt(t, b, 1) && M.OnlyBlocksChanged(w, w', {b as int})
    && if name == [] then ptr == 0 && t' == t
       else ptr == BlockToAddress(b) && t' == Take(t, b, 1) && TextAt(w', b, name)
  }

  method GetPathPart(machine: M.Machine, path: seq<byte>, pos: nat, ghost t0: seq<bv8>, ghost got: seq<nat>)
    returns (ptr: u32, pos': nat, ghost b: nat)
    requires machine.Valid() && NUL !in path && 0 < pos <= |path| <= MAX_PATH
    requires M.Grown(t0, machine.entries[..], got) && FreeCount(machine.entries[..]) >= 1
    modifies machine.entries, machine.words
    ensures machine.Valid() && b !in got
    ensures var n := PartLength(path[pos..]);
            && pos' == pos + PastSlash(path[pos..], n)
            && PartTaken(old(machine.entries[..]), machine.entries[..], old(machine.words[..]), machine.words[..],
                         ptr, b, path[pos..][..n])
            && M.Grown(t0, machine.entries[..], if n == 0 then got else got + [b])
  {
    ghost var t, w := machine.entries[..], machine.words[..];
    ghost var rest := path[pos..];
    ghost var n := PartLength(rest);
    ptr, b := Allocate(machine, MAX_PATH, t0, got);
    var ctr := CopyPart(machine, path, pos, ptr, w, b);
    pos' := pos + ctr;
    if Char(path, pos') == SLASH {
      pos' := pos' + 1;
    }
    if ctr == 0 {
      TakeThenReleaseRestores(t, b, 1);
      TakeAddsExtent(t, b, 1);
      AddressOfBlock(b);
      machine.KFree(ptr);
      ptr := 0;
    }
  }

  /** The loop over the characters of the part. */
  method CopyPart(machine: M.Machine, path: seq<byte>, pos: nat, ptr: u32, ghost w: seq<u32>, ghost b: nat)
    returns (ctr: nat)
    requires machine.words.Length == MEMORY_WORDS && NUL !in path && 0 < pos <= |path| <= MAX_PATH
    requires b < HEAP_BLOCKS && ptr == BlockToAddress(b) && Filling(w, machine.words[..], b, path[pos..], 0)
    modifies machine.words
    ensures ctr == PartLength(path[pos..])
    ensures M.OnlyBlocksChanged(w, machine.words[..], {b as int}) && TextAt(machine.words[..], b, path[pos..][..ctr])
  {
    ghost var rest := path[pos..];
    AddressOfBlock(b);
    ctr := 0;
    while Char(path, pos + ctr) != SLASH && Char(path, pos + ctr) != NUL
      invariant ctr <= PartLength(rest) && Filling(w, machine.words[..], b, rest, ctr)
      decreases |rest| - ctr
    {
      StillInPart(rest, ctr);
      ghost var now := machine.words[..];
      machine.StoreByte(ptr + ctr, Char(path, pos + ctr));
      FillOne(w, now, machine.words[..], b, rest, ctr);
      ctr := ctr + 1;
    }
    PartEnds(path, pos, ctr);
  }

  lemma StillInPart(s: seq<byte>, i: nat)
    requires i <= PartLength(s) && i < |s| && s[i] != SLASH
    ensures i < PartLength(s)
  {
  }

  lemma PartEnds(path: seq<byte>, pos: nat, i: nat)
    requires NUL !in path && pos <= |path| && i <= PartLength(path[pos..])
    requires Char(path, pos + i) == SLASH || Char(path, pos + i) == NUL
    ensures i == PartLength(path[pos..])
  {
    var rest := path[pos..];
    var n := PartLength(rest);
    forall j | 0 <= j < n
      ensures rest[j] != SLASH && rest[j] != NUL
    {
      assert rest[j] == rest[..n][j] && path[pos + j] in path;
    }
  }

  // -- pparser_parse_path_part -------------------------------------------------------------------

  lemma WordStore(w: seq<u32>, b: nat, j: nat, val: u32)
    requires IsMemory(w) && b < HEAP_BLOCKS && j < 1024
    ensures BlockToAddress(b) / 4 + j == (M.FIRST_FRAME + b) * 1024 + j < MEMORY_WORDS
    ensures M.OnlyBlocksChanged(w, w[BlockToAddress(b) / 4 + j := val], {b as int})
    ensures forall k: nat :: k < 1024 ==>
              M.WordOf(w[BlockToAddress(b) / 4 + j := val], b, k) == if k == j then val else M.WordOf(w, b, k)
  {
    AddressOfBlock(b);
    var a := (M.FIRST_FRAME + b) * 1024;
    assert BlockToAddress(b) / 4 == a;
    var w' := w[a + j := val];
    forall k: nat | k < 1024
      ensures M.WordOf(w', b, k) == if k == j then val else M.WordOf(w, b, k)
    {
      assert M.WordOf(w', b, k) == w'[a + k];
    }
  }

  lemma ChangesAgain(w0: seq<u32>, w1: seq<u32>, w2: seq<u32>, b: nat)
    requires M.OnlyBlocksChanged(w0, w1, {b as int}) && M.OnlyBlocksChanged(w1, w2, {b as int})
    ensures M.OnlyBlocksChanged(w0, w2, {b as int})
  {
  }

  /** kzalloc of a struct path_part whose text is in block b; next is NULL. */
  method NewNode(machine: M.Machine, text: u32, ghost t0: seq<bv8>, ghost got: seq<nat>)
    returns (ptr: u32, ghost c: nat)
    requires machine.Valid() && M.Grown(t0, machine.entries[..], got) && FreeCount(machine.entries[..]) >= 1
    modifies machine.entries, machine.words
    ensures machine.Valid() && M.Grown(t0, machine.entries[..], got + [c])
    ensures c < HEAP_BLOCKS && c !in got && ptr == BlockToAddress(c) && ptr != 0
    ensures RunAt(old(machine.entries[..]), c, 1)
    ensures M.OnlyBlocksChanged(old(machine.words[..]), machine.words[..], {c as int})
    ensures M.WordOf(machine.words[..], c, 0) == text && M.WordOf(machine.words[..], c, 1) == 0
  {
    ghost var w := machine.words[..];
    ptr, c := Allocate(machine, RECORD_BYTES, t0, got);
    ghost var w1 := machine.words[..];
    WordStore(w1, c, 0, text);
    machine.words[ptr / 4] := text;
    ghost var w2 := machine.words[..];
    WordStore(w2, c, 1, 0);
    machine.words[ptr / 4 + 1] := 0;
    ChangesAgain(w, w1, w2, c);
    ChangesAgain(w, w2, machine.words[..], c);
    AddressOfBlock(c);
  }

  lemma BlocksOf(parts: seq<Part>, k: nat)
    requires k < |parts|
    ensures parts[k].text in PartBlocks(parts) && parts[k].self in PartBlocks(parts)
    ensures PartBlocks(parts)[2 * k] == parts[k].text && PartBlocks(parts)[2 * k + 1] == parts[k].self
  {
    assert PartBlocks(parts)[2 * k] == parts[k].text;
    assert PartBlocks(parts)[2 * k + 1] == parts[k].self;
  }

  /** Writing the last node's next links the new node. */
  lemma LinkLast(w: seq<u32>, w': seq<u32>, parts: seq<Part>, p: Part)
    requires ListAt(w, parts) && NodeAt(w, p, 0) && parts != [] && M.NoDuplicates(PartBlocks(parts + [p]))
    requires var last := parts[|parts| - 1];
             && last.self < HEAP_BLOCKS && w' == w[BlockToAddress(last.self) / 4 + 1 := BlockToAddress(p.self)]
             && BlockToAddress(last.self) / 4 + 1 < MEMORY_WORDS
    ensures ListAt(w', parts + [p])
  {
    var longer, n := parts + [p], |parts| - 1;
    var blocks, last := PartBlocks(longer), parts[n];
    WordStore(w, last.self, 1, BlockToAddress(p.self));
    BlocksOf(longer, n);
    forall k | 0 <= k < |longer|
      ensures Node(w', longer, k)
    {
      BlocksOf(longer, k);
      assert k <= n ==> Node(w, parts, k);
      OtherBlock(w, w', last.self, longer[k].text);
      if k != n {
        NodeKept(w, w', last.self, longer[k], NodeAddress(longer, k + 1));
      }
    }
  }

  lemma FirstNode(w: seq<u32>, p: Part)
    requires NodeAt(w, p, 0)
    ensures ListAt(w, [p])
  {
    assert Node(w, [p], 0);
  }

  /** The list, and the root record when there is one, live in blocks taken since t0; nothing else changed. */
  ghost predicate Kept(t0: seq<bv8>, t: seq<bv8>, w0: seq<u32>, w: seq<u32>, r: nat, parts: seq<Part>) {
    && M.Grown(t0, t, [r] + PartBlocks(parts))
    && M.OnlyBlocksChanged(w0, w, FreeBlocks(t0))
    && ListAt(w, parts)
  }

  lemma TakenWasFree(t0: seq<bv8>, t: seq<bv8>, got: seq<nat>, c: nat)
    requires M.Grown(t0, t, got) && c < HEAP_BLOCKS && IsFree(t[c])
    ensures c in FreeBlocks(t0)
  {
    WellFormedRepresents(t0);
    WellFormedRepresents(t);
    FreeMeansUncovered(t, Decode(t), c);
    FreeMeansUncovered(t0, Decode(t0), c);
    if Covered(Decode(t0), c) {
      var a: nat :| Covers(Decode(t0), a, c);
      assert Covers(Decode(t), a, c);
    }
  }

  lemma StillOnlyFree(t0: seq<bv8>, w0: seq<u32>, w: seq<u32>, w': seq<u32>, c: nat)
    requires M.OnlyBlocksChanged(w0, w, FreeBlocks(t0)) && c in FreeBlocks(t0)
    requires M.OnlyBlocksChanged(w, w', {c as int})
    ensures M.OnlyBlocksChanged(w0, w', FreeBlocks(t0))
  {
  }

  ghost predicate SameRoot(w: seq<u32>, w': seq<u32>, r: nat) {
    && IsMemory(w) && IsMemory(w') && r < HEAP_BLOCKS
    && M.WordOf(w', r, 0) == M.WordOf(w, r, 0) && M.WordOf(w', r, 1) == M.WordOf(w, r, 1)
  }

  /** Writing one block that belongs neither to the list nor to the root. */
  lemma BlockWritten(t0: seq<bv8>, w0: seq<u32>, w: seq<u32>, w': seq<u32>, r: nat, parts: seq<Part>, c: nat)
    requires M.OnlyBlocksChanged(w0, w, FreeBlocks(t0)) && ListAt(w, parts) && r < HEAP_BLOCKS
    requires M.OnlyBlocksChanged(w, w', {c as int}) && c in FreeBlocks(t0) && c !in [r] + PartBlocks(parts)
    ensures M.OnlyBlocksChanged(w0, w', FreeBlocks(t0)) && ListAt(w', parts) && SameRoot(w, w', r)
  {
    StillOnlyFree(t0, w0, w, w', c);
    assert forall x :: x in PartBlocks(parts) ==> x in [r] + PartBlocks(parts);
    ListKept(w, w', c, parts);
    assert ([r] + PartBlocks(parts))[0] == r;
    OtherBlock(w, w', c, r);
  }

  /** Address of the last node, NULL when there is none. */
  ghost function LastAddress(parts: seq<Part>): u32 {
    if parts == [] then 0 else BlockToAddress(parts[|parts| - 1].self)
  }

  /** What a call of the part parser left behind. */
  ghost predicate PartParsed(t0: seq<bv8>, w0: seq<u32>, t: seq<bv8>, w: seq<u32>, t': seq<bv8>, w': seq<u32>,
                             r: nat, parts: seq<Part>, name: seq<byte>, ptr: u32, p: Part) {
    && SameRoot(w, w', r)
    && if name == [] then ptr == 0 && t' == t && Kept(t0, t', w0, w', r, parts)
       else ptr == BlockToAddress(p.self) != 0 && p.name == name && Kept(t0, t', w0, w', r, parts + [p])
  }

  method ParsePathPart(machine: M.Machine, last: u32, path: seq<byte>, pos: nat,
                       ghost t0: seq<bv8>, ghost w0: seq<u32>, ghost r: nat, ghost parts: seq<Part>)
    returns (ptr: u32, pos': nat, ghost p: Part)
    requires machine.Valid() && NUL !in path && 0 < pos <= |path| <= MAX_PATH
    requires Kept(t0, machine.entries[..], w0, machine.words[..], r, parts) && r < HEAP_BLOCKS
    requires last == LastAddress(parts)
    requires FreeCount(t0) >= 2 * |parts| + if PartLength(path[pos..]) == 0 then 2 else 3
    modifies machine.entries, machine.words
    ensures machine.Valid()
    ensures var n := PartLength(path[pos..]);
            && pos' == pos + PastSlash(path[pos..], n)
            && PartParsed(t0, w0, old(machine.entries[..]), old(machine.words[..]),
                          machine.entries[..], machine.words[..], r, parts, path[pos..][..n], ptr, p)
  {
    ghost var t, w, got := machine.entries[..], machine.words[..], [r] + PartBlocks(parts);
    ghost var name := path[pos..][..PartLength(path[pos..])];
    var text;
    ghost var b;
    text, pos', b := GetPathPart(machine, path, pos, t0, got);
    ghost var w1 := machine.words[..];
    TakenWasFree(t0, t, got, b);
    BlockWritten(t0, w0, w, w1, r, parts, b);
    if text == 0 {
      AddressOfBlock(b);
      p := Part(0, 0, []);
      return 0, pos', p;
    }
    ptr, p := AddNode(machine, last, text, t0, w0, r, parts, b, name);
  }

  /** The record for the text in block b, linked from the last node if there is one. */
  method AddNode(machine: M.Machine, last: u32, text: u32, ghost t0: seq<bv8>, ghost w0: seq<u32>, ghost r: nat,
                 ghost parts: seq<Part>, ghost b: nat, ghost name: seq<byte>)
    returns (ptr: u32, ghost p: Part)
    requires machine.Valid() && r < HEAP_BLOCKS && b < HEAP_BLOCKS && text == BlockToAddress(b)
    requires M.Grown(t0, machine.entries[..], [r] + PartBlocks(parts) + [b]) && FreeCount(t0) >= 2 * |parts| + 3
    requires M.OnlyBlocksChanged(w0, machine.words[..], FreeBlocks(t0)) && ListAt(machine.words[..], parts)
    requires TextAt(machine.words[..], b, name) && last == LastAddress(parts)
    modifies machine.entries, machine.words
    ensures machine.Valid() && ptr == BlockToAddress(p.self) != 0 && p.name == name
    ensures SameRoot(old(machine.words[..]), machine.words[..], r)
    ensures Kept(t0, machine.entries[..], w0, machine.words[..], r, parts + [p])
  {
    ghost var t1, w1, got := machine.entries[..], machine.words[..], [r] + PartBlocks(parts) + [b];
    ghost var c;
    ptr, c := NewNode(machine, text, t0, got);
    p := Part(b, c, name);
    ghost var w2 := machine.words[..];
    NodeAdded(t0, t1, w0, w1, w2, r, parts, p);
    LastPlace(w2, parts);
    if last != 0 {
      machine.words[last / 4 + 1] := ptr;
    }
    NodeLinked(t0, machine.entries[..], w0, w2, machine.words[..], r, parts, p);
    SameRootTwice(w1, w2, machine.words[..], r);
  }

  /** The last node's next field is where its address plus one word says. */
  lemma LastPlace(w: seq<u32>, parts: seq<Part>)
    requires ListAt(w, parts)
    ensures LastAddress(parts) == 0 <==> parts == []
    ensures parts != [] ==> parts[|parts| - 1].self < HEAP_BLOCKS && LastAddress(parts) / 4 + 1 < MEMORY_WORDS
  {
    if parts != [] {
      assert Node(w, parts, |parts| - 1);
      AddressOfBlock(parts[|parts| - 1].self);
    }
  }

  lemma SameRootTwice(w: seq<u32>, w1: seq<u32>, w2: seq<u32>, r: nat)
    requires SameRoot(w, w1, r) && SameRoot(w1, w2, r)
    ensures SameRoot(w, w2, r)
  {
  }

  /** The record is in place, not yet linked. */
  lemma NodeAdded(t0: seq<bv8>, t1: seq<bv8>, w0: seq<u32>, w1: seq<u32>, w2: seq<u32>, r: nat, parts: seq<Part>,
                  p: Part)
    requires r < HEAP_BLOCKS && Placed(p) && M.Grown(t0, t1, [r] + PartBlocks(parts) + [p.text])
    requires IsFree(t1[p.self]) && p.self !in [r] + PartBlocks(parts) + [p.text]
    requires M.OnlyBlocksChanged(w0, w1, FreeBlocks(t0)) && ListAt(w1, parts) && TextAt(w1, p.text, p.name)
    requires M.OnlyBlocksChanged(w1, w2, {p.self as int})
    requires M.WordOf(w2, p.self, 0) == BlockToAddress(p.text) && M.WordOf(w2, p.self, 1) == 0
    ensures M.OnlyBlocksChanged(w0, w2, FreeBlocks(t0)) && ListAt(w2, parts) && NodeAt(w2, p, 0) && SameRoot(w1, w2, r)
    ensures p.self in FreeBlocks(t0)
  {
    var got := [r] + PartBlocks(parts) + [p.text];
    TakenWasFree(t0, t1, got, p.self);
    assert forall x :: x in [r] + PartBlocks(parts) ==> x in got;
    assert got[|got| - 1] == p.text;
    BlockWritten(t0, w0, w1, w2, r, parts, p.self);
    OtherBlock(w1, w2, p.self, p.text);
  }

  /** Then it is linked from the last node, or is the only one. */
  lemma NodeLinked(t0: seq<bv8>, t: seq<bv8>, w0: seq<u32>, w2: seq<u32>, w3: seq<u32>, r: nat, parts: seq<Part>,
                   p: Part)
    requires r < HEAP_BLOCKS && M.Grown(t0, t, [r] + PartBlocks(parts) + [p.text] + [p.self])
    requires M.OnlyBlocksChanged(w0, w2, FreeBlocks(t0)) && ListAt(w2, parts) && NodeAt(w2, p, 0)
    requires if parts == [] then w3 == w2
             else parts[|parts| - 1].self < HEAP_BLOCKS
                  && BlockToAddress(parts[|parts| - 1].self) / 4 + 1 < MEMORY_WORDS
                  && w3 == w2[BlockToAddress(parts[|parts| - 1].self) / 4 + 1 := BlockToAddress(p.self)]
    ensures SameRoot(w2, w3, r) && Kept(t0, t, w0, w3, r, parts + [p])
  {
    var got := [r] + PartBlocks(parts) + [p.text] + [p.self];
    OneMorePart(parts, p);
    assert got == [r] + PartBlocks(parts + [p]);
    if parts == [] {
      FirstNode(w2, p);
      assert parts + [p] == [p];
    } else {
      var d := parts[|parts| - 1].self;
      WordStore(w2, d, 1, BlockToAddress(p.self));
      RestDistinct(r, PartBlocks(parts + [p]));
      LinkLast(w2, w3, parts, p);
      LastIsTaken(t0, t, r, parts, p);
      OtherBlock(w2, w3, d, r);
      StillOnlyFree(t0, w0, w2, w3, d);
    }
  }

  lemma RestDistinct(r: nat, blocks: seq<nat>)
    requires M.NoDuplicates([r] + blocks)
    ensures M.NoDuplicates(blocks) && r !in blocks
  {
    var all := [r] + blocks;
    assert forall k :: 0 <= k < |blocks| ==> blocks[k] == all[k + 1];
    assert all[0] == r;
  }

  lemma LastIsTaken(t0: seq<bv8>, t: seq<bv8>, r: nat, parts: seq<Part>, p: Part)
    requires M.Grown(t0, t, [r] + PartBlocks(parts + [p])) && parts != []
    ensures parts[|parts| - 1].self in FreeBlocks(t0) && parts[|parts| - 1].self != r
  {
    var got, d := [r] + PartBlocks(parts + [p]), parts[|parts| - 1].self;
    BlocksOf(parts + [p], |parts| - 1);
    RestDistinct(r, PartBlocks(parts + [p]));
    GotWasFree(t0, t, got, d);
  }

  lemma GotWasFree(t0: seq<bv8>, t: seq<bv8>, got: seq<nat>, d: nat)
    requires M.Grown(t0, t, got) && d in got
    ensures d in FreeBlocks(t0)
  {
    WellFormedRepresents(t0);
    WellFormedRepresents(t);
    FreeMeansUncovered(t0, Decode(t0), d);
    if Covered(Decode(t0), d) {
      var a: nat :| Covers(Decode(t0), a, d);
      assert Covers(Decode(t), a, d) && Covers(Decode(t), d, d);
    }
  }

  // -- pparser_parse -----------------------------------------------------------------------------

  ghost predicate Parsing(t0: seq<bv8>, t: seq<bv8>, w0: seq<u32>, w: seq<u32>, r: nat, drive: nat, parts: seq<Part>) {
    && Kept(t0, t, w0, w, r, parts) && r < HEAP_BLOCKS
    && M.WordOf(w, r, 0) == drive && M.WordOf(w, r, 1) == NodeAddress(parts, 0)
  }

  function Strnlen(path: seq<byte>, max: nat): nat {
    if |path| < max then |path| else max
  }

  /** path_valid_format. */
  method PathValidFormat(path: seq<byte>) returns (valid: bool)
    ensures valid <==> StartsWithDrive(path)
  {
    ValidFormatIff(path);
    var len := Strnlen(path, MAX_PATH);
    valid := len > 2 && IsDigit(path[0]) && path[1] == COLON && path[2] == SLASH;
  }

  /** pparser_create_root. */
  method CreateRoot(machine: M.Machine, drive: u32) returns (root: u32, ghost r: nat)
    requires machine.Valid() && FreeCount(machine.entries[..]) >= 1
    modifies machine.entries, machine.words
    ensures machine.Valid() && root == BlockToAddress(r)
    ensures Parsing(old(machine.entries[..]), machine.entries[..], old(machine.words[..]), machine.words[..],
                    r, drive, [])
  {
    ghost var t0, w0 := machine.entries[..], machine.words[..];
    assert M.Grown(t0, t0, []);
    root, r := NewNode(machine, drive, t0, []);
    TakenWasFree(t0, t0, [], r);
    assert [r] + PartBlocks([]) == [] + [r];
    StillOnlyFree(t0, w0, w0, machine.words[..], r);
  }

  lemma ComponentsFrom(path: seq<byte>, pos: nat)
    requires pos <= |path|
    ensures var n := PartLength(path[pos..]);
            Components(path[pos..]) ==
              if n == 0 then [] else [path[pos..][..n]] + Components(path[pos + PastSlash(path[pos..], n)..])
  {
    var rest := path[pos..];
    var k := PastSlash(rest, PartLength(rest));
    assert rest[k..] == path[pos + k..];
  }

  /** The parser's progress: the parts made so far, then what the rest of the path holds. */
  ghost predicate Remaining(path: seq<byte>, pos: nat, parts: seq<Part>, more: bool, names: seq<seq<byte>>) {
    && 0 < pos <= |path|
    && names == Names(parts) + if more then Components(path[pos..]) else []
  }

  lemma LastPart(path: seq<byte>, pos: nat, parts: seq<Part>, names: seq<seq<byte>>)
    requires Remaining(path, pos, parts, true, names) && PartLength(path[pos..]) == 0
    ensures Remaining(path, pos + PastSlash(path[pos..], 0), parts, false, names)
  {
    ComponentsFrom(path, pos);
  }

  lemma NextPart(path: seq<byte>, pos: nat, parts: seq<Part>, p: Part, names: seq<seq<byte>>)
    requires Remaining(path, pos, parts, true, names)
    requires var n := PartLength(path[pos..]); n > 0 && p.name == path[pos..][..n]
    ensures Remaining(path, pos + PastSlash(path[pos..], PartLength(path[pos..])), parts + [p], true, names)
    ensures |parts| < |names|
  {
    ComponentsFrom(path, pos);
    OneMorePart(parts, p);
    var rest := Components(path[pos + PastSlash(path[pos..], PartLength(path[pos..]))..]);
    OneMoreName(Names(parts), p.name, rest);
  }

  lemma OneMoreName(done: seq<seq<byte>>, name: seq<byte>, rest: seq<seq<byte>>)
    ensures done + ([name] + rest) == (done + [name]) + rest
  {
  }

  lemma RoomForNext(path: seq<byte>, pos: nat, parts: seq<Part>, names: seq<seq<byte>>)
    requires Remaining(path, pos, parts, true, names)
    ensures |parts| <= |names| && (PartLength(path[pos..]) > 0 ==> |parts| < |names|)
  {
    ComponentsFrom(path, pos);
  }

  lemma RemainingAfter(path: seq<byte>, pos: nat, parts: seq<Part>, names: seq<seq<byte>>,
                       n: nat, pos': nat, ptr: u32, p: Part)
    requires Remaining(path, pos, parts, true, names) && n == PartLength(path[pos..])
    requires pos' == pos + PastSlash(path[pos..], n)
    requires if n == 0 then ptr == 0 else ptr != 0 && p.name == path[pos..][..n]
    ensures pos' >= pos && (ptr != 0 ==> pos' > pos)
    ensures Remaining(path, pos', if ptr == 0 then parts else parts + [p], ptr != 0, names)
  {
    if ptr == 0 {
      LastPart(path, pos, parts, names);
    } else {
      NextPart(path, pos, parts, p, names);
    }
  }

  /** pparser_parse_path_part, in terms of the whole parse. */
  method ParseNext(machine: M.Machine, last: u32, path: seq<byte>, pos: nat, ghost t0: seq<bv8>, ghost w0: seq<u32>,
                   ghost r: nat, ghost parts: seq<Part>, ghost names: seq<seq<byte>>)
    returns (ptr: u32, pos': nat, ghost parts': seq<Part>)
    requires machine.Valid() && NUL !in path && |path| <= MAX_PATH && r < HEAP_BLOCKS
    requires Kept(t0, machine.entries[..], w0, machine.words[..], r, parts) && last == LastAddress(parts)
    requires Remaining(path, pos, parts, true, names) && FreeCount(t0) >= 2 * |names| + 2
    modifies machine.entries, machine.words
    ensures machine.Valid() && Kept(t0, machine.entries[..], w0, machine.words[..], r, parts')
    ensures SameRoot(old(machine.words[..]), machine.words[..], r)
    ensures Remaining(path, pos', parts', ptr != 0, names) && pos' >= pos
    ensures if ptr == 0 then parts' == parts
            else pos' > pos && parts <= parts' && |parts'| == |parts| + 1 && ptr == LastAddress(parts')
  {
    ghost var p;
    RoomForNext(path, pos, parts, names);
    ptr, pos', p := ParsePathPart(machine, last, path, pos, t0, w0, r, parts);
    RemainingAfter(path, pos, parts, names, PartLength(path[pos..]), pos', ptr, p);
    parts' := if ptr == 0 then parts else parts + [p];
  }

  /** The first part and the loop over the others. */
  method ParseParts(machine: M.Machine, root: u32, path: seq<byte>, ghost t0: seq<bv8>, ghost w0: seq<u32>,
                    ghost r: nat, ghost drive: nat)
    returns (ghost parts: seq<Part>)
    requires machine.Valid() && NUL !in path && 3 <= |path| <= MAX_PATH && root == BlockToAddress(r)
    requires Parsing(t0, machine.entries[..], w0, machine.words[..], r, drive, [])
    requires FreeCount(t0) >= 2 * |Components(path[3..])| + 2
    modifies machine.entries, machine.words
    ensures machine.Valid() && Parsing(t0, machine.entries[..], w0, machine.words[..], r, drive, parts)
    ensures Names(parts) == Components(path[3..])
  {
    ghost var names := Components(path[3..]);
    assert Names([]) + names == names;
    var part, pos;
    part, pos, parts := ParseNext(machine, 0, path, 3, t0, w0, r, [], names);
    if part == 0 {
      return;
    }
    LinkFirst(t0, machine.entries[..], w0, machine.words[..], r, parts);
    machine.words[root / 4 + 1] := part;
    parts := ParseRest(machine, part, path, pos, t0, w0, r, drive, parts, names);
  }

  /** The loop over the parts after the first. */
  method ParseRest(machine: M.Machine, first: u32, path: seq<byte>, start: nat, ghost t0: seq<bv8>, ghost w0: seq<u32>,
                   ghost r: nat, ghost drive: nat, ghost done: seq<Part>, ghost names: seq<seq<byte>>)
    returns (ghost parts: seq<Part>)
    requires machine.Valid() && NUL !in path && |path| <= MAX_PATH && FreeCount(t0) >= 2 * |names| + 2
    requires Parsing(t0, machine.entries[..], w0, machine.words[..], r, drive, done)
    requires done != [] && first == LastAddress(done) != 0 && Remaining(path, start, done, true, names)
    modifies machine.entries, machine.words
    ensures machine.Valid() && Parsing(t0, machine.entries[..], w0, machine.words[..], r, drive, parts)
    ensures Names(parts) == names
  {
    var part, pos := first, start;
    parts := done;
    while part != 0
      invariant machine.Valid() && Parsing(t0, machine.entries[..], w0, machine.words[..], r, drive, parts)
      invariant parts != [] && Remaining(path, pos, parts, part != 0, names)
      invariant part != 0 ==> part == LastAddress(parts)
      decreases part != 0, |path| - pos
    {
      part, pos, parts := ParseNext(machine, part, path, pos, t0, w0, r, parts, names);
    }
  }

  /** path_root->first = first_part. */
  lemma LinkFirst(t0: seq<bv8>, t: seq<bv8>, w0: seq<u32>, w: seq<u32>, r: nat, parts: seq<Part>)
    requires Kept(t0, t, w0, w, r, parts) && r < HEAP_BLOCKS && |parts| == 1
    ensures BlockToAddress(r) / 4 + 1 < MEMORY_WORDS
    ensures var w' := w[BlockToAddress(r) / 4 + 1 := LastAddress(parts)];
            Parsing(t0, t, w0, w', r, M.WordOf(w, r, 0), parts)
  {
    WordStore(w, r, 1, LastAddress(parts));
    var w' := w[BlockToAddress(r) / 4 + 1 := LastAddress(parts)];
    RestDistinct(r, PartBlocks(parts));
    ListKept(w, w', r, parts);
    assert ([r] + PartBlocks(parts))[0] == r;
    GotWasFree(t0, t, [r] + PartBlocks(parts), r);
    StillOnlyFree(t0, w0, w, w', r);
  }

  /**
   NULL and nothing touched for a path that is too long or ill-formed; otherwise a root record with
   the drive and the list of the path's components, in blocks of their own.
   */
  method PparserParse(machine: M.Machine, path: seq<byte>) returns (root: u32, ghost r: nat, ghost parts: seq<Part>)
    requires machine.Valid() && NUL !in path
    requires Parse(path).Good? ==> FreeCount(machine.entries[..]) >= 2 * |Parse(path).path.parts| + 2
    modifies machine.entries, machine.words
    ensures machine.Valid()
    ensures Parse(path) == Bad ==>
              && root == 0
              && machine.entries[..] == old(machine.entries[..]) && machine.words[..] == old(machine.words[..])
    ensures Parse(path).Good? ==>
              && root == BlockToAddress(r) && root != 0
              && RootAt(machine.words[..], r, Parse(path).path.drive, parts)
              && Names(parts) == Parse(path).path.parts
              && M.Grown(old(machine.entries[..]), machine.entries[..], [r] + PartBlocks(parts))
              && M.OnlyBlocksChanged(old(machine.words[..]), machine.words[..], FreeBlocks(old(machine.entries[..])))
  {
    r, parts := 0, [];
    if |path| > MAX_PATH {
      return 0, r, parts;
    }
    ValidFormatIff(path);
    var valid := PathValidFormat(path);
    if !valid {
      return 0, r, parts;
    }
    ghost var t0, w0 := machine.entries[..], machine.words[..];
    var drive := path[0] - DIGIT_0;
    root, r := CreateRoot(machine, drive);
    parts := ParseParts(machine, root, path, t0, w0, r, drive);
    AddressOfBlock(r);
  }

  // -- pparser_free ------------------------------------------------------------------------------

  /** The order in which the destructor gives the blocks back. */
  ghost function FreedBlocks(r: nat, parts: seq<Part>): seq<nat> {
    PartBlocks(parts) + [r]
  }

  /** Every record and text of the list, and then the root, given back. */
  method PparserFree(machine: M.Machine, root: u32, ghost r: nat, ghost drive: nat, ghost parts: seq<Part>)
    requires machine.Valid() && root == BlockToAddress(r) && RootAt(machine.words[..], r, drive, parts)
    requires M.NoDuplicates(FreedBlocks(r, parts))
    requires forall b :: b in FreedBlocks(r, parts) ==> b in Decode(machine.entries[..])
    modifies machine.entries
    ensures machine.Valid()
    ensures Decode(machine.entries[..]) == M.Without(old(Decode(machine.entries[..])), FreedBlocks(r, parts))
  {
    ghost var ext, freed := Decode(machine.entries[..]), FreedBlocks(r, parts);
    FirstPart(machine.words[..], r, drive, parts);
    FreeParts(machine, machine.words[root / 4 + 1], ext, freed, r, parts);
    RootIsLast(r, parts);
    machine.FreeNext(root, ext, freed, 2 * |parts|);
  }

  lemma RootIsLast(r: nat, parts: seq<Part>)
    ensures var freed := FreedBlocks(r, parts);
            |freed| == 2 * |parts| + 1 && freed[2 * |parts|] == r && freed[..2 * |parts| + 1] == freed
  {
  }

  /** The loop over the records. */
  method FreeParts(machine: M.Machine, first: u32, ghost ext: map<nat, nat>, ghost freed: seq<nat>, ghost r: nat,
                   ghost parts: seq<Part>)
    requires machine.Valid() && ListAt(machine.words[..], parts) && freed == FreedBlocks(r, parts)
    requires first == NodeAddress(parts, 0) && Decode(machine.entries[..]) == ext
    requires M.NoDuplicates(freed) && forall b :: b in freed ==> b in ext
    modifies machine.entries
    ensures machine.Valid()
    ensures Decode(machine.entries[..]) == M.Without(ext, freed[..2 * |parts|])
  {
    var part := first;
    ghost var k := 0;
    assert M.Without(ext, freed[..0]) == ext;
    while part != 0
      invariant machine.Valid() && k <= |parts| && part == NodeAddress(parts, k)
      invariant Decode(machine.entries[..]) == M.Without(ext, freed[..2 * k])
      decreases |parts| - k
    {
      part := FreePart(machine, part, ext, freed, r, parts, k);
      k := k + 1;
    }
    ListEnds(machine.words[..], parts, k);
  }

  /** The root's second word leads to the first record. */
  lemma FirstPart(w: seq<u32>, r: nat, drive: nat, parts: seq<Part>)
    requires RootAt(w, r, drive, parts)
    ensures var i := BlockToAddress(r) / 4 + 1; i < MEMORY_WORDS && w[i] == NodeAddress(parts, 0)
    ensures ListAt(w, parts) && AddressToBlock(BlockToAddress(r)) == r
  {
    AddressOfBlock(r);
    WordPlace(w, r, 1);
  }

  lemma WordPlace(w: seq<u32>, b: nat, j: nat)
    requires IsMemory(w) && b < HEAP_BLOCKS && j < 1024
    ensures BlockToAddress(b) / 4 + j < MEMORY_WORDS && w[BlockToAddress(b) / 4 + j] == M.WordOf(w, b, j)
  {
    AddressOfBlock(b);
    assert BlockToAddress(b) / 4 == (M.FIRST_FRAME + b) * 1024;
  }

  lemma ListEnds(w: seq<u32>, parts: seq<Part>, k: nat)
    requires ListAt(w, parts) && k <= |parts| && NodeAddress(parts, k) == 0
    ensures k == |parts|
  {
    if k < |parts| {
      assert Node(w, parts, k);
      AddressOfBlock(parts[k].self);
    }
  }

  /** One turn of the destructor's loop. */
  method FreePart(machine: M.Machine, part: u32, ghost ext: map<nat, nat>, ghost freed: seq<nat>,
                  ghost r: nat, ghost parts: seq<Part>, ghost k: nat)
    returns (next: u32)
    requires machine.Valid() && ListAt(machine.words[..], parts) && freed == FreedBlocks(r, parts)
    requires k <= |parts| && part == NodeAddress(parts, k) != 0
    requires Decode(machine.entries[..]) == M.Without(ext, freed[..2 * k])
    requires M.NoDuplicates(freed) && forall b :: b in freed ==> b in ext
    modifies machine.entries
    ensures machine.Valid() && k < |parts| && next == NodeAddress(parts, k + 1)
    ensures Decode(machine.entries[..]) == M.Without(ext, freed[..2 * (k + 1)])
  {
    RecordOf(machine.words[..], r, parts, k, part);
    next := machine.words[part / 4 + 1];
    machine.FreeNext(machine.words[part / 4], ext, freed, 2 * k);
    machine.FreeNext(part, ext, freed, 2 * k + 1);
  }

  /** The two words of record k, and where its blocks come among those to be freed. */
  lemma RecordOf(w: seq<u32>, r: nat, parts: seq<Part>, k: nat, part: u32)
    requires IsMemory(w) && ListAt(w, parts) && k <= |parts| && part == NodeAddress(parts, k) != 0
    ensures k < |parts| && part / 4 + 1 < MEMORY_WORDS && w[part / 4 + 1] == NodeAddress(parts, k + 1)
    ensures 2 * k + 1 < |FreedBlocks(r, parts)|
    ensures AddressToBlock(w[part / 4]) == FreedBlocks(r, parts)[2 * k]
    ensures AddressToBlock(part) == FreedBlocks(r, parts)[2 * k + 1]
  {
    var p := parts[k];
    assert Node(w, parts, k);
    BlocksOf(parts, k);
    AddressOfBlock(p.self);
    AddressOfBlock(p.text);
    WordPlace(w, p.self, 0);
    WordPlace(w, p.self, 1);
  }

  /** Parsing and then freeing leaves the heap table byte for byte as it was. */
  lemma ParseThenFreeRestores(t0: seq<bv8>, t: seq<bv8>, t': seq<bv8>, r: nat, parts: seq<Part>)
    requires M.Grown(t0, t, [r] + PartBlocks(parts)) && WellFormed(t') && |t'| == |t0|
    requires Decode(t') == M.Without(Decode(t), FreedBlocks(r, parts))
    ensures t' == t0
    ensures M.NoDuplicates(FreedBlocks(r, parts)) && forall b :: b in FreedBlocks(r, parts) ==> b in Decode(t)
  {
    FreedIsGot(r, parts);
    WithoutUndoes(Decode(t0), [r] + PartBlocks(parts), FreedBlocks(r, parts));
    SameExtentsSameTable(t', t0);
  }

  lemma WithoutUndoes(ext: map<nat, nat>, got: seq<nat>, freed: seq<nat>)
    requires (forall b :: b in freed <==> b in got) && forall b :: b in got ==> b !in ext
    ensures M.Without(M.WithOnes(ext, got), freed) == ext
    ensures forall b :: b in freed ==> b in M.WithOnes(ext, got)
  {
  }

  lemma FreedIsGot(r: nat, parts: seq<Part>)
    requires M.NoDuplicates([r] + PartBlocks(parts))
    ensures M.NoDuplicates(FreedBlocks(r, parts))
    ensures forall b :: b in FreedBlocks(r, parts) <==> b in [r] + PartBlocks(parts)
  {
    RestDistinct(r, PartBlocks(parts));
  }
}
