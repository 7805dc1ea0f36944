/** copy_string_from_task: a user string brought into the kernel through the task's own page tables. */
module UserCopy {
  import opened Status
  import opened Words
  import opened CStrings
  import opened Memory
  import opened HeapTable
  import opened Paging
  import opened Windows
  import opened Steps
  import opened Kernel
  import M = Machine

  /** Byte k from vAddr on, as the task sees it. */
  ghost function Seen(words: seq<u32>, dir: u32, vAddr: u32, k: nat): byte
    requires IsMemory(words) && dir % 4096 == 0
  {
    ByteAt(words, Physical(words, dir, Add32(vAddr, k)))
  }

  /** The n bytes from vAddr on, as the task sees them. */
  ghost function SeenBytes(words: seq<u32>, dir: u32, vAddr: u32, n: nat): (s: seq<byte>)
    requires IsMemory(words) && dir % 4096 == 0
    ensures |s| == n
    ensures forall k :: 0 <= k < n ==> s[k] == Seen(words, dir, vAddr, k)
  {
    seq(n, k requires 0 <= k < n => Seen(words, dir, vAddr, k))
  }

  /** The NUL-terminated string at vAddr as the task sees it, cut to n characters. */
  ghost function UserString(words: seq<u32>, dir: u32, vAddr: u32, n: nat): (s: seq<byte>)
    requires IsMemory(words) && dir % 4096 == 0
    ensures |s| <= n
  {
    Cut(SeenBytes(words, dir, vAddr, n))
  }

  /** Frame of byte k of the source. */
  ghost function SourceFrame(words: seq<u32>, dir: u32, vAddr: u32, k: nat): int
    requires IsMemory(words) && dir % 4096 == 0
  {
    Physical(words, dir, Add32(vAddr, k)) / 4096
  }

  /** The bytes a copy of up to n characters reads: the string and its terminator, within the cut. */
  ghost predicate SourceAvoids(words: seq<u32>, dir: u32, vAddr: u32, n: nat, frame: int)
    requires IsMemory(words) && dir % 4096 == 0
  {
    forall k: nat :: k <= |UserString(words, dir, vAddr, n)| && k < n ==> SourceFrame(words, dir, vAddr, k) != frame
  }

  /** after holds the NUL-terminated string s at dst, and is before everywhere else. */
  ghost predicate Stored(before: seq<u32>, after: seq<u32>, dst: u32, s: seq<byte>) {
    && IsMemory(before) && IsMemory(after) && dst + |s| < TWO_32
    && (forall k :: 0 <= k < |s| ==> ByteAt(after, dst + k) == s[k])
    && ByteAt(after, dst + |s|) == NUL
    && forall a: u32 :: a < dst || dst + |s| < a ==> ByteAt(after, a) == ByteAt(before, a)
  }

  /** The kernel's own view of memory is the identity: the bytes at a physical address. */
  ghost function KernelByte(words: seq<u32>, a: u32, k: nat): byte
    requires IsMemory(words) && a + k < TWO_32
  {
    ByteAt(words, a + k)
  }

  ghost function KernelBytes(words: seq<u32>, a: u32, n: nat): (s: seq<byte>)
    requires IsMemory(words) && a + n <= TWO_32
    ensures |s| == n
    ensures forall k :: 0 <= k < n ==> s[k] == KernelByte(words, a, k)
  {
    seq(n, k requires 0 <= k < n => KernelByte(words, a, k))
  }

  /** The first i characters of text written from dst on, nothing else changed. */
  ghost predicate Copied(before: seq<u32>, now: seq<u32>, dst: u32, text: seq<byte>, i: nat) {
    && IsMemory(before) && IsMemory(now) && i <= |text|
    && forall a: u32 :: ByteAt(now, a) == if dst <= a < dst + i then text[a - dst] else ByteAt(before, a)
  }

  lemma CopyOne(before: seq<u32>, now: seq<u32>, next: seq<u32>, dst: u32, text: seq<byte>, i: nat)
    requires Copied(before, now, dst, text, i) && i < |text| && dst + i < TWO_32 && IsMemory(next)
    requires forall x: u32 :: ByteAt(next, x) == if x == dst + i then text[i] else ByteAt(now, x)
    ensures Copied(before, next, dst, text, i + 1)
  {
  }

  lemma CopyEnds(before: seq<u32>, now: seq<u32>, last: seq<u32>, dst: u32, text: seq<byte>, i: nat)
    requires Copied(before, now, dst, text, i) && dst + i < TWO_32 && IsMemory(last)
    requires NUL !in text[..i] && (i < |text| ==> text[i] == NUL)
    requires forall x: u32 :: ByteAt(last, x) == if x == dst + i then NUL else ByteAt(now, x)
    ensures Stored(before, last, dst, Cut(text))
  {
    CutUnique(text, i);
  }

  lemma OneMoreCharacter(text: seq<byte>, i: nat)
    requires i < |text| && NUL !in text[..i] && text[i] != NUL
    ensures NUL !in text[..i + 1]
  {
    assert text[..i + 1] == text[..i] + [text[i]];
  }

  /** How far dst lies past src. */
  function Lag(dst: u32, src: u32): nat {
    if src < dst then dst - src else 0
  }

  /** Where byte i of the source really comes from, when the copy runs into its source lag bytes on. */
  function EchoIndex(i: nat, lag: nat): (k: nat)
    ensures k <= i && (lag == 0 || i < lag ==> k == i)
  {
    if lag > 0 && i >= lag then EchoIndex(i - lag, lag) else i
  }

  /** What a forward copy reads: the first lag bytes of such a source again and again. */
  function Echoed(text: seq<byte>, lag: nat): (s: seq<byte>)
    ensures |s| == |text| && forall i :: 0 <= i < |s| ==> s[i] == text[EchoIndex(i, lag)]
  {
    seq(|text|, i requires 0 <= i < |text| => text[EchoIndex(i, lag)])
  }

  lemma EchoBeyond(text: seq<byte>, lag: nat)
    requires lag == 0 || |text| <= lag
    ensures Echoed(text, lag) == text
  {
  }

  lemma SourceByte(before: seq<u32>, now: seq<u32>, dst: u32, src: u32, text: seq<byte>, i: nat)
    requires IsMemory(before) && src + |text| <= TWO_32 && i < |text| && text[i] == KernelByte(before, src, i)
    requires Copied(before, now, dst, Echoed(text, Lag(dst, src)), i)
    ensures KernelByte(now, src, i) == Echoed(text, Lag(dst, src))[i]
  {
    var lag, echo := Lag(dst, src), Echoed(text, Lag(dst, src));
    var a: u32 := src + i;
    if lag > 0 && i >= lag {
      assert ByteAt(now, a) == echo[a - dst];
      assert a - dst == i - lag;
    } else {
      assert ByteAt(now, a) == ByteAt(before, a);
    }
  }

  /** A byte of the source as strncpy meets it: already overwritten where the destination begins above the source. */
  ghost function Met(before: seq<u32>, after: seq<u32>, dst: u32, src: u32, k: nat): byte
    requires IsMemory(before) && IsMemory(after) && src + k < 0x1_0000_0000
  {
    ByteAt(if src < dst then after else before, src + k)
  }

  /**
   n characters copied one by one and terminated: none of them is the terminator, it stopped at one or at the size
   limit, and no other byte changed.
   */
  ghost predicate Strncpied(before: seq<u32>, after: seq<u32>, dst: u32, src: u32, size: nat, n: nat) {
    && IsMemory(before) && IsMemory(after) && n < size && dst + n < 0x1_0000_0000 && src + n < 0x1_0000_0000
    && (forall k: nat :: k < n ==> ByteAt(after, dst + k) == Met(before, after, dst, src, k) != 0)
    && ByteAt(after, dst + n) == 0
    && (n + 1 < size ==> Met(before, after, dst, src, n) == 0)
    && forall a: u32 :: a < dst || dst + n < a ==> ByteAt(after, a) == ByteAt(before, a)
  }

  lemma StoredIsStrncpied(before: seq<u32>, after: seq<u32>, dst: u32, src: u32, size: nat, text: seq<byte>)
    requires IsMemory(before) && size > 0 && dst + size <= TWO_32 && src + size <= TWO_32
    requires text == Echoed(KernelBytes(before, src, size - 1), Lag(dst, src))
    requires Stored(before, after, dst, Cut(text))
    ensures Strncpied(before, after, dst, src, size, |Cut(text)|)
  {
    CutIs(text);
    forall k: nat | k < |text|
      ensures MetAt(before, dst, src, text, k)
    {
      EchoStep(before, dst, src, size - 1, k);
    }
    MetIsStrncpied(before, after, dst, src, text, Cut(text));
  }

  /** What a forward copy meets at k: its own output, or what was there. */
  ghost predicate MetAt(before: seq<u32>, dst: u32, src: u32, text: seq<byte>, k: nat)
    requires IsMemory(before) && src + |text| < TWO_32 && k < |text|
  {
    text[k] == if src < dst <= src + k then text[k - (dst - src)] else ByteAt(before, src + k)
  }

  lemma MetIsStrncpied(before: seq<u32>, after: seq<u32>, dst: u32, src: u32, text: seq<byte>, s: seq<byte>)
    requires Stored(before, after, dst, s) && dst + |text| < TWO_32 && src + |text| < TWO_32
    requires |s| <= |text| && s == text[..|s|] && NUL !in s && (|s| < |text| ==> text[|s|] == NUL)
    requires forall k: nat :: k < |text| ==> MetAt(before, dst, src, text, k)
    ensures Strncpied(before, after, dst, src, |text| + 1, |s|)
  {
    forall k: nat | k < |s|
      ensures ByteAt(after, dst + k) == Met(before, after, dst, src, k) != 0
    {
      MetIs(before, after, dst, src, text, s, k);
      StoredByte(before, after, dst, s, k);
    }
    if |s| < |text| {
      MetIs(before, after, dst, src, text, s, |s|);
    }
  }

  lemma MetIs(before: seq<u32>, after: seq<u32>, dst: u32, src: u32, text: seq<byte>, s: seq<byte>, k: nat)
    requires IsMemory(before) && src + |text| < TWO_32 && k <= |s| && k < |text| && MetAt(before, dst, src, text, k)
    requires Stored(before, after, dst, s) && forall i :: 0 <= i < |s| ==> i < |text| && s[i] == text[i]
    ensures Met(before, after, dst, src, k) == text[k]
  {
    if src < dst <= src + k {
      StoredByte(before, after, dst, s, k - (dst - src));
    } else {
      FirstMet(before, after, dst, src, s, k);
    }
  }

  /** What the copy meets before it comes to its own output is what was there. */
  lemma FirstMet(before: seq<u32>, after: seq<u32>, dst: u32, src: u32, s: seq<byte>, k: nat)
    requires Stored(before, after, dst, s) && src + k < TWO_32 && (dst <= src || src + k < dst)
    ensures Met(before, after, dst, src, k) == ByteAt(before, src + k)
  {
  }

  /** That is what Echoed lists. */
  lemma EchoStep(before: seq<u32>, dst: u32, src: u32, n: nat, k: nat)
    requires IsMemory(before) && src + n < TWO_32 && k < n
    ensures MetAt(before, dst, src, Echoed(KernelBytes(before, src, n), Lag(dst, src)), k)
  {
    var bytes := KernelBytes(before, src, n);
    assert bytes[k] == KernelByte(before, src, k);
  }

  lemma StoredByte(before: seq<u32>, after: seq<u32>, dst: u32, s: seq<byte>, k: nat)
    requires Stored(before, after, dst, s) && k < |s|
    ensures ByteAt(after, dst + k) == s[k] && s[k] in s
  {
  }

  /** strncpy(dst, src, size) between physical addresses, wherever they lie. */
  method Strncpy(machine: M.Machine, dst: u32, src: u32, size: nat)
    requires machine.words.Length == MEMORY_WORDS && dst + size <= TWO_32 && src + size <= TWO_32
    modifies machine.words
    ensures size == 0 ==> machine.words[..] == old(machine.words[..])
    ensures size > 0 ==>
              Stored(old(machine.words[..]), machine.words[..], dst,
                     Cut(Echoed(KernelBytes(old(machine.words[..]), src, size - 1), Lag(dst, src))))
    ensures size > 0 ==> exists n :: Strncpied(old(machine.words[..]), machine.words[..], dst, src, size, n)
  {
    if size == 0 {
      return;
    }
    ghost var w := machine.words[..];
    ghost var text := Echoed(KernelBytes(w, src, size - 1), Lag(dst, src));
    var i := 0;
    while i < size - 1
      invariant 0 <= i <= size - 1 && NUL !in text[..i]
      invariant Copied(w, machine.words[..], dst, text, i)
    {
      SourceByte(w, machine.words[..], dst, src, KernelBytes(w, src, size - 1), i);
      var c := machine.LoadByte(src + i);
      assert c == KernelByte(machine.words[..], src, i);
      if c == NUL {
        break;
      }
      OneMoreCharacter(text, i);
      ghost var now := machine.words[..];
      machine.StoreByte(dst + i, c);
      CopyOne(w, now, machine.words[..], dst, text, i);
      i := i + 1;
    }
    ghost var now := machine.words[..];
    machine.StoreByte(dst + i, NUL);
    CopyEnds(w, now, machine.words[..], dst, text, i);
    StoredIsStrncpied(w, machine.words[..], dst, src, size, text);
  }

  // -- Reading through the task's tables while the buffer fills -----------------------------------

  /** Where the page map has the same entry, an address goes to the same place. */
  lemma SamePhysical(w: seq<u32>, now: seq<u32>, dir: u32, a: u32)
    requires IsMemory(w) && IsMemory(now) && dir % 4096 == 0 && AllPresent(w, dir) && AllPresent(now, dir)
    requires View(now, dir)[a / 4096] == View(w, dir)[a / 4096]
    ensures Physical(now, dir, a) == Physical(w, dir, a)
  {
    PhysicalIsView(w, dir, a);
    PhysicalIsView(now, dir, a);
  }

  /** Writes confined to a block outside the space, and off byte k's frame, leave byte k as the task sees it. */
  lemma SeenKept(w: seq<u32>, now: seq<u32>, root: u32, b: nat, vAddr: u32, k: nat)
    requires SpaceWired(w, root) && M.InHeap(w, root) && AllPresent(w, Directory(w, root))
    requires SpaceAvoids(w, root, {b as int}) && M.OnlyBlocksChanged(w, now, {b as int})
    requires SourceFrame(w, Directory(w, root), vAddr, k) != b + M.FIRST_FRAME
    ensures Directory(now, root) == Directory(w, root)
    ensures Seen(now, Directory(w, root), vAddr, k) == Seen(w, Directory(w, root), vAddr, k)
  {
    var dir, a := Directory(w, root), Add32(vAddr, k);
    SpaceKept(w, now, root, {b as int});
    SamePhysical(w, now, dir, a);
    ByteKept(w, now, {b as int}, Physical(w, dir, a));
  }

  lemma CopiedInBlock(w: seq<u32>, now: seq<u32>, b: nat, text: seq<byte>, i: nat)
    requires b < HEAP_BLOCKS && i <= |text| && i <= 4096 && Copied(w, now, BlockToAddress(b), text, i)
    ensures M.OnlyBlocksChanged(w, now, {b as int})
  {
    ZeroedBlocks(w, now, b, 0x1000);
    assert BlockRange(b, BlocksFor(0x1000)) == {b as int};
  }

  /** A wired space with every table present, off block b, whose string at vAddr is off block b too. */
  ghost predicate UserSource(w: seq<u32>, root: u32, vAddr: u32, n: nat, b: nat) {
    && SpaceWired(w, root) && M.InHeap(w, root) && AllPresent(w, Directory(w, root))
    && SpaceAvoids(w, root, {b as int})
    && SourceAvoids(w, Directory(w, root), vAddr, n, b + M.FIRST_FRAME)
  }

  /** strncpy(tmp, virtual, size) with the task's page tables loaded; tmp is block b, mapped to itself. */
  method StrncpyFromUser(machine: M.Machine, root: u32, tmp: u32, vAddr: u32, size: nat, ghost b: nat,
                         ghost s: seq<byte>)
    requires machine.words.Length == MEMORY_WORDS && 1 <= size <= 4096 && b < HEAP_BLOCKS && tmp == BlockToAddress(b)
    requires UserSource(machine.words[..], root, vAddr, size - 1, b)
    requires s == UserString(machine.words[..], Directory(machine.words[..], root), vAddr, size - 1)
    modifies machine.words
    ensures Stored(old(machine.words[..]), machine.words[..], tmp, s)
  {
    ghost var w := machine.words[..];
    var dir := machine.words[root / 4];
    ghost var text := SeenBytes(w, dir, vAddr, size - 1);
    AddressOfBlock(b);
    CutIs(text);
    var i := 0;
    while i < size - 1
      invariant 0 <= i <= size - 1 && NUL !in text[..i] && i <= |Cut(text)|
      invariant Copied(w, machine.words[..], tmp, text, i)
    {
      CopiedInBlock(w, machine.words[..], b, text, i);
      SeenKept(w, machine.words[..], root, b, vAddr, i);
      var c := UserLoad(machine, dir, Add32(vAddr, i));
      assert c == text[i];
      if c == NUL {
        break;
      }
      OneMoreCharacter(text, i);
      LongerCut(text, i);
      ghost var now := machine.words[..];
      machine.StoreByte(tmp + i, c);
      CopyOne(w, now, machine.words[..], tmp, text, i);
      i := i + 1;
    }
    ghost var now := machine.words[..];
    machine.StoreByte(tmp + i, NUL);
    CopyEnds(w, now, machine.words[..], tmp, text, i);
  }

  lemma LongerCut(text: seq<byte>, i: nat)
    requires i < |text| && NUL !in text[..i + 1]
    ensures i < |Cut(text)|
  {
    CutIs(text);
    var p := text[..i + 1];
    assert forall j :: 0 <= j <= i ==> p[j] in p && text[j] == p[j];
  }

  /** A load as the processor makes it, with the given directory in force. */
  method UserLoad(machine: M.Machine, dir: u32, vAddr: u32) returns (c: byte)
    requires machine.words.Length == MEMORY_WORDS && dir % 4096 == 0
    ensures c == ByteAt(machine.words[..], Physical(machine.words[..], dir, vAddr))
  {
    var a := machine.PagingGetPhysicalAddress(dir, vAddr);
    c := machine.LoadByte(a);
  }

  // -- copy_string_from_task ---------------------------------------------------------------------

  /**
   The bytes the copy reads are on present pages, none of them the page the temporary buffer takes
   (f), and none of them in the word that is that page's entry.
   */
  ghost predicate Readable(w: seq<u32>, root: u32, vAddr: u32, n: nat, f: nat)
    requires IsMemory(w) && Directory(w, root) % 4096 == 0 && f < PAGES
  {
    var dir := Directory(w, root);
    forall k: nat :: k <= |UserString(w, dir, vAddr, n)| && k < n ==>
      && Add32(vAddr, k) / 4096 != f
      && View(w, dir)[Add32(vAddr, k) / 4096] % 2 == 1
      && SourceFrame(w, dir, vAddr, k) != f
      && Physical(w, dir, Add32(vAddr, k)) / 4 != EntryIndex(w, dir, f)
  }

  /** The memory after zeroing the buffer's block b (w1) and mapping it in the task (w2). */
  ghost predicate BufferMapped(w0: seq<u32>, w1: seq<u32>, w2: seq<u32>, root: u32, b: nat) {
    && b < HEAP_BLOCKS && SpaceWired(w0, root) && M.InHeap(w0, root) && AllPresent(w0, Directory(w0, root))
    && SpaceAvoids(w0, root, {b as int}) && M.OnlyBlocksChanged(w0, w1, {b as int})
    && Directory(w1, root) == Directory(w0, root)
    && w2 == w1[EntryIndex(w1, Directory(w1, root), b + M.FIRST_FRAME) := Entry(b + M.FIRST_FRAME, READ_WRITE)]
  }

  lemma BufferSpace(w0: seq<u32>, w1: seq<u32>, w2: seq<u32>, root: u32, b: nat)
    requires BufferMapped(w0, w1, w2, root, b)
    ensures SpaceWired(w2, root) && M.InHeap(w2, root) && AllPresent(w2, Directory(w2, root))
    ensures SpaceAvoids(w2, root, {b as int})
    ensures Directory(w2, root) == Directory(w1, root) == Directory(w0, root)
    ensures View(w2, Directory(w2, root))
         == View(w0, Directory(w0, root))[b + M.FIRST_FRAME := Entry(b + M.FIRST_FRAME, READ_WRITE)]
    ensures EntryIndex(w1, Directory(w1, root), b + M.FIRST_FRAME)
         == EntryIndex(w0, Directory(w0, root), b + M.FIRST_FRAME)
    ensures EntryIndex(w2, Directory(w2, root), b + M.FIRST_FRAME)
         == EntryIndex(w0, Directory(w0, root), b + M.FIRST_FRAME)
    ensures EntryIndex(w0, Directory(w0, root), b + M.FIRST_FRAME) / 1024
         == TableFrame(w0, Directory(w0, root), (b + M.FIRST_FRAME) / 1024) != b + M.FIRST_FRAME
    ensures w1[EntryIndex(w0, Directory(w0, root), b + M.FIRST_FRAME)]
         == w0[EntryIndex(w0, Directory(w0, root), b + M.FIRST_FRAME)]
  {
    var dir, f := Directory(w0, root), b + M.FIRST_FRAME;
    SpaceKept(w0, w1, root, {b as int});
    SameDirectoryFacts(w0, w1, dir);
    SetInSpace(w1, root, f, Entry(f, READ_WRITE));
    SameDirectorySameSpace(w1, w2, root);
    SameDirectoryFacts(w1, w2, dir);
    assert SpaceFrames(w0, root)[f / 1024 + 1] == TableFrame(w0, dir, f / 1024);
    assert M.SpaceBlocks(w0, root)[f / 1024 + 1] !in {b as int};
  }

  /** A readable byte is seen the same after the buffer is in place. */
  lemma ReadableKept(w0: seq<u32>, w1: seq<u32>, w2: seq<u32>, root: u32, b: nat, vAddr: u32, k: nat)
    requires BufferMapped(w0, w1, w2, root, b)
    requires var dir, f := Directory(w0, root), b + M.FIRST_FRAME;
             && Add32(vAddr, k) / 4096 != f && SourceFrame(w0, dir, vAddr, k) != f
             && Physical(w0, dir, Add32(vAddr, k)) / 4 != EntryIndex(w0, dir, f)
    ensures Directory(w2, root) == Directory(w0, root)
    ensures Seen(w2, Directory(w0, root), vAddr, k) == Seen(w0, Directory(w0, root), vAddr, k)
    ensures SourceFrame(w2, Directory(w0, root), vAddr, k) == SourceFrame(w0, Directory(w0, root), vAddr, k)
  {
    var dir, a := Directory(w0, root), Add32(vAddr, k);
    BufferElsewhere(w0, w1, w2, root, b, a);
    BufferByteKept(w0, w1, w2, root, b, Physical(w0, dir, a));
  }

  /** Other pages go where they went. */
  lemma BufferElsewhere(w0: seq<u32>, w1: seq<u32>, w2: seq<u32>, root: u32, b: nat, a: u32)
    requires BufferMapped(w0, w1, w2, root, b) && a / 4096 != b + M.FIRST_FRAME
    ensures Directory(w2, root) == Directory(w0, root)
    ensures Physical(w2, Directory(w0, root), a) == Physical(w0, Directory(w0, root), a)
  {
    BufferSpace(w0, w1, w2, root, b);
    SamePhysical(w0, w2, Directory(w0, root), a);
  }

  /** Bytes outside the buffer and its entry are what they were. */
  lemma BufferByteKept(w0: seq<u32>, w1: seq<u32>, w2: seq<u32>, root: u32, b: nat, x: u32)
    requires BufferMapped(w0, w1, w2, root, b) && x / 4096 != b + M.FIRST_FRAME
    requires x / 4 != EntryIndex(w0, Directory(w0, root), b + M.FIRST_FRAME)
    ensures ByteAt(w2, x) == ByteAt(w0, x)
  {
    BufferSpace(w0, w1, w2, root, b);
    ByteKept(w0, w1, {b as int}, x);
    WordElsewhere(w1, w2, EntryIndex(w0, Directory(w0, root), b + M.FIRST_FRAME), Entry(b + M.FIRST_FRAME, READ_WRITE),
                  x);
  }

  lemma WordElsewhere(w1: seq<u32>, w2: seq<u32>, i: nat, val: u32, x: u32)
    requires IsMemory(w1) && i < |w1| && w2 == w1[i := val] && x / 4 != i
    ensures ByteAt(w2, x) == ByteAt(w1, x)
  {
  }

  lemma UserStringKept(w0: seq<u32>, w1: seq<u32>, w2: seq<u32>, root: u32, b: nat, vAddr: u32, n: nat)
    requires BufferMapped(w0, w1, w2, root, b) && Readable(w0, root, vAddr, n, b + M.FIRST_FRAME)
    ensures Directory(w2, root) == Directory(w0, root)
    ensures UserString(w2, Directory(w2, root), vAddr, n) == UserString(w0, Directory(w0, root), vAddr, n)
    ensures UserSource(w2, root, vAddr, n, b)
  {
    var dir := Directory(w0, root);
    BufferSpace(w0, w1, w2, root, b);
    forall k: nat | k <= |UserString(w0, dir, vAddr, n)| && k < n
      ensures Seen(w2, dir, vAddr, k) == Seen(w0, dir, vAddr, k)
      ensures SourceFrame(w2, dir, vAddr, k) == SourceFrame(w0, dir, vAddr, k) != b + M.FIRST_FRAME
    {
      ReadableKept(w0, w1, w2, root, b, vAddr, k);
    }
    SameCut(SeenBytes(w0, dir, vAddr, n), SeenBytes(w2, dir, vAddr, n));
  }

  /** What the whole call leaves in memory: the string at dst, and scratch bytes only in the buffer's page. */
  ghost predicate CopyDone(w0: seq<u32>, w5: seq<u32>, dst: u32, s: seq<byte>, f: int) {
    && IsMemory(w0) && IsMemory(w5) && dst + |s| < TWO_32
    && (forall k :: 0 <= k < |s| ==> ByteAt(w5, dst + k) == s[k])
    && ByteAt(w5, dst + |s|) == NUL
    && forall a: u32 :: a / 4096 != f && (a < dst || dst + |s| < a) ==> ByteAt(w5, a) == ByteAt(w0, a)
  }

  /** Character k at dst is the one the task has at its address vAddr + k, and is no terminator. */
  ghost predicate SameCharacter(w0: seq<u32>, w5: seq<u32>, dir: u32, vAddr: u32, dst: u32, k: nat)
    requires IsMemory(w0) && IsMemory(w5) && dir % 4096 == 0 && dst + k < 0x1_0000_0000
  {
    ByteAt(w5, dst + k) == ByteAt(w0, Physical(w0, dir, (vAddr + k) % 0x1_0000_0000)) != 0
  }

  /**
   The first n characters of the task's string at vAddr lie at dst, terminated; they end where the string does, or
   at the limit.
   */
  ghost predicate TaskString(w0: seq<u32>, w5: seq<u32>, dir: u32, vAddr: u32, dst: u32, max: nat, n: nat)
    requires IsMemory(w0) && dir % 4096 == 0
  {
    && IsMemory(w5) && n < max && dst + n < 0x1_0000_0000
    && (forall k: nat :: k < n ==> SameCharacter(w0, w5, dir, vAddr, dst, k))
    && ByteAt(w5, dst + n) == 0
    && (n + 1 < max ==> ByteAt(w0, Physical(w0, dir, (vAddr + n) % 0x1_0000_0000)) == 0)
  }

  lemma CopyDoneIsTaskString(w0: seq<u32>, w5: seq<u32>, dir: u32, vAddr: u32, dst: u32, max: nat, f: int)
    requires IsMemory(w0) && dir % 4096 == 0 && max >= 1
    requires CopyDone(w0, w5, dst, UserString(w0, dir, vAddr, max - 1), f)
    ensures TaskString(w0, w5, dir, vAddr, dst, max, |UserString(w0, dir, vAddr, max - 1)|)
  {
    var bytes := SeenBytes(w0, dir, vAddr, max - 1);
    var s := Cut(bytes);
    CutIs(bytes);
    forall k: nat | k < |s|
      ensures SameCharacter(w0, w5, dir, vAddr, dst, k)
    {
      assert s[k] in s && s[k] == bytes[k];
      SeenAt(w0, dir, vAddr, max - 1, k);
    }
    if |s| + 1 < max {
      SeenAt(w0, dir, vAddr, max - 1, |s|);
    }
  }

  lemma SeenAt(w: seq<u32>, dir: u32, vAddr: u32, n: nat, k: nat)
    requires IsMemory(w) && dir % 4096 == 0 && k < n
    ensures SeenBytes(w, dir, vAddr, n)[k] == ByteAt(w, Physical(w, dir, (vAddr + k) % 0x1_0000_0000))
  {
    assert SeenBytes(w, dir, vAddr, n)[k] == Seen(w, dir, vAddr, k);
  }

  /** Pages lo to hi, counted like heap blocks. */
  ghost function PagesFrom(lo: nat, hi: nat): (pages: set<int>)
    requires lo <= hi
    ensures forall x :: x in pages <==> lo <= x + M.FIRST_FRAME <= hi
    decreases hi - lo
  {
    if lo == hi then {lo - M.FIRST_FRAME} else {lo - M.FIRST_FRAME} + PagesFrom(lo + 1, hi)
  }

  /** Page tables clear of the destination are exactly as they were. */
  lemma CopyKeepsTables(w0: seq<u32>, w5: seq<u32>, root: u32, dst: u32, s: seq<byte>, b: nat)
    requires CopyDone(w0, w5, dst, s, b + M.FIRST_FRAME) && SpaceWired(w0, root) && M.InHeap(w0, root)
    requires SpaceAvoids(w0, root, {b as int})
    requires forall k :: 0 <= k < 1026 ==>
               SpaceFrames(w0, root)[k] < dst / 4096 || (dst + |s|) / 4096 < SpaceFrames(w0, root)[k]
    ensures SameSpace(w0, w5, root)
    ensures View(w5, Directory(w5, root)) == View(w0, Directory(w0, root))
  {
    CopyWrites(w0, w5, dst, s, b);
    SpaceKept(w0, w5, root, {b as int} + PagesFrom(dst / 4096, (dst + |s|) / 4096));
  }

  /** A copy writes the buffer's block and the pages of its destination. */
  lemma CopyWrites(w0: seq<u32>, w5: seq<u32>, dst: u32, s: seq<byte>, b: nat)
    requires CopyDone(w0, w5, dst, s, b + M.FIRST_FRAME)
    ensures M.OnlyBlocksChanged(w0, w5, {b as int} + PagesFrom(dst / 4096, (dst + |s|) / 4096))
  {
    var written := {b as int} + PagesFrom(dst / 4096, (dst + |s|) / 4096);
    forall i: nat | i < MEMORY_WORDS && i / 1024 - M.FIRST_FRAME !in written
      ensures w5[i] == w0[i]
    {
      forall k: nat | k < 4
        ensures ByteOf(w5[i], k) == ByteOf(w0[i], k)
      {
        var a: u32 := 4 * i + k;
        assert a / 4 == i && a % 4 == k && a / 4096 == i / 1024;
        assert ByteAt(w5, a) == ByteAt(w0, a);
      }
      WordFromBytes(w5[i], w0[i]);
    }
  }

  /** Unmapping the buffer puts the entry back; the buffer still holds the string. */
  lemma BufferUnmapped(w0: seq<u32>, w1: seq<u32>, w2: seq<u32>, w3: seq<u32>, w4: seq<u32>, root: u32, b: nat,
                       s: seq<byte>)
    requires BufferMapped(w0, w1, w2, root, b) && |s| < 4096
    requires Stored(w2, w3, BlockToAddress(b), s)
    requires var i := EntryIndex(w0, Directory(w0, root), b + M.FIRST_FRAME); IsMemory(w3) && w4 == w3[i := w0[i]]
    ensures BufferHolds(w0, w4, BlockToAddress(b), s, b + M.FIRST_FRAME)
  {
    var i := EntryIndex(w0, Directory(w0, root), b + M.FIRST_FRAME);
    BufferSpace(w0, w1, w2, root, b);
    AddressOfBlock(b);
    forall a: u32 | a / 4096 != b + M.FIRST_FRAME
      ensures ByteAt(w4, a) == ByteAt(w0, a)
    {
      BufferByteBack(w0, w1, w2, w3, w4, i, b, |s|, a);
    }
    BufferTextStays(w3, w4, i, w0[i], b, s);
  }

  lemma BufferTextStays(w3: seq<u32>, w4: seq<u32>, i: nat, val: u32, b: nat, s: seq<byte>)
    requires IsMemory(w3) && i < MEMORY_WORDS && w4 == w3[i := val] && b < HEAP_BLOCKS && i / 1024 != b + M.FIRST_FRAME
    requires |s| < 4096 && BlockToAddress(b) + |s| < TWO_32
    requires (forall k :: 0 <= k < |s| ==> KernelByte(w3, BlockToAddress(b), k) == s[k])
    requires KernelByte(w3, BlockToAddress(b), |s|) == NUL
    ensures (forall k :: 0 <= k < |s| ==> KernelByte(w4, BlockToAddress(b), k) == s[k])
    ensures KernelByte(w4, BlockToAddress(b), |s|) == NUL
  {
    AddressOfBlock(b);
    forall k: nat | k <= |s|
      ensures KernelByte(w4, BlockToAddress(b), k) == KernelByte(w3, BlockToAddress(b), k)
    {
      assert (BlockToAddress(b) + k) / 4 / 1024 == b + M.FIRST_FRAME;
      WordElsewhere(w3, w4, i, val, BlockToAddress(b) + k);
    }
  }

  /** Page f holds the string at tmp; all other bytes are those of w0. */
  ghost predicate BufferHolds(w0: seq<u32>, w4: seq<u32>, tmp: u32, s: seq<byte>, f: int) {
    && IsMemory(w0) && IsMemory(w4) && tmp + |s| < TWO_32
    && (forall a: u32 :: a / 4096 != f ==> ByteAt(w4, a) == ByteAt(w0, a))
    && (forall k :: 0 <= k < |s| ==> KernelByte(w4, tmp, k) == s[k])
    && KernelByte(w4, tmp, |s|) == NUL
  }

  lemma BufferByteBack(w0: seq<u32>, w1: seq<u32>, w2: seq<u32>, w3: seq<u32>, w4: seq<u32>, i: nat, b: nat, n: nat,
                       a: u32)
    requires b < HEAP_BLOCKS && n < 4096 && M.OnlyBlocksChanged(w0, w1, {b as int}) && i < MEMORY_WORDS
    requires IsMemory(w2) && IsMemory(w3) && (forall j: nat :: j < MEMORY_WORDS && j != i ==> w2[j] == w1[j])
    requires forall x: u32 :: x < BlockToAddress(b) || BlockToAddress(b) + n < x ==> ByteAt(w3, x) == ByteAt(w2, x)
    requires w4 == w3[i := w0[i]] && a / 4096 != b + M.FIRST_FRAME
    ensures ByteAt(w4, a) == ByteAt(w0, a)
  {
    AddressOfBlock(b);
    if a / 4 != i {
      ByteKept(w0, w1, {b as int}, a);
      assert ByteAt(w2, a) == ByteAt(w1, a);
    }
  }

  lemma BufferString(w: seq<u32>, a: u32, s: seq<byte>, n: nat)
    requires IsMemory(w) && |s| <= n && a + n < TWO_32 && NUL !in s
    requires (forall k :: 0 <= k < |s| ==> KernelByte(w, a, k) == s[k]) && KernelByte(w, a, |s|) == NUL
    ensures Cut(KernelBytes(w, a, n)) == s
  {
    var text := KernelBytes(w, a, n);
    assert text[..|s|] == s;
    CutUnique(text, |s|);
  }

  /** tmp = kzalloc(max): one block. */
  method AllocateBuffer(machine: M.Machine, root: u32, max: nat, ghost b: nat) returns (tmp: u32)
    requires machine.Valid() && 1 <= max < 4096 && SpaceLive(machine.entries[..], machine.words[..], root)
    requires HasRun(machine.entries[..], 1) && b == FirstFit(machine.entries[..], 1)
    modifies machine.entries, machine.words
    ensures machine.Valid() && tmp == BlockToAddress(b) && b < HEAP_BLOCKS
    ensures machine.entries[..] == Take(old(machine.entries[..]), b, 1)
    ensures M.OnlyBlocksChanged(old(machine.words[..]), machine.words[..], {b as int})
    ensures SpaceAvoids(old(machine.words[..]), root, {b as int})
  {
    ghost var t0, w0 := machine.entries[..], machine.words[..];
    RequestReservesBlocksIff(max);
    tmp := machine.KZalloc(max);
    ZeroedBlocks(w0, machine.words[..], b, max);
    TakeAddsExtent(t0, b, 1);
    assert BlockRange(b, 1) == {b as int};
  }

  /** old_entry = paging_get(tmp), then paging_map(tmp, tmp). */
  method MapBuffer(machine: M.Machine, root: u32, tmp: u32, ghost w0: seq<u32>, ghost b: nat) returns (oldEntry: u32)
    requires machine.words.Length == MEMORY_WORDS && b < HEAP_BLOCKS && tmp == BlockToAddress(b)
    requires SpaceWired(w0, root) && M.InHeap(w0, root) && AllPresent(w0, Directory(w0, root))
    requires SpaceAvoids(w0, root, {b as int}) && M.OnlyBlocksChanged(w0, machine.words[..], {b as int})
    modifies machine.words
    ensures BufferMapped(w0, old(machine.words[..]), machine.words[..], root, b)
    ensures oldEntry == w0[EntryIndex(w0, Directory(w0, root), b + M.FIRST_FRAME)]
  {
    ghost var w1 := machine.words[..];
    FreshBuffer(w0, w1, root, b);
    var dir := machine.words[root / 4];
    oldEntry := machine.PagingGet(dir, tmp);
    var res := machine.PagingMap(root, tmp, tmp, READ_WRITE);
  }

  /** What the task's tables say of the buffer's page before it is mapped. */
  lemma FreshBuffer(w0: seq<u32>, w1: seq<u32>, root: u32, b: nat)
    requires b < HEAP_BLOCKS && SpaceWired(w0, root) && M.InHeap(w0, root) && AllPresent(w0, Directory(w0, root))
    requires SpaceAvoids(w0, root, {b as int}) && M.OnlyBlocksChanged(w0, w1, {b as int})
    ensures BlockToAddress(b) % 4096 == 0 && BlockToAddress(b) / 4096 == b + M.FIRST_FRAME
    ensures Directory(w1, root) == Directory(w0, root) && SpaceWired(w1, root)
    ensures Lookup(w1, Directory(w0, root), BlockToAddress(b))
         == w0[EntryIndex(w0, Directory(w0, root), b + M.FIRST_FRAME)]
  {
    AddressOfBlock(b);
    SpaceKept(w0, w1, root, {b as int});
    LookupIsView(w1, Directory(w0, root), BlockToAddress(b));
  }

  /** paging_set(tmp, old_entry). */
  method UnmapBuffer(machine: M.Machine, root: u32, tmp: u32, oldEntry: u32, ghost w0: seq<u32>, ghost w1: seq<u32>,
                     ghost w2: seq<u32>, ghost b: nat, ghost s: seq<byte>)
    returns (res: int)
    requires machine.words.Length == MEMORY_WORDS && BufferMapped(w0, w1, w2, root, b) && tmp == BlockToAddress(b)
    requires |s| < 4095
    requires oldEntry == w0[EntryIndex(w0, Directory(w0, root), b + M.FIRST_FRAME)]
    requires Stored(w2, machine.words[..], tmp, s)
    modifies machine.words
    ensures res == 0 && tmp + 4096 < TWO_32
    ensures BufferHolds(w0, machine.words[..], tmp, s, b + M.FIRST_FRAME)
  {
    ghost var w3 := machine.words[..];
    EntryPlace(w0, w1, w2, w3, root, b, s);
    res := machine.PagingSet(machine.words[root / 4], tmp, oldEntry);
    BufferUnmapped(w0, w1, w2, w3, machine.words[..], root, b, s);
  }

  /** The buffer's entry is where it was when the buffer has been filled. */
  lemma EntryPlace(w0: seq<u32>, w1: seq<u32>, w2: seq<u32>, w3: seq<u32>, root: u32, b: nat, s: seq<byte>)
    requires BufferMapped(w0, w1, w2, root, b) && |s| < 4095 && Stored(w2, w3, BlockToAddress(b), s)
    ensures BlockToAddress(b) % 4096 == 0 && BlockToAddress(b) / 4096 == b + M.FIRST_FRAME
    ensures BlockToAddress(b) + 4096 < TWO_32
    ensures Directory(w3, root) % 4096 == 0
    ensures EntryIndex(w3, Directory(w3, root), b + M.FIRST_FRAME)
         == EntryIndex(w0, Directory(w0, root), b + M.FIRST_FRAME)
  {
    BufferSpace(w0, w1, w2, root, b);
    AddressOfBlock(b);
    StoredInBlock(w2, w3, b, s);
    DirectoryKept(w2, w3, root, {b as int});
    SameDirectoryFacts(w2, w3, Directory(w2, root));
  }

  lemma StoredInBlock(w2: seq<u32>, w3: seq<u32>, b: nat, s: seq<byte>)
    requires b < HEAP_BLOCKS && |s| < 4095 && Stored(w2, w3, BlockToAddress(b), s)
    ensures M.OnlyBlocksChanged(w2, w3, {b as int})
  {
    ZeroedBlocks(w2, w3, b, 0x1000);
    assert BlockRange(b, BlocksFor(0x1000)) == {b as int};
  }

  lemma CopiedOut(w0: seq<u32>, w4: seq<u32>, w5: seq<u32>, dst: u32, tmp: u32, s: seq<byte>, f: int)
    requires BufferHolds(w0, w4, tmp, s, f) && Stored(w4, w5, dst, s)
    ensures CopyDone(w0, w5, dst, s, f)
  {
  }

  /** What strncpy finds in the buffer. */
  lemma BufferText(w0: seq<u32>, w4: seq<u32>, dst: u32, tmp: u32, max: nat, s: seq<byte>, f: int)
    requires 1 <= max < 4096 && tmp + 4096 < TWO_32 && |s| <= max - 1 && NUL !in s
    requires dst + max <= tmp || tmp + max <= dst
    requires BufferHolds(w0, w4, tmp, s, f)
    ensures Cut(Echoed(KernelBytes(w4, tmp, max - 1), Lag(dst, tmp))) == s
  {
    BufferString(w4, tmp, s, max - 1);
    EchoBeyond(KernelBytes(w4, tmp, max - 1), Lag(dst, tmp));
  }

  /** strncpy(physical, tmp, max) back in the kernel's own page tables. */
  method CopyOut(machine: M.Machine, dst: u32, tmp: u32, max: nat, ghost w0: seq<u32>, ghost b: nat, ghost s: seq<byte>)
    requires machine.words.Length == MEMORY_WORDS && 1 <= max < 4096 && dst + max <= TWO_32
    requires tmp + 4096 < TWO_32 && |s| <= max - 1 && NUL !in s
    requires dst + max <= tmp || tmp + max <= dst
    requires BufferHolds(w0, machine.words[..], tmp, s, b + M.FIRST_FRAME)
    modifies machine.words
    ensures CopyDone(w0, machine.words[..], dst, s, b + M.FIRST_FRAME)
  {
    ghost var w4 := machine.words[..];
    BufferText(w0, w4, dst, tmp, max, s, b + M.FIRST_FRAME);
    Strncpy(machine, dst, tmp, max);
    CopiedOut(w0, w4, machine.words[..], dst, tmp, s, b + M.FIRST_FRAME);
  }

  method FillBuffer(machine: M.Machine, root: u32, vAddr: u32, max: nat, tmp: u32,
                    ghost w0: seq<u32>, ghost w1: seq<u32>, ghost b: nat, ghost s: seq<byte>)
    requires machine.words.Length == MEMORY_WORDS && 1 <= max < 4096 && b < HEAP_BLOCKS && tmp == BlockToAddress(b)
    requires BufferMapped(w0, w1, machine.words[..], root, b)
    requires Readable(w0, root, vAddr, max - 1, b + M.FIRST_FRAME)
    requires s == UserString(w0, Directory(w0, root), vAddr, max - 1)
    modifies machine.words
    ensures Stored(old(machine.words[..]), machine.words[..], tmp, s)
  {
    ghost var w2 := machine.words[..];
    UserStringKept(w0, w1, w2, root, b, vAddr, max - 1);
    StrncpyFromUser(machine, root, tmp, vAddr, max, b, s);
  }

  lemma UserStringShort(w: seq<u32>, dir: u32, vAddr: u32, n: nat)
    requires IsMemory(w) && dir % 4096 == 0
    ensures |UserString(w, dir, vAddr, n)| <= n && NUL !in UserString(w, dir, vAddr, n)
  {
    CutIs(SeenBytes(w, dir, vAddr, n));
  }

  /** Everything between the allocation of the buffer and its release. */
  method CopyThroughBuffer(machine: M.Machine, root: u32, vAddr: u32, dst: u32, max: nat, tmp: u32,
                           ghost w0: seq<u32>, ghost b: nat, ghost s: seq<byte>)
    returns (res: int)
    requires machine.words.Length == MEMORY_WORDS && 1 <= max < 4096 && b < HEAP_BLOCKS && tmp == BlockToAddress(b)
    requires SpaceWired(w0, root) && M.InHeap(w0, root) && AllPresent(w0, Directory(w0, root))
    requires SpaceAvoids(w0, root, {b as int}) && M.OnlyBlocksChanged(w0, machine.words[..], {b as int})
    requires dst + max <= TWO_32 && (dst + max <= tmp || tmp + max <= dst)
    requires Readable(w0, root, vAddr, max - 1, b + M.FIRST_FRAME)
    requires s == UserString(w0, Directory(w0, root), vAddr, max - 1)
    modifies machine.words
    ensures res == 0 && CopyDone(w0, machine.words[..], dst, s, b + M.FIRST_FRAME)
  {
    ghost var w1 := machine.words[..];
    var oldEntry := MapBuffer(machine, root, tmp, w0, b);
    ghost var w2 := machine.words[..];
    FillBuffer(machine, root, vAddr, max, tmp, w0, w1, b, s);
    UserStringShort(w0, Directory(w0, root), vAddr, max - 1);
    res := UnmapBuffer(machine, root, tmp, oldEntry, w0, w1, w2, b, s);
    CopyOut(machine, dst, tmp, max, w0, b, s);
  }

  method ReleaseBuffer(machine: M.Machine, tmp: u32, ghost t0: seq<bv8>, ghost b: nat)
    requires machine.Valid() && b < HEAP_BLOCKS && tmp == BlockToAddress(b)
    requires WellFormed(t0) && RunAt(t0, b, 1) && machine.entries[..] == Take(t0, b, 1)
    modifies machine.entries
    ensures machine.Valid() && machine.entries[..] == t0
  {
    TakeThenReleaseRestores(t0, b, 1);
    TakeAddsExtent(t0, b, 1);
    AddressOfBlock(b);
    machine.KFree(tmp);
  }

  /**
   max characters at most, terminator included. The heap table and, outside the destination, every
   byte but the scratch bytes of the (free again) buffer page are exactly as before.
   */
  method CopyStringFromTask(machine: M.Machine, root: u32, vAddr: u32, dst: u32, max: nat) returns (res: int)
    requires machine.Valid() && max >= 1
    requires max < 4096 ==>
               && SpaceLive(machine.entries[..], machine.words[..], root)
               && AllPresent(machine.words[..], Directory(machine.words[..], root))
               && HasRun(machine.entries[..], 1)
               && dst + max <= TWO_32
               && Readable(machine.words[..], root, vAddr, max - 1, FirstFit(machine.entries[..], 1) + M.FIRST_FRAME)
               && (dst + max <= BlockToAddress(FirstFit(machine.entries[..], 1))
                   || BlockToAddress(FirstFit(machine.entries[..], 1)) + max <= dst)
    modifies machine.entries, machine.words
    ensures machine.Valid() && machine.entries[..] == old(machine.entries[..])
    ensures max >= 4096 ==> res == -2 && machine.words[..] == old(machine.words[..])
    ensures max < 4096 ==>
              && res == 0
              && CopyDone(old(machine.words[..]), machine.words[..], dst,
                          UserString(old(machine.words[..]), Directory(old(machine.words[..]), root), vAddr, max - 1),
                          FirstFit(old(machine.entries[..]), 1) + M.FIRST_FRAME)
    ensures max < 4096 ==>
              exists n ::
                TaskString(old(machine.words[..]), machine.words[..], Directory(old(machine.words[..]), root), vAddr,
                           dst, max, n)
  {
    if max >= PAGE_SIZE {
      return -EINVARG;
    }
    ghost var t0, w0, b := machine.entries[..], machine.words[..], FirstFit(machine.entries[..], 1);
    ghost var s := UserString(w0, Directory(w0, root), vAddr, max - 1);
    var tmp := AllocateBuffer(machine, root, max, b);
    res := CopyThroughBuffer(machine, root, vAddr, dst, max, tmp, w0, b, s);
    CopyDoneIsTaskString(w0, machine.words[..], Directory(w0, root), vAddr, dst, max, b + M.FIRST_FRAME);
    ReleaseBuffer(machine, tmp, t0, b);
  }
}
