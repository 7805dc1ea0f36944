/**
 The kernel heap's block table as a value. Every entry is one byte of flags; an allocation of n
 blocks is nothing but n flag bytes, and everything the allocator knows is read back from them.
 */
module HeapTable {
  import opened Status
  import opened Words

  const HEAP_BASE: u32 := 0x0100_0000
  const HEAP_BLOCKS: int := 25600
  const BLOCK_SIZE: int := 4096

  const FREE: bv8 := 0x00
  const TAKEN: bv8 := 0x01
  const FIRST: bv8 := 0x40
  const EXTENDS: bv8 := 0x80
  const TYPE_MASK: bv8 := 0x0F

  predicate IsFree(e: bv8) {
    e & TYPE_MASK == FREE
  }

  predicate Extends(e: bv8) {
    e & EXTENDS != 0
  }

  predicate IsFirst(e: bv8) {
    e & FIRST != 0
  }

  /** The flags of block k of an allocation of n blocks. */
  function Flag(k: nat, n: nat): bv8
    requires k < n
  {
    if k == 0 then (if n == 1 then TAKEN | FIRST else TAKEN | FIRST | EXTENDS)
    else if k == n - 1 then TAKEN
    else TAKEN | EXTENDS
  }

  /** The bytes of an allocation of one block, and the first, inner and last ones of a longer allocation. */
  lemma FlagBytes(k: nat, n: nat)
    requires k < n
    ensures Flag(k, n) == if n == 1 then 0x41 else if k == 0 then 0xC1 else if k < n - 1 then 0x81 else 0x01
  {
  }

  /** What a byte of the table says: the low four bits its type, bit 6 that it is a first one, bit 7 that it goes on. */
  lemma EntryBits(e: bv8)
    ensures IsFree(e) <==> e & 0x0F == 0
    ensures IsFirst(e) <==> e & 0x40 == 0x40
    ensures Extends(e) <==> e & 0x80 == 0x80
  {
  }

  // -- Runs of free blocks and the first fit ---------------------------------------------------

  ghost predicate RunAt(t: seq<bv8>, s: int, n: nat) {
    0 <= s && s + n <= |t| && forall i :: s <= i < s + n ==> IsFree(t[i])
  }

  ghost predicate HasRun(t: seq<bv8>, n: nat) {
    exists s: nat :: RunAt(t, s, n)
  }

  /** The least start of n consecutive free blocks. */
  ghost function FirstFit(t: seq<bv8>, n: nat): (s: nat)
    requires HasRun(t, n)
    ensures RunAt(t, s, n)
    ensures forall i :: RunAt(t, i, n) ==> s <= i
  {
    LeastRunExists(t, n);
    var s: nat :| RunAt(t, s, n) && forall i :: RunAt(t, i, n) ==> s <= i;
    s
  }

  lemma LeastRunExists(t: seq<bv8>, n: nat)
    requires HasRun(t, n)
    ensures exists s: nat :: RunAt(t, s, n) && forall i :: RunAt(t, i, n) ==> s <= i
  {
    var s: nat :| RunAt(t, s, n);
    var k := 0;
    while !RunAt(t, k, n)
      invariant 0 <= k <= s
      invariant forall i :: RunAt(t, i, n) ==> k <= i
      decreases s - k
    {
      k := k + 1;
    }
  }

  /** The start of the free run that reaches the end of the table; |t| when the last block is taken. */
  function TrailingStart(t: seq<bv8>): (s: nat)
    ensures s <= |t|
    ensures forall i :: s <= i < |t| ==> IsFree(t[i])
    ensures s > 0 ==> !IsFree(t[s - 1])
    decreases |t|
  {
    if t == [] then 0
    else if IsFree(t[|t| - 1]) then TrailingStart(t[..|t| - 1])
    else |t|
  }

  /** Blocks r to the end are free, and the one before r is not. */
  ghost predicate TrailingRunAt(t: seq<bv8>, r: int) {
    && 0 <= r < |t|
    && (forall i :: r <= i < |t| ==> IsFree(t[i]))
    && (r > 0 ==> !IsFree(t[r - 1]))
  }

  /**
   What a scan for n blocks comes to: the least start of a run of n if there is one; if there is none, or
   none was asked for, the start of the trailing free run, or -3 when the last block is in use.
   */
  ghost predicate Scanned(t: seq<bv8>, n: nat, r: int) {
    if n >= 1 && HasRun(t, n) then RunAt(t, r, n) && forall s: nat :: s < r ==> !RunAt(t, s, n)
    else if t != [] && IsFree(t[|t| - 1]) then TrailingRunAt(t, r)
    else r == -3
  }

  /** What the scan for n free blocks returns. */
  ghost function ScanResult(t: seq<bv8>, n: nat): (r: int)
    ensures Scanned(t, n, r)
  {
    if n >= 1 && HasRun(t, n) then FirstFit(t, n)
    else if TrailingStart(t) == |t| then -ENOMEM
    else TrailingStart(t)
  }

  /** What an allocation of no blocks may return. */
  ghost predicate EmptyAddress(t: seq<bv8>, addr: u32) {
    exists r :: Scanned(t, 0, r) && addr == 0x0100_0000 + 4096 * r
  }

  /** There is at most one such result. */
  lemma ScannedOnce(t: seq<bv8>, n: nat, r: int, r': int)
    requires Scanned(t, n, r) && Scanned(t, n, r')
    ensures r == r'
  {
  }

  // -- Writing flags ---------------------------------------------------------------------------

  /** t with an allocation of n blocks written at s. */
  function Take(t: seq<bv8>, s: nat, n: nat): (r: seq<bv8>)
    requires s + n <= |t|
    ensures |r| == |t|
    ensures forall i :: 0 <= i < |t| ==> r[i] == if s <= i < s + n then Flag(i - s, n) else t[i]
  {
    t[..s] + seq(n, k requires 0 <= k < n => Flag(k, n)) + t[s + n..]
  }

  /** t after clearing blocks from i on, up to and including the first one without EXTENDS. */
  function Release(t: seq<bv8>, i: nat): (r: seq<bv8>)
    ensures |r| == |t|
    decreases |t| - i
  {
    if i >= |t| then t
    else if Extends(t[i]) then Release(t[i := FREE], i + 1)
    else t[i := FREE]
  }

  /** A free that starts at block i walks to e: all before e go on to the next block, and e does not, or is the last. */
  ghost predicate WalkEnds(t: seq<bv8>, i: nat, e: nat) {
    && i <= e < |t| && (forall j :: i <= j < e ==> Extends(t[j]))
    && (e + 1 < |t| ==> !Extends(t[e]))
  }

  /** Whatever the table holds, a free zeroes the blocks it walks over and no others. */
  lemma {:induction false} ReleaseZeroes(t: seq<bv8>, i: nat) returns (e: nat)
    requires i < |t|
    ensures WalkEnds(t, i, e)
    ensures forall j :: 0 <= j < |t| ==> Release(t, i)[j] == if i <= j <= e then 0 else t[j]
    decreases |t| - i
  {
    if Extends(t[i]) && i + 1 < |t| {
      var u := t[i := FREE];
      e := ReleaseZeroes(u, i + 1);
      forall j | i <= j <= e
        ensures j < e ==> Extends(t[j])
        ensures e + 1 < |t| ==> !Extends(t[e])
      {
        assert j > i ==> u[j] == t[j];
      }
    } else {
      e := i;
    }
  }

  // -- The abstract map ------------------------------------------------------------------------

  /** How many blocks a free beginning at s walks over. */
  function ExtentLength(t: seq<bv8>, s: nat): (n: nat)
    requires s < |t|
    ensures 1 <= n && s + n <= |t|
    decreases |t| - s
  {
    if Extends(t[s]) && s + 1 < |t| then 1 + ExtentLength(t, s + 1) else 1
  }

  /** Start block to length, read back from the flags alone. */
  function Decode(t: seq<bv8>): map<nat, nat> {
    map s: nat | s < |t| && IsFirst(t[s]) :: ExtentLength(t, s)
  }

  ghost predicate Covers(ext: map<nat, nat>, s: nat, i: int) {
    s in ext && s <= i < s + ext[s]
  }

  ghost predicate Covered(ext: map<nat, nat>, i: int) {
    exists s: nat :: Covers(ext, s, i)
  }

  ghost predicate Apart(ext: map<nat, nat>) {
    forall a: nat, b: nat :: a in ext && b in ext && a < b ==> a + ext[a] <= b
  }

  /** t is made of zero entries and of exactly the flag strings of the extents in ext. */
  ghost predicate Represents(t: seq<bv8>, ext: map<nat, nat>) {
    && (forall s: nat :: s in ext ==> 1 <= ext[s] && s + ext[s] <= |t|)
    && Apart(ext)
    && (forall s: nat, i: nat :: Covers(ext, s, i) ==> t[i] == Flag(i - s, ext[s]))
    && (forall i :: 0 <= i < |t| && t[i] != FREE ==> Covered(ext, i))
  }

  /** Some map of extents is what the table's flags spell out. */
  ghost predicate WellFormed(t: seq<bv8>) {
    exists ext :: Represents(t, ext)
  }

  /** That map is the decoded one. */
  lemma WellFormedRepresents(t: seq<bv8>)
    requires WellFormed(t)
    ensures Represents(t, Decode(t))
  {
    var ext :| Represents(t, ext);
    DecodeIsTheOnlyReading(t, ext);
  }

  lemma FlagFacts(k: nat, n: nat)
    requires k < n
    ensures !IsFree(Flag(k, n))
    ensures Extends(Flag(k, n)) <==> k < n - 1
    ensures IsFirst(Flag(k, n)) <==> k == 0
  {
  }

  lemma {:induction false} ExtentLengthIs(t: seq<bv8>, ext: map<nat, nat>, s: nat, i: nat)
    requires Represents(t, ext) && Covers(ext, s, i)
    ensures ExtentLength(t, i) == s + ext[s] - i
    decreases |t| - i
  {
    FlagFacts(i - s, ext[s]);
    if i + 1 < s + ext[s] {
      assert Covers(ext, s, i + 1);
      ExtentLengthIs(t, ext, s, i + 1);
    }
  }

  lemma StartFlag(t: seq<bv8>, ext: map<nat, nat>, s: nat)
    requires Represents(t, ext) && s < |t|
    ensures s in ext <==> IsFirst(t[s])
    ensures s in ext ==> ExtentLength(t, s) == ext[s]
  {
    if s in ext {
      assert Covers(ext, s, s);
      FlagFacts(0, ext[s]);
      ExtentLengthIs(t, ext, s, s);
    } else if t[s] != FREE {
      assert Covered(ext, s);
      var a: nat :| Covers(ext, a, s);
      FlagFacts(s - a, ext[a]);
    }
  }

  /** The flags determine the extents: what a table represents is what it decodes to. */
  lemma DecodeIsTheOnlyReading(t: seq<bv8>, ext: map<nat, nat>)
    requires Represents(t, ext)
    ensures Decode(t) == ext && WellFormed(t)
  {
    forall s: nat | s < |t|
      ensures s in ext <==> IsFirst(t[s])
      ensures s in ext ==> ExtentLength(t, s) == ext[s]
    {
      StartFlag(t, ext, s);
    }
    assert forall s: nat :: s in ext ==> s < |t|;
    assert Decode(t).Keys == ext.Keys;
    assert Decode(t) == ext;
  }

  /** And the extents determine the flags. */
  lemma SameExtentsSameTable(t: seq<bv8>, u: seq<bv8>)
    requires WellFormed(t) && WellFormed(u) && |t| == |u| && Decode(t) == Decode(u)
    ensures t == u
  {
    WellFormedRepresents(t);
    WellFormedRepresents(u);
    var ext := Decode(t);
    forall i | 0 <= i < |t|
      ensures t[i] == u[i]
    {
      if s: nat :| Covers(ext, s, i) {
      } else {
        assert !Covered(ext, i);
      }
    }
  }

  lemma FreeMeansUncovered(t: seq<bv8>, ext: map<nat, nat>, i: nat)
    requires Represents(t, ext) && i < |t|
    ensures IsFree(t[i]) <==> !Covered(ext, i)
    ensures IsFree(t[i]) <==> t[i] == FREE
  {
    if s: nat :| Covers(ext, s, i) {
      FlagFacts(i - s, ext[s]);
    } else {
      assert !Covered(ext, i);
    }
  }

  // -- What one allocation and one free do to the map -----------------------------------------

  lemma RunUncovered(t: seq<bv8>, ext: map<nat, nat>, s: nat, n: nat)
    requires Represents(t, ext) && n >= 1 && RunAt(t, s, n)
    ensures s !in ext
    ensures forall a: nat :: a in ext ==> a + ext[a] <= s || s + n <= a
  {
    forall i: nat | s <= i < s + n
      ensures !Covered(ext, i)
    {
      FreeMeansUncovered(t, ext, i);
    }
    forall a: nat | a in ext
      ensures a != s && (a + ext[a] <= s || s + n <= a)
    {
      assert Covers(ext, a, a);
      assert Covered(ext, a);
      assert !Covers(ext, a, s);
    }
  }

  lemma TakeRepresents(t: seq<bv8>, ext: map<nat, nat>, s: nat, n: nat)
    requires Represents(t, ext) && n >= 1 && RunAt(t, s, n)
    ensures Represents(Take(t, s, n), ext[s := n])
  {
    RunUncovered(t, ext, s, n);
    var u := Take(t, s, n);
    var ext' := ext[s := n];
    forall i | 0 <= i < |u| && u[i] != FREE
      ensures Covered(ext', i)
    {
      if s <= i < s + n {
        assert Covers(ext', s, i);
      } else {
        assert t[i] != FREE;
        assert Covered(ext, i);
        var a: nat :| Covers(ext, a, i);
        assert Covers(ext', a, i);
      }
    }
    forall a: nat, i: nat | Covers(ext', a, i)
      ensures u[i] == Flag(i - a, ext'[a])
    {
      if a != s {
        assert Covers(ext, a, i);
      }
    }
  }

  /** Taking a free run adds exactly one extent. */
  lemma TakeAddsExtent(t: seq<bv8>, s: nat, n: nat)
    requires WellFormed(t) && n >= 1 && RunAt(t, s, n)
    ensures WellFormed(Take(t, s, n))
    ensures s !in Decode(t)
    ensures Decode(Take(t, s, n)) == Decode(t)[s := n]
    ensures forall a: nat :: a in Decode(t) ==> a + Decode(t)[a] <= s || s + n <= a
  {
    WellFormedRepresents(t);
    RunUncovered(t, Decode(t), s, n);
    TakeRepresents(t, Decode(t), s, n);
    DecodeIsTheOnlyReading(Take(t, s, n), Decode(t)[s := n]);
  }

  /** Taken blocks [s, s+n) blanked out. */
  function Cleared(t: seq<bv8>, s: nat, n: nat): (r: seq<bv8>)
    requires s + n <= |t|
    ensures |r| == |t|
    ensures forall i :: 0 <= i < |t| ==> r[i] == if s <= i < s + n then FREE else t[i]
  {
    seq(|t|, i requires 0 <= i < |t| => if s <= i < s + n then FREE else t[i])
  }

  lemma {:induction false} ReleaseClears(t: seq<bv8>, s: nat)
    requires s < |t|
    ensures Release(t, s) == Cleared(t, s, ExtentLength(t, s))
    decreases |t| - s
  {
    if Extends(t[s]) && s + 1 < |t| {
      var u := t[s := FREE];
      ExtentLengthAhead(t, u, s + 1);
      ReleaseClears(u, s + 1);
    }
  }

  lemma {:induction false} ExtentLengthAhead(t: seq<bv8>, u: seq<bv8>, i: nat)
    requires i < |t| == |u| && t[i..] == u[i..]
    ensures ExtentLength(t, i) == ExtentLength(u, i)
    decreases |t| - i
  {
    assert t[i] == t[i..][0] == u[i..][0] == u[i];
    if i + 1 < |t| {
      assert t[i + 1..] == t[i..][1..] == u[i..][1..] == u[i + 1..];
      ExtentLengthAhead(t, u, i + 1);
    }
  }

  lemma ClearedRepresents(t: seq<bv8>, ext: map<nat, nat>, s: nat)
    requires Represents(t, ext) && s in ext
    ensures Represents(Cleared(t, s, ext[s]), ext - {s})
  {
    var ext' := ext - {s};
    var u := Cleared(t, s, ext[s]);
    forall i | 0 <= i < |u| && u[i] != FREE
      ensures Covered(ext', i)
    {
      assert Covered(ext, i);
      var a: nat :| Covers(ext, a, i);
      assert a != s;
      assert Covers(ext', a, i);
    }
    forall a: nat, i: nat | Covers(ext', a, i)
      ensures u[i] == Flag(i - a, ext'[a])
    {
      assert Covers(ext, a, i);
    }
  }

  /** Freeing the start of a live extent removes exactly that extent. */
  lemma ReleaseRemovesExtent(t: seq<bv8>, s: nat)
    requires WellFormed(t) && s in Decode(t)
    ensures WellFormed(Release(t, s))
    ensures Decode(Release(t, s)) == Decode(t) - {s}
    ensures Release(t, s) == Cleared(t, s, Decode(t)[s])
  {
    WellFormedRepresents(t);
    var ext := Decode(t);
    ReleaseClears(t, s);
    ClearedRepresents(t, ext, s);
    DecodeIsTheOnlyReading(Release(t, s), ext - {s});
  }

  /** Alloc then free of its result gives back the table byte for byte. */
  lemma TakeThenReleaseRestores(t: seq<bv8>, s: nat, n: nat)
    requires WellFormed(t) && n >= 1 && RunAt(t, s, n)
    ensures Release(Take(t, s, n), s) == t
  {
    TakeAddsExtent(t, s, n);
    var u := Take(t, s, n);
    ReleaseRemovesExtent(u, s);
    AddThenRemove(Decode(t), s, n);
    SameExtentsSameTable(Release(u, s), t);
  }

  lemma AddThenRemove(ext: map<nat, nat>, s: nat, n: nat)
    requires s !in ext
    ensures ext[s := n] - {s} == ext
  {
  }

  /** Freeing a block that is free changes nothing. */
  lemma ReleaseOfFreeBlock(t: seq<bv8>, s: nat)
    requires WellFormed(t) && (s >= |t| || IsFree(t[s]))
    ensures Release(t, s) == t
  {
    WellFormedRepresents(t);
    if s < |t| {
      FreeMeansUncovered(t, Decode(t), s);
    }
  }

  /** Block b starts a live extent, lies past the table, or is free already. */
  ghost predicate CanFree(t: seq<bv8>, b: nat) {
    b in Decode(t) || b >= |t| || IsFree(t[b])
  }

  /**
   A free keeps the table well-formed exactly when it is given the start of a live extent or a block
   that is not live: freeing from the middle leaves a last block that still says it is extended.
   */
  lemma ReleaseKeepsWellFormedIff(t: seq<bv8>, b: nat)
    requires WellFormed(t)
    ensures WellFormed(Release(t, b)) <==> CanFree(t, b)
  {
    WellFormedRepresents(t);
    if b in Decode(t) {
      ReleaseRemovesExtent(t, b);
    } else if b >= |t| || IsFree(t[b]) {
      ReleaseOfFreeBlock(t, b);
    } else {
      FreeMeansUncovered(t, Decode(t), b);
      var s: nat :| Covers(Decode(t), s, b);
      MidReleaseBreaks(t, s, b);
    }
  }

  lemma MidReleaseBreaks(t: seq<bv8>, s: nat, b: nat)
    requires Represents(t, Decode(t)) && Covers(Decode(t), s, b) && s < b
    ensures !WellFormed(Release(t, b))
  {
    ReleaseClears(t, b);
    var u := Release(t, b);
    assert Covers(Decode(t), s, b - 1);
    FlagFacts(b - 1 - s, Decode(t)[s]);
    assert u[b] == FREE && u[b - 1] == t[b - 1];
    if WellFormed(u) {
      ExtendedIsFollowed(u, b);
    }
  }

  /** In a well-formed table a live block that says it is extended has a live block after it. */
  lemma ExtendedIsFollowed(t: seq<bv8>, b: nat)
    requires WellFormed(t) && 0 < b < |t| && !IsFree(t[b - 1]) && Extends(t[b - 1])
    ensures !IsFree(t[b])
  {
    WellFormedRepresents(t);
    var ext := Decode(t);
    FreeMeansUncovered(t, ext, b - 1);
    FreeMeansUncovered(t, ext, b);
    var a: nat :| Covers(ext, a, b - 1);
    FlagFacts(b - 1 - a, ext[a]);
    assert Covers(ext, a, b);
  }

  /**
   The scan serves a request exactly when a long enough run exists. Otherwise it still returns the
   start of a trailing run that is too short, if the last block is free.
   */
  lemma ScanServesIff(t: seq<bv8>, n: nat)
    requires n >= 1
    ensures RunAt(t, ScanResult(t, n), n) <==> HasRun(t, n)
    ensures !HasRun(t, n) ==> (ScanResult(t, n) >= 0 <==> t != [] && IsFree(t[|t| - 1]))
  {
    if RunAt(t, ScanResult(t, n), n) {
      var s: nat := ScanResult(t, n);
      assert RunAt(t, s, n);
    }
  }

  /** One free block and a request for two: the scan answers 0. */
  lemma ScanOverpromises()
    ensures !HasRun([FREE], 2) && ScanResult([FREE], 2) == 0
  {
    assert forall s: nat :: !RunAt([FREE], s, 2);
    assert TrailingStart([FREE]) == 0 by {
      assert IsFree([FREE][0]);
      assert [FREE][..0] == [];
    }
  }

  // -- Sizes and addresses ---------------------------------------------------------------------

  /** The size rounded up to whole blocks, in 32-bit arithmetic. */
  function AlignSize(size: u32): u32 {
    if size % BLOCK_SIZE == 0 then size else Add32(size, BLOCK_SIZE - size % BLOCK_SIZE)
  }

  function BlocksFor(size: u32): nat {
    AlignSize(size) / BLOCK_SIZE
  }

  // -- Where a first fit falls -----------------------------------------------------------------

  /** All blocks below g are in use, and those from g to e are free. */
  ghost predicate Gap(t: seq<bv8>, g: nat, e: nat) {
    && g <= e <= |t|
    && (forall i :: 0 <= i < g ==> !IsFree(t[i]))
    && (forall i :: g <= i < e ==> IsFree(t[i]))
  }

  /** A request the first gap has room for is served at its start. */
  lemma FirstFitInGap(t: seq<bv8>, g: nat, e: nat, n: nat)
    requires Gap(t, g, e) && n >= 1 && g + n <= e
    ensures HasRun(t, n) && FirstFit(t, n) == g && Gap(Take(t, g, n), g + n, e)
  {
    assert RunAt(t, g, n);
    var s := FirstFit(t, n);
    assert IsFree(t[s]);
    forall k | 0 <= k < n
      ensures !IsFree(Flag(k, n))
    {
      FlagFacts(k, n);
    }
  }

  function BlockToAddress(b: nat): u32 {
    Add32(HEAP_BASE, b * BLOCK_SIZE)
  }

  /** The address that goes with what a scan returns, the error code -3 included. */
  lemma ScanAddress(r: int)
    requires -3 <= r < HEAP_BLOCKS
    ensures BlockToAddress(r % TWO_32) == 0x0100_0000 + 4096 * r
  {
    if r < 0 {
      assert r % TWO_32 == TWO_32 + r;
      assert HEAP_BASE + (TWO_32 + r) * BLOCK_SIZE == (HEAP_BASE + r * BLOCK_SIZE) + BLOCK_SIZE * TWO_32;
      WholeTurns(HEAP_BASE + r * BLOCK_SIZE, BLOCK_SIZE);
    } else {
      AddressOfBlock(r);
    }
  }

  /** What an allocation of no blocks returns is a page address all the same, and never null. */
  lemma EmptyAddressIs(t: seq<bv8>, addr: u32)
    requires |t| == HEAP_BLOCKS && EmptyAddress(t, addr)
    ensures addr % 4096 == 0 && addr != 0
  {
    var r :| Scanned(t, 0, r) && addr == 0x0100_0000 + 4096 * r;
    assert addr == 4096 * (0x1000 + r) && -3 <= r;
  }

  lemma WholeTurns(a: u32, k: nat)
    ensures (a + k * TWO_32) % TWO_32 == a
  {
  }

  function AddressToBlock(addr: u32): nat {
    Sub32(addr, HEAP_BASE) / BLOCK_SIZE
  }

  /** A request reserves blocks exactly when it is positive and rounding it up does not wrap. */
  lemma RequestReservesBlocksIff(size: u32)
    ensures BlocksFor(size) >= 1 <==> 0 < size <= 0xFFFF_F000
    ensures BlocksFor(size) >= 1 ==>
              (BlocksFor(size) - 1) * BLOCK_SIZE < size <= BlocksFor(size) * BLOCK_SIZE
  {
  }

  lemma AddressOfBlock(b: nat)
    requires b < HEAP_BLOCKS
    ensures AddressToBlock(BlockToAddress(b)) == b
    ensures BlockToAddress(b) == 0x0100_0000 + 4096 * b
    ensures BlockToAddress(b) % BLOCK_SIZE == 0
  {
  }

  // -- Conservation ----------------------------------------------------------------------------

  /** Free blocks among the first k. */
  function FreeUpTo(t: seq<bv8>, k: nat): nat
    requires k <= |t|
  {
    if k == 0 then 0 else FreeUpTo(t, k - 1) + if IsFree(t[k - 1]) then 1 else 0
  }

  function FreeCount(t: seq<bv8>): nat {
    FreeUpTo(t, |t|)
  }

  /** Total length of the extents starting below k. */
  function TotalLength(ext: map<nat, nat>, k: nat): nat {
    if k == 0 then 0 else TotalLength(ext, k - 1) + if k - 1 in ext then ext[k - 1] else 0
  }

  function Clamp(x: int, n: nat): nat {
    if x < 0 then 0 else if x > n then n else x
  }

  lemma {:induction false} FreeUpToDiffers(t: seq<bv8>, u: seq<bv8>, s: nat, n: nat, k: nat)
    requires |t| == |u| && s + n <= |t| && k <= |t|
    requires forall i :: s <= i < s + n ==> !IsFree(t[i]) && IsFree(u[i])
    requires forall i :: 0 <= i < |t| && !(s <= i < s + n) ==> t[i] == u[i]
    ensures FreeUpTo(u, k) == FreeUpTo(t, k) + Clamp(k - s, n)
  {
    if k > 0 {
      FreeUpToDiffers(t, u, s, n, k - 1);
    }
  }

  lemma FreeCountAfterTake(t: seq<bv8>, s: nat, n: nat)
    requires RunAt(t, s, n)
    ensures FreeCount(Take(t, s, n)) == FreeCount(t) - n
  {
    var u := Take(t, s, n);
    forall i | s <= i < s + n
      ensures !IsFree(u[i])
    {
      FlagFacts(i - s, n);
    }
    FreeUpToDiffers(u, t, s, n, |t|);
  }

  lemma FreeCountAfterClear(t: seq<bv8>, ext: map<nat, nat>, s: nat)
    requires Represents(t, ext) && s in ext
    ensures FreeCount(Cleared(t, s, ext[s])) == FreeCount(t) + ext[s]
  {
    forall i: nat | s <= i < s + ext[s]
      ensures !IsFree(t[i])
    {
      assert Covers(ext, s, i);
      FlagFacts(i - s, ext[s]);
    }
    FreeUpToDiffers(t, Cleared(t, s, ext[s]), s, ext[s], |t|);
  }

  lemma {:induction false} TotalLengthWithout(ext: map<nat, nat>, s: nat, k: nat)
    requires s in ext
    ensures TotalLength(ext, k) == TotalLength(ext - {s}, k) + if s < k then ext[s] else 0
  {
    if k > 0 {
      TotalLengthWithout(ext, s, k - 1);
    }
  }

  lemma {:induction false} AllFree(t: seq<bv8>, k: nat)
    requires k <= |t| && forall i :: 0 <= i < k ==> IsFree(t[i])
    ensures FreeUpTo(t, k) == k
  {
    if k > 0 {
      AllFree(t, k - 1);
    }
  }

  lemma {:induction false} NoLength(k: nat)
    ensures TotalLength(map[], k) == 0
  {
    if k > 0 {
      NoLength(k - 1);
    }
  }

  lemma {:induction false} Conservation(t: seq<bv8>, ext: map<nat, nat>)
    requires Represents(t, ext)
    ensures FreeCount(t) + TotalLength(ext, |t|) == |t|
    decreases |ext|
  {
    if ext == map[] {
      forall i: nat | i < |t|
        ensures IsFree(t[i])
      {
        FreeMeansUncovered(t, ext, i);
      }
      AllFree(t, |t|);
      NoLength(|t|);
    } else {
      var s :| s in ext;
      ClearedRepresents(t, ext, s);
      assert (ext - {s}).Keys == ext.Keys - {s};
      assert |ext - {s}| < |ext|;
      Conservation(Cleared(t, s, ext[s]), ext - {s});
      FreeCountAfterClear(t, ext, s);
      TotalLengthWithout(ext, s, |t|);
    }
  }

  /** Free blocks plus extent lengths make up the whole table. */
  lemma FreePlusLiveIsTotal(t: seq<bv8>)
    requires WellFormed(t)
    ensures FreeCount(t) + TotalLength(Decode(t), |t|) == |t|
  {
    WellFormedRepresents(t);
    Conservation(t, Decode(t));
  }

  lemma {:induction false} SomeFree(t: seq<bv8>, k: nat)
    requires k <= |t|
    ensures FreeUpTo(t, k) >= 1 <==> exists i: nat :: i < k && IsFree(t[i])
  {
    if k > 0 {
      SomeFree(t, k - 1);
    }
  }

  /** A single block can be had exactly when some block is free. */
  lemma OneBlockFits(t: seq<bv8>)
    ensures HasRun(t, 1) <==> FreeCount(t) >= 1
  {
    SomeFree(t, |t|);
    if HasRun(t, 1) {
      var s: nat :| RunAt(t, s, 1);
      assert IsFree(t[s]);
    }
    if i: nat :| i < |t| && IsFree(t[i]) {
      assert RunAt(t, i, 1);
    }
  }

  // -- Whole runs: the byte table refines an allocator on a map -------------------------------

  ghost predicate FitsAt(ext: map<nat, nat>, total: nat, s: nat, n: nat) {
    s + n <= total && forall a: nat :: a in ext ==> a + ext[a] <= s || s + n <= a
  }

  lemma RunIsGap(t: seq<bv8>, ext: map<nat, nat>, s: nat, n: nat)
    requires Represents(t, ext) && n >= 1
    ensures RunAt(t, s, n) <==> FitsAt(ext, |t|, s, n)
  {
    if RunAt(t, s, n) {
      RunUncovered(t, ext, s, n);
    }
    if FitsAt(ext, |t|, s, n) {
      forall i: nat | s <= i < s + n
        ensures IsFree(t[i])
      {
        FreeMeansUncovered(t, ext, i);
        assert !Covered(ext, i);
      }
    }
  }

  datatype HeapOp = Alloc(size: u32) | Free(ptr: u32)

  ghost predicate Allowed(t: seq<bv8>, op: HeapOp) {
    match op
    case Alloc(size) => 0 < size <= 0xFFFF_F000 && HasRun(t, BlocksFor(size))
    case Free(ptr) => AddressToBlock(ptr) in Decode(t)
  }

  ghost function ApplyOp(t: seq<bv8>, op: HeapOp): (u: seq<bv8>)
    requires Allowed(t, op)
    ensures |u| == |t|
  {
    match op
    case Alloc(size) =>
      RequestReservesBlocksIff(size);
      Take(t, FirstFit(t, BlocksFor(size)), BlocksFor(size))
    case Free(ptr) => Release(t, AddressToBlock(ptr))
  }

  /** The same operation on the map: least gap in, one extent out. */
  ghost predicate AbstractStep(total: nat, ext: map<nat, nat>, op: HeapOp, ext': map<nat, nat>) {
    match op
    case Alloc(size) =>
      exists s: nat ::
        && FitsAt(ext, total, s, BlocksFor(size))
        && (forall i: nat :: FitsAt(ext, total, i, BlocksFor(size)) ==> s <= i)
        && s !in ext
        && ext' == ext[s := BlocksFor(size)]
    case Free(ptr) =>
      AddressToBlock(ptr) in ext && ext' == ext - {AddressToBlock(ptr)}
  }

  lemma StepRefines(t: seq<bv8>, op: HeapOp)
    requires WellFormed(t) && Allowed(t, op)
    ensures WellFormed(ApplyOp(t, op))
    ensures AbstractStep(|t|, Decode(t), op, Decode(ApplyOp(t, op)))
  {
    WellFormedRepresents(t);
    match op
    case Alloc(size) =>
      RequestReservesBlocksIff(size);
      var n := BlocksFor(size);
      var s := FirstFit(t, n);
      TakeAddsExtent(t, s, n);
      RunIsGap(t, Decode(t), s, n);
      forall i: nat | FitsAt(Decode(t), |t|, i, n)
        ensures s <= i
      {
        RunIsGap(t, Decode(t), i, n);
      }
    case Free(ptr) =>
      ReleaseRemovesExtent(t, AddressToBlock(ptr));
  }

  ghost predicate AllowedRun(t: seq<bv8>, ops: seq<HeapOp>)
    decreases |ops|
  {
    ops == [] || (Allowed(t, ops[0]) && AllowedRun(ApplyOp(t, ops[0]), ops[1..]))
  }

  ghost function RunOps(t: seq<bv8>, ops: seq<HeapOp>): seq<bv8>
    requires AllowedRun(t, ops)
    decreases |ops|
  {
    if ops == [] then t else RunOps(ApplyOp(t, ops[0]), ops[1..])
  }

  ghost predicate AbstractRun(total: nat, ext: map<nat, nat>, ops: seq<HeapOp>, ext': map<nat, nat>)
    decreases |ops|
  {
    if ops == [] then ext' == ext
    else exists mid :: AbstractStep(total, ext, ops[0], mid) && AbstractRun(total, mid, ops[1..], ext')
  }

  /** Every run of the byte-table allocator is a run of the map allocator, and loses no block. */
  lemma {:induction false} RunsRefine(t: seq<bv8>, ops: seq<HeapOp>)
    requires WellFormed(t) && AllowedRun(t, ops)
    ensures WellFormed(RunOps(t, ops)) && |RunOps(t, ops)| == |t|
    ensures AbstractRun(|t|, Decode(t), ops, Decode(RunOps(t, ops)))
    ensures FreeCount(RunOps(t, ops)) + TotalLength(Decode(RunOps(t, ops)), |t|) == |t|
    decreases |ops|
  {
    if ops == [] {
      FreePlusLiveIsTotal(t);
    } else {
      StepRefines(t, ops[0]);
      RunsRefine(ApplyOp(t, ops[0]), ops[1..]);
    }
  }

  /** The table kheap_init leaves behind has no extents. */
  lemma EmptyTableIsWellFormed(t: seq<bv8>)
    requires forall i :: 0 <= i < |t| ==> t[i] == FREE
    ensures WellFormed(t) && Decode(t) == map[]
  {
    assert Represents(t, map[]);
    DecodeIsTheOnlyReading(t, map[]);
  }

  ghost function FreeBlocks(t: seq<bv8>): set<int> {
    set b: int | 0 <= b < |t| && IsFree(t[b])
  }

  lemma LiveBlockNotFree(t: seq<bv8>, b: nat)
    requires WellFormed(t) && b in Decode(t)
    ensures b !in FreeBlocks(t)
  {
    WellFormedRepresents(t);
    assert Covers(Decode(t), b, b);
    assert Covered(Decode(t), b);
    FreeMeansUncovered(t, Decode(t), b);
  }
}
