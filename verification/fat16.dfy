/** fat16.c: where a cluster lies on the disk, and reads that stay with a file's first cluster. */
module Fat16 {
  import opened Status
  import opened Words
  import opened Streamer

  const ITEM_BYTES: int := 32
  const END_OF_FILE: int := 0xFF8
  const LAST: int := 0xFFF
  const BAD_SECTOR: int := 0xFF7

  type u16 = x: int | 0 <= x < 0x1_0000

  /** The fields of the boot sector the reader uses. */
  datatype Header = Header(reservedSectors: u16, fatCopies: byte, sectorsPerFat: u16, rootEntries: u16,
                           sectorsPerCluster: byte)

  // -- Where clusters lie ------------------------------------------------------------------------

  function RootSector(h: Header): nat {
    h.fatCopies * h.sectorsPerFat + h.reservedSectors
  }

  /** root_directory.ending_sector_pos. */
  function EndingSector(h: Header): nat {
    RootSector(h) + h.rootEntries * ITEM_BYTES / SECTOR_SIZE
  }

  /** FirstDataSector and FirstSectorofCluster, "FAT Data Structure", Microsoft FAT specification fatgen103. */
  function RootDirSectors(h: Header): nat {
    (h.rootEntries * ITEM_BYTES + (SECTOR_SIZE - 1)) / SECTOR_SIZE
  }

  function FirstDataSector(h: Header): int {
    h.reservedSectors + h.fatCopies * h.sectorsPerFat + RootDirSectors(h)
  }

  function FirstSectorOfCluster(h: Header, n: nat): int {
    (n - 2) * h.sectorsPerCluster + FirstDataSector(h)
  }

  /** fat16_cluster_to_sector, in 32-bit arithmetic. */
  function ClusterToSector(h: Header, cluster: u32): u32 {
    Add32(EndingSector(h), (cluster - 2) * h.sectorsPerCluster % TWO_32)
  }

  /**
   The kernel's cluster numbering is the specification's exactly when the root directory, of 16 entries
   a sector, fills whole sectors; otherwise it is one sector short.
   */
  lemma ClusterToSectorIff(h: Header, cluster: u32)
    requires 2 <= cluster < 0x1_0000
    ensures ClusterToSector(h, cluster) == FirstSectorOfCluster(h, cluster) <==> h.rootEntries % 16 == 0
    ensures ClusterToSector(h, cluster) == FirstSectorOfCluster(h, cluster) - if h.rootEntries % 16 == 0 then 0 else 1
  {
    Bounded(cluster - 2, h.sectorsPerCluster, 0xFFFF, 0xFF);
    Bounded(h.fatCopies, h.sectorsPerFat, 0xFF, 0xFFFF);
    NoWrap(EndingSector(h), (cluster - 2) * h.sectorsPerCluster);
  }

  lemma Bounded(a: nat, b: nat, m: nat, n: nat)
    requires a <= m && b <= n
    ensures 0 <= a * b <= m * n
  {
    assert a * b <= m * b <= m * n;
  }

  lemma NoWrap(a: nat, b: nat)
    requires a + b < TWO_32
    ensures Add32(a, b % TWO_32) == a + b
  {
  }

  /** The specification's numbering in full. */
  lemma SpecifiedSector(h: Header, n: nat)
    ensures FirstSectorOfCluster(h, n)
         == h.reservedSectors + h.fatCopies * h.sectorsPerFat + (h.rootEntries + 15) / 16
            + (n - 2) * h.sectorsPerCluster
  {
  }

  /** fat16_get_first_cluster. */
  function FirstCluster(high: u16, low: u16): nat {
    Or(high, low)
  }

  /** The two words of a directory entry are or-ed as they stand, the high one not shifted. */
  lemma FirstClusterIs(high: u16, low: u16)
    ensures FirstCluster(high, low) < 0x1_0000 && FirstCluster(0, low) == low && FirstCluster(high, 0) == high
    ensures forall k: nat :: DigitSet(FirstCluster(high, low), k) <==> DigitSet(high, k) || DigitSet(low, k)
  {
    TwoToSixteen(16);
    OrBound(high, low, 16);
    forall k: nat
      ensures DigitSet(FirstCluster(high, low), k) <==> DigitSet(high, k) || DigitSet(low, k)
    {
      DigitsOfOrAnd(high, low, k);
    }
  }

  // -- Reading -----------------------------------------------------------------------------------

  function ClusterBytes(h: Header): nat {
    h.sectorsPerCluster * SECTOR_SIZE
  }

  /** First byte of a cluster on the disk. */
  function ClusterStart(h: Header, cluster: nat): nat
    requires cluster >= 2
  {
    Product(cluster - 2, h.sectorsPerCluster);
    (EndingSector(h) + (cluster - 2) * h.sectorsPerCluster) * SECTOR_SIZE
  }

  /** A request one pass of the reader's loop can serve. */
  predicate OnePass(h: Header, offset: nat, total: nat) {
    offset < ClusterBytes(h) && total <= ClusterBytes(h)
  }

  /** Bytes [offset, offset + total) counted from the cluster's start lie on the disk. */
  ghost predicate OnDisk(h: Header, disk: seq<byte>, cluster: nat, offset: nat, total: nat) {
    && cluster >= 2 && h.sectorsPerCluster >= 1 && |disk| % SECTOR_SIZE == 0
    && ClusterStart(h, cluster) + offset + total <= |disk|
    && ClusterStart(h, cluster) + offset + total < TWO_32
  }

  lemma StartInWords(h: Header, disk: seq<byte>, cluster: u32, offset: nat, total: nat)
    requires OnDisk(h, disk, cluster, offset, total)
    ensures ClusterToSector(h, cluster) * SECTOR_SIZE + offset == ClusterStart(h, cluster) + offset < TWO_32
  {
    Product(cluster - 2, h.sectorsPerCluster);
    NoWrap(EndingSector(h), (cluster - 2) * h.sectorsPerCluster);
  }

  lemma Product(a: nat, b: nat)
    ensures 0 <= a * b
  {
  }

  /** A mounted volume; fat(n) is what reading the table entry of cluster n yields. */
  class Volume {
    const header: Header
    const stream: DiskStream
    const fat: u32 -> int

    constructor (header: Header, stream: DiskStream, fat: u32 -> int)
      ensures this.header == header && this.stream == stream && this.fat == fat
    {
      this.header, this.stream, this.fat := header, stream, fat;
    }

    /**
     fat16_get_cluster_for_offset. The test for reserved entries holds of every value, so a chain
     is never followed: any offset past the first cluster is an error, whatever the table holds.
     */
    method GetClusterForOffset(cluster: u32, offset: nat) returns (res: int)
      requires header.sectorsPerCluster >= 1
      ensures res == if offset < ClusterBytes(header) then cluster else -1
    {
      var size := ClusterBytes(header);
      var clusterToUse, ahead := cluster, offset / size;
      AheadIff(offset, size);
      if ahead > 0 {
        // The first turn of the loop is also the last.
        var entry := fat(clusterToUse);
        if entry == END_OF_FILE || entry == LAST {
          return -EIO;
        }
        if entry == BAD_SECTOR {
          return -EIO;
        } else if entry >= 0xFF0 || entry <= 0xFF6 {
          return -EIO;
        }
        assert false;
      }
      res := clusterToUse;
    }

    /** Where a pass starts on the disk. */
    method PassStart(cluster: u32, offset: nat, ghost total: nat) returns (start: u32)
      requires OnDisk(header, stream.disk, cluster, offset, total) && OnePass(header, offset, total)
      ensures start == ClusterStart(header, cluster) + offset
    {
      AheadIff(offset, ClusterBytes(header));
      StartInWords(header, stream.disk, cluster, offset, total);
      var offsetFromCluster := offset % ClusterBytes(header);
      start := (ClusterToSector(header, cluster) * SECTOR_SIZE + offsetFromCluster) % TWO_32;
    }

    /** One pass: seek to the offset inside the cluster and read. */
    method ReadPass(cluster: u32, offset: nat, total: nat, out: array<byte>, to: nat) returns (res: int)
      requires OnDisk(header, stream.disk, cluster, offset, total) && to + total <= out.Length
      requires OnePass(header, offset, total)
      modifies stream, out
      ensures res == 0
      ensures CopiedTo(out[..], old(out[..]), to, stream.disk, ClusterStart(header, cluster) + offset, total)
    {
      var start := PassStart(cluster, offset, total);
      ghost var before := out[..];
      res := stream.Seek(start);
      res := stream.Read(out, to, total);
      PutIsCopied(out[..], before, to, stream.disk, start, total);
    }

    /**
     fat16_read_internal. A request is served when it starts inside the first cluster and asks for
     at most a cluster; any other ends in -EIO after at most one pass.
     */
    method ReadInternal(cluster: u32, first: nat, count: nat, out: array<byte>, at: nat) returns (res: int)
      requires OnDisk(header, stream.disk, cluster, first, count) && at + count <= out.Length
      modifies stream, out
      ensures count == 0 || OnePass(header, first, count) ==>
                && res == 0
                && CopiedTo(out[..], old(out[..]), at, stream.disk, ClusterStart(header, cluster) + first, count)
      ensures count > 0 && !OnePass(header, first, count) ==> res == -1
      ensures forall j :: 0 <= j < out.Length && !(at <= j < at + count) ==> out[j] == old(out[j])
    {
      var size := ClusterBytes(header);
      var total, offset, to := count, first, at;
      res := 0;
      ghost var n := if count < size then count else size;
      while total > 0
        invariant 0 <= total <= count && res == 0
        invariant total == count ==> out[..] == old(out[..]) && to == at && offset == first
        invariant total < count ==>
                    && first < size && total == count - n && offset == first + n
                    && CopiedTo(out[..], old(out[..]), at, stream.disk, ClusterStart(header, cluster) + first, n)
      {
        var clusterToUse := GetClusterForOffset(cluster, offset);
        if clusterToUse < 0 {
          return clusterToUse;
        }
        var totalToRead := if total > size then size else total;
        res := ReadPass(clusterToUse, offset, totalToRead, out, to);
        total := total - totalToRead;
        offset := offset + totalToRead;
        to := to + totalToRead;
      }
    }

    /** fat16_read for a descriptor at pos, which it does not move: nmemb items of size bytes. */
    method Read(high: u16, low: u16, pos: nat, size: nat, nmemb: nat, out: array<byte>) returns (res: int)
      requires size * nmemb <= out.Length
      requires OnDisk(header, stream.disk, FirstCluster(high, low), pos, size * nmemb)
      modifies stream, out
      ensures AllServed(header, pos, size, nmemb) ==>
                && res == nmemb
                && CopiedTo(out[..], old(out[..]), 0, stream.disk,
                            ClusterStart(header, FirstCluster(high, low)) + pos, size * nmemb)
      ensures !AllServed(header, pos, size, nmemb) ==> res == -1
      ensures high == 0 && header.rootEntries % 16 == 0 && pos + size * nmemb <= 512 * header.sectorsPerCluster ==>
                && res == nmemb && low >= 2
                && CopiedTo(out[..], old(out[..]), 0, stream.disk, 512 * FirstSectorOfCluster(header, low) + pos,
                            size * nmemb)
    {
      FirstClusterIs(high, low);
      if high == 0 && header.rootEntries % 16 == 0 && pos + size * nmemb <= 512 * header.sectorsPerCluster {
        ReadsTheFile(header, stream.disk, low, pos, size, nmemb);
      }
      var cluster := FirstCluster(high, low);
      ghost var start, before := ClusterStart(header, cluster) + pos, out[..];
      var offset, to := pos, 0;
      var i := 0;
      while i < nmemb
        invariant 0 <= i <= nmemb && to == size * i && offset == pos + to
        invariant AllServed(header, pos, size, i) && CopiedTo(out[..], before, 0, stream.disk, start, to)
      {
        ghost var now := out[..];
        ItemInside(size, i, nmemb);
        AllButOne(header, pos, size, i, nmemb);
        res := ReadInternal(cluster, offset, size, out, to);
        if res < 0 {
          return;
        }
        CopiedFurther(now, out[..], before, 0, stream.disk, start, to, size);
        to := to + size;
        offset := offset + size;
        i := i + 1;
      }
      res := nmemb;
    }
  }

  /** Every one of the items starts inside the first cluster and fits a pass. */
  predicate AllServed(h: Header, pos: nat, size: nat, nmemb: nat) {
    nmemb == 0 || size == 0 || OnePass(h, pos + size * (nmemb - 1), size)
  }

  lemma ItemInside(size: nat, i: nat, nmemb: nat)
    requires i < nmemb
    ensures size * i + size == size * (i + 1) <= size * nmemb
  {
    assert size * nmemb == size * (i + 1) + size * (nmemb - i - 1);
  }

  lemma AllButOne(h: Header, pos: nat, size: nat, i: nat, nmemb: nat)
    requires i < nmemb
    ensures size == 0 || OnePass(h, pos + size * i, size) <==> AllServed(h, pos, size, i + 1)
    ensures AllServed(h, pos, size, nmemb) ==> AllServed(h, pos, size, i + 1)
  {
    Scaled(size, i, nmemb - 1);
  }

  lemma Scaled(size: nat, i: nat, j: nat)
    requires i <= j
    ensures size * i <= size * j
  {
    Bounded(size, i, size, j);
  }

  /** In numbers: the last item starts inside the first cluster, of 512 bytes a sector, and each fits a cluster. */
  lemma ServedIff(h: Header, pos: nat, size: nat, nmemb: nat)
    ensures AllServed(h, pos, size, nmemb) <==>
            || nmemb == 0 || size == 0
            || (pos + size * (nmemb - 1) < 512 * h.sectorsPerCluster && size <= 512 * h.sectorsPerCluster)
  {
  }

  /**
   What a file whose entry holds the words 0 and low reads inside its first cluster are the bytes the
   specification puts there, provided the root directory fills whole sectors.
   */
  lemma ReadsTheFile(h: Header, disk: seq<byte>, low: u16, pos: nat, size: nat, nmemb: nat)
    requires pos + size * nmemb <= 512 * h.sectorsPerCluster && h.rootEntries % 16 == 0
    requires OnDisk(h, disk, FirstCluster(0, low), pos, size * nmemb)
    ensures AllServed(h, pos, size, nmemb) && low >= 2
    ensures ClusterStart(h, FirstCluster(0, low)) == 512 * FirstSectorOfCluster(h, low) >= 0
  {
    FirstClusterIs(0, low);
    AllInside(h, pos, size, nmemb);
    StartIs(h, low);
  }

  /** Where the kernel looks for a cluster, and where the specification has it. */
  lemma StartIs(h: Header, cluster: nat)
    requires 2 <= cluster < 0x1_0000
    ensures ClusterStart(h, cluster)
         == 512 * (FirstSectorOfCluster(h, cluster) - if h.rootEntries % 16 == 0 then 0 else 1)
  {
    Bounded(cluster - 2, h.sectorsPerCluster, 0xFFFF, 0xFF);
    Bounded(h.fatCopies, h.sectorsPerFat, 0xFF, 0xFFFF);
    NoWrap(EndingSector(h), (cluster - 2) * h.sectorsPerCluster);
    ClusterToSectorIff(h, cluster);
  }

  lemma AllInside(h: Header, pos: nat, size: nat, nmemb: nat)
    requires pos + size * nmemb <= ClusterBytes(h)
    ensures AllServed(h, pos, size, nmemb)
  {
    if nmemb > 0 && size > 0 {
      ItemInside(size, nmemb - 1, nmemb);
      Product(size, nmemb - 1);
    }
  }

  lemma AheadIff(offset: nat, size: nat)
    requires size > 0
    ensures offset / size > 0 <==> offset >= size
    ensures offset < size ==> offset % size == offset
  {
    if offset < size {
      assert offset / size == 0;
    } else {
      assert offset == offset / size * size + offset % size;
    }
  }
}
