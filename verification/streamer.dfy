/** diskstreamer: reads at any byte position from a disk that hands out whole sectors. */
module Streamer {
  import opened Words

  const SECTOR_SIZE: int := 0x200

  /** struct disk_stream over a disk whose sectors are read as they stand. */
  class DiskStream {
    const disk: seq<byte>
    var pos: u32

    constructor (disk: seq<byte>)
      ensures this.disk == disk && pos == 0
    {
      this.disk := disk;
      pos := 0;
    }

    method Seek(pos: u32) returns (res: int)
      modifies this
      ensures res == 0 && this.pos == pos
    {
      this.pos := pos;
      res := 0;
    }

    /** disk_read_block of one sector. */
    method ReadBlock(lba: nat, buf: array<byte>) returns (res: int)
      requires (lba + 1) * SECTOR_SIZE <= |disk| && buf.Length == SECTOR_SIZE
      modifies buf
      ensures res == 0 && buf[..] == disk[lba * SECTOR_SIZE..(lba + 1) * SECTOR_SIZE]
    {
      var i := 0;
      while i < SECTOR_SIZE
        invariant 0 <= i <= SECTOR_SIZE
        invariant forall j :: 0 <= j < i ==> buf[j] == disk[lba * SECTOR_SIZE + j]
      {
        buf[i] := disk[lba * SECTOR_SIZE + i];
        i := i + 1;
      }
      res := 0;
    }

    /** total bytes from the current position to out[at..]; the position moves on by total. */
    method Read(out: array<byte>, at: nat, total: nat) returns (res: int)
      requires |disk| % SECTOR_SIZE == 0 && pos + total <= |disk| && pos + total < TWO_32
      requires total <= 0x7FFF_FE00 && at + total <= out.Length
      modifies this, out
      ensures res == 0 && pos == old(pos) + total
      ensures out[..] == old(out[..at]) + disk[old(pos)..old(pos) + total] + old(out[at + total..])
    {
      var buf := new byte[SECTOR_SIZE];
      var left, to := total, at;
      ghost var start := pos;
      res := 0;
      while left != 0
        invariant 0 <= left <= total && to == at + (total - left) && pos == start + (total - left) && res == 0
        invariant CopiedTo(out[..], old(out[..]), at, disk, start, to - at)
      {
        ghost var before := out[..];
        var totalToRead;
        res, totalToRead := ReadPart(out, to, left, buf);
        if res < 0 {
          return;
        }
        CopiedFurther(before, out[..], old(out[..]), at, disk, start, to - at, totalToRead);
        to := to + totalToRead;
        pos := pos + totalToRead;
        left := left - totalToRead;
      }
      CopiedAll(out[..], old(out[..]), at, disk, start, total);
    }

    /** As much of the rest as the sector at the current position holds. */
    method ReadPart(out: array<byte>, to: nat, left: nat, buf: array<byte>) returns (res: int, totalToRead: nat)
      requires |disk| % SECTOR_SIZE == 0 && 0 < left && pos + left <= |disk|
      requires out != buf && buf.Length == SECTOR_SIZE && to + left <= out.Length
      modifies out, buf
      ensures res == 0 && 0 < totalToRead <= left && CopiedTo(out[..], old(out[..]), to, disk, pos, totalToRead)
    {
      var sectorNo := pos / SECTOR_SIZE;
      var offset := pos % SECTOR_SIZE;
      totalToRead := left;
      var overflow := offset + totalToRead >= SECTOR_SIZE;
      if overflow {
        totalToRead := totalToRead - (offset + totalToRead - SECTOR_SIZE);
      }
      SectorInside(|disk|, pos);
      res := ReadBlock(sectorNo, buf);
      if res < 0 {
        return;
      }
      CopyOut(out, to, buf, offset, totalToRead, disk, pos);
    }

    /** The loop that moves bytes out of the sector buffer. */
    method CopyOut(out: array<byte>, to: nat, buf: array<byte>, offset: nat, n: nat, ghost disk: seq<byte>,
                   ghost p: nat)
      requires out != buf && buf.Length == SECTOR_SIZE && offset + n <= SECTOR_SIZE && to + n <= out.Length
      requires offset == p % SECTOR_SIZE && (p / SECTOR_SIZE + 1) * SECTOR_SIZE <= |disk|
      requires buf[..] == disk[p / SECTOR_SIZE * SECTOR_SIZE..(p / SECTOR_SIZE + 1) * SECTOR_SIZE]
      modifies out
      ensures CopiedTo(out[..], old(out[..]), to, disk, p, n)
    {
      var i := 0;
      while i < n
        invariant 0 <= i <= n && CopiedTo(out[..], old(out[..]), to, disk, p, i)
      {
        assert buf[offset + i] == buf[..][offset + i] == disk[p + i];
        out[to + i] := buf[offset + i];
        i := i + 1;
      }
    }
  }

  /** now is before with disk[p..p+n] written at position to. */
  ghost predicate CopiedTo(now: seq<byte>, before: seq<byte>, to: nat, disk: seq<byte>, p: nat, n: nat) {
    && |now| == |before| && to + n <= |now| && p + n <= |disk|
    && forall i :: 0 <= i < |now| ==> now[i] == if to <= i < to + n then disk[p + (i - to)] else before[i]
  }

  lemma CopiedFurther(mid: seq<byte>, now: seq<byte>, before: seq<byte>, at: nat, disk: seq<byte>, p: nat, n: nat,
                      m: nat)
    requires CopiedTo(mid, before, at, disk, p, n) && CopiedTo(now, mid, at + n, disk, p + n, m)
    ensures CopiedTo(now, before, at, disk, p, n + m)
  {
  }

  lemma CopiedAll(now: seq<byte>, before: seq<byte>, at: nat, disk: seq<byte>, p: nat, n: nat)
    requires CopiedTo(now, before, at, disk, p, n)
    ensures now == before[..at] + disk[p..p + n] + before[at + n..]
  {
  }

  lemma PutIsCopied(now: seq<byte>, before: seq<byte>, at: nat, disk: seq<byte>, p: nat, n: nat)
    requires at + n <= |before| && p + n <= |disk| && now == before[..at] + disk[p..p + n] + before[at + n..]
    ensures CopiedTo(now, before, at, disk, p, n)
  {
  }

  lemma SectorInside(size: nat, p: nat)
    requires size % SECTOR_SIZE == 0 && p < size
    ensures (p / SECTOR_SIZE + 1) * SECTOR_SIZE <= size
  {
  }
}
