/**
 An ELF file's program headers from the writer's side: eight words a record, least significant byte
 first, one record behind the other at the place the ELF header names. Reading gives them back.
 */
module ElfEncoding {
  import opened Words
  import opened Memory
  import opened AddressSpace
  import opened ElfFormat

  /** A word's bytes in a file. */
  function Spelt(v: u32): (bytes: seq<byte>)
    ensures |bytes| == 4
  {
    [v % 256, v / 256 % 256, v / 0x1_0000 % 256, v / 0x100_0000]
  }

  /** struct elf32_phdr, field by field. */
  datatype Record = Record(pType: u32, pOffset: u32, pVAddr: u32, pPAddr: u32, pFileSz: u32, pMemSz: u32, pFlags: u32,
                           pAlign: u32)

  function Encoded(r: Record): (bytes: seq<byte>)
    ensures |bytes| == 32
  {
    Spelt(r.pType) + Spelt(r.pOffset) + Spelt(r.pVAddr) + Spelt(r.pPAddr)
    + Spelt(r.pFileSz) + Spelt(r.pMemSz) + Spelt(r.pFlags) + Spelt(r.pAlign)
  }

  lemma SpeltIsWord(file: seq<byte>, i: nat, v: u32)
    requires i + 4 <= |file| && file[i..i + 4] == Spelt(v)
    ensures WordAt(file, i) == v
  {
    assert file[i..i + 4][0] == file[i] && file[i..i + 4][1] == file[i + 1];
    assert file[i..i + 4][2] == file[i + 2] && file[i..i + 4][3] == file[i + 3];
    ByteDigits(v);
  }

  /** Word j of an encoded record, in the file that holds it at byte i. */
  lemma EncodedWord(file: seq<byte>, i: nat, r: Record, j: nat, v: u32)
    requires i + 32 <= |file| && file[i..i + 32] == Encoded(r) && j < 8
    requires Encoded(r)[4 * j..4 * j + 4] == Spelt(v)
    ensures WordAt(file, i + 4 * j) == v
  {
    var e := file[i..i + 32];
    assert e[4 * j..4 * j + 4][0] == e[4 * j] && e[4 * j..4 * j + 4][1] == e[4 * j + 1];
    assert e[4 * j..4 * j + 4][2] == e[4 * j + 2] && e[4 * j..4 * j + 4][3] == e[4 * j + 3];
    ByteDigits(v);
  }

  lemma EncodedFields(r: Record)
    ensures var e := Encoded(r);
            && e[0..4] == Spelt(r.pType) && e[4..8] == Spelt(r.pOffset) && e[8..12] == Spelt(r.pVAddr)
            && e[16..20] == Spelt(r.pFileSz) && e[20..24] == Spelt(r.pMemSz) && e[24..28] == Spelt(r.pFlags)
  {
  }

  /** What the loader keeps of a record. */
  function Kept(r: Record): ProgramHeader {
    ProgramHeader(r.pType, Segment(r.pOffset, r.pVAddr, r.pFileSz, r.pMemSz, r.pFlags))
  }

  /** A record written at any byte of any file is read back from there. */
  lemma HeaderRoundTrip(file: seq<byte>, i: nat, r: Record)
    requires i + 32 <= |file| && file[i..i + 32] == Encoded(r)
    ensures HeaderAt(file, i).kind == r.pType
    ensures var g := HeaderAt(file, i).segment;
            && g.offset == r.pOffset && g.vAddr == r.pVAddr && g.fileSize == r.pFileSz
            && g.memSize == r.pMemSz && g.flags == r.pFlags
  {
    EncodedFields(r);
    EncodedWord(file, i, r, 0, r.pType);
    EncodedWord(file, i, r, 1, r.pOffset);
    EncodedWord(file, i, r, 2, r.pVAddr);
    EncodedWord(file, i, r, 4, r.pFileSz);
    EncodedWord(file, i, r, 5, r.pMemSz);
    EncodedWord(file, i, r, 6, r.pFlags);
  }

  /** e_phoff is off, e_phnum the number of records, and from byte off on they stand one behind the other. */
  ghost predicate HoldsTable(file: seq<byte>, off: u32, records: seq<Record>) {
    && 52 <= |file| && |records| < 0x1_0000 && off + 32 * |records| <= |file|
    && file[28..32] == Spelt(off)
    && file[44] == |records| % 256 && file[45] == |records| / 256
    && forall k :: 0 <= k < |records| ==> file[off + 32 * k..off + 32 * k + 32] == Encoded(records[k])
  }

  /** Every record of a table is read back, and nothing else. */
  lemma TableRoundTrip(file: seq<byte>, off: u32, records: seq<Record>)
    requires HoldsTable(file, off, records)
    ensures HeadersInFile(file) && |Headers(file)| == |records|
    ensures forall k :: 0 <= k < |records| ==> Headers(file)[k] == Kept(records[k])
  {
    SpeltIsWord(file, 28, off);
    assert HeaderCount(file) == |records|;
    forall k | 0 <= k < |records|
      ensures Headers(file)[k] == Kept(records[k])
    {
      assert HeaderPlace(file, k) == off + 32 * k;
      HeaderRoundTrip(file, off + 32 * k, records[k]);
    }
  }

  /** Any file whose table lies inside it holds some records. */
  lemma EveryTableIsHeld(file: seq<byte>) returns (records: seq<Record>)
    requires HeadersInFile(file)
    ensures HoldsTable(file, WordAt(file, 28), records)
  {
    WordSpelt(file, 28);
    CountSpelt(file);
    records := RecordsFrom(file, WordAt(file, 28), HeaderCount(file));
  }

  lemma CountSpelt(file: seq<byte>)
    requires HeadersInFile(file)
    ensures var n := HeaderCount(file);
            && n < 0x1_0000 && n % 256 == file[44] && n / 256 == file[45]
            && WordAt(file, 28) + 32 * n <= |file|
  {
  }

  lemma RecordsFrom(file: seq<byte>, off: u32, n: nat) returns (records: seq<Record>)
    requires off + 32 * n <= |file|
    ensures |records| == n
    ensures forall k :: 0 <= k < n ==> file[off + 32 * k..off + 32 * k + 32] == Encoded(records[k])
  {
    records := seq(n, k requires 0 <= k < n => RecordAt(file, off + 32 * k));
    forall k | 0 <= k < n
      ensures file[off + 32 * k..off + 32 * k + 32] == Encoded(records[k])
    {
      RecordIsEncoded(file, off + 32 * k);
    }
  }

  function RecordAt(file: seq<byte>, i: nat): Record
    requires i + 32 <= |file|
  {
    Record(WordAt(file, i), WordAt(file, i + 4), WordAt(file, i + 8), WordAt(file, i + 12),
           WordAt(file, i + 16), WordAt(file, i + 20), WordAt(file, i + 24), WordAt(file, i + 28))
  }

  lemma WordSpelt(file: seq<byte>, i: nat)
    requires i + 4 <= |file|
    ensures Spelt(WordAt(file, i)) == file[i..i + 4]
  {
    BytesOfWord(file[i], file[i + 1], file[i + 2], file[i + 3]);
  }

  lemma RecordIsEncoded(file: seq<byte>, i: nat)
    requires i + 32 <= |file|
    ensures file[i..i + 32] == Encoded(RecordAt(file, i))
  {
    WordSpelt(file, i);
    WordSpelt(file, i + 4);
    WordSpelt(file, i + 8);
    WordSpelt(file, i + 12);
    WordSpelt(file, i + 16);
    WordSpelt(file, i + 20);
    WordSpelt(file, i + 24);
    WordSpelt(file, i + 28);
    assert file[i..i + 32] == file[i..i + 4] + file[i + 4..i + 8] + file[i + 8..i + 12] + file[i + 12..i + 16]
                              + file[i + 16..i + 20] + file[i + 20..i + 24] + file[i + 24..i + 28]
                              + file[i + 28..i + 32];
  }

  /**
   A file is run as ELF exactly when it starts with 0x7F and "ELF", says class none or 32-bit and
   byte order none or little-endian, and names a place for its program headers.
   */
  lemma ElfTestIs(file: seq<byte>)
    requires |file| >= 52
    ensures !NotElf(file) <==>
            && file[0] == 0x7F && file[1] == 0x45 && file[2] == 0x4C && file[3] == 0x46
            && file[4] <= 1 && file[5] <= 1
            && !(file[28] == 0 && file[29] == 0 && file[30] == 0 && file[31] == 0)
  {
    assert file[..4] == SIGNATURE <==>
           file[0] == 0x7F && file[1] == 0x45 && file[2] == 0x4C && file[3] == 0x46;
  }

  /** Its program, told from the records: loaded when all are of type 1, refused when one is not. */
  lemma ProgramOfTable(file: seq<byte>, off: u32, records: seq<Record>, program: Program)
    requires HoldsTable(file, off, records) && IsProgram(file, program)
    ensures program.FlatProgram? <==> NotElf(file)
    ensures program.RefusedElf? <==> !NotElf(file) && exists k :: 0 <= k < |records| && records[k].pType != 1
    ensures program.ElfProgram? ==>
              && |program.segments| == |records|
              && forall k :: 0 <= k < |records| ==> program.segments[k] == Kept(records[k]).segment
  {
    TableRoundTrip(file, off, records);
    ProgramDecides(file, program);
    if program.ElfProgram? {
      forall k | 0 <= k < |records|
        ensures records[k].pType == 1 && program.segments[k] == Kept(records[k]).segment
      {
        assert Headers(file)[k] == Kept(records[k]);
      }
    }
    if program.RefusedElf? {
      var k :| 0 <= k < |records| && Headers(file)[k].kind != PT_LOAD;
      assert records[k].pType != 1;
    }
  }
}
