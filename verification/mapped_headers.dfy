/**
 What a loaded ELF file's program headers come to, from their bytes: where each record's pages go, and
 that bit 1 of its flags, and nothing else, lets user code write them.
 */
module MappedHeaders {
  import opened Words
  import opened Memory
  import opened Paging
  import opened Windows
  import opened AddressSpace
  import opened ElfFormat
  import opened ElfEncoding
  import opened Steps
  import opened LoadSteps
  import opened Translation
  import opened LoadedWrites

  /** The pages a record asks for. */
  ghost predicate RecordPage(r: Record, v: int) {
    r.pVAddr / 4096 <= v < (r.pVAddr + r.pMemSz + 4095) / 4096
  }

  /** The segments mapped are those the copy of the file spells. */
  lemma MappedSegments(t0: seq<bv8>, w0: seq<u32>, list: TaskList, program: Program, file: seq<byte>,
                       leaked: set<nat>, p: Process, t: seq<bv8>, w2: seq<u32>, off: u32, records: seq<Record>)
    requires LoadsTo(t0, w0, list, program, file, leaked, p, t, w2) && program.ElfProgram?
    requires HoldsTable(LinkedFile(t0, list, p.image, file), off, records)
    ensures p.image.Elf? && p.image.segments == program.segments && |program.segments| == |records|
    ensures forall k :: 0 <= k < |records| ==> p.image.segments[k] == Kept(records[k]).segment
  {
    var q :| IsProgram(file, q) && !q.RefusedElf? && program == FoundProgram(t0, list, q, file);
    SameLinkedFile(t0, list, Shape(q, |file|), p.image, file);
    TableRoundTrip(LinkedFile(t0, list, p.image, file), off, records);
  }

  /** One page of a window in a space that is in order. */
  lemma WindowPage(words: seq<u32>, p: Process, k: nat, v: nat)
    requires SpaceOK(words, p) && k < |ProcessWindows(p)| && Inside(ProcessWindows(p)[k], v)
    ensures v < PAGES && Directory(words, p.root) % 4096 == 0
    ensures PageWritable(words, Directory(words, p.root), v) <==> ProcessWindows(p)[k].flags == 7
    ensures View(words, Directory(words, p.root))[v] / 4096 == ProcessWindows(p)[k].p + (v - ProcessWindows(p)[k].v)
  {
    var page := WindowEntry(View(words, Directory(words, p.root)), ProcessWindows(p), k, v);
    EntryWritable(words, Directory(words, p.root), v, page, ProcessWindows(p)[k].flags);
  }

  /** The entry behind a page of a window. */
  lemma WindowEntry(view: seq<u32>, ws: seq<Window>, k: nat, v: nat) returns (page: nat)
    requires Layout(ws) && Shows(view, ws) && k < |ws| && Inside(ws[k], v)
    ensures v < PAGES && page < PAGES && page == ws[k].p + (v - ws[k].v) && ws[k].flags < 8
    ensures view[v] == Entry(page, ws[k].flags)
  {
    assert Sound(ws[k]);
    page := ws[k].p + (v - ws[k].v);
  }

  lemma EntryWritable(words: seq<u32>, dir: u32, v: nat, page: nat, flags: u32)
    requires IsMemory(words) && dir % 4096 == 0 && AllOpen(words, dir) && v < PAGES && page < PAGES && flags < 8
    requires View(words, dir)[v] == Entry(page, flags)
    ensures PageWritable(words, dir, v) <==> flags == 7
    ensures View(words, dir)[v] / 4096 == page
  {
    UserWritableFlags(page, flags);
    UserWritableIff(DirectoryEntry(words, dir, v / 1024));
  }

  /**
   Right after a load, for every record of the program header table in memory: the record's pages go to
   the file's copy from p_offset on, in order, and user code can write them exactly when bit 1 of
   p_flags is set.
   */
  lemma RecordsAreMapped(s: System, i: int, program: Program, file: seq<byte>, leaked: set<nat>, p: Process, s': System,
                         off: u32, records: seq<Record>, k: nat, v: nat)
    requires LoadsProgram(s, i, program, file, leaked, p, s') && program.ElfProgram?
    requires HoldsTable(LinkedFile(s.table, s.list, p.image, file), off, records)
    requires k < |records| && RecordPage(records[k], v)
    ensures v < PAGES && IsMemory(s'.words) && Directory(s'.words, p.root) % 4096 == 0
    ensures PageWritable(s'.words, Directory(s'.words, p.root), v) <==> records[k].pFlags / 2 % 2 == 1
    ensures View(s'.words, Directory(s'.words, p.root))[v] / 4096
         == (p.image.memory + records[k].pOffset) / 4096 + (v - records[k].pVAddr / 4096)
  {
    MappedSegments(s.table, s.words, s.list, program, file, leaked, p, s'.table, s'.words, off, records);
    LoadedReads(s, i, program, file, leaked, p, s');
    RecordWindow(p, k, records[k], v);
    WindowPage(s'.words, p, k, v);
  }

  lemma RecordWindow(p: Process, k: nat, r: Record, v: nat)
    requires p.image.Elf? && ImageMaps(p.image) && k < |p.image.segments| && p.image.segments[k] == Kept(r).segment
    requires RecordPage(r, v)
    ensures k < |ProcessWindows(p)|
    ensures var w := ProcessWindows(p)[k];
            && Inside(w, v) && w.v == r.pVAddr / 4096 && w.p == (p.image.memory + r.pOffset) / 4096
            && w.flags == if r.pFlags / 2 % 2 == 1 then 7 else 5
  {
    var g := p.image.segments[k];
    assert SegmentMaps(p.image.memory, g);
    assert ProcessWindows(p)[k] == SegmentWindow(p.image.memory, g);
    SegmentCount(p.image.memory, g);
    SegmentFlagsAre(g);
  }

  /** And address by address. */
  lemma RecordsTranslate(s: System, i: int, program: Program, file: seq<byte>, leaked: set<nat>, p: Process, s': System,
                         off: u32, records: seq<Record>, k: nat, vAddr: u32)
    requires LoadsProgram(s, i, program, file, leaked, p, s') && program.ElfProgram?
    requires HoldsTable(LinkedFile(s.table, s.list, p.image, file), off, records)
    requires k < |records| && records[k].pVAddr <= vAddr < records[k].pVAddr + records[k].pMemSz
    ensures IsMemory(s'.words) && Directory(s'.words, p.root) % 4096 == 0
    ensures Translate(s'.words, p, vAddr) == p.image.memory + records[k].pOffset + (vAddr - records[k].pVAddr)
  {
    MappedSegments(s.table, s.words, s.list, program, file, leaked, p, s'.table, s'.words, off, records);
    LoadedReads(s, i, program, file, leaked, p, s');
    SegmentTranslates(s'.words, p, k, vAddr);
  }
}
