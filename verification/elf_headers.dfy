/** elf_loader.c: a loaded file's headers read from memory, and the bounds of the image. */
module ElfHeaders {
  import opened Status
  import opened Words
  import opened Memory
  import opened AddressSpace
  import opened ElfFormat
  import M = Machine

  // -- The bounds --------------------------------------------------------------------------------

  /** End of the file bytes of a segment, in 32-bit arithmetic. */
  function End(g: Segment): u32 {
    Add32(g.vAddr, g.fileSize)
  }

  function Max(a: int, b: int): int {
    if a < b then b else a
  }

  function Min(a: int, b: int): int {
    if a < b then a else b
  }

  ghost predicate IsEnd(memory: u32, g: Segment, b: Bounds) {
    b.virtualEnd == End(g) && b.physicalEnd == Add32(memory, Add32(g.offset, g.fileSize))
  }

  ghost predicate IsBase(memory: u32, g: Segment, b: Bounds) {
    b.virtualBase == g.vAddr && b.physicalBase == Add32(memory, g.offset)
  }

  /** In numbers: the end counts the bytes in the file, not those in memory, and sums wrap at 4 GB. */
  lemma EndAndBaseAre(memory: u32, g: Segment, b: Bounds)
    ensures IsEnd(memory, g, b) <==>
            && b.virtualEnd == (g.vAddr + g.fileSize) % 0x1_0000_0000
            && b.physicalEnd == (memory + g.offset + g.fileSize) % 0x1_0000_0000
    ensures IsBase(memory, g, b) <==>
            b.virtualBase == g.vAddr && b.physicalBase == (memory + g.offset) % 0x1_0000_0000
  {
    WrapsOnce(memory, g.offset + g.fileSize);
  }

  lemma WrapsOnce(a: nat, b: nat)
    ensures (a + b % 0x1_0000_0000) % 0x1_0000_0000 == (a + b) % 0x1_0000_0000
  {
  }

  /** The bounds in struct elf_file; zero stands for "not set yet". */
  datatype Bounds = Bounds(virtualBase: u32, physicalBase: u32, virtualEnd: u32, physicalEnd: u32)

  /** after widens before to segment g: the end to the later one, the base to the lower one unless unset. */
  ghost predicate Widened(before: Bounds, after: Bounds, memory: u32, g: Segment) {
    && after.virtualEnd == Max(before.virtualEnd, End(g))
    && after.virtualBase == (if before.virtualBase == 0 then g.vAddr else Min(before.virtualBase, g.vAddr))
    && (IsEnd(memory, g, after)
        || (after.virtualEnd == before.virtualEnd > End(g) && after.physicalEnd == before.physicalEnd))
    && (IsBase(memory, g, after)
        || (after.virtualBase == before.virtualBase < g.vAddr && after.physicalBase == before.physicalBase))
  }

  /** Every end so far is within, and base and end belong to segments already seen. */
  ghost predicate Bounding(memory: u32, headers: seq<ProgramHeader>, b: Bounds) {
    && (headers == [] ==> b == Bounds(0, 0, 0, 0))
    && (forall k :: 0 <= k < |headers| ==> End(headers[k].segment) <= b.virtualEnd)
    && (headers != [] ==> exists k :: 0 <= k < |headers| && IsEnd(memory, headers[k].segment, b))
    && (headers != [] ==> exists k :: 0 <= k < |headers| && IsBase(memory, headers[k].segment, b))
    && (headers != [] ==> BaseIsLeast(headers, b.virtualBase))
  }

  /**
   The base is the least address exactly when no segment lies at address zero, or the last one does:
   a base of zero is taken for "not set" and overwritten by whatever comes next.
   */
  ghost predicate BaseIsLeast(headers: seq<ProgramHeader>, base: u32)
    requires headers != []
  {
    && (base == Least(Addresses(headers)) <==> 0 !in Addresses(headers) || headers[|headers| - 1].segment.vAddr == 0)
    && (base == 0 ==> headers[|headers| - 1].segment.vAddr == 0)
  }

  function Least(s: seq<int>): (m: int)
    requires s != []
    ensures m in s && forall x :: x in s ==> m <= x
  {
    var last := s[|s| - 1];
    if |s| == 1 then last
    else
      var m := Least(s[..|s| - 1]);
      assert forall x :: x in s ==> x in s[..|s| - 1] || x == last;
      if last < m then last else m
  }

  function Addresses(headers: seq<ProgramHeader>): (a: seq<int>)
    ensures |a| == |headers| && forall k :: 0 <= k < |a| ==> a[k] == headers[k].segment.vAddr
  {
    seq(|headers|, k requires 0 <= k < |headers| => headers[k].segment.vAddr)
  }

  lemma BoundingNext(memory: u32, headers: seq<ProgramHeader>, b: Bounds, h: ProgramHeader, b': Bounds)
    requires Bounding(memory, headers, b) && Widened(b, b', memory, h.segment)
    ensures Bounding(memory, headers + [h], b')
  {
    var more, n := headers + [h], |headers|;
    assert more[n] == h;
    assert forall k :: 0 <= k < n ==> more[k] == headers[k];
    if headers != [] {
      var e :| 0 <= e < n && IsEnd(memory, headers[e].segment, b);
      assert IsEnd(memory, more[n].segment, b') || IsEnd(memory, more[e].segment, b');
      var s :| 0 <= s < n && IsBase(memory, headers[s].segment, b);
      assert IsBase(memory, more[n].segment, b') || IsBase(memory, more[s].segment, b');
    } else {
      assert IsEnd(memory, more[n].segment, b') && IsBase(memory, more[n].segment, b');
    }
    LeastNext(headers, b.virtualBase, h, b'.virtualBase);
  }

  /** headers are the file's first ones, all PT_LOAD, and b bounds their segments. */
  ghost predicate Reading(file: seq<byte>, memory: u32, headers: seq<ProgramHeader>, b: Bounds) {
    && HeadersInFile(file) && |headers| <= HeaderCount(file) && headers == Headers(file)[..|headers|]
    && AllLoadable(headers) && Bounding(memory, headers, b)
  }

  /** Header n is not PT_LOAD. */
  ghost predicate StopsAt(file: seq<byte>, n: nat) {
    HeadersInFile(file) && n < HeaderCount(file) && Headers(file)[n].kind != 1
  }

  lemma NothingRead(file: seq<byte>, memory: u32)
    requires HeadersInFile(file)
    ensures Reading(file, memory, [], Bounds(0, 0, 0, 0))
  {
  }

  lemma ReadOneMore(file: seq<byte>, memory: u32, headers: seq<ProgramHeader>, b: Bounds, h: ProgramHeader, b': Bounds)
    requires Reading(file, memory, headers, b) && |headers| < HeaderCount(file) && h == Headers(file)[|headers|]
    requires h.kind == 1 && Widened(b, b', memory, h.segment)
    ensures Reading(file, memory, headers + [h], b')
  {
    BoundingNext(memory, headers, b, h, b');
    PrefixNext(Headers(file), headers, h);
  }

  lemma PrefixNext<T>(all: seq<T>, some: seq<T>, x: T)
    requires |some| < |all| && some == all[..|some|] && x == all[|some|]
    ensures some + [x] == all[..|some + [x]|]
  {
  }

  lemma AllRead(file: seq<byte>, memory: u32, headers: seq<ProgramHeader>, b: Bounds)
    requires Reading(file, memory, headers, b)
    ensures |headers| == HeaderCount(file) ==> headers == Headers(file)
  {
  }

  lemma LeastNext(headers: seq<ProgramHeader>, base: u32, h: ProgramHeader, base': u32)
    requires headers == [] ==> base == 0
    requires headers != [] ==> BaseIsLeast(headers, base)
    requires base' == if base == 0 then h.segment.vAddr else Min(base, h.segment.vAddr)
    ensures BaseIsLeast(headers + [h], base')
  {
    var more := headers + [h];
    assert Addresses(more) == Addresses(headers) + [h.segment.vAddr];
    assert Addresses(more)[..|headers|] == Addresses(headers);
  }

  /** struct elf_file: where the file is, and the bounds updated in place. */
  class ElfFile {
    const memory: u32
    var virtualBase: u32
    var physicalBase: u32
    var virtualEnd: u32
    var physicalEnd: u32

    constructor (memory: u32)
      ensures this.memory == memory && Value() == Bounds(0, 0, 0, 0)
    {
      this.memory := memory;
      virtualBase, physicalBase, virtualEnd, physicalEnd := 0, 0, 0, 0;
    }

    ghost function Value(): Bounds
      reads this
    {
      Bounds(virtualBase, physicalBase, virtualEnd, physicalEnd)
    }

    /** elf_process_phdr_pt_load. */
    method ProcessPtLoad(g: Segment)
      modifies this
      ensures Widened(old(Value()), Value(), memory, g)
    {
      if virtualBase >= g.vAddr || virtualBase == 0 {
        virtualBase := g.vAddr;
        physicalBase := Add32(memory, g.offset);
      }
      var end := Add32(g.vAddr, g.fileSize);
      if virtualEnd <= end || virtualEnd == 0 {
        virtualEnd := end;
        physicalEnd := Add32(memory, Add32(g.offset, g.fileSize));
      }
    }

    /** elf_process_pheader on the next header. */
    method ProcessHeader(machine: M.Machine, headers: seq<ProgramHeader>, ghost file: seq<byte>)
      returns (res: int, more: seq<ProgramHeader>)
      requires machine.words.Length == MEMORY_WORDS && FileAt(machine.words[..], memory, file)
      requires Reading(file, memory, headers, Value()) && |headers| < HeaderCount(file)
      modifies this
      ensures Reading(file, memory, more, Value())
      ensures res == 0 ==> |more| == |headers| + 1
      ensures res != 0 ==> res == -1 && more == headers && StopsAt(file, |headers|)
    {
      var h := ReadProgramHeader(machine, memory, file, |headers|);
      if h.kind != 1 {
        return -EIO, headers;
      }
      ghost var before := Value();
      ProcessPtLoad(h.segment);
      ReadOneMore(file, memory, headers, before, h, Value());
      res, more := 0, headers + [h];
    }

    /**
     elf_process_pheaders. All headers are read, unless one is not PT_LOAD, which is an error; the
     bounds are those of the segments before it.
     */
    method ProcessHeaders(machine: M.Machine, ghost file: seq<byte>) returns (res: int, headers: seq<ProgramHeader>)
      requires machine.words.Length == MEMORY_WORDS && FileAt(machine.words[..], memory, file) && HeadersInFile(file)
      requires Value() == Bounds(0, 0, 0, 0)
      modifies this
      ensures Reading(file, memory, headers, Value())
      ensures res == 0 ==> |headers| == HeaderCount(file)
      ensures res != 0 ==> res == -1 && StopsAt(file, |headers|)
    {
      res := 0;
      headers := [];
      var count := ReadHalf(machine, memory, file, E_PHNUM);
      NothingRead(file, memory);
      ghost var k := 0;
      while |headers| < count
        invariant res == 0 && k == |headers| <= count && Reading(file, memory, headers, Value())
        decreases count - k
      {
        res, headers := ProcessHeader(machine, headers, file);
        if res < 0 {
          break;
        }
        k := k + 1;
      }
    }

    /** elf_process_loaded: is this an ELF file, and if so, which are its segments? */
    method ProcessLoaded(machine: M.Machine, ghost file: seq<byte>) returns (res: int, segments: seq<Segment>)
      requires machine.words.Length == MEMORY_WORDS && FileAt(machine.words[..], memory, file)
      requires NotElf(file) || HeadersInFile(file)
      requires Value() == Bounds(0, 0, 0, 0)
      modifies this
      ensures NotElf(file) ==> res == -10
      ensures !NotElf(file) ==> res == if AllLoadable(Headers(file)) then 0 else -1
      ensures res == 0 ==> IsProgram(file, ElfProgram(segments)) && Bounding(memory, Headers(file), Value())
    {
      segments := [];
      res := ValidateLoaded(machine, memory, file);
      if res < 0 {
        return;
      }
      var headers;
      res, headers := ProcessHeaders(machine, file);
      AllRead(file, memory, headers, Value());
      segments := Segments(headers);
    }
  }

  // -- Reading the headers -----------------------------------------------------------------------

  method ReadHalf(machine: M.Machine, memory: u32, ghost file: seq<byte>, i: nat) returns (h: nat)
    requires machine.words.Length == MEMORY_WORDS && FileAt(machine.words[..], memory, file) && i + 2 <= |file|
    ensures h == HalfAt(file, i)
  {
    var b0 := ReadByte(machine, memory, file, i);
    var b1 := ReadByte(machine, memory, file, i + 1);
    h := Half(b0, b1);
  }

  method ReadWord(machine: M.Machine, memory: u32, ghost file: seq<byte>, i: nat) returns (w: u32)
    requires machine.words.Length == MEMORY_WORDS && FileAt(machine.words[..], memory, file) && i + 4 <= |file|
    ensures w == WordAt(file, i)
  {
    var b0 := ReadByte(machine, memory, file, i);
    var b1 := ReadByte(machine, memory, file, i + 1);
    var b2 := ReadByte(machine, memory, file, i + 2);
    var b3 := ReadByte(machine, memory, file, i + 3);
    w := Word(b0, b1, b2, b3);
  }

  method ReadByte(machine: M.Machine, memory: u32, ghost file: seq<byte>, i: nat) returns (b: byte)
    requires machine.words.Length == MEMORY_WORDS && FileAt(machine.words[..], memory, file) && i < |file|
    ensures b == file[i]
  {
    b := machine.LoadByte(memory + i);
    assert b == ByteAt(machine.words[..], memory + i);
  }

  /** Program header k. */
  method ReadProgramHeader(machine: M.Machine, memory: u32, ghost file: seq<byte>, k: nat) returns (h: ProgramHeader)
    requires machine.words.Length == MEMORY_WORDS && FileAt(machine.words[..], memory, file)
    requires HeadersInFile(file) && k < |Headers(file)|
    ensures h == Headers(file)[k]
  {
    var table := ReadWord(machine, memory, file, E_PHOFF);
    var i := table + PROGRAM_HEADER_BYTES * k;
    HeaderInFile(file, k, i);
    h := ReadHeaderAt(machine, memory, file, i);
  }

  lemma HeaderInFile(file: seq<byte>, k: nat, i: int)
    requires HeadersInFile(file) && k < |Headers(file)| && i == WordAt(file, E_PHOFF) + PROGRAM_HEADER_BYTES * k
    ensures i + PROGRAM_HEADER_BYTES <= |file| && Headers(file)[k] == HeaderAt(file, i)
  {
    assert i == HeaderPlace(file, k);
  }

  /** The fields of the elf32_phdr at byte i. */
  method ReadHeaderAt(machine: M.Machine, memory: u32, ghost file: seq<byte>, i: nat) returns (h: ProgramHeader)
    requires machine.words.Length == MEMORY_WORDS && FileAt(machine.words[..], memory, file)
    requires i + PROGRAM_HEADER_BYTES <= |file|
    ensures h == HeaderAt(file, i)
  {
    var kind, offset, vAddr := ReadPlace(machine, memory, file, i);
    var fileSize, memSize, flags := ReadSizes(machine, memory, file, i);
    h := ProgramHeader(kind, Segment(offset, vAddr, fileSize, memSize, flags));
  }

  /** p_type, p_offset and p_vaddr. */
  method ReadPlace(machine: M.Machine, memory: u32, ghost file: seq<byte>, i: nat)
    returns (kind: u32, offset: u32, vAddr: u32)
    requires machine.words.Length == MEMORY_WORDS && FileAt(machine.words[..], memory, file) && i + 12 <= |file|
    ensures kind == WordAt(file, i) && offset == WordAt(file, i + 4) && vAddr == WordAt(file, i + 8)
  {
    kind := ReadWord(machine, memory, file, i);
    offset := ReadWord(machine, memory, file, i + 4);
    vAddr := ReadWord(machine, memory, file, i + 8);
  }

  /** p_filesz, p_memsz and p_flags. */
  method ReadSizes(machine: M.Machine, memory: u32, ghost file: seq<byte>, i: nat)
    returns (fileSize: u32, memSize: u32, flags: u32)
    requires machine.words.Length == MEMORY_WORDS && FileAt(machine.words[..], memory, file) && i + 28 <= |file|
    ensures fileSize == WordAt(file, i + 16) && memSize == WordAt(file, i + 20) && flags == WordAt(file, i + 24)
  {
    fileSize := ReadWord(machine, memory, file, i + 16);
    memSize := ReadWord(machine, memory, file, i + 20);
    flags := ReadWord(machine, memory, file, i + 24);
  }

  /** elf_valid_signature: memcmp with the signature. */
  method ValidSignature(machine: M.Machine, memory: u32, ghost file: seq<byte>) returns (valid: bool)
    requires machine.words.Length == MEMORY_WORDS && FileAt(machine.words[..], memory, file)
    requires SignatureDiffers(file) || |file| >= HEADER_BYTES
    ensures valid <==> !SignatureDiffers(file)
  {
    var i := 0;
    while i < |SIGNATURE|
      invariant 0 <= i <= |SIGNATURE| && i <= |file|
      invariant forall j :: 0 <= j < i ==> file[j] == SIGNATURE[j]
    {
      var b := ReadByte(machine, memory, file, i);
      if b != SIGNATURE[i] {
        return false;
      }
      i := i + 1;
    }
    valid := true;
  }

  /** elf_validate_loaded. */
  method ValidateLoaded(machine: M.Machine, memory: u32, ghost file: seq<byte>) returns (res: int)
    requires machine.words.Length == MEMORY_WORDS && FileAt(machine.words[..], memory, file)
    requires NotElf(file) || |file| >= HEADER_BYTES
    ensures res == if NotElf(file) then -10 else 0
  {
    var signed := ValidSignature(machine, memory, file);
    if !signed {
      return -EINVFORMAT;
    }
    SignatureIs(file);
    var class_ := ReadByte(machine, memory, file, EI_CLASS);
    if class_ != 0 && class_ != 1 {
      return -EINVFORMAT;
    }
    var data := ReadByte(machine, memory, file, EI_DATA);
    if data != 0 && data != 1 {
      return -EINVFORMAT;
    }
    var table := ReadWord(machine, memory, file, E_PHOFF);
    res := if table == 0 then -EINVFORMAT else 0;
  }

  lemma SignatureIs(file: seq<byte>)
    requires |file| >= HEADER_BYTES
    ensures SignatureDiffers(file) <==> file[..|SIGNATURE|] != SIGNATURE
  {
    if file[..|SIGNATURE|] == SIGNATURE {
      assert forall i :: 0 <= i < |SIGNATURE| ==> file[i] == file[..|SIGNATURE|][i];
    }
  }
}
