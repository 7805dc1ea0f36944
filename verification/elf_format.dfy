/** An executable as its bytes spell it: the ELF header, the program headers, or neither. */
module ElfFormat {
  import opened Words
  import opened Memory
  import opened AddressSpace

  const HEADER_BYTES: int := 52
  const PROGRAM_HEADER_BYTES: int := 32
  const SIGNATURE: seq<byte> := [0x7F, 0x45, 0x4C, 0x46]

  // Offsets in elf_header and elf32_phdr.
  const EI_CLASS: int := 4
  const EI_DATA: int := 5
  const E_PHOFF: int := 28
  const E_PHNUM: int := 44

  const PT_LOAD: u32 := 1

  /** An elf32_phdr: its type and what it loads. */
  datatype ProgramHeader = ProgramHeader(kind: u32, segment: Segment)

  /** What a file turns out to be; an ELF file with any header but PT_LOAD ones is refused. */
  datatype Program = ElfProgram(segments: seq<Segment>) | FlatProgram | RefusedElf

  /** The file's bytes lie in memory from ptr on. */
  ghost predicate FileAt(w: seq<u32>, ptr: u32, file: seq<byte>) {
    && IsMemory(w) && ptr + |file| <= TWO_32
    && forall a: u32 :: ptr <= a < ptr + |file| ==> ByteAt(w, a) == file[a - ptr]
  }

  function Half(b0: byte, b1: byte): (h: nat)
    ensures h < 0x1_0000
  {
    b0 + 0x100 * b1
  }

  function HalfAt(file: seq<byte>, i: nat): nat
    requires i + 2 <= |file|
  {
    Half(file[i], file[i + 1])
  }

  function WordAt(file: seq<byte>, i: nat): u32
    requires i + 4 <= |file|
  {
    Word(file[i], file[i + 1], file[i + 2], file[i + 3])
  }

  /** The file differs from the signature within its first bytes. */
  predicate SignatureDiffers(file: seq<byte>) {
    exists i :: 0 <= i < |SIGNATURE| && i < |file| && file[i] != SIGNATURE[i]
  }

  /** Signature, class none or 32-bit, data none or little-endian, and some program header table. */
  predicate ValidHeader(file: seq<byte>)
    requires |file| >= HEADER_BYTES
  {
    && file[..|SIGNATURE|] == SIGNATURE
    && (file[EI_CLASS] == 0 || file[EI_CLASS] == 1)
    && (file[EI_DATA] == 0 || file[EI_DATA] == 1)
    && WordAt(file, E_PHOFF) != 0
  }

  /** The bytes at hand show that the file is no ELF file the kernel knows. */
  predicate NotElf(file: seq<byte>) {
    SignatureDiffers(file) || (|file| >= HEADER_BYTES && !ValidHeader(file))
  }

  function HeaderPlace(file: seq<byte>, k: nat): nat
    requires |file| >= HEADER_BYTES
  {
    WordAt(file, E_PHOFF) + PROGRAM_HEADER_BYTES * k
  }

  function HeaderCount(file: seq<byte>): nat
    requires |file| >= HEADER_BYTES
  {
    HalfAt(file, E_PHNUM)
  }

  /** The header and the whole program header table lie in the file. */
  predicate HeadersInFile(file: seq<byte>) {
    |file| >= HEADER_BYTES && HeaderPlace(file, HeaderCount(file)) <= |file|
  }

  /** The elf32_phdr at byte i. */
  function HeaderAt(file: seq<byte>, i: nat): ProgramHeader
    requires i + PROGRAM_HEADER_BYTES <= |file|
  {
    ProgramHeader(
      WordAt(file, i),
      Segment(WordAt(file, i + 4), WordAt(file, i + 8),
              WordAt(file, i + 16), WordAt(file, i + 20), WordAt(file, i + 24)))
  }

  function Headers(file: seq<byte>): (headers: seq<ProgramHeader>)
    requires HeadersInFile(file)
    ensures |headers| == HeaderCount(file)
    ensures forall k :: 0 <= k < |headers| ==>
              && HeaderPlace(file, k) + PROGRAM_HEADER_BYTES <= |file|
              && headers[k] == HeaderAt(file, HeaderPlace(file, k))
  {
    seq(HeaderCount(file), k requires 0 <= k < HeaderCount(file) => HeaderAt(file, HeaderPlace(file, k)))
  }

  function Segments(headers: seq<ProgramHeader>): (segments: seq<Segment>)
    ensures |segments| == |headers| && forall k :: 0 <= k < |segments| ==> segments[k] == headers[k].segment
  {
    seq(|headers|, k requires 0 <= k < |headers| => headers[k].segment)
  }

  ghost predicate AllLoadable(headers: seq<ProgramHeader>) {
    forall k :: 0 <= k < |headers| ==> headers[k].kind == 1
  }

  /** What the bytes of a file make of it. */
  ghost predicate IsProgram(file: seq<byte>, program: Program) {
    match program
    case FlatProgram => NotElf(file)
    case ElfProgram(segments) => ElfWhole(file) && AllLoadable(Headers(file)) && segments == Segments(Headers(file))
    case RefusedElf => ElfWhole(file) && !AllLoadable(Headers(file))
  }

  /** An ELF file with all its program headers. */
  predicate ElfWhole(file: seq<byte>) {
    HeadersInFile(file) && ValidHeader(file)
  }

  /** The file with a word stored over its bytes o to o + 3, as far as it has them. */
  function Patched(file: seq<byte>, o: nat, val: u32): (patched: seq<byte>)
    ensures |patched| == |file|
    ensures forall i :: 0 <= i < |file| ==> patched[i] == PatchedByte(file, o, val, i)
  {
    seq(|file|, i requires 0 <= i < |file| => PatchedByte(file, o, val, i))
  }

  function PatchedByte(file: seq<byte>, o: nat, val: u32, i: nat): byte
    requires i < |file|
  {
    if o <= i < o + 4 then ByteOf(val, i - o) else file[i]
  }

  /** Behind the ELF header a store leaves the place and the size of the program header table. */
  lemma PatchedBehindHeader(file: seq<byte>, o: nat, val: u32)
    requires HeadersInFile(file) && HEADER_BYTES <= o
    ensures HeadersInFile(Patched(file, o, val)) && HeaderCount(Patched(file, o, val)) == HeaderCount(file)
  {
  }

  lemma ProgramDecides(file: seq<byte>, program: Program)
    requires IsProgram(file, program)
    ensures NotElf(file) <==> program.FlatProgram?
  {
    if !program.FlatProgram? {
      assert forall i :: 0 <= i < |SIGNATURE| ==> file[i] == file[..|SIGNATURE|][i];
    }
  }

  /** A file is at most one program. */
  lemma ProgramIsUnique(file: seq<byte>, p: Program, q: Program)
    requires IsProgram(file, p) && IsProgram(file, q)
    ensures p == q
  {
    ProgramDecides(file, p);
    ProgramDecides(file, q);
  }
}
