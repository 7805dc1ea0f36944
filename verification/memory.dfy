/**
 Physical memory as a sequence of little-endian 32-bit words covering the whole 4 GB, and the view
 of the same memory byte by byte.
 */
module Memory {
  import opened Words

  const MEMORY_WORDS: int := 0x4000_0000

  ghost predicate IsMemory(words: seq<u32>) {
    |words| == 0x4000_0000
  }

  /** Byte k of a word, the least significant one first. */
  function ByteOf(w: u32, k: nat): byte
    requires k < 4
  {
    if k == 0 then w % 0x100
    else if k == 1 then w / 0x100 % 0x100
    else if k == 2 then w / 0x1_0000 % 0x100
    else w / 0x100_0000
  }

  /** The word w with its byte k replaced by b. */
  function WithByte(w: u32, k: nat, b: byte): (r: u32)
    requires k < 4
    ensures ByteOf(r, k) == b
    ensures forall j: nat :: j < 4 && j != k ==> ByteOf(r, j) == ByteOf(w, j)
  {
    ByteDigits(w);
    var d := seq(4, i requires 0 <= i < 4 => if i == k then b else ByteOf(w, i));
    var r := Word(d[0], d[1], d[2], d[3]);
    BytesOfWord(d[0], d[1], d[2], d[3]);
    assert ByteOf(r, 0) == d[0] && ByteOf(r, 1) == d[1] && ByteOf(r, 2) == d[2] && ByteOf(r, 3) == d[3];
    r
  }

  /** The little-endian word of four bytes. */
  function Word(b0: byte, b1: byte, b2: byte, b3: byte): u32 {
    b0 + 0x100 * b1 + 0x1_0000 * b2 + 0x100_0000 * b3
  }

  lemma BytesOfWord(b0: byte, b1: byte, b2: byte, b3: byte)
    ensures var w := Word(b0, b1, b2, b3);
            ByteOf(w, 0) == b0 && ByteOf(w, 1) == b1 && ByteOf(w, 2) == b2 && ByteOf(w, 3) == b3
  {
    var w := Word(b0, b1, b2, b3);
    assert w / 0x100 == b1 + 0x100 * b2 + 0x1_0000 * b3;
    assert w / 0x1_0000 == b2 + 0x100 * b3;
    assert w / 0x100_0000 == b3;
  }

  lemma ByteDigits(w: u32)
    ensures w == Word(ByteOf(w, 0), ByteOf(w, 1), ByteOf(w, 2), ByteOf(w, 3))
  {
    var q1, q2, q3 := w / 0x100, w / 0x1_0000, w / 0x100_0000;
    assert q2 == q1 / 0x100;
    assert q3 == q2 / 0x100;
  }

  lemma WordFromBytes(v: u32, w: u32)
    requires forall k: nat :: k < 4 ==> ByteOf(v, k) == ByteOf(w, k)
    ensures v == w
  {
    ByteDigits(v);
    ByteDigits(w);
  }

  /** The byte stored at a physical address. */
  function ByteAt(words: seq<u32>, a: u32): byte
    requires IsMemory(words)
  {
    ByteOf(words[a / 4], a % 4)
  }

  ghost predicate SameBytesOutside(before: seq<u32>, after: seq<u32>, lo: int, hi: int) {
    && IsMemory(before) && IsMemory(after)
    && forall a: u32 :: !(lo <= a < hi) ==> ByteAt(after, a) == ByteAt(before, a)
  }

  /** Words none of whose bytes lie in [lo, hi) are unchanged too. */
  lemma SameWordsOutside(before: seq<u32>, after: seq<u32>, lo: int, hi: int, i: nat)
    requires SameBytesOutside(before, after, lo, hi) && i < MEMORY_WORDS
    requires 4 * i + 4 <= lo || hi <= 4 * i
    ensures after[i] == before[i]
  {
    forall k: nat | k < 4
      ensures ByteOf(after[i], k) == ByteOf(before[i], k)
    {
      var a: u32 := 4 * i + k;
      assert a / 4 == i && a % 4 == k;
      assert ByteAt(after, a) == ByteAt(before, a);
    }
    WordFromBytes(after[i], before[i]);
  }

  function SetByte(words: seq<u32>, a: u32, b: byte): (after: seq<u32>)
    requires IsMemory(words)
    ensures IsMemory(after)
  {
    words[a / 4 := WithByte(words[a / 4], a % 4, b)]
  }

  lemma SetByteSetsOne(words: seq<u32>, a: u32, b: byte)
    requires IsMemory(words)
    ensures forall x: u32 :: ByteAt(SetByte(words, a, b), x) == if x == a then b else ByteAt(words, x)
  {
    forall x: u32
      ensures ByteAt(SetByte(words, a, b), x) == if x == a then b else ByteAt(words, x)
    {
      if x / 4 == a / 4 && x != a {
        assert x % 4 != a % 4;
      }
    }
  }
}
