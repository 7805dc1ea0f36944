/** C strings as they lie in a buffer: the characters before the first NUL, and digits. */
module CStrings {
  import opened Words

  const NUL: byte := 0
  const DIGIT_0: byte := 0x30

  predicate IsDigit(c: byte) {
    DIGIT_0 <= c <= DIGIT_0 + 9
  }

  /** What precedes the first NUL; the whole sequence when there is none. */
  function Cut(s: seq<byte>): (r: seq<byte>)
    ensures |r| <= |s|
  {
    if s == [] || s[0] == NUL then [] else [s[0]] + Cut(s[1..])
  }

  /** Cut(s) is the longest NUL-free prefix of s. */
  lemma {:induction false} CutIs(s: seq<byte>)
    ensures Cut(s) == s[..|Cut(s)|] && NUL !in Cut(s)
    ensures |Cut(s)| < |s| ==> s[|Cut(s)|] == NUL
  {
    if s != [] && s[0] != NUL {
      CutIs(s[1..]);
    }
  }

  lemma {:induction false} CutUnique(s: seq<byte>, n: nat)
    requires n <= |s| && NUL !in s[..n] && (n < |s| ==> s[n] == NUL)
    ensures Cut(s) == s[..n]
  {
    if n > 0 {
      assert s[..n][0] == s[0];
      assert s[0] in s[..n];
      assert s[1..][..n - 1] == s[..n][1..];
      CutUnique(s[1..], n - 1);
    }
  }

  /** Two buffers that agree up to the end of the string hold the same string. */
  lemma SameCut(s: seq<byte>, t: seq<byte>)
    requires |s| == |t| && forall k :: 0 <= k <= |Cut(s)| && k < |s| ==> s[k] == t[k]
    ensures Cut(t) == Cut(s)
  {
    CutIs(s);
    var n := |Cut(s)|;
    assert t[..n] == s[..n];
    CutUnique(t, n);
  }
}
